/** The optional value used for the nullable `latency_ms` column and for the
    probe's absent response. */
module Wrappers {
  datatype Option<+T> = None | Some(value: T)
}
