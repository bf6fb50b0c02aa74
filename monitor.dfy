/** The monitoring robot and the `ping_logs` table it writes to
    (backend/main.py, `monitor_network`, `get_history`, `get_failures`).
    The table is a sequence of rows that only a commit changes; the
    session that buffers a cycle's rows is a local sequence. */
module Monitor {
  import opened Wrappers
  import opened PingLogs
  import Queries

  /** What the outside world gives one pass of the monitoring loop: the
      outcome of each device's ping, in device order, the clock reading
      that stamps the rows, and whether the commit raises. */
  datatype CycleInput = CycleInput(probes: seq<Probe>, now: Timestamp, commitRaises: bool)

  /** A pass of the loop reaches its commit and the commit succeeds. */
  predicate Commits(c: CycleInput) {
    NoneRaises(c.probes) && !c.commitRaises
  }

  /** Each pass has one probe outcome per configured device. */
  predicate Aligned(devices: seq<Device>, cycles: seq<CycleInput>) {
    forall k :: 0 <= k < |cycles| ==> |cycles[k].probes| == |devices|
  }

  /** The rows that a run of passes adds to the table, ids numbered from
      `firstId`: each committed pass adds its batch, a failed one nothing.
      The ids run on consecutively from `firstId` and every row has a
      latency exactly when it says the device is up. */
  function Recorded(devices: seq<Device>, cycles: seq<CycleInput>, firstId: nat): (r: seq<PingLog>)
    requires Aligned(devices, cycles)
    ensures forall k :: 0 <= k < |r| ==> r[k].id == firstId + k && WellFormed(r[k])
    decreases |cycles|
  {
    if cycles == [] then []
    else
      var c := cycles[0];
      if Commits(c) then
        BatchRecordsEveryDevice(devices, c.probes, firstId, c.now);
        Batch(devices, c.probes, firstId, c.now) + Recorded(devices, cycles[1..], firstId + |devices|)
      else Recorded(devices, cycles[1..], firstId)
  }

  /** How many passes of a run commit. */
  function CommitCount(cycles: seq<CycleInput>): (n: nat)
    ensures n <= |cycles|
    decreases |cycles|
  {
    if cycles == [] then 0
    else (if Commits(cycles[0]) then 1 else 0) + CommitCount(cycles[1..])
  }

  /** The one step of arithmetic RecordedSize needs, kept apart so that the
      solver meets the product in a small context. */
  lemma MulSucc(a: nat, b: nat)
    ensures a * (b + 1) == a * b + a
  {
  }

  /** A run records exactly one row per device for every pass that commits. */
  lemma {:induction false} RecordedSize(devices: seq<Device>, cycles: seq<CycleInput>, firstId: nat)
    requires Aligned(devices, cycles)
    ensures |Recorded(devices, cycles, firstId)| == |devices| * CommitCount(cycles)
    decreases |cycles|
  {
    if cycles != [] {
      if Commits(cycles[0]) {
        RecordedSize(devices, cycles[1..], firstId + |devices|);
        MulSucc(|devices|, CommitCount(cycles[1..]));
      } else {
        RecordedSize(devices, cycles[1..], firstId);
      }
    }
  }

  /** A pass that fails leaves no trace: the run records the same rows as
      if it had never happened, and the passes after it still record theirs. */
  lemma {:induction false} FailedCycleLeavesNoTrace(
    devices: seq<Device>, before: seq<CycleInput>, failed: CycleInput, after: seq<CycleInput>, firstId: nat)
    requires Aligned(devices, before + after) && |failed.probes| == |devices|
    requires !Commits(failed)
    ensures Aligned(devices, before + [failed] + after)
    ensures Recorded(devices, before + [failed] + after, firstId) == Recorded(devices, before + after, firstId)
    decreases |before|
  {
    var all := before + [failed] + after;
    assert Aligned(devices, all) by {
      forall k | 0 <= k < |all| ensures |all[k].probes| == |devices| {
        if k < |before| {
          assert all[k] == (before + after)[k];
        } else if k > |before| {
          assert all[k] == (before + after)[k - 1];
        }
      }
    }
    if before == [] {
      assert all == [failed] + after && all[1..] == after;
      assert before + after == after;
    } else {
      var rest := before[1..];
      assert all[0] == (before + after)[0] == before[0];
      assert all[1..] == rest + [failed] + after;
      assert (before + after)[1..] == rest + after;
      var next := if Commits(before[0]) then firstId + |devices| else firstId;
      FailedCycleLeavesNoTrace(devices, rest, failed, after, next);
    }
  }

  /** The `ping_logs` table: its rows in insertion order and the id the next
      inserted row receives. */
  class PingLogStore {
    var log: seq<PingLog>
    var nextId: nat

    /** The rows carry ids 1, 2, 3, ... in insertion order and `nextId` is
        one past the last of them: no row is ever deleted, and SQLite gives a
        new row max(rowid) + 1. Every row has a latency exactly when it says
        the device is up. */
    ghost predicate Valid()
      reads this
    {
      && nextId == |log| + 1
      && (forall i :: 0 <= i < |log| ==> log[i].id == i + 1 && WellFormed(log[i]))
    }

    /** A fresh, empty table; the first row gets id 1. */
    constructor ()
      ensures Valid() && log == [] && nextId == 1
    {
      log := [];
      nextId := 1;
    }

    /** One pass of the `while True` loop of `monitor_network`: ping every
        device in order, add its row to the session, and commit the whole
        session once at the end. An exception anywhere skips the commit and
        the session is closed, so the table is exactly as before. Returns
        whether the commit happened. */
    method MonitorCycle(devices: seq<Device>, c: CycleInput) returns (committed: bool)
      requires Valid()
      requires |c.probes| == |devices|
      modifies this
      ensures Valid()
      ensures committed <==> Commits(c)
      ensures committed ==> log == old(log) + Batch(devices, c.probes, old(nextId), c.now)
      ensures committed ==> nextId == old(nextId) + |devices|
      ensures !committed ==> log == old(log) && nextId == old(nextId)
    {
      var session: seq<PingLog> := [];
      var raised := false;
      var i := 0;
      while i < |devices|
        invariant 0 <= i <= |devices|
        invariant log == old(log) && nextId == old(nextId)
        invariant |session| == i
        invariant forall k :: 0 <= k < i ==> !c.probes[k].Raises?
        invariant forall k :: 0 <= k < i ==> session[k] == NewLog(devices[k], c.probes[k], nextId + k, c.now)
      {
        if c.probes[i].Raises? {
          raised := true;
          break;
        }
        session := session + [NewLog(devices[i], c.probes[i], nextId + i, c.now)];
        i := i + 1;
      }
      if raised || c.commitRaises {
        // the exception is caught and the session closed without a commit
        committed := false;
      } else {
        assert session == Batch(devices, c.probes, nextId, c.now) by {
          forall k | 0 <= k < |devices|
            ensures session[k] == Batch(devices, c.probes, nextId, c.now)[k]
          {
            BatchAt(devices, c.probes, nextId, c.now, k);
          }
        }
        log := log + session;
        nextId := nextId + |session|;
        committed := true;
      }
    }

    /** A bounded run of the monitoring loop: one pass per element of
        `cycles`, whatever a ping or the commit of an earlier pass raised.
        The table grows by exactly the batches of the passes that commit. */
    method MonitorNetwork(devices: seq<Device>, cycles: seq<CycleInput>) returns (committed: seq<bool>)
      requires Valid()
      requires Aligned(devices, cycles)
      modifies this
      ensures Valid()
      ensures |committed| == |cycles|
      ensures forall k :: 0 <= k < |cycles| ==> (committed[k] <==> Commits(cycles[k]))
      ensures log == old(log) + Recorded(devices, cycles, old(nextId))
      ensures nextId == old(nextId) + |devices| * CommitCount(cycles)
    {
      committed := [];
      var i := 0;
      while i < |cycles|
        invariant 0 <= i <= |cycles|
        invariant Valid()
        invariant Aligned(devices, cycles[i..])
        invariant |committed| == i
        invariant forall k :: 0 <= k < i ==> (committed[k] <==> Commits(cycles[k]))
        invariant old(log) + Recorded(devices, cycles, old(nextId)) == log + Recorded(devices, cycles[i..], nextId)
      {
        var ok := MonitorCycle(devices, cycles[i]);
        assert cycles[i..][1..] == cycles[i + 1..];
        committed := committed + [ok];
        i := i + 1;
      }
      RecordedSize(devices, cycles, old(nextId));
    }

    /** `get_history(limit)`: reads the table and changes nothing. Its answer
        is stated only by what every newest-first answer satisfies, so no
        order among rows with equal timestamps is promised. */
    method GetHistory(limit: int := Queries.DefaultHistoryLimit) returns (logs: seq<PingLog>)
      ensures |logs| == (if 0 <= limit < |log| then limit else |log|)
      ensures multiset(logs) <= multiset(log)
      ensures Queries.NewestFirst(logs)
      ensures forall x, y :: x in multiset(log) - multiset(logs) && y in logs ==> x.timestamp <= y.timestamp
      ensures unchanged(this)
    {
      logs := Queries.History(log, limit);
      Queries.HistoryIsNewestRows(log, limit);
    }

    /** `get_failures()`: reads the table and changes nothing. Its answer is
        stated only by what every newest-first answer satisfies. */
    method GetFailures() returns (logs: seq<PingLog>)
      ensures forall x :: multiset(logs)[x] == if x.isUp then 0 else multiset(log)[x]
      ensures forall x :: x in logs <==> x in log && !x.isUp
      ensures Queries.NewestFirst(logs)
      ensures unchanged(this)
    {
      logs := Queries.Failures(log);
      Queries.FailuresAreDownRows(log);
    }
  }
}
