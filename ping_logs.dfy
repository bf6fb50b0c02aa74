/** The shape of one row of the `ping_logs` table and how one monitoring
    cycle turns the configured devices and their probe results into rows
    (backend/main.py, `PingLog` and the body of `monitor_network`). */
module PingLogs {
  import opened Wrappers

  /** A round-trip time in hundredths of a millisecond, i.e. the probe's
      millisecond reading after rounding to two decimals. */
  type Latency = nat

  /** The moment a row is stamped; any totally ordered clock reading. */
  type Timestamp = int

  /** A configured device: its display name and the address that is pinged. */
  datatype Device = Device(name: string, ip: string)

  /** What the ping of one device gives the cycle: a reply with its latency,
      no reply (the library's `None`), or an exception raised by the call. */
  datatype Probe = Reply(ms: Latency) | NoReply | Raises

  /** One row of `ping_logs`. */
  datatype PingLog = PingLog(
    id: nat,
    deviceName: string,
    ipAddress: string,
    isUp: bool,
    latencyMs: Option<Latency>,
    timestamp: Timestamp)

  /** A row has a latency exactly when it says the device is up. */
  predicate WellFormed(r: PingLog) {
    r.isUp <==> r.latencyMs.Some?
  }

  /** No probe of the cycle raised. */
  predicate NoneRaises(probes: seq<Probe>) {
    forall k :: 0 <= k < |probes| ==> !probes[k].Raises?
  }

  /** The row the cycle builds for one device whose probe returned normally. */
  function NewLog(dev: Device, p: Probe, id: nat, now: Timestamp): (r: PingLog)
    requires !p.Raises?
    ensures r.isUp <==> p.Reply?
    ensures r.latencyMs.Some? <==> r.isUp
    ensures p.Reply? ==> r.latencyMs == Some(p.ms)
    ensures r.deviceName == dev.name && r.ipAddress == dev.ip
    ensures r.id == id && r.timestamp == now
  {
    var isUp := p.Reply?;
    PingLog(id, dev.name, dev.ip, isUp, if isUp then Some(p.ms) else None, now)
  }

  /** The rows a cycle hands to the commit: one per device, in device order,
      numbered consecutively from `firstId`. */
  function Batch(devices: seq<Device>, probes: seq<Probe>, firstId: nat, now: Timestamp): (b: seq<PingLog>)
    requires |probes| == |devices| && NoneRaises(probes)
    ensures |b| == |devices|
    decreases |devices|
  {
    if devices == [] then []
    else [NewLog(devices[0], probes[0], firstId, now)] + Batch(devices[1..], probes[1..], firstId + 1, now)
  }

  /** The k-th row of a batch is the row of the k-th device. */
  lemma {:induction false} BatchAt(devices: seq<Device>, probes: seq<Probe>, firstId: nat, now: Timestamp, k: nat)
    requires |probes| == |devices| && NoneRaises(probes)
    requires k < |devices|
    ensures Batch(devices, probes, firstId, now)[k] == NewLog(devices[k], probes[k], firstId + k, now)
    decreases k
  {
    if k > 0 {
      assert NoneRaises(probes[1..]) by {
        forall j | 0 <= j < |probes[1..]| ensures !probes[1..][j].Raises? {
          assert probes[1..][j] == probes[j + 1];
        }
      }
      BatchAt(devices[1..], probes[1..], firstId + 1, now, k - 1);
    }
  }

  /** Everything a completed cycle records: one row per device in device
      order, copied name and address, `isUp` exactly when the device replied,
      a latency exactly when up, and consecutive ids. */
  lemma {:induction false} BatchRecordsEveryDevice(devices: seq<Device>, probes: seq<Probe>, firstId: nat, now: Timestamp)
    requires |probes| == |devices| && NoneRaises(probes)
    ensures var b := Batch(devices, probes, firstId, now);
      && |b| == |devices|
      && (forall k :: 0 <= k < |b| ==>
            && b[k].deviceName == devices[k].name
            && b[k].ipAddress == devices[k].ip
            && (b[k].isUp <==> probes[k].Reply?)
            && (probes[k].Reply? ==> b[k].latencyMs == Some(probes[k].ms))
            && WellFormed(b[k])
            && b[k].id == firstId + k
            && b[k].timestamp == now)
  {
    var b := Batch(devices, probes, firstId, now);
    forall k | 0 <= k < |b|
      ensures && b[k].deviceName == devices[k].name
              && b[k].ipAddress == devices[k].ip
              && (b[k].isUp <==> probes[k].Reply?)
              && (probes[k].Reply? ==> b[k].latencyMs == Some(probes[k].ms))
              && WellFormed(b[k])
              && b[k].id == firstId + k
              && b[k].timestamp == now
    {
      BatchAt(devices, probes, firstId, now, k);
    }
  }
}
