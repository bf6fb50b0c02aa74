/** The two read queries over the log (backend/main.py, `get_history` and
    `get_failures`): ordering by timestamp, newest first, the failure
    filter and the row limit. The query orders on the timestamp alone, so
    nothing here promises an order among rows with equal timestamps: the
    lemmas state only what every admissible answer satisfies. */
module Queries {
  import opened PingLogs

  /** Newest first: timestamps never increase along the sequence. */
  predicate NewestFirst(s: seq<PingLog>) {
    forall i, j :: 0 <= i < j < |s| ==> s[i].timestamp >= s[j].timestamp
  }

  /** Newest first, stated on neighbours: the form the sort maintains. */
  predicate Descending(s: seq<PingLog>)
    decreases |s|
  {
    |s| <= 1 || (s[0].timestamp >= s[1].timestamp && Descending(s[1..]))
  }

  /** The neighbour form and the all-pairs form of "newest first" agree. */
  lemma {:induction false} DescendingIffNewestFirst(s: seq<PingLog>)
    ensures Descending(s) <==> NewestFirst(s)
    decreases |s|
  {
    if |s| > 1 {
      DescendingIffNewestFirst(s[1..]);
      if Descending(s) {
        forall i, j | 0 <= i < j < |s| ensures s[i].timestamp >= s[j].timestamp {
          if i > 0 {
            assert s[i] == s[1..][i - 1] && s[j] == s[1..][j - 1];
          } else if j > 1 {
            assert s[j] == s[1..][j - 1] && s[1] == s[1..][0];
          }
        }
      }
      if NewestFirst(s) {
        assert NewestFirst(s[1..]) by {
          forall i, j | 0 <= i < j < |s[1..]| ensures s[1..][i].timestamp >= s[1..][j].timestamp {
            assert s[1..][i] == s[i + 1] && s[1..][j] == s[j + 1];
          }
        }
      }
    }
  }

  /** Puts `x` into a newest-first sequence, keeping it newest first; the
      new head is `x` or the old head. */
  function Insert(x: PingLog, s: seq<PingLog>): (r: seq<PingLog>)
    requires Descending(s)
    ensures Descending(r)
    ensures multiset(r) == multiset(s) + multiset{x}
    ensures |r| == |s| + 1 && (r[0] == x || (s != [] && r[0] == s[0]))
    decreases |s|
  {
    if s == [] || s[0].timestamp <= x.timestamp then [x] + s
    else
      var rest := Insert(x, s[1..]);
      assert s == [s[0]] + s[1..];
      [s[0]] + rest
  }

  /** `ORDER BY timestamp DESC`: the rows of `s`, each as often as in `s`,
      newest first. */
  function OrderByTimestampDesc(s: seq<PingLog>): (r: seq<PingLog>)
    ensures Descending(r)
    ensures multiset(r) == multiset(s)
  {
    if s == [] then []
    else
      assert s == [s[0]] + s[1..];
      Insert(s[0], OrderByTimestampDesc(s[1..]))
  }

  /** `WHERE is_up = false`: the rows that record an unreachable device,
      each exactly as often as in the log. */
  function Down(s: seq<PingLog>): (r: seq<PingLog>)
    ensures forall x :: multiset(r)[x] == if x.isUp then 0 else multiset(s)[x]
  {
    if s == [] then []
    else
      assert s == [s[0]] + s[1..];
      (if s[0].isUp then [] else [s[0]]) + Down(s[1..])
  }

  /** `LIMIT limit` as SQLite reads it: a negative limit bounds nothing. */
  function Limit(s: seq<PingLog>, limit: int): (r: seq<PingLog>)
    ensures r <= s
    ensures |r| == if 0 <= limit < |s| then limit else |s|
  {
    if 0 <= limit < |s| then s[..limit] else s
  }

  /** The number of rows `get_history` returns when the request names none. */
  const DefaultHistoryLimit: int := 50

  /** The answer of `get_history(limit)`: `limit` rows of the log (all of
      them when the limit is negative or too large). Its order and which
      rows it keeps are stated by HistoryIsNewestRows. */
  function History(log: seq<PingLog>, limit: int): (r: seq<PingLog>)
    ensures |r| == if 0 <= limit < |log| then limit else |log|
    ensures multiset(r) <= multiset(log)
  {
    var sorted := OrderByTimestampDesc(log);
    assert |sorted| == |log| by {
      assert |multiset(sorted)| == |multiset(log)|;
    }
    var r := Limit(sorted, limit);
    assert sorted == r + sorted[|r|..];
    r
  }

  /** The answer of `get_failures()`: the down rows of the log, each as often
      as in the log, and no up row. Its order is stated by
      FailuresAreDownRows. */
  function Failures(log: seq<PingLog>): (r: seq<PingLog>)
    ensures forall x :: multiset(r)[x] == if x.isUp then 0 else multiset(log)[x]
  {
    OrderByTimestampDesc(Down(log))
  }

  /** In a newest-first sequence no row after position `k` is newer than a
      row before it. */
  lemma NewestFirstSplit(s: seq<PingLog>, k: nat)
    requires NewestFirst(s) && k <= |s|
    ensures forall x, y :: x in s[k..] && y in s[..k] ==> x.timestamp <= y.timestamp
  {
    forall x, y | x in s[k..] && y in s[..k] ensures x.timestamp <= y.timestamp {
      var j :| 0 <= j < |s[k..]| && s[k..][j] == x;
      var i :| 0 <= i < k && s[..k][i] == y;
      assert s[i] == y && s[k + j] == x;
    }
  }

  /** Cutting a newest-first sequence after `k` rows leaves out no row
      newer than a row it keeps. */
  lemma NewestFirstPrefix(s: seq<PingLog>, k: nat)
    requires NewestFirst(s) && k <= |s|
    ensures forall x, y :: x in multiset(s) - multiset(s[..k]) && y in s[..k] ==> x.timestamp <= y.timestamp
  {
    assert s == s[..k] + s[k..];
    assert multiset(s) - multiset(s[..k]) == multiset(s[k..]);
    NewestFirstSplit(s, k);
    forall x | x in multiset(s) - multiset(s[..k]) ensures x in s[k..] {
      assert x in multiset(s[k..]);
    }
  }

  /** Limiting a newest-first ordering of the log to `limit` rows. */
  lemma LimitOfOrdered(log: seq<PingLog>, sorted: seq<PingLog>, limit: int)
    requires multiset(sorted) == multiset(log) && NewestFirst(sorted)
    ensures |Limit(sorted, limit)| == (if 0 <= limit < |log| then limit else |log|)
    ensures multiset(Limit(sorted, limit)) <= multiset(log)
    ensures NewestFirst(Limit(sorted, limit))
    ensures forall x, y :: x in multiset(log) - multiset(Limit(sorted, limit)) && y in Limit(sorted, limit) ==>
              x.timestamp <= y.timestamp
  {
    assert |sorted| == |log| by {
      assert |multiset(sorted)| == |multiset(log)|;
    }
    var k := |Limit(sorted, limit)|;
    assert Limit(sorted, limit) == sorted[..k];
    NewestFirstPrefix(sorted, k);
    assert sorted == sorted[..k] + sorted[k..];
  }

  /** The history holds at most `limit` rows, all taken from the log, newest
      first, and no row it leaves out is newer than a row it returns. */
  lemma HistoryIsNewestRows(log: seq<PingLog>, limit: int)
    ensures |History(log, limit)| == (if 0 <= limit < |log| then limit else |log|)
    ensures multiset(History(log, limit)) <= multiset(log)
    ensures NewestFirst(History(log, limit))
    ensures forall x, y :: x in multiset(log) - multiset(History(log, limit)) && y in History(log, limit) ==>
              x.timestamp <= y.timestamp
  {
    var sorted := OrderByTimestampDesc(log);
    DescendingIffNewestFirst(sorted);
    LimitOfOrdered(log, sorted, limit);
  }

  /** The failures are exactly the log's rows with `isUp == false`, none
      missing and none extra, newest first. */
  lemma FailuresAreDownRows(log: seq<PingLog>)
    ensures forall x :: multiset(Failures(log))[x] == if x.isUp then 0 else multiset(log)[x]
    ensures forall x :: x in Failures(log) <==> x in log && !x.isUp
    ensures NewestFirst(Failures(log))
  {
    var r := Failures(log);
    DescendingIffNewestFirst(r);
    forall x ensures x in r <==> x in log && !x.isUp {
      assert x in r <==> x in multiset(r);
      assert x in log <==> x in multiset(log);
    }
  }
}
