# Sentinela network monitor — a Dafny model of the monitoring cycle and its log

Sentinela pings a fixed list of devices in passes, sleeping 30 seconds after
each pass. A pass that commits writes one row per device into the
`ping_logs` table; a pass in which something raised writes nothing. It
serves two read queries over that table: the recent history (newest first, cut to a limit) and the
failures (rows whose device was down, newest first). This project models
that core of `backend/main.py`:

- `PingLogs` (ping_logs.dfy): the row shape `PingLog`, a configured
  `Device`, the outcome of one ping (`Probe`: a reply with its latency, no
  reply, or an exception raised by the call), the row one device produces
  (`NewLog`) and the rows a whole pass produces (`Batch`).
- `Queries` (queries.dfy): `ORDER BY timestamp DESC` (`OrderByTimestampDesc`,
  an insertion sort), `WHERE is_up = false` (`Down`), `LIMIT` (`Limit`), and
  the two answers `History` and `Failures`, with lemmas stating what every
  admissible answer satisfies.
- `Monitor` (monitor.dfy): the table as a class `PingLogStore` holding the
  rows (`log`) and the next id (`nextId`); `MonitorCycle` is one pass of the
  `while True` loop (ping each device in order, add its row to the session,
  commit once; any exception skips the commit), `MonitorNetwork` runs a
  bounded number of passes, and `GetHistory` / `GetFailures` are the
  read-only endpoints. `Recorded` says what a run of passes adds to the table.
- `Wrappers` (wrappers.dfy): `Option`, for the nullable latency.

Latencies are whole hundredths of a millisecond (the value after the source
rounds to two decimals). Timestamps are integers supplied with each pass.
The probe outcome of each device, the clock reading, and whether the commit
raises are inputs of a pass (`CycleInput`).

Three behaviours of the code that a reader might expect otherwise, and that
the model follows as written:

- A ping that raises aborts the whole pass: every row of that pass is
  discarded, not only the failing device's (backend/main.py:54-74). The
  device is not recorded as down.
- The queries order by timestamp only (backend/main.py:104, :110), with no
  tie-break by id. The functions `OrderByTimestampDesc`, `History` and
  `Failures` compute one admissible answer (among equal timestamps, the
  earlier-inserted row first). The contracts of `GetHistory` and
  `GetFailures`, and the lemmas about the queries, state only what holds of
  every admissible answer, so they promise no order among rows with equal
  timestamps.
- A negative `limit` bounds nothing, as SQLite reads `LIMIT`; a limit of 0
  returns no rows.

## Model

| member | source | states |
|---|---|---|
| PingLogs.NewLog | backend/main.py:56-68 | the row of one device: `isUp` exactly when the ping answered, a latency exactly when up (the reply's value), name and address copied from the device |
| PingLogs.Batch | backend/main.py:55-69 | a pass produces exactly one row per configured device |
| PingLogs.BatchAt | backend/main.py:55-69 | the k-th row of a pass is the row of the k-th device, with id `firstId + k` (device order is kept) |
| PingLogs.BatchRecordsEveryDevice | backend/main.py:55-69 | every row of a pass: device name and address copied, up exactly when the device replied, latency present exactly when up, consecutive ids, the pass's timestamp |
| Queries.Insert | backend/main.py:104 | inserting a row into a newest-first sequence keeps it newest first and adds exactly that row |
| Queries.OrderByTimestampDesc | backend/main.py:104 | `ORDER BY timestamp DESC` returns a permutation of its input (same rows, same multiplicities), newest first |
| Queries.DescendingIffNewestFirst | backend/main.py:104 | the neighbour-wise order the sort keeps is the same as "no later row is newer than an earlier one" |
| Queries.Down | backend/main.py:110 | `WHERE is_up = false` keeps each down row exactly as often as in the log and drops every up row |
| Queries.Limit | backend/main.py:104 | `LIMIT` returns a prefix of its input of length `limit`, or all of it when the limit is negative or at least the input's length |
| Queries.NewestFirstPrefix | backend/main.py:104 | cutting a newest-first sequence leaves out no row newer than a row it keeps |
| Queries.LimitOfOrdered | backend/main.py:104 | limiting any newest-first permutation of the log gives the right count, rows of the log, newest first, none left out newer than one kept |
| Queries.History | backend/main.py:104 | the history query returns `limit` rows (all rows when the limit is negative or too large), each row as often as at most in the log; its order and which rows it keeps are HistoryIsNewestRows |
| Queries.Failures | backend/main.py:110 | the failures query returns each down row exactly as often as in the log and no up row; its order is FailuresAreDownRows |
| Monitor.Recorded | backend/main.py:49-77 | the rows a run of passes adds carry consecutive ids from the first free id and each has a latency exactly when up; their number is RecordedSize, the effect of a failed pass FailedCycleLeavesNoTrace |
| Queries.HistoryIsNewestRows | backend/main.py:101-105 | the history has `limit` rows (or all rows), all from the log, newest first, and no row left out is newer than a row returned |
| Queries.FailuresAreDownRows | backend/main.py:107-111 | the failures are exactly the log's down rows with their multiplicities, a row is listed exactly when it is in the log and down, newest first |
| Monitor.RecordedSize | backend/main.py:49-77 | a run of passes adds exactly one row per device for each pass that commits, and nothing for the others |
| Monitor.FailedCycleLeavesNoTrace | backend/main.py:51-77 | a pass that raises leaves the table as if it had not run, and later passes still record their rows |
| Monitor.PingLogStore.MonitorCycle | backend/main.py:53-74 | the table changes only at the single commit, exactly when no ping and not the commit raised; then it gains the pass's batch after the old rows; otherwise rows and next id are as before; the table keeps ids 1, 2, 3, ... in insertion order with the next id one past the last, and well-formed rows |
| Monitor.PingLogStore.MonitorNetwork | backend/main.py:49-77 | every pass runs whatever a ping or the commit of an earlier pass raised; pass k commits exactly when nothing in it raised; the table ends as the old rows followed by the batches of the committed passes, and the next id has advanced by one per device for each committed pass |
| Monitor.PingLogStore.GetHistory | backend/main.py:101-105 | returns `limit` rows (all when the limit is negative or too large), each at most as often as in the table, newest first, none left out newer than one returned; no order among equal timestamps; changes nothing |
| Monitor.PingLogStore.GetFailures | backend/main.py:107-111 | returns each down row exactly as often as in the table and no up row, newest first; no order among equal timestamps; changes nothing |

## Left out

- The `ping3.ping` network call (backend/main.py:56): a library outside this model. Its result for each device is an input of the pass. The library's `False` result on some errors is not modelled. The code tests only `is not None`, so such a result would count as up.
- Rounding the latency to two decimals (backend/main.py:59): floating point. The latency is an input already in hundredths of a millisecond.
- SQLAlchemy and SQLite plumbing: the engine, session factory, `create_all` and the `get_db` session lifetime (backend/main.py:22-46). The table is a sequence of rows and the session a local sequence.
- The primary-key autoincrement (backend/main.py:30) is a counter `nextId` starting at 1. A rolled-back pass does not advance it.
- The `datetime.now` default of `timestamp` (backend/main.py:35): the clock is an input, one reading per pass stamps all its rows. SQLAlchemy calls it in the application for each row when the session flushes, so real rows of one pass may differ by microseconds.
- `asyncio.sleep`, `create_task` and `lifespan` (backend/main.py:77, :80-85): scheduling. `MonitorNetwork` runs a bounded number of passes instead of the endless loop. Concurrent reads during a commit are not modelled. The commit is the single assignment of `log`, so a read sees all of a pass's rows or none.
- The FastAPI app, CORS middleware, `read_root` and the route decorators (backend/main.py:87-99): HTTP transport. `DefaultHistoryLimit` (50 rows) is the default of `GetHistory`'s limit.
- Loading `DEVICES` from the environment with dotenv (backend/main.py:15-19): configuration I/O. The device list is a parameter. A missing variable (an address of `None`) is not modelled.
- `print` logging (backend/main.py:52, :72).
- Queries.Limit: the limit is an unbounded integer. At backend/main.py:104 it reaches SQLite as a bound parameter, and a value outside the signed 64-bit range makes the query raise. The model returns rows for such a limit instead (all rows when it is negative or at least the log's length).
- Queries.History: inherits this from Limit. A `get_history` limit outside the signed 64-bit range makes the query at backend/main.py:104 raise, and the model does not capture that error.
- MonitorNetwork: only backend/main.py:55-70 sits inside the `try`. An exception raised by the `print` at :52, by `SessionLocal()` at :53, by the handler's `print` at :72 or by `db.close()` at :74 leaves the `while True` loop and ends the background task for good. The model does not capture this: its passes fail only through a ping or the commit, and every pass runs.
- Exceptions raised by building a row or by `db.add` are not modelled separately. They abort the pass exactly as a raising ping does.
