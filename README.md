# Synapse disk-space janitor: a Dafny model of its sequential core

The janitor is a maintenance agent for a self-hosted Matrix (Synapse)
server. It counts the rows each room holds in the `state_groups_state`
table, shows the biggest rooms, and has rooms deleted through the Synapse
admin API before it removes their state-group rows from the database. This
project models the pieces of sequential logic that sit inside that I/O code
and proves what they compute. Every HTTP exchange and every SQL statement is
an input to the model: what the server or the driver answered.

- `outcomes.dfy` (`Outcomes`): `Option` and `Result`, standing for Go's
  nil-able `error` and `(value, error)` pairs.
- `map_sums.dfy` (`MapSums`): the sum of a map's values, and the facts that a
  Go loop over a map relies on. The sum does not depend on the order the keys
  are visited in, and it changes predictably when one key is updated.
- `matrix_admin.dfy` (`MatrixAdmin`, from `matrix_admin_service.go`):
  - the body of the room-deletion request;
  - the reconciliation of the per-worker deletion reports into one verdict:
    the highest-ranked recognised status under
    `"" < shutting_down < purging < failed < complete`, plus the
    duplicate-free set of kicked or failed-to-kick users. A `failed` verdict
    becomes an error that lists every distinct error string;
  - the choice of a room's display name;
  - the admin-room membership test behind `Login`.
- `db_model.dfy` (`DbModel`, from `db_model.go`):
  - the resumable per-state-group delete loop and the progress records it
    sends;
  - the three ordered, fail-fast deletes of a room's state groups;
  - the collection of a room's state-group ids, which skips rows that fail
    to scan.
- `row_count.dfy` (`RowCount`, from `main.go`): the loop that counts rows
  per room and throttles its progress log.
- `frontend.dfy` (`Frontend`, from the `/` handler in `frontend.go`): the
  biggest-rooms summary. It keeps the rooms over 10000 rows, sorts them in
  place from largest to smallest, and labels the ten biggest. An "Others"
  entry makes the row total balance.

Modelling choices:

- An HTTP reply is `Reply(statusCode, body)` or `NoReply(reason)`. The body is
  `ReadFailed`, `Unparsable` or `Parsed(value)`. Each function checks the
  status and reads the body in the same order as the Go code. For example,
  `GetRoomName` reads the body before it looks at the status, so a read error
  on a 404 is still an error.
- One SQL `DELETE` is an `ExecOutcome`: `ExecFailed`, `RowsAffectedFailed`
  or `Affected(rows)`. A query is `QueryFailed` or a `Cursor` of per-row scan
  outcomes.
- Channels become returned sequences. `DeleteStateGroupsState` returns the
  ids whose statements it issued, in order, and the records it sends.
- `main.go`'s clock is an input: `now(n)` is the one reading of `time.Now()`
  taken while the n-th row is handled, in nanoseconds (see "Left out" for
  the second reading). The throttle compares it
  strictly with `lastUpdateTime + Second`, as `After` does.
- The name lookup inside the summary loop is an input, `nameOf(id)`. When
  `GetRoomName` fails, the handler logs the error and uses the empty name it
  got back.
- `Login` returns `false` with no error when the admin room has no members.
  The error built at `matrix_admin_service.go:345` wraps a nil error, and
  wrapping nil gives nil.
- `roomsSlice[0:10]` shares storage with `roomsSlice`. The model therefore
  overwrites the first ten entries of the sorted array in place. The appended
  "Others" entry lands at index 10 of the same storage when there are more
  than ten big rooms.
- Two details of the code matter here. The code sends a
  `DeleteStateGroupsStateStatus` only after a successful id, not after
  failed ones. Its `StateGroupsDeleted` is the
  absolute position `i + 1`, while `RowsDeleted` and `Errors` count from
  `startAt`.

## Model

| member | source | states |
|---|---|---|
| `MatrixAdmin.DeleteRoomBody` | matrix_admin_service.go:93-98 | the request blocks the room exactly when `ban`, always force-purges and purges, with the fixed message |
| `MatrixAdmin.DeleteRoom` | matrix_admin_service.go:91-134 | the request sent carries `ban` as `block`, with force-purge and purge set; the call succeeds exactly when a reply came back with a status below 300 |
| `MatrixAdmin.ListOf` | matrix_admin_service.go:203-212 | the slice built from a map used as a set holds every element of the set exactly once |
| `MatrixAdmin.MostCompleteStatus` | matrix_admin_service.go:172-200 | the verdict is always `""` or one of the four recognised statuses |
| `MatrixAdmin.ReconcileDeletionStatus` | matrix_admin_service.go:170-217 | the loop computes the highest-ranked recognised status. A `failed` verdict becomes an error: the failure prefix followed by a duplicate-free newline-joined listing of exactly the distinct non-empty error strings, each of which therefore occurs in the message. Any other verdict is returned with a duplicate-free list of exactly the kicked and failed-to-kick users |
| `MatrixAdmin.GetDeleteRoomStatus` | matrix_admin_service.go:136-218 | transport errors, statuses of 300 or more, read errors and parse errors are errors; a delivered reply gives the reconciliation's verdict and users, or on `failed` exactly `"room deletion failed: \n"` followed by the distinct errors joined with newlines |
| `MatrixAdmin.HighestRankIsMaximum` | matrix_admin_service.go:184-200 | no result outranks the computed rank, and a non-zero rank is the rank of some result |
| `MatrixAdmin.MostCompleteStatusIsMaximum` | matrix_admin_service.go:184-200 | every recognised status among the results ranks at most the verdict, and a non-empty verdict is the status of some result |
| `MatrixAdmin.NothingRecognisedGivesEmpty` | matrix_admin_service.go:172-200 | with no results, or only unrecognised statuses, the verdict is `""` |
| `MatrixAdmin.AnyCompleteGivesComplete` | matrix_admin_service.go:196-199 | one `complete` report makes the verdict `complete`, even beside a `failed` one |
| `MatrixAdmin.MostCompleteStatusIgnoresOrder` | matrix_admin_service.go:174-200 | any reordering of the results gives the same verdict |
| `MatrixAdmin.RepeatedReportChangesNothing` | matrix_admin_service.go:174-200 | repeating a report changes neither the verdict, nor the user set, nor the error set |
| `MatrixAdmin.AffectedUsersMembers` | matrix_admin_service.go:175-180 | a user is in the set exactly when some result lists them as kicked or failed to kick |
| `MatrixAdmin.ErrorSetMembers` | matrix_admin_service.go:181-183 | a string is in the error set exactly when it is non-empty and some result reports it |
| `MatrixAdmin.JoinContains` | matrix_admin_service.go:214 | every joined part occurs in the joined string |
| `MatrixAdmin.ChooseRoomName` | matrix_admin_service.go:254-260 | a non-empty canonical alias wins, then a non-empty name, else "no name found"; the result is never empty |
| `MatrixAdmin.GetRoomName` | matrix_admin_service.go:220-261 | the lookup succeeds exactly on a readable 404 or a decoded 200; 404 gives "no name found", 200 the chosen name, never an empty one |
| `MatrixAdmin.HasMember` | matrix_admin_service.go:348-355 | the search finds the user exactly when the id is among the members |
| `MatrixAdmin.Login` | matrix_admin_service.go:266-356 | a login status above 200 gives false; every other failed request, read or decode is an error; the result is true exactly when all requests succeed and `@username:domain` is a member of the admin room |
| `DbModel.DeleteStateGroupsState` | db_model.go:174-206 | issues one statement per id of `ids[startAt..]`, in order, and none when `startAt` is past the end; the records sent are those of the reference run from `startAt` |
| `DbModel.StatusesDescribeSuccesses` | db_model.go:185-201 | each record follows a successful id at position `g - 1` in the run, with `g` the absolute count, and carries the rows and errors counted from `startAt` up to it |
| `DbModel.StatusesStrictlyIncrease` | db_model.go:196-201 | the `StateGroupsDeleted` values strictly increase along the records |
| `DbModel.StatusForEverySuccess` | db_model.go:185-201 | an id of the run is followed by a record exactly when its statement succeeded |
| `DbModel.RowsDeletedGrows` | db_model.go:179-196 | with non-negative affected counts, the running row total and error count never shrink as the run goes on |
| `DbModel.StatusesNeverDecrease` | db_model.go:179-201 | with non-negative affected counts, `RowsDeleted` and `Errors` never decrease along the records |
| `DbModel.ResumedRunAddsUp` | db_model.go:179-196 | the totals up to a resume point plus those of the resumed run equal those of one full run |
| `DbModel.DeleteStateGroupsForRoom` | db_model.go:125-169 | the deletes run on edges, then event_to_state_groups, then state_groups, up to the first failure. On success the result is the sum of the three counts; on any failure it is -1 with an error, and that step is the last one issued |
| `DbModel.GetStateGroupsForRoom` | db_model.go:103-123 | a failed query is an error; otherwise the ids of the rows that scanned, in cursor order |
| `DbModel.ScannedIdsMembers` | db_model.go:111-120 | an id is collected exactly when some row scanned to it |
| `DbModel.ScannedIdsKeepOrder` | db_model.go:111-120 | collecting a cursor is collecting its two halves one after the other, so cursor order is kept |
| `DbModel.ScannedIdsWithoutErrors` | db_model.go:111-120 | without scan errors every row contributes its id at its own position |
| `MapSums.SumOverRemove` | frontend.go:102-103 | summing a map's values can start from any key, so iteration order does not matter |
| `MapSums.MapSumUpdate` | main.go:40 | updating one key changes the sum of values by the new value minus the old one (or zero when absent) |
| `RowCount.CountRowsByRoom` | main.go:34-51 | the map holds, for exactly the rooms of the stream, the number of their rows. Its values sum to `rowCounter`, which is the number of rows. `updateCounter` ends in `0..10000`, and the throttle state matches the reference throttle |
| `RowCount.HistogramCounts` | main.go:39-40 | a room is a key exactly when some row belongs to it, and its count is the number of its rows |
| `RowCount.HistogramSum` | main.go:39-42 | the counts add up to the number of rows consumed |
| `RowCount.UpdateCounterCycles` | main.go:41-49 | after n rows the gate counter is `n mod 10001`: it resets after exceeding 10000 whether or not a line is logged |
| `RowCount.LastUpdateChangesOnlyWhenDue` | main.go:43-45 | `lastUpdateTime` changes only on a row where the counter exceeded 10000 and the clock is more than a second past the previous value |
| `RowCount.ProgressLinesOnCycleEnds` | main.go:41-49 | progress lines fall on positive multiples of 10001 rows, no later than the current row, in increasing order |
| `RowCount.ProgressLinesThrottled` | main.go:43-47 | each progress line is logged more than a second after the previous line (or the start), and the last one's time is `lastUpdateTime` |
| `Frontend.CollectBigRooms` | frontend.go:100-110 | the total is the sum of all counts; the entries are exactly the rooms over 10000 rows, each once, with its own id and count |
| `Frontend.IndexOfLargest` | frontend.go:111-113 | the position found holds the most rows of the unsorted part |
| `Frontend.SortByRowsDescending` | frontend.go:111-113 | afterwards the array is in non-increasing order of rows and is a permutation of its contents before |
| `Frontend.LabelBiggestRooms` | frontend.go:115-135 | the first ten entries keep id and rows and get `name` and `id + ": " + name`; "Others" holds the total minus their rows, so the eleven entries sum to the total |
| `Frontend.PermutedEntries` | frontend.go:111-113 | sorting keeps every room's entry and keeps each room once |
| `Frontend.TopRoomsAreTheBiggest` | frontend.go:111-128 | the labelled top ten are big rooms of the map, largest first and distinct, and no room left out has more rows than the tenth |
| `Frontend.BiggestRoomsSummary` | frontend.go:100-135 | with ten or more big rooms: eleven entries; the ten biggest rooms, largest first, labelled with their names; then "Others" with the rest, so the rows sum to the map's total |

## Left out

- HTTP and JSON are not modelled: URL building, token redaction,
  `Client.Do`/`Get`/`Post` and `json.Marshal`/`Unmarshal`. Replies are inputs.
  The wording of error messages is not modelled either, except for the
  message of a `failed` verdict.
- The `json.Marshal` failures (matrix_admin_service.go:99-102, 279-282) and
  the `http.NewRequest` failures (105-109, 305-308) are not modelled. They
  depend on encoder and URL-parser internals.
- `Login` does not model the login request body, the password, or how the
  access token is used in the logout header. The logout reply is modelled
  only by its transport error, because the code ignores the rest.
- SQL and the driver are not modelled: `DB.Query`, `Exec`, `RowsAffected`,
  the `pg_class` row estimate, `initDatabase` and `GetDBTableSizes`.
  Statement outcomes and the estimate are inputs.
- Goroutines and channels are not modelled: the producer in
  `StateGroupsStateStream` (db_model.go:75-98), the sender in
  `DeleteStateGroupsState`, the buffer sizes 50000 and 100, and the fact
  that the status channel is never closed. `main` gets the delivered rows as
  a sequence, so the producer's skip of rows that fail to scan is not part of
  that model. The same skip is modelled in `GetStateGroupsForRoom`.
- DeleteStateGroupsState: `rowsDeleted` and `errorCount` are `int64` in Go.
  Their wrap-around is not modelled, and the same goes for the `int` sums in
  `main.go` and `frontend.go`. No realistic row count comes near 2^63.
- The progress percentage (a float, main.go:46) is not modelled, nor are
  config loading and the writing of `rooms.json` (main.go:21-32, 53-63).
- Frontend infrastructure is not modelled: sessions, cookies, flash messages,
  templates, CSS hashing, base58 and regex checks, and the reading of the
  JSON files.
- Frontend.BiggestRoomsSummary: requires at least ten rooms over 10000 rows.
  With fewer, what `roomsSlice[0:10]` does depends on the capacity that
  `append` gave the slice, because Go bounds a slice expression by its
  capacity, not its length. With nine big rooms the capacity is 16 and the
  slice succeeds. Its tenth entry is then the zero `MatrixRoom` (empty id,
  0 rows), labelled `": " + name`. With fewer than nine, or an empty map
  (an unreadable row-count file), the expression panics. Neither case is
  modelled.
- DbModel.DeleteStateGroupsState: `startAt` is a `nat`. Go's `startAt` is an
  `int`, and a negative value makes `stateGroupIds[i]` panic in the sending
  goroutine (db_model.go:181-183), which ends the process. That case is not
  modelled.
- RowCount.CountRowsByRoom: one clock reading `now(n)` serves both for the
  comparison (main.go:44) and for the new `lastUpdateTime` (main.go:45). Go
  reads the clock twice, so traces where the two readings differ are not
  represented. The logger's own time stamp on the progress line is taken to
  be that same reading. Under a monotonic clock this only makes the second
  reading no later than it really is.
- `storage_service.go` (JSON files under a mutex) and `disk_space.go` (a
  `statfs` call and a directory walk) are file I/O and are not part of this
  model.
- The modelled files contain no purge orchestration: no polling loop, no
  checkpoint persistence, and no sorting of the collected state-group ids.
  None of these is modelled.
