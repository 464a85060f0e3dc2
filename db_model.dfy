/** The row-deleting and row-collecting loops of the database model
    (db_model.go). Every SQL statement is an input: what its `Exec` and
    `RowsAffected` calls gave back, or which rows a query's cursor yielded. */
module DbModel {
  import opened Outcomes

  /** One row of state_groups_state as the scanner delivers it. */
  datatype StateGroupsStateRow = StateGroupsStateRow(
    stateGroup: int,
    stateType: string,
    stateKey: string,
    roomId: string,
    eventId: string)

  /** Progress record sent on the status channel of DeleteStateGroupsState. */
  datatype DeleteStateGroupsStateStatus = DeleteStateGroupsStateStatus(
    stateGroupsDeleted: int,
    rowsDeleted: int,
    errors: int)

  /** What one DELETE statement did: `Exec` failed, `RowsAffected` failed,
      or it removed `rows` rows. */
  datatype ExecOutcome = ExecFailed | RowsAffectedFailed | Affected(rows: int)

  /** One step of a `rows.Next()` loop: `Scan` failed, or gave an id. */
  datatype ScanOutcome = ScanFailed | Scanned(id: int)

  /** A query: it failed, or its cursor yields these rows in order. */
  datatype QueryOutcome = QueryFailed(reason: string) | Cursor(rows: seq<ScanOutcome>)

  /** The tables DeleteStateGroupsForRoom deletes from, in its order. */
  datatype Table = StateGroupEdges | EventToStateGroups | StateGroups

  const RoomDeletionOrder := [StateGroupEdges, EventToStateGroups, StateGroups]

  // ---------------------------------------------------------------------
  // DeleteStateGroupsState: reference definitions

  function RowsOf(outcome: ExecOutcome): int
  {
    if outcome.Affected? then outcome.rows else 0
  }

  /** Rows removed by the successful statements among positions lo..hi-1. */
  function RowsDeletedBetween(outcomes: seq<ExecOutcome>, lo: nat, hi: nat): int
    requires lo <= hi <= |outcomes|
    decreases hi - lo
  {
    if hi == lo then 0 else RowsDeletedBetween(outcomes, lo, hi - 1) + RowsOf(outcomes[hi - 1])
  }

  /** Failed statements among positions lo..hi-1. */
  function ErrorsBetween(outcomes: seq<ExecOutcome>, lo: nat, hi: nat): nat
    requires lo <= hi <= |outcomes|
    decreases hi - lo
  {
    if hi == lo then 0 else ErrorsBetween(outcomes, lo, hi - 1) + (if outcomes[hi - 1].Affected? then 0 else 1)
  }

  /** The records a run over positions lo..hi-1 sends: one after each
      successful statement, carrying the absolute count i+1 and the running
      totals since lo. */
  function StatusesBetween(outcomes: seq<ExecOutcome>, lo: nat, hi: nat): seq<DeleteStateGroupsStateStatus>
    requires lo <= hi <= |outcomes|
    decreases hi - lo
  {
    if hi == lo then []
    else
      StatusesBetween(outcomes, lo, hi - 1)
      + (if outcomes[hi - 1].Affected?
         then [DeleteStateGroupsStateStatus(hi, RowsDeletedBetween(outcomes, lo, hi), ErrorsBetween(outcomes, lo, hi))]
         else [])
  }

  // ---------------------------------------------------------------------
  // DeleteStateGroupsState

  /** Deletes the state_groups_state rows of `stateGroupIds[startAt..]`, one
      statement per id, in order. `outcomes[i]` is what the statement for
      `stateGroupIds[i]` did. Returns the ids in the order their statements
      were issued and the records sent on the status channel. */
  method DeleteStateGroupsState(stateGroupIds: seq<int>, startAt: nat, outcomes: seq<ExecOutcome>)
    returns (issued: seq<int>, statuses: seq<DeleteStateGroupsStateStatus>)
    requires |outcomes| == |stateGroupIds|
    ensures startAt < |stateGroupIds| ==> issued == stateGroupIds[startAt..]
    ensures startAt < |stateGroupIds| ==> statuses == StatusesBetween(outcomes, startAt, |stateGroupIds|)
    ensures startAt >= |stateGroupIds| ==> issued == [] && statuses == []
  {
    issued, statuses := [], [];
    var rowsDeleted := 0;
    var errorCount := 0;
    var i := startAt;
    while i < |stateGroupIds|
      invariant startAt < |stateGroupIds| ==> startAt <= i <= |stateGroupIds|
      invariant startAt >= |stateGroupIds| ==> i == startAt && issued == [] && statuses == []
      invariant startAt < |stateGroupIds| ==> issued == stateGroupIds[startAt..i]
      invariant startAt < |stateGroupIds| ==> rowsDeleted == RowsDeletedBetween(outcomes, startAt, i)
      invariant startAt < |stateGroupIds| ==> errorCount == ErrorsBetween(outcomes, startAt, i)
      invariant startAt < |stateGroupIds| ==> statuses == StatusesBetween(outcomes, startAt, i)
    {
      issued := issued + [stateGroupIds[i]];
      assert issued == stateGroupIds[startAt..i + 1];
      match outcomes[i] {
        case ExecFailed =>
          errorCount := errorCount + 1;
        case RowsAffectedFailed =>
          errorCount := errorCount + 1;
        case Affected(affected) =>
          rowsDeleted := rowsDeleted + affected;
          statuses := statuses + [DeleteStateGroupsStateStatus(i + 1, rowsDeleted, errorCount)];
      }
      i := i + 1;
    }
  }

  // ---------------------------------------------------------------------
  // Lemmas about the status records

  /** Each record marks a successful statement at position g-1 in lo..hi-1
      and carries the totals of the run up to it. */
  lemma {:induction false} StatusesDescribeSuccesses(outcomes: seq<ExecOutcome>, lo: nat, hi: nat)
    requires lo <= hi <= |outcomes|
    ensures forall k :: 0 <= k < |StatusesBetween(outcomes, lo, hi)| ==>
      var s := StatusesBetween(outcomes, lo, hi)[k];
      && lo < s.stateGroupsDeleted <= hi
      && outcomes[s.stateGroupsDeleted - 1].Affected?
      && s.rowsDeleted == RowsDeletedBetween(outcomes, lo, s.stateGroupsDeleted)
      && s.errors == ErrorsBetween(outcomes, lo, s.stateGroupsDeleted)
    decreases hi - lo
  {
    if hi > lo {
      StatusesDescribeSuccesses(outcomes, lo, hi - 1);
      var earlier := StatusesBetween(outcomes, lo, hi - 1);
      var statuses := StatusesBetween(outcomes, lo, hi);
      assert forall k :: 0 <= k < |earlier| ==> statuses[k] == earlier[k];
      assert |statuses| > |earlier| ==> statuses[|earlier|].stateGroupsDeleted == hi;
    }
  }

  /** The absolute counts strictly increase along the records. */
  lemma {:induction false} StatusesStrictlyIncrease(outcomes: seq<ExecOutcome>, lo: nat, hi: nat)
    requires lo <= hi <= |outcomes|
    ensures forall a, b :: 0 <= a < b < |StatusesBetween(outcomes, lo, hi)| ==>
      StatusesBetween(outcomes, lo, hi)[a].stateGroupsDeleted < StatusesBetween(outcomes, lo, hi)[b].stateGroupsDeleted
    decreases hi - lo
  {
    if hi > lo {
      StatusesStrictlyIncrease(outcomes, lo, hi - 1);
      StatusesDescribeSuccesses(outcomes, lo, hi - 1);
    }
  }

  /** Every successful statement, and only those, is followed by a record. */
  lemma {:induction false} StatusForEverySuccess(outcomes: seq<ExecOutcome>, lo: nat, hi: nat)
    requires lo <= hi <= |outcomes|
    ensures forall j :: lo <= j < hi ==>
      (outcomes[j].Affected? <==>
        exists k :: 0 <= k < |StatusesBetween(outcomes, lo, hi)| && StatusesBetween(outcomes, lo, hi)[k].stateGroupsDeleted == j + 1)
  {
    var statuses := StatusesBetween(outcomes, lo, hi);
    StatusesDescribeSuccesses(outcomes, lo, hi);
    forall j | lo <= j < hi
      ensures outcomes[j].Affected? <==> exists k :: 0 <= k < |statuses| && statuses[k].stateGroupsDeleted == j + 1
    {
      if outcomes[j].Affected? {
        var k := RecordOfSuccess(outcomes, lo, hi, j);
        assert statuses[k].stateGroupsDeleted == j + 1;
      }
    }
  }

  /** The position of the record that follows the successful statement at `j`. */
  lemma {:induction false} RecordOfSuccess(outcomes: seq<ExecOutcome>, lo: nat, hi: nat, j: nat) returns (k: nat)
    requires lo <= j < hi <= |outcomes| && outcomes[j].Affected?
    ensures k < |StatusesBetween(outcomes, lo, hi)| && StatusesBetween(outcomes, lo, hi)[k].stateGroupsDeleted == j + 1
    decreases hi - lo
  {
    var earlier := StatusesBetween(outcomes, lo, hi - 1);
    var statuses := StatusesBetween(outcomes, lo, hi);
    if j == hi - 1 {
      k := |earlier|;
    } else {
      k := RecordOfSuccess(outcomes, lo, hi - 1, j);
      assert statuses[k] == earlier[k];
    }
  }

  lemma {:induction false} RowsDeletedGrows(outcomes: seq<ExecOutcome>, lo: nat, mid: nat, hi: nat)
    requires lo <= mid <= hi <= |outcomes|
    requires forall j :: 0 <= j < |outcomes| && outcomes[j].Affected? ==> outcomes[j].rows >= 0
    ensures RowsDeletedBetween(outcomes, lo, mid) <= RowsDeletedBetween(outcomes, lo, hi)
    ensures ErrorsBetween(outcomes, lo, mid) <= ErrorsBetween(outcomes, lo, hi)
    decreases hi - mid
  {
    if hi > mid {
      RowsDeletedGrows(outcomes, lo, mid, hi - 1);
    }
  }

  /** With non-negative affected counts, neither the row total nor the error
      count ever decreases along the records. */
  lemma StatusesNeverDecrease(outcomes: seq<ExecOutcome>, lo: nat, hi: nat)
    requires lo <= hi <= |outcomes|
    requires forall j :: 0 <= j < |outcomes| && outcomes[j].Affected? ==> outcomes[j].rows >= 0
    ensures forall a, b :: 0 <= a < b < |StatusesBetween(outcomes, lo, hi)| ==>
      && StatusesBetween(outcomes, lo, hi)[a].rowsDeleted <= StatusesBetween(outcomes, lo, hi)[b].rowsDeleted
      && StatusesBetween(outcomes, lo, hi)[a].errors <= StatusesBetween(outcomes, lo, hi)[b].errors
  {
    var statuses := StatusesBetween(outcomes, lo, hi);
    StatusesDescribeSuccesses(outcomes, lo, hi);
    StatusesStrictlyIncrease(outcomes, lo, hi);
    forall a, b | 0 <= a < b < |statuses|
      ensures statuses[a].rowsDeleted <= statuses[b].rowsDeleted && statuses[a].errors <= statuses[b].errors
    {
      RowsDeletedGrows(outcomes, lo, statuses[a].stateGroupsDeleted, statuses[b].stateGroupsDeleted);
    }
  }

  /** Resuming at `mid` loses nothing: the totals of a run stopped at `mid`
      plus those of the run resumed there equal those of one full run. */
  lemma {:induction false} ResumedRunAddsUp(outcomes: seq<ExecOutcome>, lo: nat, mid: nat, hi: nat)
    requires lo <= mid <= hi <= |outcomes|
    ensures RowsDeletedBetween(outcomes, lo, hi) == RowsDeletedBetween(outcomes, lo, mid) + RowsDeletedBetween(outcomes, mid, hi)
    ensures ErrorsBetween(outcomes, lo, hi) == ErrorsBetween(outcomes, lo, mid) + ErrorsBetween(outcomes, mid, hi)
    decreases hi - mid
  {
    if hi > mid {
      ResumedRunAddsUp(outcomes, lo, mid, hi - 1);
    }
  }

  // ---------------------------------------------------------------------
  // DeleteStateGroupsForRoom

  function OutcomeFor(table: Table, edges: ExecOutcome, eventToStateGroups: ExecOutcome, stateGroups: ExecOutcome): ExecOutcome
  {
    match table
    case StateGroupEdges => edges
    case EventToStateGroups => eventToStateGroups
    case StateGroups => stateGroups
  }

  /** Deletes a room's state_group_edges, event_to_state_groups and
      state_groups rows, in that order, stopping at the first failure with
      -1. Returns the tables whose DELETE was issued. */
  method DeleteStateGroupsForRoom(roomId: string, edges: ExecOutcome, eventToStateGroups: ExecOutcome, stateGroups: ExecOutcome)
    returns (rowsDeleted: int, err: Option<string>, issued: seq<Table>)
    ensures 1 <= |issued| <= 3 && issued == RoomDeletionOrder[..|issued|]
    ensures forall k :: 0 <= k < |issued| - 1 ==> OutcomeFor(issued[k], edges, eventToStateGroups, stateGroups).Affected?
    ensures err.None? <==> edges.Affected? && eventToStateGroups.Affected? && stateGroups.Affected?
    ensures err.None? ==> issued == RoomDeletionOrder && rowsDeleted == edges.rows + eventToStateGroups.rows + stateGroups.rows
    ensures err.Some? ==> rowsDeleted == -1 && !OutcomeFor(issued[|issued| - 1], edges, eventToStateGroups, stateGroups).Affected?
  {
    rowsDeleted := 0;
    issued := [StateGroupEdges];
    if !edges.Affected? {
      return -1, Some("could not delete state_group_edges by room_id " + roomId), issued;
    }
    rowsDeleted := rowsDeleted + edges.rows;
    issued := issued + [EventToStateGroups];
    if !eventToStateGroups.Affected? {
      return -1, Some("could not delete event_to_state_groups by room_id " + roomId), issued;
    }
    rowsDeleted := rowsDeleted + eventToStateGroups.rows;
    issued := issued + [StateGroups];
    if !stateGroups.Affected? {
      return -1, Some("could not delete state_groups by room_id " + roomId), issued;
    }
    rowsDeleted := rowsDeleted + stateGroups.rows;
    err := None;
  }

  // ---------------------------------------------------------------------
  // GetStateGroupsForRoom

  /** The ids of the rows that scanned, in cursor order. */
  function ScannedIds(rows: seq<ScanOutcome>): seq<int>
  {
    if |rows| == 0 then []
    else ScannedIds(rows[..|rows| - 1]) + (if rows[|rows| - 1].Scanned? then [rows[|rows| - 1].id] else [])
  }

  /** Collects the state group ids of a room, skipping rows that fail to scan. */
  method GetStateGroupsForRoom(roomId: string, query: QueryOutcome) returns (r: Result<seq<int>>)
    ensures query.QueryFailed? ==> r.Err?
    ensures query.Cursor? ==> r == Ok(ScannedIds(query.rows))
  {
    if query.QueryFailed? {
      return Err("could not select from state_groups by room_id " + roomId);
    }
    var rows := query.rows;
    var stateGroupIds := [];
    var i := 0;
    while i < |rows|
      invariant 0 <= i <= |rows|
      invariant stateGroupIds == ScannedIds(rows[..i])
    {
      assert rows[..i + 1][..i] == rows[..i];
      if rows[i].Scanned? {
        stateGroupIds := stateGroupIds + [rows[i].id];
      }
      i := i + 1;
    }
    assert rows[..i] == rows;
    return Ok(stateGroupIds);
  }

  /** The collected ids are exactly those of the rows that scanned. */
  lemma {:induction false} ScannedIdsMembers(rows: seq<ScanOutcome>)
    ensures forall x :: x in ScannedIds(rows) <==> Scanned(x) in rows
  {
    if |rows| > 0 {
      ScannedIdsMembers(rows[..|rows| - 1]);
      assert rows == rows[..|rows| - 1] + [rows[|rows| - 1]];
    }
  }

  /** Collection keeps cursor order: the ids of a cursor's two halves, one after the other. */
  lemma {:induction false} ScannedIdsKeepOrder(first: seq<ScanOutcome>, second: seq<ScanOutcome>)
    ensures ScannedIds(first + second) == ScannedIds(first) + ScannedIds(second)
    decreases |second|
  {
    if |second| > 0 {
      var both := first + second;
      assert both[..|both| - 1] == first + second[..|second| - 1];
      ScannedIdsKeepOrder(first, second[..|second| - 1]);
    } else {
      assert first + second == first;
    }
  }

  /** Without scan errors every row contributes its id, in order. */
  lemma {:induction false} ScannedIdsWithoutErrors(rows: seq<ScanOutcome>)
    requires forall i :: 0 <= i < |rows| ==> rows[i].Scanned?
    ensures |ScannedIds(rows)| == |rows|
    ensures forall i :: 0 <= i < |rows| ==> ScannedIds(rows)[i] == rows[i].id
  {
    if |rows| > 0 {
      ScannedIdsWithoutErrors(rows[..|rows| - 1]);
    }
  }
}
