/** The aggregation loop of the command-line scanner (main.go): it drains
    the stream of state_groups_state rows into a row count per room and logs
    a throttled progress line. The clock is an input: `now(n)` is the one
    reading of `time.Now()` taken while the n-th row (counting from 1) is
    handled, used both for the comparison and as the new update time. */
module RowCount {
  import opened MapSums
  import opened DbModel

  /** The counter that gates the progress line is reset once it exceeds this. */
  const UpdateThreshold := 10000
  /** `time.Second`, with times counted in nanoseconds. */
  const Second := 1_000_000_000

  /** One progress line: rows so far, the estimated total, and the time the
      logger stamps on it. The percentage is left out. */
  datatype ProgressLine = ProgressLine(rowCounter: int, estimatedCount: int, loggedAt: int)

  /** The throttle's state after some rows. */
  datatype Progress = Progress(updateCounter: int, lastUpdateTime: int, lines: seq<ProgressLine>)

  // ---------------------------------------------------------------------
  // Reference definitions

  /** The room counts after `rows`: one more for the room of each row. */
  function Histogram(rows: seq<StateGroupsStateRow>): map<string, int>
  {
    if |rows| == 0 then map[]
    else
      var counts := Histogram(rows[..|rows| - 1]);
      var room := rows[|rows| - 1].roomId;
      counts[room := (if room in counts then counts[room] else 0) + 1]
  }

  /** The number of rows of `room` in `rows`. */
  function CountOfRoom(rows: seq<StateGroupsStateRow>, room: string): nat
  {
    if |rows| == 0 then 0
    else CountOfRoom(rows[..|rows| - 1], room) + (if rows[|rows| - 1].roomId == room then 1 else 0)
  }

  /** The throttle after `n` rows, starting from `startTime`. */
  function ProgressAfter(n: nat, estimatedCount: int, startTime: int, now: nat -> int): Progress
  {
    if n == 0 then Progress(0, startTime, [])
    else
      var p := ProgressAfter(n - 1, estimatedCount, startTime, now);
      var counter := p.updateCounter + 1;
      if counter > UpdateThreshold then
        if now(n) > p.lastUpdateTime + Second then
          Progress(0, now(n), p.lines + [ProgressLine(n, estimatedCount, now(n))])
        else
          Progress(0, p.lastUpdateTime, p.lines)
      else
        Progress(counter, p.lastUpdateTime, p.lines)
  }

  // ---------------------------------------------------------------------
  // The loop of main

  method CountRowsByRoom(rows: seq<StateGroupsStateRow>, estimatedCount: int, startTime: int, now: nat -> int)
    returns (rowCountByRoom: map<string, int>, rowCounter: int, updateCounter: int, lastUpdateTime: int,
             lines: seq<ProgressLine>)
    ensures rowCountByRoom == Histogram(rows)
    ensures forall room :: room in rowCountByRoom ==> rowCountByRoom[room] == CountOfRoom(rows, room)
    ensures forall room :: room in rowCountByRoom <==> exists i :: 0 <= i < |rows| && rows[i].roomId == room
    ensures rowCounter == |rows| && MapSum(rowCountByRoom) == rowCounter
    ensures 0 <= updateCounter <= UpdateThreshold
    ensures Progress(updateCounter, lastUpdateTime, lines) == ProgressAfter(|rows|, estimatedCount, startTime, now)
  {
    lastUpdateTime := startTime;
    updateCounter := 0;
    rowCounter := 0;
    rowCountByRoom := map[];
    lines := [];
    var i := 0;
    while i < |rows|
      invariant 0 <= i <= |rows|
      invariant rowCountByRoom == Histogram(rows[..i])
      invariant rowCounter == i && MapSum(rowCountByRoom) == rowCounter
      invariant 0 <= updateCounter <= UpdateThreshold
      invariant Progress(updateCounter, lastUpdateTime, lines) == ProgressAfter(i, estimatedCount, startTime, now)
    {
      var row := rows[i];
      assert rows[..i + 1][..i] == rows[..i];
      var previous := if row.roomId in rowCountByRoom then rowCountByRoom[row.roomId] else 0;
      MapSumUpdate(rowCountByRoom, row.roomId, previous + 1);
      rowCountByRoom := rowCountByRoom[row.roomId := previous + 1];
      updateCounter := updateCounter + 1;
      rowCounter := rowCounter + 1;
      if updateCounter > UpdateThreshold {
        var time := now(i + 1);
        if time > lastUpdateTime + Second {
          lastUpdateTime := time;
          lines := lines + [ProgressLine(rowCounter, estimatedCount, time)];
        }
        updateCounter := 0;
      }
      i := i + 1;
    }
    assert rows[..i] == rows;
    HistogramCounts(rows);
  }

  // ---------------------------------------------------------------------
  // Lemmas

  /** The histogram's keys are the rooms of the rows, and each count is the
      number of that room's rows. */
  lemma {:induction false} HistogramCounts(rows: seq<StateGroupsStateRow>)
    ensures forall room :: room in Histogram(rows) <==> exists i :: 0 <= i < |rows| && rows[i].roomId == room
    ensures forall room :: room in Histogram(rows) ==> Histogram(rows)[room] == CountOfRoom(rows, room)
  {
    if |rows| > 0 {
      var prefix := rows[..|rows| - 1];
      HistogramCounts(prefix);
      assert forall i :: 0 <= i < |prefix| ==> prefix[i] == rows[i];
      forall room | room in Histogram(prefix) && room != rows[|rows| - 1].roomId
        ensures CountOfRoom(rows, room) == CountOfRoom(prefix, room)
      {
      }
      var last := rows[|rows| - 1].roomId;
      if last !in Histogram(prefix) {
        CountAbsentRoom(prefix, last);
      }
    }
  }

  lemma {:induction false} CountAbsentRoom(rows: seq<StateGroupsStateRow>, room: string)
    requires forall i :: 0 <= i < |rows| ==> rows[i].roomId != room
    ensures CountOfRoom(rows, room) == 0
  {
    if |rows| > 0 {
      CountAbsentRoom(rows[..|rows| - 1], room);
    }
  }

  /** The counts add up to the number of rows. */
  lemma {:induction false} HistogramSum(rows: seq<StateGroupsStateRow>)
    ensures MapSum(Histogram(rows)) == |rows|
  {
    if |rows| == 0 {
      assert Histogram(rows) == map[];
    } else {
      var prefix := rows[..|rows| - 1];
      var counts := Histogram(prefix);
      var room := rows[|rows| - 1].roomId;
      HistogramSum(prefix);
      MapSumUpdate(counts, room, (if room in counts then counts[room] else 0) + 1);
    }
  }

  /** After n rows the gate counter is n modulo 10001: it counts up to
      10000 and drops back to 0 on the next row, whether or not a line is logged. */
  lemma {:induction false} UpdateCounterCycles(n: nat, estimatedCount: int, startTime: int, now: nat -> int)
    ensures ProgressAfter(n, estimatedCount, startTime, now).updateCounter == n % (UpdateThreshold + 1)
  {
    if n > 0 {
      UpdateCounterCycles(n - 1, estimatedCount, startTime, now);
      CounterStep(n - 1);
    }
  }

  /** One more row moves the count modulo 10001 one step round the cycle. */
  lemma CounterStep(m: nat)
    ensures (m + 1) % (UpdateThreshold + 1) ==
            if m % (UpdateThreshold + 1) == UpdateThreshold then 0 else m % (UpdateThreshold + 1) + 1
  {
    var q := m / (UpdateThreshold + 1);
    var r := m % (UpdateThreshold + 1);
    assert m == (UpdateThreshold + 1) * q + r;
    if r == UpdateThreshold {
      assert m + 1 == (UpdateThreshold + 1) * (q + 1);
    } else {
      assert m + 1 == (UpdateThreshold + 1) * q + (r + 1);
    }
  }

  /** The time of the last progress line changes only on a row where the
      counter passed 10000 and more than a second has gone by since it was set. */
  lemma LastUpdateChangesOnlyWhenDue(n: nat, estimatedCount: int, startTime: int, now: nat -> int)
    requires n > 0
    ensures var before := ProgressAfter(n - 1, estimatedCount, startTime, now);
            var after := ProgressAfter(n, estimatedCount, startTime, now);
            after.lastUpdateTime != before.lastUpdateTime ==>
              n % (UpdateThreshold + 1) == 0 && now(n) > before.lastUpdateTime + Second
  {
    UpdateCounterCycles(n - 1, estimatedCount, startTime, now);
    UpdateCounterCycles(n, estimatedCount, startTime, now);
  }

  /** Progress lines are logged on row numbers that are positive multiples
      of 10001, in increasing order. */
  lemma {:induction false} ProgressLinesOnCycleEnds(n: nat, estimatedCount: int, startTime: int, now: nat -> int)
    ensures var lines := ProgressAfter(n, estimatedCount, startTime, now).lines;
      && (forall k :: 0 <= k < |lines| ==>
            0 < lines[k].rowCounter <= n && lines[k].rowCounter % (UpdateThreshold + 1) == 0)
      && (forall k :: 0 <= k < |lines| - 1 ==> lines[k].rowCounter < lines[k + 1].rowCounter)
  {
    if n > 0 {
      ProgressLinesOnCycleEnds(n - 1, estimatedCount, startTime, now);
      UpdateCounterCycles(n - 1, estimatedCount, startTime, now);
      var before := ProgressAfter(n - 1, estimatedCount, startTime, now).lines;
      var after := ProgressAfter(n, estimatedCount, startTime, now).lines;
      assert forall k :: 0 <= k < |before| ==> after[k] == before[k];
    }
  }

  /** Progress lines are throttled: each is logged more than a second after
      the previous one (or the start), and the last one's time is the last
      update time. */
  lemma {:induction false} ProgressLinesThrottled(n: nat, estimatedCount: int, startTime: int, now: nat -> int)
    ensures var p := ProgressAfter(n, estimatedCount, startTime, now);
      && (forall k :: 0 <= k < |p.lines| - 1 ==> p.lines[k + 1].loggedAt > p.lines[k].loggedAt + Second)
      && (|p.lines| > 0 ==> p.lines[0].loggedAt > startTime + Second)
      && p.lastUpdateTime == (if |p.lines| == 0 then startTime else p.lines[|p.lines| - 1].loggedAt)
  {
    if n > 0 {
      ProgressLinesThrottled(n - 1, estimatedCount, startTime, now);
      var before := ProgressAfter(n - 1, estimatedCount, startTime, now).lines;
      var after := ProgressAfter(n, estimatedCount, startTime, now).lines;
      assert forall k :: 0 <= k < |before| ==> after[k] == before[k];
    }
  }
}
