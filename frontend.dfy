/** The biggest-rooms summary the home page handler builds (frontend.go):
    total the per-room row counts, keep the rooms over 10000 rows, sort them
    by row count, label the ten biggest with their names and add an "Others"
    entry for the rest. The room name lookup is an input: `nameOf(id)` is the
    name GetRoomName yields for `id` ("" when it fails, as the handler only
    logs the error). */
module Frontend {
  import opened MapSums

  datatype MatrixRoom = MatrixRoom(id: string, name: string, idWithName: string, rows: int)

  /** Rooms with more rows than this are candidates for the chart. */
  const BigRoomThreshold := 10000
  /** Number of rooms shown by name. */
  const TopCount := 10
  const OthersName := "Others"

  /** The ids of the rooms over the threshold. */
  function BigRoomIds(rowCountByRoom: map<string, int>): set<string>
  {
    set id | id in rowCountByRoom && rowCountByRoom[id] > BigRoomThreshold
  }

  /** `room` is the unlabelled entry the handler appends for a big room of the map. */
  predicate IsBigRoomEntry(room: MatrixRoom, rowCountByRoom: map<string, int>)
  {
    && room.id in rowCountByRoom
    && room == MatrixRoom(room.id, "", "", rowCountByRoom[room.id])
    && room.rows > BigRoomThreshold
  }

  predicate DistinctIds(rooms: seq<MatrixRoom>)
  {
    forall x, y :: 0 <= x < y < |rooms| ==> rooms[x].id != rooms[y].id
  }

  function IdsOf(rooms: seq<MatrixRoom>): set<string>
  {
    if |rooms| == 0 then {} else IdsOf(rooms[..|rooms| - 1]) + {rooms[|rooms| - 1].id}
  }

  function RowsSum(rooms: seq<MatrixRoom>): int
  {
    if |rooms| == 0 then 0 else RowsSum(rooms[..|rooms| - 1]) + rooms[|rooms| - 1].rows
  }

  predicate SortedByRowsDescending(rooms: seq<MatrixRoom>)
  {
    forall x, y :: 0 <= x < y < |rooms| ==> rooms[x].rows >= rooms[y].rows
  }

  // ---------------------------------------------------------------------
  // The steps of the handler

  /** The loop over the map: totals every count and appends an entry for
      each room over the threshold, in the map's iteration order. */
  method CollectBigRooms(rowCountByRoom: map<string, int>) returns (totalRowCount: int, roomsSlice: seq<MatrixRoom>)
    ensures totalRowCount == MapSum(rowCountByRoom)
    ensures forall k :: 0 <= k < |roomsSlice| ==> IsBigRoomEntry(roomsSlice[k], rowCountByRoom)
    ensures IdsOf(roomsSlice) == BigRoomIds(rowCountByRoom)
    ensures DistinctIds(roomsSlice)
  {
    totalRowCount := 0;
    roomsSlice := [];
    var remaining := rowCountByRoom.Keys;
    while remaining != {}
      invariant remaining <= rowCountByRoom.Keys
      invariant totalRowCount + SumOver(rowCountByRoom, remaining) == MapSum(rowCountByRoom)
      invariant forall k :: 0 <= k < |roomsSlice| ==>
        IsBigRoomEntry(roomsSlice[k], rowCountByRoom) && roomsSlice[k].id !in remaining
      invariant IdsOf(roomsSlice) == BigRoomIds(rowCountByRoom) - remaining
      invariant DistinctIds(roomsSlice)
      decreases |remaining|
    {
      var roomId :| roomId in remaining;
      var rows := rowCountByRoom[roomId];
      SumOverRemove(rowCountByRoom, remaining, roomId);
      totalRowCount := totalRowCount + rows;
      if rows > BigRoomThreshold {
        AppendBigRoom(roomsSlice, rowCountByRoom, remaining, roomId);
        roomsSlice := roomsSlice + [MatrixRoom(roomId, "", "", rows)];
      } else {
        assert BigRoomIds(rowCountByRoom) - (remaining - {roomId}) == BigRoomIds(rowCountByRoom) - remaining;
      }
      remaining := remaining - {roomId};
    }
  }

  /** sort.Slice with `Rows[i] > Rows[j]`: in place, largest first. Ties
      may end up in any order. */
  method SortByRowsDescending(a: array<MatrixRoom>)
    modifies a
    ensures SortedByRowsDescending(a[..])
    ensures multiset(a[..]) == old(multiset(a[..]))
  {
    var i := 0;
    while i < a.Length
      invariant 0 <= i <= a.Length
      invariant forall x, y :: 0 <= x < y < i ==> a[x].rows >= a[y].rows
      invariant forall x, y :: 0 <= x < i <= y < a.Length ==> a[x].rows >= a[y].rows
      invariant multiset(a[..]) == old(multiset(a[..]))
    {
      var biggest := IndexOfLargest(a, i);
      Swap(a, i, biggest);
      i := i + 1;
    }
  }

  /** The position of an entry with the most rows in `a[from..]`. */
  method IndexOfLargest(a: array<MatrixRoom>, from: int) returns (biggest: int)
    requires 0 <= from < a.Length
    ensures from <= biggest < a.Length
    ensures forall y :: from <= y < a.Length ==> a[biggest].rows >= a[y].rows
  {
    biggest := from;
    var j := from + 1;
    while j < a.Length
      invariant from <= biggest < a.Length && from + 1 <= j <= a.Length
      invariant forall y :: from <= y < j ==> a[biggest].rows >= a[y].rows
    {
      if a[j].rows > a[biggest].rows {
        biggest := j;
      }
      j := j + 1;
    }
  }

  method Swap(a: array<MatrixRoom>, i: int, j: int)
    requires 0 <= i <= j < a.Length
    modifies a
    ensures a[i] == old(a[j]) && a[j] == old(a[i])
    ensures forall k :: 0 <= k < a.Length && k != i && k != j ==> a[k] == old(a[k])
    ensures multiset(a[..]) == old(multiset(a[..]))
  {
    a[i], a[j] := a[j], a[i];
  }

  /** The loop over `roomsSlice[0:10]`, which shares `a`'s storage: each of
      the first ten entries is overwritten with its labelled form while their
      rows are added up; then "Others" takes the rest of the total. The
      append writes into the shared storage at index 10 when `a` is longer. */
  method LabelBiggestRooms(a: array<MatrixRoom>, totalRowCount: int, nameOf: string -> string)
    returns (biggestRooms: seq<MatrixRoom>)
    requires a.Length >= TopCount
    modifies a
    ensures |biggestRooms| == TopCount + 1
    ensures forall k :: 0 <= k < TopCount ==>
      var id := old(a[k]).id;
      biggestRooms[k] == MatrixRoom(id, nameOf(id), id + ": " + nameOf(id), old(a[k]).rows)
    ensures biggestRooms[TopCount] == MatrixRoom("", OthersName, "", totalRowCount - RowsSum(biggestRooms[..TopCount]))
    ensures RowsSum(biggestRooms) == totalRowCount
    ensures a[..TopCount] == biggestRooms[..TopCount]
    ensures a.Length > TopCount ==> a[TopCount] == biggestRooms[TopCount]
    ensures forall k :: TopCount < k < a.Length ==> a[k] == old(a[k])
  {
    var bigRoomsRowCount := 0;
    var i := 0;
    while i < TopCount
      invariant 0 <= i <= TopCount
      invariant forall k :: 0 <= k < i ==>
        var id := old(a[k]).id;
        a[k] == MatrixRoom(id, nameOf(id), id + ": " + nameOf(id), old(a[k]).rows)
      invariant forall k :: i <= k < a.Length ==> a[k] == old(a[k])
      invariant bigRoomsRowCount == RowsSum(a[..i])
    {
      var room := a[i];
      var name := nameOf(room.id);
      a[i] := MatrixRoom(room.id, name, room.id + ": " + name, room.rows);
      assert a[..i + 1][..i] == a[..i];
      bigRoomsRowCount := bigRoomsRowCount + room.rows;
      i := i + 1;
    }
    var others := MatrixRoom("", OthersName, "", totalRowCount - bigRoomsRowCount);
    biggestRooms := a[..TopCount] + [others];
    assert biggestRooms[..TopCount] == a[..TopCount];
    if a.Length > TopCount {
      a[TopCount] := others;
    }
  }

  /** The whole summary for a map that has at least ten big rooms. With
      fewer, `roomsSlice[0:10]` is bounded by the slice's capacity rather
      than its length: it panics below nine rooms and pads with a zero room
      at nine, neither of which is modelled. */
  method BiggestRoomsSummary(rowCountByRoom: map<string, int>, nameOf: string -> string)
    returns (biggestRooms: seq<MatrixRoom>)
    requires |BigRoomIds(rowCountByRoom)| >= TopCount
    ensures |biggestRooms| == TopCount + 1
    ensures forall k :: 0 <= k < TopCount ==>
      var room := biggestRooms[k];
      && room.id in BigRoomIds(rowCountByRoom)
      && room.rows == rowCountByRoom[room.id]
      && room.name == nameOf(room.id)
      && room.idWithName == room.id + ": " + room.name
    ensures SortedByRowsDescending(biggestRooms[..TopCount])
    ensures DistinctIds(biggestRooms[..TopCount])
    ensures forall id :: id in BigRoomIds(rowCountByRoom) && id !in IdsOf(biggestRooms[..TopCount]) ==>
      rowCountByRoom[id] <= biggestRooms[TopCount - 1].rows
    ensures biggestRooms[TopCount] ==
      MatrixRoom("", OthersName, "", MapSum(rowCountByRoom) - RowsSum(biggestRooms[..TopCount]))
    ensures RowsSum(biggestRooms) == MapSum(rowCountByRoom)
  {
    var totalRowCount, roomsSlice := CollectBigRooms(rowCountByRoom);
    DistinctIdsCount(roomsSlice);
    var a := new MatrixRoom[|roomsSlice|](k requires 0 <= k < |roomsSlice| => roomsSlice[k]);
    assert a[..] == roomsSlice;
    SortByRowsDescending(a);
    ghost var sorted := a[..];
    PermutedEntries(roomsSlice, sorted, rowCountByRoom);
    biggestRooms := LabelBiggestRooms(a, totalRowCount, nameOf);
    TopRoomsAreTheBiggest(sorted, biggestRooms, rowCountByRoom, nameOf);
  }

  // ---------------------------------------------------------------------
  // Lemmas

  /** Labelling the first ten of the sorted big-room entries gives the ten
      biggest rooms, largest first, each once. */
  lemma TopRoomsAreTheBiggest(sorted: seq<MatrixRoom>, biggestRooms: seq<MatrixRoom>,
                              rowCountByRoom: map<string, int>, nameOf: string -> string)
    requires |sorted| >= TopCount && |biggestRooms| == TopCount + 1
    requires SortedByRowsDescending(sorted) && DistinctIds(sorted)
    requires forall k :: 0 <= k < |sorted| ==> IsBigRoomEntry(sorted[k], rowCountByRoom)
    requires IdsOf(sorted) == BigRoomIds(rowCountByRoom)
    requires forall k :: 0 <= k < TopCount ==>
      var id := sorted[k].id;
      biggestRooms[k] == MatrixRoom(id, nameOf(id), id + ": " + nameOf(id), sorted[k].rows)
    ensures forall k :: 0 <= k < TopCount ==>
      var room := biggestRooms[k];
      && room.id in BigRoomIds(rowCountByRoom)
      && room.rows == rowCountByRoom[room.id]
      && room.name == nameOf(room.id)
      && room.idWithName == room.id + ": " + room.name
    ensures SortedByRowsDescending(biggestRooms[..TopCount])
    ensures DistinctIds(biggestRooms[..TopCount])
    ensures forall id :: id in BigRoomIds(rowCountByRoom) && id !in IdsOf(biggestRooms[..TopCount]) ==>
      rowCountByRoom[id] <= biggestRooms[TopCount - 1].rows
  {
    var top := biggestRooms[..TopCount];
    assert forall k :: 0 <= k < TopCount ==> top[k].id == sorted[k].id && top[k].rows == sorted[k].rows;
    IdsOfMembers(sorted);
    IdsOfMembers(top);
    forall id | id in BigRoomIds(rowCountByRoom) && id !in IdsOf(top)
      ensures rowCountByRoom[id] <= biggestRooms[TopCount - 1].rows
    {
      var k :| 0 <= k < |sorted| && sorted[k].id == id;
    }
  }

  /** One step of CollectBigRooms for a big room `roomId` still to visit. */
  lemma AppendBigRoom(rooms: seq<MatrixRoom>, rowCountByRoom: map<string, int>, remaining: set<string>, roomId: string)
    requires remaining <= rowCountByRoom.Keys && roomId in remaining
    requires rowCountByRoom[roomId] > BigRoomThreshold
    requires forall k :: 0 <= k < |rooms| ==> IsBigRoomEntry(rooms[k], rowCountByRoom) && rooms[k].id !in remaining
    requires IdsOf(rooms) == BigRoomIds(rowCountByRoom) - remaining
    requires DistinctIds(rooms)
    ensures var extended := rooms + [MatrixRoom(roomId, "", "", rowCountByRoom[roomId])];
      && (forall k :: 0 <= k < |extended| ==> IsBigRoomEntry(extended[k], rowCountByRoom) && extended[k].id !in remaining - {roomId})
      && IdsOf(extended) == BigRoomIds(rowCountByRoom) - (remaining - {roomId})
      && DistinctIds(extended)
  {
    var extended := rooms + [MatrixRoom(roomId, "", "", rowCountByRoom[roomId])];
    assert extended[..|extended| - 1] == rooms;
    assert IdsOf(extended) == IdsOf(rooms) + {roomId};
    assert BigRoomIds(rowCountByRoom) - (remaining - {roomId}) == BigRoomIds(rowCountByRoom) - remaining + {roomId};
  }

  lemma {:induction false} IdsOfMembers(rooms: seq<MatrixRoom>)
    ensures forall id :: id in IdsOf(rooms) <==> exists k :: 0 <= k < |rooms| && rooms[k].id == id
  {
    if |rooms| > 0 {
      var prefix := rooms[..|rooms| - 1];
      IdsOfMembers(prefix);
      assert forall k :: 0 <= k < |prefix| ==> prefix[k] == rooms[k];
    }
  }

  /** Entries with distinct ids are as many as their ids. */
  lemma {:induction false} DistinctIdsCount(rooms: seq<MatrixRoom>)
    requires DistinctIds(rooms)
    ensures |IdsOf(rooms)| == |rooms|
  {
    if |rooms| > 0 {
      var prefix := rooms[..|rooms| - 1];
      DistinctIdsCount(prefix);
      IdsOfMembers(prefix);
    }
  }

  lemma RepeatedElementCountsTwice(rooms: seq<MatrixRoom>, x: int, y: int)
    requires 0 <= x < y < |rooms| && rooms[x] == rooms[y]
    ensures multiset(rooms)[rooms[x]] >= 2
  {
    assert rooms == rooms[..y] + [rooms[y]] + rooms[y + 1..];
    assert rooms[x] in rooms[..y];
  }

  lemma {:induction false} DistinctIdsCountOnce(rooms: seq<MatrixRoom>, room: MatrixRoom)
    requires DistinctIds(rooms)
    ensures multiset(rooms)[room] <= 1
  {
    if |rooms| > 0 {
      var prefix := rooms[..|rooms| - 1];
      assert rooms == prefix + [rooms[|rooms| - 1]];
      DistinctIdsCountOnce(prefix, room);
      if room == rooms[|rooms| - 1] {
        assert room !in prefix;
      }
    }
  }

  /** Sorting keeps what CollectBigRooms promised: entries of big rooms,
      each room once, the same rooms. */
  lemma PermutedEntries(rooms: seq<MatrixRoom>, permuted: seq<MatrixRoom>, rowCountByRoom: map<string, int>)
    requires multiset(rooms) == multiset(permuted)
    requires forall k :: 0 <= k < |rooms| ==> IsBigRoomEntry(rooms[k], rowCountByRoom)
    requires DistinctIds(rooms)
    ensures forall k :: 0 <= k < |permuted| ==> IsBigRoomEntry(permuted[k], rowCountByRoom)
    ensures DistinctIds(permuted)
    ensures IdsOf(permuted) == IdsOf(rooms)
  {
    forall k | 0 <= k < |permuted|
      ensures IsBigRoomEntry(permuted[k], rowCountByRoom)
    {
      assert permuted[k] in multiset(rooms);
    }
    forall x, y | 0 <= x < y < |permuted|
      ensures permuted[x].id != permuted[y].id
    {
      if permuted[x].id == permuted[y].id {
        assert permuted[x] in multiset(rooms);
        RepeatedElementCountsTwice(permuted, x, y);
        DistinctIdsCountOnce(rooms, permuted[x]);
        assert false;
      }
    }
    IdsOfMembers(rooms);
    IdsOfMembers(permuted);
    forall id | id in IdsOf(rooms)
      ensures id in IdsOf(permuted)
    {
      var k :| 0 <= k < |rooms| && rooms[k].id == id;
      assert rooms[k] in multiset(permuted);
    }
    forall id | id in IdsOf(permuted)
      ensures id in IdsOf(rooms)
    {
      var k :| 0 <= k < |permuted| && permuted[k].id == id;
      assert permuted[k] in multiset(rooms);
    }
  }
}
