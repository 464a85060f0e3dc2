/** The logic inside the Synapse admin API client (matrix_admin_service.go):
    the request body of a room deletion, the reconciliation of per-worker
    deletion statuses into one verdict, the choice of a room's display name
    and the membership test behind the operator login. HTTP exchanges are
    inputs: each is a `Reply` holding what the server answered. */
module MatrixAdmin {
  import opened Outcomes

  datatype DeleteRoomRequest = DeleteRoomRequest(block: bool, forcePurge: bool, purge: bool, message: string)

  datatype ShutdownRoom = ShutdownRoom(
    kickedUsers: seq<string>,
    failedToKickUsers: seq<string>,
    localAliases: seq<string>,
    newRoomId: string)

  /** One worker's report on the deletion of a room. */
  datatype RoomDeletionStatus = RoomDeletionStatus(
    deleteId: string,
    status: string,
    error: string,
    shutdownRoom: ShutdownRoom)

  datatype RoomDetails = RoomDetails(name: string, canonicalAlias: string)

  /** Reading and decoding a response body. */
  datatype BodyRead<+T> = ReadFailed(reason: string) | Unparsable(reason: string) | Parsed(value: T)

  /** What the HTTP client got back: a transport error, or a status code and a body. */
  datatype Reply<+T> = NoReply(reason: string) | Reply(statusCode: int, body: BodyRead<T>)

  /** The non-error result of GetDeleteRoomStatus. */
  datatype DeletionReport = DeletionReport(status: string, users: seq<string>)

  /** The request that DeleteRoom sends, with the error it returns (None for nil). */
  datatype DeleteCall = DeleteCall(request: DeleteRoomRequest, error: Option<string>)

  /** The three replies Login depends on, in the order they are made. */
  datatype LoginExchange = LoginExchange(
    login: Reply<string>,              // the access token on success
    logoutError: Option<string>,       // a transport error of the logout request
    members: Reply<seq<string>>)       // the members of the admin room

  const ShuttingDown := "shutting_down"
  const Purging := "purging"
  const Failed := "failed"
  const Complete := "complete"
  const NoNameFound := "no name found"
  const CleaningMessage := "This room is being cleaned, stand by..."
  const DeletionFailedPrefix := "room deletion failed: \n"

  // ---------------------------------------------------------------------
  // DeleteRoom

  function DeleteRoomBody(ban: bool): (body: DeleteRoomRequest)
    ensures body.block == ban
    ensures body.forcePurge && body.purge
    ensures body.message == CleaningMessage
  {
    DeleteRoomRequest(ban, true, true, CleaningMessage)
  }

  /** DeleteRoom sends the body for `ban`; any transport error or a status of
      300 or more is an error, any other status is success. */
  function DeleteRoom(roomId: string, ban: bool, reply: Reply<()>): (call: DeleteCall)
    ensures call.request.block == ban && call.request.forcePurge && call.request.purge
    ensures call.error.None? <==> reply.Reply? && reply.statusCode < 300
  {
    var request := DeleteRoomBody(ban);
    match reply
    case NoReply(reason) => DeleteCall(request, Some("HTTP DELETE " + roomId + ": " + reason))
    case Reply(code, _) =>
      if code >= 300 then DeleteCall(request, Some("HTTP DELETE " + roomId + ": bad status"))
      else DeleteCall(request, None)
  }

  // ---------------------------------------------------------------------
  // Deletion status: the rank order and its reference definition

  predicate Recognised(status: string)
  {
    status == ShuttingDown || status == Purging || status == Failed || status == Complete
  }

  /** The rank `"" < shutting_down < purging < failed < complete`; any other string ranks 0. */
  function Rank(status: string): (r: nat)
    ensures r <= 4
    ensures r == 0 <==> !Recognised(status)
  {
    if status == ShuttingDown then 1
    else if status == Purging then 2
    else if status == Failed then 3
    else if status == Complete then 4
    else 0
  }

  /** The status that has rank `k` ("" for 0). */
  function StatusOfRank(k: nat): (status: string)
    requires k <= 4
    ensures Rank(status) == k
    ensures k == 0 <==> status == ""
  {
    if k == 1 then ShuttingDown
    else if k == 2 then Purging
    else if k == 3 then Failed
    else if k == 4 then Complete
    else ""
  }

  /** The highest rank of any recognised status among `results` (0 when none). */
  function HighestRank(results: seq<RoomDeletionStatus>): (k: nat)
    ensures k <= 4
  {
    if |results| == 0 then 0
    else
      var earlier := HighestRank(results[..|results| - 1]);
      var last := Rank(results[|results| - 1].status);
      if earlier < last then last else earlier
  }

  /** The verdict a set of worker reports amounts to: the highest-ranked
      recognised status among them, or "" when there is none. */
  function MostCompleteStatus(results: seq<RoomDeletionStatus>): (status: string)
    ensures status == "" || Recognised(status)
  {
    StatusOfRank(HighestRank(results))
  }

  function Elements(s: seq<string>): set<string>
  {
    set x | x in s
  }

  /** Every user some worker kicked or failed to kick. */
  function AffectedUsers(results: seq<RoomDeletionStatus>): set<string>
  {
    if |results| == 0 then {}
    else
      var last := results[|results| - 1].shutdownRoom;
      AffectedUsers(results[..|results| - 1]) + Elements(last.kickedUsers) + Elements(last.failedToKickUsers)
  }

  /** Every non-empty error string some worker reported. */
  function ErrorSet(results: seq<RoomDeletionStatus>): set<string>
  {
    if |results| == 0 then {}
    else
      var last := results[|results| - 1].error;
      ErrorSet(results[..|results| - 1]) + (if last != "" then {last} else {})
  }

  predicate NoDuplicates(xs: seq<string>)
  {
    forall a, b :: 0 <= a < b < |xs| ==> xs[a] != xs[b]
  }

  /** `xs` lists the elements of `s`, each once, in some order. */
  ghost predicate Lists(xs: seq<string>, s: set<string>)
  {
    NoDuplicates(xs) && forall x :: x in xs <==> x in s
  }

  /** strings.Join */
  function Join(parts: seq<string>, sep: string): string
  {
    if |parts| == 0 then ""
    else if |parts| == 1 then parts[0]
    else parts[0] + sep + Join(parts[1..], sep)
  }

  predicate OccursAt(t: string, s: string, k: int)
  {
    0 <= k && k + |t| <= |s| && s[k..k + |t|] == t
  }

  /** `t` is a substring of `s`. */
  ghost predicate Contains(s: string, t: string)
  {
    exists k :: OccursAt(t, s, k)
  }

  // ---------------------------------------------------------------------
  // Deletion status: the reconciliation loop of GetDeleteRoomStatus

  /** Builds a slice from the keys of a Go map used as a set: each element
      once, in an order the map iteration chooses. */
  method ListOf(s: set<string>) returns (xs: seq<string>)
    ensures Lists(xs, s)
  {
    xs := [];
    var rest := s;
    while rest != {}
      invariant rest <= s
      invariant NoDuplicates(xs)
      invariant forall x :: x in xs <==> x in s && x !in rest
      decreases |rest|
    {
      var x :| x in rest;
      xs := xs + [x];
      rest := rest - {x};
    }
  }

  /** The fold over the parsed results of the delete_status endpoint. */
  method ReconcileDeletionStatus(results: seq<RoomDeletionStatus>) returns (r: Result<DeletionReport>)
    ensures MostCompleteStatus(results) == Failed ==>
      r.Err? && exists errs :: Lists(errs, ErrorSet(results)) && r.message == DeletionFailedPrefix + Join(errs, "\n")
    ensures MostCompleteStatus(results) == Failed ==>
      r.Err? && forall e :: e in ErrorSet(results) ==> Contains(r.message, e)
    ensures MostCompleteStatus(results) != Failed ==>
      r.Ok? && r.value.status == MostCompleteStatus(results) && Lists(r.value.users, AffectedUsers(results))
  {
    var users: set<string> := {};
    var errorsSet: set<string> := {};
    var mostCompleteStatus := "";
    var i := 0;
    while i < |results|
      invariant 0 <= i <= |results|
      invariant users == AffectedUsers(results[..i])
      invariant errorsSet == ErrorSet(results[..i])
      invariant mostCompleteStatus == MostCompleteStatus(results[..i])
    {
      var result := results[i];
      assert results[..i + 1][..i] == results[..i];
      var kicked := result.shutdownRoom.kickedUsers;
      var j := 0;
      while j < |kicked|
        invariant 0 <= j <= |kicked|
        invariant users == AffectedUsers(results[..i]) + Elements(kicked[..j])
      {
        assert kicked[..j + 1] == kicked[..j] + [kicked[j]];
        users := users + {kicked[j]};
        j := j + 1;
      }
      assert kicked[..j] == kicked;
      var failedToKick := result.shutdownRoom.failedToKickUsers;
      j := 0;
      while j < |failedToKick|
        invariant 0 <= j <= |failedToKick|
        invariant users == AffectedUsers(results[..i]) + Elements(kicked) + Elements(failedToKick[..j])
      {
        assert failedToKick[..j + 1] == failedToKick[..j] + [failedToKick[j]];
        users := users + {failedToKick[j]};
        j := j + 1;
      }
      assert failedToKick[..j] == failedToKick;
      if result.error != "" {
        errorsSet := errorsSet + {result.error};
      }
      if result.status == ShuttingDown {
        if mostCompleteStatus == "" {
          mostCompleteStatus := result.status;
        }
      } else if result.status == Purging {
        if mostCompleteStatus == "" || mostCompleteStatus == ShuttingDown {
          mostCompleteStatus := result.status;
        }
      } else if result.status == Failed {
        if mostCompleteStatus == "" || mostCompleteStatus == ShuttingDown || mostCompleteStatus == Purging {
          mostCompleteStatus := result.status;
        }
      } else if result.status == Complete {
        if mostCompleteStatus == "" || mostCompleteStatus == ShuttingDown || mostCompleteStatus == Purging
          || mostCompleteStatus == Failed {
          mostCompleteStatus := result.status;
        }
      }
      i := i + 1;
    }
    assert results[..i] == results;
    var usersSlice := ListOf(users);
    if mostCompleteStatus == Failed {
      var errorsSlice := ListOf(errorsSet);
      r := Err(DeletionFailedPrefix + Join(errorsSlice, "\n"));
      forall e | e in errorsSet
        ensures Contains(r.message, e)
      {
        var k :| 0 <= k < |errorsSlice| && errorsSlice[k] == e;
        JoinContains(errorsSlice, "\n", k);
        ContainsAfterPrefix(DeletionFailedPrefix, Join(errorsSlice, "\n"), e);
      }
      return;
    }
    r := Ok(DeletionReport(mostCompleteStatus, usersSlice));
  }

  /** The reply is a successful status response whose body was parsed. */
  predicate Delivered<T>(reply: Reply<T>)
  {
    reply.Reply? && reply.statusCode < 300 && reply.body.Parsed?
  }

  /** GetDeleteRoomStatus: transport, status, read and parse errors are
      errors; otherwise the reconciliation of the parsed results. */
  method GetDeleteRoomStatus(roomId: string, reply: Reply<seq<RoomDeletionStatus>>) returns (r: Result<DeletionReport>)
    ensures !Delivered(reply) ==> r.Err?
    ensures Delivered(reply) && MostCompleteStatus(reply.body.value) == Failed ==>
      r.Err? && exists errs :: Lists(errs, ErrorSet(reply.body.value)) && r.message == DeletionFailedPrefix + Join(errs, "\n")
    ensures Delivered(reply) && MostCompleteStatus(reply.body.value) == Failed ==>
      r.Err? && forall e :: e in ErrorSet(reply.body.value) ==> Contains(r.message, e)
    ensures Delivered(reply) && MostCompleteStatus(reply.body.value) != Failed ==>
      r.Ok? && r.value.status == MostCompleteStatus(reply.body.value)
      && Lists(r.value.users, AffectedUsers(reply.body.value))
  {
    match reply
    case NoReply(reason) =>
      r := Err("HTTP GET delete_status of " + roomId + ": " + reason);
    case Reply(code, body) =>
      if code >= 300 {
        r := Err("HTTP GET delete_status of " + roomId + ": bad status");
      } else {
        match body
        case ReadFailed(reason) =>
          r := Err("HTTP GET delete_status of " + roomId + ": read error: " + reason);
        case Unparsable(reason) =>
          r := Err("HTTP GET delete_status of " + roomId + ": json parse error: " + reason);
        case Parsed(results) =>
          r := ReconcileDeletionStatus(results);
      }
  }

  // ---------------------------------------------------------------------
  // Lemmas about the reconciliation

  /** No result outranks the verdict, and a non-empty verdict is the status of some result. */
  lemma {:induction false} HighestRankIsMaximum(results: seq<RoomDeletionStatus>)
    ensures forall i :: 0 <= i < |results| ==> Rank(results[i].status) <= HighestRank(results)
    ensures HighestRank(results) == 0 || exists i :: 0 <= i < |results| && Rank(results[i].status) == HighestRank(results)
  {
    if |results| > 0 {
      var prefix := results[..|results| - 1];
      HighestRankIsMaximum(prefix);
      assert forall i :: 0 <= i < |prefix| ==> prefix[i] == results[i];
    }
  }

  lemma MostCompleteStatusIsMaximum(results: seq<RoomDeletionStatus>)
    ensures forall i :: 0 <= i < |results| ==> Rank(results[i].status) <= Rank(MostCompleteStatus(results))
    ensures MostCompleteStatus(results) == ""
      || exists i :: 0 <= i < |results| && results[i].status == MostCompleteStatus(results)
  {
    HighestRankIsMaximum(results);
    var s := MostCompleteStatus(results);
    if s != "" {
      var i :| 0 <= i < |results| && Rank(results[i].status) == HighestRank(results);
      RankDeterminesStatus(results[i].status, s);
    }
  }

  /** Two statuses of equal non-zero rank are the same string. */
  lemma RankDeterminesStatus(a: string, b: string)
    requires Rank(a) == Rank(b) && Rank(a) > 0
    ensures a == b
  {
  }

  /** With no results, or only unrecognised ones, the verdict is "". */
  lemma NothingRecognisedGivesEmpty(results: seq<RoomDeletionStatus>)
    requires forall i :: 0 <= i < |results| ==> !Recognised(results[i].status)
    ensures MostCompleteStatus(results) == ""
  {
    MostCompleteStatusIsMaximum(results);
  }

  /** One `complete` result makes the verdict `complete`, whatever the others say. */
  lemma AnyCompleteGivesComplete(results: seq<RoomDeletionStatus>, i: int)
    requires 0 <= i < |results| && results[i].status == Complete
    ensures MostCompleteStatus(results) == Complete
  {
    MostCompleteStatusIsMaximum(results);
  }

  /** The verdict does not depend on the order of the results. */
  lemma MostCompleteStatusIgnoresOrder(results: seq<RoomDeletionStatus>, reordered: seq<RoomDeletionStatus>)
    requires multiset(results) == multiset(reordered)
    ensures MostCompleteStatus(results) == MostCompleteStatus(reordered)
  {
    HighestRankIsMaximum(results);
    HighestRankIsMaximum(reordered);
    if HighestRank(results) > 0 {
      var i :| 0 <= i < |results| && Rank(results[i].status) == HighestRank(results);
      assert results[i] in multiset(reordered);
      var j :| 0 <= j < |reordered| && reordered[j] == results[i];
    }
    if HighestRank(reordered) > 0 {
      var j :| 0 <= j < |reordered| && Rank(reordered[j].status) == HighestRank(reordered);
      assert reordered[j] in multiset(results);
      var i :| 0 <= i < |results| && results[i] == reordered[j];
    }
  }

  /** A report applied twice counts once. */
  lemma RepeatedReportChangesNothing(results: seq<RoomDeletionStatus>, i: int)
    requires 0 <= i < |results|
    ensures MostCompleteStatus(results + [results[i]]) == MostCompleteStatus(results)
    ensures AffectedUsers(results + [results[i]]) == AffectedUsers(results)
    ensures ErrorSet(results + [results[i]]) == ErrorSet(results)
  {
    var extended := results + [results[i]];
    assert extended[..|extended| - 1] == results;
    HighestRankIsMaximum(results);
    AffectedUsersMembers(results);
    ErrorSetMembers(results);
  }

  /** AffectedUsers is the union of every kicked and failed-to-kick list. */
  lemma {:induction false} AffectedUsersMembers(results: seq<RoomDeletionStatus>)
    ensures forall u :: u in AffectedUsers(results) <==>
      exists i :: 0 <= i < |results|
        && (u in results[i].shutdownRoom.kickedUsers || u in results[i].shutdownRoom.failedToKickUsers)
  {
    if |results| > 0 {
      var prefix := results[..|results| - 1];
      AffectedUsersMembers(prefix);
      assert forall i :: 0 <= i < |prefix| ==> prefix[i] == results[i];
    }
  }

  /** ErrorSet holds exactly the non-empty error strings of the results. */
  lemma {:induction false} ErrorSetMembers(results: seq<RoomDeletionStatus>)
    ensures forall e :: e in ErrorSet(results) <==> e != "" && exists i :: 0 <= i < |results| && results[i].error == e
  {
    if |results| > 0 {
      var prefix := results[..|results| - 1];
      ErrorSetMembers(prefix);
      assert forall i :: 0 <= i < |prefix| ==> prefix[i] == results[i];
    }
  }

  /** Every part occurs in the joined string. */
  lemma {:induction false} JoinContains(parts: seq<string>, sep: string, k: int)
    requires 0 <= k < |parts|
    ensures Contains(Join(parts, sep), parts[k])
  {
    if |parts| == 1 {
      assert OccursAt(parts[0], Join(parts, sep), 0);
    } else {
      var head := parts[0] + sep;
      var tail := Join(parts[1..], sep);
      assert Join(parts, sep) == head + tail;
      if k == 0 {
        assert (head + tail)[0..|parts[0]|] == parts[0];
        assert OccursAt(parts[0], Join(parts, sep), 0);
      } else {
        JoinContains(parts[1..], sep, k - 1);
        ContainsAfterPrefix(head, tail, parts[k]);
      }
    }
  }

  lemma ContainsAfterPrefix(prefix: string, s: string, t: string)
    requires Contains(s, t)
    ensures Contains(prefix + s, t)
  {
    var k :| OccursAt(t, s, k);
    assert (prefix + s)[|prefix| + k..|prefix| + k + |t|] == s[k..k + |t|];
    assert OccursAt(t, prefix + s, |prefix| + k);
  }

  // ---------------------------------------------------------------------
  // GetRoomName

  /** The canonical alias if set, else the name if set, else "no name found". */
  function ChooseRoomName(details: RoomDetails): (name: string)
    ensures name != ""
    ensures name == details.canonicalAlias || name == details.name || name == NoNameFound
    ensures details.canonicalAlias != "" ==> name == details.canonicalAlias
    ensures details.canonicalAlias == "" && details.name != "" ==> name == details.name
  {
    if details.canonicalAlias != "" then details.canonicalAlias
    else if details.name != "" then details.name
    else NoNameFound
  }

  /** GetRoomName reads the body before it looks at the status: a read error
      is an error even on 404; 404 means "no name found"; any other status
      but 200, or an undecodable body, is an error. */
  function GetRoomName(roomId: string, reply: Reply<RoomDetails>): (r: Result<string>)
    ensures r.Ok? <==> (reply.Reply? && !reply.body.ReadFailed?
                        && (reply.statusCode == 404 || (reply.statusCode == 200 && reply.body.Parsed?)))
    ensures reply.Reply? && !reply.body.ReadFailed? && reply.statusCode == 404 ==> r == Ok(NoNameFound)
    ensures reply.Reply? && reply.statusCode == 200 && reply.body.Parsed? ==> r == Ok(ChooseRoomName(reply.body.value))
    ensures r.Ok? ==> r.value != ""
  {
    match reply
    case NoReply(reason) => Err("HTTP GET room " + roomId + ": " + reason)
    case Reply(code, body) =>
      if body.ReadFailed? then Err("HTTP GET room " + roomId + ": read error")
      else if code == 404 then Ok(NoNameFound)
      else if code != 200 then Err("HTTP GET room " + roomId + ": bad status")
      else if body.Unparsable? then Err("HTTP GET room " + roomId + ": response json parse error")
      else Ok(ChooseRoomName(body.value))
  }

  // ---------------------------------------------------------------------
  // Login

  function MatrixUserId(username: string, domain: string): string
  {
    "@" + username + ":" + domain
  }

  /** The early-return search over the admin room's members. */
  method HasMember(members: seq<string>, userId: string) returns (found: bool)
    ensures found <==> userId in members
  {
    var i := 0;
    while i < |members|
      invariant 0 <= i <= |members|
      invariant userId !in members[..i]
    {
      if members[i] == userId {
        return true;
      }
      assert members[..i + 1] == members[..i] + [members[i]];
      i := i + 1;
    }
    assert members[..i] == members;
    return false;
  }

  /** The login server turned the credentials down. */
  predicate LoginRejected(exchange: LoginExchange)
  {
    exchange.login.Reply? && exchange.login.statusCode > 200
  }

  /** Every request of the exchange succeeded up to the decoded member list. */
  predicate MembersFetched(exchange: LoginExchange)
  {
    && exchange.login.Reply? && exchange.login.statusCode <= 200 && exchange.login.body.Parsed?
    && exchange.logoutError.None?
    && exchange.members.Reply? && exchange.members.statusCode == 200 && exchange.members.body.Parsed?
  }

  /** Login succeeds exactly when the credentials are accepted and the user
      `@username:domain` is a member of the admin room. An empty member list
      gives false with a nil error. */
  method Login(exchange: LoginExchange, username: string, domain: string) returns (r: Result<bool>)
    ensures LoginRejected(exchange) ==> r == Ok(false)
    ensures r.Err? <==> !LoginRejected(exchange) && !MembersFetched(exchange)
    ensures r == Ok(true) <==> MembersFetched(exchange) && MatrixUserId(username, domain) in exchange.members.body.value
  {
    if exchange.login.NoReply? {
      return Err(exchange.login.reason);
    }
    if exchange.login.statusCode > 200 {
      return Ok(false);
    }
    if !exchange.login.body.Parsed? {
      return Err("HTTP POST login: read or parse error");
    }
    if exchange.logoutError.Some? {
      return Err(exchange.logoutError.value);
    }
    var membersReply := exchange.members;
    if membersReply.NoReply? {
      return Err("HTTP GET members: " + membersReply.reason);
    }
    if membersReply.body.ReadFailed? {
      return Err("HTTP GET members: read error");
    }
    if membersReply.statusCode != 200 {
      return Err("HTTP GET members: bad status");
    }
    if membersReply.body.Unparsable? {
      return Err("HTTP GET members: response json parse error");
    }
    var members := membersReply.body.value;
    if |members| == 0 {
      return Ok(false);
    }
    var found := HasMember(members, MatrixUserId(username, domain));
    return Ok(found);
  }
}
