/** How the requests of a profile connection become steps on the shared buddy tables. */
module Profile {
  import opened Bytes
  import opened Framing
  import opened Fields
  import opened Buddies
  import Nas

  // "\login\", "\authtoken\"
  const LOGIN: Text := [0x5c, 0x6c, 0x6f, 0x67, 0x69, 0x6e, 0x5c]
  const AUTH_TOKEN: Text := [0x5c, 0x61, 0x75, 0x74, 0x68, 0x74, 0x6f, 0x6b, 0x65, 0x6e, 0x5c]
  // "\status\", "\addbuddy\", "\authadd\", "\delbuddy\"
  const STATUS: Text := [0x5c, 0x73, 0x74, 0x61, 0x74, 0x75, 0x73, 0x5c]
  const ADD_BUDDY: Text := [0x5c, 0x61, 0x64, 0x64, 0x62, 0x75, 0x64, 0x64, 0x79, 0x5c]
  const AUTH_ADD: Text := [0x5c, 0x61, 0x75, 0x74, 0x68, 0x61, 0x64, 0x64, 0x5c]
  const DEL_BUDDY: Text := [0x5c, 0x64, 0x65, 0x6c, 0x62, 0x75, 0x64, 0x64, 0x79, 0x5c]
  // "\newprofileid\", "\fromprofileid\", "\delprofileid\"
  const NEW_ID: Text := [0x5c, 0x6e, 0x65, 0x77, 0x70, 0x72, 0x6f, 0x66, 0x69, 0x6c, 0x65, 0x69, 0x64, 0x5c]
  const FROM_ID: Text := [0x5c, 0x66, 0x72, 0x6f, 0x6d, 0x70, 0x72, 0x6f, 0x66, 0x69, 0x6c, 0x65, 0x69, 0x64, 0x5c]
  const DEL_ID: Text := [0x5c, 0x64, 0x65, 0x6c, 0x70, 0x72, 0x6f, 0x66, 0x69, 0x6c, 0x65, 0x69, 0x64, 0x5c]

  predicate IsCommand(request: Text, command: Text) {
    && |request| >= |command| && request[..|command|] == command
    && |request| >= 7 && request[|request| - 7..] == FINAL
  }

  function FieldText(request: Text, marker: Text): Text
    requires marker != []
  {
    match Field(request, marker)
    case None => []
    case Some(value) => value
  }

  predicate IsLogin(request: Text) {
    IsCommand(request, LOGIN)
  }

  function TokenOf(request: Text): Text {
    FieldText(request, AUTH_TOKEN)
  }

  /** The step a request takes on the shared tables; every other request takes none. */
  function EventOf(request: Text, me: Text, socket: int): Option<Event> {
    if IsLogin(request) then None
    else if IsCommand(request, STATUS) then Some(Status(me, socket))
    else if IsCommand(request, ADD_BUDDY) then Some(AddBuddy(me, FieldText(request, NEW_ID)))
    else if IsCommand(request, AUTH_ADD) then Some(AuthAdd(me, FieldText(request, FROM_ID)))
    else if IsCommand(request, DEL_BUDDY) then Some(DelBuddy(me, FieldText(request, DEL_ID)))
    else None
  }

  /** The credentials of a connection after `requests`, if its logins found those in `found`. */
  function CredentialsAfter(requests: seq<Text>, found: seq<Nas.Credentials>): Nas.Credentials
    requires |found| == |requests|
  {
    if requests == [] then Nas.NO_CREDENTIALS
    else
      var n := |requests| - 1;
      if IsLogin(requests[n]) then found[n] else CredentialsAfter(requests[..n], found[..n])
  }

  function Steps(e: Option<Event>): seq<Event> {
    match e
    case None => []
    case Some(event) => [event]
  }

  /** The steps of a connection on the shared tables, each under the credentials of the login before it. */
  function EventsOf(requests: seq<Text>, found: seq<Nas.Credentials>, socket: int): seq<Event>
    requires |found| == |requests|
  {
    if requests == [] then []
    else
      var n := |requests| - 1;
      EventsOf(requests[..n], found[..n], socket) +
      Steps(EventOf(requests[n], CredentialsAfter(requests[..n], found[..n]).profileId, socket))
  }

  /** The rest of a request after the profile id that it names. */
  predicate EndsRequest(after: Text) {
    |after| >= 7 && after[0] == BACKSLASH && after[|after| - 7..] == FINAL
  }

  lemma CommandWithField(request: Text, command: Text, marker: Text, between: Text, id: Text, after: Text)
    requires marker != [] && request == command + between + marker + id + after
    requires Find(request, marker, 0) == Some(|command| + |between|)
    requires BACKSLASH !in id && EndsRequest(after)
    ensures IsCommand(request, command) && FieldText(request, marker) == id
  {
    FieldIsRead(request, command + between, marker, id, after);
    assert request[..|command|] == command;
    assert request[|request| - 7..] == after[|after| - 7..];
  }

  /** A request that names a profile in its first id field is read as that step. */
  lemma AddBuddyIsRead(request: Text, between: Text, id: Text, after: Text, me: Text, socket: int)
    requires request == ADD_BUDDY + between + NEW_ID + id + after && Find(request, NEW_ID, 0) == Some(10 + |between|)
    requires BACKSLASH !in id && EndsRequest(after)
    ensures EventOf(request, me, socket) == Some(AddBuddy(me, id))
  {
    CommandWithField(request, ADD_BUDDY, NEW_ID, between, id, after);
    CommandsDiffer(request);
  }

  /** A request that names a profile in its first id field is read as that step. */
  lemma AuthAddIsRead(request: Text, between: Text, id: Text, after: Text, me: Text, socket: int)
    requires request == AUTH_ADD + between + FROM_ID + id + after && Find(request, FROM_ID, 0) == Some(9 + |between|)
    requires BACKSLASH !in id && EndsRequest(after)
    ensures EventOf(request, me, socket) == Some(AuthAdd(me, id))
  {
    CommandWithField(request, AUTH_ADD, FROM_ID, between, id, after);
    CommandsDiffer(request);
  }

  /** A request that names a profile in its first id field is read as that step. */
  lemma DelBuddyIsRead(request: Text, between: Text, id: Text, after: Text, me: Text, socket: int)
    requires request == DEL_BUDDY + between + DEL_ID + id + after && Find(request, DEL_ID, 0) == Some(10 + |between|)
    requires BACKSLASH !in id && EndsRequest(after)
    ensures EventOf(request, me, socket) == Some(DelBuddy(me, id))
  {
    CommandWithField(request, DEL_BUDDY, DEL_ID, between, id, after);
    CommandsDiffer(request);
  }

  lemma CommandsDiffer(request: Text)
    ensures IsCommand(request, LOGIN) ==> request[1] == 0x6c
    ensures IsCommand(request, STATUS) ==> request[1] == 0x73
    ensures IsCommand(request, ADD_BUDDY) ==> request[1] == 0x61 && request[2] == 0x64
    ensures IsCommand(request, AUTH_ADD) ==> request[1] == 0x61 && request[2] == 0x75
    ensures IsCommand(request, DEL_BUDDY) ==> request[1] == 0x64
  {
    assert |request| >= 7 ==> request[1] == request[..7][1];
    assert |request| >= 8 ==> request[1] == request[..8][1];
    assert |request| >= 9 ==> request[1] == request[..9][1] && request[2] == request[..9][2];
    assert |request| >= 10 ==> request[1] == request[..10][1] && request[2] == request[..10][2];
  }

  predicate EndsInFinal(request: Text) {
    |request| >= 7 && request[|request| - 7..] == FINAL
  }

  lemma CommandIsPrefix(request: Text, command: Text)
    ensures IsCommand(request, command) <==> command <= request && EndsInFinal(request)
  {
  }

  /** A status request, whatever its fields, is read as the step that makes the profile active on the socket. */
  lemma StatusIsRead(request: Text, me: Text, socket: int)
    requires STATUS <= request && EndsInFinal(request)
    ensures EventOf(request, me, socket) == Some(Status(me, socket))
  {
    CommandIsPrefix(request, STATUS);
    CommandsDiffer(request);
  }

  lemma AbsentFieldIsEmpty(request: Text, marker: Text)
    requires marker != [] && forall j: nat :: !OccursAt(request, marker, j)
    ensures FieldText(request, marker) == []
  {
    FieldIsPresent(request, marker);
  }

  /** Buddy requests that name no profile are read as steps about the empty profile id. */
  lemma BuddyRequestWithoutId(request: Text, me: Text, socket: int)
    requires EndsInFinal(request)
    ensures ADD_BUDDY <= request && (forall j: nat :: !OccursAt(request, NEW_ID, j)) ==>
              EventOf(request, me, socket) == Some(AddBuddy(me, []))
    ensures AUTH_ADD <= request && (forall j: nat :: !OccursAt(request, FROM_ID, j)) ==>
              EventOf(request, me, socket) == Some(AuthAdd(me, []))
    ensures DEL_BUDDY <= request && (forall j: nat :: !OccursAt(request, DEL_ID, j)) ==>
              EventOf(request, me, socket) == Some(DelBuddy(me, []))
  {
    CommandIsPrefix(request, ADD_BUDDY);
    CommandIsPrefix(request, AUTH_ADD);
    CommandIsPrefix(request, DEL_BUDDY);
    CommandsDiffer(request);
    if ADD_BUDDY <= request && forall j: nat :: !OccursAt(request, NEW_ID, j) {
      AbsentFieldIsEmpty(request, NEW_ID);
    }
    if AUTH_ADD <= request && forall j: nat :: !OccursAt(request, FROM_ID, j) {
      AbsentFieldIsEmpty(request, FROM_ID);
    }
    if DEL_BUDDY <= request && forall j: nat :: !OccursAt(request, DEL_ID, j) {
      AbsentFieldIsEmpty(request, DEL_ID);
    }
  }

  /** Only those four kinds of requests take a step, and they always do. */
  lemma StepsExactly(request: Text, me: Text, socket: int)
    ensures EventOf(request, me, socket).Some? <==>
            && EndsInFinal(request)
            && (STATUS <= request || ADD_BUDDY <= request || AUTH_ADD <= request || DEL_BUDDY <= request)
  {
    CommandIsPrefix(request, LOGIN);
    CommandIsPrefix(request, STATUS);
    CommandIsPrefix(request, ADD_BUDDY);
    CommandIsPrefix(request, AUTH_ADD);
    CommandIsPrefix(request, DEL_BUDDY);
    CommandsDiffer(request);
  }

  /** A login presents the token in its first token field, or the empty token if it has no such field. */
  lemma TokenIsRead(request: Text, between: Text, token: Text, after: Text)
    requires request == LOGIN + between + AUTH_TOKEN + token + after
    requires Find(request, AUTH_TOKEN, 0) == Some(7 + |between|) && BACKSLASH !in token && EndsRequest(after)
    ensures IsLogin(request) && TokenOf(request) == token
  {
    CommandWithField(request, LOGIN, AUTH_TOKEN, between, token, after);
  }

  lemma LoginWithoutToken(request: Text)
    requires LOGIN <= request && EndsInFinal(request) && forall j: nat :: !OccursAt(request, AUTH_TOKEN, j)
    ensures IsLogin(request) && TokenOf(request) == []
  {
    AbsentFieldIsEmpty(request, AUTH_TOKEN);
  }

  // ---------- Under which profile a connection acts ----------

  predicate NoLogins(requests: seq<Text>, from: nat) {
    forall k :: from <= k < |requests| ==> !IsLogin(requests[k])
  }

  /** The credentials are those of the latest login, or the default ones before the first login. */
  lemma {:induction false} CredentialsOfLatestLogin(requests: seq<Text>, found: seq<Nas.Credentials>, n: nat)
    requires |found| == |requests|
    ensures NoLogins(requests, 0) ==> CredentialsAfter(requests, found) == Nas.NO_CREDENTIALS
    ensures n < |requests| && IsLogin(requests[n]) && NoLogins(requests, n + 1) ==>
              CredentialsAfter(requests, found) == found[n]
    decreases |requests|
  {
    if requests == [] {
    } else {
      var m := |requests| - 1;
      CredentialsOfLatestLogin(requests[..m], found[..m], n);
      assert n < m && NoLogins(requests, n + 1) ==> !IsLogin(requests[m]);
      assert NoLogins(requests, 0) ==> !IsLogin(requests[m]);
    }
  }

  predicate IsActiveOn(st: State, p: Text, socket: int) {
    p in st.active && st.active[p] == socket
  }

  lemma RequestKeepsActive(st: State, request: Text, me: Text, socket: int, p: Text)
    requires IsActiveOn(st, p, socket)
    ensures IsActiveOn(ApplyIfAny(st, EventOf(request, me, socket)).0, p, socket)
  {
  }

  /** The tables after one more request. */
  lemma RunOfLastRequest(st: State, requests: seq<Text>, found: seq<Nas.Credentials>, socket: int, n: nat)
    requires |found| == |requests| == n + 1
    ensures var me := CredentialsAfter(requests[..n], found[..n]).profileId;
            Run(st, EventsOf(requests, found, socket)) ==
            ApplyIfAny(Run(st, EventsOf(requests[..n], found[..n], socket)), EventOf(requests[n], me, socket)).0
  {
    var before := EventsOf(requests[..n], found[..n], socket);
    match EventOf(requests[n], CredentialsAfter(requests[..n], found[..n]).profileId, socket)
    case None => Units(before);
    case Some(e) => RunAppend(st, before, e);
  }

  lemma {:induction false} StatusStays(st: State, requests: seq<Text>, found: seq<Nas.Credentials>, socket: int, k: nat)
    requires |found| == |requests| && k < |requests| && STATUS <= requests[k] && EndsInFinal(requests[k])
    ensures IsActiveOn(Run(st, EventsOf(requests, found, socket)),
                       CredentialsAfter(requests[..k], found[..k]).profileId, socket)
    decreases |requests|
  {
    var n := |requests| - 1;
    RunOfLastRequest(st, requests, found, socket, n);
    var before := Run(st, EventsOf(requests[..n], found[..n], socket));
    var me := CredentialsAfter(requests[..n], found[..n]).profileId;
    if k == n {
      StatusIsRead(requests[n], me, socket);
    } else {
      StatusStays(st, requests[..n], found[..n], socket, k);
      assert requests[..n][..k] == requests[..k] && found[..n][..k] == found[..k];
      RequestKeepsActive(before, requests[n], me, socket, CredentialsAfter(requests[..k], found[..k]).profileId);
    }
  }

  /**
   * A status request makes the profile of the login before it active on the connection's socket, and it stays so
   * through all later requests of the connection until that closes; the last profile is then active nowhere.
   */
  lemma ActiveUntilClose(st: State, requests: seq<Text>, found: seq<Nas.Credentials>, socket: int, n: nat, k: nat)
    requires |found| == |requests| && n < k < |requests|
    requires IsLogin(requests[n]) && NoLogins(requests[..k], n + 1)
    requires STATUS <= requests[k] && EndsInFinal(requests[k])
    ensures IsActiveOn(Run(st, EventsOf(requests, found, socket)), found[n].profileId, socket)
    ensures var last := CredentialsAfter(requests, found).profileId;
            last !in Run(st, EventsOf(requests, found, socket) + [Close(last)]).active
  {
    StatusStays(st, requests, found, socket, k);
    CredentialsOfLatestLogin(requests[..k], found[..k], n);
    RunAppend(st, EventsOf(requests, found, socket), Close(CredentialsAfter(requests, found).profileId));
  }

  /** The default credentials, or those that some login found. */
  ghost predicate IsFound(c: Nas.Credentials, requests: seq<Text>, found: seq<Nas.Credentials>)
    requires |found| == |requests|
  {
    c == Nas.NO_CREDENTIALS || exists k: nat :: k < |requests| && IsLogin(requests[k]) && c == found[k]
  }

  lemma FoundBefore(c: Nas.Credentials, requests: seq<Text>, found: seq<Nas.Credentials>, n: nat)
    requires |found| == |requests| && n <= |requests| && IsFound(c, requests[..n], found[..n])
    ensures IsFound(c, requests, found)
  {
    if c != Nas.NO_CREDENTIALS {
      var k: nat :| k < n && IsLogin(requests[..n][k]) && c == found[..n][k];
      assert IsLogin(requests[k]) && c == found[k];
    }
  }

  lemma {:induction false} CredentialsAreFound(requests: seq<Text>, found: seq<Nas.Credentials>)
    requires |found| == |requests|
    ensures IsFound(CredentialsAfter(requests, found), requests, found)
    decreases |requests|
  {
    if requests == [] {
    } else {
      var n := |requests| - 1;
      if !IsLogin(requests[n]) {
        CredentialsAreFound(requests[..n], found[..n]);
        FoundBefore(CredentialsAfter(requests[..n], found[..n]), requests, found, n);
      }
    }
  }

  lemma StepNamesItsProfile(request: Text, me: Text, socket: int, e: Event)
    requires e in Steps(EventOf(request, me, socket))
    ensures e.me == me
  {
  }

  /** Every step is taken under credentials that were found. */
  lemma {:induction false} CredentialsOfEvent(requests: seq<Text>, found: seq<Nas.Credentials>, socket: int, e: Event)
    returns (c: Nas.Credentials)
    requires |found| == |requests| && e in EventsOf(requests, found, socket)
    ensures IsFound(c, requests, found) && e.me == c.profileId
    decreases |requests|
  {
    var n := |requests| - 1;
    c := CredentialsAfter(requests[..n], found[..n]);
    var before, last := EventsOf(requests[..n], found[..n], socket), Steps(EventOf(requests[n], c.profileId, socket));
    InConcat(e, before, last);
    if e in before {
      c := CredentialsOfEvent(requests[..n], found[..n], socket, e);
    } else {
      StepNamesItsProfile(requests[n], c.profileId, socket, e);
      CredentialsAreFound(requests[..n], found[..n]);
    }
    FoundBefore(c, requests, found, n);
  }

  /** Credentials that a request, if it is a login, finds in the tables `st`. */
  ghost predicate FindsIn(st: Nas.State, request: Text, c: Nas.Credentials) {
    IsLogin(request) ==> Nas.IsCredentials(st, TokenOf(request), c)
  }

  /** Every login found its credentials in the tables as they were after some part of the run `nas`. */
  ghost predicate FoundDuring(nas: seq<Nas.Event>, when: seq<nat>, requests: seq<Text>, found: seq<Nas.Credentials>) {
    && |when| == |found| == |requests|
    && forall k :: 0 <= k < |requests| ==>
         when[k] <= |nas| &&
         FindsIn(Nas.Run(Nas.System(Nas.INITIAL, {}), nas[..when[k]]).st, requests[k], found[k])
  }

  /** The profile of the user who holds the token that login `k` presented. */
  predicate IsProfileOfLogin(p: Text, profiles: map<Text, Text>, requests: seq<Text>, found: seq<Nas.Credentials>,
                             k: nat)
    requires k < |requests| == |found|
  {
    && IsLogin(requests[k]) && found[k].token == TokenOf(requests[k])
    && found[k].userId in profiles && profiles[found[k].userId] == p
  }

  /**
   * Whatever the NAS requests of all users do meanwhile, a connection takes each step under the default profile
   * or under the profile that the user of a token it presented has, and keeps for ever.
   */
  lemma ActsUnderProfilesOfItsTokens(nas: seq<Nas.Event>, when: seq<nat>, requests: seq<Text>,
                                     found: seq<Nas.Credentials>, socket: int, e: Event)
    requires Nas.Possible(Nas.System(Nas.INITIAL, {}), nas) && FoundDuring(nas, when, requests, found)
    requires e in EventsOf(requests, found, socket) || e == Close(CredentialsAfter(requests, found).profileId)
    ensures var profiles := Nas.Run(Nas.System(Nas.INITIAL, {}), nas).st.profiles;
            e.me == Nas.NO_CREDENTIALS.profileId
            || exists k: nat :: k < |requests| && IsProfileOfLogin(e.me, profiles, requests, found, k)
  {
    var c := CredentialsAfter(requests, found);
    if e in EventsOf(requests, found, socket) {
      c := CredentialsOfEvent(requests, found, socket, e);
    } else {
      CredentialsAreFound(requests, found);
    }
    if c != Nas.NO_CREDENTIALS {
      var k: nat :| k < |requests| && IsLogin(requests[k]) && c == found[k];
      SplitAt(nas, when[k]);
      Nas.CredentialsCarryTheProfile(nas[..when[k]], TokenOf(requests[k]), c, nas[when[k]..]);
      assert IsProfileOfLogin(
          e.me, Nas.Run(Nas.System(Nas.INITIAL, {}), nas).st.profiles, requests, found, k);
    }
  }

  // ---------- The handler ----------

  ghost predicate AllFindIn(st: Nas.State, requests: seq<Text>, found: seq<Nas.Credentials>) {
    |found| == |requests| && forall k :: 0 <= k < |requests| ==> FindsIn(st, requests[k], found[k])
  }

  lemma OneMoreFinds(st: Nas.State, requests: seq<Text>, found: seq<Nas.Credentials>, request: Text,
                     c: Nas.Credentials)
    requires AllFindIn(st, requests, found) && FindsIn(st, request, c)
    ensures AllFindIn(st, requests + [request], found + [c])
  {
  }

  /** Handles one request of a connection, whose credentials a login replaces. */
  method HandleRequest(table: Table, tables: Nas.Tables, request: Text, credentials: Nas.Credentials, socket: int)
    returns (sent: seq<Notice>, after: Nas.Credentials)
    modifies table
    ensures FindsIn(tables.Contents(), request, after) && (IsLogin(request) || after == credentials)
    ensures (table.Contents(), sent) ==
            ApplyIfAny(old(table.Contents()), EventOf(request, credentials.profileId, socket))
  {
    sent, after := [], credentials;
    var me := credentials.profileId;
    if IsCommand(request, LOGIN) {
      after := tables.CredentialsForToken(FieldText(request, AUTH_TOKEN));
    } else if IsCommand(request, STATUS) {
      table.HandleStatus(me, socket);
    } else if IsCommand(request, ADD_BUDDY) {
      sent := table.HandleAddBuddy(me, FieldText(request, NEW_ID));
    } else if IsCommand(request, AUTH_ADD) {
      sent := table.HandleAuthAdd(me, FieldText(request, FROM_ID));
    } else if IsCommand(request, DEL_BUDDY) {
      table.HandleDelBuddy(me, FieldText(request, DEL_ID));
    }
  }

  /** Where a connection that found `found` stands after `requests`, on tables that were `start`. */
  ghost predicate Reached(start: State, requests: seq<Text>, found: seq<Nas.Credentials>, socket: int,
                          st: State, sent: seq<Notice>, credentials: Nas.Credentials)
    requires |found| == |requests|
  {
    && credentials == CredentialsAfter(requests, found)
    && var events := EventsOf(requests, found, socket);
       st == Run(start, events) && sent == NoticesOf(start, events)
  }

  lemma OneMoreEvent(start: State, events: seq<Event>, e: Event)
    ensures Run(start, events + [e]) == Apply(Run(start, events), e).0
    ensures NoticesOf(start, events + [e]) == NoticesOf(start, events) + Apply(Run(start, events), e).1
  {
    RunAppend(start, events, e);
    InitOfSnoc(events, e);
  }

  lemma OneMoreRequest(start: State, requests: seq<Text>, found: seq<Nas.Credentials>, socket: int, st: State,
                       sent: seq<Notice>, credentials: Nas.Credentials, request: Text, after: Nas.Credentials)
    requires |found| == |requests| && Reached(start, requests, found, socket, st, sent, credentials)
    requires IsLogin(request) || after == credentials
    ensures var (next, more) := ApplyIfAny(st, EventOf(request, credentials.profileId, socket));
            Reached(start, requests + [request], found + [after], socket, next, sent + more, after)
  {
    InitOfSnoc(requests, request);
    InitOfSnoc(found, after);
    var before := EventsOf(requests, found, socket);
    match EventOf(request, credentials.profileId, socket)
    case None =>
      Units(before);
      Units(sent);
    case Some(e) =>
      OneMoreEvent(start, before, e);
  }

  /**
   * However its stream is cut, a connection takes the steps of the requests in the whole stream, each under the
   * credentials of the login before it, sends the notices of those steps, and closes under its last credentials.
   */
  method HandleConnection(table: Table, tables: Nas.Tables, chunks: seq<Text>, socket: int)
    returns (sent: seq<Notice>, ghost found: seq<Nas.Credentials>)
    modifies table
    ensures var requests := Frame(Flatten(chunks)).messages;
            && AllFindIn(tables.Contents(), requests, found)
            && var events := EventsOf(requests, found, socket);
               && sent == NoticesOf(old(table.Contents()), events)
               && table.Contents() ==
                  Run(old(table.Contents()), events + [Close(CredentialsAfter(requests, found).profileId)])
  {
    var buffer := new RequestBuffer();
    var requests := buffer.ReceiveAll(chunks);
    Units(Flatten(chunks));
    ghost var start := table.Contents();
    var credentials := Nas.NO_CREDENTIALS;
    sent, found := [], [];
    for i := 0 to |requests|
      invariant AllFindIn(tables.Contents(), requests[..i], found)
      invariant Reached(start, requests[..i], found, socket, table.Contents(), sent, credentials)
    {
      ghost var st := table.Contents();
      var more, after := HandleRequest(table, tables, requests[i], credentials, socket);
      OneMoreRequest(start, requests[..i], found, socket, st, sent, credentials, requests[i], after);
      OneMoreFinds(tables.Contents(), requests[..i], found, requests[i], after);
      TakeNext(requests, i);
      sent, credentials, found := sent + more, after, found + [after];
    }
    TakeAll(requests);
    RunAppend(start, EventsOf(requests, found, socket), Close(credentials.profileId));
    table.HandleClose(credentials.profileId);
  }
}
