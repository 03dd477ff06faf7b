/** The GameSpy QR server: heartbeats, challenges, registrations and the registry of online sessions. */
module QrServer {
  import opened Bytes
  import opened Clock
  import opened Sessions
  import opened QrCodec

  // "statechanged", "profileid", "userid", "uniquenick", "gamename"
  const STATE_CHANGED: Text := [0x73, 0x74, 0x61, 0x74, 0x65, 0x63, 0x68, 0x61, 0x6e, 0x67, 0x65, 0x64]
  const PROFILE_ID: Text := [0x70, 0x72, 0x6f, 0x66, 0x69, 0x6c, 0x65, 0x69, 0x64]
  const USER_ID: Text := [0x75, 0x73, 0x65, 0x72, 0x69, 0x64]
  const UNIQUE_NICK: Text := [0x75, 0x6e, 0x69, 0x71, 0x75, 0x65, 0x6e, 0x69, 0x63, 0x6b]
  const GAME_NAME_KEY: Text := [0x67, 0x61, 0x6d, 0x65, 0x6e, 0x61, 0x6d, 0x65]

  type Challenges = map<u32, Text>

  /** One received packet, with the client's endpoint, the random letters and the three clock readings it may use. */
  datatype Input = Input(
    packet: Text, address: Address, port: u16, letters: Text, touched: Time, pruned: Time, stored: Time)
  {
    function Id(): u32 {
      SessionId(packet)
    }

    predicate IsCommand(command: byte) {
      |packet| >= 5 && packet[0] == command
    }

    /** A heartbeat that announces the end of the session. */
    predicate IsShutdown() {
      IsHeartbeat(packet) && FieldValue(packet, STATE_CHANGED) == [0x32]
    }

    function Reply(): Text {
      ChallengeResponse(Id(), letters, address, port)
    }
  }

  // ---------- What one packet does ----------

  function Heartbeat(c: Challenges, i: Input): (Challenges, seq<Text>) {
    var rest := if i.IsShutdown() then c - {i.Id()} else c;
    if i.Id() in rest then (rest, []) else (rest[i.Id() := TextOfChallenge(i.Reply())], [i.Reply()])
  }

  /** The pending challenges after a packet, and the datagrams sent back. */
  function Step(c: Challenges, i: Input, key: Text): (Challenges, seq<Text>) {
    if i.IsCommand(0x08) then (c, [])
    else if i.IsCommand(0x01) && i.Id() in c && ChallengeMatches(i.packet, c[i.Id()], key) then
      (c - {i.Id()}, [RegisteredResponse(i.Id())])
    else if IsHeartbeat(i.packet) then Heartbeat(c, i)
    else (c, if IsAvailabilityRequest(i.packet) then [AVAILABLE] else [])
  }

  function SessionOf(i: Input): Session {
    var profileId, userId := FieldValue(i.packet, PROFILE_ID), FieldValue(i.packet, USER_ID);
    Session(
      i.Id(),
      if profileId != [] then profileId else if userId != [] then userId else Decimal(i.Id()),
      FieldValue(i.packet, UNIQUE_NICK), FieldValue(i.packet, GAME_NAME_KEY), i.address, i.port)
  }

  /** A packet of at least five bytes that does not start with 0x09 is a sign of life of its session. */
  predicate Touches(i: Input, id: u32) {
    |i.packet| >= 5 && i.packet[0] != 0x09 && i.Id() == id
  }

  /** The online sessions once a packet has touched its session and expired ones are gone. */
  function Kept(e: Entries, i: Input): Entries {
    Prune(if Touches(i, i.Id()) then Touch(e, i.Id(), i.touched) else e, i.pruned - MAX_AGE)
  }

  /** The online sessions after a packet. */
  function StepEntries(e: Entries, i: Input): Entries {
    if !IsHeartbeat(i.packet) then Kept(e, i)
    else if i.IsShutdown() then Remove(Kept(e, i), i.Id())
    else Upsert(Kept(e, i), SessionOf(i), i.stored)
  }

  function AfterEntries(e: Entries, inputs: seq<Input>): Entries
    decreases |inputs|
  {
    if inputs == [] then e else AfterEntries(StepEntries(e, inputs[0]), inputs[1..])
  }

  function After(c: Challenges, inputs: seq<Input>, key: Text): Challenges
    decreases |inputs|
  {
    if inputs == [] then c else After(Step(c, inputs[0], key).0, inputs[1..], key)
  }

  /** Every datagram sent during a run. */
  function Sent(c: Challenges, inputs: seq<Input>, key: Text): seq<Text>
    decreases |inputs|
  {
    if inputs == [] then []
    else Step(c, inputs[0], key).1 + Sent(Step(c, inputs[0], key).0, inputs[1..], key)
  }

  // ---------- Conservation of challenges ----------

  predicate IsDatagramFor(d: Text, kind: byte, id: u32) {
    |d| >= 7 && d[0] == 0xfe && d[1] == 0xfd && d[2] == kind && ReadU32Le(d, 3) == id
  }

  function Count(sent: seq<Text>, kind: byte, id: u32): nat {
    if sent == [] then 0 else (if IsDatagramFor(sent[0], kind, id) then 1 else 0) + Count(sent[1..], kind, id)
  }

  lemma {:induction false} CountAppend(a: seq<Text>, b: seq<Text>, kind: byte, id: u32)
    ensures Count(a + b, kind, id) == Count(a, kind, id) + Count(b, kind, id)
  {
    if a == [] {
      Units(b);
    } else {
      TailOfAppend(a, b);
      CountAppend(a[1..], b, kind, id);
    }
  }

  function OneIf(b: bool): nat {
    if b then 1 else 0
  }

  /** How many pending challenges of `id` its shutdown heartbeats discard during a run. */
  function Discarded(c: Challenges, inputs: seq<Input>, key: Text, id: u32): nat
    decreases |inputs|
  {
    if inputs == [] then 0
    else OneIf(id in c && inputs[0].IsShutdown() && inputs[0].Id() == id) +
         Discarded(Step(c, inputs[0], key).0, inputs[1..], key, id)
  }

  lemma KindOfDatagram(d: Text, kind0: byte, id0: u32, rest: Text, kind: byte, id: u32)
    requires d == [0xfe, 0xfd, kind0] + U32Le(id0) + rest
    ensures IsDatagramFor(d, kind, id) <==> kind0 == kind && id0 == id
  {
    ReadsBack(d, [0xfe, 0xfd, kind0], id0, rest);
  }

  lemma KindsOfDatagrams(i: Input, kind: byte, id: u32)
    requires kind == 0x01 || kind == 0x0a
    ensures IsDatagramFor(i.Reply(), kind, id) <==> kind == 0x01 && i.Id() == id
    ensures IsDatagramFor(RegisteredResponse(i.Id()), kind, id) <==> kind == 0x0a && i.Id() == id
    ensures !IsDatagramFor(AVAILABLE, kind, id)
  {
    var text := ChallengeText(i.letters, i.address, i.port);
    Assoc([0xfe, 0xfd, 0x01] + U32Le(i.Id()), text, [0]);
    KindOfDatagram(i.Reply(), 0x01, i.Id(), text + [0], kind, id);
    Units(RegisteredResponse(i.Id()));
    KindOfDatagram(RegisteredResponse(i.Id()), 0x0a, i.Id(), [], kind, id);
  }

  /** One packet of session `me` has changed `c` to `after`, and `sent` is one of the three datagrams or nothing. */
  predicate Moves(c: Challenges, after: Challenges, sent: seq<Text>, me: u32, shutdown: bool,
                  challenge: Text, registered: Text, available: Text)
  {
    || (!shutdown && after == c && (sent == [] || sent == [available]))
    || (!shutdown && me in c && after == c - {me} && sent == [registered])
    || (!shutdown && me in c && after == c && sent == [])
    || ((shutdown || me !in c) && after.Keys == c.Keys + {me} && sent == [challenge])
  }

  lemma StepMoves(c: Challenges, i: Input, key: Text)
    ensures Moves(c, Step(c, i, key).0, Step(c, i, key).1, i.Id(), i.IsShutdown(),
                  i.Reply(), RegisteredResponse(i.Id()), AVAILABLE)
  {
  }

  lemma CountOfOne(d: Text, kind: byte, id: u32)
    ensures Count([d], kind, id) == OneIf(IsDatagramFor(d, kind, id))
  {
    assert [d][1..] == [];
  }

  lemma MovesBalance(c: Challenges, after: Challenges, sent: seq<Text>, me: u32, shutdown: bool,
                     challenge: Text, registered: Text, available: Text, id: u32)
    requires Moves(c, after, sent, me, shutdown, challenge, registered, available)
    requires Count([challenge], 0x01, id) == OneIf(me == id) && Count([challenge], 0x0a, id) == 0
    requires Count([registered], 0x01, id) == 0 && Count([registered], 0x0a, id) == OneIf(me == id)
    requires Count([available], 0x01, id) == 0 && Count([available], 0x0a, id) == 0
    ensures Count(sent, 0x01, id) + OneIf(id in c) ==
            Count(sent, 0x0a, id) + OneIf(id in c && shutdown && me == id) + OneIf(id in after)
  {
  }

  lemma StepConserves(c: Challenges, i: Input, key: Text, id: u32)
    ensures var r := Step(c, i, key);
            Count(r.1, 0x01, id) + OneIf(id in c) ==
            Count(r.1, 0x0a, id) + OneIf(id in c && i.IsShutdown() && i.Id() == id) + OneIf(id in r.0)
  {
    var challenge, registered := i.Reply(), RegisteredResponse(i.Id());
    StepMoves(c, i, key);
    KindsOfDatagrams(i, 0x01, id);
    KindsOfDatagrams(i, 0x0a, id);
    CountOfOne(challenge, 0x01, id);
    CountOfOne(challenge, 0x0a, id);
    CountOfOne(registered, 0x01, id);
    CountOfOne(registered, 0x0a, id);
    CountOfOne(AVAILABLE, 0x01, id);
    CountOfOne(AVAILABLE, 0x0a, id);
    MovesBalance(c, Step(c, i, key).0, Step(c, i, key).1, i.Id(), i.IsShutdown(),
                 challenge, registered, AVAILABLE, id);
  }

  /**
   * In every run, for every session: challenges sent, plus one if one was pending at the start, are registrations
   * sent, plus challenges discarded by shutdown heartbeats, plus one if one is pending at the end.
   */
  lemma {:induction false} Conservation(c: Challenges, inputs: seq<Input>, key: Text, id: u32)
    ensures Count(Sent(c, inputs, key), 0x01, id) + OneIf(id in c) ==
            Count(Sent(c, inputs, key), 0x0a, id) + Discarded(c, inputs, key, id) + OneIf(id in After(c, inputs, key))
    decreases |inputs|
  {
    if inputs == [] {
    } else {
      var r := Step(c, inputs[0], key);
      StepConserves(c, inputs[0], key, id);
      Conservation(r.0, inputs[1..], key, id);
      CountAppend(r.1, Sent(r.0, inputs[1..], key), 0x01, id);
      CountAppend(r.1, Sent(r.0, inputs[1..], key), 0x0a, id);
    }
  }

  /** No session is ever registered more often than it was challenged. */
  lemma RegistrationsNeedChallenges(inputs: seq<Input>, key: Text, id: u32)
    ensures Count(Sent(map[], inputs, key), 0x0a, id) <= Count(Sent(map[], inputs, key), 0x01, id)
  {
    Conservation(map[], inputs, key, id);
  }

  /** What a run sends is what its steps send, in order, each from the state that the earlier ones leave. */
  lemma {:induction false} SentInOrder(c: Challenges, a: seq<Input>, i: Input, b: seq<Input>, key: Text)
    ensures Sent(c, a + [i] + b, key) ==
            Sent(c, a, key) + (Step(After(c, a, key), i, key).1 + Sent(Step(After(c, a, key), i, key).0, b, key))
    decreases |a|
  {
    if a == [] {
      Units([i]);
      TailOfCons(i, b);
      Units(Step(c, i, key).1 + Sent(Step(c, i, key).0, b, key));
    } else {
      var first := Step(c, a[0], key);
      var then_ := Step(After(c, a, key), i, key);
      SentInOrder(first.0, a[1..], i, b, key);
      TailOfAppend(a, [i]);
      TailOfAppend(a + [i], b);
      Assoc(first.1, Sent(first.0, a[1..], key), then_.1 + Sent(then_.0, b, key));
    }
  }

  // ---------- The handshake ----------

  /** A packet that answers no challenge leaves its session's challenge alone unless it ends the session. */
  predicate Spares(i: Input, id: u32, challenge: Text, key: Text) {
    i.Id() == id ==> !i.IsShutdown() && !(i.IsCommand(0x01) && ChallengeMatches(i.packet, challenge, key))
  }

  /** A pending challenge survives a packet exactly when the packet spares it, or replaces it by an equal one. */
  lemma PendingUntilAnswered(c: Challenges, i: Input, key: Text, id: u32)
    requires id in c
    ensures var after := Step(c, i, key).0;
            id in after && after[id] == c[id] <==>
            Spares(i, id, c[id], key) || (i.Id() == id && i.IsShutdown() && TextOfChallenge(i.Reply()) == c[id])
  {
  }

  lemma {:induction false} PendingThroughout(c: Challenges, inputs: seq<Input>, key: Text, id: u32)
    requires id in c && forall i :: i in inputs ==> Spares(i, id, c[id], key)
    ensures var after := After(c, inputs, key); id in after && after[id] == c[id]
    decreases |inputs|
  {
    if inputs == [] {
    } else {
      assert inputs[0] in inputs;
      PendingUntilAnswered(c, inputs[0], key, id);
      PendingThroughout(Step(c, inputs[0], key).0, inputs[1..], key, id);
    }
  }

  /**
   * What a command-1 packet does to a session with a pending challenge: only the two forms of the client's
   * answer register it, and anything else sends nothing and changes nothing. With an empty key nothing registers.
   */
  lemma CommandOne(c: Challenges, i: Input, key: Text)
    requires i.IsCommand(0x01) && i.Id() in c
    ensures var id, challenge := i.Id(), c[i.Id()];
            Step(c, i, key) ==
            if key != [] && (i.packet == ClientResponse(id, challenge, key)
                             || i.packet == ClientPacket(0x01, id, ExpectedAnswer(challenge, key)))
            then (c - {id}, [RegisteredResponse(id)])
            else (c, [])
  {
    if key != [] {
      MatchesExactly(i.packet, c[i.Id()], key);
    }
  }

  /**
   * A client that answers the challenge it was sent is registered and its challenge is dropped, whatever packets
   * the server handles in between that neither answer the challenge nor end the session.
   */
  lemma HandshakeCompletes(c: Challenges, heartbeat: Input, between: seq<Input>, answer: Input, key: Text)
    requires IsHeartbeat(heartbeat.packet) && key != []
    requires heartbeat.Id() in c ==> heartbeat.IsShutdown()
    requires var text := TextOfChallenge(heartbeat.Reply());
             && answer.packet == ClientResponse(heartbeat.Id(), text, key)
             && forall i :: i in between ==> Spares(i, heartbeat.Id(), text, key)
    ensures var id := heartbeat.Id();
            var challenged := Step(c, heartbeat, key);
            var waiting := After(challenged.0, between, key);
            var done := Step(waiting, answer, key);
            && challenged.1 == [heartbeat.Reply()] && done.1 == [RegisteredResponse(id)]
            && done.0 == waiting - {id} && id !in done.0
  {
    var id, text := heartbeat.Id(), TextOfChallenge(heartbeat.Reply());
    var challenged := Step(c, heartbeat, key);
    assert challenged.1 == [heartbeat.Reply()] && id in challenged.0 && challenged.0[id] == text;
    PendingThroughout(challenged.0, between, key, id);
    PartsOfClientResponse(id, text, key);
    CommandOne(After(challenged.0, between, key), answer, key);
  }

  // ---------- Which challenges are pending ----------

  lemma {:induction false} AfterAppend(c: Challenges, a: seq<Input>, i: Input, key: Text)
    ensures After(c, a + [i], key) == Step(After(c, a, key), i, key).0
    decreases |a|
  {
    if a == [] {
      Units([i]);
      assert [i][1..] == [];
    } else {
      TailOfAppend(a, [i]);
      AfterAppend(Step(c, a[0], key).0, a[1..], i, key);
    }
  }

  /** A packet of session `id` is answered with a challenge. */
  predicate IsChallenged(c: Challenges, i: Input, id: u32) {
    IsHeartbeat(i.packet) && i.Id() == id && (id in c ==> i.IsShutdown())
  }

  predicate IsPending(c: Challenges, id: u32, text: Text) {
    id in c && c[id] == text
  }

  predicate AllSpare(inputs: seq<Input>, id: u32, text: Text, key: Text) {
    forall i :: i in inputs ==> Spares(i, id, text, key)
  }

  /** Packet `n` of a run from the empty state was answered with the challenge `text`, and all later ones spare it. */
  predicate SparedSince(inputs: seq<Input>, n: nat, key: Text, id: u32, text: Text)
    requires n < |inputs|
  {
    && IsChallenged(After(map[], inputs[..n], key), inputs[n], id) && text == TextOfChallenge(inputs[n].Reply())
    && AllSpare(inputs[n + 1..], id, text, key)
  }

  /** The challenge `text` is pending after a packet if the packet stored it, or if it was pending and is spared. */
  lemma StepOfPending(c: Challenges, i: Input, key: Text, id: u32, text: Text)
    ensures IsPending(Step(c, i, key).0, id, text) <==>
            || (IsChallenged(c, i, id) && text == TextOfChallenge(i.Reply()))
            || (IsPending(c, id, text) && Spares(i, id, text, key))
  {
  }

  lemma AllSpareSnoc(inputs: seq<Input>, last: Input, id: u32, text: Text, key: Text)
    ensures AllSpare(inputs + [last], id, text, key) <==>
            AllSpare(inputs, id, text, key) && Spares(last, id, text, key)
  {
    assert forall i :: i in inputs ==> i in inputs + [last];
    assert last in inputs + [last];
  }

  lemma SparedByLast(before: seq<Input>, last: Input, n: nat, key: Text, id: u32, text: Text)
    requires n < |before|
    ensures SparedSince(before + [last], n, key, id, text) <==>
            SparedSince(before, n, key, id, text) && Spares(last, id, text, key)
  {
    var inputs := before + [last];
    assert inputs[..n] == before[..n] && inputs[n] == before[n];
    assert inputs[n + 1..] == before[n + 1..] + [last];
    AllSpareSnoc(before[n + 1..], last, id, text, key);
  }

  lemma LastIsSpared(before: seq<Input>, last: Input, key: Text, id: u32, text: Text)
    ensures SparedSince(before + [last], |before|, key, id, text) <==>
            IsChallenged(After(map[], before, key), last, id) && text == TextOfChallenge(last.Reply())
  {
    InitOfSnoc(before, last);
    assert (before + [last])[|before| + 1..] == [];
  }

  /** In every run a challenge is pending exactly if it was sent and every packet since then spared it. */
  lemma {:induction false} PendingIsHistory(inputs: seq<Input>, key: Text, id: u32, text: Text)
    ensures IsPending(After(map[], inputs, key), id, text) <==>
            exists n: nat :: n < |inputs| && SparedSince(inputs, n, key, id, text)
    decreases |inputs|
  {
    if inputs == [] {
    } else {
      var m := |inputs| - 1;
      var before, last := inputs[..m], inputs[m];
      assert inputs == before + [last];
      PendingIsHistory(before, key, id, text);
      AfterAppend(map[], before, last, key);
      StepOfPending(After(map[], before, key), last, key, id, text);
      LastIsSpared(before, last, key, id, text);
      forall n: nat | n < m
        ensures SparedSince(inputs, n, key, id, text) <==>
                SparedSince(before, n, key, id, text) && Spares(last, id, text, key)
      {
        SparedByLast(before, last, n, key, id, text);
      }
    }
  }

  /** The text names the endpoint that the packet came from. */
  predicate NamesEndpoint(text: Text, i: Input) {
    |text| == 20 && text[..6] == i.letters && UnHex(text[8..]) == Some(i.address + U16Be(i.port))
  }

  /** Every pending challenge names the endpoint of the heartbeat that it was sent to. */
  lemma PendingTextsNameEndpoints(inputs: seq<Input>, key: Text, id: u32) returns (n: nat)
    requires id in After(map[], inputs, key) && forall i :: i in inputs ==> AreSixLetters(i.letters)
    ensures n < |inputs| && IsHeartbeat(inputs[n].packet) && inputs[n].Id() == id
    ensures NamesEndpoint(After(map[], inputs, key)[id], inputs[n])
  {
    var text := After(map[], inputs, key)[id];
    PendingIsHistory(inputs, key, id, text);
    n :| n < |inputs| && SparedSince(inputs, n, key, id, text);
    var i := inputs[n];
    assert i in inputs;
    ChallengeCarriesItsText(i.Id(), i.letters, i.address, i.port);
  }

  /** Every pending challenge has 20 characters, of which the last twelve decode to six octets. */
  predicate WholeTexts(c: Challenges) {
    forall id :: id in c ==> IsWhole(c[id])
  }

  predicate IsWhole(text: Text) {
    |text| == 20 && UnHex(text[8..]).Some? && |UnHex(text[8..]).value| == 6
  }

  lemma ChallengeIsWhole(i: Input)
    requires AreSixLetters(i.letters)
    ensures IsWhole(TextOfChallenge(i.Reply()))
  {
    ChallengeCarriesItsText(i.Id(), i.letters, i.address, i.port);
  }

  lemma TextsAfterStep(c: Challenges, i: Input, key: Text, id: u32)
    requires id in Step(c, i, key).0
    ensures Step(c, i, key).0[id] == TextOfChallenge(i.Reply()) || (id in c && Step(c, i, key).0[id] == c[id])
  {
  }

  lemma StepKeepsWhole(c: Challenges, i: Input, key: Text)
    requires WholeTexts(c) && AreSixLetters(i.letters)
    ensures WholeTexts(Step(c, i, key).0)
  {
    var after := Step(c, i, key).0;
    forall id | id in after ensures IsWhole(after[id]) {
      TextsAfterStep(c, i, key, id);
      ChallengeIsWhole(i);
    }
  }

  lemma {:induction false} TextsStayWhole(c: Challenges, inputs: seq<Input>, key: Text)
    requires WholeTexts(c) && forall i :: i in inputs ==> AreSixLetters(i.letters)
    ensures WholeTexts(After(c, inputs, key))
    decreases |inputs|
  {
    if inputs == [] {
    } else {
      assert inputs[0] in inputs;
      StepKeepsWhole(c, inputs[0], key);
      TextsStayWhole(Step(c, inputs[0], key).0, inputs[1..], key);
    }
  }

  // ---------- Heartbeats, expiry and shutdown ----------

  /**
   * Every accepted heartbeat leaves a challenge pending. Unless it ends the session, the session is online at
   * once, before any challenge is answered; if it ends the session, the session is offline but challenged anew.
   */
  lemma AfterHeartbeat(c: Challenges, e: Entries, i: Input, key: Text)
    requires IsHeartbeat(i.packet)
    ensures var r := Step(c, i, key);
            && i.Id() in r.0 && Count(r.1, 0x0a, i.Id()) == 0
            && (i.IsShutdown() ==> r.1 == [i.Reply()])
            && (i.Id() in StepEntries(e, i) <==> !i.IsShutdown())
  {
    KindsOfDatagrams(i, 0x0a, i.Id());
  }

  /**
   * Exactly which sessions a packet expires. A sign of life, which is a packet of at least five bytes that does not
   * start with 0x09, counts before the age limit is applied; a heartbeat counts whatever its session's age; and any
   * other session is judged by its last sign of life. So after a packet no session is older than 61 seconds.
   */
  lemma ExpiryIsExact(e: Entries, i: Input, id: u32)
    ensures var p, after := i.packet, StepEntries(e, i);
            if IsHeartbeat(p) && id == SessionId(p) then id in after <==> !i.IsShutdown()
            else if |p| >= 5 && p[0] != 0x09 && id == SessionId(p) then
              && (id in after <==> id in e && i.touched > i.pruned - 61 * SECOND)
              && (id in after ==> after[id] == Entry(e[id].session, i.touched))
            else
              && (id in after <==> id in e && e[id].lastSeen > i.pruned - 61 * SECOND)
              && (id in after ==> after[id] == e[id])
    ensures i.pruned <= i.stored ==> AllNewer(StepEntries(e, i), i.pruned - 61 * SECOND)
  {
  }

  // ---------- What a heartbeat puts online ----------

  /**
   * The session of a packet that says these values: its profile is the profile id, else the user id, else the
   * number of the session; its nick and game are those said, and its endpoint is the sender's.
   */
  predicate IsSessionSaid(s: Session, i: Input, profileId: Text, userId: Text, nick: Text, game: Text) {
    && s.sessionId == SessionId(i.packet) && s.uniqueNick == nick && s.gameName == game
    && s.address == i.address && s.port == i.port
    && (profileId != [] ==> s.profileId == profileId)
    && (profileId == [] && userId != [] ==> s.profileId == userId)
    && (profileId == [] && userId == [] ==> s.profileId == Decimal(SessionId(i.packet)))
  }

  lemma SessionSays(i: Input, profileId: Text, userId: Text, nick: Text, game: Text)
    requires Says(i.packet, PROFILE_ID, profileId) && Says(i.packet, USER_ID, userId)
    requires Says(i.packet, UNIQUE_NICK, nick) && Says(i.packet, GAME_NAME_KEY, game)
    ensures IsSessionSaid(SessionOf(i), i, profileId, userId, nick, game)
  {
    FieldExactly(i.packet, PROFILE_ID, profileId);
    FieldExactly(i.packet, USER_ID, userId);
    FieldExactly(i.packet, UNIQUE_NICK, nick);
    FieldExactly(i.packet, GAME_NAME_KEY, game);
  }

  /**
   * A heartbeat ends its session exactly if it says that its state changed to 2; any other puts exactly what it says
   * online, at the time it is stored.
   */
  lemma HeartbeatGoesOnline(e: Entries, i: Input, state: Text, profileId: Text, userId: Text, nick: Text, game: Text)
    requires IsHeartbeat(i.packet) && Says(i.packet, STATE_CHANGED, state)
    requires Says(i.packet, PROFILE_ID, profileId) && Says(i.packet, USER_ID, userId)
    requires Says(i.packet, UNIQUE_NICK, nick) && Says(i.packet, GAME_NAME_KEY, game)
    ensures var id, after := SessionId(i.packet), StepEntries(e, i);
            if state == [0x32] then id !in after
            else id in after && after[id].lastSeen == i.stored
                 && IsSessionSaid(after[id].session, i, profileId, userId, nick, game)
  {
    FieldExactly(i.packet, STATE_CHANGED, state);
    SessionSays(i, profileId, userId, nick, game);
  }

  // ---------- Availability ----------

  /** The one packet that asks for availability is told that the service is there, and changes nothing. */
  lemma AvailabilityIsAnswered(c: Challenges, i: Input, key: Text)
    ensures i.packet == [0x09, 0, 0, 0, 0] + GAME_NAME + [0] ==>
              Step(c, i, key) == (c, [[0xfe, 0xfd, 0x09, 0, 0, 0, 0]])
    ensures i.packet != [0x09, 0, 0, 0, 0] + GAME_NAME + [0] && !i.IsCommand(0x01) && !IsHeartbeat(i.packet) ==>
              Step(c, i, key) == (c, [])
  {
    AvailabilityExactly(i.packet);
  }

  // ---------- Who is online ----------

  predicate IsHeartbeatOf(i: Input, id: u32) {
    IsHeartbeat(i.packet) && i.Id() == id
  }

  /** Packets, none a heartbeat of session `id`, that all come within the age limit of its last sign of life. */
  predicate KeptOnline(inputs: seq<Input>, id: u32, last: Time)
    decreases |inputs|
  {
    inputs == [] ||
    (var now := if Touches(inputs[0], id) then inputs[0].touched else last;
     && !IsHeartbeatOf(inputs[0], id) && now > inputs[0].pruned - MAX_AGE
     && KeptOnline(inputs[1..], id, now))
  }

  /** Packet `n` is a heartbeat that puts session `id` online as `s`, and the later packets keep it online. */
  predicate OnlineSince(inputs: seq<Input>, n: nat, id: u32, s: Session)
    requires n < |inputs|
  {
    && IsHeartbeatOf(inputs[n], id) && !inputs[n].IsShutdown() && SessionOf(inputs[n]) == s
    && KeptOnline(inputs[n + 1..], id, inputs[n].stored)
  }

  predicate IsOnlineAs(e: Entries, id: u32, s: Session) {
    id in e && e[id].session == s
  }

  lemma StepOfOnline(e: Entries, i: Input, rest: seq<Input>, id: u32, s: Session)
    ensures var after := StepEntries(e, i);
            IsOnlineAs(after, id, s) && KeptOnline(rest, id, after[id].lastSeen) <==>
            || (IsHeartbeatOf(i, id) && !i.IsShutdown() && SessionOf(i) == s && KeptOnline(rest, id, i.stored))
            || (IsOnlineAs(e, id, s) && KeptOnline([i] + rest, id, e[id].lastSeen))
  {
    TailOfCons(i, rest);
  }

  lemma OneLater(first: Input, rest: seq<Input>, n: nat, id: u32, s: Session)
    requires n < |rest|
    ensures OnlineSince([first] + rest, n + 1, id, s) <==> OnlineSince(rest, n, id, s)
  {
    var inputs := [first] + rest;
    assert inputs[n + 1] == rest[n] && inputs[n + 2..] == rest[n + 1..];
  }

  ghost predicate SomeOnlineSince(inputs: seq<Input>, id: u32, s: Session) {
    exists n: nat :: n < |inputs| && OnlineSince(inputs, n, id, s)
  }

  lemma LaterIsSome(first: Input, rest: seq<Input>, id: u32, s: Session)
    requires SomeOnlineSince(rest, id, s)
    ensures SomeOnlineSince([first] + rest, id, s)
  {
    var n: nat :| n < |rest| && OnlineSince(rest, n, id, s);
    OneLater(first, rest, n, id, s);
    assert OnlineSince([first] + rest, n + 1, id, s);
  }

  lemma SomeIsFirstOrLater(first: Input, rest: seq<Input>, id: u32, s: Session)
    requires SomeOnlineSince([first] + rest, id, s) && !OnlineSince([first] + rest, 0, id, s)
    ensures SomeOnlineSince(rest, id, s)
  {
    var n: nat :| n < |rest| + 1 && OnlineSince([first] + rest, n, id, s);
    OneLater(first, rest, n - 1, id, s);
    assert OnlineSince(rest, n - 1, id, s);
  }

  lemma FirstOrLater(first: Input, rest: seq<Input>, id: u32, s: Session)
    ensures SomeOnlineSince([first] + rest, id, s) <==>
            OnlineSince([first] + rest, 0, id, s) || SomeOnlineSince(rest, id, s)
  {
    if SomeOnlineSince(rest, id, s) {
      LaterIsSome(first, rest, id, s);
    } else if SomeOnlineSince([first] + rest, id, s) && !OnlineSince([first] + rest, 0, id, s) {
      SomeIsFirstOrLater(first, rest, id, s);
    }
  }

  /**
   * In every run a session is online exactly if some heartbeat of it put it online and the later packets, none of
   * them its heartbeats, kept it online; or if it was online before and the whole run kept it online.
   */
  lemma {:induction false} OnlineIsHistory(e: Entries, inputs: seq<Input>, id: u32, s: Session)
    ensures IsOnlineAs(AfterEntries(e, inputs), id, s) <==>
            || SomeOnlineSince(inputs, id, s)
            || (IsOnlineAs(e, id, s) && KeptOnline(inputs, id, e[id].lastSeen))
    decreases |inputs|
  {
    if inputs == [] {
    } else {
      var first, rest := inputs[0], inputs[1..];
      assert inputs == [first] + rest;
      OnlineIsHistory(StepEntries(e, first), rest, id, s);
      StepOfOnline(e, first, rest, id, s);
      FirstOrLater(first, rest, id, s);
    }
  }

  // ---------- The handler ----------

  class Server {
    var challenges: Challenges
    const registry: Registry

    constructor ()
      ensures challenges == map[] && fresh(registry) && registry.Valid() && registry.Contents() == map[]
    {
      challenges := map[];
      registry := new Registry();
    }

    method HandleHeartbeat(i: Input) returns (sent: seq<Text>)
      requires registry.Valid() && IsHeartbeat(i.packet)
      modifies this, registry
      ensures registry.Valid() && (challenges, sent) == Heartbeat(old(challenges), i)
      ensures registry.Contents() == if i.IsShutdown() then Remove(old(registry.Contents()), i.Id())
                                     else Upsert(old(registry.Contents()), SessionOf(i), i.stored)
    {
      sent := [];
      var id := SessionId(i.packet);
      if FieldValue(i.packet, STATE_CHANGED) == [0x32] {
        registry.RemoveOnlineSession(id);
        challenges := challenges - {id};
      } else {
        registry.UpsertOnlineSession(SessionOf(i), i.stored);
      }
      if id !in challenges {
        var response := ChallengeResponse(id, i.letters, i.address, i.port);
        sent := [response];
        challenges := challenges[id := TextOfChallenge(response)];
      }
    }

    /** The sender's session is touched before expired sessions are pruned. */
    method TouchAndPrune(i: Input)
      requires registry.Valid()
      modifies registry
      ensures registry.Valid() && registry.Contents() == Kept(old(registry.Contents()), i)
    {
      if |i.packet| >= 5 && i.packet[0] != 0x09 {
        registry.TouchOnlineSession(SessionId(i.packet), i.touched);
      }
      registry.PruneOnlineSessions(MAX_AGE, i.pruned);
    }

    method HandlePacket(i: Input, secretKey: Text) returns (sent: seq<Text>)
      requires registry.Valid()
      modifies this, registry
      ensures registry.Valid()
      ensures (challenges, sent) == Step(old(challenges), i, secretKey)
      ensures registry.Contents() == StepEntries(old(registry.Contents()), i)
    {
      sent := [];
      var id := SessionId(i.packet);
      TouchAndPrune(i);
      if |i.packet| >= 5 && i.packet[0] == 0x08 {
        return;
      }
      if |i.packet| >= 5 && i.packet[0] == 0x01 && id in challenges {
        var matches := QrChallengeMatches(i.packet, challenges[id], secretKey);
        if matches {
          sent := [RegisteredResponse(id)];
          challenges := challenges - {id};
          return;
        }
      }
      if IsHeartbeat(i.packet) {
        sent := HandleHeartbeat(i);
        return;
      }
      if IsAvailabilityRequest(i.packet) {
        sent := [AVAILABLE];
      }
    }

    /** Handling packets one after the other is the run that the lemmas speak about. */
    method Serve(inputs: seq<Input>, secretKey: Text) returns (sent: seq<Text>)
      requires registry.Valid()
      modifies this, registry
      ensures registry.Valid() && challenges == After(old(challenges), inputs, secretKey)
      ensures sent == Sent(old(challenges), inputs, secretKey)
      ensures registry.Contents() == AfterEntries(old(registry.Contents()), inputs)
    {
      sent := [];
      Units(Sent(challenges, inputs, secretKey));
      for n := 0 to |inputs|
        invariant registry.Valid()
        invariant After(challenges, inputs[n..], secretKey) == After(old(challenges), inputs, secretKey)
        invariant sent + Sent(challenges, inputs[n..], secretKey) == Sent(old(challenges), inputs, secretKey)
        invariant AfterEntries(registry.Contents(), inputs[n..]) == AfterEntries(old(registry.Contents()), inputs)
      {
        TailOfSuffix(inputs, n);
        var more := HandlePacket(inputs[n], secretKey);
        Assoc(sent, more, Sent(challenges, inputs[n + 1..], secretKey));
        sent := sent + more;
      }
      Units(sent);
    }
  }
}
