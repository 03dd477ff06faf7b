/** The NATNEG rendezvous: clients of one session are stored, expired together, and paired when there are two. */
module NatnegServer {
  import opened Bytes
  import opened Clock
  import opened NatnegCodec

  const TIMEOUT: Time := 30 * SECOND

  datatype Endpoint = Endpoint(address: u32, port: u16)
  datatype Datagram = Datagram(to: Endpoint, payload: Text)
  datatype Stored = Stored(client: Client, initPacket: Text, endpoint: Endpoint, lastSeen: Time)
  type Session = map<byte, Stored>
  type State = map<u32, Session>

  /** A received packet, its sender, and the clock reading used if it is an init record. */
  datatype Input = Input(packet: Text, from: Endpoint, now: Time)

  // ---------- What one packet does ----------

  predicate Active(s: Session, now: Time) {
    exists k :: k in s && now - s[k].lastSeen < TIMEOUT
  }

  function Unexpired(st: State, now: Time): State {
    map k | k in st && Active(st[k], now) :: st[k]
  }

  function ToStore(i: Input, c: Client): Stored {
    Stored(c.(address := i.from.address, port := i.from.port), i.packet, i.from, i.now)
  }

  function AfterInit(st: State, i: Input, c: Client): State {
    var kept := Unexpired(st, i.now);
    var session := if c.sessionId in kept then kept[c.sessionId] else map[];
    kept[c.sessionId := session[c.index := ToStore(i, c)]]
  }

  /** The two clients of a session in the order of their indices. */
  predicate IsPair(s: Session, a: byte, b: byte) {
    a < b && s.Keys == {a, b}
  }

  function ConnectFor(receiver: Stored, peer: Stored): Datagram {
    Datagram(receiver.endpoint, Connect(receiver.initPacket, peer.client))
  }

  ghost function Connects(s: Session): seq<Datagram> {
    if exists a, b :: IsPair(s, a, b) then
      var a, b :| IsPair(s, a, b);
      [ConnectFor(s[a], s[b]), ConnectFor(s[b], s[a])]
    else []
  }

  function OtherReply(i: Input): seq<Datagram> {
    if |i.packet| >= 8 && i.packet[7] == 0x06 then [Datagram(i.from, ConnectAck(i.packet))]
    else if |i.packet| >= 8 && i.packet[7] == 0x0a then
      var reply := AddressReply(i.packet, i.from.address, i.from.port);
      if reply == [] then [] else [Datagram(i.from, reply)]
    else []
  }

  ghost function Step(st: State, i: Input): (State, seq<Datagram>) {
    match ParseInit(i.packet)
    case None => (st, OtherReply(i))
    case Some(c) =>
      var after := AfterInit(st, i, c);
      (after, [Datagram(i.from, InitAck(i.packet))] + Connects(after[c.sessionId]))
  }

  ghost function Run(st: State, inputs: seq<Input>): State
    decreases |inputs|
  {
    if inputs == [] then st else Run(Step(st, inputs[0]).0, inputs[1..])
  }

  ghost function Sent(st: State, inputs: seq<Input>): seq<Datagram>
    decreases |inputs|
  {
    if inputs == [] then [] else Step(st, inputs[0]).1 + Sent(Step(st, inputs[0]).0, inputs[1..])
  }

  predicate IsInitOf(i: Input, id: u32) {
    ParseInit(i.packet).Some? && ParseInit(i.packet).value.sessionId == id
  }

  // ---------- The state invariant ----------

  /** A stored client is what its stored init record says, under its own keys, with the endpoint that sent it. */
  predicate StoredAt(s: Stored, id: u32, index: byte) {
    match ParseInit(s.initPacket)
    case None => false
    case Some(c) =>
      c.sessionId == id && c.index == index
      && s.client == c.(address := s.endpoint.address, port := s.endpoint.port)
  }

  predicate SessionInv(s: Session, id: u32) {
    forall k :: k in s ==> StoredAt(s[k], id, k)
  }

  predicate Inv(st: State) {
    forall id :: id in st ==> SessionInv(st[id], id)
  }

  predicate NoneEmpty(st: State) {
    forall id :: id in st ==> st[id].Keys != {}
  }

  lemma OneMoreStored(s: Session, id: u32, k: byte, stored: Stored)
    requires SessionInv(s, id) && StoredAt(stored, id, k)
    ensures SessionInv(s[k := stored], id)
  {
  }

  lemma StepKeepsInv(st: State, i: Input)
    requires Inv(st)
    ensures Inv(Step(st, i).0)
  {
    if ParseInit(i.packet).Some? {
      var c := ParseInit(i.packet).value;
      var id := c.sessionId;
      var kept := Unexpired(st, i.now);
      OneMoreStored(if id in kept then kept[id] else map[], id, c.index, ToStore(i, c));
    }
  }

  lemma StepLeavesNoneEmpty(st: State, i: Input)
    requires NoneEmpty(st)
    ensures NoneEmpty(Step(st, i).0)
  {
    match ParseInit(i.packet)
    case None =>
    case Some(c) => assert c.index in Step(st, i).0[c.sessionId];
  }

  /** After an init record, every session has a client seen within the timeout. */
  lemma AllActiveAfterInit(st: State, i: Input)
    requires ParseInit(i.packet).Some?
    ensures forall id :: id in Step(st, i).0 ==> Active(Step(st, i).0[id], i.now)
  {
    var c := ParseInit(i.packet).value;
    var after := Step(st, i).0;
    assert after[c.sessionId][c.index] == ToStore(i, c);
    forall id | id in after ensures Active(after[id], i.now) {
      if id != c.sessionId {
        assert after[id] == st[id];
      }
    }
  }

  lemma {:induction false} RunKeepsInv(st: State, inputs: seq<Input>)
    requires Inv(st)
    ensures Inv(Run(st, inputs)) && (NoneEmpty(st) ==> NoneEmpty(Run(st, inputs)))
    decreases |inputs|
  {
    if inputs == [] {
    } else {
      StepKeepsInv(st, inputs[0]);
      if NoneEmpty(st) {
        StepLeavesNoneEmpty(st, inputs[0]);
      }
      RunKeepsInv(Step(st, inputs[0]).0, inputs[1..]);
    }
  }

  // ---------- Pairing ----------

  lemma PairIsUnique(s: Session, a: byte, b: byte)
    requires IsPair(s, a, b)
    ensures |s| == 2 && Connects(s) == [ConnectFor(s[a], s[b]), ConnectFor(s[b], s[a])]
  {
    assert |s.Keys| == |{a, b}| == 2;
    forall x: byte, y: byte | IsPair(s, x, y) ensures x == a && y == b {
      assert x in {a, b} && y in {a, b};
    }
  }

  lemma TwoIsPair(s: Session) returns (a: byte, b: byte)
    requires |s| == 2
    ensures IsPair(s, a, b)
  {
    assert |s.Keys| == 2;
    var x :| x in s.Keys;
    assert |s.Keys - {x}| == 1;
    var y :| y in s.Keys - {x};
    assert |s.Keys - {x} - {y}| == 0;
    assert s.Keys == {x, y};
    if x < y { a, b := x, y; } else { a, b := y, x; }
  }

  predicate IsConnect(d: Datagram) {
    DecodeConnect(d.payload).Some?
  }

  /** A 20-byte connect that tells a client its session and the endpoint of its peer. */
  predicate Introduces(d: Datagram, id: u32, receiver: Stored, peer: Stored) {
    && d.to == receiver.endpoint && |d.payload| == 20
    && DecodeConnect(d.payload) == Some(ConnectInfo(id, peer.endpoint.address, peer.endpoint.port))
  }

  /** The datagrams of a step that pairs: an acknowledgement, and two connects that introduce `a` and `b`. */
  predicate Pairs(sent: seq<Datagram>, id: u32, s: Session, a: byte, b: byte) {
    && IsPair(s, a, b) && |sent| == 3 && !IsConnect(sent[0])
    && Introduces(sent[1], id, s[a], s[b]) && Introduces(sent[2], id, s[b], s[a])
  }

  predicate NoConnects(sent: seq<Datagram>) {
    forall d :: d in sent ==> !IsConnect(d)
  }

  lemma ConnectIntroduces(receiver: Stored, peer: Stored, id: u32, a: byte, b: byte)
    requires StoredAt(receiver, id, a) && StoredAt(peer, id, b)
    ensures Introduces(ConnectFor(receiver, peer), id, receiver, peer)
  {
    ConnectDecodes(receiver.initPacket, peer.client);
  }

  lemma NoPair(s: Session)
    requires |s| != 2
    ensures Connects(s) == []
  {
    if a, b :| IsPair(s, a, b) {
      PairIsUnique(s, a, b);
    }
  }

  lemma ConnectsOfPair(s: Session, id: u32, ack: Datagram, a: byte, b: byte)
    requires !IsConnect(ack) && SessionInv(s, id) && IsPair(s, a, b)
    ensures Pairs([ack] + Connects(s), id, s, a, b)
  {
    PairIsUnique(s, a, b);
    ConnectIntroduces(s[a], s[b], id, a, b);
    ConnectIntroduces(s[b], s[a], id, b, a);
  }

  lemma ConnectsOfSession(s: Session, id: u32, ack: Datagram)
    requires !IsConnect(ack) && SessionInv(s, id)
    ensures if |s| == 2 then exists a, b :: Pairs([ack] + Connects(s), id, s, a, b) else NoConnects([ack] + Connects(s))
  {
    if |s| == 2 {
      var a, b := TwoIsPair(s);
      ConnectsOfPair(s, id, ack, a, b);
    } else {
      NoPair(s);
    }
  }

  /**
   * The datagrams sent on a packet that leads to `after`: connects for an init record whose session now has two
   * clients, and no connects otherwise.
   */
  ghost predicate ConnectsRightly(i: Input, after: State, sent: seq<Datagram>) {
    match ParseInit(i.packet)
    case None => NoConnects(sent)
    case Some(c) =>
      c.sessionId in after &&
      if |after[c.sessionId]| == 2 then exists a, b :: Pairs(sent, c.sessionId, after[c.sessionId], a, b)
      else NoConnects(sent)
  }

  /** A step sends connects exactly when it stores an init record and leaves that session with two clients. */
  lemma Pairing(st: State, i: Input)
    requires Inv(st)
    ensures ConnectsRightly(i, Step(st, i).0, Step(st, i).1)
  {
    OnlyConnectsDecode(i.packet, i.from.address, i.from.port);
    if ParseInit(i.packet).Some? {
      var id := ParseInit(i.packet).value.sessionId;
      StepKeepsInv(st, i);
      ConnectsOfSession(Step(st, i).0[id], id, Datagram(i.from, InitAck(i.packet)));
    }
  }

  /** The same in every run from the empty state. */
  lemma PairingInEveryRun(inputs: seq<Input>, i: Input)
    ensures var (after, sent) := Step(Run(map[], inputs), i); ConnectsRightly(i, after, sent)
  {
    RunKeepsInv(map[], inputs);
    Pairing(Run(map[], inputs), i);
  }

  // ---------- Replies to the sender ----------

  /** The first 14 bytes of an init record, marked as its acknowledgement, and seven fixed bytes. */
  predicate Acknowledges(d: Datagram, i: Input) {
    && |i.packet| >= 14 && d.to == i.from && |d.payload| == 21
    && d.payload[..7] == i.packet[..7] && d.payload[7] == 0x01 && d.payload[8..14] == i.packet[8..14]
    && d.payload[14..] == [0xff, 0xff, 0x6d, 0x16, 0xb5, 0x7d, 0xea]
  }

  /** The packet with its own endpoint written over bytes 15 to 20, marked as a reply. */
  predicate TellsEndpoint(d: Datagram, i: Input) {
    && d.to == i.from && |d.payload| == |i.packet| >= 21 && d.payload[7] == 0x0b
    && ReadU32Le(d.payload, 15) == i.from.address && ReadU16Be(d.payload, 19) == i.from.port
    && forall k :: 0 <= k < |i.packet| && k != 7 && !(15 <= k < 21) ==> d.payload[k] == i.packet[k]
  }

  /**
   * What the sender gets back: an acknowledgement for an init record, the packet itself for a connect
   * acknowledgement, its own endpoint for an address request, and nothing for any other packet.
   */
  lemma SenderIsAnswered(st: State, i: Input)
    ensures var (p, sent) := (i.packet, Step(st, i).1);
            var headed := |p| >= 14 && p[..6] == [0xfd, 0xfc, 0x1e, 0x66, 0x6a, 0xb2] && p[6] == 0x03;
            if ParseInit(p).Some? then sent != [] && Acknowledges(sent[0], i)
            else if |p| >= 8 && p[7] == 0x06 then sent == [Datagram(i.from, if headed then p else [])]
            else if |p| >= 21 && headed && p[7] == 0x0a then |sent| == 1 && TellsEndpoint(sent[0], i)
            else sent == []
  {
    var p := i.packet;
    if ParseInit(p).Some? {
      InitAckEchoes(p);
    } else if |p| >= 8 && p[7] == 0x06 {
      ConnectAckEchoes(p);
    } else if |p| >= 21 && HasHeader(p) && p[7] == 0x0a {
      AddressReplyReads(p, i.from.address, i.from.port);
    }
  }

  // ---------- Isolation and expiry ----------

  /** An init record expires a session when none of its clients was seen within the timeout. */
  predicate Expires(st: State, i: Input, id: u32) {
    ParseInit(i.packet).Some? && id in st && !Active(st[id], i.now)
  }

  /** Some client of the session was seen less than 30 seconds before `now`. */
  predicate SeenWithinHalfMinute(s: Session, now: Time) {
    exists k :: k in s && now - s[k].lastSeen < 30 * SECOND
  }

  /**
   * An init record takes away exactly the sessions of which no client was seen less than 30 seconds before, each as a
   * whole, and puts its sender into its own session; no other packet changes anything.
   */
  lemma ExpiryIsExact(st: State, i: Input, id: u32, k: byte)
    ensures var after := Step(st, i).0;
            match ParseInit(i.packet)
            case None => after == st
            case Some(c) =>
              && (id != c.sessionId ==>
                    (id in after <==> id in st && SeenWithinHalfMinute(st[id], i.now))
                    && (id in after ==> after[id] == st[id]))
              && (id == c.sessionId ==> id in after)
              && (id == c.sessionId && k != c.index ==>
                    (k in after[id] <==> id in st && k in st[id] && SeenWithinHalfMinute(st[id], i.now))
                    && (k in after[id] ==> after[id][k] == st[id][k]))
  {
    if id in st {
      assert Active(st[id], i.now) <==> SeenWithinHalfMinute(st[id], i.now);
    }
  }

  /** A packet that is not an init record of a session leaves it alone, or expires it as a whole. */
  lemma Isolation(st: State, i: Input, id: u32)
    requires !IsInitOf(i, id)
    ensures var after := Step(st, i).0;
            (id in after <==> id in st && !Expires(st, i, id)) && (id in after ==> after[id] == st[id])
  {
  }

  /** A session that does not expire keeps all its clients. */
  lemma ClientsStay(st: State, i: Input, id: u32)
    requires id in st && !Expires(st, i, id)
    ensures var after := Step(st, i).0; id in after && st[id].Keys <= after[id].Keys
  {
  }

  /** When a session grows from one client to two, the waiting client was seen within the timeout. */
  lemma GrowthNeedsRecentPeer(st: State, i: Input, id: u32, a: byte)
    requires id in st && st[id].Keys == {a} && id in Step(st, i).0 && |Step(st, i).0[id]| == 2
    ensures IsInitOf(i, id) && i.now - st[id][a].lastSeen < TIMEOUT
  {
    assert |st[id]| == |st[id].Keys| == 1;
  }

  ghost predicate NeverExpires(st: State, inputs: seq<Input>, id: u32)
    decreases |inputs|
  {
    inputs == [] || (!Expires(st, inputs[0], id) && NeverExpires(Step(st, inputs[0]).0, inputs[1..], id))
  }

  lemma SubsetSize<T>(a: set<T>, b: set<T>)
    requires a <= b
    ensures |a| <= |b|
  {
    assert b == a + (b - a);
  }

  lemma SizeKept(st: State, i: Input, id: u32)
    requires id in st && !Expires(st, i, id)
    ensures id in Step(st, i).0 && |st[id]| <= |Step(st, i).0[id]|
  {
    ClientsStay(st, i, id);
    SubsetSize(st[id].Keys, Step(st, i).0[id].Keys);
    assert |st[id]| == |st[id].Keys| && |Step(st, i).0[id]| == |Step(st, i).0[id].Keys|;
  }

  // ---------- What is stored ----------

  /** An init record of session `id` from the client with this index. */
  predicate IsInitFrom(i: Input, id: u32, index: byte) {
    IsInitOf(i, id) && ParseInit(i.packet).value.index == index
  }

  /** The stored client is the one that the packet announces, at the endpoint that the packet came from. */
  predicate IsRecordOf(s: Stored, i: Input) {
    && s.endpoint == i.from && s.initPacket == i.packet && s.lastSeen == i.now
    && s.client.address == i.from.address && s.client.port == i.from.port
    && match ParseInit(i.packet)
       case None => false
       case Some(c) =>
         s.client.sessionId == c.sessionId && s.client.index == c.index && s.client.gameName == c.gameName
  }

  predicate Holds(st: State, id: u32, k: byte) {
    id in st && k in st[id]
  }

  lemma StepOfStored(st: State, i: Input, id: u32, k: byte)
    ensures var after := Step(st, i).0;
            && (Holds(after, id, k) <==> IsInitFrom(i, id, k) || (Holds(st, id, k) && !Expires(st, i, id)))
            && (IsInitFrom(i, id, k) ==> IsRecordOf(after[id][k], i))
            && (Holds(after, id, k) && !IsInitFrom(i, id, k) ==> after[id][k] == st[id][k])
  {
  }

  lemma {:induction false} RunSnoc(st: State, a: seq<Input>, i: Input)
    ensures Run(st, a + [i]) == Step(Run(st, a), i).0
    decreases |a|
  {
    if a == [] {
      Units([i]);
      assert [i][1..] == [];
    } else {
      TailOfAppend(a, [i]);
      RunSnoc(Step(st, a[0]).0, a[1..], i);
    }
  }

  lemma {:induction false} NeverExpiresSnoc(st: State, a: seq<Input>, i: Input, id: u32)
    ensures NeverExpires(st, a + [i], id) <==> NeverExpires(st, a, id) && !Expires(Run(st, a), i, id)
    decreases |a|
  {
    if a == [] {
      Units([i]);
      assert [i][1..] == [];
    } else {
      TailOfAppend(a, [i]);
      NeverExpiresSnoc(Step(st, a[0]).0, a[1..], i, id);
    }
  }

  lemma {:induction false} RunAppend(st: State, a: seq<Input>, b: seq<Input>)
    ensures Run(st, a + b) == Run(Run(st, a), b)
    decreases |a|
  {
    if a == [] {
      Units(b);
    } else {
      TailOfAppend(a, b);
      RunAppend(Step(st, a[0]).0, a[1..], b);
    }
  }

  /** What a run sends is what its steps send, in order, each from the state that the earlier ones leave. */
  lemma {:induction false} SentInOrder(st: State, a: seq<Input>, i: Input, b: seq<Input>)
    ensures Sent(st, a + [i] + b) ==
            Sent(st, a) + (Step(Run(st, a), i).1 + Sent(Step(Run(st, a), i).0, b))
    decreases |a|
  {
    if a == [] {
      Units([i]);
      TailOfCons(i, b);
      Units(Step(st, i).1 + Sent(Step(st, i).0, b));
    } else {
      var first := Step(st, a[0]);
      SentInOrder(first.0, a[1..], i, b);
      TailOfAppend(a, [i]);
      TailOfAppend(a + [i], b);
      Assoc(first.1, Sent(first.0, a[1..]), Step(Run(st, a), i).1 + Sent(Step(Run(st, a), i).0, b));
    }
  }

  predicate NoInitFrom(inputs: seq<Input>, id: u32, k: byte) {
    forall i :: i in inputs ==> !IsInitFrom(i, id, k)
  }

  /** Packet `n` is the latest init record of the client, and the session has not expired since. */
  ghost predicate LatestSince(inputs: seq<Input>, n: nat, id: u32, k: byte)
    requires n < |inputs|
  {
    && IsInitFrom(inputs[n], id, k) && NoInitFrom(inputs[n + 1..], id, k)
    && NeverExpires(Run(map[], inputs[..n + 1]), inputs[n + 1..], id)
  }

  lemma NoInitSnoc(inputs: seq<Input>, last: Input, id: u32, k: byte)
    ensures NoInitFrom(inputs + [last], id, k) <==> NoInitFrom(inputs, id, k) && !IsInitFrom(last, id, k)
  {
    assert forall i :: i in inputs ==> i in inputs + [last];
    assert last in inputs + [last];
  }

  lemma LatestBeforeLast(before: seq<Input>, last: Input, n: nat, id: u32, k: byte)
    requires n < |before|
    ensures LatestSince(before + [last], n, id, k) <==>
            LatestSince(before, n, id, k) && !IsInitFrom(last, id, k) && !Expires(Run(map[], before), last, id)
  {
    var inputs := before + [last];
    assert inputs[..n + 1] == before[..n + 1] && inputs[n] == before[n];
    assert inputs[n + 1..] == before[n + 1..] + [last];
    NoInitSnoc(before[n + 1..], last, id, k);
    NeverExpiresSnoc(Run(map[], before[..n + 1]), before[n + 1..], last, id);
    RunAppend(map[], before[..n + 1], before[n + 1..]);
    SplitAt(before, n + 1);
  }

  lemma LatestIsLast(before: seq<Input>, last: Input, id: u32, k: byte)
    ensures LatestSince(before + [last], |before|, id, k) <==> IsInitFrom(last, id, k)
  {
    InitOfSnoc(before, last);
    assert (before + [last])[|before| + 1..] == [];
  }

  /**
   * In every run a client is stored exactly if some packet was its latest init record and its session has not
   * expired since; and what is stored is that record, with the endpoint that sent it.
   */
  lemma {:induction false} StoredIsHistory(inputs: seq<Input>, id: u32, k: byte)
    ensures var st := Run(map[], inputs);
            && (Holds(st, id, k) <==> exists n: nat :: n < |inputs| && LatestSince(inputs, n, id, k))
            && (forall n: nat :: n < |inputs| && LatestSince(inputs, n, id, k) ==>
                  Holds(st, id, k) && IsRecordOf(st[id][k], inputs[n]))
    decreases |inputs|
  {
    if inputs == [] {
    } else {
      var m := |inputs| - 1;
      var before, last := inputs[..m], inputs[m];
      assert inputs == before + [last];
      StoredIsHistory(before, id, k);
      RunSnoc(map[], before, last);
      StepOfStored(Run(map[], before), last, id, k);
      LatestIsLast(before, last, id, k);
      forall n: nat | n < m
        ensures LatestSince(inputs, n, id, k) <==>
                LatestSince(before, n, id, k) && !IsInitFrom(last, id, k) && !Expires(Run(map[], before), last, id)
      {
        LatestBeforeLast(before, last, n, id, k);
      }
    }
  }

  /** A connect that the sender of packet `n` gets, and that names the sender of packet `m`. */
  predicate JoinsSenders(d: Datagram, inputs: seq<Input>, n: nat, m: nat, id: u32)
    requires n < |inputs| && m < |inputs|
  {
    && d.to == inputs[n].from
    && DecodeConnect(d.payload) == Some(ConnectInfo(id, inputs[m].from.address, inputs[m].from.port))
  }

  lemma StoredSender(inputs: seq<Input>, id: u32, k: byte) returns (n: nat)
    requires Holds(Run(map[], inputs), id, k)
    ensures n < |inputs| && LatestSince(inputs, n, id, k) && IsRecordOf(Run(map[], inputs)[id][k], inputs[n])
  {
    StoredIsHistory(inputs, id, k);
    n :| n < |inputs| && LatestSince(inputs, n, id, k);
  }

  lemma ConnectOfPairs(sent: seq<Datagram>, id: u32, s: Session, x: byte, y: byte, d: Datagram)
    returns (a: byte, b: byte)
    requires Pairs(sent, id, s, x, y) && d in sent && IsConnect(d)
    ensures a != b && a in s && b in s && Introduces(d, id, s[a], s[b])
  {
    assert x in s.Keys && y in s.Keys;
    assert sent == [sent[0], sent[1], sent[2]];
    if d == sent[1] { a, b := x, y; } else { a, b := y, x; }
  }

  /** The connect joins the senders of the latest init records of two clients of one session. */
  ghost predicate JoinsTwoSenders(d: Datagram, inputs: seq<Input>) {
    exists id: u32, a: byte, b: byte, n: nat, m: nat ::
      && a != b && n < |inputs| && m < |inputs|
      && LatestSince(inputs, n, id, a) && LatestSince(inputs, m, id, b) && JoinsSenders(d, inputs, n, m, id)
  }

  lemma StoredPairJoinsSenders(inputs: seq<Input>, id: u32, a: byte, b: byte, d: Datagram)
    requires a != b && Holds(Run(map[], inputs), id, a) && Holds(Run(map[], inputs), id, b)
    requires Introduces(d, id, Run(map[], inputs)[id][a], Run(map[], inputs)[id][b])
    ensures JoinsTwoSenders(d, inputs)
  {
    var n := StoredSender(inputs, id, a);
    var m := StoredSender(inputs, id, b);
    assert LatestSince(inputs, n, id, a) && LatestSince(inputs, m, id, b) && JoinsSenders(d, inputs, n, m, id);
  }

  /**
   * In every run each connect goes to the address that a client's latest init record came from, and names the
   * address that its peer's latest init record came from; the two are different clients of one session.
   */
  lemma ConnectsJoinSenders(before: seq<Input>, i: Input, d: Datagram)
    requires d in Step(Run(map[], before), i).1 && IsConnect(d)
    ensures JoinsTwoSenders(d, before + [i])
  {
    var (after, sent) := Step(Run(map[], before), i);
    PairingInEveryRun(before, i);
    RunSnoc(map[], before, i);
    var id := ParseInit(i.packet).value.sessionId;
    var x, y :| Pairs(sent, id, after[id], x, y);
    var a, b := ConnectOfPairs(sent, id, after[id], x, y, d);
    StoredPairJoinsSenders(before + [i], id, a, b, d);
  }

  predicate AllOfOtherSessions(sent: seq<Datagram>, id: u32) {
    forall d :: d in sent && IsConnect(d) ==> DecodeConnect(d.payload).value.sessionId != id
  }

  lemma PairsNameTheirSession(sent: seq<Datagram>, id: u32, s: Session, a: byte, b: byte, other: u32)
    requires Pairs(sent, id, s, a, b) && other != id
    ensures AllOfOtherSessions(sent, other)
  {
    assert sent == [sent[0], sent[1], sent[2]];
  }

  lemma ConnectsOfOtherSessions(st: State, i: Input, id: u32)
    requires Inv(st) && id in st && |st[id]| >= 3 && !Expires(st, i, id)
    ensures AllOfOtherSessions(Step(st, i).1, id)
  {
    var (after, sent) := Step(st, i);
    Pairing(st, i);
    SizeKept(st, i, id);
    if !NoConnects(sent) {
      var other := ParseInit(i.packet).value.sessionId;
      var a, b :| Pairs(sent, other, after[other], a, b);
      PairsNameTheirSession(sent, other, after[other], a, b, id);
    }
  }

  /** Once a session has three clients, nobody is connected in it again until the session expires. */
  lemma {:induction false} ThirdClientSilencesSession(st: State, inputs: seq<Input>, id: u32)
    requires Inv(st) && id in st && |st[id]| >= 3 && NeverExpires(st, inputs, id)
    ensures AllOfOtherSessions(Sent(st, inputs), id)
    decreases |inputs|
  {
    if inputs == [] {
    } else {
      var after := Step(st, inputs[0]).0;
      ConnectsOfOtherSessions(st, inputs[0], id);
      StepKeepsInv(st, inputs[0]);
      SizeKept(st, inputs[0], id);
      ThirdClientSilencesSession(after, inputs[1..], id);
    }
  }

  // ---------- Liveness ----------

  /** A session that `opener` starts: there was none, or it expired. */
  predicate Opens(st: State, opener: Input, id: u32) {
    IsInitOf(opener, id) && (id in st ==> !Active(st[id], opener.now))
  }

  function StoredBy(i: Input): Stored
    requires ParseInit(i.packet).Some?
  {
    ToStore(i, ParseInit(i.packet).value)
  }

  /** The session whose only client is the sender of the init record `i`. */
  function OnlyClient(i: Input): Session
    requires ParseInit(i.packet).Some?
  {
    map[ParseInit(i.packet).value.index := StoredBy(i)]
  }

  /** The latest init record of session `id` among `opener` and the packets after it. */
  function LatestInit(opener: Input, inputs: seq<Input>, id: u32): (r: Input)
    requires IsInitOf(opener, id)
    ensures IsInitOf(r, id)
    decreases |inputs|
  {
    if inputs == [] then opener
    else LatestInit(if IsInitOf(inputs[0], id) then inputs[0] else opener, inputs[1..], id)
  }

  /** Session `id` holds the sender of `latest` alone if it is there, and it is there until `latest` is too old. */
  predicate Waits(st: State, latest: Input, id: u32, deadline: Time)
    requires ParseInit(latest.packet).Some?
  {
    && (id in st ==> st[id] == OnlyClient(latest))
    && (deadline - latest.now < TIMEOUT ==> id in st)
  }

  lemma OnlyClientActive(i: Input, now: Time)
    requires ParseInit(i.packet).Some?
    ensures Active(OnlyClient(i), now) <==> now - i.now < TIMEOUT
  {
    assert OnlyClient(i)[ParseInit(i.packet).value.index].lastSeen == i.now;
  }

  lemma StepWaits(st: State, latest: Input, i: Input, id: u32, index: byte, deadline: Time)
    requires IsInitFrom(latest, id, index) && Waits(st, latest, id, deadline) && i.now <= deadline
    requires IsInitOf(i, id) ==> IsInitFrom(i, id, index)
    ensures Waits(Step(st, i).0, if IsInitOf(i, id) then i else latest, id, deadline)
  {
    if !IsInitOf(i, id) {
      Isolation(st, i, id);
      OnlyClientActive(latest, i.now);
    }
  }

  lemma {:induction false} WaitsThroughout(st: State, latest: Input, inputs: seq<Input>, id: u32, index: byte,
                                           deadline: Time)
    requires IsInitFrom(latest, id, index) && Waits(st, latest, id, deadline)
    requires forall i :: i in inputs ==> i.now <= deadline && (IsInitOf(i, id) ==> IsInitFrom(i, id, index))
    ensures Waits(Run(st, inputs), LatestInit(latest, inputs, id), id, deadline)
    ensures IsInitFrom(LatestInit(latest, inputs, id), id, index)
    decreases |inputs|
  {
    if inputs == [] {
    } else {
      var i := inputs[0];
      assert i in inputs;
      StepWaits(st, latest, i, id, index, deadline);
      WaitsThroughout(Step(st, i).0, if IsInitOf(i, id) then i else latest, inputs[1..], id, index, deadline);
    }
  }

  lemma OpenerWaits(st: State, opener: Input, id: u32, deadline: Time)
    requires Opens(st, opener, id)
    ensures Waits(Step(st, opener).0, opener, id, deadline)
  {
  }

  /** Some datagram sent to `to` is a connect that names the session and the endpoint of the peer. */
  predicate SendsConnect(sent: seq<Datagram>, to: Endpoint, id: u32, peer: Endpoint) {
    exists d :: d in sent && d.to == to && DecodeConnect(d.payload) == Some(ConnectInfo(id, peer.address, peer.port))
  }

  /**
   * If a client opens a session and another index joins it less than 30 seconds after the opener's latest init
   * record, both clients are connected, whatever packets come between: of other sessions, of other kinds, or
   * init records that the opener sends again.
   */
  lemma PeersMeet(st: State, opener: Input, between: seq<Input>, joiner: Input, id: u32, index: byte)
    requires Inv(st) && Opens(st, opener, id) && IsInitFrom(opener, id, index)
    requires IsInitOf(joiner, id) && !IsInitFrom(joiner, id, index)
    requires joiner.now - LatestInit(opener, between, id).now < TIMEOUT
    requires forall i :: i in between ==> i.now <= joiner.now && (IsInitOf(i, id) ==> IsInitFrom(i, id, index))
    ensures var waiting := Run(Step(st, opener).0, between);
            var latest := LatestInit(opener, between, id);
            var a, b := StoredBy(latest), StoredBy(joiner);
            var (after, sent) := Step(waiting, joiner);
            && id in after && after[id] == map[index := a, ParseInit(joiner.packet).value.index := b]
            && |sent| == 3
            && (exists d :: d in sent && Introduces(d, id, a, b))
            && (exists d :: d in sent && Introduces(d, id, b, a))
            && SendsConnect(sent, latest.from, id, joiner.from)
            && SendsConnect(sent, joiner.from, id, latest.from)
  {
    var started := Step(st, opener).0;
    var waiting := Run(started, between);
    OpenerWaits(st, opener, id, joiner.now);
    WaitsThroughout(started, opener, between, id, index, joiner.now);
    StepKeepsInv(st, opener);
    RunKeepsInv(started, between);
    MeetsOnlyClient(waiting, LatestInit(opener, between, id), joiner, id, index);
    var a, b := StoredBy(LatestInit(opener, between, id)), StoredBy(joiner);
    var sent := Step(waiting, joiner).1;
    IntroducedAt(sent, id, a, b);
    IntroducedAt(sent, id, b, a);
  }

  lemma IntroducedAt(sent: seq<Datagram>, id: u32, receiver: Stored, peer: Stored)
    requires exists d :: d in sent && Introduces(d, id, receiver, peer)
    ensures SendsConnect(sent, receiver.endpoint, id, peer.endpoint)
  {
  }

  lemma MeetsOnlyClient(st: State, latest: Input, joiner: Input, id: u32, index: byte)
    requires Inv(st) && IsInitFrom(latest, id, index) && id in st && st[id] == OnlyClient(latest)
    requires IsInitOf(joiner, id) && !IsInitFrom(joiner, id, index) && joiner.now - latest.now < TIMEOUT
    ensures var a, b := StoredBy(latest), StoredBy(joiner);
            var (after, sent) := Step(st, joiner);
            && id in after && after[id] == map[index := a, ParseInit(joiner.packet).value.index := b]
            && |sent| == 3
            && (exists d :: d in sent && Introduces(d, id, a, b))
            && (exists d :: d in sent && Introduces(d, id, b, a))
  {
    JoinsWaitingPeer(st, joiner, id, index);
    MeetsWaitingPeer(st, joiner, id, index, Step(st, joiner).0[id], Step(st, joiner).1);
  }

  lemma JoinsWaitingPeer(st: State, joiner: Input, id: u32, a: byte)
    requires IsInitOf(joiner, id) && id in st && st[id].Keys == {a}
    requires ParseInit(joiner.packet).value.index != a && joiner.now - st[id][a].lastSeen < TIMEOUT
    ensures var b := ParseInit(joiner.packet).value; var after := Step(st, joiner).0;
            id in after && after[id] == map[a := st[id][a], b.index := ToStore(joiner, b)] && |after[id]| == 2
  {
    assert Active(st[id], joiner.now);
    var b := ParseInit(joiner.packet).value;
    var session := Step(st, joiner).0[id];
    assert session == st[id][b.index := ToStore(joiner, b)];
    assert session.Keys == {a, b.index} && |session| == |session.Keys|;
  }

  lemma MeetsWaitingPeer(st: State, joiner: Input, id: u32, a: byte, after: Session, sent: seq<Datagram>)
    requires Inv(st) && IsInitOf(joiner, id) && ParseInit(joiner.packet).value.index != a
    requires id in Step(st, joiner).0 && Step(st, joiner).0[id] == after && Step(st, joiner).1 == sent
    requires after.Keys == {a, ParseInit(joiner.packet).value.index} && |after| == 2
    ensures var b := ParseInit(joiner.packet).value.index;
            && |sent| == 3
            && (exists d :: d in sent && Introduces(d, id, after[a], after[b]))
            && (exists d :: d in sent && Introduces(d, id, after[b], after[a]))
  {
    Pairing(st, joiner);
    var x, y :| Pairs(sent, id, after, x, y);
    PairsOfTwo(sent, id, after, x, y, a, ParseInit(joiner.packet).value.index);
  }

  lemma PairsOfTwo(sent: seq<Datagram>, id: u32, s: Session, x: byte, y: byte, a: byte, b: byte)
    requires Pairs(sent, id, s, x, y) && a != b && s.Keys == {a, b}
    ensures exists d :: d in sent && Introduces(d, id, s[a], s[b])
    ensures exists d :: d in sent && Introduces(d, id, s[b], s[a])
  {
    assert x in {a, b} && y in {a, b};
    assert sent[1] in sent && sent[2] in sent;
  }

  // ---------- The handler ----------

  class Server {
    var sessions: State

    constructor ()
      ensures sessions == map[]
    {
      sessions := map[];
    }

    method IsActive(session: Session, now: Time) returns (active: bool)
      ensures active == Active(session, now)
    {
      active := false;
      var unvisited := session.Keys;
      while unvisited != {}
        invariant unvisited <= session.Keys
        invariant forall k :: k in session && k !in unvisited ==> now - session[k].lastSeen >= TIMEOUT
        decreases unvisited
      {
        var index :| index in unvisited;
        if now - session[index].lastSeen < TIMEOUT {
          return true;
        }
        unvisited := unvisited - {index};
      }
    }

    /** Erases expired sessions while walking the map of sessions. */
    method PruneSessions(now: Time)
      modifies this
      ensures sessions == Unexpired(old(sessions), now)
    {
      var unvisited := sessions.Keys;
      while unvisited != {}
        invariant unvisited <= sessions.Keys
        invariant forall id :: id in sessions ==> id in old(sessions) && sessions[id] == old(sessions)[id]
        invariant forall id :: id in old(sessions) ==>
                    (id in sessions <==> id in unvisited || Active(old(sessions)[id], now))
        decreases unvisited
      {
        var id :| id in unvisited;
        var active := IsActive(sessions[id], now);
        if !active {
          sessions := sessions - {id};
        }
        unvisited := unvisited - {id};
      }
    }

    method ConnectPair(session: Session) returns (sent: seq<Datagram>)
      requires |session| == 2
      ensures sent == Connects(session)
    {
      assert session.Keys != {};
      var first :| first in session.Keys;
      assert |session.Keys - {first}| == 1;
      var second :| second in session.Keys - {first};
      assert |session.Keys - {first} - {second}| == 0;
      assert session.Keys == {first, second};
      if second < first {
        first, second := second, first;
      }
      PairIsUnique(session, first, second);
      var firstConnect := NatnegConnect(session[first].initPacket, session[second].client);
      var secondConnect := NatnegConnect(session[second].initPacket, session[first].client);
      sent := [Datagram(session[first].endpoint, firstConnect), Datagram(session[second].endpoint, secondConnect)];
    }

    method StoreClient(i: Input, c: Client)
      modifies this
      ensures sessions == AfterInit(old(sessions), i, c)
    {
      var client := c.(address := i.from.address, port := i.from.port);
      PruneSessions(i.now);
      if client.sessionId !in sessions {
        sessions := sessions[client.sessionId := map[]];
      }
      var session: Session := sessions[client.sessionId][client.index := Stored(client, i.packet, i.from, i.now)];
      sessions := sessions[client.sessionId := session];
      assert sessions == AfterInit(old(sessions), i, c);
    }

    method HandlePacket(i: Input) returns (sent: seq<Datagram>)
      modifies this
      ensures (sessions, sent) == Step(old(sessions), i)
    {
      var client := ParseInit(i.packet);
      if client.None? {
        sent := [];
        if |i.packet| >= 8 && i.packet[7] == 0x06 {
          sent := [Datagram(i.from, ConnectAck(i.packet))];
        } else if |i.packet| >= 8 && i.packet[7] == 0x0a {
          var response := NatnegAddressReply(i.packet, i.from.address, i.from.port);
          if response != [] {
            sent := [Datagram(i.from, response)];
          }
        }
        return;
      }
      sent := [Datagram(i.from, InitAck(i.packet))];
      StoreClient(i, client.value);
      var session := sessions[client.value.sessionId];
      if |session| == 2 {
        var connects := ConnectPair(session);
        sent := sent + connects;
      } else {
        NoPair(session);
        assert sent == sent + Connects(session);
      }
    }

    /** Handling packets one after the other is the run that the lemmas speak about. */
    method Serve(inputs: seq<Input>) returns (sent: seq<Datagram>)
      modifies this
      ensures sessions == Run(old(sessions), inputs) && sent == Sent(old(sessions), inputs)
    {
      sent := [];
      Units(Sent(sessions, inputs));
      for n := 0 to |inputs|
        invariant Run(sessions, inputs[n..]) == Run(old(sessions), inputs)
        invariant sent + Sent(sessions, inputs[n..]) == Sent(old(sessions), inputs)
      {
        TailOfSuffix(inputs, n);
        var more := HandlePacket(inputs[n]);
        Assoc(sent, more, Sent(sessions, inputs[n + 1..]));
        sent := sent + more;
      }
      Units(sent);
    }
  }
}
