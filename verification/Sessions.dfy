/** The registry of online sessions: two maps that together stand for one. */
module Sessions {
  import opened Bytes
  import opened Clock

  const MAX_AGE: Time := 61 * SECOND

  datatype Session = Session(
    sessionId: u32, profileId: Text, uniqueNick: Text, gameName: Text, address: Address, port: u16)

  // ---------- The one map that the registry stands for ----------

  datatype Entry = Entry(session: Session, lastSeen: Time)
  type Entries = map<u32, Entry>

  function Upsert(e: Entries, s: Session, now: Time): Entries {
    e[s.sessionId := Entry(s, now)]
  }

  function Touch(e: Entries, id: u32, now: Time): Entries {
    if id in e then e[id := Entry(e[id].session, now)] else e
  }

  function Remove(e: Entries, id: u32): Entries {
    map k | k in e && k != id :: e[k]
  }

  function Prune(e: Entries, cutoff: Time): Entries {
    map k | k in e && e[k].lastSeen > cutoff :: e[k]
  }

  // ---------- Looking up sessions by profile ----------

  function SessionsOf(e: Entries, profileId: Text, ids: set<u32>): set<Session> {
    set k | k in ids && k in e && e[k].session.profileId == profileId :: e[k].session
  }

  /** For each profile in order, its online sessions, each once and in any order. */
  predicate IsAnswer(e: Entries, profileIds: seq<Text>, answer: seq<Session>) {
    if profileIds == [] then answer == []
    else
      var group := SessionsOf(e, profileIds[0], e.Keys);
      && |group| <= |answer|
      && multiset(answer[..|group|]) == multiset(group)
      && IsAnswer(e, profileIds[1..], answer[|group|..])
  }

  predicate IsOnline(e: Entries, s: Session) {
    exists k :: k in e && e[k].session == s
  }

  lemma MultiplicityAt<T>(s: seq<T>, n: nat, x: T)
    requires n <= |s|
    ensures multiset(s)[x] == multiset(s[..n])[x] + multiset(s[n..])[x]
  {
    SplitAt(s, n);
  }

  lemma GroupMembers(e: Entries, profileId: Text, s: Session)
    ensures s in SessionsOf(e, profileId, e.Keys) <==> IsOnline(e, s) && s.profileId == profileId
  {
  }

  /** Every online session is listed as often as its profile is asked for, and nothing else is listed. */
  lemma {:induction false} AnswerMultiplicity(e: Entries, profileIds: seq<Text>, answer: seq<Session>, s: Session)
    requires IsAnswer(e, profileIds, answer)
    ensures multiset(answer)[s] == if IsOnline(e, s) then multiset(profileIds)[s.profileId] else 0
    decreases |profileIds|
  {
    if profileIds == [] {
    } else {
      var group := SessionsOf(e, profileIds[0], e.Keys);
      AnswerMultiplicity(e, profileIds[1..], answer[|group|..], s);
      MultiplicityAt(answer, |group|, s);
      MultiplicityAt(profileIds, 1, s.profileId);
      assert profileIds[..1] == [profileIds[0]];
      GroupMembers(e, profileIds[0], s);
    }
  }

  lemma RepeatedIsTwice<T>(s: seq<T>, i: nat, j: nat)
    requires i < j < |s| && s[i] == s[j]
    ensures multiset(s)[s[i]] >= 2
  {
    MultiplicityAt(s, j, s[i]);
    assert s[i] == s[..j][i] && s[j] == s[j..][0];
  }

  /** The positions of the profile ids that the sessions of an answer are listed for. */
  predicate IsOrder(profileIds: seq<Text>, answer: seq<Session>, at: seq<nat>) {
    && |at| == |answer|
    && (forall i :: 0 <= i < |at| ==> at[i] < |profileIds| && profileIds[at[i]] == answer[i].profileId)
    && (forall i, j :: 0 <= i < j < |at| ==> at[i] < at[j] || (at[i] == at[j] && answer[i] != answer[j]))
  }

  /** Different sessions of one profile. */
  predicate IsGroup(group: seq<Session>, profileId: Text) {
    && (forall i :: 0 <= i < |group| ==> group[i].profileId == profileId)
    && (forall i, j :: 0 <= i < j < |group| ==> group[i] != group[j])
  }

  lemma SessionsAreGroup(e: Entries, profileId: Text, group: seq<Session>)
    requires multiset(group) == multiset(SessionsOf(e, profileId, e.Keys))
    ensures IsGroup(group, profileId)
  {
    forall i | 0 <= i < |group| ensures group[i].profileId == profileId {
      assert group[i] in multiset(group);
    }
    forall i, j | 0 <= i < j < |group| ensures group[i] != group[j] {
      if group[i] == group[j] {
        RepeatedIsTwice(group, i, j);
      }
    }
  }

  /** The order of an answer whose first `n` sessions are those of the first profile id. */
  function OrderWithGroup(n: nat, rest: seq<nat>): (at: seq<nat>)
    ensures |at| == n + |rest|
    ensures forall i :: 0 <= i < |at| ==> at[i] == if i < n then 0 else rest[i - n] + 1
  {
    seq(n, _ => 0) + seq(|rest|, i requires 0 <= i < |rest| => rest[i] + 1)
  }

  lemma OrderOfGroup(profileIds: seq<Text>, group: seq<Session>, others: seq<Session>, rest: seq<nat>, at: seq<nat>)
    requires profileIds != [] && IsGroup(group, profileIds[0]) && IsOrder(profileIds[1..], others, rest)
    requires |at| == |group| + |rest|
    requires forall i :: 0 <= i < |at| ==> at[i] == if i < |group| then 0 else rest[i - |group|] + 1
    ensures IsOrder(profileIds, group + others, at)
  {
    var n, answer := |group|, group + others;
    forall i | 0 <= i < |at| ensures at[i] < |profileIds| && profileIds[at[i]] == answer[i].profileId {
      if i >= n {
        assert answer[i] == others[i - n] && profileIds[at[i]] == profileIds[1..][rest[i - n]];
      }
    }
    forall i, j | 0 <= i < j < |at| ensures at[i] < at[j] || (at[i] == at[j] && answer[i] != answer[j]) {
      if i >= n {
        assert answer[i] == others[i - n] && answer[j] == others[j - n];
        assert rest[i - n] < rest[j - n] || (rest[i - n] == rest[j - n] && others[i - n] != others[j - n]);
      }
    }
  }

  lemma FirstGroup(e: Entries, profileIds: seq<Text>, answer: seq<Session>) returns (n: nat)
    requires profileIds != [] && IsAnswer(e, profileIds, answer)
    ensures n <= |answer| && IsGroup(answer[..n], profileIds[0]) && IsAnswer(e, profileIds[1..], answer[n..])
  {
    n := |SessionsOf(e, profileIds[0], e.Keys)|;
    SessionsAreGroup(e, profileIds[0], answer[..n]);
  }

  lemma OrderOfMore(profileIds: seq<Text>, answer: seq<Session>, n: nat, rest: seq<nat>) returns (at: seq<nat>)
    requires profileIds != [] && n <= |answer| && IsGroup(answer[..n], profileIds[0])
    requires IsOrder(profileIds[1..], answer[n..], rest)
    ensures IsOrder(profileIds, answer, at)
  {
    at := OrderWithGroup(n, rest);
    OrderOfGroup(profileIds, answer[..n], answer[n..], rest, at);
    SplitAt(answer, n);
  }

  /** Answers keep the order of the profile ids, and repeat no session for one of them. */
  lemma {:induction false} AnswerInOrder(e: Entries, profileIds: seq<Text>, answer: seq<Session>)
    returns (at: seq<nat>)
    requires IsAnswer(e, profileIds, answer)
    ensures IsOrder(profileIds, answer, at)
    decreases |profileIds|
  {
    if profileIds == [] {
      at := [];
    } else {
      var n := FirstGroup(e, profileIds, answer);
      var rest := AnswerInOrder(e, profileIds[1..], answer[n..]);
      at := OrderOfMore(profileIds, answer, n, rest);
    }
  }

  lemma OneMoreVisited(e: Entries, profileId: Text, visited: set<u32>, id: u32)
    requires id in e && id !in visited && forall k :: k in e ==> e[k].session.sessionId == k
    ensures var before, after := SessionsOf(e, profileId, visited), SessionsOf(e, profileId, visited + {id});
            multiset(after) == multiset(before) +
              if e[id].session.profileId == profileId then multiset{e[id].session} else multiset{}
  {
    var before, after := SessionsOf(e, profileId, visited), SessionsOf(e, profileId, visited + {id});
    if e[id].session.profileId == profileId {
      assert after == before + {e[id].session} && e[id].session !in before;
    } else {
      assert after == before;
    }
  }

  lemma SplitConcat<T>(a: seq<T>, b: seq<T>, n: nat)
    requires n <= |a|
    ensures (a + b)[..n] == a[..n] && (a + b)[n..] == a[n..] + b
  {
  }

  lemma AnswerToOne(e: Entries, id: Text, group: seq<Session>)
    requires multiset(group) == multiset(SessionsOf(e, id, e.Keys))
    ensures IsAnswer(e, [id], group)
  {
    var expected := SessionsOf(e, id, e.Keys);
    assert |group| == |multiset(group)| == |multiset(expected)| == |expected|;
    TakeAll(group);
    assert [id][1..] == [] && group[|expected|..] == [];
  }

  lemma {:induction false} AnswerAppend(e: Entries, profileIds: seq<Text>, answer: seq<Session>,
                                        id: Text, group: seq<Session>)
    requires IsAnswer(e, profileIds, answer) && IsAnswer(e, [id], group)
    ensures IsAnswer(e, profileIds + [id], answer + group)
    decreases |profileIds|
  {
    if profileIds == [] {
      Units([id]);
      Units(group);
    } else {
      var n := |SessionsOf(e, profileIds[0], e.Keys)|;
      AnswerAppend(e, profileIds[1..], answer[n..], id, group);
      TailOfAppend(profileIds, [id]);
      SplitConcat(answer, group, n);
    }
  }

  // ---------- Interleavings ----------

  /** One mutex-guarded step, with the clock reading it uses. */
  datatype Op =
    | OpUpsert(session: Session, now: Time)
    | OpTouch(id: u32, now: Time)
    | OpRemove(id: u32)
    | OpPrune(now: Time, maxAge: Time)

  function Apply(e: Entries, op: Op): Entries {
    match op
    case OpUpsert(s, now) => Upsert(e, s, now)
    case OpTouch(id, now) => Touch(e, id, now)
    case OpRemove(id) => Remove(e, id)
    case OpPrune(now, maxAge) => Prune(e, now - maxAge)
  }

  function Run(e: Entries, ops: seq<Op>): Entries
    decreases |ops|
  {
    if ops == [] then e else Run(Apply(e, ops[0]), ops[1..])
  }

  lemma {:induction false} RunSnoc(e: Entries, ops: seq<Op>, op: Op)
    ensures Run(e, ops + [op]) == Apply(Run(e, ops), op)
    decreases |ops|
  {
    if ops == [] {
      Units([op]);
      assert [op][1..] == [];
    } else {
      TailOfAppend(ops, [op]);
      RunSnoc(Apply(e, ops[0]), ops[1..], op);
    }
  }

  /** What one step does to the entry of session `id`, which it may have or not. */
  function EntryAfter(entry: Option<Entry>, op: Op, id: u32): Option<Entry> {
    match op
    case OpUpsert(s, now) => if s.sessionId == id then Some(Entry(s, now)) else entry
    case OpTouch(other, now) => if other == id && entry.Some? then Some(Entry(entry.value.session, now)) else entry
    case OpRemove(other) => if other == id then None else entry
    case OpPrune(now, maxAge) => if entry.Some? && entry.value.lastSeen + maxAge > now then entry else None
  }

  /** The entry that session `id` has after the steps of a run from the empty registry. */
  function EntryOf(ops: seq<Op>, id: u32): Option<Entry> {
    if ops == [] then None else EntryAfter(EntryOf(ops[..|ops| - 1], id), ops[|ops| - 1], id)
  }

  /** In every run each session has exactly the entry that its own history gives it, whatever happens to others. */
  lemma {:induction false} EntryIsHistory(ops: seq<Op>, id: u32)
    ensures EntryOf(ops, id) == var e := Run(map[], ops); if id in e then Some(e[id]) else None
    decreases |ops|
  {
    if ops == [] {
    } else {
      var n := |ops| - 1;
      EntryIsHistory(ops[..n], id);
      RunSnoc(map[], ops[..n], ops[n]);
      assert ops == ops[..n] + [ops[n]];
    }
  }

  predicate AllNewer(e: Entries, cutoff: Time) {
    forall k :: k in e ==> e[k].lastSeen > cutoff
  }

  /** Upserts and touches read the clock under the lock, so those that follow a reading are not before it. */
  predicate WritesNotBefore(ops: seq<Op>, start: Time) {
    forall op :: op in ops && (op.OpUpsert? || op.OpTouch?) ==> op.now >= start
  }

  /** The step leaves session `id` alone, or touches it no earlier than `start`, or prunes only what is older. */
  predicate Spares(op: Op, id: u32, start: Time) {
    match op
    case OpUpsert(s, _) => s.sessionId != id
    case OpTouch(other, now) => other == id ==> now >= start
    case OpRemove(other) => other != id
    case OpPrune(now, maxAge) => now - maxAge < start
  }

  lemma StepKeepsOnline(e: Entries, op: Op, id: u32, start: Time)
    requires id in e && e[id].lastSeen >= start && Spares(op, id, start)
    ensures var after := Apply(e, op);
            id in after && after[id].session == e[id].session && after[id].lastSeen >= start
  {
  }

  /** A session seen at `start` stays online, seen no earlier, through all steps that spare it. */
  lemma {:induction false} StaysOnline(e: Entries, ops: seq<Op>, id: u32, start: Time)
    requires id in e && e[id].lastSeen >= start && forall op :: op in ops ==> Spares(op, id, start)
    ensures var after := Run(e, ops);
            id in after && after[id].session == e[id].session && after[id].lastSeen >= start
    decreases |ops|
  {
    if ops == [] {
    } else {
      assert ops[0] in ops;
      StepKeepsOnline(e, ops[0], id, start);
      StaysOnline(Apply(e, ops[0]), ops[1..], id, start);
    }
  }

  /**
   * A search prunes with its own clock reading and looks up later. Whatever other connections do in between,
   * every session it can find is newer than the cutoff of that search.
   */
  lemma SearchSeesOnlyNewer(before: Entries, start: Time, maxAge: Time, ops: seq<Op>)
    requires maxAge > 0 && WritesNotBefore(ops, start)
    ensures AllNewer(Run(Apply(before, OpPrune(start, maxAge)), ops), start - maxAge)
  {
    NewerThroughout(Apply(before, OpPrune(start, maxAge)), start, maxAge, ops);
  }

  lemma {:induction false} NewerThroughout(e: Entries, start: Time, maxAge: Time, ops: seq<Op>)
    requires maxAge > 0 && WritesNotBefore(ops, start) && AllNewer(e, start - maxAge)
    ensures AllNewer(Run(e, ops), start - maxAge)
    decreases |ops|
  {
    if ops == [] {
    } else {
      assert ops[0] in ops;
      NewerThroughout(Apply(e, ops[0]), start, maxAge, ops[1..]);
    }
  }

  // ---------- The two maps ----------

  class Registry {
    var online: map<u32, Session>
    var lastSeen: map<u32, Time>

    ghost predicate Valid()
      reads this
    {
      && (forall k :: k in online <==> k in lastSeen)
      && (forall k :: k in online ==> online[k].sessionId == k)
    }

    ghost function Contents(): Entries
      reads this
    {
      map k | k in online && k in lastSeen :: Entry(online[k], lastSeen[k])
    }

    constructor ()
      ensures Valid() && Contents() == map[]
    {
      online := map[];
      lastSeen := map[];
    }

    method UpsertOnlineSession(session: Session, now: Time)
      requires Valid()
      modifies this
      ensures Valid() && Contents() == Upsert(old(Contents()), session, now)
    {
      online := online[session.sessionId := session];
      lastSeen := lastSeen[session.sessionId := now];
    }

    method TouchOnlineSession(id: u32, now: Time)
      requires Valid()
      modifies this
      ensures Valid() && Contents() == Touch(old(Contents()), id, now)
    {
      if id in online {
        lastSeen := lastSeen[id := now];
      }
    }

    method RemoveOnlineSession(id: u32)
      requires Valid()
      modifies this
      ensures Valid() && Contents() == Remove(old(Contents()), id)
    {
      online := online - {id};
      lastSeen := lastSeen - {id};
    }

    /** Erases expired sessions while walking the map of last readings. */
    method PruneOnlineSessions(maxAge: Time, now: Time)
      requires Valid()
      modifies this
      ensures Valid() && Contents() == Prune(old(Contents()), now - maxAge)
    {
      var cutoff := now - maxAge;
      var unvisited := lastSeen.Keys;
      while unvisited != {}
        invariant Valid() && forall k :: k in unvisited ==> k in lastSeen
        invariant forall k :: k in online ==>
                    k in old(online) && online[k] == old(online)[k] && lastSeen[k] == old(lastSeen)[k]
        invariant forall k :: k in old(online) ==> (k in online <==> k in unvisited || old(lastSeen)[k] > cutoff)
        decreases unvisited
      {
        var id :| id in unvisited;
        if lastSeen[id] <= cutoff {
          online := online - {id};
          lastSeen := lastSeen - {id};
        }
        unvisited := unvisited - {id};
      }
    }

    method SessionsForProfile(profileId: Text) returns (matches: seq<Session>)
      requires Valid()
      ensures multiset(matches) == multiset(SessionsOf(Contents(), profileId, Contents().Keys))
    {
      matches := [];
      var unvisited := online.Keys;
      while unvisited != {}
        invariant unvisited <= online.Keys
        invariant multiset(matches) == multiset(SessionsOf(Contents(), profileId, online.Keys - unvisited))
        decreases unvisited
      {
        var id :| id in unvisited;
        ghost var visited := online.Keys - unvisited;
        OneMoreVisited(Contents(), profileId, visited, id);
        if online[id].profileId == profileId {
          matches := matches + [online[id]];
        }
        unvisited := unvisited - {id};
        assert online.Keys - unvisited == visited + {id};
      }
      assert online.Keys - unvisited == Contents().Keys;
    }

    method OnlineSessionsForProfiles(profileIds: seq<Text>) returns (matches: seq<Session>)
      requires Valid()
      ensures IsAnswer(Contents(), profileIds, matches)
    {
      matches := [];
      for i := 0 to |profileIds|
        invariant IsAnswer(Contents(), profileIds[..i], matches)
      {
        var group := SessionsForProfile(profileIds[i]);
        AnswerToOne(Contents(), profileIds[i], group);
        AnswerAppend(Contents(), profileIds[..i], matches, profileIds[i], group);
        TakeNext(profileIds, i);
        matches := matches + group;
      }
      TakeAll(profileIds);
    }

    /** Any interleaving of the four operations does to the two maps what it does to the one. */
    method Execute(ops: seq<Op>)
      requires Valid()
      modifies this
      ensures Valid() && Contents() == Run(old(Contents()), ops)
    {
      for i := 0 to |ops|
        invariant Valid() && Run(Contents(), ops[i..]) == Run(old(Contents()), ops)
      {
        TailOfSuffix(ops, i);
        match ops[i]
        case OpUpsert(s, now) => UpsertOnlineSession(s, now);
        case OpTouch(id, now) => TouchOnlineSession(id, now);
        case OpRemove(id) => RemoveOnlineSession(id);
        case OpPrune(now, maxAge) => PruneOnlineSessions(maxAge, now);
      }
    }
  }
}
