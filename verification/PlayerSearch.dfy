/** The player-search reply: the online sessions of the profiles that a request asks for. */
module PlayerSearch {
  import opened Bytes
  import opened Clock
  import opened Fields
  import opened Splitting
  import opened Sessions
  import QrCodec
  import QrServer

  // "\opids\"
  const OPIDS: Text := [0x5c, 0x6f, 0x70, 0x69, 0x64, 0x73, 0x5c]
  // "\otherslist\"
  const HEAD: Text := [0x5c, 0x6f, 0x74, 0x68, 0x65, 0x72, 0x73, 0x6c, 0x69, 0x73, 0x74, 0x5c]
  // "\o\" and "\uniquenick\"
  const ITEM: Text := [0x5c, 0x6f, 0x5c]
  const NICK: Text := [0x5c, 0x75, 0x6e, 0x69, 0x71, 0x75, 0x65, 0x6e, 0x69, 0x63, 0x6b, 0x5c]
  // "\oldone\\final\"
  const TAIL: Text := [0x5c, 0x6f, 0x6c, 0x64, 0x6f, 0x6e, 0x65, 0x5c, 0x5c, 0x66, 0x69, 0x6e, 0x61, 0x6c, 0x5c]

  // ---------- The request ----------

  function RequestedProfiles(request: Text): seq<Text> {
    match Field(request, OPIDS)
    case None => []
    case Some(opids) => Pieces(opids, BAR)
  }

  predicate IsProfileId(p: Text) {
    BAR !in p && BACKSLASH !in p
  }

  lemma {:induction false} JoinHasNoBackslash(ids: seq<Text>)
    requires forall p :: p in ids ==> IsProfileId(p)
    ensures BACKSLASH !in Join(ids, BAR)
  {
    if ids == [] {
    } else {
      assert ids[0] in ids;
      JoinHasNoBackslash(ids[1..]);
      if |ids| > 1 {
        InConcat(BACKSLASH, ids[0], [BAR]);
        InConcat(BACKSLASH, ids[0] + [BAR], Join(ids[1..], BAR));
      }
    }
  }

  /**
   * A request that joins profile ids in its first `\opids\` field is read back as those of them that are not
   * empty, in order.
   */
  lemma RequestedProfilesOfJoin(before: Text, ids: seq<Text>, after: Text)
    requires forall p :: p in ids ==> IsProfileId(p)
    requires after == [] || after[0] == BACKSLASH
    requires var request := before + OPIDS + Join(ids, BAR) + after; Find(request, OPIDS, 0) == Some(|before|)
    ensures RequestedProfiles(before + OPIDS + Join(ids, BAR) + after) == NonEmptyOnes(ids)
    ensures [] !in ids ==> RequestedProfiles(before + OPIDS + Join(ids, BAR) + after) == ids
  {
    JoinHasNoBackslash(ids);
    FieldIsRead(before + OPIDS + Join(ids, BAR) + after, before, OPIDS, Join(ids, BAR), after);
    PiecesOfAnyJoin(ids, BAR);
    if [] !in ids {
      AllNonEmpty(ids);
    }
  }

  /** A request without that field asks for nobody. */
  lemma NothingRequested(request: Text)
    requires forall j: nat :: !OccursAt(request, OPIDS, j)
    ensures RequestedProfiles(request) == []
  {
    FieldIsPresent(request, OPIDS);
  }

  // ---------- The reply ----------

  function Item(s: Session): Text {
    ITEM + s.profileId + NICK + s.uniqueNick
  }

  function Items(sessions: seq<Session>): Text {
    if sessions == [] then [] else Item(sessions[0]) + Items(sessions[1..])
  }

  function Render(sessions: seq<Session>): Text {
    HEAD + Items(sessions) + TAIL
  }

  lemma {:induction false} ItemsAppend(a: seq<Session>, b: seq<Session>)
    ensures Items(a + b) == Items(a) + Items(b)
  {
    if a == [] {
      Units(b);
      Units(Items(b));
    } else {
      TailOfAppend(a, b);
      ItemsAppend(a[1..], b);
      Assoc(Item(a[0]), Items(a[1..]), Items(b));
    }
  }

  // ---------- Reading a reply ----------

  datatype Player = Player(profileId: Text, uniqueNick: Text)

  /** The player that `t` starts with, and what follows. */
  function ReadItem(t: Text): Option<(Player, Text)> {
    if |t| < 3 || t[..3] != ITEM then None
    else
      match IndexOf(t, BACKSLASH, 3)
      case None => None
      case Some(mid) =>
        if mid + 12 > |t| || t[mid..mid + 12] != NICK then None
        else
          match IndexOf(t, BACKSLASH, mid + 12)
          case None => None
          case Some(end) => Some((Player(t[3..mid], t[mid + 12..end]), t[end..]))
  }

  function ReadItems(t: Text): Option<seq<Player>>
    decreases |t|
  {
    if t == TAIL then Some([])
    else
      match ReadItem(t)
      case None => None
      case Some((player, rest)) =>
        if |rest| >= |t| then None
        else
          match ReadItems(rest)
          case None => None
          case Some(players) => Some([player] + players)
  }

  function ReadReply(t: Text): Option<seq<Player>> {
    if |t| < 12 || t[..12] != HEAD then None else ReadItems(t[12..])
  }

  function PlayersOf(sessions: seq<Session>): seq<Player> {
    if sessions == [] then []
    else [Player(sessions[0].profileId, sessions[0].uniqueNick)] + PlayersOf(sessions[1..])
  }

  predicate IsReadable(s: Session) {
    BACKSLASH !in s.profileId && BACKSLASH !in s.uniqueNick
  }

  lemma TextUpToBackslash(t: Text, first: nat, value: Text, end: nat)
    requires end == first + |value| && end < |t| && t[first..end] == value
    requires BACKSLASH !in value && t[end] == BACKSLASH
    ensures IndexOf(t, BACKSLASH, first) == Some(end)
  {
    forall k | first <= k < end ensures t[k] != BACKSLASH {
      assert t[k] == value[k - first];
    }
  }

  lemma PartsOfItem(s: Session, rest: Text)
    requires rest != [] && rest[0] == BACKSLASH
    ensures var t, mid := Item(s) + rest, 3 + |s.profileId|; var end := mid + 12 + |s.uniqueNick|;
            && end < |t| && t[..3] == ITEM && t[3..mid] == s.profileId && t[mid] == BACKSLASH
            && t[mid..mid + 12] == NICK && t[mid + 12..end] == s.uniqueNick && t[end] == BACKSLASH && t[end..] == rest
  {
    var t, mid := Item(s) + rest, 3 + |s.profileId|;
    var end := mid + 12 + |s.uniqueNick|;
    assert t[..3] == ITEM;
    assert t[3..mid] == s.profileId;
    assert t[mid..mid + 12] == NICK;
    assert t[mid + 12..end] == s.uniqueNick;
    assert t[end..] == rest;
  }

  lemma ItemIsRead(s: Session, rest: Text)
    requires IsReadable(s) && rest != [] && rest[0] == BACKSLASH
    ensures ReadItem(Item(s) + rest) == Some((Player(s.profileId, s.uniqueNick), rest))
    ensures Item(s) + rest != TAIL && |Item(s) + rest| > |rest|
  {
    var t, mid := Item(s) + rest, 3 + |s.profileId|;
    PartsOfItem(s, rest);
    TextUpToBackslash(t, 3, s.profileId, mid);
    TextUpToBackslash(t, mid + 12, s.uniqueNick, mid + 12 + |s.uniqueNick|);
    assert t[2] == ITEM[2];
  }

  lemma OneMoreItem(t: Text, s: Session, rest: Text, players: seq<Player>)
    requires IsReadable(s) && rest != [] && rest[0] == BACKSLASH
    requires t == Item(s) + rest && ReadItems(rest) == Some(players)
    ensures ReadItems(t) == Some([Player(s.profileId, s.uniqueNick)] + players)
  {
    ItemIsRead(s, rest);
  }

  lemma {:induction false} ItemsAreRead(sessions: seq<Session>)
    requires forall s :: s in sessions ==> IsReadable(s)
    ensures ReadItems(Items(sessions) + TAIL) == Some(PlayersOf(sessions))
  {
    var t := Items(sessions) + TAIL;
    if sessions == [] {
      Units(TAIL);
    } else {
      var first, others := sessions[0], sessions[1..];
      assert first in sessions && forall s :: s in others ==> s in sessions;
      ItemsAreRead(others);
      Assoc(Item(first), Items(others), TAIL);
      ItemsStartWithBackslash(others);
      OneMoreItem(t, first, Items(others) + TAIL, PlayersOf(others));
    }
  }

  lemma ItemsStartWithBackslash(sessions: seq<Session>)
    ensures (Items(sessions) + TAIL)[0] == BACKSLASH
  {
  }

  /** A reply whose profile ids and nicks hold no backslash is read back as its players, in order. */
  lemma ReplyIsRead(sessions: seq<Session>)
    requires forall s :: s in sessions ==> IsReadable(s)
    ensures ReadReply(Render(sessions)) == Some(PlayersOf(sessions))
  {
    Assoc(HEAD, Items(sessions), TAIL);
    PartsOfConcat(HEAD, Items(sessions) + TAIL);
    ItemsAreRead(sessions);
  }

  // ---------- The responder ----------

  method SplitOpids(opids: Text) returns (profiles: seq<Text>)
    ensures profiles == Pieces(opids, BAR)
  {
    profiles := [];
    var start := 0;
    Units(Pieces(opids, BAR));
    while start <= |opids|
      invariant start <= |opids|
      invariant profiles + PiecesFrom(opids, BAR, start) == Pieces(opids, BAR)
    {
      NextPiece(opids, BAR, start, profiles);
      var separator := IndexOf(opids, BAR, start);
      var opid := if separator.None? then opids[start..] else opids[start..separator.value];
      profiles := AddPiece(profiles, opid);
      if separator.None? {
        break;
      }
      start := separator.value + 1;
    }
  }

  method ProfilesOfRequest(request: Text) returns (profiles: seq<Text>)
    ensures profiles == RequestedProfiles(request)
  {
    profiles := [];
    var field := Field(request, OPIDS);
    if field.Some? {
      profiles := SplitOpids(field.value);
    }
  }

  method RenderReply(sessions: seq<Session>) returns (response: Text)
    ensures response == Render(sessions)
  {
    response := HEAD;
    Units(HEAD);
    for i := 0 to |sessions|
      invariant response == HEAD + Items(sessions[..i])
    {
      TakeNext(sessions, i);
      ItemsAppend(sessions[..i], [sessions[i]]);
      Units(Item(sessions[i]));
      Assoc(HEAD, Items(sessions[..i]), Item(sessions[i]));
      response := response + Item(sessions[i]);
    }
    TakeAll(sessions);
    response := response + TAIL;
  }

  /** `response` renders one of the answers that the registry may give to the request. */
  ghost predicate IsReply(e: Entries, request: Text, response: Text) {
    exists sessions :: IsAnswer(e, RequestedProfiles(request), sessions) && response == Render(sessions)
  }

  /** The lookup and the reply, which lists the online sessions of the requested profiles in the order asked for. */
  method LookUp(registry: Registry, request: Text) returns (response: Text)
    requires registry.Valid()
    ensures IsReply(registry.Contents(), request, response)
  {
    var profiles := ProfilesOfRequest(request);
    var sessions := registry.OnlineSessionsForProfiles(profiles);
    response := RenderReply(sessions);
  }

  /**
   * The reply lists the sessions that are online at the lookup: those that pruning left, after the steps `between`
   * that other connections take from the pruning to the lookup. If those use clock readings from after the
   * pruning, all sessions that can be listed are newer than the cutoff of this search.
   */
  method PlayerSearchResponse(registry: Registry, request: Text, now: Time, between: seq<Op>)
    returns (response: Text)
    requires registry.Valid()
    modifies registry
    ensures registry.Valid()
    ensures registry.Contents() == Run(Apply(old(registry.Contents()), OpPrune(now, MAX_AGE)), between)
    ensures IsReply(registry.Contents(), request, response)
    ensures WritesNotBefore(between, now) ==> AllNewer(registry.Contents(), now - MAX_AGE)
  {
    ghost var before := registry.Contents();
    registry.PruneOnlineSessions(MAX_AGE, now);
    registry.Execute(between);
    if WritesNotBefore(between, now) {
      SearchSeesOnlyNewer(before, now, MAX_AGE, between);
    }
    response := LookUp(registry, request);
  }

  /**
   * What a search finds: every online session of a requested profile, as often as the profile is asked for, and
   * none that was last seen before the cutoff of this search.
   */
  lemma SearchFindsExactly(e: Entries, now: Time, ids: seq<Text>, sessions: seq<Session>, s: Session)
    requires IsAnswer(Prune(e, now - MAX_AGE), ids, sessions)
    ensures multiset(sessions)[s] > 0 <==>
            s.profileId in ids && exists k :: k in e && e[k].session == s && e[k].lastSeen > now - MAX_AGE
    ensures s in sessions ==> multiset(sessions)[s] == multiset(ids)[s.profileId]
  {
    var kept := Prune(e, now - MAX_AGE);
    AnswerMultiplicity(kept, ids, sessions, s);
    if k :| k in e && e[k].session == s && e[k].lastSeen > now - MAX_AGE {
      assert k in kept && kept[k].session == s;
    }
  }

  /**
   * A client that sent a heartbeat less than 61 seconds ago is found by every search for its profile, whatever
   * steps are taken in between, on any state of the registry, that spare its session.
   */
  lemma HeartbeatIsFound(e: Entries, i: QrServer.Input, ops: seq<Op>, now: Time, ids: seq<Text>,
                         sessions: seq<Session>)
    requires QrCodec.IsHeartbeat(i.packet) && !i.IsShutdown() && now - i.stored < MAX_AGE
    requires forall op :: op in ops ==> Spares(op, i.Id(), i.stored)
    requires QrServer.SessionOf(i).profileId in ids
    requires IsAnswer(Prune(Run(QrServer.StepEntries(e, i), ops), now - MAX_AGE), ids, sessions)
    ensures QrServer.SessionOf(i) in sessions
    ensures multiset(sessions)[QrServer.SessionOf(i)] == multiset(ids)[QrServer.SessionOf(i).profileId]
  {
    var after := QrServer.StepEntries(e, i);
    assert i.Id() in after && after[i.Id()] == Entry(QrServer.SessionOf(i), i.stored);
    StaysOnline(after, ops, i.Id(), i.stored);
    SearchFindsExactly(Run(after, ops), now, ids, sessions, QrServer.SessionOf(i));
  }

  lemma {:induction false} PlayersListSessions(sessions: seq<Session>, s: Session)
    requires s in sessions
    ensures Player(s.profileId, s.uniqueNick) in PlayersOf(sessions)
  {
    if s == sessions[0] {
    } else {
      PlayersListSessions(sessions[1..], s);
    }
  }

  /**
   * A reply to such a search lists the client under the profile id and the nick that its heartbeat named, if the
   * values in the reply can be told apart.
   */
  lemma HeartbeatIsListed(e: Entries, i: QrServer.Input, ops: seq<Op>, now: Time, ids: seq<Text>,
                          sessions: seq<Session>, profileId: Text, nick: Text)
    requires QrCodec.IsHeartbeat(i.packet) && !i.IsShutdown() && now - i.stored < 61 * SECOND
    requires QrCodec.Says(i.packet, QrServer.PROFILE_ID, profileId) && profileId in ids && profileId != []
    requires QrCodec.Says(i.packet, QrServer.UNIQUE_NICK, nick)
    requires forall op :: op in ops ==> Spares(op, i.Id(), i.stored)
    requires IsAnswer(Prune(Run(QrServer.StepEntries(e, i), ops), now - MAX_AGE), ids, sessions)
    requires forall s :: s in sessions ==> IsReadable(s)
    ensures ReadReply(Render(sessions)).Some? && Player(profileId, nick) in ReadReply(Render(sessions)).value
  {
    QrCodec.FieldExactly(i.packet, QrServer.PROFILE_ID, profileId);
    QrCodec.FieldExactly(i.packet, QrServer.UNIQUE_NICK, nick);
    HeartbeatIsFound(e, i, ops, now, ids, sessions);
    PlayersListSessions(sessions, QrServer.SessionOf(i));
    ReplyIsRead(sessions);
  }
}
