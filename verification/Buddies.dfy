/** The buddy requests and active connections of profiles, changed in mutex-guarded steps by every connection. */
module Buddies {
  import opened Bytes

  /** One mutex-guarded step; `me` is the profile id of the connection that takes it. */
  datatype Event =
    | Status(me: Text, socket: int)
    | AddBuddy(me: Text, target: Text)
    | AuthAdd(me: Text, source: Text)
    | DelBuddy(me: Text, target: Text)
    | Close(me: Text)

  datatype Notice = Notice(socket: int, command: Text, from: Text)
  datatype State = State(active: map<Text, int>, pending: map<Text, set<Text>>)

  const REQUEST: Text := [0x32]
  const ACCEPTED: Text := [0x34]

  function PendingOf(st: State, target: Text): set<Text> {
    if target in st.pending then st.pending[target] else {}
  }

  function NotifyIfActive(st: State, profile: Text, command: Text, from: Text): seq<Notice> {
    if profile in st.active then [Notice(st.active[profile], command, from)] else []
  }

  function Apply(st: State, e: Event): (State, seq<Notice>) {
    match e
    case Status(me, socket) => (st.(active := st.active[me := socket]), [])
    case AddBuddy(me, target) =>
      if target == [] || target == me then (st, [])
      else (st.(pending := st.pending[target := PendingOf(st, target) + {me}]), NotifyIfActive(st, target, REQUEST, me))
    case AuthAdd(me, source) =>
      if source == [] then (st, [])
      else (st.(pending := st.pending[me := PendingOf(st, me) - {source}]), NotifyIfActive(st, source, ACCEPTED, me))
    case DelBuddy(me, target) => (st.(pending := st.pending[me := PendingOf(st, me) - {target}]), [])
    case Close(me) => (st.(active := st.active - {me}), [])
  }

  /** What a request does that may take no step. */
  function ApplyIfAny(st: State, e: Option<Event>): (State, seq<Notice>) {
    match e
    case None => (st, [])
    case Some(event) => Apply(st, event)
  }

  function Run(st: State, events: seq<Event>): State
    decreases |events|
  {
    if events == [] then st else Run(Apply(st, events[0]).0, events[1..])
  }

  /** Every notice sent during a run. */
  function NoticesOf(st: State, events: seq<Event>): seq<Notice>
    decreases |events|
  {
    if events == [] then []
    else
      var before, last := events[..|events| - 1], events[|events| - 1];
      NoticesOf(st, before) + Apply(Run(st, before), last).1
  }

  // ---------- What the history says ----------

  /** `e` is an accepted request of `s` to `t`. */
  predicate Requests(e: Event, s: Text, t: Text) {
    e == AddBuddy(s, t) && t != [] && t != s
  }

  /** `e` settles the request of `s` to `t`: `t` accepts it or deletes it. */
  predicate Settles(e: Event, s: Text, t: Text) {
    (e == AuthAdd(t, s) && s != []) || e == DelBuddy(t, s)
  }

  predicate NeverSettled(events: seq<Event>, s: Text, t: Text) {
    forall e :: e in events ==> !Settles(e, s, t)
  }

  /** Some request of `s` to `t` has not been settled since. */
  predicate LatestIsRequest(events: seq<Event>, s: Text, t: Text) {
    exists n :: 0 <= n < |events| && Requests(events[n], s, t) && NeverSettled(events[n + 1..], s, t)
  }

  lemma HistoryGrows(first: Event, rest: seq<Event>, s: Text, t: Text)
    requires LatestIsRequest(rest, s, t) || (Requests(first, s, t) && NeverSettled(rest, s, t))
    ensures LatestIsRequest([first] + rest, s, t)
  {
    var events := [first] + rest;
    if LatestIsRequest(rest, s, t) {
      var n :| 0 <= n < |rest| && Requests(rest[n], s, t) && NeverSettled(rest[n + 1..], s, t);
      assert Requests(events[n + 1], s, t) && events[n + 2..] == rest[n + 1..];
    } else {
      assert Requests(events[0], s, t) && events[1..] == rest;
    }
  }

  lemma HistoryOfFirst(first: Event, rest: seq<Event>, s: Text, t: Text)
    ensures LatestIsRequest([first] + rest, s, t) <==>
            LatestIsRequest(rest, s, t) || (Requests(first, s, t) && NeverSettled(rest, s, t))
  {
    var events := [first] + rest;
    if LatestIsRequest(events, s, t) {
      var n :| 0 <= n < |events| && Requests(events[n], s, t) && NeverSettled(events[n + 1..], s, t);
      if n > 0 {
        assert Requests(rest[n - 1], s, t) && events[n + 1..] == rest[n..];
      } else {
        assert events[1..] == rest;
      }
    } else if LatestIsRequest(rest, s, t) || (Requests(first, s, t) && NeverSettled(rest, s, t)) {
      HistoryGrows(first, rest, s, t);
    }
  }

  lemma StepOfHistory(st: State, e: Event, s: Text, t: Text)
    ensures s in PendingOf(Apply(st, e).0, t) <==>
            Requests(e, s, t) || (s in PendingOf(st, t) && !Settles(e, s, t))
  {
  }

  /** In every interleaving, a request is pending exactly when the latest event about it is the request. */
  lemma {:induction false} PendingIsHistory(st: State, events: seq<Event>, s: Text, t: Text)
    ensures s in PendingOf(Run(st, events), t) <==>
            LatestIsRequest(events, s, t) || (s in PendingOf(st, t) && NeverSettled(events, s, t))
    decreases |events|
  {
    if events == [] {
    } else {
      StepOfHistory(st, events[0], s, t);
      HistoryOfFirst(events[0], events[1..], s, t);
      PendingIsHistory(Apply(st, events[0]).0, events[1..], s, t);
      assert events == [events[0]] + events[1..];
    }
  }

  /** No profile is ever pending on itself. */
  lemma NeverPendingOnSelf(events: seq<Event>, p: Text)
    ensures p !in PendingOf(Run(State(map[], map[]), events), p)
  {
    PendingIsHistory(State(map[], map[]), events, p, p);
  }

  /** The socket a profile is reachable on: that of its latest status, unless a connection of it closed since. */
  function LatestSocket(events: seq<Event>, p: Text): Option<int> {
    if events == [] then None
    else
      match events[|events| - 1]
      case Status(me, socket) => if me == p then Some(socket) else LatestSocket(events[..|events| - 1], p)
      case Close(me) => if me == p then None else LatestSocket(events[..|events| - 1], p)
      case _ => LatestSocket(events[..|events| - 1], p)
  }

  lemma {:induction false} RunAppend(st: State, a: seq<Event>, e: Event)
    ensures Run(st, a + [e]) == Apply(Run(st, a), e).0
    decreases |a|
  {
    if a == [] {
    } else {
      TailOfAppend(a, [e]);
      RunAppend(Apply(st, a[0]).0, a[1..], e);
    }
  }

  lemma {:induction false} ActiveIsHistory(events: seq<Event>, p: Text)
    ensures var active := Run(State(map[], map[]), events).active;
            LatestSocket(events, p) == if p in active then Some(active[p]) else None
    decreases |events|
  {
    if events == [] {
    } else {
      var before, last := events[..|events| - 1], events[|events| - 1];
      ActiveIsHistory(before, p);
      RunAppend(State(map[], map[]), before, last);
      assert events == before + [last];
    }
  }

  function NoticeTo(socket: Option<int>, command: Text, from: Text): seq<Notice> {
    match socket
    case None => []
    case Some(s) => [Notice(s, command, from)]
  }

  /** A request is announced on the target's latest socket, an acceptance on the source's, and nothing elsewhere. */
  lemma NoticesReachLatestSocket(events: seq<Event>, me: Text, other: Text)
    ensures var st := Run(State(map[], map[]), events);
            && Apply(st, AddBuddy(me, other)).1 ==
               (if other == [] || other == me then [] else NoticeTo(LatestSocket(events, other), REQUEST, me))
            && Apply(st, AuthAdd(me, other)).1 ==
               (if other == [] then [] else NoticeTo(LatestSocket(events, other), ACCEPTED, me))
  {
    ActiveIsHistory(events, other);
  }

  // ---------- The shared tables ----------

  class Table {
    var activeProfiles: map<Text, int>
    var pendingRequests: map<Text, set<Text>>

    ghost function Contents(): State
      reads this
    {
      State(activeProfiles, pendingRequests)
    }

    constructor ()
      ensures Contents() == State(map[], map[])
    {
      activeProfiles, pendingRequests := map[], map[];
    }

    method HandleStatus(me: Text, socket: int)
      modifies this
      ensures Contents() == Apply(old(Contents()), Status(me, socket)).0
    {
      activeProfiles := activeProfiles[me := socket];
    }

    method HandleAddBuddy(me: Text, target: Text) returns (sent: seq<Notice>)
      modifies this
      ensures (Contents(), sent) == Apply(old(Contents()), AddBuddy(me, target))
    {
      sent := [];
      if target != [] && target != me {
        var entry := if target in pendingRequests then pendingRequests[target] else {};
        pendingRequests := pendingRequests[target := entry + {me}];
        if target in activeProfiles {
          sent := [Notice(activeProfiles[target], REQUEST, me)];
        }
      }
    }

    method HandleAuthAdd(me: Text, source: Text) returns (sent: seq<Notice>)
      modifies this
      ensures (Contents(), sent) == Apply(old(Contents()), AuthAdd(me, source))
    {
      sent := [];
      if source != [] {
        var entry := if me in pendingRequests then pendingRequests[me] else {};
        pendingRequests := pendingRequests[me := entry - {source}];
        if source in activeProfiles {
          sent := [Notice(activeProfiles[source], ACCEPTED, me)];
        }
      }
    }

    method HandleDelBuddy(me: Text, target: Text)
      modifies this
      ensures Contents() == Apply(old(Contents()), DelBuddy(me, target)).0
    {
      var entry := if me in pendingRequests then pendingRequests[me] else {};
      pendingRequests := pendingRequests[me := entry - {target}];
    }

    method HandleClose(me: Text)
      modifies this
      ensures Contents() == Apply(old(Contents()), Close(me)).0
    {
      activeProfiles := activeProfiles - {me};
    }
  }
}
