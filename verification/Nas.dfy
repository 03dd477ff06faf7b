/** NAS accounts, profile ids, login sessions and Sake records: shared tables changed in mutex-guarded steps. */
module Nas {
  import opened Bytes

  const U64: nat := 0x1_0000_0000_0000_0000
  const FIRST_USER: nat := 1_000_000_000_001
  const FIRST_PROFILE: nat := 1

  datatype Login = Login(challenge: Text, token: Text, requestBody: Text, profileId: Text)
  datatype Credentials = Credentials(challenge: Text, token: Text, userId: Text, profileId: Text)

  const NO_CREDENTIALS: Credentials := Credentials([], [], [], [0x31])

  datatype State = State(
    accounts: map<Text, Text>, profiles: map<Text, Text>, nextUser: nat, nextProfile: nat, logins: map<Text, Login>)

  const INITIAL: State := State(map[], map[], FIRST_USER, FIRST_PROFILE, map[])

  // ---------- The atomic steps ----------

  /** The user id of an account key; a new key takes the next number, in 64-bit arithmetic. */
  function UserFor(st: State, key: Text): (State, Text) {
    if key in st.accounts then (st, st.accounts[key])
    else
      var userId := Decimal(st.nextUser);
      (st.(accounts := st.accounts[key := userId], nextUser := (st.nextUser + 1) % U64), userId)
  }

  /** The profile id of a user; a new user takes the next number, in 64-bit arithmetic. */
  function ProfileFor(st: State, userId: Text): (State, Text) {
    if userId in st.profiles then (st, st.profiles[userId])
    else
      var profileId := Decimal(st.nextProfile);
      (st.(profiles := st.profiles[userId := profileId], nextProfile := (st.nextProfile + 1) % U64), profileId)
  }

  function WithLogin(st: State, userId: Text, login: Login): State {
    st.(logins := st.logins[userId := login])
  }

  ghost predicate HasToken(st: State, token: Text) {
    exists u :: u in st.logins && st.logins[u].token == token
  }

  ghost predicate IsCredentials(st: State, token: Text, c: Credentials) {
    if HasToken(st, token) then
      && c.userId in st.logins
      && var login := st.logins[c.userId];
         login.token == token && c == Credentials(login.challenge, login.token, c.userId, login.profileId)
    else c == NO_CREDENTIALS
  }

  // ---------- Interleavings ----------

  /** One atomic step of some connection. A login stores the profile id that an earlier step of it was given. */
  datatype Event =
    | AssignUser(key: Text)
    | AssignProfile(userId: Text)
    | StoreLogin(userId: Text, login: Login)

  /** The tables, and every profile id that `AssignProfile` has answered so far. */
  datatype System = System(st: State, answered: set<(Text, Text)>)

  predicate Enabled(sys: System, e: Event) {
    e.StoreLogin? ==> (e.userId, e.login.profileId) in sys.answered
  }

  function Apply(sys: System, e: Event): System {
    match e
    case AssignUser(key) => sys.(st := UserFor(sys.st, key).0)
    case AssignProfile(userId) =>
      var (st, profileId) := ProfileFor(sys.st, userId);
      System(st, sys.answered + {(userId, profileId)})
    case StoreLogin(userId, login) => sys.(st := WithLogin(sys.st, userId, login))
  }

  function Run(sys: System, events: seq<Event>): System
    decreases |events|
  {
    if events == [] then sys else Run(Apply(sys, events[0]), events[1..])
  }

  predicate Possible(sys: System, events: seq<Event>)
    decreases |events|
  {
    events == [] || (Enabled(sys, events[0]) && Possible(Apply(sys, events[0]), events[1..]))
  }

  // ---------- Numbered tables ----------

  predicate IsNumber(t: Text, n: nat) {
    t == Decimal(n)
  }

  ghost predicate IsTaken(table: map<Text, Text>, n: nat) {
    exists k :: k in table && IsNumber(table[k], n)
  }

  /** The table is a bijection from its keys onto the decimal texts of `first` to `next - 1`. */
  ghost predicate Numbered(table: map<Text, Text>, first: nat, next: nat) {
    && (forall k :: k in table ==> exists n :: first <= n < next && IsNumber(table[k], n))
    && (forall n: nat :: first <= n < next ==> IsTaken(table, n))
    && (forall k, l :: k in table && l in table && table[k] == table[l] ==> k == l)
  }

  lemma NumberNext(table: map<Text, Text>, first: nat, next: nat, key: Text)
    requires Numbered(table, first, next) && first <= next && key !in table
    ensures Numbered(table[key := Decimal(next)], first, next + 1)
  {
    var after := table[key := Decimal(next)];
    forall k | k in after
      ensures exists n :: first <= n < next + 1 && IsNumber(after[k], n)
      ensures k != key ==> after[k] != Decimal(next)
    {
      if k == key {
        assert IsNumber(after[k], next);
      } else {
        var n :| first <= n < next && IsNumber(table[k], n);
        assert IsNumber(after[k], n);
        if Decimal(n) == Decimal(next) {
          DecimalInjective(n, next);
        }
      }
    }
    forall n: nat | first <= n < next + 1 ensures IsTaken(after, n) {
      if n < next {
        assert IsTaken(table, n);
        var k :| k in table && IsNumber(table[k], n);
        assert k in after && IsNumber(after[k], n);
      } else {
        assert key in after && IsNumber(after[key], n);
      }
    }
  }

  // ---------- What every run keeps ----------

  /** No assignment of `st` has changed in `later`. */
  predicate Keeps(st: State, later: State) {
    && (forall k :: k in st.accounts ==> k in later.accounts && later.accounts[k] == st.accounts[k])
    && (forall u :: u in st.profiles ==> u in later.profiles && later.profiles[u] == st.profiles[u])
  }

  /** Profile ids answered earlier are still those of their users, and so are those stored in logins. */
  predicate LoginsAgree(sys: System) {
    var st := sys.st;
    && (forall a :: a in sys.answered ==> a.0 in st.profiles && st.profiles[a.0] == a.1)
    && (forall u :: u in st.logins ==> u in st.profiles && st.logins[u].profileId == st.profiles[u])
  }

  lemma StepKeepsLogins(sys: System, e: Event)
    ensures Keeps(sys.st, Apply(sys, e).st)
    ensures LoginsAgree(sys) && Enabled(sys, e) ==> LoginsAgree(Apply(sys, e))
  {
    match e
    case AssignUser(key) =>
    case AssignProfile(userId) =>
    case StoreLogin(userId, login) =>
  }

  /** In every run no assignment ever changes, and every login carries the profile id of its user. */
  lemma {:induction false} RunKeepsLogins(sys: System, events: seq<Event>)
    ensures Keeps(sys.st, Run(sys, events).st)
    ensures LoginsAgree(sys) && Possible(sys, events) ==> LoginsAgree(Run(sys, events))
    decreases |events|
  {
    if events == [] {
    } else {
      StepKeepsLogins(sys, events[0]);
      RunKeepsLogins(Apply(sys, events[0]), events[1..]);
    }
  }

  /** Credentials found for a token carry the profile id that their user has and keeps for ever. */
  lemma CredentialsCarryTheProfile(before: seq<Event>, token: Text, c: Credentials, later: seq<Event>)
    requires Possible(System(INITIAL, {}), before + later)
    requires var st := Run(System(INITIAL, {}), before).st; IsCredentials(st, token, c) && HasToken(st, token)
    ensures var profiles := Run(System(INITIAL, {}), before + later).st.profiles;
            c.token == token && c.userId in profiles && profiles[c.userId] == c.profileId
  {
    var start := System(INITIAL, {});
    RunAppend(start, before, later);
    RunKeepsLogins(start, before);
    RunKeepsLogins(Run(start, before), later);
  }

  lemma {:induction false} RunAppend(sys: System, a: seq<Event>, b: seq<Event>)
    ensures Run(sys, a + b) == Run(Run(sys, a), b)
    ensures Possible(sys, a + b) <==> Possible(sys, a) && Possible(Run(sys, a), b)
    decreases |a|
  {
    if a == [] {
      Units(b);
    } else {
      TailOfAppend(a, b);
      RunAppend(Apply(sys, a[0]), a[1..], b);
    }
  }

  /** The login that a user stored last in a run. */
  function LatestLogin(events: seq<Event>, userId: Text): Option<Login> {
    if events == [] then None
    else
      match events[|events| - 1]
      case StoreLogin(u, login) =>
        if u == userId then Some(login) else LatestLogin(events[..|events| - 1], userId)
      case _ => LatestLogin(events[..|events| - 1], userId)
  }

  /** Every user's login is the one that the user stored last, and no other user's login touches it. */
  lemma {:induction false} LoginsAreHistory(events: seq<Event>, userId: Text)
    ensures var logins := Run(System(INITIAL, {}), events).st.logins;
            LatestLogin(events, userId) == if userId in logins then Some(logins[userId]) else None
    decreases |events|
  {
    if events == [] {
    } else {
      var n := |events| - 1;
      LoginsAreHistory(events[..n], userId);
      RunAppend(System(INITIAL, {}), events[..n], [events[n]]);
      TakeNext(events, n);
      TakeAll(events);
      assert [events[n]][1..] == [];
    }
  }

  /** A token held by one user's latest login alone finds exactly that login; one that nobody holds finds none. */
  lemma TokenFindsItsLogin(events: seq<Event>, userId: Text, token: Text, c: Credentials)
    requires IsCredentials(Run(System(INITIAL, {}), events).st, token, c)
    requires forall u: Text :: u != userId ==>
               match LatestLogin(events, u) { case None => true case Some(login) => login.token != token }
    ensures match LatestLogin(events, userId)
            case None => c.profileId == [0x31] && c.challenge == c.token == c.userId == []
            case Some(login) =>
              if login.token != token then c.profileId == [0x31] && c.challenge == c.token == c.userId == []
              else && c.userId == userId && c.token == token && c.challenge == login.challenge
                   && c.profileId == login.profileId
  {
    var st := Run(System(INITIAL, {}), events).st;
    LoginsAreHistory(events, userId);
    forall u | u in st.logins && u != userId ensures st.logins[u].token != token {
      LoginsAreHistory(events, u);
      assert LatestLogin(events, u) == Some(st.logins[u]);
    }
  }

  // ---------- What every run keeps until a counter wraps around ----------

  ghost predicate Inv(st: State) {
    && FIRST_USER <= st.nextUser < U64 && Numbered(st.accounts, FIRST_USER, st.nextUser)
    && FIRST_PROFILE <= st.nextProfile < U64 && Numbered(st.profiles, FIRST_PROFILE, st.nextProfile)
  }

  /** The step gives out the last number of a 64-bit counter. */
  predicate Wraps(st: State, e: Event) {
    match e
    case AssignUser(key) => key !in st.accounts && st.nextUser == U64 - 1
    case AssignProfile(userId) => userId !in st.profiles && st.nextProfile == U64 - 1
    case StoreLogin(_, _) => false
  }

  predicate NeverWraps(sys: System, events: seq<Event>)
    decreases |events|
  {
    events == [] || (!Wraps(sys.st, events[0]) && NeverWraps(Apply(sys, events[0]), events[1..]))
  }

  /** The last number of a counter has been given out. */
  ghost predicate Exhausted(st: State) {
    IsTaken(st.accounts, U64 - 1) || IsTaken(st.profiles, U64 - 1)
  }

  lemma TakenIsBelowNext(table: map<Text, Text>, first: nat, next: nat, n: nat)
    requires Numbered(table, first, next) && IsTaken(table, n)
    ensures n < next
  {
    var k :| k in table && IsNumber(table[k], n);
    var m :| first <= m < next && IsNumber(table[k], m);
    DecimalInjective(n, m);
  }

  lemma ExhaustedForEver(st: State, later: State)
    requires Exhausted(st) && Keeps(st, later)
    ensures Exhausted(later) && !Inv(later)
  {
    if IsTaken(st.accounts, U64 - 1) {
      var k :| k in st.accounts && IsNumber(st.accounts[k], U64 - 1);
      assert k in later.accounts && IsNumber(later.accounts[k], U64 - 1);
      if Inv(later) {
        TakenIsBelowNext(later.accounts, FIRST_USER, later.nextUser, U64 - 1);
      }
    } else {
      var k :| k in st.profiles && IsNumber(st.profiles[k], U64 - 1);
      assert k in later.profiles && IsNumber(later.profiles[k], U64 - 1);
      if Inv(later) {
        TakenIsBelowNext(later.profiles, FIRST_PROFILE, later.nextProfile, U64 - 1);
      }
    }
  }

  lemma UserStep(st: State, key: Text)
    requires Inv(st)
    ensures var after := UserFor(st, key).0;
            if Wraps(st, AssignUser(key)) then Exhausted(after) else Inv(after)
  {
    if key !in st.accounts {
      NumberNext(st.accounts, FIRST_USER, st.nextUser, key);
      var after := UserFor(st, key).0;
      assert key in after.accounts && IsNumber(after.accounts[key], st.nextUser);
    }
  }

  lemma ProfileStep(st: State, userId: Text)
    requires Inv(st)
    ensures var after := ProfileFor(st, userId).0;
            if Wraps(st, AssignProfile(userId)) then Exhausted(after) else Inv(after)
  {
    if userId !in st.profiles {
      NumberNext(st.profiles, FIRST_PROFILE, st.nextProfile, userId);
      var after := ProfileFor(st, userId).0;
      assert userId in after.profiles && IsNumber(after.profiles[userId], st.nextProfile);
    }
  }

  lemma StepKeepsInv(sys: System, e: Event)
    requires Inv(sys.st)
    ensures if Wraps(sys.st, e) then Exhausted(Apply(sys, e).st) else Inv(Apply(sys, e).st)
  {
    match e
    case AssignUser(key) => UserStep(sys.st, key);
    case AssignProfile(userId) => ProfileStep(sys.st, userId);
    case StoreLogin(userId, login) =>
  }

  lemma {:induction false} InvUntilWrap(sys: System, events: seq<Event>)
    requires Inv(sys.st)
    ensures Inv(Run(sys, events).st) <==> NeverWraps(sys, events)
    decreases |events|
  {
    if events == [] {
    } else {
      var after := Apply(sys, events[0]);
      StepKeepsInv(sys, events[0]);
      if Wraps(sys.st, events[0]) {
        RunKeepsLogins(after, events[1..]);
        ExhaustedForEver(after.st, Run(after, events[1..]).st);
      } else {
        InvUntilWrap(after, events[1..]);
      }
    }
  }

  /** How many different account keys outside `known` a run asks for. */
  function NewKeys(events: seq<Event>, known: set<Text>): nat
    decreases |events|
  {
    if events == [] then 0
    else if events[0].AssignUser? && events[0].key !in known then 1 + NewKeys(events[1..], known + {events[0].key})
    else NewKeys(events[1..], known)
  }

  /** How many different users outside `known` a run asks profile ids for. */
  function NewUsers(events: seq<Event>, known: set<Text>): nat
    decreases |events|
  {
    if events == [] then 0
    else if events[0].AssignProfile? && events[0].userId !in known then
      1 + NewUsers(events[1..], known + {events[0].userId})
    else NewUsers(events[1..], known)
  }

  /** There are numbers left for all new keys and users that the run asks for. */
  predicate NumbersSuffice(st: State, events: seq<Event>) {
    && st.nextUser + NewKeys(events, st.accounts.Keys) < U64
    && st.nextProfile + NewUsers(events, st.profiles.Keys) < U64
  }

  lemma KeysAfterStep(sys: System, e: Event)
    requires !Wraps(sys.st, e) && sys.st.nextUser < U64 && sys.st.nextProfile < U64
    ensures var st, after := sys.st, Apply(sys, e).st;
            && (if e.AssignUser? && e.key !in st.accounts
                then after.nextUser == st.nextUser + 1 && after.accounts.Keys == st.accounts.Keys + {e.key}
                else after.nextUser == st.nextUser && after.accounts.Keys == st.accounts.Keys)
            && (if e.AssignProfile? && e.userId !in st.profiles
                then after.nextProfile == st.nextProfile + 1 && after.profiles.Keys == st.profiles.Keys + {e.userId}
                else after.nextProfile == st.nextProfile && after.profiles.Keys == st.profiles.Keys)
  {
  }

  lemma {:induction false} NeverWrapsExactly(sys: System, events: seq<Event>)
    requires sys.st.nextUser < U64 && sys.st.nextProfile < U64
    ensures NeverWraps(sys, events) <==> NumbersSuffice(sys.st, events)
    decreases |events|
  {
    if events == [] {
    } else if !Wraps(sys.st, events[0]) {
      KeysAfterStep(sys, events[0]);
      NeverWrapsExactly(Apply(sys, events[0]), events[1..]);
    }
  }

  /**
   * Both tables are bijections onto consecutive numbers after a run exactly if there are numbers for all the new
   * keys and users that it asks for.
   */
  lemma RunKeepsInv(sys: System, events: seq<Event>)
    requires Inv(sys.st)
    ensures Inv(Run(sys, events).st) <==> NumbersSuffice(sys.st, events)
  {
    InvUntilWrap(sys, events);
    NeverWrapsExactly(sys, events);
  }

  lemma InitialInv()
    ensures Inv(INITIAL)
  {
  }

  /** From the start, ids are distinct after every run that asks for no more ids than there are numbers. */
  lemma IdsAreDistinct(events: seq<Event>)
    requires NumbersSuffice(INITIAL, events)
    ensures var st := Run(System(INITIAL, {}), events).st;
            && (forall k, l :: k in st.accounts && l in st.accounts && st.accounts[k] == st.accounts[l] ==> k == l)
            && (forall u, v :: u in st.profiles && v in st.profiles && st.profiles[u] == st.profiles[v] ==> u == v)
  {
    InitialInv();
    RunKeepsInv(System(INITIAL, {}), events);
  }

  // ---------- The handlers ----------

  /** What a NAS request has yet to do. A login that has its profile id has yet to store it. */
  datatype Job =
    | CreateAccount(key: Text)
    | CreateProfile(userId: Text)
    | LogIn(userId: Text, challenge: Text, token: Text, requestBody: Text)
    | KeepLogin(userId: Text, login: Login)
    | Done

  function NextEvent(j: Job): Option<Event> {
    match j
    case CreateAccount(key) => Some(AssignUser(key))
    case CreateProfile(userId) => Some(AssignProfile(userId))
    case LogIn(userId, _, _, _) => Some(AssignProfile(userId))
    case KeepLogin(userId, login) => Some(StoreLogin(userId, login))
    case Done => None
  }

  function Advance(st: State, j: Job): Job {
    match j
    case CreateAccount(key) => CreateProfile(UserFor(st, key).1)
    case LogIn(userId, challenge, token, requestBody) =>
      KeepLogin(userId, Login(challenge, token, requestBody, ProfileFor(st, userId).1))
    case _ => Done
  }

  /** The steps of requests that run interleaved; `schedule` names the request that moves next. */
  function Interleaving(sys: System, jobs: seq<Job>, schedule: seq<nat>): seq<Event>
    decreases |schedule|
  {
    if schedule == [] then []
    else if schedule[0] >= |jobs| || jobs[schedule[0]].Done? then Interleaving(sys, jobs, schedule[1..])
    else
      var n := schedule[0];
      var e := NextEvent(jobs[n]).value;
      [e] + Interleaving(Apply(sys, e), jobs[n := Advance(sys.st, jobs[n])], schedule[1..])
  }

  /** Every login that has yet to be stored holds a profile id that was answered for its user. */
  predicate Answered(sys: System, jobs: seq<Job>) {
    forall n :: 0 <= n < |jobs| && jobs[n].KeepLogin? ==> (jobs[n].userId, jobs[n].login.profileId) in sys.answered
  }

  lemma StepKeepsAnswered(sys: System, jobs: seq<Job>, n: nat)
    requires Answered(sys, jobs) && n < |jobs| && !jobs[n].Done?
    ensures Enabled(sys, NextEvent(jobs[n]).value)
    ensures Answered(Apply(sys, NextEvent(jobs[n]).value), jobs[n := Advance(sys.st, jobs[n])])
  {
  }

  /** However account creations and logins interleave, their steps are a run that the other lemmas speak about. */
  lemma {:induction false} HandlersArePossible(sys: System, jobs: seq<Job>, schedule: seq<nat>)
    requires Answered(sys, jobs)
    ensures Possible(sys, Interleaving(sys, jobs, schedule))
    decreases |schedule|
  {
    if schedule == [] {
    } else if schedule[0] >= |jobs| || jobs[schedule[0]].Done? {
      HandlersArePossible(sys, jobs, schedule[1..]);
    } else {
      var n := schedule[0];
      var e := NextEvent(jobs[n]).value;
      var after, rest := Apply(sys, e), jobs[n := Advance(sys.st, jobs[n])];
      StepKeepsAnswered(sys, jobs, n);
      HandlersArePossible(after, rest, schedule[1..]);
      TailOfCons(e, Interleaving(after, rest, schedule[1..]));
    }
  }

  /** The steps of a request that nothing interrupts. */
  function Alone(st: State, j: Job): seq<Event> {
    Interleaving(System(st, {}), [j], [0, 0])
  }

  lemma AloneTakesTwoSteps(st: State, j: Job)
    requires j.CreateAccount? || j.LogIn?
    ensures var first := NextEvent(j).value; var sys := Apply(System(st, {}), first);
            Run(System(st, {}), Alone(st, j)) == Apply(sys, NextEvent(Advance(st, j)).value)
  {
    var sys := System(st, {});
    var first, later := NextEvent(j).value, Advance(st, j);
    var second := NextEvent(later).value;
    assert [j][0 := later] == [later];
    assert Interleaving(Apply(sys, first), [later], [0]) == [second];
    assert Alone(st, j) == [first] + [second] by {
      assert [0, 0][1..] == [0];
    }
    TailOfCons(first, [second]);
    assert [second][1..] == [];
    assert Run(Apply(sys, first), [second]) == Apply(Apply(sys, first), second);
  }

  // ---------- Account keys ----------

  function AccountKey(mac: Text, console: Text): Text {
    mac + [BAR] + console
  }

  /** Keys do not determine the address and the console number, unless addresses contain no bar. */
  lemma AccountKeysCanCollide()
    ensures AccountKey([BAR], []) == AccountKey([], [BAR])
  {
  }

  /** A key has a bar between its two parts. */
  lemma BarAt(mac: Text, console: Text)
    ensures var key := AccountKey(mac, console);
            key[|mac|] == BAR && key[..|mac|] == mac && key[|mac| + 1..] == console
  {
    var key := AccountKey(mac, console);
    assert key[..|mac|] == mac;
    assert key[|mac| + 1..] == console;
  }

  lemma LaterBar(mac: Text, console: Text, m: Text, c: Text)
    requires AccountKey(m, c) == AccountKey(mac, console)
    ensures |m| < |mac| ==> mac[|m|] == BAR
    ensures |m| > |mac| ==> console[|m| - |mac| - 1] == BAR
    ensures |m| == |mac| ==> m == mac && c == console
  {
    BarAt(mac, console);
    BarAt(m, c);
  }

  /** Among addresses without bars, keys determine the address and the console number, whatever that contains. */
  lemma AccountKeysOfPlainAddresses(mac: Text, console: Text, mac': Text, console': Text)
    requires BAR !in mac && BAR !in mac'
    ensures AccountKey(mac, console) == AccountKey(mac', console') <==> mac == mac' && console == console'
  {
    if AccountKey(mac, console) == AccountKey(mac', console') {
      LaterBar(mac, console, mac', console');
      LaterBar(mac', console', mac, console);
    }
  }

  /** A bar in either part shifts into the other. */
  lemma BarShifts(mac: Text, console: Text) returns (m: Text, c: Text)
    requires BAR in mac || BAR in console
    ensures AccountKey(m, c) == AccountKey(mac, console) && |m| != |mac|
  {
    if BAR in mac {
      var i :| 0 <= i < |mac| && mac[i] == BAR;
      m, c := mac[..i], mac[i + 1..] + [BAR] + console;
    } else {
      var i :| 0 <= i < |console| && console[i] == BAR;
      m, c := mac + [BAR] + console[..i], console[i + 1..];
    }
  }

  /** The key of an address and a console number is nobody else's exactly when neither contains a bar. */
  lemma AccountKeyIsUnambiguous(mac: Text, console: Text)
    ensures (forall m: Text, c: Text :: AccountKey(m, c) == AccountKey(mac, console) ==> m == mac && c == console)
            <==> BAR !in mac && BAR !in console
  {
    if BAR in mac || BAR in console {
      var m, c := BarShifts(mac, console);
      assert AccountKey(m, c) == AccountKey(mac, console);
    } else {
      forall m: Text, c: Text | AccountKey(m, c) == AccountKey(mac, console) ensures m == mac && c == console {
        LaterBar(mac, console, m, c);
      }
    }
  }

  // ---------- The tables in memory ----------

  class Tables {
    var accountUserIds: map<Text, Text>
    var userProfileIds: map<Text, Text>
    var nextUserId: nat
    var nextProfileId: nat
    var loginSessions: map<Text, Login>

    ghost function Contents(): State
      reads this
    {
      State(accountUserIds, userProfileIds, nextUserId, nextProfileId, loginSessions)
    }

    constructor ()
      ensures Contents() == INITIAL
    {
      accountUserIds, userProfileIds, loginSessions := map[], map[], map[];
      nextUserId, nextProfileId := FIRST_USER, FIRST_PROFILE;
    }

    method UserIdForAccount(key: Text) returns (userId: Text)
      modifies this
      ensures (Contents(), userId) == UserFor(old(Contents()), key)
    {
      if key in accountUserIds {
        return accountUserIds[key];
      }
      userId := Decimal(nextUserId);
      nextUserId := (nextUserId + 1) % U64;
      accountUserIds := accountUserIds[key := userId];
    }

    method ProfileIdForUser(userId: Text) returns (profileId: Text)
      modifies this
      ensures (Contents(), profileId) == ProfileFor(old(Contents()), userId)
    {
      if userId in userProfileIds {
        return userProfileIds[userId];
      }
      profileId := Decimal(nextProfileId);
      nextProfileId := (nextProfileId + 1) % U64;
      userProfileIds := userProfileIds[userId := profileId];
    }

    method StoreLoginSession(userId: Text, session: Login)
      modifies this
      ensures Contents() == WithLogin(old(Contents()), userId, session)
    {
      loginSessions := loginSessions[userId := session];
    }

    /** Creates the account of a key and the profile of its user. */
    method CreateAccountFor(key: Text) returns (userId: Text)
      modifies this
      ensures Contents() == Run(System(old(Contents()), {}), Alone(old(Contents()), CreateAccount(key))).st
      ensures key in accountUserIds && accountUserIds[key] == userId && userId in userProfileIds
    {
      AloneTakesTwoSteps(Contents(), CreateAccount(key));
      userId := UserIdForAccount(key);
      var _ := ProfileIdForUser(userId);
    }

    /** Logs a user in under the profile id that it has or is given. */
    method LogInUser(userId: Text, challenge: Text, token: Text, requestBody: Text) returns (session: Login)
      modifies this
      ensures Contents() == Run(System(old(Contents()), {}),
                                Alone(old(Contents()), LogIn(userId, challenge, token, requestBody))).st
      ensures userId in loginSessions && loginSessions[userId] == session
      ensures userId in userProfileIds && session == Login(challenge, token, requestBody, userProfileIds[userId])
    {
      AloneTakesTwoSteps(Contents(), LogIn(userId, challenge, token, requestBody));
      var profileId := ProfileIdForUser(userId);
      session := Login(challenge, token, requestBody, profileId);
      StoreLoginSession(userId, session);
    }

    /** The first login session with the token, in whatever order the table is walked. */
    method CredentialsForToken(token: Text) returns (c: Credentials)
      ensures IsCredentials(Contents(), token, c)
    {
      var unvisited := loginSessions.Keys;
      while unvisited != {}
        invariant unvisited <= loginSessions.Keys
        invariant forall u :: u in loginSessions && u !in unvisited ==> loginSessions[u].token != token
        decreases unvisited
      {
        var userId :| userId in unvisited;
        var session := loginSessions[userId];
        if session.token == token {
          return Credentials(session.challenge, session.token, userId, session.profileId);
        }
        unvisited := unvisited - {userId};
      }
      c := NO_CREDENTIALS;
    }
  }
}
