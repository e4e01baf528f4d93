/**
 The sandbox pool of internal/pool/manager.go as a step machine: any number of
 threads inside `Allocate`, `AllocateWarm`, `Release`, `Heartbeat` and `RunGC`,
 in any order. A step is one access to what they share: a cache operation, a
 field of an allocation, a call of the provider. `p.mu` is held by `claimIdle`
 from its choice of an entry to its `Set`, by the capacity check and by the write
 of a heartbeat; `Release` and `RunGC` never take it.
 */
module PoolMachine {
  import opened Common
  import opened PoolTypes

  type Thread = nat

  /** The fields of an allocation; all threads share the object. */
  datatype Entry = Entry(host: bytes, session: Session, status: Status, lastActivity: int)

  /** Where a busy thread stands inside a pool operation. */
  datatype Pc =
    | Picked(name: Name)                            // claimIdle: has picked an idle entry
    | Opened(name: Name)                            // has written its status
    | Named(name: Name)                             // its user and session
    | Stamped(name: Name)                           // and its last activity
    | Creating(warm: bool)                          // passed the capacity check
    | Created(warm: bool, name: Name, host: bytes)  // the sandbox exists, the cache does not know it
    | Seen(name: Name)                              // RunGC read a status that is neither idle nor releasing
    | Doomed(name: Name)                            // Release was called
    | Found(name: Name)                             // and looked the entry up
    | Marked(name: Name)                            // and marked it
    | Deleted(name: Name)                           // and the provider deleted it
    | Beating(name: Name)                           // Heartbeat looked the entry up

  datatype Grant = Grant(session: Session, host: bytes)

  datatype State = State(
    objects: map<Name, Entry>,       // every allocation ever cached; an object outlives its place in the cache
    byName: set<Name>,               // the names the cache holds
    bySession: map<Session, Name>,
    live: set<Name>,                 // sandboxes the provider runs
    mu: Option<Thread>,              // the thread inside claimIdle
    pcs: map<Thread, Pc>,            // threads inside an operation
    madeBy: map<Name, Thread>,       // history: who created each name the provider ever returned
    owner: map<Name, Grant>,         // history: the session and host each sandbox was handed out with
    issued: map<Session, Name>,      // history: every session ever issued, and for which sandbox
    revived: set<Name>)              // history: names a claim put back after a release had dropped them

  const INIT := State(map[], {}, map[], {}, None, map[], map[], map[], map[], {})

  datatype Action =
    | PickIdle(t: Thread, name: Name)
    | WriteStatus(t: Thread)
    | WriteSession(t: Thread, session: Session)
    | WriteActivity(t: Thread, now: int)
    | SetClaimed(t: Thread)
    | PassCheck(t: Thread, warm: bool)
    | Create(t: Thread, name: Name, host: bytes)
    | CreateFails(t: Thread)
    | SetActive(t: Thread, session: Session, now: int)
    | SetWarm(t: Thread, now: int)
    | GcSees(t: Thread, name: Name)
    | GcSpares(t: Thread, cutoff: int)
    | GcExpires(t: Thread, cutoff: int)
    | Call(t: Thread, name: Name)
    | Find(t: Thread)
    | Mark(t: Thread)
    | Delete(t: Thread)
    | DeleteFails(t: Thread)
    | Drop(t: Thread)
    | BeatFinds(t: Thread, session: Session)
    | BeatWrites(t: Thread, now: int)

  predicate Fresh(s: State, session: Session) { session != [] && session !in s.issued }

  /**
   Fresh names and sessions are the provider's and uuid's promise; besides RunGC,
   Release is called for sandboxes that have been handed out.
   */
  predicate Enabled(max: int, s: State, a: Action) {
    match a
    case PickIdle(t, n) => t !in s.pcs && s.mu.None? && n in s.byName && n in s.objects && s.objects[n].status.Idle?
    case WriteStatus(t) => t in s.pcs && s.pcs[t].Picked? && s.pcs[t].name in s.objects
    case WriteSession(t, session) => t in s.pcs && s.pcs[t].Opened? && s.pcs[t].name in s.objects && Fresh(s, session)
    case WriteActivity(t, _) => t in s.pcs && s.pcs[t].Named? && s.pcs[t].name in s.objects
    case SetClaimed(t) => t in s.pcs && s.pcs[t].Stamped? && s.pcs[t].name in s.objects
    case PassCheck(t, _) => t !in s.pcs && s.mu.None? && |s.byName| < max
    case Create(t, n, _) => t in s.pcs && s.pcs[t].Creating? && n !in s.madeBy
    case CreateFails(t) => t in s.pcs && s.pcs[t].Creating?
    case SetActive(t, session, _) => t in s.pcs && s.pcs[t].Created? && !s.pcs[t].warm && Fresh(s, session)
    case SetWarm(t, _) => t in s.pcs && s.pcs[t].Created? && s.pcs[t].warm
    case GcSees(t, n) => t !in s.pcs && n in s.objects && s.objects[n].status.Active?
    case GcSpares(t, cutoff) =>
      t in s.pcs && s.pcs[t].Seen? && s.pcs[t].name in s.objects && s.objects[s.pcs[t].name].lastActivity >= cutoff
    case GcExpires(t, cutoff) =>
      t in s.pcs && s.pcs[t].Seen? && s.pcs[t].name in s.objects && s.objects[s.pcs[t].name].lastActivity < cutoff
    case Call(t, n) => t !in s.pcs && n in s.owner
    case Find(t) => t in s.pcs && s.pcs[t].Doomed?
    case Mark(t) => t in s.pcs && s.pcs[t].Found? && s.pcs[t].name in s.objects
    case Delete(t) => t in s.pcs && s.pcs[t].Marked?
    case DeleteFails(t) => t in s.pcs && s.pcs[t].Marked?
    case Drop(t) => t in s.pcs && s.pcs[t].Deleted? && s.pcs[t].name in s.objects
    case BeatFinds(t, session) => t !in s.pcs && session in s.bySession
    case BeatWrites(t, _) => t in s.pcs && s.pcs[t].Beating? && s.mu.None? && s.pcs[t].name in s.objects
  }

  /** Thread `t` goes on to `pc`. */
  function At(s: State, t: Thread, pc: Pc): State { s.(pcs := s.pcs[t := pc]) }

  /** Thread `t` leaves its operation. */
  function Done(s: State, t: Thread): State { s.(pcs := s.pcs - {t}) }

  /** cache.Set of a new object or of one the thread holds: by name and, when it has a session, by session. */
  function CacheSet(s: State, n: Name, e: Entry): State {
    s.(objects := s.objects[n := e], byName := s.byName + {n},
       bySession := if e.session == [] then s.bySession else s.bySession[e.session := n])
  }

  /** cache.Delete: both indexes, through the session the object has now. */
  function CacheDelete(s: State, n: Name): State
    requires n in s.objects
  {
    if n !in s.byName then s
    else s.(byName := s.byName - {n}, bySession := s.bySession - {s.objects[n].session}, revived := s.revived - {n})
  }

  /** What `t` hands out. */
  function Hand(s: State, n: Name, session: Session, host: bytes): State {
    s.(owner := s.owner[n := Grant(session, host)])
  }

  function Next(max: int, s: State, a: Action): State
    requires Enabled(max, s, a)
  {
    match a
    case PickIdle(t, n) => At(s, t, Picked(n)).(mu := Some(t))
    case WriteStatus(t) =>
      var n := s.pcs[t].name;
      At(s, t, Opened(n)).(objects := s.objects[n := s.objects[n].(status := Active)])
    case WriteSession(t, session) =>
      var n := s.pcs[t].name;
      At(s, t, Named(n)).(objects := s.objects[n := s.objects[n].(session := session)], issued := s.issued[session := n])
    case WriteActivity(t, now) =>
      var n := s.pcs[t].name;
      At(s, t, Stamped(n)).(objects := s.objects[n := s.objects[n].(lastActivity := now)])
    case SetClaimed(t) =>
      var n := s.pcs[t].name;
      var e := s.objects[n];
      Done(Hand(CacheSet(s, n, e), n, e.session, e.host), t)
      .(mu := None, revived := if n in s.byName then s.revived else s.revived + {n})
    case PassCheck(t, warm) => At(s, t, Creating(warm))
    case Create(t, n, host) =>
      At(s, t, Created(s.pcs[t].warm, n, host)).(live := s.live + {n}, madeBy := s.madeBy[n := t])
    case CreateFails(t) => Done(s, t)
    case SetActive(t, session, now) =>
      var pc := s.pcs[t];
      Done(Hand(CacheSet(s, pc.name, Entry(pc.host, session, Active, now)), pc.name, session, pc.host), t)
      .(issued := s.issued[session := pc.name])
    case SetWarm(t, now) => Done(CacheSet(s, s.pcs[t].name, Entry(s.pcs[t].host, [], Idle, now)), t)
    case GcSees(t, n) => At(s, t, Seen(n))
    case GcSpares(t, _) => Done(s, t)
    case GcExpires(t, _) => At(s, t, Doomed(s.pcs[t].name))
    case Call(t, n) => At(s, t, Doomed(n))
    case Find(t) => if s.pcs[t].name in s.byName then At(s, t, Found(s.pcs[t].name)) else Done(s, t)
    case Mark(t) =>
      var n := s.pcs[t].name;
      At(s, t, Marked(n)).(objects := s.objects[n := s.objects[n].(status := Releasing)])
    case Delete(t) => At(s, t, Deleted(s.pcs[t].name)).(live := s.live - {s.pcs[t].name})
    case DeleteFails(t) => Done(s, t)
    case Drop(t) => Done(CacheDelete(s, s.pcs[t].name), t)
    case BeatFinds(t, session) => At(s, t, Beating(s.bySession[session]))
    case BeatWrites(t, now) =>
      var n := s.pcs[t].name;
      Done(s, t).(objects := s.objects[n := s.objects[n].(lastActivity := now)])
  }

  // ---- runs ----

  /** The state a run leads to from the empty pool, or None when some action was not enabled. */
  function After(max: int, run: seq<Action>): Option<State> {
    if run == [] then Some(INIT)
    else match After(max, run[..|run| - 1])
      case None => None
      case Some(s) => if Enabled(max, s, run[|run| - 1]) then Some(Next(max, s, run[|run| - 1])) else None
  }

  predicate Legal(max: int, run: seq<Action>) { After(max, run).Some? }

  lemma LegalSnoc(max: int, run: seq<Action>, a: Action)
    requires Legal(max, run) && Enabled(max, After(max, run).value, a)
    ensures After(max, run + [a]) == Some(Next(max, After(max, run).value, a))
  {
    assert (run + [a])[..|run|] == run;
  }

  lemma {:induction false} LegalPrefix(max: int, run: seq<Action>, i: nat)
    requires Legal(max, run) && i <= |run|
    ensures Legal(max, run[..i])
    decreases |run|
  {
    if i == |run| {
      assert run[..i] == run;
    } else {
      LegalPrefix(max, run[..|run| - 1], i);
      assert run[..|run| - 1][..i] == run[..i];
    }
  }

  /** The state before the `i`-th action. */
  function StateAt(max: int, run: seq<Action>, i: nat): State
    requires i <= |run| && Legal(max, run)
  {
    LegalPrefix(max, run, i);
    After(max, run[..i]).value
  }

  /** One action of a run. */
  lemma StateStep(max: int, run: seq<Action>, i: nat)
    requires i < |run| && Legal(max, run)
    ensures Enabled(max, StateAt(max, run, i), run[i])
    ensures StateAt(max, run, i + 1) == Next(max, StateAt(max, run, i), run[i])
  {
    LegalPrefix(max, run, i + 1);
    assert run[..i + 1][..i] == run[..i];
  }

  lemma StateEnds(max: int, run: seq<Action>)
    requires Legal(max, run)
    ensures StateAt(max, run, 0) == INIT && StateAt(max, run, |run|) == After(max, run).value
  {
    assert run[..|run|] == run && run[..0] == [];
  }

  // ---- the invariant ----

  /** The entry `pc` is in the middle of claiming, once its status is written. */
  predicate Claims(pc: Pc, n: Name) { (pc.Opened? || pc.Named? || pc.Stamped?) && pc.name == n }

  /** Some thread is between the status write and the `Set` of `n`. */
  predicate MidClaim(s: State, n: Name) { s.mu.Some? && s.mu.value in s.pcs && Claims(s.pcs[s.mu.value], n) }

  /** Which names an operation in flight may hold, and what it knows of them. */
  predicate ThreadInv(s: State, t: Thread, pc: Pc) {
    match pc
    case Picked(n) => s.mu == Some(t) && n in s.objects && s.objects[n].status.Idle? && n in s.byName
    case Opened(n) => s.mu == Some(t) && InUse(s, n) && n !in s.owner && s.objects[n].session == []
    case Named(n) => s.mu == Some(t) && InUse(s, n) && n !in s.owner && Assigned(s, n) && s.objects[n].session !in s.bySession
    case Stamped(n) => s.mu == Some(t) && InUse(s, n) && n !in s.owner && Assigned(s, n) && s.objects[n].session !in s.bySession
    case Creating(_) => true
    case Created(_, n, _) => n in s.madeBy && s.madeBy[n] == t && n in s.live && n !in s.objects && n !in s.owner
    case Seen(n) => InUse(s, n)
    case Doomed(n) => InUse(s, n)
    case Found(n) => InUse(s, n)
    case Marked(n) => InUse(s, n) && s.objects[n].status.Releasing?
    case Deleted(n) => InUse(s, n) && s.objects[n].status.Releasing? && n !in s.live
    case Beating(n) => n in s.objects
  }

  predicate InUse(s: State, n: Name) { n in s.objects && !s.objects[n].status.Idle? }

  predicate Assigned(s: State, n: Name) {
    n in s.objects && s.objects[n].session != [] && s.objects[n].session in s.issued && s.issued[s.objects[n].session] == n
  }

  /** An entry is idle until it is claimed, and from its grant on keeps its session and host. */
  predicate EntryInv(s: State, n: Name, e: Entry) {
    && n in s.madeBy
    && (e.status.Idle? ==> e.session == [] && n !in s.owner && n in s.byName)
    && (n in s.owner ==> Grant(e.session, e.host) == s.owner[n] && e.session != [])
    && (n !in s.owner && !e.status.Idle? ==> MidClaim(s, n))
    && (e.session != [] ==> Assigned(s, n))
    && (n in s.byName && e.session != [] && !MidClaim(s, n) ==> e.session in s.bySession && s.bySession[e.session] == n)
  }

  predicate IndexInv(s: State, k: Session, n: Name) {
    k != [] && k in s.issued && s.issued[k] == n && n in s.byName && n in s.objects && s.objects[n].session == k
  }

  /** The thread that made `n` has not put it into the cache yet. */
  predicate HeldByCreate(s: State, n: Name) {
    n in s.madeBy && s.madeBy[n] in s.pcs && s.pcs[s.madeBy[n]].Created? && s.pcs[s.madeBy[n]].name == n
  }

  predicate SandboxInv(s: State, n: Name) {
    && (n in s.live ==> n in s.madeBy && (n in s.byName || HeldByCreate(s, n)))
    && (n in s.live && n in s.objects ==> n in s.byName)
    && (n in s.byName ==> n in s.objects)
    && (n in s.owner ==> n in s.objects)
    && (n in s.revived ==> n in s.byName && n !in s.live)
  }

  /** The invariant at one thread, one name and one session. */
  predicate Around(s: State, t: Thread, n: Name, k: Session) {
    && (t in s.pcs ==> ThreadInv(s, t, s.pcs[t]))
    && (n in s.objects ==> EntryInv(s, n, s.objects[n]))
    && (k in s.bySession ==> IndexInv(s, k, s.bySession[k]))
    && SandboxInv(s, n)
  }

  ghost predicate Inv(s: State) { forall t, n, k :: Around(s, t, n, k) }

  // ---- every action keeps it ----

  /** The sandbox an action is about. */
  function Subject(s: State, a: Action): Option<Name> {
    if a.PickIdle? || a.Create? || a.GcSees? || a.Call? then Some(a.name)
    else if a.PassCheck? then None
    else if a.BeatFinds? then if a.session in s.bySession then Some(s.bySession[a.session]) else None
    else if a.t in s.pcs && !s.pcs[a.t].Creating? then Some(s.pcs[a.t].name)
    else None
  }

  /** What the invariant says about the acting thread, the sandbox and the session it acts on. */
  predicate Acting(s: State, a: Action) {
    && (a.t in s.pcs ==> ThreadInv(s, a.t, s.pcs[a.t]))
    && (var n := Subject(s, a); n.Some? ==> SandboxInv(s, n.value) && (n.value in s.objects ==> EntryInv(s, n.value, s.objects[n.value])))
    && (a.WriteSession? || a.SetActive? || a.BeatFinds? ==> a.session in s.bySession ==> IndexInv(s, a.session, s.bySession[a.session]))
  }

  /** Steps of a thread that holds neither the lock nor an uncached sandbox. */
  predicate Loose(pc: Pc) { !pc.Picked? && !pc.Opened? && !pc.Named? && !pc.Stamped? && !pc.Created? }

  lemma MoveKeeps(s: State, t0: Thread, pc: Pc, t: Thread, n: Name, k: Session)
    requires Around(s, t, n, k) && (t0 in s.pcs ==> Loose(s.pcs[t0])) && Loose(pc) && ThreadInv(s, t0, pc)
    ensures Around(At(s, t0, pc), t, n, k)
  {
  }

  lemma LeaveKeeps(s: State, t0: Thread, t: Thread, n: Name, k: Session)
    requires Around(s, t, n, k) && t0 in s.pcs && Loose(s.pcs[t0])
    ensures Around(Done(s, t0), t, n, k)
  {
  }

  lemma ThreadOnlyKeeps(max: int, s: State, a: Action, t: Thread, n: Name, k: Session)
    requires Enabled(max, s, a) && Acting(s, a) && Around(s, t, n, k)
    requires a.PassCheck? || a.CreateFails? || a.GcSees? || a.GcSpares? || a.GcExpires? || a.Call? || a.Find? || a.DeleteFails?
             || a.BeatFinds?
    ensures Around(Next(max, s, a), t, n, k)
  {
    hide Around, EntryInv, SandboxInv;
    match a {
      case PassCheck(u, warm) => MoveKeeps(s, u, Creating(warm), t, n, k);
      case GcSees(u, m) => MoveKeeps(s, u, Seen(m), t, n, k);
      case GcExpires(u, _) => MoveKeeps(s, u, Doomed(s.pcs[u].name), t, n, k);
      case Call(u, m) => CallKeeps(max, s, a, t, n, k);
      case Find(u) =>
        if s.pcs[u].name in s.byName {
          MoveKeeps(s, u, Found(s.pcs[u].name), t, n, k);
        } else {
          LeaveKeeps(s, u, t, n, k);
        }
      case BeatFinds(u, session) => MoveKeeps(s, u, Beating(s.bySession[session]), t, n, k);
      case _ => LeaveKeeps(s, a.t, t, n, k);
    }
  }

  lemma CallKeeps(max: int, s: State, a: Action, t: Thread, n: Name, k: Session)
    requires Enabled(max, s, a) && Acting(s, a) && Around(s, t, n, k) && a.Call?
    ensures Around(Next(max, s, a), t, n, k)
  {
    assert InUse(s, a.name);
    hide Around, EntryInv, SandboxInv, Acting;
    MoveKeeps(s, a.t, Doomed(a.name), t, n, k);
  }

  lemma PickKeeps(max: int, s: State, a: Action, t: Thread, n: Name, k: Session)
    requires Enabled(max, s, a) && Acting(s, a) && Around(s, t, n, k)
    requires a.PickIdle?
    ensures Around(Next(max, s, a), t, n, k)
  {
  }

  lemma CreateKeeps(max: int, s: State, a: Action, t: Thread, n: Name, k: Session)
    requires Enabled(max, s, a) && Acting(s, a) && Around(s, t, n, k)
    requires a.Create?
    ensures Around(Next(max, s, a), t, n, k)
  {
  }

  lemma GoneKeeps(s: State, m: Name, t: Thread, n: Name, k: Session)
    requires Around(s, t, n, k) && m in s.objects && !(t in s.pcs && s.pcs[t].Created? && s.pcs[t].name == m)
    ensures Around(s.(live := s.live - {m}), t, n, k)
  {
  }

  lemma DeleteKeeps(max: int, s: State, a: Action, t: Thread, n: Name, k: Session)
    requires Enabled(max, s, a) && Acting(s, a) && Around(s, t, n, k)
    requires a.Delete?
    ensures Around(Next(max, s, a), t, n, k)
  {
    var m := s.pcs[a.t].name;
    GoneKeeps(s, m, t, n, k);
    hide Around, EntryInv, SandboxInv;
    MoveKeeps(s.(live := s.live - {m}), a.t, Deleted(m), t, n, k);
  }

  lemma StatusKeeps(max: int, s: State, a: Action, t: Thread, n: Name, k: Session)
    requires Enabled(max, s, a) && Acting(s, a) && Around(s, t, n, k)
    requires a.WriteStatus? || a.Mark?
    ensures Around(Next(max, s, a), t, n, k)
  {
  }

  lemma SessionKeeps(max: int, s: State, a: Action, t: Thread, n: Name, k: Session)
    requires Enabled(max, s, a) && Acting(s, a) && Around(s, t, n, k)
    requires a.WriteSession?
    ensures Around(Next(max, s, a), t, n, k)
  {
  }

  lemma ActivityKeeps(max: int, s: State, a: Action, t: Thread, n: Name, k: Session)
    requires Enabled(max, s, a) && Acting(s, a) && Around(s, t, n, k)
    requires a.WriteActivity? || a.BeatWrites?
    ensures Around(Next(max, s, a), t, n, k)
  {
  }

  lemma SetClaimedKeeps(max: int, s: State, a: Action, t: Thread, n: Name, k: Session)
    requires Enabled(max, s, a) && Acting(s, a) && Around(s, t, n, k)
    requires a.SetClaimed?
    ensures Around(Next(max, s, a), t, n, k)
  {
  }

  lemma SetActiveKeeps(max: int, s: State, a: Action, t: Thread, n: Name, k: Session)
    requires Enabled(max, s, a) && Acting(s, a) && Around(s, t, n, k)
    requires a.SetActive?
    ensures Around(Next(max, s, a), t, n, k)
  {
  }

  lemma SetWarmKeeps(max: int, s: State, a: Action, t: Thread, n: Name, k: Session)
    requires Enabled(max, s, a) && Acting(s, a) && Around(s, t, n, k)
    requires a.SetWarm?
    ensures Around(Next(max, s, a), t, n, k)
  {
  }

  lemma CacheDeleteKeeps(s: State, m: Name, t: Thread, n: Name, k: Session)
    requires Around(s, t, n, k) && m in s.objects && s.objects[m].status.Releasing? && m !in s.live && EntryInv(s, m, s.objects[m])
    ensures Around(CacheDelete(s, m), t, n, k)
  {
  }

  lemma DropKeeps(max: int, s: State, a: Action, t: Thread, n: Name, k: Session)
    requires Enabled(max, s, a) && Acting(s, a) && Around(s, t, n, k)
    requires a.Drop?
    ensures Around(Next(max, s, a), t, n, k)
  {
    var m := s.pcs[a.t].name;
    CacheDeleteKeeps(s, m, t, n, k);
    hide Around, EntryInv, SandboxInv;
    LeaveKeeps(CacheDelete(s, m), a.t, t, n, k);
  }

  lemma Step(max: int, s: State, a: Action)
    requires Inv(s) && Enabled(max, s, a)
    ensures Inv(Next(max, s, a))
  {
    hide Around;
    forall t, n, k ensures Around(Next(max, s, a), t, n, k) {
      StepAround(max, s, a, t, n, k);
    }
  }

  lemma StepAround(max: int, s: State, a: Action, t: Thread, n: Name, k: Session)
    requires Inv(s) && Enabled(max, s, a)
    ensures Around(Next(max, s, a), t, n, k)
  {
    assert Around(s, t, n, k);
    ActingFromInv(max, s, a);
    hide Around, Acting, Next, Enabled;
    match a {
      case PickIdle(_, _) => PickKeeps(max, s, a, t, n, k);
      case WriteStatus(_) => StatusKeeps(max, s, a, t, n, k);
      case WriteSession(_, _) => SessionKeeps(max, s, a, t, n, k);
      case WriteActivity(_, _) => ActivityKeeps(max, s, a, t, n, k);
      case SetClaimed(_) => SetClaimedKeeps(max, s, a, t, n, k);
      case SetActive(_, _, _) => SetActiveKeeps(max, s, a, t, n, k);
      case SetWarm(_, _) => SetWarmKeeps(max, s, a, t, n, k);
      case Mark(_) => StatusKeeps(max, s, a, t, n, k);
      case Drop(_) => DropKeeps(max, s, a, t, n, k);
      case BeatWrites(_, _) => ActivityKeeps(max, s, a, t, n, k);
      case Create(_, _, _) => CreateKeeps(max, s, a, t, n, k);
      case Delete(_) => DeleteKeeps(max, s, a, t, n, k);
      case _ => ThreadOnlyKeeps(max, s, a, t, n, k);
    }
  }

  lemma ActingFromInv(max: int, s: State, a: Action)
    requires Inv(s) && Enabled(max, s, a)
    ensures Acting(s, a)
  {
    var n := if Subject(s, a).Some? then Subject(s, a).value else [];
    var k := if a.WriteSession? || a.SetActive? || a.BeatFinds? then a.session else [];
    assert Around(s, a.t, n, k);
  }

  /** The invariant holds in every state any run reaches. */
  lemma {:induction false} Reachable(max: int, run: seq<Action>)
    requires Legal(max, run)
    ensures Inv(After(max, run).value)
    decreases |run|
  {
    if run != [] {
      Reachable(max, run[..|run| - 1]);
      Step(max, After(max, run[..|run| - 1]).value, run[|run| - 1]);
    }
  }

  lemma ReachableAt(max: int, run: seq<Action>, i: nat)
    requires Legal(max, run) && i <= |run|
    ensures Inv(StateAt(max, run, i))
  {
    LegalPrefix(max, run, i);
    Reachable(max, run[..i]);
  }

  /** All program counters but one are untouched. */
  lemma OtherThread(max: int, s: State, a: Action, t: Thread)
    requires Enabled(max, s, a) && t != a.t
    ensures t in s.pcs <==> t in Next(max, s, a).pcs
    ensures t in s.pcs ==> Next(max, s, a).pcs[t] == s.pcs[t]
  {
    match a {
      case PickIdle(_, _) =>
      case WriteStatus(_) =>
      case SetClaimed(_) =>
      case Drop(_) =>
      case _ =>
    }
  }
}
