/**
 The two models of the pool agree: a call of Allocate, AllocateWarm, Release,
 Heartbeat or RunGC as `PoolManager` specifies it is an uninterrupted run of the
 steps of `PoolMachine`, with the same table, session index and live sandboxes.
 */
module PoolAgreement {
  import opened Common
  import opened PoolTypes
  import Cache = AllocationCaches
  import Manager = PoolManagers
  import opened PoolMachine

  type View = Cache.View

  function Row(v: View): Entry { Entry(v.host, v.session, v.status, v.lastActivity) }

  /** The machine's state shows a table: its rows, an exact session index, and a live sandbox for each row. */
  ghost predicate Shows(s: State, t: map<Name, View>) {
    && s.byName == t.Keys && s.live == t.Keys
    && (forall n :: n in t ==> n in s.objects && s.objects[n] == Row(t[n]))
    && Cache.Exact(t, s.bySession)
  }

  lemma EmptyShows()
    ensures Shows(INIT, map[])
  {
  }

  /** There is only one exact index, so the machine's is the one of the cache. */
  lemma IndexesAgree(s: State, t: map<Name, View>, index: map<Session, Name>)
    requires Shows(s, t) && Cache.Exact(t, index)
    ensures s.bySession == index
  {
    assert forall k :: k in index ==> t[index[k]].session == k && k in s.bySession && s.bySession[k] == index[k];
    assert forall k :: k in s.bySession ==> t[s.bySession[k]].session == k && k in index;
  }

  /** The state after some more actions, if they are enabled one after the other. */
  function Continue(max: int, s: State, actions: seq<Action>): Option<State>
    decreases |actions|
  {
    if actions == [] then Some(s)
    else match Continue(max, s, actions[..|actions| - 1])
      case None => None
      case Some(s') => if Enabled(max, s', actions[|actions| - 1]) then Some(Next(max, s', actions[|actions| - 1])) else None
  }

  lemma Go(max: int, s: State, actions: seq<Action>, s': State, a: Action)
    requires Continue(max, s, actions) == Some(s') && Enabled(max, s', a)
    ensures Continue(max, s, actions + [a]) == Some(Next(max, s', a))
  {
    hide Enabled, Next;
    assert (actions + [a])[..|actions|] == actions;
  }

  lemma {:induction false} GoOn(max: int, s: State, first: seq<Action>, s': State, more: seq<Action>)
    requires Continue(max, s, first) == Some(s')
    ensures Continue(max, s, first + more) == Continue(max, s', more)
    decreases |more|
  {
    hide Enabled, Next;
    if more == [] {
      assert first + more == first;
    } else {
      GoOn(max, s, first, s', more[..|more| - 1]);
      assert (first + more)[..|first + more| - 1] == first + more[..|more| - 1];
    }
  }

  /** `steps` is a whole operation of thread `th` that leads to the table `t`. */
  ghost predicate Leads(max: int, s: State, th: Thread, steps: seq<Action>, t: map<Name, View>) {
    var end := Continue(max, s, steps);
    end.Some? && Ready(end.value, th) && Shows(end.value, t)
  }

  /** Thread `th` is in no operation and nobody is inside claimIdle. */
  predicate Ready(s: State, th: Thread) { th !in s.pcs && s.mu.None? }

  // ---- one row changes ----

  lemma ShowsSet(s: State, t: map<Name, View>, s': State, n: Name, v: View)
    requires Shows(s, t) && n in s.live + s'.live
    requires s'.byName == s.byName + {n} && s'.live == s.live + {n} && s'.objects == s.objects[n := Row(v)]
    requires s'.bySession == if v.session == [] then s.bySession else s.bySession[v.session := n]
    requires n in t ==> t[n].session == [] || t[n].session == v.session
    requires v.session in s.bySession ==> s.bySession[v.session] == n
    ensures Shows(s', t[n := v])
  {
    Cache.SetExactIff(t, s.bySession, n, v);
  }

  lemma ShowsDelete(s: State, t: map<Name, View>, s': State, n: Name)
    requires Shows(s, t) && n in t && s'.byName == s.byName - {n} && s'.live == s.live - {n}
    requires forall m :: m in t && m != n ==> m in s'.objects && s'.objects[m] == s.objects[m]
    requires s'.bySession == s.bySession - {t[n].session}
    ensures Shows(s', t - {n})
  {
    Cache.DeleteExact(t, s.bySession, n);
    assert t[n].session == [] ==> s.bySession - {t[n].session} == s.bySession;
  }

  // ---- single steps, with what they do written out ----

  lemma PickStep(max: int, s: State, th: Thread, n: Name)
    requires Ready(s, th) && n in s.byName && n in s.objects && s.objects[n].status.Idle?
    ensures Enabled(max, s, PickIdle(th, n)) && Next(max, s, PickIdle(th, n)) == At(s, th, Picked(n)).(mu := Some(th))
  {
  }

  lemma StatusStep(max: int, s: State, th: Thread, n: Name)
    requires th in s.pcs && s.pcs[th] == Picked(n) && n in s.objects
    ensures Enabled(max, s, WriteStatus(th))
    ensures Next(max, s, WriteStatus(th)) == At(s, th, Opened(n)).(objects := s.objects[n := s.objects[n].(status := Active)])
  {
  }

  lemma SessionStep(max: int, s: State, th: Thread, n: Name, session: Session)
    requires th in s.pcs && s.pcs[th] == Opened(n) && n in s.objects && Fresh(s, session)
    ensures Enabled(max, s, WriteSession(th, session))
    ensures Next(max, s, WriteSession(th, session))
         == At(s, th, Named(n)).(objects := s.objects[n := s.objects[n].(session := session)], issued := s.issued[session := n])
  {
  }

  lemma ActivityStep(max: int, s: State, th: Thread, n: Name, now: int)
    requires th in s.pcs && s.pcs[th] == Named(n) && n in s.objects
    ensures Enabled(max, s, WriteActivity(th, now))
    ensures Next(max, s, WriteActivity(th, now)) == At(s, th, Stamped(n)).(objects := s.objects[n := s.objects[n].(lastActivity := now)])
  {
  }

  lemma SetStep(max: int, s: State, th: Thread, n: Name)
    requires th in s.pcs && s.pcs[th] == Stamped(n) && n in s.objects && s.objects[n].session != []
    ensures Enabled(max, s, SetClaimed(th))
    ensures var s', e := Next(max, s, SetClaimed(th)), s.objects[n];
            && s'.objects == s.objects[n := e] && s'.byName == s.byName + {n} && s'.bySession == s.bySession[e.session := n]
            && s'.live == s.live && s'.mu.None? && s'.pcs == s.pcs - {th}
  {
  }

  lemma CheckStep(max: int, s: State, th: Thread, warm: bool)
    requires Ready(s, th) && |s.byName| < max
    ensures Enabled(max, s, PassCheck(th, warm)) && Next(max, s, PassCheck(th, warm)) == At(s, th, Creating(warm))
  {
  }

  lemma CreateStep(max: int, s: State, th: Thread, warm: bool, n: Name, host: bytes)
    requires th in s.pcs && s.pcs[th] == Creating(warm) && n !in s.madeBy
    ensures Enabled(max, s, Create(th, n, host))
    ensures Next(max, s, Create(th, n, host)) == At(s, th, Created(warm, n, host)).(live := s.live + {n}, madeBy := s.madeBy[n := th])
  {
  }

  /** The insertion of a created sandbox, assigned or warm. */
  lemma InsertStep(max: int, s: State, th: Thread, n: Name, insert: Action, v: View)
    requires th in s.pcs && (insert.SetActive? || insert.SetWarm?) && insert.t == th
    requires s.pcs[th] == Created(insert.SetWarm?, n, v.host) && v.lastActivity == insert.now
    requires insert.SetActive? ==> Fresh(s, insert.session) && v.session == insert.session && v.status == Active
    requires insert.SetWarm? ==> v.session == [] && v.status == Idle
    ensures Enabled(max, s, insert)
    ensures var s' := Next(max, s, insert);
            && s'.objects == s.objects[n := Row(v)] && s'.byName == s.byName + {n}
            && s'.bySession == (if v.session == [] then s.bySession else s.bySession[v.session := n])
            && s'.live == s.live && s'.mu == s.mu && s'.pcs == s.pcs - {th}
  {
  }

  lemma FindStep(max: int, s: State, th: Thread, n: Name)
    requires th in s.pcs && s.pcs[th] == Doomed(n) && n in s.byName
    ensures Enabled(max, s, Find(th)) && Next(max, s, Find(th)) == At(s, th, Found(n))
  {
  }

  lemma MarkStep(max: int, s: State, th: Thread, n: Name)
    requires th in s.pcs && s.pcs[th] == Found(n) && n in s.objects
    ensures Enabled(max, s, Mark(th))
    ensures Next(max, s, Mark(th)) == At(s, th, Marked(n)).(objects := s.objects[n := s.objects[n].(status := Releasing)])
  {
  }

  lemma DeleteStep(max: int, s: State, th: Thread, n: Name)
    requires th in s.pcs && s.pcs[th] == Marked(n)
    ensures Enabled(max, s, Delete(th)) && Next(max, s, Delete(th)) == At(s, th, Deleted(n)).(live := s.live - {n})
    ensures Enabled(max, s, DeleteFails(th)) && Next(max, s, DeleteFails(th)) == Done(s, th)
  {
  }

  lemma DropStep(max: int, s: State, th: Thread, n: Name)
    requires th in s.pcs && s.pcs[th] == Deleted(n) && n in s.objects && n in s.byName
    ensures Enabled(max, s, Drop(th))
    ensures var s' := Next(max, s, Drop(th));
            && s'.objects == s.objects && s'.byName == s.byName - {n} && s'.bySession == s.bySession - {s.objects[n].session}
            && s'.live == s.live && s'.mu == s.mu && s'.pcs == s.pcs - {th}
  {
  }

  // ---- Allocate and AllocateWarm ----

  /** What a session must be: never issued and in no row. */
  ghost predicate New(s: State, t: map<Name, View>, session: Session) { Fresh(s, session) && Manager.Unassigned(t, session) }

  lemma NewIsUnindexed(s: State, t: map<Name, View>, session: Session)
    requires Shows(s, t) && New(s, t, session)
    ensures session !in s.bySession
  {
  }

  function ClaimSteps(th: Thread, n: Name, session: Session, now: int): seq<Action> {
    [PickIdle(th, n)] + [WriteStatus(th)] + [WriteSession(th, session)] + [WriteActivity(th, now)] + [SetClaimed(th)]
  }

  /** The claim up to its session. */
  lemma NameRun(max: int, s: State, th: Thread, n: Name, session: Session) returns (s3: State)
    requires Ready(s, th) && Fresh(s, session) && n in s.byName && n in s.objects && s.objects[n].status.Idle?
    ensures Continue(max, s, [PickIdle(th, n)] + [WriteStatus(th)] + [WriteSession(th, session)]) == Some(s3)
    ensures s3.objects == s.objects[n := s.objects[n].(status := Active, session := session)]
    ensures s3.byName == s.byName && s3.bySession == s.bySession && s3.live == s.live && s3.pcs == s.pcs[th := Named(n)]
  {
    NoSteps(max, s);
    hide Continue, Enabled, Next;
    PickStep(max, s, th, n);
    var s1 := Next(max, s, PickIdle(th, n));
    Go(max, s, [], s, PickIdle(th, n));
    assert [] + [PickIdle(th, n)] == [PickIdle(th, n)];
    StatusStep(max, s1, th, n);
    var s2 := Next(max, s1, WriteStatus(th));
    Go(max, s, [PickIdle(th, n)], s1, WriteStatus(th));
    SessionStep(max, s2, th, n, session);
    s3 := Next(max, s2, WriteSession(th, session));
    Go(max, s, [PickIdle(th, n)] + [WriteStatus(th)], s2, WriteSession(th, session));
  }

  lemma ClaimRun(max: int, s: State, t: map<Name, View>, th: Thread, n: Name, user: bytes, session: Session, now: int)
    requires Shows(s, t) && Ready(s, th) && New(s, t, session) && n in t && t[n].status.Idle? && t[n].session == []
    ensures Leads(max, s, th, ClaimSteps(th, n, session, now),
                  t[n := t[n].(status := Active, user := user, session := session, lastActivity := now)])
  {
    NewIsUnindexed(s, t, session);
    ShownRow(s, t, n);
    assert Fresh(s, session);
    hide Continue, Shows, Enabled, Next, New, Cache.Exact;
    var s3 := NameRun(max, s, th, n, session);
    var named := [PickIdle(th, n)] + [WriteStatus(th)] + [WriteSession(th, session)];
    ActivityStep(max, s3, th, n, now);
    var s4 := Next(max, s3, WriteActivity(th, now));
    Go(max, s, named, s3, WriteActivity(th, now));
    SetStep(max, s4, th, n);
    var s5 := Next(max, s4, SetClaimed(th));
    Go(max, s, named + [WriteActivity(th, now)], s4, SetClaimed(th));
    var v := t[n].(status := Active, user := user, session := session, lastActivity := now);
    assert s5.objects == s.objects[n := Row(v)] && s5.live == s.live + {n};
    ShowsSet(s, t, s5, n, v);
  }

  lemma ShownRow(s: State, t: map<Name, View>, n: Name)
    requires Shows(s, t) && n in t
    ensures n in s.objects && s.objects[n] == Row(t[n]) && n in s.byName && n in s.live
  {
  }

  lemma NoSteps(max: int, s: State)
    ensures Continue(max, s, []) == Some(s)
  {
  }

  /** Creating a sandbox and inserting it: `insert` is SetActive or SetWarm. */
  function CreateSteps(th: Thread, warm: bool, sandbox: Manager.Sandbox, insert: Action): seq<Action> {
    [PassCheck(th, warm)] + [Create(th, sandbox.name, sandbox.host)] + [insert]
  }

  lemma CreateRun(max: int, s: State, t: map<Name, View>, th: Thread, sandbox: Manager.Sandbox, insert: Action, v: View)
    requires Shows(s, t) && Ready(s, th) && |t| < max && sandbox.name !in s.madeBy && sandbox.name !in t
    requires insert.SetActive? || insert.SetWarm?
    requires insert.t == th && v.host == sandbox.host && v.lastActivity == insert.now
    requires insert.SetActive? ==> New(s, t, insert.session) && v.session == insert.session && v.status == Active
    requires insert.SetWarm? ==> v.session == [] && v.status == Idle
    ensures Leads(max, s, th, CreateSteps(th, insert.SetWarm?, sandbox, insert), t[sandbox.name := v])
  {
    if insert.SetActive? { NewIsUnindexed(s, t, insert.session); }
    EmptyIsUnindexed(s, t);
    var n, warm := sandbox.name, insert.SetWarm?;
    NoSteps(max, s);
    assert insert.SetActive? ==> Fresh(s, insert.session);
    hide Continue, Shows, Enabled, Next, New, Cache.Exact;
    CheckStep(max, s, th, warm);
    var s1 := Next(max, s, PassCheck(th, warm));
    Go(max, s, [], s, PassCheck(th, warm));
    assert [] + [PassCheck(th, warm)] == [PassCheck(th, warm)];
    CreateStep(max, s1, th, warm, n, sandbox.host);
    var s2 := Next(max, s1, Create(th, n, sandbox.host));
    Go(max, s, [PassCheck(th, warm)], s1, Create(th, n, sandbox.host));
    InsertStep(max, s2, th, n, insert, v);
    var s3 := Next(max, s2, insert);
    Go(max, s, [PassCheck(th, warm)] + [Create(th, n, sandbox.host)], s2, insert);
    ShowsSet(s, t, s3, n, v);
  }

  lemma FailRun(max: int, s: State, t: map<Name, View>, th: Thread, warm: bool)
    requires Shows(s, t) && Ready(s, th) && |t| < max
    ensures Leads(max, s, th, [PassCheck(th, warm)] + [CreateFails(th)], t)
  {
    EmptyIsUnindexed(s, t);
    NoSteps(max, s);
    ShowsMove(s, t, th, Creating(warm));
    hide Continue, Shows, Enabled, Next;
    CheckStep(max, s, th, warm);
    var s1 := Next(max, s, PassCheck(th, warm));
    Go(max, s, [], s, PassCheck(th, warm));
    assert [] + [PassCheck(th, warm)] == [PassCheck(th, warm)];
    FailStep(max, s1, th);
    Go(max, s, [PassCheck(th, warm)], s1, CreateFails(th));
  }

  lemma FailStep(max: int, s: State, th: Thread)
    requires th in s.pcs && s.pcs[th].Creating?
    ensures Enabled(max, s, CreateFails(th)) && Next(max, s, CreateFails(th)) == Done(s, th)
  {
  }

  lemma EmptyIsUnindexed(s: State, t: map<Name, View>)
    requires Shows(s, t)
    ensures [] !in s.bySession && |s.byName| == |t|
  {
  }

  /** The steps of one call of Allocate by thread `th`. */
  function AllocateSteps(th: Thread, idle: bool, session: Session, now: int, created: Option<Manager.Sandbox>,
      r: Result<Name, Manager.Error>): seq<Action>
  {
    match r
    case Ok(n) =>
      if idle then ClaimSteps(th, n, session, now)
      else if created.Some? then CreateSteps(th, false, created.value, SetActive(th, session, now))
      else []
    case Err(e) => if e.ProviderFailed? then [PassCheck(th, false)] + [CreateFails(th)] else []
  }

  /** Every call of Allocate, whatever its outcome. */
  lemma AllocateIsARun(max: int, s: State, t: map<Name, View>, t': map<Name, View>, index: map<Session, Name>, th: Thread,
                       user: bytes, session: Session, now: int, created: Option<Manager.Sandbox>, r: Result<Name, Manager.Error>)
    requires Shows(s, t) && Ready(s, th) && New(s, t, session) && Manager.PoolInv(t, index)
    requires created.Some? ==> created.value.name !in s.madeBy && created.value.name !in t
    requires Manager.AllocatedAs(t, t', max, user, session, now, created, r)
    ensures Leads(max, s, th, AllocateSteps(th, Cache.WithStatus(t, Idle) != {}, session, now, created, r), t')
  {
    NoSteps(max, s);
    hide Enabled, Next, Continue, New;
    if r.Ok? && Cache.WithStatus(t, Idle) != {} {
      ClaimRun(max, s, t, th, r.value, user, session, now);
    } else if r.Ok? {
      CreateRun(max, s, t, th, created.value, SetActive(th, session, now), t'[r.value]);
    } else if r.error.ProviderFailed? {
      FailRun(max, s, t, th, false);
    }
  }

  /** A call of AllocateWarm that finds room. */
  lemma AllocateWarmIsARun(max: int, s: State, t: map<Name, View>, th: Thread, now: int, created: Option<Manager.Sandbox>)
    requires Shows(s, t) && Ready(s, th) && |t| < max
    requires created.Some? ==> created.value.name !in s.madeBy && created.value.name !in t
    ensures match created
            case Some(c) =>
              Leads(max, s, th, CreateSteps(th, true, c, SetWarm(th, now)), t[c.name := Cache.View(c.host, [], [], now, now, Idle)])
            case None => Leads(max, s, th, [PassCheck(th, true)] + [CreateFails(th)], t)
  {
    hide Leads, CreateSteps;
    if created.Some? {
      CreateRun(max, s, t, th, created.value, SetWarm(th, now), Cache.View(created.value.host, [], [], now, now, Idle));
    } else {
      FailRun(max, s, t, th, true);
    }
  }

  // ---- Release, RunGC and Heartbeat ----

  /** The part of a release after Release was called for a cached name. */
  function RemoveSteps(th: Thread, deleted: bool): seq<Action> {
    if deleted then [Find(th)] + [Mark(th)] + [Delete(th)] + [Drop(th)] else [Find(th)] + [Mark(th)] + [DeleteFails(th)]
  }

  /** The state shows the table while `th` stands somewhere in its operation. */
  lemma RemoveRun(max: int, s: State, t: map<Name, View>, th: Thread, n: Name, deleted: bool)
    requires Shows(s, t) && s.mu.None? && th in s.pcs && s.pcs[th] == Doomed(n) && n in t
    ensures Leads(max, s, th, RemoveSteps(th, deleted), Manager.Released(t, n, deleted))
  {
    ShownRow(s, t, n);
    ShownRows(s, t);
    var v := t[n].(status := Releasing);
    NoSteps(max, s);
    hide Continue, Shows, Enabled, Next;
    FindStep(max, s, th, n);
    var s1 := Next(max, s, Find(th));
    Go(max, s, [], s, Find(th));
    assert [] + [Find(th)] == [Find(th)];
    MarkStep(max, s1, th, n);
    var s2 := Next(max, s1, Mark(th));
    Go(max, s, [Find(th)], s1, Mark(th));
    DeleteStep(max, s2, th, n);
    if deleted {
      var s3 := Next(max, s2, Delete(th));
      Go(max, s, [Find(th)] + [Mark(th)], s2, Delete(th));
      DropStep(max, s3, th, n);
      var s4 := Next(max, s3, Drop(th));
      Go(max, s, [Find(th)] + [Mark(th)] + [Delete(th)], s3, Drop(th));
      ShowsDelete(s, t, s4, n);
    } else {
      var s3 := Next(max, s2, DeleteFails(th));
      Go(max, s, [Find(th)] + [Mark(th)], s2, DeleteFails(th));
      ShowsUpdate(s, t, s3, n, v);
    }
  }

  lemma ShownRows(s: State, t: map<Name, View>)
    requires Shows(s, t)
    ensures forall m :: m in t ==> m in s.objects
  {
  }

  lemma ShowsUpdate(s: State, t: map<Name, View>, s': State, n: Name, v: View)
    requires Shows(s, t) && n in t && v.session == t[n].session
    requires s' == s.(objects := s.objects[n := Row(v)], pcs := s'.pcs)
    ensures Shows(s', t[n := v])
  {
    Cache.UpdateExact(t, s.bySession, n, v);
  }

  lemma ShowsMove(s: State, t: map<Name, View>, th: Thread, pc: Pc)
    requires Shows(s, t)
    ensures Shows(At(s, th, pc), t) && (th !in s.pcs ==> Shows(Done(At(s, th, pc), th), t))
  {
  }

  lemma CallStep(max: int, s: State, th: Thread, n: Name)
    requires th !in s.pcs && n in s.owner
    ensures Enabled(max, s, Call(th, n)) && Next(max, s, Call(th, n)) == At(s, th, Doomed(n))
  {
  }

  lemma MissStep(max: int, s: State, th: Thread, n: Name)
    requires th in s.pcs && s.pcs[th] == Doomed(n) && n !in s.byName
    ensures Enabled(max, s, Find(th)) && Next(max, s, Find(th)) == Done(s, th)
  {
  }

  /** Every call of Release of a sandbox that was handed out; of one no longer cached, too. */
  lemma ReleaseIsARun(max: int, s: State, t: map<Name, View>, th: Thread, n: Name, deleted: bool)
    requires Shows(s, t) && Ready(s, th) && n in s.owner
    ensures Leads(max, s, th, [Call(th, n)] + if n in t then RemoveSteps(th, deleted) else [Find(th)], Manager.Released(t, n, deleted))
  {
    NoSteps(max, s);
    assert s.byName == t.Keys;
    ShowsMove(s, t, th, Doomed(n));
    hide Continue, Shows, RemoveSteps, Enabled, Next;
    CallStep(max, s, th, n);
    var s1 := Next(max, s, Call(th, n));
    Go(max, s, [], s, Call(th, n));
    assert [] + [Call(th, n)] == [Call(th, n)];
    if n in t {
      RemoveRun(max, s1, t, th, n, deleted);
      GoOn(max, s, [Call(th, n)], s1, RemoveSteps(th, deleted));
    } else {
      MissStep(max, s1, th, n);
      Go(max, s, [Call(th, n)], s1, Find(th));
    }
  }

  lemma SeeStep(max: int, s: State, th: Thread, n: Name, cutoff: int)
    requires th !in s.pcs && n in s.objects && s.objects[n].status.Active? && s.objects[n].lastActivity < cutoff
    ensures Enabled(max, s, GcSees(th, n)) && Next(max, s, GcSees(th, n)) == At(s, th, Seen(n))
    ensures var s1 := At(s, th, Seen(n));
            Enabled(max, s1, GcExpires(th, cutoff)) && Next(max, s1, GcExpires(th, cutoff)) == At(s1, th, Doomed(n))
  {
  }

  /** The collection of one expired entry. */
  lemma CollectOneRun(max: int, s: State, t: map<Name, View>, th: Thread, n: Name, cutoff: int, deleted: bool)
    requires Shows(s, t) && Ready(s, th) && n in t && Manager.Expired(t[n], cutoff)
    ensures Leads(max, s, th, [GcSees(th, n)] + [GcExpires(th, cutoff)] + RemoveSteps(th, deleted), Manager.Released(t, n, deleted))
  {
    ShownRow(s, t, n);
    NoSteps(max, s);
    ShowsMove(s, t, th, Seen(n));
    ShowsMove(At(s, th, Seen(n)), t, th, Doomed(n));
    hide Continue, Shows, RemoveSteps, Enabled, Next;
    SeeStep(max, s, th, n, cutoff);
    var s1 := Next(max, s, GcSees(th, n));
    Go(max, s, [], s, GcSees(th, n));
    assert [] + [GcSees(th, n)] == [GcSees(th, n)];
    var s2 := Next(max, s1, GcExpires(th, cutoff));
    Go(max, s, [GcSees(th, n)], s1, GcExpires(th, cutoff));
    RemoveRun(max, s2, t, th, n, deleted);
    GoOn(max, s, [GcSees(th, n)] + [GcExpires(th, cutoff)], s2, RemoveSteps(th, deleted));
  }

  ghost function AllExpired(t: map<Name, View>, cutoff: int): set<Name> { set n | n in t && Manager.Expired(t[n], cutoff) }

  lemma CollectLess(t: map<Name, View>, n: Name, cutoff: int, undeletable: set<Name>)
    requires n in t && Manager.Expired(t[n], cutoff)
    ensures var t1 := Manager.Released(t, n, n !in undeletable);
            && AllExpired(t1, cutoff) == AllExpired(t, cutoff) - {n}
            && Manager.Collected(t1, cutoff, undeletable) == Manager.Collected(t, cutoff, undeletable)
  {
  }

  /** A whole collection is a run: one release for each expired entry, in any order. */
  lemma {:induction false} RunGCIsARun(max: int, s: State, t: map<Name, View>, th: Thread, cutoff: int, undeletable: set<Name>)
      returns (steps: seq<Action>)
    requires Shows(s, t) && Ready(s, th)
    ensures Leads(max, s, th, steps, Manager.Collected(t, cutoff, undeletable))
    decreases |AllExpired(t, cutoff)|
  {
    hide Continue, Shows, RemoveSteps, Enabled, Next;
    if AllExpired(t, cutoff) == {} {
      NoSteps(max, s);
      steps := [];
      assert forall n :: n in t ==> !Manager.Expired(t[n], cutoff) by {
        assert forall n :: n in t && Manager.Expired(t[n], cutoff) ==> n in AllExpired(t, cutoff);
      }
      assert Manager.Collected(t, cutoff, undeletable) == t;
    } else {
      var n :| n in AllExpired(t, cutoff);
      var t1 := Manager.Released(t, n, n !in undeletable);
      CollectLess(t, n, cutoff, undeletable);
      CollectOneRun(max, s, t, th, n, cutoff, n !in undeletable);
      var one := [GcSees(th, n)] + [GcExpires(th, cutoff)] + RemoveSteps(th, n !in undeletable);
      var s1 := Continue(max, s, one).value;
      var rest := RunGCIsARun(max, s1, t1, th, cutoff, undeletable);
      GoOn(max, s, one, s1, rest);
      steps := one + rest;
    }
  }

  lemma BeatStep(max: int, s: State, th: Thread, session: Session, now: int)
    requires Ready(s, th) && session in s.bySession && s.bySession[session] in s.objects
    ensures var n, s1 := s.bySession[session], At(s, th, Beating(s.bySession[session]));
            && Enabled(max, s, BeatFinds(th, session)) && Next(max, s, BeatFinds(th, session)) == s1
            && Enabled(max, s1, BeatWrites(th, now))
            && Next(max, s1, BeatWrites(th, now)) == Done(s1, th).(objects := s.objects[n := s.objects[n].(lastActivity := now)])
  {
  }

  /** A heartbeat of a session the index knows. */
  lemma HeartbeatIsARun(max: int, s: State, t: map<Name, View>, th: Thread, session: Session, now: int)
    requires Shows(s, t) && Ready(s, th) && session in s.bySession
    ensures Cache.Search(t, session) == Some(s.bySession[session]) && s.bySession[session] in t
    ensures var n := s.bySession[session];
            Leads(max, s, th, [BeatFinds(th, session)] + [BeatWrites(th, now)], t[n := t[n].(lastActivity := now)])
  {
    var n := s.bySession[session];
    Cache.SearchIsIndex(t, s.bySession, session);
    ShownRow(s, t, n);
    NoSteps(max, s);
    hide Continue, Shows, Enabled, Next, Cache.Exact, Cache.Search;
    BeatStep(max, s, th, session, now);
    var s1 := Next(max, s, BeatFinds(th, session));
    Go(max, s, [], s, BeatFinds(th, session));
    assert [] + [BeatFinds(th, session)] == [BeatFinds(th, session)];
    var s2 := Next(max, s1, BeatWrites(th, now));
    Go(max, s, [BeatFinds(th, session)], s1, BeatWrites(th, now));
    ShowsUpdate(s, t, s2, n, t[n].(lastActivity := now));
  }
}
