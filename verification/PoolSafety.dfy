/**
 What every interleaving of the pool keeps, and exactly when: provider and cache
 agree, no sandbox is handed out twice, sessions stay where they are, entries only
 move forward. A claim that a release overtakes is the one thing that breaks them.
 */
module PoolSafety {
  import opened Common
  import opened PoolTypes
  import opened PoolMachine

  // ---- conservation ----

  /** Thread `t` has created `n` and not yet put it into the cache. */
  predicate Creates(s: State, t: Thread, n: Name) { t in s.pcs && s.pcs[t].Created? && s.pcs[t].name == n }

  /** Some release of `n` is between the provider's delete and the cache's. */
  ghost predicate HeldByRelease(s: State, n: Name) { exists t :: t in s.pcs && s.pcs[t] == Deleted(n) }

  /**
   A live sandbox is in the cache or held by exactly one create in flight, and a
   cached name that is no longer live is held by a release about to drop it.
   */
  ghost predicate Conserved(s: State, n: Name) {
    && (n in s.live && n !in s.byName ==> exists t :: Creates(s, t, n) && forall t' :: Creates(s, t', n) ==> t' == t)
    && (n in s.byName && n !in s.live ==> HeldByRelease(s, n))
  }

  /** `n` is cached, its sandbox is gone, and no release is on its way to drop it. */
  ghost predicate Stranded(s: State, n: Name) { n in s.byName && n !in s.live && !HeldByRelease(s, n) }

  /** The `Set` at the end of a claim that finds its entry no longer in the cache. */
  predicate PutBack(s: State, a: Action, n: Name) {
    a.SetClaimed? && a.t in s.pcs && s.pcs[a.t] == Stamped(n) && n !in s.byName
  }

  lemma LiveIsHeld(s: State, n: Name)
    requires Inv(s) && n in s.live && n !in s.byName
    ensures exists t :: Creates(s, t, n) && forall t' :: Creates(s, t', n) ==> t' == t
  {
    assert Around(s, 0, n, []);
    forall t | Creates(s, t, n) ensures n in s.madeBy && t == s.madeBy[n] {
      assert Around(s, t, n, []);
    }
    assert Creates(s, s.madeBy[n], n);
  }

  lemma OwnDeleted(max: int, s: State, a: Action, n: Name)
    requires Enabled(max, s, a) && a.t in s.pcs && s.pcs[a.t] == Deleted(n)
    ensures a.Drop?
  {
  }

  lemma HeldStays(max: int, s: State, a: Action, n: Name)
    requires Enabled(max, s, a) && HeldByRelease(s, n) && !(a.Drop? && s.pcs[a.t] == Deleted(n))
    ensures HeldByRelease(Next(max, s, a), n)
  {
    var t :| t in s.pcs && s.pcs[t] == Deleted(n);
    if t == a.t { OwnDeleted(max, s, a, n); } else { OtherThread(max, s, a, t); }
    hide Enabled, Next;
  }

  /** The only step that strands a sandbox is a put-back without a release at hand. */
  lemma StrandedStep(max: int, s: State, a: Action, n: Name)
    requires Inv(s) && Enabled(max, s, a) && Stranded(Next(max, s, a), n)
    ensures Stranded(s, n) || (PutBack(s, a, n) && !HeldByRelease(s, n))
  {
    hide Inv, EntryInv, IndexInv;
    ActingFromInv(max, s, a);
    var s' := Next(max, s, a);
    if HeldByRelease(s, n) && !(a.Drop? && s.pcs[a.t] == Deleted(n)) { HeldStays(max, s, a, n); }
    if a.Delete? { assert s'.pcs[a.t] == Deleted(s.pcs[a.t].name); }
  }

  lemma PutBackStrands(max: int, s: State, a: Action, n: Name)
    requires Inv(s) && Enabled(max, s, a) && PutBack(s, a, n) && !HeldByRelease(s, n)
    ensures Stranded(Next(max, s, a), n)
  {
    ActingFromInv(max, s, a);
    var s' := Next(max, s, a);
    assert forall t :: t in s'.pcs && s'.pcs[t] == Deleted(n) ==> t in s.pcs && s.pcs[t] == Deleted(n);
  }

  /** The `i`-th action strands the sandbox of the claim it ends. */
  ghost predicate Strands(max: int, run: seq<Action>, i: nat)
    requires Legal(max, run) && i < |run|
  {
    exists n :: PutBack(StateAt(max, run, i), run[i], n) && !HeldByRelease(StateAt(max, run, i), n)
  }

  lemma {:induction false} NeverStranded(max: int, run: seq<Action>, i: nat, n: Name)
    requires Legal(max, run) && i <= |run| && forall j :: 0 <= j < i ==> !Strands(max, run, j)
    ensures !Stranded(StateAt(max, run, i), n)
  {
    hide Enabled, Next, Strands, PutBack, Inv;
    StateEnds(max, run);
    if i > 0 {
      NeverStranded(max, run, i - 1, n);
      StateStep(max, run, i - 1);
      ReachableAt(max, run, i - 1);
      if Stranded(StateAt(max, run, i), n) {
        StrandedStep(max, StateAt(max, run, i - 1), run[i - 1], n);
        StrandsAt(max, run, i - 1, n);
      }
    }
  }

  lemma StrandsAt(max: int, run: seq<Action>, i: nat, n: Name)
    requires Legal(max, run) && i < |run| && PutBack(StateAt(max, run, i), run[i], n) && !HeldByRelease(StateAt(max, run, i), n)
    ensures Strands(max, run, i)
  {
  }

  /**
   Provider and cache agree in every state of a run, up to the operations in
   flight, if and only if no claim of the run ends by putting back an entry that
   a release has dropped behind its back.
   */
  lemma ProviderCacheConservationIff(max: int, run: seq<Action>)
    requires Legal(max, run)
    ensures (forall i, n :: 0 <= i <= |run| ==> Conserved(StateAt(max, run, i), n)) <==> (forall i :: 0 <= i < |run| ==> !Strands(max, run, i))
  {
    hide StateAt, Enabled, Next, PutBack, HeldByRelease, Creates, Inv, Legal;
    if forall i :: 0 <= i < |run| ==> !Strands(max, run, i) {
      forall i, n | 0 <= i <= |run| ensures Conserved(StateAt(max, run, i), n) {
        ReachableAt(max, run, i);
        NeverStranded(max, run, i, n);
        var s := StateAt(max, run, i);
        if n in s.live && n !in s.byName { LiveIsHeld(s, n); }
      }
    }
    if i :| 0 <= i < |run| && Strands(max, run, i) {
      var n :| PutBack(StateAt(max, run, i), run[i], n) && !HeldByRelease(StateAt(max, run, i), n);
      StateStep(max, run, i);
      ReachableAt(max, run, i);
      PutBackStrands(max, StateAt(max, run, i), run[i], n);
      assert !Conserved(StateAt(max, run, i + 1), n);
    }
  }

  lemma {:induction false} StrandedIsRevived(max: int, run: seq<Action>, n: Name)
    requires Legal(max, run)
    ensures Stranded(After(max, run).value, n) ==> n in After(max, run).value.revived
    decreases |run|
  {
    if run != [] {
      var front, a := run[..|run| - 1], run[|run| - 1];
      StrandedIsRevived(max, front, n);
      Reachable(max, front);
      var s := After(max, front).value;
      if Stranded(Next(max, s, a), n) {
        StrandedStep(max, s, a, n);
        assert Next(max, s, a) == After(max, run).value;
      }
    }
  }

  /**
   Once no operation is in flight, the cache holds the live sandboxes and the
   revived ones; so it holds exactly the live ones if and only if none is revived.
   */
  lemma QuiescentAgreementIff(max: int, run: seq<Action>)
    requires Legal(max, run) && After(max, run).value.pcs == map[]
    ensures var s := After(max, run).value;
            s.byName == s.live + s.revived && s.live !! s.revived && (s.byName == s.live <==> s.revived == {})
  {
    var s := After(max, run).value;
    Reachable(max, run);
    hide After;
    forall n ensures (n in s.byName <==> n in s.live + s.revived) && !(n in s.live && n in s.revived) {
      assert Around(s, 0, n, []);
      if n in s.live && n !in s.byName { LiveIsHeld(s, n); }
      StrandedIsRevived(max, run, n);
    }
    assert s.byName == s.live ==> s.revived == {} by {
      assert forall n :: n in s.revived ==> n in s.byName && n !in s.live;
    }
  }

  // ---- when no claim is overtaken ----

  /** RunGC judges no entry that is being claimed; it does not when it holds `p.mu`. */
  predicate Guarded(max: int, run: seq<Action>)
    requires Legal(max, run)
  {
    forall i :: 0 <= i < |run| && run[i].GcSees? ==> !MidClaim(StateAt(max, run, i), run[i].name)
  }

  /** A collection or a release has an eye on `n`. */
  predicate Threatens(pc: Pc, n: Name) { (pc.Seen? || pc.Doomed? || pc.Found? || pc.Marked? || pc.Deleted?) && pc.name == n }

  predicate Safe(s: State, t: Thread, n: Name) {
    MidClaim(s, n) ==> n in s.byName && (t in s.pcs ==> !Threatens(s.pcs[t], n))
  }

  lemma NotDropped(max: int, s: State, a: Action, n: Name)
    requires Enabled(max, s, a) && n in s.byName && !(a.Drop? && s.pcs[a.t].name == n)
    ensures n in Next(max, s, a).byName
  {
  }

  /** A thread comes to threaten an entry only by judging it or by a call of Release. */
  lemma NoNewThreat(max: int, s: State, a: Action, n: Name)
    requires Enabled(max, s, a) && (a.t in s.pcs ==> !Threatens(s.pcs[a.t], n))
    requires !(a.GcSees? && a.name == n) && !(a.Call? && a.name == n)
    ensures a.t in Next(max, s, a).pcs ==> !Threatens(Next(max, s, a).pcs[a.t], n)
  {
  }

  /** While an entry is being claimed nothing begins to threaten it, if the guard holds. */
  lemma SafeStays(max: int, s: State, a: Action, t: Thread, n: Name)
    requires Inv(s) && Enabled(max, s, a) && Safe(s, t, n) && Safe(s, a.t, n) && MidClaim(s, n)
    requires a.GcSees? ==> a.name != n
    ensures Safe(Next(max, s, a), t, n)
  {
    assert Around(s, s.mu.value, n, []);
    assert n !in s.owner;
    assert a.Drop? ==> s.pcs[a.t].name != n;
    assert !(a.Call? && a.name == n);
    hide Inv, Around, EntryInv, SandboxInv, Next, Enabled, MidClaim, Threatens;
    NotDropped(max, s, a, n);
    if t == a.t {
      NoNewThreat(max, s, a, n);
    } else {
      OtherThread(max, s, a, t);
    }
  }

  /** A claim begins by writing the status of an entry that was idle, so nothing threatens it. */
  lemma SafeStarts(max: int, s: State, a: Action, t: Thread, n: Name)
    requires Inv(s) && Enabled(max, s, a) && !MidClaim(s, n) && a.WriteStatus? && s.pcs[a.t].name == n
    ensures Safe(Next(max, s, a), t, n)
  {
    assert Around(s, a.t, n, []);
    assert Around(s, t, n, []);
    hide Inv, Around, EntryInv, SandboxInv;
  }

  lemma ClaimStarts(max: int, s: State, a: Action, n: Name)
    requires Inv(s) && Enabled(max, s, a) && !MidClaim(s, n) && MidClaim(Next(max, s, a), n)
    ensures a.WriteStatus? && s.pcs[a.t].name == n
  {
    ActingFromInv(max, s, a);
    hide Inv, EntryInv, SandboxInv;
  }

  lemma SafeStep(max: int, s: State, a: Action, t: Thread, n: Name)
    requires Inv(s) && Enabled(max, s, a) && Safe(s, t, n) && Safe(s, a.t, n)
    requires a.GcSees? ==> !MidClaim(s, a.name)
    ensures Safe(Next(max, s, a), t, n)
  {
    hide Next, Enabled, Inv;
    if MidClaim(s, n) {
      SafeStays(max, s, a, t, n);
    } else if MidClaim(Next(max, s, a), n) {
      ClaimStarts(max, s, a, n);
      SafeStarts(max, s, a, t, n);
    }
  }

  lemma {:induction false} StaysSafe(max: int, run: seq<Action>, i: nat)
    requires Legal(max, run) && Guarded(max, run) && i <= |run|
    ensures forall t, n :: Safe(StateAt(max, run, i), t, n)
  {
    StateEnds(max, run);
    if i > 0 {
      StaysSafe(max, run, i - 1);
      StateStep(max, run, i - 1);
      ReachableAt(max, run, i - 1);
      var s, a := StateAt(max, run, i - 1), run[i - 1];
      assert a.GcSees? ==> !MidClaim(s, a.name);
      hide Enabled, Next, Inv, MidClaim, Safe, Guarded, StateAt;
      forall t, n ensures Safe(Next(max, s, a), t, n) { SafeStep(max, s, a, t, n); }
    }
  }

  /** The `i`-th action puts some entry back. */
  ghost predicate PutsBack(max: int, run: seq<Action>, i: nat)
    requires Legal(max, run) && i < |run|
  {
    exists n :: PutBack(StateAt(max, run, i), run[i], n)
  }

  /** With that guard no claim of a run ever finds its entry gone. */
  lemma GuardedIsEnough(max: int, run: seq<Action>)
    requires Legal(max, run) && Guarded(max, run)
    ensures forall i :: 0 <= i < |run| ==> !PutsBack(max, run, i) && !Strands(max, run, i)
  {
    forall i, n | 0 <= i < |run| ensures !PutBack(StateAt(max, run, i), run[i], n) {
      StaysSafe(max, run, i);
      StateStep(max, run, i);
      ReachableAt(max, run, i);
      var s := StateAt(max, run, i);
      ActingFromInv(max, s, run[i]);
      assert Safe(s, run[i].t, n);
    }
  }

  // ---- ownership and affinity ----

  /** What a run never takes back about a sandbox and a session. */
  predicate Lasting(s: State, s': State, n: Name, k: Session) {
    && (n in s.owner ==> n in s'.owner && s'.owner[n] == s.owner[n])
    && (k in s.issued ==> k in s'.issued && s'.issued[k] == s.issued[k])
    && (n in s.objects ==> n in s'.objects && s'.objects[n].host == s.objects[n].host)
    && (InUse(s, n) ==> InUse(s', n))
  }

  lemma OwnerLasts(max: int, s: State, a: Action, n: Name)
    requires Enabled(max, s, a) && Acting(s, a) && n in s.owner
    ensures n in Next(max, s, a).owner && Next(max, s, a).owner[n] == s.owner[n]
  {
    hide EntryInv, SandboxInv, IndexInv;
    if a.SetClaimed? || a.SetActive? {
      assert s.pcs[a.t].name !in s.owner;
    } else {
      NothingHandedOut(max, s, a);
      hide Next, Enabled, Acting;
    }
  }

  lemma IssuedLasts(max: int, s: State, a: Action, k: Session)
    requires Enabled(max, s, a) && k in s.issued
    ensures k in Next(max, s, a).issued && Next(max, s, a).issued[k] == s.issued[k]
  {
    if a.WriteSession? || a.SetActive? {
      assert k != a.session;
    } else {
      NothingIssued(max, s, a);
      hide Next;
    }
  }

  lemma NothingIssued(max: int, s: State, a: Action)
    requires Enabled(max, s, a) && !a.WriteSession? && !a.SetActive?
    ensures Next(max, s, a).issued == s.issued
  {
    hide Enabled;
  }

  lemma NothingHandedOut(max: int, s: State, a: Action)
    requires Enabled(max, s, a) && !a.SetClaimed? && !a.SetActive?
    ensures Next(max, s, a).owner == s.owner
  {
    hide Enabled;
  }

  lemma ObjectLasts(max: int, s: State, a: Action, n: Name)
    requires Enabled(max, s, a) && Acting(s, a) && n in s.objects
    ensures n in Next(max, s, a).objects && Next(max, s, a).objects[n].host == s.objects[n].host
    ensures InUse(s, n) ==> InUse(Next(max, s, a), n)
  {
    hide EntryInv, SandboxInv, IndexInv;
    match a {
      case WriteStatus(_) =>
      case WriteSession(_, _) =>
      case WriteActivity(_, _) =>
      case SetClaimed(_) =>
      case SetActive(_, _, _) =>
      case SetWarm(_, _) =>
      case Mark(_) =>
      case BeatWrites(_, _) =>
      case _ => ObjectsUntouched(max, s, a);
    }
  }

  lemma ObjectsUntouched(max: int, s: State, a: Action)
    requires Enabled(max, s, a) && !a.WriteStatus? && !a.WriteSession? && !a.WriteActivity? && !a.SetClaimed?
    requires !a.SetActive? && !a.SetWarm? && !a.Mark? && !a.BeatWrites?
    ensures Next(max, s, a).objects == s.objects
  {
    hide Enabled;
  }

  lemma LastingStep(max: int, s: State, a: Action, n: Name, k: Session)
    requires Inv(s) && Enabled(max, s, a)
    ensures Lasting(s, Next(max, s, a), n, k)
  {
    ActingFromInv(max, s, a);
    hide Inv, Enabled, Next, Acting;
    if n in s.owner { OwnerLasts(max, s, a, n); }
    if k in s.issued { IssuedLasts(max, s, a, k); }
    if n in s.objects { ObjectLasts(max, s, a, n); }
  }

  lemma {:induction false} RunLasting(max: int, run: seq<Action>, i: nat, j: nat, n: Name, k: Session)
    requires Legal(max, run) && i <= j <= |run|
    ensures Lasting(StateAt(max, run, i), StateAt(max, run, j), n, k)
    decreases j
  {
    if i < j {
      hide Inv, Enabled, Next, StateAt, Legal, InUse;
      RunLasting(max, run, i, j - 1, n, k);
      StateStep(max, run, j - 1);
      ReachableAt(max, run, j - 1);
      LastingStep(max, StateAt(max, run, j - 1), run[j - 1], n, k);
    }
  }

  /** A sandbox keeps for good the session and host it was handed out with. */
  lemma OwnerStays(max: int, run: seq<Action>, i: nat, j: nat, n: Name)
    requires Legal(max, run) && i <= j <= |run| && n in StateAt(max, run, i).owner
    ensures var s, s' := StateAt(max, run, i), StateAt(max, run, j); n in s'.owner && s'.owner[n] == s.owner[n]
  {
    RunLasting(max, run, i, j, n, []);
  }

  /** The sandbox the `i`-th action of a run hands to an Allocate call, if it completes one. */
  function Granted(max: int, run: seq<Action>, i: nat): Option<Name>
    requires i < |run| && Legal(max, run)
  {
    if run[i].SetClaimed? || run[i].SetActive? then Subject(StateAt(max, run, i), run[i]) else None
  }

  lemma GrantRecorded(max: int, run: seq<Action>, i: nat)
    requires Legal(max, run) && i < |run| && Granted(max, run, i).Some?
    ensures Granted(max, run, i).value !in StateAt(max, run, i).owner
    ensures Granted(max, run, i).value in StateAt(max, run, i + 1).owner
  {
    StateStep(max, run, i);
    ReachableAt(max, run, i);
    ActingFromInv(max, StateAt(max, run, i), run[i]);
  }

  /** No two Allocate calls of a run ever return the same sandbox. */
  lemma ExclusiveOwnership(max: int, run: seq<Action>, i: nat, j: nat)
    requires Legal(max, run) && i < j < |run| && Granted(max, run, i).Some? && Granted(max, run, j).Some?
    ensures Granted(max, run, i) != Granted(max, run, j)
  {
    hide StateAt, Legal;
    GrantRecorded(max, run, i);
    GrantRecorded(max, run, j);
    OwnerStays(max, run, i + 1, j, Granted(max, run, i).value);
  }

  /** A session that hits the cache at two moments of a run is routed to the same sandbox and host. */
  lemma SessionAffinity(max: int, run: seq<Action>, i: nat, j: nat, k: Session)
    requires Legal(max, run) && i <= j <= |run|
    requires k in StateAt(max, run, i).bySession && k in StateAt(max, run, j).bySession
    ensures var s, s' := StateAt(max, run, i), StateAt(max, run, j); var n := s.bySession[k];
            && s'.bySession[k] == n && n in s.byName && n in s'.byName
            && n in s.objects && n in s'.objects && s'.objects[n].host == s.objects[n].host
  {
    hide StateAt, Legal;
    ReachableAt(max, run, i);
    ReachableAt(max, run, j);
    var s, s' := StateAt(max, run, i), StateAt(max, run, j);
    assert Around(s, 0, s.bySession[k], k);
    assert Around(s', 0, s'.bySession[k], k);
    RunLasting(max, run, i, j, s.bySession[k], k);
  }

  /**
   The session index is a linear search of the by-name table in every reachable
   state, with one exception: an entry whose claim has written the session and
   not yet come to its `Set`.
   */
  lemma IndexIsSearchIff(max: int, run: seq<Action>, k: Session, n: Name)
    requires Legal(max, run) && k != []
    ensures var s := After(max, run).value;
            (k in s.bySession && s.bySession[k] == n <==> n in s.byName && n in s.objects && s.objects[n].session == k)
            <==> !(MidClaim(s, n) && n in s.byName && n in s.objects && s.objects[n].session == k)
  {
    Reachable(max, run);
    var s := After(max, run).value;
    assert Around(s, 0, n, k);
    if s.mu.Some? { assert Around(s, s.mu.value, n, k); }
  }

  // ---- lifecycle ----

  /** How far a sandbox has come: not in the pool yet, idle, active, releasing, removed. */
  function Stage(s: State, n: Name): nat {
    if n !in s.objects then 0
    else if n !in s.byName then 4
    else match s.objects[n].status case Idle => 1 case Active => 2 case Releasing => 3
  }

  lemma PutBackMovesBack(max: int, s: State, a: Action, n: Name)
    requires Enabled(max, s, a) && Acting(s, a) && PutBack(s, a, n)
    ensures Stage(s, n) > Stage(Next(max, s, a), n)
  {
    hide EntryInv, SandboxInv, IndexInv;
  }

  /** The steps that touch an entry or the cache. */
  lemma UntouchedStage(max: int, s: State, a: Action, n: Name)
    requires Enabled(max, s, a) && !a.WriteStatus? && !a.SetClaimed? && !a.SetActive? && !a.SetWarm? && !a.Mark? && !a.Drop?
    ensures Stage(Next(max, s, a), n) == Stage(s, n)
  {
  }

  lemma TouchedStage(max: int, s: State, a: Action, n: Name)
    requires Enabled(max, s, a) && Acting(s, a) && SandboxInv(s, n) && !PutBack(s, a, n)
    requires a.WriteStatus? || a.SetClaimed? || a.SetActive? || a.SetWarm? || a.Mark? || a.Drop?
    ensures Stage(s, n) <= Stage(Next(max, s, a), n)
  {
    hide EntryInv, IndexInv;
  }

  lemma StageStep(max: int, s: State, a: Action, n: Name)
    requires Inv(s) && Enabled(max, s, a)
    ensures Stage(s, n) <= Stage(Next(max, s, a), n) <==> !PutBack(s, a, n)
  {
    ActingFromInv(max, s, a);
    assert Around(s, 0, n, []);
    hide Inv, Enabled, Next, Acting, Stage;
    if PutBack(s, a, n) {
      PutBackMovesBack(max, s, a, n);
    } else if a.WriteStatus? || a.SetClaimed? || a.SetActive? || a.SetWarm? || a.Mark? || a.Drop? {
      TouchedStage(max, s, a, n);
    } else {
      UntouchedStage(max, s, a, n);
    }
  }

  lemma NotPutBack(max: int, run: seq<Action>, i: nat, n: Name)
    requires Legal(max, run) && i < |run| && !PutsBack(max, run, i)
    ensures !PutBack(StateAt(max, run, i), run[i], n)
  {
  }

  lemma {:induction false} MovesForward(max: int, run: seq<Action>, i: nat, j: nat, n: Name)
    requires Legal(max, run) && i <= j <= |run| && forall m :: 0 <= m < |run| ==> !PutsBack(max, run, m)
    ensures Stage(StateAt(max, run, i), n) <= Stage(StateAt(max, run, j), n)
    decreases j
  {
    if i < j {
      hide *;
      MovesForward(max, run, i, j - 1, n);
      StateStep(max, run, j - 1);
      ReachableAt(max, run, j - 1);
      NotPutBack(max, run, j - 1, n);
      StageStep(max, StateAt(max, run, j - 1), run[j - 1], n);
    }
  }

  /**
   Every sandbox only moves forward through idle, active, releasing and removed,
   if and only if no claim of the run puts back an entry that a release has dropped.
   */
  lemma StatusMovesForwardIff(max: int, run: seq<Action>)
    requires Legal(max, run)
    ensures (forall i, j, n :: 0 <= i <= j <= |run| ==> Stage(StateAt(max, run, i), n) <= Stage(StateAt(max, run, j), n))
       <==> (forall m :: 0 <= m < |run| ==> !PutsBack(max, run, m))
  {
    hide StateAt, Legal, Stage, PutBack;
    if forall m :: 0 <= m < |run| ==> !PutsBack(max, run, m) {
      forall i, j, n | 0 <= i <= j <= |run| ensures Stage(StateAt(max, run, i), n) <= Stage(StateAt(max, run, j), n) {
        MovesForward(max, run, i, j, n);
      }
    }
    if m :| 0 <= m < |run| && PutsBack(max, run, m) {
      var n :| PutBack(StateAt(max, run, m), run[m], n);
      StateStep(max, run, m);
      ReachableAt(max, run, m);
      StageStep(max, StateAt(max, run, m), run[m], n);
      assert !(Stage(StateAt(max, run, m), n) <= Stage(StateAt(max, run, m + 1), n));
    }
  }

  // ---- the claim that is overtaken ----

  /** The `j`-th action is a release dropping `n` between the status write and the `Set` of its claim. */
  predicate Overtakes(max: int, run: seq<Action>, j: nat, n: Name)
    requires Legal(max, run) && j < |run|
  {
    var s := StateAt(max, run, j);
    run[j].Drop? && MidClaim(s, n) && run[j].t in s.pcs && s.pcs[run[j].t] == Deleted(n)
  }

  lemma OvertakenStep(max: int, s: State, a: Action, n: Name)
    requires Inv(s) && Enabled(max, s, a) && MidClaim(s, n) && MidClaim(Next(max, s, a), n)
    ensures n !in Next(max, s, a).byName <==> n !in s.byName || (a.Drop? && a.t in s.pcs && s.pcs[a.t] == Deleted(n))
  {
    ActingFromInv(max, s, a);
    assert Around(s, s.mu.value, n, []);
    hide Inv, EntryInv, Around;
  }

  lemma ClaimStartsCached(max: int, s: State, a: Action, n: Name)
    requires Inv(s) && Enabled(max, s, a) && !MidClaim(s, n) && MidClaim(Next(max, s, a), n)
    ensures n in Next(max, s, a).byName && !InUse(s, n)
  {
    ClaimStarts(max, s, a, n);
    ActingFromInv(max, s, a);
    hide Inv, EntryInv, SandboxInv;
  }

  lemma MidClaimInUse(s: State, n: Name)
    requires Inv(s) && MidClaim(s, n)
    ensures InUse(s, n)
  {
    assert Around(s, s.mu.value, n, []);
  }

  /** A claim that is about to begin has not been overtaken. */
  lemma NotYetOvertaken(max: int, run: seq<Action>, j: nat, h: nat, n: Name)
    requires Legal(max, run) && j <= h < |run| && !InUse(StateAt(max, run, h), n)
    ensures !Overtakes(max, run, j, n)
  {
    hide StateAt, Legal, InUse;
    if MidClaim(StateAt(max, run, j), n) {
      ReachableAt(max, run, j);
      MidClaimInUse(StateAt(max, run, j), n);
      RunLasting(max, run, j, h, n, []);
    }
  }

  /** While `n` is being claimed it is out of the cache exactly when a release has overtaken the claim. */
  lemma {:induction false} OvertakenBefore(max: int, run: seq<Action>, i: nat, n: Name)
    requires Legal(max, run) && i <= |run| && MidClaim(StateAt(max, run, i), n)
    ensures n !in StateAt(max, run, i).byName <==> exists j :: 0 <= j < i && Overtakes(max, run, j, n)
  {
    hide Enabled, Next, Inv, StateAt, InUse, Legal, MidClaim, Overtakes;
    NotMidClaimAtFirst(max, run, n);
    var h := i - 1;
    StateStep(max, run, h);
    ReachableAt(max, run, h);
    if MidClaim(StateAt(max, run, h), n) {
      OvertakenBefore(max, run, h, n);
      OvertakenStep(max, StateAt(max, run, h), run[h], n);
      OvertakesNow(max, run, h, n);
    } else {
      ClaimStartsCached(max, StateAt(max, run, h), run[h], n);
      forall j | 0 <= j < i ensures !Overtakes(max, run, j, n) {
        NotYetOvertaken(max, run, j, h, n);
      }
    }
  }

  lemma NotMidClaimAtFirst(max: int, run: seq<Action>, n: Name)
    requires Legal(max, run)
    ensures !MidClaim(StateAt(max, run, 0), n)
  {
    StateEnds(max, run);
  }

  lemma OvertakesNow(max: int, run: seq<Action>, j: nat, n: Name)
    requires Legal(max, run) && j < |run| && MidClaim(StateAt(max, run, j), n)
    ensures var s := StateAt(max, run, j);
            Overtakes(max, run, j, n) <==> run[j].Drop? && run[j].t in s.pcs && s.pcs[run[j].t] == Deleted(n)
  {
  }

  /**
   A claim's `Set` puts its entry back if and only if some release has dropped the
   entry since the claim wrote its status.
   */
  lemma PutBackIffOvertaken(max: int, run: seq<Action>, i: nat, n: Name)
    requires Legal(max, run) && i < |run| && run[i].SetClaimed?
    requires run[i].t in StateAt(max, run, i).pcs && StateAt(max, run, i).pcs[run[i].t] == Stamped(n)
    ensures PutBack(StateAt(max, run, i), run[i], n) <==> exists j :: 0 <= j < i && Overtakes(max, run, j, n)
  {
    var s := StateAt(max, run, i);
    ReachableAt(max, run, i);
    assert Around(s, run[i].t, n, []);
    OvertakenBefore(max, run, i, n);
  }

  lemma Then(max: int, run: seq<Action>, s: State, a: Action)
    requires After(max, run) == Some(s) && Enabled(max, s, a)
    ensures After(max, run + [a]) == Some(Next(max, s, a))
  {
    LegalSnoc(max, run, a);
  }

  /** A warm sandbox nobody has used since `made`. */
  function Warmed(n: Name, host: bytes, made: int): State {
    INIT.(objects := map[n := Entry(host, [], Idle, made)], byName := {n}, live := {n}, madeBy := map[n := 0])
  }

  /** Its claim has written the status; a collection has taken the old activity for granted and removed it. */
  function Removed(n: Name, host: bytes, made: int): State {
    INIT.(objects := map[n := Entry(host, [], Releasing, made)], madeBy := map[n := 0], mu := Some(1), pcs := map[1 := Opened(n)])
  }

  /** The claim has gone on to its `Set`. */
  function PutBackIn(n: Name, host: bytes, session: Session, now: int): State {
    INIT.(objects := map[n := Entry(host, session, Releasing, now)], byName := {n}, bySession := map[session := n],
          madeBy := map[n := 0], owner := map[n := Grant(session, host)], issued := map[session := n], revived := {n})
  }

  lemma WarmRun(max: int, n: Name, host: bytes, made: int) returns (run: seq<Action>)
    requires max >= 1
    ensures After(max, run) == Some(Warmed(n, host, made))
  {
    var s1 := INIT.(pcs := map[0 := Creating(true)]);
    var s2 := INIT.(pcs := map[0 := Created(true, n, host)], live := {n}, madeBy := map[n := 0]);
    Then(max, [], INIT, PassCheck(0, true));
    assert Next(max, INIT, PassCheck(0, true)) == s1;
    run := [] + [PassCheck(0, true)];
    Then(max, run, s1, Create(0, n, host));
    assert Next(max, s1, Create(0, n, host)) == s2;
    run := run + [Create(0, n, host)];
    Then(max, run, s2, SetWarm(0, made));
    assert s2.pcs - {0} == map[];
    assert Next(max, s2, SetWarm(0, made)) == Warmed(n, host, made);
    run := run + [SetWarm(0, made)];
  }

  /** The claim has written the status, and a collection stands at `pc`. */
  function Watched(n: Name, host: bytes, made: int, status: Status, pc: Pc): State {
    Warmed(n, host, made).(objects := map[n := Entry(host, [], status, made)], mu := Some(1), pcs := map[1 := Opened(n), 2 := pc])
  }

  lemma SeenRun(max: int, before: seq<Action>, n: Name, host: bytes, made: int) returns (run: seq<Action>)
    requires After(max, before) == Some(Warmed(n, host, made))
    ensures After(max, run) == Some(Watched(n, host, made, Active, Seen(n)))
  {
    hide After;
    var s := Warmed(n, host, made);
    Then(max, before, s, PickIdle(1, n));
    run := before + [PickIdle(1, n)];
    var s1 := s.(mu := Some(1), pcs := map[1 := Picked(n)]);
    Then(max, run, s1, WriteStatus(1));
    run := run + [WriteStatus(1)];
    var s2 := s1.(objects := map[n := Entry(host, [], Active, made)], pcs := map[1 := Opened(n)]);
    assert Next(max, s1, WriteStatus(1)) == s2;
    Then(max, run, s2, GcSees(2, n));
    assert Next(max, s2, GcSees(2, n)) == Watched(n, host, made, Active, Seen(n));
    run := run + [GcSees(2, n)];
  }

  lemma MarkedRun(max: int, before: seq<Action>, n: Name, host: bytes, made: int, cutoff: int) returns (run: seq<Action>)
    requires After(max, before) == Some(Watched(n, host, made, Active, Seen(n))) && made < cutoff
    ensures After(max, run) == Some(Watched(n, host, made, Releasing, Marked(n)))
  {
    hide After;
    var s3, s4, s5 := Watched(n, host, made, Active, Seen(n)), Watched(n, host, made, Active, Doomed(n)), Watched(n, host, made, Active, Found(n));
    Then(max, before, s3, GcExpires(2, cutoff));
    assert Next(max, s3, GcExpires(2, cutoff)) == s4;
    run := before + [GcExpires(2, cutoff)];
    Then(max, run, s4, Find(2));
    assert Next(max, s4, Find(2)) == s5;
    run := run + [Find(2)];
    Then(max, run, s5, Mark(2));
    assert Next(max, s5, Mark(2)) == Watched(n, host, made, Releasing, Marked(n));
    run := run + [Mark(2)];
  }

  lemma CollectRun(max: int, before: seq<Action>, n: Name, host: bytes, made: int, cutoff: int) returns (run: seq<Action>)
    requires After(max, before) == Some(Warmed(n, host, made)) && made < cutoff
    ensures After(max, run) == Some(Removed(n, host, made))
  {
    hide After;
    run := SeenRun(max, before, n, host, made);
    run := MarkedRun(max, run, n, host, made, cutoff);
    var s6 := Watched(n, host, made, Releasing, Marked(n));
    Then(max, run, s6, Delete(2));
    run := run + [Delete(2)];
    var s7 := Watched(n, host, made, Releasing, Deleted(n)).(live := {});
    assert Next(max, s6, Delete(2)) == s7;
    Then(max, run, s7, Drop(2));
    run := run + [Drop(2)];
    assert s7.pcs - {2} == map[1 := Opened(n)] && {n} - {n} == {} && s7.bySession - {[]} == map[];
    assert Next(max, s7, Drop(2)) == Removed(n, host, made);
  }

  lemma SetRun(max: int, before: seq<Action>, n: Name, host: bytes, made: int, session: Session, now: int) returns (run: seq<Action>)
    requires After(max, before) == Some(Removed(n, host, made)) && session != []
    ensures After(max, run) == Some(PutBackIn(n, host, session, now)) && before <= run
  {
    var s := Removed(n, host, made);
    Then(max, before, s, WriteSession(1, session));
    run := before + [WriteSession(1, session)];
    var s1 := s.(objects := map[n := Entry(host, session, Releasing, made)], pcs := map[1 := Named(n)], issued := map[session := n]);
    assert Next(max, s, WriteSession(1, session)) == s1;
    Then(max, run, s1, WriteActivity(1, now));
    run := run + [WriteActivity(1, now)];
    var s2 := s1.(objects := map[n := Entry(host, session, Releasing, now)], pcs := map[1 := Stamped(n)]);
    assert Next(max, s1, WriteActivity(1, now)) == s2;
    Then(max, run, s2, SetClaimed(1));
    run := run + [SetClaimed(1)];
    assert s2.pcs - {1} == map[];
    assert Next(max, s2, SetClaimed(1)) == PutBackIn(n, host, session, now);
  }

  /**
   An idle entry older than the cutoff can be collected while it is being claimed:
   whatever the sandbox and the session, some run ends with no operation in flight,
   the sandbox deleted, its entry in the cache again, and the user holding a session to it.
   */
  lemma OvertakenClaim(max: int, n: Name, host: bytes, session: Session, made: int, cutoff: int, now: int)
      returns (run: seq<Action>, i: nat)
    requires max >= 1 && session != [] && made < cutoff
    ensures Legal(max, run) && i <= |run|
    ensures var s := After(max, run).value;
            && s.pcs == map[] && n in s.byName && n !in s.live
            && n in s.owner && s.owner[n].session == session && session in s.bySession && s.bySession[session] == n
            && Stranded(s, n) && Stage(StateAt(max, run, i), n) == 4 && Stage(s, n) == 3
  {
    var warm := WarmRun(max, n, host, made);
    var collected := CollectRun(max, warm, n, host, made, cutoff);
    run := SetRun(max, collected, n, host, made, session, now);
    i := |collected|;
    assert run[..i] == collected;
  }

  /** The exception to the session index is real: in the middle of a claim the entry has its session, the index not yet. */
  lemma ClaimIsUnindexed(max: int, n: Name, host: bytes, session: Session, made: int) returns (run: seq<Action>)
    requires max >= 1 && session != []
    ensures Legal(max, run)
    ensures var s := After(max, run).value;
            MidClaim(s, n) && n in s.byName && n in s.objects && s.objects[n].session == session && session !in s.bySession
  {
    hide After;
    var s := Warmed(n, host, made);
    run := WarmRun(max, n, host, made);
    Then(max, run, s, PickIdle(1, n));
    run := run + [PickIdle(1, n)];
    var s1 := Next(max, s, PickIdle(1, n));
    Then(max, run, s1, WriteStatus(1));
    run := run + [WriteStatus(1)];
    var s2 := Next(max, s1, WriteStatus(1));
    Then(max, run, s2, WriteSession(1, session));
    run := run + [WriteSession(1, session)];
  }

  // ---- what a release is made for ----

  /** Thread `t` is releasing `n`. */
  predicate Releases(s: State, t: Thread, n: Name) {
    t in s.pcs && s.pcs[t] in {Doomed(n), Found(n), Marked(n), Deleted(n)}
  }

  /** Thread `t` has read that `n` is active and will judge its last activity. */
  predicate Judges(s: State, t: Thread, n: Name) { t in s.pcs && s.pcs[t] == Seen(n) }

  /** The `h`-th action: a collection sees that the entry is active. */
  predicate SeesActive(max: int, run: seq<Action>, h: nat, t: Thread, n: Name)
    requires Legal(max, run) && h < |run|
  {
    var s := StateAt(max, run, h);
    run[h] == GcSees(t, n) && n in s.objects && s.objects[n].status.Active?
  }

  /**
   The `j`-th action: Release is called for a sandbox that was handed out, or a
   collection that has seen it active finds its last activity before the cutoff.
   */
  ghost predicate Condemns(max: int, run: seq<Action>, j: nat, t: Thread, n: Name)
    requires Legal(max, run) && j < |run|
  {
    var s := StateAt(max, run, j);
    || (run[j] == Call(t, n) && n in s.owner)
    || (&& run[j].GcExpires? && run[j].t == t && n in s.objects && s.objects[n].lastActivity < run[j].cutoff
        && exists h :: 0 <= h < j && SeesActive(max, run, h, t, n))
  }

  lemma JudgesStep(max: int, s: State, a: Action, t: Thread, n: Name)
    requires Enabled(max, s, a) && Judges(Next(max, s, a), t, n)
    ensures Judges(s, t, n) || (a == GcSees(t, n) && n in s.objects && s.objects[n].status.Active?)
  {
    if t != a.t { OtherThread(max, s, a, t); }
  }

  lemma ReleasesStep(max: int, s: State, a: Action, t: Thread, n: Name)
    requires Enabled(max, s, a) && Releases(Next(max, s, a), t, n)
    ensures || Releases(s, t, n) || (a == Call(t, n) && n in s.owner)
            || (a.GcExpires? && a.t == t && Judges(s, t, n) && n in s.objects && s.objects[n].lastActivity < a.cutoff)
  {
    if t != a.t { OtherThread(max, s, a, t); }
  }

  lemma {:induction false} JudgesSince(max: int, run: seq<Action>, i: nat, t: Thread, n: Name)
    requires Legal(max, run) && i <= |run| && Judges(StateAt(max, run, i), t, n)
    ensures exists h :: 0 <= h < i && SeesActive(max, run, h, t, n)
  {
    StateEnds(max, run);
    assert i > 0;
    hide Enabled, Next, StateAt, Legal;
    StateStep(max, run, i - 1);
    JudgesStep(max, StateAt(max, run, i - 1), run[i - 1], t, n);
    if Judges(StateAt(max, run, i - 1), t, n) {
      JudgesSince(max, run, i - 1, t, n);
    } else {
      assert SeesActive(max, run, i - 1, t, n);
    }
  }

  lemma {:induction false} ReleasesSince(max: int, run: seq<Action>, i: nat, t: Thread, n: Name)
    requires Legal(max, run) && i <= |run| && Releases(StateAt(max, run, i), t, n)
    ensures exists j :: 0 <= j < i && Condemns(max, run, j, t, n)
  {
    StateEnds(max, run);
    assert i > 0;
    hide Enabled, Next, StateAt, Legal;
    var s := StateAt(max, run, i - 1);
    StateStep(max, run, i - 1);
    ReleasesStep(max, s, run[i - 1], t, n);
    if Releases(s, t, n) {
      ReleasesSince(max, run, i - 1, t, n);
    } else {
      if Judges(s, t, n) { JudgesSince(max, run, i - 1, t, n); }
      assert Condemns(max, run, i - 1, t, n);
    }
  }

  /**
   Nothing is marked, deleted or dropped for nothing: the thread that does it was
   called to release that sandbox, which had been handed out, or has collected it,
   having seen it active and found its last activity before the cutoff. And no
   sandbox goes but by such a delete.
   */
  lemma ReleasedForCause(max: int, run: seq<Action>, i: nat, n: Name)
    requires Legal(max, run) && i < |run|
    ensures var s, s', t := StateAt(max, run, i), StateAt(max, run, i + 1), run[i].t;
            && (n in s.live && n !in s'.live ==> run[i].Delete? && Releases(s, t, n))
            && ((run[i].Mark? || run[i].Delete? || run[i].Drop?) && Releases(s, t, n) ==>
                  exists j :: 0 <= j < i && Condemns(max, run, j, t, n))
  {
    StateStep(max, run, i);
    var s := StateAt(max, run, i);
    assert n in s.live && n !in Next(max, s, run[i]).live ==> run[i].Delete? && Releases(s, run[i].t, n);
    hide Enabled, Next, StateAt, Legal, Condemns;
    if Releases(s, run[i].t, n) { ReleasesSince(max, run, i, run[i].t, n); }
  }
}
