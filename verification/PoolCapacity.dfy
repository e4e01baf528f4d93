/** How many sandboxes the pool can hold when the capacity check and the insertion are apart. */
module PoolCapacity {
  import opened Common
  import opened PoolTypes
  import opened PoolMachine

  // ---- capacity ----

  /** The threads between the capacity check and cache.Set. */
  function Creators(s: State): set<Thread> { set t | t in s.pcs && IsCreator(s, t) }

  predicate IsCreator(s: State, t: Thread) { t in s.pcs && (s.pcs[t].Creating? || s.pcs[t].Created?) }

  predicate Inserts(a: Action) { a.SetActive? || a.SetWarm? }

  lemma CreatorActs(max: int, s: State, a: Action)
    requires Enabled(max, s, a) && (a.Create? || a.CreateFails? || Inserts(a))
    ensures IsCreator(s, a.t) && (IsCreator(Next(max, s, a), a.t) <==> a.Create?)
  {
  }

  lemma NoCreatorActs(max: int, s: State, a: Action)
    requires Enabled(max, s, a) && !a.PassCheck? && !a.Create? && !a.CreateFails? && !Inserts(a)
    ensures !IsCreator(s, a.t)
  {
    hide Next;
  }

  lemma NoCreatorStarts(max: int, s: State, a: Action)
    requires Enabled(max, s, a) && !a.PassCheck? && !a.Create? && !IsCreator(s, a.t)
    ensures !IsCreator(Next(max, s, a), a.t)
  {
    hide Enabled;
  }

  lemma OwnThread(max: int, s: State, a: Action)
    requires Enabled(max, s, a) && !a.PassCheck?
    ensures IsCreator(Next(max, s, a), a.t) <==> IsCreator(s, a.t) && !a.CreateFails? && !Inserts(a)
  {
    hide Enabled, Next, IsCreator;
    if a.Create? || a.CreateFails? || Inserts(a) {
      CreatorActs(max, s, a);
    } else {
      NoCreatorActs(max, s, a);
      NoCreatorStarts(max, s, a);
    }
  }

  lemma CreatorsStep(max: int, s: State, a: Action)
    requires Enabled(max, s, a) && !a.PassCheck?
    ensures Creators(Next(max, s, a)) == if a.CreateFails? || Inserts(a) then Creators(s) - {a.t} else Creators(s)
  {
    var s' := Next(max, s, a);
    OwnThread(max, s, a);
    hide Next, Enabled;
    forall t | t != a.t ensures IsCreator(s', t) <==> IsCreator(s, t) {
      OtherThread(max, s, a, t);
    }
  }

  /** The entry a thread inside claimIdle is about. */
  function ClaimedBy(pc: Pc): set<Name> {
    match pc
    case Picked(n) => {n}
    case Opened(n) => {n}
    case Named(n) => {n}
    case Stamped(n) => {n}
    case _ => {}
  }

  /** The entry being claimed: it keeps its place even while it is out of the cache. */
  function Reserved(s: State): set<Name> {
    if s.mu.Some? && s.mu.value in s.pcs then ClaimedBy(s.pcs[s.mu.value]) else {}
  }

  lemma CachedStep(max: int, s: State, a: Action, n: Name)
    requires Enabled(max, s, a) && n in Next(max, s, a).byName
    ensures n in s.byName || ((Inserts(a) || a.SetClaimed?) && n == s.pcs[a.t].name)
  {
    hide Enabled;
  }

  lemma ReservedStep(max: int, s: State, a: Action, n: Name)
    requires Enabled(max, s, a) && n in Reserved(Next(max, s, a))
    ensures n in Reserved(s) || n in s.byName
  {
  }

  lemma PlacedStep(max: int, s: State, a: Action, n: Name)
    requires Enabled(max, s, a) && Acting(s, a) && n in Next(max, s, a).byName + Reserved(Next(max, s, a))
    ensures n in s.byName + Reserved(s) || (Inserts(a) && n == s.pcs[a.t].name)
  {
    assert a.SetClaimed? ==> s.pcs[a.t].name in Reserved(s);
    hide Next, Enabled, Acting, Reserved;
    if n in Next(max, s, a).byName {
      CachedStep(max, s, a, n);
    } else {
      ReservedStep(max, s, a, n);
    }
  }

  lemma PlacesStep(max: int, s: State, a: Action)
    requires Enabled(max, s, a) && Acting(s, a)
    ensures |Next(max, s, a).byName + Reserved(Next(max, s, a))| <= |s.byName + Reserved(s)| + if Inserts(a) then 1 else 0
  {
    var places, places' := s.byName + Reserved(s), Next(max, s, a).byName + Reserved(Next(max, s, a));
    var added := if Inserts(a) then {s.pcs[a.t].name} else {};
    forall n | n in places' ensures n in places + added {
      PlacedStep(max, s, a, n);
    }
    hide Next, Enabled, Acting, Reserved;
    SubsetSize(places', places + added);
  }

  /** The places taken and the creators on their way to one. */
  function Load(s: State): nat { |s.byName + Reserved(s)| + |Creators(s)| }

  lemma LoadStep(max: int, s: State, a: Action)
    requires Inv(s) && Enabled(max, s, a) && !a.PassCheck?
    ensures Load(Next(max, s, a)) <= Load(s)
  {
    ActingFromInv(max, s, a);
    PlacesStep(max, s, a);
    CreatorsStep(max, s, a);
    if Inserts(a) { assert IsCreator(s, a.t); }
    hide Reserved, Acting, Inv, IsCreator, Next, Enabled;
    SubsetSize(Creators(Next(max, s, a)), Creators(s));
  }

  lemma CheckStep(max: int, s: State, a: Action)
    requires Enabled(max, s, a) && a.PassCheck?
    ensures Load(Next(max, s, a)) <= max - 1 + |Creators(Next(max, s, a))|
  {
    hide Creators;
    assert Next(max, s, a).byName + Reserved(Next(max, s, a)) == s.byName;
  }

  lemma SubsetSize<T>(a: set<T>, b: set<T>)
    requires a <= b
    ensures |a| <= |b|
  {
    assert b == a + (b - a);
  }

  /** At no moment of the run are more than `k` threads between the check and the insertion. */
  ghost predicate AtMostCreating(max: int, run: seq<Action>, k: nat)
    requires Legal(max, run)
  {
    forall i :: 0 <= i <= |run| ==> |Creators(StateAt(max, run, i))| <= k
  }

  lemma {:induction false} LoadBound(max: int, run: seq<Action>, k: nat, i: nat)
    requires Legal(max, run) && max >= 1 && k >= 1 && AtMostCreating(max, run, k) && i <= |run|
    ensures Load(StateAt(max, run, i)) <= max - 1 + k
  {
    StateEnds(max, run);
    if i > 0 {
      LoadBound(max, run, k, i - 1);
      StateStep(max, run, i - 1);
      ReachableAt(max, run, i - 1);
      var s, a := StateAt(max, run, i - 1), run[i - 1];
      assert |Creators(StateAt(max, run, i))| <= k;
      hide *;
      if a.PassCheck? {
        CheckStep(max, s, a);
      } else {
        LoadStep(max, s, a);
      }
    }
  }

  /** With at most `k` creators at a time the cache and the creators together never exceed `max - 1 + k`. */
  lemma CapacityBound(max: int, run: seq<Action>, k: nat)
    requires Legal(max, run) && max >= 1 && k >= 1 && AtMostCreating(max, run, k)
    ensures var s := After(max, run).value; |s.byName| + |Creators(s)| <= max - 1 + k
  {
    LoadBound(max, run, k, |run|);
    StateEnds(max, run);
    var s := After(max, run).value;
    SubsetSize(s.byName, s.byName + Reserved(s));
  }

  // ---- the bound is attained, so the documented hard cap is not one ----

  lemma Extend(max: int, run: seq<Action>, a: Action, k: nat)
    requires Legal(max, run) && AtMostCreating(max, run, k) && Enabled(max, After(max, run).value, a)
    requires |Next(max, After(max, run).value, a).pcs| <= k
    ensures Legal(max, run + [a]) && AtMostCreating(max, run + [a], k)
    ensures After(max, run + [a]).value == Next(max, After(max, run).value, a)
  {
    LegalSnoc(max, run, a);
    var s' := Next(max, After(max, run).value, a);
    SubsetSize(Creators(s'), s'.pcs.Keys);
    hide After, Next, Enabled, Creators;
    StateEnds(max, run + [a]);
    forall i | 0 <= i <= |run + [a]| ensures |Creators(StateAt(max, run + [a], i))| <= k {
      if i <= |run| { SameStates(max, run, a, i); }
    }
  }

  lemma SameStates(max: int, run: seq<Action>, a: Action, i: nat)
    requires Legal(max, run) && Legal(max, run + [a]) && i <= |run|
    ensures StateAt(max, run + [a], i) == StateAt(max, run, i)
  {
    assert (run + [a])[..i] == run[..i];
  }

  /** A state with `n` sandboxes in which the names and sessions `Dec(n)`, `Dec(n + 1)`, ... are still free. */
  ghost predicate Holds(s: State, n: nat, pcs: map<Thread, Pc>) {
    && s.pcs == pcs && s.mu.None? && |s.byName| == n
    && forall i: nat :: i >= n ==> Dec(i) !in s.madeBy && Dec(i) !in s.issued && Dec(i) !in s.byName && Dec(i) !in s.objects
  }

  ghost predicate Reaches(max: int, run: seq<Action>, k: nat, n: nat, pcs: map<Thread, Pc>) {
    Legal(max, run) && AtMostCreating(max, run, k) && Holds(After(max, run).value, n, pcs)
  }

  /** Thread `t`, already past the check, creates a sandbox and inserts it. */
  lemma InsertOne(max: int, run: seq<Action>, k: nat, n: nat, pcs: map<Thread, Pc>, t: Thread) returns (longer: seq<Action>)
    requires Reaches(max, run, k, n, pcs) && t in pcs && pcs[t] == Creating(false) && |pcs| <= k
    ensures Reaches(max, longer, k, n + 1, pcs - {t})
  {
    var create, insert := Create(t, Dec(n), []), SetActive(t, Dec(n), 0);
    var s := After(max, run).value;
    var s1 := Next(max, s, create);
    assert s1.pcs.Keys == pcs.Keys;
    Extend(max, run, create, k);
    SubsetSize((pcs - {t}).Keys, pcs.Keys);
    assert s1.pcs - {t} == pcs - {t};
    Extend(max, run + [create], insert, k);
    longer := run + [create] + [insert];
    forall i: nat | i >= n + 1 ensures Dec(i) != Dec(n) { UndecDec(i); UndecDec(n); }
  }

  lemma Check(max: int, run: seq<Action>, k: nat, n: nat, pcs: map<Thread, Pc>, t: Thread) returns (longer: seq<Action>)
    requires Reaches(max, run, k, n, pcs) && n < max && t !in pcs && |pcs| < k
    ensures Reaches(max, longer, k, n, pcs[t := Creating(false)])
  {
    Extend(max, run, PassCheck(t, false), k);
    longer := run + [PassCheck(t, false)];
  }

  /** One thread alone fills the pool to any size up to the limit. */
  lemma {:induction false} Fill(max: int, k: nat, n: nat) returns (run: seq<Action>)
    requires k >= 1 && n <= max
    ensures Reaches(max, run, k, n, map[])
  {
    if n == 0 {
      run := [];
    } else {
      run := Fill(max, k, n - 1);
      run := Check(max, run, k, n - 1, map[], 0);
      run := InsertOne(max, run, k, n - 1, map[0 := Creating(false)], 0);
      assert map[0 := Creating(false)] - {0} == map[];
    }
  }

  /** Threads `lo` to `hi - 1` are past the check. */
  function Waiting(lo: nat, hi: nat): (m: map<Thread, Pc>)
    requires lo <= hi
    ensures |m| == hi - lo && forall t :: t in m <==> lo <= t < hi
    ensures forall t :: t in m ==> m[t] == Creating(false)
    decreases hi - lo
  {
    if lo == hi then map[] else Waiting(lo, hi - 1)[hi - 1 := Creating(false)]
  }

  /** All `k` threads pass the check while one slot is free, and then all insert. */
  lemma {:induction false} CheckAll(max: int, k: nat, j: nat) returns (run: seq<Action>)
    requires max >= 1 && 1 <= k && j <= k
    ensures Reaches(max, run, k, max - 1, Waiting(0, j))
  {
    if j == 0 {
      run := Fill(max, k, max - 1);
    } else {
      run := CheckAll(max, k, j - 1);
      run := Check(max, run, k, max - 1, Waiting(0, j - 1), j - 1);
    }
  }

  lemma WaitingFront(lo: nat, hi: nat)
    requires lo < hi
    ensures Waiting(lo, hi) - {lo} == Waiting(lo + 1, hi)
  {
  }

  lemma {:induction false} InsertAll(max: int, k: nat, j: nat) returns (run: seq<Action>)
    requires max >= 1 && 1 <= k && j <= k
    ensures Reaches(max, run, k, max - 1 + j, Waiting(j, k))
  {
    hide Reaches;
    if j == 0 {
      run := CheckAll(max, k, k);
    } else {
      run := InsertAll(max, k, j - 1);
      run := InsertOne(max, run, k, max - 2 + j, Waiting(j - 1, k), j - 1);
      WaitingFront(j - 1, k);
    }
  }

  /** For every limit and every number of concurrent creators, some run reaches the bound. */
  lemma CapacityBoundAttained(max: int, k: nat) returns (run: seq<Action>)
    requires max >= 1 && k >= 1
    ensures Legal(max, run) && AtMostCreating(max, run, k) && |After(max, run).value.byName| == max - 1 + k
  {
    run := InsertAll(max, k, k);
  }

  /** `maxSize` is a hard cap exactly when creators never overlap. */
  lemma HardCapIffOneCreator(max: int, k: nat)
    requires max >= 1 && k >= 1
    ensures (forall run :: Legal(max, run) && AtMostCreating(max, run, k) ==> |After(max, run).value.byName| <= max) <==> k == 1
  {
    if k == 1 {
      forall run | Legal(max, run) && AtMostCreating(max, run, k) ensures |After(max, run).value.byName| <= max {
        CapacityBound(max, run, k);
      }
    } else {
      var run := CapacityBoundAttained(max, k);
    }
  }
}
