/**
 `PoolManager` of internal/pool/manager.go over the shared cache, one call at a
 time. The provider's answers, the clock and fresh session ids are parameters;
 the interleavings of these methods are the subject of `PoolMachine`.
 */
module PoolManagers {
  import opened Common
  import opened PoolTypes
  import opened AllocationCaches

  datatype Error = PoolExhausted | ProviderFailed | SessionNotFound

  /** The provider's answer to CreateSandbox. */
  datatype Sandbox = Sandbox(name: Name, host: bytes)

  /** Release of `name`: marked, and removed when the provider deleted the sandbox. */
  function Released(table: map<Name, View>, name: Name, deleted: bool): map<Name, View> {
    if name !in table then table
    else if deleted then table - {name}
    else table[name := table[name].(status := Releasing)]
  }

  predicate Expired(v: View, cutoff: int) { v.status.Active? && v.lastActivity < cutoff }

  /** One garbage collection: every expired active entry is released, everything else stays. */
  function Collected(table: map<Name, View>, cutoff: int, undeletable: set<Name>): map<Name, View> {
    map n | n in table && !(Expired(table[n], cutoff) && n !in undeletable) ::
      if Expired(table[n], cutoff) then table[n].(status := Releasing) else table[n]
  }

  /** Idle entries have no session and active ones have one. */
  predicate RowInv(v: View) { (v.status.Idle? ==> v.session == []) && (v.status.Active? ==> v.session != []) }

  predicate PoolInv(table: map<Name, View>, index: map<Session, Name>) {
    Exact(table, index) && forall n :: n in table ==> RowInv(table[n])
  }

  predicate Unassigned(table: map<Name, View>, session: Session) { forall n :: n in table ==> table[n].session != session }

  lemma SetInv(table: map<Name, View>, index: map<Session, Name>, n: Name, v: View)
    requires PoolInv(table, index) && RowInv(v)
    requires (n in table ==> table[n].status.Idle?) && (v.session != [] ==> Unassigned(table, v.session))
    ensures PoolInv(table[n := v], if v.session != [] then index[v.session := n] else index)
  {
    SetExactIff(table, index, n, v);
  }

  lemma UpdateInv(table: map<Name, View>, index: map<Session, Name>, n: Name, v: View)
    requires PoolInv(table, index) && n in table && v.session == table[n].session && RowInv(v)
    ensures PoolInv(table[n := v], index) && Exact(table[n := v], index)
  {
    UpdateExact(table, index, n, v);
  }

  lemma DeleteInv(table: map<Name, View>, index: map<Session, Name>, n: Name)
    requires PoolInv(table, index) && n in table
    ensures PoolInv(table - {n}, if table[n].session != [] then index - {table[n].session} else index)
  {
    DeleteExact(table, index, n);
  }

  /**
   An idle entry turned over to the user, failing that a new one if there is room
   and the provider made a sandbox, failing that nothing.
   */
  ghost predicate AllocatedAs(t: map<Name, View>, t': map<Name, View>, maxSize: int, userID: bytes, session: Session, now: int,
      created: Option<Sandbox>, r: Result<Name, Error>)
  {
    if WithStatus(t, Idle) != {} then
      && r.Ok? && r.value in t && t[r.value].status.Idle?
      && t' == t[r.value := t[r.value].(status := Active, user := userID, session := session, lastActivity := now)]
    else if |t| >= maxSize then r == Err(PoolExhausted) && t' == t
    else if created.None? then r == Err(ProviderFailed) && t' == t
    else
      r == Ok(created.value.name) && t' == t[created.value.name := View(created.value.host, session, userID, now, now, Active)]
  }

  class PoolManager {
    const cache: AllocationCache
    const maxSize: int

    constructor (cache: AllocationCache, maxSize: int)
      ensures this.cache == cache && this.maxSize == maxSize
    {
      this.cache, this.maxSize := cache, maxSize;
    }

    ghost predicate Valid()
      reads this, cache, cache.byName.Values, cache.bySession.Values
    {
      cache.Linked() && PoolInv(cache.Table(), cache.Index())
    }

    ghost function Table(): map<Name, View>
      reads this, cache, cache.byName.Values
    {
      cache.Table()
    }

    /** Writes the claim into an idle entry and indexes it under its session. */
    method TurnOver(alloc: Allocation, userID: bytes, session: Session, now: int)
      requires Valid() && session != [] && Unassigned(Table(), session)
      requires alloc.sandboxName in cache.byName && cache.byName[alloc.sandboxName] == alloc && alloc.status.Idle?
      modifies cache, alloc
      ensures Valid() && cache.byName == old(cache.byName)
      ensures var n, t := alloc.sandboxName, old(Table());
              n in t && Table() == t[n := t[n].(status := Active, user := userID, session := session, lastActivity := now)]
    {
      ghost var n, t, ix := alloc.sandboxName, Table(), cache.Index();
      ghost var v := alloc.Snapshot().(status := Active, user := userID, session := session, lastActivity := now);
      SetInv(t, ix, n, v);
      hide PoolInv, Exact;
      alloc.status := Active;
      alloc.userID := userID;
      alloc.sessionID := session;
      alloc.lastActivity := now;
      cache.RowChanged(n);
      cache.Set(alloc);
      assert t[n := v][n := v] == t[n := v];
    }

    /** Turns some idle entry over to the user, if there is one. */
    method ClaimIdle(userID: bytes, session: Session, now: int) returns (claimed: Option<Allocation>)
      requires Valid() && session != [] && Unassigned(Table(), session)
      modifies cache, cache.byName.Values
      ensures Valid() && cache.byName == old(cache.byName)
      ensures claimed.None? <==> WithStatus(old(Table()), Idle) == {}
      ensures claimed.None? ==> Table() == old(Table())
      ensures claimed.Some? ==>
                var n, t := claimed.value.sandboxName, old(Table());
                && n in t && t[n].status.Idle? && claimed.value == cache.byName[n]
                && Table() == t[n := t[n].(status := Active, user := userID, session := session, lastActivity := now)]
    {
      hide PoolInv, Exact;
      var idle := cache.ListByStatus(Idle);
      if |idle| == 0 {
        return None;
      }
      var alloc := idle[0];
      assert alloc.sandboxName in WithStatus(Table(), Idle);
      TurnOver(alloc, userID, session, now);
      return Some(alloc);
    }

    /** Inserts a newly created sandbox. */
    method Insert(sandbox: Sandbox, session: Session, userID: bytes, now: int, status: Status) returns (alloc: Allocation)
      requires Valid() && sandbox.name !in cache.byName && (status.Idle? <==> session == [])
      requires session != [] ==> Unassigned(Table(), session)
      modifies cache
      ensures Valid() && fresh(alloc) && alloc.sandboxName == sandbox.name && alloc.serviceFQDN == sandbox.host
      ensures alloc.sessionID == session && cache.byName == old(cache.byName)[sandbox.name := alloc]
      ensures Table() == old(Table())[sandbox.name := View(sandbox.host, session, userID, now, now, status)]
    {
      hide PoolInv;
      ghost var t, ix := Table(), cache.Index();
      ghost var v := View(sandbox.host, session, userID, now, now, status);
      SetInv(t, ix, sandbox.name, v);
      alloc := new Allocation(sandbox.name, sandbox.host, session, userID, now, status);
      cache.Set(alloc);
    }

    /**
     An idle sandbox if there is one, failing that a new one if there is room.
     A failing provider and an exhausted pool leave everything as it was.
     */
    method Allocate(userID: bytes, session: Session, now: int, created: Option<Sandbox>) returns (r: Result<Allocation, Error>)
      requires Valid() && session != [] && Unassigned(Table(), session) && (created.Some? ==> created.value.name !in cache.byName)
      modifies cache, cache.byName.Values
      ensures Valid() && fresh(cache.byName.Values - old(cache.byName.Values))
      ensures r.Ok? ==> r.value.sandboxName in cache.byName && r.value == cache.byName[r.value.sandboxName] && r.value.sessionID == session
      ensures AllocatedAs(old(Table()), Table(), maxSize, userID, session, now, created,
                          if r.Ok? then Ok(r.value.sandboxName) else Err(r.error))
    {
      hide PoolInv;
      var claimed := ClaimIdle(userID, session, now);
      if claimed.Some? {
        return Ok(claimed.value);
      }
      var len := cache.Len();
      assert Table().Keys == cache.byName.Keys;
      if len >= maxSize {
        return Err(PoolExhausted);
      }
      if created.None? {
        return Err(ProviderFailed);
      }
      var alloc := Insert(created.value, session, userID, now, Active);
      return Ok(alloc);
    }

    method AllocateWarm(now: int, created: Option<Sandbox>) returns (r: Result<Allocation, Error>)
      requires Valid() && (created.Some? ==> created.value.name !in Table())
      modifies cache
      ensures Valid() && fresh(cache.byName.Values - old(cache.byName.Values))
      ensures var t := old(Table());
              if |t| >= maxSize then r == Err(PoolExhausted) && Table() == t
              else if created.None? then r == Err(ProviderFailed) && Table() == t
              else
                && r.Ok? && r.value.sandboxName == created.value.name
                && Table() == t[created.value.name := View(created.value.host, [], [], now, now, Idle)]
    {
      hide PoolInv;
      var len := cache.Len();
      assert Table().Keys == cache.byName.Keys;
      if len >= maxSize {
        return Err(PoolExhausted);
      }
      if created.None? {
        return Err(ProviderFailed);
      }
      var alloc := Insert(created.value, [], [], now, Idle);
      return Ok(alloc);
    }

    /** Marks the entry, and removes it from both indexes once the provider has deleted the sandbox. */
    method Release(sandboxName: Name, deleted: bool) returns (ok: bool)
      requires Valid()
      modifies cache, cache.byName.Values
      ensures Valid() && ok == (sandboxName !in old(cache.byName) || deleted)
      ensures cache.byName == if deleted then old(cache.byName) - {sandboxName} else old(cache.byName)
      ensures Table() == Released(old(Table()), sandboxName, deleted)
    {
      hide PoolInv, Exact;
      var a := cache.Get(sandboxName);
      if a.None? {
        return true;
      }
      ghost var marked := a.value.Snapshot().(status := Releasing);
      ghost var t, ix := Table()[sandboxName := marked], cache.Index();
      UpdateInv(Table(), ix, sandboxName, marked);
      DeleteInv(t, ix, sandboxName);
      a.value.status := Releasing;
      cache.RowChanged(sandboxName);
      if !deleted {
        return false;
      }
      cache.Delete(sandboxName);
      assert t - {sandboxName} == old(Table()) - {sandboxName};
      return true;
    }

    method Heartbeat(sessionID: Session, now: int) returns (r: Result<(), Error>)
      requires Valid()
      modifies cache.byName.Values
      ensures Valid() && cache.byName == old(cache.byName)
      ensures match Search(old(Table()), sessionID)
              case Some(n) => r.Ok? && n in old(Table()) && Table() == old(Table())[n := old(Table())[n].(lastActivity := now)]
              case None => r == Err(SessionNotFound) && Table() == old(Table())
    {
      assert cache.Coherent();
      hide PoolInv, Exact;
      var a := cache.GetBySession(sessionID);
      if a.None? {
        return Err(SessionNotFound);
      }
      ghost var n, v := a.value.sandboxName, a.value.Snapshot().(lastActivity := now);
      ghost var t, ix := Table()[n := v], cache.Index();
      UpdateInv(Table(), ix, n, v);
      a.value.lastActivity := now;
      cache.RowChanged(n);
      return Ok(());
    }

    /** One step of the collection, on an allocation that is still in the cache. */
    method ReleaseIfExpired(alloc: Allocation, cutoff: int, undeletable: set<Name>)
      requires Valid() && alloc.sandboxName in cache.byName && cache.byName[alloc.sandboxName] == alloc
      modifies cache, cache.byName.Values
      ensures Valid()
      ensures cache.byName == old(cache.byName) || cache.byName == old(cache.byName) - {alloc.sandboxName}
      ensures var n, t := alloc.sandboxName, old(Table());
              n in t && Table() == if Expired(t[n], cutoff) then Released(t, n, n !in undeletable) else t
    {
      hide PoolInv, Released;
      if alloc.status.Idle? || alloc.status.Releasing? {
      } else if alloc.lastActivity < cutoff {
        var _ := Release(alloc.sandboxName, alloc.sandboxName !in undeletable);
      }
    }

    /**
     Releases every active entry idle since before the cutoff and touches nothing
     else; `undeletable` are the names whose provider delete fails.
     */
    method RunGC(cutoff: int, undeletable: set<Name>)
      requires Valid()
      modifies cache, cache.byName.Values
      ensures Valid() && Swept(old(Table()), Table(), cutoff, undeletable)
      ensures Table() == Collected(old(Table()), cutoff, undeletable)
    {
      hide PoolInv, Exact, Released, CollectedUpTo, Expired, Swept, Collected;
      assert forall n :: n in cache.byName ==> cache.byName[n].sandboxName == n;
      ghost var t := Table();
      ghost var objects := cache.byName;
      CollectNone(t, cutoff, undeletable);
      var all := cache.List();
      assert forall n :: n in t ==> objects[n] in all;
      ghost var done: set<Name> := {};
      for i := 0 to |all|
        invariant Valid() && cache.byName.Keys <= objects.Keys && forall n :: n in cache.byName ==> cache.byName[n] == objects[n]
        invariant Table() == CollectedUpTo(t, cutoff, undeletable, done)
        invariant forall j :: 0 <= j < i ==> all[j].sandboxName in done
        invariant forall j :: i <= j < |all| ==> all[j].sandboxName in cache.byName && all[j].sandboxName !in done
      {
        var alloc := all[i];
        CollectOne(t, cutoff, undeletable, done, alloc.sandboxName);
        ReleaseIfExpired(alloc, cutoff, undeletable);
        done := done + {alloc.sandboxName};
      }
      CollectAll(t, cutoff, undeletable, done);
      SweptIffCollected(t, Table(), cutoff, undeletable, {});
    }

    /** One round of the replenishment, with the answers the provider has still to give. */
    method AddWarm(now: int, answers: seq<Option<Sandbox>>, ghost t: map<Name, View>, ghost made: nat) returns (ok: bool)
      requires Valid() && answers != [] && NewNames(answers, Table().Keys) && Grown(t, Table(), made, maxSize)
      modifies cache
      ensures Valid() && (!ok ==> Table() == old(Table()) && (|Table()| >= maxSize || answers[0].None?))
      ensures ok ==> |Table()| == |old(Table())| + 1 && Grown(t, Table(), made + 1, maxSize) && NewNames(answers[1..], Table().Keys)
      ensures ok ==>
                answers[0].Some?
                && var n := answers[0].value.name;
                   n in Table() && Made(answers[0], n, Table()[n], now) && Table() == old(Table())[n := Table()[n]]
    {
      hide *;
      ghost var before := Table();
      NewNamesHead(answers, before.Keys);
      var r := AllocateWarm(now, answers[0]);
      if r.Err? {
        return false;
      }
      ghost var n := answers[0].value.name;
      NewRow(answers[0], now);
      GrowOne(t, before, made, maxSize, n, Table()[n]);
      NewNamesTail(answers, before.Keys);
      assert Table().Keys == before.Keys + {answers[0].value.name};
      return true;
    }

    method CountDeficit(minReady: int) returns (deficit: int)
      requires Valid()
      ensures deficit == minReady - |WithStatus(Table(), Idle)|
    {
      hide PoolInv;
      var idle := cache.ListByStatus(Idle);
      deficit := minReady - |idle|;
    }

    /**
     Brings the idle entries up to `minReady`, and not beyond, unless the pool fills up
     or the provider fails first; creates nothing where there are enough already.
     */
    method ReplenishWarm(minReady: int, now: int, answers: seq<Option<Sandbox>>)
      requires Valid() && |answers| >= minReady && NewNames(answers, Table().Keys)
      modifies cache
      ensures Valid()
      ensures Replenished(old(Table()), Table(), minReady, maxSize, now, answers)
    {
      hide *;
      ghost var t := Table();
      var deficit := CountDeficit(minReady);
      assert answers[0..] == answers;
      GrowNone(t, maxSize);
      StockNone(t, now, answers);
      var i := 0;
      while i < deficit
        invariant Valid() && 0 <= i && (i == 0 || i <= deficit)
        invariant Grown(t, Table(), i, maxSize) && |Table()| == |t| + i && i <= |answers| && Stocked(t, Table(), i, now, answers)
        invariant NewNames(answers[i..], Table().Keys)
      {
        ghost var before := Table();
        var ok := AddWarm(now, answers[i..], t, i);
        if !ok {
          GrownIsReplenished(t, Table(), i, minReady, maxSize, now, answers);
          return;
        }
        assert answers[i..][1..] == answers[i + 1..] && answers[i..][0] == answers[i];
        StockOne(t, before, i, now, answers, answers[i].value.name, Table()[answers[i].value.name]);
        i := i + 1;
      }
      GrownIsReplenished(t, Table(), i, minReady, maxSize, now, answers);
    }
  }

  /**
   The idle entries after a replenishment: those before and the new ones, and
   `minReady` of them, or as many as there were if those were more, unless the pool
   is full or the provider has failed. The new ones are sandboxes the provider made,
   and nothing else is touched.
   */
  ghost predicate Replenished(t: map<Name, View>, t': map<Name, View>, minReady: int, maxSize: int, now: int, answers: seq<Option<Sandbox>>) {
    var idle, idle' := |WithStatus(t, Idle)|, |WithStatus(t', Idle)|;
    && Stocked(t, t', |answers|, now, answers)
    && t.Keys <= t'.Keys && (forall n :: n in t ==> t'[n] == t[n])
    && idle' - idle == |t'| - |t| >= 0 && (t' != t ==> |t'| <= maxSize)
    && (idle >= minReady ==> t' == t)
    && (idle < minReady ==>
          && idle' <= minReady
          && (idle' < minReady ==> |t'| >= maxSize || (idle' - idle < |answers| && answers[idle' - idle].None?)))
  }

  lemma GrownIdle(t: map<Name, View>, t': map<Name, View>, made: int, maxSize: int)
    requires Grown(t, t', made, maxSize)
    ensures |WithStatus(t', Idle)| - |WithStatus(t, Idle)| == |t'| - |t|
  {
    assert WithStatus(t', Idle) == WithStatus(t, Idle) + (t'.Keys - t.Keys);
    assert t'.Keys == t.Keys + (t'.Keys - t.Keys);
  }

  /** `row` is the entry of a sandbox the provider made as `name` and nobody has used yet. */
  predicate Made(answer: Option<Sandbox>, name: Name, row: View, now: int) {
    answer.Some? && answer.value.name == name && row == View(answer.value.host, [], [], now, now, Idle)
  }

  /** Every new entry is that of one of the first `n` sandboxes the provider made. */
  ghost predicate Stocked(t: map<Name, View>, t': map<Name, View>, n: nat, now: int, answers: seq<Option<Sandbox>>)
    requires n <= |answers|
  {
    forall m :: m in t' && m !in t ==> exists i :: 0 <= i < n && Made(answers[i], m, t'[m], now)
  }

  lemma StockNone(t: map<Name, View>, now: int, answers: seq<Option<Sandbox>>)
    ensures Stocked(t, t, 0, now, answers)
  {
  }

  lemma StockOne(t: map<Name, View>, before: map<Name, View>, n: nat, now: int, answers: seq<Option<Sandbox>>, name: Name, row: View)
    requires n < |answers| && Stocked(t, before, n, now, answers) && Made(answers[n], name, row, now)
    ensures Stocked(t, before[name := row], n + 1, now, answers)
  {
    var after := before[name := row];
    forall m | m in after && m !in t ensures exists i :: 0 <= i < n + 1 && Made(answers[i], m, after[m], now) {
      if m == name {
        assert Made(answers[n], m, after[m], now);
      } else {
        var i :| 0 <= i < n && Made(answers[i], m, before[m], now);
      }
    }
  }

  lemma GrownIsReplenished(t: map<Name, View>, t': map<Name, View>, made: nat, minReady: int, maxSize: int, now: int,
                           answers: seq<Option<Sandbox>>)
    requires Grown(t, t', made, maxSize) && |t'| == |t| + made && made <= |answers| && Stocked(t, t', made, now, answers)
    requires var deficit := minReady - |WithStatus(t, Idle)|;
             (made == 0 || made <= deficit)
             && (made < deficit ==> |t'| >= maxSize || (made < |answers| && answers[made].None?))
    ensures Replenished(t, t', minReady, maxSize, now, answers)
  {
    assert Stocked(t, t', |answers|, now, answers);
    GrownIdle(t, t', made, maxSize);
    hide WithStatus, Stocked;
    if made == 0 { assert t'.Keys == t.Keys by { SameSize(t.Keys, t'.Keys); } }
  }

  lemma SameSize(a: set<Name>, b: set<Name>)
    requires a <= b && |a| == |b|
    ensures a == b
  {
    assert b == a + (b - a);
  }

  /** `table'` is `table` with `made` idle entries more, within the limit if there are any. */
  ghost predicate Grown(table: map<Name, View>, table': map<Name, View>, made: int, maxSize: int) {
    && table.Keys <= table'.Keys && (forall n :: n in table ==> table'[n] == table[n])
    && (forall n :: n in table' && n !in table ==> table'[n].status.Idle?)
    && (made > 0 ==> |table'| <= maxSize)
  }

  lemma GrowNone(table: map<Name, View>, maxSize: int)
    ensures Grown(table, table, 0, maxSize)
  {
  }

  lemma GrowOne(table: map<Name, View>, before: map<Name, View>, made: nat, maxSize: int, n: Name, v: View)
    requires Grown(table, before, made, maxSize) && n !in before && v.status.Idle? && |before| < maxSize
    ensures Grown(table, before[n := v], made + 1, maxSize) && |before[n := v]| == |before| + 1
  {
  }

  lemma NewRow(answer: Option<Sandbox>, now: int)
    requires answer.Some?
    ensures Made(answer, answer.value.name, View(answer.value.host, [], [], now, now, Idle), now)
  {
  }

  lemma NewNamesHead(answers: seq<Option<Sandbox>>, existing: set<Name>)
    requires NewNames(answers, existing) && answers != []
    ensures answers[0].Some? ==> answers[0].value.name !in existing
  {
  }

  lemma NewNamesTail(answers: seq<Option<Sandbox>>, existing: set<Name>)
    requires NewNames(answers, existing) && answers != [] && answers[0].Some?
    ensures NewNames(answers[1..], existing + {answers[0].value.name})
  {
  }

  /** The provider's answers never repeat a name and never name an existing sandbox. */
  predicate NewNames(answers: seq<Option<Sandbox>>, existing: set<Name>) {
    && (forall i :: 0 <= i < |answers| && answers[i].Some? ==> answers[i].value.name !in existing)
    && (forall i, j :: 0 <= i < j < |answers| && answers[i].Some? && answers[j].Some? ==> answers[i].value.name != answers[j].value.name)
  }

  /** The collection restricted to the entries already visited. */
  function CollectedUpTo(table: map<Name, View>, cutoff: int, undeletable: set<Name>, done: set<Name>): map<Name, View> {
    map n | n in table && !(n in done && Expired(table[n], cutoff) && n !in undeletable) ::
      if n in done && Expired(table[n], cutoff) then table[n].(status := Releasing) else table[n]
  }

  lemma CollectNone(table: map<Name, View>, cutoff: int, undeletable: set<Name>)
    ensures CollectedUpTo(table, cutoff, undeletable, {}) == table
  {
  }

  lemma CollectOne(table: map<Name, View>, cutoff: int, undeletable: set<Name>, done: set<Name>, n: Name)
    requires n in table && n !in done
    ensures var before := CollectedUpTo(table, cutoff, undeletable, done);
            n in before && before[n] == table[n]
            && CollectedUpTo(table, cutoff, undeletable, done + {n})
            == if Expired(table[n], cutoff) then Released(before, n, n !in undeletable) else before
  {
  }

  lemma CollectAll(table: map<Name, View>, cutoff: int, undeletable: set<Name>, done: set<Name>)
    requires forall n :: n in table ==> n in done
    ensures CollectedUpTo(table, cutoff, undeletable, done) == Collected(table, cutoff, undeletable)
  {
  }

  /**
   What a collection leaves: an expired active entry is gone exactly when its
   sandbox could be deleted, and otherwise releasing; every other entry is as it was.
   */
  ghost predicate Swept(t: map<Name, View>, t': map<Name, View>, cutoff: int, undeletable: set<Name>) {
    && t'.Keys <= t.Keys
    && (forall n :: n in t' && t'[n].status.Active? ==> t'[n].lastActivity >= cutoff)
    && (forall n :: n in t ==> (n !in t' <==> t[n].status.Active? && t[n].lastActivity < cutoff && n !in undeletable))
    && (forall n :: n in t && t[n].status.Active? && t[n].lastActivity < cutoff && n in undeletable ==>
          n in t' && t'[n] == t[n].(status := Releasing))
    && (forall n :: n in t && (!t[n].status.Active? || t[n].lastActivity >= cutoff) ==> n in t' && t'[n] == t[n])
  }

  /** That describes the collected table and no other; collecting again changes nothing. */
  lemma SweptIffCollected(t: map<Name, View>, t': map<Name, View>, cutoff: int, undeletable: set<Name>, later: set<Name>)
    ensures Swept(t, t', cutoff, undeletable) <==> t' == Collected(t, cutoff, undeletable)
    ensures Swept(t, t', cutoff, undeletable) ==> Swept(t', t', cutoff, later)
  {
    if Swept(t, t', cutoff, undeletable) {
      assert t'.Keys == Collected(t, cutoff, undeletable).Keys;
    }
  }
}

/** The provider used for local development: its counter is what makes names fresh. */
module MockProvider {
  import opened Common
  import opened PoolTypes

  const PREFIX: bytes := [0x6D, 0x6F, 0x63, 0x6B, 0x2D, 0x73, 0x61, 0x6E, 0x64, 0x62, 0x6F, 0x78, 0x2D]   // "mock-sandbox-"

  function MockName(n: nat): (name: Name)
    ensures name == Ascii("mock-sandbox-") + Dec(n) && name != []
  {
    assert PREFIX == Ascii("mock-sandbox-");
    PREFIX + Dec(n)
  }

  lemma MockNamesDiffer(i: nat, j: nat)
    requires MockName(i) == MockName(j)
    ensures i == j
  {
    assert MockName(i)[|PREFIX|..] == Dec(i) && MockName(j)[|PREFIX|..] == Dec(j);
    UndecDec(i);
    UndecDec(j);
  }

  class MockSandboxProvider {
    const targetFQDN: bytes
    var counter: nat

    constructor (targetFQDN: bytes)
      ensures this.targetFQDN == targetFQDN && counter == 0
    {
      this.targetFQDN, counter := targetFQDN, 0;
    }

    /** The names handed out so far. */
    ghost function Handed(): set<Name>
      reads this
    {
      set i: nat | 1 <= i <= counter :: MockName(i)
    }

    method CreateSandbox() returns (name: Name, host: bytes)
      modifies this
      ensures name != [] && name !in old(Handed()) && Handed() == old(Handed()) + {name} && host == targetFQDN
    {
      counter := counter + 1;
      name, host := MockName(counter), targetFQDN;
      forall i: nat | 1 <= i < counter ensures MockName(i) != name {
        if MockName(i) == name { MockNamesDiffer(i, counter); }
      }
    }
  }
}
