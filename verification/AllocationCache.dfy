/** The vocabulary of the sandbox pool. */
module PoolTypes {
  import opened Common

  type Name = bytes
  type Session = bytes   // empty when no session is assigned

  datatype Status = Idle | Active | Releasing
}

/**
 The dual-index cache of internal/pool/cache.go: one table of shared, mutable
 allocations, indexed by sandbox name and by session.
 */
module AllocationCaches {
  import opened Common
  import opened PoolTypes

  /** The fields of an allocation at one moment. */
  datatype View = View(host: bytes, session: Session, user: bytes, allocatedAt: int, lastActivity: int, status: Status)

  class Allocation {
    const sandboxName: Name
    const serviceFQDN: bytes
    const allocatedAt: int
    var sessionID: Session
    var userID: bytes
    var lastActivity: int
    var status: Status

    constructor (name: Name, fqdn: bytes, session: Session, user: bytes, now: int, st: Status)
      ensures sandboxName == name && serviceFQDN == fqdn && allocatedAt == now
      ensures sessionID == session && userID == user && lastActivity == now && status == st
    {
      sandboxName, serviceFQDN, allocatedAt := name, fqdn, now;
      sessionID, userID, lastActivity, status := session, user, now, st;
    }

    ghost function Snapshot(): View
      reads this
    {
      View(serviceFQDN, sessionID, userID, allocatedAt, lastActivity, status)
    }
  }

  class AllocationCache {
    var byName: map<Name, Allocation>
    var bySession: map<Session, Allocation>

    /** Both indexes share their objects, and each is filed under its own name. */
    ghost predicate Linked()
      reads this, byName.Values, bySession.Values
    {
      && (forall n :: n in byName ==> byName[n].sandboxName == n)
      && (forall k :: k in bySession ==> bySession[k].sandboxName in byName && byName[bySession[k].sandboxName] == bySession[k])
    }

    /** The by-name table as a value. */
    ghost function Table(): map<Name, View>
      reads this, byName.Values
    {
      map n | n in byName :: byName[n].Snapshot()
    }

    /** The session index as a value. */
    ghost function Index(): map<Session, Name>
      reads this, bySession.Values
    {
      map k | k in bySession :: bySession[k].sandboxName
    }

    ghost predicate Coherent()
      reads this, byName.Values, bySession.Values
    {
      Linked() && Exact(Table(), Index())
    }

    /** Writing the fields of one allocation changes one row of the table. */
    twostate lemma RowChanged(n: Name)
      requires old(Linked()) && n in byName && byName == old(byName) && bySession == old(bySession)
      requires forall m :: m in byName && m != n ==> byName[m].Snapshot() == old(byName[m].Snapshot())
      ensures Linked() && Table() == old(Table())[n := byName[n].Snapshot()] && Index() == old(Index())
    {
    }

    constructor ()
      ensures byName == map[] && bySession == map[]
    {
      byName, bySession := map[], map[];
    }

    method Get(sandboxName: Name) returns (a: Option<Allocation>)
      ensures a == if sandboxName in byName then Some(byName[sandboxName]) else None
    {
      a := if sandboxName in byName then Some(byName[sandboxName]) else None;
    }

    /** On a coherent cache a lookup by session finds exactly what a search of the by-name table finds. */
    method GetBySession(sessionID: Session) returns (a: Option<Allocation>)
      ensures a == if sessionID in bySession then Some(bySession[sessionID]) else None
      ensures Coherent() ==> match Search(Table(), sessionID)
                             case Some(n) => n in byName && a == Some(byName[n])
                             case None => a == None
    {
      if Coherent() { SearchIsIndex(Table(), Index(), sessionID); }
      a := if sessionID in bySession then Some(bySession[sessionID]) else None;
    }

    /** The table after an object was filed under its name. */
    twostate lemma TableAfterSet(alloc: Allocation)
      requires old(Linked()) && byName == old(byName)[alloc.sandboxName := alloc]
      requires forall n :: n in old(byName) ==> old(byName)[n].Snapshot() == old(byName[n].Snapshot())
      requires alloc.Snapshot() == old(alloc.Snapshot())
      ensures Table() == old(Table())[alloc.sandboxName := old(alloc.Snapshot())]
    {
    }

    /** The indexes after that, if it is the object of its name. */
    twostate lemma IndexAfterSet(alloc: Allocation)
      requires old(Linked()) && byName == old(byName)[alloc.sandboxName := alloc]
      requires alloc.sandboxName in old(byName) ==> old(byName)[alloc.sandboxName] == alloc
      requires bySession == if alloc.sessionID != [] then old(bySession)[alloc.sessionID := alloc] else old(bySession)
      ensures Linked()
      ensures Index() == if alloc.sessionID != [] then old(Index())[alloc.sessionID := alloc.sandboxName] else old(Index())
    {
    }

    method Set(alloc: Allocation)
      modifies this
      ensures byName == old(byName)[alloc.sandboxName := alloc]
      ensures bySession == if alloc.sessionID != [] then old(bySession)[alloc.sessionID := alloc] else old(bySession)
      ensures var n := alloc.sandboxName;
              old(Linked()) && (n in old(byName) ==> old(byName)[n] == alloc) ==>
                && Linked() && Table() == old(Table())[n := old(alloc.Snapshot())]
                && Index() == if alloc.sessionID != [] then old(Index())[alloc.sessionID := n] else old(Index())
    {
      byName := byName[alloc.sandboxName := alloc];
      if alloc.sessionID != [] {
        bySession := bySession[alloc.sessionID := alloc];
      }
      if old(Linked()) && (alloc.sandboxName in old(byName) ==> old(byName)[alloc.sandboxName] == alloc) {
        TableAfterSet(alloc);
        IndexAfterSet(alloc);
      }
      hide Linked, Table, Index;
    }

    /** The table and the indexes after the object of a name was taken out. */
    twostate lemma AfterDelete(sandboxName: Name)
      requires old(Coherent()) && sandboxName in old(byName) && byName == old(byName) - {sandboxName}
      requires forall n :: n in old(byName) ==> old(byName)[n].Snapshot() == old(byName[n].Snapshot())
      requires bySession == if old(byName)[sandboxName].sessionID != []
                            then old(bySession) - {old(byName)[sandboxName].sessionID} else old(bySession)
      ensures Linked() && Table() == old(Table()) - {sandboxName}
      ensures Index() == if old(Table())[sandboxName].session != []
                         then old(Index()) - {old(Table())[sandboxName].session} else old(Index())
    {
      assert old(forall k :: k in bySession ==> k in Index() && Table()[Index()[k]].session == bySession[k].sessionID == k);
    }

    method Delete(sandboxName: Name)
      modifies this
      ensures byName == old(byName) - {sandboxName}
      ensures bySession == if sandboxName in old(byName) && old(byName)[sandboxName].sessionID != []
                           then old(bySession) - {old(byName)[sandboxName].sessionID} else old(bySession)
      ensures old(Coherent()) ==>
                && Linked() && Table() == old(Table()) - {sandboxName}
                && Index() == if sandboxName in old(Table()) && old(Table())[sandboxName].session != []
                              then old(Index()) - {old(Table())[sandboxName].session} else old(Index())
    {
      if sandboxName in byName {
        var a := byName[sandboxName];
        if a.sessionID != [] {
          bySession := bySession - {a.sessionID};
        }
        byName := byName - {sandboxName};
        if old(Coherent()) { AfterDelete(sandboxName); }
      }
      hide Exact;
    }

    method Len() returns (n: nat)
      ensures n == |byName|
    {
      n := |byName|;
    }

    /** Every allocation once, in no particular order. */
    method List() returns (out: seq<Allocation>)
      requires forall n :: n in byName ==> byName[n].sandboxName == n
      ensures forall i :: 0 <= i < |out| ==> out[i].sandboxName in byName && byName[out[i].sandboxName] == out[i]
      ensures forall i, j :: 0 <= i < j < |out| ==> out[i].sandboxName != out[j].sandboxName
      ensures forall n :: n in byName ==> byName[n] in out
    {
      out := [];
      var keys := byName.Keys;
      while keys != {}
        invariant keys <= byName.Keys
        invariant forall i :: 0 <= i < |out| ==> out[i].sandboxName in byName.Keys - keys && byName[out[i].sandboxName] == out[i]
        invariant forall i, j :: 0 <= i < j < |out| ==> out[i].sandboxName != out[j].sandboxName
        invariant forall n :: n in byName.Keys - keys ==> byName[n] in out
        decreases keys
      {
        var n :| n in keys;
        out := out + [byName[n]];
        keys := keys - {n};
      }
    }

    lemma Rows(status: Status)
      ensures var rows := WithStatus(Table(), status);
              rows <= byName.Keys && forall n :: n in byName ==> (n in rows <==> byName[n].status == status)
    {
    }

    /** The allocations of one status: all of them, each once. */
    method ListByStatus(status: Status) returns (out: seq<Allocation>)
      requires forall n :: n in byName ==> byName[n].sandboxName == n
      ensures forall i :: 0 <= i < |out| ==>
                out[i].sandboxName in byName && byName[out[i].sandboxName] == out[i] && out[i].status == status
      ensures forall i, j :: 0 <= i < j < |out| ==> out[i].sandboxName != out[j].sandboxName
      ensures forall n :: n in byName && byName[n].status == status ==> byName[n] in out
      ensures |out| == |WithStatus(Table(), status)|
    {
      out := [];
      ghost var wanted := WithStatus(Table(), status);
      Rows(status);
      hide WithStatus, Table, Counted;
      CountedEnds(wanted, byName.Keys);
      var keys := byName.Keys;
      while keys != {}
        invariant keys <= byName.Keys
        invariant |out| == Counted(wanted, keys)
        invariant forall i :: 0 <= i < |out| ==>
                    out[i].sandboxName in byName.Keys - keys && byName[out[i].sandboxName] == out[i] && out[i].status == status
        invariant forall i, j :: 0 <= i < j < |out| ==> out[i].sandboxName != out[j].sandboxName
        invariant forall n :: n in byName.Keys - keys && byName[n].status == status ==> byName[n] in out
        decreases keys
      {
        var n :| n in keys;
        var a := byName[n];
        CountedStep(wanted, keys, n);
        if a.status == status {
          out := out + [a];
        }
        keys := keys - {n};
      }
    }
  }

  /** How many of the wanted names are no longer in `keys`. */
  ghost function Counted(wanted: set<Name>, keys: set<Name>): nat { |wanted - keys| }

  lemma CountedEnds(wanted: set<Name>, keys: set<Name>)
    requires wanted <= keys
    ensures Counted(wanted, keys) == 0 && Counted(wanted, {}) == |wanted|
  {
    assert wanted - keys == {} && wanted - {} == wanted;
  }

  lemma CountedStep(wanted: set<Name>, keys: set<Name>, n: Name)
    requires n in keys
    ensures Counted(wanted, keys - {n}) == Counted(wanted, keys) + if n in wanted then 1 else 0
  {
    assert wanted - (keys - {n}) == wanted - keys + if n in wanted then {n} else {};
  }

  ghost function WithStatus(table: map<Name, View>, status: Status): set<Name> {
    set n | n in table && table[n].status == status
  }

  // ---- the two indexes as values ----

  /** The session index misses no assigned session and holds no stale one. */
  predicate Exact(table: map<Name, View>, index: map<Session, Name>) {
    && (forall n :: n in table && table[n].session != [] ==> table[n].session in index && index[table[n].session] == n)
    && (forall k :: k in index ==> k != [] && index[k] in table && table[index[k]].session == k)
  }

  /** A search of the by-name table for a session, the empty one never being assigned. */
  ghost function Search(table: map<Name, View>, k: Session): Option<Name> {
    if k != [] && exists n :: n in table && table[n].session == k then
      var n :| n in table && table[n].session == k; Some(n)
    else None
  }

  lemma SearchIsIndex(table: map<Name, View>, index: map<Session, Name>, k: Session)
    requires Exact(table, index)
    ensures Search(table, k) == if k in index then Some(index[k]) else None
  {
    if k in index {
      assert table[index[k]].session == k;
    }
  }

  /** `Set` keeps the session index exact if and only if it strands no session and steals none. */
  lemma SetExactIff(table: map<Name, View>, index: map<Session, Name>, n: Name, v: View)
    requires Exact(table, index)
    ensures Exact(table[n := v], if v.session != [] then index[v.session := n] else index)
       <==> (n in table && table[n].session != [] ==> table[n].session == v.session)
            && (v.session in index ==> index[v.session] == n)
  {
    var table', index' := table[n := v], if v.session != [] then index[v.session := n] else index;
    if n in table && table[n].session != [] && table[n].session != v.session {
      assert table[n].session in index' && index'[table[n].session] == n;
    }
    if v.session in index && index[v.session] != n {
      assert table'[index[v.session]].session == v.session;
    }
  }

  lemma DeleteExact(table: map<Name, View>, index: map<Session, Name>, n: Name)
    requires Exact(table, index) && n in table
    ensures Exact(table - {n}, if table[n].session != [] then index - {table[n].session} else index)
  {
  }

  /** Changing anything but names and sessions leaves the index exact. */
  lemma UpdateExact(table: map<Name, View>, index: map<Session, Name>, n: Name, v: View)
    requires Exact(table, index) && n in table && v.session == table[n].session
    ensures Exact(table[n := v], index)
  {
  }
}
