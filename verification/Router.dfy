/**
 Session routing of internal/router/handler.go: a request of a known session is
 forwarded to the sandbox of that session, any other request is given one.
 */
module Routing {
  import opened Common
  import opened PoolTypes
  import opened AllocationCaches
  import opened PoolManagers

  /** Where the session id is looked for; an empty name switches a place off. */
  datatype SessionExtractor = SessionExtractor(header: bytes, cookie: bytes, queryParam: bytes)

  datatype Request = Request(headers: map<bytes, bytes>, cookies: map<bytes, bytes>, query: map<bytes, bytes>)

  /** `session` is the id the response hands to the client, if it hands one. */
  datatype Response = Forwarded(host: bytes, session: Option<Session>) | InternalServerError | Queued(position: nat)

  const USER_HEADER: bytes := [0x58, 0x2D, 0x55, 0x73, 0x65, 0x72, 0x2D, 0x49, 0x44]         // "X-User-ID"
  const ANONYMOUS: bytes := [0x61, 0x6E, 0x6F, 0x6E, 0x79, 0x6D, 0x6F, 0x75, 0x73]           // "anonymous"

  /** The value of a name; empty without one, and for a place that is switched off. */
  function ValueIn(values: map<bytes, bytes>, name: bytes): (v: bytes)
    ensures name != [] && name in values ==> v == values[name]
    ensures name == [] || name !in values ==> v == []
  {
    if name != [] && name in values then values[name] else []
  }

  /** The header, then the cookie, then the query parameter; empty when none has a value. */
  function ExtractSessionID(req: Request, ext: SessionExtractor): (id: Session)
    ensures id == [] <==> (ValueIn(req.headers, ext.header) == [] && ValueIn(req.cookies, ext.cookie) == []
                           && ValueIn(req.query, ext.queryParam) == [])
    ensures ValueIn(req.headers, ext.header) != [] ==> id == ValueIn(req.headers, ext.header)
    ensures ValueIn(req.headers, ext.header) == [] && ValueIn(req.cookies, ext.cookie) != [] ==>
              id == ValueIn(req.cookies, ext.cookie)
    ensures ValueIn(req.headers, ext.header) == [] && ValueIn(req.cookies, ext.cookie) == [] ==>
              id == ValueIn(req.query, ext.queryParam)
  {
    var h, c := ValueIn(req.headers, ext.header), ValueIn(req.cookies, ext.cookie);
    if h != [] then h else if c != [] then c else ValueIn(req.query, ext.queryParam)
  }

  /** The user header if it has a value, else `anonymous`. */
  function ExtractUserID(req: Request): (id: bytes)
    ensures var header := Ascii("X-User-ID");
            id == if header in req.headers && req.headers[header] != [] then req.headers[header] else Ascii("anonymous")
  {
    assert USER_HEADER == Ascii("X-User-ID") && ANONYMOUS == Ascii("anonymous");
    var v := ValueIn(req.headers, USER_HEADER);
    if v != [] then v else ANONYMOUS
  }

  lemma AssignedIsFound(table: map<Name, View>, index: map<Session, Name>, n: Name)
    requires Exact(table, index) && n in table && table[n].session != []
    ensures Search(table, table[n].session) == Some(n)
  {
    SearchIsIndex(table, index, table[n].session);
  }

  class Router {
    const pool: PoolManager
    const extractor: SessionExtractor
    var waiting: seq<bytes>

    constructor (pool: PoolManager, extractor: SessionExtractor)
      ensures this.pool == pool && this.extractor == extractor && waiting == []
    {
      this.pool, this.extractor, waiting := pool, extractor, [];
    }

    /** A new sandbox for the user, or a place in the queue when the pool is exhausted. */
    method HandleAllocateAndProxy(userID: bytes, session: Session, now: int, created: Option<Sandbox>) returns (r: Response)
      requires pool.Valid() && session != [] && Unassigned(pool.Table(), session)
      requires created.Some? ==> created.value.name !in pool.Table()
      modifies this`waiting, pool.cache, pool.cache.byName.Values
      ensures pool.Valid() && Assigned(old(pool.Table()), pool.Table(), pool.maxSize, old(waiting), waiting, userID, session, created, r)
    {
      hide PoolInv, Exact, Unassigned, WithStatus, Assigned, AllocatedAs;
      ghost var t := pool.Table();
      assert t.Keys == pool.cache.byName.Keys;
      var a := pool.Allocate(userID, session, now, created);
      assert pool.cache.Coherent() by { ValidIsCoherent(pool); }
      AllocatedIsAssigned(t, pool.Table(), pool.cache.Index(), pool.maxSize, waiting, userID, session, now, created,
                          if a.Ok? then Ok(a.value.sandboxName) else Err(a.error));
      if a.Ok? {
        return Forwarded(a.value.serviceFQDN, Some(a.value.sessionID));
      }
      if a.error != PoolExhausted {
        return InternalServerError;
      }
      waiting := waiting + [userID];
      return Queued(|waiting|);
    }

    method ServeHTTP(req: Request, session: Session, now: int, created: Option<Sandbox>) returns (r: Response)
      requires pool.Valid() && session != [] && Unassigned(pool.Table(), session)
      requires created.Some? ==> created.value.name !in pool.Table()
      modifies this`waiting, pool.cache, pool.cache.byName.Values
      ensures pool.Valid()
      ensures match Search(old(pool.Table()), ExtractSessionID(req, extractor))
              case Some(n) =>
                && n in old(pool.Table()) && r == Forwarded(old(pool.Table())[n].host, None)
                && pool.Table() == old(pool.Table()) && waiting == old(waiting)
              case None =>
                Assigned(old(pool.Table()), pool.Table(), pool.maxSize, old(waiting), waiting, ExtractUserID(req), session, created, r)
    {
      ValidIsCoherent(pool);
      hide PoolInv, Exact, Search, Unassigned, WithStatus, Assigned, ExtractSessionID, ExtractUserID;
      var sessionID := ExtractSessionID(req, extractor);
      if sessionID != [] {
        var known := pool.cache.GetBySession(sessionID);
        if known.Some? {
          return Forwarded(known.value.serviceFQDN, None);
        }
      }
      r := HandleAllocateAndProxy(ExtractUserID(req), session, now, created);
    }
  }

  lemma ValidIsCoherent(pool: PoolManager)
    requires pool.Valid()
    ensures pool.cache.Coherent()
  {
  }

  /**
   The three ways an unknown session ends. A granted sandbox can be found at once by
   the session handed out, and it is the one the request was forwarded to.
   */
  ghost predicate Assigned(t: map<Name, View>, t': map<Name, View>, maxSize: int, waiting: seq<bytes>, waiting': seq<bytes>,
      userID: bytes, session: Session, created: Option<Sandbox>, r: Response)
  {
    match r
    case Forwarded(host, handed) =>
      && waiting' == waiting && handed == Some(session)
      && (match Search(t', session)
          case None => false
          case Some(n) =>
            && n in t' && t'[n].host == host && t'[n].status.Active? && t'[n].user == userID
            && t' == t[n := t'[n]] && (n in t ==> t[n].status.Idle?))
    case InternalServerError => waiting' == waiting && t' == t && created.None? && |t| < maxSize && WithStatus(t, Idle) == {}
    case Queued(position) =>
      && waiting' == waiting + [userID] && position == |waiting'| && t' == t
      && |t| >= maxSize && WithStatus(t, Idle) == {}
  }

  lemma AllocatedIsAssigned(t: map<Name, View>, t': map<Name, View>, index': map<Session, Name>, maxSize: int, waiting: seq<bytes>,
                            userID: bytes, session: Session, now: int, created: Option<Sandbox>, r: Result<Name, Error>)
    requires AllocatedAs(t, t', maxSize, userID, session, now, created, r) && Exact(t', index') && session != []
    requires created.Some? ==> created.value.name !in t
    ensures match r
            case Ok(n) =>
              n in t' && Assigned(t, t', maxSize, waiting, waiting, userID, session, created, Forwarded(t'[n].host, Some(session)))
            case Err(PoolExhausted) =>
              Assigned(t, t', maxSize, waiting, waiting + [userID], userID, session, created, Queued(|waiting| + 1))
            case Err(_) => Assigned(t, t', maxSize, waiting, waiting, userID, session, created, InternalServerError)
  {
    hide Exact, Search;
    if r.Ok? { AssignedIsFound(t', index', r.value); }
  }
}
