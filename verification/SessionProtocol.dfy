/** Requests and the watcher, interleaved (authn/middleware.go, authn/sessions.go). Every request
    runs acquireSession, its handler and releaseSession; a step is one action on shared state, so
    between any two steps of one request any steps of others and of the watcher may happen. The
    manager is enabled. Connections are handles: AcquireConnection hands out a new one each time. */
module SessionProtocol {
  import opened Sql
  import opened SessionPool

  /** Where a request is, with the session it got. */
  datatype Client =
    | Authenticating(sid: nat)
    | Locating(sid: nat)
    | Checking(sid: nat)
    | Stale(sid: nat)                  // released the closed connection, the session still names it
    | Acquiring(sid: nat)
    | Attaching(sid: nat, conn: nat)   // holds a connection that no session names yet
    | Preparing(sid: nat, conn: nat)
    | Serving(sid: nat, conn: nat)
    | Releasing(sid: nat)
    | Closed(sid: nat)                 // released after its transaction, the session still names it
    | Leaving(sid: nat)
    | Failed(sid: nat)                 // acquireSession returned an error: the session is never left

  /** Who has been given an open connection. */
  datatype Owner = OfSession(sid: nat) | OfClient(c: nat)

  datatype State = State(
    pool: Pool<nat>,
    clients: map<nat, Client>,
    owner: map<nat, Owner>,   // the connections checked out
    released: seq<nat>,       // every release so far
    sessions: nat,            // the next session name
    conns: nat,               // the next connection
    clock: int)

  datatype Action =
    | Start(c: nat, key: string, now: int)
    | Authenticate(c: nat, claims: Option<string>)
    | Locate(c: nat, ok: bool, db: Option<string>)
    | Check(c: nat, closed: bool)
    | ClearStale(c: nat)
    | Acquire(c: nat, ok: bool)
    | Attach(c: nat)
    | Prepare(c: nat, ok: bool)
    | Serve(c: nat)
    | Release(c: nat, hasTX: bool)
    | ClearClosed(c: nat)
    | Depart(c: nat, now: int)
    | Tick(now: int, sessionTimeout: int, connTimeout: int, detached: seq<nat>, taken: seq<nat>)

  function Init(now: int): State { State(EmptyPool(), map[], map[], [], 0, 0, now) }

  ghost predicate Enabled(st: State, a: Action) {
    match a
    case Start(c, _, now) => c !in st.clients && now >= st.clock
    case Authenticate(c, _) => c in st.clients && st.clients[c].Authenticating?
    case Locate(c, _, _) => c in st.clients && st.clients[c].Locating?
    case Check(c, _) => c in st.clients && st.clients[c].Checking?
    case ClearStale(c) => c in st.clients && st.clients[c].Stale?
    case Acquire(c, _) => c in st.clients && st.clients[c].Acquiring?
    case Attach(c) => c in st.clients && st.clients[c].Attaching?
    case Prepare(c, _) => c in st.clients && st.clients[c].Preparing?
    case Serve(c) => c in st.clients && st.clients[c].Serving?
    case Release(c, _) => c in st.clients && st.clients[c].Releasing?
    case ClearClosed(c) => c in st.clients && st.clients[c].Closed?
    case Depart(c, now) => c in st.clients && st.clients[c].Leaving? && now >= st.clock
    case Tick(now, _, connTimeout, detached, taken) =>
      now >= st.clock && Taken(detached, taken, st.pool.info.Keys, st.pool.info, now, connTimeout)
  }

  function Move(st: State, c: nat, to: Client): State { st.(clients := st.clients[c := to]) }

  /** The request writes to its session and goes on. */
  function Write(st: State, c: nat, i: Info, to: Client): State
    requires c in st.clients
  {
    st.(pool := Update(st.pool, st.clients[c].sid, i), clients := st.clients[c := to])
  }

  /** The connection goes back; whoever names it must not use it any more. */
  function GiveBack(st: State, c: nat, conn: nat, to: Client): State {
    st.(owner := st.owner - {conn}, released := st.released + [conn], clients := st.clients[c := to])
  }

  ghost function Next(st: State, a: Action): State
    requires Inv(st) && Enabled(st, a)
  {
    match a
    case Start(c, key, now) =>
      var (pool', sid, isNew) := Get(st.pool, key, now, st.sessions);
      if isNew then st.(pool := pool', sessions := st.sessions + 1, clients := st.clients[c := Authenticating(sid)], clock := now)
      else st.(pool := pool', clients := st.clients[c := Checking(sid)], clock := now)
    case Authenticate(c, claims) =>
      var sid := st.clients[c].sid;
      if claims.None? then Move(st, c, Failed(sid)) else Write(st, c, st.pool.info[sid].(claims := claims), Locating(sid))
    case Locate(c, ok, db) =>
      var sid := st.clients[c].sid;
      if !ok then Move(st, c, Failed(sid)) else Write(st, c, st.pool.info[sid].(db := db), Checking(sid))
    case Check(c, closed) =>
      var sid := st.clients[c].sid;
      (match st.pool.info[sid].conn
       case None => Move(st, c, Acquiring(sid))
       case Some(conn) => if closed then GiveBack(st, c, conn, Stale(sid)) else Move(st, c, Preparing(sid, conn)))
    case ClearStale(c) =>
      var sid := st.clients[c].sid;
      Write(st, c, st.pool.info[sid].(conn := None), Acquiring(sid))
    case Acquire(c, ok) =>
      var sid := st.clients[c].sid;
      if !ok then Move(st, c, Failed(sid))
      else Move(st, c, Attaching(sid, st.conns)).(owner := st.owner[st.conns := OfClient(c)], conns := st.conns + 1)
    case Attach(c) =>
      var sid, conn := st.clients[c].sid, st.clients[c].conn;
      Write(st, c, st.pool.info[sid].(conn := Some(conn)), Preparing(sid, conn)).(owner := st.owner[conn := OfSession(sid)])
    case Prepare(c, ok) =>
      var sid := st.clients[c].sid;
      Move(st, c, if ok then Serving(sid, st.clients[c].conn) else Failed(sid))
    case Serve(c) => Move(st, c, Releasing(st.clients[c].sid))
    case Release(c, hasTX) =>
      var sid := st.clients[c].sid;
      (match st.pool.info[sid].conn
       case Some(conn) => if hasTX then GiveBack(st, c, conn, Closed(sid)) else Move(st, c, Leaving(sid))
       case None => Move(st, c, Leaving(sid)))
    case ClearClosed(c) =>
      var sid := st.clients[c].sid;
      Write(st, c, st.pool.info[sid].(conn := None), Leaving(sid))
    case Depart(c, now) =>
      st.(pool := Leave(st.pool, st.clients[c].sid, now), clients := st.clients - {c}, clock := now)
    case Tick(now, sessionTimeout, connTimeout, detached, taken) =>
      st.(pool := Watch(st.pool, now, sessionTimeout, connTimeout),
          owner := st.owner - (set k | k in taken), released := st.released + taken, clock := now)
  }

  // ----- The invariant -----

  ghost predicate Inv(st: State) {
    && Valid(st.pool, st.clock)
    && (forall s :: s in st.pool.info ==> s < st.sessions)
    && Held(st)
    && (forall c :: c in st.clients ==> ClientOk(st, c))
    && (forall s :: s in st.pool.info ==> SessionOk(st, s))
    && OwnersOk(st)
    && Logged(st)
  }

  /** Every request has a session of its own, which is in use. */
  ghost predicate Held(st: State) {
    && (forall c :: c in st.clients ==> st.clients[c].sid in st.pool.info && st.pool.info[st.clients[c].sid].inUse)
    && (forall c, c' :: c in st.clients && c' in st.clients && c != c' ==> st.clients[c].sid != st.clients[c'].sid)
  }

  predicate IsDangling(cl: Client) { cl.Stale? || cl.Closed? }

  ghost predicate ClientOk(st: State, c: nat)
    requires c in st.clients && st.clients[c].sid in st.pool.info
  {
    var cl, i := st.clients[c], st.pool.info[st.clients[c].sid];
    && (cl.Authenticating? || cl.Failed? || i.claims.Some?)
    && (cl.Authenticating? || cl.Locating? || cl.Acquiring? || cl.Attaching? ==> i.conn == None)
    && (cl.Preparing? || cl.Serving? ==> i.conn == Some(cl.conn))
    && (cl.Attaching? ==> cl.conn in st.owner && st.owner[cl.conn] == OfClient(c))
    && (i.conn.Some? ==> (i.conn.value in st.owner <==> !IsDangling(cl)))
  }

  ghost predicate SessionOk(st: State, s: nat)
    requires s in st.pool.info
  {
    var i := st.pool.info[s];
    && (!i.inUse ==> i.claims.Some?)
    && (i.conn.Some? ==>
          if i.conn.value in st.owner then st.owner[i.conn.value] == OfSession(s) else i.inUse && i.conn.value in st.released)
  }

  /** The owner of a connection is the only one that has it. */
  ghost predicate OwnersOk(st: State) { OwnersHave(st) && NamedOnce(st) }

  ghost predicate OwnersHave(st: State) {
    forall k :: k in st.owner ==> k < st.conns && match st.owner[k]
      case OfSession(s) => s in st.pool.info && st.pool.info[s].conn == Some(k)
      case OfClient(c) => c in st.clients && st.clients[c].Attaching? && st.clients[c].conn == k
  }

  ghost predicate NamedOnce(st: State) {
    forall s, s' :: s in st.pool.info && s' in st.pool.info && s != s' ==>
      st.pool.info[s].conn == None || st.pool.info[s].conn != st.pool.info[s'].conn
  }

  ghost predicate Logged(st: State) {
    && Distinct(st.released)
    && (forall k :: k in st.released ==> k < st.conns && k !in st.owner)
  }

  // ----- Every step keeps it -----

  /** A request that only moves on. */
  lemma MoveKeeps(st: State, c: nat, to: Client)
    requires Inv(st) && c in st.clients && to.sid == st.clients[c].sid && !st.clients[c].Attaching?
    requires ClientOk(Move(st, c, to), c)
    ensures Inv(Move(st, c, to))
  {
    hide Valid, Logged, OwnersOk, Held, SessionOk;
    var st' := Move(st, c, to);
    MoveKeepsHeld(st, c, to);
    MoveKeepsOwners(st, c, to);
    forall d | d in st'.clients ensures st'.clients[d].sid in st'.pool.info && ClientOk(st', d) {
      HoldsSession(st, d);
      assert d != c ==> ClientOk(st, d);
    }
    forall s | s in st'.pool.info ensures SessionOk(st', s) {
      MoveKeepsSession(st, c, to, s);
    }
  }

  lemma MoveKeepsHeld(st: State, c: nat, to: Client)
    requires Held(st) && c in st.clients && to.sid == st.clients[c].sid
    ensures Held(Move(st, c, to))
  {
  }

  lemma MoveKeepsSession(st: State, c: nat, to: Client, s: nat)
    requires s in st.pool.info && SessionOk(st, s)
    ensures SessionOk(Move(st, c, to), s)
  {
  }

  lemma MoveKeepsOwners(st: State, c: nat, to: Client)
    requires OwnersOk(st) && Logged(st) && c in st.clients && !st.clients[c].Attaching?
    ensures OwnersOk(Move(st, c, to)) && Logged(Move(st, c, to))
  {
    hide Distinct;
  }

  /** What a request may write to its session: anything but the key, the use and the time; and of
      the connection it may write nothing, or that there is none. */
  ghost predicate MayWrite(was: Info, i: Info) {
    i.key == was.key && i.inUse == was.inUse && i.lastUsedAt == was.lastUsedAt && (i.conn == was.conn || i.conn == None)
  }

  lemma WriteKeeps(st: State, c: nat, i: Info, to: Client)
    requires Inv(st) && c in st.clients && to.sid == st.clients[c].sid && !st.clients[c].Attaching?
    requires MayWrite(st.pool.info[to.sid], i) && (i.conn == None ==> IsDangling(st.clients[c]) || st.pool.info[to.sid].conn == None)
    requires ClientOk(Write(st, c, i, to), c)
    ensures Inv(Write(st, c, i, to))
  {
    hide Valid, Distinct, Held, ClientOk, SessionOk, OwnersOk;
    var st' := Write(st, c, i, to);
    WriteKeepsHeld(st, c, i, to);
    UpdateKeeps(st.pool, to.sid, i, st.clock);
    forall d | d in st'.clients && d != c ensures ClientOk(st', d) {
      WriteKeepsClient(st, c, i, to, d);
    }
    forall s | s in st'.pool.info ensures SessionOk(st', s) {
      WriteKeepsSession(st, c, i, to, s);
    }
    WriteKeepsOwners(st, c, i, to);
  }

  lemma WriteKeepsHeld(st: State, c: nat, i: Info, to: Client)
    requires Held(st) && c in st.clients && to.sid == st.clients[c].sid && i.inUse == st.pool.info[to.sid].inUse
    ensures to.sid in st.pool.info && Held(Write(st, c, i, to)) && st.pool.info[to.sid].inUse
  {
  }

  lemma WriteKeepsClient(st: State, c: nat, i: Info, to: Client, d: nat)
    requires Held(st) && c in st.clients && to.sid == st.clients[c].sid
    requires d in st.clients && d != c && ClientOk(st, d)
    ensures ClientOk(Write(st, c, i, to), d)
  {
  }

  lemma WriteKeepsSession(st: State, c: nat, i: Info, to: Client, s: nat)
    requires c in st.clients && to.sid == st.clients[c].sid && to.sid in st.pool.info
    requires MayWrite(st.pool.info[to.sid], i) && i.inUse && s in st.pool.info && SessionOk(st, s)
    ensures SessionOk(Write(st, c, i, to), s)
  {
  }

  lemma WriteKeepsOwners(st: State, c: nat, i: Info, to: Client)
    requires Inv(st) && c in st.clients && to.sid == st.clients[c].sid && !st.clients[c].Attaching?
    requires MayWrite(st.pool.info[to.sid], i) && (i.conn == None ==> IsDangling(st.clients[c]) || st.pool.info[to.sid].conn == None)
    ensures OwnersOk(Write(st, c, i, to))
  {
    hide Valid, Distinct, Logged;
    var st' := Write(st, c, i, to);
    assert ClientOk(st, c) && SessionOk(st, to.sid);
    forall k | k in st'.owner && st'.owner[k] == OfSession(to.sid) ensures i.conn == Some(k) {
      assert st.pool.info[to.sid].conn == Some(k);
      assert k in st.owner;
    }
  }

  // A request opens a connection.

  function Opening(st: State, c: nat): State
    requires c in st.clients
  {
    Move(st, c, Attaching(st.clients[c].sid, st.conns)).(owner := st.owner[st.conns := OfClient(c)], conns := st.conns + 1)
  }

  /** Every connection that is named or owned was handed out before. */
  lemma ConnsAreOld(st: State, s: nat)
    requires OwnersOk(st) && Logged(st) && s in st.pool.info && SessionOk(st, s) && st.pool.info[s].conn.Some?
    ensures st.pool.info[s].conn.value < st.conns
  {
  }

  lemma AcquireKeepsClient(st: State, c: nat, d: nat)
    requires OwnersOk(st) && Logged(st) && Held(st) && c in st.clients && st.clients[c].Acquiring?
    requires d in st.clients && ClientOk(st, d) && SessionOk(st, st.clients[d].sid)
    ensures ClientOk(Opening(st, c), d)
  {
    hide OwnersOk, Logged, SessionOk;
    OwnedIsOld(st);
    if st.pool.info[st.clients[d].sid].conn.Some? {
      ConnsAreOld(st, st.clients[d].sid);
    }
  }

  lemma OwnedIsOld(st: State)
    requires OwnersOk(st)
    ensures st.conns !in st.owner
  {
  }

  lemma AcquireKeepsSession(st: State, c: nat, s: nat)
    requires OwnersOk(st) && Logged(st) && c in st.clients && s in st.pool.info && SessionOk(st, s)
    ensures SessionOk(Opening(st, c), s)
  {
    hide OwnersOk, Logged;
    if st.pool.info[s].conn.Some? {
      ConnsAreOld(st, s);
    }
  }

  lemma AcquireKeepsOwners(st: State, c: nat)
    requires OwnersOk(st) && Logged(st) && c in st.clients && st.clients[c].Acquiring?
    ensures OwnersOk(Opening(st, c)) && Logged(Opening(st, c))
  {
    hide Distinct;
  }

  lemma AcquireKeeps(st: State, c: nat)
    requires Inv(st) && c in st.clients && st.clients[c].Acquiring?
    ensures Inv(Next(st, Acquire(c, true)))
  {
    hide Valid, Held, ClientOk, SessionOk, OwnersOk, Logged;
    var st' := Opening(st, c);
    MoveKeepsHeld(st, c, Attaching(st.clients[c].sid, st.conns));
    HeldIsAboutClients(Move(st, c, Attaching(st.clients[c].sid, st.conns)), st');
    forall d | d in st'.clients ensures st'.clients[d].sid in st'.pool.info && ClientOk(st', d) {
      HoldsSession(st, d);
      AcquireKeepsClient(st, c, d);
    }
    forall s | s in st'.pool.info ensures SessionOk(st', s) {
      AcquireKeepsSession(st, c, s);
    }
    AcquireKeepsOwners(st, c);
  }

  lemma HeldIsAboutClients(st: State, st': State)
    requires Held(st) && st'.clients == st.clients && st'.pool == st.pool
    ensures Held(st')
  {
  }

  // The session takes it over.

  function Taking(st: State, c: nat): State
    requires c in st.clients && st.clients[c].Attaching? && st.clients[c].sid in st.pool.info
  {
    var sid, conn := st.clients[c].sid, st.clients[c].conn;
    Write(st, c, st.pool.info[sid].(conn := Some(conn)), Preparing(sid, conn)).(owner := st.owner[conn := OfSession(sid)])
  }

  lemma AttachKeepsClient(st: State, c: nat, d: nat)
    requires Held(st) && c in st.clients && st.clients[c].Attaching? && ClientOk(st, c) && d in st.clients && ClientOk(st, d)
    ensures ClientOk(Taking(st, c), d)
  {
    assert d != c ==> st.clients[d].sid != st.clients[c].sid;
  }

  lemma AttachKeepsSession(st: State, c: nat, s: nat)
    requires Held(st) && c in st.clients && st.clients[c].Attaching? && ClientOk(st, c) && s in st.pool.info && SessionOk(st, s)
    ensures SessionOk(Taking(st, c), s)
  {
  }

  /** No other session names the connection. */
  lemma NobodyNames(st: State, c: nat, s: nat)
    requires Held(st) && c in st.clients && st.clients[c].Attaching? && ClientOk(st, c)
    requires s in st.pool.info && s != st.clients[c].sid && SessionOk(st, s)
    ensures st.pool.info[s].conn != Some(st.clients[c].conn)
  {
  }

  lemma AttachKeepsLogged(st: State, c: nat)
    requires c in st.clients && st.clients[c].Attaching? && st.clients[c].sid in st.pool.info && ClientOk(st, c) && Logged(st)
    ensures Logged(Taking(st, c))
  {
    hide Distinct;
  }

  lemma AttachKeepsOwners(st: State, c: nat)
    requires Held(st) && c in st.clients && st.clients[c].Attaching? && ClientOk(st, c) && OwnersOk(st)
    requires forall s :: s in st.pool.info ==> SessionOk(st, s)
    ensures OwnersOk(Taking(st, c))
  {
    hide Logged, SessionOk, ClientOk, OwnersHave, NamedOnce;
    forall s | s in st.pool.info && s != st.clients[c].sid ensures st.pool.info[s].conn != Some(st.clients[c].conn) {
      NobodyNames(st, c, s);
    }
    TakenOver(st, c);
    TakerHas(st, c);
    TakenIsNamedOnce(st, c);
  }

  lemma TakerHas(st: State, c: nat)
    requires c in st.clients && st.clients[c].Attaching? && st.clients[c].sid in st.pool.info && OwnersHave(st)
    requires st.pool.info[st.clients[c].sid].conn == None && st.clients[c].conn in st.owner
    ensures OwnersHave(Taking(st, c))
  {
  }

  lemma TakenIsNamedOnce(st: State, c: nat)
    requires c in st.clients && st.clients[c].Attaching? && st.clients[c].sid in st.pool.info && NamedOnce(st)
    requires forall s :: s in st.pool.info && s != st.clients[c].sid ==> st.pool.info[s].conn != Some(st.clients[c].conn)
    ensures NamedOnce(Taking(st, c))
  {
  }

  /** The session's own connection was none, and the connection taken over was the request's. */
  lemma TakenOver(st: State, c: nat)
    requires c in st.clients && st.clients[c].Attaching? && st.clients[c].sid in st.pool.info && ClientOk(st, c)
    ensures st.pool.info[st.clients[c].sid].conn == None
    ensures st.clients[c].conn in st.owner && st.owner[st.clients[c].conn] == OfClient(c)
  {
  }

  lemma AttachKeeps(st: State, c: nat)
    requires Inv(st) && c in st.clients && st.clients[c].Attaching?
    ensures Inv(Next(st, Attach(c)))
  {
    hide Valid, Held, ClientOk, SessionOk, OwnersOk, Logged;
    HoldsSession(st, c);
    var st', sid, conn := Taking(st, c), st.clients[c].sid, st.clients[c].conn;
    UpdateKeeps(st.pool, sid, st.pool.info[sid].(conn := Some(conn)), st.clock);
    WriteKeepsHeld(st, c, st.pool.info[sid].(conn := Some(conn)), Preparing(sid, conn));
    HeldIsAboutClients(Write(st, c, st.pool.info[sid].(conn := Some(conn)), Preparing(sid, conn)), st');
    forall d | d in st'.clients ensures st'.clients[d].sid in st'.pool.info && ClientOk(st', d) {
      HoldsSession(st, d);
      AttachKeepsClient(st, c, d);
    }
    forall s | s in st'.pool.info ensures SessionOk(st', s) {
      AttachKeepsSession(st, c, s);
    }
    AttachKeepsOwners(st, c);
    AttachKeepsLogged(st, c);
  }

  lemma GiveBackIsLogged(st: State, c: nat, conn: nat, to: Client)
    requires Logged(st) && OwnersOk(st) && conn in st.owner && c in st.clients && !st.clients[c].Attaching?
    ensures Logged(GiveBack(st, c, conn, to)) && OwnersOk(GiveBack(st, c, conn, to))
    ensures forall s :: s in st.pool.info && s != to.sid && to.sid in st.pool.info && st.pool.info[to.sid].conn == Some(conn) ==> st.pool.info[s].conn != Some(conn)
  {
  }

  /** A release: the request's session still names the connection, nobody owns it any more. */
  lemma GiveBackKeeps(st: State, c: nat, conn: nat, to: Client)
    requires Inv(st) && c in st.clients && to.sid == st.clients[c].sid && !st.clients[c].Attaching?
    requires IsDangling(to) && !IsDangling(st.clients[c]) && st.pool.info[to.sid].conn == Some(conn)
    requires st.pool.info[to.sid].claims.Some?
    ensures Inv(GiveBack(st, c, conn, to))
  {
    hide Valid, Logged, OwnersOk;
    var st' := GiveBack(st, c, conn, to);
    assert ClientOk(st, c) && SessionOk(st, to.sid);
    GiveBackIsLogged(st, c, conn, to);
    forall d | d in st'.clients ensures ClientOk(st', d) {
      assert ClientOk(st, d);
    }
    forall s | s in st'.pool.info ensures SessionOk(st', s) {
      assert SessionOk(st, s);
    }
  }

  /** What getSession does to sessions the request does not get: nothing. */
  lemma GetFacts(st: State, key: string, now: int)
    requires Inv(st) && now >= st.clock
    ensures var (pool', sid, isNew) := Get(st.pool, key, now, st.sessions);
      && Valid(pool', now) && sid in pool'.info
      && pool'.info.Keys == st.pool.info.Keys + {sid}
      && (forall s :: s in st.pool.info && s != sid ==> pool'.info[s] == st.pool.info[s])
      && (isNew ==> sid == st.sessions && pool'.info[sid] == Opened(key, now))
      && (!isNew ==> sid in st.pool.info && !st.pool.info[sid].inUse && pool'.info[sid] == st.pool.info[sid].(inUse := true))
  {
    if HeadIsFree(st.pool, key) {
      ReuseKeeps(st.pool, key, now, st.clock);
    } else {
      AddNewKeeps(st.pool, key, now, st.sessions, st.clock);
    }
  }

  lemma PoolIsWellFormed(st: State)
    requires Inv(st)
    ensures WellFormed(st.pool)
  {
  }

  lemma StartKeeps(st: State, c: nat, key: string, now: int)
    requires Inv(st) && c !in st.clients && now >= st.clock
    ensures Inv(Next(st, Start(c, key, now)))
  {
    hide Valid, WellFormed, Get, Held, ClientOk, SessionOk, OwnersOk, Logged;
    PoolIsWellFormed(st);
    GetFacts(st, key, now);
    var (pool', sid, isNew) := Get(st.pool, key, now, st.sessions);
    if isNew {
      JoinKeeps(st, pool', sid, c, Authenticating(sid), st.sessions + 1, now);
    } else {
      JoinKeeps(st, pool', sid, c, Checking(sid), st.sessions, now);
    }
  }

  ghost predicate Joins(st: State, pool': Pool<nat>, sid: nat, cl: Client, sessions: nat, now: int) {
    && pool'.info.Keys == st.pool.info.Keys + {sid} && (forall s :: s in st.pool.info && s != sid ==> pool'.info[s] == st.pool.info[s])
    && match cl
       case Authenticating(_) => sid == st.sessions && sessions == sid + 1 && exists key :: pool'.info[sid] == Opened(key, now)
       case Checking(_) =>
         sessions == st.sessions && sid in st.pool.info && !st.pool.info[sid].inUse && pool'.info[sid] == st.pool.info[sid].(inUse := true)
       case _ => false
  }

  lemma JoinKeepsClient(st: State, pool': Pool<nat>, sid: nat, c: nat, cl: Client, sessions: nat, now: int, d: nat)
    requires Inv(st) && c !in st.clients && cl.sid == sid && Joins(st, pool', sid, cl, sessions, now) && d in st.clients
    ensures st.clients[d].sid != sid && ClientOk(st.(pool := pool', sessions := sessions, clients := st.clients[c := cl], clock := now), d)
  {
    hide Valid, Logged, OwnersOk, SessionOk;
    assert ClientOk(st, d);
  }

  lemma JoinKeepsSession(st: State, pool': Pool<nat>, sid: nat, c: nat, cl: Client, sessions: nat, now: int, s: nat)
    requires Inv(st) && c !in st.clients && cl.sid == sid && Joins(st, pool', sid, cl, sessions, now) && s in pool'.info
    ensures SessionOk(st.(pool := pool', sessions := sessions, clients := st.clients[c := cl], clock := now), s)
  {
    hide Valid, Logged, OwnersOk, Held, ClientOk;
    assert s in st.pool.info ==> SessionOk(st, s);
  }

  lemma NewcomerIsOk(st: State, pool': Pool<nat>, sid: nat, c: nat, cl: Client, sessions: nat, now: int)
    requires Inv(st) && c !in st.clients && cl.sid == sid && Joins(st, pool', sid, cl, sessions, now)
    ensures pool'.info[sid].inUse && ClientOk(st.(pool := pool', sessions := sessions, clients := st.clients[c := cl], clock := now), c)
  {
    hide Valid, Logged, OwnersOk, Held;
    assert sid in st.pool.info ==> SessionOk(st, sid);
  }

  /** A request gets a session that nobody has: a new one, or one that was free. */
  lemma JoinKeeps(st: State, pool': Pool<nat>, sid: nat, c: nat, cl: Client, sessions: nat, now: int)
    requires Inv(st) && c !in st.clients && Valid(pool', now) && cl.sid == sid && Joins(st, pool', sid, cl, sessions, now)
    ensures Inv(st.(pool := pool', sessions := sessions, clients := st.clients[c := cl], clock := now))
  {
    hide Valid, Logged, OwnersOk, SessionOk, ClientOk;
    var st' := st.(pool := pool', sessions := sessions, clients := st.clients[c := cl], clock := now);
    NewcomerIsOk(st, pool', sid, c, cl, sessions, now);
    forall d | d in st.clients ensures st.clients[d].sid != sid && ClientOk(st', d) {
      JoinKeepsClient(st, pool', sid, c, cl, sessions, now, d);
    }
    forall s | s in st'.pool.info ensures SessionOk(st', s) {
      JoinKeepsSession(st, pool', sid, c, cl, sessions, now, s);
    }
    JoinKeepsOwners(st, pool', sid, c, cl, sessions, now);
  }

  lemma JoinKeepsOwners(st: State, pool': Pool<nat>, sid: nat, c: nat, cl: Client, sessions: nat, now: int)
    requires OwnersOk(st) && Logged(st) && c !in st.clients
    requires pool'.info.Keys == st.pool.info.Keys + {sid} && forall s :: s in st.pool.info && s != sid ==> pool'.info[s] == st.pool.info[s]
    requires pool'.info[sid].conn == if sid in st.pool.info then st.pool.info[sid].conn else None
    ensures var st' := st.(pool := pool', sessions := sessions, clients := st.clients[c := cl], clock := now);
      OwnersOk(st') && Logged(st')
  {
    hide Distinct;
  }

  lemma LeaveFacts(p: Pool<nat>, s: nat, now: int)
    requires WellFormed(p) && s in p.info
    ensures Leave(p, s, now).info == p.info[s := p.info[s].(inUse := false, lastUsedAt := now)]
  {
  }

  lemma DepartKeeps(st: State, c: nat, now: int)
    requires Inv(st) && c in st.clients && st.clients[c].Leaving? && now >= st.clock
    ensures Inv(Next(st, Depart(c, now)))
  {
    hide Valid, WellFormed, Leave, Held, ClientOk, SessionOk, OwnersOk, Logged;
    var sid := st.clients[c].sid;
    PoolIsWellFormed(st);
    HoldsSession(st, c);
    LeaveKeeps(st.pool, sid, now, st.clock);
    LeaveFacts(st.pool, sid, now);
    PartKeeps(st, Leave(st.pool, sid, now), sid, c, now);
  }

  lemma HoldsSession(st: State, c: nat)
    requires Inv(st) && c in st.clients
    ensures st.clients[c].sid in st.pool.info && st.pool.info[st.clients[c].sid].inUse
  {
  }

  lemma PartKeepsOwners(st: State, pool': Pool<nat>, sid: nat, c: nat, now: int)
    requires OwnersOk(st) && Logged(st) && c in st.clients && !st.clients[c].Attaching? && sid in st.pool.info
    requires pool'.info == st.pool.info[sid := st.pool.info[sid].(inUse := false, lastUsedAt := now)]
    ensures var st' := st.(pool := pool', clients := st.clients - {c}, clock := now); OwnersOk(st') && Logged(st')
  {
    hide Distinct;
  }

  lemma PartKeeps(st: State, pool': Pool<nat>, sid: nat, c: nat, now: int)
    requires Inv(st) && c in st.clients && st.clients[c] == Leaving(sid) && Valid(pool', now) && sid in st.pool.info
    requires pool'.info == st.pool.info[sid := st.pool.info[sid].(inUse := false, lastUsedAt := now)]
    ensures Inv(st.(pool := pool', clients := st.clients - {c}, clock := now))
  {
    hide Valid, Distinct, Logged, OwnersOk;
    var st' := st.(pool := pool', clients := st.clients - {c}, clock := now);
    assert ClientOk(st, c) && SessionOk(st, sid);
    PartKeepsOwners(st, pool', sid, c, now);
    forall d | d in st'.clients ensures ClientOk(st', d) {
      assert ClientOk(st, d);
    }
    forall s | s in st'.pool.info ensures SessionOk(st', s) {
      assert SessionOk(st, s);
    }
  }

  /** The connections the watcher takes are owned by free sessions, and are different. */
  lemma TakenAreOwned(st: State, detached: seq<nat>, taken: seq<nat>, now: int, connTimeout: int)
    requires Inv(st) && Taken(detached, taken, st.pool.info.Keys, st.pool.info, now, connTimeout)
    ensures forall s :: s in st.pool.info && Detaches(st.pool.info[s], now, connTimeout) ==> st.pool.info[s].conn.value in taken
    ensures Distinct(taken) && forall k :: k in taken ==>
      k in st.owner && st.owner[k].OfSession? && st.owner[k].sid in st.pool.info && Detaches(st.pool.info[st.owner[k].sid], now, connTimeout)
  {
    hide Valid;
    forall i | 0 <= i < |taken|
      ensures taken[i] in st.owner && st.owner[taken[i]] == OfSession(detached[i])
      ensures detached[i] in st.pool.info && Detaches(st.pool.info[detached[i]], now, connTimeout)
    {
      assert SessionOk(st, detached[i]);
    }
    forall s | s in st.pool.info && Detaches(st.pool.info[s], now, connTimeout) ensures st.pool.info[s].conn.value in taken {
      var i :| 0 <= i < |detached| && detached[i] == s;
      assert taken[i] in taken;
    }
  }

  lemma TickKeeps(st: State, now: int, sessionTimeout: int, connTimeout: int, detached: seq<nat>, taken: seq<nat>)
    requires Inv(st) && now >= st.clock && Taken(detached, taken, st.pool.info.Keys, st.pool.info, now, connTimeout)
    ensures Inv(Next(st, Tick(now, sessionTimeout, connTimeout, detached, taken)))
  {
    hide Valid, WellFormed, Watch, Taken, ClientOk, SessionOk, Logged, OwnersOk, Held;
    var st' := Next(st, Tick(now, sessionTimeout, connTimeout, detached, taken));
    TickFacts(st, now, sessionTimeout, connTimeout);
    TickKeepsHeld(st, st'.pool, now, connTimeout, taken);
    TakenAreOwned(st, detached, taken, now, connTimeout);
    forall d | d in st'.clients ensures ClientOk(st', d) {
      TickKeepsClient(st, st'.pool, now, connTimeout, taken, d);
    }
    forall s | s in st'.pool.info ensures SessionOk(st', s) {
      TickKeepsSession(st, st'.pool, now, connTimeout, taken, s);
    }
    TickKeepsOwners(st, st'.pool, now, connTimeout, taken);
  }

  ghost function Ticked(st: State, pool': Pool<nat>, now: int, taken: seq<nat>): State {
    st.(pool := pool', owner := st.owner - (set k | k in taken), released := st.released + taken, clock := now)
  }

  /** pool' is the pool with the connections in `taken` taken from it, perhaps with fewer free sessions. */
  ghost predicate SweptTo(st: State, pool': Pool<nat>, now: int, connTimeout: int, taken: seq<nat>) {
    && pool'.info.Keys <= st.pool.info.Keys
    && (forall s :: s in pool'.info ==> pool'.info[s] == Swept(st.pool.info[s], now, connTimeout))
    && (forall s :: s in st.pool.info && (st.pool.info[s].inUse || st.pool.info[s].conn.Some?) ==> s in pool'.info)
    && (forall k :: k in taken ==>
          k in st.owner && st.owner[k].OfSession? && st.owner[k].sid in st.pool.info && Detaches(st.pool.info[st.owner[k].sid], now, connTimeout))
    && (forall s :: s in st.pool.info && Detaches(st.pool.info[s], now, connTimeout) ==> st.pool.info[s].conn.value in taken)
  }

  lemma TickKeepsHeld(st: State, pool': Pool<nat>, now: int, connTimeout: int, taken: seq<nat>)
    requires Held(st)
    requires forall s :: s in pool'.info ==> s in st.pool.info && pool'.info[s] == Swept(st.pool.info[s], now, connTimeout)
    requires forall s :: s in st.pool.info && st.pool.info[s].inUse ==> s in pool'.info
    ensures Held(Ticked(st, pool', now, taken))
  {
  }

  lemma TickKeepsClient(st: State, pool': Pool<nat>, now: int, connTimeout: int, taken: seq<nat>, d: nat)
    requires Inv(st) && d in st.clients && SweptTo(st, pool', now, connTimeout, taken)
    ensures st.clients[d].sid in pool'.info && ClientOk(Ticked(st, pool', now, taken), d)
  {
    hide Valid, WellFormed, Logged;
    var s := st.clients[d].sid;
    assert ClientOk(st, d) && SessionOk(st, s);
  }

  lemma TickKeepsSession(st: State, pool': Pool<nat>, now: int, connTimeout: int, taken: seq<nat>, s: nat)
    requires Inv(st) && s in pool'.info && SweptTo(st, pool', now, connTimeout, taken)
    ensures SessionOk(Ticked(st, pool', now, taken), s)
  {
    hide Valid, WellFormed, Logged, ClientOk, Held;
    assert SessionOk(st, s);
  }

  lemma TickKeepsOwners(st: State, pool': Pool<nat>, now: int, connTimeout: int, taken: seq<nat>)
    requires Inv(st) && SweptTo(st, pool', now, connTimeout, taken) && Distinct(taken)
    ensures OwnersOk(Ticked(st, pool', now, taken)) && Logged(Ticked(st, pool', now, taken))
  {
    hide Valid, ClientOk, Held, SessionOk, OwnersHave, NamedOnce, Logged, SweptTo, Ticked, Distinct;
    TickKeepsOwnersHave(st, pool', now, connTimeout, taken);
    TickKeepsNames(st, pool', now, connTimeout, taken);
    TickKeepsLog(st, pool', now, connTimeout, taken);
  }

  lemma TickKeepsOwnersHave(st: State, pool': Pool<nat>, now: int, connTimeout: int, taken: seq<nat>)
    requires OwnersHave(st) && SweptTo(st, pool', now, connTimeout, taken)
    ensures OwnersHave(Ticked(st, pool', now, taken))
  {
  }

  lemma TickKeepsNames(st: State, pool': Pool<nat>, now: int, connTimeout: int, taken: seq<nat>)
    requires NamedOnce(st) && SweptTo(st, pool', now, connTimeout, taken)
    ensures NamedOnce(Ticked(st, pool', now, taken))
  {
  }

  lemma TickKeepsLog(st: State, pool': Pool<nat>, now: int, connTimeout: int, taken: seq<nat>)
    requires OwnersHave(st) && Logged(st) && SweptTo(st, pool', now, connTimeout, taken) && Distinct(taken)
    ensures Logged(Ticked(st, pool', now, taken))
  {
    forall i | 0 <= i < |taken| ensures taken[i] in st.owner && taken[i] !in st.released {
      assert taken[i] in taken;
    }
  }

  lemma TickFacts(st: State, now: int, sessionTimeout: int, connTimeout: int)
    requires Inv(st) && now >= st.clock
    ensures var p' := Watch(st.pool, now, sessionTimeout, connTimeout);
      && Valid(p', now) && p'.info.Keys <= st.pool.info.Keys
      && (forall s :: s in p'.info ==> p'.info[s] == Swept(st.pool.info[s], now, connTimeout))
      && (forall s :: s in st.pool.info && (st.pool.info[s].inUse || st.pool.info[s].conn.Some?) ==> s in p'.info)
  {
    VisitKeeps(st.pool, st.pool.order.Keys, now, sessionTimeout, connTimeout, st.clock);
    WatchSelects(st.pool, now, sessionTimeout, connTimeout);
  }

  /** A step of one request between getSession and leaveSession, the opening of connections apart. */
  lemma RequestKeeps(st: State, a: Action, c: nat)
    requires Inv(st) && Enabled(st, a)
    requires match a
      case Authenticate(d, _) => c == d
      case Locate(d, _, _) => c == d
      case Check(d, _) => c == d
      case ClearStale(d) => c == d
      case Acquire(d, ok) => c == d && !ok
      case Prepare(d, _) => c == d
      case Serve(d) => c == d
      case Release(d, _) => c == d
      case ClearClosed(d) => c == d
      case _ => false
    ensures Inv(Next(st, a))
  {
    hide Valid, WellFormed, Held, SessionOk, OwnersOk, Logged;
    HoldsSession(st, c);
    ClientIsOk(st, c);
    var sid := st.clients[c].sid;
    var i := st.pool.info[sid];
    match a
    case Authenticate(_, claims) =>
      if claims.None? { MoveKeeps(st, c, Failed(sid)); } else { WriteKeeps(st, c, i.(claims := claims), Locating(sid)); }
    case Locate(_, ok, db) =>
      if ok { WriteKeeps(st, c, i.(db := db), Checking(sid)); } else { MoveKeeps(st, c, Failed(sid)); }
    case Check(_, closed) =>
      if i.conn.None? {
        MoveKeeps(st, c, Acquiring(sid));
      } else if closed {
        GiveBackKeeps(st, c, i.conn.value, Stale(sid));
      } else {
        MoveKeeps(st, c, Preparing(sid, i.conn.value));
      }
    case ClearStale(_) => WriteKeeps(st, c, i.(conn := None), Acquiring(sid));
    case Acquire(_, _) => MoveKeeps(st, c, Failed(sid));
    case Prepare(_, ok) => MoveKeeps(st, c, if ok then Serving(sid, st.clients[c].conn) else Failed(sid));
    case Serve(_) => MoveKeeps(st, c, Releasing(sid));
    case Release(_, hasTX) =>
      if i.conn.Some? && hasTX {
        GiveBackKeeps(st, c, i.conn.value, Closed(sid));
      } else {
        MoveKeeps(st, c, Leaving(sid));
      }
    case ClearClosed(_) => WriteKeeps(st, c, i.(conn := None), Leaving(sid));
  }

  lemma ClientIsOk(st: State, c: nat)
    requires Inv(st) && c in st.clients
    ensures st.clients[c].sid in st.pool.info && ClientOk(st, c)
  {
  }

  /** Main result: every step keeps the invariant. */
  lemma StepKeeps(st: State, a: Action)
    requires Inv(st) && Enabled(st, a)
    ensures Inv(Next(st, a))
  {
    hide Valid, WellFormed, Held, ClientOk, SessionOk, OwnersOk, Logged, Next, Inv, Taken;
    match a
    case Start(c, key, now) => StartKeeps(st, c, key, now);
    case Acquire(c, ok) => if ok { AcquireKeeps(st, c); } else { RequestKeeps(st, a, c); }
    case Attach(c) => AttachKeeps(st, c);
    case Depart(c, now) => DepartKeeps(st, c, now);
    case Tick(now, sessionTimeout, connTimeout, detached, taken) => TickKeeps(st, now, sessionTimeout, connTimeout, detached, taken);
    case Authenticate(c, _) => RequestKeeps(st, a, c);
    case Locate(c, _, _) => RequestKeeps(st, a, c);
    case Check(c, _) => RequestKeeps(st, a, c);
    case ClearStale(c) => RequestKeeps(st, a, c);
    case Prepare(c, _) => RequestKeeps(st, a, c);
    case Serve(c) => RequestKeeps(st, a, c);
    case Release(c, _) => RequestKeeps(st, a, c);
    case ClearClosed(c) => RequestKeeps(st, a, c);
  }

  // ----- What follows for every run -----

  /** A step that is not possible in its place does nothing. */
  ghost function Do(st: State, a: Action): (st': State)
    requires Inv(st)
    ensures Inv(st')
  {
    if Enabled(st, a) then StepKeeps(st, a); Next(st, a) else st
  }

  ghost function Steps(st: State, actions: seq<Action>): (st': State)
    requires Inv(st)
    ensures Inv(st')
    decreases |actions|
  {
    if actions == [] then st else Steps(Do(st, actions[0]), actions[1..])
  }

  lemma InitIsFine(start: int)
    ensures Inv(Init(start))
  {
  }

  /** The state after a run, whatever its steps and their order. */
  ghost function Run(start: int, actions: seq<Action>): (st: State)
    ensures Inv(st)
  {
    InitIsFine(start); Steps(Init(start), actions)
  }

  /** Main result: each connection checked out is with exactly one session, or with the one request
      that has just acquired it; and no release is ever repeated, or of a connection in use. */
  lemma EachConnectionHasOneHolder(start: int, actions: seq<Action>, k: nat)
    ensures var st := Run(start, actions);
      && Distinct(st.released)
      && (k in st.owner ==> k !in st.released)
      && (k in st.owner ==> match st.owner[k]
            case OfSession(s) => && s in st.pool.info && st.pool.info[s].conn == Some(k)
                                 && (forall s' :: s' in st.pool.info && st.pool.info[s'].conn == Some(k) ==> s' == s)
                                 && (forall c :: c in st.clients && st.clients[c].Attaching? ==> st.clients[c].conn != k)
            case OfClient(c) => && c in st.clients && st.clients[c].Attaching? && st.clients[c].conn == k
                                && (forall s :: s in st.pool.info ==> st.pool.info[s].conn != Some(k))
                                && (forall c' :: c' in st.clients && c' != c && st.clients[c'].Attaching? ==> st.clients[c'].conn != k))
  {
    hide Valid, Distinct;
    var st := Run(start, actions);
    if k in st.owner {
      forall s | s in st.pool.info && st.pool.info[s].conn == Some(k) ensures st.owner[k] == OfSession(s) {
        assert SessionOk(st, s);
      }
      forall c | c in st.clients && st.clients[c].Attaching? && st.clients[c].conn == k ensures st.owner[k] == OfClient(c) {
        assert ClientOk(st, c);
      }
    }
  }

  /** Main result: nobody else touches what a request works with. Its session is its own and is in
      its slot to the end, and the connection it prepares and serves with stays open. */
  lemma ARequestIsUndisturbed(start: int, actions: seq<Action>, c: nat)
    ensures var st := Run(start, actions);
      c in st.clients ==>
        && var cl := st.clients[c]; var s := cl.sid;
        && s in st.pool.info && st.pool.info[s].inUse
        && st.pool.info[s].key in st.pool.order && s in st.pool.order[st.pool.info[s].key]
        && (forall c' :: c' in st.clients && c' != c ==> st.clients[c'].sid != s)
        && (cl.Preparing? || cl.Serving? ==>
              st.pool.info[s].conn == Some(cl.conn) && cl.conn in st.owner && st.owner[cl.conn] == OfSession(s) && cl.conn !in st.released)
        && (cl.Checking? || cl.Preparing? || cl.Serving? ==> st.pool.info[s].claims.Some?)
  {
    hide Distinct, Ordered;
    var st := Run(start, actions);
    if c in st.clients {
      assert ClientOk(st, c) && SessionOk(st, st.clients[c].sid);
    }
  }

  /** Main result: a session that is handed out again has its claims, its connection is open, and
      it is the one of its slot left last; a new one is made only when all of the slot are in use. */
  lemma AReusedSessionIsReady(start: int, actions: seq<Action>, key: string, now: int)
    ensures var st := Run(start, actions); var (_, sid, isNew) := Get(st.pool, key, now, st.sessions);
      && (isNew <==> forall s :: s in st.pool.info && st.pool.info[s].key == key ==> st.pool.info[s].inUse)
      && (!isNew ==> sid in st.pool.info && st.pool.info[sid].claims.Some? && st.pool.info[sid].key == key)
      && (!isNew && st.pool.info[sid].conn.Some? ==> st.pool.info[sid].conn.value in st.owner)
  {
    hide Valid, WellFormed, Get, OwnersOk, Logged, Held, ClientOk;
    var st := Run(start, actions);
    PoolIsWellFormed(st);
    GetIsComplete(st.pool, key, now, st.sessions, st.clock);
    GetKeepsKey(st.pool, key, now, st.sessions);
    var sid := Get(st.pool, key, now, st.sessions).1;
    assert sid in st.pool.info ==> SessionOk(st, sid);
  }

  lemma GetKeepsKey(p: Pool<nat>, key: string, now: int, s: nat)
    requires WellFormed(p)
    ensures var (_, sid, isNew) := Get(p, key, now, s); !isNew ==> sid in p.info && p.info[sid].key == key
  {
    assert key in p.order ==> p.order[key][0] in p.order[key];
  }
}
