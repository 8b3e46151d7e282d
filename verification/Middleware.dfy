/** acquireSession and releaseSession as one request runs them (authn/middleware.go): what they
    write to the session, and that this is a run of the steps of SessionProtocol. What the token,
    the databases and the connections answer is an input. */
module Middleware {
  import opened Sql
  import opened SessionLists
  import opened SessionPool
  import opened SessionManagers
  import P = SessionProtocol

  /** claims: of the token, unless it is refused; located: the database, if one is asked for, is
      found; closed: the connection held turns out closed; acquired: a new one, unless that fails;
      prepared: the connection could be prepared. */
  datatype Answers = Answers(claims: Option<string>, located: bool, db: Option<string>, closed: bool, acquired: Option<nat>, prepared: bool)

  datatype Result = Result(info: Info, status: nat, released: seq<nat>)

  /** What a request makes of the session it got. */
  function AcquireOn(i: Info, isNew: bool, a: Answers): Result {
    if isNew && a.claims.None? then Result(i, 401, [])
    else if isNew && !a.located then Result(i.(claims := a.claims), 404, [])
    else ConnectOn(if isNew then i.(claims := a.claims, db := a.db) else i, a)
  }

  function ConnectOn(i: Info, a: Answers): Result {
    if i.conn.Some? && !a.closed then Result(i, if a.prepared then 200 else 500, [])
    else
      var released := if i.conn.Some? then [i.conn.value] else [];
      if a.acquired.None? then Result(i.(conn := None), 500, released)
      else Result(i.(conn := a.acquired), if a.prepared then 200 else 500, released)
  }

  /** releaseSession gives the connection back only when it has a transaction. */
  function ReleaseOn(i: Info, hasTX: bool): Result {
    if i.conn.Some? && hasTX then Result(i.(conn := None), 200, [i.conn.value]) else Result(i, 200, [])
  }

  /** The request does not touch what the manager's order looks at. */
  lemma FillKeeps(i: Info, isNew: bool, a: Answers)
    ensures var r := AcquireOn(i, isNew, a); Before2(i, r.info) && r.info.key == i.key
  {
  }

  // ----- The code -----

  /** acquireSession, from getSession on. */
  method FillSession(session: Session, isNew: bool, a: Answers) returns (status: nat, released: seq<nat>)
    modifies session`claims, session`db, session`dbConn
    ensures Result(InfoOf(session), status, released) == AcquireOn(old(InfoOf(session)), isNew, a)
    ensures isNew && a.claims.None? ==> status == 401
    ensures isNew && a.claims.Some? && !a.located ==> status == 404
    ensures !isNew || (a.claims.Some? && a.located) ==>
      status == if a.prepared && ((old(session.dbConn).Some? && !a.closed) || a.acquired.Some?) then 200 else 500
    ensures released == if old(session.dbConn).Some? && a.closed && (status == 200 || status == 500) then [old(session.dbConn).value] else []
  {
    released := [];
    if isNew {
      if a.claims.None? {
        return 401, [];
      }
      session.claims := a.claims;
      if !a.located {
        return 404, [];
      }
      session.db := a.db;
    }
    if session.dbConn == None || a.closed {
      if session.dbConn != None {
        released := [session.dbConn.value];
        session.dbConn := None;
      }
      if a.acquired.None? {
        return 500, released;
      }
      session.dbConn := a.acquired;
    }
    status := if a.prepared then 200 else 500;
  }

  method AcquireSession(sm: SessionManager, key: string, now: int, a: Answers)
    returns (session: Session, status: nat, released: seq<nat>)
    requires sm.Valid() && sm.enabled && now >= sm.clock
    modifies sm`slots, sm`clock, sm`pool, sm.slots.Values, sm.pool.info.Keys
    ensures sm.Valid() && sm.clock == now
    ensures var (p, s, isNew) := Get(old(sm.pool), key, now, session); var r := AcquireOn(p.info[s], isNew, a);
      session == s && sm.pool == Update(p, s, r.info) && status == r.status && released == r.released
  {
    hide AcquireOn, SessionPool.Valid, WellFormed, SessionManager.Known, SessionManager.Linked, Holds, HeadIsFree, Reuse, AddNew;
    var isNew;
    session, isNew := sm.GetSession(key, now);
    FillKeeps(InfoOf(session), isNew, a);
    status, released := FillSession(session, isNew, a);
    sm.Note(session);
  }

  method ReleaseSession(sm: SessionManager, session: Session, hasTX: bool, now: int) returns (released: seq<nat>)
    requires sm.Valid() && sm.enabled && now >= sm.clock && session in sm.pool.info
    modifies sm`clock, sm`pool, sm.slots.Values, sm.pool.info.Keys
    ensures sm.Valid() && released == ReleaseOn(old(InfoOf(session)), hasTX).released
    ensures WellFormed(Update(old(sm.pool), session, ReleaseOn(old(InfoOf(session)), hasTX).info))
    ensures sm.pool == Leave(Update(old(sm.pool), session, ReleaseOn(old(InfoOf(session)), hasTX).info), session, now)
  {
    hide SessionPool.Valid, WellFormed, SessionManager.Linked, Holds, SessionList.Valid, Leave;
    released := [];
    if session.dbConn != None && hasTX {
      released := [session.dbConn.value];
      session.dbConn := None;
    }
    sm.Note(session);
    sm.HeadFacts(session.key);
    var swapped := sm.LeaveSession(session, now);
  }

  // ----- The code is a run of the protocol -----

  /** The steps of acquireSession, in order; those that are not taken do nothing. */
  function AcquireSteps(c: nat, key: string, now: int, a: Answers): seq<P.Action> {
    [P.Start(c, key, now), P.Authenticate(c, a.claims), P.Locate(c, a.located, a.db)] + ConnectSteps(c, a)
  }

  function ConnectSteps(c: nat, a: Answers): seq<P.Action> {
    [P.Check(c, a.closed), P.ClearStale(c), P.Acquire(c, a.acquired.Some?), P.Attach(c), P.Prepare(c, a.prepared)]
  }

  /** Where the request ends, and what it did, seen in the protocol. */
  ghost predicate Ended(st: P.State, st': P.State, c: nat, sid: nat, p: Pool<nat>, r: Result) {
    && c in st'.clients && st'.clients[c].sid == sid
    && (if r.status == 200 then st'.clients[c].Serving? else st'.clients[c].Failed?)
    && st'.pool == Update(p, sid, r.info) && st'.released == st.released + r.released
  }

  lemma Skips(st: P.State, a: P.Action)
    requires P.Inv(st) && !P.Enabled(st, a)
    ensures P.Do(st, a) == st
  {
    hide P.Inv, P.Next, P.Enabled;
  }

  lemma ChecksOut(st: P.State, c: nat, closed: bool)
    requires P.Inv(st) && c in st.clients && st.clients[c].Checking?
    ensures var sid := st.clients[c].sid; var s1 := P.Do(st, P.Check(c, closed));
      && sid in st.pool.info
      && s1 == match st.pool.info[sid].conn
           case None => P.Move(st, c, P.Acquiring(sid))
           case Some(conn) => if closed then P.GiveBack(st, c, conn, P.Stale(sid)) else P.Move(st, c, P.Preparing(sid, conn))
  {
    hide P.Inv;
    P.HoldsSession(st, c);
  }

  lemma Clears(st: P.State, c: nat)
    requires P.Inv(st) && c in st.clients && st.clients[c].Stale?
    ensures var sid := st.clients[c].sid; sid in st.pool.info && P.Do(st, P.ClearStale(c)) == P.Write(st, c, st.pool.info[sid].(conn := None), P.Acquiring(sid))
  {
    hide P.Inv;
    P.HoldsSession(st, c);
  }

  lemma Acquires(st: P.State, c: nat, ok: bool)
    requires P.Inv(st) && c in st.clients && st.clients[c].Acquiring?
    ensures var sid := st.clients[c].sid;
      P.Do(st, P.Acquire(c, ok))
        == if !ok then P.Move(st, c, P.Failed(sid))
           else P.Move(st, c, P.Attaching(sid, st.conns)).(owner := st.owner[st.conns := P.OfClient(c)], conns := st.conns + 1)
  {
    hide P.Inv;
  }

  lemma Attaches(st: P.State, c: nat)
    requires P.Inv(st) && c in st.clients && st.clients[c].Attaching?
    ensures var sid, conn := st.clients[c].sid, st.clients[c].conn;
      && sid in st.pool.info
      && P.Do(st, P.Attach(c))
           == P.Write(st, c, st.pool.info[sid].(conn := Some(conn)), P.Preparing(sid, conn)).(owner := st.owner[conn := P.OfSession(sid)])
  {
    hide P.Inv;
    P.HoldsSession(st, c);
  }

  lemma Prepares(st: P.State, c: nat, ok: bool)
    requires P.Inv(st) && c in st.clients && st.clients[c].Preparing?
    ensures var sid := st.clients[c].sid;
      P.Do(st, P.Prepare(c, ok)) == P.Move(st, c, if ok then P.Serving(sid, st.clients[c].conn) else P.Failed(sid))
  {
    hide P.Inv;
  }

  ghost predicate IsAt(st: P.State, c: nat, sid: nat) { c in st.clients && st.clients[c].sid == sid && sid in st.pool.info }

  /** From AcquireConnection on; the session has no connection. */
  lemma AcquiringIsARun(st: P.State, c: nat, a: Answers, sid: nat)
    requires P.Inv(st) && IsAt(st, c, sid) && st.clients[c].Acquiring? && st.pool.info[sid].conn == None
    requires a.acquired.Some? ==> a.acquired.value == st.conns
    ensures var s3 := P.Do(st, P.Acquire(c, a.acquired.Some?)); var s4 := P.Do(s3, P.Attach(c));
      Ended(st, P.Do(s4, P.Prepare(c, a.prepared)), c, sid, st.pool, ConnectOn(st.pool.info[sid], a))
  {
    hide P.Inv, P.Do, P.Next;
    Acquires(st, c, a.acquired.Some?);
    var s3 := P.Do(st, P.Acquire(c, a.acquired.Some?));
    if a.acquired.Some? {
      Attaches(s3, c);
      Prepares(P.Do(s3, P.Attach(c)), c, a.prepared);
    } else {
      Skips(s3, P.Attach(c));
      Skips(s3, P.Prepare(c, a.prepared));
      assert st.released + [] == st.released;
      assert st.pool.info[sid].(conn := None) == st.pool.info[sid];
      assert st.pool == Update(st.pool, sid, st.pool.info[sid]);
    }
  }

  /** From the check of the connection on. */
  lemma ConnectIsARun(st: P.State, c: nat, a: Answers, sid: nat)
    requires P.Inv(st) && IsAt(st, c, sid) && st.clients[c].Checking? && (a.acquired.Some? ==> a.acquired.value == st.conns)
    ensures Ended(st, P.Steps(st, ConnectSteps(c, a)), c, sid, st.pool, ConnectOn(st.pool.info[sid], a))
  {
    hide P.Inv, P.Do, P.Next, P.Steps;
    FiveSteps(st, P.Check(c, a.closed), P.ClearStale(c), P.Acquire(c, a.acquired.Some?), P.Attach(c), P.Prepare(c, a.prepared));
    ChecksOut(st, c, a.closed);
    var s1 := P.Do(st, P.Check(c, a.closed));
    var i := st.pool.info[sid];
    if i.conn.Some? && !a.closed {
      Skips(s1, P.ClearStale(c));
      Skips(s1, P.Acquire(c, a.acquired.Some?));
      Skips(s1, P.Attach(c));
      Prepares(s1, c, a.prepared);
      assert st.released + [] == st.released && st.pool == Update(st.pool, sid, i);
    } else if i.conn.Some? {
      Clears(s1, c);
      AcquiringIsARun(P.Do(s1, P.ClearStale(c)), c, a, sid);
      assert Update(Update(st.pool, sid, i.(conn := None)), sid, ConnectOn(i, a).info) == Update(st.pool, sid, ConnectOn(i, a).info);
    } else {
      Skips(s1, P.ClearStale(c));
      AcquiringIsARun(s1, c, a, sid);
    }
  }

  lemma FiveSteps(st: P.State, a1: P.Action, a2: P.Action, a3: P.Action, a4: P.Action, a5: P.Action)
    requires P.Inv(st)
    ensures P.Steps(st, [a1, a2, a3, a4, a5]) == P.Do(P.Do(P.Do(P.Do(P.Do(st, a1), a2), a3), a4), a5)
  {
    hide P.Inv, P.Do;
    var s1 := P.Do(st, a1);
    var s2 := P.Do(s1, a2);
    var s3 := P.Do(s2, a3);
    var s4 := P.Do(s3, a4);
    assert P.Steps(s4, [a5]) == P.Do(s4, a5) by { assert [a5][1..] == []; }
    assert P.Steps(s3, [a4, a5]) == P.Do(s4, a5) by { assert [a4, a5][1..] == [a5]; }
    assert P.Steps(s2, [a3, a4, a5]) == P.Do(s4, a5) by { assert [a3, a4, a5][1..] == [a4, a5]; }
    assert P.Steps(s1, [a2, a3, a4, a5]) == P.Do(s4, a5) by { assert [a2, a3, a4, a5][1..] == [a3, a4, a5]; }
    assert [a1, a2, a3, a4, a5][1..] == [a2, a3, a4, a5];
  }

  /** Main result: what acquireSession does, running alone, is what its steps do in the protocol. */
  lemma AcquireIsARun(st: P.State, c: nat, key: string, now: int, a: Answers)
    requires P.Inv(st) && c !in st.clients && now >= st.clock && (a.acquired.Some? ==> a.acquired.value == st.conns)
    ensures WellFormed(st.pool)
    ensures var (p, sid, isNew) := Get(st.pool, key, now, st.sessions);
      Ended(st, P.Steps(st, AcquireSteps(c, key, now, a)), c, sid, p, AcquireOn(p.info[sid], isNew, a))
  {
    hide P.Inv, P.Do, P.Next, P.Steps, Get, WellFormed, ConnectOn;
    P.PoolIsWellFormed(st);
    var (p, sid, isNew) := Get(st.pool, key, now, st.sessions);
    Starts(st, c, key, now);
    var s1 := P.Do(st, P.Start(c, key, now));
    var s2 := P.Do(s1, P.Authenticate(c, a.claims));
    var s3 := P.Do(s2, P.Locate(c, a.located, a.db));
    AcquireSplits(st, c, key, now, a);
    if !isNew {
      Skips(s1, P.Authenticate(c, a.claims));
      Skips(s1, P.Locate(c, a.located, a.db));
      ConnectIsARun(s1, c, a, sid);
    } else {
      Authenticates(s1, c, a.claims);
      if a.claims.None? {
        Skips(s2, P.Locate(c, a.located, a.db));
        FailedStays(s2, c, a);
        assert st.released + [] == st.released && p == Update(p, sid, p.info[sid]);
      } else {
        Locates(s2, c, a.located, a.db);
        if !a.located {
          FailedStays(s3, c, a);
          assert st.released + [] == st.released;
        } else {
          ConnectIsARun(s3, c, a, sid);
          var i := p.info[sid].(claims := a.claims, db := a.db);
          assert Update(s3.pool, sid, ConnectOn(i, a).info) == Update(p, sid, ConnectOn(i, a).info);
        }
      }
    }
  }

  lemma Starts(st: P.State, c: nat, key: string, now: int)
    requires P.Inv(st) && c !in st.clients && now >= st.clock && WellFormed(st.pool)
    ensures var (p, sid, isNew) := Get(st.pool, key, now, st.sessions); var s1 := P.Do(st, P.Start(c, key, now));
      && IsAt(s1, c, sid) && s1.pool == p && s1.released == st.released && s1.conns == st.conns
      && s1.clients[c] == if isNew then P.Authenticating(sid) else P.Checking(sid)
  {
    hide P.Inv, Get, WellFormed;
  }

  lemma Authenticates(st: P.State, c: nat, claims: Option<string>)
    requires P.Inv(st) && c in st.clients && st.clients[c].Authenticating?
    ensures var sid := st.clients[c].sid;
      && sid in st.pool.info
      && P.Do(st, P.Authenticate(c, claims))
           == if claims.None? then P.Move(st, c, P.Failed(sid)) else P.Write(st, c, st.pool.info[sid].(claims := claims), P.Locating(sid))
  {
    hide P.Inv;
    P.HoldsSession(st, c);
  }

  lemma Locates(st: P.State, c: nat, ok: bool, db: Option<string>)
    requires P.Inv(st) && c in st.clients && st.clients[c].Locating?
    ensures var sid := st.clients[c].sid;
      && sid in st.pool.info
      && P.Do(st, P.Locate(c, ok, db))
           == if !ok then P.Move(st, c, P.Failed(sid)) else P.Write(st, c, st.pool.info[sid].(db := db), P.Checking(sid))
  {
    hide P.Inv;
    P.HoldsSession(st, c);
  }

  lemma FailedStays(st: P.State, c: nat, a: Answers)
    requires P.Inv(st) && c in st.clients && st.clients[c].Failed?
    ensures P.Steps(st, ConnectSteps(c, a)) == st
  {
    hide P.Inv, P.Do, P.Next, P.Steps;
    Skips(st, P.Check(c, a.closed));
    Skips(st, P.ClearStale(c));
    Skips(st, P.Acquire(c, a.acquired.Some?));
    Skips(st, P.Attach(c));
    Skips(st, P.Prepare(c, a.prepared));
    FiveSteps(st, P.Check(c, a.closed), P.ClearStale(c), P.Acquire(c, a.acquired.Some?), P.Attach(c), P.Prepare(c, a.prepared));
  }

  lemma AcquireSplits(st: P.State, c: nat, key: string, now: int, a: Answers)
    requires P.Inv(st)
    ensures P.Steps(st, AcquireSteps(c, key, now, a))
         == P.Steps(P.Do(P.Do(P.Do(st, P.Start(c, key, now)), P.Authenticate(c, a.claims)), P.Locate(c, a.located, a.db)), ConnectSteps(c, a))
  {
    hide P.Inv, P.Do, P.Steps, ConnectSteps;
    ThreeSteps(st, P.Start(c, key, now), P.Authenticate(c, a.claims), P.Locate(c, a.located, a.db), ConnectSteps(c, a));
  }

  lemma ThreeSteps(st: P.State, a1: P.Action, a2: P.Action, a3: P.Action, rest: seq<P.Action>)
    requires P.Inv(st)
    ensures P.Steps(st, [a1, a2, a3] + rest) == P.Steps(P.Do(P.Do(P.Do(st, a1), a2), a3), rest)
  {
    hide P.Inv, P.Do, P.Steps;
    OneStep(st, a1, [a2, a3] + rest);
    OneStep(P.Do(st, a1), a2, [a3] + rest);
    OneStep(P.Do(P.Do(st, a1), a2), a3, rest);
    assert [a1] + ([a2, a3] + rest) == [a1, a2, a3] + rest;
    assert [a2] + ([a3] + rest) == [a2, a3] + rest;
  }

  lemma OneStep(st: P.State, a: P.Action, rest: seq<P.Action>)
    requires P.Inv(st)
    ensures P.Steps(st, [a] + rest) == P.Steps(P.Do(st, a), rest)
  {
    hide P.Inv, P.Do;
    assert ([a] + rest)[1..] == rest;
  }

  /** The steps of releaseSession. */
  function ReleaseSteps(c: nat, hasTX: bool, now: int): seq<P.Action> {
    [P.Serve(c), P.Release(c, hasTX), P.ClearClosed(c), P.Depart(c, now)]
  }

  /** What releaseSession does is a run of its steps; the request is over. */
  lemma ReleaseIsARun(st: P.State, c: nat, hasTX: bool, now: int)
    requires P.Inv(st) && c in st.clients && st.clients[c].Serving? && now >= st.clock
    ensures var sid := st.clients[c].sid;
      && sid in st.pool.info
      && (var r := ReleaseOn(st.pool.info[sid], hasTX); var p := Update(st.pool, sid, r.info); var st' := P.Steps(st, ReleaseSteps(c, hasTX, now));
          WellFormed(p) && c !in st'.clients && st'.pool == Leave(p, sid, now) && st'.released == st.released + r.released)
  {
    hide P.Inv, P.Do, P.Next, P.Steps, WellFormed;
    P.HoldsSession(st, c);
    var sid, none := st.clients[c].sid, [];
    ReleaseSplits(st, c, hasTX, now);
    Serves(st, c);
    var s1 := P.Do(st, P.Serve(c));
    Releases(s1, c, hasTX);
    var s2 := P.Do(s1, P.Release(c, hasTX));
    var i := st.pool.info[sid];
    if i.conn.Some? && hasTX {
      Unnames(s2, c);
    } else {
      Skips(s2, P.ClearClosed(c));
      assert st.pool == Update(st.pool, sid, i) && st.released + none == st.released;
    }
    Departs(P.Do(s2, P.ClearClosed(c)), c, now);
  }

  lemma ReleaseSplits(st: P.State, c: nat, hasTX: bool, now: int)
    requires P.Inv(st)
    ensures P.Steps(st, ReleaseSteps(c, hasTX, now))
         == P.Do(P.Do(P.Do(P.Do(st, P.Serve(c)), P.Release(c, hasTX)), P.ClearClosed(c)), P.Depart(c, now))
  {
    hide P.Inv, P.Do, P.Steps;
    var a1, a2, a3, a4 := P.Serve(c), P.Release(c, hasTX), P.ClearClosed(c), P.Depart(c, now);
    OneStep(st, a1, [a2, a3, a4]);
    OneStep(P.Do(st, a1), a2, [a3, a4]);
    OneStep(P.Do(P.Do(st, a1), a2), a3, [a4]);
    OneStep(P.Do(P.Do(P.Do(st, a1), a2), a3), a4, []);
    assert [a1, a2, a3, a4] == [a1] + [a2, a3, a4] && [a2, a3, a4] == [a2] + [a3, a4] && [a3, a4] == [a3] + [a4] && [a4] == [a4] + [];
    NoStep(P.Do(P.Do(P.Do(P.Do(st, a1), a2), a3), a4));
  }

  lemma NoStep(st: P.State)
    requires P.Inv(st)
    ensures P.Steps(st, []) == st
  {
    hide P.Inv;
  }

  lemma Serves(st: P.State, c: nat)
    requires P.Inv(st) && c in st.clients && st.clients[c].Serving?
    ensures P.Do(st, P.Serve(c)) == P.Move(st, c, P.Releasing(st.clients[c].sid))
  {
    hide P.Inv;
  }

  lemma Releases(st: P.State, c: nat, hasTX: bool)
    requires P.Inv(st) && c in st.clients && st.clients[c].Releasing?
    ensures var sid := st.clients[c].sid;
      && sid in st.pool.info
      && P.Do(st, P.Release(c, hasTX))
           == if st.pool.info[sid].conn.Some? && hasTX then P.GiveBack(st, c, st.pool.info[sid].conn.value, P.Closed(sid)) else P.Move(st, c, P.Leaving(sid))
  {
    hide P.Inv;
    P.HoldsSession(st, c);
  }

  lemma Unnames(st: P.State, c: nat)
    requires P.Inv(st) && c in st.clients && st.clients[c].Closed?
    ensures var sid := st.clients[c].sid;
      && sid in st.pool.info
      && P.Do(st, P.ClearClosed(c)) == P.Write(st, c, st.pool.info[sid].(conn := None), P.Leaving(sid))
  {
    hide P.Inv;
    P.HoldsSession(st, c);
  }

  lemma Departs(st: P.State, c: nat, now: int)
    requires P.Inv(st) && c in st.clients && st.clients[c].Leaving? && now >= st.clock
    ensures WellFormed(st.pool) && st.clients[c].sid in st.pool.info
    ensures P.Do(st, P.Depart(c, now)) == st.(pool := Leave(st.pool, st.clients[c].sid, now), clients := st.clients - {c}, clock := now)
  {
    hide P.Inv, WellFormed, Leave;
    P.PoolIsWellFormed(st);
    P.HoldsSession(st, c);
  }
}
