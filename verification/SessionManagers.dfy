/** The session manager as it runs: a map of linked lists, under one lock. The ghost `pool` is what
    the heap stands for; each method is proved to be the operation of SessionPool on it. The time
    is an input that never goes back. */
module SessionManagers {
  import opened Sql
  import opened SessionLists
  import opened SessionPool

  ghost function InfoOf(s: Session): Info
    reads s`inUse, s`lastUsedAt, s`dbConn, s`claims, s`db
  {
    Info(s.key, s.inUse, s.lastUsedAt, s.dbConn, s.claims, s.db)
  }

  ghost predicate Holds(list: SessionList, q: seq<Session>)
    reads list, q`next, q`prev
  {
    list.nodes == q && list.Valid()
  }

  method OpenSession(key: string, now: int) returns (session: Session)
    ensures fresh(session) && InfoOf(session) == Opened(key, now) && session.next == null
  {
    session := new Session(key);
    session.inUse := true;
    session.lastUsedAt := now;
  }

  lemma AddNewInto(p: Pool<Session>, key: string, now: int, session: Session, clock: int)
    requires SessionPool.Valid(p, clock) && clock <= now && session !in p.info && !HeadIsFree(p, key)
    ensures var q := SlotOf(p, key) + [session];
      && AddNew(p, key, now, session) == Pool(p.order[key := SlotOf(p, key)][key := q], p.info[session := Opened(key, now)])
      && SessionPool.Valid(AddNew(p, key, now, session), now)
  {
    AddNewKeeps(p, key, now, session, clock);
  }

  class SessionManager {
    var slots: map<string, SessionList>
    const enabled: bool
    var paused: bool
    var count: nat
    var inUse: nat
    ghost var clock: int
    ghost var pool: Pool<Session>

    /** The slots are those of the pool, each with a list of its own and sessions of its own key. */
    ghost predicate Known()
      reads `slots, `pool
    {
      && slots.Keys == pool.order.Keys
      && (forall k :: k in slots ==> forall s :: s in pool.order[k] ==> s in pool.info && s.key == k)
      && (forall k, k' :: k in slots && k' in slots && k != k' ==> slots[k] != slots[k'])
    }

    /** Every list links exactly the sequence of its slot. */
    ghost predicate Linked()
      requires Known()
      reads `slots, `pool, slots.Values, pool.info.Keys`next, pool.info.Keys`prev
    {
      forall k :: k in slots ==> Holds(slots[k], pool.order[k])
    }

    ghost predicate Described()
      reads `pool, pool.info.Keys`inUse, pool.info.Keys`lastUsedAt, pool.info.Keys`dbConn, pool.info.Keys`claims, pool.info.Keys`db
    {
      forall s :: s in pool.info ==> pool.info[s] == InfoOf(s)
    }

    ghost predicate Valid()
      reads this, slots.Values, pool.info.Keys
    {
      Known() && Linked() && Described() && SessionPool.Valid(pool, clock)
    }

    constructor (enabled: bool, now: int)
      ensures Valid() && pool == EmptyPool() && this.enabled == enabled && !paused && clock == now
    {
      this.enabled := enabled;
      slots, paused, count, inUse, clock := map[], false, 0, 0, now;
      pool := EmptyPool();
    }

    /** Relinking the sessions of one key leaves the lists of the others as they are. */
    twostate lemma OthersHold(key: string)
      requires old(Known()) && old(Linked())
      requires forall k :: k in old(slots) && k != key ==> k in slots && slots[k] == old(slots[k])
      requires forall k :: k in old(slots) && k != key ==> old(allocated(slots[k])) && unchanged(slots[k])
      requires forall s :: s in old(pool.info) && s.key != key ==> s.next == old(s.next) && s.prev == old(s.prev)
      ensures forall k :: k in old(slots) && k != key ==> Holds(slots[k], old(pool.order[k]))
    {
      hide SessionList.Valid, Holds;
      forall k | k in old(slots) && k != key ensures Holds(slots[k], old(pool.order[k])) {
        var q := old(pool.order[k]);
        assert old(Holds(slots[k], pool.order[k]));
        assert forall s :: s in q ==> s.key == k && s in old(pool.info);
        assert forall s :: s in q ==> s.next == old(s.next) && s.prev == old(s.prev);
      }
    }

    // ----- The list operations, seen from the manager -----

    method AppendIn(key: string, session: Session)
      requires Known() && Linked() && key in slots
      requires session !in pool.info && session.key == key && session.next == null
      modifies slots[key], session`prev, pool.info.Keys`next
      ensures Holds(slots[key], pool.order[key] + [session])
      ensures forall k :: k in slots && k != key ==> Holds(slots[k], pool.order[k])
    {
      assert Holds(slots[key], pool.order[key]);
      slots[key].Append(session);
      OthersHold(key);
    }

    method RotateIn(key: string)
      requires Known() && Linked() && key in slots && pool.order[key] != []
      modifies slots[key], pool.info.Keys`next, pool.info.Keys`prev
      ensures Holds(slots[key], pool.order[key][1..] + [pool.order[key][0]])
      ensures forall k :: k in slots && k != key ==> Holds(slots[k], pool.order[k])
    {
      assert Holds(slots[key], pool.order[key]);
      slots[key].FrontToBack();
      OthersHold(key);
    }

    method ToFrontIn(key: string, session: Session, ghost i: nat)
      requires Known() && Linked() && key in slots && i < |pool.order[key]| && pool.order[key][i] == session
      modifies slots[key], pool.info.Keys`next, pool.info.Keys`prev
      ensures Holds(slots[key], [session] + Drop(pool.order[key], i))
      ensures forall k :: k in slots && k != key ==> Holds(slots[k], pool.order[k])
    {
      assert Holds(slots[key], pool.order[key]);
      slots[key].ToFront(session, i);
      OthersHold(key);
    }

    // ----- The manager's operations -----

    /** The slot of the key, made when there is none. */
    method EnsureSlot(key: string)
      requires Known() && Linked() && Described()
      modifies this`slots, this`pool
      ensures Known() && Linked() && Described() && key in slots
      ensures pool == Pool(old(pool.order)[key := SlotOf(old(pool), key)], old(pool.info))
      ensures fresh(slots.Values - old(slots.Values))
    {
      hide SessionList.Valid;
      if key !in slots {
        var list := new SessionList();
        slots := slots[key := list];
        pool := Pool(pool.order[key := []], pool.info);
      }
    }

    /** Brings the ghost pool up to date after the list of one slot was relinked. */
    ghost method Relink(key: string, q: seq<Session>, info: map<Session, Info>)
      requires Known() && key in slots
      requires Holds(slots[key], q) && forall k :: k in slots && k != key ==> Holds(slots[k], pool.order[k])
      requires forall s :: s in q ==> s in info && s.key == key
      requires forall s :: s in pool.info && s.key != key ==> s in info
      requires forall s :: s in info ==> info[s] == InfoOf(s)
      modifies this`pool
      ensures Known() && Linked() && Described() && pool == Pool(old(pool).order[key := q], info)
    {
      hide SessionList.Valid, Holds;
      pool := Pool(pool.order[key := q], info);
    }

    ghost method SetSlot(key: string, q: seq<Session>, info: map<Session, Info>, now: int)
      requires Known() && key in slots
      requires Holds(slots[key], q) && forall k :: k in slots && k != key ==> Holds(slots[k], pool.order[k])
      requires forall s :: s in q ==> s in info && s.key == key
      requires pool.info.Keys <= info.Keys && forall s :: s in info ==> info[s] == InfoOf(s)
      requires SessionPool.Valid(Pool(pool.order[key := q], info), now)
      modifies this`pool, this`clock
      ensures Valid() && clock == now && pool == Pool(old(pool).order[key := q], info)
    {
      hide SessionList.Valid, SessionPool.Valid, Holds, Known, Linked, Described;
      clock := now;
      Relink(key, q, info);
    }

    lemma SlotFacts(key: string)
      requires Known() && Described() && key in slots
      ensures key in pool.order && forall s :: s in pool.order[key] ==> s in pool.info && s.key == key
      ensures forall s :: s in pool.info ==> pool.info[s] == InfoOf(s)
    {
    }

    method AddSession(key: string, session: Session, now: int)
      requires Known() && Linked() && Described() && key in slots
      requires session !in pool.info && session.key == key && session.next == null
      requires SessionPool.Valid(Pool(pool.order[key := pool.order[key] + [session]], pool.info[session := InfoOf(session)]), now)
      modifies this`pool, this`clock, slots[key], pool.info.Keys`next, session`prev
      ensures Valid() && clock == now
      ensures pool == Pool(old(pool).order[key := old(pool).order[key] + [session]], old(pool).info[session := InfoOf(session)])
    {
      hide SessionPool.Valid, SessionList.Valid, Known, Linked, Described, Holds;
      SlotFacts(key);
      ghost var q := pool.order[key] + [session];
      AppendIn(key, session);
      SetSlot(key, q, pool.info[session := InfoOf(session)], now);
    }

    method ReuseHead(key: string, session: Session, now: int)
      requires Known() && Linked() && Described() && key in slots && pool.order[key] != [] && session == pool.order[key][0]
      requires session in pool.info && SessionPool.Valid(Reuse(pool, key), now)
      modifies this`pool, this`clock, slots[key], pool.info.Keys`next, pool.info.Keys`prev, session`inUse
      ensures Valid() && clock == now && pool == Reuse(old(pool), key)
    {
      hide SessionPool.Valid, SessionList.Valid, Known, Linked, Described, Holds;
      SlotFacts(key);
      ghost var q := pool.order[key][1..] + [session];
      ghost var info := Reuse(pool, key).info;
      assert forall s :: s in q ==> s in pool.order[key];
      RotateIn(key);
      session.inUse := true;
      SetSlot(key, q, info, now);
    }

    /** The pool once the session at place i of its slot is left. */
    ghost function LeftAt(session: Session, i: nat, now: int): Pool<Session>
      requires session in pool.info && session.key in pool.order && i < |pool.order[session.key]|
      reads `pool
    {
      Pool(pool.order[session.key := [session] + Drop(pool.order[session.key], i)],
           pool.info[session := pool.info[session].(inUse := false, lastUsedAt := now)])
    }

    method FreeToFront(session: Session, ghost i: nat, now: int)
      requires Known() && Linked() && Described() && session.key in slots && session in pool.info
      requires i < |pool.order[session.key]| && pool.order[session.key][i] == session
      requires SessionPool.Valid(LeftAt(session, i, now), now)
      modifies this`pool, this`clock, slots[session.key], pool.info.Keys`next, pool.info.Keys`prev, session`inUse, session`lastUsedAt
      ensures Valid() && clock == now && pool == old(LeftAt(session, i, now))
    {
      hide SessionPool.Valid, SessionList.Valid, Known, Linked, Described, Holds, Drop;
      SlotFacts(session.key);
      ghost var q, info := [session] + Drop(pool.order[session.key], i), LeftAt(session, i, now).info;
      assert forall s :: s in q ==> s in pool.order[session.key];
      ToFrontIn(session.key, session, i);
      session.lastUsedAt := now;
      session.inUse := false;
      SetSlot(session.key, q, info, now);
    }

    method NewSession(key: string, now: int) returns (session: Session)
      requires Valid() && now >= clock && !HeadIsFree(pool, key)
      modifies this`slots, this`clock, this`pool, slots.Values, pool.info.Keys
      ensures Valid() && clock == now && fresh(session)
      ensures pool == AddNew(old(pool), key, now, session)
    {
      hide SessionPool.Valid, WellFormed, HeadIsFree, SessionList.Valid, Known, Linked, Described, Holds, AddNew;
      session := OpenSession(key, now);
      AddNewInto(pool, key, now, session, clock);
      EnsureSlot(key);
      AddSession(key, session, now);
    }

    /** The head of the list is the head of the slot. */
    lemma HeadFacts(key: string)
      requires Valid()
      ensures WellFormed(pool) && (HeadIsFree(pool, key) <==> key in slots && slots[key].head != null && !slots[key].head.inUse)
      ensures key in slots ==> slots[key].Valid() && key in pool.order && pool.order[key] != []
      ensures key in slots ==> pool.order[key][0] in pool.info && slots[key].head == pool.order[key][0] && slots[key].nodes != []
    {
      if key in slots {
        assert Holds(slots[key], pool.order[key]) && pool.order[key][0] in pool.order[key];
      }
    }

    lemma ReuseFacts(key: string, now: int)
      requires Valid() && now >= clock
      ensures WellFormed(pool)
      ensures HeadIsFree(pool, key) ==> key in pool.order && pool.order[key] != [] && pool.order[key][0] in pool.info
      ensures HeadIsFree(pool, key) ==> SessionPool.Valid(Reuse(pool, key), now)
    {
      if HeadIsFree(pool, key) {
        ReuseKeeps(pool, key, now, clock);
      }
    }

    method GetSession(key: string, now: int) returns (session: Session, isNew: bool)
      requires Valid() && now >= clock
      modifies this`slots, this`clock, this`pool, slots.Values, pool.info.Keys
      ensures Valid() && (isNew ==> fresh(session))
      ensures !enabled ==> isNew && session.key == key && pool == old(pool)
      ensures enabled ==> clock == now && (pool, session, isNew) == Get(old(pool), key, now, session)
    {
      hide SessionPool.Valid, SessionList.Valid, Known, Linked, Described, Holds, HeadIsFree, Reuse, AddNew, WellFormed;
      if !enabled {
        session := new Session(key);
        return session, true;
      }
      HeadFacts(key);
      ReuseFacts(key, now);
      var empty := true;
      if key in slots {
        empty := slots[key].IsEmpty();
      }
      if empty {
        session := NewSession(key, now);
        return session, true;
      }
      session := slots[key].head;
      if session.inUse {
        session := NewSession(key, now);
        return session, true;
      }
      isNew := false;
      ReuseHead(key, session, now);
    }

    lemma LeaveIsToFront(session: Session, now: int) returns (i: nat)
      requires Valid() && session in pool.info
      ensures session.key in slots && i < |pool.order[session.key]| && pool.order[session.key][i] == session
      ensures Leave(pool, session, now) == LeftAt(session, i, now)
    {
      var q := pool.order[session.key];
      i :| 0 <= i < |q| && q[i] == session;
      DropIsSelect(q, i, pool.info.Keys);
    }

    /** leaveSession: the session must be one of the manager's. */
    method LeaveSession(session: Session, now: int) returns (swapped: bool)
      requires Valid() && now >= clock && (enabled ==> session in pool.info)
      modifies this`clock, this`pool, slots.Values, pool.info.Keys
      ensures Valid()
      ensures !enabled ==> swapped && pool == old(pool)
      ensures enabled ==> clock == now && pool == Leave(old(pool), session, now) && swapped == old(session.inUse)
    {
      if !enabled {
        return true;
      }
      LeaveKeeps(pool, session, now, clock);
      ghost var i := LeaveIsToFront(session, now);
      assert Known() && Linked() && Described();
      hide *;
      swapped := session.inUse;
      FreeToFront(session, i, now);
    }

    // ----- The watcher -----

    /** What the watcher does to one session not in use: delete it, or take its connection. */
    method SweepOne(list: SessionList, session: Session, ghost i: nat, now: int, sessionTimeout: int, connTimeout: int)
      returns (gone: bool, conn: Option<nat>)
      requires list.Valid() && i < |list.nodes| && list.nodes[i] == session && !session.inUse
      modifies list, list.nodes`next, list.nodes`prev, session`dbConn
      ensures list.Valid() && session.next == old(session.next)
      ensures list.nodes == if gone then Drop(old(list.nodes), i) else old(list.nodes)
      ensures var before := old(InfoOf(session));
        && gone == IsGone(before, now, sessionTimeout)
        && conn == (if Detaches(before, now, connTimeout) then before.conn else None)
        && InfoOf(session) == Swept(before, now, connTimeout)
    {
      gone, conn := false, None;
      var spent := now - session.lastUsedAt;
      if spent > sessionTimeout && session.dbConn == None {
        list.Remove(session, i);
        gone := true;
      } else if spent > connTimeout && session.dbConn != None {
        conn := session.dbConn;
        session.dbConn := None;
      }
    }

    /** The sweep over q has reached place i: what the list, the sessions and the results are. */
    ghost predicate Reached(list: SessionList, q: seq<Session>, i: nat, now: int, sessionTimeout: int, connTimeout: int)
      requires i <= |q|
      reads `pool, list, list.nodes`next, list.nodes`prev, pool.info.Keys
    {
      && list.Valid() && list.nodes == Select(q[..i], Survivors(pool, now, sessionTimeout)) + q[i..]
      && forall s :: s in pool.info ==> InfoOf(s) == if s in q[..i] then Swept(pool.info[s], now, connTimeout) else pool.info[s]
    }

    /** One turn of the loop over a list. */
    method StepIn(list: SessionList, session: Session, ghost q: seq<Session>, ghost i: nat, now: int, sessionTimeout: int, connTimeout: int)
      returns (next: Session?, busy: bool, gone: bool, conn: Option<nat>)
      requires i < |q| && q[i] == session && Distinct(q) && forall s :: s in q ==> s in pool.info
      requires Reached(list, q, i, now, sessionTimeout, connTimeout)
      modifies list, pool.info.Keys`next, pool.info.Keys`prev, pool.info.Keys`dbConn
      ensures forall s :: s in pool.info && s !in q ==> s.next == old(s.next) && s.prev == old(s.prev)
      ensures next == (if i + 1 < |q| then q[i + 1] else null)
      ensures Reached(list, q, i + 1, now, sessionTimeout, connTimeout)
      ensures busy == pool.info[session].inUse && gone == (session !in Survivors(pool, now, sessionTimeout))
      ensures conn == if Detaches(pool.info[session], now, connTimeout) then pool.info[session].conn else None
    {
      hide Select, SessionList.Valid, Distinct, Reached, Drop, Survivors;
      ghost var kept := Select(q[..i], Survivors(pool, now, sessionTimeout));
      KeptNext(q, i, Survivors(pool, now, sessionTimeout));
      InSurvivors(pool, session, now, sessionTimeout);
      AtPlace(list, q, i, now, sessionTimeout, connTimeout);
      list.Neighbours(|kept|);
      busy, gone, conn := session.inUse, false, None;
      if !busy {
        gone, conn := SweepOne(list, session, |kept|, now, sessionTimeout, connTimeout);
      }
      next := session.next;
      NextPlace(list, q, i, now, sessionTimeout, connTimeout);
    }

    lemma AtPlace(list: SessionList, q: seq<Session>, i: nat, now: int, sessionTimeout: int, connTimeout: int)
      requires i < |q| && Distinct(q) && forall s :: s in q ==> s in pool.info
      requires Reached(list, q, i, now, sessionTimeout, connTimeout)
      ensures list.Valid() && list.nodes == Select(q[..i], Survivors(pool, now, sessionTimeout)) + q[i..]
      ensures forall s :: s in list.nodes ==> s in q && s in pool.info
      ensures InfoOf(q[i]) == pool.info[q[i]]
      ensures forall s :: s in pool.info ==> InfoOf(s) == if s in q[..i] then Swept(pool.info[s], now, connTimeout) else pool.info[s]
    {
      NotBefore(q, i);
    }

    lemma NextPlace(list: SessionList, q: seq<Session>, i: nat, now: int, sessionTimeout: int, connTimeout: int)
      requires i < |q| && list.Valid() && list.nodes == Select(q[..i + 1], Survivors(pool, now, sessionTimeout)) + q[i + 1..]
      requires q[i] in pool.info && InfoOf(q[i]) == Swept(pool.info[q[i]], now, connTimeout)
      requires forall s :: s in pool.info && s != q[i] ==>
        InfoOf(s) == if s in q[..i] then Swept(pool.info[s], now, connTimeout) else pool.info[s]
      ensures Reached(list, q, i + 1, now, sessionTimeout, connTimeout)
    {
      assert q[..i + 1] == q[..i] + [q[i]];
    }

    lemma NothingSwept(list: SessionList, q: seq<Session>, now: int, sessionTimeout: int, connTimeout: int)
      requires Holds(list, q) && Described() && forall s :: s in q ==> s in pool.info
      ensures Reached(list, q, 0, now, sessionTimeout, connTimeout)
      ensures list.head == if q == [] then null else q[0]
    {
      hide SessionList.Valid;
      assert q[..0] == [] && q[0..] == q && Select(q[..0], Survivors(pool, now, sessionTimeout)) == [];
      assert [] + q == q;
      HeadOf(list);
    }

    lemma HeadOf(list: SessionList)
      requires list.Valid()
      ensures list.head == if list.nodes == [] then null else list.nodes[0]
    {
    }

    lemma NotBefore(q: seq<Session>, i: nat)
      requires Distinct(q) && i < |q|
      ensures q[i] !in q[..i]
    {
    }

    /** The loop over one list: how many sessions stay, how many of them are in use, and the
        connections taken. */
    method SweepList(list: SessionList, ghost q: seq<Session>, now: int, sessionTimeout: int, connTimeout: int)
      returns (n: nat, used: nat, ghost detached: seq<Session>, released: seq<nat>)
      requires Holds(list, q) && Described() && Distinct(q) && forall s :: s in q ==> s in pool.info
      modifies list, pool.info.Keys`next, pool.info.Keys`prev, pool.info.Keys`dbConn
      ensures forall s :: s in pool.info && s !in q ==> s.next == old(s.next) && s.prev == old(s.prev)
      ensures Reached(list, q, |q|, now, sessionTimeout, connTimeout)
      ensures Tallied(pool.info, Survivors(pool, now, sessionTimeout), q, |q|, n, used, detached, released, now, connTimeout)
    {
      hide Tallied, SessionList.Valid, Distinct, Elems, Taken, Reached, Survivors, Holds, Described;
      ghost var alive := Survivors(pool, now, sessionTimeout);
      n, used, detached, released := 0, 0, [], [];
      var session := list.head;
      ghost var i := 0;
      NothingSwept(list, q, now, sessionTimeout, connTimeout);
      TalliedNone(pool.info, alive, q, now, connTimeout);
      while session != null
        invariant i <= |q| && session == (if i < |q| then q[i] else null)
        invariant forall s :: s in pool.info && s !in q ==> s.next == old(s.next) && s.prev == old(s.prev)
        invariant Reached(list, q, i, now, sessionTimeout, connTimeout)
        invariant Tallied(pool.info, alive, q, i, n, used, detached, released, now, connTimeout)
        decreases |q| - i
      {
        TalliedNext(pool.info, alive, q, i, n, used, detached, released, now, connTimeout);
        ghost var s := session;
        var busy, gone, conn;
        session, busy, gone, conn := StepIn(list, session, q, i, now, sessionTimeout, connTimeout);
        if busy {
          used := used + 1;
        }
        if !gone {
          n := n + 1;
        }
        if conn.Some? {
          released, detached := released + [conn.value], detached + [s];
        }
        i := i + 1;
      }
    }

    method DropSlot(key: string)
      requires Known() && Linked() && Described() && key in slots && pool.order[key] == []
      modifies this`slots, this`pool
      ensures Known() && Linked() && Described()
      ensures pool == Pool(old(pool).order - {key}, old(pool).info) && slots == old(slots) - {key}
    {
      hide Holds;
      slots := slots - {key};
      pool := Pool(pool.order - {key}, pool.info);
    }

    method DropIfEmpty(key: string)
      requires Known() && Linked() && Described() && key in slots && key in pool.order
      modifies this`slots, this`pool
      ensures Known() && Linked() && Described() && slots.Values <= old(slots.Values)
      ensures pool == if old(pool.order)[key] == [] then Pool(old(pool).order - {key}, old(pool).info) else old(pool)
    {
      hide Described, SessionList.Valid;
      assert Holds(slots[key], pool.order[key]);
      var empty := slots[key].IsEmpty();
      if empty {
        DropSlot(key);
      }
    }

    /** One turn of the watcher's outer loop. */
    method VisitSlot(key: string, now: int, sessionTimeout: int, connTimeout: int)
      returns (n: nat, used: nat, ghost detached: seq<Session>, released: seq<nat>)
      requires Known() && Linked() && Described() && WellFormed(pool) && key in slots
      modifies this`slots, this`pool, slots[key], pool.info.Keys`next, pool.info.Keys`prev, pool.info.Keys`dbConn
      ensures Known() && Linked() && Described() && slots.Values <= old(slots.Values)
      ensures pool == Visit(old(pool), {key}, now, sessionTimeout, connTimeout)
      ensures key in old(pool.order) && forall s :: s in old(pool.order)[key] ==> s in old(pool.info)
      ensures Tallied(old(pool.info), Survivors(old(pool), now, sessionTimeout), old(pool.order)[key], |old(pool.order)[key]|,
                      n, used, detached, released, now, connTimeout)
    {
      hide SessionPool.Valid, WellFormed, SessionList.Valid, Known, Linked, Described, Tallied, Visit, Holds, Distinct, Reached, Survivors, Select;
      SlotFacts(key);
      ghost var p, q, alive := pool, pool.order[key], Survivors(pool, now, sessionTimeout);
      ghost var info' := Visit(p, {key}, now, sessionTimeout, connTimeout).info;
      VisitOne(p, key, now, sessionTimeout, connTimeout);
      SlotHolds(key);
      var list := slots[key];
      n, used, detached, released := SweepList(list, q, now, sessionTimeout, connTimeout);
      OthersHold(key);
      SweptList(list, q, now, sessionTimeout, connTimeout);
      Relink(key, Select(q, alive), info');
      DropIfEmpty(key);
    }

    lemma SlotHolds(key: string)
      requires Known() && Linked() && WellFormed(pool) && key in slots
      ensures Holds(slots[key], pool.order[key]) && Distinct(pool.order[key])
      ensures forall k :: k in slots && k != key ==> slots[k] != slots[key]
      ensures forall s :: s in pool.info && s.key != key ==> s !in pool.order[key]
    {
    }

    lemma SweptList(list: SessionList, q: seq<Session>, now: int, sessionTimeout: int, connTimeout: int)
      requires Reached(list, q, |q|, now, sessionTimeout, connTimeout)
      ensures Holds(list, Select(q, Survivors(pool, now, sessionTimeout)))
      ensures forall s :: s in pool.info ==> InfoOf(s) == if s in q then Swept(pool.info[s], now, connTimeout) else pool.info[s]
    {
      assert q[..|q|] == q && q[|q|..] == [];
      assert Select(q, Survivors(pool, now, sessionTimeout)) + [] == Select(q, Survivors(pool, now, sessionTimeout));
    }

    /** One turn of the outer loop, with what it counts and collects. */
    method TakeTurn(k: string, ghost p: Pool<Session>, ghost pending: set<string>, ghost detached: seq<Session>, released: seq<nat>,
                    now: int, sessionTimeout: int, connTimeout: int)
      returns (ghost detached': seq<Session>, released': seq<nat>)
      requires Known() && Linked() && Described() && k in pending
      requires Visiting(p, pool, pending, count, inUse, detached, released, now, sessionTimeout, connTimeout, clock)
      modifies this`slots, this`pool, this`count, this`inUse, slots.Values, pool.info.Keys
      ensures Known() && Linked() && Described() && slots.Values <= old(slots.Values) && pool.info.Keys <= old(pool.info.Keys)
      ensures Visiting(p, pool, pending - {k}, count, inUse, detached', released', now, sessionTimeout, connTimeout, clock)
    {
      hide SessionPool.Valid, SessionList.Valid, Known, Linked, Described, Tallied, Visit, Visiting, Taken, UsedOf, Tally, WellFormed, Survivors;
      ghost var p1 := pool;
      VisitingSlot(p, p1, pending, count, inUse, detached, released, now, sessionTimeout, connTimeout, clock, k);
      SameKeys();
      VisitShrinks(p1, {k}, now, sessionTimeout, connTimeout);
      var n, used, more;
      ghost var from;
      n, used, from, more := VisitSlot(k, now, sessionTimeout, connTimeout);
      VisitingStep(p, p1, pending, count, inUse, detached, released, now, sessionTimeout, connTimeout, clock, k, n, used, from, more);
      count, inUse := count + n, inUse + used;
      detached', released' := detached + from, released + more;
    }

    /** watch: a round over all slots, in whatever order. `released` lists the connections handed
        back, `detached` the sessions they were taken from. */
    method Watch(now: int, sessionTimeout: int, connTimeout: int) returns (ghost detached: seq<Session>, released: seq<nat>)
      requires Valid() && now >= clock
      modifies this, slots.Values, pool.info.Keys
      ensures Valid() && paused == old(paused)
      ensures paused ==> pool == old(pool) && released == [] && count == old(count) && inUse == old(inUse)
      ensures !paused ==>
        && pool == SessionPool.Watch(old(pool), now, sessionTimeout, connTimeout)
        && count == |pool.info| && inUse == |UsedOf(pool.info.Keys, pool.info)|
        && Taken(detached, released, old(pool).info.Keys, old(pool).info, now, connTimeout)
    {
      hide SessionPool.Valid, SessionList.Valid, Known, Linked, Described, Tallied, Visit, Visiting, Taken, UsedOf, Tally, WellFormed, Survivors, SessionPool.Watch;
      detached, released := [], [];
      if paused {
        return;
      }
      ghost var p := pool;
      count, inUse := 0, 0;
      var pending := slots.Keys;
      SameKeys();
      VisitingStarts(p, now, sessionTimeout, connTimeout, clock);
      while pending != {}
        invariant Known() && Linked() && Described()
        invariant Visiting(p, pool, pending, count, inUse, detached, released, now, sessionTimeout, connTimeout, clock)
        invariant slots.Values <= old(slots.Values) && pool.info.Keys <= p.info.Keys && !paused
        decreases pending
      {
        var k :| k in pending;
        detached, released := TakeTurn(k, p, pending, detached, released, now, sessionTimeout, connTimeout);
        pending := pending - {k};
      }
      VisitingEnds(p, pool, count, inUse, detached, released, now, sessionTimeout, connTimeout, clock);
    }

    lemma SameKeys()
      requires Known()
      ensures slots.Keys == pool.order.Keys
    {
    }

    /** The holder of a session has written to it; the pool follows. */
    ghost method Note(session: Session)
      requires Known() && Linked() && SessionPool.Valid(pool, clock) && session in pool.info
      requires forall s :: s in pool.info && s != session ==> pool.info[s] == InfoOf(s)
      requires Before2(pool.info[session], InfoOf(session)) && session.key == pool.info[session].key
      modifies this`pool
      ensures Valid() && pool == Update(old(pool), session, InfoOf(session))
    {
      hide SessionPool.Valid, Holds;
      UpdateKeeps(pool, session, InfoOf(session), clock);
      pool := Update(pool, session, InfoOf(session));
    }

    method PauseWatcher(pause: bool)
      requires Valid()
      modifies this`paused
      ensures Valid() && paused == pause
    {
      paused := pause;
    }

    method Statistics() returns (count: nat, inUse: nat, users: nat)
      requires Valid()
      ensures count == this.count && inUse == this.inUse && users == |pool.order|
    {
      count, inUse, users := this.count, this.inUse, |slots|;
    }
  }
}
