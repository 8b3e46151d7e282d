/** What the session manager (authn/sessions.go) does, on values: for every slot a sequence of
    session names, and for every session what it holds. S is the type of the names. */
module SessionPool {
  import opened Sql

  datatype Info = Info(key: string, inUse: bool, lastUsedAt: int, conn: Option<nat>, claims: Option<string>, db: Option<string>)

  datatype Pool<S(==)> = Pool(order: map<string, seq<S>>, info: map<S, Info>)

  function EmptyPool<S>(): Pool<S> { Pool(map[], map[]) }

  // ----- Invariants -----

  /** Every slot lists its own sessions, each once; no slot is empty; no session is in no slot. */
  ghost predicate WellFormed<S>(p: Pool<S>) {
    && (forall k :: k in p.order ==> p.order[k] != [] && Distinct(p.order[k]))
    && (forall k, s :: k in p.order && s in p.order[k] ==> s in p.info && p.info[s].key == k)
    && (forall s :: s in p.info ==> p.info[s].key in p.order && s in p.order[p.info[s].key])
  }

  ghost predicate Distinct<T>(q: seq<T>) { forall i, j :: 0 <= i < j < |q| ==> q[i] != q[j] }

  /** a may stand before b: nothing free comes after something in use, and among the free ones the
      one left later comes first. */
  predicate Before(a: Info, b: Info) {
    (a.inUse ==> b.inUse) && (!a.inUse && !b.inUse ==> a.lastUsedAt >= b.lastUsedAt)
  }

  ghost predicate Ordered<S>(q: seq<S>, info: map<S, Info>)
    requires forall s :: s in q ==> s in info
  {
    forall i, j :: 0 <= i < j < |q| ==> Before(info[q[i]], info[q[j]])
  }

  ghost predicate Valid<S>(p: Pool<S>, clock: int) {
    && WellFormed(p)
    && (forall k :: k in p.order ==> Ordered(p.order[k], p.info))
    && (forall s :: s in p.info ==> p.info[s].lastUsedAt <= clock)
  }

  // ----- Operations -----

  /** The elements of q that are in ss, in their order. */
  function Select<S>(q: seq<S>, ss: set<S>): (r: seq<S>)
    ensures forall x :: x in r ==> x in q && x in ss
    ensures forall x :: x in q && x in ss ==> x in r
  {
    if q == [] then [] else (if q[0] in ss then [q[0]] else []) + Select(q[1..], ss)
  }

  /** q without its i-th element. */
  function Drop<T>(q: seq<T>, i: nat): (r: seq<T>)
    requires i < |q|
    ensures forall x :: x in r ==> x in q
  {
    q[..i] + q[i + 1..]
  }

  function SlotOf<S>(p: Pool<S>, key: string): seq<S> { if key in p.order then p.order[key] else [] }

  /** getSession looks at the head of the slot only. */
  predicate HeadIsFree<S>(p: Pool<S>, key: string)
    requires WellFormed(p)
  {
    key in p.order && !p.info[p.order[key][0]].inUse
  }

  function Opened(key: string, now: int): Info { Info(key, true, now, None, None, None) }

  function AddNew<S>(p: Pool<S>, key: string, now: int, s: S): Pool<S> {
    Pool(p.order[key := SlotOf(p, key) + [s]], p.info[s := Opened(key, now)])
  }

  function Reuse<S>(p: Pool<S>, key: string): Pool<S>
    requires key in p.order && p.order[key] != [] && p.order[key][0] in p.info
  {
    var s := p.order[key][0];
    Pool(p.order[key := p.order[key][1..] + [s]], p.info[s := p.info[s].(inUse := true)])
  }

  /** getSession: the pool afterwards, the session, and whether it is the new one, `s`. */
  function Get<S>(p: Pool<S>, key: string, now: int, s: S): (r: (Pool<S>, S, bool))
    requires WellFormed(p)
    ensures r.1 in r.0.info && (r.2 ==> r.1 == s) && (!r.2 ==> r.1 in p.info)
  {
    if HeadIsFree(p, key) then (Reuse(p, key), p.order[key][0], false) else (AddNew(p, key, now, s), s, true)
  }

  /** leaveSession: to the front of its slot, free from now on. */
  function Leave<S>(p: Pool<S>, s: S, now: int): Pool<S>
    requires WellFormed(p) && s in p.info
  {
    var k := p.info[s].key;
    Pool(p.order[k := [s] + Select(p.order[k], p.info.Keys - {s})], p.info[s := p.info[s].(inUse := false, lastUsedAt := now)])
  }

  /** What the holder of a session does to it between those two. */
  function Update<S>(p: Pool<S>, s: S, i: Info): Pool<S> { Pool(p.order, p.info[s := i]) }

  predicate IsGone(i: Info, now: int, sessionTimeout: int) {
    !i.inUse && now - i.lastUsedAt > sessionTimeout && i.conn.None?
  }

  predicate Detaches(i: Info, now: int, connTimeout: int) {
    !i.inUse && now - i.lastUsedAt > connTimeout && i.conn.Some?
  }

  function Swept(i: Info, now: int, connTimeout: int): Info {
    if Detaches(i, now, connTimeout) then i.(conn := None) else i
  }

  function Survivors<S>(p: Pool<S>, now: int, sessionTimeout: int): set<S> {
    set s | s in p.info && !IsGone(p.info[s], now, sessionTimeout)
  }

  /** What the watcher does to the slots in ks: expired sessions go, expired connections are
      detached, empty slots are dropped. */
  function Visit<S>(p: Pool<S>, ks: set<string>, now: int, sessionTimeout: int, connTimeout: int): Pool<S> {
    var alive := Survivors(p, now, sessionTimeout);
    Pool(map k | k in p.order && (k in ks ==> Select(p.order[k], alive) != []) :: if k in ks then Select(p.order[k], alive) else p.order[k],
         map s | s in p.info && (p.info[s].key in ks ==> s in alive) ::
           if p.info[s].key in ks then Swept(p.info[s], now, connTimeout) else p.info[s])
  }

  /** watch: one round over all slots. */
  function Watch<S>(p: Pool<S>, now: int, sessionTimeout: int, connTimeout: int): Pool<S> {
    Visit(p, p.order.Keys, now, sessionTimeout, connTimeout)
  }

  // ----- Selections -----

  lemma {:induction false} SelectConcat<S>(a: seq<S>, b: seq<S>, ss: set<S>)
    ensures Select(a + b, ss) == Select(a, ss) + Select(b, ss)
  {
    if a == [] {
      assert a + b == b;
    } else {
      assert (a + b)[1..] == a[1..] + b;
      SelectConcat(a[1..], b, ss);
    }
  }

  lemma {:induction false} SelectAll<S>(q: seq<S>, ss: set<S>)
    requires forall x :: x in q ==> x in ss
    ensures Select(q, ss) == q
  {
    if q != [] {
      SelectAll(q[1..], ss);
    }
  }

  lemma SelectNext<S>(q: seq<S>, i: nat, ss: set<S>)
    requires i < |q|
    ensures Select(q[..i + 1], ss) == Select(q[..i], ss) + (if q[i] in ss then [q[i]] else [])
  {
    assert q[..i + 1] == q[..i] + [q[i]];
    SelectConcat(q[..i], [q[i]], ss);
  }

  lemma KeptNext<S>(q: seq<S>, i: nat, ss: set<S>)
    requires i < |q|
    ensures var kept := Select(q[..i], ss) + q[i..]; var at := |Select(q[..i], ss)|;
      && at < |kept| && kept[at] == q[i]
      && (at + 1 < |kept| <==> i + 1 < |q|) && (i + 1 < |q| ==> kept[at + 1] == q[i + 1])
      && Select(q[..i + 1], ss) + q[i + 1..] == if q[i] in ss then kept else Drop(kept, at)
  {
    hide Select;
    SelectNext(q, i, ss);
    assert q[i..] == [q[i]] + q[i + 1..];
  }

  lemma InSurvivors<S>(p: Pool<S>, s: S, now: int, sessionTimeout: int)
    requires s in p.info
    ensures s in Survivors(p, now, sessionTimeout) <==> !IsGone(p.info[s], now, sessionTimeout)
  {
  }

  lemma DropIsSelect<S>(q: seq<S>, i: nat, ss: set<S>)
    requires i < |q| && Distinct(q) && forall s :: s in q ==> s in ss
    ensures Drop(q, i) == Select(q, ss - {q[i]})
  {
    hide Select;
    var rest := ss - {q[i]};
    assert q == q[..i] + q[i..];
    SelectConcat(q[..i], q[i..], rest);
    SelectTail(q[i..], rest);
    assert q[i..][1..] == q[i + 1..];
    SelectAll(q[..i], rest);
    SelectAll(q[i + 1..], rest);
  }

  lemma SelectTail<S>(q: seq<S>, ss: set<S>)
    requires q != [] && q[0] !in ss
    ensures Select(q, ss) == Select(q[1..], ss)
  {
  }

  /** A selection keeps the order: what holds of any two in order still does. */
  lemma {:induction false} SelectInOrder<S>(q: seq<S>, ss: set<S>, i: nat, j: nat) returns (k: nat, l: nat)
    requires i < j < |Select(q, ss)|
    ensures k < l < |q| && q[k] == Select(q, ss)[i] && q[l] == Select(q, ss)[j]
  {
    var rest := Select(q[1..], ss);
    if q[0] !in ss {
      k, l := SelectInOrder(q[1..], ss, i, j);
      k, l := k + 1, l + 1;
    } else if i > 0 {
      k, l := SelectInOrder(q[1..], ss, i - 1, j - 1);
      k, l := k + 1, l + 1;
    } else {
      assert Select(q, ss)[j] == rest[j - 1] && rest[j - 1] in rest;
      var m :| 0 <= m < |q[1..]| && q[1..][m] == rest[j - 1];
      k, l := 0, m + 1;
    }
  }

  lemma SelectDistinct<S>(q: seq<S>, ss: set<S>)
    requires Distinct(q)
    ensures Distinct(Select(q, ss))
  {
    forall i, j | 0 <= i < j < |Select(q, ss)| ensures Select(q, ss)[i] != Select(q, ss)[j] {
      var k, l := SelectInOrder(q, ss, i, j);
    }
  }

  lemma SelectOrdered<S>(q: seq<S>, ss: set<S>, info: map<S, Info>, info': map<S, Info>)
    requires (forall s :: s in q ==> s in info) && Ordered(q, info)
    requires forall s :: s in ss && s in q ==> s in info' && Before2(info[s], info'[s])
    ensures Ordered(Select(q, ss), info')
  {
    forall i, j | 0 <= i < j < |Select(q, ss)|
      ensures Before(info'[Select(q, ss)[i]], info'[Select(q, ss)[j]])
    {
      var k, l := SelectInOrder(q, ss, i, j);
      assert q[k] in q && q[l] in q;
    }
  }

  /** Same use and same time: what the order looks at. */
  predicate Before2(a: Info, b: Info) { a.inUse == b.inUse && a.lastUsedAt == b.lastUsedAt }

  // ----- What every operation keeps -----

  /** An operation that rewrites one slot has only that slot to answer for. */
  lemma OneSlotKeeps<S>(p: Pool<S>, key: string, q: seq<S>, info: map<S, Info>, clock: int, now: int)
    requires Valid(p, clock) && clock <= now
    requires q != [] && Distinct(q) && forall s :: s in q ==> s in info && info[s].key == key && info[s].lastUsedAt <= now
    requires Ordered(q, info)
    requires forall s :: s in p.info && p.info[s].key != key ==> s in info && info[s] == p.info[s]
    requires forall s :: s in info && s !in q ==> s in p.info && p.info[s].key != key
    ensures Valid(Pool(p.order[key := q], info), now)
  {
    hide Distinct, Ordered, Before2, WellFormed;
    OneSlotIsWellFormed(p, key, q, info);
    forall k | k in p.order && k != key
      ensures (forall s :: s in p.order[k] ==> s in info) && Ordered(p.order[k], info)
    {
      OtherSlot(p, k);
      SameIsOrdered(p.order[k], p.info, info);
    }
  }

  lemma OtherSlot<S>(p: Pool<S>, k: string)
    requires WellFormed(p) && k in p.order
    ensures forall s :: s in p.order[k] ==> s in p.info && p.info[s].key == k
  {
  }

  lemma OneSlotIsWellFormed<S>(p: Pool<S>, key: string, q: seq<S>, info: map<S, Info>)
    requires WellFormed(p) && q != [] && Distinct(q) && forall s :: s in q ==> s in info && info[s].key == key
    requires forall s :: s in p.info && p.info[s].key != key ==> s in info && info[s] == p.info[s]
    requires forall s :: s in info && s !in q ==> s in p.info && p.info[s].key != key
    ensures WellFormed(Pool(p.order[key := q], info))
  {
    hide Distinct;
  }

  lemma SameIsOrdered<S>(q: seq<S>, info: map<S, Info>, info': map<S, Info>)
    requires (forall s :: s in q ==> s in info && s in info' && info'[s] == info[s]) && Ordered(q, info)
    ensures Ordered(q, info')
  {
    OrderedElsewhere(q, info, info');
  }

  lemma OrderedElsewhere<S>(q: seq<S>, info: map<S, Info>, info': map<S, Info>)
    requires (forall s :: s in q ==> s in info) && Ordered(q, info)
    requires forall s :: s in q ==> s in info' && Before2(info[s], info'[s])
    ensures Ordered(q, info')
  {
  }

  lemma AddNewKeeps<S>(p: Pool<S>, key: string, now: int, s: S, clock: int)
    requires Valid(p, clock) && clock <= now && s !in p.info && !HeadIsFree(p, key)
    ensures Valid(AddNew(p, key, now, s), now)
  {
    var q, info' := SlotOf(p, key), AddNew(p, key, now, s).info;
    AllInUse(p, key, clock);
    forall i, j | 0 <= i < j < |q + [s]| ensures Before(info'[(q + [s])[i]], info'[(q + [s])[j]]) {
      assert (q + [s])[i] == q[i] && q[i] in q;
      assert j < |q| ==> Before(p.info[q[i]], p.info[q[j]]) && q[j] in q;
    }
    OneSlotKeeps(p, key, q + [s], info', clock, now);
  }

  /** The head stands for the whole slot. */
  lemma AllInUse<S>(p: Pool<S>, key: string, clock: int)
    requires Valid(p, clock) && !HeadIsFree(p, key)
    ensures forall s :: s in p.info && p.info[s].key == key ==> p.info[s].inUse
  {
    forall s | s in p.info && p.info[s].key == key ensures p.info[s].inUse {
      var q := p.order[key];
      var j :| 0 <= j < |q| && q[j] == s;
      assert j > 0 ==> Before(p.info[q[0]], p.info[q[j]]);
    }
  }

  lemma ReuseKeeps<S>(p: Pool<S>, key: string, now: int, clock: int)
    requires Valid(p, clock) && clock <= now && HeadIsFree(p, key)
    ensures Valid(Reuse(p, key), now)
  {
    var q, info' := p.order[key], Reuse(p, key).info;
    var q' := q[1..] + [q[0]];
    assert forall x :: x in q' <==> x in q;
    forall i, j | 0 <= i < j < |q'| ensures q'[i] != q'[j] && Before(info'[q'[i]], info'[q'[j]]) {
      assert q'[i] == q[i + 1];
      assert j < |q| - 1 ==> q'[j] == q[j + 1];
    }
    OneSlotKeeps(p, key, q', info', clock, now);
  }

  lemma LeaveKeeps<S>(p: Pool<S>, s: S, now: int, clock: int)
    requires Valid(p, clock) && clock <= now && s in p.info
    ensures Valid(Leave(p, s, now), now)
  {
    var k, others, info' := p.info[s].key, p.info.Keys - {s}, Leave(p, s, now).info;
    var rest := Select(p.order[k], others);
    SelectDistinct(p.order[k], others);
    SelectOrdered(p.order[k], others, p.info, info');
    forall i, j | 0 <= i < j < |[s] + rest| ensures Before(info'[([s] + rest)[i]], info'[([s] + rest)[j]]) {
      assert ([s] + rest)[j] == rest[j - 1];
      assert i > 0 ==> ([s] + rest)[i] == rest[i - 1];
    }
    OneSlotKeeps(p, k, [s] + rest, info', clock, now);
  }

  lemma UpdateKeeps<S>(p: Pool<S>, s: S, i: Info, clock: int)
    requires Valid(p, clock) && s in p.info
    requires Before2(p.info[s], i) && i.key == p.info[s].key
    ensures Valid(Update(p, s, i), clock)
  {
    var p' := Update(p, s, i);
    forall k | k in p'.order ensures Ordered(p'.order[k], p'.info) {
      assert Ordered(p.order[k], p.info);
    }
  }

  lemma VisitKeeps<S>(p: Pool<S>, ks: set<string>, now: int, sessionTimeout: int, connTimeout: int, clock: int)
    requires Valid(p, clock)
    ensures Valid(Visit(p, ks, now, sessionTimeout, connTimeout), clock)
  {
    hide Visit, Select, Distinct, Ordered;
    VisitKeepsSlots(p, ks, now, sessionTimeout, connTimeout);
    forall k | k in Visit(p, ks, now, sessionTimeout, connTimeout).order
      ensures SlotIsFine(Visit(p, ks, now, sessionTimeout, connTimeout), k)
    {
      VisitKeepsSlot(p, ks, now, sessionTimeout, connTimeout, clock, k);
    }
  }

  ghost predicate SlotIsFine<S>(p: Pool<S>, k: string)
    requires k in p.order && forall s :: s in p.order[k] ==> s in p.info
  {
    p.order[k] != [] && Distinct(p.order[k]) && Ordered(p.order[k], p.info)
  }

  lemma VisitKeepsSlots<S>(p: Pool<S>, ks: set<string>, now: int, sessionTimeout: int, connTimeout: int)
    requires WellFormed(p)
    ensures var p' := Visit(p, ks, now, sessionTimeout, connTimeout);
      && (forall k, s :: k in p'.order && s in p'.order[k] ==> s in p'.info && p'.info[s].key == k)
      && (forall s :: s in p'.info ==> p'.info[s].key in p'.order && s in p'.order[p'.info[s].key])
      && (forall s :: s in p'.info ==> s in p.info && p'.info[s].lastUsedAt == p.info[s].lastUsedAt)
  {
    hide Visit, Distinct;
    var p', alive := Visit(p, ks, now, sessionTimeout, connTimeout), Survivors(p, now, sessionTimeout);
    forall k, s | k in p'.order && s in p'.order[k] ensures s in p'.info && p'.info[s].key == k {
      VisitOrder(p, ks, now, sessionTimeout, connTimeout, k);
      VisitInfo(p, ks, now, sessionTimeout, connTimeout, s);
      assert s in p.order[k];
    }
    forall s | s in p'.info
      ensures s in p.info && p'.info[s].lastUsedAt == p.info[s].lastUsedAt
      ensures p'.info[s].key in p'.order && s in p'.order[p'.info[s].key]
    {
      VisitInfo(p, ks, now, sessionTimeout, connTimeout, s);
      VisitOrder(p, ks, now, sessionTimeout, connTimeout, p.info[s].key);
      assert p.info[s].key in ks ==> s in Select(p.order[p.info[s].key], alive);
    }
  }

  lemma VisitOrder<S>(p: Pool<S>, ks: set<string>, now: int, sessionTimeout: int, connTimeout: int, k: string)
    ensures var p', alive := Visit(p, ks, now, sessionTimeout, connTimeout), Survivors(p, now, sessionTimeout);
      && (k in p'.order <==> k in p.order && (k in ks ==> Select(p.order[k], alive) != []))
      && (k in p'.order ==> p'.order[k] == if k in ks then Select(p.order[k], alive) else p.order[k])
  {
  }

  lemma VisitShrinks<S>(p: Pool<S>, ks: set<string>, now: int, sessionTimeout: int, connTimeout: int)
    ensures Visit(p, ks, now, sessionTimeout, connTimeout).info.Keys <= p.info.Keys
  {
  }

  lemma VisitInfo<S>(p: Pool<S>, ks: set<string>, now: int, sessionTimeout: int, connTimeout: int, s: S)
    ensures var p' := Visit(p, ks, now, sessionTimeout, connTimeout);
      && (s in p'.info <==> s in p.info && (p.info[s].key in ks ==> !IsGone(p.info[s], now, sessionTimeout)))
      && (s in p'.info ==> p'.info[s] == if p.info[s].key in ks then Swept(p.info[s], now, connTimeout) else p.info[s])
  {
  }

  lemma VisitKeepsSlot<S>(p: Pool<S>, ks: set<string>, now: int, sessionTimeout: int, connTimeout: int, clock: int, k: string)
    requires Valid(p, clock) && k in Visit(p, ks, now, sessionTimeout, connTimeout).order
    requires forall s :: s in Visit(p, ks, now, sessionTimeout, connTimeout).order[k] ==> s in Visit(p, ks, now, sessionTimeout, connTimeout).info
    ensures SlotIsFine(Visit(p, ks, now, sessionTimeout, connTimeout), k)
  {
    hide Visit, Survivors, Select, Distinct, Ordered;
    VisitOrder(p, ks, now, sessionTimeout, connTimeout, k);
    var alive, q := Survivors(p, now, sessionTimeout), p.order[k];
    var info' := Visit(p, ks, now, sessionTimeout, connTimeout).info;
    forall s | s in info' ensures s in p.info && Before2(p.info[s], info'[s]) {
      VisitInfo(p, ks, now, sessionTimeout, connTimeout, s);
    }
    if k in ks {
      SelectDistinct(q, alive);
      SelectOrdered(q, alive, p.info, info');
    } else {
      OrderedElsewhere(q, p.info, info');
    }
  }

  // ----- One slot at a time -----

  lemma VisitNone<S>(p: Pool<S>, now: int, sessionTimeout: int, connTimeout: int)
    ensures Visit(p, {}, now, sessionTimeout, connTimeout) == p
  {
    assert Visit(p, {}, now, sessionTimeout, connTimeout).order == p.order;
    assert Visit(p, {}, now, sessionTimeout, connTimeout).info == p.info;
  }

  lemma {:induction false} SelectAgree<S>(q: seq<S>, ss: set<S>, ss': set<S>)
    requires forall x :: x in q ==> (x in ss <==> x in ss')
    ensures Select(q, ss) == Select(q, ss')
  {
    if q != [] {
      SelectAgree(q[1..], ss, ss');
    }
  }

  lemma OwnSlot<S>(p: Pool<S>, k: string, s: S)
    requires WellFormed(p) && k in p.order
    ensures s in p.info ==> (p.info[s].key == k <==> s in p.order[k])
    ensures s in p.order[k] ==> s in p.info
  {
  }

  lemma VisitOneOrder<S>(p: Pool<S>, k: string, now: int, sessionTimeout: int, connTimeout: int)
    requires k in p.order
    ensures var q := Select(p.order[k], Survivors(p, now, sessionTimeout));
      Visit(p, {k}, now, sessionTimeout, connTimeout).order == if q == [] then p.order - {k} else p.order[k := q]
  {
    hide Select, Survivors;
  }

  lemma VisitOneAt<S>(p: Pool<S>, k: string, now: int, sessionTimeout: int, connTimeout: int, s: S)
    requires WellFormed(p) && k in p.order
    ensures var q, p' := Select(p.order[k], Survivors(p, now, sessionTimeout)), Visit(p, {k}, now, sessionTimeout, connTimeout);
      && (s in p'.info ==> s in p.info && p'.info[s] == if s in p.order[k] then Swept(p.info[s], now, connTimeout) else p.info[s])
      && (s in p.info && p.info[s].key != k ==> s in p'.info)
      && (s in q ==> s in p'.info)
  {
    hide Visit, WellFormed;
    OwnSlot(p, k, s);
    VisitInfo(p, {k}, now, sessionTimeout, connTimeout, s);
  }

  lemma VisitOne<S>(p: Pool<S>, k: string, now: int, sessionTimeout: int, connTimeout: int)
    requires WellFormed(p) && k in p.order
    ensures var q, p' := Select(p.order[k], Survivors(p, now, sessionTimeout)), Visit(p, {k}, now, sessionTimeout, connTimeout);
      && p' == Pool(if q == [] then p.order - {k} else p.order[k := q], p'.info)
      && (forall s :: s in p'.info ==> s in p.info && p'.info[s] == if s in p.order[k] then Swept(p.info[s], now, connTimeout) else p.info[s])
      && (forall s :: s in p.info && p.info[s].key != k ==> s in p'.info)
      && (forall s :: s in q ==> s in p'.info)
  {
    hide Select, Distinct, Visit, WellFormed;
    var q, p' := Select(p.order[k], Survivors(p, now, sessionTimeout)), Visit(p, {k}, now, sessionTimeout, connTimeout);
    VisitOneOrder(p, k, now, sessionTimeout, connTimeout);
    forall s | s in p'.info
      ensures s in p.info && p'.info[s] == if s in p.order[k] then Swept(p.info[s], now, connTimeout) else p.info[s]
    {
      VisitOneAt(p, k, now, sessionTimeout, connTimeout, s);
    }
    forall s | s in p.info && p.info[s].key != k ensures s in p'.info {
      VisitOneAt(p, k, now, sessionTimeout, connTimeout, s);
    }
    forall s | s in q ensures s in p'.info {
      VisitOneAt(p, k, now, sessionTimeout, connTimeout, s);
    }
  }

  /** Slots can be visited one after the other, in whatever order. */
  lemma VisitStep<S>(p: Pool<S>, ks: set<string>, k: string, now: int, sessionTimeout: int, connTimeout: int)
    requires WellFormed(p) && k in p.order && k !in ks
    ensures Visit(Visit(p, ks, now, sessionTimeout, connTimeout), {k}, now, sessionTimeout, connTimeout)
         == Visit(p, ks + {k}, now, sessionTimeout, connTimeout)
  {
    hide Visit, Select, Survivors;
    var p1 := Visit(p, ks, now, sessionTimeout, connTimeout);
    var p2, p3 := Visit(p1, {k}, now, sessionTimeout, connTimeout), Visit(p, ks + {k}, now, sessionTimeout, connTimeout);
    forall s | s in p.info
      ensures s in p2.info <==> s in p3.info
      ensures s in p2.info ==> p2.info[s] == p3.info[s]
    {
      VisitInfo(p, ks, now, sessionTimeout, connTimeout, s);
      VisitInfo(p1, {k}, now, sessionTimeout, connTimeout, s);
      VisitInfo(p, ks + {k}, now, sessionTimeout, connTimeout, s);
    }
    VisitShrinks(p, ks, now, sessionTimeout, connTimeout);
    VisitShrinks(p1, {k}, now, sessionTimeout, connTimeout);
    VisitShrinks(p, ks + {k}, now, sessionTimeout, connTimeout);
    assert p2.info == p3.info;
    SameSurvivors(p, ks, k, now, sessionTimeout, connTimeout);
    forall k' ensures k' in p2.order <==> k' in p3.order
      ensures k' in p2.order ==> p2.order[k'] == p3.order[k']
    {
      VisitOrder(p, ks, now, sessionTimeout, connTimeout, k');
      VisitOrder(p1, {k}, now, sessionTimeout, connTimeout, k');
      VisitOrder(p, ks + {k}, now, sessionTimeout, connTimeout, k');
    }
    assert p2.order == p3.order;
  }

  lemma SameSurvivors<S>(p: Pool<S>, ks: set<string>, k: string, now: int, sessionTimeout: int, connTimeout: int)
    requires WellFormed(p) && k in p.order && k !in ks
    ensures var p1 := Visit(p, ks, now, sessionTimeout, connTimeout);
      Select(p.order[k], Survivors(p1, now, sessionTimeout)) == Select(p.order[k], Survivors(p, now, sessionTimeout))
  {
    hide Visit;
    var q, p1 := p.order[k], Visit(p, ks, now, sessionTimeout, connTimeout);
    forall x | x in q ensures x in Survivors(p, now, sessionTimeout) <==> x in Survivors(p1, now, sessionTimeout) {
      assert x in p.info && p.info[x].key == k;
      VisitInfo(p, ks, now, sessionTimeout, connTimeout, x);
    }
    SelectAgree(q, Survivors(p, now, sessionTimeout), Survivors(p1, now, sessionTimeout));
  }

  /** The sessions of slots outside `pending`. */
  function Tally<S>(p: Pool<S>, pending: set<string>): set<S> { set s | s in p.info && p.info[s].key !in pending }

  function UsedOf<S>(ss: set<S>, info: map<S, Info>): set<S>
    requires ss <= info.Keys
  {
    set s | s in ss && info[s].inUse
  }

  function Elems<S>(q: seq<S>): set<S> { set s | s in q }

  lemma {:induction false} ElemsCount<S>(q: seq<S>)
    requires Distinct(q)
    ensures |Elems(q)| == |q|
  {
    if q != [] {
      var n := |q| - 1;
      ElemsCount(q[..n]);
      assert Elems(q) == Elems(q[..n]) + {q[n]};
    }
  }

  /** The connections taken from the sessions in ss: one entry for each session detached. */
  ghost predicate Taken<S>(detached: seq<S>, released: seq<nat>, ss: set<S>, info: map<S, Info>, now: int, connTimeout: int)
    requires ss <= info.Keys
  {
    && |released| == |detached| && Distinct(detached)
    && (forall s :: s in ss && Detaches(info[s], now, connTimeout) ==> s in detached)
    && (forall i :: 0 <= i < |detached| ==>
          detached[i] in ss && Detaches(info[detached[i]], now, connTimeout) && info[detached[i]].conn == Some(released[i]))
  }

  lemma TakenNext<S>(detached: seq<S>, released: seq<nat>, ss: set<S>, s: S, info: map<S, Info>, now: int, connTimeout: int)
    requires ss + {s} <= info.Keys && s !in ss && Taken(detached, released, ss, info, now, connTimeout)
    ensures if Detaches(info[s], now, connTimeout)
      then Taken(detached + [s], released + [info[s].conn.value], ss + {s}, info, now, connTimeout)
      else Taken(detached, released, ss + {s}, info, now, connTimeout)
  {
    forall j | 0 <= j < |detached| ensures detached[j] != s {
      assert detached[j] in ss;
    }
  }

  lemma UsedNext<S>(ss: set<S>, s: S, info: map<S, Info>)
    requires ss + {s} <= info.Keys && s !in ss
    ensures |UsedOf(ss + {s}, info)| == |UsedOf(ss, info)| + if info[s].inUse then 1 else 0
  {
    assert UsedOf(ss + {s}, info) == UsedOf(ss, info) + if info[s].inUse then {s} else {};
  }

  lemma ElemsNext<S>(q: seq<S>, i: nat)
    requires i < |q| && Distinct(q)
    ensures Elems(q[..i + 1]) == Elems(q[..i]) + {q[i]} && q[i] !in Elems(q[..i])
  {
    assert q[..i + 1] == q[..i] + [q[i]];
  }

  /** The results of a sweep of q up to place i. */
  ghost predicate Tallied<S>(info: map<S, Info>, alive: set<S>, q: seq<S>, i: nat, n: nat, used: nat, detached: seq<S>, released: seq<nat>,
                             now: int, connTimeout: int)
    requires i <= |q| && forall s :: s in q ==> s in info
  {
    && n == |Select(q[..i], alive)| && used == |UsedOf(Elems(q[..i]), info)|
    && Taken(detached, released, Elems(q[..i]), info, now, connTimeout)
  }

  lemma TalliedNone<S>(info: map<S, Info>, alive: set<S>, q: seq<S>, now: int, connTimeout: int)
    requires forall s :: s in q ==> s in info
    ensures Tallied(info, alive, q, 0, 0, 0, [], [], now, connTimeout)
  {
    assert q[..0] == [] && Elems(q[..0]) == {} && UsedOf({}, info) == {};
  }

  lemma TalliedAll<S>(info: map<S, Info>, alive: set<S>, q: seq<S>, n: nat, used: nat, detached: seq<S>, released: seq<nat>,
                      now: int, connTimeout: int)
    requires forall s :: s in q ==> s in info
    requires Tallied(info, alive, q, |q|, n, used, detached, released, now, connTimeout)
    ensures n == |Select(q, alive)| && used == |UsedOf(Elems(q), info)|
    ensures Taken(detached, released, Elems(q), info, now, connTimeout)
  {
    assert q[..|q|] == q;
  }

  lemma TalliedNext<S>(info: map<S, Info>, alive: set<S>, q: seq<S>, i: nat, n: nat, used: nat, detached: seq<S>, released: seq<nat>,
                       now: int, connTimeout: int)
    requires i < |q| && Distinct(q) && forall s :: s in q ==> s in info
    requires Tallied(info, alive, q, i, n, used, detached, released, now, connTimeout)
    ensures var s := q[i]; var d := Detaches(info[s], now, connTimeout);
      Tallied(info, alive, q, i + 1, if s in alive then n + 1 else n, if info[s].inUse then used + 1 else used,
              if d then detached + [s] else detached, if d then released + [info[s].conn.value] else released, now, connTimeout)
  {
    ElemsNext(q, i);
    hide Select, UsedOf, Elems, Taken, Distinct;
    SelectNext(q, i, alive);
    UsedNext(Elems(q[..i]), q[i], info);
    TakenNext(detached, released, Elems(q[..i]), q[i], info, now, connTimeout);
  }

  lemma TakenJoin<S>(d1: seq<S>, r1: seq<nat>, a: set<S>, d2: seq<S>, r2: seq<nat>, b: set<S>, info: map<S, Info>, now: int, connTimeout: int)
    requires a + b <= info.Keys && a !! b
    requires Taken(d1, r1, a, info, now, connTimeout) && Taken(d2, r2, b, info, now, connTimeout)
    ensures Taken(d1 + d2, r1 + r2, a + b, info, now, connTimeout)
  {
    forall i, j | 0 <= i < |d1| && 0 <= j < |d2| ensures d1[i] != d2[j] {
      assert d1[i] in a && d2[j] in b;
    }
  }

  lemma TakenSame<S>(d: seq<S>, r: seq<nat>, ss: set<S>, info: map<S, Info>, info': map<S, Info>, now: int, connTimeout: int)
    requires ss <= info.Keys && ss <= info'.Keys && forall s :: s in ss ==> info[s] == info'[s]
    requires Taken(d, r, ss, info, now, connTimeout)
    ensures Taken(d, r, ss, info', now, connTimeout)
  {
  }

  lemma TallySlot<S>(p: Pool<S>, pending: set<string>, k: string)
    requires WellFormed(p) && k in p.order && k in pending
    ensures Tally(p, pending) + Elems(p.order[k]) <= p.info.Keys && Tally(p, pending) !! Elems(p.order[k])
    ensures Tally(p, pending - {k}) == Tally(p, pending) + Elems(p.order[k])
  {
  }

  lemma TallyAdds<S>(info: map<S, Info>, info': map<S, Info>, a: set<S>, q: seq<S>, left: seq<S>)
    requires a <= info.Keys && a <= info'.Keys && Elems(q) <= info.Keys && a !! Elems(q)
    requires forall s :: s in a ==> info'[s] == info[s]
    requires Distinct(left) && forall s :: s in left ==> s in q && s in info' && info'[s].inUse == info[s].inUse
    requires forall s :: s in q && info[s].inUse ==> s in left
    ensures |a + Elems(left)| == |a| + |left|
    ensures |UsedOf(a + Elems(left), info')| == |UsedOf(a, info)| + |UsedOf(Elems(q), info)|
  {
    hide Distinct;
    ElemsCount(left);
    var u, v := UsedOf(a, info), UsedOf(Elems(q), info);
    assert a !! Elems(left) && u !! v;
    assert UsedOf(a + Elems(left), info') == u + v;
  }

  lemma TallyMember<S>(p: Pool<S>, pending: set<string>, k: string, now: int, sessionTimeout: int, connTimeout: int, s: S)
    requires WellFormed(p) && k in p.order && k in pending && s in p.info
    ensures var p' := Visit(p, {k}, now, sessionTimeout, connTimeout); var left := Select(p.order[k], Survivors(p, now, sessionTimeout));
      && (s in Tally(p', pending - {k}) <==> s in Tally(p, pending) || s in left)
      && (s in Tally(p, pending) ==> s in p'.info && p'.info[s] == p.info[s])
      && (s in left ==> s in p'.info && p'.info[s].inUse == p.info[s].inUse)
  {
    hide Visit, Distinct;
    VisitInfo(p, {k}, now, sessionTimeout, connTimeout, s);
  }

  lemma LeftIsListed<S>(p: Pool<S>, k: string, now: int, sessionTimeout: int)
    requires WellFormed(p) && k in p.order
    ensures var left := Select(p.order[k], Survivors(p, now, sessionTimeout));
      && (forall s :: s in left ==> s in p.order[k])
      && (forall s :: s in p.order[k] && p.info[s].inUse ==> s in left)
  {
  }

  /** Visiting one more slot adds what is left of it to the tally. */
  lemma TallyStep<S>(p: Pool<S>, pending: set<string>, k: string, now: int, sessionTimeout: int, connTimeout: int)
    requires WellFormed(p) && k in p.order && k in pending
    ensures var p' := Visit(p, {k}, now, sessionTimeout, connTimeout);
      && Elems(p.order[k]) <= p.info.Keys
      && |Tally(p', pending - {k})| == |Tally(p, pending)| + |Select(p.order[k], Survivors(p, now, sessionTimeout))|
      && |UsedOf(Tally(p', pending - {k}), p'.info)| == |UsedOf(Tally(p, pending), p.info)| + |UsedOf(Elems(p.order[k]), p.info)|
  {
    hide Visit, Distinct, UsedOf, Survivors, Select;
    var p', q := Visit(p, {k}, now, sessionTimeout, connTimeout), p.order[k];
    var left := Select(q, Survivors(p, now, sessionTimeout));
    VisitShrinks(p, {k}, now, sessionTimeout, connTimeout);
    TallySlot(p, pending, k);
    forall s | s in p.info
      ensures s in Tally(p', pending - {k}) <==> s in Tally(p, pending) || s in left
      ensures s in Tally(p, pending) ==> s in p'.info && p'.info[s] == p.info[s]
      ensures s in left ==> s in p'.info && p'.info[s].inUse == p.info[s].inUse
    {
      TallyMember(p, pending, k, now, sessionTimeout, connTimeout, s);
    }
    LeftIsListed(p, k, now, sessionTimeout);
    assert Tally(p', pending - {k}) == Tally(p, pending) + Elems(left);
    SelectDistinct(q, Survivors(p, now, sessionTimeout));
    TallyAdds(p.info, p'.info, Tally(p, pending), q, left);
  }

  /** The watcher between two slots: it began with p, has come to p1, and still has to visit `pending`. */
  ghost predicate Visiting<S>(p: Pool<S>, p1: Pool<S>, pending: set<string>, count: nat, inUse: nat, detached: seq<S>, released: seq<nat>,
                              now: int, sessionTimeout: int, connTimeout: int, clock: int)
  {
    && pending <= p.order.Keys && Valid(p, clock)
    && p1 == Visit(p, p.order.Keys - pending, now, sessionTimeout, connTimeout)
    && count == |Tally(p1, pending)| && inUse == |UsedOf(Tally(p1, pending), p1.info)|
    && Taken(detached, released, Tally(p, pending), p.info, now, connTimeout)
  }

  lemma VisitingStarts<S>(p: Pool<S>, now: int, sessionTimeout: int, connTimeout: int, clock: int)
    requires Valid(p, clock)
    ensures Visiting(p, p, p.order.Keys, 0, 0, [], [], now, sessionTimeout, connTimeout, clock)
  {
    hide Visit;
    VisitNone(p, now, sessionTimeout, connTimeout);
    assert p.order.Keys - p.order.Keys == {};
    assert Tally(p, p.order.Keys) == {} && UsedOf({}, p.info) == {};
  }

  /** The slot to be visited is as it was. */
  lemma VisitingSlot<S>(p: Pool<S>, p1: Pool<S>, pending: set<string>, count: nat, inUse: nat, detached: seq<S>, released: seq<nat>,
                        now: int, sessionTimeout: int, connTimeout: int, clock: int, k: string)
    requires Visiting(p, p1, pending, count, inUse, detached, released, now, sessionTimeout, connTimeout, clock) && k in pending
    ensures WellFormed(p1) && k in p1.order && p1.order[k] == p.order[k]
    ensures forall s :: s in p1.order[k] ==> s in p.info && s in p1.info && p1.info[s] == p.info[s]
  {
    hide Visit, Taken, UsedOf, Tally, Ordered, Distinct;
    VisitKeeps(p, p.order.Keys - pending, now, sessionTimeout, connTimeout, clock);
    VisitOrder(p, p.order.Keys - pending, now, sessionTimeout, connTimeout, k);
    forall s | s in p.order[k] ensures s in p.info && s in p1.info && p1.info[s] == p.info[s] {
      VisitInfo(p, p.order.Keys - pending, now, sessionTimeout, connTimeout, s);
    }
  }

  lemma VisitingStep<S>(p: Pool<S>, p1: Pool<S>, pending: set<string>, count: nat, inUse: nat, detached: seq<S>, released: seq<nat>,
                        now: int, sessionTimeout: int, connTimeout: int, clock: int,
                        k: string, n: nat, used: nat, from: seq<S>, more: seq<nat>)
    requires Visiting(p, p1, pending, count, inUse, detached, released, now, sessionTimeout, connTimeout, clock) && k in pending
    requires k in p1.order && forall s :: s in p1.order[k] ==> s in p1.info
    requires Tallied(p1.info, Survivors(p1, now, sessionTimeout), p1.order[k], |p1.order[k]|, n, used, from, more, now, connTimeout)
    ensures Visiting(p, Visit(p1, {k}, now, sessionTimeout, connTimeout), pending - {k}, count + n, inUse + used,
                     detached + from, released + more, now, sessionTimeout, connTimeout, clock)
  {
    hide Visit, Taken, UsedOf, Tally, Ordered, Distinct, Tallied, Select, Survivors;
    var q, done := p.order[k], p.order.Keys - pending;
    VisitingSlot(p, p1, pending, count, inUse, detached, released, now, sessionTimeout, connTimeout, clock, k);
    TalliedAll(p1.info, Survivors(p1, now, sessionTimeout), q, n, used, from, more, now, connTimeout);
    VisitStep(p, done, k, now, sessionTimeout, connTimeout);
    assert done + {k} == p.order.Keys - (pending - {k});
    TallyStep(p1, pending, k, now, sessionTimeout, connTimeout);
    TallySlot(p, pending, k);
    TakenSame(from, more, Elems(q), p1.info, p.info, now, connTimeout);
    TakenJoin(detached, released, Tally(p, pending), from, more, Elems(q), p.info, now, connTimeout);
  }

  lemma VisitingEnds<S>(p: Pool<S>, p1: Pool<S>, count: nat, inUse: nat, detached: seq<S>, released: seq<nat>,
                        now: int, sessionTimeout: int, connTimeout: int, clock: int)
    requires Visiting(p, p1, {}, count, inUse, detached, released, now, sessionTimeout, connTimeout, clock)
    ensures Valid(p1, clock) && p1 == Watch(p, now, sessionTimeout, connTimeout)
    ensures count == |p1.info| && inUse == |UsedOf(p1.info.Keys, p1.info)|
    ensures Taken(detached, released, p.info.Keys, p.info, now, connTimeout)
  {
    hide Visit, Taken, UsedOf, Ordered, Distinct;
    assert p.order.Keys - {} == p.order.Keys;
    VisitKeeps(p, p.order.Keys, now, sessionTimeout, connTimeout, clock);
    assert Tally(p, {}) == p.info.Keys && Tally(p1, {}) == p1.info.Keys;
    assert |p1.info.Keys| == |p1.info|;
  }

  // ----- What the operations achieve -----

  /** Main result: looking at the head is complete. A session is created exactly when the slot has
      no free one, and the one reused is the free one left last. */
  lemma GetIsComplete<S>(p: Pool<S>, key: string, now: int, s: S, clock: int)
    requires Valid(p, clock) && s !in p.info
    ensures var (p', got, isNew) := Get(p, key, now, s);
      && (isNew <==> forall x :: x in p.info && p.info[x].key == key ==> p.info[x].inUse)
      && got in p'.info && p'.info[got].inUse && p'.info[got].key == key
      && (isNew ==> got == s && p'.info[got].lastUsedAt == now && p'.info[got].conn.None? && p'.info[got].claims.None? && p'.info[got].db.None?)
      && (!isNew ==> got in p.info && !p.info[got].inUse && p'.info[got] == p.info[got].(inUse := true))
      && (!isNew ==> forall x :: x in p.info && p.info[x].key == key && !p.info[x].inUse ==> p.info[x].lastUsedAt <= p.info[got].lastUsedAt)
      && (forall x :: x in p.info && x != got ==> x in p'.info && p'.info[x] == p.info[x])
  {
    if HeadIsFree(p, key) {
      var q := p.order[key];
      assert q[0] in q;
      forall x | x in p.info && p.info[x].key == key && !p.info[x].inUse
        ensures p.info[x].lastUsedAt <= p.info[q[0]].lastUsedAt
      {
        var j :| 0 <= j < |q| && q[j] == x;
        assert j > 0 ==> Before(p.info[q[0]], p.info[q[j]]);
      }
    } else {
      AllInUse(p, key, clock);
    }
  }

  /** Main result: a session that is left keeps what it holds, and is the one that its key gets next;
      nothing else changes. */
  lemma LeftIsGotNext<S>(p: Pool<S>, s: S, now: int, later: int, other: S, clock: int)
    requires Valid(p, clock) && clock <= now && s in p.info
    ensures Valid(Leave(p, s, now), now)
    ensures var p' := Leave(p, s, now); var key := p.info[s].key;
      && p'.info[s] == p.info[s].(inUse := false, lastUsedAt := now)
      && (forall x :: x in p'.info <==> x in p.info) && (forall x :: x in p.info && x != s ==> p'.info[x] == p.info[x])
      && (forall k :: k in p'.order <==> k in p.order) && (forall k :: k in p.order && k != key ==> p'.order[k] == p.order[k])
      && Get(p', key, later, other).1 == s && !Get(p', key, later, other).2
  {
    LeaveKeeps(p, s, now, clock);
  }

  /** The shape of every slot: free sessions, those left later first, then the ones in use. */
  lemma {:induction false} SlotHasTwoBlocks<S>(q: seq<S>, info: map<S, Info>) returns (f: nat)
    requires (forall s :: s in q ==> s in info) && Ordered(q, info)
    ensures f <= |q|
    ensures forall i :: 0 <= i < |q| ==> (info[q[i]].inUse <==> f <= i)
    ensures forall i, j :: 0 <= i < j < f ==> info[q[i]].lastUsedAt >= info[q[j]].lastUsedAt
  {
    if q == [] {
      f := 0;
    } else {
      var n := |q| - 1;
      assert Ordered(q[..n], info);
      f := SlotHasTwoBlocks(q[..n], info);
      assert forall i :: 0 <= i < n ==> q[..n][i] == q[i];
      assert forall i :: 0 <= i < n ==> Before(info[q[i]], info[q[n]]);
      if !info[q[n]].inUse {
        f := n + 1;
      }
    }
  }

  /** Main result: what the watcher leaves. */
  lemma WatchLeaves<S>(p: Pool<S>, now: int, sessionTimeout: int, connTimeout: int, clock: int)
    requires Valid(p, clock)
    ensures var p' := Watch(p, now, sessionTimeout, connTimeout);
      && (forall s :: s in p'.info <==>
            s in p.info && (p.info[s].inUse || now - p.info[s].lastUsedAt <= sessionTimeout || p.info[s].conn.Some?))
      && (forall s :: s in p'.info && p.info[s].inUse ==> p'.info[s] == p.info[s])
      && (forall s :: s in p'.info ==>
            p'.info[s].conn == if !p.info[s].inUse && now - p.info[s].lastUsedAt > connTimeout then None else p.info[s].conn)
      && (forall k :: k in p'.order <==> exists s :: s in p'.info && p'.info[s].key == k)
      && (forall k :: k in p'.order ==> p'.order[k] == Select(p.order[k], p'.info.Keys))
  {
    hide Visit, Distinct, Ordered, Select;
    VisitKeepsSlots(p, p.order.Keys, now, sessionTimeout, connTimeout);
    WatchSelects(p, now, sessionTimeout, connTimeout);
    var p' := Watch(p, now, sessionTimeout, connTimeout);
    forall k | k in p'.order ensures exists s :: s in p'.info && p'.info[s].key == k {
      assert p'.order[k][0] in p'.order[k];
    }
  }

  lemma WatchSelects<S>(p: Pool<S>, now: int, sessionTimeout: int, connTimeout: int)
    requires WellFormed(p)
    ensures var p' := Watch(p, now, sessionTimeout, connTimeout);
      && p'.info.Keys == Survivors(p, now, sessionTimeout)
      && (forall s :: s in p'.info ==> p'.info[s] == Swept(p.info[s], now, connTimeout))
      && (forall k :: k in p'.order ==> k in p.order && p'.order[k] != [] && p'.order[k] == Select(p.order[k], p'.info.Keys))
  {
    hide Select;
    assert Watch(p, now, sessionTimeout, connTimeout).info.Keys == Survivors(p, now, sessionTimeout);
  }
}
