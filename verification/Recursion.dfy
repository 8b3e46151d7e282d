/** The recursive query computes bounded reachability: the rows of the CTE are exactly the simple
    walks from the seed, whatever cycles the data has. */
module Recursion {
  import opened Sql
  import opened Graph
  import opened RecursiveQuery
  import opened RecursiveArms

  ghost function Edge(p: Problem): (Row, Row) -> bool
    requires p.WellPosed()
  {
    (u: Row, v: Row) => p.StepsTo(u, v)
  }

  function Keys(p: Problem, ws: seq<Row>): (ks: seq<Value>)
    ensures |ks| == |ws|
    ensures forall i :: 0 <= i < |ws| ==> ks[i] == p.Key(ws[i])
  {
    seq(|ws|, i requires 0 <= i < |ws| => p.Key(ws[i]))
  }

  /** A walk from the seed that meets no key twice. */
  ghost predicate Trail(p: Problem, ws: seq<Row>)
    requires p.WellPosed()
  {
    IsWalk(ws, Edge(p)) && p.IsSeed(ws[0]) && Simple(Keys(p, ws))
  }

  /** The CTE row that a trail leaves behind. */
  function RowOf(p: Problem, ws: seq<Row>): CteRow
    requires |ws| > 0
  {
    CteRow(Last(ws), |ws| - 1, Keys(p, ws))
  }

  // ----- Membership in the evaluated tables -----

  lemma {:induction false} InBase(x: Execution, rows: seq<Row>, r: CteRow)
    ensures r in x.BaseFrom(rows)
        <==> exists row :: row in rows && Keeps(x.q.base, x.BaseEnv(row)) && r == CteRow(row, 0, [x.Key(row)])
  {
    if rows != [] {
      InBase(x, rows[1..], r);
      assert rows == [rows[0]] + rows[1..];
    }
  }

  lemma {:induction false} InStepEdges(x: Execution, w: CteRow, row: Row, edges: seq<Row>, r: CteRow)
    ensures r in x.StepEdges(w, row, edges)
        <==> r == x.Next(w, row) && exists e :: e in edges && x.Admits(w, row, e)
  {
    if edges != [] {
      InStepEdges(x, w, row, edges[1..], r);
      assert edges == [edges[0]] + edges[1..];
    }
  }

  lemma {:induction false} InStepRows(x: Execution, w: CteRow, rows: seq<Row>, r: CteRow)
    ensures r in x.StepRows(w, rows)
        <==> exists row, e :: row in rows && e in x.Edges() && x.Admits(w, row, e) && r == x.Next(w, row)
  {
    hide Execution.Admits, Execution.Edges, Execution.StepEdges;
    if rows != [] {
      InStepRows(x, w, rows[1..], r);
      InStepEdges(x, w, rows[0], x.Edges(), r);
      assert rows == [rows[0]] + rows[1..];
    }
  }

  lemma {:induction false} InStep(x: Execution, working: seq<CteRow>, r: CteRow)
    ensures r in x.Step(working)
        <==> exists w, row, e :: w in working && row in x.db.main && e in x.Edges() && x.Admits(w, row, e) && r == x.Next(w, row)
  {
    if working != [] {
      InStep(x, working[1..], r);
      InStepRows(x, working[0], x.db.main, r);
      assert working == [working[0]] + working[1..];
    }
  }

  predicate IsOnLevel(x: Execution, k: nat, r: CteRow) { r in x.Level(k) }

  lemma UpToNext(x: Execution, n: nat, r: CteRow)
    ensures r in x.UpTo(n) <==> (n > 0 && r in x.UpTo(n - 1)) || IsOnLevel(x, n, r)
  {
    if n > 0 {
      assert x.UpTo(n) == x.UpTo(n - 1) + x.Level(n);
    } else {
      assert x.UpTo(0) == x.Level(0);
    }
  }

  lemma {:induction false} InUpTo(x: Execution, n: nat, r: CteRow)
    ensures r in x.UpTo(n) <==> exists k: nat :: k <= n && IsOnLevel(x, k, r)
  {
    hide IsOnLevel, Execution.UpTo;
    UpToNext(x, n, r);
    if n > 0 {
      InUpTo(x, n - 1, r);
      if k: nat :| k <= n && IsOnLevel(x, k, r) {
        assert k == n || k <= n - 1;
      }
    }
  }

  // ----- The cycle guard -----

  lemma {:induction false} NotOnPath(v: Value, path: seq<Value>)
    requires path != [] && forall k :: k in path ==> k != Null
    ensures EqAny3(v, path).False? <==> v != Null && v !in path
  {
    assert path == [path[0]] + path[1..];
    assert path[0] in path;
    if |path| == 1 {
      assert path[1..] == [];
    } else {
      assert forall k :: k in path[1..] ==> k in path;
      NotOnPath(v, path[1..]);
    }
  }

  lemma TrailKeys(p: Problem, ws: seq<Row>)
    requires p.WellPosed() && Trail(p, ws)
    ensures forall k :: k in Keys(p, ws) ==> k != Null
    ensures forall i :: 0 <= i < |ws| ==> ws[i] in p.db.main && p.Key(ws[i]) != Null
  {
    forall i | 0 <= i < |ws| ensures ws[i] in p.db.main && p.Key(ws[i]) != Null {
      if i > 0 {
        assert Edge(p)(ws[i - 1], ws[i - 1 + 1]);
      }
    }
  }

  lemma TrailSnoc(p: Problem, ws: seq<Row>, v: Row)
    requires p.WellPosed() && |ws| > 0
    ensures Trail(p, ws + [v]) <==> Trail(p, ws) && p.StepsTo(Last(ws), v) && p.Key(v) !in Keys(p, ws)
  {
    hide IsWalk, Simple, Problem.StepsTo, Problem.IsSeed;
    assert Keys(p, ws + [v]) == Keys(p, ws) + [p.Key(v)] && (ws + [v])[0] == ws[0];
    WalkSnoc(ws, v, Edge(p));
    SimpleSnoc(Keys(p, ws), p.Key(v));
  }

  // ----- Rows of the CTE = trails -----

  lemma SingleTrail(p: Problem, row: Row)
    requires p.WellPosed()
    ensures Trail(p, [row]) <==> p.IsSeed(row)
    ensures RowOf(p, [row]) == CteRow(row, 0, [p.Key(row)])
    ensures p.IsSeed(row) ==> row in p.db.main
  {
    assert Keys(p, [row]) == [p.Key(row)];
  }

  lemma SingleRow(p: Problem, ws: seq<Row>)
    requires |ws| == 1
    ensures ws == [ws[0]]
  {
  }

  lemma BaseIsTrails(p: Problem, r: CteRow)
    requires p.WellPosed()
    ensures r in p.Execute().Level(0) <==> exists ws :: |ws| == 1 && Trail(p, ws) && r == RowOf(p, ws)
  {
    hide Keeps, Trail, RowOf;
    var x := p.Execute();
    InBase(x, p.db.main, r);
    if r in x.Level(0) {
      var row :| row in p.db.main && Keeps(x.q.base, x.BaseEnv(row)) && r == CteRow(row, 0, [x.Key(row)]);
      BaseTest(p, row);
      SingleTrail(p, row);
      assert |[row]| == 1;
    }
    if ws :| |ws| == 1 && Trail(p, ws) && r == RowOf(p, ws) {
      SingleRow(p, ws);
      SingleTrail(p, ws[0]);
      BaseTest(p, ws[0]);
    }
  }

  /** One round of the recursive term, seen from a trail. */
  lemma AdmitsIsStep(p: Problem, ws: seq<Row>, v: Row)
    requires p.WellPosed() && Trail(p, ws) && v in p.db.main
    ensures var x := p.Execute();
      (exists e :: e in x.Edges() && x.Admits(RowOf(p, ws), v, e))
        <==> |ws| <= p.Cap() && p.StepsTo(Last(ws), v) && p.Key(v) !in Keys(p, ws)
  {
    var x := p.Execute();
    TrailKeys(p, ws);
    NotOnPath(p.Key(v), Keys(p, ws));
    forall e ensures x.Admits(RowOf(p, ws), v, e)
        <==> && |ws| <= p.Cap() && p.Key(v) != Null && p.Key(v) !in Keys(p, ws) && p.WalkOk(v)
             && (if p.req.rec.viaTable == "" then p.LeadsByKey(Last(ws), v) else p.EdgeOk(e) && p.Leads(Last(ws), e, v))
    {
      AdmitTest(p, RowOf(p, ws), v, e);
    }
    if p.req.rec.viaTable == "" {
      assert map[] in x.Edges();
    } else {
      assert x.Edges() == p.db.edges;
    }
  }

  lemma NextOfTrail(p: Problem, ws: seq<Row>, v: Row)
    requires p.WellPosed() && |ws| > 0
    ensures p.Execute().Next(RowOf(p, ws), v) == RowOf(p, ws + [v])
  {
    assert Keys(p, ws + [v]) == Keys(p, ws) + [p.Key(v)];
  }

  /** The row of a trail of n steps. */
  ghost predicate IsTrailRow(p: Problem, n: nat, r: CteRow)
    requires p.WellPosed()
  {
    n <= p.Cap() && exists ws :: |ws| == n + 1 && Trail(p, ws) && r == RowOf(p, ws)
  }

  lemma ExtendTrail(p: Problem, ws: seq<Row>, v: Row, e: Row)
    requires p.WellPosed() && Trail(p, ws) && v in p.db.main && e in p.Execute().Edges()
    requires p.Execute().Admits(RowOf(p, ws), v, e)
    ensures IsTrailRow(p, |ws|, p.Execute().Next(RowOf(p, ws), v))
  {
    AdmitsIsStep(p, ws, v);
    TrailSnoc(p, ws, v);
    NextOfTrail(p, ws, v);
  }

  lemma StepYieldsTrail(p: Problem, n: nat, working: seq<CteRow>, r: CteRow)
    requires p.WellPosed() && r in p.Execute().Step(working)
    requires forall w :: w in working ==> IsTrailRow(p, n, w)
    ensures IsTrailRow(p, n + 1, r)
  {
    var x := p.Execute();
    InStep(x, working, r);
    var w, v, e :| w in working && v in x.db.main && e in x.Edges() && x.Admits(w, v, e) && r == x.Next(w, v);
    assert IsTrailRow(p, n, w);
    var ws :| |ws| == n + 1 && Trail(p, ws) && w == RowOf(p, ws);
    ExtendTrail(p, ws, v, e);
  }

  lemma TrailYieldsRow(p: Problem, n: nat, working: seq<CteRow>, zs: seq<Row>)
    requires p.WellPosed() && n < p.Cap() && |zs| == n + 2 && Trail(p, zs)
    requires forall w :: IsTrailRow(p, n, w) ==> w in working
    ensures RowOf(p, zs) in p.Execute().Step(working)
  {
    hide Trail;
    var x := p.Execute();
    var ws, v := zs[..n + 1], zs[n + 1];
    assert zs == ws + [v];
    TrailSnoc(p, ws, v);
    TrailKeys(p, zs);
    assert v in p.db.main;
    AdmitsIsStep(p, ws, v);
    NextOfTrail(p, ws, v);
    assert IsTrailRow(p, n, RowOf(p, ws));
    var e :| e in x.Edges() && x.Admits(RowOf(p, ws), v, e);
    InStep(x, working, RowOf(p, zs));
  }

  lemma BaseIsTrailRows(p: Problem, r: CteRow)
    requires p.WellPosed()
    ensures r in p.Execute().Level(0) <==> IsTrailRow(p, 0, r)
  {
    hide Trail;
    BaseIsTrails(p, r);
  }

  lemma TrailRowIsStep(p: Problem, n: nat, working: seq<CteRow>, r: CteRow)
    requires p.WellPosed() && IsTrailRow(p, n + 1, r) && forall w :: IsTrailRow(p, n, w) ==> w in working
    ensures r in p.Execute().Step(working)
  {
    hide Trail;
    var zs :| |zs| == n + 2 && Trail(p, zs) && r == RowOf(p, zs);
    TrailYieldsRow(p, n, working, zs);
  }

  /** Main lemma: round n puts exactly the trails of n steps into the working table, up to the cap. */
  lemma {:induction false} LevelIsTrails(p: Problem, n: nat, r: CteRow)
    requires p.WellPosed()
    ensures r in p.Execute().Level(n) <==> IsTrailRow(p, n, r)
    decreases n
  {
    hide IsTrailRow, Execution.Step;
    if n == 0 {
      BaseIsTrailRows(p, r);
    } else {
      var working := p.Execute().Level(n - 1);
      forall w ensures w in working <==> IsTrailRow(p, n - 1, w) {
        LevelIsTrails(p, n - 1, w);
      }
      if r in p.Execute().Level(n) {
        StepYieldsTrail(p, n - 1, working, r);
      }
      if IsTrailRow(p, n, r) {
        TrailRowIsStep(p, n - 1, working, r);
      }
    }
  }

  // ----- Nodes -----

  /** The start column is a key; NULLs are allowed, as in a UNIQUE column. */
  ghost predicate Keyed(p: Problem) {
    forall i, j :: 0 <= i < j < |p.db.main| && p.Key(p.db.main[i]) != Null ==> p.Key(p.db.main[i]) != p.Key(p.db.main[j])
  }

  lemma SameKey(p: Problem, u: Row, v: Row)
    requires Keyed(p) && u in p.db.main && v in p.db.main && p.Key(u) == p.Key(v) != Null
    ensures u == v
  {
    var i :| 0 <= i < |p.db.main| && p.db.main[i] == u;
    var j :| 0 <= j < |p.db.main| && p.db.main[j] == v;
    if i < j || j < i {
      assert false;
    }
  }

  lemma WalkRows(p: Problem, s: Row, ws: seq<Row>)
    requires p.WellPosed() && p.IsSeed(s) && IsWalk(ws, Edge(p)) && ws[0] == s
    ensures forall i :: 0 <= i < |ws| ==> ws[i] in p.db.main && p.Key(ws[i]) != Null
  {
    forall i | 0 <= i < |ws| ensures ws[i] in p.db.main && p.Key(ws[i]) != Null {
      if i > 0 {
        assert Edge(p)(ws[i - 1], ws[i - 1 + 1]);
      }
    }
  }

  /** With a key, trails are the simple walks from the seed. */
  lemma TrailsAreSimpleWalks(p: Problem, s: Row, ws: seq<Row>)
    requires p.WellPosed() && Keyed(p) && p.IsSeed(s)
    ensures Trail(p, ws) <==> IsWalk(ws, Edge(p)) && ws[0] == s && Simple(ws)
  {
    if Trail(p, ws) {
      TrailKeys(p, ws);
      SameKey(p, s, ws[0]);
      forall i, j | 0 <= i < j < |ws| ensures ws[i] != ws[j] {
        assert Keys(p, ws)[i] != Keys(p, ws)[j];
      }
    }
    if IsWalk(ws, Edge(p)) && ws[0] == s && Simple(ws) {
      WalkRows(p, s, ws);
      forall i, j | 0 <= i < j < |ws| ensures Keys(p, ws)[i] != Keys(p, ws)[j] {
        if p.Key(ws[i]) == p.Key(ws[j]) {
          SameKey(p, ws[i], ws[j]);
        }
      }
    }
  }

  /** Main theorem: the nodes of the CTE are the rows that the seed reaches within the cap. The
      path guard loses none of them. */
  lemma CteIsBoundedReachability(p: Problem, s: Row, v: Row)
    requires p.WellPosed() && Keyed(p) && p.IsSeed(s)
    ensures (exists r :: r in p.Execute().UpTo(p.Cap()) && r.row == v) <==> Within(s, v, p.Cap(), Edge(p))
  {
    var x := p.Execute();
    if exists r :: r in x.UpTo(p.Cap()) && r.row == v {
      var r :| r in x.UpTo(p.Cap()) && r.row == v;
      var ws := TrailOf(p, s, r);
      assert Joins(ws, s, v, Edge(p));
    }
    if Within(s, v, p.Cap(), Edge(p)) {
      var ws :| Joins(ws, s, v, Edge(p)) && |ws| <= p.Cap() + 1;
      var zs := MakeSimple(ws, Edge(p));
      CteHasWalk(p, s, zs);
      assert RowOf(p, zs).row == v;
    }
  }

  lemma CteRowIsTrail(p: Problem, r: CteRow) returns (ws: seq<Row>)
    requires p.WellPosed() && r in p.Execute().UpTo(p.Cap())
    ensures |ws| <= p.Cap() + 1 && Trail(p, ws) && r == RowOf(p, ws)
  {
    InUpTo(p.Execute(), p.Cap(), r);
    var k: nat :| k <= p.Cap() && IsOnLevel(p.Execute(), k, r);
    LevelIsTrails(p, k, r);
    ws :| |ws| == k + 1 && Trail(p, ws) && r == RowOf(p, ws);
  }

  lemma TrailOf(p: Problem, s: Row, r: CteRow) returns (ws: seq<Row>)
    requires p.WellPosed() && Keyed(p) && p.IsSeed(s) && r in p.Execute().UpTo(p.Cap())
    ensures Joins(ws, s, r.row, Edge(p)) && Simple(ws) && |ws| <= p.Cap() + 1 && r == RowOf(p, ws) && Trail(p, ws)
  {
    ws := CteRowIsTrail(p, r);
    TrailsAreSimpleWalks(p, s, ws);
  }

  lemma CteHasWalk(p: Problem, s: Row, ws: seq<Row>)
    requires p.WellPosed() && Keyed(p) && p.IsSeed(s)
    requires IsWalk(ws, Edge(p)) && ws[0] == s && Simple(ws) && |ws| <= p.Cap() + 1
    ensures RowOf(p, ws) in p.Execute().UpTo(p.Cap())
  {
    TrailsAreSimpleWalks(p, s, ws);
    LevelIsTrails(p, |ws| - 1, RowOf(p, ws));
    assert IsOnLevel(p.Execute(), |ws| - 1, RowOf(p, ws));
    InUpTo(p.Execute(), p.Cap(), RowOf(p, ws));
  }

  /** A start value that no admissible row carries gives an empty CTE. */
  lemma NoSeedNoRows(p: Problem)
    requires p.WellPosed() && forall s :: !p.IsSeed(s)
    ensures forall r :: r !in p.Execute().UpTo(p.Cap())
  {
    forall r ensures r !in p.Execute().UpTo(p.Cap()) {
      InUpTo(p.Execute(), p.Cap(), r);
      if k: nat :| k <= p.Cap() && IsOnLevel(p.Execute(), k, r) {
        LevelIsTrails(p, k, r);
      }
    }
  }

  /** Every path is simple and has one entry more than the depth says. */
  lemma PathsAreSimple(p: Problem, r: CteRow)
    requires p.WellPosed() && r in p.Execute().UpTo(p.Cap())
    ensures Simple(r.path) && |r.path| == r.depth + 1 && r.depth <= p.Cap()
    ensures Last(r.path) == p.Key(r.row) && r.path[0] == Str(p.req.rec.startValue)
  {
    var ws := CteRowIsTrail(p, r);
  }

  // ----- Distances -----

  /** The depths of a node's rows are lengths of walks to it, and no walk within the cap is shorter
      than all of them. */
  lemma DepthsAreWalks(p: Problem, s: Row, v: Row)
    requires p.WellPosed() && Keyed(p) && p.IsSeed(s)
    ensures forall r :: r in p.Execute().UpTo(p.Cap()) && r.row == v ==>
      r.depth <= p.Cap() && exists ws :: Joins(ws, s, v, Edge(p)) && |ws| == r.depth + 1
    ensures forall ws :: Joins(ws, s, v, Edge(p)) && |ws| <= p.Cap() + 1 ==>
      exists r :: r in p.Execute().UpTo(p.Cap()) && r.row == v && r.depth + 1 <= |ws|
  {
    hide Edge, Keyed, Problem.IsSeed;
    var cte := p.Execute().UpTo(p.Cap());
    forall r | r in cte && r.row == v ensures r.depth <= p.Cap() && exists ws :: Joins(ws, s, v, Edge(p)) && |ws| == r.depth + 1 {
      var ws := TrailOf(p, s, r);
    }
    forall ws | Joins(ws, s, v, Edge(p)) && |ws| <= p.Cap() + 1
      ensures exists r :: r in cte && r.row == v && r.depth + 1 <= |ws|
    {
      var zs := MakeSimple(ws, Edge(p));
      CteHasWalk(p, s, zs);
      assert RowOf(p, zs).row == v && RowOf(p, zs).depth + 1 <= |ws|;
    }
  }

  /** The shortest way to a node is never cut off: some CTE row carries the distance as its depth,
      and no row of the node carries less. */
  lemma LeastDepthIsDistance(p: Problem, s: Row, v: Row, d: nat)
    requires p.WellPosed() && Keyed(p) && p.IsSeed(s)
    ensures (IsDistance(s, v, d, Edge(p)) && d <= p.Cap())
        <==> && (exists r :: r in p.Execute().UpTo(p.Cap()) && r.row == v && r.depth == d)
             && (forall r :: r in p.Execute().UpTo(p.Cap()) && r.row == v ==> d <= r.depth)
  {
    hide Edge, Keyed, Problem.IsSeed, Joins, Problem.Execute, Problem.Cap, Execution.UpTo;
    var cte := p.Execute().UpTo(p.Cap());
    DepthsAreWalks(p, s, v);
    if IsDistance(s, v, d, Edge(p)) && d <= p.Cap() {
      var ws :| Joins(ws, s, v, Edge(p)) && |ws| == d + 1;
      var r :| r in cte && r.row == v && r.depth + 1 <= |ws|;
    }
    if (exists r :: r in cte && r.row == v && r.depth == d) && (forall r :: r in cte && r.row == v ==> d <= r.depth) {
      forall ws | Joins(ws, s, v, Edge(p)) ensures d + 1 <= |ws| {
        if |ws| <= p.Cap() + 1 {
          var r' :| r' in cte && r'.row == v && r'.depth + 1 <= |ws|;
        }
      }
    }
  }

  /** Every node within the cap has a row that shows its distance. */
  lemma DistanceIsShown(p: Problem, s: Row, v: Row)
    requires p.WellPosed() && Keyed(p) && p.IsSeed(s) && Within(s, v, p.Cap(), Edge(p))
    ensures exists r :: r in p.Execute().UpTo(p.Cap()) && r.row == v && IsDistance(s, v, r.depth, Edge(p))
  {
    hide Edge, IsDistance;
    var d := DistanceExists(s, v, p.Cap(), Edge(p));
    LeastDepthIsDistance(p, s, v, d);
  }

  // ----- Termination of the evaluation -----

  lemma KeysOfTrailInTable(p: Problem, ws: seq<Row>)
    requires p.WellPosed() && Trail(p, ws)
    ensures |ws| <= |p.db.main|
  {
    var vs := set i | 0 <= i < |p.db.main| :: p.Key(p.db.main[i]);
    TrailKeys(p, ws);
    forall i | 0 <= i < |ws| ensures Keys(p, ws)[i] in vs {
      var j :| 0 <= j < |p.db.main| && p.db.main[j] == ws[i];
      assert p.Key(p.db.main[j]) in vs;
    }
    SimpleIsShort(Keys(p, ws), vs);
    ImageIsSmall(p, |p.db.main|);
    assert vs == Image(p, |p.db.main|);
  }

  ghost function Image(p: Problem, n: nat): set<Value>
    requires n <= |p.db.main|
  {
    set i | 0 <= i < n :: p.Key(p.db.main[i])
  }

  lemma {:induction false} ImageIsSmall(p: Problem, n: nat)
    requires n <= |p.db.main|
    ensures |Image(p, n)| <= n
  {
    if n == 0 {
      assert Image(p, n) == {};
    } else {
      ImageIsSmall(p, n - 1);
      assert Image(p, n) == Image(p, n - 1) + {p.Key(p.db.main[n - 1])};
    }
  }

  /** No round after the cap, and none after as many rounds as the table has rows. */
  lemma LevelsRunDry(p: Problem, n: nat)
    requires p.WellPosed() && (n > p.Cap() || n >= |p.db.main|)
    ensures p.Execute().Level(n) == []
  {
    if p.Execute().Level(n) != [] {
      var r := p.Execute().Level(n)[0];
      LevelIsTrails(p, n, r);
      var ws :| |ws| == n + 1 && Trail(p, ws) && r == RowOf(p, ws);
      KeysOfTrailInTable(p, ws);
    }
  }

  lemma {:induction false} UpToIsStable(x: Execution, n: nat, m: nat)
    requires n <= m && x.Level(n) == []
    ensures x.Level(m) == [] && x.UpTo(m) == if n == 0 then [] else x.UpTo(n - 1)
  {
    if n < m {
      UpToIsStable(x, n, m - 1);
      assert x.Level(m) == x.Step([]);
    }
  }

  ghost function RoundBound(p: Problem): nat {
    if p.Cap() + 1 < |p.db.main| then p.Cap() + 1 else |p.db.main|
  }

  lemma RoundsAreBounded(p: Problem, x: Execution)
    requires p.WellPosed() && x == p.Execute()
    ensures forall n: nat :: x.Level(n) != [] ==> n < RoundBound(p)
  {
    forall n: nat | x.Level(n) != [] ensures n < RoundBound(p) {
      if n >= RoundBound(p) {
        LevelsRunDry(p, n);
      }
    }
  }

  /** Stopping at an empty level loses nothing. */
  lemma StoppedIsComplete(x: Execution, rounds: nat, cap: nat)
    requires x.Level(rounds) == [] && rounds <= cap + 1
    ensures x.UpTo(cap) == if rounds == 0 then [] else x.UpTo(rounds - 1)
  {
    if rounds <= cap {
      UpToIsStable(x, rounds, cap);
    }
  }

  /** The iteration of section 7.8.2: evaluate the non-recursive term, then feed the working table
      to the recursive term until nothing is left. */
  method Iterate(x: Execution, ghost bound: nat) returns (rs: seq<CteRow>, ghost rounds: nat)
    requires forall n: nat :: x.Level(n) != [] ==> n < bound
    ensures rounds <= bound && x.Level(rounds) == []
    ensures rs == if rounds == 0 then [] else x.UpTo(rounds - 1)
  {
    hide Execution.BaseFrom, Execution.Step;
    var working := x.BaseFrom(x.db.main);
    rs := [];
    rounds := 0;
    while working != []
      invariant working == x.Level(rounds) && rounds <= bound
      invariant rs == if rounds == 0 then [] else x.UpTo(rounds - 1)
      decreases bound - rounds
    {
      rs := rs + working;
      working := x.Step(working);
      rounds := rounds + 1;
    }
  }

  /** It stops on every graph, cyclic ones included, after no more rounds than the cap allows or
      the table has rows, and yields the levels up to the cap. */
  method EvaluateCte(p: Problem) returns (rs: seq<CteRow>, ghost rounds: nat)
    requires p.WellPosed()
    ensures rs == p.Execute().UpTo(p.Cap())
    ensures rounds <= p.Cap() + 1 && rounds <= |p.db.main|
  {
    var x := p.Execute();
    RoundsAreBounded(p, x);
    rs, rounds := Iterate(x, RoundBound(p));
    StoppedIsComplete(x, rounds, p.Cap());
  }
}
