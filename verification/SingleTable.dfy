/** Single-table recursion meets no node twice, so its plain SELECT needs no deduplication. */
module SingleTable {
  import opened Sql
  import opened Graph
  import opened RecursiveQuery
  import opened RecursiveArms
  import opened Recursion

  ghost predicate IsSingle(p: Problem) { p.WellPosed() && Keyed(p) && p.req.rec.viaTable == "" }

  lemma TrailEdge(p: Problem, ws: seq<Row>, i: nat)
    requires p.WellPosed() && Trail(p, ws) && i + 1 < |ws|
    ensures p.StepsTo(ws[i], ws[i + 1])
  {
    assert Edge(p)(ws[i], ws[i + 1]);
  }

  /** Downwards every row has one parent: trails to the same node agree from their ends. */
  lemma {:induction false} DownTrailsAgree(p: Problem, ws: seq<Row>, zs: seq<Row>, k: nat)
    requires IsSingle(p) && !p.req.rec.recurseUp && Trail(p, ws) && Trail(p, zs) && Last(ws) == Last(zs)
    requires k < |ws| && k < |zs|
    ensures ws[|ws| - 1 - k] == zs[|zs| - 1 - k]
  {
    if k > 0 {
      DownTrailsAgree(p, ws, zs, k - 1);
      var u, u' := ws[|ws| - 1 - k], zs[|zs| - 1 - k];
      TrailEdge(p, ws, |ws| - 1 - k);
      TrailEdge(p, zs, |zs| - 1 - k);
      TrailKeys(p, ws);
      TrailKeys(p, zs);
      SameKey(p, u, u');
    }
  }

  /** Upwards every row points at one row: trails from the seed agree from their starts. */
  lemma {:induction false} UpTrailsAgree(p: Problem, ws: seq<Row>, zs: seq<Row>, k: nat)
    requires IsSingle(p) && p.req.rec.recurseUp && Trail(p, ws) && Trail(p, zs) && k < |ws| && k < |zs|
    ensures ws[k] == zs[k]
  {
    TrailKeys(p, ws);
    TrailKeys(p, zs);
    if k > 0 {
      UpTrailsAgree(p, ws, zs, k - 1);
      TrailEdge(p, ws, k - 1);
      TrailEdge(p, zs, k - 1);
    }
    SameKey(p, ws[k], zs[k]);
  }

  /** A node has one trail. */
  lemma OneTrail(p: Problem, ws: seq<Row>, zs: seq<Row>)
    requires IsSingle(p) && Trail(p, ws) && Trail(p, zs) && p.Key(Last(ws)) == p.Key(Last(zs))
    ensures ws == zs
    decreases |ws| > |zs|
  {
    TrailKeys(p, ws);
    TrailKeys(p, zs);
    SameKey(p, Last(ws), Last(zs));
    if |ws| > |zs| {
      OneTrail(p, zs, ws);
    } else {
      var n, m := |ws|, |zs|;
      if p.req.rec.recurseUp {
        UpTrailsAgree(p, ws, zs, n - 1);
        assert Keys(p, zs)[n - 1] == Keys(p, zs)[m - 1];
        forall k | 0 <= k < n ensures ws[k] == zs[k] {
          UpTrailsAgree(p, ws, zs, k);
        }
      } else {
        DownTrailsAgree(p, ws, zs, n - 1);
        assert Keys(p, zs)[m - n] == Keys(p, zs)[0];
        forall k | 0 <= k < n ensures ws[k] == zs[k] {
          DownTrailsAgree(p, ws, zs, n - 1 - k);
        }
      }
    }
  }

  /** No two entries, at whatever positions, are about the same node. */
  ghost predicate NodesDistinct(p: Problem, rs: seq<CteRow>) {
    forall i, j :: 0 <= i < j < |rs| ==> p.Key(rs[i].row) != p.Key(rs[j].row)
  }

  lemma DistinctTail(p: Problem, rs: seq<CteRow>)
    requires NodesDistinct(p, rs) && rs != []
    ensures NodesDistinct(p, rs[1..])
  {
    forall i, j | 0 <= i < j < |rs| - 1 ensures p.Key(rs[1..][i].row) != p.Key(rs[1..][j].row) {
      assert rs[1..][i] == rs[i + 1] && rs[1..][j] == rs[j + 1];
    }
  }

  lemma HeadDiffers(p: Problem, w: CteRow, rest: seq<CteRow>, v: CteRow)
    requires NodesDistinct(p, [w] + rest) && v in rest
    ensures p.Key(w.row) != p.Key(v.row)
  {
    var i :| 0 <= i < |rest| && rest[i] == v;
    assert ([w] + rest)[0] == w && ([w] + rest)[i + 1] == v;
  }

  lemma DistinctConcat(p: Problem, a: seq<CteRow>, b: seq<CteRow>)
    requires NodesDistinct(p, a) && NodesDistinct(p, b)
    requires forall r, r' :: r in a && r' in b ==> p.Key(r.row) != p.Key(r'.row)
    ensures NodesDistinct(p, a + b)
  {
    var c := a + b;
    forall i, j | 0 <= i < j < |c| ensures p.Key(c[i].row) != p.Key(c[j].row) {
      if i < |a| <= j {
        assert c[i] in a && c[j] in b;
      }
    }
  }

  /** Rows at different positions carry different keys, unless both are NULL. */
  ghost predicate RowsKeyed(p: Problem, rows: seq<Row>) {
    forall i, j :: 0 <= i < j < |rows| && p.Key(rows[i]) != Null ==> p.Key(rows[i]) != p.Key(rows[j])
  }

  lemma {:induction false} BaseDistinct(p: Problem, rows: seq<Row>)
    requires IsSingle(p) && RowsKeyed(p, rows)
    ensures NodesDistinct(p, p.Execute().BaseFrom(rows))
  {
    var x := p.Execute();
    if rows != [] {
      BaseDistinct(p, rows[1..]);
      var first := if Keeps(x.q.base, x.BaseEnv(rows[0])) then [CteRow(rows[0], 0, [x.Key(rows[0])])] else [];
      forall r, r' | r in first && r' in x.BaseFrom(rows[1..]) ensures p.Key(r.row) != p.Key(r'.row) {
        BaseTest(p, rows[0]);
        InBase(x, rows[1..], r');
        var i :| 0 <= i < |rows[1..]| && rows[1..][i] == r'.row;
        assert rows[1 + i] == r'.row;
      }
      DistinctConcat(p, first, x.BaseFrom(rows[1..]));
    }
  }

  /** From one working row, different table rows give different nodes. */
  lemma {:induction false} StepRowsDistinct(p: Problem, ws: seq<Row>, rows: seq<Row>)
    requires IsSingle(p) && Trail(p, ws) && RowsKeyed(p, rows) && forall row :: row in rows ==> row in p.db.main
    ensures NodesDistinct(p, p.Execute().StepRows(RowOf(p, ws), rows))
  {
    var x, w := p.Execute(), RowOf(p, ws);
    if rows != [] {
      StepRowsDistinct(p, ws, rows[1..]);
      var first := x.StepEdges(w, rows[0], x.Edges());
      assert x.Edges()[1..] == [];
      assert x.StepEdges(w, rows[0], x.Edges()[1..]) == [];
      assert |first| <= 1;
      forall r, r' | r in first && r' in x.StepRows(w, rows[1..]) ensures p.Key(r.row) != p.Key(r'.row) {
        InStepEdges(x, w, rows[0], x.Edges(), r);
        AdmitsIsStep(p, ws, rows[0]);
        InStepRows(x, w, rows[1..], r');
        var i :| 0 <= i < |rows[1..]| && rows[1..][i] == r'.row;
        assert rows[1 + i] == r'.row;
      }
      DistinctConcat(p, first, x.StepRows(w, rows[1..]));
    }
  }

  lemma SameNodeSameRow(p: Problem, n: nat, r: CteRow, m: nat, r': CteRow)
    requires IsSingle(p) && IsTrailRow(p, n, r) && IsTrailRow(p, m, r') && p.Key(r.row) == p.Key(r'.row)
    ensures r == r' && n == m
  {
    var ws :| |ws| == n + 1 && Trail(p, ws) && r == RowOf(p, ws);
    var zs :| |zs| == m + 1 && Trail(p, zs) && r' == RowOf(p, zs);
    OneTrail(p, ws, zs);
  }

  lemma {:induction false} StepDistinct(p: Problem, n: nat, working: seq<CteRow>)
    requires IsSingle(p) && NodesDistinct(p, working) && forall w :: w in working ==> IsTrailRow(p, n, w)
    ensures NodesDistinct(p, p.Execute().Step(working))
  {
    hide NodesDistinct, Problem.Key, Execution.StepRows;
    var x := p.Execute();
    if working != [] {
      var w, rest := working[0], working[1..];
      assert working == [w] + rest && w in working;
      DistinctTail(p, working);
      var ws :| |ws| == n + 1 && Trail(p, ws) && w == RowOf(p, ws);
      StepRowsDistinct(p, ws, p.db.main);
      StepDistinct(p, n, rest);
      forall r, r' | r in x.StepRows(w, p.db.main) && r' in x.Step(rest) ensures p.Key(r.row) != p.Key(r'.row) {
        NoSharedNode(p, n, w, rest, r, r');
      }
      DistinctConcat(p, x.StepRows(w, p.db.main), x.Step(rest));
    }
  }

  /** The working row that a new row was found from. */
  lemma Origin(p: Problem, working: seq<CteRow>, r: CteRow) returns (w: CteRow)
    requires p.WellPosed() && r in p.Execute().Step(working)
    ensures w in working && r.path == w.path + [p.Key(r.row)]
  {
    var x := p.Execute();
    InStep(x, working, r);
    var v, e;
    w, v, e :| w in working && v in x.db.main && e in x.Edges() && x.Admits(w, v, e) && r == x.Next(w, v);
  }

  lemma LastOfPath(p: Problem, n: nat, w: CteRow)
    requires p.WellPosed() && IsTrailRow(p, n, w)
    ensures w.path != [] && Last(w.path) == p.Key(w.row)
  {
  }

  lemma OneRowStep(p: Problem, w: CteRow)
    requires p.WellPosed()
    ensures p.Execute().Step([w]) == p.Execute().StepRows(w, p.db.main)
  {
    assert [w][1..] == [];
    assert p.Execute().Step([w][1..]) == [];
  }

  /** Different working rows lead to different nodes. */
  lemma NoSharedNode(p: Problem, n: nat, w: CteRow, rest: seq<CteRow>, r: CteRow, r': CteRow)
    requires IsSingle(p) && NodesDistinct(p, [w] + rest) && IsTrailRow(p, n, w)
    requires forall v :: v in rest ==> IsTrailRow(p, n, v)
    requires r in p.Execute().StepRows(w, p.db.main) && r' in p.Execute().Step(rest)
    ensures p.Key(r.row) != p.Key(r'.row)
  {
    hide IsTrailRow, NodesDistinct, Execution.Step, Execution.StepRows, Problem.Key;
    OneRowStep(p, w);
    var o := CameFrom(p, n, [w], r);
    var o' := CameFrom(p, n, rest, r');
    HeadDiffers(p, w, rest, o');
    if p.Key(r.row) == p.Key(r'.row) {
      SameNodeSameRow(p, n + 1, r, n + 1, r');
    }
  }

  /** The working row a new row continues can be read off its path. */
  lemma CameFrom(p: Problem, n: nat, working: seq<CteRow>, r: CteRow) returns (w: CteRow)
    requires p.WellPosed() && r in p.Execute().Step(working) && forall v :: v in working ==> IsTrailRow(p, n, v)
    ensures w in working && IsTrailRow(p, n + 1, r)
    ensures |r.path| >= 2 && r.path[|r.path| - 2] == p.Key(w.row)
  {
    hide IsTrailRow, Execution.Step, Problem.Key;
    StepYieldsTrail(p, n, working, r);
    w := Origin(p, working, r);
    LastOfPath(p, n, w);
  }

  lemma {:induction false} LevelDistinct(p: Problem, n: nat)
    requires IsSingle(p)
    ensures NodesDistinct(p, p.Execute().Level(n))
  {
    if n == 0 {
      BaseDistinct(p, p.db.main);
    } else {
      LevelDistinct(p, n - 1);
      var working := p.Execute().Level(n - 1);
      forall w | w in working ensures IsTrailRow(p, n - 1, w) {
        LevelIsTrails(p, n - 1, w);
      }
      StepDistinct(p, n - 1, working);
    }
  }

  lemma LevelsAreDisjoint(p: Problem, n: nat, r: CteRow, r': CteRow)
    requires IsSingle(p) && n > 0 && r in p.Execute().UpTo(n - 1) && r' in p.Execute().Level(n)
    ensures p.Key(r.row) != p.Key(r'.row)
  {
    hide IsTrailRow, Execution.UpTo, Execution.Step, Execution.BaseFrom;
    InUpTo(p.Execute(), n - 1, r);
    var k: nat :| k <= n - 1 && IsOnLevel(p.Execute(), k, r);
    LevelIsTrails(p, k, r);
    LevelIsTrails(p, n, r');
    if p.Key(r.row) == p.Key(r'.row) {
      SameNodeSameRow(p, k, r, n, r');
    }
  }

  /** Main theorem: in single-table recursion, down or up and whatever cycles there are, no node
      appears twice in the CTE. */
  lemma {:induction false} SingleTableHasNoDuplicates(p: Problem, n: nat)
    requires IsSingle(p)
    ensures NodesDistinct(p, p.Execute().UpTo(n))
  {
    hide NodesDistinct, Problem.Key, Execution.Level;
    var x := p.Execute();
    LevelDistinct(p, n);
    if n > 0 {
      SingleTableHasNoDuplicates(p, n - 1);
      var before, level := x.UpTo(n - 1), x.Level(n);
      forall r, r' | r in before && r' in level ensures p.Key(r.row) != p.Key(r'.row) {
        LevelsAreDisjoint(p, n, r, r');
      }
      DistinctConcat(p, before, level);
    }
  }
}
