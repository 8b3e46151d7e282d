/** When the schema cache does not know the table, `*` stays `"__recursive".*` and shows the path
    and the depth. SELECT DISTINCT then distinguishes two ways to the same node. */
module RawProjection {
  import opened Sql
  import opened RecursiveQuery
  import opened RecursiveArms
  import opened Recursion

  /** The route is taken exactly for `*` on an uncached table, without depth in via mode. */
  lemma RawExactlyWhenUncached(req: Request)
    ensures ProjectionOf(req) == RawStar <==> req.selectNames.None? && req.cachedColumns.None?
  {
  }

  ghost predicate NodesOnce(p: Problem, out: seq<OutRow>) {
    forall i, j :: 0 <= i < j < |out| && out[i].raw.Some? && out[j].raw.Some? ==> out[i].raw.value.row != out[j].raw.value.row
  }

  /** Within one step there is one way to a node, so nothing is repeated. */
  lemma OneStepRepeatsNothing(p: Problem, s: Row, out: seq<OutRow>)
    requires p.WellPosed() && Keyed(p) && p.IsSeed(s) && p.Cap() <= 1
    requires p.Execute().q.mode == Distinct && p.req.selectNames.None? && p.req.cachedColumns.None?
    requires IsResult(p.Execute(), p.Execute().UpTo(p.Cap()), out)
    ensures NodesOnce(p, out)
  {
    RawExactlyWhenUncached(p.req);
    var kept := SelectedRows(p.Execute(), p.Execute().UpTo(p.Cap()));
    forall i, j | 0 <= i < j < |out| && out[i].raw.Some? && out[j].raw.Some?
      ensures out[i].raw.value.row != out[j].raw.value.row
    {
      assert out[i] in ProjectAll(RawStar, kept) && out[j] in ProjectAll(RawStar, kept);
      var k :| 0 <= k < |kept| && out[i] == Project(RawStar, kept[k]);
      var l :| 0 <= l < |kept| && out[j] == Project(RawStar, kept[l]);
      OneWay(p, s, kept[k], kept[l]);
    }
  }

  lemma OneWay(p: Problem, s: Row, r: CteRow, r': CteRow)
    requires p.WellPosed() && Keyed(p) && p.IsSeed(s) && p.Cap() <= 1
    requires r in p.Execute().UpTo(p.Cap()) && r' in p.Execute().UpTo(p.Cap()) && r != r'
    ensures r.row != r'.row
  {
    var ws := TrailOf(p, s, r);
    var zs := TrailOf(p, s, r');
    assert |ws| == 2 ==> ws == [ws[0], ws[1]];
    assert |zs| == 2 ==> zs == [zs[0], zs[1]];
    assert |ws| == 1 ==> ws == [ws[0]];
    assert |zs| == 1 ==> zs == [zs[0]];
    assert |ws| == 2 ==> ws[0] != ws[1];
    assert |zs| == 2 ==> zs[0] != zs[1];
  }

  function NodeRow(id: string): Row { map["id" := Str(id)] }
  function EdgeRow(src: string, dst: string): Row { map["src" := Str(src), "dst" := Str(dst)] }

  /** s -> a -> b and s -> b. */
  function Triangle(cap: nat): Problem {
    Problem(Request("node", RecursiveInfo("id", "s", "id", -1, false, false, "edge", "src", "dst", false, None, None),
                    None, None, [], None, [], false, None, None, false, -1, -1),
            Some(cap), [], Db([NodeRow("s"), NodeRow("a"), NodeRow("b")], [EdgeRow("s", "a"), EdgeRow("a", "b"), EdgeRow("s", "b")]),
            (c: Comparison) => Unknown)
  }

  lemma TriangleSteps(cap: nat, i: nat, u: string, v: string)
    requires cap > 0 && i < 3 && v in {"s", "a", "b"} && Triangle(cap).db.edges[i] == EdgeRow(u, v)
    ensures Triangle(cap).WellPosed() && Edge(Triangle(cap))(NodeRow(u), NodeRow(v))
  {
    var p := Triangle(cap);
    assert NodeRow(v) in p.db.main by {
      assert p.db.main[0] == NodeRow("s") && p.db.main[1] == NodeRow("a") && p.db.main[2] == NodeRow("b");
    }
    assert p.EdgeOk(p.db.edges[i]) && p.Leads(NodeRow(u), p.db.edges[i], NodeRow(v));
  }

  lemma TriangleIsKeyed(cap: nat)
    requires cap > 0
    ensures Triangle(cap).WellPosed() && Keyed(Triangle(cap)) && Triangle(cap).IsSeed(NodeRow("s"))
    ensures Triangle(cap).Cap() == cap
    ensures Triangle(cap).Execute().q.mode == Distinct && Triangle(cap).Execute().q.projection == RawStar
    ensures Triangle(cap).Execute().q.outer == []
  {
    var p := Triangle(cap);
    assert p.db.main[0] == NodeRow("s") && p.db.main[1] == NodeRow("a") && p.db.main[2] == NodeRow("b");
    assert Repointed([], "node") == [];
    assert "s" != "a" && "s" != "b" && "a" != "b";
  }

  lemma TwoWalks(p: Problem, s: Row, a: Row, b: Row)
    requires p.WellPosed() && Keyed(p) && p.IsSeed(s) && p.Cap() >= 2 && s != a && s != b && a != b
    requires Edge(p)(s, a) && Edge(p)(a, b) && Edge(p)(s, b)
    ensures RowOf(p, [s, b]) in p.Execute().UpTo(p.Cap()) && RowOf(p, [s, a, b]) in p.Execute().UpTo(p.Cap())
  {
    CteHasWalk(p, s, [s, b]);
    CteHasWalk(p, s, [s, a, b]);
  }

  lemma TriangleWalks(cap: nat)
    requires cap >= 2
    ensures var p := Triangle(cap); var s, a, b := NodeRow("s"), NodeRow("a"), NodeRow("b");
      p.WellPosed() && RowOf(p, [s, b]) in p.Execute().UpTo(cap) && RowOf(p, [s, a, b]) in p.Execute().UpTo(cap)
  {
    hide Edge, Keyed, Problem.WellPosed, Problem.IsSeed;
    var s, a, b := NodeRow("s"), NodeRow("a"), NodeRow("b");
    TriangleIsKeyed(cap);
    TriangleSteps(cap, 0, "s", "a");
    TriangleSteps(cap, 1, "a", "b");
    TriangleSteps(cap, 2, "s", "b");
    assert s["id"] == Str("s") && a["id"] == Str("a") && b["id"] == Str("b");
    assert "s" != "a" && "s" != "b" && "a" != "b";
    TwoWalks(Triangle(cap), s, a, b);
  }

  /** From two steps on, there is data for which the node b comes out twice: the property that via
      returns each node once holds for uncached `*` exactly up to a cap of one. */
  lemma TwoStepsRepeatANode(cap: nat, out: seq<OutRow>)
    requires cap >= 2
    requires Triangle(cap).WellPosed() && IsResult(Triangle(cap).Execute(), Triangle(cap).Execute().UpTo(cap), out)
    ensures Keyed(Triangle(cap)) && Triangle(cap).IsSeed(NodeRow("s"))
    ensures !NodesOnce(Triangle(cap), out)
  {
    var p := Triangle(cap);
    var s, a, b := NodeRow("s"), NodeRow("a"), NodeRow("b");
    TriangleIsKeyed(cap);
    TriangleWalks(cap);
    var kept := SelectedRows(p.Execute(), p.Execute().UpTo(cap));
    var r, r' := RowOf(p, [s, b]), RowOf(p, [s, a, b]);
    assert r in kept && r' in kept;
    ProjectedRaw(kept, r);
    ProjectedRaw(kept, r');
    var i :| 0 <= i < |out| && out[i] == Project(RawStar, r);
    var j :| 0 <= j < |out| && out[j] == Project(RawStar, r');
    assert out[i].raw.value.row == out[j].raw.value.row && i != j;
    assert i < j || j < i;
  }

  lemma ProjectedRaw(kept: seq<CteRow>, r: CteRow)
    requires r in kept
    ensures Project(RawStar, r) in ProjectAll(RawStar, kept)
  {
    var i :| 0 <= i < |kept| && kept[i] == r;
    assert ProjectAll(RawStar, kept)[i] == Project(RawStar, r);
  }
}
