/** The rows that come out: of the two ways in which via removes duplicates, DISTINCT ON the node with
    its least depth and SELECT DISTINCT over whatever columns were selected, and of the plain SELECT of
    a single table, which has none to remove. */
module Deduplication {
  import opened Sql
  import opened Filters
  import opened Graph
  import opened RecursiveQuery
  import opened RecursiveArms
  import opened Recursion
  import opened RecursiveResults
  import SingleTable

  ghost predicate Asks(p: Problem, filter: Option<Node>, s: Row) {
    p.WellPosed() && Keyed(p) && p.IsSeed(s) && HasResultFilter(p, filter)
  }

  ghost function WantedNodes(p: Problem, filter: Option<Node>, s: Row): (nodes: set<Row>)
    requires Asks(p, filter, s)
  {
    set v | v in p.db.main && Wanted(p, filter, s, v)
  }

  lemma WantedIsRow(p: Problem, filter: Option<Node>, s: Row, v: Row)
    requires Asks(p, filter, s)
    ensures v in WantedNodes(p, filter, s) <==> Wanted(p, filter, s, v)
    ensures Wanted(p, filter, s, v) ==> v in p.db.main && p.Key(v) != Null
  {
    if Wanted(p, filter, s, v) {
      var ws :| Joins(ws, s, v, Edge(p));
      WalkRows(p, s, ws);
    }
  }

  // ----- SELECT DISTINCT -----

  /** The projection of a node, when the select list has real columns only. */
  function ProjectNode(names: seq<string>, v: Row): OutRow {
    OutRow(seq(|names|, i requires 0 <= i < |names| => Cell(v, names[i])), None)
  }

  lemma ProjectsNode(names: seq<string>, r: CteRow)
    requires DEPTH !in names
    ensures Project(Columns(names), r) == ProjectNode(names, r.row)
  {
    assert Project(Columns(names), r).cells == ProjectNode(names, r.row).cells;
  }

  lemma WantedIsProjected(p: Problem, filter: Option<Node>, s: Row, names: seq<string>, v: Row)
    requires Asks(p, filter, s) && DEPTH !in names && Wanted(p, filter, s, v)
    ensures ProjectNode(names, v) in ProjectAll(Columns(names), Kept(p))
  {
    hide Project;
    KeptNodesAreWanted(p, filter, s, v);
    var i :| 0 <= i < |Kept(p)| && Kept(p)[i].row == v;
    ProjectsNode(names, Kept(p)[i]);
    assert ProjectAll(Columns(names), Kept(p))[i] == ProjectNode(names, v);
  }

  lemma ProjectedIsWanted(p: Problem, filter: Option<Node>, s: Row, names: seq<string>, o: OutRow) returns (v: Row)
    requires Asks(p, filter, s) && DEPTH !in names && o in ProjectAll(Columns(names), Kept(p))
    ensures Wanted(p, filter, s, v) && o == ProjectNode(names, v)
  {
    hide Project;
    var i :| 0 <= i < |Kept(p)| && ProjectAll(Columns(names), Kept(p))[i] == o;
    v := Kept(p)[i].row;
    ProjectsNode(names, Kept(p)[i]);
    KeptNodesAreWanted(p, filter, s, v);
  }

  /** A result of via without the depth, for an explicit list of real columns. */
  ghost predicate IsDistinctResult(p: Problem, names: seq<string>, out: seq<OutRow>)
    requires p.WellPosed()
  {
    && p.Execute().q.mode == Distinct && p.Execute().q.projection == Columns(names) && DEPTH !in names
    && IsResult(p.Execute(), p.Execute().UpTo(p.Cap()), out)
  }

  /** The rows returned are the projections of the wanted nodes, each once. */
  lemma DistinctIsImage(p: Problem, filter: Option<Node>, s: Row, names: seq<string>, out: seq<OutRow>)
    requires Asks(p, filter, s) && IsDistinctResult(p, names, out)
    ensures NoDuplicates(out)
    ensures (set o | o in out) == set v | v in WantedNodes(p, filter, s) :: ProjectNode(names, v)
  {
    hide Wanted, HasResultFilter, ProjectNode, Project;
    assert forall o :: o in out <==> o in ProjectAll(Columns(names), Kept(p));
    forall v | v in WantedNodes(p, filter, s) ensures ProjectNode(names, v) in out {
      WantedIsRow(p, filter, s, v);
      WantedIsProjected(p, filter, s, names, v);
    }
    forall o | o in out ensures exists v :: v in WantedNodes(p, filter, s) && o == ProjectNode(names, v) {
      var v := ProjectedIsWanted(p, filter, s, names, o);
      WantedIsRow(p, filter, s, v);
    }
  }

  ghost predicate TellsApart(names: seq<string>, nodes: set<Row>) {
    forall v, w :: v in nodes && w in nodes && ProjectNode(names, v) == ProjectNode(names, w) ==> v == w
  }

  /** An image is as large as the set exactly when no two elements have one image. */
  lemma {:induction false} ImageSize(names: seq<string>, nodes: set<Row>)
    ensures var image := set v | v in nodes :: ProjectNode(names, v);
      |image| <= |nodes| && (|image| == |nodes| <==> TellsApart(names, nodes))
    decreases nodes
  {
    hide ProjectNode;
    var image := set v | v in nodes :: ProjectNode(names, v);
    if nodes == {} {
      assert image == {};
    } else {
      var v :| v in nodes;
      var rest := nodes - {v};
      var image' := set w | w in rest :: ProjectNode(names, w);
      ImageSize(names, rest);
      assert image == image' + {ProjectNode(names, v)};
      if ProjectNode(names, v) in image' {
        var w :| w in rest && ProjectNode(names, w) == ProjectNode(names, v);
        assert image == image' && !TellsApart(names, nodes);
      } else {
        assert TellsApart(names, nodes) <==> TellsApart(names, rest);
      }
    }
  }

  lemma {:induction false} SizeOfDistinct<T>(q: seq<T>)
    requires NoDuplicates(q)
    ensures |set x | x in q| == |q|
  {
    if q == [] {
      assert (set x | x in q) == {};
    } else {
      var n := |q| - 1;
      SizeOfDistinct(q[..n]);
      assert q == q[..n] + [q[n]];
      assert (set x | x in q) == (set x | x in q[..n]) + {q[n]};
    }
  }

  /** Main result: for whatever columns are selected, via without the depth returns one row for each
      wanted node if and only if the columns tell the wanted nodes apart; otherwise fewer. */
  lemma DistinctCountsNodesExactly(p: Problem, filter: Option<Node>, s: Row, names: seq<string>, out: seq<OutRow>)
    requires Asks(p, filter, s) && IsDistinctResult(p, names, out)
    ensures |out| <= |WantedNodes(p, filter, s)|
    ensures |out| == |WantedNodes(p, filter, s)| <==> TellsApart(names, WantedNodes(p, filter, s))
  {
    hide Asks, IsDistinctResult, ProjectNode, TellsApart;
    DistinctIsImage(p, filter, s, names, out);
    SizeOfDistinct(out);
    ImageSize(names, WantedNodes(p, filter, s));
  }

  /** The key tells nodes apart. */
  lemma KeyTellsApart(p: Problem, filter: Option<Node>, s: Row, names: seq<string>)
    requires Asks(p, filter, s) && p.req.rec.startField in names
    ensures TellsApart(names, WantedNodes(p, filter, s))
  {
    hide Wanted, HasResultFilter;
    var i :| 0 <= i < |names| && names[i] == p.req.rec.startField;
    forall v, w | v in WantedNodes(p, filter, s) && w in WantedNodes(p, filter, s) && ProjectNode(names, v) == ProjectNode(names, w)
      ensures v == w
    {
      WantedIsRow(p, filter, s, v);
      WantedIsRow(p, filter, s, w);
      assert ProjectNode(names, v).cells[i] == p.Key(v) && ProjectNode(names, w).cells[i] == p.Key(w);
      SameKey(p, v, w);
    }
  }

  /** So with the key selected each wanted node comes out exactly once. */
  lemma DistinctReturnsEachNodeOnce(p: Problem, filter: Option<Node>, s: Row, names: seq<string>, out: seq<OutRow>)
    requires Asks(p, filter, s) && IsDistinctResult(p, names, out) && p.req.rec.startField in names
    ensures NoDuplicates(out) && |out| == |WantedNodes(p, filter, s)|
    ensures (set o | o in out) == set v | v in WantedNodes(p, filter, s) :: ProjectNode(names, v)
  {
    hide Asks, IsDistinctResult, ProjectNode, TellsApart;
    DistinctIsImage(p, filter, s, names, out);
    KeyTellsApart(p, filter, s, names);
    DistinctCountsNodesExactly(p, filter, s, names, out);
  }

  // ----- Two nodes of one name -----

  function Named(id: string, name: string): Row { map["id" := Str(id), "name" := Str(name)] }
  function Link(from: string, to: string): Row { map["src" := Str(from), "dst" := Str(to)] }

  /** s leads to a and to b, which have the same name, and only names are selected. */
  function Namesakes(cap: nat): Problem {
    Problem(Request("node", RecursiveInfo("id", "s", "id", -1, false, false, "edge", "src", "dst", false, None, None),
                    None, Some(["name"]), [], None, [], false, None, None, false, -1, -1),
            Some(cap), [], Db([Named("s", "x"), Named("a", "y"), Named("b", "y")], [Link("s", "a"), Link("s", "b")]),
            (c: Comparison) => Unknown)
  }

  lemma NamesakesAreAsked(cap: nat)
    requires cap > 0
    ensures Asks(Namesakes(cap), None, Named("s", "x")) && Namesakes(cap).Cap() == cap
    ensures Namesakes(cap).Execute().q.mode == Distinct && Namesakes(cap).Execute().q.projection == Columns(["name"])
  {
    hide Emit;
    var p := Namesakes(cap);
    assert p.db.main[0] == Named("s", "x") && p.db.main[1] == Named("a", "y") && p.db.main[2] == Named("b", "y");
    assert "s" != "a" && "s" != "b" && "a" != "b";
    NamesakesAreEmitted(cap);
  }

  lemma NamesakesAreEmitted(cap: nat)
    requires cap > 0
    ensures var p := Namesakes(cap);
      && p.WellPosed() && p.Cap() == cap && p.Execute().q.mode == Distinct && p.Execute().q.projection == Columns(["name"])
  {
  }

  lemma NamesakeIsLinked(cap: nat, i: nat, id: string)
    requires i < 2 && id == (if i == 0 then "a" else "b") && Namesakes(cap).WellPosed()
    ensures Edge(Namesakes(cap))(Named("s", "x"), Named(id, "y"))
  {
    hide Emit, Problem.WellPosed;
    var p, s, v := Namesakes(cap), Named("s", "x"), Named(id, "y");
    assert v == p.db.main[i + 1] && p.db.edges[i] == Link("s", id);
    assert p.EdgeOk(p.db.edges[i]) && p.Leads(s, p.db.edges[i], v);
  }

  lemma NeighbourIsWanted(p: Problem, s: Row, v: Row)
    requires Asks(p, None, s) && Edge(p)(s, v) && p.Cap() >= 1 && !p.req.rec.excludeStart
    ensures Wanted(p, None, s, v)
  {
    hide Edge, Problem.WellPosed, HasResultFilter, Keyed, Problem.IsSeed;
    assert Joins([s, v], s, v, Edge(p));
  }

  lemma NamesakeIsWanted(cap: nat, i: nat, id: string)
    requires cap > 0 && i < 2 && id == (if i == 0 then "a" else "b")
    ensures Asks(Namesakes(cap), None, Named("s", "x")) && Wanted(Namesakes(cap), None, Named("s", "x"), Named(id, "y"))
  {
    hide Wanted, Edge, HasResultFilter, Keyed, Problem.IsSeed, Problem.WellPosed;
    NamesakesAreAsked(cap);
    NamesakeIsLinked(cap, i, id);
    NeighbourIsWanted(Namesakes(cap), Named("s", "x"), Named(id, "y"));
  }

  /** A finding: without the key a node can be lost. Of the two namesakes one row is returned. */
  lemma NamesakesLoseANode(cap: nat, out: seq<OutRow>)
    requires cap > 0 && Namesakes(cap).WellPosed() && IsDistinctResult(Namesakes(cap), ["name"], out)
    ensures Asks(Namesakes(cap), None, Named("s", "x"))
    ensures |out| < |WantedNodes(Namesakes(cap), None, Named("s", "x"))|
  {
    hide Asks, Wanted, IsDistinctResult, IsResult, Emit;
    var p, s, a, b := Namesakes(cap), Named("s", "x"), Named("a", "y"), Named("b", "y");
    NamesakesAreAsked(cap);
    NamesakeIsWanted(cap, 0, "a");
    NamesakeIsWanted(cap, 1, "b");
    WantedIsRow(p, None, s, a);
    WantedIsRow(p, None, s, b);
    assert a["id"] != b["id"] && ProjectNode(["name"], a).cells == ProjectNode(["name"], b).cells;
    DistinctCountsNodesExactly(p, None, s, ["name"], out);
  }

  // ----- DISTINCT ON -----

  /** A result row: the columns of v, and d for the depth. */
  function ProjectAt(names: seq<string>, v: Row, d: nat): OutRow {
    OutRow(seq(|names|, i requires 0 <= i < |names| => if names[i] == DEPTH then Num(d) else Cell(v, names[i])), None)
  }

  lemma ProjectsAt(names: seq<string>, r: CteRow)
    ensures Project(Columns(names), r) == ProjectAt(names, r.row, r.depth)
  {
    assert Project(Columns(names), r).cells == ProjectAt(names, r.row, r.depth).cells;
  }

  /** CTE rows that are one for each wanted node, at its distance from the seed. */
  ghost predicate ShowsEachNodeOnce(p: Problem, filter: Option<Node>, s: Row, rows: seq<CteRow>)
    requires Asks(p, filter, s)
  {
    && (forall i, j :: 0 <= i < j < |rows| ==> rows[i].row != rows[j].row)
    && (forall v :: (exists r :: r in rows && r.row == v) <==> Wanted(p, filter, s, v))
    && (forall r :: r in rows ==> IsDistance(s, r.row, r.depth, Edge(p)))
  }

  /** Main result: when `__depth` is selected or ordered by in via mode, the result has one row for
      each wanted node, at its distance from the seed, whatever is projected. */
  lemma DistinctOnShowsEachNodeOnce(p: Problem, filter: Option<Node>, s: Row, out: seq<OutRow>) returns (rows: seq<CteRow>)
    requires Asks(p, filter, s) && p.req.rec.viaTable != "" && (DepthSelected(p.req) || DEPTH in p.req.orderNames)
    requires IsResult(p.Execute(), p.Execute().UpTo(p.Cap()), out)
    ensures ShowsEachNodeOnce(p, filter, s, rows)
    ensures out == ProjectAll(p.Execute().q.projection, rows)
  {
    hide Wanted, HasResultFilter, IsDistance, Project, IsDistinctOn, Kept, Keyed;
    DistinctOnExactlyWithDepth(p);
    rows := ChosenRows(p, out);
    DistinctOnReportsDistances(p, filter, s, rows);
  }

  lemma ChosenRows(p: Problem, out: seq<OutRow>) returns (chosen: seq<CteRow>)
    requires p.WellPosed() && p.Execute().q.mode == DistinctOnNode
    requires IsResult(p.Execute(), p.Execute().UpTo(p.Cap()), out)
    ensures IsDistinctOn(p.Execute(), Kept(p), chosen) && out == ProjectAll(p.Execute().q.projection, chosen)
  {
    hide IsDistinctOn;
    chosen :| IsDistinctOn(p.Execute(), Kept(p), chosen) && out == ProjectAll(p.Execute().q.projection, chosen);
  }

  /** So in a list of columns the cell of `__depth` is the distance of the node. */
  lemma ResultRowsReportDistances(p: Problem, filter: Option<Node>, s: Row, names: seq<string>, out: seq<OutRow>)
    returns (rows: seq<CteRow>)
    requires Asks(p, filter, s) && p.req.rec.viaTable != "" && (DepthSelected(p.req) || DEPTH in p.req.orderNames)
    requires p.Execute().q.projection == Columns(names) && IsResult(p.Execute(), p.Execute().UpTo(p.Cap()), out)
    ensures DEPTH in names && ShowsEachNodeOnce(p, filter, s, rows)
    ensures |out| == |rows| && forall i :: 0 <= i < |out| ==> out[i] == ProjectAt(names, rows[i].row, rows[i].depth)
  {
    hide HasResultFilter, ShowsEachNodeOnce, IsResult, Project, ProjectAt, Problem.Execute;
    DepthIsAmong(p, names);
    rows := DistinctOnShowsEachNodeOnce(p, filter, s, out);
    forall i | 0 <= i < |rows| ensures out[i] == ProjectAt(names, rows[i].row, rows[i].depth) {
      ProjectsAt(names, rows[i]);
    }
  }

  lemma DepthIsAmong(p: Problem, names: seq<string>)
    requires p.WellPosed() && p.req.rec.viaTable != "" && (DepthSelected(p.req) || DEPTH in p.req.orderNames)
    requires p.Execute().q.projection == Columns(names)
    ensures DEPTH in names
  {
    DistinctOnExactlyWithDepth(p);
  }

  /** And `*` on an uncached table shows the node with its distance, if it is ordered by the depth. */
  lemma RawRowsReportDistances(p: Problem, filter: Option<Node>, s: Row, out: seq<OutRow>) returns (rows: seq<CteRow>)
    requires Asks(p, filter, s) && p.req.rec.viaTable != "" && DEPTH in p.req.orderNames
    requires p.req.selectNames.None? && p.req.cachedColumns.None?
    requires IsResult(p.Execute(), p.Execute().UpTo(p.Cap()), out)
    ensures ShowsEachNodeOnce(p, filter, s, rows)
    ensures |out| == |rows| && forall i :: 0 <= i < |out| ==> out[i] == OutRow([], Some(rows[i]))
  {
    hide HasResultFilter, ShowsEachNodeOnce, IsResult;
    rows := DistinctOnShowsEachNodeOnce(p, filter, s, out);
  }

  // ----- The plain SELECT of a single table -----

  lemma {:induction false} SelectedAreDistinct(p: Problem, rs: seq<CteRow>)
    requires p.WellPosed() && SingleTable.NodesDistinct(p, rs)
    ensures SingleTable.NodesDistinct(p, SelectedRows(p.Execute(), rs))
  {
    hide SingleTable.NodesDistinct, Selected, Problem.Key, Problem.Execute;
    var x := p.Execute();
    if rs == [] {
    } else {
      var first := if Selected(x, rs[0]) then [rs[0]] else [];
      assert rs == [rs[0]] + rs[1..];
      SingleTable.DistinctTail(p, rs);
      SelectedAreDistinct(p, rs[1..]);
      forall r, r' | r in first && r' in SelectedRows(x, rs[1..]) ensures p.Key(r.row) != p.Key(r'.row) {
        SingleTable.HeadDiffers(p, rs[0], rs[1..], r');
      }
      OneIsDistinct(p, first);
      SingleTable.DistinctConcat(p, first, SelectedRows(x, rs[1..]));
    }
  }

  lemma OneIsDistinct(p: Problem, rs: seq<CteRow>)
    requires |rs| <= 1
    ensures SingleTable.NodesDistinct(p, rs)
  {
  }

  /** In a CTE without two rows of one node every depth is the distance. */
  lemma OnlyDepthIsDistance(p: Problem, s: Row, r: CteRow)
    requires p.WellPosed() && Keyed(p) && p.IsSeed(s) && r in p.Execute().UpTo(p.Cap())
    requires SingleTable.NodesDistinct(p, p.Execute().UpTo(p.Cap()))
    ensures IsDistance(s, r.row, r.depth, Edge(p))
  {
    hide Keyed, Problem.IsSeed, IsDistance, Edge, Problem.Execute;
    var cte := p.Execute().UpTo(p.Cap());
    forall r' | r' in cte && r'.row == r.row ensures r' == r {
      var i :| 0 <= i < |cte| && cte[i] == r;
      var j :| 0 <= j < |cte| && cte[j] == r';
      assert i == j;
    }
    LeastDepthIsDistance(p, s, r.row, r.depth);
  }

  /** Main result: without via the plain SELECT returns one row for each wanted node, at its distance
      from the seed, whatever is projected. */
  lemma PlainShowsEachNodeOnce(p: Problem, filter: Option<Node>, s: Row, out: seq<OutRow>) returns (rows: seq<CteRow>)
    requires Asks(p, filter, s) && p.req.rec.viaTable == ""
    requires IsResult(p.Execute(), p.Execute().UpTo(p.Cap()), out)
    ensures ShowsEachNodeOnce(p, filter, s, rows)
    ensures |out| == |rows| && multiset(out) == multiset(ProjectAll(p.Execute().q.projection, rows))
  {
    hide Wanted, HasResultFilter, IsDistance, Project, Keyed, Problem.IsSeed, SingleTable.NodesDistinct;
    rows := Kept(p);
    SingleTable.SingleTableHasNoDuplicates(p, p.Cap());
    SelectedAreDistinct(p, p.Execute().UpTo(p.Cap()));
    RowsDiffer(p, rows);
    forall r | r in rows ensures IsDistance(s, r.row, r.depth, Edge(p)) {
      OnlyDepthIsDistance(p, s, r);
    }
    forall v ensures (exists r :: r in rows && r.row == v) <==> Wanted(p, filter, s, v) {
      KeptNodesAreWanted(p, filter, s, v);
    }
    assert |multiset(out)| == |multiset(ProjectAll(p.Execute().q.projection, rows))|;
  }

  lemma RowsDiffer(p: Problem, rs: seq<CteRow>)
    requires SingleTable.NodesDistinct(p, rs)
    ensures forall i, j :: 0 <= i < j < |rs| ==> rs[i].row != rs[j].row
  {
  }
}
