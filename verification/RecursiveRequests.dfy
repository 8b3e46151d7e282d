/** What a recursive request gets, in terms of the request: whether it is rejected, the bound on the
    depth in numbers, the nodes within it, and the columns that are shown. */
module RecursiveRequests {
  import opened Sql
  import opened Filters
  import opened RecursiveQuery
  import opened RecursiveArms
  import opened Graph
  import opened Recursion
  import opened RecursiveResults

  /** The first thing that the recursive term tests is the depth, against this bound. */
  lemma DepthIsBound(req: Request, configured: Option<int>, mainValues: seq<Value>) returns (m: nat, k: nat)
    requires Emittable(req.rec)
    ensures IsBound(k, req.rec.maxDepth, configured)
    ensures match Emit(req, configured, mainValues)
      case Emitted(q, values, _, _) => q.step != [] && q.step[0] == Cond(DepthBelow(Marker(m))) && 0 < m <= |values| && values[m - 1] == Num(k)
      case Rejected(_) => true
  {
    m, k := StartAt(req, mainValues) + 1, EffectiveDepth(req.rec.maxDepth, configured);
    var cte := CteValues(req, k, mainValues);
    assert cte[m - 1] == Num(k);
  }

  /** Main result: over all rounds, the rows that the outer query keeps are those of the accepted
      nodes within this bound, apart from the seed after `after`. */
  lemma ReturnedWithinBound(p: Problem, filter: Option<Node>, s: Row, v: Row, k: nat)
    requires p.WellPosed() && Keyed(p) && p.IsSeed(s) && HasResultFilter(p, filter)
    requires IsBound(k, p.req.rec.maxDepth, p.maxRecursiveDepth)
    ensures (exists r, n: nat :: IsOnLevel(p.Execute(), n, r) && Selected(p.Execute(), r) && r.row == v)
        <==> Within(s, v, k, Edge(p)) && (p.req.rec.excludeStart ==> v != s) && ResultOk(p, filter, v)
  {
    var x := p.Execute();
    assert k == p.Cap();
    KeptNodesAreWanted(p, filter, s, v);
    forall r, n: nat | IsOnLevel(x, n, r) ensures r in x.UpTo(k) {
      if n > k {
        LevelsRunDry(p, n);
      }
      InUpTo(x, k, r);
    }
    forall r | r in x.UpTo(k) ensures exists n: nat :: IsOnLevel(x, n, r) {
      InUpTo(x, k, r);
    }
  }

  /** Rejected are recursions that are switched off, embeddings beside via, and a selected __path. */
  lemma RejectedExactly(req: Request, configured: Option<int>, mainValues: seq<Value>)
    requires Emittable(req.rec)
    ensures Emit(req, configured, mainValues).Rejected?
        <==> configured == Some(0) || (req.hasJoins && req.rec.viaTable != "") || (req.selectNames.Some? && "__path" in req.selectNames.value)
  {
  }

  /** The rows that DISTINCT or DISTINCT ON leave are projections of kept rows. */
  lemma ResultIsProjected(x: Execution, rs: seq<CteRow>, out: seq<OutRow>, o: OutRow) returns (r: CteRow)
    requires IsResult(x, rs, out) && o in out
    ensures r in rs && Selected(x, r) && o == Project(x.q.projection, r)
  {
    var kept := SelectedRows(x, rs);
    var all := ProjectAll(x.q.projection, kept);
    match x.q.mode {
      case Plain =>
        assert o in multiset(out);
        assert o in all;
      case Distinct =>
        assert o in all;
      case DistinctOnNode =>
        var chosen :| IsDistinctOn(x, kept, chosen) && out == ProjectAll(x.q.projection, chosen);
        var i :| 0 <= i < |out| && out[i] == o;
        r := chosen[i];
        return;
    }
    var i :| 0 <= i < |all| && all[i] == o;
    r := kept[i];
  }

  /** Main result: each result row shows, of one reachable row, the columns in the order in which they
      are selected, and its depth where __depth is; without a list, those of the cached table. What is
      ordered by __depth without selecting it shows it behind them in via mode. */
  lemma SelectedColumnsAreShown(p: Problem, out: seq<OutRow>, o: OutRow, names: seq<string>) returns (r: CteRow)
    requires p.WellPosed() && IsResult(p.Execute(), p.Execute().UpTo(p.Cap()), out) && o in out
    requires Some(names) == if p.req.selectNames.Some? then p.req.selectNames else p.req.cachedColumns
    ensures r in p.Execute().UpTo(p.Cap()) && o.raw.None?
    ensures var extra := p.req.rec.viaTable != "" && "__depth" in p.req.orderNames && !(p.req.selectNames.Some? && "__depth" in names);
      |o.cells| == |names| + (if extra then 1 else 0) && (extra ==> o.cells[|names|] == Num(r.depth))
    ensures forall i :: 0 <= i < |names| ==> o.cells[i] == if names[i] == "__depth" then Num(r.depth) else Cell(r.row, names[i])
  {
    hide IsResult;
    r := ResultIsProjected(p.Execute(), p.Execute().UpTo(p.Cap()), out, o);
  }
}
