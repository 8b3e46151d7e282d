/** How the directions of recursion relate: up and down, swapped via columns, and via!both. */
module Directions {
  import opened Sql
  import opened Filters
  import opened Graph
  import opened RecursiveQuery
  import opened RecursiveArms
  import opened Recursion
  import opened RecursiveResults

  /** The edge relation between nodes, that is, table rows whose key is not NULL. */
  ghost function NodeEdge(p: Problem): (Row, Row) -> bool
    requires p.WellPosed()
  {
    (u: Row, v: Row) => u in p.db.main && p.Key(u) != Null && p.StepsTo(u, v)
  }

  ghost predicate IsNode(p: Problem, u: Row) { u in p.db.main && p.Key(u) != Null }

  lemma NodeWalks(p: Problem, s: Row, v: Row, n: nat)
    requires p.WellPosed() && IsNode(p, s)
    ensures Within(s, v, n, Edge(p)) <==> Within(s, v, n, NodeEdge(p))
  {
    if Within(s, v, n, Edge(p)) {
      var ws :| Joins(ws, s, v, Edge(p)) && |ws| <= n + 1;
      forall i | 0 <= i < |ws| - 1 ensures NodeEdge(p)(ws[i], ws[i + 1]) {
        assert Edge(p)(ws[i], ws[i + 1]);
        if i > 0 {
          assert Edge(p)(ws[i - 1], ws[i - 1 + 1]);
        }
      }
      assert Joins(ws, s, v, NodeEdge(p));
    }
    if Within(s, v, n, NodeEdge(p)) {
      var ws :| Joins(ws, s, v, NodeEdge(p)) && |ws| <= n + 1;
      forall i | 0 <= i < |ws| - 1 ensures Edge(p)(ws[i], ws[i + 1]) {
        assert NodeEdge(p)(ws[i], ws[i + 1]);
      }
      assert Joins(ws, s, v, Edge(p));
    }
  }

  /** Two problems on the same rows whose node edges are converse reach each other's seeds. */
  lemma ConverseReach(p: Problem, p': Problem, u: Row, v: Row, n: nat)
    requires p.WellPosed() && p'.WellPosed() && IsNode(p, u) && IsNode(p', v)
    requires Converse(NodeEdge(p), NodeEdge(p'))
    ensures Within(u, v, n, Edge(p)) <==> Within(v, u, n, Edge(p'))
  {
    NodeWalks(p, u, v, n);
    NodeWalks(p', v, u, n);
    WithinConverse(u, v, n, NodeEdge(p), NodeEdge(p'));
  }

  ghost predicate SameTable(p: Problem, p': Problem) {
    && p.db.main == p'.db.main && p.req.rec.startField == p'.req.rec.startField
    && p.req.table == p'.req.table && p.meaning == p'.meaning
  }

  ghost predicate NoWalkFilter(p: Problem) { p.req.rec.walkConditions.None? }

  /** v is among the nodes that the query returns. */
  ghost predicate IsReturned(p: Problem, v: Row)
    requires p.WellPosed()
  {
    exists r :: r in Kept(p) && r.row == v
  }

  /** The two queries start at u and at v, with the same cap and `after` or `start` alike, and with
      result filters of their own. */
  ghost predicate FromEitherEnd(p: Problem, p': Problem, filter: Option<Node>, filter': Option<Node>, u: Row, v: Row)
    requires p.WellPosed() && p'.WellPosed()
  {
    && Keyed(p) && p.IsSeed(u) && p'.IsSeed(v) && p.Cap() == p'.Cap() && p.req.rec.excludeStart == p'.req.rec.excludeStart
    && HasResultFilter(p, filter) && HasResultFilter(p', filter')
  }

  /** Each query returns the other's seed, if its result filter lets it. */
  ghost predicate ReturnEachOther(p: Problem, p': Problem, filter: Option<Node>, filter': Option<Node>, u: Row, v: Row)
    requires p.WellPosed() && p'.WellPosed() && FromEitherEnd(p, p', filter, filter', u, v)
  {
    && (IsReturned(p, v) && ResultOk(p', filter', u) <==> IsReturned(p', u) && ResultOk(p, filter, v))
    && (filter.None? && filter'.None? ==> (IsReturned(p, v) <==> IsReturned(p', u)))
  }

  /** If v is within reach of u here exactly when u is within reach of v there, the queries that
      start at either of them return the other one together. */
  lemma ReturnedTogether(p: Problem, p': Problem, filter: Option<Node>, filter': Option<Node>, u: Row, v: Row)
    requires p.WellPosed() && p'.WellPosed() && SameTable(p, p') && FromEitherEnd(p, p', filter, filter', u, v)
    requires Within(u, v, p.Cap(), Edge(p)) <==> Within(v, u, p.Cap(), Edge(p'))
    ensures ReturnEachOther(p, p', filter, filter', u, v)
  {
    hide Within, Edge, Kept, HasResultFilter;
    KeptNodesAreWanted(p, filter, u, v);
    assert Keyed(p');
    KeptNodesAreWanted(p', filter', v, u);
  }

  /** The same single-table recursion downward and upward, without walk filters. */
  ghost predicate IsUpOf(p: Problem, p': Problem) {
    && p.WellPosed() && p'.WellPosed() && SameTable(p, p') && NoWalkFilter(p) && NoWalkFilter(p')
    && p.req.rec.viaTable == "" && p'.req.rec.viaTable == "" && p.req.rec.recurseField == p'.req.rec.recurseField
    && !p.req.rec.recurseUp && p'.req.rec.recurseUp
  }

  /** Without walk filters, `recurse!up` walks the converse of `recurse`, at every bound. */
  lemma UpIsConverseOfDown(p: Problem, p': Problem, u: Row, v: Row, n: nat)
    requires IsUpOf(p, p') && IsNode(p, u) && IsNode(p, v)
    ensures Within(u, v, n, Edge(p)) <==> Within(v, u, n, Edge(p'))
  {
    forall a, b ensures NodeEdge(p)(a, b) <==> NodeEdge(p')(b, a) {
      assert p.LeadsByKey(a, b) <==> p'.LeadsByKey(b, a);
      assert p.Follows(a, b) <==> p'.Follows(b, a);
      assert p.WalkOk(b) && p'.WalkOk(a) && p.Key(a) == p'.Key(a) && p.Key(b) == p'.Key(b);
    }
    ConverseReach(p, p', u, v, n);
  }

  /** Main result: the query down from u returns v exactly when the query up from v returns u. */
  lemma UpReturnsTheConverse(p: Problem, p': Problem, filter: Option<Node>, filter': Option<Node>, u: Row, v: Row)
    requires IsUpOf(p, p') && FromEitherEnd(p, p', filter, filter', u, v)
    ensures ReturnEachOther(p, p', filter, filter', u, v)
  {
    hide ReturnEachOther, Within, Edge, Keyed, HasResultFilter;
    UpIsConverseOfDown(p, p', u, v, p.Cap());
    ReturnedTogether(p, p', filter, filter', u, v);
  }

  ghost predicate SameEdges(p: Problem, p': Problem) {
    && p.db.edges == p'.db.edges && p.req.rec.viaTable == p'.req.rec.viaTable != ""
    && p.req.rec.viaConditions == p'.req.rec.viaConditions
  }

  /** The same directed via with its columns swapped, without walk filters. */
  ghost predicate IsSwappedOf(p: Problem, p': Problem) {
    && p.WellPosed() && p'.WellPosed() && SameTable(p, p') && NoWalkFilter(p) && NoWalkFilter(p')
    && SameEdges(p, p') && !p.req.rec.viaBidirectional && !p'.req.rec.viaBidirectional
    && p.req.rec.viaFromCol == p'.req.rec.viaToCol && p.req.rec.viaToCol == p'.req.rec.viaFromCol
  }

  /** Without walk filters, swapping the columns of a directed via gives the converse relation, at
      every bound. */
  lemma SwappedViaIsConverse(p: Problem, p': Problem, u: Row, v: Row, n: nat)
    requires IsSwappedOf(p, p') && IsNode(p, u) && IsNode(p, v)
    ensures Within(u, v, n, Edge(p)) <==> Within(v, u, n, Edge(p'))
  {
    forall a, b ensures NodeEdge(p)(a, b) <==> NodeEdge(p')(b, a) {
      if e :| e in p.db.edges && p.EdgeOk(e) && p.Leads(a, e, b) {
        assert p'.EdgeOk(e) && p'.Leads(b, e, a);
      }
      if e :| e in p'.db.edges && p'.EdgeOk(e) && p'.Leads(b, e, a) {
        assert p.EdgeOk(e) && p.Leads(a, e, b);
      }
    }
    ConverseReach(p, p', u, v, n);
  }

  /** Main result: via(from,to) from u returns v exactly when via(to,from) from v returns u. */
  lemma SwappedReturnsTheConverse(p: Problem, p': Problem, filter: Option<Node>, filter': Option<Node>, u: Row, v: Row)
    requires IsSwappedOf(p, p') && FromEitherEnd(p, p', filter, filter', u, v)
    ensures ReturnEachOther(p, p', filter, filter', u, v)
  {
    hide ReturnEachOther, Within, Edge, Keyed, HasResultFilter;
    SwappedViaIsConverse(p, p', u, v, p.Cap());
    ReturnedTogether(p, p', filter, filter', u, v);
  }

  // ----- via!both -----

  lemma SameReach(p: Problem, p': Problem, s: Row, v: Row, n: nat)
    requires p.WellPosed() && p'.WellPosed() && forall a, b :: Edge(p)(a, b) <==> Edge(p')(a, b)
    ensures Within(s, v, n, Edge(p)) <==> Within(s, v, n, Edge(p'))
  {
    if Within(s, v, n, Edge(p)) {
      var ws :| Joins(ws, s, v, Edge(p)) && |ws| <= n + 1;
      assert Joins(ws, s, v, Edge(p'));
    }
    if Within(s, v, n, Edge(p')) {
      var ws :| Joins(ws, s, v, Edge(p')) && |ws| <= n + 1;
      assert Joins(ws, s, v, Edge(p));
    }
  }

  /** The rest of the two requests is the same: start, cap, result filter, `after`. */
  ghost predicate SameRest(p: Problem, p': Problem, filter: Option<Node>, s: Row)
    requires p.WellPosed() && p'.WellPosed()
  {
    && Keyed(p) && p.IsSeed(s) && p'.IsSeed(s) && p.Cap() == p'.Cap() && p.req.info == p'.req.info
    && HasResultFilter(p, filter) && HasResultFilter(p', filter) && p.req.rec.excludeStart == p'.req.rec.excludeStart
  }

  /** With the same reach and the same rest the same nodes are returned. */
  lemma SameReturned(p: Problem, p': Problem, filter: Option<Node>, s: Row, v: Row)
    requires p.WellPosed() && p'.WellPosed() && SameTable(p, p') && SameRest(p, p', filter, s)
    requires Within(s, v, p.Cap(), Edge(p)) <==> Within(s, v, p.Cap(), Edge(p'))
    ensures IsReturned(p, v) <==> IsReturned(p', v)
  {
    hide Within, Edge, HasResultFilter, Kept;
    KeptNodesAreWanted(p, filter, s, v);
    assert Keyed(p');
    KeptNodesAreWanted(p', filter, s, v);
  }

  /** The same undirected via with its columns swapped. */
  ghost predicate IsSwappedBoth(p: Problem, p': Problem) {
    && p.WellPosed() && p'.WellPosed() && SameTable(p, p') && SameEdges(p, p')
    && p.req.info == p'.req.info && p.req.rec.walkConditions == p'.req.rec.walkConditions
    && p.req.rec.viaBidirectional && p'.req.rec.viaBidirectional
    && p.req.rec.viaFromCol == p'.req.rec.viaToCol && p.req.rec.viaToCol == p'.req.rec.viaFromCol
  }

  /** What via!both walks does not depend on the order of its columns. */
  lemma BothIsSymmetric(p: Problem, p': Problem, s: Row, v: Row, n: nat)
    requires IsSwappedBoth(p, p')
    ensures Within(s, v, n, Edge(p)) <==> Within(s, v, n, Edge(p'))
  {
    forall a, b ensures Edge(p)(a, b) <==> Edge(p')(a, b) {
      if e :| e in p.db.edges && p.EdgeOk(e) && p.Leads(a, e, b) {
        assert p'.EdgeOk(e) && p'.Leads(a, e, b);
      }
      if e :| e in p'.db.edges && p'.EdgeOk(e) && p'.Leads(a, e, b) {
        assert p.EdgeOk(e) && p.Leads(a, e, b);
      }
    }
    SameReach(p, p', s, v, n);
  }

  /** Main result: via!both returns the same nodes with its columns swapped. */
  lemma BothReturnsTheSame(p: Problem, p': Problem, filter: Option<Node>, s: Row, v: Row)
    requires IsSwappedBoth(p, p') && SameRest(p, p', filter, s)
    ensures IsReturned(p, v) <==> IsReturned(p', v)
  {
    hide Within, Edge, IsReturned, SameRest;
    BothIsSymmetric(p, p', s, v, p.Cap());
    SameReturned(p, p', filter, s, v);
  }

  /** An edge row with its two ends exchanged. */
  function Flipped(p: Problem, e: Row): Row {
    map[p.req.rec.viaFromCol := Cell(e, p.req.rec.viaToCol), p.req.rec.viaToCol := Cell(e, p.req.rec.viaFromCol)]
  }

  /** The edges that pass the via filters, and each of them the other way round. */
  ghost predicate IsSymmetricClosure(p: Problem, edges: seq<Row>)
    requires Emittable(p.req.rec)
  {
    && (forall e :: e in p.db.edges && p.EdgeOk(e) ==> e in edges && Flipped(p, e) in edges)
    && (forall e' :: e' in edges ==> exists e :: e in p.db.edges && p.EdgeOk(e) && (e' == e || e' == Flipped(p, e)))
  }

  /** p is an undirected walk, p' the directed one on the closed edge table. */
  ghost predicate IsClosedForm(p: Problem, p': Problem) {
    && p.WellPosed() && p'.WellPosed() && SameTable(p, p')
    && p.req.info == p'.req.info && p.req.rec.walkConditions == p'.req.rec.walkConditions
    && p.req.rec.viaTable == p'.req.rec.viaTable != "" && p'.req.rec.viaConditions.None?
    && p.req.rec.viaBidirectional && !p'.req.rec.viaBidirectional
    && p.req.rec.viaFromCol == p'.req.rec.viaFromCol && p.req.rec.viaToCol == p'.req.rec.viaToCol
    && p.req.rec.viaFromCol != p.req.rec.viaToCol
    && IsSymmetricClosure(p, p'.db.edges)
  }

  /** An undirected edge is the edge or its flipped form. */
  lemma FlippedLeads(p: Problem, p': Problem, e: Row, a: Row, b: Row)
    requires p.req.rec.startField == p'.req.rec.startField
    requires p.req.rec.viaBidirectional && !p'.req.rec.viaBidirectional
    requires p.req.rec.viaFromCol == p'.req.rec.viaFromCol != p.req.rec.viaToCol == p'.req.rec.viaToCol
    ensures p.Leads(a, e, b) <==> (p'.Leads(a, e, b) || p'.Leads(a, Flipped(p, e), b))
  {
  }

  lemma ClosedFollows(p: Problem, p': Problem, a: Row, b: Row)
    requires IsClosedForm(p, p')
    ensures p.Follows(a, b) ==> p'.Follows(a, b)
  {
    if e :| e in p.db.edges && p.EdgeOk(e) && p.Leads(a, e, b) {
      FlippedLeads(p, p', e, a, b);
      assert p'.EdgeOk(e) && p'.EdgeOk(Flipped(p, e));
      assert e in p'.db.edges && Flipped(p, e) in p'.db.edges;
    }
  }

  lemma ClosedIsFollowed(p: Problem, p': Problem, a: Row, b: Row)
    requires IsClosedForm(p, p')
    ensures p'.Follows(a, b) ==> p.Follows(a, b)
  {
    if e' :| e' in p'.db.edges && p'.EdgeOk(e') && p'.Leads(a, e', b) {
      var e :| e in p.db.edges && p.EdgeOk(e) && (e' == e || e' == Flipped(p, e));
      FlippedLeads(p, p', e, a, b);
    }
  }

  /** via!both reaches what a directed via reaches on the symmetric closure of the
      (filtered) edge table. */
  lemma BothIsViaOnSymmetricClosure(p: Problem, p': Problem, s: Row, v: Row, n: nat)
    requires IsClosedForm(p, p')
    ensures Within(s, v, n, Edge(p)) <==> Within(s, v, n, Edge(p'))
  {
    forall a, b ensures Edge(p)(a, b) <==> Edge(p')(a, b) {
      ClosedFollows(p, p', a, b);
      ClosedIsFollowed(p, p', a, b);
      assert p.WalkOk(b) <==> p'.WalkOk(b);
    }
    SameReach(p, p', s, v, n);
  }

  /** Main result: via!both returns the nodes that a directed via returns on the symmetric closure of
      the (filtered) edge table. */
  lemma BothReturnsClosure(p: Problem, p': Problem, filter: Option<Node>, s: Row, v: Row)
    requires IsClosedForm(p, p') && SameRest(p, p', filter, s)
    ensures IsReturned(p, v) <==> IsReturned(p', v)
  {
    hide Within, Edge, IsReturned, SameRest, IsSymmetricClosure;
    BothIsViaOnSymmetricClosure(p, p', s, v, p.Cap());
    SameReturned(p, p', filter, s, v);
  }
}
