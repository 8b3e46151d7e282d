/** What the outer query returns: result filters, the dropped seed, and deduplication. */
module RecursiveResults {
  import opened Sql
  import opened Filters
  import opened Precedence
  import opened Graph
  import opened RecursiveQuery
  import opened RecursiveArms
  import opened Recursion

  // ----- Moving the result filter to the CTE does not change how it reads -----

  function RepointExpr(e: Expr, table: string): Expr
    decreases e, 0
  {
    match e
    case Prim(a) => Prim(RepointAtom(a, table))
    case Neg(e') => Neg(RepointExpr(e', table))
    case All(es) => All(RepointExprs(es, table))
    case Any(es) => Any(RepointExprs(es, table))
  }

  function RepointExprs(es: seq<Expr>, table: string): (r: seq<Expr>)
    ensures |r| == |es|
    decreases es, 1
  {
    if es == [] then [] else [RepointExpr(es[0], table)] + RepointExprs(es[1..], table)
  }

  function RepointRead(r: Option<(seq<Expr>, seq<Tok>)>, table: string): Option<(seq<Expr>, seq<Tok>)> {
    match r
    case None => None
    case Some((es, rest)) => Some((RepointExprs(es, table), Repointed(rest, table)))
  }

  lemma RepointedTail(ts: seq<Tok>, table: string)
    requires ts != []
    ensures Repointed(ts, table)[1..] == Repointed(ts[1..], table)
  {
  }

  lemma RepointOne(e: Expr, es: seq<Expr>, table: string)
    ensures RepointExprs([e] + es, table) == [RepointExpr(e, table)] + RepointExprs(es, table)
    ensures RepointExprs([e], table) == [RepointExpr(e, table)]
  {
    assert ([e] + es)[1..] == es;
    assert [e][1..] == [];
  }

  lemma {:induction false} ReadRepointedOr(ts: seq<Tok>, table: string)
    ensures ReadOr(Repointed(ts, table)) == RepointRead(ReadOr(ts), table)
    decreases |ts|, 2
  {
    ReadRepointedAnd(ts, table);
    match ReadAnd(ts) {
      case None =>
      case Some((cs, rest)) =>
        if rest != [] && rest[0] == OrT {
          RepointedTail(rest, table);
          ReadRepointedOr(rest[1..], table);
          if ReadOr(rest[1..]).Some? {
            RepointOne(All(cs), ReadOr(rest[1..]).value.0, table);
          }
        } else {
          RepointOne(All(cs), [], table);
        }
    }
  }

  lemma {:induction false} ReadRepointedAnd(ts: seq<Tok>, table: string)
    ensures ReadAnd(Repointed(ts, table)) == RepointRead(ReadAnd(ts), table)
    decreases |ts|, 1
  {
    ReadRepointedNot(ts, table);
    match ReadNot(ts) {
      case None =>
      case Some((e, rest)) =>
        if rest != [] && rest[0] == AndT {
          RepointedTail(rest, table);
          ReadRepointedAnd(rest[1..], table);
          if ReadAnd(rest[1..]).Some? {
            RepointOne(e, ReadAnd(rest[1..]).value.0, table);
          }
        } else {
          RepointOne(e, [], table);
        }
    }
  }

  lemma {:induction false} ReadRepointedNot(ts: seq<Tok>, table: string)
    ensures ReadNot(Repointed(ts, table)) ==
      match ReadNot(ts)
      case None => None
      case Some((e, rest)) => Some((RepointExpr(e, table), Repointed(rest, table)))
    decreases |ts|, 0
  {
    if ts != [] {
      RepointedTail(ts, table);
      match ts[0] {
        case NotT =>
          ReadRepointedNot(ts[1..], table);
        case LPar =>
          ReadRepointedOr(ts[1..], table);
          if ReadOr(ts[1..]).Some? && ReadOr(ts[1..]).value.1 != [] {
            RepointedTail(ReadOr(ts[1..]).value.1, table);
          }
        case _ =>
      }
    }
  }

  /** The environment in which the table's name stands for the CTE row as well. */
  function BothNames(env: Env, table: string): Env {
    if CTE in env.rows then env.(rows := env.rows[table := env.rows[CTE]]) else env
  }

  lemma {:induction false} EvalRepointed(e: Expr, table: string, env: Env)
    requires CTE in env.rows && table !in env.rows
    ensures Eval(RepointExpr(e, table), env) == Eval(e, BothNames(env, table))
    decreases e, 0
  {
    match e {
      case Prim(a) =>
      case Neg(e') => EvalRepointed(e', table, env);
      case All(es) => EvalRepointedAll(es, table, env);
      case Any(es) => EvalRepointedAll(es, table, env);
    }
  }

  lemma {:induction false} EvalRepointedAll(es: seq<Expr>, table: string, env: Env)
    requires CTE in env.rows && table !in env.rows
    ensures EvalAll(RepointExprs(es, table), env) == EvalAll(es, BothNames(env, table))
    ensures EvalAny(RepointExprs(es, table), env) == EvalAny(es, BothNames(env, table))
    decreases es, 1
  {
    if es != [] {
      EvalRepointed(es[0], table, env);
      EvalRepointedAll(es[1..], table, env);
    }
  }

  lemma KeepsRepointed(ts: seq<Tok>, table: string, env: Env)
    requires CTE in env.rows && table !in env.rows
    ensures Keeps(Repointed(ts, table), env) <==> Keeps(ts, BothNames(env, table))
  {
    ReadRepointedOr(ts, table);
    if Read(ts).Some? {
      EvalRepointedAll(ReadOr(ts).value.0, table, env);
    }
  }

  // ----- Result filters on real columns -----

  /** No comparison is on one of the two internal columns. */
  predicate RealColumns(n: Node) {
    if IsGroup(n) then forall c :: c in n.children ==> RealColumns(c)
    else n.field.name != DEPTH && n.field.name != PATH
  }

  lemma {:induction false} QuantifiedIgnoresDepth(n: Node, vs: seq<string>, c: Context, d: Value)
    requires n.field.name != DEPTH
    ensures QuantifiedMeaning(n, vs, c.(row := c.row[DEPTH := d])) == QuantifiedMeaning(n, vs, c)
  {
    if vs != [] {
      QuantifiedIgnoresDepth(n, vs[1..], c, d);
    }
  }

  lemma {:induction false} MeaningIgnoresDepth(n: Node, c: Context, d: Value)
    requires AllHaveOperands(n) && RealColumns(n)
    ensures Meaning(n, c.(row := c.row[DEPTH := d])) == Meaning(n, c)
    decreases n, |n.children| + 1
  {
    if IsGroup(n) {
      GroupIgnoresDepth(n, |n.children|, c, d);
    } else {
      QuantifiedIgnoresDepth(n, n.values, c, d);
    }
  }

  lemma {:induction false} GroupIgnoresDepth(n: Node, k: nat, c: Context, d: Value)
    requires IsGroup(n) && AllHaveOperands(n) && RealColumns(n) && k <= |n.children|
    ensures GroupMeaning(n, k, c.(row := c.row[DEPTH := d])) == GroupMeaning(n, k, c)
    decreases n, k
  {
    if k > 0 {
      GroupIgnoresDepth(n, k - 1, c, d);
      MeaningIgnoresDepth(n.children[k - 1], c, d);
    }
  }

  /** The plain filters of the request, as the tree they were printed from (None: no filter). */
  ghost predicate HasResultFilter(p: Problem, filter: Option<Node>) {
    && (filter.Some? ==> AllHaveOperands(filter.value) && Printable(filter.value) && RealColumns(filter.value))
    && (p.req.mainWhere, p.mainValues) == EmitConditions(filter, p.req.table, p.req.info, 0)
  }

  predicate ResultOk(p: Problem, filter: Option<Node>, row: Row)
    requires filter.Some? ==> AllHaveOperands(filter.value)
  {
    filter.Some? ==> Meaning(filter.value, Context(row, p.req.table, p.req.info, p.meaning)).True?
  }

  lemma RepointedOuter(req: Request)
    ensures OuterWhere(req)
         == Repointed(AddAnd(if req.rec.excludeStart then [Cond(DepthPositive)] else [], req.mainWhere), req.table)
  {
    var pre := if req.rec.excludeStart then [Cond(DepthPositive)] else [];
    assert AddAnd(pre, Repointed(req.mainWhere, req.table)) == Repointed(AddAnd(pre, req.mainWhere), req.table);
  }

  lemma MainValuesFirst(p: Problem)
    requires p.WellPosed()
    ensures Bind(p.Execute().values, 0, p.mainValues)
  {
    ValuesStartWithCte(p);
    var cte, values := CteValues(p.req, p.Cap(), p.mainValues), p.Execute().values;
    assert p.mainValues <= cte <= values;
    assert values[0..|p.mainValues|] == cte[0..|p.mainValues|];
  }

  lemma OuterTest(p: Problem, filter: Option<Node>, r: CteRow)
    requires p.WellPosed() && HasResultFilter(p, filter)
    ensures Selected(p.Execute(), r)
        <==> ((p.req.rec.excludeStart ==> r.depth > 0) && ResultOk(p, filter, r.row))
  {
    var env := OuterEnv(p.Execute(), r);
    MainValuesFirst(p);
    RepointedOuter(p.req);
    KeepsRepointed(AddAnd(if p.req.rec.excludeStart then [Cond(DepthPositive)] else [], p.req.mainWhere), p.req.table, env);
    PlainOuterTest(p, filter, r, BothNames(env, p.req.table));
  }

  lemma PlainOuterTest(p: Problem, filter: Option<Node>, r: CteRow, env: Env)
    requires HasResultFilter(p, filter)
    requires env.depth == r.depth && env.meaning == p.meaning && Bind(env.values, 0, p.mainValues)
    requires p.req.table in env.rows && env.rows[p.req.table] == Visible(r)
    ensures Keeps(AddAnd(if p.req.rec.excludeStart then [Cond(DepthPositive)] else [], p.req.mainWhere), env)
        <==> ((p.req.rec.excludeStart ==> r.depth > 0) && ResultOk(p, filter, r.row))
  {
    var w, shape := p.req.mainWhere, OptionalShape(filter, p.req.table, p.req.info, 0);
    var c := Context(r.row, p.req.table, p.req.info, p.meaning);
    EmittedIsOptional(filter, p.req.table, p.req.info, 0);
    OptionalMeaning(filter, 0, env, c.(row := Visible(r)));
    if filter.Some? {
      MeaningIgnoresDepth(filter.value, c, Num(r.depth));
    }
    if p.req.rec.excludeStart {
      AtomIsConjunction(false, DepthPositive);
      assert [] + [Cond(DepthPositive)] == [Cond(DepthPositive)];
      Glue([Cond(DepthPositive)], [Prim(DepthPositive)], w, shape);
      ConjunctionKeeps(AddAnd([Cond(DepthPositive)], w), [Prim(DepthPositive)] + shape, env);
      EvalAllConcat([Prim(DepthPositive)], shape, env);
      EvalSingle(Prim(DepthPositive), env);
    } else if w != [] {
      ConjunctionKeeps(w, shape, env);
    }
  }

  // ----- The nodes returned -----

  /** What the request asks for: reachable within the cap, not the seed after `after`, and
      admitted by the result filter. */
  ghost predicate Wanted(p: Problem, filter: Option<Node>, s: Row, v: Row)
    requires p.WellPosed() && HasResultFilter(p, filter)
  {
    Within(s, v, p.Cap(), Edge(p)) && (p.req.rec.excludeStart ==> v != s) && ResultOk(p, filter, v)
  }

  ghost function Kept(p: Problem): seq<CteRow>
    requires p.WellPosed()
  {
    SelectedRows(p.Execute(), p.Execute().UpTo(p.Cap()))
  }

  lemma DepthZeroIsSeed(p: Problem, s: Row, r: CteRow)
    requires p.WellPosed() && Keyed(p) && p.IsSeed(s) && r in p.Execute().UpTo(p.Cap())
    ensures r.depth == 0 <==> r.row == s
  {
    var ws := TrailOf(p, s, r);
    if r.depth > 0 {
      assert ws[0] != ws[r.depth];
    }
  }

  /** Main theorem: the rows kept by the outer query are those of the wanted nodes. */
  lemma KeptNodesAreWanted(p: Problem, filter: Option<Node>, s: Row, v: Row)
    requires p.WellPosed() && Keyed(p) && p.IsSeed(s) && HasResultFilter(p, filter)
    ensures (exists r :: r in Kept(p) && r.row == v) <==> Wanted(p, filter, s, v)
  {
    var cte := p.Execute().UpTo(p.Cap());
    CteIsBoundedReachability(p, s, v);
    forall r | r in cte && r.row == v ensures r in Kept(p) <==> (p.req.rec.excludeStart ==> v != s) && ResultOk(p, filter, v) {
      OuterTest(p, filter, r);
      DepthZeroIsSeed(p, s, r);
    }
  }

  /** Main theorem for via with `__depth` selected or ordered: whichever rows PostgreSQL picks, each
      wanted node comes out exactly once, and its depth is its distance from the seed. */
  lemma DistinctOnReportsDistances(p: Problem, filter: Option<Node>, s: Row, chosen: seq<CteRow>)
    requires p.WellPosed() && Keyed(p) && p.IsSeed(s) && HasResultFilter(p, filter)
    requires IsDistinctOn(p.Execute(), Kept(p), chosen)
    ensures forall c :: c in chosen ==> IsDistance(s, c.row, c.depth, Edge(p))
    ensures forall v :: (exists c :: c in chosen && c.row == v) <==> Wanted(p, filter, s, v)
    ensures forall i, j :: 0 <= i < j < |chosen| ==> chosen[i].row != chosen[j].row
  {
    hide Wanted, HasResultFilter, IsDistance;
    forall c | c in chosen ensures IsDistance(s, c.row, c.depth, Edge(p)) {
      ChosenDepth(p, filter, s, chosen, c);
    }
    forall v ensures (exists c :: c in chosen && c.row == v) <==> Wanted(p, filter, s, v) {
      ChosenNodes(p, filter, s, chosen, v);
    }
    forall i, j | 0 <= i < j < |chosen| ensures chosen[i].row != chosen[j].row {
      assert p.Execute().Key(chosen[i].row) != p.Execute().Key(chosen[j].row);
    }
  }

  lemma ChosenNodes(p: Problem, filter: Option<Node>, s: Row, chosen: seq<CteRow>, v: Row)
    requires p.WellPosed() && Keyed(p) && p.IsSeed(s) && HasResultFilter(p, filter)
    requires IsDistinctOn(p.Execute(), Kept(p), chosen)
    ensures (exists c :: c in chosen && c.row == v) <==> Wanted(p, filter, s, v)
  {
    hide Wanted, HasResultFilter;
    KeptNodesAreWanted(p, filter, s, v);
    if c :| c in chosen && c.row == v {
      assert c in Kept(p);
    }
    if r :| r in Kept(p) && r.row == v {
      var c := Representative(p, chosen, r);
      SameNode(p, s, c, r);
    }
  }

  lemma Representative(p: Problem, chosen: seq<CteRow>, r: CteRow) returns (c: CteRow)
    requires p.WellPosed() && IsDistinctOn(p.Execute(), Kept(p), chosen) && r in Kept(p)
    ensures c in chosen && c in Kept(p) && p.Key(c.row) == p.Key(r.row)
  {
    c :| c in chosen && p.Execute().Key(c.row) == p.Execute().Key(r.row);
  }

  lemma SameNode(p: Problem, s: Row, c: CteRow, r: CteRow)
    requires p.WellPosed() && Keyed(p) && p.IsSeed(s)
    requires c in p.Execute().UpTo(p.Cap()) && r in p.Execute().UpTo(p.Cap()) && p.Key(c.row) == p.Key(r.row)
    ensures c.row == r.row
  {
    var ws := TrailOf(p, s, c);
    var zs := TrailOf(p, s, r);
    TrailKeys(p, ws);
    TrailKeys(p, zs);
    SameKey(p, c.row, r.row);
  }

  lemma ChosenIsLeast(p: Problem, chosen: seq<CteRow>, c: CteRow)
    requires p.WellPosed() && IsDistinctOn(p.Execute(), Kept(p), chosen) && c in chosen
    ensures c in Kept(p) && forall r :: r in Kept(p) && r.row == c.row ==> c.depth <= r.depth
  {
  }

  /** Of two rows of one node both are kept or none. */
  lemma KeptTogether(p: Problem, filter: Option<Node>, s: Row, c: CteRow, r: CteRow)
    requires p.WellPosed() && Keyed(p) && p.IsSeed(s) && HasResultFilter(p, filter)
    requires c in Kept(p) && r in p.Execute().UpTo(p.Cap()) && r.row == c.row
    ensures r in Kept(p)
  {
    hide Keyed, Problem.IsSeed, HasResultFilter, ResultOk;
    OuterTest(p, filter, r);
    OuterTest(p, filter, c);
    DepthZeroIsSeed(p, s, r);
    DepthZeroIsSeed(p, s, c);
  }

  lemma ChosenDepth(p: Problem, filter: Option<Node>, s: Row, chosen: seq<CteRow>, c: CteRow)
    requires p.WellPosed() && Keyed(p) && p.IsSeed(s) && HasResultFilter(p, filter)
    requires IsDistinctOn(p.Execute(), Kept(p), chosen) && c in chosen
    ensures IsDistance(s, c.row, c.depth, Edge(p))
  {
    hide Keyed, Problem.IsSeed, HasResultFilter, IsDistinctOn, IsDistance, Edge;
    ChosenIsLeast(p, chosen, c);
    forall r | r in p.Execute().UpTo(p.Cap()) && r.row == c.row ensures c.depth <= r.depth {
      KeptTogether(p, filter, s, c, r);
    }
    LeastDepthIsDistance(p, s, c.row, c.depth);
  }

  /** The builder takes that route exactly when the depth is selected or ordered by. */
  lemma DistinctOnExactlyWithDepth(p: Problem)
    requires p.WellPosed()
    ensures p.Execute().q.mode == DistinctOnNode
        <==> p.req.rec.viaTable != "" && (DepthSelected(p.req) || DEPTH in p.req.orderNames)
    ensures p.Execute().q.mode == DistinctOnNode && p.Execute().q.projection.Columns?
        ==> DEPTH in p.Execute().q.projection.names
  {
    var names := ProjectionOf(p.req);
    if ExposeDepth(p.req) && names.Columns? {
      assert names.names[|names.names| - 1] == DEPTH;
    }
  }
}
