/** What the arms of the emitted query test, stated on rows instead of on tokens. */
module RecursiveArms {
  import opened Sql
  import opened Filters
  import opened Precedence
  import opened RecursiveQuery

  /** A request together with the data it runs on. */
  datatype Problem = Problem(req: Request, maxRecursiveDepth: Option<int>, mainValues: seq<Value>,
                             db: Db, meaning: Comparison -> TV)
  {
    function Key(row: Row): Value { Cell(row, req.rec.startField) }

    function Cap(): nat { EffectiveDepth(req.rec.maxDepth, maxRecursiveDepth) }

    /** walk.* filters */
    predicate WalkOk(row: Row)
      requires Emittable(req.rec)
    {
      req.rec.walkConditions.Some? ==>
        Meaning(req.rec.walkConditions.value, Context(row, req.table, req.info, meaning)).True?
    }

    /** via.* filters */
    predicate EdgeOk(edge: Row)
      requires Emittable(req.rec)
    {
      req.rec.viaConditions.Some? ==>
        Meaning(req.rec.viaConditions.value, Context(edge, req.rec.viaTable, None, meaning)).True?
    }

    /** The edge row leads from u to v. */
    predicate Leads(u: Row, edge: Row, v: Row) {
      var from, to := Cell(edge, req.rec.viaFromCol), Cell(edge, req.rec.viaToCol);
      || (Eq3(from, Key(u)).True? && Eq3(to, Key(v)).True?)
      || (req.rec.viaBidirectional && Eq3(to, Key(u)).True? && Eq3(from, Key(v)).True?)
    }

    /** The foreign key leads from u to v: down to the rows that point at u, up to the row it
        points at. */
    predicate LeadsByKey(u: Row, v: Row) {
      if req.rec.recurseUp then Eq3(Key(v), Cell(u, req.rec.recurseField)).True?
      else Eq3(Cell(v, req.rec.recurseField), Key(u)).True?
    }

    ghost predicate Follows(u: Row, v: Row)
      requires Emittable(req.rec)
    {
      if req.rec.viaTable == "" then LeadsByKey(u, v)
      else exists e :: e in db.edges && EdgeOk(e) && Leads(u, e, v)
    }

    /** One step of the walk. Rows whose key is NULL are not nodes. */
    ghost predicate StepsTo(u: Row, v: Row)
      requires Emittable(req.rec)
    {
      v in db.main && Key(v) != Null && Follows(u, v) && WalkOk(v)
    }

    ghost predicate IsSeed(s: Row)
      requires Emittable(req.rec)
    {
      s in db.main && Key(s) == Str(req.rec.startValue) && (req.rec.excludeStart || WalkOk(s))
    }

    /** Filters are readable, and the three names in FROM are different: otherwise PostgreSQL
        rejects the statement. Requests that the builder rejects are not problems. */
    ghost predicate WellPosed() {
      && Emittable(req.rec)
      && (req.rec.viaConditions.Some? ==> Printable(req.rec.viaConditions.value))
      && (req.rec.walkConditions.Some? ==> Printable(req.rec.walkConditions.value))
      && req.table != CTE && req.rec.viaTable != CTE && req.rec.viaTable != req.table
      && Emit(req, maxRecursiveDepth, mainValues).Emitted?
    }

    function Execute(): Execution
      requires Emittable(req.rec) && Emit(req, maxRecursiveDepth, mainValues).Emitted?
    {
      var e := Emit(req, maxRecursiveDepth, mainValues);
      Execution(e.query, db, e.values, meaning)
    }
  }

  // ----- Optional conditions glued with AND -----

  ghost predicate OptionalConjunction(w: seq<Tok>, es: seq<Expr>) {
    (w == [] && es == []) || Conjunction(w, es)
  }

  function OptionalShape(tree: Option<Node>, table: string, info: Schema, m: int): seq<Expr>
    requires tree.Some? ==> AllHaveOperands(tree.value)
  {
    if tree.None? then [] else Shape(tree.value, table, info, m)
  }

  lemma EmittedIsOptional(tree: Option<Node>, table: string, info: Schema, m: int)
    requires tree.Some? ==> AllHaveOperands(tree.value) && Printable(tree.value)
    ensures OptionalConjunction(EmitConditions(tree, table, info, m).0, OptionalShape(tree, table, info, m))
  {
    if tree.Some? {
      NodeIsConjunction(tree.value, table, info, m);
    }
  }

  lemma Glue(w: seq<Tok>, es: seq<Expr>, w': seq<Tok>, es': seq<Expr>)
    requires Conjunction(w, es) && OptionalConjunction(w', es')
    ensures Conjunction(AddAnd(w, w'), es + es')
  {
    if w' == [] {
      assert es + es' == es;
    } else {
      JoinConjunctions(w, es, w', es');
    }
  }

  lemma OptionalMeaning(tree: Option<Node>, m: int, env: Env, c: Context)
    requires tree.Some? ==> AllHaveOperands(tree.value) && Printable(tree.value)
    requires m >= 0 && Fits(env, c) && Bind(env.values, m, EmitConditions(tree, c.table, c.info, m).1)
    ensures EvalAll(OptionalShape(tree, c.table, c.info, m), env).True?
        <==> (tree.Some? ==> Meaning(tree.value, c).True?)
  {
    if tree.Some? {
      ShapeMeaning(tree.value, m, env, c);
    }
  }

  // ----- Where the values sit -----

  lemma ValuesStartWithCte(p: Problem)
    requires p.WellPosed()
    ensures CteValues(p.req, p.Cap(), p.mainValues) <= p.Execute().values
  {
  }

  /** Every part of the value list is where its markers point. */
  ghost predicate InPlace(p: Problem, values: seq<Value>)
    requires Emittable(p.req.rec)
  {
    var start := StartAt(p.req, p.mainValues);
    && Bind(values, |p.mainValues|, ViaPart(p.req, p.mainValues).1)
    && Bind(values, WalkAt(p.req, p.mainValues), WalkPart(p.req, p.mainValues).1)
    && 0 < start < |values|
    && values[start - 1] == Str(p.req.rec.startValue)
    && values[start] == Num(p.Cap())
  }

  lemma CteValuesInPlace(p: Problem, values: seq<Value>)
    requires Emittable(p.req.rec) && CteValues(p.req, p.Cap(), p.mainValues) <= values
    ensures InPlace(p, values)
  {
    Slices(p.mainValues, ViaPart(p.req, p.mainValues).1, WalkPart(p.req, p.mainValues).1,
           Str(p.req.rec.startValue), Num(p.Cap()), values);
  }

  lemma ValuesInPlace(p: Problem)
    requires p.WellPosed()
    ensures InPlace(p, p.Execute().values)
  {
    ValuesStartWithCte(p);
    CteValuesInPlace(p, p.Execute().values);
  }

  lemma Slices(a: seq<Value>, b: seq<Value>, c: seq<Value>, s: Value, d: Value, values: seq<Value>)
    requires a + b + c + [s] + [d] <= values
    ensures values[|a|..|a| + |b|] == b
    ensures values[|a| + |b|..|a| + |b| + |c|] == c
    ensures values[|a| + |b| + |c|] == s && values[|a| + |b| + |c| + 1] == d
  {
    var all := a + b + c + [s] + [d];
    assert all == values[..|all|];
    assert forall i :: 0 <= i < |b| ==> all[|a| + i] == b[i];
    assert forall i :: 0 <= i < |c| ==> all[|a| + |b| + i] == c[i];
  }

  // ----- The WHERE clauses -----

  /** `start = $k AND walk` */
  lemma SeedTest(start: Column, k: int, tree: Option<Node>, m: int, env: Env, c: Context, value: Value)
    requires tree.Some? ==> AllHaveOperands(tree.value) && Printable(tree.value)
    requires m >= 0 && Fits(env, c) && Bind(env.values, m, EmitConditions(tree, c.table, c.info, m).1)
    requires 1 <= k <= |env.values| && env.values[k - 1] == value
    ensures Keeps(AddAnd([Cond(EqArg(start, Marker(k)))], EmitConditions(tree, c.table, c.info, m).0), env)
        <==> (Eq3(Lookup(start, env), value).True? && (tree.Some? ==> Meaning(tree.value, c).True?))
  {
    var a := EqArg(start, Marker(k));
    var w, es := EmitConditions(tree, c.table, c.info, m).0, OptionalShape(tree, c.table, c.info, m);
    AtomIsConjunction(false, a);
    assert [] + [Cond(a)] == [Cond(a)];
    EmittedIsOptional(tree, c.table, c.info, m);
    Glue([Cond(a)], [Prim(a)], w, es);
    ConjunctionKeeps(AddAnd([Cond(a)], w), [Prim(a)] + es, env);
    EvalAllConcat([Prim(a)], es, env);
    EvalSingle(Prim(a), env);
    OptionalMeaning(tree, m, env, c);
  }

  lemma BaseTest(p: Problem, row: Row)
    requires p.WellPosed()
    ensures Keeps(p.Execute().q.base, p.Execute().BaseEnv(row))
        <==> p.Key(row) == Str(p.req.rec.startValue) && (p.req.rec.excludeStart || p.WalkOk(row))
  {
    var rec, table := p.req.rec, p.req.table;
    ValuesInPlace(p);
    var env := p.Execute().BaseEnv(row);
    var tree := if rec.excludeStart then None else rec.walkConditions;
    SeedTest(Column(table, rec.startField), StartAt(p.req, p.mainValues), tree, WalkAt(p.req, p.mainValues),
             env, Context(row, table, p.req.info, p.meaning), Str(rec.startValue));
  }

  lemma GuardIsConjunction(a: Atom, b: Atom)
    ensures Conjunction([Cond(a), AndT, NotT, Cond(b)], [Prim(a), Neg(Prim(b))])
  {
    AtomIsConjunction(false, a);
    AtomIsConjunction(true, b);
    assert [] + [Cond(a)] == [Cond(a)];
    JoinConjunctions([Cond(a)], [Prim(a)], [NotT] + [Cond(b)], [Neg(Prim(b))]);
    assert [Cond(a)] + [AndT] + ([NotT] + [Cond(b)]) == [Cond(a), AndT, NotT, Cond(b)];
    assert [Prim(a)] + [Neg(Prim(b))] == [Prim(a), Neg(Prim(b))];
  }

  /** `guard AND via AND walk` */
  lemma GuardedTest(a: Atom, b: Atom, via: seq<Tok>, viaShape: seq<Expr>, walk: seq<Tok>, walkShape: seq<Expr>, env: Env)
    requires OptionalConjunction(via, viaShape) && OptionalConjunction(walk, walkShape)
    ensures Keeps(AddAnd(AddAnd([Cond(a), AndT, NotT, Cond(b)], via), walk), env)
        <==> && EvalAtom(a, env).True? && EvalAtom(b, env).False?
             && EvalAll(viaShape, env).True? && EvalAll(walkShape, env).True?
  {
    var g, guard := [Cond(a), AndT, NotT, Cond(b)], [Prim(a), Neg(Prim(b))];
    GuardIsConjunction(a, b);
    Glue(g, guard, via, viaShape);
    Glue(AddAnd(g, via), guard + viaShape, walk, walkShape);
    ConjunctionKeeps(AddAnd(AddAnd(g, via), walk), guard + viaShape + walkShape, env);
    EvalAllConcat(guard + viaShape, walkShape, env);
    EvalAllConcat(guard, viaShape, env);
    EvalPair(Prim(a), Neg(Prim(b)), env);
  }

  lemma StepTest(p: Problem, w: CteRow, row: Row, edge: Row)
    requires p.WellPosed()
    ensures Keeps(p.Execute().q.step, p.Execute().StepEnv(w, row, edge))
        <==> && w.depth < p.Cap() && EqAny3(p.Key(row), w.path).False?
             && (p.req.rec.viaTable != "" ==> p.EdgeOk(edge)) && p.WalkOk(row)
  {
    ValuesInPlace(p);
    StepTestIn(p, p.Execute().StepEnv(w, row, edge), w, row, edge);
  }

  lemma StepTestIn(p: Problem, env: Env, w: CteRow, row: Row, edge: Row)
    requires Emittable(p.req.rec)
    requires p.req.rec.viaConditions.Some? ==> Printable(p.req.rec.viaConditions.value)
    requires p.req.rec.walkConditions.Some? ==> Printable(p.req.rec.walkConditions.value)
    requires env.depth == w.depth && env.path == w.path && env.meaning == p.meaning
    requires p.req.table in env.rows && env.rows[p.req.table] == row
    requires p.req.rec.viaTable != "" ==> p.req.rec.viaTable in env.rows && env.rows[p.req.rec.viaTable] == edge
    requires InPlace(p, env.values)
    ensures Keeps(StepWhere(p.req, p.mainValues), env)
        <==> && w.depth < p.Cap() && EqAny3(p.Key(row), w.path).False?
             && (p.req.rec.viaTable != "" ==> p.EdgeOk(edge)) && p.WalkOk(row)
  {
    hide Keeps, OptionalShape, AddAnd;
    var rec, table := p.req.rec, p.req.table;
    var viaAt, walkAt := |p.mainValues|, WalkAt(p.req, p.mainValues);
    var via, viaShape :=
      if rec.viaTable == "" then [] else ViaPart(p.req, p.mainValues).0,
      if rec.viaTable == "" then [] else OptionalShape(rec.viaConditions, rec.viaTable, None, viaAt);
    EmittedIsOptional(rec.viaConditions, rec.viaTable, None, viaAt);
    EmittedIsOptional(rec.walkConditions, table, p.req.info, walkAt);
    GuardedTest(DepthBelow(Marker(StartAt(p.req, p.mainValues) + 1)), OnPath(Column(table, rec.startField)),
                via, viaShape, WalkPart(p.req, p.mainValues).0, OptionalShape(rec.walkConditions, table, p.req.info, walkAt), env);
    OptionalMeaning(rec.walkConditions, walkAt, env, Context(row, table, p.req.info, p.meaning));
    if rec.viaTable != "" {
      OptionalMeaning(rec.viaConditions, viaAt, env, Context(edge, rec.viaTable, None, p.meaning));
    } else {
      assert EvalAll([], env).True?;
    }
  }

  // ----- The ON clauses -----

  lemma OneAtom(a: Atom, env: Env)
    ensures Keeps([Cond(a)], env) <==> EvalAtom(a, env).True?
  {
    AtomIsConjunction(false, a);
    assert [] + [Cond(a)] == [Cond(a)];
    ConjunctionKeeps([Cond(a)], [Prim(a)], env);
    EvalSingle(Prim(a), env);
  }

  lemma EitherAtom(a: Atom, b: Atom, env: Env)
    ensures Keeps([Cond(a), OrT, Cond(b)], env) <==> (EvalAtom(a, env).True? || EvalAtom(b, env).True?)
  {
    var ts := [Cond(a), OrT, Cond(b)];
    AtomIsConjunction(false, a);
    AtomIsConjunction(false, b);
    assert [] + [Cond(a)] == [Cond(a)] && [] + [Cond(b)] == [Cond(b)] && [Cond(b)] + [] == [Cond(b)];
    AndAsOr([Prim(b)], [Cond(b)], []);
    AndAsOr([Prim(a)], [Cond(a)], [OrT, Cond(b)]);
    assert [Cond(a)] + [OrT, Cond(b)] == ts && [OrT, Cond(b)][1..] == [Cond(b)];
    EvalAnyConcat([All([Prim(a)])], [All([Prim(b)])], env);
    EvalSingle(Prim(a), env);
    EvalSingle(Prim(b), env);
  }

  /** (a AND b), read with the rest of the clause behind it. */
  lemma ReadPair(a: Atom, b: Atom, rest: seq<Tok>)
    ensures ReadNot([LPar, Cond(a), AndT, Cond(b), RPar] + rest) == Some((Any([All([Prim(a), Prim(b)])]), rest))
  {
    AtomIsConjunction(false, a);
    AtomIsConjunction(false, b);
    assert [] + [Cond(a)] == [Cond(a)] && [] + [Cond(b)] == [Cond(b)];
    JoinConjunctions([Cond(a)], [Prim(a)], [Cond(b)], [Prim(b)]);
    var w := [Cond(a)] + [AndT] + [Cond(b)];
    assert [Prim(a)] + [Prim(b)] == [Prim(a), Prim(b)];
    assert ReadAnd(w + ([RPar] + rest)) == AndThen([Prim(a), Prim(b)], [RPar] + rest);
    AndAsOr([Prim(a), Prim(b)], w, [RPar] + rest);
    Bracketed([All([Prim(a), Prim(b)])], w, rest);
    assert [LPar] + w + [RPar] + rest == [LPar, Cond(a), AndT, Cond(b), RPar] + rest;
  }

  lemma EvalPair(a: Expr, b: Expr, env: Env)
    ensures EvalAll([a, b], env) == And3(Eval(a, env), Eval(b, env))
  {
    EvalAllConcat([a], [b], env);
    assert [a] + [b] == [a, b];
    EvalSingle(a, env);
    EvalSingle(b, env);
  }

  lemma EitherPair(a: Atom, b: Atom, c: Atom, d: Atom, env: Env)
    ensures Keeps([LPar, Cond(a), AndT, Cond(b), RPar, OrT, LPar, Cond(c), AndT, Cond(d), RPar], env)
        <==> || (EvalAtom(a, env).True? && EvalAtom(b, env).True?)
             || (EvalAtom(c, env).True? && EvalAtom(d, env).True?)
  {
    var l, r := [LPar, Cond(a), AndT, Cond(b), RPar], [LPar, Cond(c), AndT, Cond(d), RPar];
    var el, er := Any([All([Prim(a), Prim(b)])]), Any([All([Prim(c), Prim(d)])]);
    ReadPair(a, b, [OrT] + r);
    ReadPair(c, d, []);
    assert r + [] == r && ([OrT] + r)[1..] == r;
    assert ReadOr(r) == Some(([All([er])], []));
    assert ReadOr(l + ([OrT] + r)) == Some(([All([el])] + [All([er])], []));
    assert l + ([OrT] + r) == [LPar, Cond(a), AndT, Cond(b), RPar, OrT, LPar, Cond(c), AndT, Cond(d), RPar];
    EvalAnyConcat([All([el])], [All([er])], env);
    EvalSingle(el, env);
    EvalSingle(er, env);
    EvalSingle(All([Prim(a), Prim(b)]), env);
    EvalSingle(All([Prim(c), Prim(d)]), env);
    EvalPair(Prim(a), Prim(b), env);
    EvalPair(Prim(c), Prim(d), env);
  }

  lemma JoinTest(p: Problem, w: CteRow, row: Row, edge: Row)
    requires p.WellPosed()
    ensures var x := p.Execute();
      (forall i :: 0 <= i < |x.q.joins| ==> Keeps(x.q.joins[i], x.StepEnv(w, row, edge)))
        <==> if p.req.rec.viaTable == "" then p.LeadsByKey(w.row, row) else p.Leads(w.row, edge, row)
  {
    var rec, table := p.req.rec, p.req.table;
    var env := p.Execute().StepEnv(w, row, edge);
    var joins: seq<seq<Tok>> := JoinConditions(rec, table);
    assert p.Execute().q.joins == joins;
    if rec.viaTable == "" {
      OneAtom(joins[0][0].atom, env);
    } else {
      ViaJoinTest(p, env, w.row, row, edge);
      assert joins == [joins[0], joins[1]];
    }
  }

  lemma ViaJoinTest(p: Problem, env: Env, u: Row, v: Row, edge: Row)
    requires p.req.rec.viaTable != ""
    requires p.req.table in env.rows && env.rows[p.req.table] == v
    requires p.req.rec.viaTable in env.rows && env.rows[p.req.rec.viaTable] == edge
    requires CTE in env.rows && env.rows[CTE] == u
    ensures var joins := JoinConditions(p.req.rec, p.req.table);
      |joins| == 2 && (Keeps(joins[0], env) && Keeps(joins[1], env) <==> p.Leads(u, edge, v))
  {
    var rec := p.req.rec;
    var from, to := Column(rec.viaTable, rec.viaFromCol), Column(rec.viaTable, rec.viaToCol);
    var known, start := Column(CTE, rec.startField), Column(p.req.table, rec.startField);
    if rec.viaBidirectional {
      EitherAtom(EqCol(to, start), EqCol(from, start), env);
      EitherPair(EqCol(from, known), EqCol(to, start), EqCol(to, known), EqCol(from, start), env);
    } else {
      OneAtom(EqCol(to, start), env);
      OneAtom(EqCol(from, known), env);
    }
  }

  /** One row combination of the recursive term, on rows. */
  lemma AdmitTest(p: Problem, w: CteRow, row: Row, edge: Row)
    requires p.WellPosed()
    ensures p.Execute().Admits(w, row, edge)
        <==> && w.depth < p.Cap() && EqAny3(p.Key(row), w.path).False? && p.WalkOk(row)
             && (if p.req.rec.viaTable == "" then p.LeadsByKey(w.row, row)
                 else p.EdgeOk(edge) && p.Leads(w.row, edge, row))
  {
    JoinTest(p, w, row, edge);
    StepTest(p, w, row, edge);
  }
}
