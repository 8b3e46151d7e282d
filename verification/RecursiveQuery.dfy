/** The recursive query: what the builder emits for start/after, recurse and via, and how
    PostgreSQL evaluates it (section 7.8.2 of the PostgreSQL manual). */
module RecursiveQuery {
  import opened Sql
  import opened Filters

  // ----- The request -----

  /** viaTable is empty for single-table recursion. */
  datatype RecursiveInfo = RecursiveInfo(
    startField: string, startValue: string, recurseField: string, maxDepth: int,
    excludeStart: bool, recurseUp: bool,
    viaTable: string, viaFromCol: string, viaToCol: string, viaBidirectional: bool,
    viaConditions: Option<Node>, walkConditions: Option<Node>)

  /** The rest of the request that the builder looks at. selectNames is the explicit select list
      (None for `*`), cachedColumns the sorted columns of the table if the schema cache knows it. */
  datatype Request = Request(
    table: string, rec: RecursiveInfo, info: Schema,
    selectNames: Option<seq<string>>, orderNames: seq<string>, cachedColumns: Option<seq<string>>,
    mainWhere: seq<Tok>, hasJoins: bool,
    limit: Option<int>, offset: Option<int>, hasRange: bool, rangeMin: int, rangeMax: int)

  const DEFAULT_MAX_RECURSIVE_DEPTH := 100
  const CTE := "__recursive"
  const DEPTH := "__depth"
  const PATH := "__path"

  /** maxRecursiveDepth is the engine's configuration; None when there is no engine. */
  function ServerMax(maxRecursiveDepth: Option<int>): int {
    if maxRecursiveDepth.Some? && maxRecursiveDepth.value > 0 then maxRecursiveDepth.value
    else DEFAULT_MAX_RECURSIVE_DEPTH
  }

  /** k is the requested depth, but no more than the server allows: what is configured, or 100. A
      negative depth asks for as much as the server allows. */
  predicate IsBound(k: int, requested: int, configured: Option<int>) {
    var most := if configured.Some? && configured.value > 0 then configured.value else 100;
    && 0 <= k <= most
    && (if requested < 0 then k == most else k <= requested && (k == requested || k == most))
  }

  function EffectiveDepth(requested: int, maxRecursiveDepth: Option<int>): (k: nat)
    ensures IsBound(k, requested, maxRecursiveDepth)
  {
    if requested < 0 || requested > ServerMax(maxRecursiveDepth) then ServerMax(maxRecursiveDepth)
    else requested
  }

  // ----- The emitted query -----

  /** Either `"__recursive".*`, internal columns included, or a list of columns. */
  datatype Projection = RawStar | Columns(names: seq<string>)

  datatype Mode = Plain | Distinct | DistinctOnNode

  datatype Query = Query(
    table: string, viaTable: string, startField: string,
    base: seq<Tok>, joins: seq<seq<Tok>>, step: seq<Tok>,
    mode: Mode, projection: Projection, outer: seq<Tok>,
    limit: Option<Arg>, offset: Option<Arg>)

  datatype Emitted =
    | Emitted(query: Query, values: seq<Value>, rangeMin: int, rangeMax: int)
    | Rejected(msg: string)

  /** `ts AND w`, where an absent condition adds nothing. */
  function AddAnd(ts: seq<Tok>, w: seq<Tok>): seq<Tok> {
    if w == [] then ts else if ts == [] then w else ts + [AndT] + w
  }

  function EmitConditions(tree: Option<Node>, table: string, info: Schema, m: int): (seq<Tok>, seq<Value>)
    requires tree.Some? ==> AllHaveOperands(tree.value)
  {
    if tree.None? then ([], []) else Where(tree.value, table, info, m)
  }

  function JoinConditions(rec: RecursiveInfo, table: string): seq<seq<Tok>> {
    var start := Column(table, rec.startField);
    if rec.viaTable == "" then
      var newField := if rec.recurseUp then rec.startField else rec.recurseField;
      var prevField := if rec.recurseUp then rec.recurseField else rec.startField;
      [[Cond(EqCol(Column(table, newField), Column(CTE, prevField)))]]
    else
      var from, to := Column(rec.viaTable, rec.viaFromCol), Column(rec.viaTable, rec.viaToCol);
      var known := Column(CTE, rec.startField);
      if rec.viaBidirectional then
        [[Cond(EqCol(to, start)), OrT, Cond(EqCol(from, start))],
         [LPar, Cond(EqCol(from, known)), AndT, Cond(EqCol(to, start)), RPar, OrT,
          LPar, Cond(EqCol(to, known)), AndT, Cond(EqCol(from, start)), RPar]]
      else
        [[Cond(EqCol(to, start))], [Cond(EqCol(from, known))]]
  }

  /** The result filter, moved from the table to the CTE. */
  function Repointed(ts: seq<Tok>, table: string): (r: seq<Tok>)
    ensures |r| == |ts|
    ensures forall i :: 0 <= i < |ts| ==> r[i] == if ts[i].Cond? then Cond(RepointAtom(ts[i].atom, table)) else ts[i]
  {
    seq(|ts|, i requires 0 <= i < |ts| => if ts[i].Cond? then Cond(RepointAtom(ts[i].atom, table)) else ts[i])
  }

  function RepointColumn(c: Column, table: string): Column {
    if c.alias == table then Column(CTE, c.name) else c
  }

  function RepointAtom(a: Atom, table: string): Atom {
    match a
    case Compare(lhs, _, _, _, _) => a.(lhs := lhs.(col := RepointColumn(lhs.col, table)))
    case EqCol(l, r) => EqCol(RepointColumn(l, table), RepointColumn(r, table))
    case EqArg(l, arg) => EqArg(RepointColumn(l, table), arg)
    case OnPath(c) => OnPath(RepointColumn(c, table))
    case _ => a
  }

  predicate DepthSelected(req: Request) { req.selectNames.Some? && DEPTH in req.selectNames.value }

  predicate ExposeDepth(req: Request) {
    req.rec.viaTable != "" && DEPTH in req.orderNames && !DepthSelected(req)
  }

  function ProjectionOf(req: Request): Projection {
    var sel :=
      if req.selectNames.Some? then Columns(req.selectNames.value)
      else if req.cachedColumns.Some? then Columns(req.cachedColumns.value)
      else RawStar;
    if ExposeDepth(req) && sel.Columns? then Columns(sel.names + [DEPTH]) else sel
  }

  function ModeOf(req: Request): Mode {
    if req.rec.viaTable == "" then Plain
    else if DepthSelected(req) || ExposeDepth(req) then DistinctOnNode
    else Distinct
  }

  predicate IsInt64(x: int) { -0x8000_0000_0000_0000 <= x < 0x8000_0000_0000_0000 }

  /** What a 64-bit signed integer keeps of x. */
  function I64(x: int): (r: int)
    ensures IsInt64(r) && (IsInt64(x) ==> r == x)
  {
    (x + 0x8000_0000_0000_0000) % 0x1_0000_0000_0000_0000 - 0x8000_0000_0000_0000
  }

  /** LIMIT and OFFSET, and the range recorded for the response; shared with the plain builder. The
      sums are on 64 bits and wrap around. */
  function Page(limit: Option<int>, offset: Option<int>, hasRange: bool, rangeMin: int, rangeMax: int, values: seq<Value>)
    : (r: (Option<Arg>, Option<Arg>, seq<Value>, int, int))
    ensures values <= r.2
  {
    var withLimit := limit.Some? || (hasRange && rangeMax != -1);
    var l := if hasRange then I64(rangeMax - rangeMin + 1) else if limit.Some? then limit.value else 0;
    var max1 := if withLimit && !hasRange then I64(l - 1) else rangeMax;
    var values1 := if withLimit then values + [Num(l)] else values;
    var withOffset := offset.Some? || hasRange;
    var o := if hasRange then rangeMin else if offset.Some? then offset.value else 0;
    var min2 := if withOffset && !hasRange then o else rangeMin;
    var max2 := if withOffset && !hasRange then I64((if max1 == -1 then 0 else max1) + o) else max1;
    var values2 := if withOffset then values1 + [Num(o)] else values1;
    (if withLimit then Some(Marker(|values1|)) else None,
     if withOffset then Some(Marker(|values2|)) else None, values2, min2, max2)
  }

  predicate Emittable(rec: RecursiveInfo) {
    && (rec.viaConditions.Some? ==> AllHaveOperands(rec.viaConditions.value))
    && (rec.walkConditions.Some? ==> AllHaveOperands(rec.walkConditions.value))
  }

  // The value list is: result filter, via filter, walk filter, start value, depth cap, paging.

  function ViaPart(req: Request, mainValues: seq<Value>): (seq<Tok>, seq<Value>)
    requires Emittable(req.rec)
  {
    EmitConditions(req.rec.viaConditions, req.rec.viaTable, None, |mainValues|)
  }

  function WalkAt(req: Request, mainValues: seq<Value>): nat
    requires Emittable(req.rec)
  {
    |mainValues| + |ViaPart(req, mainValues).1|
  }

  function WalkPart(req: Request, mainValues: seq<Value>): (seq<Tok>, seq<Value>)
    requires Emittable(req.rec)
  {
    EmitConditions(req.rec.walkConditions, req.table, req.info, WalkAt(req, mainValues))
  }

  /** The marker of the start value; the next one is the depth cap. */
  function StartAt(req: Request, mainValues: seq<Value>): nat
    requires Emittable(req.rec)
  {
    WalkAt(req, mainValues) + |WalkPart(req, mainValues).1| + 1
  }

  function CteValues(req: Request, cap: int, mainValues: seq<Value>): (values: seq<Value>)
    requires Emittable(req.rec)
    ensures |values| == StartAt(req, mainValues) + 1
  {
    mainValues + ViaPart(req, mainValues).1 + WalkPart(req, mainValues).1 + [Str(req.rec.startValue)] + [Num(cap)]
  }

  function BaseWhere(req: Request, mainValues: seq<Value>): seq<Tok>
    requires Emittable(req.rec)
  {
    AddAnd([Cond(EqArg(Column(req.table, req.rec.startField), Marker(StartAt(req, mainValues))))],
           if req.rec.excludeStart then [] else WalkPart(req, mainValues).0)
  }

  function Guard(req: Request, depthMarker: int): seq<Tok> {
    [Cond(DepthBelow(Marker(depthMarker))), AndT, NotT, Cond(OnPath(Column(req.table, req.rec.startField)))]
  }

  function StepWhere(req: Request, mainValues: seq<Value>): seq<Tok>
    requires Emittable(req.rec)
  {
    AddAnd(AddAnd(Guard(req, StartAt(req, mainValues) + 1),
                  if req.rec.viaTable == "" then [] else ViaPart(req, mainValues).0),
           WalkPart(req, mainValues).0)
  }

  function OuterWhere(req: Request): seq<Tok> {
    AddAnd(if req.rec.excludeStart then [Cond(DepthPositive)] else [], Repointed(req.mainWhere, req.table))
  }

  function Rejection(req: Request, maxRecursiveDepth: Option<int>): Option<string> {
    if maxRecursiveDepth == Some(0) then Some("recursive queries are disabled")
    else if req.hasJoins && req.rec.viaTable != "" then Some("embedding is not supported with via() recursion")
    else if req.selectNames.Some? && PATH in req.selectNames.value then Some("__path is internal")
    else None
  }

  /** The statement for a request that is not rejected, with the depth cap in force. */
  function EmitWithin(req: Request, cap: int, mainValues: seq<Value>): (e: Emitted)
    requires Emittable(req.rec)
    ensures e.Emitted?
  {
    var (limit, offset, values, rangeMin, rangeMax) :=
      Page(req.limit, req.offset, req.hasRange, req.rangeMin, req.rangeMax, CteValues(req, cap, mainValues));
    Emitted(Query(req.table, req.rec.viaTable, req.rec.startField,
                  BaseWhere(req, mainValues), JoinConditions(req.rec, req.table), StepWhere(req, mainValues),
                  ModeOf(req), ProjectionOf(req), OuterWhere(req), limit, offset),
            values, rangeMin, rangeMax)
  }

  /** buildRecursiveSelect: `mainValues` are the values of the result filter. */
  function Emit(req: Request, maxRecursiveDepth: Option<int>, mainValues: seq<Value>): Emitted
    requires Emittable(req.rec)
  {
    match Rejection(req, maxRecursiveDepth)
    case Some(msg) => Rejected(msg)
    case None => EmitWithin(req, EffectiveDepth(req.rec.maxDepth, maxRecursiveDepth), mainValues)
  }

  // ----- Evaluation -----

  datatype Db = Db(main: seq<Row>, edges: seq<Row>)

  /** A row of the CTE with its two internal columns. */
  datatype CteRow = CteRow(row: Row, depth: nat, path: seq<Value>)

  /** Everything an evaluation depends on. */
  datatype Execution = Execution(q: Query, db: Db, values: seq<Value>, meaning: Comparison -> TV)
  {
    function Key(row: Row): Value { Cell(row, q.startField) }

    function BaseEnv(row: Row): Env { Env(map[q.table := row], 0, [], values, meaning) }

    function StepEnv(w: CteRow, row: Row, edge: Row): Env {
      Env((if q.viaTable == "" then map[] else map[q.viaTable := edge])[CTE := w.row][q.table := row],
          w.depth, w.path, values, meaning)
    }

    /** One row combination of the recursive term. */
    predicate Admits(w: CteRow, row: Row, edge: Row) {
      && (forall i :: 0 <= i < |q.joins| ==> Keeps(q.joins[i], StepEnv(w, row, edge)))
      && Keeps(q.step, StepEnv(w, row, edge))
    }

    function Next(w: CteRow, row: Row): CteRow { CteRow(row, w.depth + 1, w.path + [Key(row)]) }

    /** Single-table recursion joins no edge table. */
    function Edges(): seq<Row> { if q.viaTable == "" then [map[]] else db.edges }

    function BaseFrom(rows: seq<Row>): seq<CteRow> {
      if rows == [] then []
      else (if Keeps(q.base, BaseEnv(rows[0])) then [CteRow(rows[0], 0, [Key(rows[0])])] else []) + BaseFrom(rows[1..])
    }

    function StepEdges(w: CteRow, row: Row, edges: seq<Row>): seq<CteRow> {
      if edges == [] then []
      else (if Admits(w, row, edges[0]) then [Next(w, row)] else []) + StepEdges(w, row, edges[1..])
    }

    function StepRows(w: CteRow, rows: seq<Row>): seq<CteRow> {
      if rows == [] then [] else StepEdges(w, rows[0], Edges()) + StepRows(w, rows[1..])
    }

    function Step(working: seq<CteRow>): seq<CteRow> {
      if working == [] then [] else StepRows(working[0], db.main) + Step(working[1..])
    }

    /** The working table after n rounds, duplicates included (UNION ALL). */
    function Level(n: nat): seq<CteRow> {
      if n == 0 then BaseFrom(db.main) else Step(Level(n - 1))
    }

    /** What the first n+1 rounds have put into the CTE. */
    function UpTo(n: nat): seq<CteRow> {
      if n == 0 then Level(0) else UpTo(n - 1) + Level(n)
    }
  }

  // ----- The outer query -----

  /** The CTE row as the outer query sees it, internal columns included. */
  function Visible(r: CteRow): Row { r.row[DEPTH := Num(r.depth)] }

  function OuterEnv(x: Execution, r: CteRow): Env {
    Env(map[CTE := Visible(r)], r.depth, [], x.values, x.meaning)
  }

  predicate Selected(x: Execution, r: CteRow) { Keeps(x.q.outer, OuterEnv(x, r)) }

  /** A result row: the values of the projected columns; RawStar also shows depth and path. */
  datatype OutRow = OutRow(cells: seq<Value>, raw: Option<CteRow>)

  function Project(p: Projection, r: CteRow): OutRow {
    match p
    case RawStar => OutRow([], Some(r))
    case Columns(names) => OutRow(seq(|names|, i requires 0 <= i < |names| => Cell(Visible(r), names[i])), None)
  }

  function SelectedRows(x: Execution, rs: seq<CteRow>): (s: seq<CteRow>)
    ensures forall r :: r in s <==> r in rs && Selected(x, r)
  {
    if rs == [] then []
    else (if Selected(x, rs[0]) then [rs[0]] else []) + SelectedRows(x, rs[1..])
  }

  function ProjectAll(p: Projection, rs: seq<CteRow>): (out: seq<OutRow>)
    ensures |out| == |rs|
    ensures forall i :: 0 <= i < |rs| ==> out[i] == Project(p, rs[i])
  {
    seq(|rs|, i requires 0 <= i < |rs| => Project(p, rs[i]))
  }

  ghost predicate NoDuplicates<T>(s: seq<T>) { forall i, j :: 0 <= i < j < |s| ==> s[i] != s[j] }

  /** Which rows PostgreSQL may return, in some order and before paging, for the CTE rows rs. */
  ghost predicate IsResult(x: Execution, rs: seq<CteRow>, out: seq<OutRow>)
  {
    var kept := SelectedRows(x, rs);
    match x.q.mode
    case Plain => multiset(out) == multiset(ProjectAll(x.q.projection, kept))
    case Distinct =>
      && NoDuplicates(out)
      && (forall o :: o in out <==> o in ProjectAll(x.q.projection, kept))
    case DistinctOnNode =>
      exists chosen :: IsDistinctOn(x, kept, chosen) && out == ProjectAll(x.q.projection, chosen)
  }

  /** DISTINCT ON with ORDER BY node, depth: one row per node, one of those with the least depth. */
  ghost predicate IsDistinctOn(x: Execution, kept: seq<CteRow>, chosen: seq<CteRow>) {
    && (forall c :: c in chosen ==> c in kept)
    && (forall i, j :: 0 <= i < j < |chosen| ==> x.Key(chosen[i].row) != x.Key(chosen[j].row))
    && (forall r :: r in kept ==> exists c :: c in chosen && x.Key(c.row) == x.Key(r.row))
    && (forall c, r :: c in chosen && r in kept && x.Key(c.row) == x.Key(r.row) ==> c.depth <= r.depth)
  }
}
