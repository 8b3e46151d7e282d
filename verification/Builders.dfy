/** The statement builders: how the value list grows and how the placeholder numbers compose. */
module Builders {
  import opened Sql
  import opened Filters
  import opened WhereConditions
  import opened Placeholders
  import opened RecursiveQuery

  class QueryOptions {
    var hasRange: bool
    var rangeMin: int
    var rangeMax: int

    constructor (hasRange: bool, rangeMin: int, rangeMax: int)
      ensures this.hasRange == hasRange && this.rangeMin == rangeMin && this.rangeMax == rangeMax
    {
      this.hasRange, this.rangeMin, this.rangeMax := hasRange, rangeMin, rangeMax;
    }
  }

  /** LIMIT and OFFSET, in buildAfterSelect and in buildRecursiveSelect alike. */
  method AppendPage(limit: Option<int>, offset: Option<int>, options: QueryOptions, valueList: seq<Value>)
    returns (limitArg: Option<Arg>, offsetArg: Option<Arg>, values: seq<Value>)
    modifies options
    ensures var (l, o, vs, rangeMin, rangeMax) :=
        Page(limit, offset, options.hasRange, old(options.rangeMin), old(options.rangeMax), valueList);
      && limitArg == l && offsetArg == o && values == vs
      && options.rangeMin == rangeMin && options.rangeMax == rangeMax && options.hasRange == old(options.hasRange)
  {
    values, limitArg, offsetArg := valueList, None, None;
    var nmarker := |values|;
    if limit.Some? || (options.hasRange && options.rangeMax != -1) {
      nmarker := nmarker + 1;
      limitArg := Some(Marker(nmarker));
      var l;
      if options.hasRange {
        l := I64(options.rangeMax - options.rangeMin + 1);
      } else {
        l := limit.value;
        options.rangeMax := I64(l - 1);
      }
      values := values + [Num(l)];
    }
    if offset.Some? || options.hasRange {
      nmarker := nmarker + 1;
      offsetArg := Some(Marker(nmarker));
      var o;
      if options.hasRange {
        o := options.rangeMin;
      } else {
        o := offset.value;
        options.rangeMin := o;
        if options.rangeMax == -1 {
          options.rangeMax := 0;
        }
        options.rangeMax := I64(options.rangeMax + options.rangeMin);
      }
      values := values + [Num(o)];
    }
  }

  /** The rows from `first` on, `rows` of them if there is an end. */
  datatype Window = Window(first: int, rows: Option<int>)

  /** The window that a range names, with -1 for what is not set (as api/utils.go reads it). */
  function NamedWindow(rangeMin: int, rangeMax: int): Window {
    var first := if rangeMin == -1 then 0 else rangeMin;
    Window(first, if rangeMax == -1 then None else Some(rangeMax - first + 1))
  }

  /** The number that an argument is bound to. */
  function BoundTo(a: Option<Arg>, values: seq<Value>): Option<int> {
    if a.Some? && a.value.Marker? && 1 <= a.value.n <= |values| && values[a.value.n - 1].Num? then Some(values[a.value.n - 1].n)
    else None
  }

  /** The window that LIMIT and OFFSET select. */
  function BoundWindow(limitArg: Option<Arg>, offsetArg: Option<Arg>, values: seq<Value>): Window {
    Window(BoundTo(offsetArg, values).GetOr(0), BoundTo(limitArg, values))
  }

  /** What the parser lets through: no negative numbers, none beyond 64 bits, and -1 for each end of a
      range not given. */
  predicate IsRequested(limit: Option<int>, offset: Option<int>, hasRange: bool, rangeMin: int, rangeMax: int) {
    && (limit.Some? ==> limit.value >= 0) && (offset.Some? ==> offset.value >= 0)
    && (limit.Some? ==> IsInt64(limit.value)) && (offset.Some? ==> IsInt64(offset.value))
    && rangeMin >= -1 && rangeMax >= -1 && IsInt64(rangeMin) && IsInt64(rangeMax)
    && (!hasRange ==> rangeMin == -1 && rangeMax == -1)
  }

  /** A range with a start, and with an end unless there is no limit; or no range, and a limit that
      is not zero or neither limit nor offset. The number of rows and the last row must fit in 64 bits. */
  predicate KeepsWindow(limit: Option<int>, offset: Option<int>, hasRange: bool, rangeMin: int, rangeMax: int) {
    if hasRange then rangeMin != -1 && (if rangeMax == -1 then limit.None? else IsInt64(rangeMax - rangeMin + 1))
    else if limit.Some? then limit.value != 0 && IsInt64(offset.GetOr(0) + limit.value - 1)
    else offset.None?
  }

  /** For every request LIMIT and OFFSET select the window that the range options
      afterwards name if and only if the request is one of these. */
  lemma PageIsWindowExactly(limit: Option<int>, offset: Option<int>, hasRange: bool, rangeMin: int, rangeMax: int, values: seq<Value>)
    requires IsRequested(limit, offset, hasRange, rangeMin, rangeMax)
    ensures var (l, o, vs, min, max) := Page(limit, offset, hasRange, rangeMin, rangeMax, values);
      BoundWindow(l, o, vs) == NamedWindow(min, max) <==> KeepsWindow(limit, offset, hasRange, rangeMin, rangeMax)
  {
  }

  function RowsOf(rangeMin: int, rangeMax: int): int {
    var rows := rangeMax - rangeMin + 1;
    if rows < 0x8000_0000_0000_0000 then rows else rows - 0x1_0000_0000_0000_0000
  }

  /** The window selected is the one that was asked for: the range if there is one, else offset and
      limit; the number of rows of a range that does not fit in 64 bits comes out negative. */
  lemma PageSelects(limit: Option<int>, offset: Option<int>, hasRange: bool, rangeMin: int, rangeMax: int, values: seq<Value>)
    requires IsRequested(limit, offset, hasRange, rangeMin, rangeMax)
    ensures var (l, o, vs, min, max) := Page(limit, offset, hasRange, rangeMin, rangeMax, values);
      BoundWindow(l, o, vs) ==
        if hasRange then Window(rangeMin, if rangeMax != -1 || limit.Some? then Some(RowsOf(rangeMin, rangeMax)) else None)
        else Window(offset.GetOr(0), limit)
  {
  }

  /** The ways to fail, an example of each: offset=5 names one row and selects all that follow;
      limit=0&offset=5 names one row and selects none; limit=0 names no end and selects none; a limit
      beside `5-` binds LIMIT to -5; `-5` binds OFFSET to -1; `0-9223372036854775807` binds LIMIT to the
      least number; and the largest limit with offset=2 names a negative number of rows. */
  lemma WindowsThatDiffer(values: seq<Value>)
    ensures var (l, o, vs, min, max) := Page(None, Some(5), false, -1, -1, values);
      BoundWindow(l, o, vs) == Window(5, None) && NamedWindow(min, max) == Window(5, Some(1))
    ensures var (l, o, vs, min, max) := Page(Some(0), Some(5), false, -1, -1, values);
      BoundWindow(l, o, vs) == Window(5, Some(0)) && NamedWindow(min, max) == Window(5, Some(1))
    ensures var (l, o, vs, min, max) := Page(Some(0), None, false, -1, -1, values);
      BoundWindow(l, o, vs) == Window(0, Some(0)) && NamedWindow(min, max) == Window(0, None)
    ensures var (l, o, vs, min, max) := Page(Some(10), None, true, 5, -1, values);
      BoundWindow(l, o, vs) == Window(5, Some(-5)) && NamedWindow(min, max) == Window(5, None)
    ensures var (l, o, vs, min, max) := Page(None, None, true, -1, 5, values);
      BoundWindow(l, o, vs) == Window(-1, Some(7)) && NamedWindow(min, max) == Window(0, Some(6))
    ensures var (l, o, vs, min, max) := Page(None, None, true, 0, 0x7FFF_FFFF_FFFF_FFFF, values);
      BoundWindow(l, o, vs) == Window(0, Some(-0x8000_0000_0000_0000)) && NamedWindow(min, max) == Window(0, Some(0x8000_0000_0000_0000))
    ensures var (l, o, vs, min, max) := Page(Some(0x7FFF_FFFF_FFFF_FFFF), Some(2), false, -1, -1, values);
      BoundWindow(l, o, vs) == Window(2, Some(0x7FFF_FFFF_FFFF_FFFF)) && NamedWindow(min, max) == Window(2, Some(-0x8000_0000_0000_0001))
  {
    assert values + [Num(0)] + [Num(5)] == values + [Num(0), Num(5)];
  }

  function OptionalMarker(a: Option<Arg>): seq<int> {
    if a.Some? then ArgMarkers([a.value]) else []
  }

  /** Paging continues the run of markers. */
  lemma PageNumbered(limit: Option<int>, offset: Option<int>, hasRange: bool, rangeMin: int, rangeMax: int, values: seq<Value>)
    ensures var (l, o, vs, min, max) := Page(limit, offset, hasRange, rangeMin, rangeMax, values);
      Run(0, |values|) + OptionalMarker(l) + OptionalMarker(o) == Run(0, |vs|)
  {
    hide I64;
    var (l, o, vs, min, max) := Page(limit, offset, hasRange, rangeMin, rangeMax, values);
    if l.Some? {
      ArgMarkersOne(l.value);
    }
    if o.Some? {
      ArgMarkersOne(o.value);
    }
  }

  // ----- INSERT, UPDATE -----

  type Record = map<string, Value>

  /** columns= restricts the columns of the record; without it all of them are used. */
  function Included(record: Record, columns: set<string>): set<string> {
    if columns == {} then record.Keys else record.Keys * columns
  }

  function ValueOf(record: Record, name: string): Value { if name in record then record[name] else Null }

  ghost predicate Enumerates(names: seq<string>, all: set<string>) {
    (forall i, j :: 0 <= i < j < |names| ==> names[i] != names[j]) && (set n | n in names) == all
  }

  /** The columns of a record, in whatever order the map yields them. */
  method ListColumns(record: Record, columns: set<string>) returns (names: seq<string>)
    ensures Enumerates(names, Included(record, columns))
    ensures forall n :: n in names <==> n in record && (columns == {} || n in columns)
  {
    names := [];
    var rest := record.Keys;
    while rest != {}
      invariant rest <= record.Keys
      invariant Enumerates(names, Included(record, columns) - rest)
      decreases rest
    {
      var key :| key in rest;
      assert key !in names;
      if columns == {} || key in columns {
        assert (set n | n in names + [key]) == (set n | n in names) + {key};
        assert Included(record, columns) - (rest - {key}) == (Included(record, columns) - rest) + {key};
        names := names + [key];
      } else {
        assert Included(record, columns) - (rest - {key}) == Included(record, columns) - rest;
      }
      rest := rest - {key};
    }
    assert Included(record, columns) - {} == Included(record, columns);
    forall n ensures n in names <==> n in record && (columns == {} || n in columns) {
      assert n in names <==> n in (set k | k in names);
      assert n in Included(record, columns) <==> n in record.Keys && (columns == {} || n in columns);
    }
  }

  /** The markers m+1, ..., m+|names| of one row, bound to the record's values. */
  ghost predicate RowBound(row: seq<Arg>, m: nat, names: seq<string>, record: Record, values: seq<Value>) {
    && |row| == |names| && m + |names| <= |values|
    && forall j :: 0 <= j < |names| ==> row[j] == Marker(m + j + 1) && values[m + j] == ValueOf(record, names[j])
  }

  /** BuildInsert: the builder takes its columns from the first record, so it needs one. Marker
      i*n+j+1 stands for column j of record i and is bound to exactly that value. */
  method BuildInsert(records: seq<Record>, columns: set<string>)
    returns (names: seq<string>, rows: seq<seq<Arg>>, valueList: seq<Value>)
    requires |records| > 0
    ensures Enumerates(names, Included(records[0], columns))
    ensures |rows| == |records| && |valueList| == |records| * |names|
    ensures forall i :: 0 <= i < |rows| ==> RowBound(rows[i], i * |names|, names, records[i], valueList)
  {
    hide RowBound;
    names := ListColumns(records[0], columns);
    var n := |names|;
    rows, valueList := [], [];
    for i := 0 to |records|
      invariant |rows| == i && |valueList| == i * n
      invariant forall k :: 0 <= k < i ==> RowBound(rows[k], k * n, names, records[k], valueList)
    {
      ghost var before := valueList;
      var row;
      row, valueList := InsertRow(names, records[i], i * n, valueList);
      forall k | 0 <= k < i ensures RowBound(rows[k], k * n, names, records[k], valueList) {
        RowStaysBound(rows[k], k * n, names, records[k], before, valueList);
      }
      assert i * n + n == (i + 1) * n;
      rows := rows + [row];
    }
  }

  /** One row: its markers, and its values behind those there are. */
  method InsertRow(names: seq<string>, record: Record, m: nat, values: seq<Value>) returns (row: seq<Arg>, valueList: seq<Value>)
    requires |values| == m
    ensures |valueList| == m + |names| && values <= valueList && RowBound(row, m, names, record, valueList)
  {
    row, valueList := [], values;
    for j := 0 to |names|
      invariant |row| == j && |valueList| == m + j && values <= valueList
      invariant forall l :: 0 <= l < j ==> row[l] == Marker(m + l + 1) && valueList[m + l] == ValueOf(record, names[l])
    {
      row := row + [Marker(m + (j + 1))];
      valueList := valueList + [ValueOf(record, names[j])];
    }
  }

  lemma RowStaysBound(row: seq<Arg>, m: nat, names: seq<string>, record: Record, values: seq<Value>, values': seq<Value>)
    requires RowBound(row, m, names, record, values) && values <= values'
    ensures RowBound(row, m, names, record, values')
  {
  }

  /** What the rows mean: evaluating the marker in row i, column j gives that field of record i,
      or NULL where it has none. */
  lemma InsertedValue(row: seq<Arg>, m: nat, names: seq<string>, record: Record, values: seq<Value>, j: nat)
    requires RowBound(row, m, names, record, values) && j < |names|
    ensures Resolve(row[j], values) == Datum(if names[j] in record then record[names[j]] else Null)
  {
    assert row[j] == Marker(m + j + 1);
  }

  function RowMarkers(rows: seq<seq<Arg>>): seq<int> {
    if rows == [] then [] else RowMarkers(rows[..|rows| - 1]) + ArgMarkers(rows[|rows| - 1])
  }

  /** The markers of an INSERT, row by row, are the run 1..len(values). */
  lemma {:induction false} InsertNumbered(rows: seq<seq<Arg>>, names: seq<string>, records: seq<Record>, values: seq<Value>)
    requires |rows| <= |records|
    requires forall i :: 0 <= i < |rows| ==> RowBound(rows[i], i * |names|, names, records[i], values)
    ensures RowMarkers(rows) == Run(0, |rows| * |names|)
  {
    hide RowBound, ArgMarkers, Run;
    if rows != [] {
      var k := |rows| - 1;
      InsertNumbered(rows[..k], names, records, values);
      RowIsRun(rows[k], k * |names|, names, records[k], values);
      OneMoreRow(k, |names|);
    } else {
      NoRows(|names|);
    }
  }

  lemma NoRows(n: nat)
    ensures 0 * n == 0 && Run(0, 0 * n) == []
  {
  }

  lemma OneMoreRow(k: nat, n: nat)
    ensures Run(0, (k + 1) * n) == Run(0, k * n) + Run(k * n, n)
  {
    var m: nat := k * n;
    assert (k + 1) * n == m + n;
    RunConcat(0, m, n);
  }

  lemma RowIsRun(row: seq<Arg>, m: nat, names: seq<string>, record: Record, values: seq<Value>)
    requires RowBound(row, m, names, record, values)
    ensures ArgMarkers(row) == Run(m, |names|)
  {
    RowNumbered(row, m, |names|);
  }

  lemma {:induction false} RowNumbered(row: seq<Arg>, m: int, n: nat)
    requires |row| == n && forall j :: 0 <= j < n ==> row[j] == Marker(m + j + 1)
    ensures ArgMarkers(row) == Run(m, n)
  {
    if n > 0 {
      RowNumbered(row[..n - 1], m, n - 1);
      assert row == row[..n - 1] + [row[n - 1]];
      ArgMarkersConcat(row[..n - 1], [row[n - 1]]);
      ArgMarkersOne(row[n - 1]);
    }
  }

  /** BuildUpdate: SET takes the first markers, the condition continues from there. */
  method BuildUpdate(table: string, info: Schema, record: Record, columns: set<string>, conditions: WhereConditionNode)
    returns (names: seq<string>, pairs: seq<Arg>, where: seq<Tok>, valueList: seq<Value>)
    requires conditions.Valid() && AllHaveOperands(conditions.tree)
    modifies conditions.Repr
    ensures Enumerates(names, Included(record, columns)) && |pairs| == |names| <= |valueList|
    ensures forall i :: 0 <= i < |names| ==>
      pairs[i] == Marker(i + 1) && Resolve(pairs[i], valueList) == Datum(if names[i] in record then record[names[i]] else Null)
    ensures where == Where(old(conditions.tree), table, info, |names|).0
    ensures valueList[|names|..] == Where(old(conditions.tree), table, info, |names|).1
    ensures ArgMarkers(pairs) + Markers(where) == Run(0, |valueList|)
    ensures Complete(ArgMarkers(pairs) + Markers(where), valueList)
  {
    names := ListColumns(record, columns);
    pairs, valueList := [], [];
    for i := 0 to |names|
      invariant |pairs| == |valueList| == i
      invariant forall k :: 0 <= k < i ==> pairs[k] == Marker(k + 1) && valueList[k] == ValueOf(record, names[k])
    {
      pairs := pairs + [Marker(i + 1)];
      valueList := valueList + [ValueOf(record, names[i])];
    }
    var whereValueList;
    ghost var tree := conditions.tree;
    where, whereValueList := WhereClause(table, info, conditions, |names|);
    WhereNumbered(tree, table, info, |names|);
    RowNumbered(pairs, 0, |names|);
    RunExtends(valueList, whereValueList);
    valueList := valueList + whereValueList;
    RunIsComplete(ArgMarkers(pairs) + Markers(where), valueList);
  }

  /** BuildSelect / BuildDelete without recursion: the condition first, then the page. */
  lemma SelectIsComplete(n: Node, table: string, info: Schema,
                         limit: Option<int>, offset: Option<int>, hasRange: bool, rangeMin: int, rangeMax: int)
    requires AllHaveOperands(n)
    ensures var (where, list) := Where(n, table, info, 0);
      var (l, o, vs, min, max) := Page(limit, offset, hasRange, rangeMin, rangeMax, list);
      Complete(Markers(where) + OptionalMarker(l) + OptionalMarker(o), vs)
  {
    var (where, list) := Where(n, table, info, 0);
    var (l, o, vs, min, max) := Page(limit, offset, hasRange, rangeMin, rangeMax, list);
    WhereNumbered(n, table, info, 0);
    PageNumbered(limit, offset, hasRange, rangeMin, rangeMax, list);
    RunIsComplete(Markers(where) + OptionalMarker(l) + OptionalMarker(o), vs);
  }

  // ----- The recursive query -----

  function JoinMarkers(joins: seq<seq<Tok>>): seq<int> {
    if joins == [] then [] else Markers(joins[0]) + JoinMarkers(joins[1..])
  }

  /** All markers of the recursive query, in the order of the text. */
  function QueryMarkers(q: Query): seq<int> {
    Markers(q.base) + JoinMarkers(q.joins) + Markers(q.step) + Markers(q.outer)
    + OptionalMarker(q.limit) + OptionalMarker(q.offset)
  }

  lemma {:induction false} RepointedMarkers(ts: seq<Tok>, table: string)
    ensures Markers(Repointed(ts, table)) == Markers(ts)
  {
    if ts != [] {
      assert Repointed(ts, table)[1..] == Repointed(ts[1..], table);
      RepointedMarkers(ts[1..], table);
    }
  }

  lemma AddAndMarkers(ts: seq<Tok>, w: seq<Tok>)
    ensures Markers(AddAnd(ts, w)) == Markers(ts) + Markers(w)
  {
    if ts != [] && w != [] {
      MarkersInside([], ts, [AndT]);
      assert [] + ts == ts;
      MarkersConcat(ts + [AndT], w);
    }
  }

  lemma EmittedNumbered(tree: Option<Node>, table: string, info: Schema, m: nat)
    requires tree.Some? ==> AllHaveOperands(tree.value)
    ensures var (w, list) := EmitConditions(tree, table, info, m); Markers(w) == Run(m, |list|)
  {
    if tree.Some? {
      WhereNumbered(tree.value, table, info, m);
    }
  }

  lemma GuardMarkers(req: Request, k: int)
    ensures Markers(Guard(req, k)) == [k]
  {
    var a, b := DepthBelow(Marker(k)), OnPath(Column(req.table, req.rec.startField));
    assert Guard(req, k) == [Cond(a)] + [AndT, NotT] + [Cond(b)];
    MarkersConcat([Cond(a)] + [AndT, NotT], [Cond(b)]);
    MarkersConcat([Cond(a)], [AndT, NotT]);
    SilentMarkers([AndT, NotT]);
    MarkersOne(a);
    MarkersOne(b);
    ArgMarkersOne(Marker(k));
  }

  predicate ColumnsOnly(ts: seq<Tok>) { forall i :: 0 <= i < |ts| && ts[i].Cond? ==> ts[i].atom.EqCol? }

  lemma {:induction false} ColumnsHaveNoMarkers(ts: seq<Tok>)
    requires ColumnsOnly(ts)
    ensures Markers(ts) == []
  {
    if ts != [] {
      ColumnsHaveNoMarkers(ts[1..]);
    }
  }

  lemma {:induction false} SilentJoins(joins: seq<seq<Tok>>)
    requires forall i :: 0 <= i < |joins| ==> ColumnsOnly(joins[i])
    ensures JoinMarkers(joins) == []
  {
    if joins != [] {
      ColumnsHaveNoMarkers(joins[0]);
      SilentJoins(joins[1..]);
    }
  }

  lemma BaseMarkers(req: Request, mainValues: seq<Value>)
    requires Emittable(req.rec)
    ensures Markers(BaseWhere(req, mainValues)) == [StartAt(req, mainValues)]
      + (if req.rec.excludeStart then [] else Run(WalkAt(req, mainValues), |WalkPart(req, mainValues).1|))
  {
    var a := EqArg(Column(req.table, req.rec.startField), Marker(StartAt(req, mainValues)));
    EmittedNumbered(req.rec.walkConditions, req.table, req.info, WalkAt(req, mainValues));
    AddAndMarkers([Cond(a)], if req.rec.excludeStart then [] else WalkPart(req, mainValues).0);
    MarkersOne(a);
    ArgMarkersOne(Marker(StartAt(req, mainValues)));
  }

  lemma StepMarkers(req: Request, mainValues: seq<Value>)
    requires Emittable(req.rec)
    ensures Markers(StepWhere(req, mainValues)) == [StartAt(req, mainValues) + 1]
      + (if req.rec.viaTable == "" then [] else Run(|mainValues|, |ViaPart(req, mainValues).1|))
      + Run(WalkAt(req, mainValues), |WalkPart(req, mainValues).1|)
  {
    hide Run, AddAnd, Guard;
    var via := if req.rec.viaTable == "" then [] else ViaPart(req, mainValues).0;
    var guard := Guard(req, StartAt(req, mainValues) + 1);
    EmittedNumbered(req.rec.viaConditions, req.rec.viaTable, None, |mainValues|);
    EmittedNumbered(req.rec.walkConditions, req.table, req.info, WalkAt(req, mainValues));
    GuardMarkers(req, StartAt(req, mainValues) + 1);
    GluedMarkers(guard, via, WalkPart(req, mainValues).0);
    MarkersConcat([], []);
  }

  lemma GluedMarkers(a: seq<Tok>, b: seq<Tok>, c: seq<Tok>)
    ensures Markers(AddAnd(AddAnd(a, b), c)) == Markers(a) + Markers(b) + Markers(c)
  {
    AddAndMarkers(a, b);
    AddAndMarkers(AddAnd(a, b), c);
  }

  lemma OuterMarkers(req: Request)
    ensures Markers(OuterWhere(req)) == Markers(req.mainWhere)
  {
    var pre := if req.rec.excludeStart then [Cond(DepthPositive)] else [];
    RepointedMarkers(req.mainWhere, req.table);
    MarkersOne(DepthPositive);
    AddAndMarkers(pre, Repointed(req.mainWhere, req.table));
  }

  /** The markers of the four conditions, in the order of the text. */
  function ConditionMarkers(req: Request, mainValues: seq<Value>): seq<int>
    requires Emittable(req.rec)
  {
    Markers(BaseWhere(req, mainValues)) + JoinMarkers(JoinConditions(req.rec, req.table))
    + Markers(StepWhere(req, mainValues)) + Markers(OuterWhere(req))
  }

  /** They use exactly the markers of the CTE's values. */
  lemma ConditionMarkersCover(req: Request, mainValues: seq<Value>, m: int)
    requires Emittable(req.rec) && Markers(req.mainWhere) == Run(0, |mainValues|)
    requires req.rec.viaTable == "" ==> req.rec.viaConditions.None?
    ensures m in ConditionMarkers(req, mainValues) <==> 1 <= m <= StartAt(req, mainValues) + 1
  {
    hide Run, BaseWhere, StepWhere, OuterWhere, Markers;
    BaseMarkers(req, mainValues);
    SilentJoins(JoinConditions(req.rec, req.table));
    StepMarkers(req, mainValues);
    OuterMarkers(req);
    InRun(0, |mainValues|, m);
    InRun(|mainValues|, |ViaPart(req, mainValues).1|, m);
    InRun(WalkAt(req, mainValues), |WalkPart(req, mainValues).1|, m);
  }

  /** Main result: in the recursive query, too, every placeholder points at a value and every value
      is used. via filters occur with a via table only; that is how the parser makes them. */
  lemma RecursiveQueryIsComplete(req: Request, maxRecursiveDepth: Option<int>, mainValues: seq<Value>)
    requires Emittable(req.rec) && Emit(req, maxRecursiveDepth, mainValues).Emitted?
    requires Markers(req.mainWhere) == Run(0, |mainValues|)
    requires req.rec.viaTable == "" ==> req.rec.viaConditions.None?
    ensures var e := Emit(req, maxRecursiveDepth, mainValues); Complete(QueryMarkers(e.query), e.values)
  {
    var e := Emit(req, maxRecursiveDepth, mainValues);
    var cte := CteValues(req, EffectiveDepth(req.rec.maxDepth, maxRecursiveDepth), mainValues);
    PageNumbered(req.limit, req.offset, req.hasRange, req.rangeMin, req.rangeMax, cte);
    QueryIsComplete(req, mainValues, e.query, |cte|, e.values);
  }

  lemma QueryIsComplete(req: Request, mainValues: seq<Value>, q: Query, k: nat, values: seq<Value>)
    requires Emittable(req.rec) && Markers(req.mainWhere) == Run(0, |mainValues|)
    requires req.rec.viaTable == "" ==> req.rec.viaConditions.None?
    requires q.base == BaseWhere(req, mainValues) && q.joins == JoinConditions(req.rec, req.table)
    requires q.step == StepWhere(req, mainValues) && q.outer == OuterWhere(req) && k == StartAt(req, mainValues) + 1
    requires Run(0, k) + OptionalMarker(q.limit) + OptionalMarker(q.offset) == Run(0, |values|)
    ensures Complete(QueryMarkers(q), values)
  {
    ConditionMarkersCoverAll(req, mainValues);
    PagedIsComplete(ConditionMarkers(req, mainValues), OptionalMarker(q.limit), OptionalMarker(q.offset), k, values);
  }

  lemma ConditionMarkersCoverAll(req: Request, mainValues: seq<Value>)
    requires Emittable(req.rec) && Markers(req.mainWhere) == Run(0, |mainValues|)
    requires req.rec.viaTable == "" ==> req.rec.viaConditions.None?
    ensures forall m :: m in ConditionMarkers(req, mainValues) <==> 1 <= m <= StartAt(req, mainValues) + 1
  {
    forall m ensures m in ConditionMarkers(req, mainValues) <==> 1 <= m <= StartAt(req, mainValues) + 1 {
      ConditionMarkersCover(req, mainValues, m);
    }
  }

  lemma PagedIsComplete(conditions: seq<int>, l: seq<int>, o: seq<int>, k: nat, values: seq<Value>)
    requires forall m :: m in conditions <==> 1 <= m <= k
    requires Run(0, k) + l + o == Run(0, |values|)
    ensures Complete(conditions + l + o, values)
  {
    var all, page := conditions + l + o, l + o;
    assert all == conditions + page && Run(0, k) + page == Run(0, k) + l + o;
    forall i | 0 <= i < |all| ensures 1 <= all[i] <= |values| {
      if i < |conditions| {
        assert conditions[i] in conditions;
      } else {
        assert (Run(0, k) + page)[k + i - |conditions|] == all[i];
      }
    }
    forall v | 1 <= v <= |values| ensures v in all {
      if v > k {
        assert (Run(0, k) + page)[v - 1] == v;
        InSuffix(conditions, page, v);
      } else {
        assert v in conditions;
      }
    }
  }

  lemma InSuffix(a: seq<int>, b: seq<int>, m: int)
    requires m in b
    ensures m in a + b
  {
    var i :| 0 <= i < |b| && b[i] == m;
    assert (a + b)[|a| + i] == m;
  }

  lemma InRun(m: int, k: nat, x: int)
    ensures x in Run(m, k) <==> m + 1 <= x <= m + k
  {
    if m + 1 <= x <= m + k {
      assert Run(m, k)[x - m - 1] == x;
    }
  }

  ghost predicate Holds(node: WhereConditionNode?, tree: Option<Node>)
    reads node, if node == null then {} else node.Repr
  {
    if node == null then tree.None? else node.Valid() && tree == Some(node.tree)
  }

  /** Prints one of the optional filters. */
  method PrintConditions(node: WhereConditionNode?, ghost tree: Option<Node>, table: string, info: Schema, nmarker: nat)
    returns (where: seq<Tok>, valueList: seq<Value>)
    requires Holds(node, tree) && (tree.Some? ==> AllHaveOperands(tree.value))
    modifies if node == null then {} else node.Repr
    ensures (where, valueList) == EmitConditions(tree, table, info, nmarker)
    ensures node != null ==> node.Valid() && node.Repr == old(node.Repr) && node.tree == Marked(tree.value)
  {
    where, valueList := [], [];
    if node != null {
      where, valueList := WhereClause(table, info, node, nmarker);
    }
  }

  /** buildRecursiveSelect itself. The filter trees of the request are given as the linked nodes
      that are printed and marked. */
  method BuildRecursiveSelect(req: Request, viaConditions: WhereConditionNode?, walkConditions: WhereConditionNode?,
                              maxRecursiveDepth: Option<int>, mainValues: seq<Value>, options: QueryOptions)
    returns (e: Emitted)
    requires Emittable(req.rec)
    requires Holds(viaConditions, req.rec.viaConditions) && Holds(walkConditions, req.rec.walkConditions)
    requires viaConditions != null && walkConditions != null ==> viaConditions.Repr !! walkConditions.Repr
    requires (viaConditions != null ==> options !in viaConditions.Repr) && (walkConditions != null ==> options !in walkConditions.Repr)
    requires req.hasRange == options.hasRange && req.rangeMin == options.rangeMin && req.rangeMax == options.rangeMax
    modifies options
    modifies if viaConditions == null then {} else viaConditions.Repr
    modifies if walkConditions == null then {} else walkConditions.Repr
    ensures e == Emit(req, maxRecursiveDepth, mainValues)
    ensures e.Emitted? ==> options.rangeMin == e.rangeMin && options.rangeMax == e.rangeMax
    ensures e.Rejected? ==> options.rangeMin == old(options.rangeMin) && options.rangeMax == old(options.rangeMax)
  {
    var rec := req.rec;
    if maxRecursiveDepth == Some(0) {
      return Rejected("recursive queries are disabled");
    }
    if req.hasJoins && rec.viaTable != "" {
      return Rejected("embedding is not supported with via() recursion");
    }
    if req.selectNames.Some? && PATH in req.selectNames.value {
      return Rejected("__path is internal");
    }
    var serverMax := DEFAULT_MAX_RECURSIVE_DEPTH;
    if maxRecursiveDepth.Some? && maxRecursiveDepth.value > 0 {
      serverMax := maxRecursiveDepth.value;
    }
    var maxDepth := rec.maxDepth;
    if maxDepth < 0 || maxDepth > serverMax {
      maxDepth := serverMax;
    }
    e := WriteQuery(req, viaConditions, walkConditions, maxDepth, mainValues, options);
  }

  /** Its text and its values, once the cap is known. */
  method WriteQuery(req: Request, viaConditions: WhereConditionNode?, walkConditions: WhereConditionNode?,
                    maxDepth: nat, mainValues: seq<Value>, options: QueryOptions)
    returns (e: Emitted)
    requires Emittable(req.rec)
    requires Holds(viaConditions, req.rec.viaConditions) && Holds(walkConditions, req.rec.walkConditions)
    requires viaConditions != null && walkConditions != null ==> viaConditions.Repr !! walkConditions.Repr
    requires (viaConditions != null ==> options !in viaConditions.Repr) && (walkConditions != null ==> options !in walkConditions.Repr)
    requires req.hasRange == options.hasRange && req.rangeMin == options.rangeMin && req.rangeMax == options.rangeMax
    modifies options
    modifies if viaConditions == null then {} else viaConditions.Repr
    modifies if walkConditions == null then {} else walkConditions.Repr
    ensures e == EmitWithin(req, maxDepth, mainValues)
    ensures options.rangeMin == e.rangeMin && options.rangeMax == e.rangeMax
  {
    var viaWhere, walkWhere, valueList := PrintFilters(req, viaConditions, walkConditions, mainValues);
    var base, step, outer;
    base, step, outer, valueList := WriteArms(req, viaWhere, walkWhere, maxDepth, valueList, mainValues);
    var limit, offset;
    limit, offset, valueList := AppendPage(req.limit, req.offset, options, valueList);
    e := Emitted(Query(req.table, req.rec.viaTable, req.rec.startField, base, JoinConditions(req.rec, req.table), step,
                       ModeOf(req), ProjectionOf(req), outer, limit, offset),
                 valueList, options.rangeMin, options.rangeMax);
  }

  /** The via filters first, then the walk filters: that fixes their markers. */
  method PrintFilters(req: Request, viaConditions: WhereConditionNode?, walkConditions: WhereConditionNode?, mainValues: seq<Value>)
    returns (viaWhere: seq<Tok>, walkWhere: seq<Tok>, valueList: seq<Value>)
    requires Emittable(req.rec)
    requires Holds(viaConditions, req.rec.viaConditions) && Holds(walkConditions, req.rec.walkConditions)
    requires viaConditions != null && walkConditions != null ==> viaConditions.Repr !! walkConditions.Repr
    modifies if viaConditions == null then {} else viaConditions.Repr
    modifies if walkConditions == null then {} else walkConditions.Repr
    ensures viaWhere == ViaPart(req, mainValues).0 && walkWhere == WalkPart(req, mainValues).0
    ensures valueList == mainValues + ViaPart(req, mainValues).1 + WalkPart(req, mainValues).1
  {
    var rec, viaValues, walkValues := req.rec, [], [];
    viaWhere, viaValues := PrintConditions(viaConditions, rec.viaConditions, rec.viaTable, None, |mainValues|);
    valueList := mainValues + viaValues;
    walkWhere, walkValues := PrintConditions(walkConditions, rec.walkConditions, req.table, req.info, |valueList|);
    valueList := valueList + walkValues;
  }

  /** The three WHERE clauses, written with the running marker. */
  method WriteArms(req: Request, viaWhere: seq<Tok>, walkWhere: seq<Tok>, maxDepth: nat, values: seq<Value>, ghost mainValues: seq<Value>)
    returns (base: seq<Tok>, step: seq<Tok>, outer: seq<Tok>, valueList: seq<Value>)
    requires Emittable(req.rec)
    requires viaWhere == ViaPart(req, mainValues).0 && walkWhere == WalkPart(req, mainValues).0
    requires values == mainValues + ViaPart(req, mainValues).1 + WalkPart(req, mainValues).1
    ensures base == BaseWhere(req, mainValues) && step == StepWhere(req, mainValues) && outer == OuterWhere(req)
    ensures valueList == CteValues(req, maxDepth, mainValues)
  {
    var rec := req.rec;
    var start := Column(req.table, rec.startField);
    var nmarker := |values|;
    nmarker := nmarker + 1;
    base := [Cond(EqArg(start, Marker(nmarker)))];
    valueList := values + [Str(rec.startValue)];
    if walkWhere != [] && !rec.excludeStart {
      base := base + [AndT] + walkWhere;
    }
    nmarker := nmarker + 1;
    step := [Cond(DepthBelow(Marker(nmarker))), AndT, NotT, Cond(OnPath(start))];
    valueList := valueList + [Num(maxDepth)];
    if rec.viaTable != "" && viaWhere != [] {
      step := step + [AndT] + viaWhere;
    }
    if walkWhere != [] {
      step := step + [AndT] + walkWhere;
    }
    outer := [];
    if rec.excludeStart {
      outer := [Cond(DepthPositive)];
    }
    if req.mainWhere != [] {
      if outer != [] {
        outer := outer + [AndT];
      }
      outer := outer + Repointed(req.mainWhere, req.table);
    }
  }
}
