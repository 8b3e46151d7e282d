/** What single comparisons keep, told in SQL's own terms: a reading of the operators that knows nothing
    of the builder, and the rows that the printed conditions keep under it. */
module Comparisons {
  import opened Sql
  import opened Decimals
  import opened ByteOrder
  import opened Filters
  import opened Precedence

  // ----- The operators (sections 9.2 and 9.24 of the PostgreSQL manual) -----

  datatype Order = Less | Same | More | Incomparable

  /** A cell beside a parameter, which takes the type of the cell. Texts are in byte order. */
  function Compared3(v: Value, t: string): Order {
    match v
    case Null => Incomparable
    case Num(n) =>
      (match NumberIn(t)
       case None => Incomparable
       case Some(k) => if n < k then Less else if n == k then Same else More)
    case Str(s) => if s == t then Same else if LexLe(s, t) then Less else More
  }

  function ByOrder(op: string, o: Order): TV {
    if o.Incomparable? then Unknown
    else match op
      case "=" => Of(o.Same?)
      case "<>" => Of(!o.Same?)
      case "<" => Of(o.Less?)
      case "<=" => Of(!o.More?)
      case ">" => Of(o.More?)
      case ">=" => Of(!o.Less?)
      case _ => Unknown
  }

  /** IS NULL and its like. Boolean cells are the texts true and false. */
  function IsTruth(v: Value, word: string): TV {
    match word
    case "null" => Of(v == Null)
    case "NOT NULL" => Of(v != Null)
    case "true" => Of(v == Str("true"))
    case "false" => Of(v == Str("false"))
    case "unknown" => Of(v == Null)
    case _ => Unknown
  }

  function OneTruth(op: string, v: Value, b: Bound): TV {
    match b
    case Datum(Str(t)) => ByOrder(op, Compared3(v, t))
    case Word(w) => if w == "true" || w == "false" then ByOrder(op, Compared3(v, w)) else Unknown
    case _ => Unknown
  }

  function AnyEqual(v: Value, bs: seq<Bound>): TV {
    if bs == [] then False else Or3(OneTruth("=", v, bs[0]), AnyEqual(v, bs[1..]))
  }

  /** PostgreSQL's answer, for columns without wrappers; Unknown for the operators that are not modelled. */
  function Truth(c: Comparison): TV {
    if c.jsonPath != "" || c.toJsonb || c.tsLang.Some? || c.fn != "" then Unknown
    else if c.op == "IS" then (if |c.args| == 1 && c.args[0].Word? then IsTruth(c.value, c.args[0].w) else Unknown)
    else if c.op == "IN" then AnyEqual(c.value, c.args)
    else if c.op == "= ANY('{}')" then False
    else if |c.args| == 1 then OneTruth(c.op, c.value, c.args[0])
    else Unknown
  }

  // ----- Which rows a comparison keeps -----

  /** A comparison of a plain column, not yet printed. */
  predicate IsLeaf(n: Node, operator: string, values: seq<string>) {
    n.field.name != "" && n.field.jsonPath == "" && operator != "" && n.operator == operator && n.opModifier == "" && n.values == values && !n.inserted
  }

  /** The condition printed for n is read in a row of its table, with its values where its markers point. */
  ghost predicate Evaluated(n: Node, m: int, env: Env, c: Context)
    requires AllHaveOperands(n)
  {
    m >= -1 && Fits(env, c) && Bind(env.values, m, Where(n, c.table, c.info, m).1) && forall x :: c.meaning(x) == Truth(x)
  }

  ghost predicate KeepsRow(n: Node, m: int, env: Env, c: Context)
    requires AllHaveOperands(n)
  {
    Keeps(Where(n, c.table, c.info, m).0, env)
  }

  lemma KeepsWhatItMeans(n: Node, m: int, env: Env, c: Context)
    requires AllHaveOperands(n) && Printable(n) && Evaluated(n, m, env, c)
    ensures KeepsRow(n, m, env, c) <==> Meaning(n, c).True?
  {
    hide Meaning, Where, Eval, Read;
    PrintedConditionMeansTree(n, m, env, c);
    ReadNode(n, c.table, c.info, m, []);
  }

  predicate IsKeyword(v: string) { v in {"null", "not_null", "true", "false", "unknown"} }

  /** is.null and is.not_null keep exactly the rows without and with a value; true, false and unknown
      those of a boolean column. `not` turns each around. */
  lemma IsKeeps(n: Node, m: int, env: Env, c: Context, v: string)
    requires IsLeaf(n, "IS", [v]) && Evaluated(n, m, env, c)
    ensures var cell := Cell(c.row, n.field.name);
      && (v == "null" ==> (KeepsRow(n, m, env, c) <==> (cell == Null) != n.not))
      && (v == "not_null" ==> (KeepsRow(n, m, env, c) <==> (cell != Null) != n.not))
      && (v == "true" ==> (KeepsRow(n, m, env, c) <==> (cell == Str("true")) != n.not))
      && (v == "false" ==> (KeepsRow(n, m, env, c) <==> (cell == Str("false")) != n.not))
      && (v == "unknown" ==> (KeepsRow(n, m, env, c) <==> (cell == Null) != n.not))
  {
    KeepsWhatItMeans(n, m, env, c);
  }

  predicate IsOrderOp(op: string) { op in {"=", "<>", "<", "<=", ">", ">="} }

  /** What the six mean for numbers. */
  predicate Ordered(op: string, x: int, y: int) {
    match op
    case "=" => x == y
    case "<>" => x != y
    case "<" => x < y
    case "<=" => x <= y
    case ">" => x > y
    case ">=" => x >= y
    case _ => false
  }

  /** Numbers are compared as numbers. */
  lemma NumbersKeep(n: Node, m: int, env: Env, c: Context, op: string, x: int, y: int)
    requires IsOrderOp(op) && IsLeaf(n, op, [Signed(y)]) && Evaluated(n, m, env, c) && Cell(c.row, n.field.name) == Num(x)
    ensures KeepsRow(n, m, env, c) <==> Ordered(op, x, y) != n.not
  {
    hide Meaning, KeepsRow, IsOrderOp, Signed;
    KeepsWhatItMeans(n, m, env, c);
    NumbersMean(n, c, op, x, y);
  }

  lemma NumbersMean(n: Node, c: Context, op: string, x: int, y: int)
    requires IsOrderOp(op) && IsLeaf(n, op, [Signed(y)]) && Cell(c.row, n.field.name) == Num(x) && forall z :: c.meaning(z) == Truth(z)
    ensures AllHaveOperands(n) && (Meaning(n, c).True? <==> Ordered(op, x, y) != n.not)
  {
    hide Val, Dec, Signed, NumberIn;
    SignedIsNumber(y);
    NumberIsNoKeyword(y);
  }

  lemma NumberIsNoKeyword(y: int)
    ensures !IsKeyword(Signed(y))
  {
    var d := Dec(if y < 0 then -y else y);
    assert IsDigit(d[0]);
    assert "null"[0] == 'n' && "not_null"[0] == 'n' && "true"[0] == 't' && "false"[0] == 'f' && "unknown"[0] == 'u';
  }

  /** Texts are compared as they stand; NULL is kept by no comparison, negated or not. */
  lemma TextsKeep(n: Node, m: int, env: Env, c: Context, op: string, v: string)
    requires IsOrderOp(op) && !IsKeyword(v) && IsLeaf(n, op, [v]) && Evaluated(n, m, env, c)
    ensures match Cell(c.row, n.field.name)
      case Null => !KeepsRow(n, m, env, c)
      case Str(s) =>
        && (op == "=" ==> (KeepsRow(n, m, env, c) <==> (s == v) != n.not))
        && (op == "<>" ==> (KeepsRow(n, m, env, c) <==> (s != v) != n.not))
      case Num(_) => true
  {
    KeepsWhatItMeans(n, m, env, c);
  }

  /** in.(...) keeps the rows whose value is listed; the empty list keeps none, and negated all. */
  lemma ListKeeps(n: Node, m: int, env: Env, c: Context, vs: seq<string>)
    requires IsLeaf(n, "IN", vs) && (forall v :: v in vs ==> !IsKeyword(v)) && Evaluated(n, m, env, c)
    ensures vs == [] ==> (KeepsRow(n, m, env, c) <==> n.not)
    ensures match Cell(c.row, n.field.name)
      case Str(s) => KeepsRow(n, m, env, c) <==> (s in vs) != n.not
      case _ => true
  {
    KeepsWhatItMeans(n, m, env, c);
    if vs != [] {
      AnyEqualExactly(Cell(c.row, n.field.name), vs);
      forall i | 0 <= i < |vs| ensures ValueMeaning(vs[i], false) == Datum(Str(vs[i])) {
        assert !IsKeyword(vs[i]);
      }
      assert ValuesMeaning(vs, false) == seq(|vs|, i requires 0 <= i < |vs| => Datum(Str(vs[i])));
    }
  }

  lemma {:induction false} AnyEqualExactly(cell: Value, vs: seq<string>)
    ensures var bs := seq(|vs|, i requires 0 <= i < |vs| => Datum(Str(vs[i])));
      cell.Str? ==> AnyEqual(cell, bs) == Of(cell.s in vs)
  {
    var bs := seq(|vs|, i requires 0 <= i < |vs| => Datum(Str(vs[i])));
    if vs != [] {
      AnyEqualExactly(cell, vs[1..]);
      assert bs[1..] == seq(|vs[1..]|, i requires 0 <= i < |vs[1..]| => Datum(Str(vs[1..][i])));
      assert cell.Str? ==> (cell.s in vs <==> cell.s == vs[0] || cell.s in vs[1..]);
    }
  }

  /** eq(any).{...} keeps the rows that equal some value, eq(all).{...} those that equal every one. */
  lemma QuantifiedKeeps(n: Node, m: int, env: Env, c: Context, s: string)
    requires n.field.name != "" && n.field.jsonPath == "" && n.operator == "=" && (n.opModifier == "any" || n.opModifier == "all")
    requires !n.inserted && n.values != [] && (forall v :: v in n.values ==> !IsKeyword(v))
    requires Evaluated(n, m, env, c) && Cell(c.row, n.field.name) == Str(s)
    ensures n.opModifier == "any" ==> (KeepsRow(n, m, env, c) <==> (s in n.values) != n.not)
    ensures n.opModifier == "all" ==> (KeepsRow(n, m, env, c) <==> (forall v :: v in n.values ==> v == s) != n.not)
  {
    KeepsWhatItMeans(n, m, env, c);
    QuantifiedExactly(n, n.values, c, s);
  }

  lemma {:induction false} QuantifiedExactly(n: Node, vs: seq<string>, c: Context, s: string)
    requires n.field.jsonPath == "" && n.operator == "=" && n.opModifier != "" && (forall v :: v in vs ==> !IsKeyword(v))
    requires (forall x :: c.meaning(x) == Truth(x)) && Cell(c.row, n.field.name) == Str(s)
    ensures QuantifiedMeaning(n, vs, c)
         == if n.opModifier == "any" then Of(s in vs) else Of(forall v :: v in vs ==> v == s)
  {
    hide Compared, ValueMeaning, IsKeyword, Truth;
    if vs != [] {
      assert vs[0] in vs && forall v :: v in vs[1..] ==> v in vs;
      OneCompared(n, vs[0], c, s);
      QuantifiedExactly(n, vs[1..], c, s);
      assert forall v :: v in vs <==> v == vs[0] || v in vs[1..];
    }
  }

  lemma OneCompared(n: Node, v: string, c: Context, s: string)
    requires n.field.jsonPath == "" && n.operator == "=" && n.opModifier != "" && !IsKeyword(v)
    requires (forall x :: c.meaning(x) == Truth(x)) && Cell(c.row, n.field.name) == Str(s)
    ensures Compared(n, n.operator, "", [], [ValueMeaning(v, ForceParam(n))], c) == Of(s == v)
  {
  }

  // ----- What is printed -----

  /** The value of a comparison is a keyword of SQL for null, true, false, unknown and not_null, unless
      a json path stands before it; every other value is bound, or quoted, as it stands. Quotes in the
      request do not matter here, so a text like "null" cannot be compared with. */
  lemma ValueIsPrinted(n: Node, table: string, info: Schema, m: int) returns (lhs: Operand, a: Arg)
    requires !IsGroup(n) && !n.inserted && n.opModifier == "" && |n.values| == 1 && n.operator != "IN" && n.operator != "@@"
    ensures lhs.col == Column(table, n.field.name) && lhs.jsonPath == n.field.jsonPath && lhs.tsLang.None?
    ensures var v := n.values[0]; var (ts, list) := Where(n, table, info, m);
      && ts == (if n.not then [NotT] else []) + [Cond(Compare(lhs, n.operator, "", [], [a]))]
      && (n.field.jsonPath == "" && v == "not_null" ==> a == Keyword("NOT NULL") && list == [])
      && (n.field.jsonPath == "" && v in {"null", "true", "false", "unknown"} ==> a == Keyword(v) && list == [])
      && (n.field.jsonPath != "" || !IsKeyword(v) ==> if m >= 0 then a == Marker(m + 1) && list == [Str(v)] else a == Literal(v) && list == [])
  {
    lhs, a := OperandOf(n, table, info), AppendValue(n.values[0], m, ForceParam(n)).0;
  }

  /** A json path into a column known to be an array or a composite goes through to_jsonb; no other does. */
  lemma JsonPathIsPrinted(n: Node, table: string, info: Schema, m: int, ct: ColumnType)
    requires !IsGroup(n) && !n.inserted && n.opModifier == "" && |n.values| == 1 && n.operator != "IN" && n.operator != "@@"
    requires info.Some? && (table, n.field.name) in info.value && info.value[(table, n.field.name)] == ct
    ensures var ts := Where(n, table, info, m).0; var cond := ts[|ts| - 1];
      ts != [] && cond.Cond? && cond.atom.Compare? && (cond.atom.lhs.toJsonb <==> n.field.jsonPath != "" && (ct.isArray || ct.isComposite))
    ensures var ts := Where(n, table, None, m).0; ts != [] && ts[|ts| - 1].Cond? && ts[|ts| - 1].atom.Compare? && !ts[|ts| - 1].atom.lhs.toJsonb
  {
  }

  /** Full text search: the function of each of the four operators, its arguments, and the column turned
      into a tsvector, in the language given or in English, when it is known to be no tsvector. */
  lemma FullTextIsPrinted(n: Node, table: string, info: Schema, m: int, fn: string) returns (lhs: Operand)
    requires !IsGroup(n) && !n.inserted && n.opModifier == "" && |n.values| == 1 && n.operator == "@@" && !IsKeyword(n.values[0]) && m >= 0
    requires (n.opSource, fn) in {("fts", "to_tsquery"), ("plfts", "plainto_tsquery"), ("phfts", "phraseto_tsquery"), ("wfts", "websearch_to_tsquery")}
    ensures lhs.col == Column(table, n.field.name) && lhs.jsonPath == n.field.jsonPath
    ensures Where(n, table, info, m)
         == ((if n.not then [NotT] else []) + [Cond(Compare(lhs, "@@", fn, n.opArgs, [Marker(m + 1)]))], [Str(n.values[0])])
    ensures info.None? ==> lhs.tsLang.None?
    ensures info.Some? ==>
      var known, key := info.value, (table, n.field.name);
      && (key !in known ==> lhs.tsLang.None?)
      && (key in known && known[key].typ == "tsvector" ==> lhs.tsLang.None?)
      && (key in known && known[key].typ != "tsvector" && n.opArgs == [] ==> lhs.tsLang == Some("english"))
      && (key in known && known[key].typ != "tsvector" && n.opArgs != [] ==> lhs.tsLang == Some(n.opArgs[0]))
  {
    lhs := OperandOf(n, table, info);
  }

  // ----- Which conditions are printed -----

  lemma {:induction false} NoneUpTo(n: Node, k: nat, table: string, info: Schema, m: int)
    requires IsGroup(n) && AllHaveOperands(n) && k <= |n.children| && forall i :: 0 <= i < k ==> n.children[i].field.relPath != []
    ensures WhereUpTo(n, k, table, info, m) == ([], [])
  {
    if k > 0 {
      NoneUpTo(n, k - 1, table, info, m);
      assert n.children[k - 1] in n.children;
    }
  }

  lemma {:induction false} OneUpTo(n: Node, k: nat, own: nat, table: string, info: Schema, m: int)
    requires IsGroup(n) && AllHaveOperands(n) && own < k <= |n.children| && n.children[own].field.relPath == []
    requires forall i :: 0 <= i < k && i != own ==> n.children[i].field.relPath != []
    ensures AllHaveOperands(n.children[own]) && WhereUpTo(n, k, table, info, m) == Where(n.children[own], table, info, m)
  {
    assert n.children[own] in n.children && n.children[k - 1] in n.children;
    if k - 1 == own {
      NoneUpTo(n, own, table, info, m);
      var (ts, list) := Where(n.children[own], table, info, m);
      assert [] + ts == ts && [] + list == list;
    } else {
      OneUpTo(n, k - 1, own, table, info, m);
    }
  }

  /** Conditions on embedded tables are no part of the condition of the main table: of one condition
      among them all, that one is printed, and of none nothing. */
  lemma OnlyOwnIsPrinted(n: Node, own: Option<nat>, table: string, info: Schema, m: int)
    requires IsGroup(n) && AllHaveOperands(n) && !n.not && n.operator != "OR" && m >= -1
    requires own.Some? ==> own.value < |n.children|
    requires forall i :: 0 <= i < |n.children| ==> (n.children[i].field.relPath == [] <==> own == Some(i))
    ensures own.Some? ==> AllHaveOperands(n.children[own.value])
    ensures Where(n, table, info, m) == match own case Some(k) => Where(n.children[k], table, info, m) case None => ([], [])
  {
    match own
    case Some(k) =>
      OneUpTo(n, |n.children|, k, table, info, m);
      var (ts, list) := Where(n.children[k], table, info, m);
      assert [] + [] + ts + [] == ts;
    case None =>
      NoneUpTo(n, |n.children|, table, info, m);
  }
}
