/** Filter trees, what they mean, and the condition text and value list that
    database/querybuilder.go emits for them. */
module Filters {
  import opened Sql

  // ----- Trees -----

  datatype Field = Field(name: string, tablename: string, relPath: seq<string>, jsonPath: string, last: string)

  datatype Node = Node(
    field: Field, operator: string, opSource: string, opArgs: seq<string>, opModifier: string,
    not: bool, values: seq<string>, inserted: bool, children: seq<Node>)

  const NO_FIELD := Field("", "", [], "", "")
  const ROOT := Node(NO_FIELD, "", "", [], "", false, [], false, [])

  /** Roots and boolean operators; everything else is a comparison. */
  predicate IsGroup(n: Node) { n.operator == "" || n.field.name == "" }

  /** Only nodes on the table being queried take part; nodes with a relation path belong to an
      embedded resource. */
  predicate OnTable(n: Node) { n.field.relPath == [] }

  // ----- Schema information consulted while emitting -----

  datatype ColumnType = ColumnType(typ: string, isArray: bool, isComposite: bool)

  type Schema = Option<map<(string, string), ColumnType>>

  function ColumnTypeOf(info: Schema, table: string, name: string): Option<ColumnType> {
    if info.Some? && (table, name) in info.value then Some(info.value[(table, name)]) else None
  }

  function OperandOf(n: Node, table: string, info: Schema): Operand {
    var ct := ColumnTypeOf(info, table, n.field.name);
    var isJson := n.field.jsonPath != "" && ct.Some? && (ct.value.isArray || ct.value.isComposite);
    var lang :=
      if n.opModifier == "" && n.operator == "@@" && ct.Some? && ct.value.typ != "tsvector" then
        Some(if n.opArgs != [] then n.opArgs[0] else "english")
      else None;
    Operand(Column(table, n.field.name), n.field.jsonPath, isJson, lang)
  }

  function TsFunction(opSource: string): string {
    match opSource
    case "fts" => "to_tsquery"
    case "plfts" => "plainto_tsquery"
    case "phfts" => "phraseto_tsquery"
    case "wfts" => "websearch_to_tsquery"
    case _ => ""
  }

  // ----- Values -----

  predicate IsBareWord(v: string) { v == "null" || v == "true" || v == "false" || v == "unknown" }

  /** The keyword a value stands for, if it is not to be passed as a parameter. */
  function WordOf(v: string, forceParam: bool): Option<string> {
    if forceParam then None
    else if v == "not_null" then Some("NOT NULL")
    else if IsBareWord(v) then Some(v)
    else None
  }

  function AppendValue(v: string, m: int, forceParam: bool): (Arg, seq<Value>) {
    match WordOf(v, forceParam)
    case Some(w) => (Keyword(w), [])
    case None => if m >= 0 then (Marker(m + 1), [Str(v)]) else (Literal(v), [])
  }

  /** The last marker used after `list` values were appended; -1 stays -1. */
  function Advance(m: int, list: seq<Value>): int { if m >= 0 then m + |list| else m }

  /** The arguments of the first k values of n. */
  function ArgsUpTo(n: Node, k: nat, m: int, forceParam: bool): (r: (seq<Arg>, seq<Value>))
    requires k <= |n.values|
    ensures |r.0| == k
  {
    if k == 0 then ([], [])
    else
      var (args, list) := ArgsUpTo(n, k - 1, m, forceParam);
      var (a, l) := AppendValue(n.values[k - 1], Advance(m, list), forceParam);
      (args + [a], list + l)
  }

  // ----- The emitted condition -----

  function ForceParam(n: Node): bool { n.field.jsonPath != "" }

  function ModifierOp(n: Node): Tok { if n.opModifier == "any" then OrT else AndT }

  /** `f op v1 OR f op v2 ...`, the expansion of any/all for the first k values. */
  function ModifiedUpTo(n: Node, k: nat, table: string, info: Schema, m: int): (seq<Tok>, seq<Value>)
    requires k <= |n.values|
  {
    if k == 0 then ([], [])
    else
      var (ts, list) := ModifiedUpTo(n, k - 1, table, info, m);
      var (a, l) := AppendValue(n.values[k - 1], Advance(m, list), ForceParam(n));
      ((if k == 1 then ts else ts + [ModifierOp(n)])
       + [Cond(Compare(OperandOf(n, table, info), n.operator, "", [], [a]))], list + l)
  }

  /** A comparison without modifier needs a value to compare with; only IN has an empty form.
      The builder indexes values[0] without looking, so it requires this of its callers. */
  predicate HasOperands(n: Node) { n.opModifier != "" || n.operator == "IN" || n.values != [] }

  function ComparisonOf(n: Node, table: string, info: Schema, m: int): (Atom, seq<Value>)
    requires HasOperands(n) && n.opModifier == ""
  {
    var lhs := OperandOf(n, table, info);
    if n.operator == "IN" && n.values == [] then
      (Compare(lhs, "= ANY('{}')", "", [], []), [])
    else if n.operator == "IN" then
      var (args, list) := ArgsUpTo(n, |n.values|, m, ForceParam(n));
      (Compare(lhs, "IN", "", [], args), list)
    else if n.operator == "@@" then
      var (a, list) := AppendValue(n.values[0], m, false);
      (Compare(lhs, "@@", TsFunction(n.opSource), n.opArgs, [a]), list)
    else
      var (a, list) := AppendValue(n.values[0], m, ForceParam(n));
      (Compare(lhs, n.operator, "", [], [a]), list)
  }

  function LeafWhere(n: Node, table: string, info: Schema, m: int): (seq<Tok>, seq<Value>)
    requires HasOperands(n)
  {
    var pre := if n.not then [NotT] else [];
    if n.opModifier != "" then
      var (ts, list) := ModifiedUpTo(n, |n.values|, table, info, m);
      (pre + [LPar] + ts + [RPar], list)
    else
      var (a, list) := ComparisonOf(n, table, info, m);
      (pre + [Cond(a)], list)
  }

  function GroupOp(n: Node): Tok { if n.operator == "OR" then OrT else AndT }

  predicate Parenthesised(n: Node) { n.not || n.operator == "OR" }

  predicate AllHaveOperands(n: Node) {
    if IsGroup(n) then forall c :: c in n.children ==> AllHaveOperands(c) else HasOperands(n)
  }

  /** whereClause: the tokens and the values of node n, with markers starting after m. */
  function Where(n: Node, table: string, info: Schema, m: int): (seq<Tok>, seq<Value>)
    requires AllHaveOperands(n)
    decreases n, |n.children| + 1
  {
    if IsGroup(n) then
      var (body, list) := WhereUpTo(n, |n.children|, table, info, m);
      ((if n.not then [NotT] else []) + (if Parenthesised(n) then [LPar] else [])
       + body + (if Parenthesised(n) then [RPar] else []), list)
    else if n.inserted then ([], [])
    else LeafWhere(n, table, info, m)
  }

  /** The first k children, separated by the group's operator. */
  function WhereUpTo(n: Node, k: nat, table: string, info: Schema, m: int): (seq<Tok>, seq<Value>)
    requires IsGroup(n) && AllHaveOperands(n) && k <= |n.children|
    decreases n, k
  {
    if k == 0 then ([], [])
    else
      var (ts, list) := WhereUpTo(n, k - 1, table, info, m);
      var c := n.children[k - 1];
      if !OnTable(c) then (ts, list)
      else
        var (ts', list') := Where(c, table, info, Advance(m, list));
        ((if ts == [] then ts else ts + [GroupOp(n)]) + ts', list + list')
  }

  /** The tree after the pass: every comparison that was emitted is marked. */
  function Marked(n: Node): Node
    decreases n, |n.children| + 1
  {
    if IsGroup(n) then n.(children := MarkedUpTo(n, |n.children|) ) else n.(inserted := true)
  }

  function MarkedUpTo(n: Node, k: nat): (r: seq<Node>)
    requires k <= |n.children|
    ensures |r| == |n.children|
    decreases n, k
  {
    if k == 0 then n.children
    else
      var cs := MarkedUpTo(n, k - 1);
      if OnTable(n.children[k - 1]) then cs[k - 1 := Marked(n.children[k - 1])] else cs
  }

  // ----- Meaning of a tree -----

  /** What a comparison sees: the row, the schema and PostgreSQL's operators. */
  datatype Context = Context(row: Row, table: string, info: Schema, meaning: Comparison -> TV)

  function ValueMeaning(v: string, forceParam: bool): Bound {
    match WordOf(v, forceParam)
    case Some(w) => Word(w)
    case None => Datum(Str(v))
  }

  function ValuesMeaning(vs: seq<string>, forceParam: bool): (r: seq<Bound>)
    ensures |r| == |vs|
    ensures forall i :: 0 <= i < |vs| ==> r[i] == ValueMeaning(vs[i], forceParam)
  {
    seq(|vs|, i requires 0 <= i < |vs| => ValueMeaning(vs[i], forceParam))
  }

  function Compared(n: Node, op: string, fn: string, fnArgs: seq<string>, args: seq<Bound>, c: Context): TV {
    var lhs := OperandOf(n, c.table, c.info);
    c.meaning(Comparison(Cell(c.row, n.field.name), lhs.jsonPath, lhs.toJsonb, lhs.tsLang, op, fn, fnArgs, args))
  }

  /** any: some value compares true; all: every value does. */
  function QuantifiedMeaning(n: Node, vs: seq<string>, c: Context): TV {
    if vs == [] then (if n.opModifier == "any" then False else True)
    else
      var first := Compared(n, n.operator, "", [], [ValueMeaning(vs[0], ForceParam(n))], c);
      if n.opModifier == "any" then Or3(first, QuantifiedMeaning(n, vs[1..], c))
      else And3(first, QuantifiedMeaning(n, vs[1..], c))
  }

  function ComparisonMeaning(n: Node, c: Context): TV
    requires HasOperands(n)
  {
    if n.opModifier != "" then QuantifiedMeaning(n, n.values, c)
    else if n.operator == "IN" then
      Compared(n, if n.values == [] then "= ANY('{}')" else "IN", "", [], ValuesMeaning(n.values, ForceParam(n)), c)
    else if n.operator == "@@" then
      Compared(n, "@@", TsFunction(n.opSource), n.opArgs, [ValueMeaning(n.values[0], false)], c)
    else
      Compared(n, n.operator, "", [], [ValueMeaning(n.values[0], ForceParam(n))], c)
  }

  function Negated(not: bool, v: TV): TV { if not then Not3(v) else v }

  /** The truth value of a filter tree: AND and OR over the children on the table. */
  function Meaning(n: Node, c: Context): TV
    requires AllHaveOperands(n)
    decreases n, |n.children| + 1
  {
    Negated(n.not, if IsGroup(n) then GroupMeaning(n, |n.children|, c) else ComparisonMeaning(n, c))
  }

  /** The group's connective over its first k children. */
  function GroupMeaning(n: Node, k: nat, c: Context): TV
    requires IsGroup(n) && AllHaveOperands(n) && k <= |n.children|
    decreases n, k
  {
    if k == 0 then (if n.operator == "OR" then False else True)
    else if !OnTable(n.children[k - 1]) then GroupMeaning(n, k - 1, c)
    else if n.operator == "OR" then Or3(GroupMeaning(n, k - 1, c), Meaning(n.children[k - 1], c))
    else And3(GroupMeaning(n, k - 1, c), Meaning(n.children[k - 1], c))
  }
}
