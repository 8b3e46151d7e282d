/** What the filter parser accepts: its recursive descent as functions of the token list and the
    cursor. Result cursors never pass the end and, on success, never stand still. */
module FilterGrammar {
  import opened Sql
  import opened Filters
  import opened Decimals
  import opened Scanner

  datatype Parsed<+T> = Ok(value: T, cur: nat) | Err(msg: string)

  const MAX_FILTER_DEPTH := 100

  const BOOLEAN_LATER := "__boolean_later__"

  predicate IsBooleanOpStrict(t: string) { t == "and" || t == "or" || t == "not" }

  // ----- The cursor -----

  /** lookAhead; the empty string at the end */
  function Peek(ts: seq<Token>, i: nat): string { if i < |ts| then ts[i].text else "" }

  function PeekQuoted(ts: seq<Token>, i: nat): bool { i < |ts| && ts[i].quoted }

  /** The cursor after next() */
  function After(ts: seq<Token>, i: nat): nat { if i < |ts| then i + 1 else i }

  // ----- Operators -----

  function SqlOperator(op: string): Option<string> {
    match op
    case "eq" => Some("=")
    case "gte" => Some(">=")
    case "gt" => Some(">")
    case "lte" => Some("<=")
    case "lt" => Some("<")
    case "neq" => Some("<>")
    case "like" => Some("LIKE")
    case "ilike" => Some("ILIKE")
    case "match" => Some("~")
    case "imatch" => Some("~*")
    case "in" => Some("IN")
    case "is" => Some("IS")
    case "cs" => Some("@>")
    case "cd" => Some("<@")
    case "ov" => Some("&&")
    case "sl" => Some("<<")
    case "sr" => Some(">>")
    case "nxr" => Some("&<")
    case "nxl" => Some("&>")
    case "adj" => Some("-|-")
    case "isdistinct" => Some("IS DISTINCT FROM")
    case "fts" => Some("@@")
    case "plfts" => Some("@@")
    case "phfts" => Some("@@")
    case "wfts" => Some("@@")
    case "not" => Some("")
    case "start" => Some("")
    case "after" => Some("")
    case "recurse" => Some("")
    case "via" => Some("")
    case _ => None
  }

  // ----- Small text functions -----

  function QuoteLit(s: string): string { "'" + DoubleQuotes(s) + "'" }

  function DoubleQuotes(s: string): string {
    if s == "" then "" else (if s[0] == '\'' then "''" else [s[0]]) + DoubleQuotes(s[1..])
  }

  function QuoteJsonString(s: string): string { "\"" + EscapeJson(s) + "\"" }

  function EscapeJson(s: string): string {
    if s == "" then "" else (if s[0] == '"' || s[0] == '\\' then ['\\', s[0]] else [s[0]]) + EscapeJson(s[1..])
  }

  /** strconv.Atoi: an optional sign and digits within 64 bits. */
  function Atoi(s: string): Option<int> {
    var signed := s != "" && (s[0] == '-' || s[0] == '+');
    var digits := if signed then s[1..] else s;
    if digits == "" || !AllDigits(digits) then None
    else
      var n: int := if signed && s[0] == '-' then 0 - Val(digits) else Val(digits);
      if -0x8000_0000_0000_0000 <= n < 0x8000_0000_0000_0000 then Some(n) else None
  }

  predicate IsInteger(s: string) { Atoi(s).Some? }

  function ToLowerChar(c: char): char {
    if 'A' <= c <= 'Z' then (c as int - 'A' as int + 'a' as int) as char else c
  }

  function ToLower(s: string): string {
    seq(|s|, i requires 0 <= i < |s| => ToLowerChar(s[i]))
  }

  /** unicode.IsLetter of a single byte read as a code point. */
  predicate IsLetter(c: char) {
    ('a' <= c <= 'z') || ('A' <= c <= 'Z') || c as int == 0xAA || c as int == 0xB5 || c as int == 0xBA
    || (0xC0 <= c as int <= 0xFF && c as int != 0xD7 && c as int != 0xF7)
  }

  predicate EndsWith(s: string, t: string) { |t| <= |s| && s[|s| - |t|..] == t }

  /** The last index at which t begins in s, or -1. */
  function LastIndex(s: string, t: string): int
    decreases |s|
  {
    if |s| < |t| then -1
    else if s[|s| - |t|..] == t then |s| - |t|
    else if s == "" then -1
    else LastIndex(s[..|s| - 1], t)
  }

  predicate IsJsonTyped(path: string) { LastIndex(path, "->") != LastIndex(path, "->>") }

  function StarsToPercent(s: string): (r: string)
    ensures |r| == |s|
    ensures forall i :: 0 <= i < |s| ==> r[i] == if s[i] == '*' then '%' else s[i]
  {
    seq(|s|, i requires 0 <= i < |s| => if s[i] == '*' then '%' else s[i])
  }

  // ----- Fields -----

  /** table. prefixes of a name */
  function TablePath(ts: seq<Token>, i: nat, token: string, path: seq<string>): (r: (seq<string>, string, nat))
    requires i <= |ts|
    ensures i <= r.2 <= |ts|
    decreases |ts| - i
  {
    if Peek(ts, i) == "." then
      TablePath(ts, After(ts, After(ts, i)), Peek(ts, After(ts, i)), path + [token])
    else (path, token, i)
  }

  function JsonMembers(ts: seq<Token>, i: nat, path: string, last: string): (r: Parsed<(string, string)>)
    requires i <= |ts|
    ensures r.Ok? ==> i <= r.cur <= |ts|
    decreases |ts| - i
  {
    if Peek(ts, i) == "->>" || Peek(ts, i) == "->" then
      var token := Peek(ts, After(ts, i));
      if token == "" then Err("json path member expected")
      else if IsInteger(token) then JsonMembers(ts, After(ts, After(ts, i)), path + Peek(ts, i) + token, last)
      else JsonMembers(ts, After(ts, After(ts, i)), path + Peek(ts, i) + QuoteLit(token), token)
    else Ok((path, last), i)
  }

  function FieldAt(ts: seq<Token>, i: nat, mayHaveTable: bool, mayBeEmpty: bool): (r: Parsed<Field>)
    requires i <= |ts|
    ensures r.Ok? ==> i <= r.cur <= |ts|
    ensures r.Ok? && !mayBeEmpty ==> i < r.cur
  {
    if Peek(ts, i) == "" && !mayBeEmpty then Err("field expected")
    else
      var first := if Peek(ts, i) == "" then "*" else Peek(ts, i);
      var (path, name, j) := if mayHaveTable then TablePath(ts, After(ts, i), first, []) else ([], first, After(ts, i));
      match JsonMembers(ts, j, "", "")
      case Err(m) => Err(m)
      case Ok((jsonPath, last), k) =>
        Ok(Field(name, if path != [] then path[|path| - 1] else "", path, jsonPath,
                 if jsonPath != "" && last == "" then name else last), k)
  }

  // ----- Values -----

  function FloatTail(ts: seq<Token>, i: nat): string {
    if Peek(ts, i) == "." then Peek(ts, i) + Peek(ts, After(ts, i)) else ""
  }

  function AfterFloat(ts: seq<Token>, i: nat): (j: nat)
    requires i <= |ts|
    ensures i <= j <= |ts|
  {
    if Peek(ts, i) == "." then After(ts, After(ts, i)) else i
  }

  /** A range, composite or JSON array: up to the bracket that closes the first one. */
  function Brackets(ts: seq<Token>, i: nat, level: nat, acc: string): (r: Parsed<string>)
    requires i <= |ts|
    ensures r.Ok? ==> i <= r.cur <= |ts|
    decreases |ts| - i
  {
    if level == 0 then Ok(acc, i)
    else
      var t, quoted := Peek(ts, i), PeekQuoted(ts, i);
      if !quoted && t == "" then Err("')' or ']' expected")
      else
        var level' := if quoted then level else if t == "(" || t == "[" then level + 1
                      else if t == ")" || t == "]" then level - 1 else level;
        Brackets(ts, AfterFloat(ts, i + 1), level', acc + (if quoted then QuoteJsonString(t) else t) + FloatTail(ts, i + 1))
  }

  /** An array or JSON object; bare words other than the JSON literals are quoted. */
  function Braces(ts: seq<Token>, i: nat, level: nat, acc: string): (r: Parsed<string>)
    requires i <= |ts|
    ensures r.Ok? ==> i <= r.cur <= |ts|
    decreases |ts| - i
  {
    if level == 0 then Ok(acc, i)
    else
      var t, quoted := Peek(ts, i), PeekQuoted(ts, i);
      if !quoted && t == "" then Err("'}' expected")
      else
        var level' := if quoted then level else if t == "{" then level + 1 else if t == "}" then level - 1 else level;
        var isWord := !quoted && t != "{" && t != "}" && t != "true" && t != "false" && t != "null" && IsLetter(t[0]);
        Braces(ts, AfterFloat(ts, i + 1), level', acc + (if quoted || isWord then QuoteJsonString(t) else t) + FloatTail(ts, i + 1))
  }

  function Wildcards(operator: string, v: string): string {
    if operator == "LIKE" || operator == "ILIKE" then StarsToPercent(v) else v
  }

  /** The values that one call of value() appends (none for the empty IN list) and the cursor. */
  function ValueAt(ts: seq<Token>, i: nat, operator: string, jsonPath: string): (r: Parsed<seq<string>>)
    requires i <= |ts|
    ensures r.Ok? ==> i <= r.cur <= |ts|
    ensures r.Ok? && r.cur == i ==> Peek(ts, i) == ")"
  {
    var t, quoted := Peek(ts, i), PeekQuoted(ts, i);
    if t == "" && !quoted then Err("value expected")
    else if t == ")" && !quoted then Ok([], i)
    else if !quoted && (t == "(" || t == "[") then
      match Brackets(ts, i + 1, 1, t)
      case Err(m) => Err(m)
      case Ok(v, j) => Ok([Wildcards(operator, v)], j)
    else if !quoted && t == "{" then
      match Braces(ts, i + 1, 1, t)
      case Err(m) => Err(m)
      case Ok(v, j) => Ok([Wildcards(operator, v)], j)
    else if quoted then
      Ok([Wildcards(operator, if IsJsonTyped(jsonPath) then QuoteJsonString(t) else t)], i + 1)
    else if IsBareWord(ToLower(t)) then Ok([Wildcards(operator, ToLower(t))], i + 1)
    else if ToLower(t) == "not_null" then Ok([Wildcards(operator, "not_null")], i + 1)
    else if operator == "IS" then Err("IS operator requires null, not_null, true, false or unknown")
    else Ok([Wildcards(operator, t + FloatTail(ts, i + 1))], AfterFloat(ts, i + 1))
  }

  /** value (',' value)* and the token that ended the list */
  function ValueList(ts: seq<Token>, i: nat, operator: string, jsonPath: string, acc: seq<string>): (r: Parsed<(seq<string>, string)>)
    requires i <= |ts|
    ensures r.Ok? ==> i <= r.cur <= |ts|
    decreases |ts| - i
  {
    match ValueAt(ts, i, operator, jsonPath)
    case Err(m) => Err(m)
    case Ok(vs, j) =>
      if Peek(ts, j) == "," then ValueList(ts, j + 1, operator, jsonPath, acc + vs)
      else Ok((acc + vs, Peek(ts, j)), After(ts, j))
  }

  function ClosedList(ts: seq<Token>, i: nat, open: string, close: string, operator: string, jsonPath: string): (r: Parsed<seq<string>>)
    requires i <= |ts|
    ensures r.Ok? ==> i <= r.cur <= |ts|
  {
    if Peek(ts, i) != open then Err("'" + open + "' expected")
    else
      match ValueList(ts, After(ts, i), operator, jsonPath, [])
      case Err(m) => Err(m)
      case Ok((vs, end), j) => if end != close then Err("'" + close + "' expected") else Ok(vs, j)
  }

  // ----- Comparisons -----

  function FtsArgs(ts: seq<Token>, i: nat, acc: seq<string>): (r: (seq<string>, string, nat))
    requires i <= |ts|
    ensures i <= r.2 <= |ts|
    decreases |ts| - i
  {
    var j := After(ts, i);
    if Peek(ts, j) == "," then FtsArgs(ts, After(ts, j), acc + [Peek(ts, i)])
    else (acc + [Peek(ts, i)], Peek(ts, j), After(ts, j))
  }

  /** What follows the operator name: fts(lang), eq(any), or nothing. */
  datatype Suffix = Suffix(opArgs: seq<string>, opModifier: string)

  function SuffixAt(ts: seq<Token>, i: nat, op: string): (r: Parsed<Suffix>)
    requires i <= |ts|
    ensures r.Ok? ==> i <= r.cur <= |ts|
  {
    if Peek(ts, i) != "(" then Ok(Suffix([], ""), i)
    else if op == "@@" then
      var (args, end, j) := FtsArgs(ts, After(ts, i), []);
      if end != ")" then Err("')' expected") else Ok(Suffix(args, ""), j)
    else
      var mod := Peek(ts, After(ts, i));
      var j := After(ts, After(ts, i));
      if mod != "any" && mod != "all" then Err("'any' or 'all' expected")
      else if Peek(ts, j) != ")" then Err("')' expected")
      else Ok(Suffix([], mod), After(ts, j))
  }

  function OperandsAt(ts: seq<Token>, i: nat, operator: string, modifier: string, jsonPath: string): (r: Parsed<seq<string>>)
    requires i <= |ts|
    ensures r.Ok? ==> i <= r.cur <= |ts|
  {
    if Peek(ts, i) != "." then Ok([], After(ts, i))
    else if operator == "IN" then ClosedList(ts, After(ts, i), "(", ")", operator, jsonPath)
    else if modifier != "" then ClosedList(ts, After(ts, i), "{", "}", operator, jsonPath)
    else ValueAt(ts, After(ts, i), operator, jsonPath)
  }

  /** op[(...)][.values] */
  function NamedOperation(ts: seq<Token>, i: nat, not: bool, field: Field): (r: Parsed<Node>)
    requires i <= |ts|
    ensures r.Ok? ==> i <= r.cur <= |ts|
  {
    match SqlOperator(Peek(ts, i))
    case None => Err("valid sql operator expected")
    case Some(op) =>
      match SuffixAt(ts, After(ts, i), op)
      case Err(m) => Err(m)
      case Ok(suffix, j) =>
        match OperandsAt(ts, j, op, suffix.opModifier, field.jsonPath)
        case Err(m) => Err(m)
        case Ok(values, end) =>
          Ok(Node(field, op, Peek(ts, i), suffix.opArgs, suffix.opModifier, not, values, false, []), end)
  }

  /** After the field: separator, [not.]operation */
  function OperationAt(ts: seq<Token>, i: nat, sep: string, field: Field): (r: Parsed<Node>)
    requires i <= |ts|
    ensures r.Ok? ==> i <= r.cur <= |ts|
  {
    var j := After(ts, i);
    if Peek(ts, i) != sep then Err("'=' expected")
    else if Peek(ts, j) != "not" then NamedOperation(ts, j, false, field)
    else if Peek(ts, After(ts, j)) != "." then Err("'.' expected")
    else NamedOperation(ts, After(ts, After(ts, j)), true, field)
  }

  predicate IsRootNode(n: Node) { n.operator == "" && n.field.name == "" }

  /** A field without a table of its own takes over the table of the group it stands in. */
  function Inherit(f: Field, mainTable: string, parent: Node): Field {
    if f.tablename != "" then f
    else if parent.field.tablename != "" then f.(tablename := parent.field.tablename, relPath := parent.field.relPath)
    else f.(tablename := mainTable)
  }

  function ComparisonAt(ts: seq<Token>, i: nat, mainTable: string, parent: Node): (r: Parsed<Node>)
    requires i <= |ts|
    ensures r.Ok? ==> i < r.cur <= |ts|
  {
    match FieldAt(ts, i, IsRootNode(parent), false)
    case Err(m) => Err(m)
    case Ok(f, j) => OperationAt(ts, j, if IsRootNode(parent) then "=" else ".", Inherit(f, mainTable, parent))
  }

  // ----- Boolean operators -----

  /** The table path in front of an embedded boolean operator. */
  function BooleanTable(ts: seq<Token>, i: nat, acc: seq<string>): (r: Parsed<seq<string>>)
    requires i <= |ts|
    ensures r.Ok? ==> i <= r.cur <= |ts|
    decreases |ts| - i
  {
    if IsBooleanOpStrict(Peek(ts, i)) then Ok(acc, i)
    else if Peek(ts, After(ts, i)) != "." then Err("'.' expected")
    else BooleanTable(ts, After(ts, After(ts, i)), acc + [Peek(ts, i)])
  }

  /** [not.](and|or)( : the head of a group */
  function BooleanHead(ts: seq<Token>, i: nat, n: Node): (r: Parsed<Node>)
    requires i <= |ts|
    ensures r.Ok? ==> i < r.cur <= |ts|
  {
    var not := Peek(ts, i) == "not";
    if not && Peek(ts, After(ts, i)) != "." then Err("'.' expected")
    else
      var j := if not then After(ts, After(ts, i)) else i;
      if Peek(ts, j) != "and" && Peek(ts, j) != "or" then Err("boolean operator expected")
      else if Peek(ts, After(ts, j)) != "(" then Err("'(' expected")
      else Ok(n.(not := not, operator := if Peek(ts, j) == "and" then "AND" else "OR"), After(ts, After(ts, j)))
  }

  /** The rest of a group: its members, separated by commas, and the closing parenthesis. */
  function BooleanAt(ts: seq<Token>, i: nat, depth: nat, table: string, n: Node): (r: Parsed<Node>)
    requires i <= |ts|
    ensures r.Ok? ==> i < r.cur <= |ts|
    decreases |ts| - i, 1
  {
    match BooleanHead(ts, i, n)
    case Err(m) => Err(m)
    case Ok(head, j) => MembersAt(ts, j, depth, table, head)
  }

  function MembersAt(ts: seq<Token>, i: nat, depth: nat, table: string, n: Node): (r: Parsed<Node>)
    requires i <= |ts|
    ensures r.Ok? ==> i < r.cur <= |ts|
    decreases |ts| - i, 3
  {
    match CondAt(ts, i, depth, table, n)
    case Err(m) => Err(m)
    case Ok(c, j) =>
      var n' := n.(children := n.children + [c]);
      if Peek(ts, j) == "," then MembersAt(ts, j + 1, depth, table, n')
      else if Peek(ts, j) == ")" then Ok(n', j + 1)
      else Err("')' expected")
  }

  /** cond: one condition inside parent, at nesting depth `depth` + 1 */
  function CondAt(ts: seq<Token>, i: nat, depth: nat, mainTable: string, parent: Node): (r: Parsed<Node>)
    requires i <= |ts|
    ensures r.Ok? ==> i < r.cur <= |ts|
    decreases |ts| - i, 2
  {
    if depth + 1 > MAX_FILTER_DEPTH then Err("filter nesting too deep")
    else if Peek(ts, i) == BOOLEAN_LATER then
      match BooleanTable(ts, After(ts, After(ts, i)), [])
      case Err(m) => Err(m)
      case Ok(path, j) =>
        var path' := if path == [] then [mainTable] else path;
        var table := path'[|path'| - 1];
        BooleanAt(ts, j, depth + 1, table, ROOT.(field := NO_FIELD.(tablename := table, relPath := path')))
    else if IsBooleanOpStrict(Peek(ts, i)) then
      BooleanAt(ts, i, depth + 1, mainTable, ROOT.(field := NO_FIELD.(tablename := mainTable)))
    else ComparisonAt(ts, i, mainTable, parent)
  }

  // ----- A key and a value of the query string -----

  const SEP := "=.,()[]{}:"
  const LONG_SEP := ["->>", "->"]

  predicate HasBooleanOp(k: string) { k == "and" || k == "or" || EndsWith(k, ".and") || EndsWith(k, ".or") }

  predicate IsBooleanOp(k: string) { k == "and" || k == "or" || k == "not.and" || k == "not.or" }

  function ConditionText(k: string, v: string): string {
    if HasBooleanOp(k) then
      if IsBooleanOp(k) then k + v else BOOLEAN_LATER + "." + k + v
    else k + "=" + v
  }

  function ScanCondition(k: string, v: string): seq<Token> { Scan(ConditionText(k, v), START, SEP, LONG_SEP) }

  /** parseWhereCondition: the condition appended to the root */
  function ConditionAt(mainTable: string, k: string, v: string): Parsed<Node> {
    CondAt(ScanCondition(k, v), 0, 0, mainTable, ROOT)
  }
}
