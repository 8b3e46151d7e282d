/** Whole conditions of the query string as people write them: what is read of them, and which rows they
    keep in the end. */
module WrittenFilters {
  import opened Sql
  import opened Decimals
  import opened Filters
  import opened Comparisons
  import opened Scanner
  import opened FilterGrammar
  import opened FilterRoundTrip
  import opened FilterTexts
  import opened FilterKeys
  import opened ArrayLiterals

  // ----- Conditions -----

  /** Everything in front of the value: key=[not.]operator[(any)]. */
  datatype Heading = Heading(key: Key, not: bool, op: string, modifier: string)

  predicate IsHeading(h: Heading) {
    && IsKey(h.key) && !HasBooleanOp(KeyText(h.key)) && !IsReserved(if h.key.path == [] then h.key.name else h.key.path[0])
    && IsBare(h.op) && h.op != "not" && (h.modifier == "" || h.modifier == "any" || h.modifier == "all")
  }

  function TailText(h: Heading): string { h.op + (if h.modifier == "" then "" else "(" + h.modifier + ")") + "." }

  function OpText(h: Heading): string { (if h.not then "not." else "") + TailText(h) }

  function ModifierTokens(modifier: string): seq<Token> {
    if modifier == "" then [] else [SepToken('('), Token(modifier, false), SepToken(')')]
  }

  function TailTokens(h: Heading): seq<Token> { [Token(h.op, false)] + ModifierTokens(h.modifier) + [SepToken('.')] }

  function OpTokens(h: Heading): seq<Token> { (if h.not then [Token("not", false), SepToken('.')] else []) + TailTokens(h) }

  function HeadTokens(h: Heading): seq<Token> { KeyTokens(h.key) + ([SepToken('=')] + OpTokens(h)) }

  /** The comparison that such a condition is, with these values. */
  function NodeOf(h: Heading, sql: string, values: seq<string>, mainTable: string): Node {
    Node(KeyField(h.key, mainTable), sql, h.op, [], h.modifier, h.not, values, false, [])
  }

  lemma WordsAreBare()
    ensures IsBare("not") && IsBare("any") && IsBare("all")
  {
    assert forall c :: c in "notanyall" ==> c !in SEP && !IsQuote(c) && c != '\\' && c != '-' && c != ' ';
    assert forall i :: 0 <= i < 3 ==> "not"[i] in "notanyall" && "any"[i] in "notanyall" && "all"[i] in "notanyall";
  }

  lemma ReadsModifier(op: string, modifier: string)
    requires IsBare(op) && (modifier == "" || modifier == "any" || modifier == "all")
    ensures Reads(op + (if modifier == "" then "" else "(" + modifier + ")") + ".", [Token(op, false)] + ModifierTokens(modifier) + [SepToken('.')],
                  FILTER_MARKS)
  {
    hide Reads, ReadsHere, IsBare;
    ReadsBare(op);
    if modifier == "" {
      HereThenMark(op, [Token(op, false)], '.');
      assert op + "" + "." == op + "." && [Token(op, false)] + [] + [SepToken('.')] == [Token(op, false)] + [SepToken('.')];
    } else {
      WordsAreBare();
      ReadsBare(modifier);
      HereThenMark(op, [Token(op, false)], '(');
      HereThenMark(modifier, [Token(modifier, false)], ')');
      ReadsMark('.');
      ReadsConcat(op + "(", [Token(op, false)] + [SepToken('(')], modifier + ")", [Token(modifier, false)] + [SepToken(')')], FILTER_MARKS);
      ReadsConcat(op + "(" + (modifier + ")"), [Token(op, false)] + [SepToken('(')] + ([Token(modifier, false)] + [SepToken(')')]),
                  ".", [SepToken('.')], FILTER_MARKS);
      assert op + "(" + (modifier + ")") + "." == op + ("(" + modifier + ")") + ".";
      assert [Token(op, false)] + [SepToken('(')] + ([Token(modifier, false)] + [SepToken(')')]) + [SepToken('.')]
          == [Token(op, false)] + ModifierTokens(modifier) + [SepToken('.')];
    }
  }

  lemma ReadsOp(h: Heading)
    requires IsHeading(h)
    ensures Reads(OpText(h), OpTokens(h), FILTER_MARKS)
  {
    hide Reads, ReadsHere, IsBare, IsKey, HasBooleanOp, IsReserved, TailText, TailTokens;
    ReadsTail(h);
    if h.not {
      WordsAreBare();
      ReadsBare("not");
      HereThenMark("not", [Token("not", false)], '.');
      ReadsConcat("not" + ".", [Token("not", false)] + [SepToken('.')], TailText(h), TailTokens(h), FILTER_MARKS);
      assert "not" + "." == "not." && [Token("not", false)] + [SepToken('.')] == [Token("not", false), SepToken('.')];
    } else {
      assert "" + TailText(h) == TailText(h) && [] + TailTokens(h) == TailTokens(h);
    }
  }

  lemma ReadsTail(h: Heading)
    requires IsHeading(h)
    ensures Reads(TailText(h), TailTokens(h), FILTER_MARKS)
  {
    hide Reads, IsBare, IsKey, HasBooleanOp, IsReserved, ModifierTokens;
    ReadsModifier(h.op, h.modifier);
  }

  /** What stands in front of the value, whatever the value. */
  lemma HeadIsScanned(h: Heading, y: string)
    requires IsHeading(h)
    ensures ScanCondition(KeyText(h.key), OpText(h) + y) == HeadTokens(h) + ScanRest(y, FILTER_MARKS)
  {
    hide Reads, ReadsHere, IsBare, IsKey, HasBooleanOp, IsReserved, OpText, OpTokens, KeyText, KeyTokens, Scan;
    ReadsKey(h.key);
    HereThenMark(KeyText(h.key), KeyTokens(h.key), '=');
    ReadsOp(h);
    ReadsConcat(KeyText(h.key) + "=", KeyTokens(h.key) + [SepToken('=')], OpText(h), OpTokens(h), FILTER_MARKS);
    ReadsAt(KeyText(h.key) + "=" + OpText(h), KeyTokens(h.key) + [SepToken('=')] + OpTokens(h), y, FILTER_MARKS);
    assert KeyText(h.key) + "=" + OpText(h) + y == KeyText(h.key) + "=" + (OpText(h) + y);
    assert KeyTokens(h.key) + [SepToken('=')] + OpTokens(h) == HeadTokens(h);
  }

  /** The tokens of a condition whose value begins like this. */
  lemma ConditionIsScanned(h: Heading, x: string, toks: seq<Token>, rest: string)
    requires IsHeading(h) && ReadsHere(x, toks) && Stops(rest)
    ensures ScanCondition(KeyText(h.key), OpText(h) + x + rest) == HeadTokens(h) + toks + ScanRest(rest, FILTER_MARKS)
  {
    hide Reads, ReadsHere, IsHeading, OpText, KeyText, HeadTokens, Scan;
    HeadIsScanned(h, x + rest);
    ReadsAtEnd(x, toks, rest);
    assert OpText(h) + (x + rest) == OpText(h) + x + rest;
  }

  lemma ModifierIsRead(ts: seq<Token>, i: nat, op: string, modifier: string)
    requires At(ts, i, ModifierTokens(modifier) + [SepToken('.')]) && op != "@@"
    requires modifier == "" || modifier == "any" || modifier == "all"
    ensures i <= |ts| && SuffixAt(ts, i, op) == Ok(Suffix([], modifier), i + |ModifierTokens(modifier)|)
    ensures Peek(ts, i + |ModifierTokens(modifier)|) == "." && After(ts, i + |ModifierTokens(modifier)|) == i + |ModifierTokens(modifier)| + 1
  {
    var toks := ModifierTokens(modifier) + [SepToken('.')];
    AtPeek(ts, i, toks, 0);
    if modifier != "" {
      AtPeek(ts, i, toks, 1);
      AtPeek(ts, i, toks, 2);
      AtPeek(ts, i, toks, 3);
    }
  }

  lemma NoModifierIsRead(ts: seq<Token>, i: nat, op: string)
    requires At(ts, i, ModifierTokens("") + [SepToken('.')])
    ensures i <= |ts| && |ModifierTokens("")| == 0 && SuffixAt(ts, i, op) == Ok(Suffix([], ""), i)
  {
    AtPeek(ts, i, ModifierTokens("") + [SepToken('.')], 0);
  }

  /** Operator and modifier are read, and then the operands. */
  lemma OperatorIsRead(ts: seq<Token>, i: nat, h: Heading, sql: string, vs: seq<string>, e: nat, field: Field)
    requires IsHeading(h) && SqlOperator(h.op) == Some(sql) && (sql == "@@" ==> h.modifier == "")
    requires At(ts, i, [Token(h.op, false)] + ModifierTokens(h.modifier) + [SepToken('.')])
    requires OperandsAt(ts, i + 1 + |ModifierTokens(h.modifier)|, sql, h.modifier, field.jsonPath) == Ok(vs, e)
    ensures NamedOperation(ts, i, h.not, field) == Ok(Node(field, sql, h.op, [], h.modifier, h.not, vs, false, []), e)
  {
    hide SqlOperator, OperandsAt, IsBare, IsKey, HasBooleanOp, IsReserved, At, Peek, After, SuffixAt, ModifierTokens;
    var toks := [Token(h.op, false)] + (ModifierTokens(h.modifier) + [SepToken('.')]);
    assert [Token(h.op, false)] + ModifierTokens(h.modifier) + [SepToken('.')] == toks;
    AtPeek(ts, i, toks, 0);
    AtSplit(ts, i, [Token(h.op, false)], ModifierTokens(h.modifier) + [SepToken('.')]);
    if sql == "@@" {
      NoModifierIsRead(ts, i + 1, sql);
    } else {
      ModifierIsRead(ts, i + 1, sql, h.modifier);
    }
  }

  lemma OperationIsFound(ts: seq<Token>, i: nat, h: Heading, sql: string, vs: seq<string>, e: nat, field: Field)
    requires IsHeading(h) && SqlOperator(h.op) == Some(sql) && (sql == "@@" ==> h.modifier == "")
    requires At(ts, i, [SepToken('=')] + OpTokens(h))
    requires OperandsAt(ts, i + |OpTokens(h)|, sql, h.modifier, field.jsonPath) == Ok(vs, e)
    ensures i <= |ts| && OperationAt(ts, i, "=", field) == Ok(Node(field, sql, h.op, [], h.modifier, h.not, vs, false, []), e)
  {
    hide SqlOperator, OperandsAt, IsBare, IsKey, HasBooleanOp, IsReserved, NamedOperation, At, Peek, After, ModifierTokens;
    var op := [Token(h.op, false)] + ModifierTokens(h.modifier) + [SepToken('.')];
    AtPeek(ts, i, [SepToken('=')] + OpTokens(h), 0);
    AtPeek(ts, i, [SepToken('=')] + OpTokens(h), 1);
    AtSplit(ts, i, [SepToken('=')], OpTokens(h));
    if h.not {
      AtPeek(ts, i, [SepToken('=')] + OpTokens(h), 2);
      AtSplit(ts, i + 1, [Token("not", false), SepToken('.')], op);
      OperatorIsRead(ts, i + 3, h, sql, vs, e, field);
    } else {
      assert OpTokens(h) == op;
      OperatorIsRead(ts, i + 1, h, sql, vs, e, field);
    }
  }

  /** A condition at the top is read as what its parts say. */
  lemma HeadingIsRead(ts: seq<Token>, h: Heading, sql: string, vs: seq<string>, e: nat, mainTable: string)
    requires IsHeading(h) && SqlOperator(h.op) == Some(sql) && (sql == "@@" ==> h.modifier == "") && At(ts, 0, HeadTokens(h))
    requires OperandsAt(ts, |HeadTokens(h)| - 1, sql, h.modifier, SqlPath(h.key.members)) == Ok(vs, e)
    ensures CondAt(ts, 0, 0, mainTable, ROOT) == Ok(NodeOf(h, sql, vs, mainTable), e)
  {
    hide SqlOperator, OperandsAt, IsKey, HasBooleanOp, KeyTokens, OpTokens, OperationAt, FieldAt, Inherit, At, Peek, IsBare, PathStands, SqlPath, LastNamed;
    var n := |KeyTokens(h.key)|;
    AtSplit(ts, 0, KeyTokens(h.key), [SepToken('=')] + OpTokens(h));
    AtPeek(ts, n, [SepToken('=')] + OpTokens(h), 0);
    KeyIsFound(ts, h.key, mainTable);
    KeyStands(ts, h.key);
    OperationIsFound(ts, n, h, sql, vs, e, KeyField(h.key, mainTable));
    InheritKeepsPath(FieldAt(ts, 0, true, false).value, mainTable);
  }

  lemma InheritKeepsPath(f: Field, mainTable: string)
    ensures Inherit(f, mainTable, ROOT).jsonPath == f.jsonPath
  {
  }

  // ----- What is read of a condition -----

  lemma ValueBegins(ts: seq<Token>, h: Heading, toks: seq<Token>)
    requires At(ts, 0, HeadTokens(h) + toks)
    ensures |HeadTokens(h)| > 0 && At(ts, 0, HeadTokens(h)) && At(ts, |HeadTokens(h)|, toks)
    ensures Peek(ts, |HeadTokens(h)| - 1) == "." && After(ts, |HeadTokens(h)| - 1) == |HeadTokens(h)|
  {
    hide KeyTokens, At;
    AtSplit(ts, 0, HeadTokens(h), toks);
    AtPeek(ts, 0, HeadTokens(h), |HeadTokens(h)| - 1);
  }

  lemma WholeIsAt(a: seq<Token>, b: seq<Token>)
    ensures At(a + b, 0, a)
  {
  }

  lemma PeekBehind(a: seq<Token>, rest: string)
    requires Stops(rest)
    ensures Peek(a + ScanRest(rest, FILTER_MARKS), |a|) == "." <==> rest != "" && rest[0] == '.'
  {
    var b := ScanRest(rest, FILTER_MARKS);
    if rest == "" {
    } else if rest[0] in SEP {
      MarkIsNoArrow(rest);
      assert b[0] == Token([rest[0]], false);
    } else {
      ArrowIsLong(rest);
      assert b[0].text[0] == '-';
    }
  }

  /** Main result: a value is read as it is meant, whatever the operator, the key and the negation, and
      whatever follows behind the next mark. So an unquoted text is cut at its first mark, silently. */
  lemma ValueIsReadUpToMark(h: Heading, sql: string, it: Item, rest: string, mainTable: string) returns (w: string)
    requires IsHeading(h) && SqlOperator(h.op) == Some(sql) && sql != "IN" && h.modifier == ""
    requires IsItem(it) && (sql == "IS" ==> it.Bare? && KeywordOf(it.s).Some?)
    requires Stops(rest) && (it.Bare? ==> rest == "" || rest[0] != '.')
    ensures IsReadAs(sql, Meant(it, IsJsonTyped(SqlPath(h.key.members))), w)
    ensures ConditionAt(mainTable, KeyText(h.key), OpText(h) + ItemText(it) + rest)
         == Ok(NodeOf(h, sql, [w], mainTable), |HeadTokens(h)| + |ItemTokens(it)|)
  {
    hide SqlOperator, IsHeading, IsItem, ItemText, ItemTokens, ReadsHere, Stops, HeadTokens, OpText, KeyText, CondAt, ValueAt, SqlPath, Meant, IsReadAs, At, IsJsonTyped,
         Scan, ScanCondition, NodeOf, Peek, After;
    var toks, n := ItemTokens(it), |HeadTokens(h)|;
    ReadsItem(it);
    BareIsOne(it);
    ConditionIsScanned(h, ItemText(it), toks, rest);
    var ts := HeadTokens(h) + toks + ScanRest(rest, FILTER_MARKS);
    WholeIsAt(HeadTokens(h) + toks, ScanRest(rest, FILTER_MARKS));
    ValueBegins(ts, h, toks);
    if it.Bare? {
      PeekBehind(HeadTokens(h) + toks, rest);
    }
    w := ItemIsRead(ts, n, it, sql, SqlPath(h.key.members));
    HeadingIsRead(ts, h, sql, [w], n + |toks|, mainTable);
  }

  /** The whole of it, when there is nothing behind. */
  lemma ValueIsReadBack(h: Heading, sql: string, it: Item, mainTable: string) returns (w: string)
    requires IsHeading(h) && SqlOperator(h.op) == Some(sql) && sql != "IN" && h.modifier == ""
    requires IsItem(it) && (sql == "IS" ==> it.Bare? && KeywordOf(it.s).Some?)
    ensures IsReadAs(sql, Meant(it, IsJsonTyped(SqlPath(h.key.members))), w)
    ensures ConditionAt(mainTable, KeyText(h.key), OpText(h) + ItemText(it))
         == Ok(NodeOf(h, sql, [w], mainTable), |ScanCondition(KeyText(h.key), OpText(h) + ItemText(it))|)
  {
    hide SqlOperator, IsHeading, IsItem, ItemText, ItemTokens, ReadsHere, HeadTokens, OpText, KeyText, SqlPath, Meant, IsReadAs, IsJsonTyped, ScanCondition, ConditionAt, NodeOf;
    w := ValueIsReadUpToMark(h, sql, it, "", mainTable);
    ReadsItem(it);
    ConditionIsScanned(h, ItemText(it), ItemTokens(it), "");
    assert OpText(h) + ItemText(it) + "" == OpText(h) + ItemText(it);
    NothingScanned();
  }

  /** A finding: behind an apostrophe that nothing closes, the text is dropped: eq.O'Brien is eq.O. */
  lemma UnclosedIsDropped(h: Heading, s: string, c: char, t: string, mainTable: string)
    requires IsHeading(h) && IsBare(s) && (c == '"' || c == '\'') && forall i :: 0 <= i < |t| ==> t[i] != '"' && t[i] != '\''
    ensures ConditionAt(mainTable, KeyText(h.key), OpText(h) + (s + ([c] + t))) == ConditionAt(mainTable, KeyText(h.key), OpText(h) + s)
  {
    hide IsHeading, OpText, KeyText, HeadTokens, IsBare, Scan, CondAt;
    HeadIsScanned(h, s + ([c] + t));
    HeadIsScanned(h, s);
    UnclosedIsNothing(s, c, t);
    ReadsBare(s);
    ReadsAtEnd(s, [Token(s, false)], "");
  }

  lemma NothingScanned()
    ensures ScanRest("", FILTER_MARKS) == []
  {
  }

  /** Main result: in.(...) and op(any).{...} read each of their values so. */
  lemma ListIsReadBack(h: Heading, sql: string, its: seq<Item>, mainTable: string) returns (ws: seq<string>)
    requires IsHeading(h) && SqlOperator(h.op) == Some(sql) && sql != "IS" && sql != "@@" && AreItems(its)
    requires (sql == "IN") != (h.modifier != "") && (h.modifier != "" ==> its != [])
    ensures AreReadAs(sql, its, IsJsonTyped(SqlPath(h.key.members)), ws)
    ensures var text := OpText(h) + if sql == "IN" then "(" + ItemsText(its) + ")" else "{" + ItemsText(its) + "}";
      ConditionAt(mainTable, KeyText(h.key), text) == Ok(NodeOf(h, sql, ws, mainTable), |ScanCondition(KeyText(h.key), text)|)
  {
    hide SqlOperator, IsHeading, AreItems, ItemsText, ItemsTokens, ReadsHere, Reads, HeadTokens, OpText, KeyText, CondAt, ClosedList, SqlPath, AreReadAs, At, IsJsonTyped,
         Scan, ScanCondition, NodeOf, Peek, After;
    var open, close := if sql == "IN" then '(' else '{', if sql == "IN" then ')' else '}';
    var x, toks := [open] + (ItemsText(its) + [close]), [SepToken(open)] + (ItemsTokens(its) + [SepToken(close)]);
    ReadsList(its, open, close);
    ConditionIsScanned(h, x, toks, "");
    NothingScanned();
    var ts := HeadTokens(h) + toks + ScanRest("", FILTER_MARKS);
    WholeIsAt(HeadTokens(h) + toks, ScanRest("", FILTER_MARKS));
    ValueBegins(ts, h, toks);
    ws := ClosedListIsRead(ts, |HeadTokens(h)|, open, its, close, sql, SqlPath(h.key.members));
    HeadingIsRead(ts, h, sql, ws, |HeadTokens(h)| + |toks|, mainTable);
    assert OpText(h) + x + "" == OpText(h) + if sql == "IN" then "(" + ItemsText(its) + ")" else "{" + ItemsText(its) + "}";
  }

  lemma ReadsList(its: seq<Item>, open: char, close: char)
    requires AreItems(its) && ((open == '(' && close == ')') || (open == '{' && close == '}'))
    ensures ReadsHere([open] + (ItemsText(its) + [close]), [SepToken(open)] + (ItemsTokens(its) + [SepToken(close)]))
  {
    hide Reads, ReadsHere, ItemsText, ItemsTokens, AreItems;
    BracketsAreMarks(open, close, open == '{');
    ReadsItems(its, close);
    ReadsMark(open);
    ReadsConcat([open], [SepToken(open)], ItemsText(its) + [close], ItemsTokens(its) + [SepToken(close)], FILTER_MARKS);
    ReadsThere([open] + (ItemsText(its) + [close]), [SepToken(open)] + (ItemsTokens(its) + [SepToken(close)]));
  }

  /** Main result: arrays, ranges and composites, nested to any depth, are passed on as they are written,
      with quotes around the words of an array. */
  lemma NestIsReadBack(h: Heading, sql: string, p: Part, braces: bool, mainTable: string) returns (w: string)
    requires IsHeading(h) && SqlOperator(h.op) == Some(sql) && sql != "IN" && h.modifier == "" && p.Nest? && IsPart(p, braces)
    ensures IsReadAs(sql, Passed(p, braces), w)
    ensures ConditionAt(mainTable, KeyText(h.key), OpText(h) + PartText(p))
         == Ok(NodeOf(h, sql, [w], mainTable), |ScanCondition(KeyText(h.key), OpText(h) + PartText(p))|)
  {
    hide SqlOperator, IsHeading, IsPart, PartText, PartTokens, ReadsHere, HeadTokens, OpText, KeyText, CondAt, ValueAt, SqlPath, Passed, IsReadAs, At,
         Scan, ScanCondition, NodeOf, Peek, After;
    var toks, n := PartTokens(p), |HeadTokens(h)|;
    ReadsPart(p, braces);
    ConditionIsScanned(h, PartText(p), toks, "");
    NothingScanned();
    var ts := HeadTokens(h) + toks + ScanRest("", FILTER_MARKS);
    WholeIsAt(HeadTokens(h) + toks, ScanRest("", FILTER_MARKS));
    ValueBegins(ts, h, toks);
    PeekBehind(HeadTokens(h) + toks, "");
    w := NestIsRead(ts, n, p, braces, sql, SqlPath(h.key.members));
    HeadingIsRead(ts, h, sql, [w], n + |toks|, mainTable);
    assert OpText(h) + PartText(p) + "" == OpText(h) + PartText(p);
  }

  /** So PostgreSQL gets the elements of an array as they were written, but for the `*` of LIKE. */
  lemma ArrayIsReadBack(h: Heading, sql: string, p: Part, mainTable: string) returns (w: string)
    requires IsHeading(h) && SqlOperator(h.op) == Some(sql) && sql !in {"IN", "LIKE", "ILIKE"} && h.modifier == ""
    requires p.Nest? && IsPart(p, true) && HasNoBlankWord(p)
    ensures ReadElem(w) == Some((ElemOf(p), ""))
    ensures ConditionAt(mainTable, KeyText(h.key), OpText(h) + PartText(p))
         == Ok(NodeOf(h, sql, [w], mainTable), |ScanCondition(KeyText(h.key), OpText(h) + PartText(p))|)
  {
    hide SqlOperator, IsHeading, IsPart, PartText, Passed, ReadElem, ElemOf, OpText, KeyText, ConditionAt, ScanCondition, NodeOf;
    w := NestIsReadBack(h, sql, p, true, mainTable);
    ArrayIsMeant(p);
  }

  // ----- From the text to the rows -----

  /** PostgREST's table of operators. */
  const OPERATORS := map[
    "eq" := "=", "neq" := "<>", "gt" := ">", "gte" := ">=", "lt" := "<", "lte" := "<=",
    "like" := "LIKE", "ilike" := "ILIKE", "match" := "~", "imatch" := "~*",
    "in" := "IN", "is" := "IS", "isdistinct" := "IS DISTINCT FROM",
    "cs" := "@>", "cd" := "<@", "ov" := "&&", "sl" := "<<", "sr" := ">>", "nxr" := "&<", "nxl" := "&>", "adj" := "-|-",
    "fts" := "@@", "plfts" := "@@", "phfts" := "@@", "wfts" := "@@"]

  lemma OperatorsExactly(op: string)
    ensures SqlOperator(op)
         == if op in OPERATORS then Some(OPERATORS[op]) else if op in {"not", "start", "after", "recurse", "via"} then Some("") else None
  {
  }

  predicate IsColumn(name: string) { IsBare(name) && !IsReserved(name) && !HasBooleanOp(name) }

  function Plain(name: string, not: bool, op: string): Heading { Heading(Key([], name, []), not, op, "") }

  lemma PlainHeading(name: string, not: bool, op: string)
    requires IsColumn(name) && IsBare(op) && op != "not"
    ensures IsHeading(Plain(name, not, op)) && KeyText(Plain(name, not, op).key) == name
    ensures OpText(Plain(name, not, op)) == (if not then "not." else "") + op + "."
    ensures SqlPath(Plain(name, not, op).key.members) == "" && !IsJsonTyped("")
  {
    assert "" + (name + "") == name && op + "" == op;
    assert LastIndex("", "->") == -1 && LastIndex("", "->>") == -1;
  }

  lemma OrderWordsAreBare()
    ensures IsBare("eq") && IsBare("neq") && IsBare("lt") && IsBare("lte") && IsBare("gt") && IsBare("gte") && IsBare("is")
  {
    WordIsBare("eq");
    WordIsBare("neq");
    WordIsBare("lt");
    WordIsBare("lte");
    WordIsBare("gt");
    WordIsBare("gte");
    WordIsBare("is");
  }

  lemma WordIsBare(s: string)
    requires s != "" && forall i :: 0 <= i < |s| ==> 'a' <= s[i] <= 'z'
    ensures IsBare(s)
  {
  }

  lemma NumberIsBare(y: int)
    ensures IsBare(Signed(y)) && KeywordOf(Signed(y)).None?
  {
    var d := Dec(if y < 0 then -y else y);
    assert IsDigit(d[0]);
    forall i | 0 <= i < |d| ensures d[i] !in SEP && !IsQuote(d[i]) && d[i] != '\\' && d[i] != '-' && d[i] != ' ' && d[i] != '>' {
      assert IsDigit(d[i]);
    }
    if y < 0 {
      assert forall i :: 0 < i < |"-" + d| ==> ("-" + d)[i] == d[i - 1];
    }
    assert "null"[0] == 'n' && "not_null"[0] == 'n' && "true"[0] == 't' && "false"[0] == 'f' && "unknown"[0] == 'u';
  }

  /** What the six operators mean for two numbers. */
  predicate Holds(op: string, x: int, y: int) {
    match op
    case "eq" => x == y
    case "neq" => x != y
    case "lt" => x < y
    case "lte" => x <= y
    case "gt" => x > y
    case "gte" => x >= y
    case _ => false
  }

  /** A comparison of a plain column with a bare word. */
  function PlainNode(name: string, not: bool, op: string, sql: string, v: string, mainTable: string): Node {
    Node(Field(name, mainTable, [], "", ""), sql, op, [], "", not, [KeywordOf(v).GetOr(v)], false, [])
  }

  lemma PlainIsRead(name: string, not: bool, op: string, sql: string, v: string, mainTable: string)
    requires IsColumn(name) && IsBare(op) && op != "not" && SqlOperator(op) == Some(sql) && sql !in {"IN", "LIKE", "ILIKE"}
    requires IsBare(v) && (sql == "IS" ==> KeywordOf(v).Some?)
    ensures var text := (if not then "not." else "") + op + "." + v;
      ConditionAt(mainTable, name, text) == Ok(PlainNode(name, not, op, sql, v, mainTable), |ScanCondition(name, text)|)
  {
    hide IsBare, KeywordOf, IsHeading, OpText, KeyText, SqlPath, IsJsonTyped, ScanCondition, ConditionAt, IsReserved, HasBooleanOp, SqlOperator;
    PlainHeading(name, not, op);
    var w := ValueIsReadBack(Plain(name, not, op), sql, Bare(v), mainTable);
    assert NodeOf(Plain(name, not, op), sql, [w], mainTable) == PlainNode(name, not, op, sql, v, mainTable);
  }

  /** Main result: name=op.number, read, printed and evaluated by PostgreSQL, keeps the rows whose
      number compares so; with not, the others. */
  lemma NumbersAreFiltered(name: string, not: bool, op: string, y: int, m: int, env: Env, c: Context, x: int) returns (n: Node)
    requires IsColumn(name) && op in {"eq", "neq", "lt", "lte", "gt", "gte"} && Cell(c.row, name) == Num(x)
    ensures var text := (if not then "not." else "") + op + "." + Signed(y);
      ConditionAt(c.table, name, text) == Ok(n, |ScanCondition(name, text)|) && AllHaveOperands(n)
    ensures Evaluated(n, m, env, c) ==> (KeepsRow(n, m, env, c) <==> Holds(op, x, y) != not)
  {
    hide IsBare, KeywordOf, ScanCondition, ConditionAt, Evaluated, KeepsRow, IsReserved, HasBooleanOp, Signed, SqlOperator, Holds;
    OrderOperator(op);
    NumberIsBare(y);
    BareIsNoMark(name);
    PlainIsRead(name, not, op, OPERATORS[op], Signed(y), c.table);
    n := PlainNode(name, not, op, OPERATORS[op], Signed(y), c.table);
    if Evaluated(n, m, env, c) {
      NumberIsKept(n, op, m, env, c, x, y);
    }
  }

  lemma OrderOperator(op: string)
    requires op in {"eq", "neq", "lt", "lte", "gt", "gte"}
    ensures op in OPERATORS && SqlOperator(op) == Some(OPERATORS[op]) && IsOrderOp(OPERATORS[op]) && OPERATORS[op] !in {"IN", "LIKE", "ILIKE", "IS", ""}
    ensures IsBare(op) && op != "not"
  {
    hide IsBare, SqlOperator;
    OrderWordsAreBare();
    OperatorsExactly(op);
  }

  lemma SameOrder(op: string, x: int, y: int)
    requires op in {"eq", "neq", "lt", "lte", "gt", "gte"}
    ensures Ordered(OPERATORS[op], x, y) <==> Holds(op, x, y)
  {
  }

  lemma NumberIsKept(n: Node, op: string, m: int, env: Env, c: Context, x: int, y: int)
    requires op in {"eq", "neq", "lt", "lte", "gt", "gte"} && op in OPERATORS
    requires IsOrderOp(OPERATORS[op]) && IsLeaf(n, OPERATORS[op], [Signed(y)]) && Evaluated(n, m, env, c)
    requires Cell(c.row, n.field.name) == Num(x)
    ensures KeepsRow(n, m, env, c) <==> Holds(op, x, y) != n.not
  {
    hide Evaluated, KeepsRow, Signed, OPERATORS, IsOrderOp, Holds, Ordered, Cell;
    NumbersKeep(n, m, env, c, OPERATORS[op], x, y);
    SameOrder(op, x, y);
  }

  /** Main result: name=eq.text keeps the rows that hold this text, letter for letter. */
  lemma TextsAreFiltered(name: string, not: bool, v: string, m: int, env: Env, c: Context, s: string) returns (n: Node)
    requires IsColumn(name) && IsBare(v) && KeywordOf(v).None? && Cell(c.row, name) == Str(s)
    ensures var text := (if not then "not." else "") + "eq" + "." + v;
      ConditionAt(c.table, name, text) == Ok(n, |ScanCondition(name, text)|) && AllHaveOperands(n)
    ensures Evaluated(n, m, env, c) ==> (KeepsRow(n, m, env, c) <==> (s == v) != not)
  {
    hide IsBare, ScanCondition, ConditionAt, Evaluated, KeepsRow, IsReserved, HasBooleanOp;
    OrderWordsAreBare();
    BareIsNoMark(name);
    NoKeyword(v);
    PlainIsRead(name, not, "eq", "=", v, c.table);
    n := PlainNode(name, not, "eq", "=", v, c.table);
    if Evaluated(n, m, env, c) {
      TextsKeep(n, m, env, c, "=", v);
    }
  }

  lemma NoKeyword(v: string)
    ensures KeywordOf(v).None? ==> !IsKeyword(v)
    ensures KeywordOf("null") == Some("null") && KeywordOf("not_null") == Some("not_null")
  {
  }

  /** Main result: name=is.null keeps the rows without a value, name=is.not_null those with one, in
      whatever case the words are written. */
  lemma NullsAreFiltered(name: string, not: bool, v: string, m: int, env: Env, c: Context) returns (n: Node)
    requires IsColumn(name) && IsBare(v) && (IsCaseOf(v, "null") || IsCaseOf(v, "not_null"))
    ensures var text := (if not then "not." else "") + "is" + "." + v;
      ConditionAt(c.table, name, text) == Ok(n, |ScanCondition(name, text)|) && AllHaveOperands(n)
    ensures Evaluated(n, m, env, c) ==>
      (KeepsRow(n, m, env, c) <==> (if IsCaseOf(v, "null") then Cell(c.row, name) == Null else Cell(c.row, name) != Null) != not)
  {
    hide IsBare, ScanCondition, ConditionAt, Evaluated, KeepsRow, IsReserved, HasBooleanOp;
    OrderWordsAreBare();
    BareIsNoMark(name);
    PlainIsRead(name, not, "is", "IS", v, c.table);
    n := PlainNode(name, not, "is", "IS", v, c.table);
    if Evaluated(n, m, env, c) {
      IsKeeps(n, m, env, c, if IsCaseOf(v, "null") then "null" else "not_null");
    }
  }
}
