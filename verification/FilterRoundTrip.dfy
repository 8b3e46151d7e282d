/** Printing a filter tree and then scanning and parsing the text gives the tree back. */
module FilterRoundTrip {
  import opened Sql
  import opened Filters
  import opened Scanner
  import opened FilterGrammar

  // ----- Trees that have a text -----

  predicate IsReserved(name: string) { IsBooleanOpStrict(name) || name == BOOLEAN_LATER }

  predicate HasStar(s: string) { '*' in s }

  /** The parts of a comparison fit together. LIKE patterns cannot contain the `*` that stands for
      `%`; otherwise values are arbitrary strings. */
  predicate IsShaped(n: Node) {
    && n.opSource != "not" && n.operator != ""
    && n.children == [] && !n.inserted
    && (n.opArgs != [] ==> n.operator == "@@")
    && (n.opModifier != "" ==> n.operator != "@@" && (n.opModifier == "any" || n.opModifier == "all"))
    && (if n.operator == "IN" then true else if n.opModifier != "" then n.values != [] else |n.values| == 1)
    && (n.operator == "LIKE" || n.operator == "ILIKE" ==> forall v :: v in n.values ==> !HasStar(v))
  }

  /** A comparison on a column of `table`: any name that is not a reserved word, any operator. */
  predicate IsComparison(n: Node, table: string) {
    && n.field == NO_FIELD.(name := n.field.name, tablename := table)
    && n.field.name != "" && !IsReserved(n.field.name)
    && SqlOperator(n.opSource) == Some(n.operator)
    && IsShaped(n)
  }

  /** A tree on `table` that nests at most `budget` deep. */
  predicate IsFilter(n: Node, table: string, budget: int) {
    && budget > 0
    && if n.field.name != "" then IsComparison(n, table)
       else
         && n == ROOT.(field := NO_FIELD.(tablename := table), operator := n.operator, not := n.not, children := n.children)
         && (n.operator == "AND" || n.operator == "OR")
         && n.children != [] && forall c :: c in n.children ==> IsFilter(c, table, budget - 1)
  }

  // ----- Printing -----

  /** A word and the separator behind it. */
  function Word(s: string, c: char): string { PrintName(s, SEP, LONG_SEP) + [c] }

  function PrintList(vs: seq<string>): string {
    if vs == [] then "" else if |vs| == 1 then Quote(vs[0]) else Quote(vs[0]) + "," + PrintList(vs[1..])
  }

  function PrintOperator(n: Node): string {
    if n.opArgs != [] then Word(n.opSource, '(') + PrintList(n.opArgs) + ")" + "."
    else if n.opModifier != "" then Word(n.opSource, '(') + Word(n.opModifier, ')') + "."
    else Word(n.opSource, '.')
  }

  function PrintOperands(n: Node): string {
    if n.operator == "IN" then "(" + PrintList(n.values) + ")"
    else if n.opModifier != "" then "{" + PrintList(n.values) + "}"
    else PrintList(n.values)
  }

  function PrintNot(n: Node): string { if n.not then Word("not", '.') else "" }

  function PrintOperation(n: Node): string { PrintNot(n) + PrintOperator(n) + PrintOperands(n) }

  function GroupWord(n: Node): string { if n.operator == "AND" then "and" else "or" }

  /** A condition inside a group. */
  function Print(n: Node): string
    decreases n, |n.children| + 1
  {
    if n.field.name != "" then Word(n.field.name, '.') + PrintOperation(n)
    else PrintNot(n) + Word(GroupWord(n), '(') + PrintMembers(n, 0) + ")"
  }

  function PrintMembers(n: Node, k: nat): string
    requires k <= |n.children|
    decreases n, |n.children| - k
  {
    if k == |n.children| then ""
    else if k + 1 == |n.children| then Print(n.children[k])
    else Print(n.children[k]) + "," + PrintMembers(n, k + 1)
  }

  /** A condition of the query string: its key and its value. */
  function PrintKey(n: Node): string {
    if n.field.name != "" then PrintName(n.field.name, SEP, LONG_SEP)
    else (if n.not then "not." else "") + GroupWord(n)
  }

  function PrintValue(n: Node): string {
    if n.field.name != "" then PrintOperation(n) else "(" + PrintMembers(n, 0) + ")"
  }

  // ----- The tokens of a printed tree -----

  function NameToken(s: string): Token { Token(s, !IsPlain(s, SEP, LONG_SEP)) }

  function SepToken(c: char): Token { Token([c], false) }

  function WordTokens(s: string, c: char): seq<Token> { [NameToken(s), SepToken(c)] }

  function ListTokens(vs: seq<string>): seq<Token> {
    if vs == [] then [] else if |vs| == 1 then [Token(vs[0], true)]
    else [Token(vs[0], true), SepToken(',')] + ListTokens(vs[1..])
  }

  function OperatorTokens(n: Node): seq<Token> {
    if n.opArgs != [] then WordTokens(n.opSource, '(') + ListTokens(n.opArgs) + [SepToken(')'), SepToken('.')]
    else if n.opModifier != "" then WordTokens(n.opSource, '(') + WordTokens(n.opModifier, ')') + [SepToken('.')]
    else WordTokens(n.opSource, '.')
  }

  function OperandTokens(n: Node): seq<Token> {
    if n.operator == "IN" then [SepToken('(')] + ListTokens(n.values) + [SepToken(')')]
    else if n.opModifier != "" then [SepToken('{')] + ListTokens(n.values) + [SepToken('}')]
    else ListTokens(n.values)
  }

  function NotTokens(n: Node): seq<Token> { if n.not then WordTokens("not", '.') else [] }

  function OperationTokens(n: Node): seq<Token> { NotTokens(n) + OperatorTokens(n) + OperandTokens(n) }

  function Tokens(n: Node): seq<Token>
    decreases n, |n.children| + 1
  {
    if n.field.name != "" then WordTokens(n.field.name, '.') + OperationTokens(n)
    else NotTokens(n) + WordTokens(GroupWord(n), '(') + MemberTokens(n, 0) + [SepToken(')')]
  }

  function MemberTokens(n: Node, k: nat): seq<Token>
    requires k <= |n.children|
    decreases n, |n.children| - k
  {
    if k == |n.children| then []
    else if k + 1 == |n.children| then Tokens(n.children[k])
    else Tokens(n.children[k]) + [SepToken(',')] + MemberTokens(n, k + 1)
  }

  // ----- Scanning the printed text -----

  const FILTER_MARKS := Separators(SEP, LONG_SEP)

  predicate IsMark(c: char) { c in SEP }

  lemma MarksAreSeps(c: char)
    requires IsMark(c)
    ensures IsSep(c, SEP, LONG_SEP) && NotLong('"', LONG_SEP)
  {
    assert LONG_SEP[0][0] == '-' && LONG_SEP[1][0] == '-';
  }

  lemma ReadsMark(c: char)
    requires IsMark(c)
    ensures Reads([c], [SepToken(c)], FILTER_MARKS)
  {
    hide Scan, IsSep, NotLong;
    MarksAreSeps(c);
    forall rest ensures ScanRest([c] + rest, FILTER_MARKS) == [SepToken(c)] + ScanRest(rest, FILTER_MARKS) {
      ScanSep(c, rest, "", true, SEP, LONG_SEP);
    }
  }

  lemma ReadsWord(s: string, c: char)
    requires IsMark(c)
    ensures Reads(Word(s, c), WordTokens(s, c), FILTER_MARKS)
  {
    MarksAreSeps(c);
    forall rest ensures ScanRest(Word(s, c) + rest, FILTER_MARKS) == WordTokens(s, c) + ScanRest(rest, FILTER_MARKS) {
      ScanName(s, c, rest, SEP, LONG_SEP);
    }
  }

  lemma {:induction false} ReadsList(vs: seq<string>)
    ensures Reads(PrintList(vs), ListTokens(vs), FILTER_MARKS)
  {
    if vs == [] {
      ReadsNothing(FILTER_MARKS);
    } else {
      MarksAreSeps('.');
      ReadsQuoted(vs[0], FILTER_MARKS);
      if |vs| > 1 {
        ReadsMark(',');
        ReadsList(vs[1..]);
        ReadsConcat(Quote(vs[0]), [Token(vs[0], true)], ",", [SepToken(',')], FILTER_MARKS);
        assert [Token(vs[0], true)] + [SepToken(',')] == [Token(vs[0], true), SepToken(',')];
        ReadsConcat(Quote(vs[0]) + ",", [Token(vs[0], true), SepToken(',')], PrintList(vs[1..]), ListTokens(vs[1..]), FILTER_MARKS);
      }
    }
  }

  lemma ReadsOperator(n: Node)
    ensures Reads(PrintOperator(n), OperatorTokens(n), FILTER_MARKS)
  {
    ReadsMark('.');
    if n.opArgs != [] {
      ReadsWord(n.opSource, '(');
      ReadsList(n.opArgs);
      ReadsMark(')');
      var a, ta := Word(n.opSource, '(') + PrintList(n.opArgs), WordTokens(n.opSource, '(') + ListTokens(n.opArgs);
      ReadsConcat(Word(n.opSource, '('), WordTokens(n.opSource, '('), PrintList(n.opArgs), ListTokens(n.opArgs), FILTER_MARKS);
      ReadsConcat(a, ta, ")", [SepToken(')')], FILTER_MARKS);
      ReadsConcat(a + ")", ta + [SepToken(')')], ".", [SepToken('.')], FILTER_MARKS);
      assert ta + [SepToken(')')] + [SepToken('.')] == ta + [SepToken(')'), SepToken('.')];
    } else if n.opModifier != "" {
      ReadsWord(n.opSource, '(');
      ReadsWord(n.opModifier, ')');
      ReadsConcat(Word(n.opSource, '('), WordTokens(n.opSource, '('), Word(n.opModifier, ')'), WordTokens(n.opModifier, ')'), FILTER_MARKS);
      ReadsConcat(Word(n.opSource, '(') + Word(n.opModifier, ')'), WordTokens(n.opSource, '(') + WordTokens(n.opModifier, ')'),
                  ".", [SepToken('.')], FILTER_MARKS);
    } else {
      ReadsWord(n.opSource, '.');
    }
  }

  lemma ReadsEnclosed(open: char, vs: seq<string>, close: char)
    requires IsMark(open) && IsMark(close)
    ensures Reads([open] + PrintList(vs) + [close], [SepToken(open)] + ListTokens(vs) + [SepToken(close)], FILTER_MARKS)
  {
    ReadsMark(open);
    ReadsMark(close);
    ReadsList(vs);
    ReadsConcat([open], [SepToken(open)], PrintList(vs), ListTokens(vs), FILTER_MARKS);
    ReadsConcat([open] + PrintList(vs), [SepToken(open)] + ListTokens(vs), [close], [SepToken(close)], FILTER_MARKS);
  }

  lemma ReadsNot(n: Node)
    ensures Reads(PrintNot(n), NotTokens(n), FILTER_MARKS)
  {
    if n.not {
      ReadsWord("not", '.');
    } else {
      ReadsNothing(FILTER_MARKS);
    }
  }

  lemma ReadsOperation(n: Node)
    ensures Reads(PrintOperation(n), OperationTokens(n), FILTER_MARKS)
  {
    ReadsNot(n);
    ReadsOperator(n);
    ReadsConcat(PrintNot(n), NotTokens(n), PrintOperator(n), OperatorTokens(n), FILTER_MARKS);
    if n.operator == "IN" {
      ReadsEnclosed('(', n.values, ')');
    } else if n.opModifier != "" {
      ReadsEnclosed('{', n.values, '}');
    } else {
      ReadsList(n.values);
    }
    ReadsConcat(PrintNot(n) + PrintOperator(n), NotTokens(n) + OperatorTokens(n), PrintOperands(n), OperandTokens(n), FILTER_MARKS);
  }

  lemma {:induction false} ReadsTree(n: Node)
    ensures Reads(Print(n), Tokens(n), FILTER_MARKS)
    decreases n, |n.children| + 1
  {
    if n.field.name != "" {
      ReadsWord(n.field.name, '.');
      ReadsOperation(n);
      ReadsConcat(Word(n.field.name, '.'), WordTokens(n.field.name, '.'), PrintOperation(n), OperationTokens(n), FILTER_MARKS);
    } else {
      ReadsNot(n);
      ReadsWord(GroupWord(n), '(');
      ReadsMembers(n, 0);
      ReadsMark(')');
      var a, ta := PrintNot(n) + Word(GroupWord(n), '('), NotTokens(n) + WordTokens(GroupWord(n), '(');
      ReadsConcat(PrintNot(n), NotTokens(n), Word(GroupWord(n), '('), WordTokens(GroupWord(n), '('), FILTER_MARKS);
      ReadsConcat(a, ta, PrintMembers(n, 0), MemberTokens(n, 0), FILTER_MARKS);
      ReadsConcat(a + PrintMembers(n, 0), ta + MemberTokens(n, 0), ")", [SepToken(')')], FILTER_MARKS);
    }
  }

  lemma {:induction false} ReadsMembers(n: Node, k: nat)
    requires k <= |n.children|
    ensures Reads(PrintMembers(n, k), MemberTokens(n, k), FILTER_MARKS)
    decreases n, |n.children| - k
  {
    if k == |n.children| {
      ReadsNothing(FILTER_MARKS);
    } else {
      var c := n.children[k];
      ReadsTree(c);
      if k + 1 < |n.children| {
        ReadsMark(',');
        ReadsMembers(n, k + 1);
        ReadsConcat(Print(c), Tokens(c), ",", [SepToken(',')], FILTER_MARKS);
        ReadsConcat(Print(c) + ",", Tokens(c) + [SepToken(',')], PrintMembers(n, k + 1), MemberTokens(n, k + 1), FILTER_MARKS);
      }
    }
  }

  // ----- Parsing the tokens -----

  /** The tokens toks stand at position i. */
  predicate At(ts: seq<Token>, i: nat, toks: seq<Token>) {
    i + |toks| <= |ts| && ts[i..i + |toks|] == toks
  }

  lemma AtSplit(ts: seq<Token>, i: nat, a: seq<Token>, b: seq<Token>)
    requires At(ts, i, a + b)
    ensures At(ts, i, a) && At(ts, i + |a|, b)
  {
    var w := ts[i..i + |a + b|];
    assert a == w[..|a|] && b == w[|a|..];
  }

  lemma AtPeek(ts: seq<Token>, i: nat, toks: seq<Token>, k: nat)
    requires At(ts, i, toks) && k < |toks|
    ensures i + k < |ts| && ts[i + k] == toks[k]
    ensures Peek(ts, i + k) == toks[k].text && PeekQuoted(ts, i + k) == toks[k].quoted && After(ts, i + k) == i + k + 1
  {
    assert toks[k] == ts[i..i + |toks|][k];
  }

  lemma QuotedValue(ts: seq<Token>, i: nat, v: string, operator: string)
    requires At(ts, i, [Token(v, true)])
    requires operator == "LIKE" || operator == "ILIKE" ==> !HasStar(v)
    ensures ValueAt(ts, i, operator, "") == Ok([v], i + 1)
  {
    AtPeek(ts, i, [Token(v, true)], 0);
    assert StarsToPercent(v) == v || HasStar(v);
    assert LastIndex("", "->") == -1 && LastIndex("", "->>") == -1;
  }

  lemma {:induction false} ListIsRead(ts: seq<Token>, i: nat, vs: seq<string>, close: char, operator: string, acc: seq<string>)
    requires At(ts, i, ListTokens(vs) + [SepToken(close)])
    requires close == ')' || (close == '}' && vs != [])
    requires operator == "LIKE" || operator == "ILIKE" ==> forall v :: v in vs ==> !HasStar(v)
    ensures ValueList(ts, i, operator, "", acc) == Ok((acc + vs, [close]), i + |ListTokens(vs)| + 1)
    decreases |vs|
  {
    hide ValueAt, Peek, After, HasStar, At;
    var toks := ListTokens(vs) + [SepToken(close)];
    if vs == [] {
      EmptyListIsRead(ts, i, operator, acc);
    } else {
      FirstOfListIsRead(ts, i, vs, close, operator);
      if |vs| == 1 {
        assert vs == [vs[0]];
      } else {
        ListIsRead(ts, i + 2, vs[1..], close, operator, acc + [vs[0]]);
        assert acc + [vs[0]] + vs[1..] == acc + vs;
      }
    }
  }

  lemma EmptyListIsRead(ts: seq<Token>, i: nat, operator: string, acc: seq<string>)
    requires At(ts, i, ListTokens([]) + [SepToken(')')])
    ensures i < |ts| && ValueList(ts, i, operator, "", acc) == Ok((acc, ")"), i + 1)
  {
    AtPeek(ts, i, ListTokens([]) + [SepToken(')')], 0);
    assert acc + [] == acc;
  }

  function MoreOfList(vs: seq<string>, close: char): seq<Token>
    requires vs != []
  {
    if |vs| == 1 then [SepToken(close)] else [SepToken(',')] + (ListTokens(vs[1..]) + [SepToken(close)])
  }

  lemma ListSplit(vs: seq<string>, close: char)
    requires vs != []
    ensures ListTokens(vs) + [SepToken(close)] == [Token(vs[0], true)] + MoreOfList(vs, close)
  {
  }

  lemma FirstOfListIsRead(ts: seq<Token>, i: nat, vs: seq<string>, close: char, operator: string)
    requires At(ts, i, ListTokens(vs) + [SepToken(close)]) && vs != []
    requires operator == "LIKE" || operator == "ILIKE" ==> !HasStar(vs[0])
    ensures i + 2 <= |ts| && ValueAt(ts, i, operator, "") == Ok([vs[0]], i + 1)
    ensures Peek(ts, i + 1) == (if |vs| == 1 then [close] else ",") && After(ts, i + 1) == i + 2
    ensures |vs| > 1 ==> At(ts, i + 2, ListTokens(vs[1..]) + [SepToken(close)])
  {
    hide ValueAt, Peek, After, HasStar, At, ListTokens;
    var more := MoreOfList(vs, close);
    ListSplit(vs, close);
    AtSplit(ts, i, [Token(vs[0], true)], more);
    QuotedValue(ts, i, vs[0], operator);
    AtPeek(ts, i + 1, more, 0);
    if |vs| > 1 {
      AtSplit(ts, i + 1, [SepToken(',')], ListTokens(vs[1..]) + [SepToken(close)]);
    }
  }

  lemma EnclosedIsRead(ts: seq<Token>, i: nat, open: char, vs: seq<string>, close: char, operator: string)
    requires At(ts, i, [SepToken(open)] + ListTokens(vs) + [SepToken(close)])
    requires close == ')' || (close == '}' && vs != [])
    requires operator == "LIKE" || operator == "ILIKE" ==> forall v :: v in vs ==> !HasStar(v)
    ensures ClosedList(ts, i, [open], [close], operator, "") == Ok(vs, i + |ListTokens(vs)| + 2)
  {
    var toks := [SepToken(open)] + ListTokens(vs) + [SepToken(close)];
    AtPeek(ts, i, toks, 0);
    assert toks == [SepToken(open)] + (ListTokens(vs) + [SepToken(close)]);
    AtSplit(ts, i, [SepToken(open)], ListTokens(vs) + [SepToken(close)]);
    ListIsRead(ts, i + 1, vs, close, operator, []);
    assert [] + vs == vs;
  }

  lemma {:induction false} FtsArgsAreRead(ts: seq<Token>, i: nat, vs: seq<string>, acc: seq<string>)
    requires vs != [] && At(ts, i, ListTokens(vs) + [SepToken(')')])
    ensures FtsArgs(ts, i, acc) == (acc + vs, ")", i + |ListTokens(vs)| + 1)
    decreases |vs|
  {
    hide At, Peek, After;
    var toks := ListTokens(vs) + [SepToken(')')];
    AtPeek(ts, i, toks, 0);
    AtPeek(ts, i, toks, 1);
    if |vs| == 1 {
      assert vs == [vs[0]];
    } else {
      assert toks == [Token(vs[0], true), SepToken(',')] + (ListTokens(vs[1..]) + [SepToken(')')]);
      AtSplit(ts, i, [Token(vs[0], true), SepToken(',')], ListTokens(vs[1..]) + [SepToken(')')]);
      FtsArgsAreRead(ts, i + 2, vs[1..], acc + [vs[0]]);
      assert acc + [vs[0]] + vs[1..] == acc + vs;
    }
  }

  lemma FtsSuffixIsRead(ts: seq<Token>, i: nat, n: Node)
    requires IsShaped(n) && n.opArgs != [] && At(ts, i, OperatorTokens(n))
    ensures i <= |ts| && SuffixAt(ts, i + 1, n.operator) == Ok(Suffix(n.opArgs, ""), i + |OperatorTokens(n)| - 1)
  {
    var args := ListTokens(n.opArgs) + [SepToken(')')];
    AtPeek(ts, i, OperatorTokens(n), 1);
    assert OperatorTokens(n) == WordTokens(n.opSource, '(') + (args + [SepToken('.')]);
    AtSplit(ts, i, WordTokens(n.opSource, '('), args + [SepToken('.')]);
    AtSplit(ts, i + 2, args, [SepToken('.')]);
    FtsArgsAreRead(ts, i + 2, n.opArgs, []);
    assert [] + n.opArgs == n.opArgs;
  }

  /** Everything of the operator but its name and the final dot. */
  lemma SuffixIsRead(ts: seq<Token>, i: nat, n: Node)
    requires IsShaped(n) && At(ts, i, OperatorTokens(n))
    ensures i + 1 <= |ts| && SuffixAt(ts, i + 1, n.operator) == Ok(Suffix(n.opArgs, n.opModifier), i + |OperatorTokens(n)| - 1)
  {
    var toks := OperatorTokens(n);
    AtPeek(ts, i, toks, 1);
    if n.opArgs != [] {
      FtsSuffixIsRead(ts, i, n);
    } else if n.opModifier != "" {
      AtPeek(ts, i, toks, 2);
      AtPeek(ts, i, toks, 3);
    }
  }

  lemma OperandsAreRead(ts: seq<Token>, i: nat, n: Node)
    requires IsShaped(n) && Peek(ts, i) == "." && After(ts, i) == i + 1 && At(ts, i + 1, OperandTokens(n))
    ensures i <= |ts| && OperandsAt(ts, i, n.operator, n.opModifier, "") == Ok(n.values, i + 1 + |OperandTokens(n)|)
  {
    if n.operator == "IN" {
      EnclosedIsRead(ts, i + 1, '(', n.values, ')', n.operator);
    } else if n.opModifier != "" {
      EnclosedIsRead(ts, i + 1, '{', n.values, '}', n.operator);
    } else {
      assert n.values == [n.values[0]] && n.values[0] in n.values;
      QuotedValue(ts, i + 1, n.values[0], n.operator);
    }
  }

  lemma OperatorEnds(n: Node)
    ensures |OperatorTokens(n)| >= 2 && OperatorTokens(n)[0].text == n.opSource
    ensures OperatorTokens(n)[|OperatorTokens(n)| - 1].text == "."
  {
  }

  lemma NamedOperationIsRead(ts: seq<Token>, i: nat, n: Node)
    requires IsShaped(n) && SqlOperator(n.opSource) == Some(n.operator) && n.field.jsonPath == ""
    requires At(ts, i, OperatorTokens(n) + OperandTokens(n))
    ensures i <= |ts| && NamedOperation(ts, i, n.not, n.field) == Ok(n, i + |OperatorTokens(n)| + |OperandTokens(n)|)
  {
    hide SqlOperator, OperatorTokens, OperandTokens, SuffixAt, OperandsAt;
    var toks := OperatorTokens(n);
    OperatorEnds(n);
    AtSplit(ts, i, toks, OperandTokens(n));
    AtPeek(ts, i, toks, 0);
    AtPeek(ts, i, toks, |toks| - 1);
    SuffixIsRead(ts, i, n);
    OperandsAreRead(ts, i + |toks| - 1, n);
  }

  lemma OperationIsRead(ts: seq<Token>, i: nat, sep: char, n: Node)
    requires IsShaped(n) && SqlOperator(n.opSource) == Some(n.operator) && n.field.jsonPath == ""
    requires At(ts, i, [SepToken(sep)] + OperationTokens(n))
    ensures i <= |ts| && OperationAt(ts, i, [sep], n.field) == Ok(n, i + 1 + |OperationTokens(n)|)
  {
    hide SqlOperator, OperatorTokens, OperandTokens, NamedOperation, At, Peek, After;
    var op := OperatorTokens(n) + OperandTokens(n);
    OperatorEnds(n);
    AtPeek(ts, i, [SepToken(sep)] + OperationTokens(n), 0);
    AtSplit(ts, i, [SepToken(sep)], OperationTokens(n));
    assert OperationTokens(n) == NotTokens(n) + op;
    AtSplit(ts, i + 1, NotTokens(n), op);
    NamedOperationIsRead(ts, i + 1 + |NotTokens(n)|, n);
    if n.not {
      AtPeek(ts, i + 1, NotTokens(n), 0);
      AtPeek(ts, i + 1, NotTokens(n), 1);
    } else {
      AtPeek(ts, i + 1, op, 0);
    }
  }

  lemma PlainFieldIsRead(ts: seq<Token>, i: nat, name: string, sep: char, mayHaveTable: bool)
    requires At(ts, i, WordTokens(name, sep)) && name != "" && sep != '-' && (mayHaveTable ==> sep != '.')
    ensures i <= |ts| && FieldAt(ts, i, mayHaveTable, false) == Ok(NO_FIELD.(name := name), i + 1)
  {
    AtPeek(ts, i, WordTokens(name, sep), 0);
    AtPeek(ts, i, WordTokens(name, sep), 1);
    assert [sep][0] != "->"[0] && [sep][0] != "->>"[0];
  }

  /** A comparison: as a member of a group the separator is a dot, at the root an equals sign. */
  lemma ComparisonIsRead(ts: seq<Token>, i: nat, sep: char, n: Node, mainTable: string, parent: Node)
    requires n.field.name != "" && n.field.jsonPath == "" && IsShaped(n) && SqlOperator(n.opSource) == Some(n.operator)
    requires At(ts, i, WordTokens(n.field.name, sep) + OperationTokens(n))
    requires sep == if IsRootNode(parent) then '=' else '.'
    requires Inherit(NO_FIELD.(name := n.field.name), mainTable, parent) == n.field
    ensures i <= |ts| && ComparisonAt(ts, i, mainTable, parent) == Ok(n, i + 2 + |OperationTokens(n)|)
  {
    hide SqlOperator, OperationTokens, OperationAt, FieldAt;
    AtSplit(ts, i, WordTokens(n.field.name, sep), OperationTokens(n));
    PlainFieldIsRead(ts, i, n.field.name, sep, IsRootNode(parent));
    assert WordTokens(n.field.name, sep) + OperationTokens(n) == [NameToken(n.field.name)] + ([SepToken(sep)] + OperationTokens(n));
    AtSplit(ts, i, [NameToken(n.field.name)], [SepToken(sep)] + OperationTokens(n));
    OperationIsRead(ts, i + 1, sep, n);
  }

  /** A node in whose scope a column belongs to `table`. */
  predicate IsScope(parent: Node, table: string) {
    parent.field.relPath == [] && (parent.field.tablename == table || (parent.field.tablename == "" && IsRootNode(parent)))
  }

  lemma HeadIsRead(ts: seq<Token>, i: nat, n: Node, base: Node)
    requires n.operator == "AND" || n.operator == "OR"
    requires At(ts, i, NotTokens(n) + WordTokens(GroupWord(n), '('))
    ensures i <= |ts| && BooleanHead(ts, i, base) == Ok(base.(not := n.not, operator := n.operator), i + |NotTokens(n)| + 2)
    ensures IsBooleanOpStrict(Peek(ts, i))
  {
    var toks := NotTokens(n) + WordTokens(GroupWord(n), '(');
    AtPeek(ts, i, toks, 0);
    AtPeek(ts, i, toks, 1);
    if n.not {
      AtPeek(ts, i, toks, 2);
      AtPeek(ts, i, toks, 3);
    }
  }

  lemma {:induction false} TreeIsRead(ts: seq<Token>, i: nat, depth: nat, table: string, parent: Node, n: Node)
    requires IsFilter(n, table, MAX_FILTER_DEPTH - depth)
    requires n.field.name != "" ==> IsScope(parent, table)
    requires if n.field.name != "" && IsRootNode(parent) then At(ts, i, WordTokens(n.field.name, '=') + OperationTokens(n))
             else At(ts, i, Tokens(n))
    ensures i <= |ts| && CondAt(ts, i, depth, table, parent) == Ok(n, i + |Tokens(n)|)
    decreases n, |n.children| + 2
  {
    hide IsShaped, SqlOperator, OperationTokens, At, BooleanAt, ComparisonAt, MemberTokens;
    if n.field.name != "" {
      var sep := if IsRootNode(parent) then '=' else '.';
      AtPeek(ts, i, WordTokens(n.field.name, sep) + OperationTokens(n), 0);
      ComparisonIsRead(ts, i, sep, n, table, parent);
    } else {
      GroupIsRead(ts, i, depth + 1, table, n);
      AtSplit(ts, i, NotTokens(n) + WordTokens(GroupWord(n), '('), MemberTokens(n, 0) + [SepToken(')')]);
      HeadIsRead(ts, i, n, ROOT);
    }
  }

  lemma {:induction false} GroupIsRead(ts: seq<Token>, i: nat, depth: nat, table: string, n: Node)
    requires n.field.name == "" && IsFilter(n, table, MAX_FILTER_DEPTH - depth + 1) && At(ts, i, Tokens(n))
    ensures At(ts, i, NotTokens(n) + WordTokens(GroupWord(n), '(') + (MemberTokens(n, 0) + [SepToken(')')]))
    ensures i <= |ts|
    ensures BooleanAt(ts, i, depth, table, ROOT.(field := NO_FIELD.(tablename := table))) == Ok(n, i + |Tokens(n)|)
    decreases n, |n.children| + 1
  {
    hide MembersAt, BooleanHead;
    var base := ROOT.(field := NO_FIELD.(tablename := table));
    var head := NotTokens(n) + WordTokens(GroupWord(n), '(');
    assert Tokens(n) == head + (MemberTokens(n, 0) + [SepToken(')')]);
    AtSplit(ts, i, head, MemberTokens(n, 0) + [SepToken(')')]);
    HeadIsRead(ts, i, n, base);
    MembersAreRead(ts, i + |head|, depth, table, n, 0);
    assert n.children[..0] == [];
    assert n.(children := []) == base.(not := n.not, operator := n.operator);
  }

  lemma MemberIsFilter(n: Node, table: string, budget: int, k: nat)
    requires n.field.name == "" && IsFilter(n, table, budget + 1) && k < |n.children|
    ensures IsFilter(n.children[k], table, budget)
    ensures var half := n.(children := n.children[..k]); IsScope(half, table) && !IsRootNode(half)
  {
    assert n.children[k] in n.children;
  }

  lemma {:induction false} MembersAreRead(ts: seq<Token>, i: nat, depth: nat, table: string, n: Node, k: nat)
    requires n.field.name == "" && IsFilter(n, table, MAX_FILTER_DEPTH - depth + 1) && k < |n.children|
    requires At(ts, i, MemberTokens(n, k) + [SepToken(')')])
    ensures i <= |ts|
    ensures MembersAt(ts, i, depth, table, n.(children := n.children[..k])) == Ok(n, i + |MemberTokens(n, k)| + 1)
    decreases n, |n.children| - k
  {
    hide MembersAt, Tokens, MemberTokens, At, Peek, IsFilter, IsScope, IsRootNode;
    var c := n.children[k];
    MemberIsFilter(n, table, MAX_FILTER_DEPTH - depth, k);
    MembersSplit(ts, i, n, k);
    TreeIsRead(ts, i, depth, table, n.(children := n.children[..k]), c);
    if k + 1 < |n.children| {
      MembersAreRead(ts, i + |Tokens(c)| + 1, depth, table, n, k + 1);
    }
    MembersStep(ts, i, depth, table, n, k);
  }

  /** The tokens of the members from k on: the first of them, then what follows it. */
  lemma MembersSplit(ts: seq<Token>, i: nat, n: Node, k: nat)
    requires k < |n.children| && At(ts, i, MemberTokens(n, k) + [SepToken(')')])
    ensures var c := n.children[k]; var j := i + |Tokens(c)|;
      && At(ts, i, Tokens(c)) && j < |ts| && Peek(ts, j) == (if k + 1 == |n.children| then ")" else ",")
      && (k + 1 < |n.children| ==> At(ts, j + 1, MemberTokens(n, k + 1) + [SepToken(')')]))
  {
    hide Tokens, At, Peek;
    var c := n.children[k];
    var j := i + |Tokens(c)|;
    if k + 1 == |n.children| {
      AtSplit(ts, i, Tokens(c), [SepToken(')')]);
      AtPeek(ts, j, [SepToken(')')], 0);
    } else {
      var more := MemberTokens(n, k + 1) + [SepToken(')')];
      assert MemberTokens(n, k) + [SepToken(')')] == Tokens(c) + ([SepToken(',')] + more);
      AtSplit(ts, i, Tokens(c), [SepToken(',')] + more);
      AtPeek(ts, j, [SepToken(',')] + more, 0);
      AtSplit(ts, j, [SepToken(',')], more);
    }
  }

  /** One turn of the loop over the members. */
  lemma MembersStep(ts: seq<Token>, i: nat, depth: nat, table: string, n: Node, k: nat)
    requires k < |n.children| && i <= |ts|
    requires var c := n.children[k]; var j := i + |Tokens(c)|;
      && CondAt(ts, i, depth, table, n.(children := n.children[..k])) == Ok(c, j)
      && j < |ts| && Peek(ts, j) == (if k + 1 == |n.children| then ")" else ",")
      && (k + 1 < |n.children| ==>
            MembersAt(ts, j + 1, depth, table, n.(children := n.children[..k + 1])) == Ok(n, j + 1 + |MemberTokens(n, k + 1)| + 1))
    ensures MembersAt(ts, i, depth, table, n.(children := n.children[..k])) == Ok(n, i + |MemberTokens(n, k)| + 1)
  {
    hide Tokens, CondAt;
    assert n.children[..k] + [n.children[k]] == n.children[..k + 1];
    if k + 1 == |n.children| {
      assert n.children[..k + 1] == n.children;
    }
  }

  // ----- Keys and values -----

  lemma WordsArePlain()
    ensures IsPlain("and", SEP, LONG_SEP) && IsPlain("or", SEP, LONG_SEP) && IsPlain("not", SEP, LONG_SEP)
  {
    assert LONG_SEP[0][0] == '-' && LONG_SEP[1][0] == '-';
    assert "and"[1..] == "nd" && "nd"[1..] == "d" && "d"[1..] == "";
    assert "or"[1..] == "r" && "r"[1..] == "";
    assert "not"[1..] == "ot" && "ot"[1..] == "t" && "t"[1..] == "";
  }

  lemma {:induction false} PlainHasNoDot(s: string, i: nat)
    requires AllPlain(s, SEP, LONG_SEP) && i < |s|
    ensures s[i] != '.'
  {
    if i > 0 {
      PlainHasNoDot(s[1..], i - 1);
    } else {
      assert SEP[1] == '.';
    }
  }

  /** A printed column name is not taken for a boolean operator. */
  lemma NameIsNotBoolean(name: string)
    requires name != "" && !IsReserved(name)
    ensures !HasBooleanOp(PrintName(name, SEP, LONG_SEP))
  {
    var k := PrintName(name, SEP, LONG_SEP);
    if IsPlain(name, SEP, LONG_SEP) {
      if EndsWith(k, ".and") {
        assert k[|k| - 4] == k[|k| - 4..][0];
        PlainHasNoDot(name, |name| - 4);
      }
      if EndsWith(k, ".or") {
        assert k[|k| - 3] == k[|k| - 3..][0];
        PlainHasNoDot(name, |name| - 3);
      }
    } else {
      assert k[|k| - 1] == '"';
      assert |k| >= 4 ==> k[|k| - 4..][3] == '"';
      assert |k| >= 3 ==> k[|k| - 3..][2] == '"';
    }
  }

  lemma TextOfTree(n: Node, table: string)
    requires IsFilter(n, table, MAX_FILTER_DEPTH)
    ensures ConditionText(PrintKey(n), PrintValue(n))
         == if n.field.name != "" then Word(n.field.name, '=') + PrintOperation(n) else Print(n)
  {
    if n.field.name != "" {
      NameIsNotBoolean(n.field.name);
      assert PrintKey(n) + "=" == Word(n.field.name, '=');
    } else {
      TextOfGroup(n, table);
    }
  }

  lemma TextOfGroup(n: Node, table: string)
    requires IsFilter(n, table, MAX_FILTER_DEPTH) && n.field.name == ""
    ensures ConditionText(PrintKey(n), PrintValue(n)) == Print(n)
  {
    hide PrintMembers, Word, HasBooleanOp, IsBooleanOp, IsFilter;
    GroupWords();
    GroupKey(n);
    Rejoined(if n.not then "not." else "", GroupWord(n), PrintMembers(n, 0));
  }

  lemma Rejoined(a: string, w: string, m: string)
    ensures a + w + ("(" + m + ")") == a + (w + "(") + m + ")"
  {
  }

  lemma GroupWords()
    ensures Word("not", '.') == "not." && Word("and", '(') == "and" + "(" && Word("or", '(') == "or" + "("
  {
    hide IsPlain, Quote;
    WordsArePlain();
    assert "not" + "." == "not.";
  }

  lemma GroupKey(n: Node)
    requires n.field.name == ""
    ensures HasBooleanOp(PrintKey(n)) && IsBooleanOp(PrintKey(n))
  {
    assert "not." + "and" == "not.and" && "not." + "or" == "not.or";
    assert "not.and"[3..] == ".and" && "not.or"[3..] == ".or";
  }

  /** The tokens of a condition of the query string. */
  function ConditionTokens(n: Node): seq<Token> {
    if n.field.name != "" then WordTokens(n.field.name, '=') + OperationTokens(n) else Tokens(n)
  }

  lemma ConditionIsScanned(n: Node, table: string)
    requires IsFilter(n, table, MAX_FILTER_DEPTH)
    ensures ScanCondition(PrintKey(n), PrintValue(n)) == ConditionTokens(n)
  {
    hide ConditionText, PrintKey, PrintValue, Print, PrintOperation, PrintName, Tokens, OperationTokens, WordTokens, Reads, Scan;
    TextOfTree(n, table);
    if n.field.name != "" {
      ReadsWord(n.field.name, '=');
      ReadsOperation(n);
      ReadsConcat(Word(n.field.name, '='), WordTokens(n.field.name, '='), PrintOperation(n), OperationTokens(n), FILTER_MARKS);
    } else {
      ReadsTree(n);
    }
    ReadsAlone(ConditionText(PrintKey(n), PrintValue(n)), ConditionTokens(n), FILTER_MARKS);
  }

  lemma SameNumberOfTokens(n: Node)
    ensures |ConditionTokens(n)| == |Tokens(n)|
  {
    hide OperationTokens;
  }

  /** Main theorem: every filter tree on the table, printed as one condition of the query string,
      is read back as itself: arbitrary names and values, any nesting up to the limit. */
  lemma PrintedFilterIsReadBack(n: Node, table: string)
    requires IsFilter(n, table, 100)
    ensures var r := ConditionAt(table, PrintKey(n), PrintValue(n));
      r.Ok? && r.value == n && r.cur == |ScanCondition(PrintKey(n), PrintValue(n))|
  {
    hide ScanCondition, PrintKey, PrintValue, Tokens, OperationTokens, WordTokens;
    ConditionIsScanned(n, table);
    SameNumberOfTokens(n);
    TreeIsRead(ConditionTokens(n), 0, 0, table, ROOT, n);
  }
}
