/** Groups of conditions on an embedded table, as in films.not.or=(...). */
module EmbeddedFilters {
  import opened Sql
  import opened Filters
  import opened Scanner
  import opened FilterGrammar
  import opened FilterRoundTrip
  import opened FilterTexts
  import opened FilterKeys

  // ----- What such a group is read as -----

  /** Tables by name, the innermost last, none of them a reserved word. */
  predicate IsPath(path: seq<string>) { path != [] && forall i :: 0 <= i < |path| ==> IsBare(path[i]) && !IsReserved(path[i]) }

  /** A comparison belongs to the embedded table. A group inside the group does not: it has the name
      of the table, but not the path. */
  predicate IsMemberOf(c: Node, path: seq<string>)
    requires path != []
  {
    var table := path[|path| - 1];
    if c.field.name != "" then
      && c.field == NO_FIELD.(name := c.field.name, tablename := table, relPath := path) && !IsReserved(c.field.name)
      && SqlOperator(c.opSource) == Some(c.operator) && IsShaped(c)
    else IsFilter(c, table, 99)
  }

  function Scope(path: seq<string>): Node
    requires path != []
  {
    ROOT.(field := NO_FIELD.(tablename := path[|path| - 1], relPath := path))
  }

  predicate IsEmbedded(n: Node, path: seq<string>) {
    && IsPath(path) && (n.operator == "AND" || n.operator == "OR")
    && n == Scope(path).(operator := n.operator, not := n.not, children := n.children)
    && n.children != [] && forall i :: 0 <= i < |n.children| ==> IsMemberOf(n.children[i], path)
  }

  // ----- The members -----

  lemma MemberIsRead(ts: seq<Token>, i: nat, n: Node, path: seq<string>, k: nat)
    requires IsEmbedded(n, path) && k < |n.children| && At(ts, i, Tokens(n.children[k]))
    ensures i <= |ts| && CondAt(ts, i, 1, path[|path| - 1], n.(children := n.children[..k])) == Ok(n.children[k], i + |Tokens(n.children[k])|)
  {
    hide SqlOperator, OperationTokens, IsShaped;
    var c, half, table := n.children[k], n.(children := n.children[..k]), path[|path| - 1];
    if c.field.name != "" {
      AtPeek(ts, i, WordTokens(c.field.name, '.') + OperationTokens(c), 0);
      ComparisonIsRead(ts, i, '.', c, table, half);
    } else {
      TreeIsRead(ts, i, 1, table, half, c);
    }
  }

  lemma {:induction false} EmbeddedMembersAreRead(ts: seq<Token>, i: nat, n: Node, path: seq<string>, k: nat)
    requires path != [] && IsEmbedded(n, path) && k < |n.children| && At(ts, i, MemberTokens(n, k) + [SepToken(')')])
    ensures i <= |ts|
    ensures MembersAt(ts, i, 1, path[|path| - 1], n.(children := n.children[..k])) == Ok(n, i + |MemberTokens(n, k)| + 1)
    decreases |n.children| - k
  {
    hide MembersAt, Tokens, MemberTokens, At, Peek, IsEmbedded, CondAt;
    MembersSplit(ts, i, n, k);
    MemberIsRead(ts, i, n, path, k);
    if k + 1 < |n.children| {
      EmbeddedMembersAreRead(ts, i + |Tokens(n.children[k])| + 1, n, path, k + 1);
    }
    MembersStep(ts, i, 1, path[|path| - 1], n, k);
  }

  lemma EmbeddedGroupIsRead(ts: seq<Token>, i: nat, n: Node, path: seq<string>)
    requires IsEmbedded(n, path) && At(ts, i, Tokens(n))
    ensures i <= |ts| && BooleanAt(ts, i, 1, path[|path| - 1], Scope(path)) == Ok(n, i + |Tokens(n)|)
    ensures IsBooleanOpStrict(Peek(ts, i))
  {
    hide MembersAt, BooleanHead, IsMemberOf, At, NotTokens, MemberTokens, Peek;
    var head := NotTokens(n) + WordTokens(GroupWord(n), '(');
    assert Tokens(n) == head + (MemberTokens(n, 0) + [SepToken(')')]);
    AtSplit(ts, i, head, MemberTokens(n, 0) + [SepToken(')')]);
    HeadIsRead(ts, i, n, Scope(path));
    EmbeddedMembersAreRead(ts, i + |head|, n, path, 0);
    assert n.children[..0] == [];
    assert n.(children := []) == Scope(path).(not := n.not, operator := n.operator);
  }

  // ----- The path in front -----

  lemma {:induction false} TableIsRead(ts: seq<Token>, i: nat, path: seq<string>, acc: seq<string>)
    requires (forall k :: 0 <= k < |path| ==> !IsReserved(path[k])) && At(ts, i, PathTokens(path))
    requires IsBooleanOpStrict(Peek(ts, i + |PathTokens(path)|))
    ensures i <= |ts| && BooleanTable(ts, i, acc) == Ok(acc + path, i + |PathTokens(path)|)
    decreases |path|
  {
    hide Peek, After, At, IsBooleanOpStrict;
    AtEnds(ts, i, PathTokens(path));
    if path == [] {
      assert acc + [] == acc;
    } else {
      var two := [Token(path[0], false), SepToken('.')];
      assert PathTokens(path) == two + PathTokens(path[1..]);
      AtSplit(ts, i, two, PathTokens(path[1..]));
      AtPeek(ts, i, two, 0);
      AtPeek(ts, i, two, 1);
      assert !IsReserved(path[0]);
      TableIsRead(ts, i + 2, path[1..], acc + [path[0]]);
      assert acc + [path[0]] + path[1..] == acc + path;
    }
  }

  function LaterTokens(n: Node, path: seq<string>): seq<Token> {
    [Token(BOOLEAN_LATER, false), SepToken('.')] + (PathTokens(path) + Tokens(n))
  }

  lemma AtStart(ts: seq<Token>)
    ensures At(ts, 0, ts)
  {
    assert ts[0..0 + |ts|] == ts;
  }

  lemma LaterIsRead(n: Node, path: seq<string>, mainTable: string)
    requires IsEmbedded(n, path)
    ensures CondAt(LaterTokens(n, path), 0, 0, mainTable, ROOT) == Ok(n, |LaterTokens(n, path)|)
  {
    hide PathTokens, Tokens, BooleanAt, BooleanTable, IsMemberOf, IsBare, At;
    var ts, two := LaterTokens(n, path), [Token(BOOLEAN_LATER, false), SepToken('.')];
    AtStart(ts);
    AtPeek(ts, 0, two + (PathTokens(path) + Tokens(n)), 0);
    AtPeek(ts, 0, two + (PathTokens(path) + Tokens(n)), 1);
    AtSplit(ts, 0, two, PathTokens(path) + Tokens(n));
    AtSplit(ts, 2, PathTokens(path), Tokens(n));
    EmbeddedGroupIsRead(ts, 2 + |PathTokens(path)|, n, path);
    TableIsRead(ts, 2, path, []);
    assert [] + path == path;
  }

  // ----- The text -----

  lemma LaterIsBare()
    ensures IsBare(BOOLEAN_LATER)
  {
    forall i | 0 <= i < |BOOLEAN_LATER| ensures BOOLEAN_LATER[i] !in SEP && !IsQuote(BOOLEAN_LATER[i]) && BOOLEAN_LATER[i] != '\\' && BOOLEAN_LATER[i] != '-' {
      assert BOOLEAN_LATER[i] in "_boleanatr";
    }
  }

  lemma {:induction false} PathEnds(path: seq<string>)
    requires path != []
    ensures PathText(path) != "" && PathText(path)[|PathText(path)| - 1] == '.'
    ensures path[0] + "." <= PathText(path)
  {
    if path[1..] != [] {
      PathEnds(path[1..]);
    }
  }

  lemma EndsInWord(front: string, word: string)
    requires front != "" && front[|front| - 1] == '.' && (word == "and" || word == "or")
    ensures HasBooleanOp(front + word)
  {
    var k := front + word;
    assert k[|k| - |word| - 1] == '.' && k[|k| - |word| - 1..] == "." + word;
  }

  lemma KeyEnds(n: Node, front: string)
    requires n.field.name == "" && front != "" && front[|front| - 1] == '.'
    ensures HasBooleanOp(front + PrintKey(n))
  {
    hide HasBooleanOp;
    if n.not {
      EndsInWord(front + "not.", GroupWord(n));
      assert front + "not." + GroupWord(n) == front + ("not." + GroupWord(n));
    } else {
      EndsInWord(front, GroupWord(n));
      assert "" + GroupWord(n) == GroupWord(n);
    }
  }

  lemma KeyIsNoPlainGroup(k: string, first: string)
    requires IsBare(first) && !IsReserved(first) && first + "." <= k
    ensures !IsBooleanOp(k)
  {
    assert k[|first|] == '.' && k[..|first|] == first && SEP[1] == '.';
    assert "and"[0] != '.' && "and"[1] != '.' && "and"[2] != '.' && "or"[0] != '.' && "or"[1] != '.';
  }

  lemma GroupIsPrinted(n: Node)
    requires n.field.name == ""
    ensures PrintKey(n) + PrintValue(n) == Print(n)
  {
    hide PrintMembers, FilterRoundTrip.Word;
    GroupWords();
    Rejoined(if n.not then "not." else "", GroupWord(n), PrintMembers(n, 0));
  }

  lemma Regroup3(a: string, b: string, c: string, d: string)
    ensures a + "." + (b + c) + d == a + "." + (b + (c + d))
  {
  }

  lemma TextOfEmbedded(n: Node, path: seq<string>)
    requires IsPath(path) && n.field.name == ""
    ensures ConditionText(PathText(path) + PrintKey(n), PrintValue(n)) == BOOLEAN_LATER + "." + (PathText(path) + Print(n))
  {
    hide IsBare, Print, PrintKey, PrintValue, PathText, HasBooleanOp, IsBooleanOp;
    PathEnds(path);
    KeyEnds(n, PathText(path));
    KeyIsNoPlainGroup(PathText(path) + PrintKey(n), path[0]);
    GroupIsPrinted(n);
    Regroup3(BOOLEAN_LATER, PathText(path), PrintKey(n), PrintValue(n));
  }

  lemma EmbeddedIsScanned(n: Node, path: seq<string>)
    requires IsPath(path) && n.field.name == ""
    ensures ScanCondition(PathText(path) + PrintKey(n), PrintValue(n)) == LaterTokens(n, path)
  {
    hide IsBare, Print, PrintKey, PrintValue, PathText, PathTokens, Tokens, Reads, ReadsHere, Scan, ConditionText;
    TextOfEmbedded(n, path);
    LaterIsBare();
    ReadsBare(BOOLEAN_LATER);
    HereThenMark(BOOLEAN_LATER, [Token(BOOLEAN_LATER, false)], '.');
    ReadsPath(path);
    ReadsTree(n);
    ReadsConcat(PathText(path), PathTokens(path), Print(n), Tokens(n), FILTER_MARKS);
    var text, toks := PathText(path) + Print(n), PathTokens(path) + Tokens(n);
    ReadsConcat(BOOLEAN_LATER + ".", [Token(BOOLEAN_LATER, false)] + [SepToken('.')], text, toks, FILTER_MARKS);
    assert [Token(BOOLEAN_LATER, false)] + [SepToken('.')] + toks == LaterTokens(n, path);
    ReadsAlone(BOOLEAN_LATER + "." + text, LaterTokens(n, path), FILTER_MARKS);
  }

  /** Main result: a group on an embedded table is read with that table and path, and so are its
      comparisons; whatever their names, values and operators. */
  lemma EmbeddedIsReadBack(n: Node, path: seq<string>, mainTable: string)
    requires IsEmbedded(n, path)
    ensures var k := PathText(path) + PrintKey(n);
      ConditionAt(mainTable, k, PrintValue(n)) == Ok(n, |ScanCondition(k, PrintValue(n))|)
  {
    hide ScanCondition, PrintKey, PrintValue, PathText, LaterTokens, IsMemberOf, CondAt;
    EmbeddedIsScanned(n, path);
    LaterIsRead(n, path, mainTable);
  }

  /** A finding: the conditions of a group inside such a group take part nowhere. The group has no path
      of its own, so it is skipped in the condition of the embedded table, and the group around it is
      skipped in that of the main table. */
  lemma NestedGroupIsLost(n: Node, path: seq<string>, i: nat)
    requires IsEmbedded(n, path) && i < |n.children| && n.children[i].field.name == ""
    ensures !OnTable(n) && |n.children[i].field.relPath| != |n.field.relPath|
  {
    assert IsMemberOf(n.children[i], path);
  }
}
