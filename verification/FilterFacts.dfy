/** What holds of every accepted filter: bounded nesting, and exactly which ones can be printed. */
module FilterFacts {
  import opened Sql
  import opened Filters
  import opened Scanner
  import opened FilterGrammar
  import opened Precedence

  predicate NestsWithin(n: Node, budget: int) {
    budget > 0 && forall c :: c in n.children ==> NestsWithin(c, budget - 1)
  }

  lemma ComparisonIsLeaf(ts: seq<Token>, i: nat, table: string, parent: Node)
    requires i <= |ts| && ComparisonAt(ts, i, table, parent).Ok?
    ensures ComparisonAt(ts, i, table, parent).value.children == []
  {
    hide SqlOperator, FieldAt, SuffixAt, OperandsAt;
  }

  /** No accepted condition nests deeper than the limit, whatever the tokens are. */
  lemma {:induction false} AcceptedNestsWithin(ts: seq<Token>, i: nat, depth: nat, table: string, parent: Node)
    requires i <= |ts| && CondAt(ts, i, depth, table, parent).Ok?
    ensures NestsWithin(CondAt(ts, i, depth, table, parent).value, 100 - depth)
    decreases |ts| - i, 2
  {
    hide BooleanAt, ComparisonAt;
    if Peek(ts, i) == BOOLEAN_LATER {
      var path := BooleanTable(ts, After(ts, After(ts, i)), []);
      var path' := if path.value == [] then [table] else path.value;
      var t := path'[|path'| - 1];
      GroupNestsWithin(ts, path.cur, depth + 1, t, ROOT.(field := NO_FIELD.(tablename := t, relPath := path')));
    } else if IsBooleanOpStrict(Peek(ts, i)) {
      GroupNestsWithin(ts, i, depth + 1, table, ROOT.(field := NO_FIELD.(tablename := table)));
    } else {
      ComparisonIsLeaf(ts, i, table, parent);
    }
  }

  lemma {:induction false} GroupNestsWithin(ts: seq<Token>, i: nat, depth: nat, table: string, n: Node)
    requires i <= |ts| && n.children == [] && depth <= MAX_FILTER_DEPTH && BooleanAt(ts, i, depth, table, n).Ok?
    ensures NestsWithin(BooleanAt(ts, i, depth, table, n).value, MAX_FILTER_DEPTH - depth + 1)
    decreases |ts| - i, 1
  {
    var head := BooleanHead(ts, i, n);
    MembersNestWithin(ts, head.cur, depth, table, head.value);
  }

  /** How an accepted list of members goes on behind its first. */
  lemma MembersStep(ts: seq<Token>, i: nat, depth: nat, table: string, n: Node)
    requires i <= |ts| && MembersAt(ts, i, depth, table, n).Ok?
    ensures CondAt(ts, i, depth, table, n).Ok?
    ensures var c := CondAt(ts, i, depth, table, n);
      var n' := n.(children := n.children + [c.value]);
      if Peek(ts, c.cur) == "," then
        && c.cur < |ts|
        && MembersAt(ts, i, depth, table, n) == MembersAt(ts, c.cur + 1, depth, table, n')
      else MembersAt(ts, i, depth, table, n).value == n'
  {
    hide CondAt;
  }

  lemma {:induction false} MembersNestWithin(ts: seq<Token>, i: nat, depth: nat, table: string, n: Node)
    requires i <= |ts| && depth <= MAX_FILTER_DEPTH && NestsWithin(n, MAX_FILTER_DEPTH - depth + 1)
    requires MembersAt(ts, i, depth, table, n).Ok?
    ensures NestsWithin(MembersAt(ts, i, depth, table, n).value, MAX_FILTER_DEPTH - depth + 1)
    decreases |ts| - i, 3
  {
    hide CondAt, MembersAt;
    MembersStep(ts, i, depth, table, n);
    AcceptedNestsWithin(ts, i, depth, table, n);
    var c := CondAt(ts, i, depth, table, n);
    var n' := n.(children := n.children + [c.value]);
    if Peek(ts, c.cur) == "," {
      MembersNestWithin(ts, c.cur + 1, depth, table, n');
    }
  }

  // ----- Where comparisons end -----

  /** A comparison found in a token list: its field, its operator with any/all, and the place of the
      token behind them. */
  datatype Ending = Ending(name: string, op: string, modifier: string, at: nat)

  /** The operator: behind the separator, and behind `not.` */
  function OperatorPlace(ts: seq<Token>, i: nat): nat
    requires i <= |ts|
    ensures OperatorPlace(ts, i) <= |ts|
  {
    var j := After(ts, i);
    if Peek(ts, j) == "not" then After(ts, After(ts, j)) else j
  }

  function EndingAt(ts: seq<Token>, i: nat, name: string): Ending
    requires i <= |ts|
  {
    var op := SqlOperator(Peek(ts, i)).GetOr("");
    match SuffixAt(ts, After(ts, i), op)
    case Ok(suffix, j) => Ending(name, op, suffix.opModifier, j)
    case Err(_) => Ending(name, op, "", i)
  }

  /** The comparisons of an accepted condition, in the order of the tokens. */
  function Endings(ts: seq<Token>, i: nat, depth: nat, table: string, parent: Node): seq<Ending>
    requires i <= |ts| && CondAt(ts, i, depth, table, parent).Ok?
    decreases |ts| - i, 2
  {
    if Peek(ts, i) == BOOLEAN_LATER then
      var path := BooleanTable(ts, After(ts, After(ts, i)), []);
      var path' := if path.value == [] then [table] else path.value;
      var t := path'[|path'| - 1];
      GroupEndings(ts, path.cur, depth + 1, t, ROOT.(field := NO_FIELD.(tablename := t, relPath := path')))
    else if IsBooleanOpStrict(Peek(ts, i)) then
      GroupEndings(ts, i, depth + 1, table, ROOT.(field := NO_FIELD.(tablename := table)))
    else
      var f := FieldAt(ts, i, IsRootNode(parent), false);
      [EndingAt(ts, OperatorPlace(ts, f.cur), f.value.name)]
  }

  function GroupEndings(ts: seq<Token>, i: nat, depth: nat, table: string, n: Node): seq<Ending>
    requires i <= |ts| && BooleanAt(ts, i, depth, table, n).Ok?
    decreases |ts| - i, 1
  {
    var head := BooleanHead(ts, i, n);
    MemberEndings(ts, head.cur, depth, table, head.value)
  }

  /** What is left of the members is accepted, too. */
  lemma MembersGoOn(ts: seq<Token>, i: nat, depth: nat, table: string, n: Node)
    requires i <= |ts| && MembersAt(ts, i, depth, table, n).Ok?
    ensures var c := CondAt(ts, i, depth, table, n);
      && c.Ok? && i < c.cur <= |ts|
      && (Peek(ts, c.cur) == "," ==> c.cur < |ts| && MembersAt(ts, c.cur + 1, depth, table, n.(children := n.children + [c.value])).Ok?)
  {
    hide CondAt, MembersAt;
    MembersStep(ts, i, depth, table, n);
  }

  /** Where the next member stands, and the group so far. */
  function NextMember(ts: seq<Token>, i: nat, depth: nat, table: string, n: Node): (r: Option<(nat, Node)>)
    requires i <= |ts| && MembersAt(ts, i, depth, table, n).Ok?
    ensures CondAt(ts, i, depth, table, n).Ok?
    ensures r.Some? ==> i < r.value.0 <= |ts| && MembersAt(ts, r.value.0, depth, table, r.value.1).Ok?
  {
    hide *;
    MembersGoOn(ts, i, depth, table, n);
    var c := CondAt(ts, i, depth, table, n);
    if Peek(ts, c.cur) == "," then Some((c.cur + 1, n.(children := n.children + [c.value]))) else None
  }

  function MemberEndings(ts: seq<Token>, i: nat, depth: nat, table: string, n: Node): seq<Ending>
    requires i <= |ts| && MembersAt(ts, i, depth, table, n).Ok?
    decreases |ts| - i, 3
  {
    hide *;
    var next := NextMember(ts, i, depth, table, n);
    Endings(ts, i, depth, table, n) + if next.Some? then MemberEndings(ts, next.value.0, depth, table, next.value.1) else []
  }

  /** An unquoted `)`, where value() steps back without a value. */
  predicate ClosesAt(ts: seq<Token>, i: nat) { Peek(ts, i) == ")" && !PeekQuoted(ts, i) }

  /** No value follows: no dot behind the operator, or a `)` in the place of the first value. */
  predicate IsValueless(ts: seq<Token>, e: Ending) {
    || Peek(ts, e.at) != "."
    || ClosesAt(ts, if e.op == "IN" || e.modifier != "" then After(ts, After(ts, e.at)) else After(ts, e.at))
  }

  lemma {:induction false} ListGrows(ts: seq<Token>, i: nat, operator: string, jsonPath: string, acc: seq<string>)
    requires i <= |ts| && ValueList(ts, i, operator, jsonPath, acc).Ok?
    ensures acc <= ValueList(ts, i, operator, jsonPath, acc).value.0
    decreases |ts| - i
  {
    var v := ValueAt(ts, i, operator, jsonPath);
    if Peek(ts, v.cur) == "," {
      ListGrows(ts, v.cur + 1, operator, jsonPath, acc + v.value);
    }
  }

  lemma FirstIsMissingExactly(ts: seq<Token>, i: nat, operator: string, jsonPath: string)
    requires i <= |ts| && ValueAt(ts, i, operator, jsonPath).Ok?
    ensures ValueAt(ts, i, operator, jsonPath).value == [] <==> ClosesAt(ts, i)
    ensures ClosesAt(ts, i) ==> ValueAt(ts, i, operator, jsonPath).cur == i
  {
    hide Brackets, Braces;
  }

  /** A list is empty exactly when it closes where its first value should stand. */
  lemma ListIsEmptyExactly(ts: seq<Token>, i: nat, operator: string, jsonPath: string)
    requires i <= |ts| && ValueList(ts, i, operator, jsonPath, []).Ok?
    ensures ValueList(ts, i, operator, jsonPath, []).value.0 == [] <==> ClosesAt(ts, i)
  {
    hide ValueAt;
    var v := ValueAt(ts, i, operator, jsonPath);
    FirstIsMissingExactly(ts, i, operator, jsonPath);
    assert [] + v.value == v.value;
    if Peek(ts, v.cur) == "," {
      ListGrows(ts, v.cur + 1, operator, jsonPath, v.value);
    }
  }

  /** An accepted comparison is without values exactly when its tokens end so. */
  lemma ValuelessExactly(ts: seq<Token>, i: nat, not: bool, field: Field)
    requires i <= |ts| && NamedOperation(ts, i, not, field).Ok?
    ensures var n, e := NamedOperation(ts, i, not, field).value, EndingAt(ts, i, field.name);
      && n.field == field && n.children == [] && !n.inserted
      && e == Ending(n.field.name, n.operator, n.opModifier, e.at)
      && (n.values == [] <==> IsValueless(ts, e))
  {
    hide SqlOperator, SuffixAt;
    var e := EndingAt(ts, i, field.name);
    OperandsAreMissingExactly(ts, e, field.jsonPath);
  }

  lemma OperandsAreMissingExactly(ts: seq<Token>, e: Ending, jsonPath: string)
    requires e.at <= |ts| && OperandsAt(ts, e.at, e.op, e.modifier, jsonPath).Ok?
    ensures OperandsAt(ts, e.at, e.op, e.modifier, jsonPath).value == [] <==> IsValueless(ts, e)
  {
    hide ValueAt, ValueList;
    var i := After(ts, e.at);
    if Peek(ts, e.at) == "." {
      if e.op == "IN" || e.modifier != "" {
        ListIsEmptyExactly(ts, After(ts, i), e.op, jsonPath);
      } else {
        FirstIsMissingExactly(ts, i, e.op, jsonPath);
      }
    }
  }

  // ----- Exactly the conditions the builder has operands for -----

  /** The builder would look for a first value that is not there. */
  predicate LacksOperand(ts: seq<Token>, e: Ending) {
    e.name != "" && e.op != "" && e.op != "IN" && e.modifier == "" && IsValueless(ts, e)
  }

  lemma ComparisonHasOperandsExactly(ts: seq<Token>, i: nat, table: string, parent: Node)
    requires i <= |ts| && ComparisonAt(ts, i, table, parent).Ok?
    ensures var n, f := ComparisonAt(ts, i, table, parent).value, FieldAt(ts, i, IsRootNode(parent), false);
      AllHaveOperands(n) <==> !LacksOperand(ts, EndingAt(ts, OperatorPlace(ts, f.cur), f.value.name))
  {
    hide NamedOperation, EndingAt, IsValueless, FieldAt;
    var f := FieldAt(ts, i, IsRootNode(parent), false);
    var field := Inherit(f.value, table, parent);
    ValuelessExactly(ts, OperatorPlace(ts, f.cur), Peek(ts, After(ts, f.cur)) == "not", field);
  }

  predicate NoneLacksOperand(ts: seq<Token>, es: seq<Ending>) { forall e :: e in es ==> !LacksOperand(ts, e) }

  /** Main result: for every token list, the builder has an operand for each comparison of the
      accepted condition if and only if no comparison ends without one. */
  lemma {:induction false} OperandsExactly(ts: seq<Token>, i: nat, depth: nat, table: string, parent: Node)
    requires i <= |ts| && CondAt(ts, i, depth, table, parent).Ok?
    ensures AllHaveOperands(CondAt(ts, i, depth, table, parent).value)
      <==> NoneLacksOperand(ts, Endings(ts, i, depth, table, parent))
    decreases |ts| - i, 2
  {
    hide AllHaveOperands, LacksOperand, BooleanAt, GroupEndings, ComparisonAt;
    if Peek(ts, i) == BOOLEAN_LATER {
      var path := BooleanTable(ts, After(ts, After(ts, i)), []);
      var path' := if path.value == [] then [table] else path.value;
      var t := path'[|path'| - 1];
      GroupOperandsExactly(ts, path.cur, depth + 1, t, ROOT.(field := NO_FIELD.(tablename := t, relPath := path')));
    } else if IsBooleanOpStrict(Peek(ts, i)) {
      GroupOperandsExactly(ts, i, depth + 1, table, ROOT.(field := NO_FIELD.(tablename := table)));
    } else {
      ComparisonHasOperandsExactly(ts, i, table, parent);
    }
  }

  lemma {:induction false} GroupOperandsExactly(ts: seq<Token>, i: nat, depth: nat, table: string, n: Node)
    requires i <= |ts| && n.field.name == "" && n.children == [] && BooleanAt(ts, i, depth, table, n).Ok?
    ensures AllHaveOperands(BooleanAt(ts, i, depth, table, n).value)
      <==> NoneLacksOperand(ts, GroupEndings(ts, i, depth, table, n))
    decreases |ts| - i, 1
  {
    hide MembersAt, MemberEndings;
    var head := BooleanHead(ts, i, n);
    MembersOperandsExactly(ts, head.cur, depth, table, head.value);
  }

  lemma OneMoreHasOperands(n: Node, c: Node)
    requires n.field.name == ""
    ensures AllHaveOperands(n.(children := n.children + [c])) <==> AllHaveOperands(n) && AllHaveOperands(c)
  {
    var n' := n.(children := n.children + [c]);
    assert c in n'.children;
    assert forall d :: d in n'.children <==> d in n.children || d == c;
  }

  lemma {:induction false} MembersOperandsExactly(ts: seq<Token>, i: nat, depth: nat, table: string, n: Node)
    requires i <= |ts| && n.field.name == "" && MembersAt(ts, i, depth, table, n).Ok?
    ensures AllHaveOperands(MembersAt(ts, i, depth, table, n).value)
      <==> AllHaveOperands(n) && NoneLacksOperand(ts, MemberEndings(ts, i, depth, table, n))
    decreases |ts| - i, 3
  {
    hide CondAt, MembersAt, Endings, LacksOperand, AllHaveOperands;
    MembersStep(ts, i, depth, table, n);
    OperandsExactly(ts, i, depth, table, n);
    var c := CondAt(ts, i, depth, table, n);
    var n' := n.(children := n.children + [c.value]);
    OneMoreHasOperands(n, c.value);
    if Peek(ts, c.cur) == "," {
      MembersOperandsExactly(ts, c.cur + 1, depth, table, n');
    }
  }

  // ----- Exactly the conditions that can be printed -----

  /** Nothing is missing: a name, an operator that has SQL text, and a value unless the list of a
      plain IN is empty. */
  predicate IsFull(ts: seq<Token>, e: Ending) {
    e.name != "" && e.op != "" && (IsValueless(ts, e) ==> e.op == "IN" && e.modifier == "")
  }

  predicate AllFull(ts: seq<Token>, es: seq<Ending>) { forall e :: e in es ==> IsFull(ts, e) }

  predicate CanBePrinted(n: Node) { AllHaveOperands(n) && Printable(n) }

  /** The internal marker for embedded groups does not occur. */
  predicate NoEmbedding(ts: seq<Token>) { forall i :: 0 <= i < |ts| ==> ts[i].text != BOOLEAN_LATER }

  lemma ComparisonIsPrintableExactly(ts: seq<Token>, i: nat, table: string, parent: Node)
    requires i <= |ts| && ComparisonAt(ts, i, table, parent).Ok?
    ensures var n, f := ComparisonAt(ts, i, table, parent).value, FieldAt(ts, i, IsRootNode(parent), false);
      && (CanBePrinted(n) <==> IsFull(ts, EndingAt(ts, OperatorPlace(ts, f.cur), f.value.name)))
      && (parent.field.relPath == [] && !IsRootNode(parent) ==> OnTable(n))
  {
    hide NamedOperation, EndingAt, IsValueless, JsonMembers;
    var f := FieldAt(ts, i, IsRootNode(parent), false);
    var field := Inherit(f.value, table, parent);
    ValuelessExactly(ts, OperatorPlace(ts, f.cur), Peek(ts, After(ts, f.cur)) == "not", field);
  }

  /** A group in the making, all of whose members are on its table. */
  predicate IsPlainGroup(n: Node) {
    && n.field.relPath == [] && n.field.name == ""
    && forall c :: c in n.children ==> OnTable(c)
  }

  predicate MembersCanBePrinted(n: Node) { forall c :: c in n.children ==> CanBePrinted(c) }

  lemma {:induction false} ConditionIsPrintableExactly(ts: seq<Token>, i: nat, depth: nat, table: string, parent: Node)
    requires i <= |ts| && NoEmbedding(ts) && parent.field.relPath == [] && CondAt(ts, i, depth, table, parent).Ok?
    ensures CanBePrinted(CondAt(ts, i, depth, table, parent).value) <==> AllFull(ts, Endings(ts, i, depth, table, parent))
    ensures !IsRootNode(parent) ==> OnTable(CondAt(ts, i, depth, table, parent).value)
    decreases |ts| - i, 2
  {
    hide CanBePrinted, IsFull, MembersAt, MemberEndings, ComparisonAt, FieldAt, EndingAt;
    if IsBooleanOpStrict(Peek(ts, i)) {
      var head := BooleanHead(ts, i, ROOT.(field := NO_FIELD.(tablename := table)));
      MembersArePrintableExactly(ts, head.cur, depth + 1, table, head.value);
      GroupIsPrintableExactly(MembersAt(ts, head.cur, depth + 1, table, head.value).value);
    } else {
      ComparisonIsPrintableExactly(ts, i, table, parent);
    }
  }

  lemma GroupIsPrintableExactly(n: Node)
    requires IsPlainGroup(n) && n.children != []
    ensures CanBePrinted(n) <==> MembersCanBePrinted(n)
  {
    assert OnTable(n.children[0]);
  }

  lemma {:induction false} MembersArePrintableExactly(ts: seq<Token>, i: nat, depth: nat, table: string, n: Node)
    requires i <= |ts| && NoEmbedding(ts) && n.operator != "" && IsPlainGroup(n) && MembersAt(ts, i, depth, table, n).Ok?
    ensures var m := MembersAt(ts, i, depth, table, n).value;
      && IsPlainGroup(m) && m.children != []
      && (MembersCanBePrinted(m) <==> MembersCanBePrinted(n) && AllFull(ts, MemberEndings(ts, i, depth, table, n)))
    decreases |ts| - i, 3
  {
    hide CondAt, MembersAt, Endings, CanBePrinted, IsFull;
    MembersStep(ts, i, depth, table, n);
    ConditionIsPrintableExactly(ts, i, depth, table, n);
    var c := CondAt(ts, i, depth, table, n);
    var n' := n.(children := n.children + [c.value]);
    assert MembersCanBePrinted(n') <==> MembersCanBePrinted(n) && CanBePrinted(c.value);
    if Peek(ts, c.cur) == "," {
      MembersArePrintableExactly(ts, c.cur + 1, depth, table, n');
    }
  }

  /** Main result: an accepted condition, comparison or group, can be printed if and only if every
      comparison in its tokens has a name, an operator with SQL text, and a value where it needs one. */
  lemma AcceptedIsPrintableExactly(ts: seq<Token>, table: string)
    requires NoEmbedding(ts) && CondAt(ts, 0, 0, table, ROOT).Ok?
    ensures AllHaveOperands(CondAt(ts, 0, 0, table, ROOT).value) && Printable(CondAt(ts, 0, 0, table, ROOT).value)
      <==> AllFull(ts, Endings(ts, 0, 0, table, ROOT))
  {
    ConditionIsPrintableExactly(ts, 0, 0, table, ROOT);
  }

  function WordsOf(words: seq<string>): (r: seq<Token>)
    ensures |r| == |words|
    ensures forall i :: 0 <= i < |words| ==> r[i] == Token(words[i], false)
  {
    seq(|words|, i requires 0 <= i < |words| => Token(words[i], false))
  }

  /** The two families, smallest first: `a=eq` stops behind its operator, and in `a=eq.)` the
      parenthesis is taken back. Both are accepted, and the builder has nothing to compare with. */
  lemma ValuelessComparisonsAreAccepted()
    ensures var r := CondAt(WordsOf(["a", "=", "eq"]), 0, 0, "t", ROOT); r.Ok? && !AllHaveOperands(r.value)
    ensures var r := CondAt(WordsOf(["a", "=", "eq", ".", ")"]), 0, 0, "t", ROOT); r.Ok? && !AllHaveOperands(r.value)
  {
    EndsEarly(WordsOf(["a", "=", "eq"]));
    EndsEarly(WordsOf(["a", "=", "eq", ".", ")"]));
  }

  lemma EndsEarly(ts: seq<Token>)
    requires |ts| >= 3 && ts[0] == Token("a", false) && ts[1] == Token("=", false) && ts[2] == Token("eq", false)
    requires |ts| == 3 || (|ts| == 5 && ts[3] == Token(".", false) && ts[4] == Token(")", false))
    ensures var r := CondAt(ts, 0, 0, "t", ROOT); r.Ok? && !AllHaveOperands(r.value)
  {
    hide NamedOperation;
    assert FieldAt(ts, 0, true, false) == Ok(NO_FIELD.(name := "a"), 1);
    EqEndsEarly(ts, NO_FIELD.(name := "a", tablename := "t"));
  }

  lemma EqEndsEarly(ts: seq<Token>, f: Field)
    requires |ts| >= 3 && ts[2] == Token("eq", false)
    requires |ts| == 3 || (|ts| == 5 && ts[3] == Token(".", false) && ts[4] == Token(")", false))
    ensures NamedOperation(ts, 2, false, f).Ok? && NamedOperation(ts, 2, false, f).value == Node(f, "=", "eq", [], "", false, [], false, [])
  {
    assert SuffixAt(ts, 3, "=") == Ok(Suffix([], ""), 3);
    assert OperandsAt(ts, 3, "=", "", f.jsonPath).Ok? && OperandsAt(ts, 3, "=", "", f.jsonPath).value == [];
  }
}
