/** Numbering of the placeholders: conditions use consecutive markers that point at their own
    values, and none at all when embedding is asked for. */
module Placeholders {
  import opened Filters
  import opened Sequences
  import opened Sql

  function ArgMarkers(args: seq<Arg>): seq<int> {
    if args == [] then []
    else (if args[0].Marker? then [args[0].n] else []) + ArgMarkers(args[1..])
  }

  function AtomMarkers(a: Atom): seq<int> {
    match a
    case Compare(_, _, _, _, args) => ArgMarkers(args)
    case EqArg(_, arg) => ArgMarkers([arg])
    case DepthBelow(arg) => ArgMarkers([arg])
    case _ => []
  }

  /** The markers of a condition, in the order in which they are written. */
  function Markers(ts: seq<Tok>): seq<int> {
    if ts == [] then []
    else (if ts[0].Cond? then AtomMarkers(ts[0].atom) else []) + Markers(ts[1..])
  }

  /** m+1, m+2, ..., m+k */
  function Run(m: int, k: nat): (r: seq<int>)
    ensures |r| == k
  {
    seq(k, i => m + 1 + i)
  }

  lemma RunConcat(m: int, j: nat, k: nat)
    ensures Run(m, j) + Run(m + j, k) == Run(m, j + k)
  {
  }

  lemma {:induction false} ArgMarkersConcat(a: seq<Arg>, b: seq<Arg>)
    ensures ArgMarkers(a + b) == ArgMarkers(a) + ArgMarkers(b)
  {
    if a == [] {
      assert a + b == b;
    } else {
      assert (a + b)[0] == a[0] && (a + b)[1..] == a[1..] + b;
      ArgMarkersConcat(a[1..], b);
      Regroup(if a[0].Marker? then [a[0].n] else [], ArgMarkers(a[1..]), ArgMarkers(b));
    }
  }

  lemma {:induction false} MarkersConcat(a: seq<Tok>, b: seq<Tok>)
    ensures Markers(a + b) == Markers(a) + Markers(b)
  {
    if a == [] {
      assert a + b == b;
    } else {
      assert (a + b)[0] == a[0] && (a + b)[1..] == a[1..] + b;
      MarkersConcat(a[1..], b);
      Regroup(if a[0].Cond? then AtomMarkers(a[0].atom) else [], Markers(a[1..]), Markers(b));
    }
  }

  lemma MarkersOne(a: Atom)
    ensures Markers([Cond(a)]) == AtomMarkers(a)
  {
    assert [Cond(a)][1..] == [];
    assert Markers([Cond(a)][1..]) == [];
  }

  predicate Silent(ts: seq<Tok>) { forall t :: t in ts ==> !t.Cond? }

  lemma {:induction false} SilentMarkers(ts: seq<Tok>)
    requires Silent(ts)
    ensures Markers(ts) == []
  {
    if ts != [] {
      SilentMarkers(ts[1..]);
    }
  }

  /** Keywords and parentheses around a condition do not change its markers. */
  lemma MarkersInside(pre: seq<Tok>, ts: seq<Tok>, post: seq<Tok>)
    requires Silent(pre) && Silent(post)
    ensures Markers(pre + ts + post) == Markers(ts)
  {
    SilentMarkers(pre);
    SilentMarkers(post);
    MarkersConcat(pre, ts);
    MarkersConcat(pre + ts, post);
  }

  lemma ArgMarkersOne(a: Arg)
    ensures ArgMarkers([a]) == if a.Marker? then [a.n] else []
  {
    assert [a][1..] == [];
    assert ArgMarkers([a][1..]) == [];
  }

  /** The markers a condition with these values must use when numbering starts after m. */
  function Expected(m: int, list: seq<Value>): seq<int> { if m >= 0 then Run(m, |list|) else [] }

  ghost predicate Numbered(m: int, markers: seq<int>, list: seq<Value>) {
    markers == Expected(m, list) && (m < 0 ==> list == [])
  }

  lemma NumberedAppend(m: int, mk: seq<int>, list: seq<Value>, mk': seq<int>, list': seq<Value>)
    requires m >= -1 && Numbered(m, mk, list) && Numbered(Advance(m, list), mk', list')
    ensures Numbered(m, mk + mk', list + list')
  {
    if m >= 0 {
      RunConcat(m, |list|, |list'|);
    }
  }

  lemma ValueNumbered(v: string, m: int, forceParam: bool)
    requires m >= -1
    ensures var (a, l) := AppendValue(v, m, forceParam); Numbered(m, ArgMarkers([a]), l)
  {
    ArgMarkersOne(AppendValue(v, m, forceParam).0);
    assert Run(m, 1) == [m + 1];
  }

  lemma {:induction false} ArgsNumbered(n: Node, k: nat, m: int, forceParam: bool)
    requires k <= |n.values| && m >= -1
    ensures var (args, list) := ArgsUpTo(n, k, m, forceParam); Numbered(m, ArgMarkers(args), list)
  {
    if k > 0 {
      var (args, list) := ArgsUpTo(n, k - 1, m, forceParam);
      var (a, l) := AppendValue(n.values[k - 1], Advance(m, list), forceParam);
      ArgsNumbered(n, k - 1, m, forceParam);
      ValueNumbered(n.values[k - 1], Advance(m, list), forceParam);
      ArgMarkersConcat(args, [a]);
      NumberedAppend(m, ArgMarkers(args), list, ArgMarkers([a]), l);
    }
  }

  lemma {:induction false} ModifiedNumbered(n: Node, k: nat, table: string, info: Schema, m: int)
    requires k <= |n.values| && m >= -1
    ensures var (ts, list) := ModifiedUpTo(n, k, table, info, m); Numbered(m, Markers(ts), list)
  {
    if k > 0 {
      var (ts, list) := ModifiedUpTo(n, k - 1, table, info, m);
      var (a, l) := AppendValue(n.values[k - 1], Advance(m, list), ForceParam(n));
      var atom := Compare(OperandOf(n, table, info), n.operator, "", [], [a]);
      ModifiedNumbered(n, k - 1, table, info, m);
      ValueNumbered(n.values[k - 1], Advance(m, list), ForceParam(n));
      NumberedAppend(m, Markers(ts), list, ArgMarkers([a]), l);
      MarkersInside([], ts, [ModifierOp(n)]);
      assert [] + ts == ts;
      MarkersConcat(if k == 1 then ts else ts + [ModifierOp(n)], [Cond(atom)]);
      MarkersOne(atom);
    }
  }

  lemma ComparisonNumbered(n: Node, table: string, info: Schema, m: int)
    requires HasOperands(n) && n.opModifier == "" && m >= -1
    ensures var (a, list) := ComparisonOf(n, table, info, m); Numbered(m, AtomMarkers(a), list)
  {
    if n.operator == "IN" {
      ArgsNumbered(n, |n.values|, m, ForceParam(n));
    } else {
      ValueNumbered(n.values[0], m, n.operator != "@@" && ForceParam(n));
    }
  }

  lemma LeafNumbered(n: Node, table: string, info: Schema, m: int)
    requires HasOperands(n) && m >= -1
    ensures var (ts, list) := LeafWhere(n, table, info, m); Numbered(m, Markers(ts), list)
  {
    var pre := if n.not then [NotT] else [];
    if n.opModifier != "" {
      var ts := ModifiedUpTo(n, |n.values|, table, info, m).0;
      ModifiedNumbered(n, |n.values|, table, info, m);
      MarkersInside(pre + [LPar], ts, [RPar]);
    } else {
      var a := ComparisonOf(n, table, info, m).0;
      ComparisonNumbered(n, table, info, m);
      MarkersOne(a);
      MarkersInside(pre, [Cond(a)], []);
      assert pre + [Cond(a)] + [] == pre + [Cond(a)];
    }
  }

  /** Main result: the condition of any tree uses the markers m+1, ..., m+k in this order for its
      k values; with m = -1 it uses none and passes no value. */
  lemma {:induction false} WhereNumbered(n: Node, table: string, info: Schema, m: int)
    requires AllHaveOperands(n) && m >= -1
    ensures var (ts, list) := Where(n, table, info, m); Numbered(m, Markers(ts), list)
    decreases n, |n.children| + 1
  {
    if IsGroup(n) {
      var ts := WhereUpTo(n, |n.children|, table, info, m).0;
      GroupNumbered(n, |n.children|, table, info, m);
      MarkersInside((if n.not then [NotT] else []) + (if Parenthesised(n) then [LPar] else []), ts,
                    if Parenthesised(n) then [RPar] else []);
    } else if !n.inserted {
      LeafNumbered(n, table, info, m);
    }
  }

  lemma {:induction false} GroupNumbered(n: Node, k: nat, table: string, info: Schema, m: int)
    requires IsGroup(n) && AllHaveOperands(n) && k <= |n.children| && m >= -1
    ensures var (ts, list) := WhereUpTo(n, k, table, info, m); Numbered(m, Markers(ts), list)
    decreases n, k
  {
    if k > 0 {
      GroupNumbered(n, k - 1, table, info, m);
      var (ts, list) := WhereUpTo(n, k - 1, table, info, m);
      var c := n.children[k - 1];
      if OnTable(c) {
        var (ts', list') := Where(c, table, info, Advance(m, list));
        WhereNumbered(c, table, info, Advance(m, list));
        MarkersInside([], ts, [GroupOp(n)]);
        assert [] + ts == ts;
        MarkersConcat(if ts == [] then ts else ts + [GroupOp(n)], ts');
        NumberedAppend(m, Markers(ts), list, Markers(ts'), list');
      }
    }
  }

  // ----- Marks -----

  lemma {:induction false} MarkedKeepsShape(n: Node)
    requires AllHaveOperands(n)
    ensures AllHaveOperands(Marked(n)) && IsGroup(Marked(n)) == IsGroup(n) && OnTable(Marked(n)) == OnTable(n)
    decreases n, |n.children| + 1
  {
    if IsGroup(n) {
      forall i | 0 <= i < |n.children|
        ensures AllHaveOperands(MarkedUpTo(n, |n.children|)[i])
      {
        MarkedChild(n, |n.children|, i);
        MarkedKeepsShape(n.children[i]);
      }
    }
  }

  lemma {:induction false} MarkedChild(n: Node, k: nat, i: nat)
    requires i < |n.children| && k <= |n.children|
    ensures MarkedUpTo(n, k)[i] == if i < k && OnTable(n.children[i]) then Marked(n.children[i]) else n.children[i]
    decreases k
  {
    if k > 0 {
      MarkedChild(n, k - 1, i);
    }
  }

  /** What the marks are for: a second pass over the tree prints no comparison and binds no value. */
  lemma {:induction false} SecondPassPrintsNoComparison(n: Node, table: string, info: Schema, m: int)
    requires AllHaveOperands(n)
    ensures AllHaveOperands(Marked(n))
    ensures Silent(Where(Marked(n), table, info, m).0) && Where(Marked(n), table, info, m).1 == []
    decreases n, |n.children| + 1
  {
    MarkedKeepsShape(n);
    if IsGroup(n) {
      SecondPassOfMembers(n, |n.children|, table, info, m);
    }
  }

  lemma {:induction false} SecondPassOfMembers(n: Node, k: nat, table: string, info: Schema, m: int)
    requires IsGroup(n) && AllHaveOperands(n) && k <= |n.children| && AllHaveOperands(Marked(n)) && IsGroup(Marked(n))
    ensures Silent(WhereUpTo(Marked(n), k, table, info, m).0) && WhereUpTo(Marked(n), k, table, info, m).1 == []
    decreases n, k
  {
    if k > 0 {
      var c := n.children[k - 1];
      SecondPassOfMembers(n, k - 1, table, info, m);
      MarkedChild(n, |n.children|, k - 1);
      MarkedKeepsShape(c);
      if OnTable(c) {
        SecondPassPrintsNoComparison(c, table, info, Advance(m, []));
      }
    }
  }

  /** A group that prints parentheses, at the top or further down on the table. */
  predicate HasParentheses(n: Node) {
    IsGroup(n) && (Parenthesised(n) || exists c :: c in n.children && OnTable(c) && HasParentheses(c))
  }

  /** A finding, exactly: a second pass prints nothing at all if and only if there are no parentheses
      to print; those of the groups come again. */
  lemma {:induction false} SecondPassIsEmptyExactly(n: Node, table: string, info: Schema, m: int)
    requires AllHaveOperands(n)
    ensures AllHaveOperands(Marked(n))
    ensures Where(Marked(n), table, info, m).0 == [] <==> !HasParentheses(n)
    decreases n, |n.children| + 1
  {
    hide HasParentheses;
    MarkedKeepsShape(n);
    if IsGroup(n) {
      SecondPassOfGroup(n, |n.children|, table, info, m);
      GroupHasParentheses(n);
    } else {
      LeafHasNoParentheses(n);
    }
  }

  lemma LeafHasNoParentheses(n: Node)
    requires !IsGroup(n)
    ensures !HasParentheses(n)
  {
  }

  lemma GroupHasParentheses(n: Node)
    requires IsGroup(n)
    ensures HasParentheses(n) <==> Parenthesised(n) || SomeHaveParentheses(n, |n.children|)
  {
    hide Parenthesised;
    if c :| c in n.children && OnTable(c) && HasParentheses(c) {
      var i :| 0 <= i < |n.children| && n.children[i] == c;
    }
  }

  predicate SomeHaveParentheses(n: Node, k: nat)
    requires k <= |n.children|
  {
    exists i :: 0 <= i < k && OnTable(n.children[i]) && HasParentheses(n.children[i])
  }

  lemma {:induction false} SecondPassOfGroup(n: Node, k: nat, table: string, info: Schema, m: int)
    requires IsGroup(n) && AllHaveOperands(n) && k <= |n.children| && AllHaveOperands(Marked(n)) && IsGroup(Marked(n))
    ensures WhereUpTo(Marked(n), k, table, info, m).0 == [] <==> !SomeHaveParentheses(n, k)
    decreases n, k
  {
    hide HasParentheses;
    if k > 0 {
      var c := n.children[k - 1];
      SecondPassOfGroup(n, k - 1, table, info, m);
      SecondPassOfMembers(n, k - 1, table, info, m);
      MarkedChild(n, |n.children|, k - 1);
      MarkedKeepsShape(c);
      if OnTable(c) {
        SecondPassIsEmptyExactly(c, table, info, Advance(m, []));
      }
    }
  }

  /** Every marker points at a value and every value is pointed at. */
  ghost predicate Complete(markers: seq<int>, values: seq<Value>) {
    && (forall i :: 0 <= i < |markers| ==> 1 <= markers[i] <= |values|)
    && (forall v :: 1 <= v <= |values| ==> v in markers)
  }

  lemma RunIsComplete(markers: seq<int>, values: seq<Value>)
    requires markers == Run(0, |values|)
    ensures Complete(markers, values)
  {
    forall v | 1 <= v <= |values| ensures v in markers {
      assert markers[v - 1] == v;
    }
  }

  /** What NumberedAppend says when numbering starts at the end of a value list: conditions
      numbered one after the other form one run. */
  lemma RunExtends(values: seq<Value>, list: seq<Value>)
    ensures Run(0, |values|) + Expected(|values|, list) == Run(0, |values + list|)
  {
    RunConcat(0, |values|, |list|);
  }
}
