/** How a recursion is written in the query string, and that it is read back: the operators letter by
    letter, whatever the order of the parameters. */
module RecursionText {
  import opened Sql
  import opened Decimals
  import opened RecursiveQuery
  import opened FilterGrammar
  import opened RecursionParser

  // ----- Depths -----

  predicate AllZeros(s: string) { forall i :: 0 <= i < |s| ==> s[i] == '0' }

  /** n as people write it: in decimal, perhaps behind zeros and a plus. */
  ghost predicate IsNumeral(t: string, n: nat) { IsPadded(if t != "" && t[0] == '+' then t[1..] else t, n) }

  ghost predicate IsPadded(d: string, n: nat) { exists k :: 0 <= k <= |d| && AllZeros(d[..k]) && d[k..] == Dec(n) }

  lemma {:induction false} ZerosDoNotCount(z: string, d: string)
    requires AllZeros(z) && AllDigits(d)
    ensures AllDigits(z + d) && Val(z + d) == Val(d)
    decreases |z| + |d|
  {
    if d != "" {
      var front := d[..|d| - 1];
      ZerosDoNotCount(z, front);
      assert (z + d)[..|z + d| - 1] == z + front;
    } else if z != "" {
      ZerosDoNotCount(z[..|z| - 1], "");
      assert z[..|z| - 1] + "" == z[..|z| - 1] && z + "" == z;
    }
  }

  lemma DecNext(v: nat, c: char)
    requires v >= 1 && IsDigit(c)
    ensures var n := 10 * v + (c as int - '0' as int); Dec(n) == Dec(v) + [c]
  {
    var d := c as int - '0' as int;
    assert (10 * v + d) / 10 == v && (10 * v + d) % 10 == d;
    assert Digit(d) == c;
  }

  lemma ValNext(front: string, c: char)
    requires AllDigits(front) && IsDigit(c)
    ensures AllDigits(front + [c]) && Val(front + [c]) == 10 * Val(front) + (c as int - '0' as int)
  {
    assert (front + [c])[..|front|] == front;
  }

  lemma OneDigit(c: char)
    requires IsDigit(c) && c != '0'
    ensures Val([c]) >= 1 && Dec(Val([c])) == [c]
  {
    assert [c][..0] == "";
    assert Digit(c as int - '0' as int) == c;
  }

  lemma {:induction false} NoZeroInFront(d: string)
    requires d != "" && AllDigits(d) && d[0] != '0'
    ensures Val(d) >= 1 && Dec(Val(d)) == d
    decreases |d|
  {
    hide Dec, Val;
    var n := |d| - 1;
    if n == 0 {
      assert d == [d[0]];
      OneDigit(d[0]);
    } else {
      var front, c := d[..n], d[n];
      assert d == front + [c];
      NoZeroInFront(front);
      ValNext(front, c);
      DecNext(Val(front), c);
    }
  }

  lemma PaddedIsNumber(d: string, k: nat, n: nat)
    requires k <= |d| && AllZeros(d[..k]) && d[k..] == Dec(n)
    ensures AllDigits(d) && Val(d) == n
  {
    hide Val, Dec;
    ZerosDoNotCount(d[..k], d[k..]);
    assert d[..k] + d[k..] == d;
  }

  lemma {:induction false} NumberIsPadded(d: string) returns (k: nat)
    requires AllDigits(d) && Val(d) >= 1
    ensures k <= |d| && AllZeros(d[..k]) && d[k..] == Dec(Val(d))
  {
    hide Dec;
    assert d != "";
    if d[0] == '0' {
      hide Val;
      var more := d[1..];
      ZerosDoNotCount("0", more);
      assert "0" + more == d;
      k := NumberIsPadded(more);
      assert d[..k + 1] == "0" + more[..k] && d[k + 1..] == more[k..];
      k := k + 1;
    } else {
      NoZeroInFront(d);
      assert d[..0] == "" && d[0..] == d;
      k := 0;
    }
  }

  lemma PaddedExactly(d: string, n: nat)
    requires n >= 1
    ensures IsPadded(d, n) <==> AllDigits(d) && Val(d) == n
  {
    hide Val, Dec, AllZeros;
    if k :| 0 <= k <= |d| && AllZeros(d[..k]) && d[k..] == Dec(n) {
      PaddedIsNumber(d, k, n);
    }
    if AllDigits(d) && Val(d) == n {
      var k := NumberIsPadded(d);
    }
  }

  /** strconv.Atoi, for positive numbers. */
  lemma AtoiExactly(t: string, n: nat)
    requires n >= 1
    ensures Atoi(t) == Some(n) <==> IsNumeral(t, n) && n < 0x8000_0000_0000_0000
  {
    PaddedExactly(if t != "" && t[0] == '+' then t[1..] else t, n);
  }

  lemma DecIsNumeral(n: nat)
    ensures IsNumeral(Dec(n), n)
  {
    var d := Dec(n);
    assert IsDigit(d[0]);
    assert d[..0] == "" && d[0..] == d;
  }

  // ----- The operators, letter by letter -----

  lemma {:induction false} FirstIndex(s: string, c: char, i: nat)
    requires i < |s| && s[i] == c && forall j :: 0 <= j < i ==> s[j] != c
    ensures IndexOf(s, c) == i
  {
    if i > 0 {
      FirstIndex(s[1..], c, i - 1);
    }
  }

  lemma CutAt(a: string, c: char, b: string)
    requires c !in a
    ensures var s := a + [c] + b; IndexOf(s, c) == |a| && s[..|a|] == a && s[|a| + 1..] == b
  {
    FirstIndex(a + [c] + b, c, |a|);
  }

  predicate MeansUp(h: string) { |h| >= 3 && h[|h| - 3..] == "!up" }

  /** Values with a point: what is in front of it decides. */
  lemma DottedIsRead(k: string, h: string, x: string)
    requires '.' !in h
    ensures var op := ReadOperator(k, h + "." + x);
      && (h == "start" ==> op == StartAt(k, x, false))
      && (h == "after" ==> op == StartAt(k, x, true))
      && (h == "recurse" ==> op == RecurseBy(k, false, ReadDepth(x)))
      && (h == "recurse!up" ==> op == RecurseBy(k, true, ReadDepth(x)))
      && (op.Bad? <==> MeansUp(h) && h != "recurse!up")
      && (op == Other <==> !MeansUp(h) && h !in {"start", "after", "recurse"})
  {
    hide ReadDepth, IndexOf, EndsWith, ReadVia;
    CutAt(h, '.', x);
    UpExactly(h);
    assert MeansUp(h) ==> (h + "." + x)[..|h| - 3] == h[..|h| - 3];
  }

  lemma UpExactly(h: string)
    ensures EndsWith(h, "!up") <==> MeansUp(h)
    ensures MeansUp(h) ==> (h[..|h| - 3] == "recurse" <==> h == "recurse!up")
    ensures MeansUp("recurse!up") && !MeansUp("start") && !MeansUp("after") && !MeansUp("recurse")
  {
    assert "start"[2] != '!' && "after"[2] != '!' && "recurse"[4] != '!';
    assert "recurse!up"[7..] == "!up" && "recurse!up"[..7] == "recurse";
    if MeansUp(h) {
      assert h == h[..|h| - 3] + "!up";
    }
  }

  /** A depth is `all`, or a number from one up to what 64 bits hold. */
  lemma DepthExactly(x: string, n: nat)
    requires n >= 1
    ensures ReadDepth(x) == Unlimited <==> x == "all"
    ensures ReadDepth(x) == Steps(n) <==> IsNumeral(x, n) && n < 0x8000_0000_0000_0000
    ensures ReadDepth(x) == BadDepth <==> x != "all" && !exists j: nat :: 1 <= j < 0x8000_0000_0000_0000 && IsNumeral(x, j)
  {
    hide Atoi;
    forall j: nat | j >= 1 ensures Atoi(x) == Some(j) <==> IsNumeral(x, j) && j < 0x8000_0000_0000_0000 {
      AtoiExactly(x, j);
    }
    AllIsNoNumber();
  }

  lemma AllIsNoNumber()
    ensures Atoi("all").None?
  {
    assert !IsDigit("all"[0]);
  }

  function ViaText(from: string, to: string, both: bool): string { (if both then "via!both(" else "via(") + from + "," + to + ")" }

  /** A via, with its columns in the order they are written. */
  predicate AreColumns(from: string, to: string) {
    from != "" && to != "" && ',' !in from && '.' !in from && '.' !in to
  }

  lemma TextOfVia(head: string, from: string, to: string)
    requires head == "via" || head == "via!both"
    ensures head + "(" + (from + "," + to) + ")" == ViaText(from, to, head != "via")
  {
    assert head + "(" + (from + "," + to) + ")" == head + "(" + from + "," + to + ")";
  }

  lemma HintIsVia(head: string, args: string)
    requires '.' !in args && (head == "via" || head == "via!both")
    ensures var v := head + "(" + args + ")";
      && ("via(" <= v || "via!" <= v) && EndsWith(v, ")") && '.' !in v
      && IndexOf(v, '(') == |head| && v[..|head|] == head && v[|head| + 1..|v| - 1] == args
  {
    hide IndexOf;
    var v := head + "(" + args + ")";
    assert v[..4] == if head == "via" then "via(" else "via!";
    assert v[|v| - 1..] == ")";
    assert v == head + ['('] + (args + ")");
    CutAt(head, '(', args + ")");
  }

  lemma HintIsRead(head: string, from: string, to: string)
    requires AreColumns(from, to) && (head == "via" || head == "via!both")
    ensures var v := head + "(" + (from + "," + to) + ")";
      && ("via(" <= v || "via!" <= v) && EndsWith(v, ")") && '.' !in v
      && ReadVia(v) == Edges(from, to, head != "via")
  {
    hide IndexOf, EndsWith;
    HintIsVia(head, from + "," + to);
    CutAt(from, ',', to);
  }

  lemma ViaIsRead(k: string, from: string, to: string, both: bool)
    requires AreColumns(from, to)
    ensures ReadOperator(k, ViaText(from, to, both)) == ViaEdges(k, Edges(from, to, both))
  {
    hide IndexOf, ReadVia, AreColumns;
    var head := if both then "via!both" else "via";
    HintIsRead(head, from, to);
    TextOfVia(head, from, to);
    IsAbsent(ViaText(from, to, both), '.');
    assert "recurse"[0] == 'r' && "recurse!up"[0] == 'r' && head[0] == 'v';
  }

  lemma Joined(s: string, c: char)
    ensures var i := IndexOf(s, c); i < |s| ==> s == s[..i] + [c] + s[i + 1..] && c !in s[..i]
  {
  }

  lemma ViaSaysEdges(v: string)
    requires ("via(" <= v || "via!" <= v) && EndsWith(v, ")") && '.' !in v && ReadVia(v).Edges?
    ensures var e := ReadVia(v); AreColumns(e.from, e.to) && v == ViaText(e.from, e.to, e.both)
  {
    hide IndexOf, AreColumns;
    Joined(v, '(');
    var open := IndexOf(v, '(');
    var args := v[open + 1..|v| - 1];
    Joined(args, ',');
    var comma := IndexOf(args, ',');
    ColumnsOf(v, open, args, comma);
  }

  lemma ColumnsOf(v: string, open: nat, args: string, comma: nat)
    requires open + 1 < |v| && v[open] == '(' && v[|v| - 1] == ')' && '.' !in v && args == v[open + 1..|v| - 1]
    requires 0 < comma < |args| - 1 && args[comma] == ',' && ',' !in args[..comma]
    ensures var from, to := args[..comma], args[comma + 1..];
      && AreColumns(from, to)
      && (v[..open] == "via" || v[..open] == "via!both" ==> v == ViaText(from, to, v[..open] != "via"))
  {
    hide ViaText;
    var head, from, to := v[..open], args[..comma], args[comma + 1..];
    assert args == from + "," + to;
    assert v == head + "(" + args + ")";
    if head == "via" || head == "via!both" {
      TextOfVia(head, from, to);
    }
    forall c | c in args ensures c in v {
    }
  }

  /** Values without a point: recurse, via, or no operator at all. */
  lemma UndottedIsRead(k: string, v: string, from: string, to: string, both: bool)
    requires '.' !in v
    ensures var op := ReadOperator(k, v);
      && (v == "recurse" ==> op == RecurseBy(k, false, NotGiven))
      && (v == "recurse!up" ==> op == RecurseBy(k, true, NotGiven))
      && (op == ViaEdges(k, Edges(from, to, both)) <==> AreColumns(from, to) && v == ViaText(from, to, both))
      && (op == Other <==> v != "recurse" && v != "recurse!up" && !(("via(" <= v || "via!" <= v) && EndsWith(v, ")")))
      && (op.RecurseBy? || op.ViaEdges? || op.Other?)
  {
    hide ReadVia;
    IsAbsent(v, '.');
    assert "recurse"[0] == 'r' && "recurse!up"[0] == 'r' && "via("[0] == 'v' && "via!"[0] == 'v';
    if AreColumns(from, to) {
      ViaIsRead(k, from, to, both);
    }
    if ("via(" <= v || "via!" <= v) && EndsWith(v, ")") && ReadVia(v).Edges? {
      ViaSaysEdges(v);
    }
  }

  // ----- A whole recursion -----

  function DepthText(maxDepth: int): string { if maxDepth < 0 then "all" else Dec(maxDepth) }

  /** id=start.5, id=recurse.3, edges=via(src,dst) */
  function Written(i: RecursiveInfo): Params {
    [(i.startField, (if i.excludeStart then "after" else "start") + "." + i.startValue),
     (i.recurseField, (if i.recurseUp then "recurse!up" else "recurse") + "." + DepthText(i.maxDepth))]
    + if i.viaTable == "" then [] else [(i.viaTable, ViaText(i.viaFromCol, i.viaToCol, i.viaBidirectional))]
  }

  predicate IsWritable(i: RecursiveInfo) {
    && i.startField != "" && i.recurseField != "" && (i.maxDepth == -1 || 1 <= i.maxDepth < 0x8000_0000_0000_0000)
    && i.viaConditions.None? && i.walkConditions.None?
    && (if i.viaTable == "" then i.viaFromCol == "" && i.viaToCol == "" && !i.viaBidirectional
        else AreColumns(i.viaFromCol, i.viaToCol) && i.startField == i.recurseField && !i.recurseUp)
  }

  /** The recursion among the parameters, each operator once, and everything else no operator. */
  predicate Contains(ps: Params, i: RecursiveInfo) {
    && (forall w :: w in Written(i) ==> w in ps)
    && (forall p :: p in ps ==> p in Written(i) || ReadOperator(p.0, p.1) == Other)
    && (forall j, k :: 0 <= j < k < |ps| && ps[j] in Written(i) ==> ps[j] != ps[k])
  }

  lemma WrittenIsRead(i: RecursiveInfo)
    requires IsWritable(i)
    ensures var ws := Written(i);
      && Op(ws[0]) == StartAt(i.startField, i.startValue, i.excludeStart)
      && Op(ws[1]) == RecurseBy(i.recurseField, i.recurseUp, if i.maxDepth < 0 then Unlimited else Steps(i.maxDepth))
      && (i.viaTable != "" ==> Op(ws[2]) == ViaEdges(i.viaTable, Edges(i.viaFromCol, i.viaToCol, i.viaBidirectional)))
  {
    hide ReadOperator, ReadDepth, Dec, IsNumeral, ViaText;
    DottedIsRead(i.startField, if i.excludeStart then "after" else "start", i.startValue);
    DottedIsRead(i.recurseField, if i.recurseUp then "recurse!up" else "recurse", DepthText(i.maxDepth));
    if i.maxDepth < 0 {
      DepthExactly("all", 1);
    } else {
      DecIsNumeral(i.maxDepth);
      DepthExactly(Dec(i.maxDepth), i.maxDepth);
    }
    if i.viaTable != "" {
      ViaIsRead(i.viaTable, i.viaFromCol, i.viaToCol, i.viaBidirectional);
    }
  }

  /** What a parameter is, by its kind. */
  lemma OneOfEachKind(ps: Params, i: RecursiveInfo, p: Param)
    requires IsWritable(i) && Contains(ps, i) && p in ps
    ensures var ws, kind := Written(i), KindOf(Op(p));
      && kind != Wrong && (kind != Neutral ==> p in ws && p.0 != "")
      && (kind == Starts <==> p == ws[0])
      && (kind == Recurses <==> p == ws[1])
      && (kind == Vias <==> i.viaTable != "" && p == ws[2])
  {
    hide ReadOperator;
    WrittenIsRead(i);
  }

  lemma KindIsCounted(ps: Params, i: RecursiveInfo, kind: Kind)
    requires IsWritable(i) && Contains(ps, i) && kind != Neutral
    ensures Count(ps, kind, false) == 0
    ensures Count(ps, kind, true) > 0 <==> kind == Starts || kind == Recurses || (kind == Vias && i.viaTable != "")
  {
    hide Op, Count;
    CountsIn(ps, kind, true);
    CountsIn(ps, kind, false);
    forall p | p in ps ensures !IsOf(p, kind, false) && (IsOf(p, kind, true) ==> kind != Wrong && (kind == Vias ==> i.viaTable != "")) {
      OneOfEachKind(ps, i, p);
    }
    var ws := Written(i);
    assert ws[0] in ws && ws[1] in ws && (i.viaTable != "" ==> ws[2] in ws);
    OneOfEachKind(ps, i, ws[0]);
    OneOfEachKind(ps, i, ws[1]);
    if i.viaTable != "" {
      OneOfEachKind(ps, i, ws[2]);
    }
  }

  lemma ContainedIsInOrder(ps: Params, i: RecursiveInfo)
    requires IsWritable(i) && Contains(ps, i)
    ensures InOrder(ps)
  {
    hide Op, IsWritable;
    forall j, k | 0 <= j < k < |ps| ensures !Repeats(ps[j], ps[k]) {
      OneOfEachKind(ps, i, ps[j]);
      OneOfEachKind(ps, i, ps[k]);
    }
  }

  lemma WrittenFits(ps: Params, i: RecursiveInfo, info: RecursiveInfo)
    requires IsWritable(i) && Contains(ps, i) && Describes(ps, Some(info))
    ensures info == i
  {
    hide Op, Count;
    KindIsCounted(ps, i, Starts);
    KindIsCounted(ps, i, Recurses);
    KindIsCounted(ps, i, Vias);
    var ws := Written(i);
    assert ws[0] in ps && ws[1] in ps && (i.viaTable != "" ==> ws[2] in ps);
    OneOfEachKind(ps, i, ws[0]);
    OneOfEachKind(ps, i, ws[1]);
    if i.viaTable != "" {
      OneOfEachKind(ps, i, ws[2]);
    }
    WrittenIsRead(i);
  }

  /** Main result: a recursion is read as it is written, whatever the order of its operators, among
      whatever other parameters. */
  lemma RecursionIsReadBack(ps: Params, i: RecursiveInfo)
    requires IsWritable(i) && Contains(ps, i)
    ensures ParseRecursion(ps) == Done(Some(i))
  {
    hide Op, Count, Collect, Contains, Written, InOrder, ReadsStart, ReadsRecurse, ReadsVia;
    KindIsCounted(ps, i, Wrong);
    KindIsCounted(ps, i, Starts);
    ContainedIsInOrder(ps, i);
    CollectDescribes(ps);
    assert Collect(ps).value.Some?;
    WrittenFits(ps, i, Collect(ps).value.value);
  }
}
