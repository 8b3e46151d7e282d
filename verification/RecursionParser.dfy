/** How a recursion is read from the query string (database/requestparser.go, the recursion section
    of parse). The parameters are walked in the order of a Go map, which is a different one on
    every run; what is read must not depend on it. */
module RecursionParser {
  import opened Sql
  import opened RecursiveQuery
  import opened FilterGrammar

  // ----- One parameter -----

  datatype Operator =
    | Other                                                        // not about recursion: a filter
    | Bad(msg: string)
    | StartAt(field: string, value: string, exclude: bool)
    | RecurseBy(field: string, up: bool, depth: Depth)
    | ViaEdges(table: string, edges: Edges)

  datatype Depth = NotGiven | Unlimited | Steps(n: int) | BadDepth

  /** The columns of via(from,to); NoParenthesis is sliced at -1. */
  datatype Edges = Edges(from: string, to: string, both: bool) | BadDirection | BadColumns | NoParenthesis

  function IndexOf(s: string, c: char): (i: nat)
    ensures i <= |s| && (i < |s| ==> s[i] == c) && c !in s[..i]
  {
    if s == "" || s[0] == c then 0 else 1 + IndexOf(s[1..], c)
  }

  /** via(from,to) or via!both(from,to) */
  function ReadVia(v: string): Edges
    requires ("via(" <= v || "via!" <= v) && EndsWith(v, ")")
  {
    var open := IndexOf(v, '(');
    if open == |v| then NoParenthesis
    else if v[..open] != "via" && v[..open] != "via!both" then BadDirection
    else
      var args := if open + 1 <= |v| - 1 then v[open + 1..|v| - 1] else "";
      var comma := IndexOf(args, ',');
      if comma == |args| || comma == 0 || comma + 1 == |args| then BadColumns
      else Edges(args[..comma], args[comma + 1..], v[..open] != "via")
  }

  function ReadDepth(rest: string): Depth {
    if rest == "all" then Unlimited
    else match Atoi(rest) case Some(n) => if n < 1 then BadDepth else Steps(n) case None => BadDepth
  }

  /** What the parameter k=v says. */
  function ReadOperator(k: string, v: string): Operator {
    var dot := IndexOf(v, '.');
    if dot == |v| then
      if v == "recurse" || v == "recurse!up" then RecurseBy(k, v == "recurse!up", NotGiven)
      else if ("via(" <= v || "via!" <= v) && EndsWith(v, ")") then ViaEdges(k, ReadVia(v))
      else Other
    else
      var up := EndsWith(v[..dot], "!up");
      var prefix := if up then v[..dot - 3] else v[..dot];
      var rest := v[dot + 1..];
      if up && prefix != "recurse" then Bad("'!up' is only valid on 'recurse'")
      else if prefix == "start" || prefix == "after" then StartAt(k, rest, prefix == "after")
      else if prefix != "recurse" then Other
      else RecurseBy(k, up, ReadDepth(rest))
  }

  // ----- All parameters -----

  datatype Outcome<T> = Done(value: T) | Failed(msg: string) | Panicked

  const NOTHING := RecursiveInfo("", "", "", -1, false, false, "", "", "", false, None, None)

  function OrNothing(info: Option<RecursiveInfo>): RecursiveInfo { if info.Some? then info.value else NOTHING }

  /** One turn of the loop. */
  function Step(info: Option<RecursiveInfo>, op: Operator): Outcome<Option<RecursiveInfo>> {
    var i := OrNothing(info);
    match op
    case Other => Done(info)
    case Bad(msg) => Failed(msg)
    case StartAt(f, v, e) =>
      if i.startField != "" then Failed("only one 'start'/'after' operator is allowed")
      else Done(Some(i.(startField := f, startValue := v, excludeStart := e)))
    case RecurseBy(f, up, d) =>
      if i.recurseField != "" then Failed("only one 'recurse' operator is allowed")
      else
        var j := i.(recurseField := f, recurseUp := up);
        (match d
         case NotGiven => Done(Some(j))
         case Unlimited => Done(Some(j.(maxDepth := -1)))
         case Steps(n) => Done(Some(j.(maxDepth := n)))
         case BadDepth => Failed("recurse depth must be a positive integer or 'all'"))
    case ViaEdges(t, edges) =>
      if i.viaTable != "" then Failed("only one 'via' operator is allowed")
      else match edges
        case NoParenthesis => Panicked
        case BadDirection => Failed("via direction must be 'both': via!both(from_col,to_col)")
        case BadColumns => Failed("via requires two columns: via(from_col,to_col)")
        case Edges(from, to, both) =>
          Done(Some(i.(viaTable := t, viaFromCol := from, viaToCol := to, viaBidirectional := both || i.viaBidirectional)))
  }

  type Param = (string, string)

  type Params = seq<Param>

  function Op(p: Param): Operator { ReadOperator(p.0, p.1) }

  function Collect(ps: Params): Outcome<Option<RecursiveInfo>> {
    if ps == [] then Done(None)
    else match Collect(ps[..|ps| - 1])
      case Done(info) => Step(info, Op(ps[|ps| - 1]))
      case Failed(m) => Failed(m)
      case Panicked => Panicked
  }

  /** The checks after the loop. */
  function Complete(info: Option<RecursiveInfo>): Outcome<Option<RecursiveInfo>> {
    if info.None? then Done(None)
    else
      var i := info.value;
      if i.startField == "" then Failed("'recurse' requires a 'start' or 'after' operator")
      else if i.recurseField == "" then Failed("'start' requires a 'recurse' operator")
      else if i.viaTable != "" && i.startField != i.recurseField then Failed("'via' requires 'start' and 'recurse' to use the same field")
      else if i.viaTable != "" && i.recurseUp then Failed("'recurse!up' is single-table only; reverse a 'via' walk by swapping its columns")
      else Done(info)
  }

  function ParseRecursion(ps: Params): Outcome<Option<RecursiveInfo>> {
    match Collect(ps)
    case Done(info) => Complete(info)
    case Failed(m) => Failed(m)
    case Panicked => Panicked
  }

  /** The section as it runs: it stops at the first error. */
  method ReadRecursion(ps: Params) returns (r: Outcome<Option<RecursiveInfo>>)
    ensures r == ParseRecursion(ps)
  {
    var info: Option<RecursiveInfo> := None;
    for n := 0 to |ps|
      invariant Collect(ps[..n]) == Done(info)
    {
      assert ps[..n + 1][..n] == ps[..n];
      var step := Step(info, Op(ps[n]));
      if !step.Done? {
        StopsAt(ps, n + 1);
        return step;
      }
      info := step.value;
    }
    assert ps[..|ps|] == ps;
    r := Complete(info);
  }

  /** An error stays. */
  lemma {:induction false} StopsAt(ps: Params, n: nat)
    requires n <= |ps| && !Collect(ps[..n]).Done?
    ensures Collect(ps) == Collect(ps[..n])
    decreases |ps|
  {
    if n < |ps| {
      var k := |ps| - 1;
      assert ps[..k][..n] == ps[..n];
      StopsAt(ps[..k], n);
    } else {
      assert ps[..n] == ps;
    }
  }

  // ----- What the parameters say -----

  datatype Kind = Neutral | Wrong | Starts | Recurses | Vias

  function KindOf(op: Operator): Kind {
    match op
    case Other => Neutral
    case Bad(_) => Wrong
    case StartAt(_, _, _) => Starts
    case RecurseBy(_, _, d) => if d.BadDepth? then Wrong else Recurses
    case ViaEdges(_, edges) => if edges.Edges? then Vias else Wrong
  }

  /** An operator of this kind, under a key or under the empty key, which Go takes for no operator. */
  predicate IsOf(p: Param, kind: Kind, named: bool) { KindOf(Op(p)) == kind && (p.0 != "") == named }

  function Count(ps: Params, kind: Kind, named: bool): nat {
    if ps == [] then 0 else Count(ps[..|ps| - 1], kind, named) + if IsOf(ps[|ps| - 1], kind, named) then 1 else 0
  }

  predicate NoneWrong(ps: Params) { Count(ps, Wrong, true) == 0 && Count(ps, Wrong, false) == 0 }

  predicate Repeats(a: Param, b: Param) {
    a.0 != "" && KindOf(Op(a)) != Neutral && KindOf(Op(a)) != Wrong && KindOf(Op(a)) == KindOf(Op(b))
  }

  /** Behind an operator with a key none of its kind. */
  predicate InOrder(ps: Params) { forall i, j :: 0 <= i < j < |ps| ==> !Repeats(ps[i], ps[j]) }

  predicate Fits(op: Operator, i: RecursiveInfo) {
    match op
    case StartAt(f, v, e) => i.startField == f && i.startValue == v && i.excludeStart == e
    case RecurseBy(f, up, d) => i.recurseField == f && i.recurseUp == up && i.maxDepth == if d.Steps? then d.n else -1
    case ViaEdges(t, e) => e.Edges? ==> i.viaTable == t && i.viaFromCol == e.from && i.viaToCol == e.to && i.viaBidirectional == e.both
    case _ => true
  }

  /** With no operator under the empty key, the one of this kind is what was read. */
  predicate AllFit(ps: Params, kind: Kind, i: RecursiveInfo) {
    Count(ps, kind, false) == 0 ==> forall p :: p in ps && IsOf(p, kind, true) ==> Fits(Op(p), i)
  }

  predicate Lacks(ps: Params, kind: Kind) { Count(ps, kind, true) == 0 && Count(ps, kind, false) == 0 }

  predicate LacksAll(ps: Params) { Lacks(ps, Starts) && Lacks(ps, Recurses) && Lacks(ps, Vias) }

  predicate ReadsStart(ps: Params, i: RecursiveInfo) {
    && (i.startField != "" <==> Count(ps, Starts, true) > 0)
    && (Lacks(ps, Starts) ==> i.startValue == "" && !i.excludeStart)
    && (forall p :: p in ps && IsOf(p, Starts, true) ==> Op(p).field == i.startField)
    && AllFit(ps, Starts, i)
  }

  predicate ReadsRecurse(ps: Params, i: RecursiveInfo) {
    && (i.recurseField != "" <==> Count(ps, Recurses, true) > 0)
    && (Lacks(ps, Recurses) ==> !i.recurseUp && i.maxDepth == -1)
    && (i.maxDepth == -1 || i.maxDepth >= 1)
    && (forall p :: p in ps && IsOf(p, Recurses, true) ==> Op(p).field == i.recurseField && Op(p).up == i.recurseUp)
    && AllFit(ps, Recurses, i)
  }

  predicate ReadsVia(ps: Params, i: RecursiveInfo) {
    && (i.viaTable != "" <==> Count(ps, Vias, true) > 0)
    && (Lacks(ps, Vias) ==> i.viaFromCol == "" && i.viaToCol == "" && !i.viaBidirectional)
    && (i.viaTable != "" ==> i.viaFromCol != "" && i.viaToCol != "")
    && AllFit(ps, Vias, i)
  }

  /** The parameters say this. */
  predicate Describes(ps: Params, info: Option<RecursiveInfo>) {
    var i := OrNothing(info);
    && (info.None? <==> LacksAll(ps))
    && i.viaConditions.None? && i.walkConditions.None?
    && ReadsStart(ps, i) && ReadsRecurse(ps, i) && ReadsVia(ps, i)
  }

  // ----- The loop reads what the parameters say -----

  lemma CountNext(ps: Params, p: Param, kind: Kind, named: bool)
    ensures Count(ps + [p], kind, named) == Count(ps, kind, named) + if IsOf(p, kind, named) then 1 else 0
  {
    assert (ps + [p])[..|ps|] == ps;
  }

  lemma {:induction false} CountsIn(ps: Params, kind: Kind, named: bool)
    ensures Count(ps, kind, named) > 0 <==> exists p :: p in ps && IsOf(p, kind, named)
  {
    if ps != [] {
      var last := ps[|ps| - 1];
      CountsIn(ps[..|ps| - 1], kind, named);
      assert forall p :: p in ps <==> p in ps[..|ps| - 1] || p == last;
    }
  }

  lemma OneOf(ps: Params, kind: Kind) returns (p: Param)
    requires Count(ps, kind, true) > 0
    ensures p in ps && IsOf(p, kind, true)
  {
    CountsIn(ps, kind, true);
    p :| p in ps && IsOf(p, kind, true);
  }

  lemma CountsNext(ps: Params, p: Param, kind: Kind)
    ensures Count(ps + [p], kind, true) == Count(ps, kind, true) + if IsOf(p, kind, true) then 1 else 0
    ensures Count(ps + [p], kind, false) == Count(ps, kind, false) + if IsOf(p, kind, false) then 1 else 0
    ensures Count(ps, kind, true) == 0 ==> forall q :: q in ps ==> !IsOf(q, kind, true)
  {
    CountNext(ps, p, kind, true);
    CountNext(ps, p, kind, false);
    CountsIn(ps, kind, true);
  }

  lemma NextIsInOrderExactly(ps: Params, p: Param)
    ensures InOrder(ps + [p]) <==> InOrder(ps) && forall q :: q in ps ==> !Repeats(q, p)
  {
    hide Repeats;
    var qs := ps + [p];
    assert forall i :: 0 <= i < |ps| ==> qs[i] == ps[i];
    if InOrder(qs) {
      forall q | q in ps ensures !Repeats(q, p) {
        var i :| 0 <= i < |ps| && ps[i] == q;
        assert !Repeats(qs[i], qs[|ps|]);
      }
    }
  }

  /** The next operator can be read: it is not wrong, and none of its kind has had a key. */
  predicate IsReadable(ps: Params, p: Param) {
    var kind := KindOf(Op(p));
    kind != Wrong && (kind != Neutral ==> Count(ps, kind, true) == 0)
  }

  lemma NextIsReadableExactly(ps: Params, p: Param)
    ensures NoneWrong(ps + [p]) && InOrder(ps + [p]) <==> NoneWrong(ps) && InOrder(ps) && IsReadable(ps, p)
  {
    hide InOrder, Op, Count;
    CountsNext(ps, p, Wrong);
    NextIsInOrderExactly(ps, p);
    CountsIn(ps, KindOf(Op(p)), true);
  }

  /** Operators name the key they came under; depths are -1 or positive; via has two columns. */
  lemma OperatorFields(p: Param)
    ensures match Op(p)
      case StartAt(f, _, _) => f == p.0
      case RecurseBy(f, _, d) => f == p.0 && (d.Steps? ==> d.n >= 1)
      case ViaEdges(t, e) => t == p.0 && (e.Edges? ==> e.from != "" && e.to != "")
      case _ => true
  {
  }

  lemma StepReadsStart(ps: Params, info: Option<RecursiveInfo>, p: Param)
    requires ReadsStart(ps, OrNothing(info)) && IsReadable(ps, p) && Step(info, Op(p)).Done?
    ensures ReadsStart(ps + [p], OrNothing(Step(info, Op(p)).value))
  {
    hide ReadOperator, Count;
    CountsNext(ps, p, Starts);
    OperatorFields(p);
  }

  lemma StepReadsRecurse(ps: Params, info: Option<RecursiveInfo>, p: Param)
    requires ReadsRecurse(ps, OrNothing(info)) && IsReadable(ps, p) && Step(info, Op(p)).Done?
    ensures ReadsRecurse(ps + [p], OrNothing(Step(info, Op(p)).value))
  {
    hide ReadOperator, Count;
    CountsNext(ps, p, Recurses);
    OperatorFields(p);
  }

  lemma StepReadsVia(ps: Params, info: Option<RecursiveInfo>, p: Param)
    requires ReadsVia(ps, OrNothing(info)) && IsReadable(ps, p) && Step(info, Op(p)).Done?
    ensures ReadsVia(ps + [p], OrNothing(Step(info, Op(p)).value))
  {
    hide ReadOperator, Count;
    CountsNext(ps, p, Vias);
    OperatorFields(p);
  }

  lemma StepSucceedsExactly(ps: Params, info: Option<RecursiveInfo>, p: Param)
    requires Describes(ps, info)
    ensures Step(info, Op(p)).Done? <==> IsReadable(ps, p)
  {
    hide ReadOperator, Count, AllFit, Lacks;
  }

  lemma StepIsAboutRecursion(ps: Params, info: Option<RecursiveInfo>, p: Param)
    requires Step(info, Op(p)).Done? && (info.None? <==> LacksAll(ps))
    ensures Step(info, Op(p)).value.None? <==> LacksAll(ps + [p])
  {
    hide ReadOperator, Count;
    CountsNext(ps, p, Starts);
    CountsNext(ps, p, Recurses);
    CountsNext(ps, p, Vias);
  }

  lemma StepDescribes(ps: Params, info: Option<RecursiveInfo>, p: Param)
    requires Describes(ps, info)
    ensures Step(info, Op(p)).Done? <==> IsReadable(ps, p)
    ensures Step(info, Op(p)).Done? ==> Describes(ps + [p], Step(info, Op(p)).value)
  {
    hide ReadOperator, Op, LacksAll, ReadsStart, ReadsRecurse, ReadsVia, IsReadable;
    StepSucceedsExactly(ps, info, p);
    if Step(info, Op(p)).Done? {
      StepReadsStart(ps, info, p);
      StepReadsRecurse(ps, info, p);
      StepReadsVia(ps, info, p);
      StepIsAboutRecursion(ps, info, p);
    }
  }

  /** The loop succeeds exactly when no operator is wrong and none follows one of its kind with a
      key, and then it has read what the parameters say. */
  lemma {:induction false} CollectDescribes(ps: Params)
    ensures Collect(ps).Done? <==> NoneWrong(ps) && InOrder(ps)
    ensures Collect(ps).Done? ==> Describes(ps, Collect(ps).value)
  {
    hide Op, Step, Describes, Count, InOrder, IsReadable;
    if ps == [] {
      NothingDescribesNothing();
    } else {
      var n := |ps| - 1;
      assert ps == ps[..n] + [ps[n]];
      CollectDescribes(ps[..n]);
      NextIsReadableExactly(ps[..n], ps[n]);
      if Collect(ps[..n]).Done? {
        StepDescribes(ps[..n], Collect(ps[..n]).value, ps[n]);
      }
    }
  }

  lemma NothingDescribesNothing()
    ensures NoneWrong([]) && InOrder([]) && Describes([], None)
  {
  }

  // ----- Exactly the recursions that are accepted -----

  /** Start and recurse once each under a key, via at most once and then with both on one field,
      downward. */
  predicate IsAcceptable(ps: Params) {
    && NoneWrong(ps) && Count(ps, Starts, true) == 1 && Count(ps, Recurses, true) == 1 && Count(ps, Vias, true) <= 1
    && (Count(ps, Vias, true) == 1 ==> forall s, r :: s in ps && r in ps ==> MaySpanEdges(s, r))
  }

  predicate MaySpanEdges(s: Param, r: Param) {
    IsOf(s, Starts, true) && IsOf(r, Recurses, true) ==> s.0 == r.0 && !Op(r).up
  }

  lemma {:induction false} OnceInOrder(ps: Params, kind: Kind)
    requires InOrder(ps) && kind != Neutral && kind != Wrong
    ensures Count(ps, kind, true) <= 1
  {
    hide Op;
    if ps != [] {
      var n := |ps| - 1;
      assert ps == ps[..n] + [ps[n]];
      NextIsInOrderExactly(ps[..n], ps[n]);
      OnceInOrder(ps[..n], kind);
      CountsIn(ps[..n], kind, true);
    }
  }

  /** Accepted are exactly those without a recursion and the acceptable ones, in order. */
  lemma AcceptedExactly(ps: Params)
    ensures ParseRecursion(ps).Done? <==> InOrder(ps) && ((NoneWrong(ps) && LacksAll(ps)) || IsAcceptable(ps))
    ensures ParseRecursion(ps).Done? ==> (ParseRecursion(ps).value.Some? <==> IsAcceptable(ps))
  {
    hide Op, Count, InOrder, AllFit;
    CollectDescribes(ps);
    if InOrder(ps) {
      OnceInOrder(ps, Starts);
      OnceInOrder(ps, Recurses);
      OnceInOrder(ps, Vias);
    }
    if Collect(ps).Done? && Collect(ps).value.Some? {
      CompletesExactly(ps, Collect(ps).value.value);
    }
  }

  lemma CompletesExactly(ps: Params, i: RecursiveInfo)
    requires Describes(ps, Some(i)) && NoneWrong(ps) && InOrder(ps)
    requires Count(ps, Starts, true) <= 1 && Count(ps, Recurses, true) <= 1 && Count(ps, Vias, true) <= 1
    ensures Complete(Some(i)).Done? <==> IsAcceptable(ps)
  {
    hide ReadOperator, Count;
    if Count(ps, Starts, true) == 1 && Count(ps, Recurses, true) == 1 {
      var s := OneOf(ps, Starts);
      var r := OneOf(ps, Recurses);
      OperatorFields(s);
      OperatorFields(r);
    }
  }

  /** What the builder may rely on. */
  lemma AcceptedIsConsistent(ps: Params)
    requires ParseRecursion(ps).Done? && ParseRecursion(ps).value.Some?
    ensures var i := ParseRecursion(ps).value.value;
      && i.startField != "" && i.recurseField != "" && (i.maxDepth == -1 || i.maxDepth >= 1)
      && (i.viaTable != "" ==> i.startField == i.recurseField && !i.recurseUp && i.viaFromCol != "" && i.viaToCol != "")
  {
    hide Op, Count, InOrder, Collect;
    CollectDescribes(ps);
  }

  // ----- When the parser panics -----

  /** A via hint without its parenthesis. */
  predicate LacksParenthesis(v: string) { '.' !in v && '(' !in v && "via!" <= v && EndsWith(v, ")") }

  lemma {:induction false} IsAbsent(s: string, c: char)
    ensures IndexOf(s, c) == |s| <==> c !in s
  {
    if s != "" && s[0] != c {
      IsAbsent(s[1..], c);
    }
  }

  lemma NoParenthesisExactly(p: Param)
    ensures Op(p).ViaEdges? && Op(p).edges.NoParenthesis? <==> LacksParenthesis(p.1)
  {
    hide IndexOf, Atoi;
    IsAbsent(p.1, '.');
    IsAbsent(p.1, '(');
    if "via(" <= p.1 {
      assert p.1[3] == '(';
    }
  }

  lemma StepPanicsExactly(info: Option<RecursiveInfo>, p: Param)
    ensures Step(info, Op(p)).Panicked? <==> OrNothing(info).viaTable == "" && LacksParenthesis(p.1)
  {
    hide Op, LacksParenthesis;
    NoParenthesisExactly(p);
  }

  predicate PanicsAt(ps: Params, n: nat)
    requires n < |ps|
  {
    NoneWrong(ps[..n]) && InOrder(ps[..n]) && Count(ps[..n], Vias, true) == 0 && LacksParenthesis(ps[n].1)
  }

  lemma CollectPanicsExactly(ps: Params, n: nat)
    requires n < |ps|
    ensures PanicsAt(ps, n) <==> Collect(ps[..n]).Done? && Step(Collect(ps[..n]).value, Op(ps[n])).Panicked?
  {
    hide Op, Count, InOrder, Collect, LacksParenthesis, Step;
    CollectDescribes(ps[..n]);
    if Collect(ps[..n]).Done? {
      StepPanicsExactly(Collect(ps[..n]).value, ps[n]);
    }
  }

  /** A finding, exactly: the parser slices a value at -1 if and only if one is a via hint without a
      parenthesis, all parameters before it are read without an error, and none of them is a via
      under a key. */
  lemma {:induction false} PanicsExactly(ps: Params)
    ensures ParseRecursion(ps).Panicked? <==> exists n :: 0 <= n < |ps| && PanicsAt(ps, n)
  {
    hide Op, Step, Complete, PanicsAt;
    if n :| 0 <= n < |ps| && PanicsAt(ps, n) {
      CollectPanicsExactly(ps, n);
      assert ps[..n + 1][..n] == ps[..n];
      StopsAt(ps, n + 1);
    }
    if Collect(ps).Panicked? {
      var m := |ps| - 1;
      if Collect(ps[..m]).Panicked? {
        PanicsExactly(ps[..m]);
        var n :| 0 <= n < m && PanicsAt(ps[..m], n);
        SamePanic(ps, m, n);
      } else {
        CollectPanicsExactly(ps, m);
      }
    }
    CompletesOrFails(ps);
  }

  lemma SamePanic(ps: Params, m: nat, n: nat)
    requires n < m <= |ps|
    ensures PanicsAt(ps, n) <==> PanicsAt(ps[..m], n)
  {
    assert ps[..m][..n] == ps[..n];
  }

  lemma CompletesOrFails(ps: Params)
    ensures ParseRecursion(ps).Panicked? <==> Collect(ps).Panicked?
  {
  }

  // ----- When the loop fails -----

  /** The kind that the operator cannot follow under a key; Wrong cannot follow anything. */
  function Conflict(p: Param): Kind { if LacksParenthesis(p.1) then Vias else KindOf(Op(p)) }

  predicate Conflicts(ps: Params, p: Param) {
    Conflict(p) == Wrong || (Conflict(p) != Neutral && Count(ps, Conflict(p), true) > 0)
  }

  predicate FailsAt(ps: Params, n: nat)
    requires n < |ps|
  {
    NoneWrong(ps[..n]) && InOrder(ps[..n]) && Conflicts(ps[..n], ps[n])
  }

  lemma StepFailsExactly(ps: Params, info: Option<RecursiveInfo>, p: Param)
    requires Describes(ps, info)
    ensures Step(info, Op(p)).Failed? <==> Conflicts(ps, p)
  {
    hide Op, Count, LacksParenthesis, ReadsStart, ReadsRecurse, AllFit;
    StepSucceedsExactly(ps, info, p);
    StepPanicsExactly(info, p);
    NoParenthesisExactly(p);
  }

  lemma CollectFailsExactly(ps: Params, n: nat)
    requires n < |ps|
    ensures FailsAt(ps, n) <==> Collect(ps[..n]).Done? && Step(Collect(ps[..n]).value, Op(ps[n])).Failed?
  {
    hide Op, Count, InOrder, Collect, Conflicts, Step, Describes;
    CollectDescribes(ps[..n]);
    if Collect(ps[..n]).Done? {
      StepFailsExactly(ps[..n], Collect(ps[..n]).value, ps[n]);
    }
  }

  /** The loop ends with an error if and only if some operator is malformed or repeats one with a key,
      and everything before it is read. */
  lemma {:induction false} FailsExactly(ps: Params)
    ensures Collect(ps).Failed? <==> exists n :: 0 <= n < |ps| && FailsAt(ps, n)
  {
    hide Op, Step, FailsAt;
    if n :| 0 <= n < |ps| && FailsAt(ps, n) {
      CollectFailsExactly(ps, n);
      assert ps[..n + 1][..n] == ps[..n];
      StopsAt(ps, n + 1);
    }
    if Collect(ps).Failed? {
      var m := |ps| - 1;
      if Collect(ps[..m]).Failed? {
        FailsExactly(ps[..m]);
        var n :| 0 <= n < m && FailsAt(ps[..m], n);
        SameFailure(ps, m, n);
      } else {
        CollectFailsExactly(ps, m);
      }
    }
  }

  lemma SameFailure(ps: Params, m: nat, n: nat)
    requires n < m <= |ps|
    ensures FailsAt(ps, n) <==> FailsAt(ps[..m], n)
  {
    assert ps[..m][..n] == ps[..n];
  }

  // ----- What is left of the parameters -----

  type Filters = map<string, seq<string>>

  /** The filters of the edge table, of the walk, and of the result. */
  datatype Shares = Shares(via: Filters, walk: Filters, result: Filters)

  function Behind(prefix: string, filters: Filters): Filters {
    var cut := set k | k in filters && prefix <= k :: k[|prefix|..];
    map c | c in cut && prefix + c in filters :: filters[prefix + c]
  }

  function Apart(prefix: string, filters: Filters): Filters { map k | k in filters && !(prefix <= k) :: filters[k] }

  function Share(filters: Filters, i: RecursiveInfo): Shares {
    var own := filters - {i.startField, i.recurseField};
    var left := if i.viaTable == "" then own else own - {i.viaTable};
    var via := if i.viaTable == "" then map[] else Behind(i.viaTable + ".", left);
    var rest := if i.viaTable == "" then left else Apart(i.viaTable + ".", left);
    Shares(via, Behind("walk.", rest), Apart("walk.", rest))
  }

  /** Every parameter goes one way. A finding: those under the keys of the operators themselves go
      nowhere, so a filter on the start column beside `start` has no effect. */
  lemma EveryFilterGoesOneWay(filters: Filters, i: RecursiveInfo, k: string)
    requires k in filters
    ensures var s := Share(filters, i);
      var own := k == i.startField || k == i.recurseField || (i.viaTable != "" && k == i.viaTable);
      var toVia := i.viaTable != "" && i.viaTable + "." <= k;
      && (k in s.result <==> !own && !toVia && !("walk." <= k))
      && (k in s.result ==> s.result[k] == filters[k])
      && (!own && toVia ==> k[|i.viaTable| + 1..] in s.via && s.via[k[|i.viaTable| + 1..]] == filters[k])
      && (!own && !toVia && "walk." <= k ==> k[5..] in s.walk && s.walk[k[5..]] == filters[k])
  {
    if i.viaTable != "" {
      var prefix := i.viaTable + ".";
      assert prefix <= k ==> |prefix| == |i.viaTable| + 1;
      BehindIsExact(prefix, filters - {i.startField, i.recurseField} - {i.viaTable}, k);
      BehindIsExact("walk.", Apart(prefix, filters - {i.startField, i.recurseField} - {i.viaTable}), k);
    } else {
      BehindIsExact("walk.", filters - {i.startField, i.recurseField}, k);
    }
  }

  /** And nothing else gets there. */
  lemma SharesHoldNothingElse(filters: Filters, i: RecursiveInfo, c: string)
    ensures var s, edge, walk := Share(filters, i), i.viaTable + "." + c, "walk." + c;
      && (c in s.via <==> i.viaTable != "" && edge in filters && edge != i.startField && edge != i.recurseField)
      && (c in s.walk <==> walk in filters && walk != i.startField && walk != i.recurseField
                           && (i.viaTable != "" ==> walk != i.viaTable && !(i.viaTable + "." <= walk)))
      && (c in s.result ==> c in filters)
  {
    var own := filters - {i.startField, i.recurseField};
    if i.viaTable != "" {
      var prefix := i.viaTable + ".";
      BehindIsExact(prefix, own - {i.viaTable}, c);
      BehindIsExact("walk.", Apart(prefix, own - {i.viaTable}), c);
      assert |prefix + c| > |i.viaTable|;
    } else {
      BehindIsExact("walk.", own, c);
    }
  }

  /** Cutting off the prefix mixes no two keys up. */
  lemma BehindIsExact(prefix: string, filters: Filters, k: string)
    ensures k in filters && prefix <= k ==> k[|prefix|..] in Behind(prefix, filters) && Behind(prefix, filters)[k[|prefix|..]] == filters[k]
    ensures forall c :: c in Behind(prefix, filters) <==> prefix + c in filters
  {
    if prefix <= k {
      assert prefix + k[|prefix|..] == k;
    }
    forall c | prefix + c in filters ensures c in Behind(prefix, filters) {
      assert prefix <= prefix + c && (prefix + c)[|prefix|..] == c;
    }
  }

  /** The builder's assumption: without a via table there are no via filters. */
  lemma ViaFiltersNeedViaTable(filters: Filters, i: RecursiveInfo)
    ensures i.viaTable == "" ==> Share(filters, i).via == map[]
  {
  }

  /** The smallest value that panics. */
  lemma ViaWithoutParenthesisPanics()
    ensures ParseRecursion([("edges", "via!both)")]).Panicked?
  {
    hide Op, InOrder, ParseRecursion;
    var ps := [("edges", "via!both)")];
    assert ps[..0] == [];
    NothingDescribesNothing();
    PanicsExactly(ps);
    assert PanicsAt(ps, 0);
  }
}
