/** The parameters of a recursion come out of a Go map in a different order on every run. Exactly when
    what is read does not depend on it. */
module RecursionOrder {
  import opened RecursionParser
  import opened RecursiveQuery
  import opened Sequences
  import opened Sql

  /** The parameters under the key k, or all the others, in their order. */
  function Sift(ps: Params, k: string, own: bool): Params {
    if ps == [] then []
    else Sift(ps[..|ps| - 1], k, own) + if (ps[|ps| - 1].0 == k) == own then [ps[|ps| - 1]] else []
  }

  function Keyed(ps: Params, k: string): Params { Sift(ps, k, true) }

  predicate HasKey(ps: Params, k: string) { exists p :: p in ps && p.0 == k }

  /** The parameters as a walk over a map gives them: the values of a key follow each other. */
  predicate IsWalk(ps: Params) {
    ps == [] ||
    var qs, k := ps[..|ps| - 1], ps[|ps| - 1].0;
    IsWalk(qs) && (HasKey(qs, k) ==> qs[|qs| - 1].0 == k)
  }

  /** The same map: the keys in whatever order, each with its values as they were. */
  ghost predicate IsRearrangement(ps: Params, qs: Params) {
    multiset(ps) == multiset(qs) && forall k :: Keyed(ps, k) == Keyed(qs, k)
  }

  /** Both panic, both fail, or the same is read. */
  ghost predicate ReadAlike(ps: Params, qs: Params) {
    && (ParseRecursion(ps).Panicked? <==> ParseRecursion(qs).Panicked?)
    && (ParseRecursion(ps).Done? <==> ParseRecursion(qs).Done?)
    && (ParseRecursion(ps).Done? ==> ParseRecursion(ps) == ParseRecursion(qs))
  }

  /** Every other walk over the map is read as this one. */
  ghost predicate IsOrderFree(ps: Params) { forall qs :: IsWalk(qs) && IsRearrangement(ps, qs) ==> ReadAlike(ps, qs) }

  predicate Clashes(ps: Params, kind: Kind) { Count(ps, kind, true) == 1 && Count(ps, kind, false) >= 1 }

  /** Acceptable but for an operator under the empty key beside one of its kind under a key. */
  predicate IsTorn(ps: Params) {
    IsAcceptable(ps) && (Clashes(ps, Starts) || Clashes(ps, Recurses) || Clashes(ps, Vias))
  }

  // Rearranging changes no count.

  lemma {:induction false} CountSplit(a: Params, b: Params, kind: Kind, named: bool)
    ensures Count(a + b, kind, named) == Count(a, kind, named) + Count(b, kind, named)
  {
    if b == [] {
      assert a + b == a;
    } else {
      assert (a + b)[..|a + b| - 1] == a + b[..|b| - 1];
      CountSplit(a, b[..|b| - 1], kind, named);
    }
  }

  lemma CountRemoved(b: Params, i: nat, kind: Kind, named: bool)
    requires i < |b|
    ensures Count(b, kind, named) == Count(b[..i] + b[i + 1..], kind, named) + if IsOf(b[i], kind, named) then 1 else 0
  {
    hide IsOf;
    var x, y, z := b[..i], [b[i]], b[i + 1..];
    assert b == x + (y + z);
    CountSplit(x, y + z, kind, named);
    CountSplit(y, z, kind, named);
    CountSplit(x, z, kind, named);
    CountNext([], b[i], kind, named);
    assert [] + [b[i]] == y;
  }

  lemma {:induction false} CountOfPermutation(a: Params, b: Params, kind: Kind, named: bool)
    requires multiset(a) == multiset(b)
    ensures Count(a, kind, named) == Count(b, kind, named)
    decreases |a|
  {
    hide IsOf;
    if a == [] {
      assert |multiset(b)| == |b|;
    } else {
      var n := |a| - 1;
      var i := SameWithout(a, b);
      CountOfPermutation(a[..n], b[..i] + b[i + 1..], kind, named);
      CountRemoved(b, i, kind, named);
    }
  }

  /** The last of a is somewhere in b; without it the two still have the same elements. */
  lemma SameWithout<T>(a: seq<T>, b: seq<T>) returns (i: nat)
    requires multiset(a) == multiset(b) && a != []
    ensures i < |b| && b[i] == a[|a| - 1] && multiset(a[..|a| - 1]) == multiset(b[..i] + b[i + 1..])
  {
    var n := |a| - 1;
    var x := a[n];
    assert x in multiset(b);
    i :| 0 <= i < |b| && b[i] == x;
    Removed(b, i);
    Removed(a, n);
    assert a[..n] + a[n + 1..] == a[..n];
  }

  lemma SameElements(ps: Params, qs: Params)
    requires multiset(ps) == multiset(qs)
    ensures forall p :: p in ps <==> p in qs
  {
    assert forall p :: p in ps <==> p in multiset(ps);
    assert forall p :: p in qs <==> p in multiset(qs);
  }

  ghost predicate SameCounts(ps: Params, qs: Params) {
    forall kind, named :: Count(ps, kind, named) == Count(qs, kind, named)
  }

  lemma SameParameters(ps: Params, qs: Params)
    requires multiset(ps) == multiset(qs)
    ensures SameCounts(ps, qs)
    ensures IsAcceptable(ps) <==> IsAcceptable(qs)
  {
    forall kind, named ensures Count(ps, kind, named) == Count(qs, kind, named) {
      CountOfPermutation(ps, qs, kind, named);
    }
    SameElements(ps, qs);
  }

  // Without a clash every order is read alike.

  predicate NoClash(ps: Params, kind: Kind) {
    Count(ps, kind, true) == 0 || (Count(ps, kind, true) == 1 && Count(ps, kind, false) == 0)
  }

  lemma {:induction false} InAnyOrder(ps: Params)
    requires NoClash(ps, Starts) && NoClash(ps, Recurses) && NoClash(ps, Vias)
    ensures InOrder(ps)
  {
    hide Op;
    if ps != [] {
      var qs, p := ps[..|ps| - 1], ps[|ps| - 1];
      assert ps == qs + [p];
      CountsNext(qs, p, Starts);
      CountsNext(qs, p, Recurses);
      CountsNext(qs, p, Vias);
      InAnyOrder(qs);
      NextIsInOrderExactly(qs, p);
    }
  }

  lemma SiftNext(ps: Params, p: Param, k: string, own: bool)
    ensures Sift(ps + [p], k, own) == if (p.0 == k) == own then Sift(ps, k, own) + [p] else Sift(ps, k, own)
  {
    assert (ps + [p])[..|ps|] == ps;
  }

  lemma NothingIsSifted(k: string)
    ensures Sift([], k, true) == [] && Sift([], k, false) == []
  {
  }

  /** The empty key apart from the others: each part holds all operators of its sort and no other. */
  lemma {:induction false} SiftedCount(ps: Params, kind: Kind, named: bool)
    ensures Count(Sift(ps, "", !named), kind, named) == Count(ps, kind, named)
    ensures Count(Sift(ps, "", !named), kind, !named) == 0
  {
    hide KindOf, Count, Sift;
    if ps == [] {
      NothingIsSifted("");
      NothingCounts(kind);
    } else {
      var qs, p := ps[..|ps| - 1], ps[|ps| - 1];
      assert ps == qs + [p];
      SiftedCount(qs, kind, named);
      SiftNext(qs, p, "", !named);
      CountNext(qs, p, kind, named);
      CountNext(Sift(qs, "", !named), p, kind, named);
      CountNext(Sift(qs, "", !named), p, kind, !named);
    }
  }

  lemma NothingCounts(kind: Kind)
    ensures Count([], kind, true) == 0 && Count([], kind, false) == 0
  {
  }

  lemma KeyedIsCollected(ps: Params)
    requires Collect(ps).Done?
    ensures Collect(Keyed(ps, "")).Done?
  {
    hide Count, InOrder;
    CollectDescribes(ps);
    CollectDescribes(Keyed(ps, ""));
    SiftedCount(ps, Wrong, false);
    SiftedCount(ps, Starts, false);
    SiftedCount(ps, Recurses, false);
    SiftedCount(ps, Vias, false);
    InAnyOrder(Keyed(ps, ""));
  }

  function EdgesOf(info: Option<RecursiveInfo>): (string, string, bool) {
    var i := OrNothing(info);
    (i.viaFromCol, i.viaToCol, i.viaBidirectional)
  }

  lemma CollectNext(ps: Params, p: Param)
    ensures Collect(ps + [p]) == if Collect(ps).Done? then Step(Collect(ps).value, Op(p)) else Collect(ps)
  {
    hide Step, Op;
    assert (ps + [p])[..|ps|] == ps;
  }

  /** The columns of via operators that are all under the empty key come from that key alone. */
  lemma {:induction false} UnnamedEdges(ps: Params)
    requires Collect(ps).Done? && Count(ps, Vias, true) == 0
    ensures Collect(Keyed(ps, "")).Done? && EdgesOf(Collect(Keyed(ps, "")).value) == EdgesOf(Collect(ps).value)
  {
    hide Op, Count, Collect, Sift, Step, EdgesOf;
    KeyedIsCollected(ps);
    if ps == [] {
      NothingIsSifted("");
    } else {
      var qs, p := ps[..|ps| - 1], ps[|ps| - 1];
      assert ps == qs + [p];
      CountNext(qs, p, Vias, true);
      CollectNext(qs, p);
      CollectNext(Keyed(qs, ""), p);
      UnnamedEdges(qs);
      SiftNext(qs, p, "", true);
      if p.0 == "" {
        SameEdges(Collect(Keyed(qs, "")).value, Collect(qs).value, Op(p));
      } else {
        StepKeepsEdges(Collect(qs).value, p);
      }
    }
  }

  lemma EdgesNext(info: Option<RecursiveInfo>, op: Operator)
    requires Step(info, op).Done?
    ensures EdgesOf(Step(info, op).value) ==
      if op.ViaEdges? && op.edges.Edges? then (op.edges.from, op.edges.to, op.edges.both || EdgesOf(info).2) else EdgesOf(info)
  {
  }

  lemma StepKeepsEdges(info: Option<RecursiveInfo>, p: Param)
    requires Step(info, Op(p)).Done? && !IsOf(p, Vias, true) && p.0 != ""
    ensures EdgesOf(Step(info, Op(p)).value) == EdgesOf(info)
  {
    hide Op, Step, EdgesOf;
    EdgesNext(info, Op(p));
  }

  lemma SameEdges(i: Option<RecursiveInfo>, j: Option<RecursiveInfo>, op: Operator)
    requires EdgesOf(i) == EdgesOf(j) && Step(i, op).Done? && Step(j, op).Done?
    ensures EdgesOf(Step(i, op).value) == EdgesOf(Step(j, op).value)
  {
    hide Step, EdgesOf;
    EdgesNext(i, op);
    EdgesNext(j, op);
  }

  /** With no clash the operators determine the recursion, up to columns without a via table. */
  lemma SameDescription(ps: Params, qs: Params, i: RecursiveInfo, j: RecursiveInfo)
    requires multiset(ps) == multiset(qs) && SameCounts(ps, qs) && Describes(ps, Some(i)) && Describes(qs, Some(j))
    requires IsAcceptable(ps) && NoClash(ps, Starts) && NoClash(ps, Recurses) && NoClash(ps, Vias)
    requires Count(ps, Vias, true) == 0 ==> EdgesOf(Some(i)) == EdgesOf(Some(j))
    ensures i == j
  {
    hide Op, Count;
    SameElements(ps, qs);
    var s := OneOf(ps, Starts);
    var r := OneOf(ps, Recurses);
    assert Fits(Op(s), i) && Fits(Op(s), j) && Fits(Op(r), i) && Fits(Op(r), j);
    if Count(ps, Vias, true) == 1 {
      var v := OneOf(ps, Vias);
      assert Fits(Op(v), i) && Fits(Op(v), j);
    }
  }

  /** Untorn parameters, accepted or not, are so in every order, with the same recursion. */
  lemma UntornIsOrderFree(ps: Params, qs: Params)
    requires !IsTorn(ps) && IsRearrangement(ps, qs)
    ensures ParseRecursion(ps).Done? <==> ParseRecursion(qs).Done?
    ensures ParseRecursion(ps).Done? ==> ParseRecursion(ps) == ParseRecursion(qs)
  {
    hide Count, InOrder, Describes, Op, Collect, Complete;
    SameParameters(ps, qs);
    AcceptedExactly(ps);
    AcceptedExactly(qs);
    if IsAcceptable(ps) || LacksAll(ps) {
      InAnyOrder(ps);
      InAnyOrder(qs);
    }
    if ParseRecursion(ps).Done? && IsAcceptable(ps) {
      SameRecursion(ps, qs);
    }
  }

  lemma SameRecursion(ps: Params, qs: Params)
    requires !IsTorn(ps) && IsAcceptable(ps) && IsRearrangement(ps, qs) && SameCounts(ps, qs)
    requires ParseRecursion(ps).Done? && ParseRecursion(qs).Done? && ParseRecursion(ps).value.Some? && ParseRecursion(qs).value.Some?
    ensures ParseRecursion(ps) == ParseRecursion(qs)
  {
    hide Count, InOrder, Describes, Op, Collect;
    CollectDescribes(ps);
    CollectDescribes(qs);
    if Count(ps, Vias, true) == 0 {
      UnnamedEdges(ps);
      UnnamedEdges(qs);
      assert Keyed(ps, "") == Keyed(qs, "");
    }
    SameDescription(ps, qs, Collect(ps).value.value, Collect(qs).value.value);
  }

  // With a clash it depends on whether the empty key comes first or last.

  lemma {:induction false} SiftedParts(ps: Params, k: string)
    ensures multiset(ps) == multiset(Sift(ps, k, true)) + multiset(Sift(ps, k, false))
  {
    hide Sift;
    if ps == [] {
      NothingIsSifted(k);
    } else {
      var qs, p := ps[..|ps| - 1], ps[|ps| - 1];
      assert ps == qs + [p];
      SiftedParts(qs, k);
      SiftNext(qs, p, k, true);
      SiftNext(qs, p, k, false);
    }
  }

  lemma {:induction false} SiftedExactly(ps: Params, k: string, own: bool)
    ensures forall p :: p in Sift(ps, k, own) <==> p in ps && (p.0 == k) == own
  {
    if ps != [] {
      var qs, p := ps[..|ps| - 1], ps[|ps| - 1];
      assert ps == qs + [p];
      SiftedExactly(qs, k, own);
    }
  }

  lemma {:induction false} SiftConcat(a: Params, b: Params, k: string, own: bool)
    ensures Sift(a + b, k, own) == Sift(a, k, own) + Sift(b, k, own)
  {
    if b == [] {
      assert a + b == a;
    } else {
      assert (a + b)[..|a + b| - 1] == a + b[..|b| - 1];
      SiftConcat(a, b[..|b| - 1], k, own);
    }
  }

  lemma {:induction false} SiftedKeys(ps: Params, k: string, own: bool, j: string)
    ensures Keyed(Sift(ps, k, own), j) == if (j == k) == own then Keyed(ps, j) else []
  {
    hide Sift;
    if ps == [] {
      NothingIsSifted(k);
      NothingIsSifted(j);
    } else {
      var qs, p := ps[..|ps| - 1], ps[|ps| - 1];
      assert ps == qs + [p];
      SiftedKeys(qs, k, own, j);
      SiftNext(qs, p, k, own);
      SiftNext(qs, p, j, true);
      SiftNext(Sift(qs, k, own), p, j, true);
    }
  }

  lemma SiftedIsRearrangement(ps: Params, k: string, own: bool)
    ensures IsRearrangement(ps, Sift(ps, k, own) + Sift(ps, k, !own))
  {
    hide Sift;
    SiftedParts(ps, k);
    forall j ensures Keyed(ps, j) == Keyed(Sift(ps, k, own) + Sift(ps, k, !own), j) {
      SiftConcat(Sift(ps, k, own), Sift(ps, k, !own), j, true);
      SiftedKeys(ps, k, own, j);
      SiftedKeys(ps, k, !own, j);
    }
  }

  lemma EmptyKeyFirst(ps: Params)
    requires IsTorn(ps)
    ensures InOrder(Sift(ps, "", true) + Sift(ps, "", false))
  {
    hide Op, KindOf, Count, Sift;
    var us, ns := Sift(ps, "", true), Sift(ps, "", false);
    SiftedExactly(ps, "", false);
    SiftedExactly(ps, "", true);
    SiftedCount(ps, Starts, true);
    SiftedCount(ps, Recurses, true);
    SiftedCount(ps, Vias, true);
    InAnyOrder(ns);
    forall i, j | 0 <= i < j < |us + ns| ensures !Repeats((us + ns)[i], (us + ns)[j]) {
      if i < |us| {
        assert us[i] in us;
      } else {
        assert !Repeats(ns[i - |us|], ns[j - |us|]);
      }
    }
  }

  lemma EmptyKeyLast(ps: Params, kind: Kind)
    requires kind != Neutral && kind != Wrong && Clashes(ps, kind)
    ensures !InOrder(Sift(ps, "", false) + Sift(ps, "", true))
  {
    hide Op, KindOf, Count, Sift;
    var us, ns := Sift(ps, "", true), Sift(ps, "", false);
    SiftedExactly(ps, "", false);
    SiftedExactly(ps, "", true);
    CountsIn(ps, kind, true);
    CountsIn(ps, kind, false);
    var p :| p in ps && IsOf(p, kind, true);
    var q :| q in ps && IsOf(q, kind, false);
    var i :| 0 <= i < |ns| && ns[i] == p;
    var j :| 0 <= j < |us| && us[j] == q;
    assert Repeats((ns + us)[i], (ns + us)[|ns| + j]);
  }

  lemma {:induction false} SiftedIsWalk(ps: Params, k: string, own: bool)
    requires IsWalk(ps)
    ensures IsWalk(Sift(ps, k, own))
  {
    if ps != [] {
      var qs, p := ps[..|ps| - 1], ps[|ps| - 1];
      var sifted := Sift(qs, k, own);
      assert ps == qs + [p];
      SiftedIsWalk(qs, k, own);
      SiftedExactly(qs, k, own);
      SiftNext(qs, p, k, own);
      if (p.0 == k) == own {
        assert (sifted + [p])[..|sifted|] == sifted;
        if HasKey(sifted, p.0) {
          LastIsSifted(qs, k, own);
        }
      }
    }
  }

  lemma LastIsSifted(qs: Params, k: string, own: bool)
    requires qs != [] && (qs[|qs| - 1].0 == k) == own
    ensures var r := Sift(qs, k, own); r != [] && r[|r| - 1] == qs[|qs| - 1]
  {
  }

  lemma {:induction false} WalksOneAfterTheOther(a: Params, b: Params)
    requires IsWalk(a) && IsWalk(b) && forall p, q :: p in a && q in b ==> p.0 != q.0
    ensures IsWalk(a + b)
  {
    if b == [] {
      assert a + b == a;
    } else {
      hide IsWalk;
      var n := |b| - 1;
      assert b[n] in b && b == b[..n] + [b[n]] && a + b == a + b[..n] + [b[n]];
      NextInWalkExactly(b[..n], b[n]);
      WalksOneAfterTheOther(a, b[..n]);
      NextInWalkExactly(a + b[..n], b[n]);
    }
  }

  lemma NextInWalkExactly(ps: Params, p: Param)
    ensures IsWalk(ps + [p]) <==> IsWalk(ps) && (HasKey(ps, p.0) ==> ps[|ps| - 1].0 == p.0)
  {
    assert (ps + [p])[..|ps|] == ps;
  }

  lemma SiftedPartsAreWalk(ps: Params, k: string, own: bool)
    requires IsWalk(ps)
    ensures IsWalk(Sift(ps, k, own) + Sift(ps, k, !own))
  {
    SiftedIsWalk(ps, k, own);
    SiftedIsWalk(ps, k, !own);
    SiftedExactly(ps, k, own);
    SiftedExactly(ps, k, !own);
    WalksOneAfterTheOther(Sift(ps, k, own), Sift(ps, k, !own));
  }

  // Whether it panics or fails depends on which keys come first.

  lemma Keyless(ps: Params, k: string)
    requires !HasKey(ps, k)
    ensures Keyed(ps, k) == [] && Sift(ps, k, false) == ps
    decreases |ps|
  {
    if ps != [] {
      var qs, p := ps[..|ps| - 1], ps[|ps| - 1];
      assert ps == qs + [p] && p in ps;
      assert forall q :: q in qs ==> q in ps;
      Keyless(qs, k);
    }
  }

  /** Of parameters that are read without an error those of one key are, too. */
  lemma KeyedIsInOrder(ps: Params, k: string)
    requires InOrder(ps)
    ensures InOrder(Keyed(ps, k))
    decreases |ps|
  {
    hide Op, InOrder, Repeats;
    if ps == [] {
      NothingIsSifted(k);
    } else {
      var qs, p := ps[..|ps| - 1], ps[|ps| - 1];
      assert ps == qs + [p];
      NextIsInOrderExactly(qs, p);
      KeyedIsInOrder(qs, k);
      SiftNext(qs, p, k, true);
      SiftedExactly(qs, k, true);
      NextIsInOrderExactly(Keyed(qs, k), p);
    }
  }

  lemma KeyedThenInOrder(a: Params, c: Params, j: string)
    requires InOrder(a + c)
    ensures InOrder(Keyed(a, j) + c)
    decreases |c|
  {
    hide Op, InOrder, Repeats, Sift;
    if c == [] {
      assert a + c == a && Keyed(a, j) + c == Keyed(a, j);
      KeyedIsInOrder(a, j);
    } else {
      var d, r := c[..|c| - 1], c[|c| - 1];
      assert a + c == a + d + [r] && Keyed(a, j) + c == Keyed(a, j) + d + [r];
      NextIsInOrderExactly(a + d, r);
      KeyedThenInOrder(a, d, j);
      SiftedExactly(a, j, true);
      NextIsInOrderExactly(Keyed(a, j) + d, r);
    }
  }

  /** With fewer parameters there is no more of a kind. */
  lemma FewerOf(a: Params, b: Params, kind: Kind, named: bool)
    requires (forall p :: p in a ==> p in b) && Count(b, kind, named) == 0
    ensures Count(a, kind, named) == 0
  {
    hide IsOf;
    CountsIn(a, kind, named);
    CountsIn(b, kind, named);
  }

  lemma FewerWrong(a: Params, b: Params)
    requires (forall p :: p in a ==> p in b) && NoneWrong(b)
    ensures NoneWrong(a)
  {
    FewerOf(a, b, Wrong, true);
    FewerOf(a, b, Wrong, false);
  }

  lemma StopsBefore(a: Params, b: Params)
    requires !Collect(a).Done?
    ensures Collect(a + b) == Collect(a)
  {
    assert (a + b)[..|a|] == a;
    StopsAt(a + b, |a|);
  }

  /** The values of j, and then those of k. */
  function KeysFirst(ps: Params, j: string, k: string): Params { if j == k then Keyed(ps, k) else Keyed(ps, j) + Keyed(ps, k) }

  predicate PanicsUnder(ps: Params, k: string) { exists n :: 0 <= n < |Keyed(ps, k)| && PanicsAt(Keyed(ps, k), n) }

  predicate FailsUnder(ps: Params, j: string, k: string) {
    exists n :: 0 <= n < |KeysFirst(ps, j, k)| && FailsAt(KeysFirst(ps, j, k), n)
  }

  /** The values of one key alone panic, and those of one or two keys alone fail. */
  ghost predicate IsPanicky(ps: Params) { (exists k :: PanicsUnder(ps, k)) && (exists j, k :: FailsUnder(ps, j, k)) }

  lemma UnderKeysExactly(ps: Params, j: string, k: string)
    ensures PanicsUnder(ps, k) <==> Collect(Keyed(ps, k)).Panicked?
    ensures FailsUnder(ps, j, k) <==> Collect(KeysFirst(ps, j, k)).Failed?
  {
    hide Collect, Sift, PanicsAt, FailsAt, Complete;
    PanicsExactly(Keyed(ps, k));
    CompletesOrFails(Keyed(ps, k));
    FailsExactly(KeysFirst(ps, j, k));
  }

  lemma KeyedSplit(ps: Params, n: nat, k: string)
    requires n < |ps|
    ensures Keyed(ps, k) == Keyed(ps[..n], k) + (if ps[n].0 == k then [ps[n]] else []) + Keyed(ps[n + 1..], k)
  {
    assert ps == ps[..n] + [ps[n]] + ps[n + 1..];
    SiftConcat(ps[..n] + [ps[n]], ps[n + 1..], k, true);
    SiftNext(ps[..n], ps[n], k, true);
  }

  lemma PanicIsUnderAKey(ps: Params)
    requires Collect(ps).Panicked?
    ensures exists k :: PanicsUnder(ps, k)
  {
    hide Op, Collect, Sift, Count, InOrder, LacksParenthesis, Complete;
    CompletesOrFails(ps);
    PanicsExactly(ps);
    var n :| 0 <= n < |ps| && PanicsAt(ps, n);
    var x, p, k := ps[..n], ps[n], ps[n].0;
    var c := Keyed(x, k);
    SiftedExactly(x, k, true);
    FewerWrong(c, x);
    FewerOf(c, x, Vias, true);
    KeyedIsInOrder(x, k);
    KeyedSplit(ps, n, k);
    assert Keyed(ps, k)[..|c|] == c && Keyed(ps, k)[|c|] == p;
    assert PanicsAt(Keyed(ps, k), |c|);
    assert PanicsUnder(ps, k);
  }

  /** What comes before a parameter in a walk: the other keys, and then its own. */
  lemma OwnKeyLast(x: Params, p: Param)
    requires IsWalk(x + [p])
    ensures x == Sift(x, p.0, false) + Keyed(x, p.0)
    decreases |x|
  {
    assert (x + [p])[..|x|] == x;
    if x == [] {
    } else if x[|x| - 1].0 == p.0 {
      var y, r := x[..|x| - 1], x[|x| - 1];
      assert x == y + [r];
      OwnKeyLast(y, r);
      SiftNext(y, r, p.0, true);
      SiftNext(y, r, p.0, false);
    } else {
      Keyless(x, p.0);
    }
  }

  /** A key that has been left does not come again. */
  lemma KeyIsPast(x: Params, p: Param, rest: Params, j: string)
    requires IsWalk(x + [p] + rest) && HasKey(x, j) && p.0 != j
    ensures !HasKey(rest, j)
    decreases |rest|
  {
    if rest != [] {
      var y, r := rest[..|rest| - 1], rest[|rest| - 1];
      var all := x + [p] + y;
      assert (x + [p] + rest)[..|all|] == all && x + [p] + rest == all + [r];
      KeyIsPast(x, p, y, j);
      assert all[|all| - 1] == if y == [] then p else y[|y| - 1];
      assert forall q :: q in x ==> q in all;
      assert forall q :: q in rest ==> q in y || q == r;
    }
  }

  /** What a parameter conflicts with is among its own key or one other. */
  lemma ConflictIsUnderAKey(ps: Params, p: Param) returns (j: string)
    requires Conflicts(ps, p)
    ensures j == p.0 || HasKey(ps, j)
    ensures Conflicts(KeysFirst(ps, j, p.0), p)
  {
    hide Op, Sift, Count, LacksParenthesis;
    j := p.0;
    if Conflict(p) != Wrong {
      CountsIn(ps, Conflict(p), true);
      var q :| q in ps && IsOf(q, Conflict(p), true);
      j := q.0;
      SiftedExactly(ps, j, true);
      assert q in Keyed(ps, j);
      CountsIn(KeysFirst(ps, j, p.0), Conflict(p), true);
    }
  }

  lemma KeysFirstAreRead(x: Params, p: Param, j: string)
    requires IsWalk(x + [p]) && NoneWrong(x) && InOrder(x)
    ensures NoneWrong(KeysFirst(x, j, p.0)) && InOrder(KeysFirst(x, j, p.0))
  {
    hide Op, Sift, Count, InOrder;
    var k := p.0;
    var a, c := Sift(x, k, false), Keyed(x, k);
    SiftedExactly(x, j, true);
    SiftedExactly(x, k, true);
    FewerWrong(KeysFirst(x, j, k), x);
    OwnKeyLast(x, p);
    KeyedIsInOrder(x, k);
    KeyedThenInOrder(a, c, j);
    SiftedKeys(x, k, false, j);
  }

  /** The two keys come in a walk as they come alone, up to any of its parameters. */
  lemma KeysBegin(ps: Params, n: nat, j: string)
    requires n < |ps| && IsWalk(ps) && (j == ps[n].0 || HasKey(ps[..n], j))
    ensures KeysFirst(ps[..n], j, ps[n].0) + [ps[n]] <= KeysFirst(ps, j, ps[n].0)
  {
    hide Sift, IsWalk;
    var x, p, rest := ps[..n], ps[n], ps[n + 1..];
    KeyedSplit(ps, n, p.0);
    if j != p.0 {
      assert ps == x + [p] + rest;
      KeyIsPast(x, p, rest, j);
      Keyless(rest, j);
      KeyedSplit(ps, n, j);
      Regroup(Keyed(x, j), Keyed(x, p.0), [p]);
      Regroup(Keyed(x, j), Keyed(x, p.0) + [p], Keyed(rest, p.0));
    }
  }

  lemma FailureIsUnderTwoKeys(ps: Params)
    requires IsWalk(ps) && Collect(ps).Failed?
    ensures exists j, k :: FailsUnder(ps, j, k)
  {
    hide Op, Collect, Sift, Count, InOrder, Conflicts, KeysFirst, IsWalk;
    FailsExactly(ps);
    var n :| 0 <= n < |ps| && FailsAt(ps, n);
    var x, p := ps[..n], ps[n];
    assert ps == x + [p] + ps[n + 1..];
    WalkBegins(x + [p], ps[n + 1..]);
    var j := ConflictIsUnderAKey(x, p);
    KeysFirstAreRead(x, p, j);
    KeysBegin(ps, n, j);
    FailsInFront(ps, KeysFirst(x, j, p.0), p, j, p.0);
  }

  lemma FailsInFront(ps: Params, first: Params, p: Param, j: string, k: string)
    requires NoneWrong(first) && InOrder(first) && Conflicts(first, p) && first + [p] <= KeysFirst(ps, j, k)
    ensures FailsUnder(ps, j, k)
  {
    hide Count, InOrder, Conflicts, KeysFirst;
    var all, n := KeysFirst(ps, j, k), |first|;
    assert all[..n] == (first + [p])[..n] == first && all[n] == (first + [p])[n] == p;
    assert FailsAt(all, n);
  }

  lemma WalkBegins(a: Params, b: Params)
    requires IsWalk(a + b)
    ensures IsWalk(a)
    decreases |b|
  {
    if b == [] {
      assert a + b == a;
    } else {
      assert (a + b)[..|a + b| - 1] == a + b[..|b| - 1];
      WalkBegins(a, b[..|b| - 1]);
    }
  }

  /** The walk that takes k first. */
  function Front(ps: Params, k: string): Params { Sift(ps, k, true) + Sift(ps, k, false) }

  lemma FrontIsWalk(ps: Params, k: string)
    requires IsWalk(ps)
    ensures IsWalk(Front(ps, k)) && IsRearrangement(ps, Front(ps, k))
  {
    hide Sift;
    SiftedPartsAreWalk(ps, k, true);
    SiftedIsRearrangement(ps, k, true);
  }

  lemma TwoKeysInFront(ps: Params, j: string, k: string)
    requires j != k
    ensures Front(Front(ps, k), j) == Keyed(ps, j) + Keyed(ps, k) + Sift(Sift(ps, k, false), j, false)
  {
    hide Sift;
    SiftedIsRearrangement(ps, k, true);
    SiftConcat(Keyed(ps, k), Sift(ps, k, false), j, false);
    SiftedExactly(ps, k, true);
    Keyless(Keyed(ps, k), j);
  }

  lemma SomeWalkPanics(ps: Params, k: string) returns (qs: Params)
    requires IsWalk(ps) && PanicsUnder(ps, k)
    ensures IsWalk(qs) && IsRearrangement(ps, qs) && ParseRecursion(qs).Panicked?
  {
    hide Collect, Sift, PanicsUnder, FailsUnder, IsWalk, IsRearrangement;
    qs := Front(ps, k);
    FrontIsWalk(ps, k);
    UnderKeysExactly(ps, k, k);
    StopsBefore(Keyed(ps, k), Sift(ps, k, false));
  }

  lemma SomeWalkFails(ps: Params, j: string, k: string) returns (qs: Params)
    requires IsWalk(ps) && FailsUnder(ps, j, k)
    ensures IsWalk(qs) && IsRearrangement(ps, qs) && ParseRecursion(qs).Failed?
  {
    hide Collect, Sift, PanicsUnder, FailsUnder, IsWalk;
    qs := Front(ps, k);
    FrontIsWalk(ps, k);
    UnderKeysExactly(ps, j, k);
    if j == k {
      StopsBefore(Keyed(ps, k), Sift(ps, k, false));
    } else {
      FrontIsWalk(qs, j);
      qs := Front(qs, j);
      TwoKeysInFront(ps, j, k);
      StopsBefore(Keyed(ps, j) + Keyed(ps, k), Sift(Sift(ps, k, false), j, false));
    }
  }

  lemma SameUnderKeys(ps: Params, qs: Params)
    requires IsRearrangement(ps, qs)
    ensures IsPanicky(ps) <==> IsPanicky(qs)
    ensures (exists k :: PanicsUnder(ps, k)) <==> (exists k :: PanicsUnder(qs, k))
  {
    hide Sift, PanicsAt, FailsAt;
    assert forall k :: PanicsUnder(ps, k) <==> PanicsUnder(qs, k);
    assert forall j, k :: KeysFirst(ps, j, k) == KeysFirst(qs, j, k);
    assert forall j, k :: FailsUnder(ps, j, k) <==> FailsUnder(qs, j, k);
  }

  /** Where one walk panics and nothing can fail, no walk does anything else. */
  lemma PanicsToo(ps: Params, qs: Params)
    requires IsWalk(qs) && IsRearrangement(ps, qs) && !IsPanicky(ps) && ParseRecursion(ps).Panicked?
    ensures ParseRecursion(qs).Panicked?
  {
    hide Collect, Complete, Count, InOrder, PanicsUnder, FailsUnder, IsWalk, IsRearrangement;
    CompletesOrFails(ps);
    PanicIsUnderAKey(ps);
    SameUnderKeys(ps, qs);
    if Collect(qs).Failed? {
      FailureIsUnderTwoKeys(qs);
    }
    PanicIsWrong(ps);
    CollectDescribes(qs);
    SameWrong(ps, qs);
  }

  lemma PanicIsWrong(ps: Params)
    requires Collect(ps).Panicked?
    ensures !NoneWrong(ps)
  {
    hide Op, Collect, Count, InOrder, LacksParenthesis, Complete;
    CompletesOrFails(ps);
    PanicsExactly(ps);
    var n :| 0 <= n < |ps| && PanicsAt(ps, n);
    NoParenthesisExactly(ps[n]);
    assert ps[n] in ps;
    CountsIn(ps, Wrong, true);
    CountsIn(ps, Wrong, false);
  }

  lemma SameWrong(ps: Params, qs: Params)
    requires IsRearrangement(ps, qs)
    ensures NoneWrong(ps) <==> NoneWrong(qs)
  {
    hide Count;
    SameParameters(ps, qs);
  }

  /** Neither torn nor panicky: every walk is read as any other. */
  lemma WalksAreReadAlike(ps: Params, qs: Params)
    requires IsWalk(ps) && IsWalk(qs) && IsRearrangement(ps, qs) && !IsTorn(ps) && !IsPanicky(ps)
    ensures ReadAlike(ps, qs)
  {
    hide ParseRecursion, IsTorn, IsPanicky, IsWalk;
    UntornIsOrderFree(ps, qs);
    if ParseRecursion(ps).Panicked? {
      PanicsToo(ps, qs);
    }
    if ParseRecursion(qs).Panicked? {
      SameUnderKeys(ps, qs);
      PanicsToo(qs, ps);
    }
  }

  /** Main result: every walk over the map has the same outcome if and only if the parameters are
      neither torn (acceptable but for an operator under the empty key beside one of its kind under a
      key) nor panicky. Torn ones are accepted with the empty key first and refused with it last;
      panicky ones fail in one walk and panic in another. */
  lemma OrderMattersExactly(ps: Params)
    requires IsWalk(ps)
    ensures IsOrderFree(ps) <==> !IsTorn(ps) && !IsPanicky(ps)
    ensures IsTorn(ps) ==> ParseRecursion(Sift(ps, "", true) + Sift(ps, "", false)).Done?
    ensures IsTorn(ps) ==> !ParseRecursion(Sift(ps, "", false) + Sift(ps, "", true)).Done?
  {
    hide ParseRecursion, IsTorn, IsPanicky, Sift, IsWalk, IsRearrangement;
    if IsTorn(ps) {
      TornBothWays(ps);
      SiftedIsRearrangement(ps, "", true);
      SiftedIsRearrangement(ps, "", false);
      SiftedPartsAreWalk(ps, "", true);
      SiftedPartsAreWalk(ps, "", false);
      assert !ReadAlike(ps, Sift(ps, "", true) + Sift(ps, "", false)) || !ReadAlike(ps, Sift(ps, "", false) + Sift(ps, "", true));
    } else if IsPanicky(ps) {
      var x, y := PanickyBothWays(ps);
      assert !ReadAlike(ps, x) || !ReadAlike(ps, y);
    } else {
      forall qs | IsWalk(qs) && IsRearrangement(ps, qs) ensures ReadAlike(ps, qs) {
        WalksAreReadAlike(ps, qs);
      }
    }
  }

  lemma PanickyBothWays(ps: Params) returns (x: Params, y: Params)
    requires IsWalk(ps) && IsPanicky(ps)
    ensures IsWalk(x) && IsRearrangement(ps, x) && ParseRecursion(x).Panicked?
    ensures IsWalk(y) && IsRearrangement(ps, y) && ParseRecursion(y).Failed?
  {
    hide ParseRecursion, PanicsUnder, FailsUnder, IsWalk, IsRearrangement;
    var k :| PanicsUnder(ps, k);
    x := SomeWalkPanics(ps, k);
    var i, j :| FailsUnder(ps, i, j);
    y := SomeWalkFails(ps, i, j);
  }

  /** The smallest panicky parameters: a malformed operator, and a via hint without a parenthesis. */
  lemma HintMeetsError(a: Param, b: Param)
    requires KindOf(Op(a)) == Wrong && !LacksParenthesis(a.1) && LacksParenthesis(b.1)
    ensures ParseRecursion([a, b]).Failed? && ParseRecursion([b, a]).Panicked?
  {
    hide Op, LacksParenthesis;
    NothingDescribesNothing();
    assert [a, b][..0] == [] && [b, a][..0] == [];
    assert FailsAt([a, b], 0);
    FailsExactly([a, b]);
    assert PanicsAt([b, a], 0);
    PanicsExactly([b, a]);
  }

  lemma TornBothWays(ps: Params)
    requires IsTorn(ps)
    ensures ParseRecursion(Sift(ps, "", true) + Sift(ps, "", false)).Done?
    ensures !ParseRecursion(Sift(ps, "", false) + Sift(ps, "", true)).Done?
  {
    hide ParseRecursion, Count, InOrder, Sift;
    var first, last := Sift(ps, "", true) + Sift(ps, "", false), Sift(ps, "", false) + Sift(ps, "", true);
    SiftedParts(ps, "");
    SameParameters(ps, first);
    EmptyKeyFirst(ps);
    AcceptedExactly(first);
    EmptyKeyLast(ps, if Clashes(ps, Starts) then Starts else if Clashes(ps, Recurses) then Recurses else Vias);
    AcceptedExactly(last);
  }

  /** The smallest torn parameters: read in one order and refused in another. */
  lemma EmptyKeysNeedAnOrder()
    ensures var a, b, c := ("", "start." + "5"), ("id", "start." + "6"), ("id", "recurse");
      ParseRecursion([a, b, c]).Done? && ParseRecursion([b, a, c]).Failed?
  {
    var a, b, c := ("", "start." + "5"), ("id", "start." + "6"), ("id", "recurse");
    hide ReadOperator;
    StartIsRead("", "5");
    StartIsRead("id", "6");
    RecurseIsRead("id");
    CollectThree(a, b, c);
    CollectThree(b, a, c);
  }

  lemma {:induction false} IndexAt(s: string, i: nat, c: char)
    requires i < |s| && s[i] == c && c !in s[..i]
    ensures IndexOf(s, c) == i
  {
    if i > 0 {
      assert s[..i][0] == s[0] && s[1..][..i - 1] == s[..i][1..];
      IndexAt(s[1..], i - 1, c);
    }
  }

  lemma StartIsRead(k: string, x: string)
    ensures ReadOperator(k, "start." + x) == StartAt(k, x, false)
  {
    var v := "start." + x;
    assert v[..5] == "start" && v[6..] == x;
    IndexAt(v, 5, '.');
    assert "start"[2..] == "art" && "start"[2..][0] == 'a';
  }

  lemma RecurseIsRead(k: string)
    ensures ReadOperator(k, "recurse") == RecurseBy(k, false, NotGiven)
  {
    assert IndexOf("recurse", '.') == 7;
  }

  lemma CollectThree(a: Param, b: Param, c: Param)
    ensures var x := Step(None, Op(a));
      Collect([a, b, c]) == if !x.Done? then x else
        var y := Step(x.value, Op(b)); if !y.Done? then y else Step(y.value, Op(c))
  {
    hide ReadOperator, Step;
    assert [a][..0] == [] && Collect([a]) == Step(None, Op(a));
    assert [a, b][..1] == [a] && Collect([a, b]) == if !Collect([a]).Done? then Collect([a]) else Step(Collect([a]).value, Op(b));
    assert [a, b, c][..2] == [a, b];
  }
}
