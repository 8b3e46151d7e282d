/** Walks in a directed graph given by an arbitrary edge relation. */
module Graph {

  ghost predicate IsWalk<V>(p: seq<V>, edge: (V, V) -> bool) {
    |p| > 0 && forall i :: 0 <= i < |p| - 1 ==> edge(p[i], p[i + 1])
  }

  function Last<V>(p: seq<V>): V
    requires |p| > 0
  {
    p[|p| - 1]
  }

  ghost predicate Joins<V>(p: seq<V>, s: V, v: V, edge: (V, V) -> bool) {
    IsWalk(p, edge) && p[0] == s && Last(p) == v
  }

  /** No vertex is visited twice. */
  ghost predicate Simple<V>(p: seq<V>) {
    forall i, j :: 0 <= i < j < |p| ==> p[i] != p[j]
  }

  /** v can be reached from s in at most n steps. */
  ghost predicate Within<V(!new)>(s: V, v: V, n: nat, edge: (V, V) -> bool) {
    exists p :: Joins(p, s, v, edge) && |p| <= n + 1
  }

  /** The breadth-first distance: some walk has this length and none is shorter. */
  ghost predicate IsDistance<V(!new)>(s: V, v: V, d: nat, edge: (V, V) -> bool) {
    && (exists p :: Joins(p, s, v, edge) && |p| == d + 1)
    && (forall p :: Joins(p, s, v, edge) ==> d + 1 <= |p|)
  }

  lemma WalkSnoc<V>(p: seq<V>, v: V, edge: (V, V) -> bool)
    requires p != []
    ensures IsWalk(p + [v], edge) <==> IsWalk(p, edge) && edge(Last(p), v)
  {
    var q := p + [v];
    if IsWalk(q, edge) {
      forall i | 0 <= i < |p| - 1 ensures edge(p[i], p[i + 1]) {
        assert edge(q[i], q[i + 1]);
      }
      assert edge(q[|p| - 1], q[|p| - 1 + 1]);
    }
    if IsWalk(p, edge) && edge(Last(p), v) {
      forall i | 0 <= i < |q| - 1 ensures edge(q[i], q[i + 1]) {
        if i < |p| - 1 {
          assert edge(p[i], p[i + 1]);
        }
      }
    }
  }

  lemma SimpleSnoc<V>(p: seq<V>, v: V)
    ensures Simple(p + [v]) <==> Simple(p) && v !in p
  {
    var q := p + [v];
    if Simple(q) {
      assert forall i, j :: 0 <= i < j < |p| ==> q[i] != q[j];
      assert forall i :: 0 <= i < |p| ==> q[i] != q[|p|];
    }
    assert forall i :: 0 <= i < |p| ==> p[i] in p && q[i] == p[i];
  }

  lemma CutLoop<V>(p: seq<V>, i: nat, j: nat, edge: (V, V) -> bool) returns (q: seq<V>)
    requires IsWalk(p, edge) && i < j < |p| && p[i] == p[j]
    ensures Joins(q, p[0], Last(p), edge) && |q| < |p|
  {
    q := p[..i] + p[j..];
    forall k | 0 <= k < |q| - 1 ensures edge(q[k], q[k + 1]) {
      if k == i - 1 {
        assert q[k] == p[k] && q[k + 1] == p[i];
        assert edge(p[k], p[k + 1]);
      } else if k < i - 1 {
        assert q[k] == p[k] && q[k + 1] == p[k + 1];
      } else {
        assert q[k] == p[k - i + j] && q[k + 1] == p[k - i + j + 1];
      }
    }
    assert q[0] == p[0];
  }

  /** Every walk contains a simple walk between the same ends. */
  lemma {:induction false} MakeSimple<V>(p: seq<V>, edge: (V, V) -> bool) returns (q: seq<V>)
    requires IsWalk(p, edge)
    ensures Joins(q, p[0], Last(p), edge) && Simple(q) && |q| <= |p|
    decreases |p|
  {
    if Simple(p) {
      q := p;
    } else {
      var i, j :| 0 <= i < j < |p| && p[i] == p[j];
      var shorter := CutLoop(p, i, j, edge);
      q := MakeSimple(shorter, edge);
    }
  }

  /** A simple walk is no longer than the number of vertices it can use. */
  lemma {:induction false} SimpleIsShort<V>(p: seq<V>, vs: set<V>)
    requires Simple(p) && forall i :: 0 <= i < |p| ==> p[i] in vs
    ensures |p| <= |vs|
  {
    if p != [] {
      var v := Last(p);
      SimpleIsShort(p[..|p| - 1], vs - {v});
      assert v in vs;
    }
  }

  function Reversed<V>(p: seq<V>): (r: seq<V>)
    ensures |r| == |p|
    ensures forall i :: 0 <= i < |p| ==> r[i] == p[|p| - 1 - i]
  {
    seq(|p|, i requires 0 <= i < |p| => p[|p| - 1 - i])
  }

  ghost predicate Converse<V(!new)>(edge: (V, V) -> bool, edge': (V, V) -> bool) {
    forall u, v :: edge(u, v) <==> edge'(v, u)
  }

  lemma ReverseWalk<V(!new)>(p: seq<V>, s: V, v: V, edge: (V, V) -> bool, edge': (V, V) -> bool)
    requires Joins(p, s, v, edge) && Converse(edge, edge')
    ensures Joins(Reversed(p), v, s, edge')
  {
    var r := Reversed(p);
    forall i | 0 <= i < |r| - 1 ensures edge'(r[i], r[i + 1]) {
      assert edge(p[|p| - 2 - i], p[|p| - 2 - i + 1]);
    }
  }

  /** Reachability within a bound is converse for converse relations. */
  lemma WithinConverse<V(!new)>(s: V, v: V, n: nat, edge: (V, V) -> bool, edge': (V, V) -> bool)
    requires Converse(edge, edge')
    ensures Within(s, v, n, edge) <==> Within(v, s, n, edge')
  {
    if Within(s, v, n, edge) {
      var p :| Joins(p, s, v, edge) && |p| <= n + 1;
      ReverseWalk(p, s, v, edge, edge');
    }
    if Within(v, s, n, edge') {
      var p :| Joins(p, v, s, edge') && |p| <= n + 1;
      ReverseWalk(p, v, s, edge', edge);
    }
  }

  /** The shortest walk that `Within` speaks of fixes a distance. */
  lemma DistanceExists<V(!new)>(s: V, v: V, n: nat, edge: (V, V) -> bool) returns (d: nat)
    requires Within(s, v, n, edge)
    ensures IsDistance(s, v, d, edge) && d <= n
  {
    var p :| Joins(p, s, v, edge) && |p| <= n + 1;
    while exists q :: Joins(q, s, v, edge) && |q| < |p|
      invariant Joins(p, s, v, edge) && |p| <= n + 1
      decreases |p|
    {
      var q :| Joins(q, s, v, edge) && |q| < |p|;
      p := q;
    }
    d := |p| - 1;
  }
}
