/** The order in which Go sorts strings: byte by byte. */
module ByteOrder {
  import opened Sequences

  predicate LexLe(a: string, b: string) {
    a == "" || (b != "" && (a[0] < b[0] || (a[0] == b[0] && LexLe(a[1..], b[1..]))))
  }

  /** The first n bytes agree. */
  predicate Agree(a: string, b: string, n: nat) { n <= |a| && n <= |b| && a[..n] == b[..n] }

  /** A string stands before those it begins, and where two differ the smaller byte decides. */
  lemma {:induction false} LexLeExactly(a: string, b: string, n: nat)
    requires Agree(a, b, n) && (n < |a| && n < |b| ==> a[n] != b[n])
    ensures LexLe(a, b) <==> n == |a| || (n < |b| && a[n] < b[n])
  {
    if n > 0 {
      assert a[0] == a[..n][0] && b[0] == b[..n][0];
      assert a[1..][..n - 1] == a[..n][1..] && b[1..][..n - 1] == b[..n][1..];
      LexLeExactly(a[1..], b[1..], n - 1);
    }
  }

  ghost predicate IsSorted(q: seq<string>) { forall i, j :: 0 <= i < j < |q| ==> LexLe(q[i], q[j]) }

  lemma {:induction false} LexTotal(a: string, b: string)
    ensures LexLe(a, b) || LexLe(b, a)
  {
    if a != "" && b != "" {
      LexTotal(a[1..], b[1..]);
    }
  }

  lemma {:induction false} LexAntisymmetric(a: string, b: string)
    requires LexLe(a, b) && LexLe(b, a)
    ensures a == b
  {
    if a != "" && b != "" {
      LexAntisymmetric(a[1..], b[1..]);
      assert a == [a[0]] + a[1..] && b == [b[0]] + b[1..];
    }
  }

  lemma {:induction false} LexTransitive(a: string, b: string, c: string)
    requires LexLe(a, b) && LexLe(b, c)
    ensures LexLe(a, c)
  {
    if a != "" && b != "" && c != "" && a[0] == b[0] == c[0] {
      LexTransitive(a[1..], b[1..], c[1..]);
    }
  }

  lemma {:induction false} LexPrefix(a: string, b: string)
    ensures LexLe(a, a + b)
  {
    if a != "" {
      assert (a + b)[1..] == a[1..] + b;
      LexPrefix(a[1..], b);
    }
  }

  lemma SmallestFirst(a: seq<string>, b: seq<string>)
    requires IsSorted(a) && IsSorted(b) && a != [] && b != [] && a[0] in b && b[0] in a
    ensures a[0] == b[0]
  {
    hide LexLe;
    var i :| 0 <= i < |b| && b[i] == a[0];
    var j :| 0 <= j < |a| && a[j] == b[0];
    if i > 0 && j > 0 {
      LexAntisymmetric(a[0], b[0]);
    }
  }

  lemma SortedTail(a: seq<string>)
    requires IsSorted(a) && a != []
    ensures IsSorted(a[1..])
  {
    hide LexLe;
  }

  /** A sorted sequence is determined by what is in it. */
  lemma {:induction false} SortedIsUnique(a: seq<string>, b: seq<string>)
    requires IsSorted(a) && IsSorted(b) && multiset(a) == multiset(b)
    ensures a == b
  {
    hide IsSorted;
    assert |multiset(a)| == |a| && |multiset(b)| == |b|;
    if a != [] {
      assert a[0] in multiset(b) && b[0] in multiset(a);
      SmallestFirst(a, b);
      SortedTail(a);
      SortedTail(b);
      RemovedFirst(a);
      RemovedFirst(b);
      SortedIsUnique(a[1..], b[1..]);
      assert a == [a[0]] + a[1..] && b == [b[0]] + b[1..];
    }
  }
}
