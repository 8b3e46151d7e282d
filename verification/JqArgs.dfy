/** The arguments of a jq program (jqeval/jqeval.go, normalizeArgs). The arguments come in a map
    without an order; the names handed to the compiler, and so the cache key, must not depend on
    the order in which the map is walked. */
module JqArgs {
  import opened ByteOrder
  import opened JqKeys

  /** The name of a variable begins with a dollar sign, once. */
  function NameOf(k: string): (n: string)
    ensures n != "" && n[0] == '$'
  {
    if k != "" && k[0] == '$' then k else "$" + k
  }

  // ----- sort.Strings -----

  method SortStrings(a: seq<string>) returns (b: seq<string>)
    ensures IsSorted(b) && multiset(b) == multiset(a)
  {
    b := [];
    for i := 0 to |a|
      invariant IsSorted(b) && multiset(b) == multiset(a[..i])
    {
      assert a[..i + 1] == a[..i] + [a[i]];
      b := Place(b, a[i]);
    }
    assert a[..|a|] == a;
  }

  method Place(q: seq<string>, x: string) returns (r: seq<string>)
    requires IsSorted(q)
    ensures IsSorted(r) && multiset(r) == multiset(q) + multiset{x}
  {
    var i := |q|;
    while i > 0 && !LexLe(q[i - 1], x)
      invariant 0 <= i <= |q| && forall j :: i <= j < |q| ==> !LexLe(q[j], x)
    {
      i := i - 1;
    }
    r := q[..i] + [x] + q[i..];
    assert q == q[..i] + q[i..];
    PlacedIsSorted(q, i, x);
  }

  lemma PlacedIsSorted(q: seq<string>, i: nat, x: string)
    requires IsSorted(q) && i <= |q| && (i > 0 ==> LexLe(q[i - 1], x))
    requires forall j :: i <= j < |q| ==> !LexLe(q[j], x)
    ensures IsSorted(q[..i] + [x] + q[i..])
  {
    forall j | 0 <= j < i ensures LexLe(q[j], x) {
      if j < i - 1 {
        LexTransitive(q[j], q[i - 1], x);
      }
    }
    forall j | i <= j < |q| ensures LexLe(x, q[j]) {
      LexTotal(x, q[j]);
    }
  }

  // ----- normalizeArgs -----

  /** The keys that stand for the variable n. */
  function KeysFor<V>(args: map<string, V>, done: set<string>, n: string): set<string> {
    set k | k in done && k in args && NameOf(k) == n
  }

  /** vars has every name as often as keys stand for it; norm has each name with the value of one. */
  ghost predicate Normalized<V>(args: map<string, V>, done: set<string>, norm: map<string, V>, vars: seq<string>) {
    && (forall n :: n in norm <==> exists k :: k in done && k in args && NameOf(k) == n)
    && (forall n :: n in norm ==> exists k :: k in done && k in args && NameOf(k) == n && norm[n] == args[k])
    && (forall n :: multiset(vars)[n] == |KeysFor(args, done, n)|)
  }

  method NormalizeArgs<V>(args: map<string, V>) returns (norm: map<string, V>, vars: seq<string>)
    ensures IsSorted(vars) && Normalized(args, args.Keys, norm, vars)
  {
    norm, vars := map[], [];
    var pending := args.Keys;
    while pending != {}
      invariant pending <= args.Keys && Normalized(args, args.Keys - pending, norm, vars)
      decreases pending
    {
      var k :| k in pending;
      var name := NameOf(k);
      OneMore(args, args.Keys - pending, norm, vars, k);
      norm := norm[name := args[k]];
      vars := vars + [name];
      assert args.Keys - (pending - {k}) == args.Keys - pending + {k};
      pending := pending - {k};
    }
    assert args.Keys - {} == args.Keys;
    vars := SortStrings(vars);
  }

  lemma OneMore<V>(args: map<string, V>, done: set<string>, norm: map<string, V>, vars: seq<string>, k: string)
    requires Normalized(args, done, norm, vars) && k in args && k !in done
    ensures Normalized(args, done + {k}, norm[NameOf(k) := args[k]], vars + [NameOf(k)])
  {
    hide KeysFor;
    var norm', name := norm[NameOf(k) := args[k]], NameOf(k);
    forall n ensures multiset(vars + [name])[n] == |KeysFor(args, done + {k}, n)| {
      OneMoreKey(args, done, k, n);
    }
    forall n ensures n in norm' <==> exists d :: d in done + {k} && d in args && NameOf(d) == n {
      assert n == name ==> k in done + {k} && NameOf(k) == n;
    }
    forall n | n in norm' ensures exists d :: d in done + {k} && d in args && NameOf(d) == n && norm'[n] == args[d] {
      if n != name {
        var d :| d in done && d in args && NameOf(d) == n && norm[n] == args[d];
        assert d in done + {k};
      }
    }
  }

  lemma OneMoreKey<V>(args: map<string, V>, done: set<string>, k: string, n: string)
    requires k in args && k !in done
    ensures |KeysFor(args, done + {k}, n)| == |KeysFor(args, done, n)| + if NameOf(k) == n then 1 else 0
  {
    assert KeysFor(args, done + {k}, n) == KeysFor(args, done, n) + if NameOf(k) == n then {k} else {};
  }

  /** Main result: the variable $x has its value from the key x or the key $x, and is named once for
      each of them; a key that begins with $$ keeps its name. */
  lemma NamesExactly<V>(args: map<string, V>, norm: map<string, V>, vars: seq<string>, x: string)
    requires Normalized(args, args.Keys, norm, vars)
    ensures var n := "$" + x; var bare := x in args && (x == "" || x[0] != '$');
      && (n in norm <==> bare || n in args)
      && (n in norm ==> (bare && norm[n] == args[x]) || (n in args && norm[n] == args[n]))
      && multiset(vars)[n] == (if bare then 1 else 0) + (if n in args then 1 else 0)
    ensures forall n :: n in norm ==> n != "" && n[0] == '$'
  {
    hide NameOf, KeysFor;
    NamedByExactly(x);
    KeysOfName(args, x);
    forall n | n in norm ensures n != "" && n[0] == '$' {
      var k :| k in args && NameOf(k) == n;
      DollarInFront(k);
    }
  }

  lemma DollarInFront(k: string)
    ensures NameOf(k) != "" && NameOf(k)[0] == '$'
  {
  }

  lemma KeysOfName<V>(args: map<string, V>, x: string)
    ensures var n := "$" + x; var bare := x in args && (x == "" || x[0] != '$');
      |KeysFor(args, args.Keys, n)| == (if bare then 1 else 0) + (if n in args then 1 else 0)
  {
    hide NameOf;
    NamedByExactly(x);
    var n := "$" + x;
    var bare := x in args && (x == "" || x[0] != '$');
    var ks := KeysFor(args, args.Keys, n);
    assert |n| == |x| + 1;
    forall k ensures k in ks <==> (k == x && bare) || (k == n && n in args) {
    }
    if bare {
      assert ks == if n in args then {x, n} else {x};
    } else {
      assert ks == if n in args then {n} else {};
    }
  }

  lemma NamedByExactly(x: string)
    ensures forall k :: NameOf(k) == "$" + x <==> k == "$" + x || (k == x && (x == "" || x[0] != '$'))
  {
    forall k ensures NameOf(k) == "$" + x <==> k == "$" + x || (k == x && (x == "" || x[0] != '$')) {
      assert ("$" + k)[1..] == k && ("$" + x)[1..] == x;
    }
  }

  /** Main result: whichever way the map is walked, the names come out the same. */
  lemma NamesDoNotDependOnTheOrder<V>(args: map<string, V>, norm: map<string, V>, vars: seq<string>, norm': map<string, V>, vars': seq<string>)
    requires IsSorted(vars) && Normalized(args, args.Keys, norm, vars)
    requires IsSorted(vars') && Normalized(args, args.Keys, norm', vars')
    ensures vars == vars' && norm.Keys == norm'.Keys
  {
    forall n ensures multiset(vars)[n] == multiset(vars')[n] {
      assert multiset(vars)[n] == |KeysFor(args, args.Keys, n)|;
    }
    assert multiset(vars) == multiset(vars');
    SortedIsUnique(vars, vars');
  }

  /** A walk of the map in which k comes last. */
  lemma WalkTo<V>(args: map<string, V>, k: string) returns (norm: map<string, V>, vars: seq<string>)
    requires k in args
    ensures Normalized(args, args.Keys, norm, vars) && NameOf(k) in norm && norm[NameOf(k)] == args[k]
  {
    norm, vars := map[], [];
    var pending := args.Keys - {k};
    while pending != {}
      invariant pending <= args.Keys - {k} && Normalized(args, args.Keys - {k} - pending, norm, vars)
      decreases pending
    {
      var d :| d in pending;
      OneMore(args, args.Keys - {k} - pending, norm, vars, d);
      norm, vars := norm[NameOf(d) := args[d]], vars + [NameOf(d)];
      assert args.Keys - {k} - (pending - {d}) == args.Keys - {k} - pending + {d};
      pending := pending - {d};
    }
    assert args.Keys - {k} - {} == args.Keys - {k};
    OneMore(args, args.Keys - {k}, norm, vars, k);
    assert args.Keys - {k} + {k} == args.Keys;
    norm, vars := norm[NameOf(k) := args[k]], vars + [NameOf(k)];
  }

  /** Whichever way the map is walked, the values come out the same. */
  ghost predicate ValuesAreDetermined<V(!new)>(args: map<string, V>) {
    forall norm, vars, norm', vars' ::
      Normalized(args, args.Keys, norm, vars) && Normalized(args, args.Keys, norm', vars') ==> norm == norm'
  }

  /** The keys x and $x, if both are there, have one value. */
  ghost predicate NamesAgree<V>(args: map<string, V>) {
    forall k, l :: k in args && l in args && NameOf(k) == NameOf(l) ==> args[k] == args[l]
  }

  /** A finding, exactly: the values of the variables depend on the order of the map if and only if
      two keys have one name and different values. */
  lemma ValuesAreDeterminedExactly<V(!new)>(args: map<string, V>)
    ensures ValuesAreDetermined(args) <==> NamesAgree(args)
  {
    hide Normalized;
    if NamesAgree(args) {
      forall norm, vars, norm', vars' |
        Normalized(args, args.Keys, norm, vars) && Normalized(args, args.Keys, norm', vars')
        ensures norm == norm'
      {
        AgreeingValues(args, norm, vars, norm', vars');
      }
    } else {
      var k, l :| k in args && l in args && NameOf(k) == NameOf(l) && args[k] != args[l];
      var norm, vars := WalkTo(args, k);
      var norm', vars' := WalkTo(args, l);
      assert norm != norm';
    }
  }

  lemma AgreeingValues<V>(args: map<string, V>, norm: map<string, V>, vars: seq<string>, norm': map<string, V>, vars': seq<string>)
    requires NamesAgree(args) && Normalized(args, args.Keys, norm, vars) && Normalized(args, args.Keys, norm', vars')
    ensures norm == norm'
  {
    hide KeysFor;
    forall n ensures n in norm <==> n in norm' {
    }
    forall n | n in norm ensures norm[n] == norm'[n] {
      var k :| k in args && NameOf(k) == n && norm[n] == args[k];
      var l :| l in args && NameOf(l) == n && norm'[n] == args[l];
    }
  }

  /** The names are as the compiler demands them: sorted, with a dollar sign. */
  lemma NamesAreNormal<V>(args: map<string, V>, norm: map<string, V>, vars: seq<string>)
    requires IsSorted(vars) && Normalized(args, args.Keys, norm, vars)
    ensures IsNormal(vars)
  {
    forall i | 0 <= i < |vars| ensures IsDollar(vars[i]) {
      assert vars[i] in multiset(vars);
      assert |KeysFor(args, args.Keys, vars[i])| > 0;
      var k :| k in KeysFor(args, args.Keys, vars[i]);
    }
  }

  /** Argument names without commas make ordinary requests. */
  lemma NamesAreOrdinary<V>(args: map<string, V>, norm: map<string, V>, vars: seq<string>, program: string)
    requires Normalized(args, args.Keys, norm, vars) && NUL !in program && forall k :: k in args ==> ',' !in k
    ensures IsOrdinary(program, vars)
  {
    forall i | 0 <= i < |vars| ensures IsName(vars[i]) {
      assert vars[i] in multiset(vars);
      assert |KeysFor(args, args.Keys, vars[i])| > 0;
      var k :| k in KeysFor(args, args.Keys, vars[i]);
    }
  }
}
