/** The keys of the cache of jq programs (jqeval/jqeval.go, compile): a program, a NUL and the names of
    the variables with commas between them. Which requests have a key to themselves. */
module JqKeys {
  import opened ByteOrder

  const NUL: char := 0 as char

  /** strings.Join(vars, ",") */
  function Join(vars: seq<string>): string {
    if vars == [] then "" else if |vars| == 1 then vars[0] else vars[0] + "," + Join(vars[1..])
  }

  function Key(program: string, vars: seq<string>): string { program + [NUL] + Join(vars) }

  /** What normalizeArgs hands to the compiler: names with a dollar sign, sorted. */
  ghost predicate IsNormal(vars: seq<string>) { IsSorted(vars) && forall i :: 0 <= i < |vars| ==> IsDollar(vars[i]) }

  predicate IsDollar(v: string) { v != "" && v[0] == '$' }

  // ----- A family of requests whose keys differ -----

  predicate IsName(v: string) { v != "" && v[0] == '$' && ',' !in v }

  /** Requests whose keys are their own. */
  predicate IsOrdinary(program: string, vars: seq<string>) { NUL !in program && forall i :: 0 <= i < |vars| ==> IsName(vars[i]) }

  /** Where two texts are cut by the same separator, which their heads do not contain. */
  lemma {:induction false} SplitOnce(a: string, x: string, b: string, y: string, c: char)
    requires c !in a && c !in b && a + [c] + x == b + [c] + y
    ensures a == b && x == y
  {
    var s, t := a + [c] + x, b + [c] + y;
    assert a != "" ==> s[0] == a[0] && s[1..] == a[1..] + [c] + x;
    assert b != "" ==> t[0] == b[0] && t[1..] == b[1..] + [c] + y;
    if a != "" && b != "" {
      SplitOnce(a[1..], x, b[1..], y, c);
      assert a == [a[0]] + a[1..] && b == [b[0]] + b[1..];
    } else {
      assert s[|a| + 1..] == x && t[|b| + 1..] == y;
    }
  }

  lemma CommaInJoin(vs: seq<string>)
    requires forall i :: 0 <= i < |vs| ==> IsName(vs[i])
    ensures (',' in Join(vs) <==> |vs| > 1) && (Join(vs) == "" <==> vs == [])
  {
    if |vs| > 1 {
      assert Join(vs)[|vs[0]|] == ',';
    }
  }

  lemma {:induction false} JoinIsInjective(vs: seq<string>, ws: seq<string>)
    requires (forall i :: 0 <= i < |vs| ==> IsName(vs[i])) && (forall i :: 0 <= i < |ws| ==> IsName(ws[i]))
    requires Join(vs) == Join(ws)
    ensures vs == ws
  {
    CommaInJoin(vs);
    CommaInJoin(ws);
    if |vs| > 1 {
      assert Join(vs) == vs[0] + [','] + Join(vs[1..]) && Join(ws) == ws[0] + [','] + Join(ws[1..]);
      SplitOnce(vs[0], Join(vs[1..]), ws[0], Join(ws[1..]), ',');
      JoinIsInjective(vs[1..], ws[1..]);
      assert vs == [vs[0]] + vs[1..] && ws == [ws[0]] + ws[1..];
    }
  }

  /** Main result: ordinary requests with one key are one request. */
  lemma KeyIsInjective(p: string, vs: seq<string>, r: string, ws: seq<string>)
    requires IsOrdinary(p, vs) && IsOrdinary(r, ws) && Key(p, vs) == Key(r, ws)
    ensures p == r && vs == ws
  {
    SplitOnce(p, Join(vs), r, Join(ws), NUL);
    JoinIsInjective(vs, ws);
  }

  // ----- Exactly the requests that share their key -----

  ghost predicate SharesKey(program: string, vars: seq<string>) {
    exists r, ws :: IsNormal(ws) && (r, ws) != (program, vars) && Key(r, ws) == Key(program, vars)
  }

  /** The name can be cut into two sorted names. */
  predicate IsCutAt(v: string, k: nat) {
    k + 2 <= |v| && v[k] == ',' && v[k + 1] == '$' && k > 0 && LexLe(v[..k], v[k + 1..])
  }

  ghost predicate CanBeCut(v: string) { exists k: nat :: IsCutAt(v, k) }

  /** The text behind a NUL could be a list of names: it is empty or begins with a dollar sign. */
  predicate IsNulAt(text: string, i: nat) { i < |text| && text[i] == NUL && (i + 1 == |text| || text[i + 1] == '$') }

  /** Two variables or more, a name that can be cut, a NUL and a dollar sign in the program, or a NUL
      in the names with a dollar sign or nothing behind it. */
  ghost predicate IsAmbiguous(program: string, vars: seq<string>) {
    || |vars| >= 2
    || (|vars| == 1 && CanBeCut(vars[0]))
    || (exists i: nat :: IsNulAt(program, i) && i + 1 < |program|)
    || (exists i: nat :: IsNulAt(Join(vars), i))
  }

  lemma {:induction false} JoinOfNames(vs: seq<string>)
    requires forall i :: 0 <= i < |vs| ==> IsDollar(vs[i])
    ensures Join(vs) == "" <==> vs == []
    ensures vs != [] ==> IsDollar(Join(vs)) && LexLe(vs[0], Join(vs))
  {
    if vs != [] {
      var rest := if |vs| == 1 then "" else "," + Join(vs[1..]);
      assert Join(vs) == vs[0] + rest;
      LexPrefix(vs[0], rest);
    }
  }

  /** A text that begins with a dollar sign is a name by itself. */
  lemma SingleName(text: string)
    requires IsDollar(text)
    ensures IsNormal([text]) && Join([text]) == text
  {
  }

  lemma PairOfNames(a: string, b: string)
    ensures Join([a, b]) == a + "," + b
  {
    assert [a, b][1..] == [b];
  }

  /** Several names can be read as one name. */
  lemma SeveralAsOne(vs: seq<string>)
    requires IsNormal(vs) && |vs| >= 2
    ensures IsNormal([Join(vs)]) && [Join(vs)] != vs && Join([Join(vs)]) == Join(vs)
  {
    hide Join;
    JoinOfNames(vs);
    SingleName(Join(vs));
    assert |[Join(vs)]| == 1;
  }

  /** One name that is cut can be read as two. */
  lemma OneAsTwo(v: string, k: nat)
    requires IsCutAt(v, k) && IsDollar(v)
    ensures 0 < k && k + 2 <= |v|
    ensures var ws := [v[..k], v[k + 1..]]; IsNormal(ws) && ws != [v] && Join(ws) == v
  {
    hide Join, LexLe;
    PairOfNames(v[..k], v[k + 1..]);
    assert v == v[..k] + "," + v[k + 1..] && |[v[..k], v[k + 1..]]| == 2;
  }

  lemma AmbiguousNames(vs: seq<string>)
    requires IsNormal(vs) && (|vs| >= 2 || (|vs| == 1 && CanBeCut(vs[0])))
    ensures exists ws :: IsNormal(ws) && ws != vs && Join(ws) == Join(vs)
  {
    hide Join, IsCutAt, LexLe;
    if |vs| >= 2 {
      SeveralAsOne(vs);
    } else {
      var k: nat :| IsCutAt(vs[0], k);
      OneAsTwo(vs[0], k);
      SingleName(vs[0]);
      var ws := [vs[0][..k], vs[0][k + 1..]];
      assert vs == [vs[0]] && Join(ws) == Join(vs);
    }
  }

  /** A list with the text of a single name is that name, unless the name can be cut. */
  lemma CutOfOne(v: string, ws: seq<string>)
    requires IsNormal(ws) && Join(ws) == v && |ws| >= 2
    ensures CanBeCut(v)
  {
    hide LexLe;
    var w, rest := ws[0], Join(ws[1..]);
    assert v == w + "," + rest;
    JoinOfNames(ws[1..]);
    LexTransitive(w, ws[1], rest);
    assert v[..|w|] == w && v[|w| + 1..] == rest && v[|w|] == ',' && v[|w| + 1] == rest[0];
    assert IsCutAt(v, |w|);
  }

  lemma SameNames(vs: seq<string>, ws: seq<string>)
    requires IsNormal(vs) && IsNormal(ws) && Join(vs) == Join(ws) && |vs| <= 1 && (|vs| == 1 ==> !CanBeCut(vs[0]))
    ensures vs == ws
  {
    hide LexLe;
    JoinOfNames(vs);
    JoinOfNames(ws);
    if |ws| >= 2 {
      CutOfOne(vs[0], ws);
    }
  }

  /** Where the program of another request would end, the NUL is followed by names or by nothing. */
  lemma OtherCut(p: string, vs: seq<string>, r: string, ws: seq<string>)
    requires IsNormal(ws) && Key(p, vs) == Key(r, ws)
    ensures |r| < |p| ==> IsNulAt(p, |r|) && |r| + 1 < |p|
    ensures |r| > |p| ==> IsNulAt(Join(vs), |r| - |p| - 1)
    ensures |r| == |p| ==> r == p && Join(vs) == Join(ws)
  {
    hide Join;
    var key, i := Key(p, vs), |r|;
    JoinOfNames(ws);
    assert key[i] == NUL && key[i + 1..] == Join(ws) && key[..i] == r;
    assert key[|p|] == NUL && key[|p| + 1..] == Join(vs) && key[..|p|] == p;
    assert i + 1 < |key| ==> key[i + 1] == key[i + 1..][0];
    if i < |p| {
      assert p[i] == key[i] && (i + 1 < |p| ==> p[i + 1] == key[i + 1]);
    } else if i > |p| {
      var j := i - |p| - 1;
      assert Join(vs)[j] == key[i] && (j + 1 < |Join(vs)| ==> Join(vs)[j + 1] == key[i + 1]);
    }
  }

  lemma NulInProgram(p: string, vs: seq<string>, i: nat)
    requires IsNulAt(p, i) && i + 1 < |p|
    ensures SharesKey(p, vs)
  {
    hide Join;
    var text := p[i + 1..] + [NUL] + Join(vs);
    SingleName(text);
    assert p == p[..i] + [NUL] + p[i + 1..];
    assert Key(p[..i], [text]) == Key(p, vs);
  }

  lemma NulInNames(p: string, vs: seq<string>, i: nat)
    requires IsNulAt(Join(vs), i)
    ensures SharesKey(p, vs)
  {
    hide Join;
    var names := Join(vs);
    var r, text := p + [NUL] + names[..i], names[i + 1..];
    var ws := if text == "" then [] else [text];
    assert names == names[..i] + [NUL] + text;
    if text != "" {
      SingleName(text);
    }
    JoinOfNothing();
    assert Key(r, ws) == Key(p, vs) && |r| > |p|;
  }

  lemma JoinOfNothing()
    ensures Join([]) == "" && IsNormal([])
  {
  }

  /** Main result: a request as normalizeArgs makes it shares its key with another one if and only if
      it is ambiguous. */
  lemma SharesKeyExactly(program: string, vars: seq<string>)
    requires IsNormal(vars)
    ensures SharesKey(program, vars) <==> IsAmbiguous(program, vars)
  {
    hide Join, IsNormal;
    if SharesKey(program, vars) {
      var r, ws :| IsNormal(ws) && (r, ws) != (program, vars) && Key(r, ws) == Key(program, vars);
      OtherCut(program, vars, r, ws);
      if |r| == |program| && |vars| <= 1 && (|vars| == 1 ==> !CanBeCut(vars[0])) {
        SameNames(vars, ws);
      }
    }
    if |vars| >= 2 || (|vars| == 1 && CanBeCut(vars[0])) {
      AmbiguousNames(vars);
      var ws :| IsNormal(ws) && ws != vars && Join(ws) == Join(vars);
      assert Key(program, ws) == Key(program, vars);
    }
    if i: nat :| IsNulAt(program, i) && i + 1 < |program| {
      NulInProgram(program, vars, i);
    }
    if i: nat :| IsNulAt(Join(vars), i) {
      NulInNames(program, vars, i);
    }
  }

  /** Examples of each kind. */
  lemma KeysCollide()
    ensures Key("1", ["$x,$y"]) == Key("1", ["$x", "$y"])
    ensures Key("1" + [NUL] + "$x", []) == Key("1", ["$x" + [NUL]])
  {
    PairOfNames("$x", "$y");
    assert "1" + [NUL] + "$x" + [NUL] + "" == "1" + [NUL] + ("$x" + [NUL]);
  }
}
