/** What PostgreSQL makes of the arrays that filters pass on: the elements that were written. */
module ArrayLiterals {
  import opened Sql
  import opened Scanner
  import opened FilterGrammar
  import opened FilterRoundTrip
  import opened FilterTexts

  // ----- A reader of array literals (section 8.15.2 of the PostgreSQL manual) -----

  /** Missing is NULL. */
  datatype Elem = Missing | Entry(s: string) | Nested(elems: seq<Elem>)

  predicate IsBlank(c: char) { c == ' ' || 9 <= c as int <= 13 }

  function SkipBlanks(t: string): (u: string)
    ensures |u| <= |t| && (u != "" ==> !IsBlank(u[0]))
  {
    if t != "" && IsBlank(t[0]) then SkipBlanks(t[1..]) else t
  }

  function TrimEnd(t: string): string {
    if t != "" && IsBlank(t[|t| - 1]) then TrimEnd(t[..|t| - 1]) else t
  }

  /** Behind the opening quote: the text, and what follows the closing one. */
  function ReadQuoted(t: string): (r: Option<(string, string)>)
    ensures r.Some? ==> |r.value.1| < |t|
  {
    if t == "" || t == "\\" then None
    else if t[0] == '"' then Some(("", t[1..]))
    else
      var (c, more) := if t[0] == '\\' then (t[1], t[2..]) else (t[0], t[1..]);
      match ReadQuoted(more) case Some((s, rest)) => Some(([c] + s, rest)) case None => None
  }

  predicate Delimits(c: char) { c in "{},\"\\" }

  /** How far a word without quotes reaches. Backslashes outside quotes are not read. */
  function WordLength(t: string): (n: nat)
    ensures n <= |t|
  {
    if t == "" || Delimits(t[0]) then 0 else 1 + WordLength(t[1..])
  }

  function WordElem(w: string): Elem { if IsCaseOf(w, "null") then Missing else Entry(w) }

  function ReadElem(t: string): (r: Option<(Elem, string)>)
    ensures r.Some? ==> |r.value.1| < |t|
    decreases |t|, 0
  {
    var u := SkipBlanks(t);
    if u == "" then None
    else if u[0] == '"' then match ReadQuoted(u[1..]) case Some((s, rest)) => Some((Entry(s), rest)) case None => None
    else if u[0] == '{' then match ReadElems(u[1..]) case Some((es, rest)) => Some((Nested(es), rest)) case None => None
    else if WordLength(u) == 0 then None
    else Some((WordElem(TrimEnd(u[..WordLength(u)])), u[WordLength(u)..]))
  }

  /** Behind the opening brace. */
  function ReadElems(t: string): (r: Option<(seq<Elem>, string)>)
    ensures r.Some? ==> |r.value.1| < |t|
    decreases |t|, 2
  {
    var u := SkipBlanks(t);
    if u != "" && u[0] == '}' then Some(([], u[1..])) else ReadMore(t)
  }

  function ReadMore(t: string): (r: Option<(seq<Elem>, string)>)
    ensures r.Some? ==> |r.value.1| < |t|
    decreases |t|, 1
  {
    match ReadElem(t)
    case None => None
    case Some((e, more)) =>
      var u := SkipBlanks(more);
      if u != "" && u[0] == '}' then Some(([e], u[1..]))
      else if u != "" && u[0] == ',' then
        match ReadMore(u[1..]) case Some((es, rest)) => Some(([e] + es, rest)) case None => None
      else None
  }

  // ----- What is meant -----

  /** Words that begin with a letter keep their blanks, apart from the literals of JSON. */
  predicate KeepsBlanks(s: string) { s != "" && IsLetter(s[0]) && s != "true" && s != "false" && s != "null" }

  function ElemOf(p: Part): Elem
    decreases p
  {
    match p
    case Leaf(Bare(s)) => if KeepsBlanks(s) then Entry(s) else WordElem(TrimEnd(SkipBlanks(s)))
    case Leaf(Pointed(a, b)) => Entry(TrimEnd(SkipBlanks(a + "." + b)))
    case Leaf(Quoted(s)) => Entry(s)
    case Nest(_, parts, _) => Nested(ElemsOf(parts))
  }

  function ElemsOf(ps: seq<Part>): seq<Elem> { if ps == [] then [] else [ElemOf(ps[0])] + ElemsOf(ps[1..]) }

  /** No word in it is made of blanks only. */
  predicate HasNoBlankWord(p: Part)
    decreases p
  {
    match p
    case Leaf(Bare(s)) => SkipBlanks(s) != ""
    case Leaf(_) => true
    case Nest(_, parts, _) => forall i :: 0 <= i < |parts| ==> HasNoBlankWord(parts[i])
  }

  // ----- Reading what is passed on -----

  /** What is quoted is read back, whatever it is. */
  lemma {:induction false} QuotedIsReadBack(s: string, rest: string)
    ensures ReadQuoted(EscapeJson(s) + "\"" + rest) == Some((s, rest))
    ensures QuoteJsonString(s) == "\"" + (EscapeJson(s) + "\"")
    decreases |s|
  {
    var t := EscapeJson(s) + "\"" + rest;
    if s == "" {
      assert t[1..] == rest && t[0] == '"';
    } else {
      QuotedIsReadBack(s[1..], rest);
      var more := EscapeJson(s[1..]) + "\"" + rest;
      assert [s[0]] + s[1..] == s;
      if s[0] == '"' || s[0] == '\\' {
        assert t == ['\\', s[0]] + more && t[2..] == more;
      } else {
        assert t == [s[0]] + more && t[1..] == more;
      }
    }
  }

  lemma QuotedEntry(s: string, rest: string)
    ensures ReadElem(QuoteJsonString(s) + rest) == Some((Entry(s), rest))
  {
    hide ReadQuoted, EscapeJson, ReadElems;
    QuotedIsReadBack(s, rest);
    var t := QuoteJsonString(s) + rest;
    assert t[0] == '"' && t[1..] == EscapeJson(s) + "\"" + rest;
  }

  lemma {:induction false} BlanksInFront(w: string, rest: string)
    requires SkipBlanks(w) != ""
    ensures SkipBlanks(w + rest) == SkipBlanks(w) + rest
  {
    if IsBlank(w[0]) {
      assert (w + rest)[1..] == w[1..] + rest;
      BlanksInFront(w[1..], rest);
    }
  }

  /** A word without marks. */
  predicate IsUndelimited(w: string) { forall i :: 0 <= i < |w| ==> !Delimits(w[i]) }

  lemma {:induction false} WordIsMeasured(w: string, rest: string)
    requires IsUndelimited(w) && rest != "" && Delimits(rest[0])
    ensures WordLength(w + rest) == |w|
  {
    if w == "" {
      assert w + rest == rest;
    } else {
      assert (w + rest)[1..] == w[1..] + rest;
      WordIsMeasured(w[1..], rest);
    }
  }

  lemma {:induction false} StillUndelimited(w: string)
    requires IsUndelimited(w)
    ensures IsUndelimited(SkipBlanks(w))
  {
    if w != "" && IsBlank(w[0]) {
      StillUndelimited(w[1..]);
    }
  }

  lemma WordIsRead(w: string, rest: string)
    requires IsUndelimited(w) && SkipBlanks(w) != "" && rest != "" && Delimits(rest[0])
    ensures ReadElem(w + rest) == Some((WordElem(TrimEnd(SkipBlanks(w))), rest))
  {
    hide SkipBlanks, WordLength, TrimEnd, WordElem, ReadElems, ReadQuoted;
    var v := SkipBlanks(w);
    BlanksInFront(w, rest);
    StillUndelimited(w);
    WordIsMeasured(v, rest);
    assert (v + rest)[0] == v[0] && !Delimits(v[0]);
    assert (v + rest)[..|v|] == v && (v + rest)[|v|..] == rest;
  }

  lemma BareIsUndelimited(s: string)
    requires IsBare(s)
    ensures IsUndelimited(s)
  {
    assert SEP[2] == ',' && SEP[7] == '{' && SEP[8] == '}';
    forall i | 0 <= i < |s| ensures !Delimits(s[i]) {
      assert s[i] !in SEP && !IsQuote(s[i]) && s[i] != '\\';
    }
  }

  lemma {:induction false} PointStays(a: string, b: string)
    ensures var u := SkipBlanks(a + "." + b); u != "" && '.' in u && '.' in TrimEnd(u)
  {
    if a != "" && IsBlank(a[0]) {
      assert (a + "." + b)[1..] == a[1..] + "." + b;
      PointStays(a[1..], b);
    } else {
      var u := a + "." + b;
      assert u[|a|] == '.';
      EndStays(u, |a|);
    }
  }

  lemma {:induction false} EndStays(u: string, i: nat)
    requires i < |u| && !IsBlank(u[i])
    ensures i < |TrimEnd(u)| && TrimEnd(u)[i] == u[i]
  {
    if IsBlank(u[|u| - 1]) {
      EndStays(u[..|u| - 1], i);
    }
  }

  lemma LeafIsMeant(it: Item, rest: string)
    requires IsPart(Leaf(it), true) && HasNoBlankWord(Leaf(it)) && rest != "" && (rest[0] == ',' || rest[0] == '}')
    ensures ReadElem(Passed(Leaf(it), true) + rest) == Some((ElemOf(Leaf(it)), rest))
  {
    hide ReadElem, QuoteJsonString, IsLetter, TrimEnd, SkipBlanks, KeywordOf, IsBare;
    match it
    case Bare(s) =>
      if KeepsBlanks(s) {
        QuotedEntry(s, rest);
      } else {
        BareIsUndelimited(s);
        WordIsRead(s, rest);
      }
    case Pointed(a, b) =>
      PointedIsMeant(a, b, rest);
    case Quoted(s) =>
      QuotedEntry(s, rest);
  }

  lemma PointedIsMeant(a: string, b: string, rest: string)
    requires IsBare(a) && IsBare(b) && rest != "" && (rest[0] == ',' || rest[0] == '}')
    ensures ReadElem(a + "." + b + rest) == Some((Entry(TrimEnd(SkipBlanks(a + "." + b))), rest))
  {
    hide ReadElem, TrimEnd, SkipBlanks, IsBare;
    BareIsUndelimited(a);
    BareIsUndelimited(b);
    PointStays(a, b);
    WordIsRead(a + "." + b, rest);
    NoPointInNull(TrimEnd(SkipBlanks(a + "." + b)));
  }

  lemma NoPointInNull(w: string)
    requires '.' in w
    ensures WordElem(w) == Entry(w)
  {
    assert forall i :: 0 <= i < 4 ==> "null"[i] in "nul";
  }

  lemma {:induction false} PartIsMeant(p: Part, rest: string)
    requires IsPart(p, true) && HasNoBlankWord(p) && (p.Leaf? ==> rest != "" && (rest[0] == ',' || rest[0] == '}'))
    ensures ReadElem(Passed(p, true) + rest) == Some((ElemOf(p), rest))
    decreases p
  {
    match p
    case Leaf(it) =>
      hide Passed, ElemOf, ReadElem;
      LeafIsMeant(it, rest);
    case Nest(open, parts, close) =>
      hide ReadMore, PassedParts, ElemsOf, IsPart, HasNoBlankWord;
      PartsAreMeant(parts, rest);
      var t := Passed(p, true) + rest;
      assert IsPart(p, true) && open == '{' && close == '}' by { BracesOf(p); }
      assert t[0] == '{' && t[1..] == PassedParts(parts, true) + "}" + rest;
  }

  lemma BracesOf(p: Part)
    requires p.Nest? && IsPart(p, true)
    ensures p.open == '{' && p.close == '}' && forall i :: 0 <= i < |p.parts| ==> IsPart(p.parts[i], true)
  {
  }

  lemma {:induction false} PartsAreMeant(ps: seq<Part>, rest: string)
    requires forall i :: 0 <= i < |ps| ==> IsPart(ps[i], true) && HasNoBlankWord(ps[i])
    ensures ReadElems(PassedParts(ps, true) + "}" + rest) == Some((ElemsOf(ps), rest))
    decreases ps, 1
  {
    hide ReadMore, ReadElem, IsPart, HasNoBlankWord, ElemOf, Passed;
    if ps == [] {
      assert ("" + "}" + rest)[0] == '}' && ("" + "}" + rest)[1..] == rest;
    } else {
      MoreAreMeant(ps, rest);
      NoneBegins(PassedParts(ps, true) + "}" + rest);
    }
  }

  /** No element begins with a closing brace. */
  lemma NoneBegins(t: string)
    ensures ReadElem(t).Some? ==> SkipBlanks(t) != "" && SkipBlanks(t)[0] != '}'
    ensures ReadMore(t).Some? ==> ReadElem(t).Some?
  {
    hide ReadElems, ReadQuoted;
    assert "{},\"\\"[1] == '}';
  }

  lemma {:induction false} MoreAreMeant(ps: seq<Part>, rest: string)
    requires ps != [] && forall i :: 0 <= i < |ps| ==> IsPart(ps[i], true) && HasNoBlankWord(ps[i])
    ensures ReadMore(PassedParts(ps, true) + "}" + rest) == Some((ElemsOf(ps), rest))
    decreases ps, 0
  {
    hide ReadElem, IsPart, HasNoBlankWord, ElemOf, Passed;
    var p := ps[0];
    if |ps| == 1 {
      PartIsMeant(p, "}" + rest);
      assert PassedParts(ps, true) + "}" + rest == Passed(p, true) + ("}" + rest);
      assert ("}" + rest)[1..] == rest && ElemsOf(ps) == [ElemOf(p)];
    } else {
      var more := PassedParts(ps[1..], true) + "}" + rest;
      PartIsMeant(p, "," + more);
      MoreAreMeant(ps[1..], rest);
      assert PassedParts(ps, true) + "}" + rest == Passed(p, true) + ("," + more);
      assert ("," + more)[1..] == more;
    }
  }

  /** Main result: PostgreSQL reads an array that is passed on as the elements that were written,
      nested as they were. */
  lemma ArrayIsMeant(p: Part)
    requires p.Nest? && IsPart(p, true) && HasNoBlankWord(p)
    ensures ReadElem(Passed(p, true)) == Some((ElemOf(p), ""))
  {
    hide Passed, ReadElem, ElemOf;
    PartIsMeant(p, "");
    assert Passed(p, true) + "" == Passed(p, true);
  }

  /** A finding: a word with a point in it, as in cs.{node.js}, is passed on half in quotes, which is
      no array literal. */
  lemma PointedWordIsMalformed(ts: seq<Token>, a: string, b: string)
    requires IsBare(a) && IsBare(b) && KeepsBlanks(a) && ts == [Token(a, false), SepToken('.'), Token(b, false), SepToken('}')]
    ensures Braces(ts, 0, 1, "{") == Ok("{" + QuoteJsonString(a) + "." + b + "}", 4)
    ensures ReadElem("{" + QuoteJsonString(a) + "." + b + "}").None?
  {
    hide QuoteJsonString, IsLetter, IsBare, ReadElem, Braces;
    PointFollows(ts, a, b);
    QuotedEntry(a, "." + b + "}");
    assert "{" + QuoteJsonString(a) + "." + b + "}" == "{" + (QuoteJsonString(a) + ("." + b + "}"));
    NoPointBehind(QuoteJsonString(a) + ("." + b + "}"), Entry(a), "." + b + "}");
  }

  lemma PointFollows(ts: seq<Token>, a: string, b: string)
    requires IsBare(a) && KeepsBlanks(a) && ts == [Token(a, false), SepToken('.'), Token(b, false), SepToken('}')]
    ensures Braces(ts, 0, 1, "{") == Ok("{" + QuoteJsonString(a) + "." + b + "}", 4)
  {
    hide QuoteJsonString, IsLetter, IsBare;
    TokenStep(true, ts, 0, 1, "{");
    assert ts[3..3 + 1] == [SepToken('}')];
    MarkStep(true, ts, 3, 1, "{" + QuoteJsonString(a) + ("." + b), '}');
    assert "{" + QuoteJsonString(a) + ("." + b) + ['}'] == "{" + QuoteJsonString(a) + "." + b + "}";
    NestEnds(true, ts, 4, "{" + QuoteJsonString(a) + "." + b + "}");
  }

  lemma NoPointBehind(x: string, e: Elem, rest: string)
    requires ReadElem(x) == Some((e, rest)) && rest != "" && rest[0] == '.'
    ensures ReadElem("{" + x).None?
  {
    hide ReadQuoted, WordLength;
    assert ("{" + x)[0] == '{' && ("{" + x)[1..] == x;
    assert ReadMore(x).None?;
    NoneBegins(x);
  }
}
