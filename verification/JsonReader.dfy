/** A reader of JSON texts (sections 2 to 7 of RFC 8259), independent of the printer. */
module JsonReader {
  import opened Decimals
  import JsonText

  datatype Tree =
    | JNull
    | JBool(b: bool)
    | JNumber(text: string)
    | JString(s: string)
    | JArray(items: seq<Tree>)
    | JObject(members: seq<(string, Tree)>)

  datatype Reading<T> = Got(value: T, rest: string) | Bad

  predicate IsSpace(c: char) { c == ' ' || c == '\t' || c == '\n' || c == '\r' }

  function Skip(t: string): (r: string)
    ensures |r| <= |t| && (r != "" ==> !IsSpace(r[0]))
    ensures t == "" || !IsSpace(t[0]) ==> r == t
  {
    if t != "" && IsSpace(t[0]) then Skip(t[1..]) else t
  }

  // ----- Numbers (section 6) -----

  /** How many digits are at the head of t. */
  function DigitRun(t: string): (n: nat)
    ensures n <= |t|
  {
    if t == "" || !IsDigit(t[0]) then 0 else 1 + DigitRun(t[1..])
  }

  /** int: a zero, or digits that do not begin with one. */
  function WholeLength(t: string): (n: nat)
    ensures n <= |t|
  {
    if "0" <= t then 1 else DigitRun(t)
  }

  /** frac: a point and digits, or nothing. */
  function FractionLength(t: string): (n: nat)
    ensures n <= |t|
  {
    if t != "" && t[0] == '.' && DigitRun(t[1..]) > 0 then 1 + DigitRun(t[1..]) else 0
  }

  /** exp: e, a sign if there is one, and digits, or nothing. */
  function ExponentLength(t: string): (n: nat)
    ensures n <= |t|
  {
    var k := if |t| > 1 && (t[1] == '+' || t[1] == '-') then 2 else 1;
    if t != "" && (t[0] == 'e' || t[0] == 'E') && DigitRun(t[k..]) > 0 then k + DigitRun(t[k..]) else 0
  }

  function MinusLength(t: string): (n: nat)
    ensures n <= |t| && n <= 1
  {
    if t != "" && t[0] == '-' then 1 else 0
  }

  /** How long the number at the head of t is, 0 if there is none. */
  function NumberLength(t: string): (n: nat)
    ensures n <= |t|
  {
    var m := MinusLength(t);
    var w := WholeLength(t[m..]);
    if w == 0 then 0
    else
      var f := m + w + FractionLength(t[m + w..]);
      f + ExponentLength(t[f..])
  }

  /** The whole of s is a number. */
  predicate IsNumber(s: string) { s != "" && NumberLength(s) == |s| }

  /** A value and the white space around it. */
  function ReadValue(t: string): (r: Reading<Tree>)
    ensures r.Got? ==> |r.rest| < |t|
    decreases |t|, 2
  {
    match ReadBare(Skip(t))
    case Got(x, rest) => Got(x, Skip(rest))
    case Bad => Bad
  }

  function ReadBare(t: string): (r: Reading<Tree>)
    ensures r.Got? ==> |r.rest| < |t|
    decreases |t|, 1
  {
    if t == "" then Bad
    else if "null" <= t then Got(JNull, t[4..])
    else if "true" <= t then Got(JBool(true), t[4..])
    else if "false" <= t then Got(JBool(false), t[5..])
    else if t[0] == '"' then
      match JsonText.ReadString(t[1..])
      case Read(s, rest) => if |rest| < |t| then Got(JString(s), rest) else Bad
      case Malformed => Bad
    else if t[0] == '[' then
      if "]" <= Skip(t[1..]) then Got(JArray([]), Skip(t[1..])[1..])
      else match ReadItems(t[1..]) case Got(items, rest) => Got(JArray(items), rest) case Bad => Bad
    else if t[0] == '{' then
      if "}" <= Skip(t[1..]) then Got(JObject([]), Skip(t[1..])[1..])
      else match ReadMembers(t[1..]) case Got(members, rest) => Got(JObject(members), rest) case Bad => Bad
    else
      var n := NumberLength(t);
      if n == 0 then Bad else Got(JNumber(t[..n]), t[n..])
  }

  function ReadItems(t: string): (r: Reading<seq<Tree>>)
    ensures r.Got? ==> |r.rest| < |t|
    decreases |t|, 3
  {
    match ReadValue(t)
    case Bad => Bad
    case Got(item, rest) =>
      if rest == "" then Bad
      else if rest[0] == ']' then Got([item], rest[1..])
      else if rest[0] != ',' then Bad
      else match ReadItems(rest[1..]) case Got(items, more) => Got([item] + items, more) case Bad => Bad
  }

  /** "name": and what is behind it. */
  function ReadName(t: string): (r: Reading<string>)
    ensures r.Got? ==> |r.rest| < |t|
  {
    var u := Skip(t);
    if u == "" || u[0] != '"' then Bad
    else match JsonText.ReadString(u[1..])
      case Malformed => Bad
      case Read(name, rest) =>
        if !(":" <= Skip(rest)) || |rest| >= |u| then Bad else Got(name, Skip(rest)[1..])
  }

  function ReadMembers(t: string): (r: Reading<seq<(string, Tree)>>)
    ensures r.Got? ==> |r.rest| < |t|
    decreases |t|, 3
  {
    match ReadName(t)
    case Bad => Bad
    case Got(name, rest) =>
      match ReadValue(rest)
      case Bad => Bad
      case Got(value, more) =>
        if more == "" then Bad
        else if more[0] == '}' then Got([(name, value)], more[1..])
        else if more[0] != ',' then Bad
        else match ReadMembers(more[1..]) case Got(members, end) => Got([(name, value)] + members, end) case Bad => Bad
  }

  // ----- What is read does not depend on what follows -----

  predicate Ends(t: string) { t == "" || t[0] == ',' || t[0] == ']' || t[0] == '}' }

  function Before<T>(r: Reading<T>, t: string): Reading<T> { if r.Got? then Got(r.value, r.rest + t) else Bad }

  lemma {:induction false} SkipExtends(s: string, t: string)
    requires Ends(t)
    ensures Skip(s + t) == Skip(s) + t
  {
    if s == "" {
      assert s + t == t;
    } else if IsSpace(s[0]) {
      assert (s + t)[1..] == s[1..] + t;
      SkipExtends(s[1..], t);
    }
  }

  /** An escape is read the same with more behind the closing quote, the second half of a pair too. */
  lemma CodeExtends(u: string, t: string)
    requires |u| >= 2 && u[0] == '\\' && u[1] == 'u' && JsonText.ReadString(u).Read?
    ensures JsonText.ReadCode(u + t) == JsonText.ReadCode(u) && JsonText.ReadCode(u).Some?
  {
    hide JsonText.Hex4, JsonText.Utf8, JsonText.Utf8Pair, JsonText.Unescaped;
    assert (u + t)[6..] == u[6..] + t && (u + t)[2..6] == u[2..6];
    SurrogateExtends(u[6..], t);
  }

  lemma SurrogateExtends(v: string, t: string)
    requires JsonText.LowSurrogate(v).None? ==> JsonText.ReadString(v).Read?
    ensures JsonText.LowSurrogate(v + t) == JsonText.LowSurrogate(v)
  {
    hide JsonText.Hex4, JsonText.Utf8, JsonText.Utf8Pair, JsonText.Unescaped;
    if |v| >= 6 {
      assert (v + t)[2..6] == v[2..6];
    } else {
      assert (v + t)[0] == v[0];
    }
  }

  lemma {:induction false} StringExtends(u: string, t: string)
    requires JsonText.ReadString(u).Read?
    ensures JsonText.ReadString(u + t) == JsonText.Read(JsonText.ReadString(u).text, JsonText.ReadString(u).rest + t)
    decreases |u|
  {
    hide JsonText.ReadCode, JsonText.Unescaped;
    assert (u + t)[1..] == u[1..] + t && (u + t)[0] == u[0];
    if u[0] != '"' && u[0] != '\\' {
      StringExtends(u[1..], t);
    } else if u[0] == '\\' {
      assert (u + t)[2..] == u[2..] + t && (u + t)[1] == u[1];
      if u[1] == 'u' {
        CodeExtends(u, t);
        var n := JsonText.ReadCode(u).value.1;
        assert (u + t)[n..] == u[n..] + t;
        StringExtends(u[n..], t);
      } else {
        StringExtends(u[2..], t);
      }
    }
  }

  lemma {:induction false} DigitsExtend(s: string, t: string)
    requires Ends(t)
    ensures DigitRun(s + t) == DigitRun(s)
  {
    if s == "" {
      assert s + t == t;
    } else {
      assert (s + t)[1..] == s[1..] + t;
      DigitsExtend(s[1..], t);
    }
  }

  lemma Cut(s: string, t: string, k: nat)
    requires k <= |s|
    ensures (s + t)[k..] == s[k..] + t && (s + t)[..k] == s[..k]
  {
  }

  lemma WholeExtends(s: string, t: string)
    requires Ends(t)
    ensures WholeLength(s + t) == WholeLength(s) && MinusLength(s + t) == MinusLength(s)
  {
    hide DigitRun;
    DigitsExtend(s, t);
    if s == "" {
      assert s + t == t && "0"[0] == '0';
    } else {
      assert (s + t)[0] == s[0] && (s + t)[..1] == s[..1];
    }
  }

  lemma FractionExtends(s: string, t: string)
    requires Ends(t)
    ensures FractionLength(s + t) == FractionLength(s)
  {
    hide DigitRun;
    if s == "" {
      assert s + t == t;
    } else {
      Cut(s, t, 1);
      DigitsExtend(s[1..], t);
    }
  }

  lemma ExponentExtends(s: string, t: string)
    requires Ends(t)
    ensures ExponentLength(s + t) == ExponentLength(s)
  {
    hide DigitRun;
    if s == "" {
      assert s + t == t;
    } else {
      Cut(s, t, 1);
      DigitsExtend(s[1..], t);
      if |s| > 1 {
        Cut(s, t, 2);
        DigitsExtend(s[2..], t);
      }
    }
  }

  lemma NumberExtends(s: string, t: string)
    requires Ends(t)
    ensures NumberLength(s + t) == NumberLength(s)
  {
    hide MinusLength, WholeLength, FractionLength, ExponentLength;
    var m := MinusLength(s);
    WholeExtends(s, t);
    Cut(s, t, m);
    WholeExtends(s[m..], t);
    var w := WholeLength(s[m..]);
    if w > 0 {
      Cut(s, t, m + w);
      FractionExtends(s[m + w..], t);
      var f := m + w + FractionLength(s[m + w..]);
      Cut(s, t, f);
      ExponentExtends(s[f..], t);
    }
  }

  lemma NameExtends(s: string, t: string)
    requires Ends(t) && ReadName(s).Got?
    ensures ReadName(s + t) == Before(ReadName(s), t)
  {
    hide JsonText.ReadString, Skip;
    var u := Skip(s);
    SkipExtends(s, t);
    assert (u + t)[1..] == u[1..] + t;
    StringExtends(u[1..], t);
    var rest := JsonText.ReadString(u[1..]).rest;
    SkipExtends(rest, t);
    assert (Skip(rest) + t)[1..] == Skip(rest)[1..] + t;
  }

  /** A value in front of a separator or the end is read as it is read alone. */
  lemma {:induction false} ValueExtends(s: string, t: string)
    requires Ends(t) && ReadValue(s).Got?
    ensures ReadValue(s + t) == Before(ReadValue(s), t)
    decreases |s|, 2
  {
    hide ReadBare, Skip;
    SkipExtends(s, t);
    BareExtends(Skip(s), t);
    SkipExtends(ReadBare(Skip(s)).rest, t);
  }

  lemma {:induction false} BareExtends(s: string, t: string)
    requires Ends(t) && ReadBare(s).Got?
    ensures ReadBare(s + t) == Before(ReadBare(s), t)
    decreases |s|, 1
  {
    hide ReadItems, ReadMembers, Skip, NumberLength, JsonText.ReadString;
    assert (s + t)[0] == s[0] && (s + t)[1..] == s[1..] + t;
    WordsExtend(s, t);
    if "null" <= s || "true" <= s || "false" <= s {
    } else if s[0] == '"' {
      StringExtends(s[1..], t);
    } else if s[0] == '[' {
      ListExtends(s, t);
    } else if s[0] == '{' {
      ObjectExtends(s, t);
    } else {
      NumberBareExtends(s, t);
    }
  }

  lemma NumberBareExtends(s: string, t: string)
    requires Ends(t)
    ensures NumberLength(s + t) == NumberLength(s)
    ensures (s + t)[..NumberLength(s)] == s[..NumberLength(s)] && (s + t)[NumberLength(s)..] == s[NumberLength(s)..] + t
  {
    hide NumberLength;
    NumberExtends(s, t);
  }

  lemma {:induction false} ListExtends(s: string, t: string)
    requires Ends(t) && s != "" && s[0] == '[' && ReadBare(s).Got?
    ensures ReadBare(s + t) == Before(ReadBare(s), t)
    decreases |s|, 0
  {
    hide ReadItems, ReadMembers, Skip, NumberLength, JsonText.ReadString;
    WordsBegin(s);
    WordsBegin(s + t);
    assert (s + t)[0] == s[0] && (s + t)[1..] == s[1..] + t;
    SkipExtends(s[1..], t);
    HeadExtends(Skip(s[1..]), t, ']');
    if !("]" <= Skip(s[1..])) {
      ItemsExtend(s[1..], t);
      ItemsBegin(s[1..]);
    }
  }

  lemma {:induction false} ObjectExtends(s: string, t: string)
    requires Ends(t) && s != "" && s[0] == '{' && ReadBare(s).Got?
    ensures ReadBare(s + t) == Before(ReadBare(s), t)
    decreases |s|, 0
  {
    hide ReadItems, ReadMembers, Skip, NumberLength, JsonText.ReadString;
    WordsBegin(s);
    WordsBegin(s + t);
    assert (s + t)[0] == s[0] && (s + t)[1..] == s[1..] + t;
    SkipExtends(s[1..], t);
    HeadExtends(Skip(s[1..]), t, '}');
    if !("}" <= Skip(s[1..])) {
      MembersExtend(s[1..], t);
      MembersBegin(s[1..]);
    }
  }

  lemma HeadExtends(s: string, t: string, c: char)
    ensures s != "" ==> ([c] <= s <==> [c] <= s + t) && (s + t)[1..] == s[1..] + t
  {
  }

  /** In front of a separator no word becomes another one. */
  lemma WordsExtend(s: string, t: string)
    requires Ends(t) && s != ""
    ensures "null" <= s + t <==> "null" <= s
    ensures "true" <= s + t <==> "true" <= s
    ensures "false" <= s + t <==> "false" <= s
    ensures "null" <= s || "true" <= s ==> (s + t)[4..] == s[4..] + t
    ensures "false" <= s ==> (s + t)[5..] == s[5..] + t
  {
    WordExtends("null", s, t);
    WordExtends("true", s, t);
    WordExtends("false", s, t);
  }

  lemma WordExtends(word: string, s: string, t: string)
    requires Ends(t) && forall i :: 0 <= i < |word| ==> word[i] != ',' && word[i] != ']' && word[i] != '}'
    ensures word <= s + t <==> word <= s
    ensures word <= s ==> (s + t)[|word|..] == s[|word|..] + t
  {
    if |word| > |s| {
      assert t != "" ==> (s + t)[|s|] == t[0];
    } else {
      assert (s + t)[..|word|] == s[..|word|];
    }
  }

  /** No list begins with the bracket that would close it. */
  lemma ItemsBegin(t: string)
    requires ReadItems(t).Got?
    ensures Skip(t) != "" && !("]" <= Skip(t))
  {
    hide Skip, ReadBare;
    NoBracket(Skip(t));
  }

  lemma NoBracket(t: string)
    requires ReadBare(t).Got?
    ensures t != "" && !("]" <= t)
  {
    hide ReadItems, ReadMembers, JsonText.ReadString;
    WordsBegin(t);
    assert "]"[0] == ']' && "0"[0] == '0';
  }

  lemma WordsBegin(t: string)
    ensures "null" <= t ==> t[0] == 'n'
    ensures "true" <= t ==> t[0] == 't'
    ensures "false" <= t ==> t[0] == 'f'
  {
    assert "null"[0] == 'n' && "true"[0] == 't' && "false"[0] == 'f';
  }

  lemma MembersBegin(t: string)
    requires ReadMembers(t).Got?
    ensures Skip(t) != "" && !("}" <= Skip(t))
  {
    hide Skip, ReadValue, ReadName;
    NameBegins(t);
  }

  lemma NameBegins(t: string)
    requires ReadName(t).Got?
    ensures Skip(t) != "" && !("}" <= Skip(t))
  {
    hide Skip, JsonText.ReadString;
    assert Skip(t)[0] == '"' && "}"[0] == '}';
  }

  lemma {:induction false} ItemsExtend(s: string, t: string)
    requires Ends(t) && ReadItems(s).Got?
    ensures ReadItems(s + t) == Before(ReadItems(s), t)
    decreases |s|, 3
  {
    hide ReadValue;
    ValueExtends(s, t);
    var rest := ReadValue(s).rest;
    assert (rest + t)[0] == rest[0] && (rest + t)[1..] == rest[1..] + t;
    if rest[0] == ',' {
      ItemsExtend(rest[1..], t);
    }
  }

  lemma {:induction false} MembersExtend(s: string, t: string)
    requires Ends(t) && ReadMembers(s).Got?
    ensures ReadMembers(s + t) == Before(ReadMembers(s), t)
    decreases |s|, 3
  {
    hide ReadValue, ReadName;
    NameExtends(s, t);
    ValueExtends(ReadName(s).rest, t);
    var rest := ReadValue(ReadName(s).rest).rest;
    assert (rest + t)[0] == rest[0] && (rest + t)[1..] == rest[1..] + t;
    if rest[0] == ',' {
      MembersExtend(rest[1..], t);
    }
  }
}
