/** Filters as people write them: values without quotes, lists, arrays and ranges, keys with a table or a
    json path. What is read of each is said without the grammar. */
module FilterTexts {
  import opened Sql
  import opened Filters
  import opened Scanner
  import opened FilterGrammar
  import opened FilterRoundTrip

  // ----- Words without quotes -----

  /** A word that needs no quotes: no mark, quote or backslash in it, no arrow, no blank before it. */
  predicate IsBare(s: string) {
    && s != "" && s[0] != ' '
    && (forall i :: 0 <= i < |s| ==> s[i] !in "=.,()[]{}:\"'\\")
    && (forall i :: 0 <= i < |s| - 1 ==> s[i] != '-' || s[i + 1] != '>')
  }

  /** A word ends here. */
  predicate Stops(rest: string) { rest == "" || rest[0] in SEP || (|rest| > 1 && rest[0] == '-' && rest[1] == '>') }

  lemma NoArrow(r: string)
    requires r != "" && !(|r| > 1 && r[0] == '-' && r[1] == '>')
    ensures LongSepAt(r, LONG_SEP) == ""
  {
    assert LONG_SEP[1..] == ["->"] && LONG_SEP[1..][1..] == [];
    assert LongSepAt(r, LONG_SEP[1..][1..]) == "";
    assert "->>"[0] == '-' && "->>"[1] == '>' && "->"[0] == '-' && "->"[1] == '>';
  }

  lemma MarkIsNoArrow(r: string)
    requires r != "" && r[0] in SEP
    ensures LongSepAt(r, LONG_SEP) == "" && r[0] != ' ' && r[0] != '\\' && !IsQuote(r[0]) && r[0] != '-' && r[0] != '>'
  {
    NoArrow(r);
  }

  /** Characters that stay in the word, whatever of it has been read. */
  predicate StaysBare(s: string, rest: string) {
    && (Stops(rest) || IsQuote(rest[0]))
    && (forall i :: 0 <= i < |s| ==> s[i] !in SEP && !IsQuote(s[i]) && s[i] != '\\')
    && (forall i :: 0 <= i < |s| - 1 ==> s[i] != '-' || s[i + 1] != '>')
  }

  lemma {:induction false} BareIsCollected(s: string, rest: string, done: string, wasSep: bool)
    requires StaysBare(s, rest) && (wasSep ==> s != "" && s[0] != ' ')
    ensures Scan(s + rest, ScanState(false, false, done, "", wasSep), SEP, LONG_SEP)
         == Scan(rest, ScanState(false, false, done + s, "", false), SEP, LONG_SEP)
    decreases |s|
  {
    hide LongSepAt;
    if s == "" {
      assert s + rest == rest && done + s == done;
    } else {
      var r := s + rest;
      assert r[0] == s[0] && r[1..] == s[1..] + rest;
      assert |r| > 1 && r[0] == '-' ==> r[1] == if |s| > 1 then s[1] else rest[0];
      if |s| == 1 && rest != "" && rest[0] in SEP {
        MarkIsNoArrow(rest);
      }
      NoArrow(r);
      assert forall i :: 0 <= i < |s[1..]| ==> s[1..][i] == s[i + 1];
      BareIsCollected(s[1..], rest, done + [s[0]], false);
      assert done + [s[0]] + s[1..] == done + s;
    }
  }

  lemma BareEnds(s: string, rest: string, wasSep: bool)
    requires s != "" && Stops(rest)
    ensures Scan(rest, ScanState(false, false, s, "", wasSep), SEP, LONG_SEP) == [Token(s, false)] + ScanRest(rest, FILTER_MARKS)
  {
    hide LongSepAt;
    if rest == "" {
    } else if rest[0] in SEP {
      MarkIsNoArrow(rest);
    } else {
      ArrowIsLong(rest);
    }
  }

  lemma QuoteIsNoArrow(c: char, r: string)
    requires c == '"' || c == '\''
    ensures LongSepAt([c] + r, LONG_SEP) == ""
  {
    NoArrow([c] + r);
  }

  /** What stands behind an apostrophe is dropped, if no other quote follows. */
  lemma UnclosedIsNothing(s: string, c: char, t: string)
    requires IsBare(s) && (c == '"' || c == '\'') && forall i :: 0 <= i < |t| ==> t[i] != '"' && t[i] != '\''
    ensures ScanRest(s + ([c] + t), FILTER_MARKS) == [Token(s, false)]
  {
    hide LongSepAt;
    BareIsCollected(s, [c] + t, "", true);
    assert "" + s == s && ([c] + t)[1..] == t;
    QuoteIsNoArrow(c, t);
    ScanUnclosed(t, false, "", SEP, LONG_SEP);
  }

  /** Blanks behind a mark do not count. */
  lemma BlankIsSkipped(r: string)
    ensures ScanRest(" " + r, FILTER_MARKS) == ScanRest(r, FILTER_MARKS)
  {
    assert (" " + r)[1..] == r;
  }

  /** A backslash in front of everything that would not stay in a word. */
  function Guard(s: string): string {
    if s == "" then ""
    else (if s[0] in SEP || IsQuote(s[0]) || s[0] in "\\- " then ['\\', s[0]] else [s[0]]) + Guard(s[1..])
  }

  lemma {:induction false} GuardedIsCollected(s: string, rest: string, done: string, wasSep: bool)
    ensures exists w :: Scan(Guard(s) + rest, ScanState(false, false, done, "", wasSep), SEP, LONG_SEP)
                     == Scan(rest, ScanState(false, false, done + s, "", w), SEP, LONG_SEP)
    decreases |s|
  {
    hide LongSepAt;
    if s == "" {
      assert Guard(s) + rest == rest && done + s == done;
    } else {
      var c, r := s[0], Guard(s[1..]) + rest;
      var st := ScanState(false, false, done, "", wasSep);
      assert done + s == done + [c] + s[1..];
      if c in SEP || IsQuote(c) || c in "\\- " {
        assert Guard(s) + rest == ['\\', c] + r;
        Unquoted(c, r);
        GuardedChar(c, r, st);
        GuardedIsCollected(s[1..], rest, done + [c], wasSep);
      } else {
        assert Guard(s) + rest == [c] + r && ([c] + r)[1..] == r;
        NoArrow([c] + r);
        GuardedIsCollected(s[1..], rest, done + [c], false);
      }
    }
  }

  lemma GuardedChar(c: char, r: string, st: ScanState)
    requires !st.quot && !st.esc
    ensures Scan(['\\', c] + r, st, SEP, LONG_SEP) == Scan(r, st.(normal := st.normal + [c]), SEP, LONG_SEP)
  {
    hide LongSepAt;
    Unquoted(c, r);
    assert Scan([c] + r, st.(esc := true), SEP, LONG_SEP) == Scan(r, st.(normal := st.normal + [c]), SEP, LONG_SEP);
  }

  /** So every text can be written as a word, with backslashes instead of quotes. */
  lemma GuardedIsRead(s: string, rest: string)
    requires s != "" && Stops(rest)
    ensures ScanRest(Guard(s) + rest, FILTER_MARKS) == [Token(s, false)] + ScanRest(rest, FILTER_MARKS)
  {
    hide LongSepAt, Guard;
    GuardedIsCollected(s, rest, "", true);
    assert "" + s == s;
    var w :| Scan(Guard(s) + rest, START, SEP, LONG_SEP) == Scan(rest, ScanState(false, false, s, "", w), SEP, LONG_SEP);
    BareEnds(s, rest, w);
  }

  lemma ArrowIsLong(rest: string)
    requires |rest| > 1 && rest[0] == '-' && rest[1] == '>'
    ensures LongSepAt(rest, LONG_SEP) == if |rest| > 2 && rest[2] == '>' then "->>" else "->"
  {
    assert LONG_SEP[1..] == ["->"];
    assert rest[..2] == "->";
    assert |rest| > 2 && rest[2] == '>' ==> rest[..3] == "->>";
    assert "->>" <= rest ==> rest[2] == "->>"[2];
  }

  /** `text` is read as `toks` wherever a mark, an arrow or the end follows. */
  ghost predicate ReadsHere(text: string, toks: seq<Token>) {
    forall rest {:trigger ScanRest(text + rest, FILTER_MARKS)} :: Stops(rest) ==>
      ScanRest(text + rest, FILTER_MARKS) == toks + ScanRest(rest, FILTER_MARKS)
  }

  lemma ReadsBare(s: string)
    requires IsBare(s)
    ensures ReadsHere(s, [Token(s, false)])
  {
    hide Scan;
    forall rest | Stops(rest) ensures ScanRest(s + rest, FILTER_MARKS) == [Token(s, false)] + ScanRest(rest, FILTER_MARKS) {
      BareIsCollected(s, rest, "", true);
      assert "" + s == s;
      BareEnds(s, rest, false);
    }
  }

  /** The text begins with a mark or an arrow. */
  predicate Begins(b: string) { b != "" && Stops(b) }

  lemma BeginsStops(b: string, rest: string)
    requires Begins(b)
    ensures Stops(b + rest)
  {
  }

  lemma ReadsThere(text: string, toks: seq<Token>)
    requires Reads(text, toks, FILTER_MARKS)
    ensures ReadsHere(text, toks)
  {
    hide ScanRest;
  }

  lemma ReadThen(a: string, ta: seq<Token>, b: string, tb: seq<Token>)
    requires Reads(a, ta, FILTER_MARKS) && ReadsHere(b, tb)
    ensures ReadsHere(a + b, ta + tb)
  {
    hide ScanRest, Stops;
    forall rest | Stops(rest) ensures ScanRest(a + b + rest, FILTER_MARKS) == ta + tb + ScanRest(rest, FILTER_MARKS) {
      assert a + b + rest == a + (b + rest);
      assert ta + tb + ScanRest(rest, FILTER_MARKS) == ta + (tb + ScanRest(rest, FILTER_MARKS));
    }
  }

  lemma HereThen(a: string, ta: seq<Token>, b: string, tb: seq<Token>)
    requires ReadsHere(a, ta) && Begins(b) && ReadsHere(b, tb)
    ensures ReadsHere(a + b, ta + tb)
  {
    hide ScanRest, Stops;
    forall rest | Stops(rest) ensures ScanRest(a + b + rest, FILTER_MARKS) == ta + tb + ScanRest(rest, FILTER_MARKS) {
      BeginsStops(b, rest);
      assert a + b + rest == a + (b + rest);
      assert ta + tb + ScanRest(rest, FILTER_MARKS) == ta + (tb + ScanRest(rest, FILTER_MARKS));
    }
  }

  lemma HereThenMark(a: string, ta: seq<Token>, c: char)
    requires ReadsHere(a, ta) && IsMark(c)
    ensures Reads(a + [c], ta + [SepToken(c)], FILTER_MARKS)
  {
    hide ScanRest;
    ReadsMark(c);
    forall rest ensures ScanRest(a + [c] + rest, FILTER_MARKS) == ta + [SepToken(c)] + ScanRest(rest, FILTER_MARKS) {
      assert a + [c] + rest == a + ([c] + rest);
      assert ScanRest([c] + rest, FILTER_MARKS) == [SepToken(c)] + ScanRest(rest, FILTER_MARKS);
      assert ta + [SepToken(c)] + ScanRest(rest, FILTER_MARKS) == ta + ([SepToken(c)] + ScanRest(rest, FILTER_MARKS));
    }
  }

  lemma ReadsAtEnd(text: string, toks: seq<Token>, rest: string)
    requires ReadsHere(text, toks) && Stops(rest)
    ensures ScanRest(text + rest, FILTER_MARKS) == toks + ScanRest(rest, FILTER_MARKS)
    ensures ScanRest(text, FILTER_MARKS) == toks
  {
    assert text + "" == text && ScanRest("", FILTER_MARKS) == [] && Stops("");
    assert ScanRest(text + "", FILTER_MARKS) == toks + ScanRest("", FILTER_MARKS);
  }

  // ----- Values -----

  /** A bare word, a number with a point, or a quoted string. */
  datatype Item = Bare(s: string) | Pointed(a: string, b: string) | Quoted(s: string)

  function ItemText(it: Item): string {
    match it
    case Bare(s) => s
    case Pointed(a, b) => a + "." + b
    case Quoted(s) => Quote(s)
  }

  function ItemTokens(it: Item): seq<Token> {
    match it
    case Bare(s) => [Token(s, false)]
    case Pointed(a, b) => [Token(a, false), SepToken('.'), Token(b, false)]
    case Quoted(s) => [Token(s, true)]
  }

  /** t is w in small or large letters. */
  predicate IsCaseOf(t: string, w: string) {
    |t| == |w| && forall i :: 0 <= i < |w| ==> t[i] == w[i] || ('a' <= w[i] <= 'z' && t[i] as int == w[i] as int - 32)
  }

  /** The keyword that a bare word is, in whatever case. */
  function KeywordOf(t: string): Option<string> {
    if IsCaseOf(t, "null") then Some("null")
    else if IsCaseOf(t, "true") then Some("true")
    else if IsCaseOf(t, "false") then Some("false")
    else if IsCaseOf(t, "unknown") then Some("unknown")
    else if IsCaseOf(t, "not_null") then Some("not_null")
    else None
  }

  predicate IsItem(it: Item) {
    match it
    case Bare(s) => IsBare(s)
    case Pointed(a, b) => IsBare(a) && IsBare(b) && KeywordOf(a).None?
    case Quoted(_) => true
  }

  lemma ReadsItem(it: Item)
    requires IsItem(it)
    ensures ReadsHere(ItemText(it), ItemTokens(it))
  {
    hide ReadsHere, KeywordOf, Quote;
    match it
    case Bare(s) => ReadsBare(s);
    case Pointed(a, b) =>
      ReadsBare(a);
      ReadsBare(b);
      HereThenMark(a, [Token(a, false)], '.');
      ReadThen(a + ".", [Token(a, false), SepToken('.')], b, [Token(b, false)]);
      assert [Token(a, false)] + [SepToken('.')] == [Token(a, false), SepToken('.')];
      assert [Token(a, false), SepToken('.')] + [Token(b, false)] == ItemTokens(it);
    case Quoted(s) =>
      MarksAreSeps('.');
      ReadsQuoted(s, FILTER_MARKS);
      ReadsThere(Quote(s), [Token(s, true)]);
  }

  /** What is meant: the keyword, or the text as it stands; on a path that ends in json, quoted
      strings are JSON strings. */
  function Meant(it: Item, json: bool): string {
    match it
    case Bare(s) => KeywordOf(s).GetOr(s)
    case Pointed(a, b) => a + "." + b
    case Quoted(s) => if json then QuoteJsonString(s) else s
  }

  /** LIKE and ILIKE read `*` as `%`; nothing else changes a value. */
  predicate IsReadAs(operator: string, v: string, w: string) {
    if operator == "LIKE" || operator == "ILIKE" then
      |w| == |v| && forall i :: 0 <= i < |v| ==> w[i] == if v[i] == '*' then '%' else v[i]
    else w == v
  }

  predicate HasNoCapitals(w: string) { forall i :: 0 <= i < |w| ==> !('A' <= w[i] <= 'Z') }

  lemma LowerExactly(t: string, w: string)
    requires HasNoCapitals(w)
    ensures ToLower(t) == w <==> IsCaseOf(t, w)
  {
    if ToLower(t) == w {
      forall i | 0 <= i < |w| ensures t[i] == w[i] || ('a' <= w[i] <= 'z' && t[i] as int == w[i] as int - 32) {
        assert ToLowerChar(t[i]) == w[i];
      }
    }
  }

  lemma KeywordExactly(t: string)
    ensures KeywordOf(t) == if IsBareWord(ToLower(t)) || ToLower(t) == "not_null" then Some(ToLower(t)) else None
  {
    hide ToLower, IsCaseOf;
    LowerExactly(t, "null");
    LowerExactly(t, "true");
    LowerExactly(t, "false");
    LowerExactly(t, "unknown");
    LowerExactly(t, "not_null");
  }

  lemma WildcardsExactly(operator: string, v: string)
    ensures IsReadAs(operator, v, Wildcards(operator, v))
  {
  }

  /** A value is read as it is meant, with the cursor behind it; after IS only keywords are. */
  lemma ItemIsRead(ts: seq<Token>, i: nat, it: Item, operator: string, jsonPath: string) returns (w: string)
    requires IsItem(it) && At(ts, i, ItemTokens(it)) && (it.Bare? ==> Peek(ts, i + 1) != ".")
    requires operator == "IS" ==> it.Bare? && KeywordOf(it.s).Some?
    ensures i <= |ts| && IsReadAs(operator, Meant(it, IsJsonTyped(jsonPath)), w)
    ensures ValueAt(ts, i, operator, jsonPath) == Ok([w], i + |ItemTokens(it)|)
  {
    hide IsJsonTyped, KeywordOf, Wildcards, QuoteJsonString, ValueAt, At, IsReadAs, IsBare;
    w := Wildcards(operator, Meant(it, IsJsonTyped(jsonPath)));
    WildcardsExactly(operator, Meant(it, IsJsonTyped(jsonPath)));
    match it
    case Bare(s) => BareIsRead(ts, i, s, operator, jsonPath);
    case Pointed(a, b) => PointedIsRead(ts, i, a, b, operator, jsonPath);
    case Quoted(s) => AtPeek(ts, i, ItemTokens(it), 0); QuotedIsRead(ts, i, s, operator, jsonPath);
  }

  lemma BareIsRead(ts: seq<Token>, i: nat, s: string, operator: string, jsonPath: string)
    requires IsBare(s) && At(ts, i, [Token(s, false)]) && Peek(ts, i + 1) != "." && (operator == "IS" ==> KeywordOf(s).Some?)
    ensures i < |ts| && ValueAt(ts, i, operator, jsonPath) == Ok([Wildcards(operator, KeywordOf(s).GetOr(s))], i + 1)
  {
    hide ToLower, KeywordOf, Wildcards, Brackets, Braces, At, IsBare;
    AtPeek(ts, i, [Token(s, false)], 0);
    KeywordExactly(s);
    BareIsNoMark(s);
    assert s + "" == s;
  }

  lemma PointedIsRead(ts: seq<Token>, i: nat, a: string, b: string, operator: string, jsonPath: string)
    requires IsBare(a) && KeywordOf(a).None? && operator != "IS" && At(ts, i, ItemTokens(Pointed(a, b)))
    ensures i + 3 <= |ts| && ValueAt(ts, i, operator, jsonPath) == Ok([Wildcards(operator, a + "." + b)], i + 3)
  {
    hide ToLower, KeywordOf, Wildcards, Brackets, Braces, At, IsBare;
    var toks := ItemTokens(Pointed(a, b));
    AtPeek(ts, i, toks, 0);
    AtPeek(ts, i, toks, 1);
    AtPeek(ts, i, toks, 2);
    KeywordExactly(a);
    BareIsNoMark(a);
    assert a + ("." + b) == a + "." + b;
  }

  lemma QuotedIsRead(ts: seq<Token>, i: nat, s: string, operator: string, jsonPath: string)
    requires i < |ts| && ts[i] == Token(s, true)
    ensures ValueAt(ts, i, operator, jsonPath) == Ok([Wildcards(operator, if IsJsonTyped(jsonPath) then QuoteJsonString(s) else s)], i + 1)
  {
    hide IsJsonTyped, Wildcards, QuoteJsonString, Brackets, Braces, ToLower;
  }

  lemma BareIsNoMark(s: string)
    requires IsBare(s)
    ensures s != "" && s != ")" && s != "(" && s != "[" && s != "{" && s != "." && s != "]" && s != "}" && s != ","
  {
    assert s[0] !in SEP;
    assert SEP[1] == '.' && SEP[2] == ',' && SEP[3] == '(' && SEP[4] == ')' && SEP[5] == '[' && SEP[6] == ']' && SEP[7] == '{' && SEP[8] == '}';
  }

  /** IS is followed by a keyword or rejected. */
  lemma IsNeedsKeyword(ts: seq<Token>, i: nat, s: string, jsonPath: string)
    requires IsBare(s) && At(ts, i, [Token(s, false)]) && KeywordOf(s).None?
    ensures i <= |ts| && ValueAt(ts, i, "IS", jsonPath).Err?
  {
    hide ToLower, KeywordOf, Brackets, Braces;
    AtPeek(ts, i, [Token(s, false)], 0);
    KeywordExactly(s);
    BareIsNoMark(s);
  }

  // ----- Lists -----

  function ItemsText(its: seq<Item>): string {
    if its == [] then "" else if |its| == 1 then ItemText(its[0]) else ItemText(its[0]) + "," + ItemsText(its[1..])
  }

  function ItemsTokens(its: seq<Item>): seq<Token> {
    if its == [] then [] else if |its| == 1 then ItemTokens(its[0]) else ItemTokens(its[0]) + [SepToken(',')] + ItemsTokens(its[1..])
  }

  predicate AreItems(its: seq<Item>) { forall i :: 0 <= i < |its| ==> IsItem(its[i]) }

  lemma {:induction false} ReadsItems(its: seq<Item>, close: char)
    requires AreItems(its) && IsMark(close)
    ensures Reads(ItemsText(its) + [close], ItemsTokens(its) + [SepToken(close)], FILTER_MARKS)
  {
    hide Reads, ReadsHere, IsItem, ItemText, ItemTokens;
    if its == [] {
      ReadsMark(close);
      assert "" + [close] == [close] && [] + [SepToken(close)] == [SepToken(close)];
    } else {
      ReadsItem(its[0]);
      if |its| == 1 {
        HereThenMark(ItemText(its[0]), ItemTokens(its[0]), close);
      } else {
        HereThenMark(ItemText(its[0]), ItemTokens(its[0]), ',');
        ReadsItems(its[1..], close);
        ReadsConcat(ItemText(its[0]) + ",", ItemTokens(its[0]) + [SepToken(',')], ItemsText(its[1..]) + [close], ItemsTokens(its[1..]) + [SepToken(close)],
                    FILTER_MARKS);
        assert ItemsText(its) + [close] == ItemText(its[0]) + "," + (ItemsText(its[1..]) + [close]);
        assert ItemsTokens(its) + [SepToken(close)] == ItemTokens(its[0]) + [SepToken(',')] + (ItemsTokens(its[1..]) + [SepToken(close)]);
      }
    }
  }

  /** Values that were read, one for each item. */
  predicate AreReadAs(operator: string, its: seq<Item>, json: bool, ws: seq<string>) {
    |ws| == |its| && forall i :: 0 <= i < |its| ==> IsReadAs(operator, Meant(its[i], json), ws[i])
  }

  lemma {:induction false} ItemsAreRead(ts: seq<Token>, i: nat, its: seq<Item>, close: char, operator: string, jsonPath: string, acc: seq<string>)
    returns (ws: seq<string>)
    requires AreItems(its) && At(ts, i, ItemsTokens(its) + [SepToken(close)]) && operator != "IS"
    requires close == ')' || (close == '}' && its != [])
    ensures AreReadAs(operator, its, IsJsonTyped(jsonPath), ws)
    ensures ValueList(ts, i, operator, jsonPath, acc) == Ok((acc + ws, [close]), i + |ItemsTokens(its)| + 1)
    decreases |its|
  {
    hide ValueAt, IsItem, ItemTokens, Meant, IsReadAs, IsJsonTyped, At, Peek, After;
    if its == [] {
      ws := [];
      NoItemsAreRead(ts, i, operator, jsonPath, acc);
      assert acc + [] == acc;
    } else {
      var w := FirstItemIsRead(ts, i, its, close, operator, jsonPath);
      var j := i + |ItemTokens(its[0])|;
      if |its| == 1 {
        ws := [w];
      } else {
        var more := ItemsAreRead(ts, j + 1, its[1..], close, operator, jsonPath, acc + [w]);
        ws := [w] + more;
        assert acc + [w] + more == acc + ws;
        forall k | 0 <= k < |its| ensures IsReadAs(operator, Meant(its[k], IsJsonTyped(jsonPath)), ws[k]) {
          assert k > 0 ==> ws[k] == more[k - 1] && its[k] == its[1..][k - 1];
        }
      }
    }
  }

  lemma NoItemsAreRead(ts: seq<Token>, i: nat, operator: string, jsonPath: string, acc: seq<string>)
    requires At(ts, i, ItemsTokens([]) + [SepToken(')')])
    ensures i < |ts| && ValueList(ts, i, operator, jsonPath, acc) == Ok((acc, ")"), i + 1)
  {
    hide Brackets, Braces;
    AtPeek(ts, i, ItemsTokens([]) + [SepToken(')')], 0);
    assert acc + [] == acc;
  }

  function MoreItems(its: seq<Item>, close: char): seq<Token>
    requires its != []
  {
    if |its| == 1 then [SepToken(close)] else [SepToken(',')] + (ItemsTokens(its[1..]) + [SepToken(close)])
  }

  lemma ItemsSplit(its: seq<Item>, close: char)
    requires its != []
    ensures ItemsTokens(its) + [SepToken(close)] == ItemTokens(its[0]) + MoreItems(its, close)
  {
  }

  lemma FirstItemIsRead(ts: seq<Token>, i: nat, its: seq<Item>, close: char, operator: string, jsonPath: string) returns (w: string)
    requires its != [] && AreItems(its) && At(ts, i, ItemsTokens(its) + [SepToken(close)]) && operator != "IS" && close != '.'
    ensures var j := i + |ItemTokens(its[0])|;
      && j < |ts| && ValueAt(ts, i, operator, jsonPath) == Ok([w], j) && After(ts, j) == j + 1
      && IsReadAs(operator, Meant(its[0], IsJsonTyped(jsonPath)), w)
      && Peek(ts, j) == (if |its| == 1 then [close] else ",")
      && (|its| > 1 ==> At(ts, j + 1, ItemsTokens(its[1..]) + [SepToken(close)]))
  {
    hide ValueAt, Meant, IsReadAs, IsJsonTyped, At, Peek, After, IsItem, ItemTokens, ItemsTokens;
    BareIsOne(its[0]);
    var first, more := ItemTokens(its[0]), MoreItems(its, close);
    ItemsSplit(its, close);
    AtSplit(ts, i, first, more);
    AtPeek(ts, i + |first|, more, 0);
    if |its| > 1 {
      AtSplit(ts, i + |first|, [SepToken(',')], ItemsTokens(its[1..]) + [SepToken(close)]);
    }
    w := ItemIsRead(ts, i, its[0], operator, jsonPath);
  }

  lemma BareIsOne(it: Item)
    ensures it.Bare? ==> |ItemTokens(it)| == 1
  {
  }

  /** The list in its brackets. */
  lemma ClosedListIsRead(ts: seq<Token>, i: nat, open: char, its: seq<Item>, close: char, operator: string, jsonPath: string)
    returns (ws: seq<string>)
    requires AreItems(its) && At(ts, i, [SepToken(open)] + (ItemsTokens(its) + [SepToken(close)])) && operator != "IS"
    requires close == ')' || (close == '}' && its != [])
    ensures i <= |ts| && AreReadAs(operator, its, IsJsonTyped(jsonPath), ws)
    ensures ClosedList(ts, i, [open], [close], operator, jsonPath) == Ok(ws, i + |ItemsTokens(its)| + 2)
  {
    hide ValueList, AreReadAs, IsJsonTyped;
    var toks := [SepToken(open)] + (ItemsTokens(its) + [SepToken(close)]);
    AtPeek(ts, i, toks, 0);
    AtSplit(ts, i, [SepToken(open)], ItemsTokens(its) + [SepToken(close)]);
    ws := ItemsAreRead(ts, i + 1, its, close, operator, jsonPath, []);
    assert [] + ws == ws;
  }

  // ----- Arrays, ranges and composites -----

  /** {a,{b,c}}, [1,5), (a,b): brackets nested to any depth. */
  datatype Part = Leaf(it: Item) | Nest(open: char, parts: seq<Part>, close: char)

  function PartText(p: Part): string
    decreases p
  {
    match p
    case Leaf(it) => ItemText(it)
    case Nest(open, parts, close) => [open] + PartsText(parts) + [close]
  }

  function PartsText(ps: seq<Part>): string
    decreases ps, 0
  {
    if ps == [] then "" else if |ps| == 1 then PartText(ps[0]) else PartText(ps[0]) + "," + PartsText(ps[1..])
  }

  function PartTokens(p: Part): seq<Token>
    decreases p
  {
    match p
    case Leaf(it) => ItemTokens(it)
    case Nest(open, parts, close) => [SepToken(open)] + (PartsTokens(parts) + [SepToken(close)])
  }

  function PartsTokens(ps: seq<Part>): seq<Token>
    decreases ps, 0
  {
    if ps == [] then [] else if |ps| == 1 then PartTokens(ps[0]) else PartTokens(ps[0]) + [SepToken(',')] + PartsTokens(ps[1..])
  }

  /** Braces hold arrays, the other brackets ranges and composites. Inside, a quoted point would be
      taken for the point of a number, and in arrays a word has none. */
  predicate IsPart(p: Part, braces: bool)
    decreases p
  {
    match p
    case Leaf(it) => IsItem(it) && it != Quoted(".") && (braces && it.Pointed? ==> !IsLetter(it.a[0]))
    case Nest(open, parts, close) =>
      && (if braces then open == '{' && close == '}' else (open == '(' || open == '[') && (close == ')' || close == ']'))
      && forall i :: 0 <= i < |parts| ==> IsPart(parts[i], braces)
  }

  lemma LettersExactly(c: char)
    ensures (c as int) < 0x80 ==> (IsLetter(c) <==> 'a' <= c <= 'z' || 'A' <= c <= 'Z')
  {
  }

  /** How a part reaches PostgreSQL: quoted strings in its own quotes, and in arrays words as well,
      but for the literals of JSON. */
  function Passed(p: Part, braces: bool): string
    decreases p
  {
    match p
    case Leaf(Bare(s)) => if braces && s != "" && IsLetter(s[0]) && s != "true" && s != "false" && s != "null" then QuoteJsonString(s) else s
    case Leaf(Pointed(a, b)) => a + "." + b
    case Leaf(Quoted(s)) => QuoteJsonString(s)
    case Nest(open, parts, close) => [open] + PassedParts(parts, braces) + [close]
  }

  function PassedParts(ps: seq<Part>, braces: bool): string
    decreases ps, 0
  {
    if ps == [] then "" else if |ps| == 1 then Passed(ps[0], braces) else Passed(ps[0], braces) + "," + PassedParts(ps[1..], braces)
  }

  /** The rest of what stands in brackets. */
  function Nested(braces: bool, ts: seq<Token>, i: nat, level: nat, acc: string): Parsed<string>
    requires i <= |ts|
  {
    if braces then Braces(ts, i, level, acc) else Brackets(ts, i, level, acc)
  }

  /** One token that is no bracket, with the point and the digits that may follow it. */
  lemma TokenStep(braces: bool, ts: seq<Token>, i: nat, level: nat, acc: string)
    requires level > 0 && i < |ts| && (ts[i].quoted || IsBare(ts[i].text))
    ensures var t := ts[i];
      var passed := if t.quoted then QuoteJsonString(t.text) else Passed(Leaf(Bare(t.text)), braces);
      Nested(braces, ts, i, level, acc) == Nested(braces, ts, AfterFloat(ts, i + 1), level, acc + passed + FloatTail(ts, i + 1))
  {
    hide QuoteJsonString, KeywordOf, IsLetter, FloatTail, AfterFloat;
    if !ts[i].quoted {
      BareIsNoMark(ts[i].text);
    }
    var passed := if ts[i].quoted then QuoteJsonString(ts[i].text) else Passed(Leaf(Bare(ts[i].text)), braces);
    assert acc + (passed + FloatTail(ts, i + 1)) == acc + passed + FloatTail(ts, i + 1);
  }

  lemma NothingPointed(ts: seq<Token>, i: nat)
    requires i <= |ts| && Peek(ts, i) != "."
    ensures FloatTail(ts, i) == "" && AfterFloat(ts, i) == i
  {
  }

  lemma PointedStep(braces: bool, ts: seq<Token>, i: nat, level: nat, acc: string, it: Item)
    requires level > 0 && it.Pointed? && IsPart(Leaf(it), braces) && At(ts, i, ItemTokens(it))
    ensures i + 3 <= |ts|
    ensures Nested(braces, ts, i, level, acc) == Nested(braces, ts, i + 3, level, acc + Passed(Leaf(it), braces))
  {
    hide QuoteJsonString, KeywordOf, IsLetter, Nested, IsBare;
    var toks := ItemTokens(it);
    AtPeek(ts, i, toks, 0);
    AtPeek(ts, i, toks, 1);
    AtPeek(ts, i, toks, 2);
    TokenStep(braces, ts, i, level, acc);
    BareIsNoMark(it.a);
    assert acc + it.a + ("." + it.b) == acc + (it.a + "." + it.b);
  }

  lemma LeafStep(braces: bool, ts: seq<Token>, i: nat, level: nat, acc: string, it: Item)
    requires level > 0 && IsPart(Leaf(it), braces) && At(ts, i, ItemTokens(it)) && Peek(ts, i + |ItemTokens(it)|) != "."
    ensures i + |ItemTokens(it)| <= |ts|
    ensures Nested(braces, ts, i, level, acc) == Nested(braces, ts, i + |ItemTokens(it)|, level, acc + Passed(Leaf(it), braces))
  {
    hide QuoteJsonString, KeywordOf, IsLetter, Nested, IsBare, FloatTail, AfterFloat;
    if it.Pointed? {
      PointedStep(braces, ts, i, level, acc, it);
    } else {
      AtPeek(ts, i, ItemTokens(it), 0);
      TokenStep(braces, ts, i, level, acc);
      NothingPointed(ts, i + 1);
      assert acc + Passed(Leaf(it), braces) + "" == acc + Passed(Leaf(it), braces);
    }
  }

  /** A bracket or a comma. */
  lemma MarkStep(braces: bool, ts: seq<Token>, i: nat, level: nat, acc: string, c: char)
    requires level > 0 && At(ts, i, [SepToken(c)]) && Peek(ts, i + 1) != "."
    requires c == ',' || (if braces then c == '{' || c == '}' else c == '(' || c == '[' || c == ')' || c == ']')
    ensures i < |ts|
    ensures var level' := if c == ',' then level else if c == '{' || c == '(' || c == '[' then level + 1 else level - 1;
      Nested(braces, ts, i, level, acc) == Nested(braces, ts, i + 1, level', acc + [c])
  {
    hide Nested;
    AtPeek(ts, i, [SepToken(c)], 0);
    if braces {
      BraceStep(ts, i, level, acc, c);
    } else {
      BracketStep(ts, i, level, acc, c);
    }
  }

  lemma BraceStep(ts: seq<Token>, i: nat, level: nat, acc: string, c: char)
    requires level > 0 && i < |ts| && ts[i] == SepToken(c) && Peek(ts, i + 1) != "." && (c == ',' || c == '{' || c == '}')
    ensures Nested(true, ts, i, level, acc)
         == Nested(true, ts, i + 1, if c == ',' then level else if c == '{' then level + 1 else level - 1, acc + [c])
  {
    hide FloatTail, AfterFloat, QuoteJsonString;
    NothingPointed(ts, i + 1);
    assert acc + [c] + "" == acc + [c] && !IsLetter(',');
  }

  lemma BracketStep(ts: seq<Token>, i: nat, level: nat, acc: string, c: char)
    requires level > 0 && i < |ts| && ts[i] == SepToken(c) && Peek(ts, i + 1) != "."
    requires c == ',' || c == '(' || c == '[' || c == ')' || c == ']'
    ensures Nested(false, ts, i, level, acc)
         == Nested(false, ts, i + 1, if c == ',' then level else if c == '(' || c == '[' then level + 1 else level - 1, acc + [c])
  {
    hide FloatTail, AfterFloat, QuoteJsonString;
    NothingPointed(ts, i + 1);
    assert acc + [c] + "" == acc + [c];
  }

  lemma FirstToken(p: Part, braces: bool)
    requires IsPart(p, braces)
    ensures PartTokens(p) != [] && PartTokens(p)[0].text != "."
  {
    hide KeywordOf;
    match p
    case Leaf(Bare(s)) => BareIsNoMark(s);
    case Leaf(Pointed(a, b)) => BareIsNoMark(a);
    case _ =>
  }

  lemma {:induction false} PartIsRead(braces: bool, ts: seq<Token>, i: nat, level: nat, acc: string, p: Part)
    requires level > 0 && IsPart(p, braces) && At(ts, i, PartTokens(p)) && Peek(ts, i + |PartTokens(p)|) != "."
    ensures i + |PartTokens(p)| <= |ts|
    ensures Nested(braces, ts, i, level, acc) == Nested(braces, ts, i + |PartTokens(p)|, level, acc + Passed(p, braces))
    decreases p
  {
    hide Nested, At, Peek, After, PartsTokens, PassedParts;
    match p
    case Leaf(it) =>
      AtEnds(ts, i, PartTokens(p));
      LeafStep(braces, ts, i, level, acc, it);
    case Nest(open, parts, close) =>
      var inside := PartsTokens(parts) + [SepToken(close)];
      AtEnds(ts, i, PartTokens(p));
      AtSplit(ts, i, [SepToken(open)], inside);
      AfterOpen(braces, ts, i + 1, parts, close);
      MarkStep(braces, ts, i, level, acc, open);
      PartsAreRead(braces, ts, i + 1, level + 1, acc + [open], parts, close);
      AtSplit(ts, i + 1, PartsTokens(parts), [SepToken(close)]);
      MarkStep(braces, ts, i + 1 + |PartsTokens(parts)|, level + 1, acc + [open] + PassedParts(parts, braces), close);
      assert acc + [open] + PassedParts(parts, braces) + [close] == acc + ([open] + PassedParts(parts, braces) + [close]);
  }

  lemma AtEnds(ts: seq<Token>, i: nat, toks: seq<Token>)
    requires At(ts, i, toks)
    ensures i + |toks| <= |ts|
  {
  }

  lemma AfterOpen(braces: bool, ts: seq<Token>, i: nat, parts: seq<Part>, close: char)
    requires At(ts, i, PartsTokens(parts) + [SepToken(close)]) && close != '.' && forall k :: 0 <= k < |parts| ==> IsPart(parts[k], braces)
    ensures i < |ts| && Peek(ts, i) != "."
  {
    hide At, Peek, IsPart;
    AtPeek(ts, i, PartsTokens(parts) + [SepToken(close)], 0);
    if parts != [] {
      FirstToken(parts[0], braces);
    }
  }

  lemma {:induction false} PartsAreRead(braces: bool, ts: seq<Token>, i: nat, level: nat, acc: string, ps: seq<Part>, close: char)
    requires level > 0 && (forall k :: 0 <= k < |ps| ==> IsPart(ps[k], braces))
    requires At(ts, i, PartsTokens(ps) + [SepToken(close)]) && close != '.'
    ensures i + |PartsTokens(ps)| < |ts|
    ensures Nested(braces, ts, i, level, acc) == Nested(braces, ts, i + |PartsTokens(ps)|, level, acc + PassedParts(ps, braces))
    decreases ps, 0
  {
    hide Nested, At, Peek, After, PartTokens, Passed, IsPart;
    AtEnds(ts, i, PartsTokens(ps) + [SepToken(close)]);
    if ps == [] {
      assert acc + "" == acc;
    } else if |ps| == 1 {
      AtSplit(ts, i, PartTokens(ps[0]), [SepToken(close)]);
      AtPeek(ts, i + |PartTokens(ps[0])|, [SepToken(close)], 0);
      PartIsRead(braces, ts, i, level, acc, ps[0]);
    } else {
      var first, more := PartTokens(ps[0]), PartsTokens(ps[1..]) + [SepToken(close)];
      var j := i + |first|;
      assert PartsTokens(ps) + [SepToken(close)] == first + ([SepToken(',')] + more);
      AtSplit(ts, i, first, [SepToken(',')] + more);
      AtPeek(ts, j, [SepToken(',')] + more, 0);
      AtSplit(ts, j, [SepToken(',')], more);
      PartIsRead(braces, ts, i, level, acc, ps[0]);
      AfterOpen(braces, ts, j + 1, ps[1..], close);
      MarkStep(braces, ts, j, level, acc + Passed(ps[0], braces), ',');
      PartsAreRead(braces, ts, j + 1, level, acc + Passed(ps[0], braces) + ",", ps[1..], close);
      assert acc + Passed(ps[0], braces) + "," + PassedParts(ps[1..], braces) == acc + PassedParts(ps, braces);
    }
  }

  /** A value in brackets is read up to the bracket that closes the first one. */
  lemma NestIsRead(ts: seq<Token>, i: nat, p: Part, braces: bool, operator: string, jsonPath: string) returns (w: string)
    requires p.Nest? && IsPart(p, braces) && At(ts, i, PartTokens(p)) && Peek(ts, i + |PartTokens(p)|) != "."
    ensures i <= |ts| && IsReadAs(operator, Passed(p, braces), w)
    ensures ValueAt(ts, i, operator, jsonPath) == Ok([w], i + |PartTokens(p)|)
  {
    hide IsJsonTyped, ToLower, Wildcards, PartsTokens, PassedParts, Passed, At, Peek, Nested;
    w := Wildcards(operator, Passed(p, braces));
    WildcardsExactly(operator, Passed(p, braces));
    var inside, j := PartsTokens(p.parts) + [SepToken(p.close)], i + 1 + |PartsTokens(p.parts)|;
    AtEnds(ts, i, PartTokens(p));
    AtPeek(ts, i, PartTokens(p), 0);
    AtSplit(ts, i, [SepToken(p.open)], inside);
    AtSplit(ts, i + 1, PartsTokens(p.parts), [SepToken(p.close)]);
    PartsAreRead(braces, ts, i + 1, 1, [p.open], p.parts, p.close);
    MarkStep(braces, ts, j, 1, [p.open] + PassedParts(p.parts, braces), p.close);
    NestEnds(braces, ts, j + 1, [p.open] + PassedParts(p.parts, braces) + [p.close]);
    PassedNest(p, braces);
    ValueInBrackets(ts, i, braces, p.open, operator, jsonPath);
  }

  lemma PassedNest(p: Part, braces: bool)
    requires p.Nest?
    ensures Passed(p, braces) == [p.open] + PassedParts(p.parts, braces) + [p.close]
  {
  }

  lemma NestEnds(braces: bool, ts: seq<Token>, i: nat, acc: string)
    requires i <= |ts|
    ensures Nested(braces, ts, i, 0, acc) == Ok(acc, i)
  {
  }

  lemma ValueInBrackets(ts: seq<Token>, i: nat, braces: bool, open: char, operator: string, jsonPath: string)
    requires i < |ts| && Peek(ts, i) == [open] && !PeekQuoted(ts, i) && if braces then open == '{' else open == '(' || open == '['
    ensures var r := Nested(braces, ts, i + 1, 1, [open]);
      r.Ok? ==> ValueAt(ts, i, operator, jsonPath) == Ok([Wildcards(operator, r.value)], r.cur)
  {
    hide Brackets, Braces, Wildcards, ToLower;
  }

  lemma {:induction false} ReadsPart(p: Part, braces: bool)
    requires IsPart(p, braces)
    ensures ReadsHere(PartText(p), PartTokens(p))
    decreases p
  {
    hide ReadsHere, Reads, ItemText, ItemTokens, PartsText, PartsTokens, IsItem;
    match p
    case Leaf(it) =>
      ReadsItem(it);
    case Nest(open, parts, close) =>
      BracketsAreMarks(open, close, braces);
      ReadsParts(parts, close, braces);
      ReadsMark(open);
      ReadsConcat([open], [SepToken(open)], PartsText(parts) + [close], PartsTokens(parts) + [SepToken(close)], FILTER_MARKS);
      assert [open] + PartsText(parts) + [close] == [open] + (PartsText(parts) + [close]);
      ReadsThere(PartText(p), PartTokens(p));
  }

  lemma BracketsAreMarks(open: char, close: char, braces: bool)
    requires if braces then open == '{' && close == '}' else (open == '(' || open == '[') && (close == ')' || close == ']')
    ensures IsMark(open) && IsMark(close)
  {
    assert SEP[3] == '(' && SEP[4] == ')' && SEP[5] == '[' && SEP[6] == ']' && SEP[7] == '{' && SEP[8] == '}';
  }

  lemma {:induction false} ReadsParts(ps: seq<Part>, close: char, braces: bool)
    requires (forall k :: 0 <= k < |ps| ==> IsPart(ps[k], braces)) && IsMark(close)
    ensures Reads(PartsText(ps) + [close], PartsTokens(ps) + [SepToken(close)], FILTER_MARKS)
    decreases ps, 0
  {
    hide Reads, ReadsHere, IsPart, PartText, PartTokens;
    if ps == [] {
      ReadsMark(close);
      assert "" + [close] == [close] && [] + [SepToken(close)] == [SepToken(close)];
    } else {
      ReadsPart(ps[0], braces);
      if |ps| == 1 {
        HereThenMark(PartText(ps[0]), PartTokens(ps[0]), close);
      } else {
        HereThenMark(PartText(ps[0]), PartTokens(ps[0]), ',');
        ReadsParts(ps[1..], close, braces);
        ReadsConcat(PartText(ps[0]) + ",", PartTokens(ps[0]) + [SepToken(',')], PartsText(ps[1..]) + [close], PartsTokens(ps[1..]) + [SepToken(close)],
                    FILTER_MARKS);
        assert PartsText(ps) + [close] == PartText(ps[0]) + "," + (PartsText(ps[1..]) + [close]);
        assert PartsTokens(ps) + [SepToken(close)] == PartTokens(ps[0]) + [SepToken(',')] + (PartsTokens(ps[1..]) + [SepToken(close)]);
      }
    }
  }
}
