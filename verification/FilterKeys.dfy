/** The keys of filters: a column, the tables in front of it, and the json path behind it. */
module FilterKeys {
  import opened Sql
  import opened Decimals
  import opened Filters
  import opened Scanner
  import opened FilterGrammar
  import opened FilterRoundTrip
  import opened FilterTexts

  // ----- Keys: table.column->member->>member -----

  /** A step of a json path, by name (perhaps in quotes) or by position; ->> if as text. */
  datatype Member = Named(asText: bool, quoted: bool, s: string) | Index(asText: bool, n: nat)

  datatype Key = Key(path: seq<string>, name: string, members: seq<Member>)

  predicate IsNoNumber(s: string) { exists i :: 0 <= i < |s| && !IsDigit(s[i]) && s[i] != '-' && s[i] != '+' }

  predicate IsMember(m: Member) {
    match m
    case Named(_, quoted, s) => IsNoNumber(s) && (!quoted ==> IsBare(s) && s[0] != '>')
    case Index(_, n) => n < 0x8000_0000_0000_0000
  }

  predicate IsKey(k: Key) {
    && (forall i :: 0 <= i < |k.path| ==> IsBare(k.path[i])) && IsBare(k.name)
    && (forall i :: 0 <= i < |k.members| ==> IsMember(k.members[i]))
  }

  function Arrow(asText: bool): string { if asText then "->>" else "->" }

  function StepText(m: Member): string {
    match m
    case Named(_, quoted, s) => if quoted then Quote(s) else s
    case Index(_, n) => Dec(n)
  }

  function MembersText(ms: seq<Member>): string {
    if ms == [] then "" else Arrow(ms[0].asText) + StepText(ms[0]) + MembersText(ms[1..])
  }

  function StepToken(m: Member): Token {
    match m
    case Named(_, quoted, s) => Token(s, quoted)
    case Index(_, n) => Token(Dec(n), false)
  }

  function MembersTokens(ms: seq<Member>): seq<Token> {
    if ms == [] then [] else [Token(Arrow(ms[0].asText), false), StepToken(ms[0])] + MembersTokens(ms[1..])
  }

  function PathText(path: seq<string>): string { if path == [] then "" else path[0] + "." + PathText(path[1..]) }

  function PathTokens(path: seq<string>): seq<Token> {
    if path == [] then [] else [Token(path[0], false), SepToken('.')] + PathTokens(path[1..])
  }

  function KeyText(k: Key): string { PathText(k.path) + (k.name + MembersText(k.members)) }

  function KeyTokens(k: Key): seq<Token> { PathTokens(k.path) + ([Token(k.name, false)] + MembersTokens(k.members)) }

  /** The path as it stands in SQL: names as literals, positions as numbers. */
  function SqlPath(ms: seq<Member>): string {
    if ms == [] then "" else ArrowAndStep(ms[0]) + SqlPath(ms[1..])
  }

  function ArrowAndStep(m: Member): string { Arrow(m.asText) + SqlStep(m) }

  function SqlStep(m: Member): string { match m case Named(_, _, s) => QuoteLit(s) case Index(_, n) => Dec(n) }

  /** The last member with a name, which labels the column. */
  function LastNamed(ms: seq<Member>, otherwise: string): string {
    if ms == [] then otherwise else LastNamed(ms[1..], if ms[0].Named? then ms[0].s else otherwise)
  }

  /** The column that a key names: of the last table in front, or of the table queried. */
  function KeyField(k: Key, mainTable: string): Field {
    Field(k.name, if k.path == [] then mainTable else k.path[|k.path| - 1], k.path, SqlPath(k.members),
          if k.members == [] then "" else LastNamed(k.members, k.name))
  }

  // ----- Scanning a key -----

  lemma ArrowIsFound(asText: bool, b: string)
    requires b != "" && b[0] != '>'
    ensures LongSepAt(Arrow(asText) + b, LONG_SEP) == Arrow(asText)
  {
    var r := Arrow(asText) + b;
    assert r[0] == '-' && r[1] == '>' && r[2] == if asText then '>' else b[0];
    ArrowIsLong(r);
  }

  lemma ReadsArrow(asText: bool, b: string, tb: seq<Token>)
    requires ReadsHere(b, tb) && b != "" && b[0] != '>'
    ensures ReadsHere(Arrow(asText) + b, [Token(Arrow(asText), false)] + tb) && Begins(Arrow(asText) + b)
  {
    hide Scan, LongSepAt;
    var arrow := Arrow(asText);
    forall rest | Stops(rest)
      ensures ScanRest(arrow + b + rest, FILTER_MARKS) == [Token(arrow, false)] + tb + ScanRest(rest, FILTER_MARKS)
    {
      assert arrow + b + rest == arrow + (b + rest);
      ArrowIsFound(asText, b + rest);
      ScanArrow(arrow, b + rest);
      ReadsAtEnd(b, tb, rest);
      assert [Token(arrow, false)] + (tb + ScanRest(rest, FILTER_MARKS)) == [Token(arrow, false)] + tb + ScanRest(rest, FILTER_MARKS);
    }
  }

  lemma ScanArrow(arrow: string, r: string)
    requires arrow != "" && arrow[0] == '-' && LongSepAt(arrow + r, LONG_SEP) == arrow
    ensures ScanRest(arrow + r, FILTER_MARKS) == [Token(arrow, false)] + ScanRest(r, FILTER_MARKS)
  {
    hide LongSepAt;
    assert (arrow + r)[|arrow|..] == r && (arrow + r)[0] == arrow[0];
    assert Flush("") + [Token(arrow, false)] == [Token(arrow, false)];
  }

  lemma DigitsAreBare(d: string)
    requires d != "" && AllDigits(d)
    ensures IsBare(d)
  {
    forall i | 0 <= i < |d| ensures d[i] !in SEP && !IsQuote(d[i]) && d[i] != '\\' && d[i] != '-' && d[i] != ' ' {
      assert IsDigit(d[i]);
    }
  }

  lemma ReadsStep(m: Member)
    requires IsMember(m)
    ensures ReadsHere(StepText(m), [StepToken(m)]) && StepText(m) != "" && StepText(m)[0] != '>'
  {
    hide ReadsHere, IsBare, Dec;
    match m
    case Named(_, quoted, s) =>
      if quoted {
        ReadsItem(Quoted(s));
      } else {
        BareIsNoMark(s);
        ReadsBare(s);
      }
    case Index(_, n) =>
      DigitsAreBare(Dec(n));
      ReadsBare(Dec(n));
      assert IsDigit(Dec(n)[0]);
  }

  lemma {:induction false} ReadsMembers(ms: seq<Member>)
    requires forall i :: 0 <= i < |ms| ==> IsMember(ms[i])
    ensures ReadsHere(MembersText(ms), MembersTokens(ms)) && (ms != [] ==> Begins(MembersText(ms)))
  {
    hide ReadsHere, Reads, StepText, StepToken, IsMember;
    if ms == [] {
      ReadsNothing(FILTER_MARKS);
      ReadsThere("", []);
    } else {
      var m, more := ms[0], MembersText(ms[1..]);
      ReadsStep(m);
      ReadsMembers(ms[1..]);
      if ms[1..] == [] {
        assert StepText(m) + more == StepText(m);
        assert [StepToken(m)] + MembersTokens(ms[1..]) == [StepToken(m)];
      } else {
        HereThen(StepText(m), [StepToken(m)], more, MembersTokens(ms[1..]));
      }
      ReadsArrow(m.asText, StepText(m) + more, [StepToken(m)] + MembersTokens(ms[1..]));
      assert MembersText(ms) == Arrow(m.asText) + (StepText(m) + more);
      assert MembersTokens(ms) == [Token(Arrow(m.asText), false)] + ([StepToken(m)] + MembersTokens(ms[1..]));
    }
  }

  lemma {:induction false} ReadsPath(path: seq<string>)
    requires forall i :: 0 <= i < |path| ==> IsBare(path[i])
    ensures Reads(PathText(path), PathTokens(path), FILTER_MARKS)
  {
    hide ReadsHere, Reads, IsBare;
    if path == [] {
      ReadsNothing(FILTER_MARKS);
    } else {
      ReadsBare(path[0]);
      HereThenMark(path[0], [Token(path[0], false)], '.');
      assert [Token(path[0], false)] + [SepToken('.')] == [Token(path[0], false), SepToken('.')];
      ReadsPath(path[1..]);
      ReadsConcat(path[0] + ".", [Token(path[0], false), SepToken('.')], PathText(path[1..]), PathTokens(path[1..]), FILTER_MARKS);
    }
  }

  lemma ReadsKey(k: Key)
    requires IsKey(k)
    ensures ReadsHere(KeyText(k), KeyTokens(k))
  {
    hide ReadsHere, Reads, IsBare, PathText, PathTokens, MembersText, MembersTokens;
    ReadsPath(k.path);
    ReadsBare(k.name);
    ReadsMembers(k.members);
    if k.members == [] {
      NoMembers();
      assert k.name + "" == k.name && [Token(k.name, false)] + [] == [Token(k.name, false)];
    } else {
      HereThen(k.name, [Token(k.name, false)], MembersText(k.members), MembersTokens(k.members));
    }
    ReadThen(PathText(k.path), PathTokens(k.path), k.name + MembersText(k.members), [Token(k.name, false)] + MembersTokens(k.members));
  }

  lemma NoMembers()
    ensures MembersText([]) == "" && MembersTokens([]) == []
  {
  }

  // ----- Parsing a key -----

  lemma NameIsNoInteger(s: string)
    requires IsNoNumber(s)
    ensures s != "" && !IsInteger(s)
  {
    hide Val;
    var i :| 0 <= i < |s| && !IsDigit(s[i]) && s[i] != '-' && s[i] != '+';
    if s[0] == '-' || s[0] == '+' {
      assert s[1..][i - 1] == s[i];
    }
  }

  lemma PositionIsInteger(n: nat)
    requires n < 0x8000_0000_0000_0000
    ensures Dec(n) != "" && IsInteger(Dec(n))
  {
    hide Dec;
    assert IsDigit(Dec(n)[0]);
  }

  lemma MemberIsFound(ts: seq<Token>, i: nat, m: Member, path: string, last: string)
    requires IsMember(m) && At(ts, i, [Token(Arrow(m.asText), false), StepToken(m)])
    ensures i + 2 <= |ts|
    ensures JsonMembers(ts, i, path, last) == JsonMembers(ts, i + 2, path + ArrowAndStep(m), if m.Named? then m.s else last)
  {
    hide IsInteger, QuoteLit, Dec, IsBare, At;
    var two := [Token(Arrow(m.asText), false), StepToken(m)];
    AtEnds(ts, i, two);
    AtPeek(ts, i, two, 0);
    AtPeek(ts, i, two, 1);
    assert path + (Arrow(m.asText) + SqlStep(m)) == path + Arrow(m.asText) + SqlStep(m);
    match m {
      case Named(_, _, s) => NameIsNoInteger(s);
      case Index(_, n) => PositionIsInteger(n);
    }
  }

  lemma NoMember(ts: seq<Token>, i: nat, path: string, last: string)
    requires i <= |ts| && Peek(ts, i) != "->" && Peek(ts, i) != "->>"
    ensures JsonMembers(ts, i, path, last) == Ok((path, last), i)
  {
  }

  lemma {:induction false} MembersAreFound(ts: seq<Token>, i: nat, ms: seq<Member>, path: string, last: string)
    requires (forall k :: 0 <= k < |ms| ==> IsMember(ms[k])) && At(ts, i, MembersTokens(ms))
    requires Peek(ts, i + |MembersTokens(ms)|) != "->" && Peek(ts, i + |MembersTokens(ms)|) != "->>"
    ensures i <= |ts| && JsonMembers(ts, i, path, last) == Ok((path + SqlPath(ms), LastNamed(ms, last)), i + |MembersTokens(ms)|)
    decreases |ms|
  {
    hide QuoteLit, Dec, Peek, After, At, IsMember, StepToken, ArrowAndStep, Arrow, JsonMembers;
    AtEnds(ts, i, MembersTokens(ms));
    if ms == [] {
      NoMember(ts, i, path, last);
      assert path + "" == path;
    } else {
      var m := ms[0];
      var arrow, step := Arrow(m.asText), ArrowAndStep(m);
      AtSplit(ts, i, [Token(arrow, false), StepToken(m)], MembersTokens(ms[1..]));
      MemberIsFound(ts, i, m, path, last);
      MembersAreFound(ts, i + 2, ms[1..], path + step, if m.Named? then m.s else last);
      assert path + step + SqlPath(ms[1..]) == path + (step + SqlPath(ms[1..]));
    }
  }

  /** From i on stand points, each with the segment behind it, and at last the name. */
  predicate PathStands(ts: seq<Token>, i: nat, path: seq<string>, name: string) {
    && i + 2 * |path| <= |ts| && Peek(ts, i + 2 * |path|) != "."
    && forall k :: 0 <= k < |path| ==>
         ts[i + 2 * k].text == "." && ts[i + 2 * k + 1].text == if k + 1 < |path| then path[k + 1] else name
  }

  lemma NoSegment(ts: seq<Token>, i: nat, token: string, acc: seq<string>)
    requires i <= |ts| && Peek(ts, i) != "."
    ensures TablePath(ts, i, token, acc) == (acc, token, i)
  {
  }

  lemma SegmentIsFound(ts: seq<Token>, i: nat, token: string, acc: seq<string>)
    requires i + 1 < |ts| && ts[i].text == "."
    ensures TablePath(ts, i, token, acc) == TablePath(ts, i + 2, ts[i + 1].text, acc + [token])
  {
  }

  lemma PathRest(ts: seq<Token>, i: nat, path: seq<string>, name: string)
    requires PathStands(ts, i, path, name) && path != []
    ensures i + 1 < |ts| && ts[i].text == "." && ts[i + 1].text == (if |path| == 1 then name else path[1])
    ensures PathStands(ts, i + 2, path[1..], name)
  {
    hide Peek;
    var more := path[1..];
    assert ts[i + 2 * 0].text == "." && ts[i + 2 * 0 + 1].text == if 0 + 1 < |path| then path[1] else name;
    forall k | 0 <= k < |more|
      ensures ts[i + 2 + 2 * k].text == "." && ts[i + 2 + 2 * k + 1].text == if k + 1 < |more| then more[k + 1] else name
    {
      assert ts[i + 2 * (k + 1)].text == ".";
    }
  }

  lemma NoMoreSegments(ts: seq<Token>, i: nat, name: string, acc: seq<string>)
    requires PathStands(ts, i, [], name)
    ensures i <= |ts| && TablePath(ts, i, name, acc) == (acc, name, i)
  {
    NoSegment(ts, i, name, acc);
  }

  lemma {:induction false} PathIsFound(ts: seq<Token>, i: nat, path: seq<string>, name: string, acc: seq<string>)
    requires i <= |ts| && PathStands(ts, i, path, name)
    ensures TablePath(ts, i, if path == [] then name else path[0], acc) == (acc + path, name, i + 2 * |path|)
    decreases |path|
  {
    hide TablePath, PathStands;
    if path == [] {
      NoMoreSegments(ts, i, name, acc);
      assert acc + [] == acc;
    } else {
      PathRest(ts, i, path, name);
      SegmentIsFound(ts, i, path[0], acc);
      PathIsFound(ts, i + 2, path[1..], name, acc + [path[0]]);
      assert acc + [path[0]] + path[1..] == acc + path;
    }
  }

  lemma {:induction false} PathTokenAt(path: seq<string>, k: nat)
    requires k < |path|
    ensures |PathTokens(path)| == 2 * |path| && PathTokens(path)[2 * k] == Token(path[k], false) && PathTokens(path)[2 * k + 1] == SepToken('.')
  {
    PathLength(path);
    if k > 0 {
      PathTokenAt(path[1..], k - 1);
    }
  }

  lemma {:induction false} PathLength(path: seq<string>)
    ensures |PathTokens(path)| == 2 * |path|
  {
    if path != [] {
      PathLength(path[1..]);
    }
  }

  lemma KeyTokenAt(k: Key, j: nat)
    requires j <= |k.path|
    ensures 2 * j < |KeyTokens(k)| && KeyTokens(k)[2 * j] == Token(if j < |k.path| then k.path[j] else k.name, false)
    ensures j < |k.path| ==> 2 * j + 1 < |KeyTokens(k)| && KeyTokens(k)[2 * j + 1] == SepToken('.')
    ensures j == |k.path| && k.members != [] ==> 2 * j + 1 < |KeyTokens(k)| && KeyTokens(k)[2 * j + 1].text == Arrow(k.members[0].asText)
  {
    hide PathTokens;
    PathLength(k.path);
    if j < |k.path| {
      PathTokenAt(k.path, j);
    }
  }

  /** A point of the path and the segment behind it. */
  lemma PointStands(ts: seq<Token>, k: Key, j: nat)
    requires At(ts, 0, KeyTokens(k)) && j < |k.path|
    ensures 2 * j + 2 < |ts| && ts[1 + 2 * j].text == "." && ts[1 + 2 * j + 1].text == if j + 1 < |k.path| then k.path[j + 1] else k.name
  {
    hide KeyTokens;
    KeyTokenAt(k, j);
    KeyTokenAt(k, j + 1);
    AtPeek(ts, 0, KeyTokens(k), 2 * j + 1);
    AtPeek(ts, 0, KeyTokens(k), 2 * j + 2);
  }

  lemma PathIsThere(ts: seq<Token>, k: Key)
    requires At(ts, 0, KeyTokens(k)) && Peek(ts, |KeyTokens(k)|) == "="
    ensures PathStands(ts, 1, k.path, k.name)
  {
    hide KeyTokens, At;
    KeyLength(k);
    AtEnds(ts, 0, KeyTokens(k));
    KeyTokenAt(k, |k.path|);
    if k.members != [] {
      AtPeek(ts, 0, KeyTokens(k), 2 * |k.path| + 1);
    }
    forall j | 0 <= j < |k.path| ensures ts[1 + 2 * j].text == "." && ts[1 + 2 * j + 1].text == if j + 1 < |k.path| then k.path[j + 1] else k.name {
      PointStands(ts, k, j);
    }
  }

  lemma KeyLength(k: Key)
    ensures |KeyTokens(k)| == 2 * |k.path| + 1 + |MembersTokens(k.members)|
    ensures k.members == [] ==> MembersTokens(k.members) == []
  {
    hide PathTokens;
    PathLength(k.path);
  }

  /** The first segment, and where the members begin. */
  lemma KeyStands(ts: seq<Token>, k: Key)
    requires IsKey(k) && At(ts, 0, KeyTokens(k))
    ensures Peek(ts, 0) == (if k.path == [] then k.name else k.path[0]) && Peek(ts, 0) != "" && ts != []
    ensures At(ts, 2 * |k.path| + 1, MembersTokens(k.members))
  {
    hide IsBare, PathTokens, MembersTokens;
    PathLength(k.path);
    AtSplit(ts, 0, PathTokens(k.path), [Token(k.name, false)] + MembersTokens(k.members));
    AtSplit(ts, 2 * |k.path|, [Token(k.name, false)], MembersTokens(k.members));
    KeyTokenAt(k, 0);
    AtPeek(ts, 0, KeyTokens(k), 0);
    BareIsNoMark(if k.path == [] then k.name else k.path[0]);
  }

  lemma KeyIsFound(ts: seq<Token>, k: Key, mainTable: string)
    requires IsKey(k) && At(ts, 0, KeyTokens(k)) && Peek(ts, |KeyTokens(k)|) == "="
    ensures FieldAt(ts, 0, true, false).Ok? && FieldAt(ts, 0, true, false).cur == |KeyTokens(k)| <= |ts|
    ensures Inherit(FieldAt(ts, 0, true, false).value, mainTable, ROOT) == KeyField(k, mainTable)
  {
    hide TablePath, JsonMembers, At, Peek, IsBare, SqlPath, LastNamed, PathStands, MembersTokens, PathTokens;
    var n := |k.path|;
    PathLength(k.path);
    AtEnds(ts, 0, KeyTokens(k));
    KeyStands(ts, k);
    PathIsThere(ts, k);
    PathIsFound(ts, 1, k.path, k.name, []);
    assert [] + k.path == k.path;
    MembersAreFound(ts, 2 * n + 1, k.members, "", "");
    assert "" + SqlPath(k.members) == SqlPath(k.members);
    PathShows(k.members);
    LastSegment(k);
  }

  lemma LastSegment(k: Key)
    requires IsKey(k)
    ensures k.path != [] ==> k.path[|k.path| - 1] != ""
    ensures LastNamed([], "") == ""
  {
  }

  /** A path is not empty, and its last name is none only if all its members are positions. */
  lemma {:induction false} PathShows(ms: seq<Member>)
    requires forall i :: 0 <= i < |ms| ==> IsMember(ms[i])
    ensures SqlPath(ms) == "" <==> ms == []
    ensures forall other: string :: LastNamed(ms, other) == if LastNamed(ms, "") == "" then other else LastNamed(ms, "")
  {
    hide QuoteLit, Dec, IsBare;
    if ms != [] {
      PathShows(ms[1..]);
      assert ms[0].Named? ==> ms[0].s != "";
    }
  }

  // ----- Paths in SQL -----

  /** A reader of SQL's string literals (section 4.1.2 of the PostgreSQL manual), from behind the opening
      quote: the text, and what is behind the closing quote. */
  function ReadLiteral(t: string): Option<(string, string)> {
    if t == "" then None
    else if t[0] != '\'' then
      (match ReadLiteral(t[1..]) case Some((s, rest)) => Some(([t[0]] + s, rest)) case None => None)
    else if |t| > 1 && t[1] == '\'' then
      (match ReadLiteral(t[2..]) case Some((s, rest)) => Some(("'" + s, rest)) case None => None)
    else Some(("", t[1..]))
  }

  /** A quoted member is the literal of its name, whatever the name. */
  lemma {:induction false} LiteralIsReadBack(s: string, rest: string)
    requires rest == "" || rest[0] != '\''
    ensures ReadLiteral(DoubleQuotes(s) + "'" + rest) == Some((s, rest))
    ensures QuoteLit(s) == "'" + (DoubleQuotes(s) + "'")
    decreases |s|
  {
    var t := DoubleQuotes(s) + "'" + rest;
    if s == "" {
      assert t[1..] == rest;
    } else {
      LiteralIsReadBack(s[1..], rest);
      var more := DoubleQuotes(s[1..]) + "'" + rest;
      assert [s[0]] + s[1..] == s;
      if s[0] == '\'' {
        assert t == "''" + more && t[2..] == more;
      } else {
        assert t == [s[0]] + more && t[1..] == more;
      }
    }
  }

  predicate Occurs(s: string, t: string, q: int) { 0 <= q <= |s| - |t| && s[q..q + |t|] == t }

  /** t stands in s at p, and nowhere behind. */
  ghost predicate IsLastAt(s: string, t: string, p: int) { Occurs(s, t, p) && forall q :: p < q ==> !Occurs(s, t, q) }

  lemma OccursInFront(s: string, t: string, q: int)
    requires s != ""
    ensures Occurs(s[..|s| - 1], t, q) <==> Occurs(s, t, q) && q < |s| - |t|
  {
    if 0 <= q <= |s| - 1 - |t| {
      assert s[..|s| - 1][q..q + |t|] == s[q..q + |t|];
    }
  }

  lemma {:induction false} LastIndexExactly(s: string, t: string, p: int)
    requires t != "" && IsLastAt(s, t, p)
    ensures LastIndex(s, t) == p
    decreases |s|
  {
    var q := |s| - |t|;
    assert s[q..] == s[q..q + |t|];
    if p != q {
      var front := s[..|s| - 1];
      assert !Occurs(s, t, q);
      assert Occurs(front, t, p) by { OccursInFront(s, t, p); }
      forall k | p < k ensures !Occurs(front, t, k) {
        OccursInFront(s, t, k);
        assert !Occurs(s, t, k);
      }
      LastIndexExactly(front, t, p);
    }
  }

  /** No arrow in it. */
  predicate HasNoArrow(s: string) { forall i :: 0 <= i < |s| ==> s[i] != '>' }

  lemma {:induction false} LastIndexFound(s: string, t: string)
    requires t != ""
    ensures LastIndex(s, t) == -1 || Occurs(s, t, LastIndex(s, t))
    decreases |s|
  {
    if |s| >= |t| {
      var q := |s| - |t|;
      assert s[q..] == s[q..q + |t|];
      if s[q..] != t {
        LastIndexFound(s[..|s| - 1], t);
        OccursInFront(s, t, LastIndex(s[..|s| - 1], t));
      }
    }
  }

  /** The last arrow says whether the path ends in json: -> does, ->> does not. */
  lemma ArrowDecides(before: string, asText: bool, step: string)
    requires step != "" && HasNoArrow(step)
    ensures IsJsonTyped(before + Arrow(asText) + step) <==> !asText
  {
    var s, p := before + Arrow(asText) + step, |before|;
    assert forall i :: p + |Arrow(asText)| <= i < |s| ==> s[i] == step[i - p - |Arrow(asText)|] && s[i] != '>';
    assert s[p] == '-' && s[p + 1] == '>' && (asText ==> s[p + 2] == '>') && (!asText ==> s[p + 2] != '>');
    LastArrow(s, p, asText);
  }

  lemma LastArrow(s: string, p: nat, asText: bool)
    requires p + 2 < |s| && s[p] == '-' && s[p + 1] == '>' && (asText <==> s[p + 2] == '>')
    requires forall i :: p + (if asText then 3 else 2) <= i < |s| ==> s[i] != '>'
    ensures IsJsonTyped(s) <==> !asText
  {
    forall q | p < q ensures !Occurs(s, "->", q) {
      assert q <= |s| - 2 ==> s[q..q + 2][0] == s[q] && s[q..q + 2][1] == s[q + 1];
    }
    assert s[p..p + 2] == "->";
    LastIndexExactly(s, "->", p);
    if asText {
      forall q | p < q ensures !Occurs(s, "->>", q) {
        assert q <= |s| - 3 ==> s[q..q + 3][1] == s[q + 1] && s[q..q + 3][0] == s[q] && s[q..q + 3][2] == s[q + 2];
      }
      assert s[p..p + 3] == "->>";
      LastIndexExactly(s, "->>", p);
    } else {
      LastIndexFound(s, "->>");
      var r := LastIndex(s, "->>");
      if r >= 0 {
        assert s[r..r + 3][1] == s[r + 1] && s[r..r + 3][2] == s[r + 2] && s[r..r + 3][0] == s[r];
      }
    }
  }

  /** A quoted value is a JSON string exactly behind a path that ends in json. */
  lemma JsonTypedExactly(ms: seq<Member>)
    requires ms != [] && (forall i :: 0 <= i < |ms| ==> IsMember(ms[i]))
    requires var m := ms[|ms| - 1]; m.Named? ==> HasNoArrow(m.s)
    ensures IsJsonTyped(SqlPath(ms)) <==> !ms[|ms| - 1].asText
  {
    hide SqlPath, SqlStep, Arrow, HasNoArrow, IsJsonTyped, IsMember;
    var n := |ms| - 1;
    var m, before := ms[n], SqlPath(ms[..n]);
    LastStep(ms);
    StepHasNoArrow(m);
    Regrouped(before, Arrow(m.asText), SqlStep(m));
    ArrowDecides(before, m.asText, SqlStep(m));
  }

  lemma PathNext(a: seq<Member>, b: seq<Member>)
    ensures if a == [] then a + b == b && SqlPath(a) == ""
            else SqlPath(a) == ArrowAndStep(a[0]) + SqlPath(a[1..]) && SqlPath(a + b) == ArrowAndStep(a[0]) + SqlPath(a[1..] + b)
  {
    hide ArrowAndStep;
    if a == [] {
      assert a + b == b;
    } else {
      assert (a + b)[1..] == a[1..] + b;
    }
  }

  lemma Regrouped(x: string, y: string, z: string)
    ensures x + (y + z) == x + y + z
  {
  }

  lemma {:induction false} PathConcat(a: seq<Member>, b: seq<Member>)
    ensures SqlPath(a + b) == SqlPath(a) + SqlPath(b)
  {
    hide ArrowAndStep, SqlPath;
    PathNext(a, b);
    if a != [] {
      PathConcat(a[1..], b);
      Regrouped(ArrowAndStep(a[0]), SqlPath(a[1..]), SqlPath(b));
    }
  }

  lemma OneStep(m: Member)
    ensures SqlPath([m]) == ArrowAndStep(m)
  {
    hide ArrowAndStep;
    assert [m][1..] == [];
    assert ArrowAndStep(m) + "" == ArrowAndStep(m);
  }

  lemma LastStep(ms: seq<Member>)
    requires ms != []
    ensures var n := |ms| - 1; SqlPath(ms) == SqlPath(ms[..n]) + ArrowAndStep(ms[n])
  {
    hide ArrowAndStep, SqlPath;
    var n := |ms| - 1;
    PathConcat(ms[..n], [ms[n]]);
    OneStep(ms[n]);
    assert ms == ms[..n] + [ms[n]];
  }

  lemma StepHasNoArrow(m: Member)
    requires m.Named? ==> HasNoArrow(m.s)
    ensures SqlStep(m) != "" && HasNoArrow(SqlStep(m))
  {
    match m
    case Named(_, _, s) => DoubledHasNoArrow(s);
    case Index(_, n) =>
      forall i | 0 <= i < |Dec(n)| ensures Dec(n)[i] != '>' {
        assert IsDigit(Dec(n)[i]);
      }
  }

  lemma {:induction false} DoubledHasNoArrow(s: string)
    requires HasNoArrow(s)
    ensures HasNoArrow(DoubleQuotes(s))
  {
    if s != "" {
      assert forall i :: 0 <= i < |s[1..]| ==> s[1..][i] == s[i + 1];
      DoubledHasNoArrow(s[1..]);
    }
  }
}
