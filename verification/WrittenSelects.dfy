/** Select lists as people write them: names without quotes, json paths, aggregates with and without
    labels, hints; and what is read of each. */
module WrittenSelects {
  import opened Sql
  import opened Decimals
  import opened Filters
  import opened Scanner
  import opened FilterGrammar
  import opened FilterRoundTrip
  import opened FilterTexts
  import opened FilterKeys
  import opened SelectGrammar
  import S = SelectRoundTrip

  // ----- Texts in pieces -----

  /** A word, or a mark of one or of several characters. */
  datatype Piece = W(s: string) | M(c: char) | L(l: string)

  /** A word that needs no quotes here. */
  predicate IsSelectWord(s: string) {
    && s != "" && s[0] != ' '
    && (forall i :: 0 <= i < |s| ==> s[i] !in ".,():!\"'\\")
    && (forall i :: 0 <= i < |s| - 1 ==> s[i] != '-' || s[i + 1] != '>')
  }

  predicate IsPiece(p: Piece) {
    match p
    case W(s) => IsSelectWord(s)
    case M(c) => c in SELECT_SEP
    case L(l) => l in SELECT_LONG
  }

  function PieceText(p: Piece): string { match p case W(s) => s case M(c) => [c] case L(l) => l }

  /** q can stand behind p: two words would be one, and two marks another. */
  predicate MayFollow(p: Piece, q: Piece) {
    var b := PieceText(q);
    match p
    case W(_) => !q.W?
    case M(c) => c == ',' || c == ')' || (b != "" && b[0] != c && !(c == '(' && b[0] == ')'))
    case L(l) => l == "->" ==> b != "" && b[0] != '>'
  }

  /** p can stand at the end. */
  predicate MayEnd(p: Piece) { p.W? || p == M(',') || p == M(')') || p == L("()") }

  predicate AreLinked(ps: seq<Piece>) {
    && (forall i :: 0 <= i < |ps| ==> IsPiece(ps[i]))
    && (forall i :: 0 <= i < |ps| - 1 ==> MayFollow(ps[i], ps[i + 1]))
  }

  predicate AreJoined(ps: seq<Piece>) { AreLinked(ps) && (ps != [] ==> MayEnd(ps[|ps| - 1])) }

  function Text(ps: seq<Piece>): string { if ps == [] then "" else PieceText(ps[0]) + Text(ps[1..]) }

  function Toks(ps: seq<Piece>): (ts: seq<Token>)
    ensures |ts| == |ps| && forall i :: 0 <= i < |ps| ==> ts[i] == Token(PieceText(ps[i]), false)
  {
    seq(|ps|, i requires 0 <= i < |ps| => Token(PieceText(ps[i]), false))
  }

  // ----- Scanning the pieces -----

  const MARKS := Separators(SELECT_SEP, SELECT_LONG)

  /** A word ends here. */
  predicate Cuts(rest: string) { rest == "" || rest[0] in SELECT_SEP || (|rest| > 1 && rest[0] == '-' && rest[1] == '>') }

  lemma LongMarks()
    ensures SELECT_LONG == ["->>", "->", "::", "...", "()"]
    ensures "->>"[0] == '-' && "->>"[1] == '>' && "->"[0] == '-' && "->"[1] == '>' && "::"[0] == ':' && "::"[1] == ':'
    ensures "..."[0] == '.' && "..."[1] == '.' && "()"[0] == '(' && "()"[1] == ')'
    ensures ':' in SELECT_SEP && '.' in SELECT_SEP && '(' in SELECT_SEP && '-' !in SELECT_SEP && ' ' !in SELECT_SEP
  {
    assert SELECT_SEP[0] == '.' && SELECT_SEP[2] == '(' && SELECT_SEP[4] == ':';
  }

  lemma NoLongMark(r: string)
    requires r != "" && r[0] !in SELECT_SEP && !(|r| > 1 && r[0] == '-' && r[1] == '>')
    ensures LongSepAt(r, SELECT_LONG) == ""
  {
    LongMarks();
    S.NoneIsFound(r, SELECT_LONG);
  }

  lemma {:induction false} WordIsCollected(s: string, rest: string, done: string, wasSep: bool)
    requires (forall i :: 0 <= i < |s| ==> s[i] !in SELECT_SEP && !IsQuote(s[i]) && s[i] != '\\')
    requires (forall i :: 0 <= i < |s| - 1 ==> s[i] != '-' || s[i + 1] != '>') && Cuts(rest) && (wasSep ==> s != "" && s[0] != ' ')
    ensures Scan(s + rest, ScanState(false, false, done, "", wasSep), SELECT_SEP, SELECT_LONG)
         == Scan(rest, ScanState(false, false, done + s, "", false), SELECT_SEP, SELECT_LONG)
    decreases |s|
  {
    hide LongSepAt;
    if s == "" {
      assert s + rest == rest && done + s == done;
    } else {
      var r := s + rest;
      LongMarks();
      assert r[0] == s[0] && r[1..] == s[1..] + rest;
      assert |r| > 1 ==> r[1] == if |s| > 1 then s[1] else rest[0];
      NoLongMark(r);
      assert forall i :: 0 <= i < |s[1..]| ==> s[1..][i] == s[i + 1];
      WordIsCollected(s[1..], rest, done + [s[0]], false);
      assert done + [s[0]] + s[1..] == done + s;
    }
  }

  lemma WordEnds(s: string, rest: string)
    requires s != "" && Cuts(rest)
    ensures Scan(rest, ScanState(false, false, s, "", false), SELECT_SEP, SELECT_LONG) == [Token(s, false)] + ScanRest(rest, MARKS)
  {
    hide LongSepAt;
    if rest != "" {
      LongMarks();
      if rest[0] == '-' {
        ArrowIsFound(rest);
      }
      assert rest[0] in SELECT_SEP ==> rest[0] in ".,():!" && rest[0] != '\\' && !IsQuote(rest[0]);
    }
  }

  lemma ArrowIsFound(rest: string)
    requires |rest| > 1 && rest[0] == '-' && rest[1] == '>'
    ensures LongSepAt(rest, SELECT_LONG) == if |rest| > 2 && rest[2] == '>' then "->>" else "->"
  {
    LongMarks();
    assert rest[..2] == "->";
    assert |rest| > 2 && rest[2] == '>' ==> rest[..3] == "->>";
    assert "->>" <= rest ==> rest[2] == "->>"[2];
    S.FirstFound(rest, SELECT_LONG, if |rest| > 2 && rest[2] == '>' then 0 else 1);
  }

  lemma WordIsRead(s: string, rest: string)
    requires IsSelectWord(s) && Cuts(rest)
    ensures ScanRest(s + rest, MARKS) == [Token(s, false)] + ScanRest(rest, MARKS)
  {
    hide Scan;
    WordIsCollected(s, rest, "", true);
    assert "" + s == s;
    WordEnds(s, rest);
  }

  lemma LongIsRead(l: string, rest: string)
    requires l in SELECT_LONG && (l == "->" ==> rest != "" && rest[0] != '>')
    ensures ScanRest(l + rest, MARKS) == [Token(l, false)] + ScanRest(rest, MARKS)
  {
    LongMarks();
    if l == "->" || l == "->>" {
      var r := l + rest;
      assert r[0] == '-' && r[1] == '>' && r[2] == if l == "->>" then '>' else rest[0];
      ArrowIsFound(r);
    } else {
      S.LongIsFound(l, rest);
    }
    S.ScanLong(l, rest);
  }

  lemma MarkIsRead(c: char, rest: string)
    requires c in SELECT_SEP && ((c == ',' || c == ')') || (rest != "" && rest[0] != c && !(c == '(' && rest[0] == ')')))
    ensures ScanRest([c] + rest, MARKS) == [Token([c], false)] + ScanRest(rest, MARKS)
  {
    S.NoLongMark(c, rest, "");
    assert rest + "" == rest;
    S.ScanMark(c, rest);
  }

  lemma PieceBegins(p: Piece)
    requires IsPiece(p)
    ensures PieceText(p) != "" && (!p.W? ==> forall rest: string :: Cuts(PieceText(p) + rest))
  {
    LongMarks();
  }

  /** What must stand behind a piece. */
  predicate MayStandBefore(p: Piece, behind: string) {
    match p
    case W(_) => Cuts(behind)
    case M(c) => c == ',' || c == ')' || (behind != "" && behind[0] != c && !(c == '(' && behind[0] == ')'))
    case L(l) => l == "->" ==> behind != "" && behind[0] != '>'
  }

  lemma PieceIsRead(p: Piece, behind: string)
    requires IsPiece(p) && MayStandBefore(p, behind)
    ensures ScanRest(PieceText(p) + behind, MARKS) == [Token(PieceText(p), false)] + ScanRest(behind, MARKS)
  {
    hide ScanRest, Cuts, IsSelectWord;
    match p
    case W(s) => WordIsRead(s, behind);
    case M(c) => MarkIsRead(c, behind);
    case L(l) => LongIsRead(l, behind);
  }

  lemma JoinedTail(ps: seq<Piece>)
    requires AreJoined(ps) && ps != []
    ensures AreJoined(ps[1..]) && IsPiece(ps[0])
    ensures Toks(ps) == [Token(PieceText(ps[0]), false)] + Toks(ps[1..])
  {
    hide IsPiece, MayFollow, MayEnd;
  }

  /** Whatever it is, it is read as its tokens where a mark, an arrow or the end follows. */
  lemma {:induction false} PiecesAreRead(ps: seq<Piece>, rest: string)
    requires AreJoined(ps) && Cuts(rest)
    ensures ScanRest(Text(ps) + rest, MARKS) == Toks(ps) + ScanRest(rest, MARKS)
  {
    hide ScanRest, Cuts, IsPiece, AreJoined, PieceText, MayStandBefore;
    if ps == [] {
      assert "" + rest == rest && Toks(ps) == [];
    } else {
      var text, behind := PieceText(ps[0]), Text(ps[1..]) + rest;
      JoinedTail(ps);
      PiecesAreRead(ps[1..], rest);
      BehindPiece(ps, rest);
      PieceIsRead(ps[0], behind);
      assert Text(ps) + rest == text + behind;
      assert [Token(text, false)] + (Toks(ps[1..]) + ScanRest(rest, MARKS)) == Toks(ps) + ScanRest(rest, MARKS);
    }
  }

  lemma BehindPiece(ps: seq<Piece>, rest: string)
    requires AreJoined(ps) && ps != [] && Cuts(rest)
    ensures MayStandBefore(ps[0], Text(ps[1..]) + rest)
  {
    hide Cuts;
    if |ps| == 1 {
      assert "" + rest == rest;
    } else {
      assert MayFollow(ps[0], ps[1]) && ps[1..][0] == ps[1];
      PieceBegins(ps[1]);
      assert Text(ps[1..]) + rest == PieceText(ps[1]) + (Text(ps[1..][1..]) + rest);
    }
  }

  // ----- Items -----

  /** label:name->member->>member::cast.avg()::cast, label:count()::cast, ...label:relation!hint(items) */
  datatype Written =
    | Column(alias: string, name: string, members: seq<Member>, cast: string, aggregate: string, aggCast: string)
    | Whole(alias: string, aggregate: string, cast: string)
    | Relation(alias: string, spread: bool, name: string, hint: string, inside: seq<Written>)

  /** The aggregates, as labels and as they are called in SQL; in the request in whatever case. */
  function Aggregate(fn: string): Option<(string, string)> {
    if IsCaseOf(fn, "avg") then Some(("avg", "AVG"))
    else if IsCaseOf(fn, "count") then Some(("count", "COUNT"))
    else if IsCaseOf(fn, "max") then Some(("max", "MAX"))
    else if IsCaseOf(fn, "min") then Some(("min", "MIN"))
    else if IsCaseOf(fn, "sum") then Some(("sum", "SUM"))
    else None
  }

  predicate IsWordOrNone(s: string) { s == "" || IsSelectWord(s) }

  predicate IsCastOrNone(c: string) { c == "" || (IsSelectWord(c) && IsCastType(c)) }

  predicate IsStep(m: Member) { IsMember(m) && (m.Named? ==> !m.quoted && IsSelectWord(m.s)) }

  predicate IsWritten(w: Written, aggregates: bool)
    decreases w
  {
    && IsWordOrNone(w.alias)
    && match w
       case Column(_, name, members, cast, aggregate, aggCast) =>
         && IsSelectWord(name) && (forall i :: 0 <= i < |members| ==> IsStep(members[i])) && IsCastOrNone(cast) && IsCastOrNone(aggCast)
         && (if aggregate == "" then aggCast == "" else aggregates && IsSelectWord(aggregate) && Aggregate(aggregate).Some?)
       case Whole(_, aggregate, cast) => aggregates && IsSelectWord(aggregate) && Aggregate(aggregate).Some? && IsCastOrNone(cast)
       case Relation(_, _, name, hint, inside) =>
         && IsSelectWord(name) && IsWordOrNone(hint) && (inside == [] && hint == "" ==> Aggregate(name).None?)
         && forall i :: 0 <= i < |inside| ==> IsWritten(inside[i], aggregates)
  }

  function LabelPieces(alias: string): seq<Piece> { if alias == "" then [] else [W(alias), M(':')] }

  function MemberPieces(ms: seq<Member>): seq<Piece> {
    if ms == [] then [] else [L(Arrow(ms[0].asText)), W(StepText(ms[0]))] + MemberPieces(ms[1..])
  }

  function CastPieces(c: string): seq<Piece> { if c == "" then [] else [L("::"), W(c)] }

  function AggregatePieces(fn: string): seq<Piece> { if fn == "" then [] else [M('.'), W(fn), L("()")] }

  function HintPieces(hint: string): seq<Piece> { if hint == "" then [] else [M('!'), W(hint)] }

  function StartPieces(spread: bool, alias: string, name: string): seq<Piece> {
    (if spread then [L("...")] else []) + (LabelPieces(alias) + [W(name)])
  }

  function Pieces(w: Written): seq<Piece>
    decreases w, 1
  {
    match w
    case Column(alias, name, members, cast, aggregate, aggCast) =>
      StartPieces(false, alias, name) + (MemberPieces(members) + CastPieces(cast) + (AggregatePieces(aggregate) + CastPieces(aggCast)))
    case Whole(alias, aggregate, cast) => StartPieces(false, alias, aggregate) + ([L("()")] + CastPieces(cast))
    case Relation(alias, spread, name, hint, inside) => StartPieces(spread, alias, name) + (HintPieces(hint) + InsidePieces(inside))
  }

  function InsidePieces(ws: seq<Written>): seq<Piece>
    decreases ws, 1
  {
    if ws == [] then [L("()")] else [M('(')] + (ListPieces(ws) + [M(')')])
  }

  function ListPieces(ws: seq<Written>): seq<Piece>
    decreases ws, 0
  {
    if ws == [] then [] else if |ws| == 1 then Pieces(ws[0]) else Pieces(ws[0]) + ([M(',')] + ListPieces(ws[1..]))
  }

  /** What is read: a column goes by its label, an aggregate without one by its name in small letters,
      and a json path without one by its last named member. */
  function Meant(w: Written, scope: string): SelectField
    decreases w, 1
  {
    match w
    case Column(alias, name, members, cast, aggregate, aggCast) =>
      var last := if members == [] then "" else LastNamed(members, name);
      var fn := Aggregate(aggregate).GetOr((last, ""));
      Selected(Field(name, scope, [], SqlPath(members), last), if alias == "" then fn.0 else alias, cast, fn.1, aggCast)
    case Whole(alias, aggregate, cast) =>
      var fn := Aggregate(aggregate).GetOr(("", ""));
      Selected(Field("*", scope, [], "", ""), if alias == "" then fn.0 else alias, "", fn.1, cast)
    case Relation(alias, spread, name, hint, inside) =>
      Embedded(alias, SelectRelation(name, scope, spread, hint == "inner", if hint == "inner" || hint == "left" then "" else hint, MeantAll(inside, name)))
  }

  function MeantAll(ws: seq<Written>, scope: string): seq<SelectField>
    decreases ws, 0
  {
    if ws == [] then [] else [Meant(ws[0], scope)] + MeantAll(ws[1..], scope)
  }

  // ----- The pieces fit together -----

  lemma LinkedConcat(a: seq<Piece>, b: seq<Piece>)
    requires AreLinked(a) && AreLinked(b) && (a != [] && b != [] ==> MayFollow(a[|a| - 1], b[0]))
    ensures AreLinked(a + b)
  {
    hide IsPiece, MayFollow;
    var ps := a + b;
    forall i | 0 <= i < |ps| - 1 ensures MayFollow(ps[i], ps[i + 1]) {
      if i + 1 < |a| {
        assert MayFollow(a[i], a[i + 1]);
      } else if i >= |a| {
        assert MayFollow(b[i - |a|], b[i - |a| + 1]);
      }
    }
  }

  /** No mark begins like a word. */
  lemma WordIsNoMark(s: string)
    requires IsSelectWord(s)
    ensures s !in {"", "...", ":", "::", "(", ")", "()", ",", ".", "!", "->", "->>"}
    ensures forall c :: c in SELECT_SEP ==> s[0] != c
  {
    LongMarks();
    assert SELECT_SEP[0] == '.' && SELECT_SEP[1] == ',' && SELECT_SEP[2] == '(' && SELECT_SEP[3] == ')' && SELECT_SEP[4] == ':' && SELECT_SEP[5] == '!';
    assert s[0] !in SELECT_SEP;
    assert "->>"[0] == '-' && "->>"[1] == '>';
  }

  lemma PairIsLinked(p: Piece, s: string)
    requires IsPiece(p) && IsSelectWord(s) && !p.W? && (p == L("->") ==> s[0] != '>')
    ensures AreLinked([p, W(s)])
  {
    WordIsNoMark(s);
    LongMarks();
    assert SELECT_SEP[3] == ')';
  }

  /** It begins with no word, and another word may not follow. */
  predicate IsTail(ps: seq<Piece>) { AreLinked(ps) && (ps != [] ==> !ps[0].W? && MayEnd(ps[|ps| - 1])) }

  lemma TailConcat(a: seq<Piece>, b: seq<Piece>)
    requires IsTail(a) && IsTail(b) && (a != [] && b != [] ==> a[|a| - 1].W? || a[|a| - 1].L?)
    ensures IsTail(a + b)
  {
    hide IsPiece;
    LongMarks();
    LinkedConcat(a, b);
  }

  lemma StepIsWord(m: Member)
    requires IsStep(m)
    ensures IsSelectWord(StepText(m)) && StepText(m)[0] != '>' && StepToken(m) == Token(StepText(m), false)
  {
    match m
    case Named(_, _, s) =>
    case Index(_, n) =>
      var d := Dec(n);
      assert IsDigit(d[0]);
      forall i | 0 <= i < |d| ensures d[i] !in SELECT_SEP && !IsQuote(d[i]) && d[i] != '\\' && d[i] != '-' {
        assert IsDigit(d[i]);
      }
  }

  lemma {:induction false} MembersAreTail(ms: seq<Member>)
    requires forall i :: 0 <= i < |ms| ==> IsStep(ms[i])
    ensures IsTail(MemberPieces(ms)) && (ms != [] ==> MemberPieces(ms) != [] && MemberPieces(ms)[|MemberPieces(ms)| - 1].W?)
    ensures if ms == [] then MemberPieces(ms) == [] else MemberPieces(ms)[0].L?
  {
    hide IsStep, StepText, IsSelectWord;
    if ms != [] {
      LongMarks();
      StepIsWord(ms[0]);
      var two := [L(Arrow(ms[0].asText)), W(StepText(ms[0]))];
      PairIsLinked(two[0], StepText(ms[0]));
      MembersAreTail(ms[1..]);
      TailConcat(two, MemberPieces(ms[1..]));
      assert MemberPieces(ms) == two + MemberPieces(ms[1..]);
    }
  }

  lemma CastIsTail(c: string)
    requires IsCastOrNone(c)
    ensures IsTail(CastPieces(c))
  {
    hide IsCastType, IsSelectWord;
    if c != "" {
      LongMarks();
      PairIsLinked(L("::"), c);
    }
  }

  lemma AggregateIsTail(fn: string)
    requires IsWordOrNone(fn)
    ensures IsTail(AggregatePieces(fn))
  {
    hide IsSelectWord;
    if fn != "" {
      LongMarks();
      PairIsLinked(M('.'), fn);
      LinkedConcat([M('.'), W(fn)], [L("()")]);
      assert [M('.'), W(fn)] + [L("()")] == AggregatePieces(fn);
    }
  }

  lemma HintIsTail(hint: string)
    requires IsWordOrNone(hint)
    ensures IsTail(HintPieces(hint))
  {
    hide IsSelectWord;
    if hint != "" {
      assert SELECT_SEP[5] == '!';
      PairIsLinked(M('!'), hint);
    }
  }

  /** It begins with a word or with `...` and ends where an item may end. */
  predicate IsHead(ps: seq<Piece>) { AreLinked(ps) && ps != [] && (ps[0].W? || ps[0] == L("...")) && MayEnd(ps[|ps| - 1]) }

  lemma StartIsHead(spread: bool, alias: string, name: string)
    requires IsWordOrNone(alias) && IsSelectWord(name)
    ensures IsHead(StartPieces(spread, alias, name)) && StartPieces(spread, alias, name)[|StartPieces(spread, alias, name)| - 1] == W(name)
  {
    hide IsSelectWord;
    LongMarks();
    if alias != "" {
      PairIsLinked(M(':'), name);
      LinkedConcat([W(alias)], [M(':'), W(name)]);
      assert [W(alias)] + [M(':'), W(name)] == LabelPieces(alias) + [W(name)];
    }
    if spread {
      LinkedConcat([L("...")], LabelPieces(alias) + [W(name)]);
    }
  }

  lemma HeadThenTail(a: seq<Piece>, b: seq<Piece>)
    requires IsHead(a) && IsTail(b) && a[|a| - 1].W?
    ensures IsHead(a + b)
  {
    hide IsPiece;
    LinkedConcat(a, b);
  }

  lemma {:induction false} ItemIsHead(w: Written, aggregates: bool)
    requires IsWritten(w, aggregates)
    ensures IsHead(Pieces(w))
    decreases w, 1
  {
    hide IsSelectWord, StartPieces, IsHead, IsTail, CastPieces, AggregatePieces, MemberPieces, HintPieces, InsidePieces, IsStep, Aggregate, IsCastOrNone;
    match w
    case Column(alias, name, members, cast, aggregate, aggCast) =>
      StartIsHead(false, alias, name);
      ColumnTail(members, cast, aggregate, aggCast);
      HeadThenTail(StartPieces(false, alias, name), MemberPieces(members) + CastPieces(cast) + (AggregatePieces(aggregate) + CastPieces(aggCast)));
    case Whole(alias, aggregate, cast) =>
      StartIsHead(false, alias, aggregate);
      WholeTail(cast);
      HeadThenTail(StartPieces(false, alias, aggregate), [L("()")] + CastPieces(cast));
    case Relation(alias, spread, name, hint, inside) =>
      StartIsHead(spread, alias, name);
      InsideIsTail(inside, aggregates);
      HintThenInside(hint, inside);
      HeadThenTail(StartPieces(spread, alias, name), HintPieces(hint) + InsidePieces(inside));
  }

  lemma ColumnTail(members: seq<Member>, cast: string, aggregate: string, aggCast: string)
    requires (forall i :: 0 <= i < |members| ==> IsStep(members[i])) && IsCastOrNone(cast) && IsCastOrNone(aggCast) && IsWordOrNone(aggregate)
    ensures IsTail(MemberPieces(members) + CastPieces(cast) + (AggregatePieces(aggregate) + CastPieces(aggCast)))
  {
    hide IsSelectWord, MemberPieces, IsStep, IsCastType, AreLinked;
    MembersAreTail(members);
    CastIsTail(cast);
    AggregateIsTail(aggregate);
    CastIsTail(aggCast);
    TailConcat(AggregatePieces(aggregate), CastPieces(aggCast));
    TailConcat(MemberPieces(members), CastPieces(cast));
    TailConcat(MemberPieces(members) + CastPieces(cast), AggregatePieces(aggregate) + CastPieces(aggCast));
  }

  lemma WholeTail(cast: string)
    requires IsCastOrNone(cast)
    ensures IsTail([L("()")] + CastPieces(cast))
  {
    hide IsSelectWord, IsCastType;
    LongMarks();
    CastIsTail(cast);
    TailConcat([L("()")], CastPieces(cast));
  }

  lemma HintThenInside(hint: string, inside: seq<Written>)
    requires IsWordOrNone(hint) && IsTail(InsidePieces(inside))
    ensures IsTail(HintPieces(hint) + InsidePieces(inside))
  {
    hide IsSelectWord, InsidePieces, AreLinked;
    HintIsTail(hint);
    TailConcat(HintPieces(hint), InsidePieces(inside));
  }

  lemma {:induction false} InsideIsTail(ws: seq<Written>, aggregates: bool)
    requires forall i :: 0 <= i < |ws| ==> IsWritten(ws[i], aggregates)
    ensures IsTail(InsidePieces(ws))
    decreases ws, 1
  {
    hide IsWritten, ListPieces, IsSelectWord;
    LongMarks();
    if ws != [] {
      ListIsHead(ws, aggregates);
      Enclosed(ListPieces(ws));
    }
  }

  lemma Enclosed(ps: seq<Piece>)
    requires IsHead(ps)
    ensures IsTail([M('(')] + (ps + [M(')')]))
  {
    hide IsSelectWord;
    LongMarks();
    assert SELECT_SEP[3] == ')';
    LinkedConcat(ps, [M(')')]);
    HeadBegins(ps);
    LinkedConcat([M('(')], ps + [M(')')]);
  }

  lemma HeadBegins(ps: seq<Piece>)
    requires IsHead(ps)
    ensures MayFollow(M('('), ps[0]) && MayFollow(M(','), ps[0])
  {
    LongMarks();
    assert SELECT_SEP[3] == ')' && SELECT_SEP[2] == '(';
    if ps[0].W? {
      assert IsPiece(ps[0]);
      WordIsNoMark(ps[0].s);
    }
  }

  lemma {:induction false} ListIsHead(ws: seq<Written>, aggregates: bool)
    requires ws != [] && forall i :: 0 <= i < |ws| ==> IsWritten(ws[i], aggregates)
    ensures IsHead(ListPieces(ws))
    decreases ws, 0
  {
    hide IsWritten, Pieces, IsPiece;
    ItemIsHead(ws[0], aggregates);
    if |ws| > 1 {
      ListIsHead(ws[1..], aggregates);
      CommaThen(Pieces(ws[0]), ListPieces(ws[1..]));
    }
  }

  lemma CommaThen(a: seq<Piece>, b: seq<Piece>)
    requires IsHead(a) && IsHead(b)
    ensures IsHead(a + ([M(',')] + b))
  {
    hide IsSelectWord;
    assert SELECT_SEP[1] == ',';
    HeadBegins(b);
    LinkedConcat([M(',')], b);
    LinkedConcat(a, [M(',')] + b);
  }

  // ----- Parsing the tokens -----

  lemma ToksConcat(a: seq<Piece>, b: seq<Piece>)
    ensures Toks(a + b) == Toks(a) + Toks(b)
  {
  }

  lemma {:induction false} MembersToks(ms: seq<Member>)
    requires forall i :: 0 <= i < |ms| ==> IsStep(ms[i])
    ensures Toks(MemberPieces(ms)) == MembersTokens(ms)
  {
    hide IsStep, StepText, StepToken, IsSelectWord;
    if ms != [] {
      StepIsWord(ms[0]);
      MembersToks(ms[1..]);
      ToksConcat([L(Arrow(ms[0].asText)), W(StepText(ms[0]))], MemberPieces(ms[1..]));
      assert Toks([L(Arrow(ms[0].asText)), W(StepText(ms[0]))]) == [Token(Arrow(ms[0].asText), false), StepToken(ms[0])];
    }
  }

  lemma StartIsRead(ts: seq<Token>, i: nat, spread: bool, alias: string, name: string)
    requires At(ts, i, Toks(StartPieces(spread, alias, name))) && IsSelectWord(name) && IsWordOrNone(alias)
    requires Peek(ts, i + |StartPieces(spread, alias, name)|) != ":"
    ensures i < |ts| && Peek(ts, i) != "" && (Peek(ts, i) == "..." <==> spread)
    ensures var j := NamePlace(ts, i);
      j == i + |StartPieces(spread, alias, name)| - 1 && j < |ts| && ts[j] == Token(name, false) && Peek(ts, j) == name && After(ts, j) == j + 1
    ensures LabelAt(ts, i) == if alias == "" then None else Some(alias)
  {
    hide IsSelectWord;
    var ps := StartPieces(spread, alias, name);
    WordIsNoMark(name);
    if alias != "" { WordIsNoMark(alias); }
    AtPeek(ts, i, Toks(ps), 0);
    AtPeek(ts, i, Toks(ps), |ps| - 1);
    if |ps| > 1 { AtPeek(ts, i, Toks(ps), 1); }
    if |ps| > 2 { AtPeek(ts, i, Toks(ps), 2); }
  }

  /** The column and its json path. */
  function FieldOf(name: string, ms: seq<Member>): Field {
    Field(name, "", [], SqlPath(ms), if ms == [] then "" else LastNamed(ms, name))
  }

  lemma FieldIsNamed(name: string, ms: seq<Member>)
    ensures FieldOf(name, ms).name == name
  {
  }

  lemma FieldIsRead(ts: seq<Token>, i: nat, name: string, ms: seq<Member>)
    requires i < |ts| && ts[i] == Token(name, false) && name != "" && At(ts, i + 1, MembersTokens(ms))
    requires (forall k :: 0 <= k < |ms| ==> IsStep(ms[k])) && S.IsQuiet(Peek(ts, i + 1 + |MembersTokens(ms)|))
    ensures FieldAt(ts, i, false, true) == Ok(FieldOf(name, ms), i + 1 + |MembersTokens(ms)|)
  {
    hide JsonMembers, SqlPath, LastNamed, MembersTokens, At;
    MembersAreFound(ts, i + 1, ms, "", "");
    assert "" + SqlPath(ms) == SqlPath(ms);
    PathShows(ms);
    NothingNamed();
  }

  lemma NothingNamed()
    ensures LastNamed([], "") == ""
  {
  }

  lemma CastStands(ts: seq<Token>, k: nat, cast: string)
    requires At(ts, k, Toks(CastPieces(cast)))
    requires var next := Peek(ts, k + |CastPieces(cast)|); S.IsQuiet(next) && next != "::"
    ensures k <= |ts| && S.IsQuiet(Peek(ts, k)) && (Peek(ts, k) == "::" <==> cast != "")
    ensures cast != "" ==> Peek(ts, After(ts, k)) == cast && After(ts, After(ts, k)) == k + |CastPieces(cast)|
  {
    hide S.IsQuiet, At;
    ColonsAreQuiet();
    AtEnds(ts, k, Toks(CastPieces(cast)));
    if cast != "" {
      AtPeek(ts, k, Toks(CastPieces(cast)), 0);
      AtPeek(ts, k, Toks(CastPieces(cast)), 1);
    }
  }

  lemma CastIsRead(ts: seq<Token>, i: nat, name: string, ms: seq<Member>, cast: string)
    requires i < |ts| && ts[i] == Token(name, false) && name != "" && (forall k :: 0 <= k < |ms| ==> IsStep(ms[k]))
    requires At(ts, i + 1, MembersTokens(ms) + Toks(CastPieces(cast)))
    requires var next := Peek(ts, i + 1 + |MembersTokens(ms)| + |CastPieces(cast)|); S.IsQuiet(next) && next != "::"
    ensures FieldCastAt(ts, i) == Ok((FieldOf(name, ms), cast), i + 1 + |MembersTokens(ms)| + |CastPieces(cast)|)
  {
    hide FieldAt, FieldOf, MembersTokens, IsStep, S.IsQuiet, At, Peek, After, Toks;
    AtSplit(ts, i + 1, MembersTokens(ms), Toks(CastPieces(cast)));
    CastStands(ts, i + 1 + |MembersTokens(ms)|, cast);
    FieldIsRead(ts, i, name, ms);
  }

  lemma ColonsAreQuiet()
    ensures S.IsQuiet("::")
  {
  }

  lemma FnExactly(fn: string)
    ensures Aggregate(fn).Some? <==> IsAggregate(fn)
    ensures Aggregate(fn).Some? ==> Aggregate(fn).value == (ToLower(fn), ToUpper(fn))
  {
    hide ToLower, ToUpper, IsCaseOf;
    IsFn(fn, "avg", "AVG");
    IsFn(fn, "count", "COUNT");
    IsFn(fn, "max", "MAX");
    IsFn(fn, "min", "MIN");
    IsFn(fn, "sum", "SUM");
  }

  lemma IsFn(fn: string, small: string, large: string)
    requires |small| == |large| && forall i :: 0 <= i < |small| ==> 'a' <= small[i] <= 'z' && large[i] as int == small[i] as int - 32
    ensures IsCaseOf(fn, small) <==> ToLower(fn) == small
    ensures IsCaseOf(fn, small) ==> ToUpper(fn) == large
  {
    LowerExactly(fn, small);
    if IsCaseOf(fn, small) {
      UpperOf(fn, small, large);
    }
  }

  lemma UpperOf(fn: string, small: string, large: string)
    requires IsCaseOf(fn, small) && |small| == |large|
    requires forall i :: 0 <= i < |small| ==> 'a' <= small[i] <= 'z' && large[i] as int == small[i] as int - 32
    ensures ToUpper(fn) == large
  {
  }

  lemma AggregateIsSeen(ts: seq<Token>, k: nat, fn: string)
    requires At(ts, k, Toks(AggregatePieces(fn))) && (fn != "" ==> Aggregate(fn).Some?) && (fn == "" ==> Peek(ts, k) != ".")
    ensures HasAggregate(ts, k) <==> fn != ""
    ensures fn != "" ==> Peek(ts, k) == "." && k + 3 <= |ts| && ts[k + 1].text == fn
  {
    hide IsAggregate;
    FnExactly(fn);
    if fn != "" {
      AtPeek(ts, k, Toks(AggregatePieces(fn)), 0);
      AtPeek(ts, k, Toks(AggregatePieces(fn)), 1);
      AtPeek(ts, k, Toks(AggregatePieces(fn)), 2);
    }
  }

  predicate Follows(t: string) { t == "" || t == "," || t == ")" }

  /** What a column or an aggregate goes by. */
  function AliasOf(alias: string, fn: string, last: string): string {
    if alias != "" then alias else if Aggregate(fn).Some? then Aggregate(fn).value.0 else last
  }

  function UpperFn(fn: string): string { if Aggregate(fn).Some? then Aggregate(fn).value.1 else "" }

  /** Behind its name a column has no parenthesis. */
  lemma NoParenthesis(ts: seq<Token>, i: nat, ms: seq<Member>, cast: string, fn: string)
    requires At(ts, i, Toks(MemberPieces(ms) + CastPieces(cast) + AggregatePieces(fn)))
    requires MemberPieces(ms) + CastPieces(cast) + AggregatePieces(fn) == [] ==> Peek(ts, i) != "()" && Peek(ts, i) != ":"
    ensures Peek(ts, i) != "()" && Peek(ts, i) != ":"
  {
    var ps := MemberPieces(ms) + CastPieces(cast) + AggregatePieces(fn);
    if ps != [] {
      AtPeek(ts, i, Toks(ps), 0);
      assert ms != [] ==> ps[0] == L(Arrow(ms[0].asText));
    }
  }

  /** A column from its name up to its aggregate. */
  lemma ColumnHeadIsRead(ts: seq<Token>, i: nat, alias: string, name: string, ms: seq<Member>, cast: string, fn: string, aggregates: bool)
    requires i < |ts| && ts[i] == Token(name, false) && name != "" && (forall k :: 0 <= k < |ms| ==> IsStep(ms[k])) && IsCastOrNone(cast)
    requires fn != "" ==> aggregates && Aggregate(fn).Some?
    requires At(ts, i + 1, Toks(MemberPieces(ms) + CastPieces(cast) + AggregatePieces(fn)))
    requires var next := Peek(ts, i + 1 + |MemberPieces(ms)| + |CastPieces(cast)| + |AggregatePieces(fn)|);
      fn == "" ==> S.IsQuiet(next) && next != "::" && next != "." && next != "()" && next != ":"
    ensures HeadAt(ts, i + 1, name, if alias == "" then None else Some(alias), aggregates)
         == Ok(Head(FieldOf(name, ms), AliasOf(alias, fn, FieldOf(name, ms).last), cast, UpperFn(fn)),
               i + 1 + |MemberPieces(ms)| + |CastPieces(cast)| + |AggregatePieces(fn)|)
  {
    hide FieldHead, HasAggregate, MemberPieces, CastPieces, AggregatePieces, At, FieldOf, Aggregate, IsStep, IsCastOrNone, IsAggregate, Toks, Peek, S.IsQuiet, AliasOf, UpperFn;
    var front, k := MemberPieces(ms) + CastPieces(cast), i + 1 + |MemberPieces(ms)| + |CastPieces(cast)|;
    ToksConcat(front, AggregatePieces(fn));
    ToksConcat(MemberPieces(ms), CastPieces(cast));
    MembersToks(ms);
    HeadStands(ts, i + 1, ms, cast, fn);
    AtSplit(ts, i + 1, Toks(front), Toks(AggregatePieces(fn)));
    AggregateIsSeen(ts, k, fn);
    CastIsRead(ts, i, name, ms, cast);
    FieldHeadIsRead(ts, i, alias, FieldOf(name, ms), cast, fn, k, aggregates);
  }

  lemma HeadStands(ts: seq<Token>, i: nat, ms: seq<Member>, cast: string, fn: string)
    requires At(ts, i, Toks(MemberPieces(ms) + CastPieces(cast) + AggregatePieces(fn)))
    requires var next := Peek(ts, i + |MemberPieces(ms)| + |CastPieces(cast)| + |AggregatePieces(fn)|);
      fn == "" ==> S.IsQuiet(next) && next != "::" && next != "." && next != "()" && next != ":"
    ensures var k := i + |MemberPieces(ms)| + |CastPieces(cast)|;
      Peek(ts, i) != "()" && S.IsQuiet(Peek(ts, k)) && Peek(ts, k) != "::" && (fn == "" ==> Peek(ts, k) != ".")
    ensures |Toks(MemberPieces(ms))| == |MemberPieces(ms)| && |Toks(CastPieces(cast))| == |CastPieces(cast)|
  {
    hide At, Peek, MemberPieces, CastPieces;
    var front := MemberPieces(ms) + CastPieces(cast);
    if front + AggregatePieces(fn) != [] {
      NoParenthesis(ts, i, ms, cast, fn);
    }
    if fn != "" {
      AtPeek(ts, i, Toks(front + AggregatePieces(fn)), |front|);
      assert (front + AggregatePieces(fn))[|front|] == M('.');
    }
  }

  lemma FieldHeadIsRead(ts: seq<Token>, i: nat, alias: string, f: Field, cast: string, fn: string, k: nat, aggregates: bool)
    requires i < |ts| && FieldCastAt(ts, i) == Ok((f, cast), k) && (HasAggregate(ts, k) <==> fn != "")
    requires fn != "" ==> aggregates && Aggregate(fn).Some? && k + 3 <= |ts| && ts[k + 1].text == fn
    ensures FieldHead(ts, i, if alias == "" then None else Some(alias), aggregates)
         == Ok(Head(f, AliasOf(alias, fn, f.last), cast, UpperFn(fn)), k + |AggregatePieces(fn)|)
  {
    hide FieldCastAt, HasAggregate, Aggregate, ToLower, ToUpper;
    NoFn();
    FnExactly(fn);
  }

  lemma NoFn()
    ensures Aggregate("").None?
    ensures forall fn :: Aggregate(fn).Some? ==> UpperFn(fn) != ""
    ensures IsCastOrNone("")
  {
    assert !IsCaseOf("", "avg") && !IsCaseOf("", "count") && !IsCaseOf("", "max") && !IsCaseOf("", "min") && !IsCaseOf("", "sum");
  }

  lemma AggCastIsRead(ts: seq<Token>, k: nat, h: Head, cast: string)
    requires At(ts, k, Toks(CastPieces(cast))) && IsCastOrNone(h.cast) && IsCastOrNone(cast) && (h.aggregate == "" ==> cast == "")
    requires cast == "" ==> Peek(ts, k) != "::"
    ensures k <= |ts| && CastsAt(ts, k, h) == Ok((h.cast, cast), k + |CastPieces(cast)|)
  {
    hide IsCastType, IsSelectWord;
    if cast != "" {
      AtPeek(ts, k, Toks(CastPieces(cast)), 0);
      AtPeek(ts, k, Toks(CastPieces(cast)), 1);
    }
  }

  /** The start of an item, its name, and everything behind it. */
  lemma StartAndRest(ts: seq<Token>, i: nat, spread: bool, alias: string, name: string, rest: seq<Piece>)
    requires At(ts, i, Toks(StartPieces(spread, alias, name) + rest))
    ensures var n := |StartPieces(spread, alias, name)|;
      n > 0 && At(ts, i, Toks(StartPieces(spread, alias, name))) && At(ts, i + n, Toks(rest))
  {
    hide At;
    ToksConcat(StartPieces(spread, alias, name), rest);
    AtSplit(ts, i, Toks(StartPieces(spread, alias, name)), Toks(rest));
  }

  /** Everything of a column behind its name but the cast of its aggregate. */
  function Behind(w: Written): seq<Piece>
    requires w.Column?
  {
    MemberPieces(w.members) + CastPieces(w.cast) + AggregatePieces(w.aggregate)
  }

  lemma ColumnPieces(w: Written, aggregates: bool)
    requires w.Column? && IsWritten(w, aggregates)
    ensures Pieces(w) == StartPieces(false, w.alias, w.name) + (Behind(w) + CastPieces(w.aggCast))
    ensures w.aggregate == "" ==> w.aggCast == ""
  {
    hide StartPieces, MemberPieces, CastPieces, AggregatePieces, IsSelectWord, IsStep, IsCastOrNone, Aggregate;
  }

  /** Where the parts of a column stand. */
  lemma ColumnStands(ts: seq<Token>, i: nat, w: Written, aggregates: bool) returns (n: nat)
    requires w.Column? && IsWritten(w, aggregates) && At(ts, i, Toks(Pieces(w))) && Follows(Peek(ts, i + |Pieces(w)|))
    ensures n == i + |StartPieces(false, w.alias, w.name)| && n > 0 && n + |Behind(w)| + |CastPieces(w.aggCast)| == i + |Pieces(w)| <= |ts|
    ensures At(ts, i, Toks(StartPieces(false, w.alias, w.name))) && At(ts, n, Toks(Behind(w))) && At(ts, n + |Behind(w)|, Toks(CastPieces(w.aggCast)))
    ensures Peek(ts, n) != ":" && (w.aggCast == "" ==> Follows(Peek(ts, n + |Behind(w)|)))
  {
    hide At, Peek, StartPieces, CastPieces, Behind, Pieces, IsWritten, Toks, Follows;
    var start, agg := StartPieces(false, w.alias, w.name), CastPieces(w.aggCast);
    n := i + |start|;
    ColumnPieces(w, aggregates);
    AtEnds(ts, i, Toks(Pieces(w)));
    StartAndRest(ts, i, false, w.alias, w.name, Behind(w) + agg);
    ToksConcat(Behind(w), agg);
    AtSplit(ts, n, Toks(Behind(w)), Toks(agg));
    BehindColumn(ts, n, w, agg);
  }

  lemma ColumnIsRead(ts: seq<Token>, i: nat, w: Written, scope: string, aggregates: bool)
    requires w.Column? && IsWritten(w, aggregates) && At(ts, i, Toks(Pieces(w))) && Follows(Peek(ts, i + |Pieces(w)|))
    ensures i <= |ts| && SelectItemAt(ts, i, scope, aggregates) == Ok([Meant(w, scope)], i + |Pieces(w)|)
  {
    hide HeadAt, CastsAt, NamePlace, LabelAt, SelectItemAt, EntryAt, HintAt, At, StartPieces, MemberPieces, CastPieces, AggregatePieces, Aggregate, IsSelectWord, IsStep,
         IsCastOrNone, Peek, Meant, FieldOf, AliasOf, UpperFn, Pieces, Toks, Follows;
    var n := ColumnStands(ts, i, w, aggregates);
    StartIsRead(ts, i, false, w.alias, w.name);
    WordIsNoMark(w.name);
    NoFn();
    FieldIsNamed(w.name, w.members);
    FollowsIsQuiet(Peek(ts, n + |Behind(w)|));
    ColumnHeadIsRead(ts, n - 1, w.alias, w.name, w.members, w.cast, w.aggregate, aggregates);
    var f := FieldOf(w.name, w.members);
    var h := Head(f, AliasOf(w.alias, w.aggregate, f.last), w.cast, UpperFn(w.aggregate));
    AggCastIsRead(ts, n + |Behind(w)|, h, w.aggCast);
    var e, t := i + |Pieces(w)|, Tail(w.cast, w.aggCast, "", false);
    ColumnIsEntry(ts, e, scope, aggregates, h, t);
    S.ItemIsEntry(ts, i, scope, aggregates, n - 1, h, n + |Behind(w)|, t, e);
    ColumnIsMeant(w, scope);
  }

  lemma FollowsIsQuiet(t: string)
    ensures Follows(t) ==> S.IsQuiet(t) && t != "::" && t != "." && t != "()" && t != ":"
  {
  }

  lemma ColumnIsMeant(w: Written, scope: string)
    requires w.Column?
    ensures var f := FieldOf(w.name, w.members);
      Meant(w, scope) == Selected(f.(tablename := scope), AliasOf(w.alias, w.aggregate, f.last), w.cast, UpperFn(w.aggregate), w.aggCast)
  {
    hide SqlPath, LastNamed, IsCaseOf;
  }

  /** What ends an item makes it a column. */
  lemma ColumnIsEntry(ts: seq<Token>, e: nat, scope: string, aggregates: bool, h: Head, t: Tail)
    requires 0 < e <= |ts| && Follows(Peek(ts, e)) && h.field.name != ","
    ensures HintAt(ts, e) == ("", false, e)
    ensures EntryAt(ts, e, scope, aggregates, false, h, t)
         == Ok([Selected(h.field.(tablename := scope), h.alias, t.cast, h.aggregate, t.aggCast)], e)
  {
    hide InsideAt;
  }

  /** What comes behind the parts of a column is no part of it. */
  lemma BehindColumn(ts: seq<Token>, n: nat, w: Written, agg: seq<Piece>)
    requires w.Column? && (w.aggregate == "" ==> w.aggCast == "") && agg == CastPieces(w.aggCast)
    requires At(ts, n, Toks(Behind(w))) && At(ts, n + |Behind(w)|, Toks(agg)) && Follows(Peek(ts, n + |Behind(w)| + |agg|))
    ensures Peek(ts, n) != ":" && (w.aggCast == "" ==> Follows(Peek(ts, n + |Behind(w)|)))
  {
    hide At, Peek, MemberPieces, AggregatePieces;
    if Behind(w) != [] {
      NoParenthesis(ts, n, w.members, w.cast, w.aggregate);
    } else if agg != [] {
      AtPeek(ts, n, Toks(agg), 0);
    }
  }

  lemma WholeIsRead(ts: seq<Token>, i: nat, w: Written, scope: string, aggregates: bool)
    requires w.Whole? && IsWritten(w, aggregates) && At(ts, i, Toks(Pieces(w))) && Follows(Peek(ts, i + |Pieces(w)|))
    ensures i <= |ts| && SelectItemAt(ts, i, scope, aggregates) == Ok([Meant(w, scope)], i + |Pieces(w)|)
  {
    hide CastsAt, NamePlace, LabelAt, SelectItemAt, EntryAt, HintAt, At, StartPieces, Aggregate, IsSelectWord, IsCastOrNone, ToLower, ToUpper, IsAggregate, FieldHead,
         Follows;
    var start, rest := StartPieces(false, w.alias, w.aggregate), [L("()")] + CastPieces(w.cast);
    var n, e := i + |start|, i + |Pieces(w)|;
    StartAndRest(ts, i, false, w.alias, w.aggregate, rest);
    AtPeek(ts, n, Toks(rest), 0);
    StartIsRead(ts, i, false, w.alias, w.aggregate);
    ToksConcat([L("()")], CastPieces(w.cast));
    AtSplit(ts, n, Toks([L("()")]), Toks(CastPieces(w.cast)));
    FnExactly(w.aggregate);
    NoFn();
    var h := Head(NO_FIELD.(name := "*"), AliasOf(w.alias, w.aggregate, ""), "", UpperFn(w.aggregate));
    FollowsIsQuiet(Peek(ts, e));
    AggCastIsRead(ts, n + 1, h, w.cast);
    ColumnIsEntry(ts, e, scope, aggregates, h, Tail("", w.cast, "", false));
    S.ItemIsEntry(ts, i, scope, aggregates, n - 1, h, n + 1, Tail("", w.cast, "", false), e);
  }

  // ----- Relations -----

  function ForeignKey(hint: string): string { if hint == "inner" || hint == "left" then "" else hint }

  lemma HintIsRead(ts: seq<Token>, i: nat, hint: string, inside: seq<Written>)
    requires At(ts, i, Toks(HintPieces(hint) + InsidePieces(inside)))
    ensures var e := i + |HintPieces(hint)|;
      && e < |ts| && HintAt(ts, i) == (ForeignKey(hint), hint == "inner", e) && At(ts, e, Toks(InsidePieces(inside)))
      && Peek(ts, e) == (if inside == [] then "()" else "(") && Peek(ts, i) == if hint == "" then Peek(ts, e) else "!"
  {
    hide At, ListPieces;
    var e := i + |HintPieces(hint)|;
    ToksConcat(HintPieces(hint), InsidePieces(inside));
    AtSplit(ts, i, Toks(HintPieces(hint)), Toks(InsidePieces(inside)));
    AtPeek(ts, e, Toks(InsidePieces(inside)), 0);
    if hint != "" {
      AtPeek(ts, i, Toks(HintPieces(hint)), 0);
      AtPeek(ts, i, Toks(HintPieces(hint)), 1);
    }
  }

  /** A relation up to its list. */
  lemma RelationBegins(ts: seq<Token>, i: nat, w: Written, scope: string, aggregates: bool)
    requires w.Relation? && IsWritten(w, aggregates) && At(ts, i, Toks(Pieces(w)))
    ensures var e := i + |StartPieces(w.spread, w.alias, w.name)| + |HintPieces(w.hint)|;
      && i <= |ts| && e < |ts| && At(ts, e, Toks(InsidePieces(w.inside))) && Peek(ts, e) == (if w.inside == [] then "()" else "(")
      && SelectItemAt(ts, i, scope, aggregates)
         == EntryAt(ts, e, scope, aggregates, w.spread, Head(NO_FIELD.(name := w.name), w.alias, "", ""),
                    Tail("", "", ForeignKey(w.hint), w.hint == "inner"))
  {
    hide HeadAt, CastsAt, HintAt, NamePlace, LabelAt, SelectItemAt, EntryAt, At, StartPieces, HintPieces, InsidePieces, IsSelectWord, Aggregate, Peek, FieldOf;
    var start := StartPieces(w.spread, w.alias, w.name);
    var n := i + |start|;
    StartAndRest(ts, i, w.spread, w.alias, w.name, HintPieces(w.hint) + InsidePieces(w.inside));
    HintIsRead(ts, n, w.hint, w.inside);
    StartIsRead(ts, i, w.spread, w.alias, w.name);
    WordIsNoMark(w.name);
    RelationHead(ts, n, w.alias, w.name, aggregates);
    var h := Head(NO_FIELD.(name := w.name), w.alias, "", "");
    S.ItemIsEntry(ts, i, scope, aggregates, n - 1, h, n, Tail("", "", ForeignKey(w.hint), w.hint == "inner"), n + |HintPieces(w.hint)|);
  }

  /** The name of a relation: no json path, cast or aggregate. */
  lemma RelationHead(ts: seq<Token>, n: nat, alias: string, name: string, aggregates: bool)
    requires 0 < n <= |ts| && ts[n - 1] == Token(name, false) && name != ""
    requires Peek(ts, n) == "!" || Peek(ts, n) == "(" || (Peek(ts, n) == "()" && Aggregate(name).None?)
    ensures var h := Head(NO_FIELD.(name := name), alias, "", "");
      && HeadAt(ts, n, name, if alias == "" then None else Some(alias), aggregates) == Ok(h, n)
      && CastsAt(ts, n, h) == Ok(("", ""), n)
  {
    hide IsAggregate, Aggregate;
    FnExactly(name);
  }

  lemma {:induction false} RelationIsRead(ts: seq<Token>, i: nat, w: Written, scope: string, aggregates: bool)
    requires w.Relation? && IsWritten(w, aggregates) && At(ts, i, Toks(Pieces(w)))
    ensures i <= |ts| && SelectItemAt(ts, i, scope, aggregates) == Ok([Meant(w, scope)], i + |Pieces(w)|)
    decreases w, 1
  {
    hide SelectItemAt, At, StartPieces, HintPieces, InsidePieces, InsideAt, MeantAll, IsSelectWord;
    RelationBegins(ts, i, w, scope, aggregates);
    InsideIsRead(ts, i + |StartPieces(w.spread, w.alias, w.name)| + |HintPieces(w.hint)|, w.inside, w.name, aggregates);
  }

  lemma {:induction false} InsideIsRead(ts: seq<Token>, i: nat, ws: seq<Written>, name: string, aggregates: bool)
    requires At(ts, i, Toks(InsidePieces(ws))) && forall k :: 0 <= k < |ws| ==> IsWritten(ws[k], aggregates)
    ensures i < |ts| && InsideAt(ts, i, name, aggregates) == Ok(MeantAll(ws, name), i + |InsidePieces(ws)|)
    decreases ws, 2
  {
    hide At, SelectListAt, ListPieces, IsWritten, MeantAll;
    AtPeek(ts, i, Toks(InsidePieces(ws)), 0);
    if ws == [] {
      NoneMeant(name);
    } else {
      var list := ListPieces(ws);
      ToksConcat([M('(')], list + [M(')')]);
      ToksConcat(list, [M(')')]);
      AtSplit(ts, i, Toks([M('(')]), Toks(list + [M(')')]));
      AtSplit(ts, i + 1, Toks(list), Toks([M(')')]));
      AtPeek(ts, i + 1 + |list|, Toks([M(')')]), 0);
      ListBegins(ts, i + 1, ws, aggregates);
      ListIsRead(ts, i + 1, ws, name, aggregates, []);
      assert [] + MeantAll(ws, name) == MeantAll(ws, name);
    }
  }

  lemma NoneMeant(scope: string)
    ensures MeantAll([], scope) == []
  {
  }

  /** No list begins with a closing parenthesis. */
  lemma ListBegins(ts: seq<Token>, i: nat, ws: seq<Written>, aggregates: bool)
    requires ws != [] && (forall k :: 0 <= k < |ws| ==> IsWritten(ws[k], aggregates)) && At(ts, i, Toks(ListPieces(ws)))
    ensures i < |ts| && Peek(ts, i) != ")"
  {
    hide At, IsWritten, IsPiece;
    ListIsHead(ws, aggregates);
    AtPeek(ts, i, Toks(ListPieces(ws)), 0);
    if ListPieces(ws)[0].W? {
      assert IsPiece(ListPieces(ws)[0]);
      IsWordPiece(ListPieces(ws)[0]);
    }
  }

  lemma IsWordPiece(p: Piece)
    requires IsPiece(p) && p.W?
    ensures p.s != ")"
  {
    WordIsNoMark(p.s);
  }

  lemma ListNext(ws: seq<Written>)
    requires |ws| > 1
    ensures ListPieces(ws) == Pieces(ws[0]) + ([M(',')] + ListPieces(ws[1..]))
  {
    hide Pieces;
  }

  /** Two stretches with a comma between them. */
  lemma CommaSplit(ts: seq<Token>, i: nat, a: seq<Piece>, b: seq<Piece>)
    requires At(ts, i, Toks(a + ([M(',')] + b)))
    ensures i + |a| < |ts| && At(ts, i, Toks(a)) && Peek(ts, i + |a|) == "," && At(ts, i + |a| + 1, Toks(b))
  {
    hide At, Peek;
    ToksConcat(a, [M(',')] + b);
    ToksConcat([M(',')], b);
    AtSplit(ts, i, Toks(a), Toks([M(',')] + b));
    AtSplit(ts, i + |a|, Toks([M(',')]), Toks(b));
    AtPeek(ts, i + |a|, Toks([M(',')]), 0);
  }

  /** The first item of a list, and what follows it. */
  lemma ListSplit(ts: seq<Token>, i: nat, ws: seq<Written>)
    requires |ws| > 1 && At(ts, i, Toks(ListPieces(ws)))
    ensures var n, more := |Pieces(ws[0])|, ListPieces(ws[1..]);
      && |ListPieces(ws)| == n + 1 + |more| && i + n < |ts| && At(ts, i, Toks(Pieces(ws[0]))) && Peek(ts, i + n) == "," && At(ts, i + n + 1, Toks(more))
  {
    hide At, Pieces, ListPieces, Peek, Toks;
    ListNext(ws);
    CommaSplit(ts, i, Pieces(ws[0]), ListPieces(ws[1..]));
  }

  lemma MeantNext(ws: seq<Written>, scope: string)
    requires ws != []
    ensures MeantAll(ws, scope) == [Meant(ws[0], scope)] + MeantAll(ws[1..], scope) && MeantAll([], scope) == []
  {
    hide Meant;
  }

  /** A list and what ends it: a closing parenthesis or nothing. */
  lemma {:induction false} ListIsRead(ts: seq<Token>, i: nat, ws: seq<Written>, scope: string, aggregates: bool, acc: seq<SelectField>)
    requires ws != [] && At(ts, i, Toks(ListPieces(ws))) && forall k :: 0 <= k < |ws| ==> IsWritten(ws[k], aggregates)
    requires Peek(ts, i + |ListPieces(ws)|) == "" || Peek(ts, i + |ListPieces(ws)|) == ")"
    ensures i <= |ts| && SelectListAt(ts, i, scope, aggregates, acc) == Ok(acc + MeantAll(ws, scope), i + |ListPieces(ws)|)
    decreases ws, 1
  {
    hide At, SelectItemAt, SelectListAt, Pieces, IsWritten, Meant, MeantAll, Toks, Peek;
    var w, n := ws[0], |Pieces(ws[0])|;
    MeantNext(ws, scope);
    if |ws| == 1 {
      assert ws[1..] == [];
      assert acc + ([Meant(w, scope)] + []) == acc + [Meant(w, scope)];
      ItemIsRead(ts, i, w, scope, aggregates);
      ListStep(ts, i, scope, aggregates, acc);
    } else {
      hide ListPieces;
      ListSplit(ts, i, ws);
      ItemIsRead(ts, i, w, scope, aggregates);
      ListIsRead(ts, i + n + 1, ws[1..], scope, aggregates, acc + [Meant(w, scope)]);
      ListStep(ts, i, scope, aggregates, acc);
      assert acc + [Meant(w, scope)] + MeantAll(ws[1..], scope) == acc + ([Meant(w, scope)] + MeantAll(ws[1..], scope));
    }
  }

  lemma {:induction false} ItemIsRead(ts: seq<Token>, i: nat, w: Written, scope: string, aggregates: bool)
    requires IsWritten(w, aggregates) && At(ts, i, Toks(Pieces(w))) && Follows(Peek(ts, i + |Pieces(w)|))
    ensures i <= |ts| && SelectItemAt(ts, i, scope, aggregates) == Ok([Meant(w, scope)], i + |Pieces(w)|)
    decreases w, 2
  {
    hide At, SelectItemAt, Pieces, Meant, IsWritten;
    match w
    case Column(_, _, _, _, _, _) => ColumnIsRead(ts, i, w, scope, aggregates);
    case Whole(_, _, _) => WholeIsRead(ts, i, w, scope, aggregates);
    case Relation(_, _, _, _, _) => RelationIsRead(ts, i, w, scope, aggregates);
  }

  /** Main result: a select list without quotes is read as it is meant: json paths, casts, labels,
      aggregates by themselves or of a column, hints, and relations nested to any depth. */
  lemma WrittenSelectIsRead(ws: seq<Written>, aggregates: bool)
    requires ws != [] && forall k :: 0 <= k < |ws| ==> IsWritten(ws[k], aggregates)
    ensures var ts := Scan(Text(ListPieces(ws)), START, SELECT_SEP, SELECT_LONG);
      SelectListAt(ts, 0, "", aggregates, []) == Ok(MeantAll(ws, ""), |ts|)
  {
    hide Scan, SelectListAt, ListPieces, IsWritten, MeantAll, IsPiece;
    ListIsHead(ws, aggregates);
    PiecesAreRead(ListPieces(ws), "");
    var ts := Toks(ListPieces(ws));
    EmptyScan();
    assert Text(ListPieces(ws)) + "" == Text(ListPieces(ws)) && ts + [] == ts;
    assert At(ts, 0, ts) by { assert ts[0..0 + |ts|] == ts; }
    ListIsRead(ts, 0, ws, "", aggregates, []);
    assert [] + MeantAll(ws, "") == MeantAll(ws, "");
  }

  lemma EmptyScan()
    ensures ScanRest("", MARKS) == []
  {
  }
}
