/** The tokenizer of the request parser (database/requestparser.go, scan), one character standing
    for one byte, and what it makes of printed names, separators and quoted strings. */
module Scanner {

  datatype Token = Token(text: string, quoted: bool)

  datatype ScanState = ScanState(quot: bool, esc: bool, normal: string, quoted: string, wasSep: bool)

  const START := ScanState(false, false, "", "", true)

  predicate IsQuote(c: char) { c == '"' || c == '\'' }

  /** The word collected so far becomes a token. */
  function Flush(normal: string): seq<Token> { if normal != "" then [Token(normal, false)] else [] }

  /** The first long separator that r starts with; they are listed longest first. */
  function LongSepAt(r: string, longSep: seq<string>): (l: string)
    ensures l <= r
  {
    if longSep == [] then ""
    else if longSep[0] <= r then longSep[0]
    else LongSepAt(r, longSep[1..])
  }

  /** One turn of the loop at the head of r: emitted tokens, next state, bytes consumed. */
  function ScanStep(r: string, st: ScanState, sep: string, longSep: seq<string>): (x: (seq<Token>, ScanState, nat))
    requires r != ""
    ensures 1 <= x.2 <= |r|
  {
    var c := r[0];
    if st.esc then
      if st.quot then ([], st.(esc := false, quoted := st.quoted + [c]), 1)
      else ([], st.(esc := false, normal := st.normal + [c]), 1)
    else if st.quot then
      if IsQuote(c) then ([Token(st.quoted, true)], st.(quot := false, wasSep := true), 1)
      else if c == '\\' then ([], st.(esc := true), 1)
      else ([], st.(quoted := st.quoted + [c]), 1)
    else if st.wasSep && c == ' ' then ([], st, 1)
    else if c == '\\' then ([], st.(esc := true), 1)
    else
      var l := LongSepAt(r, longSep);
      if l != "" then (Flush(st.normal) + [Token(l, false)], st.(normal := "", wasSep := true), |l|)
      else if IsQuote(c) then (Flush(st.normal), st.(normal := "", quot := true, quoted := "", wasSep := false), 1)
      else if c in sep then (Flush(st.normal) + [Token([c], false)], st.(normal := "", wasSep := true), 1)
      else ([], st.(normal := st.normal + [c], wasSep := false), 1)
  }

  /** All tokens still to come when r is left to read. */
  function Scan(r: string, st: ScanState, sep: string, longSep: seq<string>): seq<Token>
    decreases |r|
  {
    if r == "" then Flush(st.normal)
    else
      var (ts, st', n) := ScanStep(r, st, sep, longSep);
      ts + Scan(r[n..], st', sep, longSep)
  }

  // ----- Printing -----

  /** A quoted string, with quotes and backslashes escaped. */
  function Escape(s: string): string {
    if s == "" then ""
    else (if IsQuote(s[0]) || s[0] == '\\' then ['\\', s[0]] else [s[0]]) + Escape(s[1..])
  }

  function Quote(s: string): string { "\"" + Escape(s) + "\"" }

  /** Plain when it can be, quoted otherwise. */
  function PrintName(s: string, sep: string, longSep: seq<string>): string {
    if IsPlain(s, sep, longSep) then s else Quote(s)
  }

  /** A string that needs no quotes: no separator, quote or backslash, no leading blank. */
  predicate IsPlain(s: string, sep: string, longSep: seq<string>) {
    s != "" && s[0] != ' ' && AllPlain(s, sep, longSep)
  }

  predicate AllPlain(s: string, sep: string, longSep: seq<string>) {
    s == "" || (PlainChar(s[0], sep, longSep) && AllPlain(s[1..], sep, longSep))
  }

  predicate PlainChar(c: char, sep: string, longSep: seq<string>) {
    c !in sep && !IsQuote(c) && c != '\\' && NotLong(c, longSep)
  }

  // ----- Scanning what was printed -----

  /** No long separator begins with c. */
  predicate NotLong(c: char, longSep: seq<string>) { forall i :: 0 <= i < |longSep| ==> longSep[i] != "" && longSep[i][0] != c }

  lemma {:induction false} NoLongSep(r: string, longSep: seq<string>)
    requires r != "" && NotLong(r[0], longSep)
    ensures LongSepAt(r, longSep) == ""
  {
    if longSep != [] {
      NoLongSep(r, longSep[1..]);
    }
  }

  /** Outside quotes, what the last quoted string was does not matter. */
  lemma {:induction false} QuotedBufferIsIrrelevant(r: string, st: ScanState, quoted: string, sep: string, longSep: seq<string>)
    requires !st.quot
    ensures Scan(r, st.(quoted := quoted), sep, longSep) == Scan(r, st, sep, longSep)
    decreases |r|
  {
    if r != "" {
      var (ts, st', n) := ScanStep(r, st, sep, longSep);
      if !st'.quot {
        QuotedBufferIsIrrelevant(r[n..], st', quoted, sep, longSep);
      }
    }
  }

  lemma Unquoted(c: char, r: string)
    ensures (['\\', c] + r)[1..] == [c] + r && ([c] + r)[1..] == r
  {
  }

  /** Inside quotes, escaped text is collected unchanged. */
  lemma {:induction false} ScanEscaped(s: string, rest: string, done: string, sep: string, longSep: seq<string>)
    ensures Scan(Escape(s) + rest, ScanState(true, false, "", done, false), sep, longSep)
         == Scan(rest, ScanState(true, false, "", done + s, false), sep, longSep)
    decreases |s|
  {
    var st := ScanState(true, false, "", done, false);
    if s == "" {
      assert Escape(s) + rest == rest && done + s == done;
    } else {
      var c, r := s[0], Escape(s[1..]) + rest;
      assert done + s == done + [c] + s[1..];
      if IsQuote(c) || c == '\\' {
        assert Escape(s) + rest == ['\\', c] + r;
        Unquoted(c, r);
        assert Scan([c] + r, st.(esc := true), sep, longSep) == Scan(r, st.(quoted := done + [c]), sep, longSep);
      } else {
        assert Escape(s) + rest == [c] + r;
        assert ([c] + r)[1..] == r;
      }
      ScanEscaped(s[1..], rest, done + [c], sep, longSep);
    }
  }

  /** A quoted string is one quoted token with exactly its text. Either quote opens it, and either
      closes it. */
  lemma ScanBetween(open: char, close: char, s: string, rest: string, sep: string, longSep: seq<string>)
    requires (open == '"' || open == '\'') && (close == '"' || close == '\'') && NotLong(open, longSep)
    ensures Scan([open] + (Escape(s) + ([close] + rest)), START, sep, longSep) == [Token(s, true)] + Scan(rest, START, sep, longSep)
  {
    var r := Escape(s) + ([close] + rest);
    assert ([open] + r)[1..] == r;
    NoLongSep([open] + r, longSep);
    ScanEscaped(s, [close] + rest, "", sep, longSep);
    assert ([close] + rest)[1..] == rest && "" + s == s;
    QuotedBufferIsIrrelevant(rest, START, s, sep, longSep);
  }

  lemma ScanQuoted(s: string, rest: string, sep: string, longSep: seq<string>)
    requires NotLong('"', longSep)
    ensures Scan(Quote(s) + rest, START, sep, longSep) == [Token(s, true)] + Scan(rest, START, sep, longSep)
  {
    hide Scan, Escape;
    ScanBetween('"', '"', s, rest, sep, longSep);
    Enclosed(Escape(s), rest);
  }

  lemma Enclosed(e: string, rest: string)
    ensures "\"" + e + "\"" + rest == ['"'] + (e + (['"'] + rest))
  {
  }

  /** What a quote opens that nothing closes is dropped. */
  lemma {:induction false} ScanUnclosed(t: string, esc: bool, done: string, sep: string, longSep: seq<string>)
    requires forall i :: 0 <= i < |t| ==> t[i] != '"' && t[i] != '\''
    ensures Scan(t, ScanState(true, esc, "", done, false), sep, longSep) == []
    decreases |t|
  {
    if t != "" {
      var st := ScanState(true, esc, "", done, false);
      assert forall i :: 0 <= i < |t[1..]| ==> t[1..][i] == t[i + 1];
      var (_, st', _) := ScanStep(t, st, sep, longSep);
      ScanUnclosed(t[1..], st'.esc, st'.quoted, sep, longSep);
    }
  }

  predicate IsSep(c: char, sep: string, longSep: seq<string>) {
    c in sep && c != ' ' && c != '\\' && !IsQuote(c) && NotLong(c, longSep)
  }

  /** A separator is a token of its own, and completes the word before it. */
  lemma ScanSep(c: char, rest: string, normal: string, wasSep: bool, sep: string, longSep: seq<string>)
    requires IsSep(c, sep, longSep)
    ensures Scan([c] + rest, ScanState(false, false, normal, "", wasSep), sep, longSep)
         == Flush(normal) + [Token([c], false)] + Scan(rest, START, sep, longSep)
  {
    assert ([c] + rest)[1..] == rest;
    NoLongSep([c] + rest, longSep);
  }

  /** Plain text is collected unchanged. */
  lemma {:induction false} ScanPlain(s: string, rest: string, done: string, wasSep: bool, sep: string, longSep: seq<string>)
    requires AllPlain(s, sep, longSep) && (wasSep ==> s != "" && s[0] != ' ')
    ensures Scan(s + rest, ScanState(false, false, done, "", wasSep), sep, longSep)
         == Scan(rest, ScanState(false, false, done + s, "", false), sep, longSep)
    decreases |s|
  {
    if s == "" {
      assert s + rest == rest && done + s == done;
    } else {
      assert s + rest == [s[0]] + (s[1..] + rest) && (s + rest)[1..] == s[1..] + rest;
      NoLongSep(s + rest, longSep);
      assert done + s == done + [s[0]] + s[1..];
      ScanPlain(s[1..], rest, done + [s[0]], false, sep, longSep);
    }
  }

  /** Whether s is printed plain or quoted, before a separator it is one token with its text. */
  lemma ScanName(s: string, c: char, rest: string, sep: string, longSep: seq<string>)
    requires IsSep(c, sep, longSep) && NotLong('"', longSep)
    ensures Scan(PrintName(s, sep, longSep) + [c] + rest, START, sep, longSep)
         == [Token(s, !IsPlain(s, sep, longSep)), Token([c], false)] + Scan(rest, START, sep, longSep)
  {
    hide Scan, Quote;
    assert PrintName(s, sep, longSep) + [c] + rest == PrintName(s, sep, longSep) + ([c] + rest);
    if IsPlain(s, sep, longSep) {
      ScanPlain(s, [c] + rest, "", true, sep, longSep);
      assert "" + s == s;
      ScanSep(c, rest, s, false, sep, longSep);
    } else {
      ScanQuoted(s, [c] + rest, sep, longSep);
      ScanSep(c, rest, "", true, sep, longSep);
    }
  }

  // ----- Texts that are read as tokens -----

  datatype Separators = Separators(sep: string, long: seq<string>)

  function ScanRest(r: string, m: Separators): seq<Token> { Scan(r, START, m.sep, m.long) }

  /** `text` is read as `toks`, whatever follows. */
  ghost predicate Reads(text: string, toks: seq<Token>, m: Separators) {
    forall rest {:trigger ScanRest(text + rest, m)} :: ScanRest(text + rest, m) == toks + ScanRest(rest, m)
  }

  lemma ReadsNothing(m: Separators)
    ensures Reads("", [], m)
  {
    hide ScanRest;
    forall rest ensures ScanRest("" + rest, m) == [] + ScanRest(rest, m) {
      assert "" + rest == rest;
    }
  }

  lemma ReadsConcat(a: string, ta: seq<Token>, b: string, tb: seq<Token>, m: Separators)
    requires Reads(a, ta, m) && Reads(b, tb, m)
    ensures Reads(a + b, ta + tb, m)
  {
    hide ScanRest;
    forall rest ensures ScanRest(a + b + rest, m) == ta + tb + ScanRest(rest, m) {
      assert a + b + rest == a + (b + rest);
      assert ta + tb + ScanRest(rest, m) == ta + (tb + ScanRest(rest, m));
    }
  }

  lemma ReadsAt(text: string, toks: seq<Token>, rest: string, m: Separators)
    requires Reads(text, toks, m)
    ensures ScanRest(text + rest, m) == toks + ScanRest(rest, m)
  {
  }

  lemma ReadsAlone(text: string, toks: seq<Token>, m: Separators)
    requires Reads(text, toks, m)
    ensures ScanRest(text, m) == toks
  {
    hide Reads;
    ReadsAt(text, toks, "", m);
    assert text + "" == text && ScanRest("", m) == [];
  }

  lemma ReadsQuoted(s: string, m: Separators)
    requires NotLong('"', m.long)
    ensures Reads(Quote(s), [Token(s, true)], m)
  {
    hide Scan, Quote;
    forall rest ensures ScanRest(Quote(s) + rest, m) == [Token(s, true)] + ScanRest(rest, m) {
      ScanQuoted(s, rest, m.sep, m.long);
    }
  }
}
