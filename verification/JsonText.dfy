/** Strings in JSON (database/textserializer.go, appendString). A character stands for a byte; what
    the bytes of a string mean is UTF-8, decoded as Go decodes it. */
module JsonText {
  import opened Sql

  // ----- UTF-8 -----

  datatype Rune = Rune(code: int, size: nat) | Invalid

  predicate Within(c: char, lo: int, hi: int) { lo <= c as int <= hi }

  predicate IsTail(c: char) { Within(c, 0x80, 0xBF) }

  /** utf8.DecodeRune at the head of s; an invalid byte is taken alone. */
  function DecodeRune(s: string): (r: Rune)
    requires s != ""
    ensures r.Rune? ==> 1 <= r.size <= |s| && r.size <= 4
    ensures r.Rune? && s[0] as int >= 0x80 ==> r.size >= 2 && forall i :: 0 <= i < r.size ==> s[i] as int >= 0x80
  {
    var a := s[0] as int;
    if a < 0x80 then Rune(a, 1)
    else if Within(s[0], 0xC2, 0xDF) && |s| >= 2 && IsTail(s[1]) then
      Rune((a - 0xC0) * 0x40 + (s[1] as int - 0x80), 2)
    else if Within(s[0], 0xE0, 0xEF) && |s| >= 3 && SecondOfThree(s[0], s[1]) && IsTail(s[2]) then
      Rune((a - 0xE0) * 0x1000 + (s[1] as int - 0x80) * 0x40 + (s[2] as int - 0x80), 3)
    else if Within(s[0], 0xF0, 0xF4) && |s| >= 4 && SecondOfFour(s[0], s[1]) && IsTail(s[2]) && IsTail(s[3]) then
      Rune((a - 0xF0) * 0x4_0000 + (s[1] as int - 0x80) * 0x1000 + (s[2] as int - 0x80) * 0x40 + (s[3] as int - 0x80), 4)
    else Invalid
  }

  /** No overlong forms, no surrogates. */
  predicate SecondOfThree(a: char, b: char) {
    Within(b, if a as int == 0xE0 then 0xA0 else 0x80, if a as int == 0xED then 0x9F else 0xBF)
  }

  /** No overlong forms, nothing above U+10FFFF. */
  predicate SecondOfFour(a: char, b: char) {
    Within(b, if a as int == 0xF0 then 0x90 else 0x80, if a as int == 0xF4 then 0x8F else 0xBF)
  }

  predicate ValidUtf8(s: string)
    decreases |s|
  {
    s == "" || match DecodeRune(s)
      case Rune(_, n) => ValidUtf8(s[n..])
      case Invalid => false
  }

  function Byte(n: int): char
    requires 0 <= n < 256
  {
    n as char
  }

  /** The bytes of a code point below U+10000. */
  function Utf8(code: int): string
    requires 0 <= code < 0x1_0000
  {
    if code < 0x80 then [Byte(code)]
    else if code < 0x800 then [Byte(0xC0 + code / 0x40), Byte(0x80 + code % 0x40)]
    else [Byte(0xE0 + code / 0x1000), Byte(0x80 + code / 0x40 % 0x40), Byte(0x80 + code % 0x40)]
  }

  /** s with every invalid byte replaced by U+FFFD. */
  function Sanitize(s: string): string
    decreases |s|
  {
    if s == "" then "" else match DecodeRune(s)
      case Rune(_, n) => s[..n] + Sanitize(s[n..])
      case Invalid => Utf8(0xFFFD) + Sanitize(s[1..])
  }

  // ----- Escaping -----

  /** A byte below 0x80 that stands for itself. */
  predicate IsSafe(c: char, escapeHTML: bool) {
    0x20 <= c as int < 0x80 && c != '"' && c != '\\' && (escapeHTML ==> c != '<' && c != '>' && c != '&')
  }

  function HexDigit(n: int): char
    requires 0 <= n < 16
  {
    if n < 10 then (n + '0' as int) as char else (n - 10 + 'a' as int) as char
  }

  function EscapeByte(c: char, escapeHTML: bool): string
    requires c as int < 0x80
  {
    if IsSafe(c, escapeHTML) then [c]
    else if c == '\\' || c == '"' then ['\\', c]
    else if c == '\n' then "\\n"
    else if c == '\r' then "\\r"
    else if c == '\t' then "\\t"
    else "\\u00" + [HexDigit(c as int / 16), HexDigit(c as int % 16)]
  }

  predicate IsSeparatorRune(code: int) { code == 0x2028 || code == 0x2029 }

  /** One rune, or one invalid byte, of the input: its text and its length. */
  function EscapeUnit(s: string, escapeHTML: bool): (u: (string, nat))
    requires s != ""
    ensures 1 <= u.1 <= |s|
  {
    if s[0] as int < 0x80 then (EscapeByte(s[0], escapeHTML), 1)
    else match DecodeRune(s)
      case Invalid => ("\\ufffd", 1)
      case Rune(code, n) => (if IsSeparatorRune(code) then "\\u202" + [HexDigit(code % 16)] else s[..n], n)
  }

  function EscapeText(s: string, escapeHTML: bool): string
    decreases |s|
  {
    if s == "" then "" else
      var (text, n) := EscapeUnit(s, escapeHTML);
      text + EscapeText(s[n..], escapeHTML)
  }

  lemma StartText(s: string, escapeHTML: bool)
    ensures "" + s[0..0] + EscapeText(s[0..], escapeHTML) == EscapeText(s, escapeHTML) && EscapeText("", escapeHTML) == ""
  {
    assert s[0..] == s;
  }

  lemma EndText(s: string, out: string, start: nat, escapeHTML: bool)
    requires start <= |s|
    ensures out + s[start..|s|] + EscapeText(s[|s|..], escapeHTML) == out + s[start..|s|]
  {
    assert s[|s|..] == "";
  }

  lemma SafeByte(c: char, escapeHTML: bool)
    requires IsSafe(c, escapeHTML)
    ensures EscapeByte(c, escapeHTML) == [c]
  {
  }

  /** What the next unit does to the text: it stays in the run, or is written in another form. */
  lemma UnitAt(s: string, out: string, start: nat, i: nat, escapeHTML: bool)
    requires start <= i < |s|
    ensures var (text, n) := EscapeUnit(s[i..], escapeHTML); var more := EscapeText(s[i + n..], escapeHTML);
      && (text == s[i..i + n] ==> out + s[start..i + n] + more == out + s[start..i] + EscapeText(s[i..], escapeHTML))
      && out + s[start..i] + text + s[i + n..i + n] + more == out + s[start..i] + EscapeText(s[i..], escapeHTML)
  {
    hide EscapeUnit;
    var (text, n) := EscapeUnit(s[i..], escapeHTML);
    assert s[i..][n..] == s[i + n..];
    if text == s[i..i + n] {
      assert s[start..i + n] == s[start..i] + text;
    }
  }

  method WriteEscape(out: string, byt: char, escapeHTML: bool) returns (out': string)
    requires byt as int < 0x80 && !IsSafe(byt, escapeHTML)
    ensures out' == out + EscapeByte(byt, escapeHTML)
  {
    out' := out + ['\\'];
    if byt == '\\' || byt == '"' {
      out' := out' + [byt];
    } else if byt == '\n' {
      out' := out' + ['n'];
    } else if byt == '\r' {
      out' := out' + ['r'];
    } else if byt == '\t' {
      out' := out' + ['t'];
    } else {
      out' := out' + "u00";
      out' := out' + [HexDigit(byt as int / 16)];
      out' := out' + [HexDigit(byt as int % 16)];
    }
  }

  /** Writes the run that is pending. */
  method Flush(s: string, out: string, start: nat, i: nat) returns (out': string)
    requires start <= i <= |s|
    ensures out' == out + s[start..i]
  {
    out' := out;
    if start < i {
      out' := out' + s[start..i];
    }
  }

  /** appendString: bytes that stand for themselves are written in runs, from `start` up to `i`. */
  method AppendString(s: string, escapeHTML: bool) returns (out: string)
    ensures out == EscapeText(s, escapeHTML)
  {
    hide EscapeText, DecodeRune, EscapeByte;
    out := "";
    var start, i := 0, 0;
    StartText(s, escapeHTML);
    while i < |s|
      invariant 0 <= start <= i <= |s|
      invariant out + s[start..i] + EscapeText(s[i..], escapeHTML) == EscapeText(s, escapeHTML)
      decreases |s| - i
    {
      var byt := s[i];
      UnitAt(s, out, start, i, escapeHTML);
      if byt as int < 0x80 {
        if IsSafe(byt, escapeHTML) {
          SafeByte(byt, escapeHTML);
          i := i + 1;
          continue;
        }
        out := Flush(s, out, start, i);
        out := WriteEscape(out, byt, escapeHTML);
        i := i + 1;
        start := i;
        continue;
      }
      var c := DecodeRune(s[i..]);
      if c.Invalid? {
        out := Flush(s, out, start, i);
        out := out + "\\ufffd";
        i := i + 1;
        start := i;
        continue;
      }
      if IsSeparatorRune(c.code) {
        out := Flush(s, out, start, i);
        out := out + "\\u202";
        out := out + [HexDigit(c.code % 16)];
        i := i + c.size;
        start := i;
        continue;
      }
      i := i + c.size;
    }
    EndText(s, out, start, escapeHTML);
    out := Flush(s, out, start, |s|);
  }

  // ----- Reading a string -----

  datatype Read = Read(text: string, rest: string) | Malformed

  function HexValue(c: char): Option<int> {
    if '0' <= c <= '9' then Some(c as int - '0' as int)
    else if 'a' <= c <= 'f' then Some(c as int - 'a' as int + 10)
    else if 'A' <= c <= 'F' then Some(c as int - 'A' as int + 10)
    else None
  }

  /** The code unit of four hexadecimal digits. */
  function Hex4(s: string): (r: Option<int>)
    requires |s| == 4
    ensures r.Some? ==> 0 <= r.value < 0x1_0000
  {
    var a, b, c, d := HexValue(s[0]), HexValue(s[1]), HexValue(s[2]), HexValue(s[3]);
    if a.Some? && b.Some? && c.Some? && d.Some? then Some(((a.value * 16 + b.value) * 16 + c.value) * 16 + d.value) else None
  }

  function Unescaped(c: char): Option<char> {
    match c
    case '"' => Some('"')
    case '\\' => Some('\\')
    case '/' => Some('/')
    case 'b' => Some(8 as char)
    case 'f' => Some(12 as char)
    case 'n' => Some('\n')
    case 'r' => Some('\r')
    case 't' => Some('\t')
    case _ => None
  }

  function Prefixed(x: string, r: Read): Read {
    match r
    case Read(text, rest) => Read(x + text, rest)
    case Malformed => Malformed
  }

  /** The second half of a pair, at the head of t. */
  function LowSurrogate(t: string): (r: Option<int>)
    ensures r.Some? ==> |t| >= 6 && 0xDC00 <= r.value < 0xE000
  {
    if |t| >= 6 && t[0] == '\\' && t[1] == 'u' then
      match Hex4(t[2..6])
      case Some(code) => if 0xDC00 <= code < 0xE000 then Some(code) else None
      case None => None
    else None
  }

  function PairCode(high: int, low: int): (code: int)
    requires 0xD800 <= high < 0xDC00 <= low < 0xE000
    ensures 0x1_0000 <= code < 0x11_0000
  {
    0x1_0000 + (high - 0xD800) * 0x400 + (low - 0xDC00)
  }

  /** The bytes of the code point of a pair. */
  function Utf8Pair(high: int, low: int): string
    requires 0xD800 <= high < 0xDC00 <= low < 0xE000
  {
    var code := PairCode(high, low);
    var a := code / 0x40;
    var b := a / 0x40;
    [Byte(0xF0 + b / 0x40), Byte(0x80 + b % 0x40), Byte(0x80 + a % 0x40), Byte(0x80 + code % 0x40)]
  }

  lemma PairIsRune(high: int, low: int)
    requires 0xD800 <= high < 0xDC00 <= low < 0xE000
    ensures DecodeRune(Utf8Pair(high, low)) == Rune(PairCode(high, low), 4)
  {
    hide PairCode;
    var code := PairCode(high, low);
    var a := code / 0x40;
    var b := a / 0x40;
    assert code == 0x40 * a + code % 0x40 && a == 0x40 * b + a % 0x40 && b == 0x40 * (b / 0x40) + b % 0x40;
    FourBytes(b / 0x40, b % 0x40, a % 0x40, code % 0x40);
  }

  lemma FourBytes(a: int, b: int, c: int, d: int)
    requires 0 <= a <= 4 && 0 <= b < 0x40 && 0 <= c < 0x40 && 0 <= d < 0x40
    requires 0x1_0000 <= a * 0x4_0000 + b * 0x1000 + c * 0x40 + d < 0x11_0000
    ensures DecodeRune([Byte(0xF0 + a), Byte(0x80 + b), Byte(0x80 + c), Byte(0x80 + d)])
         == Rune(a * 0x4_0000 + b * 0x1000 + c * 0x40 + d, 4)
  {
  }

  /** The bytes that a \uXXXX at the head of t stands for, and its length. A pair of surrogates is one
      code point; a surrogate alone is replaced, as Go's decoder does. */
  function ReadCode(t: string): (r: Option<(string, nat)>)
    requires |t| >= 2
    ensures r.Some? ==> 6 <= r.value.1 <= |t| && 1 <= |r.value.0| <= 4
  {
    if |t| < 6 then None
    else match Hex4(t[2..6])
      case None => None
      case Some(code) =>
        if !(0xD800 <= code < 0xE000) then Some((Utf8(code), 6))
        else if code < 0xDC00 && LowSurrogate(t[6..]).Some? then Some((Utf8Pair(code, LowSurrogate(t[6..]).value), 12))
        else Some((Utf8(0xFFFD), 6))
  }

  /** A JSON string, from behind its opening quote to its closing quote (section 7 of RFC 8259):
      control bytes must be escaped. */
  function ReadString(t: string): Read
    decreases |t|
  {
    if t == "" || t[0] as int < 0x20 then Malformed
    else if t[0] == '"' then Read("", t[1..])
    else if t[0] != '\\' then Prefixed([t[0]], ReadString(t[1..]))
    else if |t| < 2 then Malformed
    else if t[1] == 'u' then
      match ReadCode(t)
      case Some((bytes, n)) => Prefixed(bytes, ReadString(t[n..]))
      case None => Malformed
    else match Unescaped(t[1])
      case Some(c) => Prefixed([c], ReadString(t[2..]))
      case None => Malformed
  }

  lemma PrefixedTwice(x: string, y: string, r: Read)
    ensures Prefixed(x, Prefixed(y, r)) == Prefixed(x + y, r)
  {
    if r.Read? {
      assert x + (y + r.text) == (x + y) + r.text;
    }
  }

  /** Bytes of runes beyond ASCII stand for themselves. */
  lemma {:induction false} ReadRaw(a: string, t: string)
    requires forall i :: 0 <= i < |a| ==> a[i] as int >= 0x80
    ensures ReadString(a + t) == Prefixed(a, ReadString(t))
  {
    if a == "" {
      assert a + t == t;
      assert forall s: string :: "" + s == s;
    } else {
      assert (a + t)[1..] == a[1..] + t;
      ReadRaw(a[1..], t);
      PrefixedTwice([a[0]], a[1..], ReadString(t));
      assert [a[0]] + a[1..] == a;
    }
  }

  lemma HexOfDigit(n: int)
    requires 0 <= n < 16
    ensures HexValue(HexDigit(n)) == Some(n)
  {
  }

  lemma HexOfByte(n: int)
    requires 0 <= n < 0x80
    ensures Hex4("00" + [HexDigit(n / 16), HexDigit(n % 16)]) == Some(n)
  {
    hide HexDigit, HexValue;
    HexOfDigit(n / 16);
    HexOfDigit(n % 16);
    Zero();
  }

  lemma Zero()
    ensures HexValue('0') == Some(0)
  {
  }

  lemma ReadLongEscape(e: string, code: int, t: string)
    requires |e| == 6 && e[..2] == "\\u" && Hex4(e[2..]) == Some(code) && !(0xD800 <= code < 0xE000)
    ensures ReadString(e + t) == Prefixed(Utf8(code), ReadString(t))
  {
    assert (e + t)[6..] == t && (e + t)[2..6] == e[2..];
    assert (e + t)[0] == e[..2][0] && (e + t)[1] == e[..2][1];
  }

  lemma ReadEscapedByte(c: char, escapeHTML: bool, t: string)
    requires c as int < 0x80
    ensures ReadString(EscapeByte(c, escapeHTML) + t) == Prefixed([c], ReadString(t))
  {
    hide ReadCode, Hex4, HexDigit;
    var e := EscapeByte(c, escapeHTML);
    if IsSafe(c, escapeHTML) {
      assert ([c] + t)[1..] == t;
    } else if c == '\\' || c == '"' || c == '\n' || c == '\r' || c == '\t' {
      assert (e + t)[2..] == t;
    } else {
      HexOfByte(c as int);
      assert e[2..] == "00" + [HexDigit(c as int / 16), HexDigit(c as int % 16)];
      ReadLongEscape(e, c as int, t);
    }
  }

  /** A line or paragraph separator comes in three bytes only. */
  lemma SeparatorBytes(s: string)
    requires s != "" && DecodeRune(s).Rune? && IsSeparatorRune(DecodeRune(s).code)
    ensures DecodeRune(s).size == 3 && s[..3] == Utf8(DecodeRune(s).code)
  {
  }

  lemma ReadUnit(s: string, escapeHTML: bool, t: string)
    requires s != ""
    ensures var (text, n) := EscapeUnit(s, escapeHTML);
      ReadString(text + t) == Prefixed(if DecodeRune(s).Invalid? then Utf8(0xFFFD) else s[..n], ReadString(t))
  {
    if s[0] as int < 0x80 {
      ReadEscapedByte(s[0], escapeHTML, t);
      assert s[..1] == [s[0]];
    } else {
      match DecodeRune(s)
      case Invalid =>
        ReadLongEscape("\\ufffd", 0xFFFD, t);
      case Rune(code, n) =>
        if IsSeparatorRune(code) {
          SeparatorBytes(s);
          HexOfDigit(code % 16);
          ReadLongEscape("\\u202" + [HexDigit(code % 16)], code, t);
        } else {
          ReadRaw(s[..n], t);
        }
    }
  }

  /** Main result: whatever the bytes and whatever follows, a reader that stops at the first bare
      quote and refuses raw control bytes reads the text back, with invalid bytes replaced. */
  lemma {:induction false} EscapedIsReadBack(s: string, escapeHTML: bool, rest: string)
    ensures ReadString(EscapeText(s, escapeHTML) + "\"" + rest) == Read(Sanitize(s), rest)
    decreases |s|
  {
    if s == "" {
      assert ("" + "\"" + rest)[1..] == rest;
    } else {
      var (text, n) := EscapeUnit(s, escapeHTML);
      var more := EscapeText(s[n..], escapeHTML) + "\"" + rest;
      assert EscapeText(s, escapeHTML) + "\"" + rest == text + more;
      ReadUnit(s, escapeHTML, more);
      EscapedIsReadBack(s[n..], escapeHTML, rest);
    }
  }

  lemma InvalidIsNoReplacement(s: string)
    requires s != "" && DecodeRune(s).Invalid?
    ensures !(|s| >= 3 && s[0] == Byte(0xEF) && s[1] == Byte(0xBF) && s[2] == Byte(0xBD))
  {
  }

  lemma SameBehind(s: string, n: nat, t: string)
    requires n <= |s|
    ensures s[..n] + t == s <==> t == s[n..]
  {
    assert s == s[..n] + s[n..];
    if s[..n] + t == s {
      assert (s[..n] + t)[n..] == t;
    }
  }

  /** Nothing is lost exactly when the bytes are UTF-8. */
  lemma {:induction false} SanitizeKeepsExactlyUtf8(s: string)
    ensures Sanitize(s) == s <==> ValidUtf8(s)
    decreases |s|
  {
    hide DecodeRune;
    if s != "" {
      match DecodeRune(s)
      case Rune(_, n) =>
        SanitizeKeepsExactlyUtf8(s[n..]);
        SameBehind(s, n, Sanitize(s[n..]));
      case Invalid =>
        var t := Utf8(0xFFFD) + Sanitize(s[1..]);
        assert t[0] == Byte(0xEF) && t[1] == Byte(0xBF) && t[2] == Byte(0xBD);
        InvalidIsNoReplacement(s);
    }
  }

  lemma DecodePrefix(a: string, b: string)
    requires a != "" && DecodeRune(a).Rune?
    ensures DecodeRune(a + b) == DecodeRune(a)
  {
    assert forall i :: 0 <= i < |a| ==> (a + b)[i] == a[i];
  }

  lemma {:induction false} Utf8Concat(a: string, b: string)
    requires ValidUtf8(a) && ValidUtf8(b)
    ensures ValidUtf8(a + b)
    decreases |a|
  {
    hide DecodeRune;
    if a == "" {
      assert a + b == b;
    } else {
      var n := DecodeRune(a).size;
      DecodePrefix(a, b);
      assert (a + b)[n..] == a[n..] + b;
      Utf8Concat(a[n..], b);
    }
  }

  lemma {:induction false} AsciiIsUtf8(a: string)
    requires forall i :: 0 <= i < |a| ==> a[i] as int < 0x80
    ensures ValidUtf8(a)
  {
    if a != "" {
      AsciiIsUtf8(a[1..]);
    }
  }

  /** Whatever the bytes, the text is UTF-8. */
  lemma {:induction false} EscapedIsUtf8(s: string, escapeHTML: bool)
    ensures ValidUtf8(EscapeText(s, escapeHTML))
    decreases |s|
  {
    if s != "" {
      var (text, n) := EscapeUnit(s, escapeHTML);
      UnitIsUtf8(s, escapeHTML);
      EscapedIsUtf8(s[n..], escapeHTML);
      Utf8Concat(text, EscapeText(s[n..], escapeHTML));
    }
  }

  lemma UnitIsUtf8(s: string, escapeHTML: bool)
    requires s != ""
    ensures ValidUtf8(EscapeUnit(s, escapeHTML).0)
  {
    var (text, n) := EscapeUnit(s, escapeHTML);
    if s[0] as int >= 0x80 && DecodeRune(s).Rune? && !IsSeparatorRune(DecodeRune(s).code) {
      assert DecodeRune(s[..n]) == DecodeRune(s) && s[..n][n..] == "";
    } else {
      AsciiIsUtf8(text);
    }
  }

  // ----- What never stands in the text -----

  /** U+2028 or U+2029, which end a line of JavaScript. */
  predicate IsLineEnd(t: string, i: nat) {
    i + 2 < |t| && t[i] as int == 0xE2 && t[i + 1] as int == 0x80 && (t[i + 2] as int == 0xA8 || t[i + 2] as int == 0xA9)
  }

  predicate IsHarmless(t: string, escapeHTML: bool) {
    && (forall i :: 0 <= i < |t| ==> t[i] as int >= 0x20 && (escapeHTML ==> t[i] != '<' && t[i] != '>' && t[i] != '&'))
    && (forall i: nat :: i < |t| ==> !IsLineEnd(t, i))
  }

  /** The text of a unit does not end in the middle of a line end. */
  lemma UnitIsHarmless(s: string, escapeHTML: bool)
    requires s != ""
    ensures var u := EscapeUnit(s, escapeHTML).0;
      && IsHarmless(u, escapeHTML) && u != "" && u[|u| - 1] as int != 0xE2 && (|u| > 1 ==> u[|u| - 2] as int != 0xE2)
  {
    var u := EscapeUnit(s, escapeHTML).0;
    if s[0] as int < 0x80 {
      ByteIsHarmless(s[0], escapeHTML);
    } else if DecodeRune(s).Rune? && !IsSeparatorRune(DecodeRune(s).code) {
      RuneIsHarmless(s);
    } else {
      assert forall i :: 0 <= i < |u| ==> 0x30 <= u[i] as int < 0x80 && u[i] != '<' && u[i] != '>';
    }
  }

  lemma ByteIsHarmless(c: char, escapeHTML: bool)
    requires c as int < 0x80
    ensures forall i :: 0 <= i < |EscapeByte(c, escapeHTML)| ==>
      var d := EscapeByte(c, escapeHTML)[i]; 0x20 <= d as int < 0x80 && (escapeHTML ==> d != '<' && d != '>' && d != '&')
  {
    assert c as int / 16 < 16;
  }

  lemma RuneIsHarmless(s: string)
    requires s != "" && s[0] as int >= 0x80 && DecodeRune(s).Rune? && !IsSeparatorRune(DecodeRune(s).code)
    ensures var n := DecodeRune(s).size;
      && n >= 2 && (forall i :: 0 <= i < n ==> s[i] as int >= 0x80) && s[n - 1] as int != 0xE2 && s[n - 2] as int != 0xE2
      && forall i: nat :: i < n ==> !IsLineEnd(s[..n], i)
  {
  }

  lemma HarmlessConcat(a: string, b: string, escapeHTML: bool)
    requires IsHarmless(a, escapeHTML) && IsHarmless(b, escapeHTML)
    requires a != "" && a[|a| - 1] as int != 0xE2 && (|a| > 1 ==> a[|a| - 2] as int != 0xE2)
    ensures IsHarmless(a + b, escapeHTML)
  {
    var t := a + b;
    forall i: nat | i < |t| ensures !IsLineEnd(t, i) {
      if i >= |a| {
        assert !IsLineEnd(b, i - |a|);
      } else if i + 2 < |a| {
        assert !IsLineEnd(a, i);
      }
    }
  }

  /** Main result: no control byte stands in the text, no line end of JavaScript, and with escapeHTML
      no markup. */
  lemma {:induction false} EscapedIsHarmless(s: string, escapeHTML: bool)
    ensures IsHarmless(EscapeText(s, escapeHTML), escapeHTML)
    decreases |s|
  {
    hide EscapeUnit, IsHarmless;
    if s == "" {
      EmptyIsHarmless(escapeHTML);
    } else {
      var (u, n) := EscapeUnit(s, escapeHTML);
      UnitIsHarmless(s, escapeHTML);
      EscapedIsHarmless(s[n..], escapeHTML);
      HarmlessConcat(u, EscapeText(s[n..], escapeHTML), escapeHTML);
    }
  }

  lemma EmptyIsHarmless(escapeHTML: bool)
    ensures IsHarmless("", escapeHTML)
  {
  }

  /** What needs no escape is printed as it stands. */
  lemma {:induction false} PlainTextStays(s: string, escapeHTML: bool)
    requires forall i :: 0 <= i < |s| ==> 0x20 <= s[i] as int < 0x80 && s[i] != '"' && s[i] != '\\'
    requires escapeHTML ==> forall i :: 0 <= i < |s| ==> s[i] !in "<>&"
    ensures EscapeText(s, escapeHTML) == s
    decreases |s|
  {
    if s != "" {
      assert "<>&"[0] == '<' && "<>&"[1] == '>' && "<>&"[2] == '&';
      PlainTextStays(s[1..], escapeHTML);
      assert [s[0]] + s[1..] == s;
    }
  }
}
