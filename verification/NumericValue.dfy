/** What the printed numerics are worth: read back as decimals, they are the value that PostgreSQL
    sent, cut after the digits that are printed. */
module NumericValue {
  import opened Sql
  import opened Decimals
  import opened Numeric
  import opened Sequences

  // ----- Reading a decimal -----

  /** (-1)^neg * num / 10^scale */
  datatype Decimal = Decimal(neg: bool, num: nat, scale: nat)

  /** Where the point is, or the end. */
  function PointIn(s: string): (p: nat)
    ensures p <= |s| && (forall i :: 0 <= i < p ==> s[i] != '.') && (p < |s| ==> s[p] == '.')
  {
    if s == "" || s[0] == '.' then 0 else 1 + PointIn(s[1..])
  }

  function ReadUnsigned(neg: bool, u: string): Option<Decimal> {
    var p := PointIn(u);
    var digits := if p == |u| then u else u[..p] + u[p + 1..];
    if digits != "" && AllDigits(digits) then Some(Decimal(neg, Val(digits), if p == |u| then 0 else |u| - p - 1)) else None
  }

  function ReadDecimal(text: string): Option<Decimal> {
    if text != "" && text[0] == '-' then ReadUnsigned(true, text[1..]) else ReadUnsigned(false, text)
  }

  // ----- The value sent -----

  predicate IsBase10000(ds: seq<nat>) { forall i :: 0 <= i < |ds| ==> ds[i] < 10000 }

  /** The digits as one whole number; the value is Mantissa * 10000^(weight + 1 - |ds|). */
  function Mantissa(ds: seq<nat>): nat {
    if ds == [] then 0 else 10000 * Mantissa(ds[..|ds| - 1]) + ds[|ds| - 1]
  }

  /** m * 10^e, cut to a whole number. */
  function Shift(m: nat, e: int): nat {
    if e >= 0 then NotNegative(m, Pow10(e)); m * Pow10(e) else NotNegative(m, Pow10(-e)); m / Pow10(-e)
  }

  lemma NotNegative(a: nat, b: nat)
    ensures a * b >= 0 && (b > 0 ==> a / b >= 0)
  {
  }

  /** How many fraction digits are printed. */
  function FractionDigits(h: Header): nat {
    if h.dscale <= 0 then 0 else h.dscale + if h.weight < -1 then 4 * (-h.weight - 1) else 0
  }

  function DigitsSent(buf: string, n: nat): seq<nat>
    requires 8 + 2 * n <= |buf|
  {
    seq(n, i requires 0 <= i < n => U16(buf, 8 + 2 * i))
  }

  // ----- Powers and values -----

  lemma {:induction false} Pow10Add(a: nat, b: nat)
    ensures Pow10(a + b) == Pow10(a) * Pow10(b)
  {
    if a > 0 {
      Pow10Add(a - 1, b);
    }
  }

  lemma {:induction false} ValConcat(a: string, b: string)
    requires AllDigits(a) && AllDigits(b)
    ensures AllDigits(a + b) && Val(a + b) == Val(a) * Pow10(|b|) + Val(b)
  {
    if b == "" {
      assert a + b == a;
    } else {
      var k := |b| - 1;
      assert (a + b)[..|a + b| - 1] == a + b[..k];
      ValConcat(a, b[..k]);
      ShiftIn(Val(a), Val(b[..k]), Pow10(k));
    }
  }

  lemma ShiftIn(a: nat, b: nat, p: nat)
    ensures 10 * (a * p + b) == a * (10 * p) + 10 * b
  {
  }

  lemma {:induction false} ValZeros(n: nat)
    ensures Val(Zeros(n)) == 0
  {
    if n > 0 {
      assert Zeros(n)[..n - 1] == Zeros(n - 1);
      ValZeros(n - 1);
    }
  }

  lemma {:induction false} ValBound(s: string)
    requires AllDigits(s)
    ensures Val(s) < Pow10(|s|)
  {
    if s != "" {
      ValBound(s[..|s| - 1]);
    }
  }

  lemma LeadingZeros(n: nat, s: string)
    requires AllDigits(s)
    ensures AllDigits(Zeros(n) + s) && Val(Zeros(n) + s) == Val(s)
  {
    ValZeros(n);
    ValConcat(Zeros(n), s);
  }

  // ----- The first digits of a number -----

  /** The first n characters of s, with zeros after it. */
  function Take(s: string, n: nat): (r: string)
    requires AllDigits(s)
    ensures |r| == n && AllDigits(r)
  {
    if n <= |s| then s[..n] else s + Zeros(n - |s|)
  }

  lemma TakeValue(s: string, n: nat)
    requires AllDigits(s)
    ensures Val(Take(s, n)) == Shift(Val(s), n - |s|)
  {
    hide Val, Pow10, Take;
    if n >= |s| {
      TakeLonger(s, n - |s|);
    } else {
      assert s == s[..n] + s[n..];
      TakeShorter(s[..n], s[n..]);
    }
  }

  lemma TakeLonger(s: string, k: nat)
    requires AllDigits(s)
    ensures Val(Take(s, |s| + k)) == Val(s) * Pow10(k)
  {
    hide Val, Pow10;
    ValZeros(k);
    ValConcat(s, Zeros(k));
    assert Take(s, |s| + k) == s + Zeros(k);
  }

  lemma TakeShorter(a: string, b: string)
    requires AllDigits(a) && AllDigits(b)
    ensures AllDigits(a + b) && Val(Take(a + b, |a|)) == Val(a + b) / Pow10(|b|)
  {
    hide Val, Pow10;
    ValConcat(a, b);
    ValBound(b);
    Quotient(Val(a), Pow10(|b|), Val(b));
    assert Take(a + b, |a|) == a;
  }

  lemma Quotient(a: nat, p: nat, b: nat)
    requires b < p
    ensures (a * p + b) / p == a
  {
    var q := (a * p + b) / p;
    assert (q - a) * p < p;
    assert (a - q) * p < p;
    AtMostZero(q - a, p);
    AtMostZero(a - q, p);
  }

  lemma AtMostZero(x: int, p: nat)
    requires p > 0 && x * p < p
    ensures x <= 0
  {
  }

  // ----- Groups of four -----

  lemma {:induction false} DecLength(n: nat, k: nat)
    requires n < Pow10(k) && k > 0
    ensures |Dec(n)| <= k
  {
    if n >= 10 {
      DecLength(n / 10, k - 1);
    }
  }

  lemma Pad4Value(d: nat)
    requires d < 10000
    ensures |Pad4(d)| == 4 && Val(Pad4(d)) == d && |Dec(d)| <= 4 && Pad4(d) == Zeros(4 - |Dec(d)|) + Dec(d)
  {
    Pow4();
    DecLength(d, 4);
    LeadingZeros(4 - |Dec(d)|, Dec(d));
    assert Zeros(0) + Dec(d) == Dec(d);
  }

  lemma Pow4()
    ensures Pow10(4) == 10000
  {
    assert Pow10(1) == 10 && Pow10(2) == 100 && Pow10(3) == 1000;
  }

  lemma NoText()
    ensures Val("") == 0
  {
  }

  lemma {:induction false} GroupsValue(ds: seq<nat>)
    requires IsBase10000(ds)
    ensures |Groups(ds)| == 4 * |ds| && Val(Groups(ds)) == Mantissa(ds)
  {
    hide Pad4, Pow10, Val;
    NoText();
    if ds != [] {
      var k := |ds| - 1;
      GroupsValue(ds[..k]);
      Pad4Value(ds[k]);
      ValConcat(Groups(ds[..k]), Pad4(ds[k]));
      Pow4();
    }
  }

  lemma GroupsNext(a: seq<nat>, d: nat)
    ensures Groups(a + [d]) == Groups(a) + Pad4(d)
  {
    hide Pad4;
    assert (a + [d])[..|a|] == a;
  }

  lemma {:induction false} GroupsConcat(a: seq<nat>, b: seq<nat>)
    ensures Groups(a + b) == Groups(a) + Groups(b)
  {
    hide Pad4, Groups;
    if b == [] {
      GroupsOfNothing();
      assert a + b == a;
    } else {
      var k := |b| - 1;
      assert b == b[..k] + [b[k]] && a + b == a + b[..k] + [b[k]];
      GroupsConcat(a, b[..k]);
      GroupsNext(a + b[..k], b[k]);
      GroupsNext(b[..k], b[k]);
      Regroup(Groups(a), Groups(b[..k]), Pad4(b[k]));
    }
  }

  lemma GroupsOfNothing()
    ensures Groups([]) == ""
  {
  }

  lemma GroupsOf(ds: seq<nat>, i: nat)
    requires i < |ds|
    ensures Groups(ds[i..]) == Pad4(ds[i]) + Groups(ds[i + 1..])
  {
    hide Pad4;
    assert ds[i..] == [ds[i]] + ds[i + 1..];
    GroupsConcat([ds[i]], ds[i + 1..]);
    assert [ds[i]][..0] == [] && Groups([ds[i]]) == Groups([]) + Pad4(ds[i]);
  }

  lemma TakeFirst(d: string, s: string, room: nat)
    requires AllDigits(d) && AllDigits(s) && |d| == 4
    ensures var c := if room > 4 then 4 else room;
      Take(d + s, room) == d[..c] + Take(s, room - c)
  {
  }

  lemma {:induction false} FracIsTake(ds: seq<nat>, i: nat, room: nat)
    requires IsBase10000(ds) && i <= |ds|
    ensures FracFrom(ds, i, room) == Take(Groups(ds[i..]), room)
    decreases |ds| - i
  {
    hide Pad4, Take, Groups;
    if i == |ds| {
      assert ds[i..] == [];
      EmptyTake(room);
    } else if room == 0 {
      assert Take(Groups(ds[i..]), 0) == "";
    } else {
      FracIsTake(ds, i + 1, if room > 4 then room - 4 else 0);
      Pad4Value(ds[i]);
      GroupsOf(ds, i);
      TakeFirst(Pad4(ds[i]), Groups(ds[i + 1..]), room);
    }
  }

  lemma EmptyTake(room: nat)
    ensures Groups([]) == "" && Take("", room) == Zeros(room)
  {
  }

  // ----- The two parts -----

  /** The integer part, leading zeros apart, and the fraction are the first digits of the number. */
  lemma PartsAreTake(ds: seq<nat>, before: nat, room: nat)
    requires IsBase10000(ds) && ds != [] && before > 0
    ensures |Dec(ds[0])| <= 4
    ensures Zeros(4 - |Dec(ds[0])|) + (IntPart(ds, before) + FracFrom(ds, before, room)) == Take(Groups(ds), 4 * before + room)
  {
    hide Dec, Pad4, Take, Groups, FracFrom, IntPart, Zeros;
    Pad4Value(ds[0]);
    var z := Zeros(4 - |Dec(ds[0])|);
    Regroup(z, IntPart(ds, before), FracFrom(ds, before, room));
    if before <= |ds| {
      IntIsGroups(ds, before);
      GroupsConcat(ds[..before], ds[before..]);
      assert ds == ds[..before] + ds[before..];
      GroupsValue(ds[..before]);
      FracIsTake(ds, before, room);
      TakeAfter(Groups(ds[..before]), Groups(ds[before..]), room);
    } else {
      IntIsPadded(ds, before);
      GroupsValue(ds);
      OnlyZeros(ds, before, room);
      TakePadded(Groups(ds), 4 * (before - |ds|), room);
    }
  }

  lemma IntIsGroups(ds: seq<nat>, before: nat)
    requires 0 < before <= |ds| && ds[0] < 10000 && |Dec(ds[0])| <= 4
    ensures Zeros(4 - |Dec(ds[0])|) + IntPart(ds, before) == Groups(ds[..before])
  {
    hide Dec, Pad4, Groups, Zeros;
    Pad4Value(ds[0]);
    GroupsOf(ds[..before], 0);
    assert ds[..before][0..] == ds[..before] && ds[..before][1..] == ds[1..before];
    Regroup(Zeros(4 - |Dec(ds[0])|), Dec(ds[0]), Groups(ds[1..before]));
  }

  lemma Assembled(z: string, d: string, g: string, k: string)
    ensures z + (d + g + k) == z + d + g + k
  {
    Regroup(z, d, g);
    Regroup(z, d + g, k);
  }

  lemma PaddedParts(ds: seq<nat>, before: int)
    requires ds != [] && before > |ds|
    ensures IntPart(ds, before) == Dec(ds[0]) + Groups(ds[1..]) + Zeros(4 * (before - |ds|))
  {
    hide Dec, Groups, Zeros;
  }

  lemma IntIsPadded(ds: seq<nat>, before: int)
    requires ds != [] && before > |ds| && ds[0] < 10000 && |Dec(ds[0])| <= 4
    ensures Zeros(4 - |Dec(ds[0])|) + IntPart(ds, before) == Groups(ds) + Zeros(4 * (before - |ds|))
  {
    hide *;
    PaddedParts(ds, before);
    Pad4Value(ds[0]);
    GroupsOf(ds, 0);
    assert ds[0..] == ds;
    Assembled(Zeros(4 - |Dec(ds[0])|), Dec(ds[0]), Groups(ds[1..]), Zeros(4 * (before - |ds|)));
  }

  lemma TakeAfter(a: string, b: string, room: nat)
    requires AllDigits(a) && AllDigits(b)
    ensures a + Take(b, room) == Take(a + b, |a| + room)
  {
  }

  lemma TakePadded(a: string, k: nat, room: nat)
    requires AllDigits(a)
    ensures a + Zeros(k) + Zeros(room) == Take(a, |a| + k + room)
  {
  }

  // ----- The whole text -----

  /** Before the point, behind it, and the sign: what is read back. */
  lemma ReadBack(neg: bool, whole: string, frac: string)
    requires AllDigits(whole) && AllDigits(frac) && whole != ""
    ensures AllDigits(whole + frac)
    ensures var text := (if neg then "-" else "") + whole + if frac == "" then "" else "." + frac;
      ReadDecimal(text) == Some(Decimal(neg, Val(whole + frac), |frac|))
  {
    hide ReadUnsigned, Val;
    var point := if frac == "" then "" else "." + frac;
    UnsignedReadBack(neg, whole, frac);
    if neg {
      Regroup("-", whole, point);
      assert ("-" + (whole + point))[1..] == whole + point;
    } else {
      assert "" + whole == whole && (whole + point)[0] == whole[0];
    }
  }

  lemma UnsignedReadBack(neg: bool, whole: string, frac: string)
    requires AllDigits(whole) && AllDigits(frac) && whole != ""
    ensures AllDigits(whole + frac)
    ensures ReadUnsigned(neg, whole + if frac == "" then "" else "." + frac) == Some(Decimal(neg, Val(whole + frac), |frac|))
  {
    hide Val, PointIn;
    var u := whole + if frac == "" then "" else "." + frac;
    PointAt(whole, frac);
    if frac == "" {
      assert whole + frac == whole == u;
    } else {
      assert u[..|whole|] == whole && u[|whole| + 1..] == frac;
    }
  }

  lemma PointAt(whole: string, frac: string)
    requires AllDigits(whole)
    ensures var u := whole + if frac == "" then "" else "." + frac; PointIn(u) == |whole|
  {
    var u := whole + if frac == "" then "" else "." + frac;
    forall i | 0 <= i < |whole| ensures u[i] != '.' {
      assert u[i] == whole[i];
    }
    assert |whole| < |u| ==> u[|whole|] == '.';
  }

  /** The parts are worth the value, cut after the fraction digits printed. */
  lemma PartsValue(ds: seq<nat>, h: Header)
    requires IsBase10000(ds) && ds != []
    ensures var frac := Fraction(ds, h);
      && AllDigits(IntPart(ds, h.weight + 1) + frac) && |frac| == FractionDigits(h)
      && Val(IntPart(ds, h.weight + 1) + frac) == Shift(Mantissa(ds), FractionDigits(h) + 4 * (h.weight + 1 - |ds|))
  {
    hide Take, Groups, IntPart, FracFrom, Mantissa, Val, Pow10, Shift;
    var before, room := h.weight + 1, if h.dscale > 0 then h.dscale else 0;
    GroupsValue(ds);
    if before > 0 {
      PartsAreTake(ds, before, room);
      assert FracFrom(ds, before, 0) == "";
      assert Zeros(0) + FracFrom(ds, before, room) == FracFrom(ds, before, room);
      LeadingZeros(4 - |Dec(ds[0])|, IntPart(ds, before) + FracFrom(ds, before, room));
      TakeValue(Groups(ds), 4 * before + room);
    } else if room > 0 {
      SmallValue(ds, before, room);
    } else {
      NothingLeft(ds, before);
    }
  }

  /** The fraction as it is printed, without the point. */
  function Fraction(ds: seq<nat>, h: Header): (s: string)
    ensures AllDigits(s)
  {
    if h.dscale <= 0 then ""
    else Zeros(if h.weight < -1 then 4 * (-h.weight - 1) else 0) + FracFrom(ds, if h.weight < -1 then 0 else h.weight + 1, h.dscale)
  }

  lemma SmallValue(ds: seq<nat>, before: int, room: nat)
    requires IsBase10000(ds) && before <= 0 && ds != []
    ensures Val("0" + (Zeros(-4 * before) + FracFrom(ds, 0, room))) == Shift(Mantissa(ds), room - 4 * |ds|)
    ensures IntPart(ds, before) == "0"
  {
    hide Take, Groups, FracFrom, Mantissa, Shift, Val, Pow10;
    GroupsValue(ds);
    FracIsTake(ds, 0, room);
    assert ds[0..] == ds;
    TakeValue(Groups(ds), room);
    LeadingZeros(-4 * before, FracFrom(ds, 0, room));
    LeadingZeros(1, Zeros(-4 * before) + FracFrom(ds, 0, room));
    assert Zeros(1) == "0";
  }

  lemma NothingLeft(ds: seq<nat>, before: int)
    requires IsBase10000(ds) && ds != [] && before <= 0
    ensures Shift(Mantissa(ds), 4 * (before - |ds|)) == 0 && Val("0" + "") == 0 && IntPart(ds, before) == "0"
  {
    hide Mantissa, Groups, Pow10, Val;
    GroupsValue(ds);
    ValBound(Groups(ds));
    Pow10Add(4 * |ds|, -4 * before);
    Vanishes(Mantissa(ds), Pow10(4 * |ds|), Pow10(-4 * before));
    assert "0" + "" == Zeros(1);
    ValZeros(1);
  }

  lemma Vanishes(m: nat, p: nat, q: nat)
    requires m < p && q > 0
    ensures p * q > 0 && m / (p * q) == 0
  {
    AtLeast(p, q);
    Quotient(0, p * q, m);
  }

  /** Main result: for a numeric of at most 16379 digits, complete in the buffer, the text printed
      reads back as the value sent, cut after dscale digits behind the point (and, below one
      ten-thousandth, after four more for every empty group). */
  lemma NumericIsTruncatedValue(buf: string)
    requires |buf| >= 8
    requires var h := HeaderOf(buf); 0 < h.ndigits <= LAST && -8192 <= h.weight <= 32766 && h.sign !in [0xC000, 0xD000, 0xF000]
    requires 8 + 2 * HeaderOf(buf).ndigits <= |buf| < 0x8000 && IsBase10000(DigitsSent(buf, HeaderOf(buf).ndigits))
    ensures var h := HeaderOf(buf); var ds := DigitsSent(buf, h.ndigits); var f := FractionDigits(h);
      && NumericText(buf).Some?
      && ReadDecimal(NumericText(buf).value) == Some(Decimal(h.sign == 0x4000, Shift(Mantissa(ds), f + 4 * (h.weight + 1 - |ds|)), f))
  {
    hide DigitsOf, IntPart, FracFrom, Shift, Mantissa, Val, DigitsSent, ReadDecimal;
    var h := HeaderOf(buf);
    var ds := DigitsSent(buf, h.ndigits);
    DigitsArrive(buf, h.ndigits, 0);
    AllSent(buf, h.ndigits);
    PartsValue(ds, h);
    ReadBack(h.sign == 0x4000, IntPart(ds, h.weight + 1), Fraction(ds, h));
    TextIsParts(buf, ds);
  }

  lemma AllSent(buf: string, n: nat)
    requires 8 + 2 * n <= |buf|
    ensures DigitsSent(buf, n)[0..] == DigitsSent(buf, n) && |DigitsSent(buf, n)| == n
  {
  }

  lemma {:induction false} DigitsArrive(buf: string, n: nat, i: nat)
    requires i <= n <= LAST && 8 + 2 * n <= |buf| < 0x8000
    ensures DigitsOf(buf, n, i) == DigitsSent(buf, n)[i..]
    decreases n - i
  {
    hide U16;
    if i < n {
      DigitsArrive(buf, n, i + 1);
      assert I16(9 + 2 * i) < I16(|buf|);
    }
  }

  /** No 16-bit operation on the way wraps around. */
  lemma TextIsParts(buf: string, ds: seq<nat>)
    requires |buf| >= 8
    requires var h := HeaderOf(buf); 0 < h.ndigits && -8192 <= h.weight <= 32766 && h.sign !in [0xC000, 0xD000, 0xF000]
    requires ds == DigitsOf(buf, HeaderOf(buf).ndigits, 0)
    ensures var h := HeaderOf(buf); var frac := Fraction(ds, h);
      NumericText(buf) == Some((if h.sign == 0x4000 then "-" else "") + IntPart(ds, h.weight + 1) + if h.dscale <= 0 then "" else "." + frac)
    ensures Fraction(ds, HeaderOf(buf)) == "" <==> HeaderOf(buf).dscale <= 0
  {
    hide DigitsOf, IntPart, FracPart, Fraction, HeaderOf, U16;
    FractionIsPart(ds, HeaderOf(buf));
  }

  lemma FractionIsPart(ds: seq<nat>, h: Header)
    requires -8192 <= h.weight <= 32766
    ensures var before := I16(h.weight + 1);
      && before == h.weight + 1
      && FracPart(ds, before, I16(I16(-before) * 4), h.dscale) == (if h.dscale <= 0 then "" else "." + Fraction(ds, h))
    ensures Fraction(ds, h) == "" <==> h.dscale <= 0
  {
    hide FracFrom;
    var before := h.weight + 1;
    if h.dscale > 0 {
      Regroup(".", Zeros(if before < 0 then -4 * before else 0), FracFrom(ds, if before < 0 then 0 else before, h.dscale));
      assert before <= 0 ==> I16(I16(-before) * 4) == -4 * before;
    }
  }

  // ----- When it is exact, and when it is lost -----

  /** num / 10^scale == m * 10^x, without fractions. */
  predicate SameValue(num: nat, scale: nat, m: nat, x: int) {
    if scale + x >= 0 then num == m * Pow10(scale + x) else num * Pow10(-(scale + x)) == m
  }

  lemma NothingIsCutExactly(m: nat, scale: nat, x: int)
    ensures SameValue(Shift(m, scale + x), scale, m, x) <==> (scale + x >= 0 || m % Pow10(-(scale + x)) == 0)
  {
    if scale + x < 0 {
      var p := Pow10(-(scale + x));
      assert m == m / p * p + m % p;
    }
  }

  /** From position k on there are only zeros. */
  predicate ZeroFrom(s: string, k: int) { forall i :: 0 <= i < |s| && k <= i ==> s[i] == '0' }

  lemma LastDigit(v: nat, d: nat, p: nat)
    requires d < 10 && p > 0
    ensures (10 * v + d) % (10 * p) == 0 <==> d == 0 && v % p == 0
  {
    var q, r := v / p, v % p;
    assert 10 * v + d == 10 * p * q + (10 * r + d);
    Remainder(q, 10 * p, 10 * r + d);
  }

  lemma Remainder(q: nat, p: nat, r: nat)
    requires r < p
    ensures (p * q + r) % p == r
  {
    Quotient(q, p, r);
    assert q * p == p * q;
    var n := p * q + r;
    assert n == p * (n / p) + n % p;
  }

  /** A number is divisible by a power of ten exactly when it ends with so many zeros. */
  lemma {:induction false} DivisibleExactly(s: string, m: nat)
    requires AllDigits(s) && m <= |s|
    ensures Val(s) % Pow10(m) == 0 <==> ZeroFrom(s, |s| - m)
  {
    if m > 0 {
      var n := |s| - 1;
      DivisibleExactly(s[..n], m - 1);
      LastDigit(Val(s[..n]), s[n] as int - '0' as int, Pow10(m - 1));
      assert ZeroFrom(s, |s| - m) <==> ZeroFrom(s[..n], n - (m - 1)) && s[n] == '0';
    }
  }

  lemma CutExactly(ds: seq<nat>, k: int)
    requires IsBase10000(ds)
    ensures k >= 4 * |ds| || Mantissa(ds) % Pow10(4 * |ds| - k) == 0 <==> ZeroFrom(Groups(ds), k)
  {
    hide Groups, Mantissa, Pow10, Val;
    GroupsValue(ds);
    if 0 <= k < 4 * |ds| {
      DivisibleExactly(Groups(ds), 4 * |ds| - k);
    } else if k < 0 {
      DivisibleExactly(Groups(ds), 4 * |ds|);
      ValBound(Groups(ds));
      Pow10Add(4 * |ds|, -k);
      Small(Mantissa(ds), Pow10(4 * |ds|), Pow10(-k));
    }
  }

  lemma Small(m: nat, p: nat, q: nat)
    requires m < p && q > 0
    ensures p * q >= p && m % (p * q) == m && m % p == m
  {
    AtLeast(p, q);
    SmallerThanDivisor(m, p);
    SmallerThanDivisor(m, p * q);
  }

  lemma AtLeast(p: nat, q: nat)
    requires q > 0
    ensures p * q >= p
  {
    assert p * q == p * (q - 1) + p;
  }

  lemma SmallerThanDivisor(m: nat, p: nat)
    requires m < p
    ensures m % p == m
  {
  }

  /** Main result: the decimal read back is the value sent if and only if every digit sent behind
      those printed is a zero. */
  lemma NumericIsExactExactly(buf: string)
    requires |buf| >= 8
    requires var h := HeaderOf(buf); 0 < h.ndigits <= LAST && -8192 <= h.weight <= 32766 && h.sign !in [0xC000, 0xD000, 0xF000]
    requires 8 + 2 * HeaderOf(buf).ndigits <= |buf| < 0x8000 && IsBase10000(DigitsSent(buf, HeaderOf(buf).ndigits))
    ensures NumericText(buf).Some? && ReadDecimal(NumericText(buf).value).Some?
    ensures var h := HeaderOf(buf); var ds := DigitsSent(buf, h.ndigits); var d := ReadDecimal(NumericText(buf).value).value;
      SameValue(d.num, d.scale, Mantissa(ds), 4 * (h.weight + 1 - |ds|))
      <==> ZeroFrom(Groups(ds), 4 * (h.weight + 1) + FractionDigits(h))
  {
    hide NumericText, ReadDecimal, Groups, Mantissa, Shift, SameValue, DigitsSent, Pow10, HeaderOf, FractionDigits, ZeroFrom;
    NumericIsTruncatedValue(buf);
    var h := HeaderOf(buf);
    var ds, f := DigitsSent(buf, h.ndigits), FractionDigits(h);
    AllSent(buf, h.ndigits);
    NothingIsCutExactly(Mantissa(ds), f, 4 * (h.weight + 1 - |ds|));
    CutExactly(ds, 4 * (h.weight + 1) + f);
  }

  /** So the numerics PostgreSQL makes, whose digits end at the display scale, are exact. */
  lemma CanonicalIsExact(buf: string)
    requires |buf| >= 8
    requires var h := HeaderOf(buf); 0 < h.ndigits <= LAST && -8192 <= h.weight <= 32766 && h.sign !in [0xC000, 0xD000, 0xF000]
    requires 8 + 2 * HeaderOf(buf).ndigits <= |buf| < 0x8000 && IsBase10000(DigitsSent(buf, HeaderOf(buf).ndigits))
    requires var h := HeaderOf(buf);
      h.dscale >= 0 && ZeroFrom(Groups(DigitsSent(buf, h.ndigits)), 4 * (h.weight + 1) + h.dscale)
    ensures NumericText(buf).Some? && ReadDecimal(NumericText(buf).value).Some?
    ensures var h := HeaderOf(buf); var ds := DigitsSent(buf, h.ndigits); var d := ReadDecimal(NumericText(buf).value).value;
      SameValue(d.num, d.scale, Mantissa(ds), 4 * (h.weight + 1 - |ds|))
  {
    hide NumericText, ReadDecimal, Groups, Mantissa, SameValue, DigitsSent, HeaderOf;
    NumericIsExactExactly(buf);
  }

  lemma {:induction false} MantissaOfZeros(ds: seq<nat>)
    requires forall i :: 0 <= i < |ds| ==> ds[i] == 0
    ensures Mantissa(ds) == 0
  {
    if ds != [] {
      MantissaOfZeros(ds[..|ds| - 1]);
    }
  }

  /** A finding: the length of the buffer is compared as a 16-bit number. From 32768 bytes on, that
      is from 16380 digits on, no digit is read, and the number is printed as zero. */
  lemma LongNumericsPrintAsZero(buf: string)
    requires 0x8000 <= |buf| <= 0x1_0009
    requires var h := HeaderOf(buf); h.ndigits > 0 && -8192 <= h.weight <= 32766 && h.sign !in [0xC000, 0xD000, 0xF000]
    ensures var h := HeaderOf(buf);
      && NumericText(buf).Some?
      && ReadDecimal(NumericText(buf).value) == Some(Decimal(h.sign == 0x4000, 0, FractionDigits(h)))
  {
    hide IntPart, FracFrom, ReadDecimal, Pow10, Shift, Val;
    var h := HeaderOf(buf);
    var ds := DigitsOf(buf, h.ndigits, 0);
    assert I16(|buf|) <= 9 == I16(9);
    MantissaOfZeros(ds);
    PartsValue(ds, h);
    ShiftOfZero(FractionDigits(h) + 4 * (h.weight + 1 - |ds|));
    TextIsParts(buf, ds);
    ReadBack(h.sign == 0x4000, IntPart(ds, h.weight + 1), Fraction(ds, h));
  }

  lemma ShiftOfZero(e: int)
    ensures Shift(0, e) == 0
  {
  }
}
