/** Numbers in PostgreSQL's binary numeric format, printed in decimal (database/textserializer.go,
    appendNumeric). A character stands for a byte. The arithmetic of the source is on 16 bits and
    wraps around. */
module Numeric {
  import opened Sql
  import opened Decimals
  import opened Sequences

  // ----- Integers -----

  /** What a 16-bit signed integer keeps of x. */
  function I16(x: int): (r: int)
    ensures -0x8000 <= r < 0x8000 && (-0x8000 <= x < 0x8000 ==> r == x) && (x >= 0 ==> r <= x)
  {
    (x + 0x8000) % 0x1_0000 - 0x8000
  }

  function U16(buf: string, i: nat): nat
    requires i + 2 <= |buf|
  {
    256 * buf[i] as int + buf[i + 1] as int
  }

  function Pow10(n: nat): (r: nat)
    ensures r > 0
  {
    if n == 0 then 1 else 10 * Pow10(n - 1)
  }

  // ----- Decimal text -----

  function Zeros(n: nat): (s: string)
    ensures |s| == n && AllDigits(s) && forall i :: 0 <= i < n ==> s[i] == '0'
  {
    seq(n, i => '0')
  }

  /** fmt.Sprintf("%04d", d) */
  function Pad4(d: nat): (s: string)
    ensures AllDigits(s) && |s| >= 4
  {
    var s := Dec(d); if |s| < 4 then Zeros(4 - |s|) + s else s
  }

  function Groups(ds: seq<nat>): (s: string)
    ensures AllDigits(s)
  {
    if ds == [] then "" else Groups(ds[..|ds| - 1]) + Pad4(ds[|ds| - 1])
  }

  // ----- What is printed -----

  /** The digits the loop copies. It stops when the buffer ends, comparing 16-bit numbers; whatever
      the buffer, it therefore stops at LAST. */
  const LAST := 16379

  function DigitsOf(buf: string, n: nat, i: nat): (ds: seq<nat>)
    requires i <= n && i <= LAST
    ensures |ds| == n - i
    decreases n - i
  {
    if i == n then []
    else if I16(9 + 2 * i) >= I16(|buf|) then seq(n - i, j => 0)
    else [U16(buf, 8 + 2 * i)] + DigitsOf(buf, n, i + 1)
  }

  function IntPart(ds: seq<nat>, before: int): (s: string)
    requires ds != []
    ensures AllDigits(s) && s != ""
  {
    if before <= 0 then "0"
    else if before <= |ds| then Dec(ds[0]) + Groups(ds[1..before])
    else Dec(ds[0]) + Groups(ds[1..]) + Zeros(4 * (before - |ds|))
  }

  /** The fraction from group i on, in exactly `room` characters. */
  function FracFrom(ds: seq<nat>, i: nat, room: nat): (s: string)
    ensures AllDigits(s) && |s| == room
    decreases room
  {
    if i >= |ds| || room == 0 then Zeros(room)
    else var c := if room > 4 then 4 else room; Pad4(ds[i])[..c] + FracFrom(ds, i + 1, room - c)
  }

  function FracPart(ds: seq<nat>, before: int, lead: int, dscale: int): (s: string)
  {
    if dscale <= 0 then ""
    else "." + Zeros(if before <= 0 && lead > 0 then lead else 0) + FracFrom(ds, if before < 0 then 0 else before, dscale)
  }

  datatype Header = Header(ndigits: int, weight: int, sign: nat, dscale: int)

  function HeaderOf(buf: string): Header
    requires |buf| >= 8
  {
    Header(I16(U16(buf, 0)), I16(U16(buf, 2)), U16(buf, 4), I16(U16(buf, 6)))
  }

  /** The text of the value; none when allocating the digits panics. */
  function NumericText(buf: string): Option<string> {
    if |buf| < 8 then Some("0")
    else
      var h := HeaderOf(buf);
      if h.sign == 0xC000 then Some("NaN")
      else if h.sign == 0xD000 then Some("Infinity")
      else if h.sign == 0xF000 then Some("-Infinity")
      else if h.ndigits == 0 then Some("0")
      else if h.ndigits < 0 then None
      else
        var ds := DigitsOf(buf, h.ndigits, 0);
        var before := I16(h.weight + 1);
        Some((if h.sign == 0x4000 then "-" else "") + IntPart(ds, before) + FracPart(ds, before, I16(I16(-before) * 4), h.dscale))
  }

  // ----- appendNumeric -----

  lemma DigitsNext(buf: string, n: nat, i: nat)
    requires i < n && i <= LAST
    ensures if I16(9 + 2 * i) >= I16(|buf|) then DigitsOf(buf, n, i) == seq(n - i, j => 0)
            else 10 + 2 * i <= |buf| && i + 1 <= LAST && DigitsOf(buf, n, i) == [U16(buf, 8 + 2 * i)] + DigitsOf(buf, n, i + 1)
  {
  }

  lemma DigitsEnd(buf: string, n: nat)
    requires n <= LAST
    ensures DigitsOf(buf, n, n) == []
  {
  }

  method ReadDigits(buf: string, ndigits: nat) returns (digits: array<nat>)
    requires ndigits < 0x8000
    ensures fresh(digits) && digits[..] == DigitsOf(buf, ndigits, 0)
  {
    hide DigitsOf, U16, I16;
    digits := new nat[ndigits](i => 0);
    var i := 0;
    assert digits[..0] + DigitsOf(buf, ndigits, 0) == DigitsOf(buf, ndigits, 0);
    while i < ndigits
      invariant 0 <= i <= ndigits && i <= LAST
      invariant digits[..i] + DigitsOf(buf, ndigits, i) == DigitsOf(buf, ndigits, 0)
      invariant forall j :: i <= j < ndigits ==> digits[j] == 0
    {
      DigitsNext(buf, ndigits, i);
      if I16(9 + 2 * i) >= I16(|buf|) {
        assert digits[..] == digits[..i] + DigitsOf(buf, ndigits, i);
        return;
      }
      ghost var read := digits[..i];
      digits[i] := U16(buf, 8 + 2 * i);
      assert digits[..i + 1] == read + [digits[i]];
      Regroup(read, [digits[i]], DigitsOf(buf, ndigits, i + 1));
      i := i + 1;
    }
    DigitsEnd(buf, ndigits);
    assert digits[..i] + [] == digits[..];
  }

  method PrintInt(digits: seq<nat>, before: int) returns (result: string)
    requires 0 < |digits| < 0x8000 && before < 0x8000
    ensures result == IntPart(digits, before)
  {
    hide Dec, Groups, Pad4, Zeros;
    var n := |digits|;
    if before <= 0 {
      return "0";
    }
    if before <= n {
      result := PrintFirst(digits, before);
    } else {
      result := PrintAll(digits);
      NoZeros(result);
      var i := n;
      while i < before
        invariant n <= i <= before && result == Dec(digits[0]) + Groups(digits[1..]) + Zeros(4 * (i - n))
      {
        ZerosNext(4 * (i - n));
        Regroup(Dec(digits[0]) + Groups(digits[1..]), Zeros(4 * (i - n)), "0000");
        result := result + "0000";
        i := i + 1;
      }
    }
  }

  /** The digits before the point, when there are as many. */
  method PrintFirst(digits: seq<nat>, before: nat) returns (result: string)
    requires 1 <= before <= |digits|
    ensures result == Dec(digits[0]) + Groups(digits[1..before])
  {
    hide Dec, Groups, Pad4;
    NoGroups(digits);
    result := Dec(digits[0]);
    var i := 1;
    while i < before && i < |digits|
      invariant 1 <= i <= before && result == Dec(digits[0]) + Groups(digits[1..i])
    {
      NextGroup(Dec(digits[0]), digits, i);
      result := result + Pad4(digits[i]);
      i := i + 1;
    }
  }

  /** All digits, the first of them without leading zeros. */
  method PrintAll(digits: seq<nat>) returns (result: string)
    requires digits != []
    ensures result == Dec(digits[0]) + Groups(digits[1..])
  {
    hide Dec, Groups, Pad4;
    NoGroups(digits);
    result := "";
    for i := 0 to |digits|
      invariant result == if i == 0 then "" else Dec(digits[0]) + Groups(digits[1..i])
    {
      if i == 0 {
        result := result + Dec(digits[i]);
      } else {
        NextGroup(Dec(digits[0]), digits, i);
        result := result + Pad4(digits[i]);
      }
    }
    assert digits[1..|digits|] == digits[1..];
  }

  lemma NoGroups(ds: seq<nat>)
    requires ds != []
    ensures "" + Dec(ds[0]) == Dec(ds[0]) && Groups(ds[1..1]) == "" && Dec(ds[0]) + Groups(ds[1..1]) == Dec(ds[0])
  {
  }

  lemma NoZeros(s: string)
    ensures s + Zeros(0) == s
  {
  }

  lemma ZerosNext(n: nat)
    ensures Zeros(n) + "0000" == Zeros(n + 4) && Zeros(n + 1) == Zeros(n) + "0" && "0" + Zeros(n) == Zeros(n + 1)
  {
  }

  lemma NextGroup(head: string, ds: seq<nat>, j: nat)
    requires 1 <= j < |ds|
    ensures head + Groups(ds[1..j]) + Pad4(ds[j]) == head + Groups(ds[1..j + 1])
  {
    hide Pad4;
    assert ds[1..j + 1][..j - 1] == ds[1..j] && ds[1..j + 1][j - 1] == ds[j];
    Regroup(head, Groups(ds[1..j]), Pad4(ds[j]));
  }

  lemma NextDigits(ds: seq<nat>, i: nat, room: nat)
    requires i < |ds| && room > 0
    ensures var c := if room > 4 then 4 else room; FracFrom(ds, i, room) == Pad4(ds[i])[..c] + FracFrom(ds, i + 1, room - c)
  {
    hide Pad4;
  }

  lemma OnlyZeros(ds: seq<nat>, i: nat, room: nat)
    requires i >= |ds| || room == 0
    ensures FracFrom(ds, i, room) == Zeros(room)
  {
  }

  /** The loops behind the decimal point. */
  method PrintGroups(digits: seq<nat>, start: nat, dscale: nat) returns (result: string)
    ensures result == FracFrom(digits, start, dscale)
  {
    hide Pad4, FracFrom, Zeros;
    result := "";
    assert "" + FracFrom(digits, start, dscale) == FracFrom(digits, start, dscale);
    var i, written := start, 0;
    while i < |digits| && written < dscale
      invariant written <= dscale && result + FracFrom(digits, i, dscale - written) == FracFrom(digits, start, dscale)
      decreases |digits| - i
    {
      var digitStr := Pad4(digits[i]);
      var chars := dscale - written;
      if chars > 4 {
        chars := 4;
      }
      NextDigits(digits, i, dscale - written);
      Regroup(result, digitStr[..chars], FracFrom(digits, i + 1, dscale - written - chars));
      result := result + digitStr[..chars];
      written := written + chars;
      i := i + 1;
    }
    OnlyZeros(digits, i, dscale - written);
    while written < dscale
      invariant written <= dscale && result + Zeros(dscale - written) == FracFrom(digits, start, dscale)
    {
      ZerosNext(dscale - written - 1);
      Regroup(result, "0", Zeros(dscale - written - 1));
      result := result + "0";
      written := written + 1;
    }
    NoZeros(result);
  }

  method PrintFraction(digits: seq<nat>, before: int, dscale: int) returns (result: string)
    ensures result == FracPart(digits, before, I16(I16(-before) * 4), dscale)
  {
    hide FracFrom;
    result := "";
    if dscale > 0 {
      result := ".";
      NoZeros(".");
      if before <= 0 {
        var i, lead := 0, I16(I16(-before) * 4);
        while i < lead
          invariant 0 <= i && (lead <= 0 ==> i == 0) && (lead > 0 ==> i <= lead) && result == "." + Zeros(i)
        {
          ZerosNext(i);
          result := result + "0";
          i := i + 1;
        }
      }
      var frac := PrintGroups(digits, if before < 0 then 0 else before, dscale);
      result := result + frac;
    }
  }

  method AppendNumeric(buf: string) returns (text: Option<string>)
    ensures text == NumericText(buf)
  {
    hide IntPart, FracPart, DigitsOf, I16, U16;
    if |buf| < 8 {
      return Some("0");
    }
    var ndigits, weight, sign, dscale := I16(U16(buf, 0)), I16(U16(buf, 2)), U16(buf, 4), I16(U16(buf, 6));
    if sign == 0xC000 {
      return Some("NaN");
    } else if sign == 0xD000 {
      return Some("Infinity");
    } else if sign == 0xF000 {
      return Some("-Infinity");
    }
    if ndigits == 0 {
      return Some("0");
    }
    if ndigits < 0 {
      return None;
    }
    var digits := ReadDigits(buf, ndigits);
    var result := if sign == 0x4000 then "-" else "";
    var before := I16(weight + 1);
    var i := PrintInt(digits[..], before);
    var f := PrintFraction(digits[..], before, dscale);
    text := Some(result + i + f);
  }
}
