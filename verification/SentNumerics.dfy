/** Numerics as PostgreSQL sends them, field by field, and the decimals that are printed for them. */
module SentNumerics {
  import opened Sql
  import opened Numeric
  import opened NumericValue

  /** 16 bits, two's complement, the higher byte first. */
  function Field(n: int): (s: string)
    ensures |s| == 2
  {
    var u := n % 0x1_0000;
    [(u / 256) as char, (u % 256) as char]
  }

  function Digits(ds: seq<nat>): (s: string)
    ensures |s| == 2 * |ds|
  {
    if ds == [] then "" else Field(ds[0]) + Digits(ds[1..])
  }

  /** How many digits to the base 10000, the power of 10000 of the first, the sign, how many decimal
      digits to show behind the point, and the digits. */
  function Sent(sign: nat, weight: int, dscale: nat, ds: seq<nat>): (s: string)
    ensures |s| == 8 + 2 * |ds|
  {
    Field(|ds|) + Field(weight) + Field(sign) + Field(dscale) + Digits(ds)
  }

  lemma FieldIsRead(buf: string, i: nat, n: int)
    requires i + 2 <= |buf| && buf[i..i + 2] == Field(n)
    ensures U16(buf, i) == n % 0x1_0000
  {
    assert buf[i] == buf[i..i + 2][0] && buf[i + 1] == buf[i..i + 2][1];
  }

  lemma WrapsBack(n: int)
    requires -0x8000 <= n < 0x8000
    ensures I16(n % 0x1_0000) == n
  {
  }

  lemma HeaderIsRead(sign: nat, weight: int, dscale: nat, ds: seq<nat>)
    requires |ds| < 0x8000 && -0x8000 <= weight < 0x8000 && sign < 0x1_0000 && dscale < 0x8000
    ensures HeaderOf(Sent(sign, weight, dscale, ds)) == Header(|ds|, weight, sign, dscale)
  {
    hide Field, U16, I16;
    var buf := Sent(sign, weight, dscale, ds);
    assert buf[0..2] == Field(|ds|) && buf[2..4] == Field(weight) && buf[4..6] == Field(sign) && buf[6..8] == Field(dscale);
    FieldIsRead(buf, 0, |ds|);
    FieldIsRead(buf, 2, weight);
    FieldIsRead(buf, 4, sign);
    FieldIsRead(buf, 6, dscale);
    WrapsBack(|ds|);
    WrapsBack(weight);
    WrapsBack(dscale);
  }

  lemma {:induction false} DigitIsRead(front: string, ds: seq<nat>, i: nat)
    requires i < |ds| && ds[i] < 0x1_0000
    ensures U16(front + Digits(ds), |front| + 2 * i) == ds[i]
    decreases |ds|
  {
    hide Field, U16;
    var buf := front + Digits(ds);
    if i == 0 {
      assert buf[|front|..|front| + 2] == Field(ds[0]);
      FieldIsRead(buf, |front|, ds[0]);
    } else {
      DigitIsRead(front + Field(ds[0]), ds[1..], i - 1);
      assert buf == front + Field(ds[0]) + Digits(ds[1..]);
    }
  }

  lemma DigitsAreRead(sign: nat, weight: int, dscale: nat, ds: seq<nat>)
    requires IsBase10000(ds)
    ensures DigitsSent(Sent(sign, weight, dscale, ds), |ds|) == ds
  {
    hide U16, Field, Digits;
    var front := Field(|ds|) + Field(weight) + Field(sign) + Field(dscale);
    forall i | 0 <= i < |ds| ensures DigitsSent(front + Digits(ds), |ds|)[i] == ds[i] {
      DigitIsRead(front, ds, i);
    }
  }

  /** Main result: the text printed for a numeric of up to 16379 digits is worth the value sent, cut
      after the digits it shows: those asked for, and below one ten-thousandth four more for every
      empty group. */
  lemma SentNumericIsRead(neg: bool, weight: int, dscale: nat, ds: seq<nat>)
    requires 0 < |ds| <= 16379 && IsBase10000(ds) && -8192 <= weight <= 32766 && dscale < 0x8000
    ensures var text := NumericText(Sent(if neg then 0x4000 else 0, weight, dscale, ds));
      var f := if dscale == 0 then 0 else dscale + if weight < -1 then 4 * (-weight - 1) else 0;
      text.Some? && ReadDecimal(text.value) == Some(Decimal(neg, Shift(Mantissa(ds), f + 4 * (weight + 1 - |ds|)), f))
  {
    hide HeaderOf, NumericText, ReadDecimal, Shift, Mantissa, Sent, IsBase10000, DigitsSent;
    var sign := if neg then 0x4000 else 0;
    HeaderIsRead(sign, weight, dscale, ds);
    DigitsAreRead(sign, weight, dscale, ds);
    NumericIsTruncatedValue(Sent(sign, weight, dscale, ds));
  }

  /** Zero has no digits; what is no number has a sign of its own. */
  lemma SpecialNumerics(weight: int, dscale: nat)
    requires -0x8000 <= weight < 0x8000 && dscale < 0x8000
    ensures NumericText(Sent(0, weight, dscale, [])) == Some("0")
    ensures NumericText(Sent(0xC000, weight, dscale, [])) == Some("NaN")
    ensures NumericText(Sent(0xD000, weight, dscale, [])) == Some("Infinity")
    ensures NumericText(Sent(0xF000, weight, dscale, [])) == Some("-Infinity")
  {
    hide HeaderOf, Sent;
    HeaderIsRead(0, weight, dscale, []);
    HeaderIsRead(0xC000, weight, dscale, []);
    HeaderIsRead(0xD000, weight, dscale, []);
    HeaderIsRead(0xF000, weight, dscale, []);
  }
}
