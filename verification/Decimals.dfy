/** Decimal numbers as text. */
module Decimals {
  import opened Sql

  predicate IsDigit(c: char) { '0' <= c <= '9' }

  predicate AllDigits(s: string) { forall i :: 0 <= i < |s| ==> IsDigit(s[i]) }

  /** The number a string of digits stands for. */
  function Val(s: string): nat
    requires AllDigits(s)
  {
    if s == "" then 0 else 10 * Val(s[..|s| - 1]) + (s[|s| - 1] as int - '0' as int)
  }

  function Digit(n: nat): (c: char)
    requires n < 10
    ensures IsDigit(c) && c as int - '0' as int == n
  {
    (n + '0' as int) as char
  }

  /** strconv.Itoa */
  function Dec(n: nat): (s: string)
    ensures AllDigits(s) && s != "" && Val(s) == n
  {
    if n < 10 then [Digit(n)] else var s := Dec(n / 10) + [Digit(n % 10)]; assert s[..|s| - 1] == Dec(n / 10); s
  }

  function Signed(n: int): string { if n < 0 then "-" + Dec(-n) else Dec(n) }

  /** The number that a text stands for: digits, perhaps behind a minus. */
  function NumberIn(s: string): (r: Option<int>)
  {
    var digits := if s != "" && s[0] == '-' then s[1..] else s;
    if digits == "" || !AllDigits(digits) then None
    else Some(if s[0] == '-' then 0 - Val(digits) else Val(digits))
  }

  lemma SignedIsNumber(n: int)
    ensures NumberIn(Signed(n)) == Some(n)
  {
    var d := Dec(if n < 0 then -n else n);
    assert IsDigit(d[0]) && ("-" + d)[1..] == d;
  }
}
