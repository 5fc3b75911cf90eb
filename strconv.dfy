/**
 * Base-10 integer parsing and printing as the core uses them: strconv.ParseInt(s, 10, 64),
 * strconv.Atoi (the same bound on a 64-bit platform) and the %d verb of fmt.
 */
module Strconv {
  import opened Wrappers
  import opened GoInt

  predicate IsDigit(c: char) { '0' <= c <= '9' }

  predicate AllDigits(s: string) { forall i :: 0 <= i < |s| ==> IsDigit(s[i]) }

  /** The value of a run of decimal digits, most significant first. */
  function DigitsValue(s: string): nat
    requires AllDigits(s)
  {
    if s == [] then 0 else DigitsValue(s[..|s| - 1]) * 10 + (s[|s| - 1] - '0') as int
  }

  /** The value of s when it has the shape [+-]?[0-9]+, with no bound on its magnitude. */
  function ParseInteger(s: string): Option<int> {
    if |s| > 0 && (s[0] == '+' || s[0] == '-') then
      if |s| > 1 && AllDigits(s[1..]) then
        var magnitude: int := DigitsValue(s[1..]);
        Some(if s[0] == '-' then -magnitude else magnitude)
      else None
    else if s != [] && AllDigits(s) then Some(DigitsValue(s))
    else None
  }

  /** strconv.ParseInt(s, 10, 64) and strconv.Atoi: a syntax error or an int64 range error is None. */
  function ParseInt(s: string): (r: Option<Int64>)
    ensures r.Some? ==> ParseInteger(s) == Some(r.value as int)
    ensures ParseInteger(s).Some? && MinInt64 <= ParseInteger(s).value <= MaxInt64 ==> r.Some?
    ensures s == [] ==> r.None?
  {
    match ParseInteger(s)
    case Some(v) => if MinInt64 <= v <= MaxInt64 then Some(v) else None
    case None => None
  }

  function Digit(d: nat): (c: char)
    requires d < 10
    ensures IsDigit(c) && (c - '0') as int == d
  {
    ('0' as int + d) as char
  }

  /** The decimal digits of n, with no leading zero. */
  function FormatNat(n: nat): (s: string)
    ensures s != [] && AllDigits(s)
    ensures |s| > 1 ==> s[0] != '0'
  {
    if n < 10 then [Digit(n)] else FormatNat(n / 10) + [Digit(n % 10)]
  }

  /** fmt's %d and strconv.Itoa. */
  function FormatInt(n: int): string {
    if n < 0 then "-" + FormatNat(-n) else FormatNat(n)
  }

  lemma {:induction false} DigitsValueOfFormat(n: nat)
    ensures DigitsValue(FormatNat(n)) == n
  {
    var s := FormatNat(n);
    if n >= 10 {
      assert s[..|s| - 1] == FormatNat(n / 10);
      DigitsValueOfFormat(n / 10);
    }
  }

  /** Printing then parsing gives the number back, for every integer. */
  lemma ParseFormat(n: int)
    ensures ParseInteger(FormatInt(n)) == Some(n)
  {
    var s := FormatInt(n);
    if n < 0 {
      assert s[1..] == FormatNat(-n);
      DigitsValueOfFormat(-n);
    } else {
      DigitsValueOfFormat(n);
    }
  }

  /** The same round trip through the int64 parser. */
  lemma ParseIntFormat(n: Int64)
    ensures ParseInt(FormatInt(n)) == Some(n)
  {
    ParseFormat(n);
  }
}
