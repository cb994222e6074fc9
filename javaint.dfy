/** Java's 32-bit `int` as far as the job numbering needs it: `Integer.valueOf(String)`
    (the same grammar as `Integer.parseInt`) and `Integer.toString(int)`. */
module JavaInt {
  import opened Base

  const MinInt: int := -0x8000_0000
  const MaxInt: int := 0x7fff_ffff

  predicate IsInt(n: int) { MinInt <= n <= MaxInt }

  predicate IsDigit(c: char) { '0' <= c <= '9' }

  predicate AllDigits(s: string) { forall i :: 0 <= i < |s| ==> IsDigit(s[i]) }

  /** Decimal value of a string of digits, leading zeros allowed. */
  function DigitsValue(s: string): nat
    requires AllDigits(s)
  {
    if s == [] then 0 else DigitsValue(s[..|s| - 1]) * 10 + (s[|s| - 1] as int - '0' as int)
  }

  /** Integer.valueOf(s): an optional '+' or '-', then one or more decimal digits,
      and the value must fit in 32 bits; anything else is a NumberFormatException. */
  function ParseInt(s: string): (r: Option<int>)
    ensures r.Some? ==> IsInt(r.value)
    ensures r.Some? ==> |s| > 0 && (IsDigit(s[0]) || s[0] == '-' || s[0] == '+')
  {
    if |s| == 0 then None
    else
      var signed := s[0] == '-' || s[0] == '+';
      var digits := if signed then s[1..] else s;
      if |digits| == 0 || !AllDigits(digits) then None
      else
        var v: int := if s[0] == '-' then -(DigitsValue(digits) as int) else DigitsValue(digits);
        if IsInt(v) then Some(v) else None
  }

  /** The digits of a natural number, most significant first, without leading zeros. */
  function Digits(n: nat): string
  {
    if n < 10 then [('0' as int + n) as char]
    else Digits(n / 10) + [('0' as int + n % 10) as char]
  }

  /** Integer.toString(n). */
  function ToString(n: int): string
  {
    if n < 0 then "-" + Digits(-n) else Digits(n)
  }

  lemma {:induction false} DigitsParse(n: nat)
    ensures |Digits(n)| > 0 && AllDigits(Digits(n)) && DigitsValue(Digits(n)) == n
  {
    if n >= 10 {
      DigitsParse(n / 10);
      var d := Digits(n);
      assert d[..|d| - 1] == Digits(n / 10);
    }
  }

  /** Integer.valueOf(Integer.toString(n)) == n for every Java int. */
  lemma ParseToString(n: int)
    requires IsInt(n)
    ensures ParseInt(ToString(n)) == Some(n)
  {
    DigitsParse(if n < 0 then -n else n);
    if n < 0 {
      assert ToString(n)[1..] == Digits(-n);
    }
  }

  /** Distinct Java ints have distinct decimal forms. */
  lemma ToStringInjective(m: int, n: int)
    requires IsInt(m) && IsInt(n) && ToString(m) == ToString(n)
    ensures m == n
  {
    ParseToString(m);
    ParseToString(n);
  }
}
