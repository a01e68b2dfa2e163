/** The `%d` verb of `fmt.Sprintf` on integers, with its inverse. */
module Format {

  function DigitChar(d: nat): (c: char)
    requires d < 10
    ensures '0' <= c <= '9' && c as int - '0' as int == d
  {
    "0123456789"[d]
  }

  /** The base-ten digits of `n`, most significant first, without leading zeros. */
  function Digits(n: nat): (s: string)
    ensures 0 < |s| && AllDigits(s)
    ensures (|s| > 1 || n > 0) ==> s[0] != '0'
    decreases n
  {
    if n < 10 then [DigitChar(n)] else Digits(n / 10) + [DigitChar(n % 10)]
  }

  /** `fmt.Sprintf("%d", n)`: a minus sign exactly for negative numbers, then
      the digits of the magnitude, without leading zeros. */
  function Decimal(n: int): (s: string)
    ensures 0 < |s| && (s[0] == '-' <==> n < 0)
    ensures n < 0 ==> 1 < |s| && AllDigits(s[1..]) && s[1] != '0'
    ensures 0 <= n ==> AllDigits(s) && (1 < |s| ==> s[0] != '0')
  {
    if n < 0 then "-" + Digits(-n) else Digits(n)
  }

  predicate AllDigits(s: string)
  {
    forall i | 0 <= i < |s| :: '0' <= s[i] <= '9'
  }

  function ParseDigits(s: string): nat
    requires AllDigits(s)
  {
    if |s| == 0 then 0 else ParseDigits(s[..|s| - 1]) * 10 + (s[|s| - 1] as int - '0' as int)
  }

  /** Reads back a string written by Decimal. */
  function ParseDecimal(s: string): int
  {
    if 0 < |s| && s[0] == '-' && AllDigits(s[1..]) then 0 - ParseDigits(s[1..]) as int
    else if AllDigits(s) then ParseDigits(s)
    else 0
  }

  lemma {:induction false} DigitsRoundTrip(n: nat)
    ensures ParseDigits(Digits(n)) == n
  {
    if n >= 10 {
      DigitsRoundTrip(n / 10);
      var s := Digits(n);
      assert s[..|s| - 1] == Digits(n / 10);
    }
  }

  /** Decimal loses nothing: distinct integers print differently. */
  lemma DecimalRoundTrip(n: int)
    ensures ParseDecimal(Decimal(n)) == n
  {
    if n < 0 {
      DigitsRoundTrip(-n);
      assert Decimal(n)[1..] == Digits(-n);
    } else {
      DigitsRoundTrip(n);
    }
  }
}
