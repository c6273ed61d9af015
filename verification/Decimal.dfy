// Decimal printing and reading, as fmt "%d", strconv.Itoa and strconv.Atoi do it.
module Decimal {
  import opened Prelude

  const MAX_INT := 0x7FFF_FFFF_FFFF_FFFF
  const MIN_INT := -0x8000_0000_0000_0000

  predicate IsDigit(c: char) {
    '0' <= c <= '9'
  }

  predicate AllDigits(s: string) {
    forall i | 0 <= i < |s| :: IsDigit(s[i])
  }

  function DigitChar(d: int): (c: char)
    requires 0 <= d < 10
    ensures IsDigit(c) && c as int == '0' as int + d
  {
    ('0' as int + d) as char
  }

  function OfNat(n: nat): string {
    if n < 10 then [DigitChar(n)] else OfNat(n / 10) + [DigitChar(n % 10)]
  }

  function OfInt(n: int): string {
    if n < 0 then "-" + OfNat(-n) else OfNat(n)
  }

  /** The number a digit string denotes; leading zeros do not matter. */
  function ValueOf(s: string): nat
    requires AllDigits(s)
  {
    if s == "" then 0 else 10 * ValueOf(s[..|s| - 1]) + (s[|s| - 1] as int - '0' as int)
  }

  /** Reads an optionally signed decimal; the strict inverse of OfInt on its image. */
  function Read(s: string): Option<int> {
    if s != "" && AllDigits(s) then Some(ValueOf(s))
    else if |s| > 1 && s[0] == '-' && AllDigits(s[1..]) then Some(-(ValueOf(s[1..]) as int))
    else None
  }

  function Clamp(n: int): int {
    if n > MAX_INT then MAX_INT else if n < MIN_INT then MIN_INT else n
  }

  /** strconv.Atoi with its error dropped: 0 on a syntax error, saturated when out of range. */
  function AtoiOrZero(s: string): int {
    if |s| > 1 && s[0] == '+' && AllDigits(s[1..]) then Clamp(ValueOf(s[1..]))
    else match Read(s) case Some(n) => Clamp(n) case None => 0
  }

  /** Optionally signed digits read as their value, brought into the 64-bit range; all else reads as 0. */
  lemma AtoiExactly(d: string)
    ensures d != "" && AllDigits(d) ==>
              && AtoiOrZero(d) == AtoiOrZero("+" + d) == Min(ValueOf(d), 0x7FFF_FFFF_FFFF_FFFF)
              && AtoiOrZero("-" + d) == Max(-(ValueOf(d) as int), -0x8000_0000_0000_0000)
    ensures AtoiOrZero(d) != 0 ==> d != "" && (AllDigits(d) || ((d[0] == '+' || d[0] == '-') && AllDigits(d[1..])))
  {
    var plus, minus := "+" + d, "-" + d;
    assert plus[1..] == d && minus[1..] == d;
    if d != "" && AllDigits(d) {
      assert !IsDigit(plus[0]) && !IsDigit(minus[0]) && IsDigit(d[0]);
    }
  }

  lemma {:induction false} NatRoundTrip(n: nat)
    ensures AllDigits(OfNat(n)) && OfNat(n) != "" && ValueOf(OfNat(n)) == n
    ensures OfNat(n)[0] == '0' ==> n == 0
  {
    if n >= 10 {
      NatRoundTrip(n / 10);
      assert OfNat(n)[..|OfNat(n)| - 1] == OfNat(n / 10);
    }
  }

  lemma NegativeReads(n: nat)
    requires n > 0
    ensures Read("-" + OfNat(n)) == Some(-(n as int))
  {
    NatRoundTrip(n);
    var s := "-" + OfNat(n);
    assert s[1..] == OfNat(n) && s[0] == '-';
    assert !AllDigits(s) by { assert !IsDigit(s[0]); }
  }

  lemma NonNegativeReads(n: nat)
    ensures Read(OfNat(n)) == Some(n as int)
  {
    NatRoundTrip(n);
  }

  lemma PrintedHasNoSignOrNul(n: int)
    ensures OfInt(n) != "" && OfInt(n)[0] != '+' && '\0' !in OfInt(n)
  {
    NatRoundTrip(if n < 0 then -n else n);
  }

  /** Reading back a printed integer gives it again, so printing is injective. */
  lemma IntRoundTrip(n: int)
    ensures OfInt(n) != "" && Read(OfInt(n)) == Some(n)
    ensures MIN_INT <= n <= MAX_INT ==> AtoiOrZero(OfInt(n)) == n
    ensures '\0' !in OfInt(n)
  {
    PrintedHasNoSignOrNul(n);
    assert Read(OfInt(n)) == Some(n) by {
      if n < 0 {
        NegativeReads(-n);
      } else {
        NonNegativeReads(n);
      }
    }
  }
}
