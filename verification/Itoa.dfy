// agent/qrx/fields.go: Itoa, decimal printing backwards into a fixed 20-byte buffer.
module Itoa {
  import opened Prelude
  import opened Decimal

  /** Two's-complement negation: the least 64-bit integer is its own negative. */
  function Negate64(n: int): int {
    if n == MIN_INT then MIN_INT else -n
  }

  function Pow10(k: nat): nat {
    if k == 0 then 1 else 10 * Pow10(k - 1)
  }

  /** A number below 10^k prints in at most k digits. */
  lemma {:induction false} DigitsFit(n: nat, k: nat)
    requires n < Pow10(k) && k > 0
    ensures |OfNat(n)| <= k
  {
    if n >= 10 {
      DigitsFit(n / 10, k - 1);
    }
  }

  lemma NineteenDigits()
    ensures MAX_INT < Pow10(19)
  {
    assert Pow10(5) == 100000;
    assert Pow10(10) == 10000000000;
    assert Pow10(15) == 1000000000000000;
  }

  /** The digits still to be printed: none once the number is used up. */
  function Pending(m: int): string {
    if m > 0 then OfNat(m) else ""
  }

  lemma LastDigitMoves(m: int, tail: string)
    requires m > 0
    ensures Pending(m) + tail == Pending(m / 10) + ([DigitChar(m % 10)] + tail)
    ensures |Pending(m)| == |Pending(m / 10)| + 1
  {
  }

  lemma LoneSignIsNoNumber()
    ensures Read("-") == None
  {
  }

  /** The loop of Itoa: writes the digits of n at the end of the buffer and never runs out of it. */
  method FillDigits(buf: array<char>, n: int) returns (i: nat)
    requires buf.Length == 20 && n <= MAX_INT
    modifies buf
    ensures 1 <= i <= 20 && buf[i..] == Pending(n)
  {
    i := 20;
    var m := n;
    ghost var tail := "";
    NineteenDigits();
    if m > 0 {
      DigitsFit(m, 19);
    }
    assert Pending(n) + "" == Pending(n);
    while m > 0
      invariant |Pending(m)| + 20 - i == |Pending(n)| <= 19 && 0 <= i <= 20
      invariant buf[i..] == tail && Pending(n) == Pending(m) + tail
      decreases m
    {
      LastDigitMoves(m, tail);
      tail := [DigitChar(m % 10)] + tail;
      i := Put(buf, i, DigitChar(m % 10));
      m := m / 10;
    }
  }

  method Put(buf: array<char>, end: nat, c: char) returns (i: nat)
    requires 0 < end <= buf.Length
    modifies buf
    ensures i == end - 1 && buf[i..] == [c] + old(buf[end..])
  {
    i := end - 1;
    buf[i] := c;
  }

  /**
   * Prints every 64-bit integer but the least one so that it reads back as itself; the least one,
   * which negation cannot make positive, prints as a lone sign.
   */
  method Itoa(n: int) returns (s: string)
    requires MIN_INT <= n <= MAX_INT
    ensures n != MIN_INT <==> Read(s) == Some(n)
    ensures s == if n == MIN_INT then "-" else OfInt(n)
    ensures |s| <= 20
  {
    IntRoundTrip(n);
    LoneSignIsNoNumber();
    if n == 0 {
      return "0";
    }
    var neg := n < 0;
    var m := n;
    if neg {
      m := Negate64(m);
    }
    var buf := new char[20];
    var i := FillDigits(buf, m);
    if neg {
      i := Put(buf, i, '-');
    }
    s := buf[i..];
  }
}
