/** The characters that integers are printed as and read from, digit by digit. */
module Digits {
  import opened Unicode
  import opened Transcoding
  import opened Integers
  import Bits

  lemma DivTen(n: nat, p: nat)
    requires p > 0
    ensures (n / 10) / p == n / (10 * p)
  {
    var q, r := (n / 10) / p, (n / 10) % p;
    Bits.DivMod(n / 10, p);
    assert n == q * (10 * p) + (10 * r + n % 10) by {
      assert q * (10 * p) == 10 * (q * p);
    }
    Bits.ModUnique(n, 10 * p, q, 10 * r + n % 10);
  }

  // ----- printing -----

  lemma {:induction false} DecimalChar(n: nat, d: nat, k: nat)
    requires k < d
    ensures Decimal(n, d)[d - 1 - k] == DigitChar((n / Pow10(k)) % 10)
    decreases k
  {
    if k == 0 {
      assert Decimal(n, d)[d - 1] == DigitChar(n % 10);
    } else {
      DecimalChar(n / 10, d - 1, k - 1);
      DivTen(n, Pow10(k - 1));
    }
  }

  lemma CharOf(d: nat)
    requires d < 10
    ensures DigitChar(d) == 0x30 + d as bv32
  {
  }

  /** Digit `k` from the end. */
  lemma DecimalDigit(n: nat, d: nat, k: nat)
    requires k < d
    ensures Decimal(n, d)[d - 1 - k] == 0x30 + ((n / Pow10(k)) % 10) as bv32
  {
    DecimalChar(n, d, k);
    CharOf((n / Pow10(k)) % 10);
  }

  /** Digit `k` from the end of an unsigned number. */
  lemma PrintedUIntDigits(n: nat, k: nat)
    requires k < |PrintedUInt(n)|
    ensures PrintedUInt(n)[|PrintedUInt(n)| - 1 - k] == 0x30 + ((n / Pow10(k)) % 10) as bv32
  {
    DecimalDigit(n, |PrintedUInt(n)|, k);
  }

  /** Every number below 10^19 is printed with as many digits as it has. */
  lemma PrintedUIntLength(n: nat)
    requires n < 10_000_000_000_000_000_000
    ensures |PrintedUInt(n)| == DigitCount(n) && n < Pow10(|PrintedUInt(n)|)
    ensures if n == 0 then |PrintedUInt(n)| == 1 else Pow10(|PrintedUInt(n)| - 1) <= n
  {
    SignedCount(n);
    DigitCountBounds(n);
    Pow10Values();
    if n >= HALF {
      DigitCountIs19(n);
      DigitCountIs19(WORD - n);
    }
  }

  lemma Suffix(a: seq<Scalar>, b: seq<Scalar>, k: nat)
    requires k < |b|
    ensures (a + b)[|a + b| - 1 - k] == b[|b| - 1 - k]
  {
  }

  /** Digit `k` from the end of a signed number. */
  lemma PrintedIntDigits(n: int, k: nat)
    requires k < |PrintedInt(n)| - (if n < 0 then 1 else 0)
    ensures PrintedInt(n)[|PrintedInt(n)| - 1 - k] == 0x30 + (((if n < 0 then -n else n) / Pow10(k)) % 10) as bv32
  {
    var d := DigitCount(Abs(n));
    Suffix(if n < 0 then [MINUS] else [], Decimal(Abs(n), d), k);
    DecimalDigit(Abs(n), d, k);
  }

  /** There are as many digits as the magnitude has, and a minus sign before them exactly if the number
      is negative. */
  lemma PrintedIntLength(n: int)
    ensures n < 0 ==> PrintedInt(n) != [] && PrintedInt(n)[0] == 0x2D
    ensures var m, d := if n < 0 then -n else n, |PrintedInt(n)| - if n < 0 then 1 else 0;
            d >= 1 && m < Pow10(d) && (m > 0 ==> Pow10(d - 1) <= m) && (m == 0 ==> d == 1)
  {
    DigitCountBounds(Abs(n));
  }

  lemma NarrowDigit(d: nat)
    requires d < 10
    ensures Low8(0x30 + d as bv32) == 0x30 + d as bv8
  {
    assert d in [0, 1, 2, 3, 4, 5, 6, 7, 8, 9];
  }

  lemma OneDigitChar(d: nat)
    requires d < 10
    ensures PrintedUInt(d) == [DigitChar(d)]
  {
    SignedCount(d);
    assert DigitCount(d) == 1 && Decimal(d / 10, 0) == [];
  }

  /** One digit in ASCII. */
  lemma OneDigit(d: nat)
    requires d < 10
    ensures Text(Ascii, PrintedUInt(d)) == [0x30 + d as bv8]
  {
    OneDigitChar(d);
    CharOf(d);
    NarrowDigit(d);
    TextOne(Ascii, DigitChar(d));
  }

  /** The first byte of a negative number in ASCII. */
  lemma MinusFirst(n: int)
    requires -0x8000_0000_0000_0000 < n < 0
    ensures Text(Ascii, PrintedInt(n)) != [] && Text(Ascii, PrintedInt(n))[0] == 0x2D
  {
    TextAt(Ascii, PrintedInt(n), 0);
    assert PrintedInt(n)[0..] == PrintedInt(n);
  }

  // ----- parsing -----

  lemma OneValue(c: bv32)
    requires 0x30 <= c <= 0x39
    ensures DigitValue(c) == (c - 0x30) as nat < 10
  {
    assert c in [0x30, 0x31, 0x32, 0x33, 0x34, 0x35, 0x36, 0x37, 0x38, 0x39];
  }

  /** Digit `k` from the end of the number that is read is character `k` from the end. */
  lemma {:induction false} ValueDigit(cs: seq<Scalar>, k: nat)
    requires AllDigits(cs) && k < |cs|
    ensures (Value(cs) / Pow10(k)) % 10 == (cs[|cs| - 1 - k] - 0x30) as nat
    decreases k
  {
    var front, c := cs[..|cs| - 1], cs[|cs| - 1];
    OneValue(c);
    assert Value(cs) / 10 == Value(front) && Value(cs) % 10 == DigitValue(c);
    if k > 0 {
      ValueDigit(front, k - 1);
      DivTen(Value(cs), Pow10(k - 1));
    }
  }

  lemma {:induction false} ValueBound(cs: seq<Scalar>)
    requires AllDigits(cs)
    ensures Value(cs) < Pow10(|cs|)
  {
    if cs != [] {
      ValueBound(cs[..|cs| - 1]);
      OneValue(cs[|cs| - 1]);
    }
  }

  /** What USZ_MAX means as an answer: a character that is no digit, or a number that has this value
      modulo 2^64. */
  lemma UIntSentinel(cs: seq<Scalar>)
    ensures ParsedUInt(cs) == 0xFFFF_FFFF_FFFF_FFFF <==>
            (AllDigits(cs) ==> Value(cs) % 0x1_0000_0000_0000_0000 == 0xFFFF_FFFF_FFFF_FFFF)
  {
  }

  /** "12a" is answered by the sentinel, and so is the text of the sentinel itself. */
  lemma UIntSentinelTwice()
    ensures ParsedUInt([0x31, 0x32, 0x61]) == 0xFFFF_FFFF_FFFF_FFFF
    ensures ParsedUInt(Decimal(0xFFFF_FFFF_FFFF_FFFF, 20)) == 0xFFFF_FFFF_FFFF_FFFF
  {
    var cs: seq<Scalar> := [0x31, 0x32, 0x61];
    assert !IsDigit(cs[2]);
    Pow10Values();
    assert Pow10(20) == 10 * Pow10(19);
    DecimalIsExact(0xFFFF_FFFF_FFFF_FFFF, 20);
  }

  lemma IntSentinel(cs: seq<Scalar>)
    requires cs == [0x31, 0x32, 0x61]
    ensures ParsedInt(cs) == 0x7FFF_FFFF_FFFF_FFFF
  {
    assert cs[0] != MINUS && !IsDigit(cs[2]);
  }

  /** ISZ_MAX is the answer to "12a" and also to its own text. */
  lemma IntSentinelTwice(n: int)
    requires n == 0x7FFF_FFFF_FFFF_FFFF
    ensures ParsedInt([0x31, 0x32, 0x61]) == 0x7FFF_FFFF_FFFF_FFFF
    ensures PrintedInt(n) != [] && ParsedInt(PrintedInt(n)) == 0x7FFF_FFFF_FFFF_FFFF
  {
    IntSentinel([0x31, 0x32, 0x61]);
    IntRoundTrip(n);
  }
}
