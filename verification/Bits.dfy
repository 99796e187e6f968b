/** Unsigned machine words as natural numbers: bits, masks and shifts defined by halving. */
module Bits {

  function Pow2(n: nat): (p: nat)
    ensures p > 0
  {
    if n == 0 then 1 else 2 * Pow2(n - 1)
  }

  /** The C operator & on unsigned operands. */
  function And(a: nat, b: nat): (r: nat)
    ensures r <= a && r <= b
  {
    if a == 0 || b == 0 then 0 else 2 * And(a / 2, b / 2) + (if a % 2 == 1 && b % 2 == 1 then 1 else 0)
  }

  /** The number of binary digits of `v`: 64 - __builtin_clzl(v) for a 64-bit word. */
  function BitLength(v: nat): nat {
    if v == 0 then 0 else 1 + BitLength(v / 2)
  }

  lemma {:induction false} BitLengthBounds(v: nat)
    requires v > 0
    ensures BitLength(v) > 0 && Pow2(BitLength(v) - 1) <= v < Pow2(BitLength(v))
  {
    if v > 1 {
      BitLengthBounds(v / 2);
    } else {
      assert BitLength(1) == 1 + BitLength(0);
    }
  }

  lemma {:induction false} Pow2Monotone(m: nat, n: nat)
    requires m <= n
    ensures Pow2(m) <= Pow2(n)
  {
    if m < n {
      Pow2Monotone(m, n - 1);
    }
  }

  lemma DoubleFirst(p: nat, q: nat)
    ensures 2 * (p * q) == (2 * p) * q
  {
  }

  lemma {:induction false} Pow2Add(m: nat, n: nat)
    ensures Pow2(m + n) == Pow2(m) * Pow2(n)
  {
    if m > 0 {
      Pow2Add(m - 1, n);
      DoubleFirst(Pow2(m - 1), Pow2(n));
    }
  }

  lemma Pow2Values()
    ensures Pow2(3) == 8
    ensures Pow2(31) == 0x8000_0000
    ensures Pow2(32) == 0x1_0000_0000
    ensures Pow2(64) == 0x1_0000_0000_0000_0000
  {
    assert Pow2(3) == 8 && Pow2(4) == 16;
    Pow2Add(4, 4);
    assert Pow2(8) == 0x100;
    Pow2Add(8, 8);
    assert Pow2(16) == 0x1_0000;
    Pow2Add(16, 16);
    assert Pow2(32) == 0x1_0000_0000;
    Pow2Add(32, 32);
  }

  lemma HalfMod(x: nat, p: nat)
    requires p > 0
    ensures x % (2 * p) == 2 * ((x / 2) % p) + x % 2
  {
    var q := (x / 2) / p;
    assert x / 2 == q * p + (x / 2) % p;
    var r := 2 * ((x / 2) % p) + x % 2;
    assert x == q * (2 * p) + r by {
      assert q * (2 * p) == 2 * (q * p);
    }
    ModUnique(x, 2 * p, q, r);
  }

  lemma Multiple(k: int, d: int)
    requires d > 0
    ensures k >= 1 ==> k * d >= d
    ensures k <= -1 ==> k * d <= -d
  {
  }

  lemma ModUnique(x: nat, d: nat, q: nat, r: nat)
    requires d > 0 && r < d && x == q * d + r
    ensures x % d == r && x / d == q
  {
    var q2, r2 := x / d, x % d;
    assert x == q2 * d + r2;
    assert (q2 - q) * d == q2 * d - q * d;
    Multiple(q2 - q, d);
  }

  lemma AndUnfold(a: nat, h: nat, b: nat)
    requires a > 0 && b == 2 * h + 1
    ensures And(a, b) == 2 * And(a / 2, h) + a % 2
  {
    assert b / 2 == h && b % 2 == 1;
  }

  lemma AndMaskStep(x: nat, p: nat, q: nat)
    requires x > 0 && p > 0 && q == 2 * p && And(x / 2, p - 1) == (x / 2) % p
    ensures And(x, q - 1) == x % q
  {
    AndUnfold(x, p - 1, q - 1);
    HalfMod(x, p);
  }

  lemma {:induction false} AndMaskOf(x: nat, k: nat, p: nat)
    requires p == Pow2(k)
    ensures And(x, p - 1) == x % p
  {
    if k == 0 || x == 0 {
      ZeroMod(p);
    } else {
      var h := Pow2(k - 1);
      AndMaskOf(x / 2, k - 1, h);
      AndMaskStep(x, h, p);
    }
  }

  lemma ZeroMod(p: nat)
    requires p > 0
    ensures 0 % p == 0
  {
  }

  /** Masking with 2^k - 1 is the remainder modulo 2^k. */
  lemma AndMask(x: nat, k: nat)
    ensures And(x, Pow2(k) - 1) == x % Pow2(k)
  {
    AndMaskOf(x, k, Pow2(k));
  }

  lemma Regroup(q: nat, m: nat, q2: nat, d: nat)
    ensures q * (m * d) + q2 * d == (q * m + q2) * d
  {
    assert q * (m * d) == (q * m) * d;
  }

  /** Reducing modulo a multiple first does not change the remainder. */
  lemma ModMod(x: nat, m: nat, d: nat)
    requires m > 0 && d > 0
    ensures (x % (m * d)) % d == x % d
  {
    var md := m * d;
    var q, r := x / md, x % md;
    var q2, r2 := r / d, r % d;
    Regroup(q, m, q2, d);
    DivMod(x, md);
    DivMod(r, d);
    ModUnique(x, d, q * m + q2, r2);
  }

  lemma DivMod(x: nat, d: nat)
    requires d > 0
    ensures x == (x / d) * d + x % d
  {
  }
}
