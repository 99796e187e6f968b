/** The bit operations of tinybase-types.h and of the SIMD compare masks, bit by bit. */
module Masks {
  import opened Unicode
  import opened Bits

  /** Bit `i` of a word. */
  predicate TestBit(m: nat, i: nat) {
    if i == 0 then m % 2 == 1 else TestBit(m / 2, i - 1)
  }

  lemma {:induction false} AndBits(a: nat, b: nat, i: nat)
    ensures TestBit(And(a, b), i) <==> TestBit(a, i) && TestBit(b, i)
  {
    if a == 0 || b == 0 {
      ZeroBits(i);
    } else {
      var r := And(a, b);
      assert r == 2 * And(a / 2, b / 2) + (if a % 2 == 1 && b % 2 == 1 then 1 else 0);
      assert r / 2 == And(a / 2, b / 2);
      if i > 0 {
        AndBits(a / 2, b / 2, i - 1);
      }
    }
  }

  lemma {:induction false} ZeroBits(i: nat)
    ensures !TestBit(0, i)
  {
    if i > 0 {
      ZeroBits(i - 1);
    }
  }

  /** The word with the bits from `k` up to `n` set. */
  lemma {:induction false} RunBits(n: nat, k: nat, i: nat)
    requires k <= n
    ensures Pow2(k) <= Pow2(n)
    ensures TestBit(Pow2(n) - Pow2(k), i) <==> k <= i < n
  {
    Pow2Monotone(k, n);
    if n == k {
      ZeroBits(i);
    } else {
      var m := Pow2(n) - Pow2(k);
      if k > 0 {
        Pow2Monotone(k - 1, n - 1);
        assert m == 2 * (Pow2(n - 1) - Pow2(k - 1));
        if i > 0 {
          RunBits(n - 1, k - 1, i - 1);
        }
      } else {
        assert m == 2 * (Pow2(n - 1) - Pow2(0)) + 1;
        if i > 0 {
          RunBits(n - 1, 0, i - 1);
        }
      }
    }
  }

  /** ~x for an `n`-bit word. */
  function Not(n: nat, x: nat): nat
    requires x < Pow2(n)
  {
    Pow2(n) - 1 - x
  }

  /** x << k for an `n`-bit word. */
  function Shl(n: nat, x: nat, k: nat): nat {
    (x * Pow2(k)) % Pow2(n)
  }

  lemma {:induction false} NotBitBits(n: nat, k: nat, i: nat)
    requires k < n
    ensures Pow2(k) < Pow2(n)
    ensures TestBit(Not(n, Pow2(k)), i) <==> i < n && i != k
  {
    Pow2Monotone(k, n - 1);
    if k == 0 {
      Pow2Monotone(1, n);
      RunBits(n, 1, i);
      assert Pow2(1) == 2 * Pow2(0);
    } else if i > 0 {
      NotBitBits(n - 1, k - 1, i - 1);
      HalfNot(Pow2(n - 1), Pow2(k - 1));
    }
  }

  lemma HalfNot(p: nat, q: nat)
    requires q < p
    ensures (2 * p - 1 - 2 * q) / 2 == p - 1 - q
  {
  }

  lemma ShlOnes(n: nat, k: nat, p: nat, q: nat)
    requires k < n && p == Pow2(n) && q == Pow2(k)
    ensures q <= p && Shl(n, p - 1, k) == p - q
  {
    Pow2Monotone(k, n);
    ShiftedOnes(p, q);
  }

  lemma ShiftedOnes(p: nat, q: nat)
    requires 0 < q <= p
    ensures ((p - 1) * q) % p == p - q
  {
    var x := (p - 1) * q;
    MulOut(p, q);
    ModUnique(x, p, q - 1, p - q);
  }

  lemma MulOut(p: nat, q: nat)
    ensures (p - 1) * q == (q - 1) * p + (p - q)
  {
  }

  lemma AndOnes(n: nat, m: nat, i: nat)
    ensures TestBit(And(m, Not(n, 0)), i) <==> TestBit(m, i) && i < n
  {
    AndBits(m, Not(n, 0), i);
    RunBits(n, 0, i);
  }

  /** ~0 << k keeps the bits from `k` on. */
  lemma ShlOnesBits(n: nat, k: nat, i: nat)
    requires k < n
    ensures TestBit(Shl(n, Not(n, 0), k), i) <==> k <= i < n
  {
    ShlOnes(n, k, Pow2(n), Pow2(k));
    RunBits(n, k, i);
  }

  /** GetFirstBitSet: the number of trailing zero bits. */
  function GetFirstBitSet(m: nat): nat
    requires m > 0
  {
    if m % 2 == 1 then 0 else 1 + GetFirstBitSet(m / 2)
  }

  lemma {:induction false} FirstBitIsFirst(m: nat, j: nat)
    requires m > 0
    ensures j == GetFirstBitSet(m) ==> TestBit(m, j)
    ensures j < GetFirstBitSet(m) ==> !TestBit(m, j)
  {
    if m % 2 == 0 && j > 0 {
      FirstBitIsFirst(m / 2, j - 1);
    }
  }

  /** ClearBit: 1UL is 64 bits wide, and the result is cut back to the 32 bits of the value. */
  function ClearBit(v: nat, bit: nat): (r: nat)
    requires bit < 64
    ensures r <= v
  {
    NotBitBits(64, bit, 0);
    And(v, Not(64, Pow2(bit)))
  }

  lemma ClearBitBits(v: nat, bit: nat, i: nat)
    requires bit < 64
    ensures TestBit(ClearBit(v, bit), i) <==> TestBit(v, i) && i < 64 && i != bit
  {
    NotBitBits(64, bit, i);
    AndBits(v, Not(64, Pow2(bit)), i);
  }

  lemma ClearBitLess(v: nat, bit: nat)
    requires bit < 64 && TestBit(v, bit)
    ensures ClearBit(v, bit) < v
  {
    ClearBitBits(v, bit, bit);
  }

  /** FlipBit, which clears a bit by a table of 32-bit patterns. */
  function FlipBit(v: nat, bit: nat): (r: nat)
    requires bit < 32
    ensures r <= v
  {
    NotBitBits(32, bit, 0);
    And(v, Not(32, Pow2(bit)))
  }

  lemma FlipBitBits(v: nat, bit: nat, i: nat)
    requires bit < 32
    ensures TestBit(FlipBit(v, bit), i) <==> TestBit(v, i) && i < 32 && i != bit
  {
    NotBitBits(32, bit, i);
    AndBits(v, Not(32, Pow2(bit)), i);
  }

  lemma FlipBitLess(v: nat, bit: nat)
    requires bit < 32 && TestBit(v, bit)
    ensures FlipBit(v, bit) < v
  {
    FlipBitBits(v, bit, bit);
  }

  /** movemask of cmpeq: bit `i` tells whether byte `i` of the chunk equals `b`. */
  function MoveMask(chunk: seq<Byte>, b: Byte): nat {
    if chunk == [] then 0 else (if chunk[0] == b then 1 else 0) + 2 * MoveMask(chunk[1..], b)
  }

  lemma {:induction false} MoveMaskBits(chunk: seq<Byte>, b: Byte, i: nat)
    ensures TestBit(MoveMask(chunk, b), i) <==> i < |chunk| && chunk[i] == b
  {
    if chunk == [] {
      ZeroBits(i);
    } else {
      assert MoveMask(chunk, b) / 2 == MoveMask(chunk[1..], b);
      if i > 0 {
        MoveMaskBits(chunk[1..], b, i - 1);
      }
    }
  }

  /** Masking with ~(w - 1) rounds down to a multiple of w. */
  lemma {:induction false} AndHigh(x: nat, k: nat, n: nat, w: nat, m: nat)
    requires k <= n && x < Pow2(n) && w == Pow2(k) && m == Pow2(n) - w
    ensures And(m, x) == x - x % w
  {
    if k == 0 {
      AndComm(m, x);
      AndMask(x, n);
      SmallMod(x, Pow2(n));
    } else if x == 0 {
      ZeroMod(w);
    } else {
      var w', m' := Pow2(k - 1), Pow2(n - 1) - Pow2(k - 1);
      Pow2Monotone(k - 1, n - 1);
      AndHigh(x / 2, k - 1, n - 1, w', m');
      AndHighStep(x, w', m', w, m);
    }
  }

  lemma AndHighStep(x: nat, w': nat, m': nat, w: nat, m: nat)
    requires w' > 0 && w == 2 * w' && m == 2 * m' && And(m', x / 2) == x / 2 - (x / 2) % w'
    ensures And(m, x) == x - x % w
  {
    HalfMod(x, w');
    AndEven(m', m, x);
  }

  lemma SmallMod(x: nat, d: nat)
    requires x < d
    ensures x % d == x && x % 1 == 0
  {
  }

  lemma AndEven(h: nat, a: nat, x: nat)
    requires a == 2 * h
    ensures And(a, x) == 2 * And(h, x / 2)
  {
    if a > 0 && x > 0 {
      assert a / 2 == h && a % 2 == 0;
    }
  }

  lemma {:induction false} AndComm(a: nat, b: nat)
    ensures And(a, b) == And(b, a)
  {
    if a > 0 && b > 0 {
      AndComm(a / 2, b / 2);
    }
  }
}
