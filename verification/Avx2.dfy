/** The AVX2 substring search of tinybase-memory.c, what it finds, and exactly when that is the first
    occurrence in the haystack. */
module Avx2 {
  import opened Unicode
  import opened Bits
  import opened Masks
  import opened Memory
  import opened Simd

  // ----- what the search does -----

  /** The first place below `bound` where `needle` occurs in the memory, or None. */
  ghost predicate IsFirstBelow(needle: seq<Byte>, mem: seq<Byte>, bound: nat, r: Option<nat>) {
    match r
    case Some(i) => i < bound && OccursAt(needle, mem, i) && forall j: nat :: j < i ==> !OccursAt(needle, mem, j)
    case None => forall j: nat :: j < bound ==> !OccursAt(needle, mem, j)
  }

  /** How many places the blocks of 32 cover: the loop guard stops at the last place where the needle
      still fits, and that place is covered only by a block that begins before it. */
  function Covered(n: nat, len: nat): nat {
    if len < n then 0 else (len - n + 31) / 32 * 32
  }

  /** The mask of a block. The comparison of the needle's last byte is with itself and sets every bit. */
  function BlockMask(block: seq<Byte>, first: Byte): nat {
    And(MoveMask(block, first), Not(32, 0))
  }

  lemma BlockCandidates(needle: seq<Byte>, mem: seq<Byte>, ptr: nat)
    requires |needle| >= 1 && ptr + 32 <= |mem|
    ensures Candidates(BlockMask(mem[ptr..ptr + 32], needle[0]), needle, mem, ptr, 32)
  {
    var mask := MoveMask(mem[ptr..ptr + 32], needle[0]);
    var both := And(mask, Not(32, 0));
    FirstBytes(needle, mem, ptr, 32);
    forall i: nat
      ensures TestBit(both, i) <==> TestBit(mask, i) && i < 32
    {
      AndOnes(32, mask, i);
    }
  }

  lemma FlipOut(mask: nat, needle: seq<Byte>, mem: seq<Byte>, ptr: nat, k: nat)
    requires |needle| >= 1 && ptr + 32 <= |mem| && Candidates(mask, needle, mem, ptr, 32)
    requires k < 32 && TestBit(mask, k) && !OccursAt(needle, mem, ptr + k)
    ensures FlipBit(mask, k) < mask && Candidates(FlipBit(mask, k), needle, mem, ptr, 32)
  {
    FlipBitLess(mask, k);
    var cleared := FlipBit(mask, k);
    forall i: nat
      ensures TestBit(cleared, i) <==> TestBit(mask, i) && i < 32 && i != k
    {
      FlipBitBits(mask, k, i);
    }
  }

  lemma LastBlock(n: nat, len: nat, ptr: nat)
    requires n <= len && ptr % 32 == 0 && ptr >= len - n && (ptr == 0 || ptr - 32 < len - n)
    ensures ptr == Covered(n, len)
  {
  }

  lemma InsideBlock(n: nat, len: nat, ptr: nat, k: nat)
    requires n <= len && ptr % 32 == 0 && ptr < len - n && k < 32
    ensures ptr + k < Covered(n, len)
  {
  }

  /** _BufferInBufferIdxAVX2. `mem` is the memory from the first of the haystack's `len` bytes on, as far
      as the blocks and the comparisons may read. */
  method BufferInBufferIdxAVX2(needle: seq<Byte>, mem: seq<Byte>, len: nat) returns (r: Option<nat>)
    requires |needle| >= 1 && len + 31 <= |mem|
    ensures IsFirstBelow(needle, mem, Covered(|needle|, len), r)
  {
    if len >= |needle| {
      var ptr: nat := 0;
      while ptr < len - |needle|
        invariant ptr % 32 == 0 && (ptr == 0 || ptr - 32 < len - |needle|)
        invariant forall j: nat :: j < ptr ==> !OccursAt(needle, mem, j)
      {
        var mask := BlockMask(mem[ptr..ptr + 32], needle[0]);
        BlockCandidates(needle, mem, ptr);
        while mask != 0
          invariant Candidates(mask, needle, mem, ptr, 32)
          decreases mask
        {
          var bitPos := GetFirstBitSet(mask);
          TryLowest(mask, needle, mem, ptr, 32);
          var start := ptr + bitPos;
          InsideBlock(|needle|, len, ptr, bitPos);
          if mem[start..start + |needle|] == needle {
            return Some(start);
          }
          FlipOut(mask, needle, mem, ptr, bitPos);
          mask := FlipBit(mask, bitPos);
        }
        RuledOut(needle, mem, ptr, 32);
        ptr := ptr + 32;
      }
      LastBlock(|needle|, len, ptr);
      // The byte loop that follows has the same guard, so it never runs.
      assert !(ptr < len - |needle|);
    }
    return None;
  }

  // ----- when that is the first occurrence in the haystack -----

  /** The search is right on every needle of `n` bytes, every haystack of `len` bytes and every memory
      behind it. */
  ghost predicate RightOnAll(n: nat, len: nat) {
    forall needle: seq<Byte>, mem: seq<Byte>, r: Option<nat> ::
      |needle| == n && len + 31 <= |mem| && IsFirstBelow(needle, mem, Covered(n, len), r) ==>
        IsFirst(needle, mem[..len], r)
  }

  lemma InHaystack(needle: seq<Byte>, mem: seq<Byte>, len: nat, i: nat)
    requires len <= |mem|
    ensures OccursAt(needle, mem[..len], i) <==> i + |needle| <= len && OccursAt(needle, mem, i)
  {
    if i + |needle| <= len {
      assert mem[..len][i..i + |needle|] == mem[i..i + |needle|];
    }
  }

  lemma RightWhenCovered(n: nat, len: nat)
    requires n >= 1 && (len < n || (len - n) % 32 == 31)
    ensures RightOnAll(n, len)
  {
    assert len >= n ==> Covered(n, len) == len - n + 1;
    forall needle: seq<Byte>, mem: seq<Byte>, r: Option<nat> |
      |needle| == n && len + 31 <= |mem| && IsFirstBelow(needle, mem, Covered(n, len), r)
      ensures IsFirst(needle, mem[..len], r)
    {
      forall i: nat
        ensures OccursAt(needle, mem[..len], i) <==> i + n <= len && OccursAt(needle, mem, i)
      {
        InHaystack(needle, mem, len, i);
      }
    }
  }

  function Zeros(k: nat): (s: seq<Byte>)
    ensures |s| == k && forall i :: 0 <= i < k ==> s[i] == 0
  {
    seq(k, i => 0 as Byte)
  }

  function Ones(k: nat): (s: seq<Byte>)
    ensures |s| == k && forall i :: 0 <= i < k ==> s[i] == 1
  {
    seq(k, i => 1 as Byte)
  }

  /** Zeros up to `at`, then the needle of ones, then zeros: it occurs at `at` and nowhere before. */
  lemma Planted(n: nat, at: nat, len: nat) returns (mem: seq<Byte>)
    requires n >= 1 && at + n <= len + 31
    ensures |mem| == len + 31 && OccursAt(Ones(n), mem, at)
    ensures forall j: nat :: j < at ==> !OccursAt(Ones(n), mem, j)
  {
    mem := Zeros(at) + Ones(n) + Zeros(len + 31 - at - n);
    assert mem[at..at + n] == Ones(n);
    forall j: nat | j < at && OccursAt(Ones(n), mem, j)
      ensures false
    {
      OccursEnds(Ones(n), mem, j);
    }
  }

  /** A needle at the very end of the haystack is missed when the blocks stop short of it. */
  lemma EndIsMissed(n: nat, len: nat)
    requires n >= 1 && len >= n && (len - n) % 32 == 0
    ensures !RightOnAll(n, len)
  {
    var d := len - n;
    assert Covered(n, len) == d;
    var mem := Planted(n, d, len);
    InHaystack(Ones(n), mem, len, d);
    assert IsFirstBelow(Ones(n), mem, Covered(n, len), None);
  }

  /** A needle that straddles or lies behind the end is found when the blocks go past it. */
  lemma BehindIsFound(n: nat, len: nat)
    requires n >= 1 && len >= n && 0 < (len - n) % 32 < 31
    ensures !RightOnAll(n, len)
  {
    var d := len - n;
    assert d + 1 < Covered(n, len);
    var mem := Planted(n, d + 1, len);
    InHaystack(Ones(n), mem, len, d + 1);
    assert IsFirstBelow(Ones(n), mem, Covered(n, len), Some(d + 1));
  }

  /** The AVX2 search keeps the promise of the simple one for all contents if and only if the needle is
      longer than the haystack or the places where it fits fill whole blocks of 32. */
  lemma Avx2Exactly(n: nat, len: nat)
    requires n >= 1
    ensures RightOnAll(n, len) <==> len < n || (len - n) % 32 == 31
  {
    if len < n || (len - n) % 32 == 31 {
      RightWhenCovered(n, len);
    } else if (len - n) % 32 == 0 {
      EndIsMissed(n, len);
    } else {
      BehindIsFound(n, len);
    }
  }

  /** The two bytes of U+00E9, searched for in themselves: the guard fails at once, and the search
      returns nothing whatever the memory behind holds. */
  lemma WholeHaystackIsMissed(mem: seq<Byte>, r: Option<nat>)
    requires |mem| >= 33 && mem[..2] == [0xC3, 0xA9]
    requires IsFirstBelow([0xC3, 0xA9], mem, Covered(2, 2), r)
    ensures r == None && !IsFirst([0xC3, 0xA9], mem[..2], r)
  {
    assert Covered(2, 2) == 0;
    assert OccursAt([0xC3, 0xA9], mem[..2], 0);
  }

  // ----- the function pointer -----

  /** What _BufferInBufferIdx may point to. */
  datatype SubstringSearch = Simple | SSE3 | AVX2

  method BufferInBufferIdx(search: SubstringSearch, needle: seq<Byte>, hay: seq<Byte>) returns (r: Option<nat>)
    requires |needle| >= 1 && !search.AVX2?
    ensures IsFirst(needle, hay, r)
  {
    if search.SSE3? {
      r := BufferInBufferIdxSSE3(needle, hay);
    } else {
      r := BufferInBufferIdxSimple(needle, hay);
    }
  }
}
