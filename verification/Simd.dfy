/** The SSE2, AVX2 and SSE3 searches of tinybase-memory.c keep the same promise as the byte loops. */
module Simd {
  import opened Unicode
  import opened Bits
  import opened Masks
  import opened Memory

  /** `mask` has the bits of the places in the chunk at `init`, from `from` on, that hold `b`. */
  ghost predicate MarksFrom(mask: nat, mem: seq<Byte>, init: nat, w: nat, from: nat, b: Byte)
    requires init + w <= |mem|
  {
    forall i: nat :: TestBit(mask, i) <==> i < w && from <= init + i && mem[init + i] == b
  }

  lemma FirstChunk(mem: seq<Byte>, init: nat, w: nat, offset: nat, b: Byte)
    requires (w == 16 || w == 32) && init + w <= |mem| && offset < w
    ensures MarksFrom(And(MoveMask(mem[init..init + w], b), Shl(32, Not(32, 0), offset)),
                      mem, init, w, init + offset, b)
  {
    var chunk := mem[init..init + w];
    forall i: nat
      ensures TestBit(And(MoveMask(chunk, b), Shl(32, Not(32, 0), offset)), i)
              <==> i < w && offset <= i && mem[init + i] == b
    {
      AndBits(MoveMask(chunk, b), Shl(32, Not(32, 0), offset), i);
      MoveMaskBits(chunk, b, i);
      ShlOnesBits(32, offset, i);
    }
  }

  lemma NextChunk(mem: seq<Byte>, init: nat, w: nat, from: nat, b: Byte)
    requires init + w <= |mem| && from <= init
    ensures MarksFrom(MoveMask(mem[init..init + w], b), mem, init, w, from, b)
  {
    var mask := MoveMask(mem[init..init + w], b);
    forall i: nat
      ensures TestBit(mask, i) <==> i < w && mem[init + i] == b
    {
      MoveMaskBits(mem[init..init + w], b, i);
    }
  }

  /** An empty mask: the byte is nowhere in the chunk. Otherwise the lowest bit is its first place. */
  lemma ReadMask(mask: nat, mem: seq<Byte>, init: nat, w: nat, from: nat, b: Byte)
    requires init + w <= |mem| && MarksFrom(mask, mem, init, w, from, b)
    ensures mask == 0 ==> forall j :: from <= j && init <= j < init + w ==> mem[j] != b
    ensures mask != 0 ==>
              var j := init + GetFirstBitSet(mask);
              from <= j < init + w && mem[j] == b && forall i :: from <= i && init <= i < j ==> mem[i] != b
  {
    if mask == 0 {
      forall j | from <= j && init <= j < init + w
        ensures mem[j] != b
      {
        ZeroBits(j - init);
      }
    } else {
      var k := GetFirstBitSet(mask);
      FirstBitIsFirst(mask, k);
      forall i | from <= i && init <= i < init + k
        ensures mem[i] != b
      {
        FirstBitIsFirst(mask, i - init);
      }
    }
  }

  /** The number of byte addresses of a 64-bit machine. */
  const ADDRESSES: nat := 0x1_0000_0000_0000_0000

  /** The chunk the search starts with: the haystack's address rounded down, and how far into it the
      haystack begins. */
  lemma AlignedDown(base: nat, w: nat)
    requires (w == 16 || w == 32) && base < ADDRESSES
    ensures And(ADDRESSES - w, base) == base - base % w && And(w - 1, base) == base % w
  {
    var k := if w == 16 then 4 else 5;
    Widths();
    Pow2Values();
    AndHigh(base, k, 64, w, ADDRESSES - w);
    AndComm(w - 1, base);
    AndMask(base, k);
  }

  lemma Widths()
    ensures Pow2(4) == 16 && Pow2(5) == 32
  {
    assert Pow2(2) == 4;
    assert Pow2(4) == 2 * Pow2(3);
  }

  lemma NotBefore(mem: seq<Byte>, base: nat, len: nat, b: Byte, j: nat)
    requires base + len <= |mem| && j < len && mem[base + j] == b
    requires forall i :: base <= i < base + j ==> mem[i] != b
    ensures IsFirstByte(b, mem[base..base + len], Some(j))
  {
  }

  lemma NotAtAll(mem: seq<Byte>, base: nat, len: nat, b: Byte)
    requires base + len <= |mem| && forall i :: base <= i < base + len ==> mem[i] != b
    ensures IsFirstByte(b, mem[base..base + len], None)
  {
  }

  /** The chunks: the place of the byte in one of them, or how much is left after the last. */
  method SearchChunks(needle: Byte, mem: seq<Byte>, base: nat, len: nat, w: nat)
      returns (found: Option<nat>, rest: nat, remaining: nat)
    requires base + len <= |mem| <= ADDRESSES && (w == 16 || w == 32) && len > w
    ensures found.Some? ==> IsFirstByte(needle, mem[base..base + len], found)
    ensures found.None? ==> base <= rest && rest + remaining == base + len
    ensures found.None? ==> forall j :: base <= j < rest ==> mem[j] != needle
  {
    AlignedDown(base, w);
    var init := And(ADDRESSES - w, base);
    var offset := And(w - 1, base);
    var mask := And(MoveMask(mem[init..init + w], needle), Shl(32, Not(32, 0), offset));
    FirstChunk(mem, init, w, offset, needle);
    remaining := len - (w - offset);
    while remaining >= w && mask == 0
      invariant init + w + remaining == base + len && base < init + w
      invariant MarksFrom(mask, mem, init, w, base, needle)
      invariant forall j :: base <= j < init ==> mem[j] != needle
      decreases remaining
    {
      ReadMask(mask, mem, init, w, base, needle);
      init := init + w;
      mask := MoveMask(mem[init..init + w], needle);
      NextChunk(mem, init, w, base, needle);
      remaining := remaining - w;
    }
    ReadMask(mask, mem, init, w, base, needle);
    rest := init + w;
    if mask != 0 {
      offset := GetFirstBitSet(mask);
      found := Some(init - base + offset);
      NotBefore(mem, base, len, needle, found.value);
    } else {
      found := None;
    }
  }

  /** _ByteInBufferIdxSSE2 (w = 16) and _ByteInBufferIdxAVX2 (w = 32). The haystack is `len` bytes of
      the memory from address `base` on; the first aligned chunk may begin before it. */
  method ByteInBufferIdxSimd(needle: Byte, mem: seq<Byte>, base: nat, len: nat, w: nat) returns (r: Option<nat>)
    requires base + len <= |mem| <= ADDRESSES && (w == 16 || w == 32)
    ensures IsFirstByte(needle, mem[base..base + len], r)
  {
    var rest, restLen := base, len;
    if len > w {
      r, rest, restLen := SearchChunks(needle, mem, base, len, w);
      if r.Some? {
        return;
      }
    }
    var partialIdx := rest - base;
    for idx := 0 to restLen
      invariant forall j :: base <= j < rest + idx ==> mem[j] != needle
    {
      if mem[rest + idx] == needle {
        NotBefore(mem, base, len, needle, idx + partialIdx);
        return Some(idx + partialIdx);
      }
    }
    NotAtAll(mem, base, len, needle);
    return None;
  }

  // ----- substring search -----

  /** The bits still to be tried in the chunk of `w` bytes at `at`: places that begin with the needle's first byte.
      Whatever has no bit has been ruled out. */
  ghost predicate Candidates(mask: nat, needle: seq<Byte>, hay: seq<Byte>, at: nat, w: nat)
    requires |needle| >= 1 && at + w <= |hay|
  {
    && (forall i: nat :: TestBit(mask, i) ==> i < w && hay[at + i] == needle[0])
    && (forall j: nat :: at <= j < at + w && OccursAt(needle, hay, j) ==> TestBit(mask, j - at))
  }

  lemma FirstBytes(needle: seq<Byte>, hay: seq<Byte>, at: nat, w: nat)
    requires |needle| >= 1 && at + w <= |hay|
    ensures Candidates(MoveMask(hay[at..at + w], needle[0]), needle, hay, at, w)
  {
    var mask := MoveMask(hay[at..at + w], needle[0]);
    forall i: nat
      ensures TestBit(mask, i) <==> i < w && hay[at + i] == needle[0]
    {
      MoveMaskBits(hay[at..at + w], needle[0], i);
    }
    forall j: nat | at <= j < at + w && OccursAt(needle, hay, j)
      ensures hay[j] == needle[0]
    {
      OccursEnds(needle, hay, j);
    }
  }

  lemma OccursEnds(needle: seq<Byte>, hay: seq<Byte>, i: nat)
    requires |needle| >= 1 && OccursAt(needle, hay, i)
    ensures hay[i] == needle[0] && hay[i + |needle| - 1] == needle[|needle| - 1]
  {
    var at := hay[i..i + |needle|];
    assert at[0] == hay[i] && at[|needle| - 1] == hay[i + |needle| - 1];
  }

  /** The lowest bit is the first place left to try. */
  lemma TryLowest(mask: nat, needle: seq<Byte>, hay: seq<Byte>, at: nat, w: nat)
    requires |needle| >= 1 && at + w <= |hay| && Candidates(mask, needle, hay, at, w) && mask > 0
    ensures GetFirstBitSet(mask) < w && TestBit(mask, GetFirstBitSet(mask))
    ensures forall j: nat :: at <= j < at + GetFirstBitSet(mask) ==> !OccursAt(needle, hay, j)
  {
    var k := GetFirstBitSet(mask);
    FirstBitIsFirst(mask, k);
    forall j: nat | at <= j < at + k
      ensures !OccursAt(needle, hay, j)
    {
      FirstBitIsFirst(mask, j - at);
    }
  }

  lemma RuleOut(mask: nat, needle: seq<Byte>, hay: seq<Byte>, at: nat, w: nat, k: nat)
    requires |needle| >= 1 && at + w <= |hay| && Candidates(mask, needle, hay, at, w)
    requires k < w <= 64 && TestBit(mask, k) && !OccursAt(needle, hay, at + k)
    ensures ClearBit(mask, k) < mask && Candidates(ClearBit(mask, k), needle, hay, at, w)
  {
    ClearBitLess(mask, k);
    var cleared := ClearBit(mask, k);
    forall i: nat
      ensures TestBit(cleared, i) <==> TestBit(mask, i) && i < 64 && i != k
    {
      ClearBitBits(mask, k, i);
    }
  }

  lemma RuledOut(needle: seq<Byte>, hay: seq<Byte>, at: nat, w: nat)
    requires |needle| >= 1 && at + w <= |hay| && Candidates(0, needle, hay, at, w)
    ensures forall j: nat :: at <= j < at + w ==> !OccursAt(needle, hay, j)
  {
    forall j: nat | at <= j < at + w
      ensures !OccursAt(needle, hay, j)
    {
      ZeroBits(j - at);
    }
  }

  /** _BufferInBufferIdxSSE3. */
  method BufferInBufferIdxSSE3(needle: seq<Byte>, hay: seq<Byte>) returns (r: Option<nat>)
    requires |needle| >= 1
    ensures IsFirst(needle, hay, r)
  {
    if |hay| >= |needle| {
      var ptr, remaining := 0, |hay|;
      var needleEnd := needle[|needle| - 1];
      while remaining >= 16 && remaining >= |needle|
        invariant remaining >= 0 && ptr + remaining == |hay| && ptr >= 0
        invariant forall j: nat :: j < ptr ==> !OccursAt(needle, hay, j)
        decreases remaining
      {
        var mask := MoveMask(hay[ptr..ptr + 16], needle[0]);
        FirstBytes(needle, hay, ptr, 16);
        while mask != 0
          invariant mask >= 0 && Candidates(mask, needle, hay, ptr, 16)
          decreases mask
        {
          var matchIdx := GetFirstBitSet(mask);
          TryLowest(mask, needle, hay, ptr, 16);
          var tempRemaining := remaining - matchIdx;
          if tempRemaining >= |needle| && hay[ptr + matchIdx + |needle| - 1] == needleEnd {
            var equal := EqualBuffers(hay[ptr + matchIdx..ptr + matchIdx + |needle|], needle);
            if equal {
              return Some(|hay| - tempRemaining);
            }
          }
          RuleOut(mask, needle, hay, ptr, 16, matchIdx);
          mask := ClearBit(mask, matchIdx);
        }
        RuledOut(needle, hay, ptr, 16);
        ptr := ptr + 16;
        remaining := remaining - 16;
      }
      while remaining >= |needle|
        invariant remaining >= 0 && ptr + remaining == |hay| && ptr >= 0
        invariant forall j: nat :: j < ptr ==> !OccursAt(needle, hay, j)
        decreases remaining
      {
        if hay[ptr] == needle[0] && hay[ptr + |needle| - 1] == needleEnd {
          var equal := EqualBuffers(hay[ptr..ptr + |needle|], needle);
          if equal {
            return Some(ptr);
          }
        }
        ptr := ptr + 1;
        remaining := remaining - 1;
      }
    }
    return None;
  }
}
