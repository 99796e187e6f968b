/** UTF-16: surrogate pairs and single units, bit by bit. */
module Utf16Codec {
  import opened Unicode
  import opened CharEncoding

  /** `k` and `m` are the high and low ten bits that the two surrogates of `c` carry. */
  ghost predicate Halves(c: bv32, k: bv32, m: bv32) {
    0x1_0000 <= c < 0x11_0000 && k == (c - 0x1_0000) >> 10 && m == (c - 0x1_0000) & 0x3FF
  }

  function Pair(k: bv32, m: bv32): bv32 {
    ((m + 0xDC00) << 16) + (k + 0xD800)
  }

  lemma HalvesSmall(c: bv32, k: bv32, m: bv32)
    requires Halves(c, k, m)
    ensures k <= 0x3FF && m <= 0x3FF
  {
  }

  lemma HalvesSum(c: bv32, k: bv32, m: bv32)
    requires Halves(c, k, m)
    ensures 0x1_0000 + k * 0x400 + m == c
  {
  }

  lemma HighUnit(c: bv32, k: bv32, m: bv32)
    requires Halves(c, k, m)
    ensures HighSurrogate(c) == k + 0xD800
  {
  }

  lemma LowUnit(c: bv32, k: bv32, m: bv32)
    requires Halves(c, k, m)
    ensures LowSurrogate(c) == m + 0xDC00
  {
  }

  lemma HalvesFacts(c: bv32, k: bv32, m: bv32)
    requires Halves(c, k, m)
    ensures k <= 0x3FF && m <= 0x3FF && 0x1_0000 + k * 0x400 + m == c
    ensures HighSurrogate(c) == k + 0xD800 && LowSurrogate(c) == m + 0xDC00
  {
    HalvesSmall(c, k, m);
    HalvesSum(c, k, m);
    HighUnit(c, k, m);
    LowUnit(c, k, m);
  }

  lemma PairEncoded(c: bv32, p: bv32)
    requires c > 0xFFFF && p == UnicodeToUtf16(c)
    ensures p == Pair((c - 0x1_0000) >> 10, (c - 0x1_0000) & 0x3FF)
  {
  }

  lemma PairPacked(c: bv32, p: bv32, k: bv32, m: bv32)
    requires Halves(c, k, m) && p == UnicodeToUtf16(c)
    ensures p == Pair(k, m)
  {
    PairEncoded(c, p);
  }

  lemma PairJoined(p: bv32, k: bv32, m: bv32)
    requires k <= 0x3FF && m <= 0x3FF && p == Pair(k, m)
    ensures p > 0xFFFF && p & 0xFFFF == k + 0xD800 && (p >> 16) & 0xFFFF == m + 0xDC00
  {
  }

  lemma PairUnfolded(p: bv32)
    requires p > 0xFFFF
    ensures Utf16ToUnicode(p) == 0x1_0000 + ((p & 0xFFFF) - 0xD800) * 0x400 + (((p >> 16) & 0xFFFF) - 0xDC00)
  {
  }

  lemma HighBack(x: bv32, k: bv32)
    requires k <= 0x3FF && x == k + 0xD800
    ensures x - 0xD800 == k
  {
  }

  lemma LowBack(y: bv32, m: bv32)
    requires m <= 0x3FF && y == m + 0xDC00
    ensures y - 0xDC00 == m
  {
  }

  lemma PairDecoded(p: bv32, k: bv32, m: bv32)
    requires k <= 0x3FF && m <= 0x3FF
    requires p > 0xFFFF && p & 0xFFFF == k + 0xD800 && (p >> 16) & 0xFFFF == m + 0xDC00
    ensures Utf16ToUnicode(p) == 0x1_0000 + k * 0x400 + m
  {
    PairUnfolded(p);
    HighBack(p & 0xFFFF, k);
    LowBack((p >> 16) & 0xFFFF, m);
  }

  lemma PairBack(c: bv32, p: bv32, k: bv32, m: bv32)
    requires k <= 0x3FF && m <= 0x3FF && 0x1_0000 + k * 0x400 + m == c && p == Pair(k, m)
    ensures p > 0xFFFF && p & 0xFFFF == k + 0xD800 && (p >> 16) & 0xFFFF == m + 0xDC00 && Utf16ToUnicode(p) == c
  {
    PairJoined(p, k, m);
    PairDecoded(p, k, m);
  }

  /** UnicodeToUtf16 packs the two surrogates of RFC 2781, and Utf16ToUnicode undoes it. */
  lemma PairFacts(c: bv32, p: bv32, k: bv32, m: bv32)
    requires Halves(c, k, m) && p == UnicodeToUtf16(c)
    ensures p > 0xFFFF && Utf16ToUnicode(p) == c && k <= 0x3FF
    ensures HighSurrogate(c) == k + 0xD800
    ensures HighSurrogate(c) == p & 0xFFFF && LowSurrogate(c) == (p >> 16) & 0xFFFF
  {
    HalvesFacts(c, k, m);
    PairPacked(c, p, k, m);
    PairBack(c, p, k, m);
  }

  lemma UnitSize(high: Byte, w: bv32)
    requires w <= 0xFFFF && high == Low8(w >> 8)
    ensures Utf16CharSize(high) == if 0xD800 <= w <= 0xDFFF then 4 else 2
  {
  }
}
