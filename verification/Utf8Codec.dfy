/** UTF-8: each lemma is one small bit-vector problem, which takes the words it speaks of as
    parameters and treats a single length of character. */
module Utf8Codec {
  import opened Unicode
  import opened CharEncoding
  import opened Packing

  /** What the text and the decoder need to know of the packed form `p` of `c`. */
  ghost predicate Utf8Facts(c: Scalar, p: bv32, n: nat) {
    && 1 <= n <= 4 && Utf8Bytes(c) == Unpack(p, n)
    && Utf8ToUnicode(p) == c && GetMultibyteCharSize(p, Utf8) == n && Pack(Utf8Bytes(c), n) == p
  }

  lemma TwoEncoded(c: bv32, p: bv32)
    requires 0x80 <= c < 0x800 && p == UnicodeToUtf8(c)
    ensures p == (((c & 0x3F) | 0x80) << 8) + (((c >> 6) & 0x1F) | 0xC0)
  {
  }

  lemma TwoJoined(c: bv32, p: bv32)
    requires p == (((c & 0x3F) | 0x80) << 8) + (((c >> 6) & 0x1F) | 0xC0)
    ensures p == (((c & 0x3F) | 0x80) << 8) | (((c >> 6) & 0x1F) | 0xC0)
  {
  }

  lemma TwoBack(c: bv32, p: bv32)
    requires 0x80 <= c < 0x800 && p == (((c & 0x3F) | 0x80) << 8) | (((c >> 6) & 0x1F) | 0xC0)
    ensures 0x80C0 <= p < 0xFFFF && ((p & 0x1F) << 6) | ((p & 0x3F00) >> 8) == c
  {
  }

  lemma TwoDecoded(c: bv32, p: bv32)
    requires 0x80C0 <= p < 0xFFFF && ((p & 0x1F) << 6) | ((p & 0x3F00) >> 8) == c
    ensures Utf8ToUnicode(p) == c && GetMultibyteCharSize(p, Utf8) == 2
  {
  }

  lemma TwoBytes(c: Scalar, p: bv32)
    requires 0x80 <= c < 0x800 && p == (((c & 0x3F) | 0x80) << 8) | (((c >> 6) & 0x1F) | 0xC0)
    ensures Utf8Bytes(c) == Unpack(p, 2)
  {
  }

  lemma TwoFacts(c: Scalar, p: bv32)
    requires 0x80 <= c < 0x800 && p == UnicodeToUtf8(c)
    ensures Utf8Facts(c, p, 2)
  {
    TwoEncoded(c, p);
    TwoJoined(c, p);
    TwoBack(c, p);
    TwoDecoded(c, p);
    TwoBytes(c, p);
    Pack2(p, Unpack(p, 2));
  }

  lemma ThreeEncoded(c: bv32, p: bv32)
    requires 0x800 <= c < 0x1_0000 && p == UnicodeToUtf8(c)
    ensures p == (((c & 0x3F) | 0x80) << 16) + ((((c >> 6) & 0x3F) | 0x80) << 8) + (((c >> 12) & 0xF) | 0xE0)
  {
  }

  lemma ThreeJoined(c: bv32, p: bv32)
    requires p == (((c & 0x3F) | 0x80) << 16) + ((((c >> 6) & 0x3F) | 0x80) << 8) + (((c >> 12) & 0xF) | 0xE0)
    ensures p == (((c & 0x3F) | 0x80) << 16) | ((((c >> 6) & 0x3F) | 0x80) << 8) | (((c >> 12) & 0xF) | 0xE0)
  {
  }

  lemma ThreeBack(c: bv32, p: bv32)
    requires 0x800 <= c < 0x1_0000
    requires p == (((c & 0x3F) | 0x80) << 16) | ((((c >> 6) & 0x3F) | 0x80) << 8) | (((c >> 12) & 0xF) | 0xE0)
    ensures 0x80_0000 <= p <= 0xF0_0000 && ((p & 0x0F) << 12) | ((p & 0x3F00) >> 2) | ((p & 0x3F_0000) >> 16) == c
  {
  }

  lemma ThreeDecoded(c: bv32, p: bv32)
    requires 0x80_0000 <= p <= 0xF0_0000
    requires ((p & 0x0F) << 12) | ((p & 0x3F00) >> 2) | ((p & 0x3F_0000) >> 16) == c
    ensures Utf8ToUnicode(p) == c && GetMultibyteCharSize(p, Utf8) == 3
  {
  }

  lemma ThreeBytes(c: Scalar, p: bv32)
    requires 0x800 <= c < 0x1_0000
    requires p == (((c & 0x3F) | 0x80) << 16) | ((((c >> 6) & 0x3F) | 0x80) << 8) | (((c >> 12) & 0xF) | 0xE0)
    ensures Utf8Bytes(c) == Unpack(p, 3)
  {
  }

  lemma ThreeFacts(c: Scalar, p: bv32)
    requires 0x800 <= c < 0x1_0000 && p == UnicodeToUtf8(c)
    ensures Utf8Facts(c, p, 3)
  {
    ThreeEncoded(c, p);
    ThreeJoined(c, p);
    ThreeBack(c, p);
    ThreeDecoded(c, p);
    ThreeBytes(c, p);
    Pack3(p, Unpack(p, 3));
  }

  lemma FourEncoded(c: bv32, p: bv32)
    requires 0x1_0000 <= c < 0x11_0000 && p == UnicodeToUtf8(c)
    ensures p == (((c & 0x3F) | 0x80) << 24) + ((((c >> 6) & 0x3F) | 0x80) << 16)
                 + ((((c >> 12) & 0x3F) | 0x80) << 8) + (((c >> 18) & 0x7) | 0xF0)
  {
    assert !(c < 0x80) && !(c < 0x800) && !(c < 0x1_0000);
  }

  lemma FourJoined(c: bv32, p: bv32)
    requires p == (((c & 0x3F) | 0x80) << 24) + ((((c >> 6) & 0x3F) | 0x80) << 16)
                  + ((((c >> 12) & 0x3F) | 0x80) << 8) + (((c >> 18) & 0x7) | 0xF0)
    ensures p == (((c & 0x3F) | 0x80) << 24) | ((((c >> 6) & 0x3F) | 0x80) << 16)
                 | ((((c >> 12) & 0x3F) | 0x80) << 8) | (((c >> 18) & 0x7) | 0xF0)
  {
  }

  lemma FourBack(c: bv32, p: bv32)
    requires 0x1_0000 <= c < 0x11_0000
    requires p == (((c & 0x3F) | 0x80) << 24) | ((((c >> 6) & 0x3F) | 0x80) << 16)
                  | ((((c >> 12) & 0x3F) | 0x80) << 8) | (((c >> 18) & 0x7) | 0xF0)
    ensures p > 0xFF_FFFF
            && ((p & 0x07) << 18) | ((p & 0x3F00) << 4) | ((p & 0x3F_0000) >> 10) | ((p & 0x3F00_0000) >> 24) == c
  {
  }

  lemma FourDecoded(c: bv32, p: bv32)
    requires p > 0xFF_FFFF
    requires ((p & 0x07) << 18) | ((p & 0x3F00) << 4) | ((p & 0x3F_0000) >> 10) | ((p & 0x3F00_0000) >> 24) == c
    ensures Utf8ToUnicode(p) == c && GetMultibyteCharSize(p, Utf8) == 4
  {
  }

  lemma FourBytes(c: Scalar, p: bv32)
    requires 0x1_0000 <= c
    requires p == (((c & 0x3F) | 0x80) << 24) | ((((c >> 6) & 0x3F) | 0x80) << 16)
                  | ((((c >> 12) & 0x3F) | 0x80) << 8) | (((c >> 18) & 0x7) | 0xF0)
    ensures Utf8Bytes(c) == Unpack(p, 4)
  {
  }

  lemma FourFacts(c: Scalar, p: bv32)
    requires 0x1_0000 <= c && p == UnicodeToUtf8(c)
    ensures Utf8Facts(c, p, 4)
  {
    FourEncoded(c, p);
    FourJoined(c, p);
    FourBack(c, p);
    FourDecoded(c, p);
    FourBytes(c, p);
    Pack4(p, Unpack(p, 4));
  }

  lemma OneFacts(c: Scalar, p: bv32)
    requires c < 0x80 && p == UnicodeToUtf8(c)
    ensures Utf8Facts(c, p, 1)
  {
  }

  lemma Lead1(b: seq<Byte>, c: bv32)
    requires c < 0x80 && |b| >= 1 && b[0] == Low8(c)
    ensures Utf8CharSize(b) == 1
  {
  }

  lemma Lead2(b: seq<Byte>, c: bv32)
    requires 0x80 <= c < 0x800 && |b| >= 1 && b[0] == Low8(0xC0 | (c >> 6))
    ensures Utf8CharSize(b) == 2
  {
  }

  lemma Lead3(b: seq<Byte>, c: bv32)
    requires 0x800 <= c < 0x1_0000 && |b| >= 1 && b[0] == Low8(0xE0 | (c >> 12))
    ensures Utf8CharSize(b) == 3
  {
  }

  lemma Lead4(b: seq<Byte>, c: bv32)
    requires 0x1_0000 <= c < 0x11_0000 && |b| >= 1 && b[0] == Low8(0xF0 | (c >> 18))
    ensures Utf8CharSize(b) == 4
  {
  }
}
