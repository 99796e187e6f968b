/** Every codec is correct on every scalar value. */
module CharCodec {
  import opened Unicode
  import opened CharEncoding
  import opened Packing
  import opened Utf8Codec
  import opened Utf16Codec

  // ----- one character of each encoding -----

  /** `p` is the packed form of `c`, of `n` bytes; `b` begins with the bytes of `c`. Reading gives
      `p`, decoding gives `c`, and writing `p` gives the bytes. */
  ghost predicate CharFacts(e: Encoding, c: Scalar, p: bv32, n: nat, b: seq<Byte>) {
    && 1 <= n <= 4 && n == |Bytes(e, c)| <= |b|
    && (e.Utf16BE? ==> n == 2 || n == 4) && (e.Utf32BE? ==> n == 4)
    && SizeReadable(b, e) && GetNextCharSize(b, e) == n && GetNextChar(b, e) == p
    && GetMultibyteCharSize(p, e) == n && DecodeChar(p, e) == c && Written(p, n, e) == Bytes(e, c)
  }

  ghost predicate StartsWith(b: seq<Byte>, a: seq<Byte>) {
    |a| <= |b| && forall i :: 0 <= i < |a| ==> b[i] == a[i]
  }

  lemma AsciiChar(c: Scalar, p: bv32, b: seq<Byte>)
    requires c < 0x80 && p == c && StartsWith(b, Bytes(Ascii, c))
    ensures CharFacts(Ascii, c, p, 1, b)
  {
    Pack1(p, b);
  }

  lemma Utf8Char1(c: Scalar, p: bv32, b: seq<Byte>)
    requires c < 0x80 && p == UnicodeToUtf8(c) && StartsWith(b, Utf8Bytes(c))
    ensures CharFacts(Utf8, c, p, 1, b)
  {
    OneFacts(c, p);
    Lead1(b, c);
    Pack1(p, b);
  }

  lemma Utf8Char2(c: Scalar, p: bv32, b: seq<Byte>)
    requires 0x80 <= c < 0x800 && p == UnicodeToUtf8(c) && StartsWith(b, Utf8Bytes(c))
    ensures CharFacts(Utf8, c, p, 2, b)
  {
    TwoFacts(c, p);
    Lead2(b, c);
    PackSame(b, Utf8Bytes(c), 2);
  }

  lemma Utf8Char3(c: Scalar, p: bv32, b: seq<Byte>)
    requires 0x800 <= c < 0x1_0000 && p == UnicodeToUtf8(c) && StartsWith(b, Utf8Bytes(c))
    ensures CharFacts(Utf8, c, p, 3, b)
  {
    ThreeFacts(c, p);
    Lead3(b, c);
    PackSame(b, Utf8Bytes(c), 3);
  }

  lemma Utf8Char4(c: Scalar, p: bv32, b: seq<Byte>)
    requires 0x1_0000 <= c && p == UnicodeToUtf8(c) && StartsWith(b, Utf8Bytes(c))
    ensures CharFacts(Utf8, c, p, 4, b)
  {
    FourFacts(c, p);
    Lead4(b, c);
    PackSame(b, Utf8Bytes(c), 4);
  }

  lemma PackSame(b: seq<Byte>, a: seq<Byte>, n: nat)
    requires 1 <= n <= 4 && |a| == n && StartsWith(b, a)
    ensures Pack(b, n) == Pack(a, n)
  {
  }

  lemma PairBytes(p: bv32, h: bv32, l: bv32)
    requires p & 0xFFFF == h && (p >> 16) & 0xFFFF == l
    ensures Low8(p) == Low8(h) && Low8(p >> 8) == Low8(h >> 8)
    ensures Low8(p >> 16) == Low8(l) && Low8(p >> 24) == Low8(l >> 8)
  {
  }

  lemma PackSwapped2(p: bv32, b: seq<Byte>, x: bv32)
    requires |b| >= 2 && b[0] == Low8(p >> 8) && b[1] == Low8(p) && x == Pack(b, 2)
    ensures x == ((p & 0xFF) << 8) | ((p >> 8) & 0xFF)
  {
  }

  lemma FlipUnfolded(x: bv32)
    ensures FlipEndian16x2(x) ==
              (((x & 0xFFFF) >> 8) & 0xFF) | (((x & 0xFFFF) << 8) & 0xFF00)
              | ((((((x >> 16) & 0xFFFF) >> 8) & 0xFF) | ((((x >> 16) & 0xFFFF) << 8) & 0xFF00)) << 16)
  {
  }

  lemma SwappedBits2(p: bv32, x: bv32)
    requires p <= 0xFFFF && x == ((p & 0xFF) << 8) | ((p >> 8) & 0xFF)
    ensures (((x & 0xFFFF) >> 8) & 0xFF) | (((x & 0xFFFF) << 8) & 0xFF00)
            | ((((((x >> 16) & 0xFFFF) >> 8) & 0xFF) | ((((x >> 16) & 0xFFFF) << 8) & 0xFF00)) << 16) == p
  {
  }

  lemma FlipSwapped2(p: bv32, x: bv32)
    requires p <= 0xFFFF && x == ((p & 0xFF) << 8) | ((p >> 8) & 0xFF)
    ensures FlipEndian16x2(x) == p
  {
    FlipUnfolded(x);
    SwappedBits2(p, x);
  }

  lemma Read2BE(p: bv32, b: seq<Byte>, x: bv32)
    requires p <= 0xFFFF && |b| >= 2 && b[0] == Low8(p >> 8) && b[1] == Low8(p) && x == Pack(b, 2)
    ensures FlipEndian16x2(x) == p
  {
    PackSwapped2(p, b, x);
    FlipSwapped2(p, x);
  }

  lemma PackSwapped4(p: bv32, b: seq<Byte>, x: bv32)
    requires |b| >= 4 && x == Pack(b, 4)
    requires b[0] == Low8(p >> 8) && b[1] == Low8(p) && b[2] == Low8(p >> 24) && b[3] == Low8(p >> 16)
    ensures x == (((p >> 16) & 0xFF) << 24) | (((p >> 24) & 0xFF) << 16) | ((p & 0xFF) << 8) | ((p >> 8) & 0xFF)
  {
  }

  lemma FlipSwapped4(p: bv32, x: bv32)
    requires x == (((p >> 16) & 0xFF) << 24) | (((p >> 24) & 0xFF) << 16) | ((p & 0xFF) << 8) | ((p >> 8) & 0xFF)
    ensures FlipEndian16x2(x) == p
  {
  }

  lemma Read4BE(p: bv32, b: seq<Byte>, x: bv32)
    requires |b| >= 4 && x == Pack(b, 4)
    requires b[0] == Low8(p >> 8) && b[1] == Low8(p) && b[2] == Low8(p >> 24) && b[3] == Low8(p >> 16)
    ensures FlipEndian16x2(x) == p
  {
    PackSwapped4(p, b, x);
    FlipSwapped4(p, x);
  }

  lemma PackReversed(p: bv32, b: seq<Byte>, x: bv32)
    requires |b| >= 4 && x == Pack(b, 4)
    requires b[0] == Low8(p >> 24) && b[1] == Low8(p >> 16) && b[2] == Low8(p >> 8) && b[3] == Low8(p)
    ensures x == ((p & 0xFF) << 24) | (((p >> 8) & 0xFF) << 16) | (((p >> 16) & 0xFF) << 8) | ((p >> 24) & 0xFF)
  {
  }

  lemma FlipReversed(p: bv32, x: bv32)
    requires x == ((p & 0xFF) << 24) | (((p >> 8) & 0xFF) << 16) | (((p >> 16) & 0xFF) << 8) | ((p >> 24) & 0xFF)
    ensures FlipEndian32(x) == p
  {
  }

  lemma ReadReversed(p: bv32, b: seq<Byte>, x: bv32)
    requires |b| >= 4 && x == Pack(b, 4)
    requires b[0] == Low8(p >> 24) && b[1] == Low8(p >> 16) && b[2] == Low8(p >> 8) && b[3] == Low8(p)
    ensures FlipEndian32(x) == p
  {
    PackReversed(p, b, x);
    FlipReversed(p, x);
  }

  lemma UnitDecoded(c: bv32, p: bv32)
    requires c < 0x1_0000 && p == UnicodeToUtf16(c)
    ensures p == c && p <= 0xFFFF && Utf16ToUnicode(p) == c
  {
  }

  lemma Utf16LEUnit(c: Scalar, p: bv32, b: seq<Byte>)
    requires c < 0x1_0000 && p == UnicodeToUtf16(c) && StartsWith(b, Utf16Bytes(c, false))
    ensures CharFacts(Utf16LE, c, p, 2, b)
  {
    UnitDecoded(c, p);
    UnitSize(b[1], c);
    Pack2(p, b);
  }

  lemma Utf16BEUnit(c: Scalar, p: bv32, b: seq<Byte>)
    requires c < 0x1_0000 && p == UnicodeToUtf16(c) && StartsWith(b, Utf16Bytes(c, true))
    ensures CharFacts(Utf16BE, c, p, 2, b)
  {
    UnitDecoded(c, p);
    UnitSize(b[0], c);
    Read2BE(p, b, Pack(b, 2));
  }

  lemma PairSize(high: Byte, h: bv32, k: bv32)
    requires k <= 0x3FF && h == k + 0xD800 && high == Low8(h >> 8)
    ensures Utf16CharSize(high) == 4
  {
  }

  /** The four bytes of a surrogate pair are those of its packed form. */
  lemma PairText(c: Scalar, p: bv32, k: bv32)
    requires 0x1_0000 <= c && p == UnicodeToUtf16(c) && k == (c - 0x1_0000) >> 10
    ensures p > 0xFFFF && Utf16ToUnicode(p) == c
    ensures Utf16Bytes(c, false) == [Low8(p), Low8(p >> 8), Low8(p >> 16), Low8(p >> 24)]
    ensures Utf16Bytes(c, true) == [Low8(p >> 8), Low8(p), Low8(p >> 24), Low8(p >> 16)]
    ensures Utf16CharSize(Low8(p >> 8)) == 4
  {
    var h, l := HighSurrogate(c), LowSurrogate(c);
    PairFacts(c, p, k, (c - 0x1_0000) & 0x3FF);
    PairBytes(p, h, l);
    PairSize(Low8(h >> 8), h, k);
  }

  lemma FourBytesOf(b: seq<Byte>, b0: Byte, b1: Byte, b2: Byte, b3: Byte)
    requires StartsWith(b, [b0, b1, b2, b3])
    ensures |b| >= 4 && b[0] == b0 && b[1] == b1 && b[2] == b2 && b[3] == b3
  {
    assert [b0, b1, b2, b3][1] == b1 && [b0, b1, b2, b3][2] == b2 && [b0, b1, b2, b3][3] == b3;
  }

  /** Assembling the facts of a four-byte character from its parts. */
  lemma FourByteFacts(e: Encoding, c: Scalar, p: bv32, b: seq<Byte>)
    requires e.Utf16LE? || e.Utf16BE? || e.Utf32LE? || e.Utf32BE?
    requires |b| >= 4 && |Bytes(e, c)| == 4
    requires GetNextCharSize(b, e) == 4 && AdjustEndianness(Pack(b, 4), e) == p
    requires GetMultibyteCharSize(p, e) == 4 && DecodeChar(p, e) == c && Written(p, 4, e) == Bytes(e, c)
    ensures CharFacts(e, c, p, 4, b)
  {
  }

  lemma Written4(p: bv32)
    ensures Written(p, 4, Utf16LE) == [Low8(p), Low8(p >> 8), Low8(p >> 16), Low8(p >> 24)] == Written(p, 4, Utf32LE)
    ensures Written(p, 4, Utf16BE) == [Low8(p >> 8), Low8(p), Low8(p >> 24), Low8(p >> 16)]
    ensures Written(p, 4, Utf32BE) == [Low8(p >> 24), Low8(p >> 16), Low8(p >> 8), Low8(p)]
  {
  }

  lemma Utf16LEPair(c: Scalar, p: bv32, b: seq<Byte>)
    requires 0x1_0000 <= c && p == UnicodeToUtf16(c) && StartsWith(b, Utf16Bytes(c, false))
    ensures CharFacts(Utf16LE, c, p, 4, b)
  {
    PairText(c, p, (c - 0x1_0000) >> 10);
    FourBytesOf(b, Low8(p), Low8(p >> 8), Low8(p >> 16), Low8(p >> 24));
    Pack4(p, b);
    Written4(p);
    FourByteFacts(Utf16LE, c, p, b);
  }

  lemma Utf16BEPair(c: Scalar, p: bv32, b: seq<Byte>)
    requires 0x1_0000 <= c && p == UnicodeToUtf16(c) && StartsWith(b, Utf16Bytes(c, true))
    ensures CharFacts(Utf16BE, c, p, 4, b)
  {
    PairText(c, p, (c - 0x1_0000) >> 10);
    FourBytesOf(b, Low8(p >> 8), Low8(p), Low8(p >> 24), Low8(p >> 16));
    Read4BE(p, b, Pack(b, 4));
    Written4(p);
    FourByteFacts(Utf16BE, c, p, b);
  }

  lemma Utf32LERead(p: bv32, b: seq<Byte>)
    requires StartsWith(b, [Low8(p), Low8(p >> 8), Low8(p >> 16), Low8(p >> 24)])
    ensures |b| >= 4 && Pack(b, 4) == p
  {
    FourBytesOf(b, Low8(p), Low8(p >> 8), Low8(p >> 16), Low8(p >> 24));
    Pack4(p, b);
  }

  lemma Utf32LEWritten(p: Scalar)
    ensures Written(p, 4, Utf32LE) == Utf32Bytes(p, false) && |Utf32Bytes(p, false)| == 4
  {
  }

  lemma Utf32LEChar(c: Scalar, p: bv32, b: seq<Byte>)
    requires p == c && StartsWith(b, Utf32Bytes(c, false))
    ensures CharFacts(Utf32LE, c, p, 4, b)
  {
    Utf32LERead(p, b);
    Utf32LEWritten(p);
    FourByteFacts(Utf32LE, c, p, b);
  }

  lemma Utf32BERead(p: bv32, b: seq<Byte>)
    requires StartsWith(b, [Low8(p >> 24), Low8(p >> 16), Low8(p >> 8), Low8(p)])
    ensures |b| >= 4 && FlipEndian32(Pack(b, 4)) == p
  {
    FourBytesOf(b, Low8(p >> 24), Low8(p >> 16), Low8(p >> 8), Low8(p));
    ReadReversed(p, b, Pack(b, 4));
  }

  lemma Utf32BEWritten(p: Scalar)
    ensures Written(p, 4, Utf32BE) == Utf32Bytes(p, true) && |Utf32Bytes(p, true)| == 4
  {
  }

  lemma Utf32BEChar(c: Scalar, p: bv32, b: seq<Byte>)
    requires p == c && StartsWith(b, Utf32Bytes(c, true))
    ensures CharFacts(Utf32BE, c, p, 4, b)
  {
    Utf32BERead(p, b);
    Utf32BEWritten(p);
    FourByteFacts(Utf32BE, c, p, b);
  }

  /** All six encodings: packing, sizing, decoding, reading and writing one character agree with the
      standards on every scalar value the encoding has. */
  lemma CharCorrect(e: Encoding, c: Scalar, b: seq<Byte>)
    requires Encodable(e, c) && StartsWith(b, Bytes(e, c))
    ensures CharFacts(e, c, EncodeChar(c, e), |Bytes(e, c)|, b)
  {
    var p := EncodeChar(c, e);
    match e
    case Ascii => AsciiChar(c, p, b);
    case Utf8 =>
      if c < 0x80 {
        Utf8Char1(c, p, b);
      } else if c < 0x800 {
        Utf8Char2(c, p, b);
      } else if c < 0x1_0000 {
        Utf8Char3(c, p, b);
      } else {
        Utf8Char4(c, p, b);
      }
    case Utf16LE => if c < 0x1_0000 { Utf16LEUnit(c, p, b); } else { Utf16LEPair(c, p, b); }
    case Utf16BE => if c < 0x1_0000 { Utf16BEUnit(c, p, b); } else { Utf16BEPair(c, p, b); }
    case Utf32LE => Utf32LEChar(c, p, b);
    case Utf32BE => Utf32BEChar(c, p, b);
  }

  // ----- encoding after decoding -----

  lemma SameTwo(p: bv32, q: bv32)
    requires p <= 0xFFFF && q <= 0xFFFF && Low8(p) == Low8(q) && Low8(p >> 8) == Low8(q >> 8)
    ensures p == q
  {
  }

  lemma SameThree(p: bv32, q: bv32)
    requires p <= 0xFF_FFFF && q <= 0xFF_FFFF
    requires Low8(p) == Low8(q) && Low8(p >> 8) == Low8(q >> 8) && Low8(p >> 16) == Low8(q >> 16)
    ensures p == q
  {
  }

  lemma SameFour(p: bv32, q: bv32)
    requires Low8(p) == Low8(q) && Low8(p >> 8) == Low8(q >> 8)
    requires Low8(p >> 16) == Low8(q >> 16) && Low8(p >> 24) == Low8(q >> 24)
    ensures p == q
  {
  }

  lemma SameOne(p: bv32, q: bv32)
    requires p <= 0xFF && q <= 0xFF && Low8(p) == Low8(q)
    ensures p == q
  {
  }

  lemma UnpackInjective(p: bv32, q: bv32, n: nat)
    requires 1 <= n <= 4 && Unpack(p, n) == Unpack(q, n)
    requires (n == 1 ==> p <= 0xFF && q <= 0xFF) && (n == 2 ==> p <= 0xFFFF && q <= 0xFFFF)
    requires n == 3 ==> p <= 0xFF_FFFF && q <= 0xFF_FFFF
    ensures p == q
  {
    var a, b := Unpack(p, n), Unpack(q, n);
    assert forall i :: 0 <= i < n ==> a[i] == b[i];
    match n
    case 1 =>
      assert a[0] == b[0];
      SameOne(p, q);
    case 2 =>
      assert a[0] == b[0] && a[1] == b[1];
      SameTwo(p, q);
    case 3 =>
      assert a[0] == b[0] && a[1] == b[1] && a[2] == b[2];
      SameThree(p, q);
    case 4 =>
      assert a[0] == b[0] && a[1] == b[1] && a[2] == b[2] && a[3] == b[3];
      SameFour(p, q);
  }

  lemma OrderedInjective(a: seq<Byte>, b: seq<Byte>, e: Encoding)
    requires |a| == |b| && (e.Utf16BE? ==> |a| == 2 || |a| == 4) && (e.Utf32BE? ==> |a| == 4)
    requires Ordered(a, e) == Ordered(b, e)
    ensures a == b
  {
  }

  /** A packed character whose bytes are those of a scalar value decodes to that value, and encoding
      the value gives the packed character back. */
  lemma PackedRoundTrip(e: Encoding, c: Scalar, p: bv32)
    requires Encodable(e, c) && Written(p, GetMultibyteCharSize(p, e), e) == Bytes(e, c)
    ensures DecodeChar(p, e) == c && EncodeChar(DecodeChar(p, e), e) == p
  {
    var q, n := EncodeChar(c, e), GetMultibyteCharSize(p, e);
    CharCorrect(e, c, Bytes(e, c));
    OrderedInjective(Unpack(p, n), Unpack(q, n), e);
    UnpackInjective(p, q, n);
  }
}
