/** The encodings as their standards define them: UTF-8 in RFC 3629 sections 3 and 4, UTF-16 in
    RFC 2781 sections 2.1 and 3, UTF-32 in section 3.10 of the Unicode Standard. */
module Unicode {

  type Byte = bv8

  /** A Unicode scalar value: a code point that is not a surrogate. */
  type Scalar = c: bv32 | c < 0xD800 || 0xE000 <= c < 0x11_0000

  datatype Encoding = Ascii | Utf8 | Utf16LE | Utf16BE | Utf32LE | Utf32BE

  function Low8(x: bv32): Byte {
    (x & 0xFF) as bv8
  }

  /** RFC 3629 section 3. */
  function Utf8Bytes(c: Scalar): seq<Byte> {
    if c < 0x80 then
      [Low8(c)]
    else if c < 0x800 then
      [Low8(0xC0 | (c >> 6)), Low8(0x80 | (c & 0x3F))]
    else if c < 0x1_0000 then
      [Low8(0xE0 | (c >> 12)), Low8(0x80 | ((c >> 6) & 0x3F)), Low8(0x80 | (c & 0x3F))]
    else
      [Low8(0xF0 | (c >> 18)), Low8(0x80 | ((c >> 12) & 0x3F)),
       Low8(0x80 | ((c >> 6) & 0x3F)), Low8(0x80 | (c & 0x3F))]
  }

  /** RFC 2781 section 2.1: W1 takes the high and W2 the low ten bits of c - 0x10000. */
  function HighSurrogate(c: bv32): bv32 {
    0xD800 | (((c - 0x1_0000) >> 10) & 0x3FF)
  }

  function LowSurrogate(c: bv32): bv32 {
    0xDC00 | (c & 0x3FF)
  }

  function Octets16(w: bv32, bigEndian: bool): seq<Byte> {
    if bigEndian then [Low8(w >> 8), Low8(w)] else [Low8(w), Low8(w >> 8)]
  }

  function Utf16Bytes(c: Scalar, bigEndian: bool): seq<Byte> {
    if c < 0x1_0000 then Octets16(c, bigEndian)
    else Octets16(HighSurrogate(c), bigEndian) + Octets16(LowSurrogate(c), bigEndian)
  }

  function Utf32Bytes(c: Scalar, bigEndian: bool): seq<Byte> {
    if bigEndian then [Low8(c >> 24), Low8(c >> 16), Low8(c >> 8), Low8(c)]
    else [Low8(c), Low8(c >> 8), Low8(c >> 16), Low8(c >> 24)]
  }

  /** The bytes of one scalar value. ASCII has a byte for the first 128 only. */
  function Bytes(e: Encoding, c: Scalar): seq<Byte> {
    match e
    case Ascii => [Low8(c)]
    case Utf8 => Utf8Bytes(c)
    case Utf16LE => Utf16Bytes(c, false)
    case Utf16BE => Utf16Bytes(c, true)
    case Utf32LE => Utf32Bytes(c, false)
    case Utf32BE => Utf32Bytes(c, true)
  }

  predicate Encodable(e: Encoding, c: Scalar) {
    e == Ascii ==> c < 0x80
  }

  predicate AllEncodable(e: Encoding, cs: seq<Scalar>) {
    forall i :: 0 <= i < |cs| ==> Encodable(e, cs[i])
  }

  /** The concatenation of `f` over a sequence. */
  function Flatten<A>(f: A -> seq<Byte>, xs: seq<A>): seq<Byte> {
    if xs == [] then [] else f(xs[0]) + Flatten(f, xs[1..])
  }

  lemma {:induction false} FlattenConcat<A>(f: A -> seq<Byte>, xs: seq<A>, ys: seq<A>)
    ensures Flatten(f, xs + ys) == Flatten(f, xs) + Flatten(f, ys)
  {
    if xs == [] {
      assert xs + ys == ys;
    } else {
      assert (xs + ys)[1..] == xs[1..] + ys;
      FlattenConcat(f, xs[1..], ys);
    }
  }

  function Coder(e: Encoding): Scalar -> seq<Byte> {
    (c: Scalar) => Bytes(e, c)
  }

  /** The bytes of a text. */
  function Text(e: Encoding, cs: seq<Scalar>): seq<Byte> {
    Flatten(Coder(e), cs)
  }

  ghost predicate WellFormed(e: Encoding, b: seq<Byte>) {
    exists cs: seq<Scalar> :: AllEncodable(e, cs) && Text(e, cs) == b
  }

  /** The scalar values of a well-formed text. */
  ghost function Scalars(e: Encoding, b: seq<Byte>): (cs: seq<Scalar>)
    requires WellFormed(e, b)
    ensures AllEncodable(e, cs) && Text(e, cs) == b
  {
    var cs: seq<Scalar> :| AllEncodable(e, cs) && Text(e, cs) == b;
    cs
  }

  lemma TextConcat(e: Encoding, cs: seq<Scalar>, ds: seq<Scalar>)
    ensures Text(e, cs + ds) == Text(e, cs) + Text(e, ds)
  {
    FlattenConcat(Coder(e), cs, ds);
  }

  lemma TextOne(e: Encoding, c: Scalar)
    ensures Text(e, [c]) == Bytes(e, c)
  {
    assert Flatten(Coder(e), [c]) == Coder(e)(c) + Flatten(Coder(e), []);
  }

  /** A text splits into the text before character `k`, that character, and the text after it. */
  lemma TextAt(e: Encoding, cs: seq<Scalar>, k: nat)
    requires k < |cs|
    ensures Text(e, cs) == Text(e, cs[..k]) + (Bytes(e, cs[k]) + Text(e, cs[k + 1..]))
    ensures Text(e, cs[..k + 1]) == Text(e, cs[..k]) + Bytes(e, cs[k])
    ensures Text(e, cs[k..]) == Bytes(e, cs[k]) + Text(e, cs[k + 1..])
  {
    assert cs == cs[..k] + cs[k..] && cs[k..] == [cs[k]] + cs[k + 1..] && cs[..k + 1] == cs[..k] + [cs[k]];
    TextConcat(e, cs[..k], cs[k..]);
    TextConcat(e, [cs[k]], cs[k + 1..]);
    TextConcat(e, cs[..k], [cs[k]]);
    TextOne(e, cs[k]);
  }

  // ----- RFC 3629 section 4: the bytes of one character, by their ranges -----

  predicate Tail(b: Byte) {
    0x80 <= b <= 0xBF
  }

  predicate Utf8Char(b: seq<Byte>) {
    || (|b| == 1 && b[0] <= 0x7F)
    || (|b| == 2 && 0xC2 <= b[0] <= 0xDF && Tail(b[1]))
    || (|b| == 3 && Tail(b[1]) && Tail(b[2]) &&
        (  (b[0] == 0xE0 && 0xA0 <= b[1]) || 0xE1 <= b[0] <= 0xEC
        || (b[0] == 0xED && b[1] <= 0x9F) || 0xEE <= b[0] <= 0xEF))
    || (|b| == 4 && Tail(b[1]) && Tail(b[2]) && Tail(b[3]) &&
        (  (b[0] == 0xF0 && 0x90 <= b[1]) || 0xF1 <= b[0] <= 0xF3
        || (b[0] == 0xF4 && b[1] <= 0x8F)))
  }
}
