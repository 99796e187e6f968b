/** The character codecs of tinybase-encoding.c and tinybase-strings.c. A multibyte character is
    a 32-bit word that holds its bytes, the first one lowest. */
module CharEncoding {
  import opened Unicode

  function Utf8ToUnicode(c: bv32): bv32 {
    if c < 0x80 then c
    else if c < 0xFFFF then ((c & 0x1F) << 6) | ((c & 0x3F00) >> 8)
    else if c < 0xFF_FFFF then ((c & 0x0F) << 12) | ((c & 0x3F00) >> 2) | ((c & 0x3F_0000) >> 16)
    else ((c & 0x07) << 18) | ((c & 0x3F00) << 4) | ((c & 0x3F_0000) >> 10) | ((c & 0x3F00_0000) >> 24)
  }

  function UnicodeToUtf8(c: bv32): bv32 {
    if c < 0x80 then c
    else if c < 0x800 then
      (((c & 0x3F) | 0x80) << 8) + (((c >> 6) & 0x1F) | 0xC0)
    else if c < 0x1_0000 then
      (((c & 0x3F) | 0x80) << 16) + ((((c >> 6) & 0x3F) | 0x80) << 8) + (((c >> 12) & 0xF) | 0xE0)
    else
      (((c & 0x3F) | 0x80) << 24) + ((((c >> 6) & 0x3F) | 0x80) << 16)
      + ((((c >> 12) & 0x3F) | 0x80) << 8) + (((c >> 18) & 0x7) | 0xF0)
  }

  function Utf16ToUnicode(c: bv32): bv32 {
    if c > 0xFFFF then
      var a := ((c & 0xFFFF) - 0xD800) * 0x400;
      var b := ((c >> 16) & 0xFFFF) - 0xDC00;
      0x1_0000 + a + b
    else c
  }

  function UnicodeToUtf16(c: bv32): bv32 {
    if c > 0xFFFF then
      var d := c - 0x1_0000;
      var a := (d >> 10) + 0xD800;
      var b := (d & 0x3FF) + 0xDC00;
      (b << 16) + a
    else c
  }

  function DecodeChar(c: bv32, e: Encoding): bv32 {
    match e
    case Utf8 => Utf8ToUnicode(c)
    case Utf16LE => Utf16ToUnicode(c)
    case Utf16BE => Utf16ToUnicode(c)
    case _ => c
  }

  function EncodeChar(c: bv32, e: Encoding): bv32 {
    match e
    case Utf8 => UnicodeToUtf8(c)
    case Utf16LE => UnicodeToUtf16(c)
    case Utf16BE => UnicodeToUtf16(c)
    case _ => c
  }

  /** The size of a packed character, by its magnitude. */
  function GetMultibyteCharSize(c: bv32, e: Encoding): (n: nat)
    ensures 1 <= n <= 4
  {
    match e
    case Utf16LE => if c <= 0xFFFF then 2 else 4
    case Utf16BE => if c <= 0xFFFF then 2 else 4
    case Utf32LE => 4
    case Utf32BE => 4
    case _ => if c <= 0xFF then 1 else if c <= 0xFFFF then 2 else if c <= 0xFF_FFFF then 3 else 4
  }

  function Utf8CharSize(b: seq<Byte>): nat
    requires |b| >= 1
  {
    if b[0] <= 0x7F then 1
    else if b[0] >> 5 == 0x6 then 2
    else if b[0] >> 4 == 0xE then 3
    else if b[0] >> 3 == 0x1E then 4
    else 1
  }

  function Utf16CharSize(highByte: Byte): nat {
    if 0xD8 <= highByte < 0xE0 then 4 else 2
  }

  /** The bytes GetNextCharSize looks at. */
  predicate SizeReadable(b: seq<Byte>, e: Encoding) {
    |b| >= if e.Utf16LE? || e.Utf16BE? then 2 else 1
  }

  function GetNextCharSize(b: seq<Byte>, e: Encoding): (n: nat)
    requires SizeReadable(b, e)
    ensures 1 <= n <= 4
  {
    match e
    case Utf8 => Utf8CharSize(b)
    case Utf16LE => Utf16CharSize(b[1])
    case Utf16BE => Utf16CharSize(b[0])
    case Utf32LE => 4
    case Utf32BE => 4
    case Ascii => 1
  }

  function FlipEndian16(i: bv32): bv32 {
    ((i >> 8) & 0xFF) | ((i << 8) & 0xFF00)
  }

  function FlipEndian16x2(i: bv32): bv32 {
    FlipEndian16(i & 0xFFFF) | (FlipEndian16((i >> 16) & 0xFFFF) << 16)
  }

  function FlipEndian32(i: bv32): bv32 {
    ((i >> 24) & 0xFF) | ((i >> 8) & 0xFF00) | ((i << 8) & 0xFF_0000) | ((i << 24) & 0xFF00_0000)
  }

  function AdjustEndianness(c: bv32, e: Encoding): bv32 {
    if e == Utf16BE then FlipEndian16x2(c) else if e == Utf32BE then FlipEndian32(c) else c
  }

  /** The first `n` bytes as one word, first byte lowest. */
  function Pack(b: seq<Byte>, n: nat): bv32
    requires 1 <= n <= 4 && n <= |b|
  {
    match n
    case 1 => b[0] as bv32
    case 2 => ((b[1] as bv32) << 8) | (b[0] as bv32)
    case 3 => ((b[2] as bv32) << 16) | ((b[1] as bv32) << 8) | (b[0] as bv32)
    case 4 => ((b[3] as bv32) << 24) | ((b[2] as bv32) << 16) | ((b[1] as bv32) << 8) | (b[0] as bv32)
  }

  function GetNextChar(b: seq<Byte>, e: Encoding): bv32
    requires SizeReadable(b, e) && GetNextCharSize(b, e) <= |b|
  {
    AdjustEndianness(Pack(b, GetNextCharSize(b, e)), e)
  }

  /** The first `n` bytes of a packed character as a little-endian machine stores it. */
  function Unpack(p: bv32, n: nat): (b: seq<Byte>)
    requires 1 <= n <= 4
    ensures |b| == n
  {
    match n
    case 1 => [Low8(p)]
    case 2 => [Low8(p), Low8(p >> 8)]
    case 3 => [Low8(p), Low8(p >> 8), Low8(p >> 16)]
    case 4 => [Low8(p), Low8(p >> 8), Low8(p >> 16), Low8(p >> 24)]
  }

  /** The bytes `s` of a packed character in the order the text of encoding `e` has them. */
  function Ordered(s: seq<Byte>, e: Encoding): (b: seq<Byte>)
    requires (e.Utf16BE? ==> |s| == 2 || |s| == 4) && (e.Utf32BE? ==> |s| == 4)
    ensures |b| == |s|
  {
    if e.Utf16BE? then (if |s| == 2 then [s[1], s[0]] else [s[1], s[0], s[3], s[2]])
    else if e.Utf32BE? then [s[3], s[2], s[1], s[0]]
    else s
  }

  function Written(p: bv32, n: nat, e: Encoding): (b: seq<Byte>)
    requires 1 <= n <= 4 && (e.Utf16BE? ==> n == 2 || n == 4) && (e.Utf32BE? ==> n == 4)
    ensures |b| == n
  {
    Ordered(Unpack(p, n), e)
  }
}
