/** The byte ranges of RFC 3629 section 4 describe exactly the encodings of scalar values, so that
    well-formed text is text a caller can recognise byte by byte. */
module Utf8Grammar {
  import opened Unicode

  lemma Two(b0: Byte, b1: Byte, c: bv32)
    requires 0xC2 <= b0 <= 0xDF && Tail(b1) && c == (((b0 & 0x1F) as bv32) << 6) | ((b1 & 0x3F) as bv32)
    ensures 0x80 <= c < 0x800 && Low8(0xC0 | (c >> 6)) == b0 && Low8(0x80 | (c & 0x3F)) == b1
  {
  }

  lemma ThreeRange(b0: Byte, b1: Byte, b2: Byte, c: bv32)
    requires Utf8Char([b0, b1, b2])
    requires c == (((b0 & 0x0F) as bv32) << 12) | (((b1 & 0x3F) as bv32) << 6) | ((b2 & 0x3F) as bv32)
    ensures 0x800 <= c < 0xD800 || 0xE000 <= c < 0x1_0000
  {
  }

  lemma ThreeBytes(b0: Byte, b1: Byte, b2: Byte, c: bv32)
    requires 0xE0 <= b0 <= 0xEF && Tail(b1) && Tail(b2)
    requires c == (((b0 & 0x0F) as bv32) << 12) | (((b1 & 0x3F) as bv32) << 6) | ((b2 & 0x3F) as bv32)
    ensures Low8(0xE0 | (c >> 12)) == b0 && Low8(0x80 | ((c >> 6) & 0x3F)) == b1 && Low8(0x80 | (c & 0x3F)) == b2
  {
  }

  lemma FourRange(b0: Byte, b1: Byte, b2: Byte, b3: Byte, c: bv32)
    requires (b0 == 0xF0 && 0x90 <= b1 <= 0xBF) || (0xF1 <= b0 <= 0xF3 && Tail(b1)) || (b0 == 0xF4 && 0x80 <= b1 <= 0x8F)
    requires c == (((b0 & 0x07) as bv32) << 18) | (((b1 & 0x3F) as bv32) << 12)
                  | (((b2 & 0x3F) as bv32) << 6) | ((b3 & 0x3F) as bv32)
    ensures 0x1_0000 <= c < 0x11_0000
  {
  }

  lemma FourBytes(b0: Byte, b1: Byte, b2: Byte, b3: Byte, c: bv32)
    requires 0xF0 <= b0 <= 0xF4 && Tail(b1) && Tail(b2) && Tail(b3)
    requires c == (((b0 & 0x07) as bv32) << 18) | (((b1 & 0x3F) as bv32) << 12)
                  | (((b2 & 0x3F) as bv32) << 6) | ((b3 & 0x3F) as bv32)
    ensures Low8(0xF0 | (c >> 18)) == b0 && Low8(0x80 | ((c >> 12) & 0x3F)) == b1
    ensures Low8(0x80 | ((c >> 6) & 0x3F)) == b2 && Low8(0x80 | (c & 0x3F)) == b3
  {
  }

  ghost predicate Encodes(c: Scalar, b: seq<Byte>) {
    Utf8Bytes(c) == b
  }

  lemma OneFits(b0: Byte, c: bv32)
    requires b0 <= 0x7F && c == b0 as bv32
    ensures c < 0x80 && Encodes(c, [b0])
  {
  }

  lemma EncodesTwo(c: Scalar, b0: Byte, b1: Byte)
    requires 0x80 <= c < 0x800 && Low8(0xC0 | (c >> 6)) == b0 && Low8(0x80 | (c & 0x3F)) == b1
    ensures Encodes(c, [b0, b1])
  {
  }

  lemma TwoFits(b0: Byte, b1: Byte, c: bv32)
    requires 0xC2 <= b0 <= 0xDF && Tail(b1) && c == (((b0 & 0x1F) as bv32) << 6) | ((b1 & 0x3F) as bv32)
    ensures 0x80 <= c < 0x800 && Encodes(c, [b0, b1])
  {
    Two(b0, b1, c);
    EncodesTwo(c, b0, b1);
  }

  lemma EncodesThree(c: Scalar, b0: Byte, b1: Byte, b2: Byte)
    requires 0x800 <= c < 0x1_0000 && Low8(0xE0 | (c >> 12)) == b0
    requires Low8(0x80 | ((c >> 6) & 0x3F)) == b1 && Low8(0x80 | (c & 0x3F)) == b2
    ensures Encodes(c, [b0, b1, b2])
  {
  }

  lemma ThreeFits(b0: Byte, b1: Byte, b2: Byte, c: bv32)
    requires Utf8Char([b0, b1, b2])
    requires c == (((b0 & 0x0F) as bv32) << 12) | (((b1 & 0x3F) as bv32) << 6) | ((b2 & 0x3F) as bv32)
    ensures (0x800 <= c < 0xD800 || 0xE000 <= c < 0x1_0000) && Encodes(c, [b0, b1, b2])
  {
    ThreeRange(b0, b1, b2, c);
    ThreeBytes(b0, b1, b2, c);
    EncodesThree(c, b0, b1, b2);
  }

  lemma EncodesFour(c: Scalar, b0: Byte, b1: Byte, b2: Byte, b3: Byte)
    requires 0x1_0000 <= c && Low8(0xF0 | (c >> 18)) == b0 && Low8(0x80 | ((c >> 12) & 0x3F)) == b1
    requires Low8(0x80 | ((c >> 6) & 0x3F)) == b2 && Low8(0x80 | (c & 0x3F)) == b3
    ensures Encodes(c, [b0, b1, b2, b3])
  {
  }

  lemma FourFits(b0: Byte, b1: Byte, b2: Byte, b3: Byte, c: bv32)
    requires Utf8Char([b0, b1, b2, b3])
    requires c == (((b0 & 0x07) as bv32) << 18) | (((b1 & 0x3F) as bv32) << 12)
                  | (((b2 & 0x3F) as bv32) << 6) | ((b3 & 0x3F) as bv32)
    ensures 0x1_0000 <= c < 0x11_0000 && Encodes(c, [b0, b1, b2, b3])
  {
    FourRange(b0, b1, b2, b3, c);
    FourBytes(b0, b1, b2, b3, c);
    EncodesFour(c, b0, b1, b2, b3);
  }

  lemma OneInGrammar(c: bv32)
    requires c < 0x80
    ensures Utf8Char(Utf8Bytes(c))
  {
  }

  lemma TwoInGrammar(c: bv32)
    requires 0x80 <= c < 0x800
    ensures Utf8Char(Utf8Bytes(c))
  {
  }

  lemma ThreeInGrammar(c: bv32)
    requires 0x800 <= c < 0xD800 || 0xE000 <= c < 0x1_0000
    ensures Utf8Char(Utf8Bytes(c))
  {
  }

  lemma FourInGrammar(c: bv32)
    requires 0x1_0000 <= c < 0x11_0000
    ensures Utf8Char(Utf8Bytes(c))
  {
  }

  lemma ScalarInGrammar(c: Scalar)
    ensures Utf8Char(Utf8Bytes(c))
  {
    if c < 0x80 {
      OneInGrammar(c);
    } else if c < 0x800 {
      TwoInGrammar(c);
    } else if c < 0x1_0000 {
      ThreeInGrammar(c);
    } else {
      FourInGrammar(c);
    }
  }

  lemma GrammarHasScalar(b: seq<Byte>) returns (c: Scalar)
    requires Utf8Char(b)
    ensures Encodes(c, b)
  {
    if |b| == 1 {
      assert b == [b[0]];
      c := OneScalar(b[0]);
    } else if |b| == 2 {
      assert b == [b[0], b[1]];
      c := TwoScalar(b[0], b[1]);
    } else if |b| == 3 {
      assert b == [b[0], b[1], b[2]];
      c := ThreeScalar(b[0], b[1], b[2]);
    } else {
      assert b == [b[0], b[1], b[2], b[3]];
      c := FourScalar(b[0], b[1], b[2], b[3]);
    }
  }

  lemma OneScalar(b0: Byte) returns (c: Scalar)
    requires Utf8Char([b0])
    ensures Encodes(c, [b0])
  {
    var d := b0 as bv32;
    OneFits(b0, d);
    c := d;
  }

  lemma TwoScalar(b0: Byte, b1: Byte) returns (c: Scalar)
    requires Utf8Char([b0, b1])
    ensures Encodes(c, [b0, b1])
  {
    var d := (((b0 & 0x1F) as bv32) << 6) | ((b1 & 0x3F) as bv32);
    TwoFits(b0, b1, d);
    c := d;
  }

  lemma ThreeScalar(b0: Byte, b1: Byte, b2: Byte) returns (c: Scalar)
    requires Utf8Char([b0, b1, b2])
    ensures Encodes(c, [b0, b1, b2])
  {
    var d := (((b0 & 0x0F) as bv32) << 12) | (((b1 & 0x3F) as bv32) << 6) | ((b2 & 0x3F) as bv32);
    ThreeFits(b0, b1, b2, d);
    c := d;
  }

  lemma FourScalar(b0: Byte, b1: Byte, b2: Byte, b3: Byte) returns (c: Scalar)
    requires Utf8Char([b0, b1, b2, b3])
    ensures Encodes(c, [b0, b1, b2, b3])
  {
    var d := (((b0 & 0x07) as bv32) << 18) | (((b1 & 0x3F) as bv32) << 12)
             | (((b2 & 0x3F) as bv32) << 6) | ((b3 & 0x3F) as bv32);
    FourFits(b0, b1, b2, b3, d);
    c := d;
  }

  /** A byte sequence is one character by the grammar exactly when it encodes a scalar value. */
  lemma GrammarIsEncoding(b: seq<Byte>)
    ensures Utf8Char(b) <==> exists c: Scalar :: Encodes(c, b)
  {
    if Utf8Char(b) {
      var c := GrammarHasScalar(b);
    }
    if c: Scalar :| Encodes(c, b) {
      ScalarInGrammar(c);
    }
  }
}
