/** Bytes and the words that hold them. */
module Packing {
  import opened Unicode
  import opened CharEncoding

  lemma Pack1(p: bv32, b: seq<Byte>)
    requires p <= 0xFF && |b| >= 1 && b[0] == Low8(p)
    ensures Pack(b, 1) == p
  {
  }

  lemma Pack2(p: bv32, b: seq<Byte>)
    requires p <= 0xFFFF && |b| >= 2 && b[0] == Low8(p) && b[1] == Low8(p >> 8)
    ensures Pack(b, 2) == p
  {
  }

  lemma Pack3(p: bv32, b: seq<Byte>)
    requires p <= 0xFF_FFFF && |b| >= 3
    requires b[0] == Low8(p) && b[1] == Low8(p >> 8) && b[2] == Low8(p >> 16)
    ensures Pack(b, 3) == p
  {
  }

  lemma Pack4(p: bv32, b: seq<Byte>)
    requires |b| >= 4
    requires b[0] == Low8(p) && b[1] == Low8(p >> 8) && b[2] == Low8(p >> 16) && b[3] == Low8(p >> 24)
    ensures Pack(b, 4) == p
  {
    Join4(p, b[0], b[1], b[2], b[3]);
  }

  lemma Join4(p: bv32, b0: Byte, b1: Byte, b2: Byte, b3: Byte)
    requires b0 == Low8(p) && b1 == Low8(p >> 8) && b2 == Low8(p >> 16) && b3 == Low8(p >> 24)
    ensures ((b3 as bv32) << 24) | ((b2 as bv32) << 16) | ((b1 as bv32) << 8) | (b0 as bv32) == p
  {
  }
}
