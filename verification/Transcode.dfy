/** Transcode of tinybase-strings.c and tinybase-encoding.c, and the code-point lengths. */
module Transcoding {
  import opened Unicode
  import opened CharEncoding
  import opened CharCodec
  import Memory

  // ----- texts -----

  /** The text that is left when `k` characters have been read. */
  lemma TextFrom(e: Encoding, cs: seq<Scalar>, k: nat)
    requires k <= |cs|
    ensures |Text(e, cs[..k])| <= |Text(e, cs)|
    ensures Text(e, cs)[|Text(e, cs[..k])|..] == Text(e, cs[k..])
    ensures k < |cs| ==> StartsWith(Text(e, cs[k..]), Bytes(e, cs[k]))
    ensures k < |cs| ==> Text(e, cs[..k + 1]) == Text(e, cs[..k]) + Bytes(e, cs[k])
  {
    assert cs == cs[..k] + cs[k..];
    TextConcat(e, cs[..k], cs[k..]);
    if k < |cs| {
      TextAt(e, cs, k);
    }
  }

  lemma CharSizes(e: Encoding, c: Scalar)
    requires Encodable(e, c)
    ensures 1 <= |Bytes(e, c)| <= 4
  {
  }

  /** The scalar value the code reads at the start of `b`. */
  function NextScalar(b: seq<Byte>, e: Encoding): bv32
    requires SizeReadable(b, e) && GetNextCharSize(b, e) <= |b|
  {
    DecodeChar(GetNextChar(b, e), e)
  }

  lemma ReadsBack(e: Encoding, c: Scalar, b: seq<Byte>)
    requires Encodable(e, c) && StartsWith(b, Bytes(e, c))
    ensures SizeReadable(b, e) && GetNextCharSize(b, e) == |Bytes(e, c)| && NextScalar(b, e) == c
  {
    CharCorrect(e, c, b);
  }

  /** What the code reads at the start of a text, and what it leaves. */
  lemma ReadsHead(e: Encoding, cs: seq<Scalar>, b: seq<Byte>)
    requires AllEncodable(e, cs) && cs != [] && b == Text(e, cs)
    ensures SizeReadable(b, e) && GetNextCharSize(b, e) <= |b| && NextScalar(b, e) == cs[0]
    ensures b[GetNextCharSize(b, e)..] == Text(e, cs[1..]) && b != []
  {
    TextAt(e, cs, 0);
    assert cs[..0] == [] && cs[0..] == cs;
    CharSizes(e, cs[0]);
    ReadsBack(e, cs[0], b);
  }

  /** A text has one reading only. */
  lemma {:induction false} TextInjective(e: Encoding, cs: seq<Scalar>, ds: seq<Scalar>)
    requires AllEncodable(e, cs) && AllEncodable(e, ds) && Text(e, cs) == Text(e, ds)
    ensures cs == ds
  {
    var b := Text(e, cs);
    if cs != [] {
      ReadsHead(e, cs, b);
    }
    if ds != [] {
      ReadsHead(e, ds, b);
    }
    if cs != [] && ds != [] {
      TextInjective(e, cs[1..], ds[1..]);
      assert cs == [cs[0]] + cs[1..] && ds == [ds[0]] + ds[1..];
    }
  }

  lemma EmptyText(e: Encoding, cs: seq<Scalar>)
    requires AllEncodable(e, cs)
    ensures Text(e, cs) == [] <==> cs == []
  {
  }

  // ----- Transcode -----

  /** A writable `string`: `size` bytes of `base` are usable and `writeCur` of them are written. */
  class String {
    var base: array<Byte>
    var writeCur: nat
    var size: nat
    const enc: Encoding

    ghost predicate Valid()
      reads this
    {
      writeCur <= size <= base.Length
    }

    constructor (base: array<Byte>, writeCur: nat, size: nat, enc: Encoding)
      requires writeCur <= size <= base.Length
      ensures Valid() && this.base == base && this.writeCur == writeCur && this.size == size && this.enc == enc
    {
      this.base := base;
      this.writeCur := writeCur;
      this.size := size;
      this.enc := enc;
    }

    /** AppendDataToBuffer and AppendBufferToBuffer. */
    method AppendData(s: seq<Byte>) returns (ok: bool)
      requires Valid()
      modifies this`writeCur, base
      ensures Valid()
      ensures ok <==> old(writeCur) + |s| <= size
      ensures ok ==> base[..writeCur] == old(base[..writeCur]) + s
      ensures !ok ==> writeCur == old(writeCur) && base[..] == old(base[..])
      ensures base[writeCur..] == old(base[..])[writeCur..]
    {
      ok := Memory.CopyData(base, writeCur, size - writeCur, s);
      if ok {
        writeCur := writeCur + |s|;
        assert base[..writeCur] == base[..][..writeCur];
      }
    }

    /** The bytes `s` have been stored from `at` on and nothing else has changed. */
    twostate predicate Stored(at: nat, s: seq<Byte>)
      reads this, base
    {
      && base == old(base) && at + |s| <= base.Length
      && (forall i :: 0 <= i < |s| ==> base[at + i] == s[i])
      && (forall i :: 0 <= i < at || at + |s| <= i < base.Length ==> base[i] == old(base[i]))
    }

    method PutInOrder(s: seq<Byte>)
      requires 1 <= |s| <= 4 && writeCur + |s| <= base.Length
      modifies base
      ensures Stored(writeCur, s)
    {
      base[writeCur] := s[0];
      if |s| > 1 {
        base[writeCur + 1] := s[1];
      }
      if |s| > 2 {
        base[writeCur + 2] := s[2];
      }
      if |s| > 3 {
        base[writeCur + 3] := s[3];
      }
    }

    method PutSwapped(s: seq<Byte>)
      requires (|s| == 2 || |s| == 4) && writeCur + |s| <= base.Length
      modifies base
      ensures Stored(writeCur, Ordered(s, Utf16BE))
    {
      base[writeCur], base[writeCur + 1] := s[1], s[0];
      if |s| == 4 {
        base[writeCur + 2], base[writeCur + 3] := s[3], s[2];
      }
    }

    method PutReversed(s: seq<Byte>)
      requires |s| == 4 && writeCur + |s| <= base.Length
      modifies base
      ensures Stored(writeCur, Ordered(s, Utf32BE))
    {
      base[writeCur], base[writeCur + 1] := s[3], s[2];
      base[writeCur + 2], base[writeCur + 3] := s[1], s[0];
    }

    /** The switches at the end of the three transcoding loops: the bytes `s` of a packed character
        go to `writeCur`, in the order of `enc`. */
    method PutOrdered(s: seq<Byte>)
      requires 1 <= |s| <= 4 && (enc.Utf16BE? ==> |s| == 2 || |s| == 4) && (enc.Utf32BE? ==> |s| == 4)
      requires writeCur + |s| <= base.Length
      modifies base
      ensures Stored(writeCur, Ordered(s, enc))
    {
      if enc.Utf16BE? {
        PutSwapped(s);
      } else if enc.Utf32BE? {
        PutReversed(s);
      } else {
        PutInOrder(s);
      }
    }

    method PutChar(s: seq<Byte>)
      requires 1 <= |s| <= 4 && (enc.Utf16BE? ==> |s| == 2 || |s| == 4) && (enc.Utf32BE? ==> |s| == 4)
      requires writeCur + |s| <= base.Length
      modifies this`writeCur, base
      ensures writeCur == old(writeCur) + |s| && base == old(base)
      ensures base[old(writeCur)..writeCur] == Ordered(s, enc)
      ensures forall i :: 0 <= i < old(writeCur) || writeCur <= i < base.Length ==> base[i] == old(base[i])
    {
      PutOrdered(s);
      writeCur := writeCur + |s|;
    }

    /** The transcoding loop on the text of `cs`. */
    method Append(src: seq<Byte>, from: Encoding, ghost cs: seq<Scalar>) returns (ok: bool)
      requires Valid() && src == Text(from, cs) && AllEncodable(from, cs) && AllEncodable(enc, cs)
      modifies this`writeCur, base
      ensures Valid()
      ensures ok <==> old(writeCur) + |Text(enc, cs)| <= size
      ensures ok ==> writeCur == old(writeCur) + |Text(enc, cs)| && base[old(writeCur)..writeCur] == Text(enc, cs)
      ensures !ok ==> writeCur == old(writeCur)
      ensures forall i :: 0 <= i < old(writeCur) || size <= i < base.Length ==> base[i] == old(base[i])
    {
      var start := writeCur;
      var at := 0;
      ghost var k := 0;
      ghost var out := [];
      assert cs[..0] == [];
      while at < |src|
        invariant 0 <= k <= |cs| && at == |Text(from, cs[..k])| <= |src|
        invariant out == Text(enc, cs[..k]) && writeCur == start + |out| <= size
        invariant base[start..writeCur] == out
        invariant forall i :: 0 <= i < start || size <= i < base.Length ==> base[i] == old(base[i])
        decreases |cs| - k
      {
        var packedSize, encoded := Recode(src, at, from, enc, cs, k);
        if writeCur + |encoded| <= size {
          ghost var w := writeCur;
          PutChar(encoded);
          assert base[start..w] == out;
          assert base[start..writeCur] == base[start..w] + base[w..writeCur];
          at := at + packedSize;
          k := k + 1;
          out := out + Ordered(encoded, enc);
        } else {
          writeCur := start;
          TextFrom(enc, cs, k + 1);
          return false;
        }
      }
      WholeText(from, cs, k);
      return true;
    }

    /** Transcode: appends `src`, a text in `from`, in the encoding of this string. */
    method Transcode(src: seq<Byte>, from: Encoding) returns (ok: bool)
      requires Valid() && WellFormed(from, src) && AllEncodable(enc, Scalars(from, src))
      modifies this`writeCur, base
      ensures Valid() && base == old(base)
      ensures ok <==> old(writeCur) + |Text(enc, Scalars(from, src))| <= size
      ensures ok ==> base[..writeCur] == old(base[..writeCur]) + Text(enc, Scalars(from, src))
      ensures !ok ==> writeCur == old(writeCur)
      ensures base[..old(writeCur)] == old(base[..writeCur])
      ensures forall i :: size <= i < base.Length ==> base[i] == old(base[i])
    {
      ghost var start := writeCur;
      ok := Append(src, from, Scalars(from, src));
      assert base[..writeCur] == base[..start] + base[start..writeCur];
    }
  }

  /** The reading half of one turn of the loop: the size of the next packed character and the bytes
      of the same character packed in the encoding `to`. */
  method Recode(src: seq<Byte>, at: nat, from: Encoding, to: Encoding, ghost cs: seq<Scalar>, ghost k: nat)
      returns (packedSize: nat, encoded: seq<Byte>)
    requires AllEncodable(from, cs) && AllEncodable(to, cs) && k <= |cs| && src == Text(from, cs)
    requires at == |Text(from, cs[..k])| < |src|
    ensures k < |cs| && |Text(from, cs[..k + 1])| == at + packedSize <= |src|
    ensures 1 <= |encoded| <= 4
    ensures (to.Utf16BE? ==> |encoded| == 2 || |encoded| == 4) && (to.Utf32BE? ==> |encoded| == 4)
    ensures Text(to, cs[..k + 1]) == Text(to, cs[..k]) + Ordered(encoded, to)
  {
    RecodesChar(from, to, cs, k, src);
    var packed := GetNextChar(src[at..], from);
    packedSize := GetMultibyteCharSize(packed, from);
    var reencoded := EncodeChar(DecodeChar(packed, from), to);
    encoded := Unpack(reencoded, GetMultibyteCharSize(reencoded, to));
  }

  /** One turn of the loop reads character `k` and has the bytes of the same character to write. */
  lemma RecodesChar(from: Encoding, to: Encoding, cs: seq<Scalar>, k: nat, src: seq<Byte>)
    requires AllEncodable(from, cs) && AllEncodable(to, cs) && k <= |cs| && src == Text(from, cs)
    requires |Text(from, cs[..k])| < |src|
    ensures k < |cs|
    ensures var b := src[|Text(from, cs[..k])|..];
            && SizeReadable(b, from) && GetNextCharSize(b, from) <= |b|
            && var packed := GetNextChar(b, from);
            var n := GetMultibyteCharSize(packed, from);
            var encoded := EncodeChar(DecodeChar(packed, from), to);
            var m := GetMultibyteCharSize(encoded, to);
            && |Text(from, cs[..k + 1])| == |Text(from, cs[..k])| + n <= |src|
            && (to.Utf16BE? ==> m == 2 || m == 4) && (to.Utf32BE? ==> m == 4)
            && Text(to, cs[..k + 1]) == Text(to, cs[..k]) + Ordered(Unpack(encoded, m), to)
  {
    assert cs[..|cs|] == cs;
    TextFrom(from, cs, k);
    TextFrom(from, cs, k + 1);
    TextFrom(to, cs, k);
    var b := src[|Text(from, cs[..k])|..];
    CharCorrect(from, cs[k], b);
    CharCorrect(to, cs[k], Bytes(to, cs[k]));
  }

  lemma WholeText(e: Encoding, cs: seq<Scalar>, k: nat)
    requires AllEncodable(e, cs) && k <= |cs| && |Text(e, cs[..k])| == |Text(e, cs)|
    ensures cs[..k] == cs
  {
    if k < |cs| {
      TextFrom(e, cs, k);
      CharSizes(e, cs[k]);
    }
  }

  // ----- round trips -----

  /** `b'` is what a successful Transcode of `b` from `e` into an empty string in `e'` leaves there. */
  ghost predicate Recoded(e: Encoding, b: seq<Byte>, e': Encoding, b': seq<Byte>) {
    WellFormed(e, b) && AllEncodable(e', Scalars(e, b)) && b' == Text(e', Scalars(e, b))
  }

  lemma RecodedKeepsScalars(e: Encoding, b: seq<Byte>, e': Encoding, b': seq<Byte>)
    requires Recoded(e, b, e', b')
    ensures WellFormed(e', b') && Scalars(e', b') == Scalars(e, b)
  {
    TextInjective(e', Scalars(e', b'), Scalars(e, b));
  }

  /** Any chain of transcodings that ends in the encoding it began with gives back the same bytes. */
  lemma {:induction false} ChainRoundTrip(es: seq<Encoding>, bs: seq<seq<Byte>>, k: nat)
    requires |es| == |bs| && k < |es| && WellFormed(es[0], bs[0])
    requires forall i :: 0 <= i < |es| - 1 ==> Recoded(es[i], bs[i], es[i + 1], bs[i + 1])
    ensures WellFormed(es[k], bs[k]) && Scalars(es[k], bs[k]) == Scalars(es[0], bs[0])
    ensures es[k] == es[0] ==> bs[k] == bs[0]
  {
    if k > 0 {
      ChainRoundTrip(es, bs, k - 1);
      RecodedKeepsScalars(es[k - 1], bs[k - 1], es[k], bs[k]);
    }
  }

  // ----- code-point lengths -----

  /** The test of the UTF-8 length: not a continuation byte. */
  predicate IsLead(b: Byte) {
    b & 0xC0 != 0x80
  }

  function Leads(a: seq<Byte>): nat {
    if a == [] then 0 else Leads(a[..|a| - 1]) + if IsLead(a[|a| - 1]) then 1 else 0
  }

  lemma {:induction false} LeadsConcat(a: seq<Byte>, b: seq<Byte>)
    ensures Leads(a + b) == Leads(a) + Leads(b)
  {
    if b == [] {
      assert a + b == a;
    } else {
      assert (a + b)[..|a + b| - 1] == a + b[..|b| - 1];
      LeadsConcat(a, b[..|b| - 1]);
    }
  }

  /** The first byte of a UTF-8 character is a lead byte and no other byte of it is. */
  lemma Utf8Shape(c: Scalar, b: seq<Byte>)
    requires b == Utf8Bytes(c)
    ensures 1 <= |b| <= 4 && IsLead(b[0]) && forall i :: 1 <= i < |b| ==> !IsLead(b[i])
  {
  }

  lemma {:induction false} NoLeads(a: seq<Byte>)
    requires forall i :: 0 <= i < |a| ==> !IsLead(a[i])
    ensures Leads(a) == 0
  {
    if a != [] {
      NoLeads(a[..|a| - 1]);
    }
  }

  lemma LeadsOfChar(c: Scalar)
    ensures Leads(Bytes(Utf8, c)) == 1
  {
    var b := Utf8Bytes(c);
    Utf8Shape(c, b);
    NoLeads(b[1..]);
    LeadsConcat(b[..1], b[1..]);
    assert b == b[..1] + b[1..];
    assert Leads(b[..1]) == Leads(b[..1][..0]) + 1;
  }

  lemma {:induction false} LeadsOfText(cs: seq<Scalar>)
    ensures Leads(Text(Utf8, cs)) == |cs|
  {
    if cs != [] {
      TextAt(Utf8, cs, 0);
      assert cs[..0] == [] && cs[0..] == cs;
      LeadsOfChar(cs[0]);
      LeadsOfText(cs[1..]);
      LeadsConcat(Bytes(Utf8, cs[0]), Text(Utf8, cs[1..]));
    }
  }

  /** _UTF8LenCodePoints. */
  method Utf8LenCodePoints(a: seq<Byte>) returns (r: nat)
    ensures r == Leads(a)
    ensures WellFormed(Utf8, a) ==> r == |Scalars(Utf8, a)|
  {
    r := 0;
    assert a[..0] == [];
    for i := 0 to |a|
      invariant r == Leads(a[..i])
    {
      assert a[..i + 1][..i] == a[..i];
      if a[i] & 0xC0 != 0x80 {
        r := r + 1;
      }
    }
    assert a[..|a|] == a;
    if WellFormed(Utf8, a) {
      LeadsOfText(Scalars(Utf8, a));
    }
  }

  /** _UTF16LELenCodePoints and _UTF16BELenCodePoints. */
  method Utf16LenCodePoints(a: seq<Byte>, e: Encoding) returns (r: nat)
    requires (e.Utf16LE? || e.Utf16BE?) && WellFormed(e, a)
    ensures r == |Scalars(e, a)|
  {
    r := 0;
    ghost var cs := Scalars(e, a);
    var at := 0;
    assert cs[..0] == [];
    while at < |a|
      invariant r <= |cs| && at == |Text(e, cs[..r])| <= |a|
      decreases |cs| - r
    {
      assert cs[..|cs|] == cs;
      TextFrom(e, cs, r);
      TextFrom(e, cs, r + 1);
      ReadsBack(e, cs[r], a[at..]);
      r := r + 1;
      at := at + GetNextCharSize(a[at..], e);
    }
    WholeText(e, cs, r);
  }

  lemma {:induction false} FixedLength(e: Encoding, cs: seq<Scalar>)
    requires e.Utf32LE? || e.Utf32BE? || e.Ascii?
    ensures |Text(e, cs)| == if e.Ascii? then |cs| else 4 * |cs|
  {
    if cs != [] {
      TextAt(e, cs, 0);
      assert cs[..0] == [] && cs[0..] == cs;
      FixedLength(e, cs[1..]);
    }
  }

  /** StringLen with LEN_CODEPOINT: every encoding counts the scalar values of the text, so texts that
      transcode into each other have the same length. */
  method StringLenCodePoint(a: seq<Byte>, e: Encoding) returns (r: nat)
    requires WellFormed(e, a)
    ensures r == |Scalars(e, a)|
  {
    match e
    case Ascii =>
      FixedLength(e, Scalars(e, a));
      r := |a|;
    case Utf8 => r := Utf8LenCodePoints(a);
    case Utf16LE => r := Utf16LenCodePoints(a, e);
    case Utf16BE => r := Utf16LenCodePoints(a, e);
    case _ =>
      FixedLength(e, Scalars(e, a));
      r := |a| / 4;
  }
}
