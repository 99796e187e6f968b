/** CharInString on UTF-8 when substrings are searched for with AVX2: exactly when it is still right. */
module Utf8Avx2 {
  import opened Unicode
  import opened CharEncoding
  import opened CharCodec
  import opened Transcoding
  import opened Memory
  import opened Simd
  import opened Avx2
  import opened Utf8Search

  /** The hit is right for every UTF-8 text of `len` bytes and every memory behind it. */
  ghost predicate RightOnText(c: Scalar, len: nat) {
    forall cs: seq<Scalar>, mem: seq<Byte>, r: Option<nat> ::
      (&& len + 31 <= |mem| && mem[..len] == Text(Utf8, cs)
       && IsFirstBelow(Bytes(Utf8, c), mem, Covered(|Bytes(Utf8, c)|, len), r)) ==> IsFirstChar(c, cs, r)
  }

  lemma SameFirstByte(b: seq<Byte>, b': seq<Byte>)
    requires b != [] && b' != [] && b[0] == b'[0]
    ensures GetNextCharSize(b, Utf8) == GetNextCharSize(b', Utf8)
  {
  }

  /** A character that begins in well-formed text ends in it: its first byte tells its size. */
  lemma NoStraddle(c: Scalar, cs: seq<Scalar>, mem: seq<Byte>, len: nat, i: nat)
    requires len <= |mem| && mem[..len] == Text(Utf8, cs) && i < len && OccursAt(Bytes(Utf8, c), mem, i)
    ensures i + |Bytes(Utf8, c)| <= len
  {
    var needle, hay := Bytes(Utf8, c), mem[..len];
    Utf8Shape(c, needle);
    assert hay[i] == mem[i..i + |needle|][0] == needle[0];
    var k := LeadIsBoundary(cs, hay, i);
    TextFrom(Utf8, cs, k);
    ReadsBack(Utf8, cs[k], hay[i..]);
    ReadsBack(Utf8, c, needle);
    SameFirstByte(hay[i..], needle);
  }

  lemma RightWhenWithin(c: Scalar, len: nat, m: nat)
    requires m == |Bytes(Utf8, c)| >= 1 && (len < m || (len - m) % 32 >= 32 - m)
    ensures RightOnText(c, len)
  {
    var needle := Bytes(Utf8, c);
    Utf8Shape(c, needle);
    assert len >= m ==> len - m < Covered(m, len) <= len;
    forall cs: seq<Scalar>, mem: seq<Byte>, r: Option<nat> |
      len + 31 <= |mem| && mem[..len] == Text(Utf8, cs) && IsFirstBelow(needle, mem, Covered(m, len), r)
      ensures IsFirstChar(c, cs, r)
    {
      forall i: nat
        ensures OccursAt(needle, mem[..len], i) <==> i + m <= len && OccursAt(needle, mem, i)
      {
        InHaystack(needle, mem, len, i);
      }
      if r.Some? {
        NoStraddle(c, cs, mem, len, r.value);
      }
      assert IsFirst(needle, mem[..len], r);
      FirstIsFirstChar(c, cs, r);
    }
  }

  // ----- texts on which it is wrong -----

  const LETTER: Scalar := 0x61

  function Letters(k: nat): (cs: seq<Scalar>)
    ensures |cs| == k && forall i :: 0 <= i < k ==> cs[i] == LETTER
  {
    seq(k, i => LETTER)
  }

  lemma {:induction false} LetterText(k: nat)
    ensures |Text(Utf8, Letters(k))| == k
    ensures forall i :: 0 <= i < k ==> Text(Utf8, Letters(k))[i] == 0x61
  {
    if k > 0 {
      var cs := Letters(k);
      LetterText(k - 1);
      assert cs[..k - 1] == Letters(k - 1) && cs[..k] == cs;
      TextAt(Utf8, cs, k - 1);
      assert Bytes(Utf8, LETTER) == [0x61];
    }
  }

  lemma NotAmongLetters(c: Scalar, b: seq<Byte>, bound: nat)
    requires c >= 0x80 && bound <= |b| && forall i :: 0 <= i < bound ==> b[i] == 0x61
    ensures forall j: nat :: j < bound ==> !OccursAt(Bytes(Utf8, c), b, j)
  {
    var needle := Bytes(Utf8, c);
    HighBytes(c, needle);
    Utf8Shape(c, needle);
    forall j: nat | j < bound && OccursAt(needle, b, j)
      ensures false
    {
      OccursEnds(needle, b, j);
    }
  }

  /** Letters and then the character, which ends the text and is missed. */
  lemma LastCharIsMissed(c: Scalar, len: nat, m: nat)
    requires c >= 0x80 && m == |Bytes(Utf8, c)| <= len && (len - m) % 32 == 0
    ensures !RightOnText(c, len)
  {
    var d := len - m;
    assert Covered(m, len) == d;
    var cs := Letters(d) + [c];
    LetterText(d);
    TextConcat(Utf8, Letters(d), [c]);
    TextOne(Utf8, c);
    var mem := Text(Utf8, cs) + Zeros(31);
    assert mem[..len] == Text(Utf8, cs);
    NotAmongLetters(c, mem, d);
    assert IsFirstBelow(Bytes(Utf8, c), mem, Covered(m, len), None);
    assert cs[d] == c;
  }

  /** Letters only; the character stands in the memory behind them and is found there. */
  lemma CharBehindIsFound(c: Scalar, len: nat, m: nat)
    requires c >= 0x80 && m == |Bytes(Utf8, c)| <= len && 0 < (len - m) % 32 < 32 - m
    ensures !RightOnText(c, len)
  {
    Utf8Shape(c, Bytes(Utf8, c));
    assert len < Covered(m, len);
    var cs := Letters(len);
    LetterText(len);
    var mem := Text(Utf8, cs) + Bytes(Utf8, c) + Zeros(31 - m);
    assert mem[..len] == Text(Utf8, cs) && mem[len..len + m] == Bytes(Utf8, c);
    NotAmongLetters(c, mem, len);
    assert IsFirstBelow(Bytes(Utf8, c), mem, Covered(m, len), Some(len));
    assert !IsFirstChar(c, cs, Some(len));
  }

  /** With the AVX2 search, CharInString for a character of `m` bytes is right on every well-formed text
      of `len` bytes if and only if the text is shorter than that or the last block ends inside it. */
  lemma CharInStringAvx2Exactly(c: Scalar, len: nat, m: nat)
    requires m == |Bytes(Utf8, c)| >= 2
    ensures RightOnText(c, len) <==> len < m || (len - m) % 32 >= 32 - m
  {
    Utf8Shape(c, Bytes(Utf8, c));
    assert c >= 0x80;
    if len < m || (len - m) % 32 >= 32 - m {
      RightWhenWithin(c, len, m);
    } else if (len - m) % 32 == 0 {
      LastCharIsMissed(c, len, m);
    } else {
      CharBehindIsFound(c, len, m);
    }
  }
}
