/** On UTF-8 text the byte searches of tinybase-strings.c are searches for code points: UTF-8 is
    self-synchronising, so the bytes of a character occur only where that character is. */
module Utf8Search {
  import opened Unicode
  import opened CharEncoding
  import opened CharCodec
  import opened Transcoding
  import opened Memory
  import opened Avx2

  // ----- self-synchronisation -----

  lemma LeadIsPastHead(head: seq<Byte>, rest: seq<Byte>, i: nat)
    requires forall j :: 1 <= j < |head| ==> !IsLead(head[j])
    requires 1 <= i < |head + rest| && IsLead((head + rest)[i])
    ensures i >= |head| && (head + rest)[i] == rest[i - |head|]
  {
  }

  lemma TextPrefix(e: Encoding, cs: seq<Scalar>, k: nat)
    requires 1 <= k <= |cs|
    ensures Text(e, cs[..k]) == Bytes(e, cs[0]) + Text(e, cs[1..][..k - 1])
  {
    TextConcat(e, [cs[0]], cs[1..][..k - 1]);
    TextOne(e, cs[0]);
    assert cs[..k] == [cs[0]] + cs[1..][..k - 1];
  }

  /** A lead byte of a text is the first byte of one of its characters. */
  lemma {:induction false} LeadIsBoundary(cs: seq<Scalar>, b: seq<Byte>, i: nat) returns (k: nat)
    requires b == Text(Utf8, cs) && i < |b| && IsLead(b[i])
    ensures k < |cs| && i == |Text(Utf8, cs[..k])|
    decreases |cs|
  {
    assert cs != [];
    k := 0;
    assert cs[..0] == [];
    if i > 0 {
      TextPrefix(Utf8, cs, |cs|);
      assert cs[..|cs|] == cs && cs[1..][..|cs| - 1] == cs[1..];
      var head, rest := Bytes(Utf8, cs[0]), Text(Utf8, cs[1..]);
      Utf8Shape(cs[0], head);
      LeadIsPastHead(head, rest, i);
      k := LeadIsBoundary(cs[1..], rest, i - |head|);
      TextPrefix(Utf8, cs, k + 1);
      k := k + 1;
    }
  }

  lemma OccursAhead(needle: seq<Byte>, b: seq<Byte>, i: nat)
    requires OccursAt(needle, b, i)
    ensures StartsWith(b[i..], needle)
  {
    assert forall j :: 0 <= j < |needle| ==> b[i..][j] == b[i..i + |needle|][j];
  }

  /** Where the bytes of `c` occur, a character equal to `c` begins. */
  lemma OccurrenceIsCharacter(c: Scalar, cs: seq<Scalar>, i: nat) returns (k: nat)
    requires OccursAt(Bytes(Utf8, c), Text(Utf8, cs), i)
    ensures k < |cs| && cs[k] == c && i == |Text(Utf8, cs[..k])|
  {
    var b, needle := Text(Utf8, cs), Bytes(Utf8, c);
    Utf8Shape(c, needle);
    assert b[i] == b[i..i + |needle|][0];
    k := LeadIsBoundary(cs, b, i);
    TextFrom(Utf8, cs, k);
    OccursAhead(needle, b, i);
    ReadsBack(Utf8, c, b[i..]);
    ReadsBack(Utf8, cs[k], b[i..]);
  }

  lemma CharacterOccurs(cs: seq<Scalar>, k: nat)
    requires k < |cs|
    ensures OccursAt(Bytes(Utf8, cs[k]), Text(Utf8, cs), |Text(Utf8, cs[..k])|)
  {
    TextAt(Utf8, cs, k);
  }

  /** The bytes of `c` occur at `i` exactly when a character equal to `c` begins there. */
  lemma OccursExactly(c: Scalar, cs: seq<Scalar>, i: nat)
    ensures OccursAt(Bytes(Utf8, c), Text(Utf8, cs), i) <==>
              exists k: nat :: k < |cs| && cs[k] == c && i == |Text(Utf8, cs[..k])|
  {
    if OccursAt(Bytes(Utf8, c), Text(Utf8, cs), i) {
      var k := OccurrenceIsCharacter(c, cs, i);
    }
    if k: nat :| k < |cs| && cs[k] == c && i == |Text(Utf8, cs[..k])| {
      CharacterOccurs(cs, k);
    }
  }

  // ----- CharInString -----

  /** The hit is where the first character equal to `c` begins; a miss means there is none. */
  ghost predicate IsFirstChar(c: Scalar, cs: seq<Scalar>, r: Option<nat>) {
    match r
    case Some(i) => exists k: nat :: k < |cs| && cs[k] == c && c !in cs[..k] && i == |Text(Utf8, cs[..k])|
    case None => c !in cs
  }

  lemma {:induction false} TextGrows(e: Encoding, cs: seq<Scalar>, j: nat, k: nat)
    requires AllEncodable(e, cs) && j < k <= |cs|
    ensures |Text(e, cs[..j])| < |Text(e, cs[..k])|
  {
    TextFrom(e, cs, k - 1);
    CharSizes(e, cs[k - 1]);
    if j < k - 1 {
      TextGrows(e, cs, j, k - 1);
    }
  }

  lemma FirstIsFirstChar(c: Scalar, cs: seq<Scalar>, r: Option<nat>)
    requires IsFirst(Bytes(Utf8, c), Text(Utf8, cs), r)
    ensures IsFirstChar(c, cs, r)
  {
    if r.Some? {
      var k := OccurrenceIsCharacter(c, cs, r.value);
      forall j | 0 <= j < k
        ensures cs[j] != c
      {
        CharacterOccurs(cs, j);
        TextGrows(Utf8, cs, j, k);
      }
    } else {
      forall j | 0 <= j < |cs|
        ensures cs[j] != c
      {
        CharacterOccurs(cs, j);
      }
    }
  }

  lemma ByteHitIsHit(needle: Byte, hay: seq<Byte>, r: Option<nat>)
    requires IsFirstByte(needle, hay, r)
    ensures IsFirst([needle], hay, r)
  {
    forall j: nat | j < |hay| && OccursAt([needle], hay, j)
      ensures hay[j] == needle
    {
      assert hay[j] == hay[j..j + 1][0];
    }
    if r.Some? {
      assert hay[r.value..r.value + 1] == [needle];
      forall j: nat | j < r.value
        ensures !OccursAt([needle], hay, j)
      {
        assert hay[..r.value][j] == hay[j];
      }
    }
  }

  /** The size and the bytes the code gives a packed UTF-8 character. */
  lemma PackedUtf8(c: Scalar, p: bv32)
    requires p == EncodeChar(c, Utf8)
    ensures GetMultibyteCharSize(p, Utf8) == |Bytes(Utf8, c)|
    ensures Unpack(p, GetMultibyteCharSize(p, Utf8)) == Bytes(Utf8, c)
  {
    CharCorrect(Utf8, c, Bytes(Utf8, c));
  }

  /** CharInString with RETURN_IDX_FIND on the UTF-8 text of `cs`: `needle` is a packed character, and
      `search` is what the function pointer for substrings points to. */
  method CharInString(search: SubstringSearch, needle: bv32, hay: seq<Byte>, ghost c: Scalar, ghost cs: seq<Scalar>)
      returns (r: Option<nat>)
    requires needle == EncodeChar(c, Utf8) && hay == Text(Utf8, cs)
    requires search.AVX2? ==> |Bytes(Utf8, c)| == 1
    ensures IsFirstChar(c, cs, r)
  {
    PackedUtf8(c, needle);
    var size := GetMultibyteCharSize(needle, Utf8);
    var bytes := Unpack(needle, size);
    if size == 1 {
      r := ByteInBufferIdxSimple(bytes[0], hay);
      ByteHitIsHit(bytes[0], hay, r);
      assert bytes == [bytes[0]];
    } else {
      r := BufferInBufferIdx(search, bytes, hay);
    }
    FirstIsFirstChar(c, cs, r);
  }

  // ----- CountCharInString -----

  function CountOf(cs: seq<Scalar>, c: Scalar): nat {
    if cs == [] then 0 else (if cs[0] == c then 1 else 0) + CountOf(cs[1..], c)
  }

  /** The places where `c` stands. */
  function Places(cs: seq<Scalar>, c: Scalar): set<nat> {
    set i: nat | i < |cs| && cs[i] == c
  }

  lemma {:induction false} CountSnoc(cs: seq<Scalar>, d: Scalar, c: Scalar)
    ensures CountOf(cs + [d], c) == CountOf(cs, c) + if d == c then 1 else 0
  {
    if cs == [] {
      assert cs + [d] == [d] && [d][1..] == [];
    } else {
      assert (cs + [d])[1..] == cs[1..] + [d];
      CountSnoc(cs[1..], d, c);
    }
  }

  lemma {:induction false} CountIsPlaces(cs: seq<Scalar>, c: Scalar)
    ensures CountOf(cs, c) == |Places(cs, c)|
    decreases |cs|
  {
    if cs == [] {
      assert Places(cs, c) == {};
    } else {
      var front, d := cs[..|cs| - 1], cs[|cs| - 1];
      CountIsPlaces(front, c);
      CountSnoc(front, d, c);
      assert cs == front + [d];
      assert Places(cs, c) == if d == c then Places(front, c) + {|cs| - 1} else Places(front, c);
    }
  }

  lemma {:induction false} CountSkips(cs: seq<Scalar>, c: Scalar, j: nat)
    requires j <= |cs| && c !in cs[..j]
    ensures CountOf(cs, c) == CountOf(cs[j..], c)
  {
    if j > 0 {
      assert cs[..j][0] == cs[0];
      assert forall i :: 0 <= i < j - 1 ==> cs[1..][i] == cs[..j][i + 1];
      CountSkips(cs[1..], c, j - 1);
      assert cs[1..][j - 1..] == cs[j..];
    } else {
      assert cs[0..] == cs;
    }
  }

  lemma CountNext(cs: seq<Scalar>, c: Scalar, k: nat, j: nat)
    requires k <= j < |cs| && cs[j] == c && c !in cs[k..j]
    ensures CountOf(cs[k..], c) == 1 + CountOf(cs[j + 1..], c)
  {
    assert cs[k..][..j - k] == cs[k..j] && cs[k..][j - k..] == cs[j..];
    CountSkips(cs[k..], c, j - k);
    assert cs[j..][1..] == cs[j + 1..];
  }

  lemma PlaceInRest(cs: seq<Scalar>, k: nat, m: nat)
    requires k + m < |cs|
    ensures |Text(Utf8, cs[..k])| + |Text(Utf8, cs[k..][..m])| == |Text(Utf8, cs[..k + m])|
    ensures |Text(Utf8, cs[..k + m])| + |Bytes(Utf8, cs[k + m])| == |Text(Utf8, cs[..k + m + 1])| <= |Text(Utf8, cs)|
  {
    assert cs[..k + m] == cs[..k] + cs[k..][..m];
    TextConcat(Utf8, cs[..k], cs[k..][..m]);
    TextFrom(Utf8, cs, k + m);
    TextFrom(Utf8, cs, k + m + 1);
  }

  /** A hit in the text that is left after `k` characters, seen from the whole text. */
  lemma HitInRest(c: Scalar, cs: seq<Scalar>, k: nat, r: Option<nat>) returns (j: nat)
    requires k <= |cs| && IsFirstChar(c, cs[k..], r)
    ensures r.None? ==> c !in cs[k..]
    ensures r.Some? ==> k <= j < |cs| && cs[j] == c && c !in cs[k..j]
    ensures r.Some? ==> |Text(Utf8, cs[..k])| + r.value == |Text(Utf8, cs[..j])|
    ensures r.Some? ==> |Text(Utf8, cs[..j])| + |Bytes(Utf8, c)| == |Text(Utf8, cs[..j + 1])| <= |Text(Utf8, cs)|
  {
    j := k;
    if r.Some? {
      var m: nat :| m < |cs[k..]| && cs[k..][m] == c && c !in cs[k..][..m] && r.value == |Text(Utf8, cs[k..][..m])|;
      PlaceInRest(cs, k, m);
      j := k + m;
      assert cs[k..][..m] == cs[k..j];
    }
  }

  /** One turn of the counting loop: the hit is one more, and the window then starts past it. */
  lemma CountTurn(c: Scalar, cs: seq<Scalar>, k: nat, r: Option<nat>) returns (k': nat)
    requires k <= |cs| && IsFirstChar(c, cs[k..], r)
    ensures r.None? ==> CountOf(cs[k..], c) == 0
    ensures r.Some? ==> k < k' <= |cs| && CountOf(cs[k..], c) == 1 + CountOf(cs[k'..], c)
    ensures r.Some? ==> |Text(Utf8, cs[..k])| + r.value + |Bytes(Utf8, c)| == |Text(Utf8, cs[..k'])| <= |Text(Utf8, cs)|
  {
    var j := HitInRest(c, cs, k, r);
    k' := j + 1;
    if r.Some? {
      CountNext(cs, c, k, j);
    } else {
      var rest := cs[k..];
      assert rest[..|rest|] == rest && rest[|rest|..] == [];
      CountSkips(rest, c, |rest|);
    }
  }

  lemma RestOfText(cs: seq<Scalar>, k: nat)
    requires k <= |cs|
    ensures |Text(Utf8, cs[..k])| <= |Text(Utf8, cs)|
    ensures Text(Utf8, cs)[|Text(Utf8, cs[..k])|..] == Text(Utf8, cs[k..])
  {
    TextFrom(Utf8, cs, k);
  }

  /** CountCharInString on the UTF-8 text of `cs` counts the characters equal to `needle`. */
  method CountCharInString(search: SubstringSearch, needle: bv32, hay: seq<Byte>, ghost c: Scalar, ghost cs: seq<Scalar>)
      returns (r: nat)
    requires needle == EncodeChar(c, Utf8) && hay == Text(Utf8, cs)
    requires search.AVX2? ==> |Bytes(Utf8, c)| == 1
    ensures r == CountOf(cs, c) == |set i: nat | i < |cs| && cs[i] == c|
  {
    CountIsPlaces(cs, c);
    PackedUtf8(c, needle);
    var size := GetMultibyteCharSize(needle, Utf8);
    r := 0;
    var at := 0;
    ghost var k := 0;
    assert cs[..0] == [] && cs[0..] == cs && hay[0..] == hay;
    var found := CharInString(search, needle, hay[at..], c, cs);
    while found.Some?
      invariant k <= |cs| && at == |Text(Utf8, cs[..k])| && IsFirstChar(c, cs[k..], found)
      invariant r + CountOf(cs[k..], c) == CountOf(cs, c)
      decreases |cs| - k
    {
      k := CountTurn(c, cs, k, found);
      r := r + 1;
      at := at + found.value + size;
      RestOfText(cs, k);
      found := CharInString(search, needle, hay[at..], c, cs[k..]);
    }
    k := CountTurn(c, cs, k, found);
  }

  // ----- ReplaceCharInString -----

  /** The text with every `o` turned into `n`. */
  function Mapped(cs: seq<Scalar>, o: Scalar, n: Scalar): (ds: seq<Scalar>)
    ensures |ds| == |cs|
    ensures forall i :: 0 <= i < |cs| ==> ds[i] == if cs[i] == o then n else cs[i]
  {
    seq(|cs|, i requires 0 <= i < |cs| => if cs[i] == o then n else cs[i])
  }

  /** Only the bytes of the first 128 characters are below 0x80. */
  lemma HighBytes(c: Scalar, b: seq<Byte>)
    requires c >= 0x80 && b == Utf8Bytes(c)
    ensures forall i :: 0 <= i < |b| ==> b[i] >= 0x80
  {
  }

  lemma SameLow(c: bv32, o: bv32)
    requires c < 0x80 && o < 0x80
    ensures Low8(c) < 0x80 && (Low8(c) == Low8(o) <==> c == o)
  {
  }

  /** Replacing the byte of a one-byte character in any character replaces the character. */
  lemma ReplacedChar(c: Scalar, o: Scalar, n: Scalar)
    requires o < 0x80 && n < 0x80
    ensures Replaced(Bytes(Utf8, c), Low8(o), Low8(n)) == Bytes(Utf8, if c == o then n else c)
  {
    SameLow(o, o);
    if c < 0x80 {
      SameLow(c, o);
    } else {
      HighBytes(c, Bytes(Utf8, c));
    }
  }

  lemma ReplacedConcat(a: seq<Byte>, b: seq<Byte>, x: Byte, y: Byte)
    ensures Replaced(a + b, x, y) == Replaced(a, x, y) + Replaced(b, x, y)
  {
  }

  lemma {:induction false} ReplacedText(cs: seq<Scalar>, o: Scalar, n: Scalar)
    requires o < 0x80 && n < 0x80
    ensures Replaced(Text(Utf8, cs), Low8(o), Low8(n)) == Text(Utf8, Mapped(cs, o, n))
  {
    if cs == [] {
      assert Replaced([], Low8(o), Low8(n)) == [];
    } else {
      var ds := Mapped(cs, o, n);
      TextAt(Utf8, cs, 0);
      TextAt(Utf8, ds, 0);
      assert cs[..0] == [] && cs[0..] == cs && ds[..0] == [] && ds[0..] == ds;
      ReplacedConcat(Bytes(Utf8, cs[0]), Text(Utf8, cs[1..]), Low8(o), Low8(n));
      ReplacedChar(cs[0], o, n);
      ReplacedText(cs[1..], o, n);
      assert ds[1..] == Mapped(cs[1..], o, n);
    }
  }

  lemma {:induction false} MappedLength(cs: seq<Scalar>, o: Scalar, n: Scalar, k: nat)
    requires |Bytes(Utf8, o)| == |Bytes(Utf8, n)| && k <= |cs|
    ensures |Text(Utf8, Mapped(cs, o, n)[..k])| == |Text(Utf8, cs[..k])|
  {
    var ds := Mapped(cs, o, n);
    assert cs[..0] == [] && ds[..0] == [];
    if k > 0 {
      MappedLength(cs, o, n, k - 1);
      TextFrom(Utf8, cs, k - 1);
      TextFrom(Utf8, ds, k - 1);
    }
  }

  lemma MappedSame(cs: seq<Scalar>, o: Scalar, n: Scalar, k: nat, j: nat)
    requires k <= j <= |cs| && o !in cs[k..j]
    ensures Mapped(cs, o, n)[..j] == Mapped(cs, o, n)[..k] + cs[k..j]
  {
    assert forall i :: k <= i < j ==> cs[i] == cs[k..j][i - k];
  }

  /** What stands before and after the next `o` when the first `k` characters have been mapped. */
  lemma MappedUpTo(cs: seq<Scalar>, o: Scalar, n: Scalar, k: nat, j: nat)
    requires k <= j < |cs| && cs[j] == o && o !in cs[k..j]
    ensures Text(Utf8, Mapped(cs, o, n)[..k]) + Text(Utf8, cs[k..])
            == Text(Utf8, Mapped(cs, o, n)[..j]) + (Bytes(Utf8, o) + Text(Utf8, cs[j + 1..]))
  {
    var ds := Mapped(cs, o, n);
    assert cs[k..] == cs[k..j] + cs[j..];
    MappedSame(cs, o, n, k, j);
    TextConcat(Utf8, cs[k..j], cs[j..]);
    TextConcat(Utf8, ds[..k], cs[k..j]);
    TextAt(Utf8, cs, j);
  }

  /** The mapped text one character further, and that its bytes keep their places. */
  lemma MappedStep(cs: seq<Scalar>, o: Scalar, n: Scalar, j: nat)
    requires |Bytes(Utf8, o)| == |Bytes(Utf8, n)| && j < |cs| && cs[j] == o
    ensures Text(Utf8, Mapped(cs, o, n)[..j + 1]) == Text(Utf8, Mapped(cs, o, n)[..j]) + Bytes(Utf8, n)
    ensures |Text(Utf8, Mapped(cs, o, n)[..j])| == |Text(Utf8, cs[..j])|
    ensures |Text(Utf8, Mapped(cs, o, n)[..j + 1])| == |Text(Utf8, cs[..j + 1])|
  {
    TextFrom(Utf8, Mapped(cs, o, n), j);
    MappedLength(cs, o, n, j);
    MappedLength(cs, o, n, j + 1);
  }

  lemma MappedRest(cs: seq<Scalar>, o: Scalar, n: Scalar, k: nat)
    requires k <= |cs| && o !in cs[k..]
    ensures Text(Utf8, Mapped(cs, o, n)[..k]) + Text(Utf8, cs[k..]) == Text(Utf8, Mapped(cs, o, n))
  {
    var ds := Mapped(cs, o, n);
    assert forall i :: k <= i < |cs| ==> cs[i] == cs[k..][i - k];
    assert ds == ds[..k] + cs[k..];
    TextConcat(Utf8, ds[..k], cs[k..]);
  }

  /** The copy of one turn: `new'` takes the place of `old'`. */
  method Overwrite(base: array<Byte>, writeCur: nat, at: nat, new': seq<Byte>,
                   ghost head: seq<Byte>, ghost old': seq<Byte>, ghost tail: seq<Byte>)
    requires writeCur <= base.Length && base[..writeCur] == head + (old' + tail)
    requires at == |head| && |old'| == |new'|
    modifies base
    ensures base[..writeCur] == head + new' + tail
    ensures base[writeCur..] == old(base[writeCur..])
  {
    ghost var before := base[..];
    assert before[..writeCur] == base[..writeCur];
    assert before == head + (old' + tail) + before[writeCur..];
    var copied := CopyData(base, at, writeCur - at, new');
    assert base[..] == head + new' + tail + before[writeCur..];
    assert base[..writeCur] == base[..][..writeCur] && base[writeCur..] == base[..][writeCur..];
  }

  lemma ByteOccurs(x: Byte, b: seq<Byte>, i: nat)
    requires i < |b| && b[i] == x
    ensures OccursAt([x], b, i)
  {
  }

  lemma NoSuchByte(cs: seq<Scalar>, o: Scalar)
    requires o < 0x80 && o !in cs
    ensures Low8(o) !in Text(Utf8, cs)
  {
    var b, x := Text(Utf8, cs), Low8(o);
    assert Bytes(Utf8, o) == [x];
    if x in b {
      var i :| 0 <= i < |b| && b[i] == x;
      ByteOccurs(x, b, i);
      var k := OccurrenceIsCharacter(o, cs, i);
      assert false;
    }
  }

  lemma TextMapped(cs: seq<Scalar>, o: Scalar, n: Scalar, b: seq<Byte>)
    requires b == Text(Utf8, Mapped(cs, o, n))
    ensures WellFormed(Utf8, b) && Scalars(Utf8, b) == Mapped(cs, o, n)
  {
    TextInjective(Utf8, Scalars(Utf8, b), Mapped(cs, o, n));
  }

  /** The buffer after the first `k` characters have been dealt with: they fill the first `at` bytes. */
  ghost predicate Halfway(cs: seq<Scalar>, o: Scalar, n: Scalar, k: nat, at: nat, b: seq<Byte>) {
    && k <= |cs| && at == |Text(Utf8, Mapped(cs, o, n)[..k])|
    && b == Text(Utf8, Mapped(cs, o, n)[..k]) + Text(Utf8, cs[k..])
  }

  lemma Start(cs: seq<Scalar>, o: Scalar, n: Scalar)
    ensures Halfway(cs, o, n, 0, 0, Text(Utf8, cs))
  {
    assert Mapped(cs, o, n)[..0] == [] && cs[0..] == cs;
  }

  /** One turn of the loop below, when there is a hit: what stands around the hit, and that writing
      `n` over it goes one character further. */
  lemma Turn(cs: seq<Scalar>, o: Scalar, n: Scalar, k: nat, at: nat, b: seq<Byte>, i: nat)
      returns (j: nat, head: seq<Byte>, tail: seq<Byte>)
    requires |Bytes(Utf8, o)| == |Bytes(Utf8, n)|
    requires Halfway(cs, o, n, k, at, b) && IsFirstChar(o, cs[k..], Some(i))
    ensures k <= j < |cs| && b == head + (Bytes(Utf8, o) + tail) && |head| == at + i
    ensures Halfway(cs, o, n, j + 1, |head| + |Bytes(Utf8, n)|, head + Bytes(Utf8, n) + tail)
  {
    j := HitInRest(o, cs, k, Some(i));
    head, tail := Text(Utf8, Mapped(cs, o, n)[..j]), Text(Utf8, cs[j + 1..]);
    MappedLength(cs, o, n, k);
    MappedUpTo(cs, o, n, k, j);
    MappedStep(cs, o, n, j);
  }

  lemma Finish(cs: seq<Scalar>, o: Scalar, n: Scalar, k: nat, at: nat, b: seq<Byte>)
    requires Halfway(cs, o, n, k, at, b) && IsFirstChar(o, cs[k..], None)
    ensures b == Text(Utf8, Mapped(cs, o, n))
  {
    MappedRest(cs, o, n, k);
  }

  method FindAhead(search: SubstringSearch, old': bv32, base: array<Byte>, writeCur: nat, at: nat,
                   ghost cs: seq<Scalar>, ghost o: Scalar, ghost n: Scalar, ghost k: nat) returns (r: Option<nat>)
    requires old' == EncodeChar(o, Utf8) && !search.AVX2?
    requires writeCur <= base.Length && Halfway(cs, o, n, k, at, base[..writeCur])
    ensures IsFirstChar(o, cs[k..], r)
  {
    assert base[at..writeCur] == base[..writeCur][at..] == Text(Utf8, cs[k..]);
    r := CharInString(search, old', base[at..writeCur], o, cs[k..]);
  }

  /** The body of the loop below: the window moves to the hit, and the new bytes are copied there. */
  method WriteOver(newBytes: seq<Byte>, base: array<Byte>, writeCur: nat, at: nat, found: nat,
                   ghost cs: seq<Scalar>, ghost o: Scalar, ghost n: Scalar, ghost k: nat) returns (ghost k': nat)
    requires newBytes == Bytes(Utf8, n) && |Bytes(Utf8, o)| == |Bytes(Utf8, n)|
    requires writeCur <= base.Length && Halfway(cs, o, n, k, at, base[..writeCur])
    requires IsFirstChar(o, cs[k..], Some(found))
    modifies base
    ensures k < k' && Halfway(cs, o, n, k', at + found + |newBytes|, base[..writeCur])
    ensures base[writeCur..] == old(base[writeCur..])
  {
    ghost var j, head, tail := Turn(cs, o, n, k, at, base[..writeCur], found);
    Overwrite(base, writeCur, at + found, newBytes, head, Bytes(Utf8, o), tail);
    k' := j + 1;
  }

  /** The loop of ReplaceCharInString for characters of several bytes. */
  method ReplaceWideChar(search: SubstringSearch, old': bv32, newBytes: seq<Byte>, base: array<Byte>, writeCur: nat,
                         ghost cs: seq<Scalar>, ghost o: Scalar, ghost n: Scalar)
    requires !search.AVX2?
    requires old' == EncodeChar(o, Utf8) && newBytes == Bytes(Utf8, n) && |Bytes(Utf8, o)| == |Bytes(Utf8, n)|
    requires writeCur <= base.Length && base[..writeCur] == Text(Utf8, cs)
    modifies base
    ensures base[..writeCur] == Text(Utf8, Mapped(cs, o, n))
    ensures base[writeCur..] == old(base[writeCur..])
  {
    ghost var k: nat := 0;
    var at: nat := 0;
    Start(cs, o, n);
    var found := FindAhead(search, old', base, writeCur, at, cs, o, n, k);
    while found.Some?
      invariant Halfway(cs, o, n, k, at, base[..writeCur]) && IsFirstChar(o, cs[k..], found)
      invariant base[writeCur..] == old(base[writeCur..])
      decreases |cs| - k
    {
      k := WriteOver(newBytes, base, writeCur, at, found.value, cs, o, n, k);
      at := at + found.value + |newBytes|;
      found := FindAhead(search, old', base, writeCur, at, cs, o, n, k);
    }
    Finish(cs, o, n, k, at, base[..writeCur]);
  }

  /** ReplaceCharInString on UTF-8. With `old'` equal to `new'` and one byte long the source never
      returns once the character occurs. */
  method ReplaceCharInString(search: SubstringSearch, old': bv32, new': bv32, base: array<Byte>, writeCur: nat,
                             ghost o: Scalar, ghost n: Scalar) returns (ok: bool)
    requires old' == EncodeChar(o, Utf8) && new' == EncodeChar(n, Utf8)
    requires writeCur <= base.Length && WellFormed(Utf8, base[..writeCur])
    requires search.AVX2? ==> |Bytes(Utf8, o)| == 1 || |Bytes(Utf8, o)| != |Bytes(Utf8, n)|
    requires o != n || o >= 0x80 || o !in Scalars(Utf8, base[..writeCur])
    modifies base
    ensures ok <==> |Bytes(Utf8, o)| == |Bytes(Utf8, n)|
    ensures ok ==> WellFormed(Utf8, base[..writeCur])
                   && Scalars(Utf8, base[..writeCur]) == Mapped(old(Scalars(Utf8, base[..writeCur])), o, n)
    ensures !ok ==> base[..writeCur] == old(base[..writeCur])
    ensures base[writeCur..] == old(base[writeCur..])
  {
    ghost var cs := Scalars(Utf8, base[..writeCur]);
    PackedUtf8(o, old');
    PackedUtf8(n, new');
    var oldLen := GetMultibyteCharSize(old', Utf8);
    var newLen := GetMultibyteCharSize(new', Utf8);
    if oldLen != newLen {
      return false;
    }
    if newLen == 1 {
      if o == n {
        NoSuchByte(cs, o);
      }
      SameLow(n, o);
      ReplaceByteInBuffer(Low8(old'), Low8(new'), base, writeCur);
      ReplacedText(cs, o, n);
    } else {
      ReplaceWideChar(search, old', Unpack(new', newLen), base, writeCur, cs, o, n);
    }
    TextMapped(cs, o, n, base[..writeCur]);
    return true;
  }
}
