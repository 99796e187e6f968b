/** Printing and parsing integers: NumberOfDigits of tinybase-types.h and the conversions of
    tinybase-strings.c, in all six encodings. */
module Integers {
  import opened Unicode
  import opened CharEncoding
  import opened CharCodec
  import opened Transcoding
  import Bits

  // ----- machine integers -----

  const WORD: int := 0x1_0000_0000_0000_0000
  const HALF: int := 0x8000_0000_0000_0000

  /** The 64-bit signed value of an integer that may have wrapped around. */
  function ToI64(x: int): (r: int)
    ensures -HALF <= r < HALF
  {
    (x + HALF) % WORD - HALF
  }

  function Abs(x: int): nat {
    if x < 0 then -x else x
  }

  /** C's division truncates towards zero. */
  function TruncDiv10(x: int): int {
    if x < 0 then -(-x / 10) else x / 10
  }

  // ----- decimal digits -----

  function Pow10(d: nat): (p: nat)
    ensures p > 0
  {
    if d == 0 then 1 else 10 * Pow10(d - 1)
  }

  function DigitCount(n: nat): (d: nat)
    ensures d >= 1
  {
    if n < 10 then 1 else 1 + DigitCount(n / 10)
  }

  lemma {:induction false} DigitCountBounds(n: nat)
    ensures n < Pow10(DigitCount(n)) && (n > 0 ==> Pow10(DigitCount(n) - 1) <= n)
  {
    if n >= 10 {
      DigitCountBounds(n / 10);
    } else {
      assert Pow10(1) == 10 * Pow10(0);
    }
  }

  lemma {:induction false} Pow10Monotone(m: nat, n: nat)
    requires m <= n
    ensures Pow10(m) <= Pow10(n)
  {
    if m < n {
      Pow10Monotone(m, n - 1);
    }
  }

  /** NumberOfDigits. The do-while always runs once, so that 0 has a digit. */
  method NumberOfDigits(integer: int) returns (count: nat)
    ensures count == DigitCount(Abs(integer)) >= 1
    ensures Abs(integer) < Pow10(count) && (integer != 0 ==> Pow10(count - 1) <= Abs(integer))
  {
    var rest := integer;
    count := 0;
    while true
      invariant DigitCount(Abs(integer)) == count + DigitCount(Abs(rest))
      decreases Abs(rest)
    {
      rest := TruncDiv10(rest);
      count := count + 1;
      if rest == 0 {
        break;
      }
    }
    DigitCountBounds(Abs(integer));
  }

  // ----- texts of digits -----

  predicate IsDigit(c: bv32) {
    0x30 <= c <= 0x39
  }

  function DigitChar(d: nat): Scalar
    requires d < 10
  {
    DigitChars(d);
    0x30 + d as bv32
  }

  lemma DigitChars(d: nat)
    requires d < 10
    ensures IsDigit(0x30 + d as bv32)
  {
    assert d in [0, 1, 2, 3, 4, 5, 6, 7, 8, 9];
  }

  function DigitValue(c: bv32): (d: nat)
    requires IsDigit(c)
  {
    (c - 0x30) as nat
  }

  lemma DigitIsRead(d: nat)
    requires d < 10
    ensures IsDigit(DigitChar(d)) && DigitValue(DigitChar(d)) == d
  {
    assert d in [0, 1, 2, 3, 4, 5, 6, 7, 8, 9];
  }

  predicate AllDigits(cs: seq<Scalar>) {
    forall i :: 0 <= i < |cs| ==> IsDigit(cs[i])
  }

  /** The number the digits stand for. */
  function Value(cs: seq<Scalar>): nat
    requires AllDigits(cs)
  {
    if cs == [] then 0 else 10 * Value(cs[..|cs| - 1]) + DigitValue(cs[|cs| - 1])
  }

  /** The last `d` decimal digits of `n`. */
  function Decimal(n: nat, d: nat): (cs: seq<Scalar>)
    ensures |cs| == d
    decreases d
  {
    if d == 0 then [] else Decimal(n / 10, d - 1) + [DigitChar(n % 10)]
  }

  lemma TenMod(n: nat, p: nat, q: nat)
    requires p > 0 && q == 10 * p
    ensures n % q == 10 * ((n / 10) % p) + n % 10
  {
    var k := (n / 10) / p;
    Bits.DivMod(n / 10, p);
    assert n == k * q + (10 * ((n / 10) % p) + n % 10) by {
      assert k * q == 10 * (k * p);
    }
    Bits.ModUnique(n, q, k, 10 * ((n / 10) % p) + n % 10);
  }

  lemma {:induction false} ValueOfDecimal(n: nat, d: nat)
    ensures AllDigits(Decimal(n, d)) && Value(Decimal(n, d)) == n % Pow10(d)
    decreases d
  {
    if d > 0 {
      ValueOfDecimal(n / 10, d - 1);
      DigitIsRead(n % 10);
      TenMod(n, Pow10(d - 1), Pow10(d));
      var cs := Decimal(n, d);
      assert cs[..d - 1] == Decimal(n / 10, d - 1);
    }
  }

  // ----- parsing -----

  /** What StringToUInt makes of a text. */
  function ParsedUInt(cs: seq<Scalar>): int {
    if AllDigits(cs) then Value(cs) % WORD else WORD - 1
  }

  const MINUS: Scalar := 0x2D

  /** What StringToInt makes of a text that is not empty. */
  function ParsedInt(cs: seq<Scalar>): int
    requires cs != []
  {
    if cs[0] == MINUS then (if AllDigits(cs[1..]) then ToI64(-(Value(cs[1..]) as int)) else HALF - 1)
    else (if AllDigits(cs) then ToI64(Value(cs)) else HALF - 1)
  }

  function CharSize(e: Encoding): nat {
    if e.Utf32LE? || e.Utf32BE? then 4 else if e.Utf16LE? || e.Utf16BE? then 2 else 1
  }

  lemma Narrow(e: Encoding, c: Scalar)
    requires c < 0x80
    ensures |Bytes(e, c)| == CharSize(e)
  {
  }

  lemma StepMod(v: nat, d: int)
    ensures (10 * (v % WORD) + d) % WORD == (10 * v + d) % WORD
  {
    Bits.DivMod(v, WORD);
    assert 10 * v + d == (10 * (v % WORD) + d) + 10 * (v / WORD) * WORD;
  }

  lemma DecodesBack(e: Encoding, c: Scalar)
    requires Encodable(e, c)
    ensures DecodeChar(EncodeChar(c, e), e) == c
  {
    CharCorrect(e, c, Bytes(e, c));
  }

  /** A packed character below 0x80 is the character itself, and no other character packs to one. */
  lemma PackedNarrow(e: Encoding, c: Scalar, p: bv32)
    requires Encodable(e, c) && p == EncodeChar(c, e)
    ensures p < 0x80 <==> c < 0x80
    ensures c < 0x80 ==> p == c
  {
    DecodesBack(e, c);
    if p < 0x80 {
      assert DecodeChar(p, e) == p;
    }
  }

  /** GetNextChar at character `k` of a text. */
  method NextChar(src: seq<Byte>, e: Encoding, idx: nat, ghost cs: seq<Scalar>, ghost k: nat) returns (p: bv32)
    requires AllEncodable(e, cs) && src == Text(e, cs) && k <= |cs| && idx == |Text(e, cs[..k])| < |src|
    ensures k < |cs| && (p < 0x80 <==> cs[k] < 0x80) && (p < 0x80 ==> p == cs[k])
    ensures p < 0x80 ==> idx + CharSize(e) == |Text(e, cs[..k + 1])| <= |src|
  {
    assert cs[..|cs|] == cs;
    TextFrom(e, cs, k);
    TextFrom(e, cs, k + 1);
    CharCorrect(e, cs[k], src[idx..]);
    PackedNarrow(e, cs[k], EncodeChar(cs[k], e));
    p := GetNextChar(src[idx..], e);
    if p < 0x80 {
      Narrow(e, cs[k]);
    }
  }

  lemma ValueStep(cs: seq<Scalar>, k: nat)
    requires k < |cs| && AllDigits(cs[..k]) && IsDigit(cs[k])
    ensures AllDigits(cs[..k + 1]) && Value(cs[..k + 1]) == 10 * Value(cs[..k]) + DigitValue(cs[k])
  {
    assert cs[..k + 1][..k] == cs[..k];
  }

  /** StringToUInt on the text of `cs`. */
  method StringToUInt(src: seq<Byte>, e: Encoding, ghost cs: seq<Scalar>) returns (r: int)
    requires AllEncodable(e, cs) && src == Text(e, cs)
    ensures r == ParsedUInt(cs)
    ensures (forall i :: 0 <= i < |cs| ==> 0x30 <= cs[i] <= 0x39) ==>
              AllDigits(cs) && r == Value(cs) % 0x1_0000_0000_0000_0000
    ensures (exists i :: 0 <= i < |cs| && !(0x30 <= cs[i] <= 0x39)) ==> r == 0xFFFF_FFFF_FFFF_FFFF
  {
    r := 0;
    var idx := 0;
    ghost var k := 0;
    assert cs[..0] == [];
    while idx < |src|
      invariant k <= |cs| && idx == |Text(e, cs[..k])| <= |src|
      invariant AllDigits(cs[..k]) && r == Value(cs[..k]) % WORD
      decreases |cs| - k
    {
      var c := NextChar(src, e, idx, cs, k);
      if !IsDigit(c) {
        return WORD - 1;
      }
      ValueStep(cs, k);
      StepMod(Value(cs[..k]), DigitValue(c));
      r := (r * 10 + DigitValue(c)) % WORD;
      idx := idx + CharSize(e);
      k := k + 1;
    }
    WholeText(e, cs, k);
  }

  lemma StepI64(v: int, d: int)
    ensures ToI64(10 * ToI64(v) + d) == ToI64(10 * v + d)
  {
    var q := (v + HALF) / WORD;
    assert ToI64(v) == v - q * WORD;
    ShiftI64(10 * v + d, -10 * q);
  }

  lemma ShiftI64(x: int, k: int)
    ensures ToI64(x + k * WORD) == ToI64(x)
  {
    var y := x + HALF;
    assert y == (y / WORD) * WORD + y % WORD;
    assert y + k * WORD == (y / WORD + k) * WORD + y % WORD;
  }

  lemma CongruentI64(x: int)
    ensures (ToI64(x) - x) % WORD == 0 && (x - ToI64(x)) % WORD == 0
  {
    var q := (x + HALF) / WORD;
    assert x == ToI64(x) + q * WORD;
    MultipleOfWord(q);
    MultipleOfWord(-q);
  }

  lemma MultipleOfWord(q: int)
    ensures (q * WORD) % WORD == 0
  {
  }

  lemma SignI64(v: int, sign: int)
    requires sign == 1 || sign == -1
    ensures ToI64(ToI64(v) * sign) == ToI64(v * sign)
  {
    var q := (v + HALF) / WORD;
    assert ToI64(v) == v - q * WORD;
    if sign == 1 {
      ShiftI64(v, -q);
    } else {
      ShiftI64(-v, q);
    }
  }

  /** `digits` read so far: `k` of them, with the value `r` that they make. */
  ghost predicate ReadSoFar(digits: seq<Scalar>, k: nat, r: int) {
    k <= |digits| && AllDigits(digits[..k]) && r == ToI64(Value(digits[..k]))
  }

  lemma ReadOneMore(digits: seq<Scalar>, k: nat, r: int)
    requires k < |digits| && ReadSoFar(digits, k, r) && IsDigit(digits[k])
    ensures ReadSoFar(digits, k + 1, ToI64(r * 10 + DigitValue(digits[k])))
  {
    ValueStep(digits, k);
    StepI64(Value(digits[..k]), DigitValue(digits[k]));
  }

  /** The loop of StringToInt, from character `from` on. */
  method ReadDigits(src: seq<Byte>, e: Encoding, start: nat, ghost cs: seq<Scalar>, ghost from: nat)
      returns (ok: bool, r: int)
    requires AllEncodable(e, cs) && src == Text(e, cs) && from <= |cs| && start == |Text(e, cs[..from])| <= |src|
    ensures ok <==> AllDigits(cs[from..])
    ensures ok ==> r == ToI64(Value(cs[from..]))
  {
    r := 0;
    var idx := start;
    ghost var k := 0;
    ghost var digits := cs[from..];
    assert digits[..0] == [];
    while idx < |src|
      invariant ReadSoFar(digits, k, r) && idx == |Text(e, cs[..from + k])| <= |src|
      decreases |digits| - k
    {
      var c := NextChar(src, e, idx, cs, from + k);
      assert digits[k] == cs[from + k];
      if !IsDigit(c) {
        return false, 0;
      }
      ReadOneMore(digits, k, r);
      r := ToI64(r * 10 + DigitValue(c));
      idx := idx + CharSize(e);
      k := k + 1;
    }
    WholeText(e, cs, from + k);
    assert digits[..k] == digits;
    return true, r;
  }

  /** StringToInt on the text of `cs`; signed overflow wraps around. */
  method StringToInt(src: seq<Byte>, e: Encoding, ghost cs: seq<Scalar>) returns (r: int)
    requires AllEncodable(e, cs) && src == Text(e, cs) && cs != []
    ensures r == ParsedInt(cs)
    ensures var digits := if cs[0] == 0x2D then cs[1..] else cs;
            if forall i :: 0 <= i < |digits| ==> 0x30 <= digits[i] <= 0x39 then
              && AllDigits(digits) && -0x8000_0000_0000_0000 <= r < 0x8000_0000_0000_0000
              && (if cs[0] == 0x2D then r + Value(digits) else r - Value(digits)) % 0x1_0000_0000_0000_0000 == 0
            else r == 0x7FFF_FFFF_FFFF_FFFF
  {
    EmptyText(e, cs);
    assert cs[..0] == [] && cs[0..] == cs;
    var c := NextChar(src, e, 0, cs, 0);
    var sign := if c == MINUS then -1 else 1;
    var start := if c == MINUS then CharSize(e) else 0;
    ghost var from := if c == MINUS then 1 else 0;
    var ok;
    ok, r := ReadDigits(src, e, start, cs, from);
    if !ok {
      return HALF - 1;
    }
    SignI64(Value(cs[from..]), sign);
    r := ToI64(r * sign);
    CongruentI64(Value(cs[from..]) * sign);
  }

  // ----- printing -----

  function Offset(e: Encoding): nat {
    if e.Utf32BE? then 3 else if e.Utf16BE? then 1 else 0
  }

  /** What AppendUIntToString prints: the digits are counted as if the number were signed. */
  function PrintedUInt(n: nat): seq<Scalar> {
    Decimal(n, DigitCount(Abs(ToI64(n))))
  }

  function PrintedInt(n: int): seq<Scalar> {
    (if n < 0 then [MINUS] else []) + Decimal(Abs(n), DigitCount(Abs(n)))
  }

  /** The byte at `x` of a text of narrow characters whose places from `low` up to `high` are still to be
      written. */
  function CellByte(e: Encoding, cs: seq<Scalar>, low: nat, high: nat, x: nat): Byte {
    var i := x / CharSize(e);
    if x % CharSize(e) == Offset(e) && i < |cs| && !(low <= i < high) then Low8(cs[i]) else 0
  }

  /** Writing the last missing place writes one byte. */
  lemma CellStep(e: Encoding, cs: seq<Scalar>, low: nat, high: nat, idx: nat, x: nat)
    requires low < high <= |cs| && idx == (high - 1) * CharSize(e) + Offset(e)
    ensures CellByte(e, cs, low, high - 1, x) == if x == idx then Low8(cs[high - 1]) else CellByte(e, cs, low, high, x)
  {
    Bits.ModUnique(idx, CharSize(e), high - 1, Offset(e));
    Bits.DivMod(x, CharSize(e));
  }

  lemma DecimalLast(cs: seq<Scalar>, start: nat, m: nat, n: nat)
    requires m > 0 && start + m <= |cs| && cs[start..start + m] == Decimal(n, m)
    ensures cs[start + m - 1] == DigitChar(n % 10) && cs[start..start + m - 1] == Decimal(n / 10, m - 1)
  {
    var ds := cs[start..start + m];
    assert ds[m - 1] == cs[start + m - 1] && ds[..m - 1] == cs[start..start + m - 1];
  }

  ghost predicate Written(digits: array<Byte>, e: Encoding, cs: seq<Scalar>, low: nat, high: nat)
    reads digits
  {
    forall x :: 0 <= x < digits.Length ==> digits[x] == CellByte(e, cs, low, high, x)
  }

  method PutDigit(digits: array<Byte>, e: Encoding, idx: nat, b: Byte, ghost cs: seq<Scalar>, ghost low: nat, ghost high: nat)
    requires low < high <= |cs| && idx == (high - 1) * CharSize(e) + Offset(e) < digits.Length
    requires Written(digits, e, cs, low, high) && b == Low8(cs[high - 1])
    modifies digits
    ensures Written(digits, e, cs, low, high - 1)
  {
    digits[idx] := b;
    forall x | 0 <= x < digits.Length
      ensures digits[x] == CellByte(e, cs, low, high - 1, x)
    {
      CellStep(e, cs, low, high, idx, x);
    }
  }

  lemma InBuffer(e: Encoding, i: nat, n: nat)
    requires i < n
    ensures i * CharSize(e) + Offset(e) < n * 4
  {
  }

  /** One turn of the loop below, with `left` digits still to be written. */
  method PutLastDigit(digits: array<Byte>, e: Encoding, rest: nat, start: nat, left: nat, ghost cs: seq<Scalar>)
    requires left > 0 && start + left <= |cs| && |cs| * 4 <= digits.Length
    requires cs[start..start + left] == Decimal(rest, left) && Written(digits, e, cs, start, start + left)
    modifies digits
    ensures cs[start..start + left - 1] == Decimal(rest / 10, left - 1)
    ensures Written(digits, e, cs, start, start + left - 1)
  {
    DecimalLast(cs, start, left, rest);
    InBuffer(e, start + left - 1, |cs|);
    var idx := (start + left - 1) * CharSize(e) + Offset(e);
    PutDigit(digits, e, idx, Low8(DigitChar(rest % 10)), cs, start, start + left);
  }

  /** The loop both printing functions share: it writes the last `numDigits` digits, from the last one
      backwards, after the first `start` characters. */
  method PutDigits(digits: array<Byte>, e: Encoding, integer: nat, start: nat, numDigits: nat, ghost cs: seq<Scalar>)
    requires |cs| == start + numDigits && cs[start..] == Decimal(integer, numDigits)
    requires |cs| * 4 <= digits.Length && Written(digits, e, cs, start, |cs|)
    modifies digits
    ensures Written(digits, e, cs, start, start)
  {
    var rest, left := integer, numDigits;
    assert cs[start..|cs|] == cs[start..];
    while left > 0
      invariant start + left <= |cs| && cs[start..start + left] == Decimal(rest, left)
      invariant Written(digits, e, cs, start, start + left)
    {
      PutLastDigit(digits, e, rest, start, left, cs);
      rest, left := rest / 10, left - 1;
    }
  }

  // ----- the buffer as a text -----

  predicate AllNarrow(cs: seq<Scalar>) {
    forall i :: 0 <= i < |cs| ==> cs[i] < 0x80
  }

  /** One narrow character. */
  lemma NarrowBytes(e: Encoding, c: Scalar, j: nat)
    requires c < 0x80 && j < CharSize(e)
    ensures |Bytes(e, c)| == CharSize(e) && Bytes(e, c)[j] == if j == Offset(e) then Low8(c) else 0
  {
  }

  ghost predicate Cells(e: Encoding, cs: seq<Scalar>, b: seq<Byte>) {
    |b| == |cs| * CharSize(e) && forall x :: 0 <= x < |b| ==> b[x] == CellByte(e, cs, 0, 0, x)
  }

  lemma CellsFront(e: Encoding, cs: seq<Scalar>, b: seq<Byte>, n: nat, w: nat, at: nat)
    requires Cells(e, cs, b) && |cs| == n + 1 && w == CharSize(e) && at == n * w
    ensures |b| == at + w && Cells(e, cs[..n], b[..at])
  {
    forall x | 0 <= x < at
      ensures b[..at][x] == CellByte(e, cs[..n], 0, 0, x)
    {
      Bits.DivMod(x, w);
    }
  }

  lemma CellsLast(e: Encoding, cs: seq<Scalar>, b: seq<Byte>, n: nat, w: nat, at: nat)
    requires Cells(e, cs, b) && |cs| == n + 1 && w == CharSize(e) && at == n * w && cs[n] < 0x80 && |b| == at + w
    ensures b[at..] == Bytes(e, cs[n])
  {
    NarrowBytes(e, cs[n], 0);
    forall j | 0 <= j < w
      ensures b[at..][j] == Bytes(e, cs[n])[j]
    {
      Bits.ModUnique(at + j, w, n, j);
      NarrowBytes(e, cs[n], j);
    }
  }

  /** The buffer holds the text: a character a cell, the other bytes of the cell 0. */
  lemma {:induction false} NarrowText(e: Encoding, cs: seq<Scalar>, b: seq<Byte>)
    requires AllNarrow(cs) && Cells(e, cs, b)
    ensures b == Text(e, cs)
  {
    if cs == [] {
      assert b == [];
    } else {
      var n := |cs| - 1;
      var at := n * CharSize(e);
      CellsFront(e, cs, b, n, CharSize(e), at);
      CellsLast(e, cs, b, n, CharSize(e), at);
      NarrowText(e, cs[..n], b[..at]);
      assert cs[..n + 1] == cs && b == b[..at] + b[at..];
      TextAt(e, cs, n);
    }
  }

  // ----- appending -----

  lemma Pow10Values()
    ensures Pow10(18) == 1_000_000_000_000_000_000 && Pow10(19) == 10_000_000_000_000_000_000
  {
    assert Pow10(4) == 10_000 && Pow10(8) == 100_000_000;
    assert Pow10(12) == 1_000_000_000_000 && Pow10(16) == 10_000_000_000_000_000;
  }

  lemma {:induction false} DigitCountAtMost(n: nat, k: nat)
    requires n < Pow10(k) && k >= 1
    ensures DigitCount(n) <= k
  {
    if n >= 10 {
      assert k > 1 && n / 10 < Pow10(k - 1);
      DigitCountAtMost(n / 10, k - 1);
    }
  }

  lemma {:induction false} DecimalNarrow(n: nat, d: nat)
    ensures AllNarrow(Decimal(n, d))
    decreases d
  {
    if d > 0 {
      DecimalNarrow(n / 10, d - 1);
      DigitIsRead(n % 10);
    }
  }

  lemma EmptyCells(e: Encoding, cs: seq<Scalar>, x: nat)
    ensures CellByte(e, cs, 0, |cs|, x) == 0
  {
  }

  lemma FirstCell(e: Encoding, cs: seq<Scalar>, x: nat)
    requires cs != []
    ensures CellByte(e, cs, 1, |cs|, x) == if x == Offset(e) then Low8(cs[0]) else 0
  {
    Bits.ModUnique(Offset(e), CharSize(e), 0, Offset(e));
    Bits.DivMod(x, CharSize(e));
  }

  /** The end of both printing functions: the cells are appended as they stand. */
  method AppendCells(digits: array<Byte>, total: nat, dst: String, ghost cs: seq<Scalar>) returns (ok: bool)
    requires dst.Valid() && digits != dst.base && |cs| == total && total * 4 <= digits.Length && AllNarrow(cs)
    requires exists k: nat :: Written(digits, dst.enc, cs, k, k)
    modifies dst`writeCur, dst.base
    ensures dst.Valid() && (ok <==> old(dst.writeCur) + |Text(dst.enc, cs)| <= dst.size)
    ensures ok ==> dst.base[..dst.writeCur] == old(dst.base[..dst.writeCur]) + Text(dst.enc, cs)
    ensures !ok ==> dst.writeCur == old(dst.writeCur) && dst.base[..] == old(dst.base[..])
    ensures total <= |Text(dst.enc, cs)|
  {
    ghost var k: nat :| Written(digits, dst.enc, cs, k, k);
    var b := digits[..total * CharSize(dst.enc)];
    forall x | 0 <= x < |b|
      ensures b[x] == CellByte(dst.enc, cs, 0, 0, x)
    {
      assert digits[x] == CellByte(dst.enc, cs, k, k, x);
    }
    NarrowText(dst.enc, cs, b);
    ok := dst.AppendData(b);
  }

  lemma {:induction false} NarrowLength(e: Encoding, cs: seq<Scalar>)
    requires AllNarrow(cs)
    ensures |Text(e, cs)| == |cs| * CharSize(e) >= |cs|
  {
    if cs != [] {
      var n := |cs| - 1;
      NarrowLength(e, cs[..n]);
      TextAt(e, cs, n);
      assert cs[..n + 1] == cs;
      Narrow(e, cs[n]);
    }
  }

  lemma UIntFits(n: nat, d: nat, e: Encoding, cs: seq<Scalar>)
    requires n < WORD && d == DigitCount(Abs(ToI64(n))) && cs == PrintedUInt(n)
    ensures d <= 19 && AllNarrow(cs) && cs[0..] == cs == Decimal(n, d) && |Text(e, cs)| >= |cs|
  {
    Pow10Values();
    DigitCountAtMost(Abs(ToI64(n)), 19);
    DecimalNarrow(n, d);
    NarrowLength(e, cs);
  }

  lemma IntFits(n: int, d: nat, e: Encoding, cs: seq<Scalar>)
    requires -HALF < n < HALF && d == DigitCount(Abs(n)) && cs == PrintedInt(n)
    ensures d <= 19 && AllNarrow(cs) && |Text(e, cs)| >= |cs|
    ensures |cs| == d + (if n < 0 then 1 else 0) && cs[if n < 0 then 1 else 0..] == Decimal(Abs(n), d)
  {
    Pow10Values();
    DigitCountAtMost(Abs(n), 19);
    DecimalNarrow(Abs(n), d);
    NarrowLength(e, cs);
  }

  /** AppendUIntToString. */
  method AppendUIntToString(integer: nat, dst: String) returns (ok: bool)
    requires dst.Valid() && integer < WORD
    modifies dst`writeCur, dst.base
    ensures dst.Valid()
    ensures ok <==> old(dst.writeCur) + |Text(dst.enc, PrintedUInt(integer))| <= dst.size
    ensures ok ==> dst.base[..dst.writeCur] == old(dst.base[..dst.writeCur]) + Text(dst.enc, PrintedUInt(integer))
    ensures !ok ==> dst.writeCur == old(dst.writeCur) && dst.base[..] == old(dst.base[..])
  {
    var numDigits := NumberOfDigits(ToI64(integer));
    ghost var cs := PrintedUInt(integer);
    UIntFits(integer, numDigits, dst.enc, cs);
    if dst.size - dst.writeCur >= numDigits {
      var digits := new Byte[80](_ => 0);
      PutDigits(digits, dst.enc, integer, 0, numDigits, cs);
      ok := AppendCells(digits, numDigits, dst, cs);
    } else {
      ok := false;
    }
  }

  /** AppendIntToString. The smallest 64-bit number is out: its absolute value is no 64-bit number. */
  method AppendIntToString(integer: int, dst: String) returns (ok: bool)
    requires dst.Valid() && -HALF < integer < HALF
    modifies dst`writeCur, dst.base
    ensures dst.Valid()
    ensures ok <==> old(dst.writeCur) + |Text(dst.enc, PrintedInt(integer))| <= dst.size
    ensures ok ==> dst.base[..dst.writeCur] == old(dst.base[..dst.writeCur]) + Text(dst.enc, PrintedInt(integer))
    ensures !ok ==> dst.writeCur == old(dst.writeCur) && dst.base[..] == old(dst.base[..])
  {
    var numDigits := NumberOfDigits(integer);
    var start := if integer < 0 then 1 else 0;
    var totalChars := numDigits + start;
    ghost var cs := PrintedInt(integer);
    IntFits(integer, numDigits, dst.enc, cs);
    if dst.size - dst.writeCur >= totalChars {
      var digits := new Byte[80](_ => 0);
      if integer < 0 {
        digits[Offset(dst.enc)] := Low8(MINUS);
      }
      forall x | 0 <= x < digits.Length
        ensures digits[x] == CellByte(dst.enc, cs, start, |cs|, x)
      {
        if start == 1 {
          FirstCell(dst.enc, cs, x);
        } else {
          EmptyCells(dst.enc, cs, x);
        }
      }
      PutDigits(digits, dst.enc, Abs(integer), start, numDigits, cs);
      ok := AppendCells(digits, totalChars, dst, cs);
    } else {
      ok := false;
    }
  }

  // ----- round trips -----

  lemma DigitCountIs19(n: nat)
    requires Pow10(18) <= n < Pow10(19)
    ensures DigitCount(n) == 19
  {
    DigitCountAtMost(n, 19);
    DigitCountBounds(n);
    if DigitCount(n) <= 18 {
      Pow10Monotone(DigitCount(n), 18);
    }
  }

  lemma DecimalIsExact(n: nat, d: nat)
    requires n < Pow10(d) && n < WORD
    ensures AllDigits(Decimal(n, d)) && Value(Decimal(n, d)) == n && Value(Decimal(n, d)) % WORD == n
  {
    ValueOfDecimal(n, d);
    Small(n, Pow10(d));
    Small(n, WORD);
  }

  lemma Small(n: nat, d: nat)
    requires n < d
    ensures n % d == n
  {
  }

  lemma TooFewDigits(n: nat, d: nat)
    requires d <= 19 && Pow10(19) <= n < WORD
    ensures ParsedUInt(Decimal(n, d)) < n
  {
    Pow10Monotone(d, 19);
    ValueOfDecimal(n, d);
    Small(n % Pow10(d), WORD);
  }

  lemma SignedCount(n: nat)
    requires n < WORD
    ensures Abs(ToI64(n)) == if n < HALF then n else WORD - n
  {
  }

  lemma SmallUInt(n: nat, d: nat)
    requires n < HALF && d == DigitCount(n)
    ensures ParsedUInt(Decimal(n, d)) == n
  {
    DigitCountBounds(n);
    DecimalIsExact(n, d);
  }

  lemma WrappedUInt(n: nat, d: nat)
    requires HALF <= n < WORD && n < Pow10(19) && d == DigitCount(WORD - n)
    ensures ParsedUInt(Decimal(n, d)) == n
  {
    Pow10Values();
    DigitCountIs19(WORD - n);
    DecimalIsExact(n, d);
  }

  lemma HugeUInt(n: nat, d: nat)
    requires Pow10(19) <= n < WORD && d == DigitCount(WORD - n)
    ensures ParsedUInt(Decimal(n, d)) < n
  {
    Pow10Values();
    DigitCountAtMost(WORD - n, 19);
    TooFewDigits(n, d);
  }

  /** Parsing what AppendUIntToString printed gives the number back exactly below 10^19. From there on
      the digits are those of a signed number that has wrapped around, and there are too few of them. */
  lemma UIntRoundTrip(n: nat)
    requires n < WORD
    ensures ParsedUInt(PrintedUInt(n)) == n <==> n < Pow10(19)
  {
    SignedCount(n);
    if n < HALF {
      Pow10Values();
      SmallUInt(n, DigitCount(n));
    } else if n < Pow10(19) {
      WrappedUInt(n, DigitCount(WORD - n));
    } else {
      HugeUInt(n, DigitCount(WORD - n));
    }
  }

  /** Parsing what AppendIntToString printed gives the number back. */
  lemma IntRoundTrip(n: int)
    requires -HALF < n < HALF
    ensures PrintedInt(n) != [] && ParsedInt(PrintedInt(n)) == n
  {
    var d := DigitCount(Abs(n));
    DigitCountBounds(Abs(n));
    DecimalIsExact(Abs(n), d);
    var cs := PrintedInt(n);
    InI64(n);
    if n < 0 {
      assert cs[1..] == Decimal(-n, d);
    } else {
      assert cs == Decimal(n, d) && IsDigit(cs[0]);
    }
  }

  lemma InI64(x: int)
    requires -HALF <= x < HALF
    ensures ToI64(x) == x
  {
  }
}
