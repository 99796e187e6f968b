/** The byte-by-byte queries and edits of tinybase-memory.c. A `buffer` passed by value is the
    sequence of its bytes; INVALID_IDX is None. */
module Memory {
  import opened Unicode

  datatype Option<T> = None | Some(value: T)

  // ----- what a search promises -----

  predicate OccursAt(needle: seq<Byte>, hay: seq<Byte>, i: nat) {
    i + |needle| <= |hay| && hay[i..i + |needle|] == needle
  }

  /** The first index where `needle` occurs, or None if it occurs nowhere. */
  ghost predicate IsFirst(needle: seq<Byte>, hay: seq<Byte>, r: Option<nat>) {
    match r
    case Some(i) => OccursAt(needle, hay, i) && forall j: nat :: j < i ==> !OccursAt(needle, hay, j)
    case None => forall j: nat :: !OccursAt(needle, hay, j)
  }

  ghost predicate IsFirstByte(needle: Byte, hay: seq<Byte>, r: Option<nat>) {
    match r
    case Some(i) => i < |hay| && hay[i] == needle && needle !in hay[..i]
    case None => needle !in hay
  }

  ghost predicate IsLastByte(needle: Byte, hay: seq<Byte>, r: Option<nat>) {
    match r
    case Some(i) => i < |hay| && hay[i] == needle && needle !in hay[i + 1..]
    case None => needle !in hay
  }

  /** Any two searches that keep the promise agree. */
  lemma FirstUnique(needle: seq<Byte>, hay: seq<Byte>, r: Option<nat>, r': Option<nat>)
    requires IsFirst(needle, hay, r) && IsFirst(needle, hay, r')
    ensures r == r'
  {
  }

  lemma FirstByteUnique(needle: Byte, hay: seq<Byte>, r: Option<nat>, r': Option<nat>)
    requires IsFirstByte(needle, hay, r) && IsFirstByte(needle, hay, r')
    ensures r == r'
  {
  }

  // ----- comparing -----

  /** _CompareIdx: the first place where the buffers differ, or the amount compared. */
  method CompareIdx(a: seq<Byte>, b: seq<Byte>, amount: nat) returns (r: nat)
    requires amount <= |a| && amount <= |b|
    ensures r <= amount && a[..r] == b[..r] && (r < amount ==> a[r] != b[r])
  {
    for i := 0 to amount
      invariant a[..i] == b[..i]
    {
      if a[i] != b[i] {
        return i;
      }
    }
    return amount;
  }

  method EqualBuffers(a: seq<Byte>, b: seq<Byte>) returns (r: bool)
    ensures r <==> a == b
  {
    if |a| == |b| {
      if |a| == 0 {
        return true;
      } else if a[0] == b[0] && a[|a| - 1] == b[|b| - 1] {
        var n := CompareIdx(a, b, |a|);
        if n == |a| {
          return true;
        }
      }
    }
    return false;
  }

  // ----- searching -----

  method ByteInBufferIdxSimple(needle: Byte, hay: seq<Byte>) returns (r: Option<nat>)
    ensures IsFirstByte(needle, hay, r)
  {
    for i := 0 to |hay|
      invariant needle !in hay[..i]
    {
      if needle == hay[i] {
        return Some(i);
      }
    }
    assert hay[..|hay|] == hay;
    return None;
  }

  method ReverseByteInBufferIdxSimple(needle: Byte, hay: seq<Byte>) returns (r: Option<nat>)
    ensures IsLastByte(needle, hay, r)
  {
    if |hay| > 0 {
      var i := |hay| - 1;
      while i > 0
        invariant 0 <= i < |hay| && needle !in hay[i + 1..]
      {
        if hay[i] == needle {
          return Some(i);
        }
        i := i - 1;
      }
      if hay[0] == needle {
        return Some(0);
      }
      assert hay == [hay[0]] + hay[1..];
    }
    return None;
  }

  method BufferInBufferIdxSimple(needle: seq<Byte>, hay: seq<Byte>) returns (r: Option<nat>)
    requires |needle| >= 1
    ensures IsFirst(needle, hay, r)
  {
    if |hay| >= |needle| {
      var i := 0;
      while i < |hay| - |needle| + 1
        invariant 0 <= i <= |hay| - |needle| + 1
        invariant forall j: nat :: j < i ==> !OccursAt(needle, hay, j)
      {
        if hay[i] == needle[0] && hay[i + |needle| - 1] == needle[|needle| - 1] {
          var equal := EqualBuffers(hay[i..i + |needle|], needle);
          if equal {
            return Some(i);
          }
        }
        i := i + 1;
      }
    }
    return None;
  }

  // ----- editing -----

  /** CopyData; memcpy is a simultaneous assignment. */
  method CopyData(dst: array<Byte>, at: nat, dstSize: nat, src: seq<Byte>) returns (ok: bool)
    requires at + dstSize <= dst.Length
    modifies dst
    ensures ok <==> |src| <= dstSize
    ensures ok ==> dst[..] == old(dst[..at]) + src + old(dst[at + |src|..])
    ensures !ok ==> dst[..] == old(dst[..])
  {
    if dstSize >= |src| {
      forall i | 0 <= i < |src| {
        dst[at + i] := src[i];
      }
      return true;
    }
    return false;
  }

  function Replaced(s: seq<Byte>, old': Byte, new': Byte): (r: seq<Byte>)
    ensures |r| == |s|
    ensures forall i :: 0 <= i < |s| ==> r[i] == if s[i] == old' then new' else s[i]
  {
    seq(|s|, i requires 0 <= i < |s| => if s[i] == old' then new' else s[i])
  }

  function Occurrences(s: seq<Byte>, b: Byte): nat {
    if s == [] then 0 else (if s[0] == b then 1 else 0) + Occurrences(s[1..], b)
  }

  lemma {:induction false} OneFewer(s: seq<Byte>, k: nat, old': Byte, new': Byte)
    requires k < |s| && s[k] == old' && old' != new'
    ensures Occurrences(s[k := new'], old') + 1 == Occurrences(s, old')
  {
    var t := s[k := new'];
    if k == 0 {
      assert t[1..] == s[1..];
    } else {
      assert t[1..] == s[1..][k - 1 := new'];
      OneFewer(s[1..], k - 1, old', new');
    }
  }

  /** One replacement leaves the same to be replaced, and one occurrence fewer. */
  lemma ReplaceOne(s: seq<Byte>, k: nat, old': Byte, new': Byte)
    requires k < |s| && s[k] == old' && old' != new'
    ensures Replaced(s[k := new'], old', new') == Replaced(s, old', new')
    ensures Occurrences(s[k := new'], old') < Occurrences(s, old')
  {
    OneFewer(s, k, old', new');
    var a, b := Replaced(s[k := new'], old', new'), Replaced(s, old', new');
    assert forall i :: 0 <= i < |s| ==> a[i] == b[i];
  }

  /** What a hit in the window from `at` on says about the whole. */
  lemma HitInWindow(s: seq<Byte>, at: nat, b: Byte, r: Option<nat>)
    requires at <= |s| && b !in s[..at] && IsFirstByte(b, s[at..], r)
    ensures r.Some? ==> at + r.value < |s| && s[at + r.value] == b && b !in s[..at + r.value]
    ensures r.None? ==> b !in s
  {
  }

  lemma ReplaceNone(s: seq<Byte>, old': Byte, new': Byte)
    requires old' !in s
    ensures Replaced(s, old', new') == s
  {
  }

  /** ReplaceByteInBuffer on the first `writeCur` bytes of `base`. Each turn advances the window to the
      byte just replaced, possibly by 0, so it is the number of occurrences left that decreases. */
  method ReplaceByteInBuffer(oldByte: Byte, newByte: Byte, base: array<Byte>, writeCur: nat)
    requires writeCur <= base.Length
    requires oldByte != newByte || oldByte !in base[..writeCur]
    modifies base
    ensures base[..writeCur] == Replaced(old(base[..writeCur]), oldByte, newByte)
    ensures base[writeCur..] == old(base[writeCur..])
  {
    ghost var goal := Replaced(base[..writeCur], oldByte, newByte);
    ghost var s := base[..writeCur];
    var at := 0;
    var found := ByteInBufferIdxSimple(oldByte, base[at..writeCur]);
    while found.Some?
      invariant 0 <= at <= writeCur && s == base[..writeCur]
      invariant IsFirstByte(oldByte, s[at..], found) && oldByte !in s[..at]
      invariant oldByte != newByte || found.None?
      invariant Replaced(s, oldByte, newByte) == goal
      invariant base[writeCur..] == old(base[writeCur..])
      decreases Occurrences(s, oldByte)
    {
      HitInWindow(s, at, oldByte, found);
      var k := at + found.value;
      ReplaceOne(s, k, oldByte, newByte);
      base[k] := newByte;
      s := s[k := newByte];
      assert base[..writeCur] == s && s[..k] == s[k := newByte][..k];
      at := k;
      assert base[at..writeCur] == s[at..];
      found := ByteInBufferIdxSimple(oldByte, base[at..writeCur]);
    }
    HitInWindow(s, at, oldByte, found);
    ReplaceNone(s, oldByte, newByte);
  }

  function FirstOf(w: seq<Byte>, b: Byte): (k: nat)
    requires b in w
    ensures k < |w| && w[k] == b && forall j :: 0 <= j < k ==> w[j] != b
  {
    if w[0] == b then 0 else 1 + FirstOf(w[1..], b)
  }

  /** The window after `turns` turns of ReplaceByteInBuffer's loop with both bytes equal to `b`. */
  function WindowAfter(w: seq<Byte>, b: Byte, turns: nat): seq<Byte>
    decreases turns
  {
    if turns == 0 || b !in w then w
    else
      var k := FirstOf(w, b);
      WindowAfter(w[k := b][k..], b, turns - 1)
  }

  /** With equal bytes the loop never ends once the byte occurs: after any number of turns the window
      still holds it, so the search still succeeds. */
  lemma {:induction false} ReplaceBySelfIsStuck(w: seq<Byte>, b: Byte, turns: nat)
    requires b in w
    ensures b in WindowAfter(w, b, turns)
    decreases turns
  {
    if turns > 0 {
      var k := FirstOf(w, b);
      assert w[k := b][k..][0] == b;
      ReplaceBySelfIsStuck(w[k := b][k..], b, turns - 1);
    }
  }
}
