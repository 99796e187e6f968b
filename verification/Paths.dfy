/** MoveUpPath and _AppendPathToPath of tinybase-platform-linux.c: a path buffer is a stack of names. */
module Paths {
  import opened Unicode
  import opened Memory
  import opened Transcoding

  const SLASH: Byte := 0x2F
  const DOT: Byte := 0x2E

  type Name = seq<Byte>

  // ----- what a path means -----

  predicate Plain(c: Name) {
    SLASH !in c
  }

  predicate AllPlain(cs: seq<Name>) {
    forall i :: 0 <= i < |cs| ==> Plain(cs[i])
  }

  /** Each name followed by a slash. */
  function Render(cs: seq<Name>): seq<Byte> {
    if cs == [] then [] else Render(cs[..|cs| - 1]) + cs[|cs| - 1] + [SLASH]
  }

  /** The names a path closes with a slash, and what follows the last slash. */
  datatype Parts = Parts(names: seq<Name>, tail: Name)

  function Split(b: seq<Byte>): Parts {
    if b == [] then Parts([], [])
    else
      var p := Split(b[..|b| - 1]);
      if b[|b| - 1] == SLASH then Parts(p.names + [p.tail], []) else Parts(p.names, p.tail + [b[|b| - 1]])
  }

  lemma SplitOne(front: seq<Byte>, x: Byte)
    ensures Split(front + [x]) == var p := Split(front);
                                  if x == SLASH then Parts(p.names + [p.tail], []) else Parts(p.names, p.tail + [x])
  {
    assert (front + [x])[..|front|] == front;
  }

  lemma {:induction false} SplitRender(b: seq<Byte>)
    ensures Render(Split(b).names) + Split(b).tail == b
    decreases |b|
  {
    if b != [] {
      var front, x := b[..|b| - 1], b[|b| - 1];
      var p := Split(front);
      assert b == front + [x];
      SplitOne(front, x);
      SplitRender(front);
      if x == SLASH {
        RenderOne(p.names, p.tail);
      } else {
        Assoc(Render(p.names), p.tail, [x]);
      }
    }
  }

  lemma Assoc(a: seq<Byte>, b: seq<Byte>, c: seq<Byte>)
    ensures a + (b + c) == (a + b) + c
  {
  }

  lemma {:induction false} SplitPlain(b: seq<Byte>)
    ensures AllPlain(Split(b).names) && Plain(Split(b).tail)
    decreases |b|
  {
    if b != [] {
      SplitPlain(b[..|b| - 1]);
    }
  }

  lemma RenderOne(cs: seq<Name>, c: Name)
    ensures Render(cs + [c]) == Render(cs) + c + [SLASH]
  {
    assert (cs + [c])[..|cs|] == cs;
  }

  /** A path has one reading: Split finds the names it was made of. */
  lemma {:induction false} SplitUnique(cs: seq<Name>, t: Name)
    requires AllPlain(cs) && Plain(t)
    ensures Split(Render(cs) + t) == Parts(cs, t)
    decreases |Render(cs) + t|
  {
    if t != [] {
      var t', x := t[..|t| - 1], t[|t| - 1];
      assert t == t' + [x] && Plain(t');
      Assoc(Render(cs), t', [x]);
      SplitOne(Render(cs) + t', x);
      SplitUnique(cs, t');
    } else if cs != [] {
      var cs', c := cs[..|cs| - 1], cs[|cs| - 1];
      assert cs == cs' + [c] && Render(cs) + t == Render(cs);
      RenderOne(cs', c);
      SplitOne(Render(cs') + c, SLASH);
      SplitUnique(cs', c);
    }
  }

  /** The names of a path, whether or not it ends in a slash. */
  function Names(b: seq<Byte>): (cs: seq<Name>) {
    var p := Split(b);
    if p.tail == [] then p.names else p.names + [p.tail]
  }

  function Stripped(b: seq<Byte>): seq<Byte> {
    if b != [] && b[|b| - 1] == SLASH then b[..|b| - 1] else b
  }

  /** The path without its last slash. */
  function Body(cs: seq<Name>): seq<Byte> {
    if cs == [] then [] else Render(cs[..|cs| - 1]) + cs[|cs| - 1]
  }

  lemma RenderBody(cs: seq<Name>)
    requires cs != []
    ensures Render(cs) == Body(cs) + [SLASH]
  {
  }

  lemma StrippedIsBody(b: seq<Byte>)
    requires b != []
    ensures Stripped(b) == Body(Names(b)) && Names(b) != [] && AllPlain(Names(b))
  {
    SplitRender(b);
    SplitPlain(b);
    var p := Split(b);
    if p.tail == [] {
      assert p.names != [];
      RenderBody(p.names);
    } else {
      assert b[|b| - 1] == p.tail[|p.tail| - 1];
      assert (p.names + [p.tail])[..|p.names|] == p.names;
    }
  }

  lemma {:induction false} RenderPrefix(cs: seq<Name>, k: nat)
    requires k <= |cs|
    ensures Render(cs[..k]) <= Render(cs)
    ensures k < |cs| ==> Render(cs[..k]) <= Body(cs)
  {
    if k < |cs| {
      var front := cs[..|cs| - 1];
      assert front[..k] == cs[..k];
      RenderPrefix(front, k);
      RenderBody(cs);
    } else {
      assert cs[..k] == cs;
    }
  }

  // ----- MoveUpPath -----

  function Kept(cs: seq<Name>, k: nat): seq<Name> {
    if k < |cs| then cs[..|cs| - k] else []
  }

  /** What is left `k` levels up. The root alone, the first name empty, is not kept. */
  function MovedUp(cs: seq<Name>, k: nat): seq<Name> {
    var kept := Kept(cs, k);
    if kept == [[]] then [] else kept
  }

  lemma LastSlash(cs: seq<Name>)
    requires AllPlain(cs) && cs != []
    ensures IsLastByte(SLASH, Body(cs), if |cs| == 1 then None else Some(|Body(cs[..|cs| - 1])|))
    ensures |cs| > 1 ==> Body(cs)[..|Body(cs[..|cs| - 1])|] == Body(cs[..|cs| - 1])
  {
  }

  lemma LastUnique(b: Byte, hay: seq<Byte>, r: Option<nat>, r': Option<nat>)
    requires IsLastByte(b, hay, r) && IsLastByte(b, hay, r')
    ensures r == r'
  {
  }

  /** One level: cut at the last slash, or empty the path. */
  method MoveUpOne(path: String, ghost cs: seq<Name>) returns (more: bool)
    requires path.Valid() && AllPlain(cs) && path.base[..path.writeCur] == Body(cs)
    modifies path`writeCur
    ensures path.Valid() && path.base[..path.writeCur] == (if |cs| > 1 then Body(cs[..|cs| - 1]) else [])
    ensures path.writeCur <= old(path.writeCur)
    ensures more <==> |cs| > 1
  {
    var found := ReverseByteInBufferIdxSimple(SLASH, path.base[..path.writeCur]);
    if cs != [] {
      LastSlash(cs);
      LastUnique(SLASH, Body(cs), found, if |cs| == 1 then None else Some(|Body(cs[..|cs| - 1])|));
    }
    if found.None? {
      path.writeCur := 0;
      return false;
    }
    path.writeCur := found.value;
    assert path.base[..path.writeCur] == Body(cs)[..path.writeCur];
    return true;
  }

  /** The levels, one by one, each cutting the path without its last slash. */
  method MoveUpLevels(path: String, moveUpCount: nat, ghost cs: seq<Name>)
    requires path.Valid() && AllPlain(cs) && path.base[..path.writeCur] == Body(cs)
    modifies path`writeCur
    ensures path.Valid() && path.base[..path.writeCur] == Body(Kept(cs, moveUpCount))
    ensures path.writeCur <= old(path.writeCur)
  {
    assert cs[..|cs|] == cs;
    for count := 0 to moveUpCount
      invariant path.Valid() && path.base[..path.writeCur] == Body(Kept(cs, count))
      invariant path.writeCur <= old(path.writeCur)
    {
      ghost var kept := Kept(cs, count);
      var more := MoveUpOne(path, kept);
      if !more {
        return;
      }
      assert kept[..|kept| - 1] == Kept(cs, count + 1);
    }
  }

  lemma BodyEmpty(cs: seq<Name>)
    ensures Body(cs) == [] <==> cs == [] || cs == [[]]
  {
  }

  lemma SlashBackIn(b: seq<Byte>, cs: seq<Name>, k: nat, kept: seq<Name>)
    requires b != [] && Stripped(b) == Body(cs) && k >= 1 && kept == Kept(cs, k) && Body(kept) != []
    ensures |Body(kept)| < |b| && b[..|Body(kept)| + 1] == Render(kept)
  {
    BodyEmpty(kept);
    RenderBody(kept);
    RenderPrefix(cs, |kept|);
    PrefixTake(Render(kept), Body(cs), b);
  }

  lemma PrefixTake(a: seq<Byte>, c: seq<Byte>, b: seq<Byte>)
    requires a <= c <= b
    ensures |a| <= |b| && b[..|a|] == a
  {
  }

  /** Counting the last slash back in. */
  lemma CloseUp(all: seq<Byte>, n: nat, k: nat, w: nat, cs: seq<Name>)
    requires 0 < n <= |all| && cs == Names(all[..n]) && k >= 1 && w <= n && all[..w] == Body(Kept(cs, k))
    ensures w > 0 ==> w < n && all[..w + 1] == Render(MovedUp(cs, k))
    ensures w == 0 ==> [] == Render(MovedUp(cs, k))
  {
    BodyEmpty(Kept(cs, k));
    StrippedIsBody(all[..n]);
    if w > 0 {
      SlashBackIn(all[..n], cs, k, Kept(cs, k));
      assert all[..w + 1] == all[..n][..w + 1];
    }
  }

  method StripSlash(path: String)
    requires path.Valid() && path.writeCur > 0
    modifies path`writeCur
    ensures path.Valid() && path.base[..path.writeCur] == Stripped(old(path.base[..path.writeCur]))
  {
    ghost var b := path.base[..path.writeCur];
    if path.base[path.writeCur - 1] == SLASH {
      path.writeCur := path.writeCur - 1;
      assert path.base[..path.writeCur] == b[..|b| - 1];
    }
  }

  /** With no levels to go up the code leaves a slash that was there, and counts in one more byte if
      there was none. */
  method MoveUpPath(path: String, moveUpCount: nat) returns (moved: bool)
    requires path.Valid() && path.writeCur > 0
    modifies path`writeCur
    ensures moveUpCount >= 1 ==>
              path.Valid() &&
              path.base[..path.writeCur] == Render(MovedUp(Names(old(path.base[..path.writeCur])), moveUpCount))
    ensures moveUpCount == 0 ==>
              path.writeCur == |Stripped(old(path.base[..path.writeCur]))|
                               + if Stripped(old(path.base[..path.writeCur])) == [] then 0 else 1
    ensures moved <==> path.writeCur != |Stripped(old(path.base[..path.writeCur]))|
  {
    ghost var n := path.writeCur;
    ghost var cs := Names(path.base[..n]);
    StrippedIsBody(path.base[..n]);
    StripSlash(path);
    var currentWriteCur := path.writeCur;
    MoveUpLevels(path, moveUpCount, cs);
    if moveUpCount >= 1 {
      assert path.base[..n] == path.base[..][..n] && path.base[..path.writeCur] == path.base[..][..path.writeCur];
      CloseUp(path.base[..], n, moveUpCount, path.writeCur, cs);
      assert path.writeCur > 0 ==> path.base[..path.writeCur + 1] == path.base[..][..path.writeCur + 1];
    } else {
      assert cs[..|cs|] == cs;
    }
    if path.writeCur > 0 {
      path.writeCur := path.writeCur + 1;
    }
    moved := path.writeCur != currentWriteCur;
  }

  // ----- _AppendPathToPath -----

  /** Below: a `..` with nothing to go up from. The code then reads the byte before the buffer. */
  datatype Outcome = Done(stack: seq<Name>) | NoSpace | Below

  function Enter(stack: seq<Name>, c: Name, size: nat): Outcome {
    if c == [DOT] then Done(stack)
    else if c == [DOT, DOT] then (if stack == [] then Below else Done(MovedUp(stack, 1)))
    else if |Render(stack)| + |c| + 1 <= size then Done(stack + [c])
    else NoSpace
  }

  /** The names of `ss` entered one after the other from `ds` on, in a buffer of `size` bytes. */
  function Walk(ds: seq<Name>, ss: seq<Name>, size: nat): Outcome {
    if ss == [] then Done(ds)
    else
      var o := Walk(ds, ss[..|ss| - 1], size);
      if o.Done? then Enter(o.stack, ss[|ss| - 1], size) else o
  }

  lemma {:induction false} WalkStops(ds: seq<Name>, ss: seq<Name>, size: nat, k: nat)
    requires k <= |ss| && !Walk(ds, ss[..k], size).Done?
    ensures Walk(ds, ss, size) == Walk(ds, ss[..k], size)
  {
    if k < |ss| {
      var front := ss[..|ss| - 1];
      assert front[..k] == ss[..k];
      WalkStops(ds, front, size, k);
    } else {
      assert ss[..k] == ss;
    }
  }

  lemma {:induction false} SplitPrefix(b: seq<Byte>, k: nat)
    requires k <= |b|
    ensures Split(b[..k]).names <= Split(b).names
  {
    if k < |b| {
      var front := b[..|b| - 1];
      assert front[..k] == b[..k];
      SplitPrefix(front, k);
    } else {
      assert b[..k] == b;
    }
  }

  /** The code drops one slash at the front of what it appends to a path that is not empty. */
  function Skipped(src: seq<Byte>, writeCur: nat): seq<Byte> {
    if writeCur > 0 && src != [] && src[0] == SLASH then src[1..] else src
  }

  lemma NamesOfRender(cs: seq<Name>)
    requires AllPlain(cs)
    ensures Names(Render(cs)) == cs && (Render(cs) == [] <==> cs == [])
  {
    SplitUnique(cs, []);
    assert Render(cs) + [] == Render(cs);
  }

  /** `c0` and `c1` are the last two characters before byte `i`, as far as there are any. */
  predicate LastTwo(src: seq<Byte>, i: nat, c0: Byte, c1: Byte) {
    i <= |src| && (i >= 1 ==> c1 == src[i - 1]) && (i >= 2 ==> c0 == src[i - 2])
  }

  lemma LastTwoOfName(src: seq<Byte>, start: nat, i: nat, c0: Byte, c1: Byte)
    requires start <= i && LastTwo(src, i, c0, c1)
    ensures LastTwo(src[start..i], i - start, c0, c1)
  {
  }

  /** What the two characters before the slash say about the name. */
  lemma DotsByCount(name: Name, c0: Byte, c1: Byte)
    requires LastTwo(name, |name|, c0, c1)
    ensures name == [DOT] <==> |name| == 1 && c1 == DOT
    ensures name == [DOT, DOT] <==> |name| == 2 && c0 == DOT && c1 == DOT
  {
  }

  /** The end of a name: nothing, one level up, or the name and a slash. `c0` and `c1` are the last two
      characters read before the slash. */
  method CloseName(tmp: String, name: Name, dirCharCount: nat, c0: Byte, c1: Byte, ghost stack: seq<Name>) returns (ok: bool)
    requires tmp.Valid() && AllPlain(stack) && Plain(name) && tmp.base[..tmp.writeCur] == Render(stack)
    requires dirCharCount == |name| && LastTwo(name, |name|, c0, c1)
    requires Enter(stack, name, tmp.size) != Below
    modifies tmp`writeCur, tmp.base
    ensures tmp.Valid() && (ok <==> Enter(stack, name, tmp.size).Done?)
    ensures ok ==> AllPlain(Enter(stack, name, tmp.size).stack)
                   && tmp.base[..tmp.writeCur] == Render(Enter(stack, name, tmp.size).stack)
  {
    DotsByCount(name, c0, c1);
    if dirCharCount == 1 && c1 == DOT {
    } else if dirCharCount == 2 && c0 == DOT && c1 == DOT {
      NamesOfRender(stack);
      var moved := MoveUpPath(tmp, 1);
    } else {
      ok := tmp.AppendData(name);
      if !ok {
        return;
      }
      ok := tmp.AppendData([SLASH]);
      return;
    }
    return true;
  }

  lemma OpenNames(b: seq<Byte>)
    requires b != []
    ensures Render(Names(b)) == if b[|b| - 1] == SLASH then b else b + [SLASH]
    ensures AllPlain(Names(b))
  {
    StrippedIsBody(b);
    RenderBody(Names(b));
  }

  method OpenPath(tmp: String, ghost ds: seq<Name>) returns (ok: bool)
    requires tmp.Valid() && ds == Names(tmp.base[..tmp.writeCur])
    modifies tmp`writeCur, tmp.base
    ensures tmp.Valid() && AllPlain(ds)
    ensures ok <==> |Render(ds)| <= tmp.size
    ensures ok ==> tmp.base[..tmp.writeCur] == Render(ds)
  {
    if tmp.writeCur > 0 {
      OpenNames(tmp.base[..tmp.writeCur]);
      if tmp.base[tmp.writeCur - 1] != SLASH {
        ok := tmp.AppendData([SLASH]);
        return;
      }
    }
    return true;
  }

  lemma SplitSlash(src: seq<Byte>, i: nat)
    requires i < |src| && src[i] == SLASH
    ensures Split(src[..i + 1]) == Parts(Split(src[..i]).names + [Split(src[..i]).tail], [])
  {
    assert src[..i + 1] == src[..i] + [SLASH];
    SplitOne(src[..i], SLASH);
  }

  lemma WalkOne(ds: seq<Name>, ss: seq<Name>, c: Name, size: nat)
    requires Walk(ds, ss, size).Done?
    ensures Walk(ds, ss + [c], size) == Enter(Walk(ds, ss, size).stack, c, size)
  {
    assert (ss + [c])[..|ss|] == ss;
  }

  lemma WalkCut(ds: seq<Name>, src: seq<Byte>, k: nat, ss: seq<Name>, size: nat)
    requires k <= |src| && ss == Split(src[..k]).names && !Walk(ds, ss, size).Done?
    ensures Walk(ds, Split(src).names, size) == Walk(ds, ss, size)
  {
    SplitPrefix(src, k);
    assert Split(src).names[..|ss|] == ss;
    WalkStops(ds, Split(src).names, size, |ss|);
  }

  /** A slash closes the name read since the last one, and a name that cannot be entered ends the walk. */
  lemma NextName(ds: seq<Name>, src: seq<Byte>, i: nat, size: nat, p: Parts)
    requires i < |src| && src[i] == SLASH && p == Split(src[..i]) && Walk(ds, p.names, size).Done?
    ensures Plain(p.tail) && Split(src[..i + 1]).tail == []
    ensures Walk(ds, Split(src[..i + 1]).names, size) == Enter(Walk(ds, p.names, size).stack, p.tail, size)
    ensures var o := Enter(Walk(ds, p.names, size).stack, p.tail, size);
            !o.Done? ==> Walk(ds, Split(src).names, size) == o
  {
    SplitPlain(src[..i]);
    SplitSlash(src, i);
    WalkOne(ds, p.names, p.tail, size);
    if !Enter(Walk(ds, p.names, size).stack, p.tail, size).Done? {
      WalkCut(ds, src, i + 1, p.names + [p.tail], size);
    }
  }

  lemma NextByte(src: seq<Byte>, i: nat)
    requires i < |src| && src[i] != SLASH
    ensures Split(src[..i + 1]).names == Split(src[..i]).names
    ensures Split(src[..i + 1]).tail == Split(src[..i]).tail + [src[i]]
  {
    assert src[..i + 1][..i] == src[..i];
  }

  /** The first `i` bytes of `src` have been scanned: the closed names are entered in `b`, and the name
      that is being read starts at `readStart`. */
  ghost predicate Scanned(src: seq<Byte>, ds: seq<Name>, size: nat, i: nat, readStart: nat, dirCharCount: int,
                          b: seq<Byte>)
  {
    && readStart <= i <= |src| && Split(src[..i]).tail == src[readStart..i] && dirCharCount == i - readStart
    && var o := Walk(ds, Split(src[..i]).names, size);
    o.Done? && AllPlain(o.stack) && b == Render(o.stack)
  }

  lemma AtLetter(src: seq<Byte>, ds: seq<Name>, size: nat, i: nat, readStart: nat, dirCharCount: nat, b: seq<Byte>)
    requires Scanned(src, ds, size, i, readStart, dirCharCount, b) && i < |src| && src[i] != SLASH
    ensures Scanned(src, ds, size, i + 1, readStart, dirCharCount + 1, b)
  {
    NextByte(src, i);
  }

  /** What the slash at byte `i` does: it enters `name` into `stack`, with outcome `o`. */
  lemma SlashFacts(src: seq<Byte>, ds: seq<Name>, size: nat, i: nat, start: nat, count: nat, b: seq<Byte>)
      returns (stack: seq<Name>, o: Outcome)
    requires i < |src| && src[i] == SLASH && Scanned(src, ds, size, i, start, count, b)
    requires Walk(ds, Split(src).names, size) != Below
    ensures b == Render(stack) && AllPlain(stack) && Plain(src[start..i]) && o == Enter(stack, src[start..i], size)
    ensures o != Below && (!o.Done? ==> !Walk(ds, Split(src).names, size).Done?)
    ensures Split(src[..i + 1]).tail == [] && Walk(ds, Split(src[..i + 1]).names, size) == o
  {
    var p := Split(src[..i]);
    NextName(ds, src, i, size, p);
    stack := Walk(ds, p.names, size).stack;
    o := Enter(stack, p.tail, size);
  }

  lemma AfterSlash(src: seq<Byte>, ds: seq<Name>, size: nat, i: nat, b: seq<Byte>, o: Outcome)
    requires i < |src| && Split(src[..i + 1]).tail == [] && Walk(ds, Split(src[..i + 1]).names, size) == o
    requires o.Done? && AllPlain(o.stack) && b == Render(o.stack)
    ensures Scanned(src, ds, size, i + 1, i + 1, 0, b)
  {
  }

  /** The scan at a slash: the name that was being read is entered. */
  method AtSlash(src: seq<Byte>, tmp: String, i: nat, start: nat, count: nat, c0: Byte, c1: Byte, ghost ds: seq<Name>)
      returns (ok: bool)
    requires tmp.Valid() && i < |src| && Scanned(src, ds, tmp.size, i, start, count, tmp.base[..tmp.writeCur])
    requires Walk(ds, Split(src).names, tmp.size) != Below && src[i] == SLASH
    requires LastTwo(src, i, c0, c1)
    modifies tmp`writeCur, tmp.base
    ensures tmp.Valid()
    ensures ok ==> Scanned(src, ds, tmp.size, i + 1, i + 1, 0, tmp.base[..tmp.writeCur])
    ensures !ok ==> !Walk(ds, Split(src).names, tmp.size).Done?
  {
    ghost var stack, o := SlashFacts(src, ds, tmp.size, i, start, count, tmp.base[..tmp.writeCur]);
    LastTwoOfName(src, start, i, c0, c1);
    ok := CloseName(tmp, src[start..i], count, c0, c1, stack);
    if ok {
      AfterSlash(src, ds, tmp.size, i, tmp.base[..tmp.writeCur], o);
    }
  }

  lemma StartScan(src: seq<Byte>, ds: seq<Name>, size: nat, b: seq<Byte>)
    requires AllPlain(ds) && b == Render(ds)
    ensures Scanned(src, ds, size, 0, 0, 0, b)
  {
  }

  /** One turn of the scan. `c0` and `c1` are the two characters before byte `i`. */
  method ScanByte(src: seq<Byte>, tmp: String, i: nat, start: nat, count: nat, c0: Byte, c1: Byte, ghost ds: seq<Name>)
      returns (ok: bool, readStart: nat, dirCharCount: nat)
    requires tmp.Valid() && i < |src| && Scanned(src, ds, tmp.size, i, start, count, tmp.base[..tmp.writeCur])
    requires Walk(ds, Split(src).names, tmp.size) != Below
    requires LastTwo(src, i, c0, c1)
    modifies tmp`writeCur, tmp.base
    ensures tmp.Valid()
    ensures ok ==> Scanned(src, ds, tmp.size, i + 1, readStart, dirCharCount, tmp.base[..tmp.writeCur])
    ensures !ok ==> !Walk(ds, Split(src).names, tmp.size).Done?
  {
    if src[i] == SLASH {
      ok := AtSlash(src, tmp, i, start, count, c0, c1, ds);
      return ok, i + 1, 0;
    } else {
      AtLetter(src, ds, tmp.size, i, start, count, tmp.base[..tmp.writeCur]);
      return true, start, count + 1;
    }
  }

  /** The scan: every name of `src` closed by a slash is entered, and what follows the last slash is
      found from `readStart` on. */
  method Scan(src: seq<Byte>, tmp: String, ghost ds: seq<Name>) returns (ok: bool, readStart: nat, dirCharCount: nat)
    requires tmp.Valid() && AllPlain(ds) && tmp.base[..tmp.writeCur] == Render(ds)
    requires Walk(ds, Split(src).names, tmp.size) != Below
    modifies tmp`writeCur, tmp.base
    ensures tmp.Valid()
    ensures !ok ==> !Walk(ds, Split(src).names, tmp.size).Done?
    ensures ok ==> Scanned(src, ds, tmp.size, |src|, readStart, dirCharCount, tmp.base[..tmp.writeCur])
  {
    var c0, c1, c2: Byte := 0, 0, 0;
    ok, readStart, dirCharCount := true, 0, 0;
    StartScan(src, ds, tmp.size, tmp.base[..tmp.writeCur]);
    for readIdx := 0 to |src|
      invariant tmp.Valid() && LastTwo(src, readIdx, c1, c2)
      invariant Scanned(src, ds, tmp.size, readIdx, readStart, dirCharCount, tmp.base[..tmp.writeCur])
    {
      c0, c1, c2 := c1, c2, src[readIdx];
      ok, readStart, dirCharCount := ScanByte(src, tmp, readIdx, readStart, dirCharCount, c0, c1, ds);
      if !ok {
        return;
      }
    }
    ok := true;
  }

  lemma AllScanned(src: seq<Byte>, ds: seq<Name>, size: nat, readStart: nat, dirCharCount: nat, b: seq<Byte>)
    requires Scanned(src, ds, size, |src|, readStart, dirCharCount, b)
    ensures readStart <= |src| && src[readStart..] == Split(src).tail && dirCharCount == |src[readStart..]|
    ensures Walk(ds, Split(src).names, size).Done? && b == Render(Walk(ds, Split(src).names, size).stack)
  {
    assert src[..|src|] == src && src[readStart..|src|] == src[readStart..];
  }

  /** The last name as it stands, without a slash, and the 0 that ends a C string. */
  method AppendTail(tail: Name, dirCharCount: nat, tmp: String) returns (ok: bool)
    requires tmp.Valid() && tmp.size < tmp.base.Length && dirCharCount == |tail|
    modifies tmp`writeCur, tmp.base
    ensures tmp.Valid() && (ok <==> old(tmp.writeCur) + |tail| <= tmp.size)
    ensures ok ==> tmp.base[..tmp.writeCur] == old(tmp.base[..tmp.writeCur]) + tail && tmp.base[tmp.writeCur] == 0
  {
    if dirCharCount > 0 {
      ok := tmp.AppendData(tail);
      if !ok {
        return;
      }
    }
    tmp.base[tmp.writeCur] := 0;
    return true;
  }

  method AppendNames(rest: seq<Byte>, tmp: String, ghost ds: seq<Name>) returns (ok: bool)
    requires tmp.Valid() && tmp.size < tmp.base.Length && AllPlain(ds) && tmp.base[..tmp.writeCur] == Render(ds)
    requires Walk(ds, Split(rest).names, tmp.size) != Below
    modifies tmp`writeCur, tmp.base
    ensures tmp.Valid()
    ensures var o := Walk(ds, Split(rest).names, tmp.size);
            && (ok <==> o.Done? && |Render(o.stack)| + |Split(rest).tail| <= tmp.size)
            && (ok ==> tmp.base[..tmp.writeCur] == Render(o.stack) + Split(rest).tail && tmp.base[tmp.writeCur] == 0)
  {
    var readStart, dirCharCount;
    ok, readStart, dirCharCount := Scan(rest, tmp, ds);
    if ok {
      AllScanned(rest, ds, tmp.size, readStart, dirCharCount, tmp.base[..tmp.writeCur]);
      ok := AppendTail(rest[readStart..], dirCharCount, tmp);
    }
  }

  /** The path after the names of `p` have been entered from `ds` on, if everything fits. */
  function Entered(ds: seq<Name>, p: Parts, size: nat): Option<seq<Byte>> {
    var o := Walk(ds, p.names, size);
    if |Render(ds)| <= size && o.Done? && |Render(o.stack)| + |p.tail| <= size then Some(Render(o.stack) + p.tail)
    else None
  }

  /** What appending `src` to the path `b` gives, if it fits. */
  function Appended(b: seq<Byte>, src: seq<Byte>, size: nat): Option<seq<Byte>> {
    Entered(Names(b), Split(Skipped(src, |b|)), size)
  }

  /** _AppendPathToPath: `tmp` is a second string on the same bytes, and `dst` takes over how much it
      has written only when everything fitted. */
  method AppendPathToPath(src: seq<Byte>, dst: String) returns (ok: bool)
    requires dst.Valid() && dst.size < dst.base.Length
    requires Walk(Names(dst.base[..dst.writeCur]), Split(Skipped(src, dst.writeCur)).names, dst.size) != Below
    modifies dst`writeCur, dst.base
    ensures dst.Valid()
    ensures ok <==> Appended(old(dst.base[..dst.writeCur]), src, dst.size).Some?
    ensures ok ==> Some(dst.base[..dst.writeCur]) == Appended(old(dst.base[..dst.writeCur]), src, dst.size)
    ensures ok ==> dst.base[dst.writeCur] == 0
    ensures !ok ==> dst.writeCur == old(dst.writeCur)
  {
    ghost var ds := Names(dst.base[..dst.writeCur]);
    var tmp := new String(dst.base, dst.writeCur, dst.size, dst.enc);
    ok := OpenPath(tmp, ds);
    if !ok {
      return;
    }
    var rest := if dst.writeCur > 0 && src != [] && src[0] == SLASH then src[1..] else src;
    ok := AppendNames(rest, tmp, ds);
    if ok {
      dst.writeCur := tmp.writeCur;
    }
  }
}
