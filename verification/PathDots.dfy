/** What appending does to the bytes of a path, dot names and leading slashes included. */
module PathDots {
  import opened Unicode
  import opened Memory
  import opened Paths
  import opened PathLaws

  predicate EndsInSlash(s: seq<Byte>) {
    s == [] || s[|s| - 1] == 0x2F
  }

  predicate BeginsWithSlash(s: seq<Byte>) {
    s != [] && s[0] == 0x2F
  }

  // ----- three sources in a row -----

  lemma SplitClosed(cs: seq<Name>)
    requires AllPlain(cs)
    ensures Split(Render(cs)) == Parts(cs, [])
  {
    SplitUnique(cs, []);
    assert Render(cs) + [] == Render(cs);
  }

  /** The names `mid` between two sources. */
  lemma EnteredBetween(ds: seq<Name>, s1: seq<Byte>, mid: seq<Name>, s2: seq<Byte>, size: nat)
    requires AllPlain(ds) && AllPlain(mid) && Split(s1).tail == []
    ensures Entered(ds, Split(s1 + Render(mid) + s2), size) ==
            match Entered(ds, Split(s1), size)
            case None => None
            case Some(v) =>
              match Entered(Names(v), Parts(mid, []), size)
              case None => None
              case Some(w) => Entered(Names(w), Split(s2), size)
  {
    SplitClosed(mid);
    SplitConcat(s1, Render(mid));
    EnteredInTwoGoes(ds, s1 + Render(mid), s2, size);
    EnteredInTwoGoes(ds, s1, Render(mid), size);
  }

  /** What a successful append of a closed source leaves is closed and fits. */
  lemma EnteredIsClosed(ds: seq<Name>, s1: seq<Byte>, size: nat, v: seq<Byte>)
    requires AllPlain(ds) && Split(s1).tail == [] && Entered(ds, Split(s1), size) == Some(v)
    ensures v == Render(Names(v)) && AllPlain(Names(v)) && |v| <= size
  {
    SplitPlain(s1);
    WalkFits(ds, Split(s1).names, size);
    EnteredClosed(ds, Split(s1), size);
    NamesOfRender(Walk(ds, Split(s1).names, size).stack);
  }

  lemma RootOnly(cs: seq<Name>)
    requires AllPlain(cs)
    ensures Render(cs) == [0x2F] <==> cs == [[]]
  {
    var root: seq<Name> := [[]];
    RenderBody(root);
    NamesOfRender(root);
    NamesOfRender(cs);
  }

  // ----- a name and `..`, and `.` -----

  lemma UpAfterName(stack: seq<Name>, x: Name, size: nat)
    requires AllPlain(stack) && |Render(stack)| <= size && Ordinary(x)
    ensures Entered(stack, Parts([x, [DOT, DOT]], []), size) ==
            if |Render(stack)| + |x| + 1 > size then None
            else if stack == [[]] then Some([])
            else Some(Render(stack))
  {
    var one: seq<Name>, two: seq<Name> := [x], [x, [DOT, DOT]];
    assert one[..0] == [] && two[..1] == one;
    assert Walk(stack, one, size) == Enter(stack, x, size);
    assert (stack + [x])[..|stack|] == stack;
    EnteredClosed(stack, Parts(two, []), size);
  }

  lemma DotStays(stack: seq<Name>, size: nat)
    requires AllPlain(stack) && |Render(stack)| <= size
    ensures Entered(stack, Parts([[DOT]], []), size) == Some(Render(stack))
  {
    var one: seq<Name> := [[DOT]];
    assert one[..0] == [];
    assert Walk(stack, one, size) == Done(stack);
    EnteredClosed(stack, Parts(one, []), size);
  }

  lemma RenderTwo(x: Name, y: Name)
    ensures Render([x, y]) == x + [SLASH] + y + [SLASH]
  {
    var none: seq<Name>, one: seq<Name>, two: seq<Name> := [], [x], [x, y];
    assert none + [x] == one && one + [y] == two;
    RenderOne(none, x);
    assert Render(one) == [] + x + [SLASH] == x + [SLASH];
    RenderOne(one, y);
  }

  /** The slash at the front that the code drops is not among what is inserted. */
  lemma SkippedThrough(s1: seq<Byte>, mid: seq<Byte>, s2: seq<Byte>, n: nat)
    requires mid != [] && mid[0] != SLASH
    requires s1 == [] && n > 0 ==> !BeginsWithSlash(s2)
    ensures Skipped(s1 + mid + s2, n) == Skipped(s1, n) + mid + s2
    ensures Skipped(s1 + s2, n) == Skipped(s1, n) + s2
  {
    assert s1 != [] ==> (s1 + mid + s2)[1..] == s1[1..] + mid + s2 && (s1 + s2)[1..] == s1[1..] + s2;
  }

  lemma EmptyDestination(s: seq<Byte>, size: nat)
    ensures Entered(Names([]), Split(s), size) == Appended([], s, size)
  {
  }

  lemma Insert(b: seq<Byte>, s1: seq<Byte>, mid: seq<Name>, s2: seq<Byte>, size: nat)
    requires EndsInSlash(s1) && AllPlain(mid) && Render(mid) != [] && Render(mid)[0] != SLASH
    requires s1 == [] && b != [] ==> !BeginsWithSlash(s2)
    ensures Appended(b, s1, size).Some? ==>
              var v := Appended(b, s1, size).value;
              && v == Render(Names(v)) && AllPlain(Names(v)) && |v| <= size
              && Appended(b, s1 + s2, size) == Entered(Names(v), Split(s2), size)
    ensures Appended(b, s1, size).None? ==> Appended(b, s1 + s2, size).None?
    ensures Appended(b, s1 + Render(mid) + s2, size) ==
            match Appended(b, s1, size)
            case None => None
            case Some(v) =>
              match Entered(Names(v), Parts(mid, []), size)
              case None => None
              case Some(w) => Entered(Names(w), Split(s2), size)
  {
    var r1, ds := Skipped(s1, |b|), Names(b);
    SkippedThrough(s1, Render(mid), s2, |b|);
    ClosedTail(r1);
    PlainNames(b);
    EnteredBetween(ds, r1, mid, s2, size);
    EnteredInTwoGoes(ds, r1, s2, size);
    if Appended(b, s1, size).Some? {
      EnteredIsClosed(ds, r1, size, Appended(b, s1, size).value);
    }
  }

  /** A name and the `..` behind it cancel wherever they stand in the source, if the name fits; but at
      the root the code then goes on from the empty path. */
  lemma NameAndUpCancel(b: seq<Byte>, s1: seq<Byte>, x: Name, s2: seq<Byte>, size: nat)
    requires EndsInSlash(s1) && x != [] && 0x2F !in x && x != [0x2E] && x != [0x2E, 0x2E]
    requires s1 == [] && b != [] ==> !BeginsWithSlash(s2)
    ensures Appended(b, s1 + (x + [0x2F, 0x2E, 0x2E, 0x2F]) + s2, size) ==
            match Appended(b, s1, size)
            case None => None
            case Some(v) =>
              if |v| + |x| + 1 > size then None
              else if v == [0x2F] then Appended([], s2, size)
              else Appended(b, s1 + s2, size)
  {
    var mid: seq<Name> := [x, [DOT, DOT]];
    RenderTwo(x, [DOT, DOT]);
    assert Render(mid) == x + [0x2F, 0x2E, 0x2E, 0x2F];
    Insert(b, s1, mid, s2, size);
    if Appended(b, s1, size).Some? {
      var v := Appended(b, s1, size).value;
      UpAfterName(Names(v), x, size);
      RootOnly(Names(v));
      EmptyDestination(s2, size);
    }
  }

  /** A `.` may be left out wherever it stands in the source. */
  lemma DotIsNothing(b: seq<Byte>, s1: seq<Byte>, s2: seq<Byte>, size: nat)
    requires EndsInSlash(s1) && (s1 == [] && b != [] ==> !BeginsWithSlash(s2))
    ensures Appended(b, s1 + [0x2E, 0x2F] + s2, size) == Appended(b, s1 + s2, size)
  {
    var none: seq<Name>, mid: seq<Name> := [], [[DOT]];
    RenderOne(none, [DOT]);
    assert none + [[DOT]] == mid && Render(mid) == [0x2E, 0x2F];
    Insert(b, s1, mid, s2, size);
    if Appended(b, s1, size).Some? {
      DotStays(Names(Appended(b, s1, size).value), size);
    }
  }

  // ----- `..` and the path that is there -----

  lemma NamesOfTwo(p: seq<Byte>, name: Name, b: seq<Byte>)
    requires EndsInSlash(p) && Plain(name) && (b == p + name + [SLASH] || (name != [] && b == p + name))
    ensures Names(b) == Names(p) + [name] && p == Render(Names(p)) && AllPlain(Names(p)) && b != []
  {
    ClosedTail(p);
    SplitRender(p);
    SplitPlain(p);
    var cs := Split(p).names;
    assert p == Render(cs) && Names(p) == cs;
    SplitUnique(cs, name);
    SplitOne(p + name, SLASH);
  }

  lemma SplitUp()
    ensures Split([0x2E, 0x2E, 0x2F]) == Parts([[DOT, DOT]], [])
  {
    var none: seq<Name>, up: seq<Name> := [], [[DOT, DOT]];
    RenderOne(none, [DOT, DOT]);
    assert none + [[DOT, DOT]] == up && Render(up) == [0x2E, 0x2E, 0x2F];
    SplitClosed(up);
  }

  lemma UpFromStack(stack: seq<Name>, name: Name, size: nat)
    requires AllPlain(stack) && Plain(name) && |Render(stack + [name])| <= size
    ensures Entered(stack + [name], Parts([[DOT, DOT]], []), size)
            == Some(if stack == [[]] then [] else Render(stack))
  {
    var all, up: seq<Name> := stack + [name], [[DOT, DOT]];
    assert up[..0] == [] && all[..|stack|] == stack;
    assert Walk(all, up, size) == Enter(all, [DOT, DOT], size);
    EnteredClosed(all, Parts(up, []), size);
  }

  lemma AppendedPlainly(b: seq<Byte>, src: seq<Byte>, size: nat)
    requires b != [] ==> !BeginsWithSlash(src)
    ensures Appended(b, src, size) == Entered(Names(b), Split(src), size)
  {
    assert Skipped(src, |b|) == src;
  }

  /** The walk through `..` first, from the names of `p` and one more. */
  lemma UpAndOn(ds: seq<Name>, name: Name, s2: seq<Byte>, size: nat)
    requires AllPlain(ds) && Plain(name) && |Render(ds + [name])| <= size
    ensures Entered(ds + [name], Split([0x2E, 0x2E, 0x2F] + s2), size)
            == Entered(if ds == [[]] then [] else ds, Split(s2), size)
  {
    SplitUp();
    EnteredInTwoGoes(ds + [name], [0x2E, 0x2E, 0x2F], s2, size);
    UpFromStack(ds, name, size);
    NamesOfRender(ds);
  }

  /** A `..` at the front of the source takes away the last name of the path, whatever it is, and no
      more: the path `p` is left, or the empty path if `p` is the root. */
  lemma UpTakesLastName(p: seq<Byte>, name: Name, b: seq<Byte>, s2: seq<Byte>, size: nat)
    requires EndsInSlash(p) && 0x2F !in name && (b == p + name + [0x2F] || (name != [] && b == p + name))
    requires |p| + |name| + 1 <= size && (p != [] ==> !BeginsWithSlash(s2))
    ensures Appended(b, [0x2E, 0x2E, 0x2F] + s2, size) == Appended(if p == [0x2F] then [] else p, s2, size)
  {
    NamesOfTwo(p, name, b);
    RootOnly(Names(p));
    RenderOne(Names(p), name);
    UpAndOn(Names(p), name, s2, size);
    AppendedPlainly(b, [0x2E, 0x2E, 0x2F] + s2, size);
    AppendedPlainly(if p == [0x2F] then [] else p, s2, size);
  }

  // ----- without dot names -----

  lemma {:induction false} RenderMany(cs: seq<Name>, ds: seq<Name>)
    ensures Render(cs + ds) == Render(cs) + Render(ds)
  {
    if ds == [] {
      assert cs + ds == cs;
    } else {
      var front, d := ds[..|ds| - 1], ds[|ds| - 1];
      assert cs + ds == (cs + front) + [d] && ds == front + [d];
      RenderMany(cs, front);
      RenderOne(cs + front, d);
      RenderOne(front, d);
    }
  }

  lemma EnteredIsConcat(ds: seq<Name>, p: Parts, size: nat, whole: seq<Byte>)
    requires NoDots(p.names) && whole == Render(ds) + (Render(p.names) + p.tail)
    ensures Entered(ds, p, size) == if |whole| <= size then Some(whole) else None
  {
    RenderMany(ds, p.names);
    Assoc(Render(ds), Render(p.names), p.tail);
    if |Render(ds)| <= size {
      OrdinaryNamesArePushed(ds, p.names, size);
    }
  }

  /** The source follows the path and a slash byte by byte, exactly when that fits. */
  lemma AppendIsConcat(b: seq<Byte>, src: seq<Byte>, size: nat)
    requires NoDots(Split(src).names) && (b != [] ==> !BeginsWithSlash(src))
    ensures var whole := (if b == [] then [] else if b[|b| - 1] == 0x2F then b else b + [0x2F]) + src;
            Appended(b, src, size) == if |whole| <= size then Some(whole) else None
  {
    if b != [] {
      OpenNames(b);
    }
    SplitRender(src);
    EnteredIsConcat(Names(b), Split(src), size, Render(Names(b)) + src);
  }

  /** One slash at the front of the source is dropped if there is a path already. */
  lemma LeadingSlashIsDropped(b: seq<Byte>, src: seq<Byte>, size: nat)
    requires b != [] && !BeginsWithSlash(src)
    ensures Appended(b, [0x2F] + src, size) == Appended(b, src, size)
  {
    assert ([0x2F] + src)[1..] == src;
  }
}
