/** What appending to a path and moving up in it promise each other. */
module PathLaws {
  import opened Unicode
  import opened Memory
  import opened Paths

  // ----- what appending and moving up promise -----

  predicate Ordinary(c: Name) {
    Plain(c) && c != [] && c != [DOT] && c != [DOT, DOT]
  }

  predicate Relative(cs: seq<Name>) {
    cs != [] ==> cs[0] != []
  }

  predicate NoDots(cs: seq<Name>) {
    forall i :: 0 <= i < |cs| ==> cs[i] != [DOT] && cs[i] != [DOT, DOT]
  }

  /** Names other than `.` and `..` are all pushed, exactly when the result fits. */
  lemma {:induction false} OrdinaryNamesArePushed(ds: seq<Name>, ss: seq<Name>, size: nat)
    requires NoDots(ss)
    requires |Render(ds)| <= size
    ensures Walk(ds, ss, size) == if |Render(ds + ss)| <= size then Done(ds + ss) else NoSpace
  {
    if ss == [] {
      assert ds + ss == ds;
    } else {
      var front, c := ss[..|ss| - 1], ss[|ss| - 1];
      var all := ds + ss;
      assert all[..|all| - 1] == ds + front && ds + front + [c] == all;
      OrdinaryNamesArePushed(ds, front, size);
    }
  }

  lemma FirstName(cs: seq<Name>)
    requires cs != []
    ensures cs[0] + [SLASH] <= Render(cs)
  {
    RenderPrefix(cs, 1);
    assert cs[..1][..0] == [];
    assert Render(cs[..1]) == cs[0] + [SLASH];
  }

  /** A path begins with a slash exactly when its first name is empty. */
  lemma FirstByte(b: seq<Byte>)
    requires b != []
    ensures Names(b) != [] && (b[0] == SLASH <==> Names(b)[0] == [])
  {
    StrippedIsBody(b);
    OpenNames(b);
    FirstName(Names(b));
    var first := Names(b)[0];
    assert b[0] == Render(Names(b))[0] == (first + [SLASH])[0];
    assert Plain(first);
  }

  lemma OneEmptyName(cs: seq<Name>, k: nat)
    requires cs != [] && k >= 1
    ensures Kept(cs, k) == [[]] <==> |cs| == k + 1 && cs[0] == []
  {
  }

  /** MoveUpPath leaves the names but for the last `k`, each closed by a slash, unless the path begins
      with a slash and has `k` names below it: then it leaves nothing instead of the root. */
  lemma MoveUpLosesTheRoot(b: seq<Byte>, k: nat)
    requires b != [] && k >= 1
    ensures Render(MovedUp(Names(b), k)) == Render(Kept(Names(b), k)) <==> !(b[0] == SLASH && |Names(b)| == k + 1)
  {
    FirstByte(b);
    OneEmptyName(Names(b), k);
    var root: seq<Name> := [[]];
    RenderBody(root);
  }

  /** From "/a/" one level up leads to the empty path and not to "/". */
  lemma RootExample()
    ensures var b: seq<Byte> := [SLASH, 0x61, SLASH];
            Render(MovedUp(Names(b), 1)) == [] && Render(Kept(Names(b), 1)) == [SLASH]
  {
    var none: seq<Name>, root: seq<Name>, names: seq<Name> := [], [[]], [[], [0x61]];
    RenderOne(none, []);
    RenderOne(root, [0x61]);
    assert none + [[]] == root && root + [[0x61]] == names;
    assert Render(names) == [SLASH, 0x61, SLASH];
    NamesOfRender(names);
    assert Kept(names, 1) == root;
  }

  lemma UpFromClosed(ds: seq<Name>, ss: seq<Name>)
    requires AllPlain(ds + ss) && Relative(ds) && ss != []
    ensures MovedUp(Names(Render(ds + ss)), |ss|) == ds
  {
    NamesOfRender(ds + ss);
    assert (ds + ss)[..|ds|] == ds;
  }

  lemma UpFromOpen(ds: seq<Name>, ss: seq<Name>, t: Name)
    requires AllPlain(ds + ss) && Relative(ds) && Plain(t) && t != []
    ensures MovedUp(Names(Render(ds + ss) + t), |ss| + 1) == ds
  {
    SplitUnique(ds + ss, t);
    assert (ds + ss + [t])[..|ds|] == ds;
  }

  lemma UpFromOrdinary(ds: seq<Name>, ss: seq<Name>, t: Name)
    requires AllPlain(ds) && Relative(ds) && Plain(t) && |ss| + (if t == [] then 0 else 1) >= 1
    requires forall i :: 0 <= i < |ss| ==> Ordinary(ss[i])
    ensures MovedUp(Names(Render(ds + ss) + t), |ss| + if t == [] then 0 else 1) == ds
  {
    assert AllPlain(ds + ss);
    if t == [] {
      UpFromClosed(ds, ss);
      assert Render(ds + ss) + t == Render(ds + ss);
    } else {
      UpFromOpen(ds, ss, t);
    }
  }

  lemma AppendedOrdinary(b: seq<Byte>, src: seq<Byte>, size: nat, ds: seq<Name>, p: Parts)
    requires ds == Names(b) && p == Split(Skipped(src, |b|)) && Appended(b, src, size).Some?
    requires forall i :: 0 <= i < |p.names| ==> Ordinary(p.names[i])
    ensures Appended(b, src, size).value == Render(ds + p.names) + p.tail
  {
    OrdinaryNamesArePushed(ds, p.names, size);
  }

  lemma SomeNames(b: seq<Byte>)
    requires b != []
    ensures Plain(Split(b).tail) && |Names(b)| == |Split(b).names| + (if Split(b).tail == [] then 0 else 1) >= 1
  {
    SplitRender(b);
    SplitPlain(b);
  }

  lemma ClosedPath(b: seq<Byte>)
    ensures Render(Names(b)) == if b == [] then [] else Stripped(b) + [SLASH]
  {
    if b != [] {
      OpenNames(b);
    }
  }

  lemma PlainNames(b: seq<Byte>)
    ensures AllPlain(Names(b))
  {
    SplitPlain(b);
  }

  /** Moving up as many levels as ordinary names were appended, a last one without its slash included,
      gives back the path that was there, closed by a slash, or the empty path. */
  lemma MoveUpUndoesAppend(b: seq<Byte>, src: seq<Byte>, size: nat)
    requires Relative(Names(b)) && Appended(b, src, size).Some? && Skipped(src, |b|) != []
    requires var p := Split(Skipped(src, |b|)); forall i :: 0 <= i < |p.names| ==> Ordinary(p.names[i])
    ensures Render(MovedUp(Names(Appended(b, src, size).value), |Names(Skipped(src, |b|))|))
            == if b == [] then [] else Stripped(b) + [SLASH]
  {
    var rest := Skipped(src, |b|);
    var ds, p := Names(b), Split(rest);
    SomeNames(rest);
    PlainNames(b);
    AppendedOrdinary(b, src, size, ds, p);
    UpFromOrdinary(ds, p.names, p.tail);
    ClosedPath(b);
  }

  /** Whatever is appended, what is left of the names that were there is their front, and no `.` or `..`
      stands behind it. */
  lemma {:induction false} WalkLeavesNoDots(ds: seq<Name>, ss: seq<Name>, size: nat) returns (m: nat)
    requires Walk(ds, ss, size).Done?
    ensures m <= |ds| && m <= |Walk(ds, ss, size).stack|
    ensures Walk(ds, ss, size).stack[..m] == ds[..m] && NoDots(Walk(ds, ss, size).stack[m..])
  {
    if ss == [] {
      m := |ds|;
    } else {
      var front := ss[..|ss| - 1];
      m := WalkLeavesNoDots(ds, front, size);
      m := EnterLeavesNoDots(ds, Walk(ds, front, size).stack, ss[|ss| - 1], size, m);
    }
  }

  lemma EnterLeavesNoDots(ds: seq<Name>, stack: seq<Name>, c: Name, size: nat, m: nat) returns (m': nat)
    requires m <= |ds| && m <= |stack| && stack[..m] == ds[..m] && NoDots(stack[m..])
    requires Enter(stack, c, size).Done?
    ensures var after := Enter(stack, c, size).stack;
            m' <= |ds| && m' <= |after| && after[..m'] == ds[..m'] && NoDots(after[m'..])
  {
    var after := Enter(stack, c, size).stack;
    m' := if m <= |after| then m else |after|;
    assert |after| <= |stack| ==> after == stack[..|after|];
    assert after[..m'] == stack[..m][..m'] == ds[..m][..m'];
    assert forall i :: m' <= i < |after| && i < |stack| ==> after[i] == stack[m..][i - m];
  }

  // ----- appending in two goes -----

  lemma {:induction false} WalkConcat(ds: seq<Name>, ss: seq<Name>, ss': seq<Name>, size: nat)
    requires Walk(ds, ss, size).Done?
    ensures Walk(ds, ss + ss', size) == Walk(Walk(ds, ss, size).stack, ss', size)
  {
    if ss' == [] {
      assert ss + ss' == ss;
    } else {
      assert (ss + ss')[..|ss + ss'| - 1] == ss + ss'[..|ss'| - 1];
      WalkConcat(ds, ss, ss'[..|ss'| - 1], size);
    }
  }

  /** Behind a slash the scanner starts afresh. */
  lemma {:induction false} SplitConcat(a: seq<Byte>, b: seq<Byte>)
    requires Split(a).tail == []
    ensures Split(a + b) == Parts(Split(a).names + Split(b).names, Split(b).tail)
    decreases |b|
  {
    if b == [] {
      assert a + b == a;
    } else {
      var front, x := b[..|b| - 1], b[|b| - 1];
      assert a + b == (a + front) + [x] && b == front + [x];
      SplitOne(a + front, x);
      SplitOne(front, x);
      SplitConcat(a, front);
    }
  }

  /** Entering names never makes the path longer than the buffer. */
  lemma EnterFits(stack: seq<Name>, c: Name, size: nat)
    requires |Render(stack)| <= size && AllPlain(stack) && Plain(c) && Enter(stack, c, size).Done?
    ensures |Render(Enter(stack, c, size).stack)| <= size && AllPlain(Enter(stack, c, size).stack)
  {
    if c == [DOT, DOT] {
      RenderPrefix(stack, |stack| - 1);
    } else if c != [DOT] {
      RenderOne(stack, c);
    }
  }

  lemma {:induction false} WalkFits(ds: seq<Name>, ss: seq<Name>, size: nat)
    requires |Render(ds)| <= size && AllPlain(ds) && AllPlain(ss) && Walk(ds, ss, size).Done?
    ensures |Render(Walk(ds, ss, size).stack)| <= size && AllPlain(Walk(ds, ss, size).stack)
  {
    if ss != [] {
      var front := ss[..|ss| - 1];
      WalkFits(ds, front, size);
      EnterFits(Walk(ds, front, size).stack, ss[|ss| - 1], size);
    }
  }

  /** The walk over both sources at once, from where the first left off. */
  lemma AppendedRest(ds: seq<Name>, s1: seq<Byte>, s2: seq<Byte>, size: nat)
    requires AllPlain(ds) && |Render(ds)| <= size && Split(s1).tail == []
    ensures !Walk(ds, Split(s1).names, size).Done? ==>
              Walk(ds, Split(s1 + s2).names, size) == Walk(ds, Split(s1).names, size)
    ensures Walk(ds, Split(s1).names, size).Done? ==>
              var stack := Walk(ds, Split(s1).names, size).stack;
              && Names(Render(stack)) == stack && |Render(stack)| <= size
              && Walk(ds, Split(s1 + s2).names, size) == Walk(stack, Split(s2).names, size)
              && Split(s1 + s2).tail == Split(s2).tail
  {
    SplitConcat(s1, s2);
    var ss := Split(s1).names;
    if Walk(ds, ss, size).Done? {
      SplitPlain(s1);
      WalkFits(ds, ss, size);
      WalkConcat(ds, ss, Split(s2).names, size);
      NamesOfRender(Walk(ds, ss, size).stack);
    } else {
      assert (ss + Split(s2).names)[..|ss|] == ss;
      WalkStops(ds, ss + Split(s2).names, size, |ss|);
    }
  }

  lemma ClosedTail(s: seq<Byte>)
    requires s == [] || s[|s| - 1] == SLASH
    ensures Split(s).tail == []
  {
  }

  lemma EnteredClosed(ds: seq<Name>, p: Parts, size: nat)
    requires |Render(ds)| <= size && AllPlain(ds) && AllPlain(p.names) && p.tail == []
    ensures Entered(ds, p, size) ==
            if Walk(ds, p.names, size).Done? then Some(Render(Walk(ds, p.names, size).stack)) else None
  {
    if Walk(ds, p.names, size).Done? {
      WalkFits(ds, p.names, size);
      assert Render(Walk(ds, p.names, size).stack) + [] == Render(Walk(ds, p.names, size).stack);
    }
  }

  lemma EnteredInTwoGoes(ds: seq<Name>, s1: seq<Byte>, s2: seq<Byte>, size: nat)
    requires AllPlain(ds) && Split(s1).tail == []
    ensures Entered(ds, Split(s1 + s2), size) ==
            match Entered(ds, Split(s1), size)
            case None => None
            case Some(v) => Entered(Names(v), Split(s2), size)
  {
    if |Render(ds)| <= size {
      SplitPlain(s1);
      AppendedRest(ds, s1, s2, size);
      EnteredClosed(ds, Split(s1), size);
    }
  }

  /** Two calls of AppendPathToPath give what one call on both sources gives, success and bytes alike, if
      the first source ends in a slash and the second does not begin with one. */
  lemma AppendInTwoGoes(b: seq<Byte>, s1: seq<Byte>, s2: seq<Byte>, size: nat)
    requires s1 != [] && s1[|s1| - 1] == SLASH && (s2 != [] ==> s2[0] != SLASH)
    ensures Appended(b, s1 + s2, size) ==
            match Appended(b, s1, size)
            case None => None
            case Some(v) => Appended(v, s2, size)
  {
    var r1 := Skipped(s1, |b|);
    assert Skipped(s1 + s2, |b|) == r1 + s2;
    ClosedTail(r1);
    PlainNames(b);
    EnteredInTwoGoes(Names(b), r1, s2, size);
  }
}
