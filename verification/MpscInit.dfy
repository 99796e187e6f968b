/** What InitMPSCFreeList leaves to its caller: it does not write Stub.Next, and the queue works
    exactly when that field was NULL before. */
module MpscInit {
  import opened MpscFreeList
  import opened MpscRuns
  import opened MpscQueue

  /** Nothing is returned that was not pushed, in that order, and a Pop that runs alone returns the
      oldest queued node unless a link is missing right there. */
  ghost predicate Works(s: State) {
    && s.popped <= s.pushed && Coherent(s)
    && (s.pop.Idle? ==>
          PopAlone(s).pop.result
          == if Queued(s) == [] || FrontGap(s, Queued(s)[0]) then Null else Queued(s)[0])
  }

  ghost predicate WorksInEveryRun(next: map<Ptr, Ptr>) {
    forall ss: seq<State>, acts: seq<Action>, k: nat ::
      Steps(ss, acts) && ss[0] == Init(next) && k <= |acts| ==> Works(ss[k])
  }

  ghost predicate Reached(next: map<Ptr, Ptr>, s: State) {
    exists ss: seq<State>, acts: seq<Action> :: Steps(ss, acts) && ss[0] == Init(next) && ss[|acts|] == s
  }

  lemma ReachedStart(next: map<Ptr, Ptr>)
    ensures Reached(next, Init(next))
  {
    assert Steps([Init(next)], []);
  }

  lemma ReachedStep(next: map<Ptr, Ptr>, s: State, a: Action)
    requires Reached(next, s) && Enabled(s, a)
    ensures Reached(next, Do(s, a))
  {
    var ss: seq<State>, acts: seq<Action> :| Steps(ss, acts) && ss[0] == Init(next) && ss[|acts|] == s;
    assert Steps(ss + [Do(s, a)], acts + [a]);
    assert (ss + [Do(s, a)])[|acts + [a]|] == Do(s, a);
  }

  lemma ReachedWorks(next: map<Ptr, Ptr>, s: State)
    requires WorksInEveryRun(next) && Reached(next, s)
    ensures Works(s)
  {
  }

  lemma ZeroedStubWorks(next: map<Ptr, Ptr>)
    requires Init(next).NextOf(Stub) == Null
    ensures WorksInEveryRun(next)
  {
    forall ss: seq<State>, acts: seq<Action>, k: nat | Steps(ss, acts) && ss[0] == Init(next) && k <= |acts|
      ensures Works(ss[k])
    {
      RunKeepsGood(ss, acts, k);
      GoodFacts(ss[k]);
      if ss[k].pop.Idle? {
        PopAloneExactly(ss[k]);
      }
    }
  }

  /** A stale Stub.Next that leads on: the first Pop returns that node, which nobody pushed. */
  lemma StaleStubIsReturned(next: map<Ptr, Ptr>, x: Ptr) returns (s: State)
    requires x == Init(next).NextOf(Stub) != Null && Init(next).NextOf(x) != Null
    ensures Reached(next, s) && s.pop == Idle(x) && s.popped == [x] && s.pushed == []
  {
    var s0 := Init(next);
    ReachedStart(next);
    var s1 := Do(s0, PopStep);
    ReachedStep(next, s0, PopStep);
    s := Do(s1, PopStep);
    ReachedStep(next, s1, PopStep);
  }

  /** A stale Stub.Next that leads to a last node: the first Pop returns NULL and leaves Tail at that
      node, off the chain. */
  lemma StaleStubMovesTail(next: map<Ptr, Ptr>, x: Ptr) returns (s: State)
    requires x == Init(next).NextOf(Stub) != Null && Init(next).NextOf(x) == Null
    ensures Reached(next, s) && s == Init(next).(tail := x)
  {
    var s0 := Init(next);
    ReachedStart(next);
    var s1 := Do(s0, PopStep);
    ReachedStep(next, s0, PopStep);
    var s2 := Do(s1, PopStep);
    ReachedStep(next, s1, PopStep);
    s := Do(s2, PopStep);
    ReachedStep(next, s2, PopStep);
  }

  /** From then on nodes are lost: `b` is pushed and queued, nobody is running, and Pop returns NULL and
      changes nothing, however often it is called. */
  lemma StaleStubLosesNodes(next: map<Ptr, Ptr>, x: Ptr, b: nat) returns (s: State)
    requires x == Init(next).NextOf(Stub) != Null && Init(next).NextOf(x) == Null && Node(b) != x
    ensures Reached(next, s) && s.pop == Idle(Null) && s.pushes == map[]
    ensures s.popped == [] && s.pushed == [Node(b)] && PopAlone(s) == s
  {
    var s0 := StaleStubMovesTail(next, x);
    var t := Producer(0);
    var s1 := Do(s0, BeginPush(0, b));
    ReachedStep(next, s0, BeginPush(0, b));
    var s2 := Do(s1, Exchange(t));
    ReachedStep(next, s1, Exchange(t));
    s := Do(s2, Link(t));
    ReachedStep(next, s2, Link(t));
    assert s.NextOf(x) == Null && s.tail == x && s.head == Node(b);
    var s4 := Do(s, PopStep);
    assert s4 == s.(pop := HeadLoad(x));
    assert FinishPop(s4) == Do(s4, PopStep) == ReturnNull(s4);
  }

  /** InitMPSCFreeList does not write Stub.Next. In every run nothing but pushed nodes come back, in
      order, and every quiet Pop returns the oldest of them, if and only if that field was NULL. */
  lemma InitNeedsZeroedStub(next: map<Ptr, Ptr>)
    ensures WorksInEveryRun(next) <==> Init(next).NextOf(Stub) == Null
  {
    var x := Init(next).NextOf(Stub);
    if x == Null {
      ZeroedStubWorks(next);
    } else if WorksInEveryRun(next) {
      if Init(next).NextOf(x) != Null {
        var s := StaleStubIsReturned(next, x);
        ReachedWorks(next, s);
        assert false;
      } else {
        var b := if x.Node? then x.id + 1 else 0;
        var s := StaleStubLosesNodes(next, x, b);
        ReachedWorks(next, s);
        assert false;
      }
    }
  }
}
