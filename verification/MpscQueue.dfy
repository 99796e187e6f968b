/** The free list when the consumer runs alone, and its code as methods on the queue structure. */
module MpscQueue {
  import opened MpscFreeList
  import opened MpscInvariant
  import opened MpscRuns

  // ----- Pop with nobody else running -----

  function Rank(s: State): nat {
    match s.pop
    case Idle(_) => 0
    case LastLoad(_) => 1
    case StubPush(_) => if Consumer in s.pushes && s.pushes[Consumer].Cleared? then 3 else 2
    case StubClear(_) => 4
    case HeadLoad(_) => 5
    case SecondLoad(_) => 6
  }

  /** The consumer's next access, its own push of the stub included. */
  function ConsumerAction(s: State): (a: Action)
    requires Coherent(s)
    ensures Enabled(s, a) && Coherent(Do(s, a)) && (s.pop.Idle? || Rank(Do(s, a)) < Rank(s))
  {
    if !s.pop.StubPush? then PopStep
    else if s.pushes[Consumer].Cleared? then Exchange(Consumer) else Link(Consumer)
  }

  /** Nobody ever waits for anybody: in every state the next access of every call that is running can be
      made, and so can the first of a new one. */
  lemma NobodyWaits(s: State, t: Tid, producer: nat, id: nat)
    requires Coherent(s)
    ensures t in s.pushes ==> Enabled(s, if s.pushes[t].Cleared? then Exchange(t) else Link(t))
    ensures Producer(producer) !in s.pushes && Node(id) !in s.owned ==> Enabled(s, BeginPush(producer, id))
    ensures Consumer !in s.pushes ==> Enabled(s, PopStep)
  {
  }

  /** The consumer alone finishes the Pop it is in. */
  function FinishPop(s: State): (s': State)
    requires Coherent(s)
    ensures s'.pop.Idle? && Coherent(s')
    decreases Rank(s)
  {
    if s.pop.Idle? then s else FinishPop(Do(s, ConsumerAction(s)))
  }

  /** One whole Pop without interference; pushes in flight stay where they are. */
  function PopAlone(s: State): (s': State)
    requires Coherent(s) && s.pop.Idle?
    ensures s'.pop.Idle? && Coherent(s')
  {
    FinishPop(Do(s, PopStep))
  }

  /** Everything pushed and not yet returned, oldest first. */
  function Queued(s: State): seq<Ptr>
    requires s.popped <= s.pushed
  {
    s.pushed[|s.popped|..]
  }

  /** A step of Pop logs what it returns, and pushes nothing. */
  ghost predicate Logged(s: State, s': State) {
    && s'.pushed == s.pushed
    && s'.popped == s.popped + if !s'.pop.Idle? || s'.pop.result == Null then [] else [s'.pop.result]
  }

  lemma FinishStep(s: State, s1: State)
    requires Coherent(s) && !s.pop.Idle? && s1 == Do(s, ConsumerAction(s))
    ensures FinishPop(s) == FinishPop(s1) && Rank(s1) < Rank(s)
  {
  }

  /** The producers are where they were. */
  ghost predicate SameFlight(s: State, s': State) {
    forall t: Tid :: t.Producer? ==>
      (t in s.pushes <==> t in s'.pushes) && (t in s.pushes ==> s'.pushes[t] == s.pushes[t])
  }

  lemma SameGaps(s: State, s': State, x: Ptr)
    requires SameFlight(s, s')
    ensures FrontGap(s, x) <==> FrontGap(s', x)
    ensures InFlight(s) <==> InFlight(s')
  {
    if t :| GapAt(s, x, t) {
      assert GapAt(s', x, t);
    }
    if t :| GapAt(s', x, t) {
      assert GapAt(s, x, t);
    }
  }

  /** What is true of `f` when the consumer has gone on from `s` to the end of the Pop it is in. */
  ghost predicate Finished(s: State, f: State, x: Ptr) {
    && f.pop.Idle? && Good(f) && f.pushed == s.pushed && SameFlight(s, f)
    && f.popped == s.popped + (if s.pop.Idle? || f.pop.result == Null then [] else [f.pop.result])
    && (OnTheWay(s, x) && !FrontGap(s, x) ==> f.pop.result == x)
  }

  lemma FinishedAfter(s: State, s1: State, f: State, x: Ptr)
    requires !s.pop.Idle? && Logged(s, s1) && Finished(s1, f, x) && (s1.pop.Idle? ==> f == s1)
    requires SameFlight(s, s1) && (OnTheWay(s, x) && !FrontGap(s, x) ==> OnTheWay(s1, x))
    ensures Finished(s, f, x)
  {
    SameGaps(s, s1, x);
  }

  lemma {:induction false} FinishPopFacts(s: State, x: Ptr)
    requires Good(s) && Coherent(s)
    ensures Finished(s, FinishPop(s), x)
    decreases Rank(s)
  {
    if !s.pop.Idle? {
      var s1 := Do(s, ConsumerAction(s));
      ConsumerStepFacts(s, s1, x);
      FinishStep(s, s1);
      FinishPopFacts(s1, x);
      FinishedAfter(s, s1, FinishPop(s1), x);
    }
  }

  lemma PopStepLogged(s: State, s': State)
    requires !s.pop.Idle? && !s.pop.StubPush? && s.pop.tail.Node? && s' == DoPop(s)
    ensures Logged(s, s')
  {
  }

  lemma StubStepLogged(s: State, s': State)
    requires s.pop.StubPush? && Consumer in s.pushes && s.pushes[Consumer].node == Stub
    requires s' == Do(s, if s.pushes[Consumer].Cleared? then Exchange(Consumer) else Link(Consumer))
    ensures Logged(s, s')
  {
  }

  lemma ConsumerKeepsFlight(s: State, s': State)
    requires Coherent(s) && s' == Do(s, ConsumerAction(s))
    ensures SameFlight(s, s')
  {
  }

  lemma ConsumerStepFacts(s: State, s': State, x: Ptr)
    requires Good(s) && Coherent(s) && !s.pop.Idle? && s' == Do(s, ConsumerAction(s))
    ensures Good(s') && Logged(s, s') && SameFlight(s, s')
    ensures OnTheWay(s, x) && !FrontGap(s, x) ==> OnTheWay(s', x)
  {
    GoodFacts(s);
    GoodStep(s, ConsumerAction(s));
    if s.pop.StubPush? {
      StubInHand(s);
      StubStepLogged(s, s');
    } else {
      PopStepLogged(s, s');
    }
    ConsumerKeepsFlight(s, s');
    SameGaps(s, s', x);
    if OnTheWay(s, x) && !FrontGap(s, x) {
      OnTheWayKept(s, ConsumerAction(s), x, s');
    }
  }

  lemma StubInHand(s: State)
    requires Good(s) && Consumer in s.pushes
    ensures s.pushes[Consumer].node == Stub
  {
    var c :| Inv(s, c);
    assert PushOk(s, c, Consumer);
  }

  lemma FirstStepAtStub(s: State, s': State)
    requires s.pop.Idle? && s.tail == Stub && s' == DoPop(s)
    ensures Logged(s, s') && s'.pushes == s.pushes && !s'.pop.StubPush?
  {
  }

  lemma FirstStepAtNode(s: State, s': State)
    requires s.pop.Idle? && s.tail.Node? && s' == DoPop(s)
    ensures Logged(s, s') && s'.pushes == s.pushes && !s'.pop.StubPush?
  {
  }

  lemma FirstStepFacts(s: State, s': State)
    requires Good(s) && s.pop.Idle? && Coherent(s) && s' == DoPop(s)
    ensures Logged(s, s') && Coherent(s') && SameFlight(s, s')
  {
    GoodFacts(s);
    if s.tail == Stub {
      FirstStepAtStub(s, s');
    } else {
      FirstStepAtNode(s, s');
    }
  }

  /** The logs after a whole Pop. */
  ghost predicate Popped(s: State, s': State) {
    && Good(s') && SameFlight(s, s') && s'.pushed == s.pushed && s'.pop.Idle?
    && s'.popped == s.popped + if s'.pop.result == Null then [] else [s'.pop.result]
  }

  lemma FinishedPopped(s: State, s1: State, f: State, x: Ptr)
    requires Logged(s, s1) && SameFlight(s, s1) && Finished(s1, f, x) && (s1.pop.Idle? ==> f == s1)
    ensures Popped(s, f) && (OnTheWay(s1, x) && !FrontGap(s, x) ==> f.pop.result == x)
  {
    SameGaps(s, s1, x);
  }

  lemma PopAloneLogs(s: State, s1: State, x: Ptr)
    requires Good(s) && s.pop.Idle? && Coherent(s) && s1 == Do(s, PopStep)
    ensures Coherent(s1) && Popped(s, FinishPop(s1))
    ensures OnTheWay(s1, x) && !FrontGap(s, x) ==> FinishPop(s1).pop.result == x
  {
    GoodStep(s, PopStep);
    FirstStepFacts(s, s1);
    FinishPopFacts(s1, x);
    FinishedPopped(s, s1, FinishPop(s1), x);
  }

  lemma PopAloneFront(s: State, x: Ptr)
    requires Good(s) && s.pop.Idle? && Coherent(s)
    requires |s.popped| < |s.pushed| && x == s.pushed[|s.popped|] && !FrontGap(s, x)
    ensures PopAlone(s).pop.result == x
  {
    OnTheWayStarts(s, x);
    PopAloneLogs(s, Do(s, PopStep), x);
  }

  lemma BehindIsMissing(s: State, c: seq<Ptr>, x: Ptr, t: Tid)
    requires Inv(s, c) && t in s.pushes && s.pushes[t].Exchanged? && s.pushes[t].prev == x
    ensures s.NextOf(x) == Null && s.head != x
  {
    assert PushOk(s, c, t);
    var i :| 0 <= i < |c| - 1 && c[i] == x && c[i + 1] == s.pushes[t].node;
    assert c[|c| - 1] != c[i];
  }

  lemma BeforeIsMissing(s: State, c: seq<Ptr>, x: Ptr, t: Tid)
    requires Inv(s, c) && t in s.pushes && s.pushes[t] == Exchanged(Stub, x)
    ensures s.NextOf(Stub) == Null && s.tail != x
  {
    assert PushOk(s, c, t);
    var i :| 0 <= i < |c| - 1 && c[i] == Stub && c[i + 1] == x;
    assert c[0] != c[i + 1];
  }

  /** The first access of Pop finds the stub or `x` at the front, and its link missing. */
  lemma GapStopsFirst(s: State, x: Ptr, s': State)
    requires Good(s) && s.pop.Idle? && |s.popped| < |s.pushed| && x == s.pushed[|s.popped|] && FrontGap(s, x)
    requires s' == Do(s, PopStep)
    ensures s'.pop == Idle(Null) || s'.pop == SecondLoad(x) || s'.pop == HeadLoad(x)
    ensures !s'.pop.Idle? ==> s'.NextOf(x) == Null && s'.head != x
  {
    var c :| Inv(s, c);
    FrontOfChain(s, c, x);
    var t :| GapAt(s, x, t);
    if s.pushes[t].prev == x {
      BehindIsMissing(s, c, x, t);
      assert s.tail == Stub ==> Joined(s, c[0], c[1]);
    } else {
      BeforeIsMissing(s, c, x, t);
    }
  }

  lemma GapStopsPop(s: State, x: Ptr)
    requires Good(s) && Coherent(s) && s.pop.Idle? && |s.popped| < |s.pushed| && x == s.pushed[|s.popped|]
    requires FrontGap(s, x)
    ensures PopAlone(s).pop.result == Null
  {
    var s1 := Do(s, PopStep);
    GapStopsFirst(s, x, s1);
    if s1.pop.SecondLoad? {
      var s2 := Do(s1, PopStep);
      assert s2 == s1.(pop := HeadLoad(x));
      FinishStep(s1, s2);
      FinishStep(s2, Do(s2, PopStep));
    } else if s1.pop.HeadLoad? {
      FinishStep(s1, Do(s1, PopStep));
    }
  }

  /** Without interference Pop returns the oldest queued node, and NULL exactly when there is none or the
      link right before or right behind it is missing. */
  lemma PopAloneExactly(s: State)
    requires Good(s) && s.pop.Idle?
    ensures s.popped <= s.pushed && Coherent(s)
    ensures PopAlone(s).pop.result
            == if Queued(s) == [] || FrontGap(s, Queued(s)[0]) then Null else Queued(s)[0]
  {
    GoodFacts(s);
    if Queued(s) == [] {
      PopAloneLogs(s, Do(s, PopStep), Null);
      GoodFacts(PopAlone(s));
    } else if FrontGap(s, Queued(s)[0]) {
      GapStopsPop(s, Queued(s)[0]);
    } else {
      PopAloneFront(s, Queued(s)[0]);
    }
  }

  /** With no push in flight Pop returns the oldest queued node, or NULL if there is none. */
  lemma QuietPop(s: State)
    requires Good(s) && s.pop.Idle? && !InFlight(s)
    ensures s.popped <= s.pushed && Coherent(s)
    ensures var s' := PopAlone(s);
            && Good(s') && !InFlight(s') && s'.popped <= s'.pushed && s'.pushed == s.pushed
            && if Queued(s) == [] then s'.pop.result == Null && Queued(s') == []
               else Queued(s) == [s'.pop.result] + Queued(s')
  {
    PopAloneExactly(s);
    PopAloneLogs(s, Do(s, PopStep), Null);
    var s' := PopAlone(s);
    GoodFacts(s');
    SameGaps(s, s', Null);
    if Queued(s) != [] {
      FrontGapIsInFlight(s, Queued(s)[0]);
      FrontIsNode(s, Queued(s)[0]);
      NextQueued(s, s');
    }
  }

  lemma FrontIsNode(s: State, x: Ptr)
    requires Good(s) && |s.popped| < |s.pushed| && x == s.pushed[|s.popped|]
    ensures x.Node?
  {
    var c :| Inv(s, c);
    FrontOfChain(s, c, x);
  }

  lemma NextQueued(s: State, s': State)
    requires s.popped < s.pushed && s'.pushed == s.pushed && s'.popped == s.popped + [Queued(s)[0]]
    ensures s'.popped <= s'.pushed && Queued(s) == [Queued(s)[0]] + Queued(s')
  {
  }

  /** Pop called `n` times in a row, and what the calls returned. */
  function PopTimes(s: State, n: nat): (r: (State, seq<Ptr>))
    requires Coherent(s) && s.pop.Idle?
    ensures Coherent(r.0) && r.0.pop.Idle? && |r.1| == n
    decreases n
  {
    if n == 0 then (s, [])
    else
      var s' := PopAlone(s);
      var rest := PopTimes(s', n - 1);
      (rest.0, [s'.pop.result] + rest.1)
  }

  lemma PopTimesStep(s: State, n: nat, s': State)
    requires Coherent(s) && s.pop.Idle? && s' == PopAlone(s) && n > 0
    ensures PopTimes(s, n).1 == [s'.pop.result] + PopTimes(s', n - 1).1
    ensures PopTimes(s, n).0 == PopTimes(s', n - 1).0
  {
  }

  lemma PopTimesZero(s: State)
    requires Coherent(s) && s.pop.Idle?
    ensures PopTimes(s, 0) == (s, [])
  {
  }

  lemma LastDrain(s: State, s': State)
    requires Coherent(s) && s.pop.Idle? && s' == PopAlone(s) && s'.pop.result == Null
    ensures PopTimes(s, 1).1 == [Null] && PopTimes(s, 1).0 == s'
  {
    PopTimesStep(s, 1, s');
    PopTimesZero(s');
  }

  lemma DrainStep(s: State, s': State, q: seq<Ptr>, q': seq<Ptr>, n: nat)
    requires Coherent(s) && s.pop.Idle? && s' == PopAlone(s) && q == [s'.pop.result] + q' && n == |q|
    requires PopTimes(s', n).1 == q' + [Null]
    ensures PopTimes(s, n + 1).1 == q + [Null] && PopTimes(s, n + 1).0 == PopTimes(s', n).0
  {
    PopTimesStep(s, n + 1, s');
    assert [s'.pop.result] + (q' + [Null]) == q + [Null];
  }

  /** With no push in flight, repeated Pops return every queued node in order and then NULL. */
  lemma {:induction false} QuietDrain(s: State)
    requires Good(s) && s.pop.Idle? && !InFlight(s)
    ensures s.popped <= s.pushed && Coherent(s)
    ensures PopTimes(s, |Queued(s)| + 1).1 == Queued(s) + [Null]
    ensures PopTimes(s, |Queued(s)| + 1).0.popped == s.pushed
    decreases |s.pushed| - |s.popped|
  {
    QuietPop(s);
    if Queued(s) == [] {
      LastDrain(s, PopAlone(s));
    } else {
      QuietDrain(PopAlone(s));
      DrainStep(s, PopAlone(s), Queued(s), Queued(PopAlone(s)), |Queued(s)|);
    }
  }

  // ----- the code, statement by statement -----

  /** struct mpsc_freelist together with the Next fields of all nodes. The ghost parameter `s` is
      the state of the step system that this memory belongs to. */
  class Queue {
    var head: Ptr
    var tail: Ptr
    var next: map<Ptr, Ptr>

    ghost predicate Holds(s: State)
      reads this
    {
      head == s.head && tail == s.tail && next == s.next
    }

    function Load(p: Ptr): Ptr
      reads this`next
    {
      if p in next then next[p] else Null
    }

    constructor (memory: map<Ptr, Ptr>)
      ensures Holds(Init(memory))
    {
      head := Stub;
      tail := Stub;
      next := memory;
    }

    /** MPSCFreeListPush by producer `t`, with nobody else running in between. */
    method Push(id: nat, ghost s: State, ghost t: nat) returns (ghost s': State)
      requires Holds(s) && Enabled(s, BeginPush(t, id))
      requires s.popped <= s.pushed
      modifies this
      ensures s' == Do(Do(Do(s, BeginPush(t, id)), Exchange(Producer(t))), Link(Producer(t)))
      ensures Holds(s') && s'.popped <= s'.pushed && Queued(s') == Queued(s) + [Node(id)]
    {
      next := next[Node(id) := Null];
      var prev := head;
      head := Node(id);
      next := next[prev := Node(id)];
      s' := Do(Do(Do(s, BeginPush(t, id)), Exchange(Producer(t))), Link(Producer(t)));
    }

    /** MPSCFreeListPop with nobody else running; pushes may be stalled between exchange and link. */
    method Pop(ghost s: State) returns (r: Ptr)
      requires Holds(s) && Good(s) && s.pop.Idle?
      modifies this
      ensures Coherent(s) && Holds(PopAlone(s)) && r == PopAlone(s).pop.result
      ensures s.popped <= s.pushed
      ensures r == if Queued(s) == [] || FrontGap(s, Queued(s)[0]) then Null else Queued(s)[0]
    {
      PopAloneExactly(s);
      GoodStep(s, PopStep);
      var t := tail;
      var n := Load(t);
      ghost var s1 := Do(s, PopStep);
      GoodFacts(s1);
      if t == Stub {
        if n == Null {
          return Null;
        }
        tail := n;
        t := n;
        n := Load(n);
        r := PopTail(t, n, s1);
      } else if n != Null {
        tail := n;
        r := t;
      } else {
        r := PopHead(t, s1);
      }
    }

    /** Pop after it has moved past the stub: `t` is a real node and `n` what its Next held. */
    method PopTail(t: Ptr, n: Ptr, ghost s: State) returns (r: Ptr)
      requires Holds(s) && Coherent(s) && s.pop == SecondLoad(t) && n == Load(t) && t != Stub
      modifies this
      ensures Holds(FinishPop(s)) && r == FinishPop(s).pop.result
    {
      ghost var s1 := Do(s, PopStep);
      assert FinishPop(s) == FinishPop(s1);
      if n != Null {
        tail := n;
        r := t;
      } else {
        r := PopHead(t, s1);
      }
    }

    /** Pop once Tail has no next node. */
    method PopHead(t: Ptr, ghost s: State) returns (r: Ptr)
      requires Holds(s) && Coherent(s) && s.pop == HeadLoad(t) && t != Stub
      modifies this
      ensures Holds(FinishPop(s)) && r == FinishPop(s).pop.result
    {
      var h := head;
      if t != h {
        assert FinishPop(s) == FinishPop(Do(s, PopStep)) == ReturnNull(s);
        return Null;
      }
      r := PushStub(t, s);
    }

    /** The rest of Pop once Tail is the last node: push the stub, then look at Tail's Next again. */
    method PushStub(t: Ptr, ghost s: State) returns (r: Ptr)
      requires Holds(s) && s.pop == HeadLoad(t) && t == s.head && Coherent(s) && t != Stub
      modifies this
      ensures Holds(FinishPop(s)) && r == FinishPop(s).pop.result
    {
      ghost var s1 := Do(s, PopStep);
      next := next[Stub := Null];
      ghost var s2 := Do(s1, PopStep);
      var prev := head;
      head := Stub;
      ghost var s3 := Do(s2, Exchange(Consumer));
      next := next[prev := Stub];
      ghost var s4 := Do(s3, Link(Consumer));
      assert FinishPop(s) == FinishPop(s1) == FinishPop(s2) == FinishPop(s3) == FinishPop(s4);
      var n := Load(t);
      ghost var s5 := Do(s4, PopStep);
      assert FinishPop(s4) == FinishPop(s5) == s5;
      if n != Null {
        tail := n;
        return t;
      }
      return Null;
    }
  }
}
