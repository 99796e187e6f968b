/** What holds in every run of the free list: first in first out, the chain from Tail to Head, safe
    reuse of nodes, and what a NULL from Pop means. */
module MpscRuns {
  import opened MpscFreeList
  import opened MpscInvariant

  // ----- what holds in every run -----

  ghost predicate Good(s: State) {
    exists c :: Inv(s, c)
  }

  /** The consumer pushes the stub in one place of Pop only. */
  predicate Coherent(s: State) {
    Consumer in s.pushes <==> s.pop.StubPush?
  }

  lemma GoodFacts(s: State)
    requires Good(s)
    ensures s.popped <= s.pushed && Coherent(s) && s.tail != Null
    ensures !s.pop.Idle? ==> s.pop.tail == s.tail && s.tail.Node?
  {
    var c :| Inv(s, c);
  }

  lemma StepKeeps(s: State, a: Action, c: seq<Ptr>)
    requires Inv(s, c) && Enabled(s, a)
    ensures Inv(Do(s, a), NextChain(s, a, c))
  {
    match a
    case BeginPush(t, id) => BeginPushKeeps(s, c, t, id);
    case Exchange(t) => ExchangeKeeps(s, c, t, Do(s, a), c + [s.pushes[t].node]);
    case Link(t) => LinkKeeps(s, c, t, Do(s, a));
    case PopStep => PopStepKeeps(s, c);
    case ClientWrite(id, v) => ClientWriteKeeps(s, c, id, v, Do(s, a));
  }

  lemma GoodStep(s: State, a: Action)
    requires Good(s) && Enabled(s, a)
    ensures Good(Do(s, a))
  {
    var c :| Inv(s, c);
    StepKeeps(s, a, c);
  }

  lemma {:induction false} RunKeepsGood(ss: seq<State>, acts: seq<Action>, k: nat)
    requires Run(ss, acts) && k <= |acts|
    ensures Good(ss[k])
  {
    if k == 0 {
      assert Inv(ss[0], [Stub]);
    } else {
      RunKeepsGood(ss, acts, k - 1);
      GoodStep(ss[k - 1], acts[k - 1]);
    }
  }

  /** The logs agree: what was exchanged onto Head is what Pop returned, then the chain. */
  ghost predicate Fifo(s: State) {
    && (exists c :: Chain(s, c) && s.pushed == s.popped + Real(c))
    && s.popped <= s.pushed
    && (forall p :: p in s.pushed ==> p.Node?)
  }

  lemma OnlyExchangesAreLogged(s: State, a: Action)
    requires Enabled(s, a) && !a.Exchange?
    ensures Do(s, a).pushed == s.pushed
  {
  }

  lemma NewPushIsNode(s: State, a: Action)
    requires Good(s) && Enabled(s, a) && forall p :: p in s.pushed ==> p.Node?
    ensures forall p :: p in Do(s, a).pushed ==> p.Node?
  {
    if a.Exchange? {
      var c :| Inv(s, c);
      assert PushOk(s, c, a.t);
    } else {
      OnlyExchangesAreLogged(s, a);
    }
  }

  lemma {:induction false} PushedAreNodes(ss: seq<State>, acts: seq<Action>, k: nat)
    requires Run(ss, acts) && k <= |acts|
    ensures forall p :: p in ss[k].pushed ==> p.Node?
  {
    if k > 0 {
      PushedAreNodes(ss, acts, k - 1);
      RunKeepsGood(ss, acts, k - 1);
      NewPushIsNode(ss[k - 1], acts[k - 1]);
    }
  }

  /** Nothing is lost, duplicated or reordered, and the stub is never returned. */
  lemma FifoInEveryRun(ss: seq<State>, acts: seq<Action>, k: nat)
    requires Run(ss, acts) && k <= |acts|
    ensures Fifo(ss[k])
  {
    RunKeepsGood(ss, acts, k);
    PushedAreNodes(ss, acts, k);
  }

  /** The pair (p, n) waits for the link of exactly one push. */
  ghost predicate PendingOnce(s: State, p: Ptr, n: Ptr) {
    exists t :: t in s.pushes && s.pushes[t] == Exchanged(p, n) && OnlyHolder(s, p, t)
  }

  ghost predicate OnlyHolder(s: State, p: Ptr, t: Tid) {
    forall u :: u in s.pushes && s.pushes[u].Exchanged? && s.pushes[u].prev == p ==> u == t
  }

  /** The chain with its gaps: neighbours joined by Next, or by the one push
      that still has to link them; every such push is a gap; the stub is pushed only when absent. */
  ghost predicate ChainWithGaps(s: State, c: seq<Ptr>) {
    && Chain(s, c)
    && (forall i :: 0 <= i < |c| - 1 && s.NextOf(c[i]) != c[i + 1] ==>
         s.NextOf(c[i]) == Null && PendingOnce(s, c[i], c[i + 1]))
    && (forall t :: t in s.pushes && s.pushes[t].Exchanged? ==>
         s.NextOf(s.pushes[t].prev) == Null && Adjacent(c, s.pushes[t].prev, s.pushes[t].node))
    && (forall t :: t in s.pushes && s.pushes[t] == Cleared(Stub) ==> Stub !in c)
  }

  lemma ChainInEveryRun(ss: seq<State>, acts: seq<Action>, k: nat)
    requires Run(ss, acts) && k <= |acts|
    ensures exists c :: ChainWithGaps(ss[k], c)
  {
    RunKeepsGood(ss, acts, k);
    GoodChain(ss[k]);
  }

  lemma GoodChain(s: State)
    requires Good(s)
    ensures exists c :: ChainWithGaps(s, c)
  {
    var c :| Inv(s, c);
    assert forall t :: t in s.pushes ==> PushOk(s, c, t);
    forall i | 0 <= i < |c| - 1 && s.NextOf(c[i]) != c[i + 1]
      ensures PendingOnce(s, c[i], c[i + 1])
    {
      assert Joined(s, c[i], c[i + 1]);
      var t :| t in s.pushes && s.pushes[t] == Exchanged(c[i], c[i + 1]);
      forall u | u in s.pushes && s.pushes[u].Exchanged? && s.pushes[u].prev == c[i]
        ensures u == t
      {
        AdjacentUnique(c, c[i], s.pushes[u].node, s.pushes[t].node);
      }
      assert OnlyHolder(s, c[i], t);
    }
    assert ChainWithGaps(s, c);
  }

  // ----- safe reuse of nodes -----

  /** The nodes whose Next a queue step loads or stores. */
  function Touches(s: State, a: Action): set<Ptr>
    requires Enabled(s, a)
  {
    match a
    case BeginPush(t, id) => {Node(id)}
    case Exchange(t) => {}
    case Link(t) => {s.pushes[t].prev}
    case PopStep =>
      (match s.pop
       case Idle(_) => {s.tail}
       case SecondLoad(tail) => {tail}
       case HeadLoad(tail) => {}
       case StubClear(tail) => {Stub}
       case LastLoad(tail) => {tail})
    case ClientWrite(id, v) => {}
  }

  lemma StoresCommute(s: State, p: Ptr, v: Ptr, q: Ptr, w: Ptr)
    requires p != q
    ensures s.Store(p, v).Store(q, w) == s.Store(q, w).Store(p, v)
    ensures s.Store(p, v).NextOf(q) == s.NextOf(q)
  {
    assert s.next[p := v][q := w] == s.next[q := w][p := v];
  }

  lemma PushStepCommutes(s: State, a: Action, p: Ptr, v: Ptr, s': State)
    requires Enabled(s, a) && (a.BeginPush? || a.Link?) && p !in Touches(s, a) && s' == s.Store(p, v)
    ensures Enabled(s', a) && Do(s', a) == Do(s, a).Store(p, v)
  {
    if a.BeginPush? {
      StoresCommute(s, p, v, Node(a.id), Null);
    } else {
      StoresCommute(s, p, v, s.pushes[a.t].prev, s.pushes[a.t].node);
    }
  }

  lemma FirstLoadCommutes(s: State, p: Ptr, v: Ptr, s': State)
    requires s.pop.Idle? && p != s.tail && s' == s.Store(p, v)
    ensures DoPop(s') == DoPop(s).Store(p, v)
  {
    assert s'.NextOf(s.tail) == s.NextOf(s.tail);
  }

  lemma LaterLoadCommutes(s: State, p: Ptr, v: Ptr, s': State)
    requires s.pop.HeadLoad? || ((s.pop.SecondLoad? || s.pop.LastLoad?) && p != s.pop.tail)
    requires s' == s.Store(p, v)
    ensures DoPop(s') == DoPop(s).Store(p, v)
  {
    assert !s.pop.HeadLoad? ==> s'.NextOf(s.pop.tail) == s.NextOf(s.pop.tail);
  }

  lemma StubClearCommutes(s: State, p: Ptr, v: Ptr, s': State)
    requires s.pop.StubClear? && p != Stub && s' == s.Store(p, v)
    ensures DoPop(s') == DoPop(s).Store(p, v)
  {
    StoresCommute(s, p, v, Stub, Null);
  }

  /** And no others: a step of the queue neither reads nor writes the Next of any other node, so that
      a write of a client there may as well come after the step as before it. */
  lemma UntouchedCommutes(s: State, a: Action, p: Ptr, v: Ptr)
    requires Enabled(s, a) && !a.ClientWrite? && p !in Touches(s, a)
    ensures Enabled(s.Store(p, v), a) && Do(s.Store(p, v), a) == Do(s, a).Store(p, v)
  {
    if a.BeginPush? || a.Link? {
      PushStepCommutes(s, a, p, v, s.Store(p, v));
    } else if a.PopStep? && s.pop.StubClear? {
      StubClearCommutes(s, p, v, s.Store(p, v));
    } else if a.PopStep? && s.pop.Idle? {
      FirstLoadCommutes(s, p, v, s.Store(p, v));
    } else if a.PopStep? {
      LaterLoadCommutes(s, p, v, s.Store(p, v));
    }
  }

  lemma TouchedAreOwned(s: State, a: Action, p: Ptr)
    requires Good(s) && Enabled(s, a) && p in Touches(s, a)
    ensures p == Stub || p in s.owned || (a.BeginPush? && p == Node(a.id))
  {
  }

  /** A node the queue has given back, or never had, is not loaded from or stored to by any step
      but the start of a new push of it. */
  lemma ClientNodesAreUntouched(ss: seq<State>, acts: seq<Action>, k: nat, a: Action, p: Ptr)
    requires Run(ss, acts) && k <= |acts| && Enabled(ss[k], a)
    requires p.Node? && p !in ss[k].owned && p in Touches(ss[k], a)
    ensures a.BeginPush? && p == Node(a.id)
  {
    RunKeepsGood(ss, acts, k);
    TouchedAreOwned(ss[k], a, p);
  }

  /** Some push past its exchange still refers to `p`. */
  ghost predicate InHand(s: State, p: Ptr) {
    exists t :: t in s.pushes && s.pushes[t].Exchanged? && p in {s.pushes[t].prev, s.pushes[t].node}
  }

  lemma ResultLeavesNoHand(s: State, s': State)
    requires Good(s) && TailMove(s, s')
    ensures s.tail !in s'.owned && !InHand(s', s.tail)
  {
    var c :| Inv(s, c);
    TailMoveChain(s, c, s', c[1..]);
    TailMovePushes(s, c, s', c[1..]);
  }

  lemma StubLeavesNoHand(s: State, s': State)
    requires Good(s) && s.pop.StubClear? && s' == Do(s, PopStep)
    ensures !InHand(s', Stub)
  {
    var c :| Inv(s, c);
    forall t | t in s.pushes && s.pushes[t].Exchanged?
      ensures Stub !in {s.pushes[t].prev, s.pushes[t].node}
    {
      assert PushOk(s, c, t);
      HeldInChain(s, c, t);
    }
  }

  lemma PopResultIsTail(s: State, s': State)
    requires Coherent(s) && s.tail != Null && (!s.pop.Idle? ==> s.pop.tail == s.tail && s.tail.Node?)
    requires Enabled(s, PopStep) && s' == Do(s, PopStep) && s'.pop.Idle? && s'.pop.result != Null
    ensures TailMove(s, s') && s'.pop.result == s.tail
  {
  }

  lemma PopLeavesNoHand(s: State, s': State)
    requires Good(s) && Enabled(s, PopStep) && s' == Do(s, PopStep)
    ensures s'.pop.Idle? && s'.pop.result != Null ==> s'.pop.result !in s'.owned && !InHand(s', s'.pop.result)
    ensures s.pop.StubClear? ==> !InHand(s', Stub)
  {
    if s'.pop.Idle? && s'.pop.result != Null {
      GoodFacts(s);
      PopResultIsTail(s, s');
      ResultLeavesNoHand(s, s');
    }
    if s.pop.StubClear? {
      StubLeavesNoHand(s, s');
    }
  }

  /** When Pop returns a node, and when it resets Stub.Next, no push in flight holds that node, so
      no later link of it can write there. */
  lemma NoStrayLink(ss: seq<State>, acts: seq<Action>, k: nat)
    requires Run(ss, acts) && k < |acts| && acts[k].PopStep?
    ensures ss[k + 1].pop.Idle? && ss[k + 1].pop.result != Null ==>
              ss[k + 1].pop.result !in ss[k + 1].owned && !InHand(ss[k + 1], ss[k + 1].pop.result)
    ensures ss[k].pop.StubClear? ==> !InHand(ss[k + 1], Stub)
  {
    RunKeepsGood(ss, acts, k);
    PopLeavesNoHand(ss[k], ss[k + 1]);
  }

  // ----- the meaning of NULL -----

  /** A producer is between its exchange and its link. */
  ghost predicate InFlight(s: State) {
    exists t :: t in s.pushes && t.Producer? && s.pushes[t].Exchanged?
  }

  /** The link of `t` is missing right before or right behind the node `x`, with the stub before it. */
  ghost predicate GapAt(s: State, x: Ptr, t: Tid) {
    && t in s.pushes && t.Producer? && s.pushes[t].Exchanged?
    && (s.pushes[t].prev == x || s.pushes[t] == Exchanged(Stub, x))
  }

  ghost predicate FrontGap(s: State, x: Ptr) {
    exists t :: GapAt(s, x, t)
  }

  lemma FrontGapIsInFlight(s: State, x: Ptr)
    ensures FrontGap(s, x) ==> InFlight(s)
  {
    if t :| GapAt(s, x, t) {
      assert t in s.pushes && t.Producer? && s.pushes[t].Exchanged?;
    }
  }

  /** Where Pop stands when `x` was the oldest node at its start and no link has been missing at `x` since. */
  predicate OnTheWay(s: State, x: Ptr) {
    match s.pop
    case Idle(result) => result == x
    case SecondLoad(tail) => tail == x
    case HeadLoad(tail) => tail == x && s.head == x
    case StubClear(tail) => tail == x && s.head == x
    case StubPush(tail) =>
      && tail == x && Consumer in s.pushes
      && (if s.pushes[Consumer].Cleared? then s.head == x else s.pushes[Consumer].prev == x)
    case LastLoad(tail) => tail == x && s.NextOf(x) != Null
  }

  lemma RealFirst(c: seq<Ptr>)
    requires Distinct(c) && Real(c) != []
    ensures c[0] != Stub ==> Real(c)[0] == c[0]
    ensures c[0] == Stub ==> |c| > 1 && Real(c)[0] == c[1]
  {
    if c[0] == Stub {
      assert Real(c) == Real(c[1..]) && c[0] != c[1];
    }
  }

  /** The oldest queued node is at the front of the chain, or behind the stub there. */
  lemma FrontOfChain(s: State, c: seq<Ptr>, x: Ptr)
    requires Inv(s, c) && |s.popped| < |s.pushed| && x == s.pushed[|s.popped|]
    ensures x.Node? && (s.tail == x || (s.tail == Stub && |c| > 1 && c[1] == x))
  {
    assert Real(c)[0] == x;
    RealFirst(c);
    assert x in c;
    if s.tail == Stub {
      assert c[0] != c[1];
    }
  }

  lemma NoGapMeansLast(s: State, c: seq<Ptr>, x: Ptr)
    requires Inv(s, c) && !FrontGap(s, x) && !s.pop.StubPush? && s.tail == x && s.NextOf(x) == Null
    ensures c == [x] && s.head == x
  {
    if |c| > 1 {
      assert Joined(s, c[0], c[1]);
      var t :| t in s.pushes && s.pushes[t] == Exchanged(x, c[1]);
      assert GapAt(s, x, t);
      assert false;
    }
  }

  lemma OnTheWayStarts(s: State, x: Ptr)
    requires Good(s) && s.pop.Idle? && |s.popped| < |s.pushed| && x == s.pushed[|s.popped|] && !FrontGap(s, x)
    ensures OnTheWay(Do(s, PopStep), x)
  {
    var c :| Inv(s, c);
    FrontOfChain(s, c, x);
    if s.tail == Stub {
      assert Joined(s, c[0], c[1]);
      if s.NextOf(Stub) == Null {
        var t :| t in s.pushes && s.pushes[t] == Exchanged(Stub, x);
        assert PushOk(s, c, t) && GapAt(s, x, t);
        assert false;
      }
    } else if s.NextOf(x) == Null {
      NoGapMeansLast(s, c, x);
    }
  }

  lemma ExchangeAtFront(s: State, t: Tid, x: Ptr, s': State)
    requires Good(s) && Enabled(s, Exchange(t)) && s' == Do(s, Exchange(t)) && OnTheWay(s, x) && !s.pop.Idle?
    requires !FrontGap(s', x)
    ensures OnTheWay(s', x)
  {
    assert t.Producer? && s.head == x ==> GapAt(s', x, t);
  }

  lemma PopAtFront(s: State, x: Ptr, s': State)
    requires Good(s) && Enabled(s, PopStep) && s' == Do(s, PopStep) && OnTheWay(s, x) && !s.pop.Idle?
    requires !FrontGap(s, x)
    ensures OnTheWay(s', x)
  {
    var c :| Inv(s, c);
    GoodFacts(s);
    if s.NextOf(x) == Null {
      NoGapMeansLast(s, c, x);
    }
  }

  lemma LinkAtFront(s: State, t: Tid, x: Ptr, s': State)
    requires Good(s) && Enabled(s, Link(t)) && s' == Do(s, Link(t)) && OnTheWay(s, x) && !s.pop.Idle?
    ensures OnTheWay(s', x)
  {
    var c :| Inv(s, c);
    GoodFacts(s);
    assert PushOk(s, c, t);
  }

  lemma OnTheWayKept(s: State, a: Action, x: Ptr, s': State)
    requires Good(s) && Enabled(s, a) && OnTheWay(s, x) && !s.pop.Idle? && s' == Do(s, a)
    requires !FrontGap(s, x) && !FrontGap(s', x)
    ensures OnTheWay(s', x)
  {
    match a
    case Exchange(t) => ExchangeAtFront(s, t, x, s');
    case Link(t) => LinkAtFront(s, t, x, s');
    case PopStep => PopAtFront(s, x, s');
    case _ =>
      var c :| Inv(s, c);
      assert s.tail in c;
  }

  /** The Pop that began with step `i` ends no earlier than step `j`, and up to there no link has been
      missing at `x`. */
  ghost predicate ClearTo(ss: seq<State>, i: nat, j: nat, x: Ptr) {
    && i < j < |ss| && (forall k :: i < k < j ==> !ss[k].pop.Idle?)
    && (forall k :: i <= k <= j ==> !FrontGap(ss[k], x))
  }

  lemma OnTheWayStep(ss: seq<State>, acts: seq<Action>, i: nat, j: nat, x: Ptr, k: nat)
    requires Run(ss, acts) && ClearTo(ss, i, j, x) && i < k < j && OnTheWay(ss[k], x)
    ensures OnTheWay(ss[k + 1], x)
  {
    RunKeepsGood(ss, acts, k);
    OnTheWayKept(ss[k], acts[k], x, ss[k + 1]);
  }

  lemma OnTheWayFirst(ss: seq<State>, acts: seq<Action>, i: nat, x: Ptr)
    requires Run(ss, acts) && i < |acts| && !FrontGap(ss[i], x)
    requires ss[i].pop.Idle? && acts[i].PopStep? && |ss[i].popped| < |ss[i].pushed|
    requires x == ss[i].pushed[|ss[i].popped|]
    ensures OnTheWay(ss[i + 1], x)
  {
    RunKeepsGood(ss, acts, i);
    OnTheWayStarts(ss[i], x);
  }

  lemma {:induction false} OnTheWayUntil(ss: seq<State>, acts: seq<Action>, i: nat, j: nat, x: Ptr, k: nat)
    requires Run(ss, acts) && ClearTo(ss, i, j, x) && OnTheWay(ss[i + 1], x) && i < k <= j
    ensures OnTheWay(ss[k], x)
  {
    if k > i + 1 {
      OnTheWayUntil(ss, acts, i, j, x, k - 1);
      OnTheWayStep(ss, acts, i, j, x, k - 1);
    }
  }

  /** Only a missing link at the front blocks Pop. If a node was queued when a Pop began, `x` the oldest,
      and the Pop did not return `x`, then at some moment of that Pop a producer had still to link the
      node it put behind `x`, or to link `x` to the stub. */
  lemma NullMeansFrontGap(ss: seq<State>, acts: seq<Action>, i: nat, j: nat, x: Ptr)
    requires Run(ss, acts) && i < j <= |acts|
    requires ss[i].pop.Idle? && acts[i].PopStep? && |ss[i].popped| < |ss[i].pushed|
    requires x == ss[i].pushed[|ss[i].popped|]
    requires forall k :: i < k < j ==> !ss[k].pop.Idle?
    requires ss[j].pop.Idle? && ss[j].pop.result != x
    ensures exists k, t, n: Ptr ::
              i <= k <= j && t in ss[k].pushes && t.Producer?
              && (ss[k].pushes[t] == Exchanged(x, n) || ss[k].pushes[t] == Exchanged(Stub, x))
  {
    if ClearTo(ss, i, j, x) {
      OnTheWayFirst(ss, acts, i, x);
      OnTheWayUntil(ss, acts, i, j, x, j);
    }
    var k :| i <= k <= j && FrontGap(ss[k], x);
    var t :| GapAt(ss[k], x, t);
    assert ss[k].pushes[t] == Exchanged(x, ss[k].pushes[t].node) || ss[k].pushes[t] == Exchanged(Stub, x);
  }
}
