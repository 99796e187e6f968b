/** Exactly which threads may share the ring buffer if it is to be a FIFO queue of bounded size. */
module RingThreads {
  import opened Bits
  import opened RingBuffer
  import opened RingFifo

  /** The threads of `P` push and those of `C` pop. */
  predicate Allowed(a: Action, P: set<nat>, C: set<nat>) {
    a.t in if OfPush(a) then P else C
  }

  ghost predicate RunBy(n: nat, P: set<nat>, C: set<nat>, ss: seq<State>, acts: seq<Action>)
    requires n > 0
  {
    Steps(ss, acts) && ss[0] == Fresh(n) && forall i :: 0 <= i < |acts| ==> Allowed(acts[i], P, C)
  }

  ghost predicate FifoStep(n: nat, s: State, s': State, a: Action) {
    && s.popped <= s.pushed && s'.popped <= s'.pushed
    && BoundedFifoStep(n, Queued(s), Queued(s'), s, s', a)
  }

  /** In every run by these threads every step is a step of the bounded FIFO queue. */
  ghost predicate AlwaysFifo(n: nat, P: set<nat>, C: set<nat>)
    requires n > 0
  {
    forall ss: seq<State>, acts: seq<Action>, k: nat ::
      RunBy(n, P, C, ss, acts) && k < |acts| ==> FifoStep(n, ss[k], ss[k + 1], acts[k])
  }

  // ----- reachable states -----

  ghost predicate Reached(n: nat, P: set<nat>, C: set<nat>, s: State)
    requires n > 0
  {
    exists ss: seq<State>, acts: seq<Action> :: RunBy(n, P, C, ss, acts) && ss[|acts|] == s
  }

  lemma ReachedStart(n: nat, P: set<nat>, C: set<nat>)
    requires n > 0
    ensures Reached(n, P, C, Fresh(n))
  {
    assert RunBy(n, P, C, [Fresh(n)], []);
  }

  lemma ReachedStep(n: nat, P: set<nat>, C: set<nat>, s: State, a: Action, s': State)
    requires n > 0 && Reached(n, P, C, s) && s.Shape() && Enabled(s, a) && Allowed(a, P, C) && s' == Do(s, a)
    ensures Reached(n, P, C, s')
    ensures AlwaysFifo(n, P, C) ==> FifoStep(n, s, s', a)
  {
    var ss: seq<State>, acts: seq<Action> :| RunBy(n, P, C, ss, acts) && ss[|acts|] == s;
    var ss', acts' := ss + [s'], acts + [a];
    assert RunBy(n, P, C, ss', acts');
    assert ss'[|acts'|] == s' && ss'[|acts|] == s && acts'[|acts|] == a;
  }

  lemma ReachedPush(n: nat, P: set<nat>, C: set<nat>, s: State, t: nat, item: nat)
    requires n > 0 && Reached(n, P, C, s) && s.Shape() && t in P && Enabled(s, ReadWriteCur(t, item))
    ensures Reached(n, P, C, PushAlone(s, t, item))
  {
    var s1 := Do(s, ReadWriteCur(t, item));
    ReachedStep(n, P, C, s, ReadWriteCur(t, item), s1);
    var s2 := Do(s1, PushCas(t));
    ReachedStep(n, P, C, s1, PushCas(t), s2);
    if t in s2.tasks {
      ReachedStep(n, P, C, s2, PushAdd(t), Do(s2, PushAdd(t)));
    }
  }

  lemma Override(tasks: map<nat, Task>, t: nat, a: Task, b: Task)
    ensures tasks[t := a][t := b] == tasks[t := b]
  {
  }

  /** Pop as far as it has loaded an item. */
  lemma ReachedLoad(n: nat, P: set<nat>, C: set<nat>, s: State, t: nat, item: nat) returns (s': State)
    requires n > 0 && Reached(n, P, C, s) && s.Shape() && t in C && t !in s.tasks
    requires s.slots[s.Slot(s.readCur)] == item != 0
    ensures Reached(n, P, C, s') && s' == s.(tasks := s.tasks[t := PopLoaded(item)])
  {
    var s1 := Do(s, ReadReadCur(t));
    ReachedStep(n, P, C, s, ReadReadCur(t), s1);
    s' := Do(s1, LoadSlot(t));
    ReachedStep(n, P, C, s1, LoadSlot(t), s');
    Override(s.tasks, t, PopStarting(s.readCur), PopLoaded(item));
  }

  /** And from there to where it has taken the item, the increment still to come. */
  lemma ReachedExchange(n: nat, P: set<nat>, C: set<nat>, s: State, t: nat, item: nat) returns (s': State)
    requires n > 0 && Reached(n, P, C, s) && s.Shape() && t in C && t in s.tasks && s.tasks[t] == PopLoaded(item)
    requires s.slots[s.Slot(s.readCur)] == item != 0
    ensures Reached(n, P, C, s')
    ensures s' == s.(slots := s.slots[s.Slot(s.readCur) := 0], tasks := s.tasks[t := PopAdding(item)],
                     popped := s.popped + [item])
  {
    var s1 := Do(s, RereadReadCur(t));
    ReachedStep(n, P, C, s, RereadReadCur(t), s1);
    s' := Do(s1, PopCas(t));
    ReachedStep(n, P, C, s1, PopCas(t), s');
    Override(s.tasks, t, PopTaking(item, s.readCur), PopAdding(item));
  }

  lemma ReachedTake(n: nat, P: set<nat>, C: set<nat>, s: State, t: nat, item: nat) returns (s': State)
    requires n > 0 && Reached(n, P, C, s) && s.Shape() && t in C && t !in s.tasks
    requires s.slots[s.Slot(s.readCur)] == item != 0
    ensures Reached(n, P, C, s')
    ensures s' == s.(slots := s.slots[s.Slot(s.readCur) := 0], tasks := s.tasks[t := PopAdding(item)],
                     popped := s.popped + [item])
  {
    var s1 := ReachedLoad(n, P, C, s, t, item);
    s' := ReachedExchange(n, P, C, s1, t, item);
    Override(s.tasks, t, PopLoaded(item), PopAdding(item));
  }

  // ----- two producers -----

  /** Both producers read the same cursor; one stores its item and the other finds its slot taken, with
      one item in a ring of more. */
  lemma TwoProducersFail(n: nat, P: set<nat>, C: set<nat>, p: nat, q: nat)
    requires n >= 2 && p in P && q in P && p != q
    ensures !AlwaysFifo(n, P, C)
  {
    var s0 := Fresh(n);
    ReachedStart(n, P, C);
    var s1 := Do(s0, ReadWriteCur(p, 1));
    ReachedStep(n, P, C, s0, ReadWriteCur(p, 1), s1);
    var s2 := Do(s1, ReadWriteCur(q, 2));
    ReachedStep(n, P, C, s1, ReadWriteCur(q, 2), s2);
    var s3 := Do(s2, PushCas(p));
    ReachedStep(n, P, C, s2, PushCas(p), s3);
    var s4 := Do(s3, PushCas(q));
    ReachedStep(n, P, C, s3, PushCas(q), s4);
    assert s3.slots[0] == 1 && Queued(s3) == [1] && q !in s4.tasks;
  }

  // ----- two consumers -----

  /** A push by a producer that nobody gets in the way of. */
  lemma PushedAlone(s: State, t: nat, item: nat, at: nat)
    requires s.Shape() && t !in s.tasks && item != 0 && at == s.Slot(s.writeCur) && s.slots[at] == 0
    ensures PushAlone(s, t, item) == s.(slots := s.slots[at := item], writeCur := Word(s.writeCur + 1),
                                        pushed := s.pushed + [item])
  {
    assert PushAlone(s, t, item).tasks == s.tasks;
  }

  lemma SecondSlot(n: nat, k: nat)
    requires n == Pow2(k) && n >= 2
    ensures And(1, n - 1) == 1
  {
    AndMask(1, k);
    Bits.ModUnique(1, n, 0, 1);
  }

  /** Two items are queued, and the consumer `c` has taken the first and not moved the cursor yet. */
  lemma FirstTaken(n: nat, k: nat, P: set<nat>, C: set<nat>, p: nat, c: nat) returns (s: State)
    requires n == Pow2(k) && n >= 2 && p in P && c in C
    ensures Reached(n, P, C, s) && s.Shape() && s.tasks == map[c := PopAdding(1)] && s.readCur == 0
    ensures s.maxCur == n - 1 && s.slots[0] == 0 && s.pushed == [1, 2] && s.popped == [1]
  {
    var s0 := Fresh(n);
    ReachedStart(n, P, C);
    PushedAlone(s0, p, 1, 0);
    ReachedPush(n, P, C, s0, p, 1);
    var s1 := PushAlone(s0, p, 1);
    SecondSlot(n, k);
    PushedAlone(s1, p, 2, 1);
    ReachedPush(n, P, C, s1, p, 2);
    var s2 := PushAlone(s1, p, 2);
    s := ReachedTake(n, P, C, s2, c, 1);
  }

  /** The second consumer reads the same cursor and finds nothing, with an item in the queue. */
  lemma TwoConsumersFail(n: nat, k: nat, P: set<nat>, C: set<nat>, p: nat, c: nat, d: nat)
    requires n == Pow2(k) && n >= 2 && p in P && c in C && d in C && c != d
    ensures !AlwaysFifo(n, P, C)
  {
    var s := FirstTaken(n, k, P, C, p, c);
    var s1 := Do(s, ReadReadCur(d));
    ReachedStep(n, P, C, s, ReadReadCur(d), s1);
    var s2 := Do(s1, LoadSlot(d));
    ReachedStep(n, P, C, s1, LoadSlot(d), s2);
    assert Queued(s1) == [2] && d !in s2.tasks;
  }

  // ----- a single slot -----

  lemma FirstPushed(P: set<nat>, C: set<nat>, p: nat) returns (s: State)
    requires p in P
    ensures Reached(1, P, C, s) && s == State([1], 0, 0, 1, map[], [1], [])
  {
    var s0 := Fresh(1);
    assert s0.slots == [0];
    ReachedStart(1, P, C);
    PushedAlone(s0, p, 1, 0);
    ReachedPush(1, P, C, s0, p, 1);
    s := PushAlone(s0, p, 1);
  }

  lemma FastTake(P: set<nat>, C: set<nat>, slow: nat, fast: nat, s: State) returns (s': State)
    requires Reached(1, P, C, s) && s == State([1], 0, 0, 1, map[slow := PopLoaded(1)], [1], [])
    requires fast in C && slow != fast
    ensures Reached(1, P, C, s')
    ensures s' == State([0], 0, 0, 1, map[slow := PopLoaded(1), fast := PopAdding(1)], [1], [1])
  {
    s' := ReachedTake(1, P, C, s, fast, 1);
    assert s'.slots == [0] && s'.popped == [1];
  }

  lemma FastAdd(P: set<nat>, C: set<nat>, slow: nat, fast: nat, s: State) returns (s': State)
    requires Reached(1, P, C, s)
    requires s == State([0], 0, 0, 1, map[slow := PopLoaded(1), fast := PopAdding(1)], [1], [1])
    requires fast in C && slow != fast
    ensures Reached(1, P, C, s') && s' == State([0], 0, 1, 1, map[slow := PopLoaded(1)], [1], [1])
  {
    s' := Do(s, PopAdd(fast));
    ReachedStep(1, P, C, s, PopAdd(fast), s');
    assert s'.tasks == map[slow := PopLoaded(1)];
  }

  /** In a ring of one slot: `slow` has loaded the first item, `fast` has popped it, and `p` has pushed
      another. */
  lemma LateLoad(P: set<nat>, C: set<nat>, p: nat, slow: nat, fast: nat) returns (s: State)
    requires p in P && slow in C && fast in C && slow != fast && slow != p
    ensures Reached(1, P, C, s) && s == State([2], 0, 1, 2, map[slow := PopLoaded(1)], [1, 2], [1])
  {
    var s1 := FirstPushed(P, C, p);
    var s2 := ReachedLoad(1, P, C, s1, slow, 1);
    var s2' := FastTake(P, C, slow, fast, s2);
    var s3 := FastAdd(P, C, slow, fast, s2');
    PushedAlone(s3, p, 2, 0);
    ReachedPush(1, P, C, s3, p, 2);
    s := PushAlone(s3, p, 2);
  }

  /** The slow consumer's exchange then fails, and it returns NULL with an item in the queue. */
  lemma OneSlotTwoConsumersFail(P: set<nat>, C: set<nat>, p: nat, c: nat, d: nat)
    requires p in P && c in C && d in C && c != d
    ensures !AlwaysFifo(1, P, C)
  {
    var slow, fast := if c == p then d else c, if c == p then c else d;
    var s := LateLoad(P, C, p, slow, fast);
    var s1 := Do(s, RereadReadCur(slow));
    ReachedStep(1, P, C, s, RereadReadCur(slow), s1);
    var s2 := Do(s1, PopCas(slow));
    ReachedStep(1, P, C, s1, PopCas(slow), s2);
    assert slow !in s2.tasks;
  }

  /** One slot and one consumer: what is queued is what the slot holds, and what the consumer has loaded
      is still there. */
  ghost predicate OneSlot(s: State, c: nat) {
    && s.maxCur == 0 && |s.slots| == 1 && s.popped <= s.pushed
    && Queued(s) == (if s.slots[0] == 0 then [] else [s.slots[0]])
    && (forall t :: t in s.tasks && s.tasks[t].Pushing? ==> s.tasks[t].item != 0)
    && (forall t :: t in s.tasks && (s.tasks[t].PopLoaded? || s.tasks[t].PopTaking?) ==>
          t == c && s.tasks[t].item == s.slots[0] != 0)
  }

  lemma OneSlotPush(s: State, t: nat, c: nat, s': State)
    requires OneSlot(s, c) && Enabled(s, PushCas(t)) && s' == Do(s, PushCas(t))
    ensures OneSlot(s', c) && FifoStep(1, s, s', PushCas(t))
  {
    assert s.slots[0 := s.tasks[t].item][0] == s.tasks[t].item;
  }

  lemma OneSlotPop(s: State, c: nat, s': State)
    requires OneSlot(s, c) && Enabled(s, PopCas(c)) && s' == Do(s, PopCas(c))
    ensures OneSlot(s', c) && FifoStep(1, s, s', PopCas(c))
  {
    assert s.pushed[|s.popped|..][0] == s.slots[0];
  }

  lemma OneSlotStep(s: State, a: Action, c: nat, s': State)
    requires OneSlot(s, c) && Enabled(s, a) && s' == Do(s, a) && (!OfPush(a) ==> a.t == c)
    ensures OneSlot(s', c) && FifoStep(1, s, s', a)
  {
    match a
    case PushCas(t) => OneSlotPush(s, t, c, s');
    case PopCas(_) => OneSlotPop(s, c, s');
    case _ =>
  }

  lemma {:induction false} RunOneSlot(P: set<nat>, C: set<nat>, ss: seq<State>, acts: seq<Action>, k: nat, c: nat)
    requires RunBy(1, P, C, ss, acts) && C <= {c} && k <= |acts|
    ensures OneSlot(ss[k], c)
    ensures k < |acts| ==> FifoStep(1, ss[k], ss[k + 1], acts[k])
  {
    if k > 0 {
      RunOneSlot(P, C, ss, acts, k - 1, c);
      OneSlotStep(ss[k - 1], acts[k - 1], c, ss[k]);
    }
    if k < |acts| {
      OneSlotStep(ss[k], acts[k], c, ss[k + 1]);
    }
  }

  // ----- nobody pushes -----

  ghost predicate Nothing(s: State) {
    && s.Shape() && s.pushed == [] && s.popped == []
    && (forall i :: 0 <= i < |s.slots| ==> s.slots[i] == 0) && forall t :: t in s.tasks ==> s.tasks[t].PopStarting?
  }

  lemma {:induction false} RunNothing(n: nat, C: set<nat>, ss: seq<State>, acts: seq<Action>, k: nat)
    requires n > 0 && RunBy(n, {}, C, ss, acts) && k <= |acts|
    ensures Nothing(ss[k])
    ensures k < |acts| ==> FifoStep(n, ss[k], ss[k + 1], acts[k])
  {
    if k > 0 {
      RunNothing(n, C, ss, acts, k - 1);
      assert Allowed(acts[k - 1], {}, C);
    }
    assert k < |acts| ==> Allowed(acts[k], {}, C);
  }

  // ----- the exact condition -----

  lemma AtMostOne(S: set<nat>) returns (x: nat)
    requires |S| <= 1
    ensures S <= {x}
  {
    if S == {} {
      x := 0;
    } else {
      x :| x in S;
      assert |S - {x}| == 0;
    }
  }

  lemma TwoOf(S: set<nat>) returns (x: nat, y: nat)
    requires |S| >= 2
    ensures x in S && y in S && x != y
  {
    x :| x in S;
    var rest := S - {x};
    assert |rest| >= 1;
    y :| y in rest;
  }

  lemma OneEachIsFifo(n: nat, k: nat, P: set<nat>, C: set<nat>)
    requires k <= 64 && n == Pow2(k) && |P| <= 1 && |C| <= 1
    ensures AlwaysFifo(n, P, C)
  {
    var p := AtMostOne(P);
    var c := AtMostOne(C);
    assert FitsRing(n - 1, 8 * n);
    forall ss: seq<State>, acts: seq<Action>, i: nat | RunBy(n, P, C, ss, acts) && i < |acts|
      ensures FifoStep(n, ss[i], ss[i + 1], acts[i])
    {
      assert forall j :: 0 <= j < |acts| ==> Allowed(acts[j], P, C);
      PairRefinesBoundedFifo(n, ss, acts, i, p, c);
    }
  }

  lemma OneSlotIsFifo(P: set<nat>, C: set<nat>)
    requires |C| <= 1
    ensures AlwaysFifo(1, P, C)
  {
    var c := AtMostOne(C);
    forall ss: seq<State>, acts: seq<Action>, i: nat | RunBy(1, P, C, ss, acts) && i < |acts|
      ensures FifoStep(1, ss[i], ss[i + 1], acts[i])
    {
      RunOneSlot(P, C, ss, acts, i, c);
    }
  }

  lemma NobodyPushesIsFifo(n: nat, C: set<nat>)
    requires n > 0
    ensures AlwaysFifo(n, {}, C)
  {
    forall ss: seq<State>, acts: seq<Action>, i: nat | RunBy(n, {}, C, ss, acts) && i < |acts|
      ensures FifoStep(n, ss[i], ss[i + 1], acts[i])
    {
      RunNothing(n, C, ss, acts, i);
    }
  }

  lemma MoreThanOneConsumerFails(n: nat, k: nat, P: set<nat>, C: set<nat>)
    requires n == Pow2(k) && P != {} && |C| >= 2
    ensures !AlwaysFifo(n, P, C)
  {
    var p :| p in P;
    var c, d := TwoOf(C);
    if n >= 2 {
      TwoConsumersFail(n, k, P, C, p, c, d);
    } else {
      OneSlotTwoConsumersFail(P, C, p, c, d);
    }
  }

  /** The ring is a FIFO queue of bounded size in every run if and only if there is at most one consumer
      and at most one producer; a ring of one slot takes any number of producers, and with nobody
      pushing there is nothing to get wrong. */
  lemma FifoExactly(n: nat, k: nat, P: set<nat>, C: set<nat>)
    requires k <= 64 && n == Pow2(k)
    ensures AlwaysFifo(n, P, C) <==> P == {} || (|C| <= 1 && (|P| <= 1 || n == 1))
  {
    if P == {} {
      NobodyPushesIsFifo(n, C);
    } else if |C| >= 2 {
      MoreThanOneConsumerFails(n, k, P, C);
    } else if |P| <= 1 {
      OneEachIsFifo(n, k, P, C);
    } else if n == 1 {
      OneSlotIsFifo(P, C);
    } else {
      var p, q := TwoOf(P);
      TwoProducersFail(n, P, C, p, q);
    }
  }

  // ----- an item that is hidden for good -----

  lemma TwoSlots()
    ensures And(0, 1) == 0 && And(1, 1) == 1
  {
    assert And(1, 1) == 2 * And(0, 0) + 1;
  }

  lemma StaleRead(b: nat) returns (s: State)
    requires b != 0
    ensures s == State([0, 0], 1, 0, 0, map[1 := Pushing(b, 0)], [], [])
    ensures s == Do(Fresh(2), ReadWriteCur(1, b))
  {
    assert Fresh(2).slots == [0, 0];
    s := Do(Fresh(2), ReadWriteCur(1, b));
  }

  lemma StalePush(a: nat, b: nat, s: State) returns (s': State)
    requires a != 0 && s == State([0, 0], 1, 0, 0, map[1 := Pushing(b, 0)], [], [])
    ensures s' == PushAlone(s, 0, a) == State([a, 0], 1, 0, 1, map[1 := Pushing(b, 0)], [a], [])
  {
    TwoSlots();
    s' := PushAlone(s, 0, a);
    assert [0, 0][0 := a] == [a, 0];
    assert s'.tasks == map[1 := Pushing(b, 0)];
  }

  lemma StalePop(a: nat, b: nat, s: State) returns (s': State)
    requires a != 0 && s == State([a, 0], 1, 0, 1, map[1 := Pushing(b, 0)], [a], [])
    ensures s' == PopAlone(s, 2) == State([0, 0], 1, 1, 1, map[1 := Pushing(b, 0)], [a], [a])
  {
    TwoSlots();
    s' := PopAlone(s, 2);
    assert [a, 0][0 := 0] == [0, 0];
    assert s'.tasks == map[1 := Pushing(b, 0)];
  }

  lemma StaleCas(a: nat, b: nat, s: State) returns (s': State)
    requires b != 0 && s == State([0, 0], 1, 1, 1, map[1 := Pushing(b, 0)], [a], [a])
    ensures Enabled(Do(s, PushCas(1)), PushAdd(1)) && s' == Do(Do(s, PushCas(1)), PushAdd(1))
    ensures s' == State([b, 0], 1, 1, 2, map[], [a, b], [a])
  {
    TwoSlots();
    s' := Do(Do(s, PushCas(1)), PushAdd(1));
    assert [0, 0][0 := b] == [b, 0];
    assert s'.tasks == map[];
  }

  lemma HiddenItem(a: nat, b: nat, s: State)
    requires s == State([b, 0], 1, 1, 2, map[], [a, b], [a])
    ensures PopAlone(s, 0) == s
  {
    TwoSlots();
    assert PopAlone(s, 0).tasks == map[];
  }

  /** A second producer may act on a cursor it read long ago. Producer 1 reads WriteCur; producer 0
      pushes `a` and consumer 2 pops it; then producer 1 stores `b` behind the read cursor. No call is
      running any more, the ring holds `b`, and Pop returns NULL. */
  lemma StaleCursorHidesItem(a: nat, b: nat) returns (s1: State, s2: State, s3: State, s4: State)
    requires a != 0 && b != 0
    ensures s1 == Do(Fresh(2), ReadWriteCur(1, b))
    ensures s1.Shape() && Enabled(s1, ReadWriteCur(0, a)) && s2 == PushAlone(s1, 0, a)
    ensures s2.Shape() && Enabled(s2, ReadReadCur(2)) && s3 == PopAlone(s2, 2)
    ensures s3.Shape() && Enabled(s3, PushCas(1)) && Enabled(Do(s3, PushCas(1)), PushAdd(1))
    ensures s4 == Do(Do(s3, PushCas(1)), PushAdd(1))
    ensures s4.tasks == map[] && s4.slots == [b, 0] && PopAlone(s4, 0) == s4
  {
    s1 := StaleRead(b);
    s2 := StalePush(a, b, s1);
    s3 := StalePop(a, b, s2);
    s4 := StaleCas(a, b, s3);
    HiddenItem(a, b, s4);
  }
}
