/** With one producer and one consumer the ring buffer is a FIFO queue of bounded size. */
module RingFifo {
  import opened Bits
  import opened RingBuffer

  // ----- one producer and one consumer -----

  predicate OfPush(a: Action) {
    a.ReadWriteCur? || a.PushCas? || a.PushAdd?
  }

  /** Only `p` pushes and only `c` pops; they may be one thread. */
  predicate OneEach(a: Action, p: nat, c: nat) {
    a.t == if OfPush(a) then p else c
  }

  /** The items between the two logs, oldest first. */
  function Queued(s: State): seq<nat>
    requires |s.popped| <= |s.pushed|
  {
    s.pushed[|s.popped|..]
  }

  /** The cursor of a thread that has moved `count` items, `waiting` of them not yet added. */
  ghost predicate CursorOk(cur: nat, count: nat, waiting: bool) {
    (waiting ==> count > 0) && cur == Word(if waiting then count - 1 else count)
  }

  ghost predicate ProducerOk(s: State, p: nat) {
    && CursorOk(s.writeCur, |s.pushed|, p in s.tasks && s.tasks[p].PushAdding?)
    && (p in s.tasks && s.tasks[p].Pushing? ==> s.tasks[p].cur == Word(|s.pushed|) && s.tasks[p].item != 0)
  }

  ghost predicate Oldest(s: State, item: nat) {
    |s.popped| < |s.pushed| && item == s.pushed[|s.popped|]
  }

  ghost predicate ConsumerOk(s: State, c: nat) {
    && CursorOk(s.readCur, |s.popped|, c in s.tasks && s.tasks[c].PopAdding?)
    && (c in s.tasks ==>
         match s.tasks[c]
         case PopStarting(cur) => cur == Word(|s.popped|)
         case PopLoaded(item) => Oldest(s, item)
         case PopTaking(item, cur) => Oldest(s, item) && cur == Word(|s.popped|)
         case _ => true)
  }

  /** Slot k mod N holds the k-th pushed item while it is queued and is empty otherwise. */
  ghost predicate SlotsOk(s: State)
    requires |s.slots| > 0
  {
    && |s.popped| <= |s.pushed| <= |s.popped| + |s.slots|
    && s.popped == s.pushed[..|s.popped|]
    && (forall k :: 0 <= k < |s.pushed| ==> s.pushed[k] != 0)
    && (forall k :: |s.popped| <= k < |s.pushed| ==> s.slots[k % |s.slots|] == s.pushed[k])
    && (forall k :: |s.pushed| <= k < |s.popped| + |s.slots| ==> s.slots[k % |s.slots|] == 0)
  }

  ghost predicate PairInv(s: State, p: nat, c: nat) {
    && s.Shape()
    && (exists k: nat :: k <= 64 && |s.slots| == Pow2(k))
    && SlotsOk(s) && ProducerOk(s, p) && ConsumerOk(s, c)
  }

  /** Masking a wrapped cursor is the count modulo the number of slots, because that number is a
      power of two and so divides the range of the cursor. */
  lemma SlotOfCursor(s: State, count: nat)
    requires s.Shape() && exists k: nat :: k <= 64 && |s.slots| == Pow2(k)
    ensures s.Slot(Word(count)) == count % |s.slots|
  {
    var k: nat :| k <= 64 && |s.slots| == Pow2(k);
    var n := Pow2(k);
    AndMask(Word(count), k);
    assert WORD_SIZE == Pow2(64 - k) * n by {
      Pow2Values();
      Pow2Add(64 - k, k);
    }
    ModMod(count, Pow2(64 - k), n);
  }

  lemma SlotsDiffer(i: nat, j: nat, n: nat)
    requires n > 0 && i < j < i + n
    ensures i % n != j % n
  {
    var d := j / n - i / n;
    assert j - i == d * n + (j % n - i % n) by {
      assert d * n == (j / n) * n - (i / n) * n;
    }
    Multiple(d, n);
  }

  lemma PairPushCas(s: State, p: nat, c: nat)
    requires PairInv(s, p, c) && Enabled(s, PushCas(p))
    ensures PairInv(Do(s, PushCas(p)), p, c)
    ensures var s' := Do(s, PushCas(p));
            if |Queued(s)| < |s.slots|
            then p in s'.tasks && Queued(s') == Queued(s) + [s.tasks[p].item]
            else p !in s'.tasks && Queued(s') == Queued(s)
  {
    var s' := Do(s, PushCas(p));
    var w, r, n := |s.pushed|, |s.popped|, |s.slots|;
    SlotOfCursor(s, w);
    if w < r + n {
      assert s.slots[w % n] == 0;
      forall k | r <= k < r + n && k != w
        ensures k % n != w % n
      {
        SlotsDiffer(if k < w then k else w, if k < w then w else k, n);
      }
    } else {
      SameSlot(r, n);
      assert s.slots[r % n] == s.pushed[r];
    }
  }

  lemma SameSlot(r: nat, n: nat)
    requires n > 0
    ensures (r + n) % n == r % n
  {
    assert r == (r / n) * n + r % n;
    assert r + n == (r / n + 1) * n + r % n;
    ModUnique(r + n, n, r / n + 1, r % n);
  }

  lemma PairPopCas(s: State, p: nat, c: nat)
    requires PairInv(s, p, c) && Enabled(s, PopCas(c))
    ensures PairInv(Do(s, PopCas(c)), p, c)
    ensures var s' := Do(s, PopCas(c));
            c in s'.tasks && s'.tasks[c] == PopAdding(s.tasks[c].item)
            && Queued(s) == [s.tasks[c].item] + Queued(s')
  {
    var s' := Do(s, PopCas(c));
    var w, r, n := |s.pushed|, |s.popped|, |s.slots|;
    SlotOfCursor(s, r);
    SameSlot(r, n);
    assert s.slots[r % n] == s.pushed[r];
    forall k | r < k < r + n
      ensures k % n != r % n
    {
      SlotsDiffer(r, k, n);
    }
  }

  lemma PairLoad(s: State, p: nat, c: nat)
    requires PairInv(s, p, c) && Enabled(s, LoadSlot(c))
    ensures PairInv(Do(s, LoadSlot(c)), p, c)
    ensures c !in Do(s, LoadSlot(c)).tasks <==> Queued(s) == []
  {
    SlotOfCursor(s, |s.popped|);
  }

  lemma PairAdd(s: State, a: Action, p: nat, c: nat)
    requires PairInv(s, p, c) && Enabled(s, a) && OneEach(a, p, c) && (a.PushAdd? || a.PopAdd?)
    ensures PairInv(Do(s, a), p, c)
  {
    if a.PushAdd? {
      WordAdd(|s.pushed| - 1, 1);
    } else {
      WordAdd(|s.popped| - 1, 1);
    }
  }

  lemma PairStep(s: State, a: Action, p: nat, c: nat)
    requires PairInv(s, p, c) && Enabled(s, a) && OneEach(a, p, c)
    ensures PairInv(Do(s, a), p, c)
  {
    match a
    case PushCas(_) => PairPushCas(s, p, c);
    case PopCas(_) => PairPopCas(s, p, c);
    case LoadSlot(_) => PairLoad(s, p, c);
    case PushAdd(_) => PairAdd(s, a, p, c);
    case PopAdd(_) => PairAdd(s, a, p, c);
    case _ =>
  }

  lemma {:induction false} RunPair(n: nat, ss: seq<State>, acts: seq<Action>, k: nat, p: nat, c: nat)
    requires 0 < n && FitsRing(n - 1, 8 * n) && Steps(ss, acts) && ss[0] == Fresh(n) && k <= |acts|
    requires forall i :: 0 <= i < |acts| ==> OneEach(acts[i], p, c)
    ensures PairInv(ss[k], p, c) && |ss[k].slots| == n
  {
    if k > 0 {
      RunPair(n, ss, acts, k - 1, p, c);
      PairStep(ss[k - 1], acts[k - 1], p, c);
    }
  }

  /** What one step may do to a FIFO queue `q` of at most `n` items, in the words of a bounded queue:
      a Push stores its item or finds `n` items, a Pop takes the oldest item or finds none. */
  ghost predicate BoundedFifoStep(n: nat, q: seq<nat>, q': seq<nat>, s: State, s': State, a: Action) {
    match a
    case PushCas(t) =>
      if t in s'.tasks then |q| < n && t in s.tasks && s.tasks[t].Pushing? && q' == q + [s.tasks[t].item]
      else |q| == n && q' == q
    case LoadSlot(t) => q' == q && (t !in s'.tasks <==> q == [])
    case PopCas(t) => t in s'.tasks && s'.tasks[t].PopAdding? && q == [s'.tasks[t].item] + q'
    case _ => q' == q
  }

  /** With one producer and one consumer every interleaving of the ring is a run of the bounded
      FIFO queue, for any number of operations, the wrap of the 64-bit cursors included. */
  lemma PairRefinesBoundedFifo(n: nat, ss: seq<State>, acts: seq<Action>, k: nat, p: nat, c: nat)
    requires 0 < n && FitsRing(n - 1, 8 * n) && Steps(ss, acts) && ss[0] == Fresh(n) && k < |acts|
    requires forall i :: 0 <= i < |acts| ==> OneEach(acts[i], p, c)
    ensures ss[k].popped <= ss[k].pushed && ss[k + 1].popped <= ss[k + 1].pushed
    ensures |Queued(ss[k])| <= n
    ensures BoundedFifoStep(n, Queued(ss[k]), Queued(ss[k + 1]), ss[k], ss[k + 1], acts[k])
  {
    RunPair(n, ss, acts, k, p, c);
    RunPair(n, ss, acts, k + 1, p, c);
    var s := ss[k];
    match acts[k]
    case PushCas(_) => PairPushCas(s, p, c);
    case PopCas(_) => PairPopCas(s, p, c);
    case LoadSlot(_) => PairLoad(s, p, c);
    case _ =>
  }
}
