/** The lock-free ring buffer of tinybase-queues.c. Each cursor read, slot load, compare-exchange
    and cursor increment is one step; threads interleave their steps in any order. */
module RingBuffer {
  import opened Bits

  /** Cursors are 64-bit. */
  const WORD_SIZE: nat := 0x1_0000_0000_0000_0000

  function Word(x: nat): (w: nat)
    ensures w < WORD_SIZE
  {
    x % WORD_SIZE
  }

  /** What a thread inside Push or Pop has done so far. */
  datatype Task =
    | Pushing(item: nat, cur: nat)    // has read WriteCur
    | PushAdding(item: nat)           // has stored its item, WriteCur not yet incremented
    | PopStarting(cur: nat)           // has read ReadCur
    | PopLoaded(item: nat)            // has loaded a non-NULL item
    | PopTaking(item: nat, cur: nat)  // has read ReadCur a second time
    | PopAdding(item: nat)            // has taken its item, ReadCur not yet incremented

  /** Slots hold 0 for NULL. The two logs, read by no step, list the items in the order of the
      successful compare-exchanges. */
  datatype State = State(
    slots: seq<nat>, maxCur: nat, readCur: nat, writeCur: nat,
    tasks: map<nat, Task>, pushed: seq<nat>, popped: seq<nat>)
  {
    ghost predicate Shape() {
      |slots| == maxCur + 1
    }

    function Slot(cur: nat): nat {
      And(cur, maxCur)
    }
  }

  datatype Action =
    | ReadWriteCur(t: nat, item: nat)
    | PushCas(t: nat)
    | PushAdd(t: nat)
    | ReadReadCur(t: nat)
    | LoadSlot(t: nat)
    | RereadReadCur(t: nat)
    | PopCas(t: nat)
    | PopAdd(t: nat)

  predicate Enabled(s: State, a: Action) {
    match a
    case ReadWriteCur(t, item) => t !in s.tasks && item != 0
    case PushCas(t) => t in s.tasks && s.tasks[t].Pushing?
    case PushAdd(t) => t in s.tasks && s.tasks[t].PushAdding?
    case ReadReadCur(t) => t !in s.tasks
    case LoadSlot(t) => t in s.tasks && s.tasks[t].PopStarting?
    case RereadReadCur(t) => t in s.tasks && s.tasks[t].PopLoaded?
    case PopCas(t) => t in s.tasks && s.tasks[t].PopTaking?
    case PopAdd(t) => t in s.tasks && s.tasks[t].PopAdding?
  }

  /** A call returns when its thread leaves `tasks`: false or NULL after a failed exchange or an
      empty slot, success after its increment. */
  function Do(s: State, a: Action): (s': State)
    requires s.Shape() && Enabled(s, a)
    ensures s'.Shape()
  {
    match a
    case ReadWriteCur(t, item) => s.(tasks := s.tasks[t := Pushing(item, s.writeCur)])
    case PushCas(t) =>
      var item, at := s.tasks[t].item, s.Slot(s.tasks[t].cur);
      if s.slots[at] == 0 then
        s.(slots := s.slots[at := item], tasks := s.tasks[t := PushAdding(item)], pushed := s.pushed + [item])
      else s.(tasks := s.tasks - {t})
    case PushAdd(t) => s.(writeCur := Word(s.writeCur + 1), tasks := s.tasks - {t})
    case ReadReadCur(t) => s.(tasks := s.tasks[t := PopStarting(s.readCur)])
    case LoadSlot(t) =>
      var item := s.slots[s.Slot(s.tasks[t].cur)];
      if item == 0 then s.(tasks := s.tasks - {t}) else s.(tasks := s.tasks[t := PopLoaded(item)])
    case RereadReadCur(t) => s.(tasks := s.tasks[t := PopTaking(s.tasks[t].item, s.readCur)])
    case PopCas(t) =>
      var item, at := s.tasks[t].item, s.Slot(s.tasks[t].cur);
      if s.slots[at] == item then
        s.(slots := s.slots[at := 0], tasks := s.tasks[t := PopAdding(item)], popped := s.popped + [item])
      else s.(tasks := s.tasks - {t})
    case PopAdd(t) => s.(readCur := Word(s.readCur + 1), tasks := s.tasks - {t})
  }

  ghost predicate Steps(ss: seq<State>, acts: seq<Action>) {
    && |ss| == |acts| + 1
    && forall i | 0 <= i < |acts| :: ss[i].Shape() && Enabled(ss[i], acts[i]) && ss[i + 1] == Do(ss[i], acts[i])
  }

  /** A queue over `n` zeroed slots. */
  function Fresh(n: nat): State
    requires n > 0
  {
    State(seq(n, _ => 0), n - 1, 0, 0, map[], [], [])
  }

  // ----- InitMPMCRingBuffer -----

  /** The argument of RoundDownToPow2 is an i32, so a size_t passed to it is truncated. */
  function ToI32(x: nat): int {
    var low := x % 0x1_0000_0000;
    if low < 0x8000_0000 then low else low - 0x1_0000_0000
  }

  /** RoundDownToPow2, GCC branch. Zero has no leading-zero count and a negative value shifts an
      int by 63: C leaves both undefined. */
  function RoundDownToPow2(value: nat): (r: nat)
    requires 0 < value < 0x8000_0000
    ensures r <= value < 2 * r
    ensures exists k: nat :: k < 31 && r == Pow2(k)
  {
    BitLengthBounds(value);
    var k := BitLength(value) - 1;
    assert k < 31 by {
      if k >= 31 {
        Pow2Monotone(31, k);
        Pow2Values();
      }
    }
    Pow2(k)
  }

  /** MaxCur as InitMPMCRingBuffer computes it: the byte size over the pointer size, less one, in
      unsigned 64-bit arithmetic. */
  function InitMaxCur(ringSize: nat): nat
    requires 0 < ToI32(ringSize)
  {
    Word(RoundDownToPow2(ToI32(ringSize)) / 8 + WORD_SIZE - 1)
  }

  lemma EighthOfPow2(k: nat)
    ensures k >= 3 ==> Pow2(k) / 8 == Pow2(k - 3)
    ensures k < 3 ==> Pow2(k) / 8 == 0
  {
    if k >= 3 {
      Pow2Add(3, k - 3);
      assert Pow2(3) == 8;
    } else {
      assert k == 0 || k == 1 || k == 2;
    }
  }

  /** The slots that `maxCur` addresses are a power of two and lie inside `ringSize` bytes. */
  ghost predicate FitsRing(maxCur: nat, ringSize: nat) {
    exists k: nat :: k <= 64 && maxCur + 1 == Pow2(k) && 8 * Pow2(k) <= ringSize
  }

  lemma RoundedSlots(r: nat, k: nat, ringSize: nat)
    requires 3 <= k < 31 && r == Pow2(k) && r <= ringSize
    ensures Word(r / 8 + WORD_SIZE - 1) == r / 8 - 1 && r == 8 * (r / 8)
    ensures FitsRing(r / 8 - 1, ringSize)
  {
    EighthOfPow2(k);
    Pow2Values();
    Pow2Add(3, k - 3);
    Pow2Monotone(k, 31);
    assert r / 8 == Pow2(k - 3);
  }

  lemma TooLarge(maxCur: nat, ringSize: nat)
    requires ringSize < 8 * (maxCur + 1)
    ensures !FitsRing(maxCur, ringSize)
  {
  }

  lemma Truncated(x: nat)
    requires 0 < ToI32(x)
    ensures ToI32(x) <= x && ToI32(x) < 0x8000_0000
  {
  }

  lemma RoundedFits(r: nat, k: nat, v: nat, ringSize: nat)
    requires k < 31 && r == Pow2(k) && r <= v < 2 * r && v <= ringSize < WORD_SIZE
    ensures var m := Word(r / 8 + WORD_SIZE - 1);
            && (FitsRing(m, ringSize) <==> v >= 8)
            && (if v >= 8 then 8 * (m + 1) <= v < 16 * (m + 1) else m == WORD_SIZE - 1)
  {
    if k >= 3 {
      Pow2Monotone(3, k);
      Pow2Values();
      RoundedSlots(r, k, ringSize);
    } else {
      SmallPow2(k);
      TooLarge(WORD_SIZE - 1, ringSize);
    }
  }

  /** InitMPMCRingBuffer leaves a power of two of slots inside the ring exactly when the truncated
      size is one pointer or more; below that MaxCur wraps to the largest word. */
  lemma InitIsPowerOfTwo(ringSize: nat)
    requires ringSize < WORD_SIZE && 0 < ToI32(ringSize)
    ensures FitsRing(InitMaxCur(ringSize), ringSize) <==> ToI32(ringSize) >= 8
    ensures if ToI32(ringSize) >= 8 then
              8 * (InitMaxCur(ringSize) + 1) <= ToI32(ringSize) < 16 * (InitMaxCur(ringSize) + 1)
            else InitMaxCur(ringSize) == WORD_SIZE - 1
  {
    var v := ToI32(ringSize);
    Truncated(ringSize);
    var r := RoundDownToPow2(v);
    var k: nat :| k < 31 && r == Pow2(k);
    RoundedFits(r, k, v, ringSize);
  }

  lemma SmallPow2(k: nat)
    requires k < 3
    ensures Pow2(k) <= 4
  {
    assert k == 0 || k == 1 || k == 2;
  }

  // ----- any number of producers and consumers -----

  /** The occupied slots as a multiset of items. */
  function Items(slots: seq<nat>): multiset<nat> {
    multiset(slots)[0 := 0]
  }

  function PushesAwaitingAdd(tasks: map<nat, Task>): set<nat> {
    set t | t in tasks && tasks[t].PushAdding?
  }

  function PopsAwaitingAdd(tasks: map<nat, Task>): set<nat> {
    set t | t in tasks && tasks[t].PopAdding?
  }

  /** The cursors count what was stored and taken, but for the increments still to come. */
  ghost predicate CursorsOk(s: State) {
    && Word(s.writeCur + |PushesAwaitingAdd(s.tasks)|) == Word(|s.pushed|)
    && Word(s.readCur + |PopsAwaitingAdd(s.tasks)|) == Word(|s.popped|)
  }

  ghost predicate ItemNotNull(task: Task) {
    task.Pushing? || task.PopLoaded? || task.PopTaking? ==> task.item != 0
  }

  ghost predicate TasksOk(tasks: map<nat, Task>) {
    forall t :: t in tasks ==> ItemNotNull(tasks[t])
  }

  ghost predicate Conserved(s: State) {
    && s.Shape() && CursorsOk(s) && TasksOk(s.tasks)
    && multiset(s.pushed) == multiset(s.popped) + Items(s.slots)
  }

  lemma WordNext(x: nat, y: nat)
    requires Word(x) == Word(y)
    ensures Word(x + 1) == Word(y + 1)
  {
    WordAdd(x, 1);
    WordAdd(y, 1);
  }

  lemma WordAdd(x: nat, d: nat)
    ensures Word(Word(x) + d) == Word(x + d)
  {
  }

  function One(b: bool): nat {
    if b then 1 else 0
  }

  lemma CardChange(p: set<nat>, t: nat)
    ensures |p + {t}| == |p| + One(t !in p)
    ensures |p - {t}| + One(t in p) == |p|
  {
  }

  lemma PushersAfter(tasks: map<nat, Task>, t: nat, task: Task)
    ensures PushesAwaitingAdd(tasks[t := task])
            == if task.PushAdding? then PushesAwaitingAdd(tasks) + {t} else PushesAwaitingAdd(tasks) - {t}
    ensures PushesAwaitingAdd(tasks - {t}) == PushesAwaitingAdd(tasks) - {t}
  {
  }

  lemma PoppersAfter(tasks: map<nat, Task>, t: nat, task: Task)
    ensures PopsAwaitingAdd(tasks[t := task])
            == if task.PopAdding? then PopsAwaitingAdd(tasks) + {t} else PopsAwaitingAdd(tasks) - {t}
    ensures PopsAwaitingAdd(tasks - {t}) == PopsAwaitingAdd(tasks) - {t}
  {
  }

  /** How the numbers of threads awaiting their increment change when `t` goes on to `task`. */
  lemma AwaitingAfter(tasks: map<nat, Task>, t: nat, task: Task, tasks': map<nat, Task>)
    requires tasks' == tasks[t := task]
    ensures |PushesAwaitingAdd(tasks')| + One(t in tasks && tasks[t].PushAdding?)
            == |PushesAwaitingAdd(tasks)| + One(task.PushAdding?)
    ensures |PopsAwaitingAdd(tasks')| + One(t in tasks && tasks[t].PopAdding?)
            == |PopsAwaitingAdd(tasks)| + One(task.PopAdding?)
  {
    PushersAfter(tasks, t, task);
    PoppersAfter(tasks, t, task);
    CardChange(PushesAwaitingAdd(tasks), t);
    CardChange(PopsAwaitingAdd(tasks), t);
  }

  lemma AwaitingReturn(tasks: map<nat, Task>, t: nat, tasks': map<nat, Task>)
    requires tasks' == tasks - {t}
    ensures |PushesAwaitingAdd(tasks')| + One(t in tasks && tasks[t].PushAdding?) == |PushesAwaitingAdd(tasks)|
    ensures |PopsAwaitingAdd(tasks')| + One(t in tasks && tasks[t].PopAdding?) == |PopsAwaitingAdd(tasks)|
  {
    PushersAfter(tasks, t, PopStarting(0));
    PoppersAfter(tasks, t, PopStarting(0));
    CardChange(PushesAwaitingAdd(tasks), t);
    CardChange(PopsAwaitingAdd(tasks), t);
  }

  lemma TasksAfter(tasks: map<nat, Task>, t: nat, task: Task)
    requires TasksOk(tasks)
    ensures ItemNotNull(task) ==> TasksOk(tasks[t := task])
    ensures TasksOk(tasks - {t})
  {
  }

  /** What a compare-exchange does to the items in the slots. */
  lemma SlotChange(slots: seq<nat>, at: nat, v: nat)
    requires at < |slots|
    ensures slots[at] == 0 && v != 0 ==> Items(slots[at := v]) == Items(slots) + multiset{v}
    ensures slots[at] != 0 && v == 0 ==>
              slots[at] in Items(slots) && Items(slots[at := v]) + multiset{slots[at]} == Items(slots)
  {
    assert multiset(slots[at := v]) == multiset(slots) - multiset{slots[at]} + multiset{v};
  }

  /** A step that stores no item and moves no cursor: it changes the local state of thread `t`. */
  lemma ConservedLocal(s: State, t: nat, task: Task, s': State)
    requires Conserved(s) && s' == s.(tasks := s.tasks[t := task])
    requires t in s.tasks ==> !s.tasks[t].PushAdding? && !s.tasks[t].PopAdding?
    requires !task.PushAdding? && !task.PopAdding? && ItemNotNull(task)
    ensures Conserved(s')
  {
    AwaitingAfter(s.tasks, t, task, s'.tasks);
    TasksAfter(s.tasks, t, task);
  }

  /** A step that ends the call of thread `t` and does nothing else. */
  lemma ConservedReturn(s: State, t: nat, s': State)
    requires Conserved(s) && s' == s.(tasks := s.tasks - {t})
    requires t in s.tasks ==> !s.tasks[t].PushAdding? && !s.tasks[t].PopAdding?
    ensures Conserved(s')
  {
    AwaitingReturn(s.tasks, t, s'.tasks);
    TasksAfter(s.tasks, t, PopStarting(0));
  }

  lemma StoredCursors(s: State, t: nat, item: nat, s': State)
    requires CursorsOk(s) && t in s.tasks && s.tasks[t].Pushing?
    requires s'.tasks == s.tasks[t := PushAdding(item)] && s'.pushed == s.pushed + [item] && s'.popped == s.popped
    requires s'.writeCur == s.writeCur && s'.readCur == s.readCur
    ensures CursorsOk(s')
  {
    AwaitingAfter(s.tasks, t, PushAdding(item), s'.tasks);
    WordNext(s.writeCur + |PushesAwaitingAdd(s.tasks)|, |s.pushed|);
  }

  lemma TakenCursors(s: State, t: nat, item: nat, s': State)
    requires CursorsOk(s) && t in s.tasks && s.tasks[t].PopTaking?
    requires s'.tasks == s.tasks[t := PopAdding(item)] && s'.popped == s.popped + [item] && s'.pushed == s.pushed
    requires s'.writeCur == s.writeCur && s'.readCur == s.readCur
    ensures CursorsOk(s')
  {
    AwaitingAfter(s.tasks, t, PopAdding(item), s'.tasks);
    WordNext(s.readCur + |PopsAwaitingAdd(s.tasks)|, |s.popped|);
  }

  lemma ConservedPush(s: State, t: nat, s': State)
    requires Conserved(s) && Enabled(s, PushCas(t)) && s' == Do(s, PushCas(t))
    ensures Conserved(s')
  {
    var item, at := s.tasks[t].item, s.Slot(s.tasks[t].cur);
    assert ItemNotNull(s.tasks[t]);
    if s.slots[at] == 0 {
      StoredCursors(s, t, item, s');
      TasksAfter(s.tasks, t, PushAdding(item));
      SlotChange(s.slots, at, item);
    } else {
      ConservedReturn(s, t, s');
    }
  }

  lemma ConservedPop(s: State, t: nat, s': State)
    requires Conserved(s) && Enabled(s, PopCas(t)) && s' == Do(s, PopCas(t))
    ensures Conserved(s')
  {
    var item, at := s.tasks[t].item, s.Slot(s.tasks[t].cur);
    assert ItemNotNull(s.tasks[t]);
    if s.slots[at] == item {
      TakenCursors(s, t, item, s');
      TasksAfter(s.tasks, t, PopAdding(item));
      SlotChange(s.slots, at, 0);
    } else {
      ConservedReturn(s, t, s');
    }
  }

  lemma ConservedAdd(s: State, a: Action, s': State)
    requires Conserved(s) && Enabled(s, a) && (a.PushAdd? || a.PopAdd?) && s' == Do(s, a)
    ensures Conserved(s')
  {
    AwaitingReturn(s.tasks, a.t, s'.tasks);
    TasksAfter(s.tasks, a.t, PopStarting(0));
    if a.PushAdd? {
      WordAdd(s.writeCur + 1, |PushesAwaitingAdd(s'.tasks)|);
    } else {
      WordAdd(s.readCur + 1, |PopsAwaitingAdd(s'.tasks)|);
    }
  }

  lemma ConservedStep(s: State, a: Action)
    requires Conserved(s) && Enabled(s, a)
    ensures Conserved(Do(s, a))
  {
    var s' := Do(s, a);
    match a
    case PushCas(t) => ConservedPush(s, t, s');
    case PopCas(t) => ConservedPop(s, t, s');
    case PushAdd(_) => ConservedAdd(s, a, s');
    case PopAdd(_) => ConservedAdd(s, a, s');
    case ReadWriteCur(t, item) => ConservedLocal(s, t, Pushing(item, s.writeCur), s');
    case ReadReadCur(t) => ConservedLocal(s, t, PopStarting(s.readCur), s');
    case LoadSlot(t) =>
      var item := s.slots[s.Slot(s.tasks[t].cur)];
      if item == 0 {
        ConservedReturn(s, t, s');
      } else {
        ConservedLocal(s, t, PopLoaded(item), s');
      }
    case RereadReadCur(t) =>
      assert ItemNotNull(s.tasks[t]);
      ConservedLocal(s, t, PopTaking(s.tasks[t].item, s.readCur), s');
  }

  /** With stale cursors or not: what was stored is what was taken plus what is in the slots, and the
      cursors, corrected by the increments still to come, differ by the number of items stored. */
  ghost predicate Balanced(s: State) {
    && multiset(s.pushed) == multiset(s.popped) + Items(s.slots)
    && Word(s.writeCur + |PushesAwaitingAdd(s.tasks)|) == Word(s.readCur + |PopsAwaitingAdd(s.tasks)| + |Items(s.slots)|)
  }

  lemma {:induction false} RunConserved(n: nat, ss: seq<State>, acts: seq<Action>, k: nat)
    requires n > 0 && Steps(ss, acts) && ss[0] == Fresh(n) && k <= |acts|
    ensures Conserved(ss[k])
  {
    if k > 0 {
      RunConserved(n, ss, acts, k - 1);
      ConservedStep(ss[k - 1], acts[k - 1]);
    } else {
      assert forall v :: v in multiset(ss[0].slots) ==> v == 0;
    }
  }

  lemma BalancedInEveryRun(n: nat, ss: seq<State>, acts: seq<Action>, k: nat)
    requires n > 0 && Steps(ss, acts) && ss[0] == Fresh(n) && k <= |acts|
    ensures Balanced(ss[k])
  {
    RunConserved(n, ss, acts, k);
    var s := ss[k];
    assert |s.pushed| == |multiset(s.pushed)| == |s.popped| + |Items(s.slots)|;
    WordAdd(s.readCur + |PopsAwaitingAdd(s.tasks)|, |Items(s.slots)|);
    WordAdd(|s.popped|, |Items(s.slots)|);
  }

  // ----- the code, statement by statement -----

  /** A whole Push by thread `t` with nobody else running. */
  function PushAlone(s: State, t: nat, item: nat): State
    requires s.Shape() && Enabled(s, ReadWriteCur(t, item))
  {
    var s2 := Do(Do(s, ReadWriteCur(t, item)), PushCas(t));
    if t in s2.tasks then Do(s2, PushAdd(t)) else s2
  }

  /** A whole Pop by thread `t` with nobody else running. */
  function PopAlone(s: State, t: nat): State
    requires s.Shape() && Enabled(s, ReadReadCur(t))
  {
    var s2 := Do(Do(s, ReadReadCur(t)), LoadSlot(t));
    if t !in s2.tasks then s2
    else
      var s4 := Do(Do(s2, RereadReadCur(t)), PopCas(t));
      if t in s4.tasks then Do(s4, PopAdd(t)) else s4
  }

  /** struct mpmc_ringbuf. The ghost parameter `s` is the state of the step system that this memory
      belongs to. */
  class Ring {
    var slots: array<nat>
    var maxCur: nat
    var readCur: nat
    var writeCur: nat

    ghost predicate Holds(s: State)
      reads this, slots
    {
      && maxCur == s.maxCur < slots.Length && slots[..maxCur + 1] == s.slots
      && readCur == s.readCur && writeCur == s.writeCur
    }

    /** InitMPMCRingBuffer on `ringSize` zeroed bytes. */
    constructor (memory: array<nat>, ringSize: nat)
      requires 8 <= ToI32(ringSize) && ringSize < WORD_SIZE && memory.Length == ringSize / 8
      requires forall i :: 0 <= i < memory.Length ==> memory[i] == 0
      ensures slots == memory && Holds(Fresh(InitMaxCur(ringSize) + 1))
    {
      InitIsPowerOfTwo(ringSize);
      slots := memory;
      maxCur := InitMaxCur(ringSize);
      readCur := 0;
      writeCur := 0;
    }

    /** MPMCRingBufferPush. */
    method Push(item: nat, ghost s: State, ghost t: nat) returns (ok: bool)
      requires Holds(s) && s.Shape() && Enabled(s, ReadWriteCur(t, item))
      modifies this, slots
      ensures slots == old(slots) && Holds(PushAlone(s, t, item))
      ensures PushAlone(s, t, item).pushed == s.pushed + if ok then [item] else []
      ensures PushAlone(s, t, item).tasks == s.tasks
    {
      var at := And(writeCur, maxCur);
      if slots[at] == 0 {
        slots[at] := item;
        writeCur := Word(writeCur + 1);
        return true;
      }
      return false;
    }

    /** MPMCRingBufferPop; 0 is NULL. */
    method Pop(ghost s: State, ghost t: nat) returns (r: nat)
      requires Holds(s) && s.Shape() && Enabled(s, ReadReadCur(t))
      modifies this, slots
      ensures slots == old(slots) && Holds(PopAlone(s, t))
      ensures PopAlone(s, t).popped == s.popped + if r != 0 then [r] else []
      ensures PopAlone(s, t).tasks == s.tasks
    {
      var item := slots[And(readCur, maxCur)];
      if item != 0 {
        var at := And(readCur, maxCur);
        if slots[at] == item {
          slots[at] := 0;
          readCur := Word(readCur + 1);
          return item;
        }
      }
      return 0;
    }
  }
}
