/** When the calls of the ring buffer fail, for any number of threads: each access of a call is decided
    by the cursor that the call read before and by the slot as it is then. */
module RingCalls {
  import opened Bits
  import opened RingBuffer

  /** A run of a ring of `n` = 2^k slots, by any threads. */
  ghost predicate RunOf(n: nat, k: nat, ss: seq<State>, acts: seq<Action>) {
    k <= 64 && n == Pow2(k) && Steps(ss, acts) && ss[0] == Fresh(n)
  }

  lemma {:induction false} RunShape(n: nat, k: nat, ss: seq<State>, acts: seq<Action>, i: nat)
    requires RunOf(n, k, ss, acts) && i <= |acts|
    ensures |ss[i].slots| == n && ss[i].maxCur == n - 1
  {
    if i > 0 {
      RunShape(n, k, ss, acts, i - 1);
      DoShape(ss[i - 1], acts[i - 1]);
    }
  }

  lemma DoShape(s: State, a: Action)
    requires s.Shape() && Enabled(s, a)
    ensures |Do(s, a).slots| == |s.slots| && Do(s, a).maxCur == s.maxCur
  {
  }

  lemma SlotIs(n: nat, k: nat, ss: seq<State>, acts: seq<Action>, i: nat, cur: nat)
    requires RunOf(n, k, ss, acts) && i <= |acts|
    ensures |ss[i].slots| == n && ss[i].Slot(cur) == cur % n
  {
    RunShape(n, k, ss, acts, i);
    AndMask(cur, k);
  }

  /** Thread `t` does nothing from step `i` up to step `j`. */
  ghost predicate Silent(acts: seq<Action>, t: nat, i: nat, j: nat) {
    j <= |acts| && forall m :: i <= m < j ==> acts[m].t != t
  }

  lemma OthersKeepTask(s: State, a: Action, t: nat)
    requires s.Shape() && Enabled(s, a) && a.t != t
    ensures t in Do(s, a).tasks <==> t in s.tasks
    ensures t in s.tasks ==> Do(s, a).tasks[t] == s.tasks[t]
  {
  }

  lemma {:induction false} TaskKept(ss: seq<State>, acts: seq<Action>, t: nat, i: nat, j: nat)
    requires Steps(ss, acts) && i <= j <= |acts| && Silent(acts, t, i, j)
    ensures t in ss[j].tasks <==> t in ss[i].tasks
    ensures t in ss[i].tasks ==> ss[j].tasks[t] == ss[i].tasks[t]
  {
    if i < j {
      TaskKept(ss, acts, t, i, j - 1);
      OthersKeepTask(ss[j - 1], acts[j - 1], t);
    }
  }

  /** Nobody ever waits for anybody: in every state every thread has an access that it can make. */
  lemma NobodyWaits(s: State, t: nat, item: nat)
    requires item != 0
    ensures t !in s.tasks ==> Enabled(s, ReadWriteCur(t, item)) && Enabled(s, ReadReadCur(t))
    ensures t in s.tasks ==>
              Enabled(s, match s.tasks[t]
                         case Pushing(_, _) => PushCas(t)
                         case PushAdding(_) => PushAdd(t)
                         case PopStarting(_) => LoadSlot(t)
                         case PopLoaded(_) => RereadReadCur(t)
                         case PopTaking(_, _) => PopCas(t)
                         case PopAdding(_) => PopAdd(t))
  {
  }

  // ----- occupied and free -----

  lemma OccupiedIsItem(slots: seq<nat>, at: nat)
    requires at < |slots|
    ensures slots[at] != 0 ==> slots[at] in Items(slots)
    ensures slots[at] == 0 ==> |Items(slots)| < |slots|
  {
    var m := multiset(slots);
    assert slots[at] in m;
    assert |m| == |slots| && |m[0 := 0]| == |m| - m[0];
  }

  // ----- Push -----

  /** A Push fails if and only if the slot of the WriteCur it read is occupied when it tries; it then
      changes nothing and the ring is not empty. Otherwise its item is in that slot. */
  lemma PushFailsExactly(n: nat, k: nat, ss: seq<State>, acts: seq<Action>, t: nat, item: nat, i: nat, j: nat)
    requires RunOf(n, k, ss, acts) && i < j < |acts| && Silent(acts, t, i + 1, j)
    requires acts[i] == ReadWriteCur(t, item) && acts[j] == PushCas(t)
    ensures |ss[j].slots| == n
    ensures var at := ss[i].writeCur % n;
            if ss[j].slots[at] != 0 then
              && t !in ss[j + 1].tasks && ss[j + 1].slots == ss[j].slots && ss[j + 1].pushed == ss[j].pushed
              && Items(ss[j].slots) != multiset{}
            else
              && t in ss[j + 1].tasks && ss[j + 1].slots == ss[j].slots[at := item]
              && ss[j + 1].pushed == ss[j].pushed + [item]
  {
    assert ss[i + 1].tasks[t] == Pushing(item, ss[i].writeCur);
    TaskKept(ss, acts, t, i + 1, j);
    SlotIs(n, k, ss, acts, j, ss[i].writeCur);
    OccupiedIsItem(ss[j].slots, ss[i].writeCur % n);
  }

  // ----- Pop -----

  /** The load of a Pop ends the call with NULL if and only if the slot of the ReadCur it read is free
      then, so that the ring is not full. Otherwise it has loaded what the slot holds. */
  lemma LoadEndsExactly(n: nat, k: nat, ss: seq<State>, acts: seq<Action>, t: nat, i: nat, j: nat)
    requires RunOf(n, k, ss, acts) && i < j < |acts| && Silent(acts, t, i + 1, j)
    requires acts[i] == ReadReadCur(t) && acts[j] == LoadSlot(t)
    ensures |ss[j].slots| == n && ss[j + 1].slots == ss[j].slots
    ensures var item := ss[j].slots[ss[i].readCur % n];
            if item == 0 then t !in ss[j + 1].tasks && |Items(ss[j].slots)| < n
            else t in ss[j + 1].tasks && ss[j + 1].tasks[t] == PopLoaded(item)
  {
    assert ss[i + 1].tasks[t] == PopStarting(ss[i].readCur);
    TaskKept(ss, acts, t, i + 1, j);
    SlotIs(n, k, ss, acts, j, ss[i].readCur);
    OccupiedIsItem(ss[j].slots, ss[i].readCur % n);
  }

  /** The exchange of a Pop takes the item it has loaded if and only if the slot of the ReadCur it read
      the second time holds that item then. */
  lemma TakeExactly(n: nat, k: nat, ss: seq<State>, acts: seq<Action>, t: nat, item: nat, l: nat, m: nat, j: nat)
    requires RunOf(n, k, ss, acts) && l < m < j < |acts| && Silent(acts, t, l + 1, m) && Silent(acts, t, m + 1, j)
    requires acts[l] == LoadSlot(t) && acts[m] == RereadReadCur(t) && acts[j] == PopCas(t)
    requires t in ss[l + 1].tasks && ss[l + 1].tasks[t] == PopLoaded(item)
    ensures |ss[j].slots| == n
    ensures var at := ss[m].readCur % n;
            if ss[j].slots[at] == item then
              && t in ss[j + 1].tasks && ss[j + 1].slots == ss[j].slots[at := 0]
              && ss[j + 1].popped == ss[j].popped + [item]
            else t !in ss[j + 1].tasks && ss[j + 1].slots == ss[j].slots && ss[j + 1].popped == ss[j].popped
  {
    TaskKept(ss, acts, t, l + 1, m);
    assert ss[m + 1].tasks[t] == PopTaking(item, ss[m].readCur);
    TaskKept(ss, acts, t, m + 1, j);
    SlotIs(n, k, ss, acts, j, ss[m].readCur);
  }

  // ----- who can make a Pop fail -----

  /** Another thread takes an item, or moves ReadCur. */
  ghost predicate Disturbs(s: State, a: Action, s': State, t: nat) {
    a.t != t && (a.PopAdd? || s'.popped != s.popped)
  }

  /** Thread `t` is in its Pop, ReadCur is `cur` still, and the item it has loaded is still in its slot. */
  ghost predicate Undisturbed(s: State, t: nat, cur: nat) {
    && s.Shape() && t in s.tasks && s.readCur == cur
    && match s.tasks[t]
       case PopStarting(c) => c == cur
       case PopLoaded(item) => item != 0 && s.slots[s.Slot(cur)] == item
       case PopTaking(item, c) => c == cur && item != 0 && s.slots[s.Slot(cur)] == item
       case PopAdding(_) => true
       case _ => false
  }

  lemma OthersDoNotDisturb(s: State, a: Action, s': State, t: nat, cur: nat)
    requires Undisturbed(s, t, cur) && Enabled(s, a) && s' == Do(s, a) && a.t != t && !Disturbs(s, a, s', t)
    ensures Undisturbed(s', t, cur)
  {
  }

  lemma OwnStep(s: State, a: Action, s': State, t: nat, cur: nat)
    requires Undisturbed(s, t, cur) && Enabled(s, a) && s' == Do(s, a) && a.t == t && t in s'.tasks
    ensures Undisturbed(s', t, cur)
  {
  }

  lemma {:induction false} StaysUndisturbed(ss: seq<State>, acts: seq<Action>, t: nat, i: nat, j: nat)
    requires Steps(ss, acts) && i < j <= |acts| && acts[i] == ReadReadCur(t)
    requires forall m :: i < m <= j ==> t in ss[m].tasks
    requires forall m :: i < m < j ==> !Disturbs(ss[m], acts[m], ss[m + 1], t)
    ensures Undisturbed(ss[j], t, ss[i].readCur)
  {
    if j > i + 1 {
      StaysUndisturbed(ss, acts, t, i, j - 1);
      var s, a := ss[j - 1], acts[j - 1];
      if a.t == t {
        OwnStep(s, a, ss[j], t, ss[i].readCur);
      } else {
        OthersDoNotDisturb(s, a, ss[j], t, ss[i].readCur);
      }
    }
  }

  /** If the exchange of a Pop fails, then since the call read ReadCur another thread has taken an item or
      has moved ReadCur. */
  lemma FailedTakeIsDisturbed(ss: seq<State>, acts: seq<Action>, t: nat, i: nat, j: nat)
    requires Steps(ss, acts) && i < j < |acts| && acts[i] == ReadReadCur(t) && acts[j] == PopCas(t)
    requires forall m :: i < m <= j ==> t in ss[m].tasks
    requires t !in ss[j + 1].tasks
    ensures exists m :: i < m < j && acts[m].t != t && (acts[m].PopAdd? || ss[m + 1].popped != ss[m].popped)
  {
    if forall m :: i < m < j ==> !Disturbs(ss[m], acts[m], ss[m + 1], t) {
      StaysUndisturbed(ss, acts, t, i, j);
    }
  }
}
