/** The intrusive multi-producer, single-consumer free list of tinybase-queues.c as a step
    system. Every load, store and exchange of a shared location is one step; any number of
    producers and the one consumer interleave their steps in any order. */
module MpscFreeList {

  /** A node address. The stub is the node embedded in the queue structure. */
  datatype Ptr = Null | Stub | Node(id: nat)

  datatype Tid = Consumer | Producer(id: nat)

  /** How far a running Push has come: it has stored NULL in its node, or it has also
      exchanged Head and still has to link the node it got back. */
  datatype Push = Cleared(node: Ptr) | Exchanged(prev: Ptr, node: Ptr)

  /** The next shared access of Pop, with the local variable Tail it carries. `Idle` keeps
      the value the last call returned. */
  datatype Pop =
    | Idle(result: Ptr)
    | SecondLoad(tail: Ptr)
    | HeadLoad(tail: Ptr)
    | StubClear(tail: Ptr)
    | StubPush(tail: Ptr)
    | LastLoad(tail: Ptr)

  /** Shared memory, the program counters, and two logs that no step reads: the nodes in the
      order of their exchange on Head, and the nodes in the order Pop returned them.
      `owned` holds the nodes given to Push and not yet given back by Pop. */
  datatype State = State(
    head: Ptr, tail: Ptr, next: map<Ptr, Ptr>,
    pushes: map<Tid, Push>, pop: Pop,
    owned: set<Ptr>, pushed: seq<Ptr>, popped: seq<Ptr>)
  {
    /** The Next field of the node at `p`; memory nobody wrote is zeroed. */
    function NextOf(p: Ptr): Ptr {
      if p in next then next[p] else Null
    }

    function Store(p: Ptr, v: Ptr): State {
      this.(next := next[p := v])
    }
  }

  /** InitMPSCFreeList on memory `next`: it sets Head and Tail and nothing else. */
  function Init(next: map<Ptr, Ptr>): State {
    State(Stub, Stub, next, map[], Idle(Null), {}, [], [])
  }

  datatype Action =
    | BeginPush(producer: nat, id: nat)  // Node->Next = NULL
    | Exchange(t: Tid)                   // Prev = exchange(&Queue->Head, Node)
    | Link(t: Tid)                       // Prev->Next = Node
    | PopStep                            // the next access of Pop outside its own Push
    | ClientWrite(id: nat, v: Ptr)       // the owner of a node overwrites it

  predicate Enabled(s: State, a: Action) {
    match a
    case BeginPush(t, id) => Producer(t) !in s.pushes && Node(id) !in s.owned
    case Exchange(t) => t in s.pushes && s.pushes[t].Cleared?
    case Link(t) => t in s.pushes && s.pushes[t].Exchanged?
    case PopStep => !s.pop.StubPush?
    case ClientWrite(id, v) => Node(id) !in s.owned
  }

  function Do(s: State, a: Action): State
    requires Enabled(s, a)
  {
    match a
    case BeginPush(t, id) =>
      s.Store(Node(id), Null).(pushes := s.pushes[Producer(t) := Cleared(Node(id))],
                               owned := s.owned + {Node(id)})
    case Exchange(t) =>
      var node := s.pushes[t].node;
      s.(head := node,
         pushes := s.pushes[t := Exchanged(s.head, node)],
         pushed := if node == Stub then s.pushed else s.pushed + [node])
    case Link(t) =>
      var done := s.Store(s.pushes[t].prev, s.pushes[t].node).(pushes := s.pushes - {t});
      if t == Consumer && s.pop.StubPush? then done.(pop := LastLoad(s.pop.tail)) else done
    case PopStep => DoPop(s)
    case ClientWrite(id, v) => s.Store(Node(id), v)
  }

  function Return(s: State, next: Ptr, node: Ptr): State {
    s.(tail := next, pop := Idle(node), owned := s.owned - {node}, popped := s.popped + [node])
  }

  function ReturnNull(s: State): State {
    s.(pop := Idle(Null))
  }

  /** One shared access of Pop and the local work up to the next one. */
  function DoPop(s: State): State
    requires !s.pop.StubPush?
  {
    match s.pop
    case Idle(_) =>
      var next := s.NextOf(s.tail);
      if s.tail == Stub then
        if next == Null then ReturnNull(s) else s.(tail := next, pop := SecondLoad(next))
      else if next != Null then Return(s, next, s.tail)
      else s.(pop := HeadLoad(s.tail))
    case SecondLoad(tail) =>
      var next := s.NextOf(tail);
      if next != Null then Return(s, next, tail) else s.(pop := HeadLoad(tail))
    case HeadLoad(tail) =>
      if tail != s.head then ReturnNull(s) else s.(pop := StubClear(tail))
    case StubClear(tail) =>
      s.Store(Stub, Null).(pushes := s.pushes[Consumer := Cleared(Stub)], pop := StubPush(tail))
    case LastLoad(tail) =>
      var next := s.NextOf(tail);
      if next != Null then Return(s, next, tail) else ReturnNull(s)
  }

  // ----- runs -----

  ghost predicate Steps(ss: seq<State>, acts: seq<Action>) {
    && |ss| == |acts| + 1
    && forall i | 0 <= i < |acts| :: Enabled(ss[i], acts[i]) && ss[i + 1] == Do(ss[i], acts[i])
  }

  /** A run from an initialised queue whose structure was zeroed. */
  ghost predicate Run(ss: seq<State>, acts: seq<Action>) {
    && Steps(ss, acts)
    && exists next: map<Ptr, Ptr> :: ss[0] == Init(next) && Init(next).NextOf(Stub) == Null
  }
}
