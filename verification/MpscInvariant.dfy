/** The invariant of the free list, and that every step of every thread keeps it. */
module MpscInvariant {
  import opened MpscFreeList

  // ----- the invariant -----

  function Real(c: seq<Ptr>): (r: seq<Ptr>) {
    if c == [] then [] else if c[0] == Stub then Real(c[1..]) else [c[0]] + Real(c[1..])
  }

  predicate Adjacent(c: seq<Ptr>, p: Ptr, n: Ptr) {
    exists i :: 0 <= i < |c| - 1 && c[i] == p && c[i + 1] == n
  }

  ghost predicate Pending(s: State, p: Ptr, n: Ptr) {
    exists t :: t in s.pushes && s.pushes[t] == Exchanged(p, n)
  }

  ghost predicate Distinct(c: seq<Ptr>) {
    forall i, j :: 0 <= i < j < |c| ==> c[i] != c[j]
  }

  /** `n` follows `p` by its Next field, or will once a push in flight has made its link. */
  ghost predicate Joined(s: State, p: Ptr, n: Ptr) {
    if s.NextOf(p) == Null then Pending(s, p, n) else s.NextOf(p) == n
  }

  /** `c` runs from Tail to Head without repetition; neighbours are joined by Next or wait for
      the link of a push, and the last node's Next is NULL. */
  ghost predicate Chain(s: State, c: seq<Ptr>) {
    && |c| > 0 && c[0] == s.tail && c[|c| - 1] == s.head
    && Null !in c && Distinct(c)
    && (forall i :: 0 <= i < |c| - 1 ==> Joined(s, c[i], c[i + 1]))
    && s.NextOf(s.head) == Null
  }

  ghost predicate PushOk(s: State, c: seq<Ptr>, t: Tid)
    requires t in s.pushes
  {
    && s.pushes[t].node != Null
    && s.NextOf(if s.pushes[t].Cleared? then s.pushes[t].node else s.pushes[t].prev) == Null
    && (s.pushes[t].Cleared? ==> s.pushes[t].node !in c)
    && (s.pushes[t].Exchanged? ==> Adjacent(c, s.pushes[t].prev, s.pushes[t].node))
    && (t == Consumer <==> s.pushes[t].node == Stub)
  }

  ghost predicate Pushes(s: State, c: seq<Ptr>) {
    && (forall t :: t in s.pushes ==> PushOk(s, c, t))
    && (forall t, u :: t in s.pushes && u in s.pushes && t != u ==> s.pushes[t].node != s.pushes[u].node)
  }

  ghost predicate PopOk(s: State, c: seq<Ptr>) {
    && (!s.pop.Idle? ==> s.pop.tail == s.tail && s.tail.Node?)
    && (Consumer in s.pushes <==> s.pop.StubPush?)
    && (s.pop.StubClear? ==> Stub !in c)
  }

  ghost predicate Owned(s: State, c: seq<Ptr>) {
    && (forall p :: p in c && p.Node? ==> p in s.owned)
    && (forall t :: t in s.pushes && s.pushes[t].node.Node? ==> s.pushes[t].node in s.owned)
    && (forall p :: p in s.owned ==>
         p.Node? && (p in c || exists t :: t in s.pushes && s.pushes[t] == Cleared(p)))
  }

  ghost predicate Inv(s: State, c: seq<Ptr>) {
    && Chain(s, c) && Pushes(s, c) && PopOk(s, c) && Owned(s, c)
    && s.pushed == s.popped + Real(c)
  }

  /** What a step does to the chain: an exchange appends, a move of Tail drops the front. */
  function NextChain(s: State, a: Action, c: seq<Ptr>): seq<Ptr>
    requires Enabled(s, a)
  {
    if a.Exchange? then c + [s.pushes[a.t].node]
    else if Do(s, a).tail != s.tail && |c| > 0 then c[1..]
    else c
  }

  lemma RealAppend(c: seq<Ptr>, n: Ptr)
    ensures Real(c + [n]) == Real(c) + if n == Stub then [] else [n]
  {
    if c == [] {
      assert c + [n] == [n];
    } else {
      assert (c + [n])[1..] == c[1..] + [n];
      RealAppend(c[1..], n);
    }
  }

  // ----- a producer's steps -----

  /** Two neighbours stay joined when their Next field stays as it is and the step only touches the push
      of `t`, unless they waited for `t`. */
  lemma JoinedKept(s: State, s': State, t: Tid, p: Ptr, n: Ptr)
    requires Joined(s, p, n) && s'.NextOf(p) == s.NextOf(p)
    requires forall u :: u in s.pushes && u != t ==> u in s'.pushes && s'.pushes[u] == s.pushes[u]
    requires t in s.pushes ==> s.pushes[t] != Exchanged(p, n)
    ensures Joined(s', p, n)
  {
  }

  lemma ChainKept(s: State, s': State, c: seq<Ptr>)
    requires Chain(s, c) && s'.head == s.head && s'.tail == s.tail && s'.NextOf(s.head) == Null
    requires forall i :: 0 <= i < |c| - 1 ==> Joined(s', c[i], c[i + 1])
    ensures Chain(s', c)
  {
  }

  /** A push past its exchange holds two neighbours of the chain. */
  lemma HeldInChain(s: State, c: seq<Ptr>, t: Tid)
    requires t in s.pushes && PushOk(s, c, t) && s.pushes[t].Exchanged?
    ensures s.pushes[t].prev in c && s.pushes[t].node in c
  {
  }

  lemma BeginPushChain(s: State, c: seq<Ptr>, t: nat, id: nat, s': State)
    requires Inv(s, c) && Enabled(s, BeginPush(t, id)) && s' == Do(s, BeginPush(t, id))
    ensures Chain(s', c)
  {
    assert Node(id) !in c;
    forall i | 0 <= i < |c| - 1
      ensures Joined(s', c[i], c[i + 1])
    {
      JoinedKept(s, s', Producer(t), c[i], c[i + 1]);
    }
  }

  lemma BeginPushPushes(s: State, c: seq<Ptr>, t: nat, id: nat, s': State)
    requires Inv(s, c) && Enabled(s, BeginPush(t, id)) && s' == Do(s, BeginPush(t, id))
    ensures Pushes(s', c)
  {
    assert Node(id) !in c;
    forall u | u in s'.pushes
      ensures PushOk(s', c, u)
    {
      if u != Producer(t) {
        assert PushOk(s, c, u);
        if s.pushes[u].Exchanged? {
          HeldInChain(s, c, u);
        }
      }
    }
  }

  lemma BeginPushOwned(s: State, c: seq<Ptr>, t: nat, id: nat, s': State)
    requires Inv(s, c) && Enabled(s, BeginPush(t, id)) && s' == Do(s, BeginPush(t, id))
    ensures Owned(s', c)
  {
    forall p | p in s'.owned
      ensures p.Node? && (p in c || exists u :: u in s'.pushes && s'.pushes[u] == Cleared(p))
    {
      if p == Node(id) {
        assert s'.pushes[Producer(t)] == Cleared(p);
      } else if p !in c {
        var u :| u in s.pushes && s.pushes[u] == Cleared(p);
        assert s'.pushes[u] == Cleared(p);
      }
    }
  }

  lemma BeginPushKeeps(s: State, c: seq<Ptr>, t: nat, id: nat)
    requires Inv(s, c) && Enabled(s, BeginPush(t, id))
    ensures Inv(Do(s, BeginPush(t, id)), c)
  {
    var s' := Do(s, BeginPush(t, id));
    BeginPushChain(s, c, t, id, s');
    BeginPushPushes(s, c, t, id, s');
    BeginPushOwned(s, c, t, id, s');
  }

  /** `s'` and `c'` are what the exchange of `t` makes of `s` and of its chain `c`. */
  ghost predicate Exchanges(s: State, c: seq<Ptr>, t: Tid, s': State, c': seq<Ptr>) {
    && t in s.pushes && s.pushes[t].Cleared?
    && s' == s.(head := s.pushes[t].node, pushes := s'.pushes, pushed := s'.pushed)
    && s'.pushes == s.pushes[t := Exchanged(s.head, s.pushes[t].node)]
    && s'.pushed == s.pushed + (if s.pushes[t].node == Stub then [] else [s.pushes[t].node])
    && c' == c + [s.pushes[t].node]
  }

  lemma ExchangeChain(s: State, c: seq<Ptr>, t: Tid, s': State, c': seq<Ptr>)
    requires Chain(s, c) && Exchanges(s, c, t, s', c') && PushOk(s, c, t)
    ensures Chain(s', c')
  {
    var n := |c| - 1;
    assert c'[n] == s.head && c'[n + 1] == s'.head;
    assert s'.pushes[t] == Exchanged(s.head, s'.head);
    forall i | 0 <= i < |c'| - 1
      ensures Joined(s', c'[i], c'[i + 1])
    {
      if i < n {
        JoinedKept(s, s', t, c[i], c[i + 1]);
      }
    }
  }

  lemma ExchangePush(s: State, c: seq<Ptr>, t: Tid, s': State, c': seq<Ptr>, u: Tid)
    requires Chain(s, c) && Exchanges(s, c, t, s', c') && u in s.pushes && PushOk(s, c, u)
    requires u != t ==> s.pushes[u].node != s.pushes[t].node
    ensures u in s'.pushes && PushOk(s', c', u) && s'.pushes[u].node == s.pushes[u].node
  {
    if u == t {
      assert c'[|c| - 1] == s.head && c'[|c|] == s.pushes[t].node;
    } else if s.pushes[u].Exchanged? {
      AdjacentAppend(c, s.pushes[u].prev, s.pushes[u].node, s.pushes[t].node);
    }
  }

  lemma ExchangePushes(s: State, c: seq<Ptr>, t: Tid, s': State, c': seq<Ptr>)
    requires Chain(s, c) && Pushes(s, c) && Exchanges(s, c, t, s', c')
    ensures Pushes(s', c')
  {
    forall u | u in s'.pushes
      ensures PushOk(s', c', u) && u in s.pushes && s'.pushes[u].node == s.pushes[u].node
    {
      ExchangePush(s, c, t, s', c', u);
    }
  }

  lemma AdjacentAppend(c: seq<Ptr>, p: Ptr, n: Ptr, node: Ptr)
    requires Adjacent(c, p, n)
    ensures Adjacent(c + [node], p, n)
  {
    var i :| 0 <= i < |c| - 1 && c[i] == p && c[i + 1] == n;
    assert (c + [node])[i] == p && (c + [node])[i + 1] == n;
  }

  lemma ExchangeOwned(s: State, c: seq<Ptr>, t: Tid, s': State, c': seq<Ptr>)
    requires Owned(s, c) && Exchanges(s, c, t, s', c')
    ensures Owned(s', c')
  {
    assert c'[|c|] == s.pushes[t].node;
    OwnedKept(s, s', c, c', t);
  }

  lemma ExchangePopOk(s: State, c: seq<Ptr>, t: Tid, s': State, c': seq<Ptr>)
    requires t in s.pushes && PopOk(s, c) && PushOk(s, c, t) && Exchanges(s, c, t, s', c')
    ensures PopOk(s', c')
  {
  }

  lemma ExchangeKeeps(s: State, c: seq<Ptr>, t: Tid, s': State, c': seq<Ptr>)
    requires Inv(s, c) && Exchanges(s, c, t, s', c')
    ensures Inv(s', c')
  {
    assert PushOk(s, c, t);
    ExchangeChain(s, c, t, s', c');
    ExchangePushes(s, c, t, s', c');
    ExchangePopOk(s, c, t, s', c');
    ExchangeOwned(s, c, t, s', c');
    ExchangeLogs(s, c, t, s', c');
  }

  lemma ExchangeLogs(s: State, c: seq<Ptr>, t: Tid, s': State, c': seq<Ptr>)
    requires Exchanges(s, c, t, s', c') && s.pushed == s.popped + Real(c)
    ensures s'.pushed == s'.popped + Real(c')
  {
    RealAppend(c, s.pushes[t].node);
  }

  /** A step of the push of `t` keeps the ownership accounting when it ends with `t`'s node in the
      chain and gives nothing back. */
  lemma OwnedKept(s: State, s': State, c: seq<Ptr>, c': seq<Ptr>, t: Tid)
    requires Owned(s, c) && s'.owned == s.owned && t in s.pushes && s.pushes[t].node in c'
    requires forall p :: p in c ==> p in c'
    requires forall p :: p in c' ==> p in c || p == s.pushes[t].node
    requires forall u :: u in s.pushes && u != t ==> u in s'.pushes && s'.pushes[u] == s.pushes[u]
    requires forall u :: u in s'.pushes ==> u in s.pushes && s'.pushes[u].node == s.pushes[u].node
    ensures Owned(s', c')
  {
  }

  lemma AdjacentUnique(c: seq<Ptr>, p: Ptr, n: Ptr, m: Ptr)
    requires Distinct(c) && Adjacent(c, p, n) && Adjacent(c, p, m)
    ensures n == m
  {
  }

  lemma LinkJoins(s: State, c: seq<Ptr>, t: Tid, s': State, k: nat, i: nat)
    requires Inv(s, c) && Enabled(s, Link(t)) && s' == Do(s, Link(t))
    requires k < |c| - 1 && c[k] == s.pushes[t].prev && c[k + 1] == s.pushes[t].node && i < |c| - 1
    ensures Joined(s', c[i], c[i + 1])
  {
    assert c[k + 1] != Null;
    if i == k {
      assert s'.NextOf(c[k]) == c[k + 1];
    } else {
      assert c[i] != c[k];
      JoinedKept(s, s', t, c[i], c[i + 1]);
    }
  }

  lemma LinkChain(s: State, c: seq<Ptr>, t: Tid, s': State)
    requires Inv(s, c) && Enabled(s, Link(t)) && s' == Do(s, Link(t))
    ensures Chain(s', c)
  {
    assert PushOk(s, c, t);
    var k: nat :| k < |c| - 1 && c[k] == s.pushes[t].prev && c[k + 1] == s.pushes[t].node;
    forall i: nat | i < |c| - 1
      ensures Joined(s', c[i], c[i + 1])
    {
      LinkJoins(s, c, t, s', k, i);
    }
    LinkHead(s, c, t, s', k);
    ChainKept(s, s', c);
  }

  lemma LinkHead(s: State, c: seq<Ptr>, t: Tid, s': State, k: nat)
    requires Chain(s, c) && Enabled(s, Link(t)) && s' == Do(s, Link(t))
    requires k < |c| - 1 && c[k] == s.pushes[t].prev
    ensures s'.NextOf(s.head) == Null && s'.head == s.head && s'.tail == s.tail
  {
    assert c[|c| - 1] != c[k];
  }

  lemma LinkPushes(s: State, c: seq<Ptr>, t: Tid, s': State)
    requires Inv(s, c) && Enabled(s, Link(t)) && s' == Do(s, Link(t))
    ensures Pushes(s', c)
  {
    assert PushOk(s, c, t);
    forall u | u in s'.pushes
      ensures PushOk(s', c, u)
    {
      assert PushOk(s, c, u);
      if s.pushes[u].Exchanged? && s.pushes[u].prev == s.pushes[t].prev {
        AdjacentUnique(c, s.pushes[u].prev, s.pushes[t].node, s.pushes[u].node);
      }
    }
  }

  lemma LinkKeeps(s: State, c: seq<Ptr>, t: Tid, s': State)
    requires Inv(s, c) && Enabled(s, Link(t)) && s' == Do(s, Link(t))
    ensures Inv(s', c)
  {
    LinkChain(s, c, t, s');
    LinkPushes(s, c, t, s');
    assert PushOk(s, c, t);
    HeldInChain(s, c, t);
    OwnedKept(s, s', c, c, t);
    assert PopOk(s', c);
  }

  lemma ClientWriteKeeps(s: State, c: seq<Ptr>, id: nat, v: Ptr, s': State)
    requires Inv(s, c) && Enabled(s, ClientWrite(id, v)) && s' == Do(s, ClientWrite(id, v))
    ensures Inv(s', c)
  {
    assert Node(id) !in c;
    forall i | 0 <= i < |c| - 1
      ensures Joined(s', c[i], c[i + 1])
    {
      assert s'.NextOf(c[i]) == s.NextOf(c[i]);
      assert Pending(s, c[i], c[i + 1]) ==> Pending(s', c[i], c[i + 1]);
    }
    forall u | u in s'.pushes
      ensures PushOk(s', c, u)
    {
      assert PushOk(s, c, u);
      if s.pushes[u].Exchanged? {
        HeldInChain(s, c, u);
      }
    }
  }

  /** Pop moves Tail to the next node: it leaves the stub behind or returns the old tail. */
  ghost predicate TailMove(s: State, s': State) {
    && s.NextOf(s.tail) != Null && Consumer !in s.pushes
    && s' == s.(tail := s.NextOf(s.tail), pop := s'.pop, owned := s.owned - {s.tail},
                popped := s.popped + if s.tail == Stub then [] else [s.tail])
    && (s'.pop.Idle? || (s'.pop == SecondLoad(s'.tail) && s.tail == Stub))
  }

  lemma TailMoveChain(s: State, c: seq<Ptr>, s': State, c': seq<Ptr>)
    requires Inv(s, c) && TailMove(s, s') && c' == c[1..]
    ensures |c| > 1 && c == [s.tail] + c' && Chain(s', c')
  {
    assert |c| > 1 && Joined(s, c[0], c[1]) && c'[0] == s'.tail;
    forall i | 0 <= i < |c'| - 1
      ensures Joined(s', c'[i], c'[i + 1])
    {
      assert Joined(s, c[i + 1], c[i + 2]);
      assert Pending(s, c[i + 1], c[i + 2]) ==> Pending(s', c[i + 1], c[i + 2]);
    }
  }

  /** No push in flight still refers to the node that Tail leaves. */
  lemma TailMovePushes(s: State, c: seq<Ptr>, s': State, c': seq<Ptr>)
    requires Inv(s, c) && TailMove(s, s') && |c| > 1 && c' == c[1..]
    ensures Pushes(s', c')
    ensures forall u :: u in s.pushes ==> s.pushes[u].node != s.tail
    ensures forall u :: u in s.pushes && s.pushes[u].Exchanged? ==> s.pushes[u].prev != s.tail
  {
    forall u | u in s.pushes
      ensures PushOk(s', c', u) && s.pushes[u].node != s.tail
      ensures s.pushes[u].Exchanged? ==> s.pushes[u].prev != s.tail
    {
      assert PushOk(s, c, u);
      if s.pushes[u].Exchanged? {
        var i :| 0 <= i < |c| - 1 && c[i] == s.pushes[u].prev && c[i + 1] == s.pushes[u].node;
        assert c[0] != c[i + 1];
        assert c'[i - 1] == c[i] && c'[i] == c[i + 1];
      }
    }
  }

  lemma TailMoveOwned(s: State, c: seq<Ptr>, s': State, c': seq<Ptr>)
    requires Owned(s, c) && TailMove(s, s') && c == [s.tail] + c' && s.tail !in c'
    requires forall u :: u in s.pushes ==> s.pushes[u].node != s.tail
    ensures Owned(s', c')
  {
  }

  lemma TailMoveKeeps(s: State, c: seq<Ptr>, s': State, c': seq<Ptr>)
    requires Inv(s, c) && TailMove(s, s') && c' == c[1..]
    ensures |c| > 1 && Inv(s', c')
  {
    TailMoveChain(s, c, s', c');
    TailMovePushes(s, c, s', c');
    assert s.tail !in c' by {
      assert forall i :: 0 <= i < |c'| ==> c'[i] == c[i + 1] && c[0] != c[i + 1];
    }
    TailMoveOwned(s, c, s', c');
    TailMoveLogs(s, c, s', c');
  }

  lemma TailMoveLogs(s: State, c: seq<Ptr>, s': State, c': seq<Ptr>)
    requires PopOk(s, c) && TailMove(s, s') && c == [s.tail] + c' && s.pushed == s.popped + Real(c)
    requires Chain(s', c') && s.tail != Null
    ensures s'.pushed == s'.popped + Real(c') && PopOk(s', c')
  {
    assert c[1..] == c';
  }

  lemma PopStepKeeps(s: State, c: seq<Ptr>)
    requires Inv(s, c) && Enabled(s, PopStep)
    ensures Inv(Do(s, PopStep), NextChain(s, PopStep, c))
  {
    var s' := Do(s, PopStep);
    assert c[0] == s.tail && (s.NextOf(s.tail) != Null ==> |c| > 1 && Joined(s, c[0], c[1]) && c[1] != c[0]);
    if s.pop.StubClear? {
      StubClearKeeps(s, c, s');
    } else if s.pop.HeadLoad? || s.NextOf(s.tail) == Null {
      if s.pop.HeadLoad? && s.pop.tail == s.head {
        assert |c| == 1 && Stub !in c;
      }
      SameMemoryKeeps(s, c, s');
    } else {
      TailMoveKeeps(s, c, s', c[1..]);
    }
  }

  lemma SameMemoryKeeps(s: State, c: seq<Ptr>, s': State)
    requires Inv(s, c) && s' == s.(pop := s'.pop) && PopOk(s', c)
    ensures Inv(s', c)
  {
    assert forall p, n :: Joined(s, p, n) ==> Joined(s', p, n);
    assert forall u :: u in s.pushes && PushOk(s, c, u) ==> PushOk(s', c, u);
  }

  lemma StubClearChain(s: State, c: seq<Ptr>, s': State)
    requires Inv(s, c) && s.pop.StubClear? && s' == Do(s, PopStep)
    ensures Chain(s', c)
  {
    forall i | 0 <= i < |c| - 1
      ensures Joined(s', c[i], c[i + 1])
    {
      JoinedKept(s, s', Consumer, c[i], c[i + 1]);
    }
  }

  lemma StubClearPushes(s: State, c: seq<Ptr>, s': State)
    requires Inv(s, c) && s.pop.StubClear? && s' == Do(s, PopStep)
    ensures Pushes(s', c)
  {
    forall u | u in s'.pushes
      ensures PushOk(s', c, u)
    {
      if u != Consumer {
        assert PushOk(s, c, u);
        if s.pushes[u].Exchanged? {
          HeldInChain(s, c, u);
        }
      }
    }
  }

  lemma StubClearKeeps(s: State, c: seq<Ptr>, s': State)
    requires Inv(s, c) && s.pop.StubClear? && s' == Do(s, PopStep)
    ensures Inv(s', c)
  {
    StubClearChain(s, c, s');
    StubClearPushes(s, c, s');
    forall q | q in s'.owned
      ensures q.Node? && (q in c || exists u :: u in s'.pushes && s'.pushes[u] == Cleared(q))
    {
      if q !in c {
        var u :| u in s.pushes && s.pushes[u] == Cleared(q);
        assert s'.pushes[u] == Cleared(q);
      }
    }
  }
}
