/** When the cliques of a join tree may send each other messages. */
module Schedules {
  import opened JoinTrees

  type Message = (nat, nat)

  /** Every message was sent after its sender had heard from all its other neighbours. */
  ghost predicate Fair(t: JoinTree, sent: set<Message>)
  {
    forall i: nat, j: nat :: (i, j) in sent ==> t.Adjacent(i, j) && HeardFromOthers(t, sent, i, j)
  }

  ghost predicate HeardFromOthers(t: JoinTree, sent: set<Message>, i: nat, j: nat)
  {
    forall k: nat :: t.Adjacent(k, i) && k != j ==> (k, i) in sent
  }

  ghost predicate HeardFromAll(t: JoinTree, sent: set<Message>, i: nat)
  {
    forall k: nat :: t.Adjacent(k, i) ==> (k, i) in sent
  }

  /** A node that has sent nothing and waits for one neighbour only sends to that one. */
  ghost predicate MaySendFirst(t: JoinTree, sent: set<Message>, i: nat, to: nat)
  {
    && i != 0 && t.Adjacent(i, to)
    && (forall k: nat :: t.Adjacent(i, k) ==> (i, k) !in sent)
    && HeardFromOthers(t, sent, i, to) && (to, i) !in sent
  }

  /** A node that has heard from all may send to anyone it has not sent to. */
  ghost predicate MaySendRest(t: JoinTree, sent: set<Message>, i: nat, to: nat)
  {
    t.Adjacent(i, to) && (i, to) !in sent && HeardFromAll(t, sent, i)
  }

  ghost predicate MaySend(t: JoinTree, sent: set<Message>, i: nat, to: nat)
  {
    MaySendFirst(t, sent, i, to) || MaySendRest(t, sent, i, to)
  }

  /** No parent has sent to a child before the child has sent to it. */
  ghost predicate UpFirst(parent: seq<nat>, sent: set<Message>)
  {
    forall p: nat, c: nat :: IsParent(parent, c, p) && (p, c) in sent ==> (c, p) in sent
  }

  /** A first message always goes to the parent. */
  lemma FirstGoesUp(t: JoinTree, parent: seq<nat>, depth: seq<nat>, sent: set<Message>, i: nat, to: nat)
    requires t.WellFormed() && Rooted(t, parent, depth) && UpFirst(parent, sent) && MaySendFirst(t, sent, i, to)
    ensures IsParent(parent, i, to)
  {
    AdjacentBothWays(t, i, to);
    var p := parent[i];
    AdjacentBothWays(t, i, p);
    assert IsParent(parent, i, p);
    if p != to { assert t.Adjacent(p, i); }
  }

  /** Sending what may be sent is fair and keeps children first. */
  lemma SendKeeps(t: JoinTree, parent: seq<nat>, depth: seq<nat>, sent: set<Message>, i: nat, to: nat)
    requires t.WellFormed() && Rooted(t, parent, depth) && UpFirst(parent, sent) && Fair(t, sent)
    requires MaySend(t, sent, i, to)
    ensures (i, to) !in sent && Fair(t, sent + {(i, to)}) && UpFirst(parent, sent + {(i, to)})
  {
    AdjacentBothWays(t, i, to);
    if MaySendFirst(t, sent, i, to) { FirstGoesUp(t, parent, depth, sent, i, to); }
  }

  /** Nobody may send. */
  ghost predicate Stuck(t: JoinTree, sent: set<Message>)
  {
    forall i: nat, to: nat :: !MaySend(t, sent, i, to)
  }

  lemma {:induction false} UpSent(t: JoinTree, parent: seq<nat>, depth: seq<nat>, sent: set<Message>, c: nat, top: nat)
    requires t.WellFormed() && Rooted(t, parent, depth) && UpFirst(parent, sent) && Fair(t, sent) && Stuck(t, sent)
    requires 0 < c < t.Size() && forall i :: 0 <= i < t.Size() ==> depth[i] <= top
    ensures (c, parent[c]) in sent
    decreases top - depth[c]
  {
    var p := parent[c];
    AdjacentBothWays(t, c, p);
    assert IsParent(parent, c, p);
    if (c, p) !in sent {
      forall k: nat | t.Adjacent(k, c) && k != p
        ensures (k, c) in sent
      {
        AdjacentBothWays(t, k, c);
        UpSent(t, parent, depth, sent, k, top);
      }
      OnlyParentLeft(t, parent, sent, c);
    }
  }

  /** A node whose children have all sent to it may send to its parent. */
  lemma OnlyParentLeft(t: JoinTree, parent: seq<nat>, sent: set<Message>, c: nat)
    requires t.WellFormed() && UpFirst(parent, sent) && Fair(t, sent)
    requires 0 < c < |parent| && t.Adjacent(c, parent[c])
    requires HeardFromOthers(t, sent, c, parent[c]) && (c, parent[c]) !in sent
    ensures MaySend(t, sent, c, parent[c])
  {
    var p := parent[c];
    assert IsParent(parent, c, p) && (p, c) !in sent;
    AdjacentBothWays(t, c, p);
    assert t.Adjacent(p, c);
    assert forall k: nat :: (c, k) in sent ==> k == p || !HeardFromOthers(t, sent, c, k);
  }

  lemma {:induction false} AllSent(t: JoinTree, parent: seq<nat>, depth: seq<nat>, sent: set<Message>, i: nat, top: nat)
    requires t.WellFormed() && Rooted(t, parent, depth) && UpFirst(parent, sent) && Fair(t, sent) && Stuck(t, sent)
    requires i < t.Size() && forall i :: 0 <= i < t.Size() ==> depth[i] <= top
    ensures forall j: nat :: t.Adjacent(i, j) ==> (i, j) in sent
    decreases depth[i]
  {
    if i != 0 { AllSent(t, parent, depth, sent, parent[i], top); }
    forall k: nat | t.Adjacent(k, i)
      ensures (k, i) in sent
    {
      AdjacentBothWays(t, k, i);
      if !IsParent(parent, i, k) { UpSent(t, parent, depth, sent, k, top); }
    }
    assert HeardFromAll(t, sent, i);
    forall j: nat | t.Adjacent(i, j)
      ensures (i, j) in sent
    {
      assert !MaySend(t, sent, i, j);
    }
  }

  lemma {:induction false} Deepest(depth: seq<nat>) returns (top: nat)
    ensures forall i :: 0 <= i < |depth| ==> depth[i] <= top
  {
    if |depth| == 0 {
      top := 0;
    } else {
      var rest := Deepest(depth[1..]);
      top := if rest < depth[0] then depth[0] else rest;
      assert forall i :: 1 <= i < |depth| ==> depth[i] == depth[1..][i - 1];
    }
  }

  /** There is no deadlock: when nobody may send, every message has been sent. */
  lemma StuckMeansDone(t: JoinTree, parent: seq<nat>, depth: seq<nat>, sent: set<Message>)
    requires t.WellFormed() && Rooted(t, parent, depth) && UpFirst(parent, sent) && Fair(t, sent) && Stuck(t, sent)
    ensures forall i: nat, j: nat :: t.Adjacent(i, j) <==> (i, j) in sent
  {
    var top := Deepest(depth);
    forall i: nat, j: nat | t.Adjacent(i, j)
      ensures (i, j) in sent
    {
      AdjacentBothWays(t, i, j);
      AllSent(t, parent, depth, sent, i, top);
    }
  }

  /** The messages of a finished schedule. */
  ghost function AllMessages(t: JoinTree): set<Message>
  {
    set i, j | 0 <= i < t.Size() && 0 <= j < t.Size() && t.Adjacent(i, j) :: (i, j)
  }

  function Elements(log: seq<Message>): set<Message>
  {
    set m | m in log
  }

  /** No message is sent twice, and each was sent after its sender had heard from all its other neighbours. */
  ghost predicate FairSchedule(t: JoinTree, log: seq<Message>)
  {
    |log| == 0 ||
    var before, last := log[..|log| - 1], log[|log| - 1];
    && FairSchedule(t, before) && last !in before
    && t.Adjacent(last.0, last.1) && HeardFromOthers(t, Elements(before), last.0, last.1)
  }

  /** The neighbours a node has yet to send to, and those it has yet to hear from. */
  function Unsent(t: JoinTree, sent: set<Message>, i: nat): set<nat>
  {
    set j | j in t.Neighbors(i) && (i, j) !in sent
  }

  function Unheard(t: JoinTree, sent: set<Message>, i: nat): set<nat>
  {
    set j | j in t.Neighbors(i) && (j, i) !in sent
  }

  /** The bookkeeping of the scheduler. */
  ghost predicate Pending(t: JoinTree, toSend: seq<set<nat>>, toReceive: seq<set<nat>>, sent: set<Message>)
  {
    && |toSend| == |toReceive| == t.Size()
    && forall i :: 0 <= i < t.Size() ==> toSend[i] == Unsent(t, sent, i) && toReceive[i] == Unheard(t, sent, i)
  }

  lemma SubsetOfSameSize(a: set<nat>, b: set<nat>)
    requires a <= b && |a| == |b|
    ensures a == b
  {
    assert b == a + (b - a) && |b - a| == 0;
  }

  lemma OnlyElement(a: set<nat>, x: nat)
    requires |a| == 1 && x in a
    ensures a == {x}
  {
    assert |a - {x}| == 0;
    assert a == (a - {x}) + {x};
  }

  lemma NeighborsMutual(t: JoinTree, i: nat)
    requires t.WellFormed()
    ensures forall k: nat :: t.Adjacent(k, i) <==> k in t.Neighbors(i)
  {
    forall k: nat
      ensures t.Adjacent(k, i) <==> t.Adjacent(i, k)
    {
      if t.Adjacent(k, i) { AdjacentBothWays(t, k, i); }
      if t.Adjacent(i, k) { AdjacentBothWays(t, i, k); }
    }
  }

  /** The scheduler's first condition: nothing sent, and all but one heard from. */
  lemma FirstCondition(t: JoinTree, sent: set<Message>, i: nat, to: nat)
    requires t.WellFormed() && i != 0
    ensures |Unsent(t, sent, i)| == |t.Neighbors(i)| && |Unheard(t, sent, i)| == 1 && to in Unheard(t, sent, i)
            <==> MaySendFirst(t, sent, i, to)
  {
    NeighborsMutual(t, i);
    if |Unsent(t, sent, i)| == |t.Neighbors(i)| && |Unheard(t, sent, i)| == 1 && to in Unheard(t, sent, i) {
      SubsetOfSameSize(Unsent(t, sent, i), t.Neighbors(i));
      OnlyElement(Unheard(t, sent, i), to);
      assert forall k: nat :: t.Adjacent(i, k) ==> k in Unsent(t, sent, i);
      assert forall k: nat :: t.Adjacent(k, i) && k != to ==> k !in Unheard(t, sent, i);
    }
    if MaySendFirst(t, sent, i, to) {
      assert Unsent(t, sent, i) == t.Neighbors(i);
      assert Unheard(t, sent, i) == {to};
    }
  }

  /** The scheduler's second condition: all heard from, and something to send. */
  lemma RestCondition(t: JoinTree, sent: set<Message>, i: nat, to: nat)
    requires t.WellFormed()
    ensures |Unheard(t, sent, i)| == 0 && to in Unsent(t, sent, i) <==> MaySendRest(t, sent, i, to)
  {
    NeighborsMutual(t, i);
    if |Unheard(t, sent, i)| == 0 {
      assert forall k: nat :: t.Adjacent(k, i) ==> k !in Unheard(t, sent, i);
    }
    if MaySendRest(t, sent, i, to) { assert Unheard(t, sent, i) == {}; }
  }

  /** A message leaves the set of its sender and the set of its receiver. */
  lemma PendingAfter(t: JoinTree, toSend: seq<set<nat>>, toReceive: seq<set<nat>>, sent: set<Message>, i: nat, to: nat)
    requires t.WellFormed() && Pending(t, toSend, toReceive, sent) && t.Adjacent(i, to)
    ensures i < t.Size() && to < t.Size()
    ensures Pending(t, toSend[i := toSend[i] - {to}], toReceive[to := toReceive[to] - {i}], sent + {(i, to)})
  {
    AdjacentBothWays(t, i, to);
    var sent' := sent + {(i, to)};
    forall k | 0 <= k < t.Size()
      ensures Unsent(t, sent', k) == if k == i then toSend[i] - {to} else toSend[k]
      ensures Unheard(t, sent', k) == if k == to then toReceive[to] - {i} else toReceive[k]
    {
    }
  }
}
