/** Parts of a join tree that grow from one node, from receivers of messages to their senders. */
module Growth {
  import opened JoinTrees
  import opened Propagation
  import opened Schedules

  ghost function NodesOf(order: seq<nat>): (nodes: set<nat>)
    ensures forall k :: k in nodes <==> k in order
  {
    set k | k in order
  }

  /** A node outside a part that has sent to a node of it, and is joined to no other node of it. */
  ghost predicate Attached(t: JoinTree, sent: set<Message>, nodes: set<nat>, leaf: nat, anchor: nat)
  {
    && leaf !in nodes && leaf < t.Size() && anchor in nodes && t.Adjacent(leaf, anchor) && (leaf, anchor) in sent
    && forall w: nat :: w in nodes && t.Adjacent(leaf, w) ==> w == anchor
  }

  /** A list of nodes, each attached to those before it. */
  ghost predicate Grown(t: JoinTree, sent: set<Message>, order: seq<nat>)
    decreases |order|
  {
    |order| >= 1 &&
    if |order| == 1 then order[0] < t.Size()
    else
      var n := |order| - 1;
      Grown(t, sent, order[..n]) && exists anchor :: Attached(t, sent, NodesOf(order[..n]), order[n], anchor)
  }

  /** No sender of a message into the part is outside it. */
  ghost predicate Closed(sent: set<Message>, nodes: set<nat>)
  {
    forall c: nat, p: nat :: p in nodes && (c, p) in sent ==> c in nodes
  }

  /** A part with one node closest to the root, which contains the parents of all its other nodes. */
  ghost predicate Topped(parent: seq<nat>, depth: seq<nat>, nodes: set<nat>, top: nat)
  {
    && |parent| == |depth| && top in nodes && top < |parent|
    && forall x :: x in nodes ==> x < |parent| && depth[top] <= depth[x] && (x != top ==> x > 0 && parent[x] in nodes)
  }

  /** In a tree a node outside such a part is joined to one node of it at most. */
  lemma AttachOne(t: JoinTree, parent: seq<nat>, depth: seq<nat>, sent: set<Message>, nodes: set<nat>, top: nat,
                  leaf: nat, anchor: nat)
    returns (newTop: nat)
    requires t.WellFormed() && Rooted(t, parent, depth) && Topped(parent, depth, nodes, top)
    requires leaf !in nodes && anchor in nodes && t.Adjacent(leaf, anchor) && (leaf, anchor) in sent
    ensures Attached(t, sent, nodes, leaf, anchor) && Topped(parent, depth, nodes + {leaf}, newTop)
  {
    AdjacentBothWays(t, leaf, anchor);
    assert IsParent(parent, leaf, anchor) || IsParent(parent, anchor, leaf);
    newTop := if IsParent(parent, anchor, leaf) then leaf else top;
    assert IsParent(parent, anchor, leaf) ==> anchor == top && depth[top] == depth[leaf] + 1;
    assert IsParent(parent, leaf, anchor) ==> depth[leaf] == depth[anchor] + 1;
    forall w: nat | w in nodes && t.Adjacent(leaf, w)
      ensures w == anchor
    {
      assert IsParent(parent, leaf, w) || IsParent(parent, w, leaf);
    }
  }

  lemma GrownStep(t: JoinTree, sent: set<Message>, order: seq<nat>, leaf: nat, anchor: nat)
    requires Grown(t, sent, order) && Attached(t, sent, NodesOf(order), leaf, anchor)
    ensures Grown(t, sent, order + [leaf]) && NodesOf(order + [leaf]) == NodesOf(order) + {leaf}
  {
    var more := order + [leaf];
    assert more[..|order|] == order && more[|order|] == leaf;
    assert Attached(t, sent, NodesOf(more[..|order|]), more[|order|], anchor);
  }

  /** A part can be grown until no message has come from outside. */
  lemma GrowFrom(t: JoinTree, parent: seq<nat>, depth: seq<nat>, sent: set<Message>, root: nat) returns (order: seq<nat>)
    requires t.WellFormed() && Rooted(t, parent, depth) && root < t.Size()
    requires forall i: nat, j: nat :: (i, j) in sent ==> t.Adjacent(i, j)
    ensures Grown(t, sent, order) && order[0] == root && Closed(sent, NodesOf(order))
  {
    hide Rooted, Topped, Attached, Grown;
    var all := AllNodes(t);
    order := [root];
    var top := root;
    assert Grown(t, sent, order) && Topped(parent, depth, NodesOf(order), top) by { GrownFirst(t, parent, depth, sent, root); }
    while !Closed(sent, NodesOf(order))
      invariant |order| >= 1 && order[0] == root && Grown(t, sent, order) && Topped(parent, depth, NodesOf(order), top)
      decreases all - NodesOf(order)
    {
      var c: nat, p: nat :| p in NodesOf(order) && (c, p) in sent && c !in NodesOf(order);
      AdjacentBothWays(t, c, p);
      top := AttachOne(t, parent, depth, sent, NodesOf(order), top, c, p);
      GrownStep(t, sent, order, c, p);
      assert c in all - NodesOf(order);
      order := order + [c];
    }
  }

  lemma GrownFirst(t: JoinTree, parent: seq<nat>, depth: seq<nat>, sent: set<Message>, root: nat)
    requires Rooted(t, parent, depth) && root < t.Size()
    ensures Grown(t, sent, [root]) && Topped(parent, depth, NodesOf([root]), root)
  {
  }

  /** Every node of a part but the first has sent into the part. */
  lemma {:induction false} SentInto(t: JoinTree, sent: set<Message>, order: seq<nat>, c: nat) returns (p: nat)
    requires Grown(t, sent, order) && c in order && c != order[0]
    ensures p in order && (c, p) in sent
  {
    var n := |order| - 1;
    assert order == order[..n] + [order[n]];
    if c == order[n] {
      p :| Attached(t, sent, NodesOf(order[..n]), order[n], p);
    } else {
      p := SentInto(t, sent, order[..n], c);
    }
  }

  /** The only way out of a closed part is the edge over which its first node has yet to hear. */
  lemma WayOut(t: JoinTree, sent: set<Message>, order: seq<nat>, to: nat, c: nat, d: nat)
    requires t.WellFormed() && Fair(t, sent) && Grown(t, sent, order) && Closed(sent, NodesOf(order))
    requires HeardFromOthers(t, sent, order[0], to)
    requires c in order && d !in order && t.Adjacent(c, d)
    ensures c == order[0] && d == to && (d, c) !in sent
  {
    AdjacentBothWays(t, c, d);
    if c != order[0] {
      var p := SentInto(t, sent, order, c);
    }
  }

  lemma {:induction false} PathWithin(t: JoinTree, sent: set<Message>, order: seq<nat>, a: nat,
                                      b: nat) returns (nodes: seq<nat>)
    requires t.WellFormed() && Grown(t, sent, order) && a in order && b in order
    ensures t.SimplePath(nodes) && nodes[0] == a && nodes[|nodes| - 1] == b && forall x :: x in nodes ==> x in order
    decreases |order|
  {
    var n := |order| - 1;
    assert order == order[..n] + [order[n]];
    if a == b {
      nodes := [a];
      InRange(t, sent, order, a);
    } else {
      var front, leaf := order[..n], order[n];
      var anchor :| Attached(t, sent, NodesOf(front), leaf, anchor);
      AdjacentBothWays(t, leaf, anchor);
      if a == leaf {
        var rest := PathWithin(t, sent, front, anchor, b);
        nodes := [leaf] + rest;
      } else if b == leaf {
        var rest := PathWithin(t, sent, front, a, anchor);
        nodes := rest + [leaf];
      } else {
        nodes := PathWithin(t, sent, front, a, b);
      }
    }
  }

  lemma {:induction false} InRange(t: JoinTree, sent: set<Message>, order: seq<nat>, a: nat)
    requires Grown(t, sent, order) && a in order
    ensures a < t.Size()
  {
    var n := |order| - 1;
    assert order == order[..n] + [order[n]];
    if n > 0 && a != order[n] { InRange(t, sent, order[..n], a); }
  }

  lemma SharedAlong(t: JoinTree, nodes: seq<nat>, k: nat, v: nat)
    requires t.RunningIntersection() && t.SimplePath(nodes) && k < |nodes|
    requires v in t.cliques[nodes[0]] && v in t.cliques[nodes[|nodes| - 1]]
    ensures v in t.cliques[nodes[k]]
  {
    assert v in t.cliques[nodes[0]] * t.cliques[nodes[|nodes| - 1]];
  }

  /** What a new node shares with any node of the part lies in the node it is attached to. */
  lemma SharedWithAnchor(t: JoinTree, sent: set<Message>, order: seq<nat>, leaf: nat, anchor: nat, w: nat, v: nat)
    requires t.WellFormed() && t.RunningIntersection()
    requires Grown(t, sent, order) && Attached(t, sent, NodesOf(order), leaf, anchor) && w in order
    ensures w < t.Size() && anchor < t.Size()
    ensures v in t.cliques[leaf] && v in t.cliques[w] ==> v in t.cliques[anchor]
  {
    InRange(t, sent, order, w);
    AdjacentBothWays(t, leaf, anchor);
    var rest := PathWithin(t, sent, order, anchor, w);
    var nodes := [leaf] + rest;
    assert t.SimplePath(nodes) && nodes[1] == anchor && nodes[|nodes| - 1] == w;
    if v in t.cliques[leaf] && v in t.cliques[w] { SharedAlong(t, nodes, 1, v); }
  }

  lemma LeavesPart(nodes: seq<nat>, part: set<nat>) returns (k: nat)
    requires |nodes| >= 1 && nodes[0] in part && nodes[|nodes| - 1] !in part
    ensures k + 1 < |nodes| && nodes[k] in part && nodes[k + 1] !in part
  {
    k := 0;
    while nodes[k + 1] in part
      invariant k + 1 < |nodes| && nodes[k] in part
      decreases |nodes| - k
    {
      k := k + 1;
    }
  }

  /** What a closed part shares with a node outside lies at both ends of the way out. */
  lemma SharedOverWayOut(t: JoinTree, parent: seq<nat>, depth: seq<nat>, sent: set<Message>, order: seq<nat>, to: nat,
                         w: nat, d: nat, v: nat)
    requires t.WellFormed() && t.RunningIntersection() && Rooted(t, parent, depth)
    requires Fair(t, sent) && Grown(t, sent, order) && Closed(sent, NodesOf(order))
    requires HeardFromOthers(t, sent, order[0], to)
    requires w in order && w < t.Size() && d !in order && d < t.Size() && v in t.cliques[w] && v in t.cliques[d]
    ensures order[0] < t.Size() && to < t.Size() && v in t.cliques[order[0]] && v in t.cliques[to]
  {
    var nodes := Path(t, parent, depth, w, d);
    PathSimple(t, parent, depth, w, d);
    assert forall i :: 0 <= i < |nodes| ==> nodes[i] in nodes;
    assert t.SimplePath(nodes);
    hide *;
    var k := LeavesPart(nodes, NodesOf(order));
    assert t.Adjacent(nodes[k], nodes[k + 1]) by { Neighboring(t, nodes, k); }
    WayOut(t, sent, order, to, nodes[k], nodes[k + 1]);
    SharedAlong(t, nodes, k, v);
    SharedAlong(t, nodes, k + 1, v);
  }

  lemma Neighboring(t: JoinTree, nodes: seq<nat>, k: nat)
    requires t.SimplePath(nodes) && k + 1 < |nodes|
    ensures t.Adjacent(nodes[k], nodes[k + 1]) && nodes[k] < t.Size() && nodes[k + 1] < t.Size()
  {
  }
}
