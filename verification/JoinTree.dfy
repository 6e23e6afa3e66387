/** The graph of a join tree: cliques of network nodes, joined by undirected edges that form a tree. */
module JoinTrees {

  datatype JoinTree = JoinTree(cliques: seq<set<nat>>, edges: seq<(nat, nat)>) {
    function Size(): nat { |cliques| }

    ghost predicate Adjacent(i: nat, j: nat)
    {
      exists e :: 0 <= e < |edges| && Joins(e, i, j)
    }

    predicate Joins(e: nat, i: nat, j: nat)
      requires e < |edges|
    {
      edges[e] == (i, j) || edges[e] == (j, i)
    }

    /** The edge between two nodes. */
    function EdgeBetween(i: nat, j: nat): (e: nat)
      requires Adjacent(i, j)
      ensures e < |edges| && Joins(e, i, j)
    {
      FindEdge(i, j, 0)
    }

    function FindEdge(i: nat, j: nat, start: nat): (e: nat)
      requires exists e :: start <= e < |edges| && Joins(e, i, j)
      ensures start <= e < |edges| && Joins(e, i, j)
      decreases |edges| - start
    {
      if Joins(start, i, j) then start else FindEdge(i, j, start + 1)
    }

    /** The variables two neighbouring cliques share. */
    function Separator(e: nat): set<nat>
      requires e < |edges| && edges[e].0 < |cliques| && edges[e].1 < |cliques|
    {
      cliques[edges[e].0] * cliques[edges[e].1]
    }

    function Neighbors(i: nat): (s: set<nat>)
      ensures forall j: nat :: j in s <==> Adjacent(i, j)
    {
      NeighborsFrom(i, 0)
    }

    function NeighborsFrom(i: nat, start: nat): (s: set<nat>)
      requires start <= |edges|
      ensures forall j: nat :: j in s <==> exists e :: start <= e < |edges| && Joins(e, i, j)
      decreases |edges| - start
    {
      if start == |edges| then {}
      else
        var rest := NeighborsFrom(i, start + 1);
        if edges[start].0 == i then
          assert Joins(start, i, edges[start].1);
          if edges[start].1 == i then rest + {i} else rest + {edges[start].1}
        else if edges[start].1 == i then
          assert Joins(start, i, edges[start].0);
          rest + {edges[start].0}
        else rest
    }

    /** Undirected edges between different nodes, no two of them the same. */
    ghost predicate WellFormed()
    {
      && |cliques| >= 1
      && (forall e :: 0 <= e < |edges| ==> edges[e].0 < |cliques| && edges[e].1 < |cliques| && edges[e].0 != edges[e].1)
      && (forall e, f :: 0 <= e < f < |edges| ==> !Joins(f, edges[e].0, edges[e].1))
    }

    /** Node i is at most k edges away from the root, node 0. */
    ghost predicate Near(k: nat, i: nat)
    {
      if k == 0 then i == 0 else Near(k - 1, i) || exists p :: Near(k - 1, p) && Adjacent(p, i)
    }

    ghost predicate Reached(i: nat)
    {
      exists k: nat :: Near(k, i)
    }

    ghost predicate Connected()
    {
      forall i :: 0 <= i < |cliques| ==> Reached(i)
    }

    /** At least three different nodes, each joined to the next and the last to the first. */
    ghost predicate IsCycle(nodes: seq<nat>)
    {
      |nodes| >= 3 && Distinct(nodes) && Chained(nodes) && Adjacent(nodes[|nodes| - 1], nodes[0])
    }

    ghost predicate Chained(nodes: seq<nat>)
    {
      forall i :: 0 <= i < |nodes| - 1 ==> Adjacent(nodes[i], nodes[i + 1])
    }

    /** Different nodes, each joined to the next. */
    ghost predicate SimplePath(nodes: seq<nat>)
    {
      |nodes| >= 1 && Distinct(nodes) && Chained(nodes) && forall k :: 0 <= k < |nodes| ==> nodes[k] < |cliques|
    }

    /** What two cliques have in common lies in every clique on the way from one to the other. */
    ghost predicate RunningIntersection()
    {
      forall nodes, k: nat :: SimplePath(nodes) && k < |nodes| ==>
        cliques[nodes[0]] * cliques[nodes[|nodes| - 1]] <= cliques[nodes[k]]
    }

    ghost predicate IsTree()
    {
      WellFormed() && Connected() && forall nodes :: !IsCycle(nodes)
    }
  }

  predicate Distinct(nodes: seq<nat>)
  {
    forall i, j :: 0 <= i < j < |nodes| ==> nodes[i] != nodes[j]
  }

  /** Every node but node 0 has a parent one level up, and every edge joins a node to its parent. */
  ghost predicate Rooted(t: JoinTree, parent: seq<nat>, depth: seq<nat>)
  {
    && HasParents(t, parent, depth)
    && forall i, j :: t.Adjacent(i, j) ==> IsParent(parent, i, j) || IsParent(parent, j, i)
  }

  predicate IsParent(parent: seq<nat>, child: nat, p: nat)
  {
    0 < child < |parent| && parent[child] == p
  }

  ghost predicate HasParents(t: JoinTree, parent: seq<nat>, depth: seq<nat>)
  {
    && |parent| == |depth| == t.Size() >= 1 && depth[0] == 0
    && (forall i :: 0 <= i < t.Size() ==> parent[i] < t.Size())
    && (forall i :: 0 < i < t.Size() ==> t.Adjacent(i, parent[i]) && depth[i] == depth[parent[i]] + 1)
  }

  /** The first level at which a node is reached. */
  ghost function Level(t: JoinTree, i: nat, k: nat): (d: nat)
    requires t.Near(k, i)
    ensures d <= k && t.Near(d, i) && (d > 0 ==> !t.Near(d - 1, i))
  {
    if k > 0 && t.Near(k - 1, i) then Level(t, i, k - 1) else k
  }

  lemma {:induction false} NearGrows(t: JoinTree, k: nat, m: nat, i: nat)
    requires k <= m && t.Near(k, i)
    ensures t.Near(m, i)
    decreases m - k
  {
    if k < m {
      assert t.Near(k + 1, i);
      NearGrows(t, k + 1, m, i);
    }
  }

  /** The distance of a node from the root. */
  ghost function Distance(t: JoinTree, i: nat): (d: nat)
    requires t.Reached(i)
    ensures t.Near(d, i) && (d > 0 ==> !t.Near(d - 1, i))
  {
    var k: nat :| t.Near(k, i);
    Level(t, i, k)
  }

  lemma DistanceLeast(t: JoinTree, i: nat, k: nat)
    requires t.Near(k, i)
    ensures t.Reached(i) && Distance(t, i) <= k
  {
    assert t.Reached(i);
    var d := Distance(t, i);
    if d > k { NearGrows(t, k, d - 1, i); }
  }

  /** Some neighbour of a node other than the root is one step closer to the root. */
  lemma CloserNeighbor(t: JoinTree, i: nat) returns (p: nat)
    requires t.WellFormed() && t.Reached(i) && i != 0
    ensures p < t.Size() && t.Adjacent(i, p) && t.Reached(p) && Distance(t, i) == Distance(t, p) + 1
  {
    var d := Distance(t, i);
    assert d > 0;
    p :| t.Near(d - 1, p) && t.Adjacent(p, i);
    AdjacentBothWays(t, p, i);
    DistanceLeast(t, p, d - 1);
    var c := Distance(t, p);
    if c < d - 1 {
      assert t.Near(c + 1, i);
      DistanceLeast(t, i, c + 1);
    }
  }

  lemma AdjacentBothWays(t: JoinTree, i: nat, j: nat)
    requires t.WellFormed() && t.Adjacent(i, j)
    ensures t.Adjacent(j, i) && i < t.Size() && j < t.Size() && i != j
  {
    var e :| 0 <= e < |t.edges| && t.Joins(e, i, j);
    assert t.Joins(e, j, i);
  }

  lemma FindParents(t: JoinTree) returns (parent: seq<nat>, depth: seq<nat>)
    requires t.WellFormed() && t.Connected()
    ensures HasParents(t, parent, depth)
  {
    assert forall i :: 0 <= i < t.Size() ==> t.Reached(i);
    DistanceLeast(t, 0, 0);
    depth := seq(t.Size(), i requires 0 <= i < t.Size() => Distance(t, i));
    parent := [0];
    while |parent| < t.Size()
      invariant 1 <= |parent| <= t.Size()
      invariant forall i :: 0 <= i < |parent| ==> parent[i] < t.Size()
      invariant forall i :: 0 < i < |parent| ==> t.Adjacent(i, parent[i]) && depth[i] == depth[parent[i]] + 1
    {
      var p := CloserNeighbor(t, |parent|);
      parent := parent + [p];
    }
  }

  /** The path between two nodes along parents. */
  ghost function Path(t: JoinTree, parent: seq<nat>, depth: seq<nat>, a: nat, b: nat): (path: seq<nat>)
    requires HasParents(t, parent, depth) && a < t.Size() && b < t.Size()
    ensures |path| >= 1 && path[0] == a && path[|path| - 1] == b
    ensures a != b ==> |path| >= 2
    ensures a != b && !IsParent(parent, a, b) && !IsParent(parent, b, a) ==> |path| >= 3
    decreases depth[a] + depth[b]
  {
    if a == b then [a]
    else if depth[a] >= depth[b] then [a] + Path(t, parent, depth, parent[a], b)
    else Path(t, parent, depth, a, parent[b]) + [b]
  }

  predicate Between(depth: seq<nat>, a: nat, b: nat, x: nat)
    requires a < |depth| && b < |depth|
  {
    x < |depth| && (x == a || x == b || depth[x] < depth[a] || depth[x] < depth[b])
  }

  lemma {:induction false} PathSimple(t: JoinTree, parent: seq<nat>, depth: seq<nat>, a: nat, b: nat)
    requires t.WellFormed() && HasParents(t, parent, depth) && a < t.Size() && b < t.Size()
    ensures var path := Path(t, parent, depth, a, b); Distinct(path) && t.Chained(path)
    ensures forall x :: x in Path(t, parent, depth, a, b) ==> Between(depth, a, b, x)
    decreases depth[a] + depth[b]
  {
    if a != b {
      if depth[a] >= depth[b] {
        assert 0 < a && t.Adjacent(a, parent[a]) && depth[a] == depth[parent[a]] + 1;
        PathSimple(t, parent, depth, parent[a], b);
        var rest := Path(t, parent, depth, parent[a], b);
        assert a !in rest;
      } else {
        assert 0 < b && t.Adjacent(b, parent[b]) && depth[b] == depth[parent[b]] + 1;
        PathSimple(t, parent, depth, a, parent[b]);
        var rest := Path(t, parent, depth, a, parent[b]);
        assert b !in rest;
        AdjacentBothWays(t, b, parent[b]);
      }
    }
  }

  lemma PathIsCycle(t: JoinTree, parent: seq<nat>, depth: seq<nat>, i: nat, j: nat)
    requires t.WellFormed() && HasParents(t, parent, depth)
    requires t.Adjacent(i, j) && !IsParent(parent, i, j) && !IsParent(parent, j, i)
    ensures i < t.Size() && j < t.Size() && t.IsCycle(Path(t, parent, depth, i, j))
  {
    AdjacentBothWays(t, i, j);
    PathSimple(t, parent, depth, i, j);
  }

  /** A connected graph without cycles hangs from its node 0. */
  lemma TreeIsRooted(t: JoinTree) returns (parent: seq<nat>, depth: seq<nat>)
    requires t.IsTree()
    ensures Rooted(t, parent, depth)
  {
    parent, depth := FindParents(t);
    forall i, j | t.Adjacent(i, j)
      ensures IsParent(parent, i, j) || IsParent(parent, j, i)
    {
      if !IsParent(parent, i, j) && !IsParent(parent, j, i) { PathIsCycle(t, parent, depth, i, j); }
    }
  }
}
