/** Probabilities of network nodes in terms of the conditional probability tables and the evidence alone. */
module Posteriors {
  import opened Cliques
  import opened Initialization
  import opened Marginals
  import opened Messages
  import opened Propagation
  import opened Tables
  import opened Totals

  /** The values of the parents of a node. */
  function ValuesFor(node: Node, x: Assignment): Assignment
  {
    map p | p in node.parents && p in x :: x[p]
  }

  /** The product of what the tables of the first m nodes say about their values and those of their parents. */
  ghost function JointProbability(bn: Network, x: Assignment, m: nat): real
    requires bn.WellFormed() && World(x, bn.card) && m <= |bn.nodes|
  {
    if m == 0 then 1.0
    else
      var node := bn.nodes[m - 1];
      JointProbability(bn, x, m - 1) * node.cpt(x[m - 1], ValuesFor(node, x))
  }

  /** Each node contributes the entry of its table for its value and those of exactly its parents. */
  lemma JointSteps(bn: Network, x: Assignment, v: nat, values: Assignment)
    requires bn.WellFormed() && World(x, bn.card) && v < |bn.nodes|
    requires forall p :: p in values <==> p in bn.nodes[v].parents
    requires forall p :: p in values && p in x ==> values[p] == x[p]
    ensures JointProbability(bn, x, 0) == 1.0 && v in x
    ensures JointProbability(bn, x, v + 1) == JointProbability(bn, x, v) * bn.nodes[v].cpt(x[v], values)
  {
    forall p | p in values
      ensures p in x
    {
      var j :| 0 <= j < |bn.nodes[v].parents| && bn.nodes[v].parents[j] == p;
    }
    assert values == ValuesFor(bn.nodes[v], x);
  }

  lemma ParentsOf(bn: Network, x: Assignment, v: nat)
    requires v < |bn.nodes| && bn.Family(v) <= x.Keys
    ensures bn.Probability(v, x) == bn.nodes[v].cpt(x[v], ValuesFor(bn.nodes[v], x))
  {
    assert forall p :: p in bn.ParentSet(v) <==> p in bn.nodes[v].parents;
    assert Restrict(x, bn.ParentSet(v)) == ValuesFor(bn.nodes[v], x);
  }

  lemma {:induction false} ProductIsJoint(bn: Network, x: Assignment, m: nat)
    requires bn.WellFormed() && World(x, bn.card) && m <= |bn.nodes|
    requires forall v :: 0 <= v < |bn.nodes| ==> v in x && bn.Family(v) <= x.Keys
    ensures NodeProduct(bn, x, m, Variables(|bn.nodes|)) == JointProbability(bn, x, m)
  {
    hide World, Network.WellFormed, Network.Probability, Network.Family;
    if m > 0 {
      ProductIsJoint(bn, x, m - 1);
      ParentsOf(bn, x, m - 1);
    }
  }

  /** A full assignment that contradicts the evidence about some node weighs nothing, any other its joint probability. */
  lemma WorldWeight(bn: Network, x: Assignment)
    requires bn.WellFormed() && World(x, bn.card)
    ensures (exists v :: 0 <= v < |bn.nodes| && bn.nodes[v].evidence.Some? && x[v] != bn.nodes[v].evidence.value)
            ==> WeightTable(bn)[x] == 0.0
    ensures (forall v :: 0 <= v < |bn.nodes| && bn.nodes[v].evidence.Some? ==> x[v] == bn.nodes[v].evidence.value)
            ==> WeightTable(bn)[x] == JointProbability(bn, x, |bn.nodes|)
  {
    WorldFamilies(bn, x);
    ProductIsJoint(bn, x, |bn.nodes|);
    hide NodeProduct, JointProbability, Network.WellFormed, World;
    assert x in Worlds(bn.card);
    if exists v :: 0 <= v < |bn.nodes| && bn.nodes[v].evidence.Some? && x[v] != bn.nodes[v].evidence.value {
      var v :| 0 <= v < |bn.nodes| && bn.nodes[v].evidence.Some? && x[v] != bn.nodes[v].evidence.value;
      assert !bn.Agrees(v, x);
    } else {
      assert forall v :: 0 <= v < |bn.nodes| ==> bn.Agrees(v, x);
    }
  }

  /** The weight of a full assignment: zero against the evidence about any node, else the joint probability. */
  ghost predicate Weighs(bn: Network, x: Assignment, weight: real)
    requires bn.WellFormed() && World(x, bn.card)
  {
    && ((exists v :: 0 <= v < |bn.nodes| && bn.nodes[v].evidence.Some? && x[v] != bn.nodes[v].evidence.value)
        ==> weight == 0.0)
    && ((forall v :: 0 <= v < |bn.nodes| && bn.nodes[v].evidence.Some? ==> x[v] == bn.nodes[v].evidence.value)
        ==> weight == JointProbability(bn, x, |bn.nodes|))
  }

  /** There is exactly one table of such weights. */
  lemma OneWeightTable(bn: Network, w: Table)
    requires bn.WellFormed()
    ensures w == WeightTable(bn) <==> w.Keys == Worlds(bn.card) && forall x :: x in w ==> Weighs(bn, x, w[x])
  {
    hide World, Network.WellFormed, WeightTable, JointProbability, Weighs;
    forall x | x in Worlds(bn.card)
      ensures Weighs(bn, x, WeightTable(bn)[x])
    {
      WorldWeighs(bn, x);
    }
    if w.Keys == Worlds(bn.card) && forall x :: x in w ==> Weighs(bn, x, w[x]) {
      forall x | x in w
        ensures w[x] == WeightTable(bn)[x]
      {
        WeighsOnce(bn, x, w[x], WeightTable(bn)[x]);
      }
    }
  }

  lemma WorldWeighs(bn: Network, x: Assignment)
    requires bn.WellFormed() && World(x, bn.card)
    ensures Weighs(bn, x, WeightTable(bn)[x])
  {
    WorldWeight(bn, x);
    hide World, Network.WellFormed, WeightTable, JointProbability;
  }

  lemma WeighsOnce(bn: Network, x: Assignment, p: real, q: real)
    requires bn.WellFormed() && World(x, bn.card) && Weighs(bn, x, p) && Weighs(bn, x, q)
    ensures p == q
  {
    hide World, Network.WellFormed, JointProbability;
  }

  lemma {:induction false} TotalOfZeros(f: Table, s: set<Assignment>)
    requires s <= f.Keys && forall a :: a in s ==> f[a] == 0.0
    ensures Total(f, s) == 0.0
  {
    if s != {} {
      var a :| a in s;
      TotalSplit(f, s, a);
      TotalOfZeros(f, s - {a});
    }
  }

  /** The full assignments in which a node has a value. */
  ghost function With(card: seq<nat>, idx: nat, i: nat): (s: set<Assignment>)
    ensures forall x :: x in s <==> World(x, card) && idx in x && x[idx] == i
  {
    set x | x in Worlds(card) && idx in x && x[idx] == i
  }

  lemma WithValue(card: seq<nat>, idx: nat, i: nat)
    ensures AgreeingWorlds(card, map[idx := i]) == With(card, idx, i)
    ensures AgreeingWorlds(card, map[]) == Worlds(card)
  {
    hide World;
    forall x
      ensures x in AgreeingWorlds(card, map[idx := i]) <==> x in With(card, idx, i)
      ensures x in AgreeingWorlds(card, map[]) <==> x in Worlds(card)
    {
      var only := Restrict(x, map[idx := i].Keys);
      assert Restrict(x, {}) == map[];
      if idx in x { assert only == map[idx := x[idx]] && only[idx] == x[idx] && map[idx := i][idx] == i; }
      assert idx !in x ==> idx !in only;
    }
  }

  /** All of the probability of the evidence is with the known value of a node. */
  lemma KnownValue(bn: Network, idx: nat, i: nat)
    requires bn.WellFormed() && idx < |bn.nodes| && bn.nodes[idx].evidence.Some?
    ensures MarginalWeight(bn, map[idx := i])
            == if i == bn.nodes[idx].evidence.value then MarginalWeight(bn, map[]) else 0.0
  {
    var card, e := bn.card, bn.nodes[idx].evidence.value;
    var others := Worlds(card) - With(card, idx, e);
    WithValue(card, idx, i);
    WithValue(card, idx, e);
    forall x | World(x, card)
      ensures idx in x && (x[idx] != e ==> WeightTable(bn)[x] == 0.0)
    {
      WorldFamilies(bn, x);
      WorldWeight(bn, x);
    }
    hide World, Total, WeightTable, AgreeingWorlds;
    if i != e {
      TotalOfZeros(WeightTable(bn), With(card, idx, i));
    } else {
      TotalOfZeros(WeightTable(bn), others);
      TotalOfUnion(WeightTable(bn), With(card, idx, e), others);
      assert With(card, idx, e) + others == Worlds(card);
    }
  }
}
