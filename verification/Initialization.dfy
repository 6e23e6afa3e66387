/** The product of all initial clique tables is the network's joint distribution restricted to the evidence. */
module Initialization {
  import opened Cliques
  import opened JoinTrees
  import opened Messages
  import opened Propagation
  import opened Tables

  /** The product of the conditional probabilities of those of the first m nodes that are in s. */
  function NodeProduct(bn: Network, x: Assignment, m: nat, s: set<nat>): real
    requires m <= |bn.nodes| && forall v :: 0 <= v < m ==> bn.Family(v) <= x.Keys
  {
    if m == 0 then 1.0
    else
      var before := NodeProduct(bn, x, m - 1, s);
      if m - 1 in s then Times(before, bn.Probability(m - 1, x)) else before
  }

  /** The joint probability of a full assignment, or zero if it contradicts the evidence. */
  ghost function NetworkWeight(bn: Network, x: Assignment): real
    requires bn.WellFormed() && World(x, bn.card)
  {
    WorldFamilies(bn, x);
    if forall v :: 0 <= v < |bn.nodes| ==> bn.Agrees(v, x) then NodeProduct(bn, x, |bn.nodes|, Variables(|bn.nodes|))
    else 0.0
  }

  lemma WorldFamilies(bn: Network, x: Assignment)
    requires bn.WellFormed() && World(x, bn.card)
    ensures forall v :: 0 <= v < |bn.nodes| ==> v in x && bn.Family(v) <= x.Keys
  {
  }

  /** The part of an assignment that a clique sees gives the nodes whose families it contains the same probability. */
  lemma SameProbability(bn: Network, x: Assignment, clique: set<nat>, v: nat)
    requires v < |bn.nodes| && clique <= x.Keys && bn.Family(v) <= clique
    ensures bn.Family(v) <= Restrict(x, clique).Keys && bn.Probability(v, Restrict(x, clique)) == bn.Probability(v, x)
  {
    RestrictTwice(x, clique, bn.ParentSet(v));
  }

  lemma {:induction false} ProductOfUnion(bn: Network, x: Assignment, m: nat, a: set<nat>, b: set<nat>)
    requires m <= |bn.nodes| && forall v :: 0 <= v < m ==> bn.Family(v) <= x.Keys
    requires a !! b
    ensures NodeProduct(bn, x, m, a + b) == Times(NodeProduct(bn, x, m, a), NodeProduct(bn, x, m, b))
  {
    hide Times, Network.Family;
    if m == 0 {
      TimesOne(1.0);
    } else {
      ProductOfUnion(bn, x, m - 1, a, b);
      Associate(NodeProduct(bn, x, m - 1, a), NodeProduct(bn, x, m - 1, b), bn.Probability(m - 1, x));
    }
  }

  lemma TimesOne(p: real)
    ensures Times(p, 1.0) == p && Times(1.0, p) == p && Times(p, 0.0) == 0.0 && Times(0.0, p) == 0.0
  {
  }

  /** An entry of a clique is its evidence factor times the probabilities of the clique's own nodes. */
  lemma {:induction false} EntryProduct(bn: Network, x: Assignment, clique: set<nat>, keys: seq<nat>, own: set<nat>,
                                        evidence: real, m: nat)
    requires m <= |bn.nodes| && forall v :: 0 <= v < m ==> bn.Family(v) <= x.Keys
    requires Covers(bn, clique, keys, own) && clique <= x.Keys && Ascending(keys)
    requires forall i :: 0 <= i < |keys| ==> keys[i] < m
    requires forall v :: v in own && v < m ==> v in keys
    ensures Entry(bn, evidence, keys, own, Restrict(x, clique)) == Times(evidence, NodeProduct(bn, x, m, own))
  {
    hide Times, Restrict, Network.Family, Network.Probability;
    var n := |keys| - 1;
    if m == 0 {
      TimesOne(evidence);
    } else if |keys| > 0 && keys[n] == m - 1 {
      assert keys == keys[..n] + [keys[n]];
      EntryProduct(bn, x, clique, keys[..n], own, evidence, m - 1);
      if m - 1 in own { SameProbability(bn, x, clique, m - 1); }
      Associate(evidence, NodeProduct(bn, x, m - 1, own), bn.Probability(m - 1, x));
    } else {
      assert forall i :: 0 <= i < |keys| ==> keys[i] <= keys[n];
      EntryProduct(bn, x, clique, keys, own, evidence, m - 1);
    }
  }

  lemma {:induction false} EvidenceValue(bn: Network, keys: seq<nat>, a: Assignment)
    requires forall i :: 0 <= i < |keys| ==> keys[i] < |bn.nodes| && keys[i] in a
    ensures EvidenceFactor(bn, keys, a)
            == if forall i :: 0 <= i < |keys| ==> bn.Agrees(keys[i], a) then 1.0 else 0.0
  {
    if |keys| > 0 { EvidenceValue(bn, keys[..|keys| - 1], a); }
  }

  ghost predicate CliqueAgrees(bn: Network, clique: set<nat>, x: Assignment)
    requires forall v :: v in clique ==> v < |bn.nodes| && v in x
  {
    forall v :: v in clique ==> bn.Agrees(v, x)
  }

  /** A clique's table at a full assignment: the probabilities of its own nodes, or zero against the evidence. */
  lemma CliqueFactorAt(bn: Network, clique: set<nat>, before: seq<nat>, n: nat, table: Table, x: Assignment)
    requires bn.WellFormed() && World(x, bn.card) && AllVariables(clique, bn.card) && |before| == |bn.nodes|
    requires Full(table, clique, bn.card)
    requires forall a :: a in table ==> RightEntry(bn, clique, OwnNodes(bn, clique, before, n), table, a)
    ensures clique <= x.Keys && forall v :: 0 <= v < |bn.nodes| ==> bn.Family(v) <= x.Keys
    ensures FactorAt(table, x, clique)
            == if CliqueAgrees(bn, clique, x) then NodeProduct(bn, x, |bn.nodes|, OwnNodes(bn, clique, before, n)) else 0.0
  {
    var own, keys, a := OwnNodes(bn, clique, before, n), Sorted(clique), Restrict(x, clique);
    WorldFamilies(bn, x);
    WorldRestricts(x, clique, bn.card);
    assert RightEntry(bn, clique, own, table, a);
    EvidenceOfClique(bn, clique, x);
    hide EvidenceFactor, Entry, World, Legal, Restrict, Full, NodeProduct, Times, CliqueAgrees;
    var evidence := EvidenceFactor(bn, keys, a);
    EntryProduct(bn, x, clique, keys, own, evidence, |bn.nodes|);
    TimesOne(NodeProduct(bn, x, |bn.nodes|, own));
  }

  lemma EvidenceOfClique(bn: Network, clique: set<nat>, x: Assignment)
    requires clique <= x.Keys && forall v :: v in clique ==> v < |bn.nodes|
    ensures EvidenceFactor(bn, Sorted(clique), Restrict(x, clique)) == if CliqueAgrees(bn, clique, x) then 1.0 else 0.0
  {
    var keys := Sorted(clique);
    EvidenceValue(bn, keys, Restrict(x, clique));
    assert forall v :: v in clique ==> v in keys;
  }

  /** The nodes that have been assigned to one of the first cliques. */
  function Assigned(assignedTo: seq<nat>, unassigned: nat): set<nat>
  {
    set v: nat | v < |assignedTo| && assignedTo[v] != unassigned
  }

  /** The weight of the cliques so far. */
  ghost function WeightSoFar(bn: Network, t: JoinTree, x: Assignment, assignedTo: seq<nat>, i: nat): real
    requires bn.WellFormed() && World(x, bn.card) && i <= t.Size() && CliquesInNetwork(bn, t)
  {
    WorldFamilies(bn, x);
    assert forall k :: 0 <= k < i ==> AllVariables(t.cliques[k], bn.card);
    if forall k :: 0 <= k < i ==> CliqueAgrees(bn, t.cliques[k], x)
    then NodeProduct(bn, x, |bn.nodes|, Assigned(assignedTo, t.Size()))
    else 0.0
  }

  ghost predicate CliquesInNetwork(bn: Network, t: JoinTree)
  {
    forall k :: 0 <= k < t.Size() ==> AllVariables(t.cliques[k], bn.card)
  }

  /** One more clique multiplies the weight by its factor. */
  lemma WeightStep(bn: Network, t: JoinTree, x: Assignment, before: seq<nat>, after: seq<nat>, i: nat)
    requires bn.WellFormed() && World(x, bn.card) && i < t.Size() && CliquesInNetwork(bn, t)
    requires |before| == |bn.nodes| && AllTracked(before, after, OwnNodes(bn, t.cliques[i], before, t.Size()), i)
    ensures forall v :: 0 <= v < |bn.nodes| ==> bn.Family(v) <= x.Keys
    ensures forall v :: v in t.cliques[i] ==> v < |bn.nodes| && v in x
    ensures var own := OwnNodes(bn, t.cliques[i], before, t.Size());
      WeightSoFar(bn, t, x, after, i + 1)
      == Times(WeightSoFar(bn, t, x, before, i),
               if CliqueAgrees(bn, t.cliques[i], x) then NodeProduct(bn, x, |bn.nodes|, own) else 0.0)
  {
    var own := OwnNodes(bn, t.cliques[i], before, t.Size());
    WorldFamilies(bn, x);
    assert AllVariables(t.cliques[i], bn.card);
    assert Assigned(after, t.Size()) == Assigned(before, t.Size()) + own;
    assert Assigned(before, t.Size()) !! own;
    hide CliqueAgrees, NodeProduct, Times, OwnNodes, Assigned, World;
    assert forall k :: 0 <= k < i ==> AllVariables(t.cliques[k], bn.card);
    ProductOfUnion(bn, x, |bn.nodes|, Assigned(before, t.Size()), own);
    TimesOne(NodeProduct(bn, x, |bn.nodes|, own));
    TimesOne(NodeProduct(bn, x, |bn.nodes|, Assigned(before, t.Size())));
    TimesOne(0.0);
  }

  lemma {:induction false} EntryNonNegative(bn: Network, evidence: real, keys: seq<nat>, own: set<nat>, a: Assignment)
    requires bn.WellFormed() && evidence >= 0.0
    requires forall i :: 0 <= i < |keys| ==> keys[i] < |bn.nodes| && (keys[i] in own ==> bn.Family(keys[i]) <= a.Keys)
    ensures Entry(bn, evidence, keys, own, a) >= 0.0
  {
    hide Restrict;
    if |keys| > 0 {
      EntryNonNegative(bn, evidence, keys[..|keys| - 1], own, a);
      var last := keys[|keys| - 1];
      if last in own {
        assert bn.nodes[last].cpt(a[last], Restrict(a, bn.ParentSet(last))) >= 0.0;
        TimesNonNegative(Entry(bn, evidence, keys[..|keys| - 1], own, a), bn.Probability(last, a));
      }
    }
  }

  lemma TimesNonNegative(p: real, q: real)
    requires p >= 0.0 && q >= 0.0
    ensures Times(p, q) >= 0.0
  {
  }

  lemma TableNonNegative(bn: Network, clique: set<nat>, own: set<nat>, table: Table)
    requires bn.WellFormed() && forall a :: a in table ==> RightEntry(bn, clique, own, table, a)
    ensures NonNegative(table)
  {
    hide Entry, EvidenceFactor, Sorted, Network.WellFormed;
    forall a | a in table
      ensures table[a] >= 0.0
    {
      assert RightEntry(bn, clique, own, table, a);
      var keys := Sorted(clique);
      EvidenceValue(bn, keys, a);
      EntryNonNegative(bn, EvidenceFactor(bn, keys, a), keys, own, a);
    }
  }

  /** The tables of the first cliques, and the bookkeeping of which clique has taken on which node. */
  ghost predicate Begun(bn: Network, t: JoinTree, cliques: seq<Table>, assignedTo: seq<nat>)
    requires bn.WellFormed() && CliquesInNetwork(bn, t)
  {
    && |cliques| <= t.Size() && |assignedTo| == |bn.nodes|
    && TablesBegun(bn, t, cliques) && FamiliesBegun(bn, t, assignedTo, |cliques|)
    && WeightsBegun(bn, t, cliques, assignedTo) && FactorsBegun(bn, t, cliques, assignedTo)
  }

  /** The nodes assigned to clique k. */
  function OwnedBy(assignedTo: seq<nat>, k: nat): set<nat>
  {
    set v: nat | v < |assignedTo| && assignedTo[v] == k
  }

  /** At every full assignment a clique gives the probability of the nodes assigned to it, or zero against the evidence. */
  ghost predicate FactorIs(bn: Network, t: JoinTree, cliques: seq<Table>, assignedTo: seq<nat>, k: nat, x: Assignment)
    requires bn.WellFormed() && CliquesInNetwork(bn, t) && k < |cliques| <= t.Size() && World(x, bn.card)
  {
    WorldFamilies(bn, x);
    assert AllVariables(t.cliques[k], bn.card);
    && OwnedBy(assignedTo, k) <= t.cliques[k]
    && FactorAt(cliques[k], x, t.cliques[k])
       == if CliqueAgrees(bn, t.cliques[k], x) then NodeProduct(bn, x, |bn.nodes|, OwnedBy(assignedTo, k)) else 0.0
  }

  ghost predicate FactorsBegun(bn: Network, t: JoinTree, cliques: seq<Table>, assignedTo: seq<nat>)
    requires bn.WellFormed() && CliquesInNetwork(bn, t) && |cliques| <= t.Size()
  {
    forall k, x :: 0 <= k < |cliques| && World(x, bn.card) ==> FactorIs(bn, t, cliques, assignedTo, k, x)
  }

  /** Cliques keep the nodes assigned to them, and a new one gets its own. */
  lemma OwnersKept(bn: Network, t: JoinTree, before: seq<nat>, after: seq<nat>, i: nat, k: nat)
    requires i < t.Size() && |before| == |bn.nodes| && FamiliesBegun(bn, t, before, i) && k <= i
    requires AllTracked(before, after, OwnNodes(bn, t.cliques[i], before, t.Size()), i)
    ensures OwnedBy(after, k) == if k == i then OwnNodes(bn, t.cliques[i], before, t.Size()) else OwnedBy(before, k)
  {
    hide Network.ParentSet;
    forall v: nat
      ensures v in OwnedBy(after, k)
              <==> v in if k == i then OwnNodes(bn, t.cliques[i], before, t.Size()) else OwnedBy(before, k)
    {
    }
  }

  lemma FactorsStep(bn: Network, t: JoinTree, cliques: seq<Table>, before: seq<nat>, table: Table, after: seq<nat>, k: nat,
                    x: Assignment)
    requires bn.WellFormed() && CliquesInNetwork(bn, t) && |cliques| < t.Size() && |before| == |bn.nodes|
    requires FamiliesBegun(bn, t, before, |cliques|) && FactorsBegun(bn, t, cliques, before)
    requires NewTable(bn, t, |cliques|, before, table, after) && World(x, bn.card) && k <= |cliques|
    ensures FactorIs(bn, t, cliques + [table], after, k, x)
  {
    hide World, RightEntry, NodeProduct, FactorAt, CliqueAgrees, Full, FamiliesBegun;
    OwnersKept(bn, t, before, after, |cliques|, k);
    if k < |cliques| {
      assert FactorIs(bn, t, cliques, before, k, x);
    } else {
      assert AllVariables(t.cliques[k], bn.card);
      CliqueFactorAt(bn, t.cliques[k], before, t.Size(), table, x);
    }
  }

  ghost predicate TablesBegun(bn: Network, t: JoinTree, cliques: seq<Table>)
    requires |cliques| <= t.Size()
  {
    forall k :: 0 <= k < |cliques| ==> Full(cliques[k], t.cliques[k], bn.card) && NonNegative(cliques[k])
  }

  ghost predicate FamiliesBegun(bn: Network, t: JoinTree, assignedTo: seq<nat>, i: nat)
    requires i <= t.Size() && |assignedTo| == |bn.nodes|
  {
    && (forall v :: 0 <= v < |bn.nodes| ==> assignedTo[v] == t.Size() || assignedTo[v] < i)
    && forall v, k :: 0 <= v < |bn.nodes| && 0 <= k < i && bn.Family(v) <= t.cliques[k] ==> assignedTo[v] != t.Size()
  }

  ghost predicate WeightsBegun(bn: Network, t: JoinTree, cliques: seq<Table>, assignedTo: seq<nat>)
    requires bn.WellFormed() && CliquesInNetwork(bn, t) && |cliques| <= t.Size()
  {
    forall x :: World(x, bn.card) ==> Product(CliqueFactors(t, cliques, x)) == WeightSoFar(bn, t, x, assignedTo, |cliques|)
  }

  lemma BeginNothing(bn: Network, t: JoinTree, assignedTo: seq<nat>)
    requires bn.WellFormed() && CliquesInNetwork(bn, t)
    requires |assignedTo| == |bn.nodes| && forall v :: 0 <= v < |bn.nodes| ==> assignedTo[v] == t.Size()
    ensures Begun(bn, t, [], assignedTo)
  {
    hide World;
    forall x | World(x, bn.card)
      ensures Product(CliqueFactors(t, [], x)) == WeightSoFar(bn, t, x, assignedTo, 0)
    {
      WorldFamilies(bn, x);
      ProductOfNone(bn, x, |bn.nodes|, Assigned(assignedTo, t.Size()));
    }
  }

  lemma {:induction false} ProductOfNone(bn: Network, x: Assignment, m: nat, s: set<nat>)
    requires m <= |bn.nodes| && forall v :: 0 <= v < m ==> bn.Family(v) <= x.Keys
    requires s == {}
    ensures NodeProduct(bn, x, m, s) == 1.0
  {
    if m > 0 { ProductOfNone(bn, x, m - 1, s); }
  }

  lemma ProductStep(bn: Network, t: JoinTree, cliques: seq<Table>, before: seq<nat>, table: Table, after: seq<nat>,
                    x: Assignment)
    requires bn.WellFormed() && CliquesInNetwork(bn, t) && |cliques| < t.Size() && |before| == |bn.nodes|
    requires NewTable(bn, t, |cliques|, before, table, after) && World(x, bn.card)
    requires Product(CliqueFactors(t, cliques, x)) == WeightSoFar(bn, t, x, before, |cliques|)
    ensures Product(CliqueFactors(t, cliques + [table], x)) == WeightSoFar(bn, t, x, after, |cliques| + 1)
  {
    hide World, RightEntry, WeightSoFar, NodeProduct, Product, FactorAt;
    hide CliqueAgrees, Full, NonNegative, Times, OwnNodes;
    var clique := t.cliques[|cliques|];
    assert AllVariables(clique, bn.card);
    CliqueFactorAt(bn, clique, before, t.Size(), table, x);
    WeightStep(bn, t, x, before, after, |cliques|);
    assert CliqueFactors(t, cliques + [table], x) == CliqueFactors(t, cliques, x) + [FactorAt(table, x, clique)];
    ProductSnoc(CliqueFactors(t, cliques, x), FactorAt(table, x, clique));
  }

  /** What filling the table of clique i leaves. */
  ghost predicate NewTable(bn: Network, t: JoinTree, i: nat, before: seq<nat>, table: Table, after: seq<nat>)
    requires i < t.Size() && |before| == |bn.nodes|
  {
    var clique := t.cliques[i];
    var own := OwnNodes(bn, clique, before, t.Size());
    && Full(table, clique, bn.card) && (forall a :: a in table ==> RightEntry(bn, clique, own, table, a))
    && AllTracked(before, after, own, i)
  }

  lemma BegunStep(bn: Network, t: JoinTree, cliques: seq<Table>, before: seq<nat>, table: Table, after: seq<nat>)
    requires bn.WellFormed() && CliquesInNetwork(bn, t) && Begun(bn, t, cliques, before) && |cliques| < t.Size()
    requires NewTable(bn, t, |cliques|, before, table, after)
    ensures Begun(bn, t, cliques + [table], after)
  {
    TableNonNegative(bn, t.cliques[|cliques|], OwnNodes(bn, t.cliques[|cliques|], before, t.Size()), table);
    FamiliesTaken(bn, t, before, after, |cliques|);
    hide FamiliesBegun, World, RightEntry, WeightSoFar, Product;
    hide CliqueFactors, Full, NonNegative, OwnNodes, Network.WellFormed;
    hide FactorIs;
    forall k, x | 0 <= k < |cliques| + 1 && World(x, bn.card)
      ensures FactorIs(bn, t, cliques + [table], after, k, x)
    {
      FactorsStep(bn, t, cliques, before, table, after, k, x);
    }
    forall x | World(x, bn.card)
      ensures Product(CliqueFactors(t, cliques + [table], x)) == WeightSoFar(bn, t, x, after, |cliques| + 1)
    {
      ProductStep(bn, t, cliques, before, table, after, x);
    }
  }

  lemma FamiliesTaken(bn: Network, t: JoinTree, before: seq<nat>, after: seq<nat>, i: nat)
    requires i < t.Size() && |before| == |bn.nodes| && FamiliesBegun(bn, t, before, i)
    requires AllTracked(before, after, OwnNodes(bn, t.cliques[i], before, t.Size()), i)
    ensures FamiliesBegun(bn, t, after, i + 1)
  {
  }

  /** Every node lies in some clique together with its parents. */
  ghost predicate CoversFamilies(bn: Network, t: JoinTree)
  {
    forall v :: 0 <= v < |bn.nodes| ==> exists k :: 0 <= k < t.Size() && bn.Family(v) <= t.cliques[k]
  }

  lemma AllAssigned(bn: Network, t: JoinTree, assignedTo: seq<nat>)
    requires CoversFamilies(bn, t) && |assignedTo| == |bn.nodes| && FamiliesBegun(bn, t, assignedTo, t.Size())
    ensures Assigned(assignedTo, t.Size()) == Variables(|bn.nodes|)
    ensures forall v :: 0 <= v < |bn.nodes| ==> assignedTo[v] < t.Size()
  {
    hide Network.Family;
    forall v | 0 <= v < |bn.nodes|
      ensures assignedTo[v] != t.Size()
    {
      var k :| 0 <= k < t.Size() && bn.Family(v) <= t.cliques[k];
    }
    assert forall v: nat :: v in Assigned(assignedTo, t.Size()) <==> v < |bn.nodes|;
  }

  lemma AllEvidence(bn: Network, t: JoinTree, x: Assignment)
    requires CliquesInNetwork(bn, t) && CoversFamilies(bn, t) && |bn.nodes| == |bn.card|
    requires forall v :: 0 <= v < |bn.nodes| ==> v in x
    ensures forall k :: 0 <= k < t.Size() ==> AllVariables(t.cliques[k], bn.card)
    ensures (forall v :: 0 <= v < |bn.nodes| ==> bn.Agrees(v, x))
            <==> forall k :: 0 <= k < t.Size() ==> CliqueAgrees(bn, t.cliques[k], x)
  {
    hide Network.Agrees;
    assert forall k :: 0 <= k < t.Size() ==> AllVariables(t.cliques[k], bn.card);
    if forall k :: 0 <= k < t.Size() ==> CliqueAgrees(bn, t.cliques[k], x) {
      forall v | 0 <= v < |bn.nodes|
        ensures bn.Agrees(v, x)
      {
        var k :| 0 <= k < t.Size() && bn.Family(v) <= t.cliques[k];
        assert v in bn.Family(v) && CliqueAgrees(bn, t.cliques[k], x);
      }
    }
  }

  /** When all cliques have their tables, all nodes are accounted for. */
  lemma AllAccountedFor(bn: Network, t: JoinTree, x: Assignment, assignedTo: seq<nat>)
    requires bn.WellFormed() && CliquesInNetwork(bn, t) && CoversFamilies(bn, t) && World(x, bn.card)
    requires |assignedTo| == |bn.nodes| && FamiliesBegun(bn, t, assignedTo, t.Size())
    ensures WeightSoFar(bn, t, x, assignedTo, t.Size()) == NetworkWeight(bn, x)
  {
    WorldFamilies(bn, x);
    AllAssigned(bn, t, assignedTo);
    AllEvidence(bn, t, x);
  }

  /** Fills the tables of all cliques. */
  method InitializeCliques(bn: Network, t: JoinTree) returns (cliques: seq<Table>, assignedTo: seq<nat>)
    requires bn.WellFormed() && CliquesInNetwork(bn, t) && CoversFamilies(bn, t)
    ensures |cliques| == t.Size() && TablesBegun(bn, t, cliques) && FactorsBegun(bn, t, cliques, assignedTo)
    ensures |assignedTo| == |bn.nodes| && forall v :: 0 <= v < |bn.nodes| ==> assignedTo[v] < t.Size()
    ensures forall x :: World(x, bn.card) ==> Product(CliqueFactors(t, cliques, x)) == NetworkWeight(bn, x)
  {
    cliques := [];
    assignedTo := seq(|bn.nodes|, _ => t.Size());
    BeginNothing(bn, t, assignedTo);
    hide TablesBegun, WeightsBegun, FactorsBegun, World, Product, CliqueFactors;
    hide NetworkWeight, CoversFamilies, Network.WellFormed, RightEntry, OwnNodes;
    var i := 0;
    while i < t.Size()
      invariant 0 <= i == |cliques| <= t.Size() && Begun(bn, t, cliques, assignedTo)
    {
      var table, after := FillClique(bn, t.cliques[i], i, t.Size(), assignedTo);
      BegunStep(bn, t, cliques, assignedTo, table, after);
      cliques := cliques + [table];
      assignedTo := after;
      i := i + 1;
    }
    AllAssigned(bn, t, assignedTo);
    WeightsFinal(bn, t, cliques, assignedTo);
  }

  lemma WeightsFinal(bn: Network, t: JoinTree, cliques: seq<Table>, assignedTo: seq<nat>)
    requires bn.WellFormed() && CliquesInNetwork(bn, t) && CoversFamilies(bn, t)
    requires Begun(bn, t, cliques, assignedTo) && |cliques| == t.Size()
    ensures forall x :: World(x, bn.card) ==> Product(CliqueFactors(t, cliques, x)) == NetworkWeight(bn, x)
  {
    hide World, Product, CliqueFactors, NetworkWeight, WeightSoFar, CoversFamilies;
    forall x | World(x, bn.card)
      ensures Product(CliqueFactors(t, cliques, x)) == NetworkWeight(bn, x)
    {
      AllAccountedFor(bn, t, x, assignedTo);
    }
  }
}
