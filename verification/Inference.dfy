/** Asking a join tree for the probabilities of a network node. */
module Inference {
  import opened BayesNetworks
  import opened Cliques
  import opened Initialization
  import opened JoinTrees
  import opened Marginals
  import opened Messages
  import opened Posteriors
  import opened Propagation
  import opened ProperNetworks
  import opened Tables
  import opened Totals

  /** The first of the smallest cliques with a node. */
  ghost predicate Smallest(t: JoinTree, i: nat, k: nat)
  {
    && k < t.Size() && i in t.cliques[k]
    && forall n :: 0 <= n < t.Size() && i in t.cliques[n] ==>
         |t.cliques[k]| <= |t.cliques[n]| && (n < k ==> |t.cliques[k]| < |t.cliques[n]|)
  }

  method SmallestClique(t: JoinTree, i: nat) returns (smallest: nat)
    requires exists n :: 0 <= n < t.Size() && i in t.cliques[n]
    ensures Smallest(t, i, smallest)
    ensures smallest < t.Size() && i in t.cliques[smallest]
    ensures forall n :: 0 <= n < t.Size() && i in t.cliques[n] ==> |t.cliques[smallest]| <= |t.cliques[n]|
    ensures forall n :: 0 <= n < smallest && i in t.cliques[n] ==> |t.cliques[smallest]| < |t.cliques[n]|
  {
    smallest := 0;
    var found := false;
    for n := 0 to t.Size()
      invariant !found ==> forall m :: 0 <= m < n ==> i !in t.cliques[m]
      invariant found ==> smallest < n && i in t.cliques[smallest]
      invariant found ==> forall m :: 0 <= m < n && i in t.cliques[m] ==>
                  |t.cliques[smallest]| <= |t.cliques[m]| && (m < smallest ==> |t.cliques[smallest]| < |t.cliques[m]|)
    {
      if i in t.cliques[n] && (!found || |t.cliques[n]| < |t.cliques[smallest]|) {
        found, smallest := true, n;
      }
    }
  }

  method SmallestCliques(bn: Network, t: JoinTree) returns (found: seq<nat>)
    requires CoversFamilies(bn, t)
    ensures |found| == |bn.nodes| && forall i :: 0 <= i < |found| ==> Smallest(t, i, found[i])
  {
    found := [];
    while |found| < |bn.nodes|
      invariant |found| <= |bn.nodes|
      invariant forall i :: 0 <= i < |found| ==> Smallest(t, i, found[i])
    {
      var i := |found|;
      assert i in bn.Family(i);
      var k := SmallestClique(t, i);
      found := found + [k];
    }
  }

  /** The agreeing worlds of a, an assignment of more variables than b. */
  lemma AgreeWithMore(card: seq<nat>, b: Assignment, a: Assignment, vars: set<nat>, x: Assignment)
    requires b.Keys <= vars && a.Keys == vars && Restrict(a, b.Keys) == b && World(x, card)
    ensures x in AgreeingWorlds(card, a) <==> x in AgreeingWorlds(card, b) && Restrict(x, vars) == a
  {
    if Restrict(x, vars) == a { RestrictTwice(x, vars, b.Keys); }
  }

  /** The entries of a table that agree with b. */
  ghost function EntriesOf(g: Table, b: Assignment): (s: set<Assignment>)
    ensures forall a :: a in s <==> a in g && Restrict(a, b.Keys) == b
  {
    set a | a in g && Restrict(a, b.Keys) == b
  }

  lemma HomeOf(card: seq<nat>, g: Table, vars: set<nat>, b: Assignment, x: Assignment)
    requires Full(g, vars, card) && AllVariables(vars, card) && b.Keys <= vars && x in AgreeingWorlds(card, b)
    ensures Restrict(x, vars) in EntriesOf(g, b)
  {
    WorldRestricts(x, vars, card);
    RestrictTwice(x, vars, b.Keys);
  }

  /** Where the worlds that agree with b belong in a table over some variables. */
  ghost function Homes(card: seq<nat>, b: Assignment, vars: set<nat>): (home: map<Assignment, Assignment>)
    ensures home.Keys == AgreeingWorlds(card, b) && forall x :: x in home ==> home[x] == Restrict(x, vars)
  {
    map x | x in AgreeingWorlds(card, b) :: Restrict(x, vars)
  }

  lemma HomeFibre(card: seq<nat>, b: Assignment, vars: set<nat>, a: Assignment)
    requires b.Keys <= vars && a.Keys == vars && Restrict(a, b.Keys) == b
    ensures Fibre(AgreeingWorlds(card, b), Homes(card, b, vars), a) == AgreeingWorlds(card, a)
  {
    hide World, Restrict;
    forall x
      ensures x in Fibre(AgreeingWorlds(card, b), Homes(card, b, vars), a) <==> x in AgreeingWorlds(card, a)
    {
      if World(x, card) { AgreeWithMore(card, b, a, vars, x); }
    }
  }

  /** If all entries of a table are marginals, so are their sums. */
  lemma SumOfMarginals(bn: Network, g: Table, vars: set<nat>, b: Assignment)
    requires bn.WellFormed() && Full(g, vars, bn.card) && AllVariables(vars, bn.card) && b.Keys <= vars
    requires forall a :: a in g ==> g[a] == MarginalWeight(bn, a)
    ensures Total(g, EntriesOf(g, b)) == MarginalWeight(bn, b)
  {
    var s, home := AgreeingWorlds(bn.card, b), Homes(bn.card, b, vars);
    assert forall a :: a in g ==> a.Keys == vars;
    hide Full, AllVariables, Legal, World, WeightTable, Total;
    hide Network.WellFormed, Restrict, EntriesOf, AgreeingWorlds, Fibre, Homes;
    forall x | x in s
      ensures home[x] in EntriesOf(g, b)
    {
      HomeOf(bn.card, g, vars, b, x);
    }
    forall a | a in EntriesOf(g, b)
      ensures g[a] == Total(WeightTable(bn), Fibre(s, home, a))
    {
      HomeFibre(bn.card, b, vars, a);
    }
    TotalGrouped(WeightTable(bn), s, home, g, EntriesOf(g, b));
  }

  lemma {:induction false} TotalOfFewer(f: Table, s: set<Assignment>, more: set<Assignment>)
    requires s <= more <= f.Keys && forall a :: a in more ==> f[a] >= 0.0
    ensures 0.0 <= Total(f, s) <= Total(f, more)
    decreases |more|
  {
    if more != {} {
      var a :| a in more;
      TotalSplit(f, more, a);
      if a in s { TotalSplit(f, s, a); }
      TotalOfFewer(f, s - {a}, more - {a});
      if a !in s { assert s - {a} == s; }
    }
  }

  lemma WeightAtMostProduct(bn: Network, x: Assignment)
    requires Proper(bn) && World(x, bn.card)
    ensures 0.0 <= WeightTable(bn)[x] <= ProductTable(bn, Variables(|bn.card|))[x]
  {
    WorldFamilies(bn, x);
    FewerFactors(bn, x, |bn.nodes|, Variables(|bn.card|), Variables(|bn.card|));
  }

  lemma AllVary(card: seq<nat>, y: Assignment)
    requires World(y, card)
    ensures Variations(card, y, Variables(|card|)) == Worlds(card)
  {
    hide Variables;
    assert forall x :: World(x, card) ==> EqualBut(x, y, Variables(|card|));
  }

  /** In a proper network no marginal is more than one. */
  lemma MarginalAtMostOne(bn: Network, b: Assignment)
    requires Proper(bn)
    ensures 0.0 <= MarginalWeight(bn, b) <= 1.0
  {
    var rank :| ParentsFirst(bn, rank);
    var all := Variables(|bn.card|);
    var y := SomeWorld(map[], {}, bn.card);
    assert forall v :: v in all ==> v < |bn.nodes|;
    hide Proper, World, WeightTable, ProductTable, ParentsFirst, Total, Variables, AgreeingWorlds;
    forall x | x in Worlds(bn.card)
      ensures 0.0 <= WeightTable(bn)[x] <= ProductTable(bn, all)[x]
    {
      WeightAtMostProduct(bn, x);
    }
    AllVary(bn.card, y);
    ProductTotal(bn, rank, y, all);
    TotalAtMost(WeightTable(bn), ProductTable(bn, all), Worlds(bn.card));
    TotalOfFewer(WeightTable(bn), AgreeingWorlds(bn.card, b), Worlds(bn.card));
  }

  /** The marginal table of one node. */
  lemma NodeMarginal(bn: Network, t: JoinTree, s: TreeTables, k: nat, idx: nat)
    requires Proper(bn) && Consistent(t, bn.card, s) && TablesAreMarginals(bn, t, s)
    requires k < t.Size() && idx in t.cliques[k]
    ensures idx < |bn.card| && Full(Marginal(s.cliques[k], {idx}), {idx}, bn.card)
    ensures forall b :: b in Marginal(s.cliques[k], {idx}) ==> Marginal(s.cliques[k], {idx})[b] == MarginalWeight(bn, b)
  {
    var table, vars := s.cliques[k], t.cliques[k];
    assert CliqueOk(t, bn.card, s.cliques, k);
    assert forall a :: a in table ==> table[a] == MarginalWeight(bn, a);
    assert AllVariables({idx}, bn.card);
    hide Consistent, TablesAreMarginals, Marginal, Full, MarginalWeight, NonNegative, AllVariables, Proper;
    NewSeparator(table, vars, {idx}, bn.card);
    forall b | b in Marginal(table, {idx})
      ensures Marginal(table, {idx})[b] == MarginalWeight(bn, b)
    {
      NodeEntry(bn, table, vars, idx, b);
    }
  }

  lemma NodeEntry(bn: Network, table: Table, vars: set<nat>, idx: nat, b: Assignment)
    requires Proper(bn) && Full(table, vars, bn.card) && AllVariables(vars, bn.card) && NonNegative(table) && idx in vars
    requires forall a :: a in table ==> table[a] == MarginalWeight(bn, a)
    requires Full(Marginal(table, {idx}), {idx}, bn.card) && b in Marginal(table, {idx})
    ensures Marginal(table, {idx})[b] == MarginalWeight(bn, b)
  {
    assert b.Keys == {idx} && bn.WellFormed();
    hide *;
    EntryIsTotal(table, idx, b);
    SumOfMarginals(bn, table, vars, b);
    MarginalAtMostOne(bn, b);
  }

  /** A marginal entry is the sum of the entries that agree with it, unless that is more than one. */
  lemma EntryIsTotal(table: Table, idx: nat, b: Assignment)
    requires NonNegative(table) && b.Keys == {idx} && b in Marginal(table, {idx})
    ensures Total(table, EntriesOf(table, b)) <= 1.0 ==> Marginal(table, {idx})[b] == Total(table, EntriesOf(table, b))
  {
    var order := Enumeration(table.Keys);
    hide InOrder, Restrict, Total, Sum, MarginalOf, NonNegative;
    MarginalEntry(table, order, {idx}, b);
    SumIsTotal(table, order, {idx}, b);
    assert Listed(order, {idx}, b) == EntriesOf(table, b);
  }

  /** The probability of the evidence. */
  ghost function EvidenceWeight(bn: Network): real
    requires bn.WellFormed()
  {
    MarginalWeight(bn, map[])
  }

  /** A quotient with divisor zero has no value. */
  datatype Outcome<T> = Undefined | Defined(value: T)

  ghost function DividedBy(table: Table, sum: real): (out: Table)
    requires sum != 0.0
    ensures out.Keys == table.Keys
  {
    map b | b in table :: table[b] / sum
  }

  method SumEntries(table: Table) returns (sum: real)
    ensures sum == Total(table, table.Keys)
  {
    var order := Enumeration(table.Keys);
    hide Total, InOrder;
    TotalOfNone(table);
    assert FirstOf(order, 0) == {};
    sum := 0.0;
    var k := 0;
    while k < |order|
      invariant 0 <= k <= |order| && FirstOf(order, k) <= table.Keys && sum == Total(table, FirstOf(order, k))
    {
      assert order[k] in order;
      ListedBefore(order, k);
      TotalWith(table, FirstOf(order, k), order[k]);
      sum := sum + table[order[k]];
      k := k + 1;
    }
    assert order[..k] == order;
    assert FirstOf(order, k) == table.Keys;
  }

  /** The first k assignments of an order. */
  ghost function FirstOf(order: seq<Assignment>, k: nat): set<Assignment>
    requires k <= |order|
  {
    set a | a in order[..k]
  }

  lemma ListedBefore(order: seq<Assignment>, k: nat)
    requires InOrder(order) && k < |order|
    ensures order[k] !in FirstOf(order, k) && FirstOf(order, k + 1) == FirstOf(order, k) + {order[k]}
  {
    forall i | 0 <= i < k
      ensures order[i] != order[k]
    {
      InOrderDistinct(order, i, k);
    }
    assert order[..k + 1] == order[..k] + [order[k]];
  }

  /** Divides all entries by their sum. Only a table without entries has a sum of zero and nothing to divide. */
  method Normalize(table: Table) returns (result: Outcome<Table>)
    ensures table == map[] ==> result == Defined(map[])
    ensures table != map[] ==>
      var sum := Total(table, table.Keys);
      result == if sum == 0.0 then Undefined else Defined(DividedBy(table, sum))
  {
    hide Total, InOrder, Enumeration, Overwritten;
    if table == map[] { return Defined(map[]); }
    var sum := SumEntries(table);
    if sum == 0.0 { return Undefined; }
    ghost var wanted := DividedBy(table, sum);
    var order := Enumeration(table.Keys);
    OverwriteAll(table, wanted);
    var out := table;
    var k := 0;
    while k < |order|
      invariant 0 <= k <= |order| && out == Overwritten(table, order, k, wanted)
    {
      OverwriteOne(table, k, wanted);
      out := out[order[k] := out[order[k]] / sum];
      k := k + 1;
    }
    result := Defined(out);
  }

  lemma {:induction false} OneVariable(table: Table, idx: nat, card: seq<nat>)
    requires Full(table, {idx}, card) && idx < |card|
    ensures |table| == card[idx] && forall i: nat :: i < card[idx] ==> map[idx := i] in table
  {
    var keys := set i: nat | i < card[idx] :: map[idx := i];
    forall a
      ensures a in table <==> a in keys
    {
      if Legal(a, {idx}, card) { assert a == map[idx := a[idx]]; }
    }
    assert table.Keys == keys;
    SingleCount(idx, card[idx]);
  }

  lemma {:induction false} SingleCount(idx: nat, m: nat)
    ensures |set i: nat | i < m :: map[idx := i]| == m
  {
    if m > 0 {
      SingleCount(idx, m - 1);
      var fewer := set i: nat | i < m - 1 :: map[idx := i];
      assert (set i: nat | i < m :: map[idx := i]) == fewer + {map[idx := m - 1]};
      assert forall a :: a in fewer ==> a[idx] != m - 1;
    }
  }

  /** The table of the marginals of one node. */
  ghost predicate NodeTable(bn: Network, g: Table, idx: nat)
    requires bn.WellFormed() && idx < |bn.card|
  {
    && |g| == bn.card[idx] > 0 && Total(g, g.Keys) == EvidenceWeight(bn)
    && forall i :: 0 <= i < bn.card[idx] ==> NodeEntryIs(bn, g, map[idx := i])
  }

  ghost predicate NodeEntryIs(bn: Network, g: Table, b: Assignment)
    requires bn.WellFormed()
  {
    b in g && g[b] == MarginalWeight(bn, b)
  }

  lemma IsNodeTable(bn: Network, g: Table, idx: nat)
    requires bn.WellFormed() && idx < |bn.card| && Full(g, {idx}, bn.card)
    requires forall b :: b in g ==> g[b] == MarginalWeight(bn, b)
    ensures NodeTable(bn, g, idx)
  {
    assert AllVariables({idx}, bn.card) && bn.card[idx] > 0;
    hide Total, MarginalWeight, Full, Network.WellFormed, EntriesOf;
    OneVariable(g, idx, bn.card);
    SumOfMarginals(bn, g, {idx}, map[]);
    assert EntriesOf(g, map[]) == g.Keys;
  }

  /**
   The probabilities of the values of a node, given the evidence: marginals of the joint distribution over the
   probability of the evidence. If the evidence is impossible there are none.
   */
  ghost predicate IsPosterior(bn: Network, idx: nat, dist: Outcome<seq<real>>)
    requires bn.WellFormed() && idx < |bn.card|
  {
    match dist
    case Undefined => EvidenceWeight(bn) == 0.0
    case Defined(d) =>
      && EvidenceWeight(bn) != 0.0 && |d| == bn.card[idx]
      && forall i :: 0 <= i < |d| ==> d[i] == MarginalWeight(bn, map[idx := i]) / EvidenceWeight(bn)
  }

  lemma Quotients(a: real, q: real)
    requires q != 0.0
    ensures a / q * q == a && q / q == 1.0 && 0.0 / q == 0.0
  {
  }

  /** A node whose value is known has it for certain, unless the evidence is impossible. */
  lemma KnownForCertain(bn: Network, idx: nat, d: seq<real>, e: nat)
    requires bn.WellFormed() && idx < |bn.card| == |bn.nodes| && IsPosterior(bn, idx, Defined(d))
    requires bn.nodes[idx].evidence == Some(e)
    ensures e < |d| && forall i :: 0 <= i < |d| ==> d[i] == if i == e then 1.0 else 0.0
  {
    hide Network.WellFormed, MarginalWeight;
    Quotients(0.0, EvidenceWeight(bn));
    forall i: nat | i < |d|
      ensures d[i] == if i == e then 1.0 else 0.0
    {
      KnownValue(bn, idx, i);
    }
    if e >= |d| {
      KnownValue(bn, idx, e);
      OutOfRange(bn, idx, e);
    }
  }

  lemma OutOfRange(bn: Network, idx: nat, i: nat)
    requires bn.WellFormed() && idx < |bn.card| && i >= bn.card[idx]
    ensures MarginalWeight(bn, map[idx := i]) == 0.0
  {
    WithValue(bn.card, idx, i);
    hide Network.WellFormed, Total;
    assert With(bn.card, idx, i) == {};
    TotalOfNone(WeightTable(bn));
  }

  /** The answer for a value is the share, in the weight of all full assignments, of those with that value. */
  lemma PosteriorIsShare(bn: Network, idx: nat, dist: Outcome<seq<real>>, w: Table)
    requires bn.WellFormed() && idx < |bn.card| && IsPosterior(bn, idx, dist)
    requires w.Keys == Worlds(bn.card) && forall x :: x in w ==> Weighs(bn, x, w[x])
    ensures dist.Undefined? <==> Total(w, w.Keys) == 0.0
    ensures dist.Defined? ==> |dist.value| == bn.card[idx] && forall i :: 0 <= i < |dist.value| ==>
      With(bn.card, idx, i) <= w.Keys && dist.value[i] * Total(w, w.Keys) == Total(w, With(bn.card, idx, i))
  {
    hide World, Network.WellFormed, WeightTable, Weighs, Worlds, MarginalWeight;
    OneWeightTable(bn, w);
    assert EvidenceWeight(bn) == Total(w, w.Keys) by { ShareOf(bn, idx, 0); }
    if dist.Defined? {
      forall i: nat | i < |dist.value|
        ensures With(bn.card, idx, i) <= w.Keys && dist.value[i] * Total(w, w.Keys) == Total(w, With(bn.card, idx, i))
      {
        ShareOf(bn, idx, i);
        Quotients(MarginalWeight(bn, map[idx := i]), EvidenceWeight(bn));
      }
    }
  }

  lemma ShareOf(bn: Network, idx: nat, i: nat)
    requires bn.WellFormed()
    ensures With(bn.card, idx, i) <= Worlds(bn.card)
    ensures MarginalWeight(bn, map[idx := i]) == Total(WeightTable(bn), With(bn.card, idx, i))
    ensures EvidenceWeight(bn) == Total(WeightTable(bn), Worlds(bn.card))
  {
    hide Network.WellFormed, Total, World;
    WithValue(bn.card, idx, i);
  }

  /** Reads the entries of a table over one variable in the order of its values. */
  method ReadValues(table: Table, idx: nat) returns (d: seq<real>)
    requires forall i: nat :: i < |table| ==> InTable(table, idx, i)
    ensures |d| == |table| && forall i :: 0 <= i < |table| ==> InTable(table, idx, i) && d[i] == table[map[idx := i]]
  {
    d := [];
    while |d| < |table|
      invariant |d| <= |table|
      invariant forall i :: 0 <= i < |d| ==> InTable(table, idx, i) && d[i] == table[map[idx := i]]
    {
      assert InTable(table, idx, |d|);
      d := d + [table[map[idx := |d|]]];
    }
  }

  predicate InTable(table: Table, idx: nat, i: nat)
  {
    map[idx := i] in table
  }

  lemma PosteriorFound(bn: Network, g: Table, idx: nat, normalized: Outcome<Table>)
    requires bn.WellFormed() && idx < |bn.card| && NodeTable(bn, g, idx)
    requires var sum := Total(g, g.Keys); normalized == if sum == 0.0 then Undefined else Defined(DividedBy(g, sum))
    ensures normalized.Undefined? ==> IsPosterior(bn, idx, Undefined)
    ensures normalized.Defined? ==>
      && |normalized.value| == |g| && forall i: nat :: i < |g| ==> InTable(normalized.value, idx, i)
    ensures normalized.Defined? ==>
      forall d :: |d| == |g|
                  && (forall i :: 0 <= i < |d| ==> InTable(normalized.value, idx, i) && d[i] == normalized.value[map[idx := i]])
        ==> IsPosterior(bn, idx, Defined(d))
  {
    hide Total, MarginalWeight, Network.WellFormed;
    if normalized.Defined? {
      assert normalized.value.Keys == g.Keys;
      assert |normalized.value| == |normalized.value.Keys| == |g.Keys| == |g|;
      forall i: nat | i < |g|
        ensures InTable(normalized.value, idx, i)
        ensures normalized.value[map[idx := i]] == MarginalWeight(bn, map[idx := i]) / EvidenceWeight(bn)
      {
        assert NodeEntryIs(bn, g, map[idx := i]);
      }
    }
  }

  /** Answers questions about the nodes of a bayesian network. */
  class JoinTreeInference {
    ghost const bn: Network
    const tree: JoinTree
    const values: BnJoinTree
    // For each node the first of the smallest cliques that contain it.
    const cliques: seq<nat>

    ghost predicate Valid()
      reads values
    {
      && Proper(bn) && Consistent(tree, bn.card, values.State()) && TablesAreMarginals(bn, tree, values.State())
      && |cliques| == |bn.nodes| && forall i :: 0 <= i < |cliques| ==> Smallest(tree, i, cliques[i])
    }

    constructor (network: Network, t: JoinTree)
      requires Proper(network) && t.IsTree() && t.RunningIntersection()
      requires CliquesInNetwork(network, t) && CoversFamilies(network, t)
      ensures Valid() && bn == network && tree == t
    {
      assert network.WellFormed();
      hide Network.WellFormed, Proper, JoinTree.IsTree, JoinTree.RunningIntersection;
      hide CliquesInNetwork, Consistent, TablesAreMarginals;
      hide CoversFamilies, Smallest;
      var built := CreateJoinTree(network, t);
      var found := SmallestCliques(network, t);
      bn, tree, values, cliques := network, t, built, found;
    }

    /** What the clique of a node knows about it. */
    lemma NodeKnown(idx: nat)
      requires Valid() && idx < |bn.nodes|
      ensures idx < |cliques| && cliques[idx] < |values.cliques|
      ensures bn.WellFormed() && |bn.card| == |bn.nodes|
      ensures NodeTable(bn, Marginal(values.cliques[cliques[idx]], {idx}), idx)
      ensures |Marginal(values.cliques[cliques[idx]], {idx})| > 0
    {
      assert Smallest(tree, idx, cliques[idx]) && |values.cliques| == tree.Size() && bn.WellFormed() && |bn.card| == |bn.nodes|;
      hide *;
      var k := cliques[idx];
      assert k < tree.Size() && idx in tree.cliques[k] by { IsSmallest(tree, idx, k); }
      NodeMarginal(bn, tree, values.State(), k, idx);
      IsNodeTable(bn, Marginal(values.cliques[k], {idx}), idx);
      NotEmptyTable(bn, Marginal(values.cliques[k], {idx}), idx);
    }

    /** The probabilities of the values of a node, given the evidence. */
    method Probability(idx: nat) returns (dist: Outcome<seq<real>>)
      requires Valid() && idx < |bn.nodes|
      ensures bn.WellFormed() && |bn.card| == |bn.nodes| && IsPosterior(bn, idx, dist)
      ensures dist.Defined? && bn.nodes[idx].evidence.Some? ==>
        var e := bn.nodes[idx].evidence.value;
        e < |dist.value| && forall i :: 0 <= i < |dist.value| ==> dist.value[i] == if i == e then 1.0 else 0.0
    {
      hide *;
      NodeKnown(idx);
      var g := Marginalize(values.cliques[cliques[idx]], {idx});
      var normalized := Normalize(g);
      PosteriorFound(bn, g, idx, normalized);
      if normalized.Undefined? { return Undefined; }
      var d := ReadValues(normalized.value, idx);
      dist := Defined(d);
      if bn.nodes[idx].evidence.Some? { KnownForCertain(bn, idx, d, bn.nodes[idx].evidence.value); }
    }
  }

  lemma IsSmallest(t: JoinTree, i: nat, k: nat)
    requires Smallest(t, i, k)
    ensures k < t.Size() && i in t.cliques[k]
  {
  }

  lemma NotEmptyTable(bn: Network, g: Table, idx: nat)
    requires bn.WellFormed() && idx < |bn.card| && NodeTable(bn, g, idx)
    ensures |g| > 0
  {
  }
}
