/** In a proper network no part of the tree weighs more than one, whatever is summed out. */
module ProperNetworks {
  import opened Cliques
  import opened Elimination
  import opened Initialization
  import opened JoinTrees
  import opened Messages
  import opened Propagation
  import opened Tables
  import opened Totals

  /** The sum of the probabilities of a node's first m values. */
  function ValueSum(bn: Network, v: nat, m: nat, a: Assignment): real
    requires v < |bn.nodes|
  {
    if m == 0 then 0.0 else ValueSum(bn, v, m - 1, a) + bn.nodes[v].cpt(m - 1, a)
  }

  /** The probabilities of a node's values sum up to one, whatever values its parents have. */
  ghost predicate Normalized(bn: Network, v: nat)
    requires bn.WellFormed() && v < |bn.nodes|
  {
    forall a :: Legal(a, bn.ParentSet(v), bn.card) ==> ValueSum(bn, v, bn.card[v], a) == 1.0
  }

  predicate Ranked(rank: seq<nat>, p: nat, v: nat)
  {
    p < |rank| && v < |rank| && rank[p] < rank[v]
  }

  ghost predicate ParentsFirst(bn: Network, rank: seq<nat>)
  {
    && |rank| == |bn.nodes|
    && forall v: nat, p: nat :: v < |bn.nodes| && p in bn.ParentSet(v) ==> Ranked(rank, p, v)
  }

  /** Conditional probabilities, and no node among its own ancestors. */
  ghost predicate Proper(bn: Network)
  {
    && bn.WellFormed() && (forall v :: 0 <= v < |bn.nodes| ==> Normalized(bn, v))
    && exists rank :: ParentsFirst(bn, rank)
  }

  lemma {:induction false} ValueAtMostSum(bn: Network, v: nat, m: nat, a: Assignment, k: nat)
    requires bn.WellFormed() && v < |bn.nodes|
    ensures ValueSum(bn, v, m, a) >= 0.0 && (k < m ==> bn.nodes[v].cpt(k, a) <= ValueSum(bn, v, m, a))
  {
    if m > 0 {
      ValueAtMostSum(bn, v, m - 1, a, k);
      assert bn.nodes[v].cpt(m - 1, a) >= 0.0;
    }
  }

  lemma ParentsLegal(bn: Network, x: Assignment, v: nat)
    requires bn.WellFormed() && World(x, bn.card) && v < |bn.nodes|
    ensures v in x && x[v] < bn.card[v] && bn.Family(v) <= x.Keys
    ensures Legal(Restrict(x, bn.ParentSet(v)), bn.ParentSet(v), bn.card)
  {
    WorldFamilies(bn, x);
    assert AllVariables(bn.ParentSet(v), bn.card);
    WorldRestricts(x, bn.ParentSet(v), bn.card);
  }

  lemma ProbabilityBetween(bn: Network, x: Assignment, v: nat)
    requires bn.WellFormed() && World(x, bn.card) && v < |bn.nodes| && Normalized(bn, v)
    ensures bn.Family(v) <= x.Keys && 0.0 <= bn.Probability(v, x) <= 1.0
  {
    ParentsLegal(bn, x, v);
    var a := Restrict(x, bn.ParentSet(v));
    ValueAtMostSum(bn, v, bn.card[v], a, x[v]);
    assert bn.nodes[v].cpt(x[v], a) >= 0.0;
  }

  lemma TimesAtMost(p: real, q: real, f: real, g: real)
    requires 0.0 <= p <= q && 0.0 <= f <= g
    ensures 0.0 <= Times(p, f) <= Times(q, g)
  {
    assert p * f <= q * f <= q * g;
  }

  /** The product of more probabilities is smaller. */
  lemma {:induction false} FewerFactors(bn: Network, x: Assignment, m: nat, fewer: set<nat>, more: set<nat>)
    requires Proper(bn) && World(x, bn.card) && m <= |bn.nodes| && fewer <= more
    ensures forall v :: 0 <= v < m ==> bn.Family(v) <= x.Keys
    ensures 0.0 <= NodeProduct(bn, x, m, more) <= NodeProduct(bn, x, m, fewer)
  {
    WorldFamilies(bn, x);
    if m > 0 {
      FewerFactors(bn, x, m - 1, fewer, more);
      ProbabilityBetween(bn, x, m - 1);
      var p, q := NodeProduct(bn, x, m - 1, more), NodeProduct(bn, x, m - 1, fewer);
      hide Network.Probability, World;
      TimesAtMost(p, q, bn.Probability(m - 1, x), bn.Probability(m - 1, x));
      TimesAtMost(p, q, bn.Probability(m - 1, x), 1.0);
      TimesOne(q);
    }
  }

  /** z with each of the first m values of v. */
  ghost function FirstValues(z: Assignment, v: nat, m: nat): set<Assignment>
  {
    if m == 0 then {} else FirstValues(z, v, m - 1) + {Put(z, v, m - 1)}
  }

  lemma {:induction false} InFirstValues(z: Assignment, v: nat, m: nat, x: Assignment)
    ensures x in FirstValues(z, v, m) <==> exists k: nat :: k < m && x == Put(z, v, k)
  {
    if m > 0 { InFirstValues(z, v, m - 1, x); }
  }

  lemma PutVaries(card: seq<nat>, z: Assignment, v: nat, k: nat)
    requires World(z, card) && v < |card| && k < card[v]
    ensures World(Put(z, v, k), card) && EqualBut(Put(z, v, k), z, {v}) && v in Put(z, v, k) && Put(z, v, k)[v] == k
  {
  }

  lemma VariationIsPut(card: seq<nat>, z: Assignment, v: nat, x: Assignment)
    requires World(z, card) && v < |card| && World(x, card) && EqualBut(x, z, {v})
    ensures v in x && x[v] < card[v] && x == Put(z, v, x[v])
  {
  }

  lemma VariationsOfOne(bn: Network, z: Assignment, v: nat)
    requires bn.WellFormed() && World(z, bn.card) && v < |bn.nodes|
    ensures Variations(bn.card, z, {v}) == FirstValues(z, v, bn.card[v])
  {
    assert |bn.card| == |bn.nodes|;
    hide *;
    forall x
      ensures x in Variations(bn.card, z, {v}) <==> x in FirstValues(z, v, bn.card[v])
    {
      InFirstValues(z, v, bn.card[v], x);
      if x in Variations(bn.card, z, {v}) {
        VariationIsPut(bn.card, z, v, x);
      }
      if x in FirstValues(z, v, bn.card[v]) {
        var k: nat :| k < bn.card[v] && x == Put(z, v, k);
        PutVaries(bn.card, z, v, k);
      }
    }
  }

  ghost function ProbabilityTable(bn: Network, v: nat): (table: Table)
    requires bn.WellFormed() && v < |bn.nodes|
    ensures table.Keys == Worlds(bn.card)
  {
    map x | x in Worlds(bn.card) :: assert bn.Family(v) <= x.Keys by { WorldFamilies(bn, x); } bn.Probability(v, x)
  }

  lemma NewValue(bn: Network, z: Assignment, v: nat, m: nat)
    requires bn.WellFormed() && World(z, bn.card) && v < |bn.nodes| && m < bn.card[v] && v !in bn.ParentSet(v)
    ensures var x := Put(z, v, m);
      && x in Worlds(bn.card) && x !in FirstValues(z, v, m)
      && ProbabilityTable(bn, v)[x] == bn.nodes[v].cpt(m, Restrict(z, bn.ParentSet(v)))
  {
    var x := Put(z, v, m);
    assert |bn.card| == |bn.nodes|;
    hide *;
    PutVaries(bn.card, z, v, m);
    ProbabilityAt(bn, x, z, v, m);
    forall k: nat | k < m
      ensures x != Put(z, v, k)
    {
      PutVaries(bn.card, z, v, k);
    }
    InFirstValues(z, v, m, x);
  }

  lemma ProbabilityAt(bn: Network, x: Assignment, z: Assignment, v: nat, m: nat)
    requires bn.WellFormed() && World(x, bn.card) && v < |bn.nodes| && v !in bn.ParentSet(v)
    requires EqualBut(x, z, {v}) && v in x && x[v] == m
    ensures x in Worlds(bn.card) && ProbabilityTable(bn, v)[x] == bn.nodes[v].cpt(m, Restrict(z, bn.ParentSet(v)))
  {
    WorldFamilies(bn, x);
    SameRestriction(x, z, {v}, bn.ParentSet(v));
  }

  lemma FirstValuesNone(bn: Network, z: Assignment, v: nat)
    requires bn.WellFormed() && v < |bn.nodes|
    ensures FirstValues(z, v, 0) <= Worlds(bn.card)
    ensures Total(ProbabilityTable(bn, v), FirstValues(z, v, 0)) == 0.0
  {
    assert FirstValues(z, v, 0) == {};
    TotalOfNone(ProbabilityTable(bn, v));
  }

  lemma FirstValuesStep(bn: Network, z: Assignment, v: nat, m: nat)
    requires bn.WellFormed() && World(z, bn.card) && v < |bn.nodes| && 0 < m <= bn.card[v] && v !in bn.ParentSet(v)
    requires FirstValues(z, v, m - 1) <= Worlds(bn.card)
    ensures FirstValues(z, v, m) <= Worlds(bn.card)
    ensures Total(ProbabilityTable(bn, v), FirstValues(z, v, m))
            == Total(ProbabilityTable(bn, v), FirstValues(z, v, m - 1))
               + bn.nodes[v].cpt(m - 1, Restrict(z, bn.ParentSet(v)))
  {
    hide World, Put, Restrict, Network.Probability, Network.Family;
    hide Network.ParentSet, Network.WellFormed, Total, ProbabilityTable;
    NewValue(bn, z, v, m - 1);
    TotalWith(ProbabilityTable(bn, v), FirstValues(z, v, m - 1), Put(z, v, m - 1));
  }

  lemma {:induction false} FirstValuesTotal(bn: Network, z: Assignment, v: nat, m: nat)
    requires bn.WellFormed() && World(z, bn.card) && v < |bn.nodes| && m <= bn.card[v] && v !in bn.ParentSet(v)
    ensures FirstValues(z, v, m) <= Worlds(bn.card)
    ensures Total(ProbabilityTable(bn, v), FirstValues(z, v, m)) == ValueSum(bn, v, m, Restrict(z, bn.ParentSet(v)))
    decreases m
  {
    hide Restrict, World, Total, ProbabilityTable, FirstValues, Network.ParentSet, Network.WellFormed, Worlds;
    if m == 0 {
      FirstValuesNone(bn, z, v);
    } else {
      FirstValuesTotal(bn, z, v, m - 1);
      FirstValuesStep(bn, z, v, m);
    }
  }

  /** Summing out a node's value in its conditional probability gives one. */
  lemma ValuesTotal(bn: Network, z: Assignment, v: nat)
    requires bn.WellFormed() && World(z, bn.card) && v < |bn.nodes| && v !in bn.ParentSet(v) && Normalized(bn, v)
    ensures Total(ProbabilityTable(bn, v), Variations(bn.card, z, {v})) == 1.0
  {
    VariationsOfOne(bn, z, v);
    FirstValuesTotal(bn, z, v, bn.card[v]);
    ParentsLegal(bn, z, v);
  }

  ghost function ProductTable(bn: Network, vars: set<nat>): (table: Table)
    requires bn.WellFormed()
    ensures table.Keys == Worlds(bn.card)
  {
    map x | x in Worlds(bn.card) :: WorldFamilies(bn, x); NodeProduct(bn, x, |bn.nodes|, vars)
  }

  lemma {:induction false} OneFactor(bn: Network, x: Assignment, m: nat, v: nat)
    requires bn.WellFormed() && World(x, bn.card) && m <= |bn.nodes| && v < |bn.nodes|
    ensures forall w :: 0 <= w < |bn.nodes| ==> bn.Family(w) <= x.Keys
    ensures NodeProduct(bn, x, m, {v}) == if v < m then bn.Probability(v, x) else 1.0
    decreases m
  {
    WorldFamilies(bn, x);
    hide Network.Family, Network.Probability, World;
    if m > 0 {
      OneFactor(bn, x, m - 1, v);
      TimesOne(bn.Probability(m - 1, x));
    }
  }

  /** A product does not see a node outside the families it multiplies. */
  lemma {:induction false} ProductLocal(bn: Network, x: Assignment, z: Assignment, m: nat, nodes: set<nat>, v: nat)
    requires bn.WellFormed() && World(x, bn.card) && World(z, bn.card) && EqualBut(x, z, {v}) && m <= |bn.nodes|
    requires forall w :: w in nodes && w < |bn.nodes| ==> v !in bn.Family(w)
    ensures forall w :: 0 <= w < |bn.nodes| ==> bn.Family(w) <= x.Keys && bn.Family(w) <= z.Keys
    ensures NodeProduct(bn, x, m, nodes) == NodeProduct(bn, z, m, nodes)
    decreases m
  {
    WorldFamilies(bn, x);
    WorldFamilies(bn, z);
    if m > 0 {
      ProductLocal(bn, x, z, m - 1, nodes, v);
      if m - 1 in nodes { SameRestriction(x, z, {v}, bn.ParentSet(m - 1)); }
    }
  }

  lemma {:induction false} HighestRank(nodes: set<nat>, rank: seq<nat>) returns (v: nat)
    requires nodes != {} && forall w :: w in nodes ==> w < |rank|
    ensures v in nodes && forall w :: w in nodes ==> rank[w] <= rank[v]
    decreases |nodes|
  {
    v :| v in nodes;
    var rest := nodes - {v};
    if rest != {} {
      var w := HighestRank(rest, rank);
      if rank[v] < rank[w] { v := w; }
    }
  }

  lemma FactorOut(bn: Network, nodes: set<nat>, v: nat, x: Assignment, z: Assignment)
    requires bn.WellFormed() && World(z, bn.card) && v in nodes && v < |bn.nodes| && x in Variations(bn.card, z, {v})
    requires forall w :: w in nodes - {v} && w < |bn.nodes| ==> v !in bn.Family(w)
    ensures ProductTable(bn, nodes)[x] == Times(ProductTable(bn, nodes - {v})[z], ProbabilityTable(bn, v)[x])
  {
    hide Network.Family, Network.Probability, Network.WellFormed, World, NodeProduct, Times, EqualBut, Variations;
    WorldFamilies(bn, x);
    ProductLocal(bn, x, z, |bn.nodes|, nodes - {v}, v);
    OneFactor(bn, x, |bn.nodes|, v);
    assert nodes - {v} + {v} == nodes;
    ProductOfUnion(bn, x, |bn.nodes|, nodes - {v}, {v});
  }

  lemma SumOneNode(bn: Network, nodes: set<nat>, v: nat, z: Assignment)
    requires bn.WellFormed() && World(z, bn.card) && v in nodes && v < |bn.nodes| && Normalized(bn, v)
    requires v !in bn.ParentSet(v) && forall w :: w in nodes - {v} && w < |bn.nodes| ==> v !in bn.Family(w)
    ensures Total(ProductTable(bn, nodes), Variations(bn.card, z, {v})) == ProductTable(bn, nodes - {v})[z]
  {
    var q := ProductTable(bn, nodes - {v})[z];
    hide Total, Times, World, Network.Family, Network.WellFormed;
    hide ProductTable, ProbabilityTable, Variations, Normalized;
    forall x | x in Variations(bn.card, z, {v})
      ensures ProductTable(bn, nodes)[x] == Times(q, ProbabilityTable(bn, v)[x])
    {
      FactorOut(bn, nodes, v, x, z);
    }
    ValuesTotal(bn, z, v);
    TotalScaled(ProbabilityTable(bn, v), ProductTable(bn, nodes), Variations(bn.card, z, {v}), q);
    TimesOne(q);
  }

  /** The node of highest rank is in no other node's family, so it can be summed out first. */
  lemma SumHighest(bn: Network, rank: seq<nat>, y: Assignment, nodes: set<nat>, v: nat)
    requires Proper(bn) && ParentsFirst(bn, rank) && World(y, bn.card) && forall w :: w in nodes ==> w < |bn.nodes|
    requires v in nodes && forall w :: w in nodes ==> rank[w] <= rank[v]
    ensures Total(ProductTable(bn, nodes), Variations(bn.card, y, nodes))
            == Total(ProductTable(bn, nodes - {v}), Variations(bn.card, y, nodes - {v}))
  {
    NoChildren(bn, rank, nodes, v);
    hide ParentsFirst, Network.Family, Network.ParentSet, Network.WellFormed, Total;
    hide World, Variations, Normalized, ProductTable, Worlds;
    var rest := nodes - {v};
    forall z | z in Variations(bn.card, y, rest)
      ensures ProductTable(bn, rest)[z] == Total(ProductTable(bn, nodes), Variations(bn.card, z, {v}))
    {
      SumOneNode(bn, nodes, v, z);
    }
    assert rest + {v} == nodes;
    TotalNested(bn.card, y, rest, {v}, ProductTable(bn, nodes), ProductTable(bn, rest));
  }

  /** The probabilities of some nodes, given all others, sum up to one. */
  lemma {:induction false} ProductTotal(bn: Network, rank: seq<nat>, y: Assignment, nodes: set<nat>)
    requires Proper(bn) && ParentsFirst(bn, rank) && World(y, bn.card) && forall v :: v in nodes ==> v < |bn.nodes|
    ensures Total(ProductTable(bn, nodes), Variations(bn.card, y, nodes)) == 1.0
    decreases |nodes|
  {
    if nodes == {} {
      ProductTotalNone(bn, y);
    } else {
      assert forall v :: v in nodes ==> v < |rank|;
      hide *;
      var v := HighestRank(nodes, rank);
      SumHighest(bn, rank, y, nodes, v);
      ProductTotal(bn, rank, y, nodes - {v});
    }
  }

  lemma NoChildren(bn: Network, rank: seq<nat>, nodes: set<nat>, v: nat)
    requires ParentsFirst(bn, rank) && v in nodes && forall w :: w in nodes ==> w < |bn.nodes|
    requires forall w :: w in nodes ==> rank[w] <= rank[v]
    ensures v !in bn.ParentSet(v) && forall w :: w in nodes - {v} && w < |bn.nodes| ==> v !in bn.Family(w)
  {
    assert v in bn.ParentSet(v) ==> Ranked(rank, v, v);
    forall w | w in nodes - {v} && w < |bn.nodes|
      ensures v !in bn.Family(w)
    {
      assert v in bn.ParentSet(w) ==> Ranked(rank, v, w);
    }
  }

  lemma ProductTotalNone(bn: Network, y: Assignment)
    requires bn.WellFormed() && World(y, bn.card)
    ensures Total(ProductTable(bn, {}), Variations(bn.card, y, {})) == 1.0
  {
    OnlyVariation(bn.card, y);
    TotalOfOne(ProductTable(bn, {}), y);
    WorldFamilies(bn, y);
    ProductOfNone(bn, y, |bn.nodes|, {});
  }

  /** The nodes assigned to those of the first m cliques that are in a part of the tree. */
  ghost function OwnedIn(owner: seq<nat>, nodes: set<nat>, m: nat): (vars: set<nat>)
    ensures forall v: nat :: v in vars <==> v < |owner| && owner[v] < m && owner[v] in nodes
  {
    set v: nat | v < |owner| && owner[v] < m && owner[v] in nodes
  }

  lemma OwnedInStep(owner: seq<nat>, nodes: set<nat>, m: nat)
    ensures var before := OwnedIn(owner, nodes, m);
      OwnedIn(owner, nodes, m + 1) == if m in nodes then before + OwnedBy(owner, m) else before
    ensures OwnedIn(owner, nodes, m) !! OwnedBy(owner, m)
  {
  }

  lemma FactorAtMost(bn: Network, t: JoinTree, cliques: seq<Table>, owner: seq<nat>, k: nat, x: Assignment)
    requires Proper(bn) && CliquesInNetwork(bn, t) && |cliques| == t.Size() && FactorsBegun(bn, t, cliques, owner)
    requires World(x, bn.card) && k < t.Size()
    ensures forall v :: 0 <= v < |bn.nodes| ==> bn.Family(v) <= x.Keys
    ensures 0.0 <= FactorAt(cliques[k], x, t.cliques[k]) <= NodeProduct(bn, x, |bn.nodes|, OwnedBy(owner, k))
  {
    WorldFamilies(bn, x);
    assert FactorIs(bn, t, cliques, owner, k, x);
    FewerFactors(bn, x, |bn.nodes|, OwnedBy(owner, k), OwnedBy(owner, k));
  }

  lemma {:induction false} PrefixAtMost(bn: Network, t: JoinTree, cliques: seq<Table>, owner: seq<nat>, nodes: set<nat>,
                                        x: Assignment, m: nat)
    requires Proper(bn) && CliquesInNetwork(bn, t) && |cliques| == t.Size() && FactorsBegun(bn, t, cliques, owner)
    requires World(x, bn.card) && m <= t.Size()
    ensures forall v :: 0 <= v < |bn.nodes| ==> bn.Family(v) <= x.Keys
    ensures 0.0 <= Product(Masked(CliqueFactors(t, cliques, x), nodes)[..m])
                <= NodeProduct(bn, x, |bn.nodes|, OwnedIn(owner, nodes, m))
    decreases m
  {
    WorldFamilies(bn, x);
    var f := Masked(CliqueFactors(t, cliques, x), nodes);
    if m == 0 {
      ProductOfNone(bn, x, |bn.nodes|, OwnedIn(owner, nodes, 0));
    } else {
      hide Network.Family, NodeProduct, Times, FactorAt, World;
      hide Proper, CliquesInNetwork, FactorsBegun, OwnedIn, OwnedBy;
      var k := m - 1;
      PrefixAtMost(bn, t, cliques, owner, nodes, x, k);
      OwnedInStep(owner, nodes, k);
      assert f[..m][..k] == f[..k];
      if k in nodes {
        FactorAtMost(bn, t, cliques, owner, k, x);
        ProductOfUnion(bn, x, |bn.nodes|, OwnedIn(owner, nodes, k), OwnedBy(owner, k));
        TimesAtMost(Product(f[..k]), NodeProduct(bn, x, |bn.nodes|, OwnedIn(owner, nodes, k)),
                    f[k], NodeProduct(bn, x, |bn.nodes|, OwnedBy(owner, k)));
      } else {
        TimesOne(Product(f[..k]));
      }
    }
  }

  /** Only nodes of this part have these variables. */
  ghost predicate Enclosed(t: JoinTree, nodes: set<nat>, vars: set<nat>)
  {
    forall v, k: nat :: v in vars && k < t.Size() && v in t.cliques[k] ==> k in nodes
  }

  /** No part of the tree weighs more than one when variables are summed out that only its own nodes have. */
  ghost predicate Light(t: JoinTree, card: seq<nat>, s: TreeTables)
    requires t.WellFormed() && |s.cliques| == t.Size() && |s.separators| == |t.edges|
  {
    forall nodes, vars, y :: Enclosed(t, nodes, vars) && World(y, card) && (forall v :: v in vars ==> v < |card|) ==>
      Total(PartTable(t, card, s, nodes), Variations(card, y, vars)) <= 1.0
  }

  lemma EnclosedOwned(bn: Network, t: JoinTree, cliques: seq<Table>, owner: seq<nat>, nodes: set<nat>,
                      vars: set<nat>, y: Assignment)
    requires bn.WellFormed() && CliquesInNetwork(bn, t) && |cliques| == t.Size() && FactorsBegun(bn, t, cliques, owner)
    requires |owner| == |bn.nodes| && (forall v :: 0 <= v < |bn.nodes| ==> owner[v] < t.Size())
    requires Enclosed(t, nodes, vars) && World(y, bn.card) && forall v :: v in vars ==> v < |bn.card|
    ensures vars <= OwnedIn(owner, nodes, t.Size())
  {
    hide World, FactorAt, NodeProduct, CliqueAgrees;
    forall v | v in vars
      ensures v in OwnedIn(owner, nodes, t.Size())
    {
      assert FactorIs(bn, t, cliques, owner, owner[v], y);
      assert v in OwnedBy(owner, owner[v]);
    }
  }

  lemma PartAtMost(bn: Network, t: JoinTree, cliques: seq<Table>, owner: seq<nat>, nodes: set<nat>, vars: set<nat>,
                   x: Assignment)
    requires Proper(bn) && t.WellFormed() && CliquesInNetwork(bn, t) && |cliques| == t.Size()
    requires FactorsBegun(bn, t, cliques, owner)
    requires vars <= OwnedIn(owner, nodes, t.Size()) && World(x, bn.card)
    ensures PartWeight(t, TreeTables(cliques, seq(|t.edges|, _ => map[])), nodes, x) <= ProductTable(bn, vars)[x]
  {
    var s := TreeTables(cliques, seq(|t.edges|, _ => map[]));
    var f, g := Masked(CliqueFactors(t, cliques, x), nodes), Masked(SeparatorFactors(t, s.separators, x), InnerEdges(t, nodes));
    WorldFamilies(bn, x);
    PrefixAtMost(bn, t, cliques, owner, nodes, x, t.Size());
    assert f[..t.Size()] == f;
    ProductOfOnes(g);
    FewerFactors(bn, x, |bn.nodes|, vars, OwnedIn(owner, nodes, t.Size()));
  }

  /** In a proper network the initial tables are light. */
  lemma StartIsLight(bn: Network, t: JoinTree, cliques: seq<Table>, owner: seq<nat>)
    requires Proper(bn) && t.WellFormed() && CliquesInNetwork(bn, t) && |cliques| == t.Size()
    requires FactorsBegun(bn, t, cliques, owner)
    requires |owner| == |bn.nodes| && forall v :: 0 <= v < |bn.nodes| ==> owner[v] < t.Size()
    ensures Light(t, bn.card, TreeTables(cliques, seq(|t.edges|, _ => map[])))
  {
    var s := TreeTables(cliques, seq(|t.edges|, _ => map[]));
    var rank :| ParentsFirst(bn, rank);
    assert bn.WellFormed() && |bn.card| == |bn.nodes|;
    hide Proper, FactorsBegun, CliquesInNetwork, World, ParentsFirst;
    hide PartWeight, ProductTable, OwnedIn, Enclosed, Total;
    hide Network.WellFormed, Variations;
    forall nodes, vars, y | Enclosed(t, nodes, vars) && World(y, bn.card) && forall v :: v in vars ==> v < |bn.card|
      ensures Total(PartTable(t, bn.card, s, nodes), Variations(bn.card, y, vars)) <= 1.0
    {
      EnclosedOwned(bn, t, cliques, owner, nodes, vars, y);
      forall x | x in Variations(bn.card, y, vars)
        ensures PartTable(t, bn.card, s, nodes)[x] <= ProductTable(bn, vars)[x]
      {
        PartAtMost(bn, t, cliques, owner, nodes, vars, x);
      }
      TotalAtMost(PartTable(t, bn.card, s, nodes), ProductTable(bn, vars), Variations(bn.card, y, vars));
      ProductTotal(bn, rank, y, vars);
    }
  }
}
