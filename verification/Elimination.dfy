/** Summing out the variables of a calibrated part of the tree leaves the table of the node it grew from. */
module Elimination {
  import opened Calibration
  import opened Growth
  import opened JoinTrees
  import opened Messages
  import opened Propagation
  import opened Schedules
  import opened Tables
  import opened Totals

  ghost predicate InTree(t: JoinTree, nodes: set<nat>)
  {
    forall k :: k in nodes ==> k < t.Size()
  }

  /** The variables of some nodes. */
  ghost function VariablesOf(t: JoinTree, nodes: set<nat>): (vars: set<nat>)
    requires InTree(t, nodes)
    ensures forall v :: v in vars <==> exists k :: k in nodes && v in t.cliques[k]
  {
    set k, v | k in nodes && v in t.cliques[k] :: v
  }

  /** The weights that a part of the tree gives to all full assignments. */
  ghost function PartTable(t: JoinTree, card: seq<nat>, s: TreeTables, nodes: set<nat>): (table: Table)
    requires t.WellFormed() && |s.cliques| == t.Size() && |s.separators| == |t.edges|
    ensures table.Keys == Worlds(card)
  {
    map x | x in Worlds(card) :: PartWeight(t, s, nodes, x)
  }

  /** The entries of a table at all full assignments. */
  ghost function FactorTable(table: Table, vars: set<nat>, card: seq<nat>): (factors: Table)
    ensures factors.Keys == Worlds(card)
  {
    map x | x in Worlds(card) :: FactorAt(table, x, vars)
  }

  lemma SameRestriction(x: Assignment, z: Assignment, changed: set<nat>, vars: set<nat>)
    requires EqualBut(x, z, changed) && changed !! vars
    ensures Restrict(x, vars) == Restrict(z, vars)
  {
  }

  /** z with the values of a. */
  function Overlay(z: Assignment, a: Assignment): (x: Assignment)
    ensures x.Keys == z.Keys && forall v :: v in z ==> x[v] == if v in a then a[v] else z[v]
  {
    map v | v in z :: if v in a then a[v] else z[v]
  }

  lemma OverlayVaries(table: Table, vars: set<nat>, separator: set<nat>, card: seq<nat>, z: Assignment, a: Assignment)
    requires Full(table, vars, card) && AllVariables(vars, card) && separator <= vars && World(z, card)
    requires a in table && Restrict(a, separator) == Restrict(z, separator)
    ensures Overlay(z, a) in Variations(card, z, vars - separator) && Restrict(Overlay(z, a), vars) == a
  {
    var x := Overlay(z, a);
    hide Variations;
    assert Legal(a, vars, card);
    hide Full;
    forall v | v in separator && v in z
      ensures x[v] == z[v]
    {
      assert Restrict(a, separator)[v] == Restrict(z, separator)[v];
    }
    assert EqualBut(x, z, vars - separator);
    hide Restrict;
    assert World(x, card);
    OverlayRestricts(z, a, vars);
  }

  lemma OverlayRestricts(z: Assignment, a: Assignment, vars: set<nat>)
    requires a.Keys == vars <= z.Keys
    ensures Restrict(Overlay(z, a), vars) == a
  {
  }

  lemma VariationInTable(table: Table, vars: set<nat>, separator: set<nat>, card: seq<nat>, z: Assignment, x: Assignment)
    requires Full(table, vars, card) && AllVariables(vars, card) && separator <= vars && World(z, card)
    requires x in Variations(card, z, vars - separator)
    ensures World(x, card) && Restrict(x, vars) in table
    ensures Restrict(Restrict(x, vars), separator) == Restrict(z, separator)
    ensures FactorAt(table, x, vars) == table[Restrict(x, vars)]
  {
    WorldRestricts(x, vars, card);
    RestrictTwice(x, vars, separator);
    SameRestriction(x, z, vars - separator, separator);
  }

  lemma VariationsDiffer(vars: set<nat>, separator: set<nat>, card: seq<nat>, z: Assignment, x: Assignment, x': Assignment)
    requires x in Variations(card, z, vars - separator) && x' in Variations(card, z, vars - separator)
    requires Restrict(x, vars) == Restrict(x', vars)
    ensures x == x'
  {
    forall v | v in x
      ensures x[v] == x'[v]
    {
      if v in vars { assert Restrict(x, vars)[v] == Restrict(x', vars)[v]; }
    }
  }

  /** Summing out the variables of a table that are not in the separator gives its marginal. */
  lemma TableSum(table: Table, vars: set<nat>, separator: set<nat>, card: seq<nat>, z: Assignment)
    requires Full(table, vars, card) && AllVariables(vars, card) && separator <= vars && World(z, card)
    ensures Total(FactorTable(table, vars, card), Variations(card, z, vars - separator))
            == SumAt(table, separator, Restrict(z, separator))
  {
    var order, b := Enumeration(table.Keys), Restrict(z, separator);
    var some, names := Variations(card, z, vars - separator), Listed(order, separator, b);
    SumIsTotal(table, order, separator, b);
    hide InOrder, Restrict, Variations, World, Full, AllVariables, Total, FactorAt, Listed, Overlay;
    var name := map x | x in some :: Restrict(x, vars);
    forall x | x in some
      ensures name[x] in names && FactorAt(table, x, vars) == Times(1.0, table[name[x]])
    {
      VariationInTable(table, vars, separator, card, z, x);
    }
    forall x, x' | x in some && x' in some && name[x] == name[x']
      ensures x == x'
    {
      VariationsDiffer(vars, separator, card, z, x, x');
    }
    forall a | a in names
      ensures exists x :: x in some && name[x] == a
    {
      OverlayVaries(table, vars, separator, card, z, a);
    }
    TotalRenamed(FactorTable(table, vars, card), some, name, table, names, 1.0);
  }

  lemma MaskedMore(f: seq<real>, keep: set<nat>, i: nat)
    requires i < |f| && i !in keep
    ensures Product(Masked(f, keep + {i})) == Times(Product(Masked(f, keep)), f[i])
  {
    var m := Masked(f, keep);
    assert Times(m[i], f[i]) == f[i];
    hide Times;
    assert Masked(f, keep + {i}) == m[i := Times(m[i], f[i])];
    ProductScaled(m, i, f[i]);
  }

  lemma InnerEdgesStep(t: JoinTree, sent: set<Message>, nodes: set<nat>, leaf: nat, anchor: nat)
    requires t.WellFormed() && Attached(t, sent, nodes, leaf, anchor)
    ensures var e := t.EdgeBetween(leaf, anchor);
      e !in InnerEdges(t, nodes) && InnerEdges(t, nodes + {leaf}) == InnerEdges(t, nodes) + {e}
  {
    var e := t.EdgeBetween(leaf, anchor);
    forall f: nat | f in InnerEdges(t, nodes + {leaf}) && f !in InnerEdges(t, nodes)
      ensures f == e
    {
      var w := if t.edges[f].0 == leaf then t.edges[f].1 else t.edges[f].0;
      assert t.Joins(f, leaf, w) && t.Adjacent(leaf, w);
      SameEdge(t, e, f, leaf, anchor);
    }
  }

  /** What the tables of some nodes, and of the edges between them, multiply to. */
  ghost function Above(t: JoinTree, s: TreeTables, nodes: set<nat>, x: Assignment): real
    requires t.WellFormed() && |s.cliques| == t.Size() && |s.separators| == |t.edges|
  {
    Product(Masked(CliqueFactors(t, s.cliques, x), nodes))
  }

  ghost function Below(t: JoinTree, s: TreeTables, nodes: set<nat>, x: Assignment): real
    requires t.WellFormed() && |s.cliques| == t.Size() && |s.separators| == |t.edges|
  {
    Product(Masked(SeparatorFactors(t, s.separators, x), InnerEdges(t, nodes)))
  }

  lemma PartStep(t: JoinTree, s: TreeTables, sent: set<Message>, nodes: set<nat>, leaf: nat, anchor: nat, x: Assignment)
    requires t.WellFormed() && |s.cliques| == t.Size() && |s.separators| == |t.edges|
    requires Attached(t, sent, nodes, leaf, anchor)
    ensures var e := t.EdgeBetween(leaf, anchor);
      PartWeight(t, s, nodes + {leaf}, x)
      == Over(Times(Above(t, s, nodes, x), FactorAt(s.cliques[leaf], x, t.cliques[leaf])),
              Times(Below(t, s, nodes, x), FactorAt(s.separators[e], x, t.Separator(e))))
  {
    hide FactorAt, Times, Over, Product;
    InnerEdgesStep(t, sent, nodes, leaf, anchor);
    MaskedMore(CliqueFactors(t, s.cliques, x), nodes, leaf);
    MaskedMore(SeparatorFactors(t, s.separators, x), InnerEdges(t, nodes), t.EdgeBetween(leaf, anchor));
  }

  /** A part of the tree does not see changes to variables of other nodes. */
  lemma PartLocal(t: JoinTree, s: TreeTables, nodes: set<nat>, x: Assignment, z: Assignment, changed: set<nat>)
    requires t.WellFormed() && |s.cliques| == t.Size() && |s.separators| == |t.edges| && InTree(t, nodes)
    requires EqualBut(x, z, changed) && changed !! VariablesOf(t, nodes)
    ensures Above(t, s, nodes, x) == Above(t, s, nodes, z) && Below(t, s, nodes, x) == Below(t, s, nodes, z)
  {
    hide FactorAt, Product, Restrict, EqualBut;
    var f, g := CliqueFactors(t, s.cliques, x), CliqueFactors(t, s.cliques, z);
    forall k | 0 <= k < |f| && k in nodes
      ensures f[k] == g[k]
    {
      FactorLocal(s.cliques[k], t.cliques[k], x, z, changed);
    }
    assert Masked(f, nodes) == Masked(g, nodes);
    var f', g', inner := SeparatorFactors(t, s.separators, x), SeparatorFactors(t, s.separators, z), InnerEdges(t, nodes);
    forall e | 0 <= e < |f'| && e in inner
      ensures f'[e] == g'[e]
    {
      FactorLocal(s.separators[e], t.Separator(e), x, z, changed);
    }
    assert Masked(f', inner) == Masked(g', inner);
  }

  lemma FactorLocal(table: Table, vars: set<nat>, x: Assignment, z: Assignment, changed: set<nat>)
    requires EqualBut(x, z, changed) && changed !! vars
    ensures FactorAt(table, x, vars) == FactorAt(table, z, vars)
  {
    SameRestriction(x, z, changed, vars);
  }

  lemma OverTimes(above: real, f: real, below: real)
    ensures Over(Times(above, f), below) == Times(Over(above, below), f)
  {
  }

  lemma OverTimesBack(above: real, below: real, g: real)
    requires g == 0.0 ==> above == 0.0 || below == 0.0
    ensures Times(Over(above, Times(below, g)), g) == Over(above, below)
  {
    if below != 0.0 && g != 0.0 { assert (above / (below * g)) * g * below == above; }
  }

  /** Where the separator of an attached node is zero, so is the part it is attached to. */
  lemma ZeroInPart(t: JoinTree, card: seq<nat>, s: TreeTables, nodes: set<nat>, e: nat, leaf: nat, anchor: nat, z: Assignment)
    requires Consistent(t, card, s) && e < |t.edges| && t.Joins(e, leaf, anchor) && anchor in nodes
    requires World(z, card) && FactorAt(s.separators[e], z, t.Separator(e)) == 0.0
    ensures Above(t, s, nodes, z) == 0.0
  {
    assert CliqueOk(t, card, s.cliques, anchor) && SupportOk(t, s, e) && SeparatorOk(t, card, s.separators, e);
    WorldRestricts(z, t.cliques[anchor], card);
    RestrictTwice(z, t.cliques[anchor], t.Separator(e));
    assert FactorAt(s.cliques[anchor], z, t.cliques[anchor]) == 0.0;
    ProductZero(Masked(CliqueFactors(t, s.cliques, z), nodes), anchor);
  }

  /** What holds while a part of the tree is summed out. */
  ghost predicate Ready(t: JoinTree, card: seq<nat>, s: TreeTables, sent: set<Message>, order: seq<nat>)
  {
    && Consistent(t, card, s) && Calibrated(t, s, sent) && t.RunningIntersection() && Grown(t, sent, order)
    && InTree(t, NodesOf(order))
  }

  lemma SentEdge(t: JoinTree, card: seq<nat>, s: TreeTables, sent: set<Message>, leaf: nat, anchor: nat)
    requires Consistent(t, card, s) && Calibrated(t, s, sent) && t.Adjacent(leaf, anchor) && (leaf, anchor) in sent
    ensures leaf < t.Size() && anchor < t.Size() && t.WellFormed() && |s.cliques| == t.Size() && |s.separators| == |t.edges|
    ensures Full(s.cliques[leaf], t.cliques[leaf], card) && AllVariables(t.cliques[leaf], card)
    ensures var e := t.EdgeBetween(leaf, anchor); var separator := t.Separator(e);
      && separator == t.cliques[leaf] * t.cliques[anchor] && Full(s.separators[e], separator, card)
      && Agrees(s.separators[e], s.cliques[leaf], separator)
  {
    AdjacentBothWays(t, leaf, anchor);
    var e := t.EdgeBetween(leaf, anchor);
    hide Agrees, Full, NonNegative, Supported, AllVariables;
    assert EdgeCalibrated(t, s, sent, e, leaf, anchor);
    assert CliqueOk(t, card, s.cliques, leaf) && SeparatorOk(t, card, s.separators, e);
  }

  /** The separator of an attached node is the marginal of its table. */
  lemma LeafSum(t: JoinTree, card: seq<nat>, s: TreeTables, sent: set<Message>, leaf: nat, anchor: nat, z: Assignment)
    requires Consistent(t, card, s) && Calibrated(t, s, sent) && t.Adjacent(leaf, anchor) && (leaf, anchor) in sent
    requires World(z, card)
    ensures leaf < t.Size() && anchor < t.Size()
    ensures var e := t.EdgeBetween(leaf, anchor); var inner := t.cliques[leaf] - t.cliques[anchor];
      Total(FactorTable(s.cliques[leaf], t.cliques[leaf], card), Variations(card, z, inner))
      == FactorAt(s.separators[e], z, t.Separator(e))
  {
    SentEdge(t, card, s, sent, leaf, anchor);
    var e := t.EdgeBetween(leaf, anchor);
    var separator := t.Separator(e);
    assert AllVariables(separator, card);
    assert separator <= t.cliques[leaf];
    hide *;
    TableSum(s.cliques[leaf], t.cliques[leaf], separator, card, z);
    assert t.cliques[leaf] - separator == t.cliques[leaf] - t.cliques[anchor];
    WorldRestricts(z, separator, card);
    SeparatorAtWorld(s.separators[e], s.cliques[leaf], separator, card, Restrict(z, separator), z);
  }

  lemma SeparatorAtWorld(sep: Table, table: Table, separator: set<nat>, card: seq<nat>, b: Assignment, z: Assignment)
    requires Full(sep, separator, card) && Agrees(sep, table, separator)
    requires b == Restrict(z, separator) && Legal(b, separator, card)
    ensures SumAt(table, separator, b) == FactorAt(sep, z, separator)
  {
  }

  /** Summing out the variables that only the newest node has takes this node away. */
  lemma RemoveLeaf(t: JoinTree, card: seq<nat>, s: TreeTables, sent: set<Message>, nodes: set<nat>, leaf: nat, anchor: nat,
                   z: Assignment)
    requires Consistent(t, card, s) && Calibrated(t, s, sent) && InTree(t, nodes) && Attached(t, sent, nodes, leaf, anchor)
    requires World(z, card) && t.cliques[leaf] * VariablesOf(t, nodes) <= t.cliques[anchor]
    ensures var inner := t.cliques[leaf] - t.cliques[anchor];
      Total(PartTable(t, card, s, nodes + {leaf}), Variations(card, z, inner)) == PartWeight(t, s, nodes, z)
  {
    var inner, e := t.cliques[leaf] - t.cliques[anchor], t.EdgeBetween(leaf, anchor);
    LeafSum(t, card, s, sent, leaf, anchor, z);
    var above, below, g := Above(t, s, nodes, z), Below(t, s, nodes, z), FactorAt(s.separators[e], z, t.Separator(e));
    if g == 0.0 { ZeroInPart(t, card, s, nodes, e, leaf, anchor, z); }
    OverTimesBack(above, below, g);
    assert |s.cliques| == t.Size() && |s.separators| == |t.edges| && t.WellFormed();
    hide Consistent, Calibrated, Above, Below, FactorAt, Times, Over, Restrict, Total, World, EqualBut, Variations;
    forall x | x in Variations(card, z, inner)
      ensures PartWeight(t, s, nodes + {leaf}, x)
              == Times(Over(above, Times(below, g)), FactorAt(s.cliques[leaf], x, t.cliques[leaf]))
    {
      PartStep(t, s, sent, nodes, leaf, anchor, x);
      PartLocal(t, s, nodes, x, z, inner);
      FactorLocal(s.separators[e], t.Separator(e), x, z, inner);
      OverTimes(above, FactorAt(s.cliques[leaf], x, t.cliques[leaf]), Times(below, g));
    }
    TotalScaled(FactorTable(s.cliques[leaf], t.cliques[leaf], card), PartTable(t, card, s, nodes + {leaf}),
                Variations(card, z, inner), Over(above, Times(below, g)));
    assert PartWeight(t, s, nodes, z) == Over(above, below) by { WeightParts(t, s, nodes, z); }
  }

  lemma WeightParts(t: JoinTree, s: TreeTables, nodes: set<nat>, x: Assignment)
    requires t.WellFormed() && |s.cliques| == t.Size() && |s.separators| == |t.edges|
    ensures PartWeight(t, s, nodes, x) == Over(Above(t, s, nodes, x), Below(t, s, nodes, x))
  {
  }

  lemma OneNode(t: JoinTree, s: TreeTables, root: nat, x: Assignment)
    requires t.WellFormed() && |s.cliques| == t.Size() && |s.separators| == |t.edges| && root < t.Size()
    ensures PartWeight(t, s, {root}, x) == FactorAt(s.cliques[root], x, t.cliques[root])
  {
    hide FactorAt;
    var f, g := CliqueFactors(t, s.cliques, x), SeparatorFactors(t, s.separators, x);
    MaskedMore(f, {}, root);
    assert {} + {root} == {root};
    ProductOfOnes(Masked(f, {}));
    ProductOfOnes(Masked(g, InnerEdges(t, {root})));
  }

  lemma OnlyVariation(card: seq<nat>, y: Assignment)
    requires World(y, card)
    ensures Variations(card, y, {}) == {y}
  {
    forall x | x in Variations(card, y, {})
      ensures x == y
    {
    }
  }

  /** The variables of a part that its first node does not have. */
  ghost function Others(t: JoinTree, order: seq<nat>): set<nat>
    requires |order| >= 1 && InTree(t, NodesOf(order))
  {
    assert order[0] in order;
    VariablesOf(t, NodesOf(order)) - t.cliques[order[0]]
  }

  lemma OthersStep(t: JoinTree, sent: set<Message>, order: seq<nat>, leaf: nat, anchor: nat)
    requires t.WellFormed() && t.RunningIntersection() && Grown(t, sent, order) && InTree(t, NodesOf(order))
    requires Attached(t, sent, NodesOf(order), leaf, anchor)
    ensures InTree(t, NodesOf(order + [leaf])) && NodesOf(order + [leaf]) == NodesOf(order) + {leaf}
    ensures t.cliques[leaf] * VariablesOf(t, NodesOf(order)) <= t.cliques[anchor]
    ensures var inner := t.cliques[leaf] - t.cliques[anchor];
      Others(t, order) !! inner && Others(t, order + [leaf]) == Others(t, order) + inner
  {
    var nodes, inner := NodesOf(order), t.cliques[leaf] - t.cliques[anchor];
    hide Grown;
    forall v | v in t.cliques[leaf] && v in VariablesOf(t, nodes)
      ensures v in t.cliques[anchor]
    {
      var w :| w in nodes && v in t.cliques[w];
      SharedWithAnchor(t, sent, order, leaf, anchor, w, v);
    }
    assert order[0] in order;
    forall v
      ensures v in VariablesOf(t, nodes + {leaf}) <==> v in VariablesOf(t, nodes) || v in inner
    {
      assert leaf in nodes + {leaf} && anchor in nodes;
    }
  }

  lemma SumOutFirst(t: JoinTree, card: seq<nat>, s: TreeTables, root: nat, y: Assignment)
    requires t.WellFormed() && |s.cliques| == t.Size() && |s.separators| == |t.edges| && root < t.Size() && World(y, card)
    ensures InTree(t, NodesOf([root]))
    ensures Total(PartTable(t, card, s, NodesOf([root])), Variations(card, y, Others(t, [root])))
            == FactorAt(s.cliques[root], y, t.cliques[root])
  {
    hide World, EqualBut, FactorAt, PartWeight, Total, Variations;
    assert NodesOf([root]) == {root} && Others(t, [root]) == {};
    OneNode(t, s, root, y);
    OnlyVariation(card, y);
    TotalOfOne(PartTable(t, card, s, {root}), y);
  }

  /** Summing out all variables of a part but those of its first node leaves the table of that node. */
  lemma {:induction false} SumOut(t: JoinTree, card: seq<nat>, s: TreeTables, sent: set<Message>, order: seq<nat>,
                                  y: Assignment)
    requires Ready(t, card, s, sent, order) && World(y, card)
    ensures order[0] < t.Size() && |s.cliques| == t.Size() && |s.separators| == |t.edges| && t.WellFormed()
    ensures Total(PartTable(t, card, s, NodesOf(order)), Variations(card, y, Others(t, order)))
         == FactorAt(s.cliques[order[0]], y, t.cliques[order[0]])
    decreases |order|
  {
    var n := |order| - 1;
    hide Others, PartTable, Total, World, EqualBut, FactorAt, Calibrated, JoinTree.RunningIntersection, Variations;
    assert order[0] in order;
    if n == 0 {
      assert order == [order[0]];
      SumOutFirst(t, card, s, order[0], y);
    } else {
      var front, leaf := order[..n], order[n];
      var anchor :| Attached(t, sent, NodesOf(front), leaf, anchor);
      hide Attached;
      assert order == front + [leaf];
      assert forall k :: k in NodesOf(front) ==> k in NodesOf(order);
      SumOutStep(t, card, s, sent, front, leaf, anchor, y);
      SumOut(t, card, s, sent, front, y);
    }
  }

  lemma SumOutStep(t: JoinTree, card: seq<nat>, s: TreeTables, sent: set<Message>, order: seq<nat>, leaf: nat, anchor: nat,
                   y: Assignment)
    requires Consistent(t, card, s) && Calibrated(t, s, sent) && t.RunningIntersection() && Grown(t, sent, order)
    requires InTree(t, NodesOf(order)) && Attached(t, sent, NodesOf(order), leaf, anchor) && World(y, card)
    ensures InTree(t, NodesOf(order + [leaf]))
    ensures Total(PartTable(t, card, s, NodesOf(order + [leaf])), Variations(card, y, Others(t, order + [leaf])))
         == Total(PartTable(t, card, s, NodesOf(order)), Variations(card, y, Others(t, order)))
  {
    var nodes, inner := NodesOf(order), t.cliques[leaf] - t.cliques[anchor];
    OthersStep(t, sent, order, leaf, anchor);
    assert t.WellFormed() && |s.cliques| == t.Size() && |s.separators| == |t.edges|;
    hide Consistent, Calibrated, Total, World, EqualBut, PartWeight, Others, Grown, Attached, Variations;
    forall z | z in Variations(card, y, Others(t, order))
      ensures PartTable(t, card, s, nodes)[z] == Total(PartTable(t, card, s, nodes + {leaf}), Variations(card, z, inner))
    {
      RemoveLeaf(t, card, s, sent, nodes, leaf, anchor, z);
    }
    TotalNested(card, y, Others(t, order), inner, PartTable(t, card, s, nodes + {leaf}), PartTable(t, card, s, nodes));
  }
}
