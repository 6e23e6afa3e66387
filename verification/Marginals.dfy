/** Why no sum is ever saturated, and what the tables are in the end: marginals of the joint distribution. */
module Marginals {
  import opened Calibration
  import opened Cliques
  import opened Elimination
  import opened Growth
  import opened Initialization
  import opened JoinTrees
  import opened Messages
  import opened Propagation
  import opened ProperNetworks
  import opened Schedules
  import opened Tables
  import opened Totals

  /** No message has left or entered a part of the tree. */
  ghost predicate Uncrossed(sent: set<Message>, nodes: set<nat>)
  {
    forall i: nat, j: nat :: (i, j) in sent ==> (i in nodes <==> j in nodes)
  }

  /** Parts of the tree that no message has left or entered weigh as much as in the beginning. */
  ghost predicate PartsKept(t: JoinTree, card: seq<nat>, start: TreeTables, s: TreeTables, sent: set<Message>)
    requires Consistent(t, card, start) && Consistent(t, card, s)
  {
    forall nodes, x :: World(x, card) && Uncrossed(sent, nodes) ==> PartWeight(t, s, nodes, x) == PartWeight(t, start, nodes, x)
  }

  lemma MessageKeepsParts(t: JoinTree, card: seq<nat>, start: TreeTables, s: TreeTables, sent: set<Message>,
                          e: nat, from: nat, to: nat)
    requires Consistent(t, card, start) && Consistent(t, card, s) && PartsKept(t, card, start, s, sent)
    requires e < |t.edges| && t.Joins(e, from, to)
    ensures Consistent(t, card, AfterMessage(t, card, s, e, from, to))
    ensures PartsKept(t, card, start, AfterMessage(t, card, s, e, from, to), sent + {(from, to)})
  {
    MessageKeepsConsistent(t, card, s, e, from, to);
    assert |s.cliques| == t.Size() && |s.separators| == |t.edges| && t.WellFormed();
    hide AfterMessage, PartWeight, World, Consistent;
    forall nodes, x | World(x, card) && Uncrossed(sent + {(from, to)}, nodes)
      ensures PartWeight(t, AfterMessage(t, card, s, e, from, to), nodes, x) == PartWeight(t, start, nodes, x)
    {
      assert (from, to) in sent + {(from, to)};
      assert Uncrossed(sent, nodes);
      MessageKeepsPart(t, card, s, e, from, to, nodes, x);
    }
  }

  ghost predicate AllPositive(card: seq<nat>)
  {
    forall v :: 0 <= v < |card| ==> card[v] > 0
  }

  /** The part that a sender has heard from, and itself. */
  lemma HeardPart(t: JoinTree, card: seq<nat>, parent: seq<nat>, depth: seq<nat>, s: TreeTables, sent: set<Message>,
                  from: nat, to: nat)
    returns (order: seq<nat>)
    requires Consistent(t, card, s) && Calibrated(t, s, sent) && t.RunningIntersection() && Rooted(t, parent, depth)
    requires Fair(t, sent) && t.Adjacent(from, to) && (from, to) !in sent && HeardFromOthers(t, sent, from, to)
    ensures Ready(t, card, s, sent, order) && order[0] == from && Uncrossed(sent, NodesOf(order))
    ensures from < t.Size() && to < t.Size() && InTree(t, NodesOf(order))
    ensures Enclosed(t, NodesOf(order), VariablesOf(t, NodesOf(order)) - t.cliques[from] * t.cliques[to])
  {
    AdjacentBothWays(t, from, to);
    order := GrowFrom(t, parent, depth, sent, from);
    hide Consistent, Calibrated, JoinTree.RunningIntersection, Rooted, Grown, JoinTree.WellFormed;
    forall k | k in NodesOf(order)
      ensures k < t.Size()
    {
      InRange(t, sent, order, k);
    }
    forall i: nat, j: nat | (i, j) in sent
      ensures i in NodesOf(order) <==> j in NodesOf(order)
    {
      if i in order && j !in order { WayOut(t, sent, order, to, i, j); }
    }
    var vars := VariablesOf(t, NodesOf(order)) - t.cliques[from] * t.cliques[to];
    forall v, k: nat | v in vars && k < t.Size() && v in t.cliques[k]
      ensures k in NodesOf(order)
    {
      if k !in order {
        var w :| w in NodesOf(order) && v in t.cliques[w];
        SharedOverWayOut(t, parent, depth, sent, order, to, w, k, v);
      }
    }
  }

  lemma SomeWorld(b: Assignment, vars: set<nat>, card: seq<nat>) returns (y: Assignment)
    requires Legal(b, vars, card) && AllPositive(card)
    ensures World(y, card) && Restrict(y, vars) == b
  {
    assert vars <= Variables(|card|);
    y := ExtendLegal(b, Variables(|card|), vars, card);
  }

  /** The marginal of the table of a part's first node is a sum of weights of the part. */
  ghost predicate SumsUp(t: JoinTree, card: seq<nat>, s: TreeTables, order: seq<nat>, separator: set<nat>, y: Assignment)
    requires t.WellFormed() && |s.cliques| == t.Size() && |s.separators| == |t.edges|
    requires |order| >= 1 && order[0] < t.Size() && InTree(t, NodesOf(order))
  {
    SumAt(s.cliques[order[0]], separator, Restrict(y, separator))
    == Total(PartTable(t, card, s, NodesOf(order)), Variations(card, y, VariablesOf(t, NodesOf(order)) - separator))
  }

  lemma PartVariables(t: JoinTree, order: seq<nat>, separator: set<nat>)
    requires |order| >= 1 && InTree(t, NodesOf(order))
    ensures order[0] < t.Size()
    ensures separator <= t.cliques[order[0]] ==>
              var outer, inner := t.cliques[order[0]] - separator, Others(t, order);
              outer !! inner && outer + inner == VariablesOf(t, NodesOf(order)) - separator
  {
    assert order[0] in NodesOf(order);
    assert forall v :: v in t.cliques[order[0]] ==> v in VariablesOf(t, NodesOf(order));
  }

  lemma MarginalOfPart(t: JoinTree, card: seq<nat>, s: TreeTables, sent: set<Message>, order: seq<nat>,
                       separator: set<nat>, y: Assignment)
    requires t.WellFormed() && |s.cliques| == t.Size() && |s.separators| == |t.edges|
    requires |order| >= 1 && order[0] < t.Size() && InTree(t, NodesOf(order))
    requires separator <= t.cliques[order[0]] && World(y, card)
    requires Ready(t, card, s, sent, order)
    ensures SumsUp(t, card, s, order, separator, y)
  {
    var root := order[0];
    var outer, inner := t.cliques[root] - separator, Others(t, order);
    assert CliqueOk(t, card, s.cliques, root);
    PartVariables(t, order, separator);
    hide Others, Total, World, EqualBut, Variations, FactorAt;
    hide PartWeight, Full, AllVariables, NonNegative, Ready, Restrict;
    hide NodesOf, VariablesOf, SumAt, JoinTree.WellFormed, InTree, PartTable, FactorTable, Worlds;
    var f, g := PartTable(t, card, s, NodesOf(order)), FactorTable(s.cliques[root], t.cliques[root], card);
    TableSum(s.cliques[root], t.cliques[root], separator, card, y);
    forall z | z in Variations(card, y, outer)
      ensures g[z] == Total(f, Variations(card, z, inner))
    {
      SumOut(t, card, s, sent, order, z);
      FactorTableAt(s.cliques[root], t.cliques[root], card, z);
    }
    TotalNested(card, y, outer, inner, f, g);
  }

  lemma FactorTableAt(table: Table, vars: set<nat>, card: seq<nat>, x: Assignment)
    requires World(x, card)
    ensures x in FactorTable(table, vars, card) && FactorTable(table, vars, card)[x] == FactorAt(table, x, vars)
  {
  }

  lemma SameTotal(t: JoinTree, card: seq<nat>, start: TreeTables, s: TreeTables, sent: set<Message>, nodes: set<nat>,
                  vars: set<nat>, y: Assignment)
    requires Consistent(t, card, start) && Consistent(t, card, s) && PartsKept(t, card, start, s, sent)
    requires Uncrossed(sent, nodes)
    ensures t.WellFormed() && |s.cliques| == |start.cliques| == t.Size() && |s.separators| == |start.separators| == |t.edges|
    ensures Total(PartTable(t, card, s, nodes), Variations(card, y, vars))
            == Total(PartTable(t, card, start, nodes), Variations(card, y, vars))
  {
    assert t.WellFormed() && |s.cliques| == t.Size() && |s.separators| == |t.edges|;
    hide Consistent, World, Total, EqualBut, PartWeight, Uncrossed;
    TotalSame(PartTable(t, card, s, nodes), PartTable(t, card, start, nodes), Variations(card, y, vars));
  }

  lemma MarginalKeys(t: JoinTree, card: seq<nat>, s: TreeTables, e: nat, from: nat, to: nat, b: Assignment)
    requires Consistent(t, card, s) && e < |t.edges| && t.Joins(e, from, to)
    ensures from < t.Size() && to < t.Size() && t.Separator(e) == t.cliques[from] * t.cliques[to]
    ensures b in Marginal(s.cliques[from], t.Separator(e)) ==> Legal(b, t.Separator(e), card)
  {
    assert CliqueOk(t, card, s.cliques, from);
    NewSeparator(s.cliques[from], t.cliques[from], t.Separator(e), card);
  }

  lemma VariablesInRange(t: JoinTree, card: seq<nat>, s: TreeTables, nodes: set<nat>)
    requires Consistent(t, card, s) && InTree(t, nodes)
    ensures forall v :: v in VariablesOf(t, nodes) ==> v < |card|
  {
    forall k | k in nodes
      ensures AllVariables(t.cliques[k], card)
    {
      assert CliqueOk(t, card, s.cliques, k);
    }
  }

  /** In light tables the next message saturates no sum. */
  lemma NextIsExact(t: JoinTree, card: seq<nat>, parent: seq<nat>, depth: seq<nat>, start: TreeTables, s: TreeTables,
                    sent: set<Message>, e: nat, from: nat, to: nat)
    requires Consistent(t, card, start) && Consistent(t, card, s) && PartsKept(t, card, start, s, sent)
    requires Calibrated(t, s, sent) && t.RunningIntersection() && Rooted(t, parent, depth) && AllPositive(card)
    requires Fair(t, sent) && (from, to) !in sent && HeardFromOthers(t, sent, from, to)
    requires e < |t.edges| && t.Joins(e, from, to) && Light(t, card, start)
    ensures from < t.Size() && Exact(s.cliques[from], t.Separator(e))
  {
    assert t.Adjacent(from, to);
    var order := HeardPart(t, card, parent, depth, s, sent, from, to);
    var separator := t.Separator(e);
    var nodes := NodesOf(order);
    var vars := VariablesOf(t, nodes) - separator;
    assert |order| >= 1;
    MarginalKeys(t, card, s, e, from, to, map[]);
    VariablesInRange(t, card, s, nodes);
    hide Consistent, PartsKept, Calibrated, JoinTree.RunningIntersection, Rooted;
    hide Fair, HeardFromOthers, Legal, World, Ready;
    hide Total, Marginal, SumAt, AllPositive, Enclosed, InTree, Restrict, Variations, NodesOf, VariablesOf;
    forall b | b in Marginal(s.cliques[from], separator)
      ensures SumAt(s.cliques[from], separator, b) <= 1.0
    {
      MarginalKeys(t, card, s, e, from, to, b);
      var y := SomeWorld(b, separator, card);
      MarginalOfPart(t, card, s, sent, order, separator, y);
      SameTotal(t, card, start, s, sent, nodes, vars, y);
      assert Total(PartTable(t, card, start, nodes), Variations(card, y, vars)) <= 1.0;
    }
  }

  /** After all messages everything has been heard from. */
  lemma AllHeard(t: JoinTree, parent: seq<nat>, depth: seq<nat>, order: seq<nat>)
    requires t.WellFormed() && Rooted(t, parent, depth) && |order| >= 1 && order[0] < t.Size()
    requires InTree(t, NodesOf(order)) && Closed(AllMessages(t), NodesOf(order))
    ensures NodesOf(order) == AllNodes(t)
  {
    var k := order[0];
    assert k in NodesOf(order);
    forall d: nat | d < t.Size()
      ensures d in NodesOf(order)
    {
      if d !in NodesOf(order) {
        var nodes := Path(t, parent, depth, k, d);
        PathSimple(t, parent, depth, k, d);
        var i := LeavesPart(nodes, NodesOf(order));
        AdjacentBothWays(t, nodes[i], nodes[i + 1]);
      }
    }
  }

  /** After all messages the table of every clique is the marginal of the weights of all full assignments. */
  lemma FinalTable(t: JoinTree, card: seq<nat>, parent: seq<nat>, depth: seq<nat>, s: TreeTables, k: nat, y: Assignment)
    requires Consistent(t, card, s) && Calibrated(t, s, AllMessages(t)) && t.RunningIntersection() && Rooted(t, parent, depth)
    requires k < t.Size() && World(y, card)
    ensures FactorAt(s.cliques[k], y, t.cliques[k])
            == Total(PartTable(t, card, s, AllNodes(t)), Variations(card, y, VariablesOf(t, AllNodes(t)) - t.cliques[k]))
  {
    forall i: nat, j: nat | (i, j) in AllMessages(t)
      ensures t.Adjacent(i, j)
    {
    }
    hide Consistent, Calibrated, JoinTree.RunningIntersection, Rooted, World;
    hide Total, Variations, FactorAt, AllMessages, PartTable;
    var order := GrowFrom(t, parent, depth, AllMessages(t), k);
    forall i | i in NodesOf(order)
      ensures i < t.Size()
    {
      InRange(t, AllMessages(t), order, i);
    }
    AllHeard(t, parent, depth, order);
    SumOut(t, card, s, AllMessages(t), order, y);
  }

  /** The weights of all full assignments in the network. */
  ghost function WeightTable(bn: Network): (table: Table)
    requires bn.WellFormed()
    ensures table.Keys == Worlds(bn.card)
  {
    map x | x in Worlds(bn.card) :: NetworkWeight(bn, x)
  }

  /** All full assignments that agree with b. */
  ghost function AgreeingWorlds(card: seq<nat>, b: Assignment): (s: set<Assignment>)
    ensures forall x :: x in s <==> World(x, card) && Restrict(x, b.Keys) == b
  {
    set x | x in Worlds(card) && Restrict(x, b.Keys) == b
  }

  /** The probability of b together with the evidence: the sum of the weights of all full assignments that agree with b. */
  ghost function MarginalWeight(bn: Network, b: Assignment): real
    requires bn.WellFormed()
  {
    Total(WeightTable(bn), AgreeingWorlds(bn.card, b))
  }

  lemma AgreeingVary(card: seq<nat>, y: Assignment, vars: set<nat>)
    requires World(y, card) && vars <= Variables(|card|)
    ensures Variations(card, y, Variables(|card|) - vars) == AgreeingWorlds(card, Restrict(y, vars))
  {
    hide Variables;
    forall x
      ensures x in Variations(card, y, Variables(|card|) - vars) <==> x in AgreeingWorlds(card, Restrict(y, vars))
    {
      if World(x, card) {
        assert Restrict(y, vars).Keys == vars;
        if Restrict(x, vars) == Restrict(y, vars) {
          forall v | v in x && v in vars
            ensures x[v] == y[v]
          {
            assert Restrict(x, vars)[v] == Restrict(y, vars)[v];
          }
        }
      }
    }
  }

  lemma CoveredVariables(bn: Network, t: JoinTree)
    requires bn.WellFormed() && CliquesInNetwork(bn, t) && CoversFamilies(bn, t)
    ensures InTree(t, AllNodes(t)) && VariablesOf(t, AllNodes(t)) == Variables(|bn.card|)
  {
    forall v: nat
      ensures v in VariablesOf(t, AllNodes(t)) <==> v < |bn.card|
    {
      if v < |bn.card| {
        var k :| 0 <= k < t.Size() && bn.Family(v) <= t.cliques[k];
        assert v in bn.Family(v) && k in AllNodes(t);
      }
      if v in VariablesOf(t, AllNodes(t)) {
        var k :| k in AllNodes(t) && v in t.cliques[k];
        assert AllVariables(t.cliques[k], bn.card);
      }
    }
  }

  /** The tables weigh full assignments like the network. */
  ghost predicate WeighsLike(bn: Network, t: JoinTree, s: TreeTables)
    requires bn.WellFormed() && Consistent(t, bn.card, s)
  {
    forall x :: World(x, bn.card) ==> Joint(t, s, x) == NetworkWeight(bn, x)
  }

  lemma WholeTable(bn: Network, t: JoinTree, s: TreeTables)
    requires bn.WellFormed() && Consistent(t, bn.card, s) && WeighsLike(bn, t, s)
    ensures |s.cliques| == t.Size() && |s.separators| == |t.edges| && t.WellFormed()
    ensures PartTable(t, bn.card, s, AllNodes(t)) == WeightTable(bn)
  {
    assert |s.cliques| == t.Size() && |s.separators| == |t.edges| && t.WellFormed();
    hide Consistent, World, PartWeight, Joint, NetworkWeight;
    forall x | World(x, bn.card)
      ensures PartWeight(t, s, AllNodes(t), x) == NetworkWeight(bn, x)
    {
      WholeWeight(t, s, x);
    }
  }

  /** In the end every entry of a clique is the probability of its assignment together with the evidence. */
  ghost predicate TablesAreMarginals(bn: Network, t: JoinTree, s: TreeTables)
    requires bn.WellFormed()
  {
    && |s.cliques| == t.Size()
    && forall k, b :: 0 <= k < t.Size() && b in s.cliques[k] ==> s.cliques[k][b] == MarginalWeight(bn, b)
  }

  lemma EntryIsMarginal(bn: Network, t: JoinTree, parent: seq<nat>, depth: seq<nat>, s: TreeTables, k: nat, b: Assignment)
    requires bn.WellFormed() && CliquesInNetwork(bn, t) && CoversFamilies(bn, t) && Rooted(t, parent, depth)
    requires Consistent(t, bn.card, s) && Calibrated(t, s, AllMessages(t)) && t.RunningIntersection() && WeighsLike(bn, t, s)
    requires k < t.Size() && b in s.cliques[k]
    ensures s.cliques[k][b] == MarginalWeight(bn, b)
  {
    assert CliqueOk(t, bn.card, s.cliques, k);
    assert Legal(b, t.cliques[k], bn.card);
    var y := SomeWorld(b, t.cliques[k], bn.card);
    hide Consistent, Calibrated, JoinTree.RunningIntersection, Rooted, World;
    hide Total, WeighsLike, CliquesInNetwork, CoversFamilies;
    hide WeightTable, Restrict, Legal, Full, Network.WellFormed, PartTable, AgreeingWorlds, Variations, VariablesOf;
    FinalTable(t, bn.card, parent, depth, s, k, y);
    CoveredVariables(bn, t);
    WholeTable(bn, t, s);
    assert t.cliques[k] <= Variables(|bn.card|);
    AgreeingVary(bn.card, y, t.cliques[k]);
  }

  /** Full propagation leaves marginals. */
  lemma FinalTables(bn: Network, t: JoinTree, parent: seq<nat>, depth: seq<nat>, s: TreeTables)
    requires bn.WellFormed() && CliquesInNetwork(bn, t) && CoversFamilies(bn, t) && Rooted(t, parent, depth)
    requires Consistent(t, bn.card, s) && Calibrated(t, s, AllMessages(t)) && t.RunningIntersection() && WeighsLike(bn, t, s)
    ensures TablesAreMarginals(bn, t, s)
  {
    hide CliquesInNetwork, CoversFamilies, Rooted, Calibrated;
    hide JoinTree.RunningIntersection, WeighsLike, Network.WellFormed;
    assert |s.cliques| == t.Size();
    forall k, b | 0 <= k < t.Size() && b in s.cliques[k]
      ensures s.cliques[k][b] == MarginalWeight(bn, b)
    {
      EntryIsMarginal(bn, t, parent, depth, s, k, b);
    }
  }
}
