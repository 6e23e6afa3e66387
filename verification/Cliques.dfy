/** The initial tables of the cliques: evidence and conditional probabilities. */
module Cliques {
  import opened JoinTrees
  import opened Messages
  import opened Odometers
  import opened Propagation
  import opened Tables

  datatype Option<T> = None | Some(value: T)

  /**
   A node of a bayesian network: its parents, its conditional probability table as a function of its value and
   its parents' values, and its value if it is evidence. The number of values is kept apart, in card.
   */
  datatype Node = Node(parents: seq<nat>, cpt: (nat, Assignment) -> real, evidence: Option<nat>)

  datatype Network = Network(nodes: seq<Node>, card: seq<nat>) {
    ghost predicate WellFormed()
    {
      && |nodes| == |card| && (forall v :: 0 <= v < |card| ==> card[v] > 0)
      && (forall v, j :: 0 <= v < |nodes| && 0 <= j < |nodes[v].parents| ==> nodes[v].parents[j] < |nodes|)
      && (forall v, k, a :: 0 <= v < |nodes| ==> nodes[v].cpt(k, a) >= 0.0)
    }

    /** A node and its parents. */
    function Family(v: nat): (s: set<nat>)
      requires v < |nodes|
    {
      {v} + ParentSet(v)
    }

    function ParentSet(v: nat): (s: set<nat>)
      requires v < |nodes|
    {
      set j | 0 <= j < |nodes[v].parents| :: nodes[v].parents[j]
    }

    /** The conditional probability of a node's value given its parents' values. */
    function Probability(v: nat, a: Assignment): real
      requires v < |nodes| && Family(v) <= a.Keys
    {
      nodes[v].cpt(a[v], Restrict(a, ParentSet(v)))
    }

    /** The assignment does not contradict the evidence about one node. */
    predicate Agrees(v: nat, a: Assignment)
      requires v < |nodes| && v in a
    {
      nodes[v].evidence.None? || a[v] == nodes[v].evidence.value
    }
  }

  /** Whether the clique has all parents of a node. */
  method ContainsAllParents(clique: set<nat>, bn: Network, v: nat) returns (all: bool)
    requires v < |bn.nodes|
    ensures all == (bn.ParentSet(v) <= clique)
  {
    var parents := bn.nodes[v].parents;
    var i := 0;
    while i < |parents|
      invariant 0 <= i <= |parents|
      invariant forall j :: 0 <= j < i ==> parents[j] in clique
    {
      if parents[i] !in clique {
        assert parents[i] in bn.ParentSet(v);
        return false;
      }
      i := i + 1;
    }
    return true;
  }

  /** The values of a node's parents. */
  method ParentValues(bn: Network, v: nat, value: Assignment) returns (values: Assignment)
    requires v < |bn.nodes| && bn.ParentSet(v) <= value.Keys
    ensures values == Restrict(value, bn.ParentSet(v))
  {
    var parents := bn.nodes[v].parents;
    values := map[];
    var j := 0;
    while j < |parents|
      invariant 0 <= j <= |parents|
      invariant forall p :: p in values <==> p in parents[..j]
      invariant forall p :: p in values ==> p in value && values[p] == value[p]
    {
      var pidx := parents[j];
      assert pidx in bn.ParentSet(v);
      values := values[pidx := value[pidx]];
      j := j + 1;
    }
    assert parents[..j] == parents;
  }

  /** One if the first k nodes of the clique agree with the evidence, else zero. */
  function EvidenceFactor(bn: Network, keys: seq<nat>, a: Assignment): real
    requires forall i :: 0 <= i < |keys| ==> keys[i] < |bn.nodes| && keys[i] in a
  {
    if |keys| == 0 then 1.0
    else if bn.Agrees(keys[|keys| - 1], a) then EvidenceFactor(bn, keys[..|keys| - 1], a)
    else 0.0
  }

  /** An entry after the tables of those of the keys that are the clique's own have been multiplied in. */
  function Entry(bn: Network, evidence: real, keys: seq<nat>, own: set<nat>, a: Assignment): real
    requires forall i :: 0 <= i < |keys| ==> keys[i] < |bn.nodes| && (keys[i] in own ==> bn.Family(keys[i]) <= a.Keys)
  {
    if |keys| == 0 then evidence
    else
      var last := keys[|keys| - 1];
      var before := Entry(bn, evidence, keys[..|keys| - 1], own, a);
      if last in own then Times(before, bn.Probability(last, a)) else before
  }

  /** The nodes whose tables a clique takes on: its families that no clique before it has taken on. */
  function OwnNodes(bn: Network, clique: set<nat>, assignedTo: seq<nat>, unassigned: nat): set<nat>
    requires |assignedTo| == |bn.nodes|
  {
    set v | v in clique && v < |bn.nodes| && bn.ParentSet(v) <= clique && assignedTo[v] == unassigned
  }

  /** Some nodes have been assigned to clique i; nothing else has changed. */
  ghost predicate Tracks(before: seq<nat>, assignedTo: seq<nat>, own: set<nat>, i: nat)
  {
    && |assignedTo| == |before|
    && forall v :: 0 <= v < |before| ==> assignedTo[v] == before[v] || (v in own && assignedTo[v] == i)
  }

  ghost predicate AllTracked(before: seq<nat>, assignedTo: seq<nat>, own: set<nat>, i: nat)
  {
    && |assignedTo| == |before|
    && forall v :: 0 <= v < |before| ==> assignedTo[v] == if v in own then i else before[v]
  }

  /** The nodes of a clique belong to the network, and the assignment covers them. */
  ghost predicate CliqueOf(bn: Network, clique: set<nat>, keys: seq<nat>, a: Assignment)
  {
    keys == Sorted(clique) && a.Keys == clique && forall v :: v in clique ==> v < |bn.nodes|
  }

  /** The keys are nodes of the clique, and the families of the clique's own nodes lie in it. */
  ghost predicate Covers(bn: Network, clique: set<nat>, keys: seq<nat>, own: set<nat>)
  {
    forall i :: 0 <= i < |keys| ==>
      keys[i] < |bn.nodes| && keys[i] in clique && (keys[i] in own ==> bn.Family(keys[i]) <= clique)
  }

  lemma CliqueCovers(bn: Network, clique: set<nat>, keys: seq<nat>, a: Assignment, before: seq<nat>, n: nat)
    requires CliqueOf(bn, clique, keys, a) && |before| == |bn.nodes|
    ensures Covers(bn, clique, keys, OwnNodes(bn, clique, before, n))
  {
    forall i | 0 <= i < |keys|
      ensures keys[i] in clique
    {
      assert keys[i] in keys;
    }
  }

  /** Accounts for evidence in the entry of one assignment. */
  method SetEvidence(bn: Network, keys: seq<nat>, containsEvidence: bool, value: Assignment, table: Table)
    returns (t: Table)
    requires forall i :: 0 <= i < |keys| ==> keys[i] < |bn.nodes| && keys[i] in value
    requires !containsEvidence ==> forall i :: 0 <= i < |keys| ==> bn.nodes[keys[i]].evidence.None?
    ensures t == table[value := EvidenceFactor(bn, keys, value)]
    ensures t[value] == if forall i :: 0 <= i < |keys| && bn.nodes[keys[i]].evidence.Some? ==>
                             value[keys[i]] == bn.nodes[keys[i]].evidence.value
                        then 1.0 else 0.0
  {
    EvidenceSays(bn, keys, value);
    t := table[value := 1.0];
    if containsEvidence {
      var j := 0;
      while j < |keys|
        invariant 0 <= j <= |keys|
        invariant t == table[value := EvidenceFactor(bn, keys[..j], value)]
      {
        assert keys[..j + 1][..j] == keys[..j];
        if bn.nodes[keys[j]].evidence.Some? {
          var evidenceValue := bn.nodes[keys[j]].evidence.value;
          if value[keys[j]] != evidenceValue {
            t := t[value := 0.0];
          }
        }
        j := j + 1;
      }
      assert keys[..j] == keys;
    } else {
      NoEvidence(bn, keys, value);
    }
  }

  /** An entry starts as zero exactly if it gives some node another value than the known one. */
  lemma {:induction false} EvidenceSays(bn: Network, keys: seq<nat>, a: Assignment)
    requires forall i :: 0 <= i < |keys| ==> keys[i] < |bn.nodes| && keys[i] in a
    ensures EvidenceFactor(bn, keys, a)
            == if forall i :: 0 <= i < |keys| && bn.nodes[keys[i]].evidence.Some? ==>
                 a[keys[i]] == bn.nodes[keys[i]].evidence.value
               then 1.0 else 0.0
  {
    if |keys| > 0 { EvidenceSays(bn, keys[..|keys| - 1], a); }
  }

  lemma {:induction false} NoEvidence(bn: Network, keys: seq<nat>, a: Assignment)
    requires forall i :: 0 <= i < |keys| ==> keys[i] < |bn.nodes| && keys[i] in a && bn.nodes[keys[i]].evidence.None?
    ensures EvidenceFactor(bn, keys, a) == 1.0
  {
    if |keys| > 0 { NoEvidence(bn, keys[..|keys| - 1], a); }
  }

  /** Multiplies the table of one node into an entry if the clique has its family and no other clique has taken it on. */
  method MultiplyTable(bn: Network, clique: set<nat>, idx: nat, i: nat, n: nat, value: Assignment,
                       table: Table, soFar: seq<nat>, ghost before: seq<nat>, ghost own: set<nat>)
    returns (t: Table, assignedTo: seq<nat>)
    requires idx < |bn.nodes| && idx in clique && value.Keys == clique && value in table && i != n && i !in before
    requires |before| == |bn.nodes| && own == OwnNodes(bn, clique, before, n) && Tracks(before, soFar, own, i)
    ensures idx in own ==> bn.Family(idx) <= clique
    ensures t == if idx in own then table[value := Times(table[value], bn.Probability(idx, value))] else table
    ensures assignedTo == if idx in own then soFar[idx := i] else soFar
  {
    t, assignedTo := table, soFar;
    var all := ContainsAllParents(clique, bn, idx);
    assert idx in own <==> all && before[idx] == n;
    assert before[idx] in before;
    if all && (i == assignedTo[idx] || assignedTo[idx] == n) {
      assignedTo := assignedTo[idx := i];
      var parentValues := ParentValues(bn, idx, value);
      var temp := t[value];
      t := t[value := Times(temp, bn.nodes[idx].cpt(value[idx], parentValues))];
    }
  }

  lemma EntryStep(bn: Network, clique: set<nat>, keys: seq<nat>, own: set<nat>, k: nat, evidence: real, a: Assignment)
    requires Covers(bn, clique, keys, own) && a.Keys == clique && k < |keys|
    ensures var before := Entry(bn, evidence, keys[..k], own, a);
      Entry(bn, evidence, keys[..k + 1], own, a)
      == if keys[k] in own then Times(before, bn.Probability(keys[k], a)) else before
  {
    assert keys[..k + 1][..k] == keys[..k];
  }

  /** Multiplies the tables of the clique's own nodes into the entry of one assignment. */
  method MultiplyTables(bn: Network, clique: set<nat>, keys: seq<nat>, i: nat, n: nat, value: Assignment,
                        table: Table, soFar: seq<nat>, ghost before: seq<nat>, ghost own: set<nat>)
    returns (t: Table, assignedTo: seq<nat>)
    requires CliqueOf(bn, clique, keys, value) && value in table && |before| == |bn.nodes| && i != n
    requires own == OwnNodes(bn, clique, before, n) && Tracks(before, soFar, own, i) && i !in before
    requires Covers(bn, clique, keys, own)
    ensures t == table[value := Entry(bn, table[value], keys, own, value)]
    ensures AllTracked(before, assignedTo, own, i)
  {
    hide Sorted, Times, OwnNodes, Entry, Marked, Tracks, AllTracked;
    t, assignedTo := table, soFar;
    ghost var p := table[value];
    assert p == Entry(bn, p, [], own, value) && soFar == Marked(soFar, [], own, i) by { NothingYet(bn, p, soFar, own, i, value); }
    var k := 0;
    while k < |keys|
      invariant 0 <= k <= |keys| && |assignedTo| == |soFar|
      invariant t == table[value := p] && p == Entry(bn, table[value], keys[..k], own, value)
      invariant assignedTo == Marked(soFar, keys[..k], own, i)
    {
      EntryStep(bn, clique, keys, own, k, table[value], value);
      MarkedTracks(before, soFar, keys[..k], own, i);
      MarkedStep(soFar, keys, own, i, k);
      t, assignedTo := MultiplyTable(bn, clique, keys[k], i, n, value, t, assignedTo, before, own);
      p := if keys[k] in own then Times(p, bn.Probability(keys[k], value)) else p;
      k := k + 1;
    }
    assert keys[..k] == keys;
    MarkedAll(before, soFar, keys, own, i, clique, bn, n);
  }

  /** The assignment of nodes to cliques after those of the keys that are the clique's own have been marked. */
  ghost function Marked(soFar: seq<nat>, keys: seq<nat>, own: set<nat>, i: nat): (m: seq<nat>)
    ensures |m| == |soFar|
  {
    if |keys| == 0 then soFar
    else
      var last, m := keys[|keys| - 1], Marked(soFar, keys[..|keys| - 1], own, i);
      if last in own && last < |m| then m[last := i] else m
  }

  lemma NothingYet(bn: Network, p: real, soFar: seq<nat>, own: set<nat>, i: nat, a: Assignment)
    ensures p == Entry(bn, p, [], own, a) && soFar == Marked(soFar, [], own, i)
  {
  }

  lemma MarkedStep(soFar: seq<nat>, keys: seq<nat>, own: set<nat>, i: nat, k: nat)
    requires k < |keys| && keys[k] < |soFar|
    ensures var m := Marked(soFar, keys[..k], own, i);
      Marked(soFar, keys[..k + 1], own, i) == if keys[k] in own then m[keys[k] := i] else m
  {
    assert keys[..k + 1][..k] == keys[..k];
  }

  lemma {:induction false} MarkedTracks(before: seq<nat>, soFar: seq<nat>, keys: seq<nat>, own: set<nat>, i: nat)
    requires Tracks(before, soFar, own, i)
    ensures Tracks(before, Marked(soFar, keys, own, i), own, i)
    ensures forall v :: 0 <= v < |before| && v in keys && v in own ==> Marked(soFar, keys, own, i)[v] == i
  {
    if |keys| > 0 {
      MarkedTracks(before, soFar, keys[..|keys| - 1], own, i);
      assert keys == keys[..|keys| - 1] + [keys[|keys| - 1]];
    }
  }

  lemma MarkedAll(before: seq<nat>, soFar: seq<nat>, keys: seq<nat>, own: set<nat>, i: nat, clique: set<nat>,
                  bn: Network, n: nat)
    requires Tracks(before, soFar, own, i) && |before| == |bn.nodes| && keys == Sorted(clique)
    requires own == OwnNodes(bn, clique, before, n)
    ensures AllTracked(before, Marked(soFar, keys, own, i), own, i)
  {
    MarkedTracks(before, soFar, keys, own, i);
  }

  /** The initial entry of a clique: the evidence and the tables of the clique's own nodes. */
  function InitialEntry(bn: Network, clique: set<nat>, own: set<nat>, a: Assignment): real
    requires CliqueOf(bn, clique, Sorted(clique), a) && Covers(bn, clique, Sorted(clique), own)
  {
    var keys := Sorted(clique);
    assert forall i :: 0 <= i < |keys| ==> keys[i] in keys;
    Entry(bn, EvidenceFactor(bn, keys, a), keys, own, a)
  }

  lemma LegalCounts(a: Assignment, clique: set<nat>, card: seq<nat>)
    requires Legal(a, clique, card)
    ensures Counts(Sorted(clique), card, a)
  {
    var keys := Sorted(clique);
    assert forall i :: 0 <= i < |keys| ==> keys[i] in keys;
  }

  ghost function AssignmentCount(clique: set<nat>, card: seq<nat>): nat
    requires AllVariables(clique, card)
  {
    Combinations(Sorted(clique), card)
  }

  /** When an assignment comes up. */
  ghost function RankOf(a: Assignment, clique: set<nat>, card: seq<nat>): nat
    requires Legal(a, clique, card)
  {
    LegalCounts(a, clique, card);
    Rank(Sorted(clique), card, a)
  }

  lemma RankOfInjective(a: Assignment, b: Assignment, clique: set<nat>, card: seq<nat>)
    requires Legal(a, clique, card) && Legal(b, clique, card) && RankOf(a, clique, card) == RankOf(b, clique, card)
    ensures a == b
  {
    var keys := Sorted(clique);
    LegalCounts(a, clique, card);
    LegalCounts(b, clique, card);
    RankInjective(keys, card, a, b);
    assert forall v :: v in clique ==> v in keys;
  }

  /** The assignment comes up among the first ones. */
  ghost predicate Among(a: Assignment, clique: set<nat>, card: seq<nat>, bound: nat)
  {
    Legal(a, clique, card) && RankOf(a, clique, card) < bound
  }

  ghost predicate RightEntry(bn: Network, clique: set<nat>, own: set<nat>, table: Table, a: Assignment)
    requires a in table
  {
    && CliqueOf(bn, clique, Sorted(clique), a) && Covers(bn, clique, Sorted(clique), own)
    && table[a] == InitialEntry(bn, clique, own, a)
  }

  /** The first assignments have their entries. */
  ghost predicate Filled(bn: Network, clique: set<nat>, own: set<nat>, table: Table, bound: nat)
  {
    && (forall a :: a in table <==> Among(a, clique, bn.card, bound))
    && (forall a :: a in table ==> RightEntry(bn, clique, own, table, a))
  }

  /** The odometer has reached a new assignment: it was not among the first ones, and now it is. */
  lemma AmongStep(a: Assignment, value: Assignment, clique: set<nat>, card: seq<nat>)
    requires Legal(value, clique, card)
    ensures var bound := RankOf(value, clique, card);
      && (Among(a, clique, card, bound + 1) <==> a == value || Among(a, clique, card, bound))
      && !Among(value, clique, card, bound)
  {
    hide Legal, RankOf;
    if Legal(a, clique, card) && RankOf(a, clique, card) == RankOf(value, clique, card) {
      RankOfInjective(a, value, clique, card);
    }
  }

  lemma FilledStep(bn: Network, clique: set<nat>, own: set<nat>, table: Table, value: Assignment)
    requires Legal(value, clique, bn.card) && Filled(bn, clique, own, table, RankOf(value, clique, bn.card))
    requires CliqueOf(bn, clique, Sorted(clique), value) && Covers(bn, clique, Sorted(clique), own)
    ensures value !in table
    ensures Filled(bn, clique, own, table[value := InitialEntry(bn, clique, own, value)], RankOf(value, clique, bn.card) + 1)
  {
    hide Among, Legal, RankOf, InitialEntry, CliqueOf, Covers, Sorted;
    var bound := RankOf(value, clique, bn.card);
    AmongStep(value, value, clique, bn.card);
    forall a
      ensures Among(a, clique, bn.card, bound + 1) <==> a == value || Among(a, clique, bn.card, bound)
    {
      AmongStep(a, value, clique, bn.card);
    }
    var table' := table[value := InitialEntry(bn, clique, own, value)];
    forall a | a in table'
      ensures RightEntry(bn, clique, own, table', a)
    {
      if a != value { assert RightEntry(bn, clique, own, table, a); }
    }
  }

  /** All nodes of the clique at value zero, and whether any of them is evidence. */
  method FirstAssignment(bn: Network, clique: set<nat>) returns (keys: seq<nat>, value: Assignment, containsEvidence: bool)
    requires bn.WellFormed() && AllVariables(clique, bn.card)
    ensures CliqueOf(bn, clique, keys, value) && Legal(value, clique, bn.card) && RankOf(value, clique, bn.card) == 0
    ensures !containsEvidence ==> forall v :: v in clique ==> bn.nodes[v].evidence.None?
  {
    keys := Sorted(clique);
    value := map[];
    containsEvidence := false;
    hide Ascending, Legal, RankOf, CliqueOf;
    assert forall k :: 0 <= k < |keys| ==> keys[k] < |bn.nodes|;
    var i := 0;
    while i < |keys|
      invariant 0 <= i <= |keys|
      invariant forall v :: v in value <==> v in keys[..i]
      invariant forall v :: v in value ==> value[v] == 0
      invariant !containsEvidence ==> forall j :: 0 <= j < i ==> bn.nodes[keys[j]].evidence.None?
    {
      value := value[keys[i] := 0];
      if bn.nodes[keys[i]].evidence.Some? {
        containsEvidence := true;
      }
      i := i + 1;
    }
    assert keys[..i] == keys;
    ZerosComeFirst(bn, clique, value);
  }

  lemma ZerosComeFirst(bn: Network, clique: set<nat>, value: Assignment)
    requires bn.WellFormed() && AllVariables(clique, bn.card)
    requires value.Keys == clique && forall v :: v in value ==> value[v] == 0
    ensures CliqueOf(bn, clique, Sorted(clique), value)
    ensures Legal(value, clique, bn.card) && RankOf(value, clique, bn.card) == 0
  {
    LegalCounts(value, clique, bn.card);
    RankOfZeros(Sorted(clique), bn.card, value);
  }

  lemma EntryInTwoSteps(bn: Network, clique: set<nat>, own: set<nat>, a: Assignment, table: Table)
    requires CliqueOf(bn, clique, Sorted(clique), a) && Covers(bn, clique, Sorted(clique), own)
    ensures var keys := Sorted(clique); var p := EvidenceFactor(bn, keys, a);
      table[a := p][a := Entry(bn, p, keys, own, a)] == table[a := InitialEntry(bn, clique, own, a)]
  {
  }

  /** Sets the entry of one assignment. */
  method Visit(bn: Network, clique: set<nat>, keys: seq<nat>, containsEvidence: bool, i: nat, n: nat, value: Assignment,
               table: Table, soFar: seq<nat>, ghost before: seq<nat>, ghost own: set<nat>)
    returns (t: Table, assignedTo: seq<nat>)
    requires CliqueOf(bn, clique, keys, value) && |before| == |bn.nodes| && i != n && i !in before
    requires own == OwnNodes(bn, clique, before, n) && Tracks(before, soFar, own, i)
    requires !containsEvidence ==> forall v :: v in clique ==> bn.nodes[v].evidence.None?
    ensures Covers(bn, clique, Sorted(clique), own)
    ensures t == table[value := InitialEntry(bn, clique, own, value)]
    ensures AllTracked(before, assignedTo, own, i)
  {
    CliqueCovers(bn, clique, keys, value, before, n);
    EntryInTwoSteps(bn, clique, own, value, table);
    hide *;
    t := SetEvidence(bn, keys, containsEvidence, value, table);
    t, assignedTo := MultiplyTables(bn, clique, keys, i, n, value, t, soFar, before, own);
  }

  lemma AdvanceRank(value: Assignment, clique: set<nat>, card: seq<nat>)
    requires Legal(value, clique, card) && AllVariables(clique, card)
    ensures Counts(Sorted(clique), card, value) && RankOf(value, clique, card) < AssignmentCount(clique, card)
    ensures var (next, more) := Next(Sorted(clique), card, value);
      && Legal(next, clique, card)
      && RankOf(value, clique, card) + 1 == if more then RankOf(next, clique, card) else AssignmentCount(clique, card)
  {
    var keys := Sorted(clique);
    LegalCounts(value, clique, card);
    NextKeeps(keys, card, value);
    NextRank(keys, card, value);
    RankBound(keys, card, value);
    assert forall v :: v in clique ==> v in keys;
  }

  /** When all combinations have come up, every legal assignment has. */
  lemma AllCameUp(bn: Network, clique: set<nat>, own: set<nat>, table: Table)
    requires bn.WellFormed() && AllVariables(clique, bn.card)
    requires Filled(bn, clique, own, table, AssignmentCount(clique, bn.card))
    ensures Full(table, clique, bn.card)
  {
    hide RightEntry;
    forall a | Legal(a, clique, bn.card)
      ensures a in table
    {
      LegalCounts(a, clique, bn.card);
      RankBound(Sorted(clique), bn.card, a);
    }
  }

  /** Fills the table of one clique: every assignment comes up exactly once. */
  method FillClique(bn: Network, clique: set<nat>, i: nat, n: nat, soFar: seq<nat>)
    returns (table: Table, assignedTo: seq<nat>)
    requires bn.WellFormed() && AllVariables(clique, bn.card) && |soFar| == |bn.nodes| && i != n && i !in soFar
    ensures var own := OwnNodes(bn, clique, soFar, n);
      && Full(table, clique, bn.card) && (forall a :: a in table ==> RightEntry(bn, clique, own, table, a))
      && AllTracked(soFar, assignedTo, own, i)
  {
    ghost var own := OwnNodes(bn, clique, soFar, n);
    var keys, value, containsEvidence := FirstAssignment(bn, clique);
    CliqueCovers(bn, clique, keys, value, soFar, n);
    table := map[];
    assignedTo := soFar;
    assert Filled(bn, clique, own, table, 0);
    hide Sorted, RankOf, OwnNodes, AssignmentCount, Covers, RightEntry;
    hide InitialEntry, Among, Tracks, AllTracked, Filled, Next;
    var more := true;
    ghost var visited := false;
    ghost var total := AssignmentCount(clique, bn.card);
    while more
      invariant CliqueOf(bn, clique, keys, value) && Legal(value, clique, bn.card)
      invariant Filled(bn, clique, own, table, if more then RankOf(value, clique, bn.card) else total)
      invariant Tracks(soFar, assignedTo, own, i) && (visited ==> AllTracked(soFar, assignedTo, own, i))
      invariant more || visited
      decreases if more then total - RankOf(value, clique, bn.card) else 0, more
    {
      FilledStep(bn, clique, own, table, value);
      table, assignedTo := Visit(bn, clique, keys, containsEvidence, i, n, value, table, assignedTo, soFar, own);
      visited := true;
      AdvanceRank(value, clique, bn.card);
      value, more := Advance(value, keys, bn.card);
    }
    AllCameUp(bn, clique, own, table);
  }
}
