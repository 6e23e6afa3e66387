/** The tables of a bayesian network's join tree while messages are passed. */
module BayesNetworks {
  import opened Calibration
  import opened Cliques
  import opened Initialization
  import opened JoinTrees
  import opened Marginals
  import opened Messages
  import opened Propagation
  import opened ProperNetworks
  import opened Schedules
  import opened Tables

  /** A table of which the first k entries in order have been replaced by those of another. */
  ghost function Overwritten(base: Table, order: seq<Assignment>, k: nat, f: Table): (t: Table)
    requires k <= |order| && base.Keys == f.Keys
    ensures t.Keys == base.Keys
  {
    map b | b in base :: if b in order[..k] then f[b] else base[b]
  }

  lemma OverwriteOne(base: Table, k: nat, f: Table)
    requires base.Keys == f.Keys && k < |base|
    ensures var order := Enumeration(base.Keys);
      && k < |order| && order[k] in base
      && Overwritten(base, order, k, f)[order[k]] == base[order[k]]
      && Overwritten(base, order, k, f)[order[k] := f[order[k]]] == Overwritten(base, order, k + 1, f)
  {
    hide Enumeration;
    var order := Enumeration(base.Keys);
    assert order[k] in order;
    forall i | 0 <= i < k
      ensures order[i] != order[k]
    {
      InOrderDistinct(order, i, k);
    }
    hide InOrder;
    assert order[..k + 1] == order[..k] + [order[k]];
  }

  lemma OverwriteAll(base: Table, f: Table)
    requires base.Keys == f.Keys
    ensures var order := Enumeration(base.Keys);
      |order| == |base| && Overwritten(base, order, 0, f) == base && Overwritten(base, order, |order|, f) == f
  {
    hide InOrder, Enumeration;
    var order := Enumeration(base.Keys);
    assert order[..|order|] == order;
  }

  /** Divides each entry by the entry that comes up at the same time in the other table. */
  method Divide(newSep: Table, oldSep: Table) returns (temp: Table)
    requires newSep.Keys == oldSep.Keys
    ensures temp == Quotient(newSep, oldSep)
  {
    ghost var result := Quotient(newSep, oldSep);
    hide InOrder, Enumeration, Overwritten;
    var order, oldOrder := Enumeration(newSep.Keys), Enumeration(oldSep.Keys);
    OverwriteAll(newSep, result);
    temp := newSep;
    var k := 0;
    while k < |order|
      invariant 0 <= k <= |order| && temp == Overwritten(newSep, order, k, result)
    {
      OverwriteOne(newSep, k, result);
      if oldSep[oldOrder[k]] != 0.0 {
        temp := temp[order[k] := temp[order[k]] / oldSep[oldOrder[k]]];
      } else {
        assert temp[order[k] := temp[order[k]]] == temp;
      }
      k := k + 1;
    }
  }

  lemma MultiplyOne(d: Table, temp: Table, separator: set<nat>, k: nat, product: Table)
    requires forall a :: a in d ==> Restrict(a, separator) in temp
    requires k < |d| && product == Overwritten(d, Enumeration(d.Keys), k, Multiplied(d, temp, separator))
    ensures var a := Enumeration(d.Keys)[k];
      && a in product && Restrict(a, separator) in temp
      && product[a := Times(product[a], temp[Restrict(a, separator)])]
         == Overwritten(d, Enumeration(d.Keys), k + 1, Multiplied(d, temp, separator))
  {
    hide InOrder, Enumeration, Overwritten, Restrict, Times;
    OverwriteOne(d, k, Multiplied(d, temp, separator));
  }

  /** Multiplies each entry by the entry of temp for its part in the separator. */
  method Multiply(d: Table, temp: Table, separator: set<nat>) returns (product: Table)
    requires forall a :: a in d ==> Restrict(a, separator) in temp
    ensures product == Multiplied(d, temp, separator)
  {
    hide InOrder, Enumeration, Overwritten, Restrict, Times, Multiplied;
    var order := Enumeration(d.Keys);
    OverwriteAll(d, Multiplied(d, temp, separator));
    product := d;
    var k := 0;
    while k < |order|
      invariant 0 <= k <= |order| && product == Overwritten(d, order, k, Multiplied(d, temp, separator))
    {
      MultiplyOne(d, temp, separator, k, product);
      var a := Project(order[k], separator);
      product := product[order[k] := Times(product[order[k]], temp[a])];
      k := k + 1;
    }
  }

  lemma MaySendMeans(t: JoinTree, sent: set<Message>, from: nat, to: nat)
    requires t.WellFormed() && MaySend(t, sent, from, to)
    ensures from < t.Size() && to < t.Size() && from != to && t.Adjacent(from, to) && (from, to) !in sent
    ensures HeardFromOthers(t, sent, from, to)
  {
    AdjacentBothWays(t, from, to);
  }

  lemma LogGrows(t: JoinTree, log: seq<Message>, from: nat, to: nat)
    requires FairSchedule(t, log) && t.Adjacent(from, to) && (from, to) !in Elements(log)
    requires HeardFromOthers(t, Elements(log), from, to)
    ensures FairSchedule(t, log + [(from, to)])
    ensures Elements(log + [(from, to)]) == Elements(log) + {(from, to)}
  {
    var after := log + [(from, to)];
    assert after[..|after| - 1] == log;
    assert forall m :: m in after <==> m in log || m == (from, to);
  }

  /** Nothing that is summed out of the initial tables weighs more than one. */
  ghost predicate Tame(t: JoinTree, card: seq<nat>, start: TreeTables)
    requires Consistent(t, card, start)
  {
    AllPositive(card) && t.RunningIntersection() && Light(t, card, start)
  }

  /** What every message keeps: the weights of parts of the tree, the schedule's fairness, and calibration. */
  ghost predicate Run(t: JoinTree, card: seq<nat>, parent: seq<nat>, depth: seq<nat>, start: TreeTables, s: TreeTables,
                      log: seq<Message>, exact: bool)
  {
    && t.WellFormed() && Rooted(t, parent, depth) && Consistent(t, card, start) && Consistent(t, card, s)
    && PartsKept(t, card, start, s, Elements(log))
    && FairSchedule(t, log) && Fair(t, Elements(log)) && UpFirst(parent, Elements(log))
    && (exact ==> Calibrated(t, s, Elements(log))) && (Tame(t, card, start) ==> exact)
  }

  /** Both give every full assignment the same weight. */
  ghost predicate JointKept(t: JoinTree, card: seq<nat>, start: TreeTables, s: TreeTables)
    requires Consistent(t, card, start) && Consistent(t, card, s)
  {
    forall x :: World(x, card) ==> Joint(t, s, x) == Joint(t, start, x)
  }

  /** In particular the tree as a whole keeps its weights. */
  lemma RunKeepsJoint(t: JoinTree, card: seq<nat>, parent: seq<nat>, depth: seq<nat>, start: TreeTables, s: TreeTables,
                      log: seq<Message>, exact: bool)
    requires Run(t, card, parent, depth, start, s, log, exact)
    ensures JointKept(t, card, start, s)
  {
    forall i: nat, j: nat | (i, j) in Elements(log)
      ensures i < t.Size() && j < t.Size()
    {
      AdjacentBothWays(t, i, j);
    }
    assert Uncrossed(Elements(log), AllNodes(t));
    hide Rooted, Fair, FairSchedule, UpFirst, Calibrated, Elements, Tame, PartWeight, Joint, World;
    forall x | World(x, card)
      ensures Joint(t, s, x) == Joint(t, start, x)
    {
      WholeWeight(t, s, x);
      WholeWeight(t, start, x);
    }
  }

  /** In a tame run the next message saturates no sum. */
  lemma TameIsExact(t: JoinTree, card: seq<nat>, parent: seq<nat>, depth: seq<nat>, start: TreeTables, s: TreeTables,
                    log: seq<Message>, exact: bool, from: nat, to: nat)
    requires Run(t, card, parent, depth, start, s, log, exact) && MaySend(t, Elements(log), from, to)
    requires Tame(t, card, start)
    ensures t.Adjacent(from, to) && from < t.Size()
    ensures Exact(s.cliques[from], t.Separator(t.EdgeBetween(from, to)))
  {
    MaySendMeans(t, Elements(log), from, to);
    assert |s.cliques| == t.Size();
    hide Consistent, Rooted, Fair, FairSchedule, UpFirst, Calibrated;
    hide Elements, MaySend, Exact, PartsKept, Light, AllPositive;
    hide JoinTree.RunningIntersection;
    NextIsExact(t, card, parent, depth, start, s, Elements(log), t.EdgeBetween(from, to), from, to);
  }

  /** A message that may be sent extends the run. */
  lemma MessageExtendsRun(t: JoinTree, card: seq<nat>, parent: seq<nat>, depth: seq<nat>, start: TreeTables, s: TreeTables,
                          log: seq<Message>, exact: bool, from: nat, to: nat)
    requires Run(t, card, parent, depth, start, s, log, exact) && MaySend(t, Elements(log), from, to)
    ensures t.Adjacent(from, to) && from < t.Size()
    ensures var e := t.EdgeBetween(from, to);
      Run(t, card, parent, depth, start, AfterMessage(t, card, s, e, from, to), log + [(from, to)],
          exact && Exact(s.cliques[from], t.Separator(e)))
  {
    MaySendMeans(t, Elements(log), from, to);
    var e := t.EdgeBetween(from, to);
    assert |s.cliques| == t.Size() && |s.separators| == |t.edges|;
    hide Consistent, Rooted, Fair, FairSchedule, UpFirst, Calibrated;
    hide AfterMessage, PartsKept, Elements, MaySend, Exact, Tame;
    SendKeeps(t, parent, depth, Elements(log), from, to);
    MessageKeepsParts(t, card, start, s, Elements(log), e, from, to);
    LogGrows(t, log, from, to);
    if exact && Exact(s.cliques[from], t.Separator(e)) {
      MessageKeepsCalibrated(t, card, s, Elements(log), e, from, to);
    }
    if Tame(t, card, start) { TameIsExact(t, card, parent, depth, start, s, log, exact, from, to); }
  }

  /** The tables before the first message: separators without entries stand for ones. */
  function Initial(t: JoinTree, cliques: seq<Table>): TreeTables
  {
    TreeTables(cliques, seq(|t.edges|, _ => map[]))
  }

  /** Before the first message the tables are consistent and give every full assignment its weight in the network. */
  lemma StartsRight(bn: Network, t: JoinTree, cliques: seq<Table>)
    requires bn.WellFormed() && t.WellFormed() && CliquesInNetwork(bn, t) && |cliques| == t.Size() && TablesBegun(bn, t, cliques)
    requires forall x :: World(x, bn.card) ==> Product(CliqueFactors(t, cliques, x)) == NetworkWeight(bn, x)
    ensures var s := Initial(t, cliques);
      Consistent(t, bn.card, s) && Calibrated(t, s, {}) && WeighsLike(bn, t, s)
  {
    var s := Initial(t, cliques);
    hide Full, NonNegative, World, NetworkWeight;
    forall x | World(x, bn.card)
      ensures Joint(t, s, x) == NetworkWeight(bn, x)
    {
      ProductOfOnes(SeparatorFactors(t, s.separators, x));
    }
  }

  /** In a proper network a join tree starts tame. */
  lemma StartsTame(bn: Network, t: JoinTree, cliques: seq<Table>, owner: seq<nat>)
    requires Proper(bn) && t.WellFormed() && t.RunningIntersection()
    requires CliquesInNetwork(bn, t) && |cliques| == t.Size() && FactorsBegun(bn, t, cliques, owner)
    requires |owner| == |bn.nodes| && forall v :: 0 <= v < |bn.nodes| ==> owner[v] < t.Size()
    requires Consistent(t, bn.card, Initial(t, cliques))
    ensures Tame(t, bn.card, Initial(t, cliques))
  {
    hide Consistent, FactorsBegun, CliquesInNetwork, Light;
    StartIsLight(bn, t, cliques, owner);
  }

  /** The tables of the join tree while messages are passed, and the bookkeeping of the scheduler. */
  class BnJoinTree {
    const tree: JoinTree
    const card: seq<nat>
    var cliques: seq<Table>
    var separators: seq<Table>
    var toSend: seq<set<nat>>
    var toReceive: seq<set<nat>>
    // The messages passed so far, in order.
    ghost var log: seq<Message>
    // No message so far has saturated a sum.
    ghost var exact: bool
    // The tables before the first message.
    ghost const start: TreeTables
    ghost const parent: seq<nat>
    ghost const depth: seq<nat>

    /** Fills the cliques' tables and gets ready to pass messages. */
    constructor (bn: Network, t: JoinTree)
      requires bn.WellFormed() && t.IsTree() && CliquesInNetwork(bn, t) && CoversFamilies(bn, t)
      ensures Valid() && tree == t && card == bn.card && log == [] && exact
      ensures Consistent(t, card, start) && WeighsLike(bn, t, start)
      ensures Proper(bn) && t.RunningIntersection() ==> Tame(t, card, start)
    {
      tree, card := t, bn.card;
      var tables, owner := InitializeCliques(bn, t);
      cliques := tables;
      separators := seq(|t.edges|, _ => map[]);
      toSend := seq(t.Size(), i requires 0 <= i < t.Size() => t.Neighbors(i));
      toReceive := seq(t.Size(), i requires 0 <= i < t.Size() => t.Neighbors(i));
      log := [];
      exact := true;
      start := Initial(t, tables);
      ghost var up, level := TreeIsRooted(t);
      parent, depth := up, level;
      StartsRight(bn, t, tables);
      if Proper(bn) && t.RunningIntersection() { StartsTame(bn, t, tables, owner); }
    }

    ghost function State(): TreeTables
      reads this`cliques, this`separators
    {
      TreeTables(cliques, separators)
    }

    /** Passes one message. */
    method PassMessage(from: nat, to: nat)
      requires Consistent(tree, card, State()) && tree.Adjacent(from, to)
      modifies this`cliques, this`separators
      ensures State() == AfterMessage(tree, card, old(State()), tree.EdgeBetween(from, to), from, to)
    {
      hide Marginal, Multiplied, Quotient, Restrict, Legal;
      var e := tree.EdgeBetween(from, to);
      FactorCovers(tree, card, State(), e, from, to);
      var separator := tree.Separator(e);
      var newSep := Marginalize(cliques[from], separator);
      var temp := newSep;
      if |separators[e]| > 0 {
        SeparatorKeysKept(tree, card, State(), e, from, to);
        temp := Divide(newSep, separators[e]);
      } else {
        QuotientByOnes(newSep);
      }
      var d := Multiply(cliques[to], temp, separator);
      cliques := cliques[to := d];
      separators := separators[e := newSep];
    }

    ghost predicate Passing()
      reads this`cliques, this`separators, this`log, this`exact
    {
      Run(tree, card, parent, depth, start, State(), log, exact)
    }

    ghost predicate Valid()
      reads this
    {
      tree.WellFormed() && Passing() && Pending(tree, toSend, toReceive, Elements(log))
    }

    /** Passes a message that may be sent. */
    method Send(from: nat, to: nat)
      requires Passing() && MaySend(tree, Elements(log), from, to)
      modifies this`cliques, this`separators, this`log, this`exact
      ensures Passing() && log == old(log) + [(from, to)]
    {
      MaySendMeans(tree, Elements(log), from, to);
      MessageExtendsRun(tree, card, parent, depth, start, State(), log, exact, from, to);
      assert from < |cliques|;
      hide Consistent, AfterMessage, MaySend, Exact;
      exact := exact && Exact(cliques[from], tree.Separator(tree.EdgeBetween(from, to)));
      PassMessage(from, to);
      log := log + [(from, to)];
    }

    /** A node that has sent nothing and waits for one neighbour sends to that one. */
    method SendFirst(i: nat)
      requires Valid() && 0 < i < tree.Size()
      requires |toSend[i]| == |tree.Neighbors(i)| && |toReceive[i]| == 1
      modifies this
      ensures Valid() && |log| == |old(log)| + 1 && old(log) < log
    {
      hide Run, MaySend, Elements, Pending;
      SizesAre(tree, toSend, toReceive, log);
      var to :| to in toReceive[i];
      FirstChosen(tree, toSend, toReceive, log, i, to);
      ghost var before := toReceive;
      toReceive := toReceive[i := toReceive[i] - {to}];
      Send(i, to);
      Record(i, to, before);
    }

    /** Records a message that was sent while the sender still had to hear from the receiver. */
    method Record(i: nat, to: nat, ghost before: seq<set<nat>>)
      requires i < |before| == |toSend| && to < |before| && i != to && to in before[i]
      requires toReceive == before[i := before[i] - {to}]
      modifies this`toSend, this`toReceive
      ensures toSend == old(toSend)[i := old(toSend)[i] - {to}]
      ensures toReceive == before[to := before[to] - {i}]
    {
      toSend := toSend[i := toSend[i] - {to}];
      toReceive := toReceive[to := toReceive[to] - {i}];
      // It still needs to hear from it.
      toReceive := toReceive[i := toReceive[i] + {to}];
      PutBack(before, i, to);
    }

    /** A node that has heard from all sends to one it has not sent to. */
    method SendRest(i: nat)
      requires Valid() && i < tree.Size() && |toReceive[i]| == 0 && |toSend[i]| > 0
      modifies this
      ensures Valid() && |log| == |old(log)| + 1 && old(log) < log
      ensures |toSend| == |toReceive| == tree.Size()
      ensures toReceive[i] == old(toReceive[i]) && |toSend[i]| < |old(toSend[i])|
    {
      hide Run, MaySend, Elements, Pending;
      SizesAre(tree, toSend, toReceive, log);
      var to :| to in toSend[i];
      RestChosen(tree, toSend, toReceive, log, i, to);
      toSend := toSend[i := toSend[i] - {to}];
      toReceive := toReceive[to := toReceive[to] - {i}];
      Send(i, to);
    }

    /** One round over all nodes, the root last. */
    method Round() returns (messageSent: bool)
      requires Valid()
      modifies this
      ensures Valid()
      ensures if messageSent then old(log) < log else log == old(log) && Stuck(tree, Elements(log))
    {
      messageSent := RoundOverOthers();
      hide Run, MaySend, Elements, Pending;
      SizesAre(tree, toSend, toReceive, log);
      if |toReceive[0]| == 0 {
        while |toSend[0]| > 0
          invariant Valid() && |toSend| == |toReceive| == tree.Size() && |toReceive[0]| == 0
          invariant if messageSent then old(log) < log else log == old(log) && OthersIdle(tree, log, tree.Size())
          decreases |toSend[0]|
        {
          SendRest(0);
          messageSent := true;
        }
      }
      if !messageSent { RootIdle(tree, toSend, toReceive, log); }
    }

    method RoundOverOthers() returns (messageSent: bool)
      requires Valid()
      modifies this
      ensures Valid()
      ensures if messageSent then old(log) < log else log == old(log) && OthersIdle(tree, log, tree.Size())
    {
      messageSent := false;
      hide Run, MaySend, Elements, Pending;
      var i := 1;
      while i < tree.Size()
        invariant 1 <= i && Valid()
        invariant if messageSent then old(log) < log else log == old(log) && OthersIdle(tree, log, i)
      {
        SizesAre(tree, toSend, toReceive, log);
        if |toSend[i]| == |tree.Neighbors(i)| && |toReceive[i]| == 1 {
          SendFirst(i);
          messageSent := true;
        } else if |toReceive[i]| == 0 && |toSend[i]| > 0 {
          SendRest(i);
          messageSent := true;
        } else if !messageSent {
          NodeIdle(tree, toSend, toReceive, log, i);
        }
        i := i + 1;
      }
    }

    /** Passes messages until nobody may send any more: then each has been passed exactly once. */
    method Propagate()
      requires Valid()
      modifies this
      ensures Valid() && Elements(log) == AllMessages(tree)
    {
      hide Consistent, PartsKept, Tame, Calibrated, Rooted, UpFirst, Fair, FairSchedule, MaySend, Elements, Pending;
      var messageSent := true;
      LogBounded(tree, log);
      while messageSent
        invariant Valid() && |log| <= |AllMessages(tree)|
        invariant !messageSent ==> Stuck(tree, Elements(log))
        decreases |AllMessages(tree)| - |log|, messageSent
      {
        messageSent := Round();
        LogBounded(tree, log);
      }
      EverythingSent(tree, parent, depth, log);
    }
  }

  /** No node from 1 to n - 1 may send. */
  ghost predicate OthersIdle(t: JoinTree, log: seq<Message>, n: nat)
  {
    forall k: nat, to: nat :: 0 < k < n ==> !MaySend(t, Elements(log), k, to)
  }

  lemma SizesAre(t: JoinTree, toSend: seq<set<nat>>, toReceive: seq<set<nat>>, log: seq<Message>)
    requires t.WellFormed() && Pending(t, toSend, toReceive, Elements(log))
    ensures |toSend| == |toReceive| == t.Size() > 0
  {
  }

  lemma NodeIdle(t: JoinTree, toSend: seq<set<nat>>, toReceive: seq<set<nat>>, log: seq<Message>, i: nat)
    requires t.WellFormed() && Pending(t, toSend, toReceive, Elements(log)) && 0 < i < t.Size()
    requires !(|toSend[i]| == |t.Neighbors(i)| && |toReceive[i]| == 1) && !(|toReceive[i]| == 0 && |toSend[i]| > 0)
    requires OthersIdle(t, log, i)
    ensures OthersIdle(t, log, i + 1)
  {
    hide MaySendFirst, MaySendRest;
    forall to: nat
      ensures !MaySend(t, Elements(log), i, to)
    {
      FirstCondition(t, Elements(log), i, to);
      RestCondition(t, Elements(log), i, to);
    }
  }

  lemma RootIdle(t: JoinTree, toSend: seq<set<nat>>, toReceive: seq<set<nat>>, log: seq<Message>)
    requires t.WellFormed() && Pending(t, toSend, toReceive, Elements(log)) && OthersIdle(t, log, t.Size())
    requires |toSend| == |toReceive| == t.Size() && (|toReceive[0]| == 0 ==> |toSend[0]| == 0)
    ensures Stuck(t, Elements(log))
  {
    forall i: nat, to: nat
      ensures !MaySend(t, Elements(log), i, to)
    {
      RestCondition(t, Elements(log), 0, to);
      if t.Adjacent(i, to) { AdjacentBothWays(t, i, to); }
    }
  }

  lemma {:induction false} LogBounded(t: JoinTree, log: seq<Message>)
    requires t.WellFormed() && FairSchedule(t, log)
    ensures Elements(log) <= AllMessages(t) && |log| == |Elements(log)| <= |AllMessages(t)|
  {
    if |log| > 0 {
      var front, last := log[..|log| - 1], log[|log| - 1];
      LogBounded(t, front);
      assert log == front + [last];
      LogElements(front, last);
      AdjacentBothWays(t, last.0, last.1);
    }
    CardinalityMonotone(Elements(log), AllMessages(t));
  }

  lemma CardinalityMonotone(a: set<Message>, b: set<Message>)
    requires a <= b
    ensures |a| <= |b|
  {
    assert b == a + (b - a);
  }

  lemma EverythingSent(t: JoinTree, parent: seq<nat>, depth: seq<nat>, log: seq<Message>)
    requires t.WellFormed() && Rooted(t, parent, depth) && UpFirst(parent, Elements(log)) && Fair(t, Elements(log))
    requires Stuck(t, Elements(log))
    ensures Elements(log) == AllMessages(t)
  {
    StuckMeansDone(t, parent, depth, Elements(log));
    forall i: nat, j: nat | t.Adjacent(i, j)
      ensures i < t.Size() && j < t.Size()
    {
      AdjacentBothWays(t, i, j);
    }
    forall m: Message
      ensures m in Elements(log) <==> m in AllMessages(t)
    {
      var (i, j) := m;
      assert (i, j) in Elements(log) <==> t.Adjacent(i, j);
    }
  }

  lemma FirstChosen(t: JoinTree, toSend: seq<set<nat>>, toReceive: seq<set<nat>>, log: seq<Message>, i: nat, to: nat)
    requires t.WellFormed() && Pending(t, toSend, toReceive, Elements(log)) && 0 < i < t.Size()
    requires |toSend[i]| == |t.Neighbors(i)| && |toReceive[i]| == 1 && to in toReceive[i]
    ensures to < |toReceive| == |toSend| == t.Size() && i != to && MaySend(t, Elements(log), i, to)
    ensures Pending(t, toSend[i := toSend[i] - {to}], toReceive[to := toReceive[to] - {i}], Elements(log + [(i, to)]))
  {
    FirstCondition(t, Elements(log), i, to);
    MaySendMeans(t, Elements(log), i, to);
    PendingAfter(t, toSend, toReceive, Elements(log), i, to);
    LogElements(log, (i, to));
  }

  lemma RestChosen(t: JoinTree, toSend: seq<set<nat>>, toReceive: seq<set<nat>>, log: seq<Message>, i: nat, to: nat)
    requires t.WellFormed() && Pending(t, toSend, toReceive, Elements(log)) && i < t.Size()
    requires |toReceive[i]| == 0 && to in toSend[i]
    ensures to < |toReceive| == |toSend| == t.Size() && i != to && MaySend(t, Elements(log), i, to)
    ensures Pending(t, toSend[i := toSend[i] - {to}], toReceive[to := toReceive[to] - {i}], Elements(log + [(i, to)]))
  {
    RestCondition(t, Elements(log), i, to);
    MaySendMeans(t, Elements(log), i, to);
    PendingAfter(t, toSend, toReceive, Elements(log), i, to);
    LogElements(log, (i, to));
  }

  /** Taking to out of the set of i and putting it back changes the set of to only. */
  lemma PutBack(sets: seq<set<nat>>, i: nat, to: nat)
    requires i < |sets| && to < |sets| && i != to && to in sets[i]
    ensures var removed := sets[i := sets[i] - {to}]; var received := removed[to := removed[to] - {i}];
      received[i := received[i] + {to}] == sets[to := sets[to] - {i}]
  {
    assert sets[i] - {to} + {to} == sets[i];
  }

  lemma LogElements(log: seq<Message>, m: Message)
    ensures Elements(log + [m]) == Elements(log) + {m}
  {
  }

  lemma QuotientByOnes(newSep: Table)
    ensures Quotient(newSep, map[]) == newSep
  {
  }

  lemma SeparatorKeysKept(t: JoinTree, card: seq<nat>, s: TreeTables, e: nat, from: nat, to: nat)
    requires Consistent(t, card, s) && e < |t.edges| && t.Joins(e, from, to) && s.separators[e] != map[]
    ensures from < t.Size() && Marginal(s.cliques[from], t.Separator(e)).Keys == s.separators[e].Keys
  {
    var separator := t.Separator(e);
    assert CliqueOk(t, card, s.cliques, from) && SeparatorOk(t, card, s.separators, e);
    hide Marginal, Legal, Consistent;
    NewSeparator(s.cliques[from], t.cliques[from], separator, card);
    SameDomain(Marginal(s.cliques[from], separator), s.separators[e], separator, card);
  }

  /**
   Builds the join tree of a bayesian network: fills the tables and passes all messages. The tables then still give
   every full assignment its weight in the network. If the network is proper and what two cliques share lies in all
   cliques between them, no sum was saturated, and every clique has the marginals of the network's joint distribution.
   */
  method CreateJoinTree(bn: Network, t: JoinTree) returns (values: BnJoinTree)
    requires bn.WellFormed() && t.IsTree() && CliquesInNetwork(bn, t) && CoversFamilies(bn, t)
    ensures values.tree == t && values.card == bn.card && Consistent(t, bn.card, values.State())
    ensures WeighsLike(bn, t, values.State())
    ensures FairSchedule(t, values.log) && Elements(values.log) == AllMessages(t)
    ensures values.exact ==> Calibrated(t, values.State(), AllMessages(t))
    ensures values.exact && t.RunningIntersection() ==> TablesAreMarginals(bn, t, values.State())
    ensures Proper(bn) && t.RunningIntersection() ==> values.exact
  {
    values := new BnJoinTree(bn, t);
    hide World, Joint, NetworkWeight, Calibrated, FairSchedule;
    hide Fair, Proper, JoinTree.RunningIntersection, Rooted, UpFirst;
    hide Light, AllPositive, TablesAreMarginals, AllMessages;
    hide CliquesInNetwork, CoversFamilies, Network.WellFormed, JoinTree.IsTree;
    hide Elements, PartsKept, Pending, Consistent;
    values.Propagate();
    RunKeepsJoint(t, bn.card, values.parent, values.depth, values.start, values.State(), values.log, values.exact);
    if values.exact && t.RunningIntersection() {
      FinalTables(bn, t, values.parent, values.depth, values.State());
    }
  }
}
