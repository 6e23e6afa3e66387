/** Why every separator ends up as the marginal of both its cliques. */
module Calibration {
  import opened JoinTrees
  import opened Messages
  import opened Propagation
  import opened Schedules
  import opened Tables

  /** The marginal of a table at b, without saturation. */
  function SumAt(table: Table, separator: set<nat>, b: Assignment): real
  {
    Sum(table, Enumeration(table.Keys), separator, b)
  }

  /** No sum is saturated when the table is marginalized. */
  ghost predicate Exact(table: Table, separator: set<nat>)
  {
    forall b :: b in Marginal(table, separator) ==> SumAt(table, separator, b) <= 1.0
  }

  /** A separator that is the marginal of a table. */
  ghost predicate Agrees(sep: Table, table: Table, separator: set<nat>)
  {
    forall b :: b in sep ==> sep[b] == SumAt(table, separator, b)
  }

  lemma ExactAgrees(table: Table, separator: set<nat>)
    requires NonNegative(table) && Exact(table, separator)
    ensures Agrees(Marginal(table, separator), table, separator)
  {
    hide InOrder, MarginalOf, Sum;
    forall b | b in Marginal(table, separator)
      ensures Marginal(table, separator)[b] == SumAt(table, separator, b)
    {
      MarginalEntry(table, Enumeration(table.Keys), separator, b);
    }
  }

  lemma Distribute(q: real, a: real, b: real)
    ensures Times(q, a + b) == Times(q, a) + Times(b, q)
    ensures Times(q, 0.0) == 0.0
  {
  }

  /** Multiplying by a function of the separator multiplies the marginal. */
  lemma {:induction false} SumMultiplied(d: Table, temp: Table, order: seq<Assignment>, separator: set<nat>, b: Assignment)
    requires forall a :: a in order ==> a in d
    requires forall a :: a in d ==> Restrict(a, separator) in temp
    requires b in temp
    ensures Sum(Multiplied(d, temp, separator), order, separator, b) == Times(temp[b], Sum(d, order, separator, b))
  {
    hide Restrict, Times;
    if |order| == 0 {
      Distribute(temp[b], 0.0, 0.0);
    } else {
      var n := |order| - 1;
      SumMultiplied(d, temp, order[..n], separator, b);
      assert order[n] in order;
      Distribute(temp[b], Sum(d, order[..n], separator, b), if Restrict(order[n], separator) == b then d[order[n]] else 0.0);
      Distribute(temp[b], 0.0, 0.0);
      Distribute(0.0, 0.0, temp[b]);
    }
  }

  /** The second message over an edge leaves the receiver in agreement with the new separator. */
  lemma ReceiverAgrees(source: Table, d: Table, oldSep: Table, separator: set<nat>)
    requires NonNegative(source) && Supported(source, oldSep, separator) && Agrees(oldSep, d, separator)
    requires Marginal(source, separator).Keys == oldSep.Keys
    requires forall a :: a in d ==> Restrict(a, separator) in oldSep
    ensures var newSep := Marginal(source, separator);
      Agrees(newSep, Multiplied(d, Quotient(newSep, oldSep), separator), separator)
  {
    hide InOrder, MarginalOf, Restrict, Sum, Marginal;
    var newSep := Marginal(source, separator);
    var factor := Quotient(newSep, oldSep);
    var d' := Multiplied(d, factor, separator);
    assert d'.Keys == d.Keys;
    forall b | b in newSep
      ensures newSep[b] == SumAt(d', separator, b)
    {
      SumMultiplied(d, factor, Enumeration(d.Keys), separator, b);
      if oldSep[b] == 0.0 { ZeroStays(source, oldSep, separator, b); }
      RatioTimes(newSep[b], oldSep[b]);
      Commute(oldSep[b], factor[b]);
    }
  }

  lemma Commute(p: real, q: real)
    ensures Times(p, q) == Times(q, p)
  {
  }

  /** Every separator agrees with the senders of the messages over its edge; without messages it is empty. */
  ghost predicate Calibrated(t: JoinTree, s: TreeTables, sent: set<Message>)
    requires t.WellFormed() && |s.cliques| == t.Size() && |s.separators| == |t.edges|
  {
    forall e: nat, i: nat, j: nat :: e < |t.edges| && t.Joins(e, i, j) ==> EdgeCalibrated(t, s, sent, e, i, j)
  }

  ghost predicate EdgeCalibrated(t: JoinTree, s: TreeTables, sent: set<Message>, e: nat, i: nat, j: nat)
    requires t.WellFormed() && |s.cliques| == t.Size() && |s.separators| == |t.edges|
    requires e < |t.edges| && t.Joins(e, i, j)
  {
    && ((i, j) in sent ==> s.separators[e] != map[] && Agrees(s.separators[e], s.cliques[i], t.Separator(e)))
    && ((i, j) !in sent && (j, i) !in sent ==> s.separators[e] == map[])
  }

  lemma SameEdge(t: JoinTree, e: nat, f: nat, i: nat, j: nat)
    requires t.WellFormed() && e < |t.edges| && f < |t.edges| && t.Joins(e, i, j) && t.Joins(f, i, j)
    ensures e == f
  {
    assert e < f ==> t.Joins(f, t.edges[e].0, t.edges[e].1);
    assert f < e ==> t.Joins(e, t.edges[f].0, t.edges[f].1);
  }

  lemma NotEmpty(sep: Table, separator: set<nat>, card: seq<nat>)
    requires Full(sep, separator, card) && AllVariables(separator, card)
    ensures sep != map[]
  {
    var a := ExtendLegal(map[], separator, {}, card);
    assert a in sep;
  }

  /** The edge of a message agrees with everyone who has sent over it. */
  lemma MessageEdge(t: JoinTree, card: seq<nat>, s: TreeTables, sent: set<Message>, e: nat, from: nat, to: nat)
    requires Consistent(t, card, s) && e < |t.edges| && t.Joins(e, from, to) && Calibrated(t, s, sent)
    requires Exact(s.cliques[from], t.Separator(e))
    ensures var s', separator := AfterMessage(t, card, s, e, from, to), t.Separator(e);
      && from < t.Size() && to < t.Size() && |s'.cliques| == t.Size() && |s'.separators| == |t.edges|
      && s'.separators[e] != map[] && Agrees(s'.separators[e], s'.cliques[from], separator)
      && ((to, from) in sent ==> Agrees(s'.separators[e], s'.cliques[to], separator))
  {
    var separator := t.Separator(e);
    assert CliqueOk(t, card, s.cliques, from) && CliqueOk(t, card, s.cliques, to);
    assert SeparatorOk(t, card, s.separators, e) && SupportOk(t, s, e);
    FactorCovers(t, card, s, e, from, to);
    hide Legal, Restrict, Marginal, NonNegative, Supported, Quotient, Multiplied, Agrees, Exact;
    NewSeparator(s.cliques[from], t.cliques[from], separator, card);
    NotEmpty(Marginal(s.cliques[from], separator), separator, card);
    ExactAgrees(s.cliques[from], separator);
    if (to, from) in sent {
      assert t.Joins(e, to, from);
      Covered(s.separators[e], s.cliques[to], t.cliques[to], separator, card);
      SameDomain(Marginal(s.cliques[from], separator), s.separators[e], separator, card);
      ReceiverAgrees(s.cliques[from], s.cliques[to], s.separators[e], separator);
    }
  }

  lemma SameDomain(p: Table, q: Table, vars: set<nat>, card: seq<nat>)
    requires Full(p, vars, card) && Full(q, vars, card)
    ensures p.Keys == q.Keys
  {
    hide Legal;
  }

  /** Whoever has sent over another edge is not the receiver, for it has not heard from all its other neighbours. */
  lemma OtherSender(t: JoinTree, sent: set<Message>, e: nat, from: nat, to: nat, f: nat, i: nat, j: nat)
    requires t.WellFormed() && Fair(t, sent) && (from, to) !in sent
    requires e < |t.edges| && t.Joins(e, from, to) && f < |t.edges| && t.Joins(f, i, j) && f != e
    requires (i, j) in sent + {(from, to)}
    ensures (i, j) in sent && i != to
  {
    if (i, j) == (from, to) { SameEdge(t, e, f, from, to); }
    if i == to {
      assert t.Joins(f, j, to);
      if j == from { SameEdge(t, e, f, from, to); }
      assert t.Adjacent(from, to);
    }
  }

  lemma MessageKeepsEdge(t: JoinTree, card: seq<nat>, s: TreeTables, sent: set<Message>, e: nat, from: nat, to: nat,
                         f: nat, i: nat, j: nat)
    requires Consistent(t, card, s) && e < |t.edges| && t.Joins(e, from, to) && Calibrated(t, s, sent)
    requires Fair(t, sent) && (from, to) !in sent && Exact(s.cliques[from], t.Separator(e))
    requires f < |t.edges| && t.Joins(f, i, j)
    ensures EdgeCalibrated(t, AfterMessage(t, card, s, e, from, to), sent + {(from, to)}, f, i, j)
  {
    assert t.WellFormed() && EdgeCalibrated(t, s, sent, f, i, j);
    MessageEdge(t, card, s, sent, e, from, to);
    FactorCovers(t, card, s, e, from, to);
    hide Consistent, Marginal, Agrees, Exact, Factor, Received, Fair, Calibrated;
    if f != e && (i, j) in sent + {(from, to)} { OtherSender(t, sent, e, from, to, f, i, j); }
  }

  /** A message that may be sent keeps all separators calibrated. */
  lemma MessageKeepsCalibrated(t: JoinTree, card: seq<nat>, s: TreeTables, sent: set<Message>, e: nat, from: nat, to: nat)
    requires Consistent(t, card, s) && e < |t.edges| && t.Joins(e, from, to) && Calibrated(t, s, sent)
    requires Fair(t, sent) && (from, to) !in sent && Exact(s.cliques[from], t.Separator(e))
    ensures Consistent(t, card, AfterMessage(t, card, s, e, from, to))
    ensures Calibrated(t, AfterMessage(t, card, s, e, from, to), sent + {(from, to)})
  {
    MessageKeepsConsistent(t, card, s, e, from, to);
    hide AfterMessage, Exact, EdgeCalibrated, Fair;
    forall f: nat, i: nat, j: nat | f < |t.edges| && t.Joins(f, i, j)
      ensures EdgeCalibrated(t, AfterMessage(t, card, s, e, from, to), sent + {(from, to)}, f, i, j)
    {
      MessageKeepsEdge(t, card, s, sent, e, from, to, f, i, j);
    }
  }
}
