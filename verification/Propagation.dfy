/** What a message does to the tables of a join tree, and what it keeps. */
module Propagation {
  import opened JoinTrees
  import opened Messages
  import opened Tables

  /** An assignment of legal values to exactly the given variables; card[v] is the number of values of v. */
  ghost predicate Legal(a: Assignment, vars: set<nat>, card: seq<nat>)
  {
    a.Keys == vars && forall v :: v in vars ==> v < |card| && a[v] < card[v]
  }

  /** The table has an entry for every legal assignment, and nothing else. */
  ghost predicate Full(table: Table, vars: set<nat>, card: seq<nat>)
  {
    forall a :: a in table <==> Legal(a, vars, card)
  }

  ghost predicate AllVariables(vars: set<nat>, card: seq<nat>)
  {
    forall v :: v in vars ==> v < |card| && card[v] > 0
  }

  lemma RestrictLegal(a: Assignment, vars: set<nat>, fewer: set<nat>, card: seq<nat>)
    requires Legal(a, vars, card) && fewer <= vars
    ensures Legal(Restrict(a, fewer), fewer, card)
  {
    assert vars * fewer == fewer;
  }

  /** A legal assignment to some variables extends to more. */
  lemma ExtendLegal(b: Assignment, vars: set<nat>, fewer: set<nat>, card: seq<nat>) returns (a: Assignment)
    requires Legal(b, fewer, card) && fewer <= vars && AllVariables(vars, card)
    ensures Legal(a, vars, card) && Restrict(a, fewer) == b
  {
    a := map v | v in vars :: if v in b then b[v] else 0;
    assert Restrict(a, fewer).Keys == fewer;
  }

  /** The entry of a table at a full assignment; a table without entries stands for ones. */
  function FactorAt(table: Table, x: Assignment, vars: set<nat>): real
  {
    if Restrict(x, vars) in table then table[Restrict(x, vars)] else 1.0
  }

  /** A zero separator entry forces the entries of a clique that agree with it to zero. */
  ghost predicate Supported(table: Table, sep: Table, separator: set<nat>)
  {
    forall a :: a in table && Restrict(a, separator) in sep && sep[Restrict(a, separator)] == 0.0 ==> table[a] == 0.0
  }

  lemma SeparatorKeys(table: Table, order: seq<Assignment>, vars: set<nat>, separator: set<nat>, card: seq<nat>, b: Assignment)
    requires Full(table, vars, card) && separator <= vars && AllVariables(vars, card)
    requires forall a :: a in order <==> a in table
    ensures Occurs(order, separator, b) <==> Legal(b, separator, card)
  {
    hide Restrict;
    if Legal(b, separator, card) {
      var a := ExtendLegal(b, vars, separator, card);
      assert a in order;
    }
    if Occurs(order, separator, b) {
      var k :| 0 <= k < |order| && Restrict(order[k], separator) == b;
      assert order[k] in order;
      RestrictLegal(order[k], vars, separator, card);
    }
  }

  lemma NewSeparatorEntry(table: Table, vars: set<nat>, separator: set<nat>, card: seq<nat>, b: Assignment)
    requires Full(table, vars, card) && NonNegative(table) && separator <= vars && AllVariables(vars, card)
    ensures b in Marginal(table, separator) <==> Legal(b, separator, card)
    ensures b in Marginal(table, separator) ==> Marginal(table, separator)[b] >= 0.0
  {
    hide Legal, Full, InOrder, MarginalOf, Restrict, AllVariables;
    var order := Enumeration(table.Keys);
    MarginalEntry(table, order, separator, b);
    SeparatorKeys(table, order, vars, separator, card, b);
  }

  lemma NewSeparatorSupports(table: Table, separator: set<nat>)
    requires NonNegative(table)
    ensures Supported(table, Marginal(table, separator), separator)
  {
    hide InOrder, MarginalOf, Restrict;
    var order, out := Enumeration(table.Keys), Marginal(table, separator);
    forall a | a in table && Restrict(a, separator) in out && out[Restrict(a, separator)] == 0.0
      ensures table[a] == 0.0
    {
      MarginalEntry(table, order, separator, Restrict(a, separator));
      SumZero(table, order, separator, Restrict(a, separator));
      assert a in order;
    }
  }

  /** The new separator of a message from a clique with this table. */
  lemma NewSeparator(table: Table, vars: set<nat>, separator: set<nat>, card: seq<nat>)
    requires Full(table, vars, card) && NonNegative(table) && separator <= vars && AllVariables(vars, card)
    ensures Full(Marginal(table, separator), separator, card) && NonNegative(Marginal(table, separator))
    ensures Supported(table, Marginal(table, separator), separator)
  {
    hide Marginal, Legal, AllVariables, Supported;
    forall b
      ensures b in Marginal(table, separator) <==> Legal(b, separator, card)
      ensures b in Marginal(table, separator) ==> Marginal(table, separator)[b] >= 0.0
    {
      NewSeparatorEntry(table, vars, separator, card, b);
    }
    NewSeparatorSupports(table, separator);
  }

  /** The quotient of two separators; where the old one is zero the new one is left as it is. */
  function Quotient(newSep: Table, oldSep: Table): Table
  {
    map b | b in newSep :: Ratio(newSep[b], if b in oldSep then oldSep[b] else 1.0)
  }

  function Ratio(p: real, q: real): real
  {
    if q != 0.0 then p / q else p
  }

  function Times(p: real, q: real): real
  {
    p * q
  }

  function Multiplied(d: Table, temp: Table, separator: set<nat>): (product: Table)
    requires forall a :: a in d ==> Restrict(a, separator) in temp
    ensures product.Keys == d.Keys
  {
    map a | a in d :: Times(d[a], temp[Restrict(a, separator)])
  }

  /** The tables of a join tree, one for each clique and one for each edge; empty separators stand for ones. */
  datatype TreeTables = TreeTables(cliques: seq<Table>, separators: seq<Table>)

  ghost predicate CliqueOk(t: JoinTree, card: seq<nat>, cliques: seq<Table>, k: nat)
    requires k < t.Size() == |cliques|
  {
    AllVariables(t.cliques[k], card) && Full(cliques[k], t.cliques[k], card) && NonNegative(cliques[k])
  }

  ghost predicate SeparatorOk(t: JoinTree, card: seq<nat>, separators: seq<Table>, e: nat)
    requires t.WellFormed() && e < |t.edges| == |separators|
  {
    separators[e] == map[] || (Full(separators[e], t.Separator(e), card) && NonNegative(separators[e]))
  }

  ghost predicate SupportOk(t: JoinTree, s: TreeTables, e: nat)
    requires t.WellFormed() && e < |t.edges| == |s.separators| && t.Size() == |s.cliques|
  {
    && Supported(s.cliques[t.edges[e].0], s.separators[e], t.Separator(e))
    && Supported(s.cliques[t.edges[e].1], s.separators[e], t.Separator(e))
  }

  /** All tables have their entries, and zeros in separators are backed by zeros in the cliques. */
  ghost predicate Consistent(t: JoinTree, card: seq<nat>, s: TreeTables)
  {
    && t.WellFormed() && |s.cliques| == t.Size() && |s.separators| == |t.edges|
    && (forall k :: 0 <= k < t.Size() ==> CliqueOk(t, card, s.cliques, k))
    && (forall e :: 0 <= e < |t.edges| ==> SeparatorOk(t, card, s.separators, e) && SupportOk(t, s, e))
  }

  /** The factor a message multiplies the receiving clique by. */
  function Factor(t: JoinTree, s: TreeTables, e: nat, from: nat): Table
    requires t.WellFormed() && e < |t.edges| == |s.separators| && from < t.Size() == |s.cliques|
  {
    Quotient(Marginal(s.cliques[from], t.Separator(e)), s.separators[e])
  }

  /** The receiving clique after a message. */
  function Received(t: JoinTree, s: TreeTables, e: nat, from: nat, to: nat): Table
    requires t.WellFormed() && e < |t.edges| == |s.separators| && from < t.Size() == |s.cliques| && to < t.Size()
    requires forall a :: a in s.cliques[to] ==> Restrict(a, t.Separator(e)) in Factor(t, s, e, from)
  {
    Multiplied(s.cliques[to], Factor(t, s, e, from), t.Separator(e))
  }

  lemma QuotientNonNegative(newSep: Table, oldSep: Table)
    requires NonNegative(newSep) && NonNegative(oldSep)
    ensures NonNegative(Quotient(newSep, oldSep))
  {
    forall b | b in newSep
      ensures Quotient(newSep, oldSep)[b] >= 0.0
    {
      RatioNonNegative(newSep[b], if b in oldSep then oldSep[b] else 1.0);
    }
  }

  lemma RatioNonNegative(p: real, q: real)
    requires p >= 0.0 && q >= 0.0
    ensures Ratio(p, q) >= 0.0
  {
  }

  lemma Covered(newSep: Table, d: Table, vars: set<nat>, separator: set<nat>, card: seq<nat>)
    requires Full(newSep, separator, card) && Full(d, vars, card) && separator <= vars
    ensures forall a :: a in d ==> Restrict(a, separator) in newSep
  {
    hide Restrict, Legal;
    forall a | a in d
      ensures Restrict(a, separator) in newSep
    {
      RestrictLegal(a, vars, separator, card);
    }
  }

  /** Every entry of the receiving clique has a factor. */
  lemma FactorCovers(t: JoinTree, card: seq<nat>, s: TreeTables, e: nat, from: nat, to: nat)
    requires Consistent(t, card, s) && e < |t.edges| && t.Joins(e, from, to)
    ensures from < t.Size() && to < t.Size() && NonNegative(Factor(t, s, e, from))
    ensures forall a :: a in s.cliques[to] ==> Restrict(a, t.Separator(e)) in Factor(t, s, e, from)
  {
    assert CliqueOk(t, card, s.cliques, from) && CliqueOk(t, card, s.cliques, to) && SeparatorOk(t, card, s.separators, e);
    hide Restrict, Marginal, Legal, Full, AllVariables, NonNegative, Consistent;
    var separator := t.Separator(e);
    var newSep := Marginal(s.cliques[from], separator);
    NewSeparator(s.cliques[from], t.cliques[from], separator, card);
    Covered(newSep, s.cliques[to], t.cliques[to], separator, card);
    NothingNegative();
    QuotientNonNegative(newSep, s.separators[e]);
  }

  lemma NothingNegative()
    ensures NonNegative(map[])
  {
  }

  /** The tables after a message. */
  function AfterMessage(t: JoinTree, card: seq<nat>, s: TreeTables, e: nat, from: nat, to: nat): TreeTables
    requires Consistent(t, card, s) && e < |t.edges| && t.Joins(e, from, to)
  {
    FactorCovers(t, card, s, e, from, to);
    TreeTables(s.cliques[to := Received(t, s, e, from, to)],
               s.separators[e := Marginal(s.cliques[from], t.Separator(e))])
  }

  lemma MultipliedOk(d: Table, temp: Table, separator: set<nat>, vars: set<nat>, card: seq<nat>)
    requires Full(d, vars, card) && NonNegative(d) && NonNegative(temp)
    requires forall a :: a in d ==> Restrict(a, separator) in temp
    ensures Full(Multiplied(d, temp, separator), vars, card) && NonNegative(Multiplied(d, temp, separator))
  {
    hide Restrict, Legal;
  }

  lemma MultipliedSupported(d: Table, temp: Table, separator: set<nat>, sep: Table, other: set<nat>)
    requires Supported(d, sep, other)
    requires forall a :: a in d ==> Restrict(a, separator) in temp
    ensures Supported(Multiplied(d, temp, separator), sep, other)
  {
    hide Restrict;
  }

  lemma QuotientSupported(d: Table, newSep: Table, oldSep: Table, separator: set<nat>)
    requires forall a :: a in d ==> Restrict(a, separator) in newSep
    ensures Supported(Multiplied(d, Quotient(newSep, oldSep), separator), newSep, separator)
  {
    hide Restrict;
    forall a | a in d && newSep[Restrict(a, separator)] == 0.0
      ensures Multiplied(d, Quotient(newSep, oldSep), separator)[a] == 0.0
    {
      assert Quotient(newSep, oldSep)[Restrict(a, separator)] == 0.0;
    }
  }

  /** A message keeps the tables consistent. */
  lemma MessageKeepsConsistent(t: JoinTree, card: seq<nat>, s: TreeTables, e: nat, from: nat, to: nat)
    requires Consistent(t, card, s) && e < |t.edges| && t.Joins(e, from, to)
    ensures Consistent(t, card, AfterMessage(t, card, s, e, from, to))
  {
    hide Legal, Full, AllVariables, NonNegative, Supported, Restrict, Marginal, Multiplied, Quotient;
    var s', separator := AfterMessage(t, card, s, e, from, to), t.Separator(e);
    var factor, newSep := Factor(t, s, e, from), Marginal(s.cliques[from], separator);
    FactorCovers(t, card, s, e, from, to);
    assert CliqueOk(t, card, s.cliques, from) && CliqueOk(t, card, s.cliques, to);
    NewSeparator(s.cliques[from], t.cliques[from], separator, card);
    forall k | 0 <= k < t.Size()
      ensures CliqueOk(t, card, s'.cliques, k)
    {
      assert CliqueOk(t, card, s.cliques, k);
      if k == to { MultipliedOk(s.cliques[to], factor, separator, t.cliques[to], card); }
    }
    forall f | 0 <= f < |t.edges|
      ensures SeparatorOk(t, card, s'.separators, f) && SupportOk(t, s', f)
    {
      assert SeparatorOk(t, card, s.separators, f) && SupportOk(t, s, f);
      MessageSupports(t, card, s, e, from, to, f);
    }
  }

  lemma MessageSupports(t: JoinTree, card: seq<nat>, s: TreeTables, e: nat, from: nat, to: nat, f: nat)
    requires Consistent(t, card, s) && e < |t.edges| && t.Joins(e, from, to) && f < |t.edges|
    ensures SupportOk(t, AfterMessage(t, card, s, e, from, to), f)
  {
    hide Legal, Full, AllVariables, NonNegative, Supported, Restrict, Marginal, Multiplied, Quotient;
    var separator := t.Separator(e);
    FactorCovers(t, card, s, e, from, to);
    assert CliqueOk(t, card, s.cliques, from) && CliqueOk(t, card, s.cliques, to) && SupportOk(t, s, f);
    if f == e {
      NewSeparator(s.cliques[from], t.cliques[from], separator, card);
      Covered(Marginal(s.cliques[from], separator), s.cliques[to], t.cliques[to], separator, card);
      QuotientSupported(s.cliques[to], Marginal(s.cliques[from], separator), s.separators[e], separator);
    } else if to == t.edges[f].0 || to == t.edges[f].1 {
      MultipliedSupported(s.cliques[to], Factor(t, s, e, from), separator, s.separators[f], t.Separator(f));
    }
  }

  function Product(s: seq<real>): real
  {
    if |s| == 0 then 1.0 else Times(Product(s[..|s| - 1]), s[|s| - 1])
  }

  lemma ProductSnoc(s: seq<real>, p: real)
    ensures Product(s + [p]) == Times(Product(s), p)
  {
    assert (s + [p])[..|s|] == s;
  }

  lemma Associate(a: real, b: real, c: real)
    ensures Times(a, Times(b, c)) == Times(Times(a, b), c)
    ensures Times(Times(a, b), c) == Times(Times(a, c), b)
  {
  }

  lemma ProductSplit(s: seq<real>, n: nat)
    requires |s| == n + 1
    ensures Product(s) == Times(Product(s[..n]), s[n])
  {
  }

  /** Scaling one factor scales the product. */
  lemma {:induction false} ProductScaled(s: seq<real>, i: nat, q: real)
    requires i < |s|
    ensures Product(s[i := Times(s[i], q)]) == Times(Product(s), q)
  {
    var n := |s| - 1;
    var front, scaled := s[..n], s[i := Times(s[i], q)];
    ProductSplit(s, n);
    ProductSplit(scaled, n);
    hide Product, Times;
    if i == n {
      assert scaled[..n] == front;
      Associate(Product(front), s[n], q);
    } else {
      ProductScaled(front, i, q);
      assert scaled[..n] == front[i := Times(front[i], q)];
      Associate(Product(front), q, s[n]);
    }
  }

  lemma {:induction false} ProductZero(s: seq<real>, i: nat)
    requires i < |s| && s[i] == 0.0
    ensures Product(s) == 0.0
  {
    if i < |s| - 1 { ProductZero(s[..|s| - 1], i); }
  }

  lemma {:induction false} ProductOfOnes(f: seq<real>)
    requires forall i :: 0 <= i < |f| ==> f[i] == 1.0
    ensures Product(f) == 1.0
  {
    if |f| > 0 { ProductOfOnes(f[..|f| - 1]); }
  }

  function CliqueFactors(t: JoinTree, cliques: seq<Table>, x: Assignment): (f: seq<real>)
    requires |cliques| <= t.Size()
  {
    seq(|cliques|, k requires 0 <= k < |cliques| => FactorAt(cliques[k], x, t.cliques[k]))
  }

  ghost function SeparatorFactors(t: JoinTree, separators: seq<Table>, x: Assignment): (f: seq<real>)
    requires t.WellFormed() && |separators| == |t.edges|
  {
    seq(|separators|, e requires 0 <= e < |separators| => FactorAt(separators[e], x, t.Separator(e)))
  }

  /** Cliques over separators, where 0 / 0 is 0. */
  function Over(above: real, below: real): real
  {
    if below == 0.0 then 0.0 else above / below
  }

  /** The weight the tables give to a full assignment. */
  ghost function Joint(t: JoinTree, s: TreeTables, x: Assignment): real
    requires t.WellFormed() && |s.cliques| == t.Size() && |s.separators| == |t.edges|
  {
    Over(Product(CliqueFactors(t, s.cliques, x)), Product(SeparatorFactors(t, s.separators, x)))
  }

  /** The factors at some places, and one everywhere else. */
  ghost function Masked(f: seq<real>, keep: set<nat>): (m: seq<real>)
    ensures |m| == |f| && forall i :: 0 <= i < |f| ==> m[i] == if i in keep then f[i] else 1.0
  {
    seq(|f|, i requires 0 <= i < |f| => if i in keep then f[i] else 1.0)
  }

  /** The edges between some nodes. */
  ghost function InnerEdges(t: JoinTree, nodes: set<nat>): (inner: set<nat>)
    ensures forall e: nat :: e in inner <==> e < |t.edges| && t.edges[e].0 in nodes && t.edges[e].1 in nodes
  {
    set e: nat | e < |t.edges| && t.edges[e].0 in nodes && t.edges[e].1 in nodes
  }

  /** The weight that the tables of some nodes and of the edges between them give to a full assignment. */
  ghost function PartWeight(t: JoinTree, s: TreeTables, nodes: set<nat>, x: Assignment): real
    requires t.WellFormed() && |s.cliques| == t.Size() && |s.separators| == |t.edges|
  {
    Over(Product(Masked(CliqueFactors(t, s.cliques, x), nodes)),
         Product(Masked(SeparatorFactors(t, s.separators, x), InnerEdges(t, nodes))))
  }

  ghost function AllNodes(t: JoinTree): (nodes: set<nat>)
    ensures forall k: nat :: k in nodes <==> k < t.Size()
  {
    Variables(t.Size())
  }

  /** All nodes together give the weight. */
  lemma WholeWeight(t: JoinTree, s: TreeTables, x: Assignment)
    requires t.WellFormed() && |s.cliques| == t.Size() && |s.separators| == |t.edges|
    ensures PartWeight(t, s, AllNodes(t), x) == Joint(t, s, x)
  {
    var above, below := CliqueFactors(t, s.cliques, x), SeparatorFactors(t, s.separators, x);
    hide FactorAt;
    assert Masked(above, AllNodes(t)) == above;
    assert Masked(below, InnerEdges(t, AllNodes(t))) == below;
  }

  function Variables(n: nat): (vars: set<nat>)
    ensures forall v: nat :: v in vars <==> v < n
  {
    if n == 0 then {} else Variables(n - 1) + {n - 1}
  }

  /** A value for every network node. */
  ghost predicate World(x: Assignment, card: seq<nat>)
  {
    Legal(x, Variables(|card|), card)
  }

  lemma WorldRestricts(x: Assignment, vars: set<nat>, card: seq<nat>)
    requires World(x, card) && AllVariables(vars, card)
    ensures Legal(Restrict(x, vars), vars, card)
  {
    RestrictLegal(x, Variables(|card|), vars, card);
  }

  lemma OverScaled(above: real, below: real, q: real)
    requires q == 0.0 ==> above == 0.0 || below == 0.0
    ensures Over(above, below) == Over(Times(above, q), Times(below, q))
  {
    if below != 0.0 && q != 0.0 {
      assert (above / below) * Times(below, q) == Times(above, q);
    }
  }

  /** Where the old separator is zero the new one is zero, too. */
  lemma ZeroStays(table: Table, oldSep: Table, separator: set<nat>, b: Assignment)
    requires NonNegative(table) && Supported(table, oldSep, separator)
    requires b in oldSep && oldSep[b] == 0.0 && b in Marginal(table, separator)
    ensures Marginal(table, separator)[b] == 0.0
  {
    hide InOrder, MarginalOf, Restrict;
    var order := Enumeration(table.Keys);
    MarginalEntry(table, order, separator, b);
    SumZero(table, order, separator, b);
    forall k | 0 <= k < |order| && Restrict(order[k], separator) == b
      ensures table[order[k]] == 0.0
    {
      assert order[k] in order;
    }
  }

  lemma RatioTimes(p: real, q: real)
    requires q == 0.0 ==> p == 0.0
    ensures Times(q, Ratio(p, q)) == p
    ensures Ratio(p, q) == 0.0 ==> p == 0.0
  {
  }

  lemma MultipliedAt(d: Table, temp: Table, separator: set<nat>, to: set<nat>, card: seq<nat>, x: Assignment)
    requires Full(d, to, card) && AllVariables(to, card) && separator <= to && World(x, card)
    requires forall a :: a in d ==> Restrict(a, separator) in temp
    ensures Restrict(x, separator) in temp
    ensures FactorAt(Multiplied(d, temp, separator), x, to) == Times(FactorAt(d, x, to), temp[Restrict(x, separator)])
  {
    WorldRestricts(x, to, card);
    RestrictTwice(x, to, separator);
    hide Restrict, Legal;
    assert Restrict(x, to) in d;
  }

  /** At a full assignment a separator changes by the factor of its message, and if that is zero so is the sender. */
  lemma SeparatorAt(source: Table, oldSep: Table, separator: set<nat>, from: set<nat>, card: seq<nat>, x: Assignment)
    requires Full(source, from, card) && NonNegative(source) && AllVariables(from, card) && separator <= from
    requires oldSep == map[] || Full(oldSep, separator, card)
    requires Supported(source, oldSep, separator) && World(x, card)
    ensures var newSep := Marginal(source, separator); var b := Restrict(x, separator);
      && b in newSep
      && FactorAt(newSep, x, separator) == Times(FactorAt(oldSep, x, separator), Quotient(newSep, oldSep)[b])
      && (Quotient(newSep, oldSep)[b] == 0.0 ==>
            FactorAt(source, x, from) == 0.0 || FactorAt(oldSep, x, separator) == 0.0)
  {
    hide InOrder, MarginalOf, Marginal, Enumeration;
    var newSep, b := Marginal(source, separator), Restrict(x, separator);
    NewSeparator(source, from, separator, card);
    WorldRestricts(x, from, card);
    WorldRestricts(x, separator, card);
    RestrictTwice(x, from, separator);
    hide Legal, Restrict;
    if b in oldSep && oldSep[b] == 0.0 { ZeroStays(source, oldSep, separator, b); }
    RatioTimes(newSep[b], FactorAt(oldSep, x, separator));
    hide Ratio, Times;
    assert Quotient(newSep, oldSep)[b] == Ratio(newSep[b], FactorAt(oldSep, x, separator));
    if newSep[b] == 0.0 { assert source[Restrict(x, from)] == 0.0; }
  }

  /** No message changes the weight of any full assignment. */
  lemma MessageKeepsJoint(t: JoinTree, card: seq<nat>, s: TreeTables, e: nat, from: nat, to: nat, x: Assignment)
    requires Consistent(t, card, s) && e < |t.edges| && t.Joins(e, from, to) && World(x, card)
    ensures Consistent(t, card, AfterMessage(t, card, s, e, from, to))
    ensures Joint(t, AfterMessage(t, card, s, e, from, to), x) == Joint(t, s, x)
  {
    MessageKeepsPart(t, card, s, e, from, to, AllNodes(t), x);
    WholeWeight(t, s, x);
    WholeWeight(t, AfterMessage(t, card, s, e, from, to), x);
  }

  lemma MaskedScaled(f: seq<real>, keep: set<nat>, i: nat, q: real)
    requires i < |f|
    ensures Masked(f[i := Times(f[i], q)], keep)
            == if i in keep then Masked(f, keep)[i := Times(Masked(f, keep)[i], q)] else Masked(f, keep)
  {
    hide Times;
  }

  /** Nor does a message change the weight of a part of the tree that contains both its ends or none. */
  lemma MessageKeepsPart(t: JoinTree, card: seq<nat>, s: TreeTables, e: nat, from: nat, to: nat, nodes: set<nat>, x: Assignment)
    requires Consistent(t, card, s) && e < |t.edges| && t.Joins(e, from, to) && World(x, card)
    requires from in nodes <==> to in nodes
    ensures Consistent(t, card, AfterMessage(t, card, s, e, from, to))
    ensures PartWeight(t, AfterMessage(t, card, s, e, from, to), nodes, x) == PartWeight(t, s, nodes, x)
  {
    MessageKeepsConsistent(t, card, s, e, from, to);
    var q := MessageFactor(t, card, s, e, from, to, x);
    hide Consistent, AfterMessage, Product, Times, FactorAt, Over, World;
    var above, below := CliqueFactors(t, s.cliques, x), SeparatorFactors(t, s.separators, x);
    var inner := InnerEdges(t, nodes);
    MaskedScaled(above, nodes, to, q);
    MaskedScaled(below, inner, e, q);
    if to in nodes {
      var f, g := Masked(above, nodes), Masked(below, inner);
      ProductScaled(f, to, q);
      ProductScaled(g, e, q);
      if q == 0.0 {
        if above[from] == 0.0 { ProductZero(f, from); } else { ProductZero(g, e); }
      }
      OverScaled(Product(f), Product(g), q);
    }
  }

  /** At a full assignment a message scales the receiver and the separator alike. */
  lemma MessageFactor(t: JoinTree, card: seq<nat>, s: TreeTables, e: nat, from: nat, to: nat, x: Assignment)
    returns (q: real)
    requires Consistent(t, card, s) && e < |t.edges| && t.Joins(e, from, to) && World(x, card)
    ensures from < t.Size() && to < t.Size()
    ensures var s' := AfterMessage(t, card, s, e, from, to);
      var above, below := CliqueFactors(t, s.cliques, x), SeparatorFactors(t, s.separators, x);
      && |s'.cliques| == t.Size() && |s'.separators| == |t.edges|
      && CliqueFactors(t, s'.cliques, x) == above[to := Times(above[to], q)]
      && SeparatorFactors(t, s'.separators, x) == below[e := Times(below[e], q)]
      && (q == 0.0 ==> above[from] == 0.0 || below[e] == 0.0)
  {
    hide Legal, Restrict, Marginal, Full, NonNegative, Supported, AllVariables, Quotient, Multiplied, FactorAt, Times;
    var separator := t.Separator(e);
    assert CliqueOk(t, card, s.cliques, from) && CliqueOk(t, card, s.cliques, to);
    assert SeparatorOk(t, card, s.separators, e) && SupportOk(t, s, e);
    FactorCovers(t, card, s, e, from, to);
    MultipliedAt(s.cliques[to], Factor(t, s, e, from), separator, t.cliques[to], card, x);
    SeparatorAt(s.cliques[from], s.separators[e], separator, t.cliques[from], card, x);
    q := Factor(t, s, e, from)[Restrict(x, separator)];
  }
}
