/** Sums over sets of assignments. */
module Totals {
  import opened Messages
  import opened Propagation
  import opened Tables

  /** The sum of some entries of a table. */
  ghost function Total(f: Table, s: set<Assignment>): real
    requires s <= f.Keys
    decreases |s|
  {
    if s == {} then 0.0 else var a :| a in s; f[a] + Total(f, s - {a})
  }

  /** The sum does not depend on the order. */
  lemma {:induction false} TotalSplit(f: Table, s: set<Assignment>, a: Assignment)
    requires a in s && s <= f.Keys
    ensures Total(f, s) == f[a] + Total(f, s - {a})
    decreases |s|
  {
    var b :| b in s && Total(f, s) == f[b] + Total(f, s - {b});
    if b != a {
      TotalSplit(f, s - {b}, a);
      TotalSplit(f, s - {a}, b);
      assert s - {a} - {b} == s - {b} - {a};
    }
  }

  lemma {:induction false} TotalOfUnion(f: Table, s: set<Assignment>, s': set<Assignment>)
    requires s + s' <= f.Keys && s !! s'
    ensures Total(f, s + s') == Total(f, s) + Total(f, s')
    decreases |s|
  {
    if s == {} {
      assert s + s' == s';
    } else {
      var a :| a in s;
      TotalSplit(f, s, a);
      TotalSplit(f, s + s', a);
      assert (s + s') - {a} == (s - {a}) + s';
      TotalOfUnion(f, s - {a}, s');
    }
  }

  lemma TotalWith(f: Table, s: set<Assignment>, a: Assignment)
    requires a !in s && s + {a} <= f.Keys
    ensures Total(f, s + {a}) == Total(f, s) + f[a]
  {
    TotalSplit(f, s + {a}, a);
    assert (s + {a}) - {a} == s;
  }

  lemma TotalOfNone(f: Table)
    ensures Total(f, {}) == 0.0
  {
  }

  lemma TotalOfOne(f: Table, a: Assignment)
    requires a in f
    ensures Total(f, {a}) == f[a]
  {
    TotalSplit(f, {a}, a);
    assert {a} - {a} == {};
  }

  lemma {:induction false} TotalScaled(f: Table, g: Table, s: set<Assignment>, q: real)
    requires s <= f.Keys && s <= g.Keys && forall a :: a in s ==> g[a] == Times(q, f[a])
    ensures Total(g, s) == Times(q, Total(f, s))
    decreases |s|
  {
    if s != {} {
      var a :| a in s;
      TotalSplit(f, s, a);
      TotalSplit(g, s, a);
      TotalScaled(f, g, s - {a}, q);
      TimesDistributes(q, f[a], Total(f, s - {a}));
    }
  }

  lemma TimesDistributes(q: real, a: real, b: real)
    ensures Times(q, a + b) == Times(q, a) + Times(q, b)
  {
  }

  lemma {:induction false} TotalAtMost(f: Table, g: Table, s: set<Assignment>)
    requires s <= f.Keys && s <= g.Keys && forall a :: a in s ==> f[a] <= g[a]
    ensures Total(f, s) <= Total(g, s)
    decreases |s|
  {
    if s != {} {
      var a :| a in s;
      TotalSplit(f, s, a);
      TotalSplit(g, s, a);
      TotalAtMost(f, g, s - {a});
    }
  }

  lemma TotalSame(f: Table, g: Table, s: set<Assignment>)
    requires s <= f.Keys && s <= g.Keys && forall a :: a in s ==> f[a] == g[a]
    ensures Total(f, s) == Total(g, s)
  {
    TotalAtMost(f, g, s);
    TotalAtMost(g, f, s);
  }

  ghost function Fibre(s: set<Assignment>, home: map<Assignment, Assignment>, b: Assignment): (fibre: set<Assignment>)
    requires s <= home.Keys
    ensures fibre <= s
  {
    set a | a in s && home[a] == b
  }

  /** Summing group by group. */
  lemma {:induction false} TotalGrouped(f: Table, s: set<Assignment>, home: map<Assignment, Assignment>,
                                        g: Table, homes: set<Assignment>)
    requires s <= f.Keys && homes <= g.Keys && s <= home.Keys && forall a :: a in s ==> home[a] in homes
    requires forall b :: b in homes ==> g[b] == Total(f, Fibre(s, home, b))
    ensures Total(f, s) == Total(g, homes)
    decreases |homes|
  {
    if homes == {} {
      assert s == {};
    } else {
      var b :| b in homes;
      var fibre := Fibre(s, home, b);
      var rest := s - fibre;
      TotalSplit(g, homes, b);
      assert fibre + rest == s;
      TotalOfUnion(f, fibre, rest);
      forall b' | b' in homes - {b}
        ensures g[b'] == Total(f, Fibre(rest, home, b'))
      {
        assert Fibre(rest, home, b') == Fibre(s, home, b');
      }
      TotalGrouped(f, rest, home, g, homes - {b});
    }
  }

  /** Summing over other names of the same things, up to a factor. */
  lemma TotalRenamed(f: Table, s: set<Assignment>, name: map<Assignment, Assignment>, g: Table, names: set<Assignment>, q: real)
    requires s <= f.Keys && names <= g.Keys && s <= name.Keys
    requires forall a :: a in s ==> name[a] in names && f[a] == Times(q, g[name[a]])
    requires forall a, b :: a in s && b in s && name[a] == name[b] ==> a == b
    requires forall c :: c in names ==> exists a :: a in s && name[a] == c
    ensures Total(f, s) == Times(q, Total(g, names))
  {
    hide Times;
    var scaled := map c | c in names :: Times(q, g[c]);
    forall c | c in names
      ensures scaled[c] == Total(f, Fibre(s, name, c))
    {
      var a :| a in s && name[a] == c;
      assert Fibre(s, name, c) == {a};
      TotalOfOne(f, a);
    }
    TotalGrouped(f, s, name, scaled, names);
    TotalScaled(g, scaled, names, q);
  }

  /** The listed assignments that agree with b. */
  ghost function Listed(order: seq<Assignment>, vars: set<nat>, b: Assignment): (s: set<Assignment>)
    ensures forall a :: a in s <==> a in order && Restrict(a, vars) == b
  {
    set a | a in order && Restrict(a, vars) == b
  }

  lemma ListedStep(order: seq<Assignment>, n: nat, vars: set<nat>, b: Assignment)
    requires |order| == n + 1 && InOrder(order)
    ensures InOrder(order[..n]) && order[n] !in order[..n] && order == order[..n] + [order[n]]
    ensures var all, some := Listed(order, vars, b), Listed(order[..n], vars, b);
      if Restrict(order[n], vars) == b then order[n] in all && all - {order[n]} == some else all == some
  {
    hide Restrict, Less;
    var front, last := order[..n], order[n];
    assert order == front + [last];
    forall i | 0 <= i < n
      ensures front[i] != last
    {
      InOrderDistinct(order, i, n);
    }
  }

  /** The sum behind a marginal entry. */
  lemma {:induction false} SumIsTotal(table: Table, order: seq<Assignment>, vars: set<nat>, b: Assignment)
    requires InOrder(order) && forall a :: a in order ==> a in table
    ensures Sum(table, order, vars, b) == Total(table, Listed(order, vars, b))
  {
    hide Restrict, InOrder, Listed;
    if |order| == 0 {
      assert Listed(order, vars, b) == {};
    } else {
      var n := |order| - 1;
      ListedStep(order, n, vars, b);
      SumIsTotal(table, order[..n], vars, b);
      if Restrict(order[n], vars) == b { TotalSplit(table, Listed(order, vars, b), order[n]); }
    }
  }

  /** All legal assignments to some variables. */
  ghost function Legals(vars: set<nat>, card: seq<nat>): (s: set<Assignment>)
    ensures forall a :: a in s <==> Legal(a, vars, card)
    decreases |vars|
  {
    if vars == {} then {map[]}
    else
      var v :| v in vars;
      LegalStep(vars, card, v, Legals(vars - {v}, card));
      set a, k: nat | a in Legals(vars - {v}, card) && k < ValuesOf(v, card) :: Put(a, v, k)
  }

  function ValuesOf(v: nat, card: seq<nat>): nat
  {
    if v < |card| then card[v] else 0
  }

  function Put(a: Assignment, v: nat, k: nat): Assignment
  {
    a[v := k]
  }

  lemma LegalStep(vars: set<nat>, card: seq<nat>, v: nat, rest: set<Assignment>)
    requires v in vars && forall a :: a in rest <==> Legal(a, vars - {v}, card)
    ensures forall a :: Legal(a, vars, card) <==> a in set a, k: nat | a in rest && k < ValuesOf(v, card) :: Put(a, v, k)
  {
    var all := set a, k: nat | a in rest && k < ValuesOf(v, card) :: Put(a, v, k);
    forall a | Legal(a, vars, card)
      ensures a in all
    {
      var a' := a - {v};
      assert Legal(a', vars - {v}, card);
      assert a' in rest && a == Put(a', v, a[v]);
    }
    forall a | a in all
      ensures Legal(a, vars, card)
    {
      var a', k: nat :| a' in rest && k < ValuesOf(v, card) && a == Put(a', v, k);
      assert Legal(a', vars - {v}, card);
      assert a.Keys == vars;
    }
  }

  ghost function Worlds(card: seq<nat>): (s: set<Assignment>)
    ensures forall x :: x in s <==> World(x, card)
  {
    Legals(Variables(|card|), card)
  }

  /** Equal but for some variables. */
  ghost predicate EqualBut(x: Assignment, y: Assignment, vars: set<nat>)
  {
    x.Keys == y.Keys && forall v :: v in x && v !in vars ==> x[v] == y[v]
  }

  /** All full assignments that differ from y in the given variables at most. */
  ghost function Variations(card: seq<nat>, y: Assignment, vars: set<nat>): (s: set<Assignment>)
    ensures forall x :: x in s <==> World(x, card) && EqualBut(x, y, vars)
    ensures s <= Worlds(card)
  {
    set x | x in Worlds(card) && EqualBut(x, y, vars)
  }

  /** x with some variables as in y. */
  function Reset(x: Assignment, y: Assignment, vars: set<nat>): (z: Assignment)
    requires x.Keys == y.Keys
    ensures z.Keys == x.Keys && forall v :: v in x ==> z[v] == if v in vars then y[v] else x[v]
  {
    map v | v in x :: if v in vars then y[v] else x[v]
  }

  lemma ResetVariation(card: seq<nat>, x: Assignment, y: Assignment, outer: set<nat>, inner: set<nat>)
    requires World(y, card) && outer !! inner && x in Variations(card, y, outer + inner)
    ensures x.Keys == y.Keys && Reset(x, y, inner) in Variations(card, y, outer)
  {
  }

  lemma VariationFibre(card: seq<nat>, x: Assignment, y: Assignment, outer: set<nat>, inner: set<nat>, z: Assignment)
    requires World(y, card) && outer !! inner && z in Variations(card, y, outer)
    ensures x in Variations(card, z, inner) <==>
            x in Variations(card, y, outer + inner) && x.Keys == y.Keys && Reset(x, y, inner) == z
  {
    if x in Variations(card, z, inner) {
      assert EqualBut(x, y, outer + inner);
      assert Reset(x, y, inner) == z;
    }
    if x in Variations(card, y, outer + inner) && Reset(x, y, inner) == z {
      assert forall v :: v in x ==> z[v] == if v in inner then y[v] else x[v];
    }
  }

  /** Summing over the outer variables the sums over the inner ones. */
  lemma TotalNested(card: seq<nat>, y: Assignment, outer: set<nat>, inner: set<nat>, f: Table, g: Table)
    requires World(y, card) && outer !! inner
    requires Variations(card, y, outer + inner) <= f.Keys && Variations(card, y, outer) <= g.Keys
    requires forall z :: z in Variations(card, y, outer) ==>
                Variations(card, z, inner) <= f.Keys && g[z] == Total(f, Variations(card, z, inner))
    ensures Total(f, Variations(card, y, outer + inner)) == Total(g, Variations(card, y, outer))
  {
    hide World, EqualBut, Reset, Variations;
    var s := Variations(card, y, outer + inner);
    forall x | x in s
      ensures x.Keys == y.Keys && Reset(x, y, inner) in Variations(card, y, outer)
    {
      ResetVariation(card, x, y, outer, inner);
    }
    var home := map x | x in s :: Reset(x, y, inner);
    forall z | z in Variations(card, y, outer)
      ensures Fibre(s, home, z) == Variations(card, z, inner)
    {
      forall x
        ensures x in Fibre(s, home, z) <==> x in Variations(card, z, inner)
      {
        VariationFibre(card, x, y, outer, inner, z);
      }
    }
    TotalGrouped(f, s, home, g, Variations(card, y, outer));
  }
}
