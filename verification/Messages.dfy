/** Marginal tables, and what one message does to the tables of a join tree. */
module Messages {
  import opened Tables

  /** The part of an assignment that concerns some variables. */
  function Restrict(a: Assignment, vars: set<nat>): (b: Assignment)
    ensures b.Keys == a.Keys * vars
  {
    map v | v in a && v in vars :: a[v]
  }

  lemma RestrictTwice(a: Assignment, vars: set<nat>, fewer: set<nat>)
    requires fewer <= vars
    ensures Restrict(Restrict(a, vars), fewer) == Restrict(a, fewer)
  {
  }

  /** Copies the entries of some variables, in ascending order. */
  method Project(asrc: Assignment, vars: set<nat>) returns (a: Assignment)
    ensures a == Restrict(asrc, vars)
  {
    hide Ascending;
    var keys := Sorted(asrc.Keys);
    a := map[];
    var i := 0;
    while i < |keys|
      invariant 0 <= i <= |keys|
      invariant forall v :: v in a <==> v in keys[..i] && v in vars
      invariant forall v :: v in a ==> v in asrc && a[v] == asrc[v]
    {
      if keys[i] in vars {
        a := a[keys[i] := asrc[keys[i]]];
      }
      i := i + 1;
    }
    assert keys[..i] == keys;
  }

  /** Adds to an entry, saturating at one; a new entry is stored as it is. */
  function AddProbability(table: Table, a: Assignment, p: real): Table
  {
    if a in table then
      var sum := table[a] + p;
      table[a := if sum > 1.0 then 1.0 else sum]
    else table[a := p]
  }

  /** Marginalizing the entries listed in order. */
  function MarginalOf(table: Table, order: seq<Assignment>, vars: set<nat>): Table
    requires forall a :: a in order ==> a in table
  {
    if |order| == 0 then map[]
    else
      var last := order[|order| - 1];
      AddProbability(MarginalOf(table, order[..|order| - 1], vars), Restrict(last, vars), table[last])
  }

  function Marginal(table: Table, vars: set<nat>): Table
  {
    MarginalOf(table, Enumeration(table.Keys), vars)
  }

  lemma MarginalStep(table: Table, order: seq<Assignment>, vars: set<nat>, i: nat)
    requires i < |order| && forall a :: a in order ==> a in table
    ensures order[i] in table
    ensures MarginalOf(table, order[..i + 1], vars)
         == AddProbability(MarginalOf(table, order[..i], vars), Restrict(order[i], vars), table[order[i]])
  {
    assert order[..i + 1][..i] == order[..i];
    assert order[i] in order;
  }

  method Marginalize(table: Table, vars: set<nat>) returns (out: Table)
    ensures out == Marginal(table, vars)
  {
    var order := Enumeration(table.Keys);
    hide InOrder, AddProbability, Restrict, MarginalOf, Enumeration;
    out := map[];
    assert out == MarginalOf(table, order[..0], vars) by { NoMarginal(table, order[..0], vars); }
    var i := 0;
    while i < |order|
      invariant 0 <= i <= |order|
      invariant out == MarginalOf(table, order[..i], vars)
    {
      MarginalStep(table, order, vars, i);
      var a := Project(order[i], vars);
      out := AddProbability(out, a, table[order[i]]);
      i := i + 1;
    }
    assert order[..i] == order;
  }

  lemma NoMarginal(table: Table, order: seq<Assignment>, vars: set<nat>)
    requires |order| == 0
    ensures MarginalOf(table, order, vars) == map[]
  {
  }

  /** The sum of the entries that agree with b, without saturation. */
  function Sum(table: Table, order: seq<Assignment>, vars: set<nat>, b: Assignment): real
    requires forall a :: a in order ==> a in table
  {
    if |order| == 0 then 0.0
    else
      var last := order[|order| - 1];
      Sum(table, order[..|order| - 1], vars, b) + if Restrict(last, vars) == b then table[last] else 0.0
  }

  ghost predicate NonNegative(table: Table)
  {
    forall a :: a in table ==> table[a] >= 0.0
  }

  ghost predicate Occurs(order: seq<Assignment>, vars: set<nat>, b: Assignment)
  {
    exists k :: 0 <= k < |order| && Restrict(order[k], vars) == b
  }

  /** An entry of a marginal is zero exactly if all it sums up is, and it is the sum as long as that is at most one. */
  lemma {:induction false} MarginalEntry(table: Table, order: seq<Assignment>, vars: set<nat>, b: Assignment)
    requires NonNegative(table) && forall a :: a in order ==> a in table
    ensures var out := MarginalOf(table, order, vars); var sum := Sum(table, order, vars, b);
      && (b in out <==> Occurs(order, vars, b)) && sum >= 0.0
      && (b !in out ==> sum == 0.0)
      && (b in out ==> out[b] >= 0.0 && (out[b] == 0.0 <==> sum == 0.0) && (sum <= 1.0 ==> out[b] == sum))
  {
    if |order| > 0 {
      var n := |order| - 1;
      MarginalEntry(table, order[..n], vars, b);
      OccursStep(order, n, vars, b);
      hide Occurs, Restrict;
      assert order[n] in order;
    }
  }

  lemma OccursStep(order: seq<Assignment>, n: nat, vars: set<nat>, b: Assignment)
    requires |order| == n + 1
    ensures Occurs(order, vars, b) <==> Occurs(order[..n], vars, b) || Restrict(order[n], vars) == b
  {
    hide Restrict;
    var front := order[..n];
    assert forall k :: 0 <= k < n ==> order[k] == front[k];
    if Occurs(order, vars, b) && Restrict(order[n], vars) != b {
      var k :| 0 <= k < |order| && Restrict(order[k], vars) == b;
      assert front[k] == order[k];
    }
    if Occurs(front, vars, b) {
      var k :| 0 <= k < |front| && Restrict(front[k], vars) == b;
      assert order[k] == front[k];
    }
  }

  /** A sum of entries is zero exactly if each of them is. */
  lemma {:induction false} SumZero(table: Table, order: seq<Assignment>, vars: set<nat>, b: Assignment)
    requires NonNegative(table) && forall a :: a in order ==> a in table
    ensures Sum(table, order, vars, b) >= 0.0
    ensures Sum(table, order, vars, b) == 0.0 <==>
            forall k :: 0 <= k < |order| && Restrict(order[k], vars) == b ==> table[order[k]] == 0.0
  {
    if |order| > 0 {
      var n := |order| - 1;
      var front := order[..n];
      SumZero(table, front, vars, b);
      assert forall k :: 0 <= k < n ==> order[k] == front[k];
      assert table[order[n]] >= 0.0;
    }
  }
}
