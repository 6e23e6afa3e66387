/** Counting through all assignments of values to the nodes of a clique. */
module Odometers {
  import opened Tables

  /** The keys are different nodes, and the assignment gives each a legal value. */
  ghost predicate Counts(keys: seq<nat>, card: seq<nat>, a: Assignment)
  {
    && (forall i, j :: 0 <= i < j < |keys| ==> keys[i] != keys[j])
    && (forall i :: 0 <= i < |keys| ==> keys[i] < |card| && keys[i] in a && a[keys[i]] < card[keys[i]])
  }

  function Mul(c: nat, r: nat): nat
  {
    c * r
  }

  /** How many assignments come before a; the first key counts fastest. */
  function Rank(keys: seq<nat>, card: seq<nat>, a: Assignment): nat
    requires forall i :: 0 <= i < |keys| ==> keys[i] < |card| && keys[i] in a
  {
    if |keys| == 0 then 0 else a[keys[0]] + Mul(card[keys[0]], Rank(keys[1..], card, a))
  }

  function Combinations(keys: seq<nat>, card: seq<nat>): nat
    requires forall i :: 0 <= i < |keys| ==> keys[i] < |card|
  {
    if |keys| == 0 then 1 else Mul(card[keys[0]], Combinations(keys[1..], card))
  }

  /** One up, with a carry for every overflow; no more when even the last key overflows. */
  function Next(keys: seq<nat>, card: seq<nat>, a: Assignment): (r: (Assignment, bool))
    requires forall i :: 0 <= i < |keys| ==> keys[i] < |card| && keys[i] in a
  {
    if |keys| == 0 then (a, false)
    else if a[keys[0]] + 1 == card[keys[0]] then Next(keys[1..], card, a[keys[0] := 0])
    else (a[keys[0] := a[keys[0]] + 1], true)
  }

  /** Advances to the next assignment. */
  method Advance(value: Assignment, keys: seq<nat>, card: seq<nat>) returns (next: Assignment, more: bool)
    requires forall i :: 0 <= i < |keys| ==> keys[i] < |card| && keys[i] in value
    ensures (next, more) == Next(keys, card, value)
  {
    next := value;
    more := false;
    var i := 0;
    assert keys[0..] == keys;
    while i < |keys|
      invariant 0 <= i <= |keys| && !more
      invariant forall j :: 0 <= j < |keys| ==> keys[j] in next
      invariant Next(keys[i..], card, next) == Next(keys, card, value)
    {
      assert keys[i..][1..] == keys[i + 1..];
      ghost var before := next;
      next := next[keys[i] := next[keys[i]] + 1];
      if next[keys[i]] == card[keys[i]] {
        next := next[keys[i] := 0];
        assert next == before[keys[i] := 0];
      } else {
        more := true;
        return;
      }
      i := i + 1;
    }
  }

  lemma {:induction false} RankSame(keys: seq<nat>, card: seq<nat>, a: Assignment, b: Assignment)
    requires forall i :: 0 <= i < |keys| ==> keys[i] < |card| && keys[i] in a && keys[i] in b && a[keys[i]] == b[keys[i]]
    ensures Rank(keys, card, a) == Rank(keys, card, b)
  {
    if |keys| > 0 { RankSame(keys[1..], card, a, b); }
  }

  lemma {:induction false} NextKeeps(keys: seq<nat>, card: seq<nat>, a: Assignment)
    requires Counts(keys, card, a)
    ensures var b := Next(keys, card, a).0;
      b.Keys == a.Keys && Counts(keys, card, b) && forall v :: v in a && v !in keys ==> b[v] == a[v]
  {
    if |keys| > 0 && a[keys[0]] + 1 == card[keys[0]] {
      NextKeeps(keys[1..], card, a[keys[0] := 0]);
    }
  }

  /** An overflow of the first key carries into the rank of the others. */
  lemma CarryRank(keys: seq<nat>, card: seq<nat>, a: Assignment, b: Assignment, more: bool)
    requires |keys| > 0
    requires forall i :: 0 <= i < |keys| ==> keys[i] < |card| && keys[i] in a && keys[i] in b
    requires a[keys[0]] + 1 == card[keys[0]] && b[keys[0]] == 0
    requires Rank(keys[1..], card, a) + 1 == if more then Rank(keys[1..], card, b) else Combinations(keys[1..], card)
    ensures Rank(keys, card, a) + 1 == if more then Rank(keys, card, b) else Combinations(keys, card)
  {
    hide Mul;
    CarryArithmetic(card[keys[0]], Rank(keys[1..], card, a));
  }

  /** The next assignment has the next rank; after the last one there is no next. */
  lemma {:induction false} NextRank(keys: seq<nat>, card: seq<nat>, a: Assignment)
    requires Counts(keys, card, a)
    ensures Counts(keys, card, Next(keys, card, a).0)
    ensures var (b, more) := Next(keys, card, a);
      Rank(keys, card, a) + 1 == if more then Rank(keys, card, b) else Combinations(keys, card)
  {
    hide Mul;
    NextKeeps(keys, card, a);
    if |keys| > 0 {
      var k, rest := keys[0], keys[1..];
      if a[k] + 1 == card[k] {
        var zeroed := a[k := 0];
        assert Counts(rest, card, zeroed) && k !in rest;
        NextKeeps(rest, card, zeroed);
        NextRank(rest, card, zeroed);
        RankSame(rest, card, a, zeroed);
        assert Next(keys, card, a) == Next(rest, card, zeroed);
        hide Next, Rank, Combinations;
        var (b, more) := Next(rest, card, zeroed);
        CarryRank(keys, card, a, b, more);
      } else {
        StepRank(keys, card, a);
      }
    }
  }

  lemma StepRank(keys: seq<nat>, card: seq<nat>, a: Assignment)
    requires Counts(keys, card, a) && |keys| > 0 && a[keys[0]] + 1 != card[keys[0]]
    ensures var b := a[keys[0] := a[keys[0]] + 1];
      Next(keys, card, a) == (b, true) && Rank(keys, card, b) == Rank(keys, card, a) + 1
  {
    RankSame(keys[1..], card, a, a[keys[0] := a[keys[0]] + 1]);
  }

  lemma MultiplyMonotone(c: nat, m: nat, n: nat)
    requires m <= n
    ensures c * m <= c * n
  {
  }

  lemma MultiplyOut(c: nat, r: nat)
    ensures c * (r + 1) == c * r + c
  {
  }

  lemma CarryArithmetic(c: nat, r: nat)
    ensures Mul(c, r + 1) == c + Mul(c, r)
  {
  }

  /** The rank is below the number of combinations. */
  lemma {:induction false} RankBound(keys: seq<nat>, card: seq<nat>, a: Assignment)
    requires Counts(keys, card, a)
    ensures Rank(keys, card, a) < Combinations(keys, card)
  {
    if |keys| > 0 {
      RankBound(keys[1..], card, a);
      BoundArithmetic(a[keys[0]], card[keys[0]], Rank(keys[1..], card, a), Combinations(keys[1..], card));
    }
  }

  lemma BoundArithmetic(d: nat, c: nat, r: nat, n: nat)
    requires d < c && r < n
    ensures d + Mul(c, r) < Mul(c, n)
  {
    MultiplyMonotone(c, r + 1, n);
    MultiplyOut(c, r);
  }

  /** Different assignments have different ranks. */
  lemma {:induction false} RankInjective(keys: seq<nat>, card: seq<nat>, a: Assignment, b: Assignment)
    requires Counts(keys, card, a) && Counts(keys, card, b) && Rank(keys, card, a) == Rank(keys, card, b)
    ensures forall i :: 0 <= i < |keys| ==> a[keys[i]] == b[keys[i]]
  {
    if |keys| > 0 {
      var k, rest := keys[0], keys[1..];
      DigitUnique(card[k], a[k], Rank(rest, card, a), b[k], Rank(rest, card, b));
      RankInjective(rest, card, a, b);
      assert forall i :: 1 <= i < |keys| ==> keys[i] == rest[i - 1];
    }
  }

  lemma DigitUnique(c: nat, d: nat, r: nat, e: nat, q: nat)
    requires d < c && e < c && d + Mul(c, r) == e + Mul(c, q)
    ensures d == e && r == q
  {
    if r < q { BoundArithmetic(d, c, r, q); }
    if q < r { BoundArithmetic(e, c, q, r); }
  }

  /** Only the assignment of zeros has rank zero. */
  lemma {:induction false} RankOfZeros(keys: seq<nat>, card: seq<nat>, a: Assignment)
    requires forall i :: 0 <= i < |keys| ==> keys[i] < |card| && keys[i] in a && a[keys[i]] == 0
    ensures Rank(keys, card, a) == 0
  {
    if |keys| > 0 { RankOfZeros(keys[1..], card, a); }
  }
}
