/** Assignments of values to network nodes, their order, and tables of probabilities. */
module Tables {

  /** The values of some network nodes. */
  type Assignment = map<nat, nat>

  type Table = map<Assignment, real>

  predicate IsMinimum(s: set<nat>, m: nat)
  {
    m in s && forall k :: k in s ==> m <= k
  }

  lemma {:induction false} HasMinimum(s: set<nat>)
    requires s != {}
    ensures exists m :: IsMinimum(s, m)
    decreases |s|
  {
    var x :| x in s;
    var rest := s - {x};
    assert forall k :: k in s ==> k == x || k in rest;
    if rest == {} {
      assert IsMinimum(s, x);
    } else {
      assert |rest| < |s|;
      HasMinimum(rest);
      var m :| IsMinimum(rest, m);
      assert IsMinimum(s, if x < m then x else m);
    }
  }

  predicate Ascending(keys: seq<nat>)
  {
    forall i, j :: 0 <= i < j < |keys| ==> keys[i] < keys[j]
  }

  ghost predicate Lists(keys: seq<nat>, s: set<nat>)
  {
    |keys| == |s| && (forall k :: k in keys <==> k in s) && forall i :: 0 <= i < |keys| ==> keys[i] in s
  }

  /** The elements of a set in ascending order. */
  function Sorted(s: set<nat>): (keys: seq<nat>)
    ensures Lists(keys, s) && Ascending(keys)
    decreases |s|
  {
    if s == {} then [] else
      HasMinimum(s);
      var m :| IsMinimum(s, m);
      assert |s - {m}| == |s| - 1;
      SortedStep(s, m, Sorted(s - {m}));
      [m] + Sorted(s - {m})
  }

  lemma SortedStep(s: set<nat>, m: nat, rest: seq<nat>)
    requires IsMinimum(s, m) && Lists(rest, s - {m}) && Ascending(rest)
    ensures Lists([m] + rest, s) && Ascending([m] + rest)
  {
    forall i | 0 <= i < |rest|
      ensures m < rest[i]
    {
      assert rest[i] in rest;
    }
    assert forall k :: k in [m] + rest <==> k == m || k in rest;
  }

  /** The keys and values of an assignment in ascending order of the keys. */
  function Pairs(a: Assignment): (pairs: seq<(nat, nat)>)
    ensures |pairs| == |a|
  {
    var keys := Sorted(a.Keys);
    seq(|keys|, i requires 0 <= i < |keys| => (keys[i], a[keys[i]]))
  }

  lemma PairsInjective(a: Assignment, b: Assignment)
    requires Pairs(a) == Pairs(b)
    ensures a == b
  {
    var keys := Sorted(a.Keys);
    SameKeys(a, b);
    forall k | k in a
      ensures a[k] == b[k]
    {
      var i :| 0 <= i < |keys| && keys[i] == k;
      assert Pairs(a)[i] == Pairs(b)[i];
    }
  }

  lemma SameKeys(a: Assignment, b: Assignment)
    requires Pairs(a) == Pairs(b)
    ensures a.Keys == b.Keys && Sorted(a.Keys) == Sorted(b.Keys)
  {
    hide Ascending;
    var keys, keys' := Sorted(a.Keys), Sorted(b.Keys);
    forall i | 0 <= i < |keys|
      ensures keys[i] == keys'[i]
    {
      assert Pairs(a)[i] == Pairs(b)[i];
    }
    assert keys == keys';
    assert forall k :: k in a.Keys <==> k in b.Keys;
  }

  /** The first difference decides, and a key counts more than its value. */
  predicate LexLess(p: seq<(nat, nat)>, q: seq<(nat, nat)>)
    requires |p| == |q|
  {
    if |p| == 0 then false
    else if p[0].0 != q[0].0 then p[0].0 < q[0].0
    else if p[0].1 != q[0].1 then p[0].1 < q[0].1
    else LexLess(p[1..], q[1..])
  }

  lemma {:induction false} LexTotal(p: seq<(nat, nat)>, q: seq<(nat, nat)>)
    requires |p| == |q|
    ensures LexLess(p, q) || LexLess(q, p) || p == q
    ensures !(LexLess(p, q) && LexLess(q, p))
  {
    if |p| > 0 {
      LexTotal(p[1..], q[1..]);
      assert p == [p[0]] + p[1..] && q == [q[0]] + q[1..];
    }
  }

  lemma {:induction false} LexTransitive(p: seq<(nat, nat)>, q: seq<(nat, nat)>, r: seq<(nat, nat)>)
    requires |p| == |q| == |r| && LexLess(p, q) && LexLess(q, r)
    ensures LexLess(p, r)
  {
    if p[0] == q[0] == r[0] { LexTransitive(p[1..], q[1..], r[1..]); }
  }

  /** The order of assignments: shorter ones first, then by keys and values. */
  predicate Less(a: Assignment, b: Assignment)
  {
    |a| < |b| || (|a| == |b| && LexLess(Pairs(a), Pairs(b)))
  }

  /** The assignment with fewer nodes is less; among equally large ones the lowest node or value that differs decides. */
  lemma FirstDifference(a: Assignment, b: Assignment, i: nat)
    ensures |a| < |b| ==> Less(a, b) && !Less(b, a)
    ensures i < |a| == |b| && (forall j :: 0 <= j < i ==> Pairs(a)[j] == Pairs(b)[j]) && Pairs(a)[i] != Pairs(b)[i] ==>
      var (k, v), (l, w) := Pairs(a)[i], Pairs(b)[i]; Less(a, b) <==> k < l || (k == l && v < w)
  {
    if i < |a| == |b| && (forall j :: 0 <= j < i ==> Pairs(a)[j] == Pairs(b)[j]) {
      LexAt(Pairs(a), Pairs(b), i);
    }
  }

  lemma {:induction false} LexAt(p: seq<(nat, nat)>, q: seq<(nat, nat)>, i: nat)
    requires i < |p| == |q| && forall j :: 0 <= j < i ==> p[j] == q[j]
    ensures p[i] != q[i] ==> (LexLess(p, q) <==> p[i].0 < q[i].0 || (p[i].0 == q[i].0 && p[i].1 < q[i].1))
  {
    if i > 0 { LexAt(p[1..], q[1..], i - 1); }
  }

  /** The pairs are the keys in ascending order, each with its value. */
  lemma PairsAscend(a: Assignment, i: nat)
    requires i < |a|
    ensures Pairs(a)[i].0 in a && a[Pairs(a)[i].0] == Pairs(a)[i].1
    ensures forall j :: 0 <= j < i ==> Pairs(a)[j].0 < Pairs(a)[i].0
  {
  }

  /** The order is strict and total. */
  lemma LessTotal(a: Assignment, b: Assignment)
    ensures Less(a, b) || Less(b, a) || a == b
    ensures !(Less(a, b) && Less(b, a))
  {
    if |a| == |b| {
      LexTotal(Pairs(a), Pairs(b));
      if Pairs(a) == Pairs(b) { PairsInjective(a, b); }
    }
  }

  lemma LessTransitive(a: Assignment, b: Assignment, c: Assignment)
    requires Less(a, b) && Less(b, c)
    ensures Less(a, c)
  {
    if |a| == |b| == |c| { LexTransitive(Pairs(a), Pairs(b), Pairs(c)); }
  }

  /** The comparison operator: walks through both assignments in step. */
  method IsLess(a: Assignment, item: Assignment) returns (less: bool)
    ensures less == Less(a, item)
  {
    if |a| < |item| {
      return true;
    } else if |a| > |item| {
      return false;
    }
    var p, q := Pairs(a), Pairs(item);
    less := LessPairs(p, q);
  }

  method LessPairs(p: seq<(nat, nat)>, q: seq<(nat, nat)>) returns (less: bool)
    requires |p| == |q|
    ensures less == LexLess(p, q)
  {
    var i := 0;
    assert p[0..] == p && q[0..] == q;
    while i < |p|
      invariant 0 <= i <= |p| == |q|
      invariant LexLess(p, q) == LexLess(p[i..], q[i..])
    {
      assert p[i..][1..] == p[i + 1..] && q[i..][1..] == q[i + 1..];
      if p[i].0 < q[i].0 {
        return true;
      } else if p[i].0 > q[i].0 {
        return false;
      } else if p[i].1 < q[i].1 {
        return true;
      } else if p[i].1 > q[i].1 {
        return false;
      }
      i := i + 1;
    }
    return false;
  }

  predicate IsLeast(s: set<Assignment>, m: Assignment)
  {
    m in s && forall a :: a in s ==> a == m || Less(m, a)
  }

  lemma {:induction false} HasLeast(s: set<Assignment>)
    requires s != {}
    ensures exists m :: IsLeast(s, m)
    decreases |s|
  {
    var x :| x in s;
    var rest := s - {x};
    if rest == {} {
      assert s == {x};
      assert IsLeast(s, x);
    } else {
      assert |rest| < |s|;
      HasLeast(rest);
      var m :| IsLeast(rest, m);
      LessTotal(x, m);
      forall a | a in s && Less(x, m)
        ensures a == x || Less(x, a)
      {
        if a != x && a != m { LessTransitive(x, m, a); }
      }
      assert IsLeast(s, if Less(x, m) then x else m);
    }
  }

  lemma LeastUnique(s: set<Assignment>)
    ensures forall m, m' :: IsLeast(s, m) && IsLeast(s, m') ==> m == m'
  {
    forall m, m' | IsLeast(s, m) && IsLeast(s, m')
      ensures m == m'
    {
      LessTotal(m, m');
    }
  }

  ghost predicate Enumerates(order: seq<Assignment>, s: set<Assignment>)
  {
    |order| == |s| && forall a :: a in order <==> a in s
  }

  predicate InOrder(order: seq<Assignment>)
  {
    forall i, j :: 0 <= i < j < |order| ==> Less(order[i], order[j])
  }

  /** The order in which a table with these keys is enumerated. */
  function Enumeration(s: set<Assignment>): (order: seq<Assignment>)
    ensures Enumerates(order, s) && InOrder(order)
    decreases |s|
  {
    if s == {} then [] else
      HasLeast(s);
      LeastUnique(s);
      var m :| IsLeast(s, m);
      assert |s - {m}| == |s| - 1;
      EnumerationStep(s, m, Enumeration(s - {m}));
      [m] + Enumeration(s - {m})
  }

  lemma EnumerationStep(s: set<Assignment>, m: Assignment, rest: seq<Assignment>)
    requires IsLeast(s, m) && Enumerates(rest, s - {m}) && InOrder(rest)
    ensures Enumerates([m] + rest, s) && InOrder([m] + rest)
  {
    hide Less;
    forall i | 0 <= i < |rest|
      ensures Less(m, rest[i])
    {
      assert rest[i] in rest;
    }
    assert forall a :: a in [m] + rest <==> a == m || a in rest;
  }

  /** Neither the order nor anything else repeats an assignment. */
  lemma InOrderDistinct(order: seq<Assignment>, i: nat, j: nat)
    requires InOrder(order) && i < j < |order|
    ensures order[i] != order[j]
  {
    LessTotal(order[i], order[i]);
  }
}
