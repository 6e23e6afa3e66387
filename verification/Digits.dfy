/** Base-65536 digit strings, least significant digit first, and the numbers they stand for. */
module Digits {

  /** A 16-bit word. */
  type Digit = x: int | 0 <= x < 65536

  lemma MulMonotone(a: int, b: int, c: int)
    requires a <= b && c >= 0
    ensures a * c <= b * c && c * a <= c * b
  {
  }

  lemma MulDistributes(a: int, b: int, c: int)
    ensures a * (b + c) == a * b + a * c
  {
  }

  function Pow(b: nat, n: nat): (p: nat)
    ensures b > 0 ==> p > 0
  {
    if n == 0 then 1 else b * Pow(b, n - 1)
  }

  /** The weight of digit position n. */
  function Weight(n: nat): (w: nat)
    ensures w > 0
  {
    if n == 0 then 1 else 65536 * Weight(n - 1)
  }

  /** The number a string of columns stands for; a column may be any integer, not only a digit. */
  function Val(s: seq<int>): int
  {
    if |s| == 0 then 0 else s[0] + 65536 * Val(s[1..])
  }

  /** A digit string without superfluous leading zeros; zero itself has one digit. */
  predicate Canonical(s: seq<Digit>)
  {
    |s| >= 1 && (|s| == 1 || s[|s| - 1] != 0)
  }

  lemma PowAdd(b: nat, m: nat, n: nat)
    ensures Pow(b, m + n) == Pow(b, m) * Pow(b, n)
  {
    if m > 0 {
      PowAdd(b, m - 1, n);
      MulAssociates(b, Pow(b, m - 1), Pow(b, n));
    }
  }

  lemma MulAssociates(a: int, b: int, c: int)
    ensures a * b * c == a * (b * c)
  {
  }

  lemma PowMonotone(b: nat, m: nat, n: nat)
    requires b > 0 && m <= n
    ensures Pow(b, m) <= Pow(b, n)
  {
    PowAdd(b, m, n - m);
    MulMonotone(1, Pow(b, n - m), Pow(b, m));
  }

  lemma {:induction false} WeightIsPow2(n: nat)
    ensures Weight(n) == Pow(2, 16 * n)
  {
    if n > 0 {
      WeightIsPow2(n - 1);
      PowAdd(2, 16, 16 * (n - 1));
      assert Pow(2, 4) == 16;
      PowAdd(2, 4, 4);
      PowAdd(2, 8, 8);
    }
  }

  lemma WeightMonotone(m: nat, n: nat)
    requires m <= n
    ensures Weight(m) <= Weight(n)
  {
    if m < n { WeightMonotone(m, n - 1); }
  }

  lemma {:induction false} ValAppend(a: seq<int>, b: seq<int>)
    ensures Val(a + b) == Val(a) + Weight(|a|) * Val(b)
  {
    if |a| == 0 {
      assert a + b == b;
    } else {
      assert (a + b)[1..] == a[1..] + b;
      ValAppend(a[1..], b);
      assert 65536 * (Weight(|a| - 1) * Val(b)) == Weight(|a|) * Val(b);
    }
  }

  /** One more significant digit adds that digit times its weight. */
  lemma ValSnoc(s: seq<int>, i: nat)
    requires i < |s|
    ensures Val(s[..i + 1]) == Val(s[..i]) + Weight(i) * s[i]
  {
    ValAppend(s[..i], [s[i]]);
    assert s[..i] + [s[i]] == s[..i + 1];
    assert Val([s[i]]) == s[i] + 65536 * Val([s[i]][1..]);
  }

  lemma {:induction false} ValBound(s: seq<Digit>)
    ensures 0 <= Val(s) < Weight(|s|)
  {
    if |s| > 0 { ValBound(s[1..]); }
  }

  lemma {:induction false} ValZeros(s: seq<int>)
    requires forall k :: 0 <= k < |s| ==> s[k] == 0
    ensures Val(s) == 0
  {
    if |s| > 0 { ValZeros(s[1..]); }
  }

  /** The top digit is nonzero exactly when the number needs all its digits. */
  lemma TopDigit(s: seq<Digit>)
    requires |s| >= 1
    ensures s[|s| - 1] != 0 <==> Val(s) >= Weight(|s| - 1)
  {
    var n := |s| - 1;
    var top, low, w := s[n], Val(s[..n]), Weight(n);
    assert Val(s) == low + w * top by {
      ValSnoc(s, n);
      assert s[..n + 1] == s;
    }
    assert low < w by { ValBound(s[..n]); }
    if top != 0 { MulMonotone(1, top, w); }
  }

  /** A top digit of zero can be dropped. */
  lemma DropTop(s: seq<int>)
    requires |s| >= 1 && s[|s| - 1] == 0
    ensures Val(s[..|s| - 1]) == Val(s)
  {
    ValSnoc(s, |s| - 1);
    assert s[..|s| - 1 + 1] == s;
  }

  /** Among canonical strings fewer digits means a smaller number. */
  lemma ShorterIsSmaller(a: seq<Digit>, b: seq<Digit>)
    requires 1 <= |a| < |b| && Canonical(b)
    ensures Val(a) < Val(b)
  {
    ValBound(a);
    TopDigit(b);
    WeightMonotone(|a|, |b| - 1);
  }
}
