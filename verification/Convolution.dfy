/** Cyclic convolution, and how splitting a cycle in two halves commutes with it. */
module Convolution {
  import opened Rings

  /** The sum over j < i of a[j] * c[(k - j) mod |c|]. */
  ghost function MixSum<T(!new)>(R: Ring<T>, a: seq<T>, c: seq<T>, k: int, i: nat): T
    requires i <= |a| && |c| > 0
  {
    if i == 0 then R.zero
    else R.add(MixSum(R, a, c, k, i - 1), R.mul(a[i - 1], c[(k - (i - 1)) % |c|]))
  }

  /** The cyclic convolution of two equally long sequences. */
  ghost function Conv<T(!new)>(R: Ring<T>, a: seq<T>, b: seq<T>): (c: seq<T>)
    requires |a| == |b| > 0
    ensures |c| == |a|
  {
    seq(|a|, k requires 0 <= k < |a| => MixSum(R, a, b, k, |a|))
  }

  /** Reducing modulo x^m - 1: the two halves added. */
  ghost function Fold<T(!new)>(R: Ring<T>, s: seq<T>): (f: seq<T>)
    requires |s| % 2 == 0
    ensures |f| == |s| / 2
  {
    seq(|s| / 2, k requires 0 <= k < |s| / 2 => R.add(s[k], s[k + |s| / 2]))
  }

  /** Reducing modulo x^m + 1 and turning by w: the halves subtracted, entry k times w^k. */
  ghost function Twist<T(!new)>(R: Ring<T>, s: seq<T>, w: T): (f: seq<T>)
    requires |s| % 2 == 0
    ensures |f| == |s| / 2
  {
    seq(|s| / 2, k requires 0 <= k < |s| / 2 => R.mul(R.Sub(s[k], s[k + |s| / 2]), R.Pow(w, k)))
  }

  /** Where a position of the long cycle falls in the short one. */
  lemma HalfCycle(d: int, m: int)
    requires m > 0 && -2 * m <= d < m
    ensures 0 <= d % m < m
    ensures d >= 0 ==> d % m == d && d % (2 * m) == d && (d + m) % (2 * m) == d + m
    ensures -m <= d < 0 ==> d % m == d + m && d % (2 * m) == d + 2 * m && (d + m) % (2 * m) == d + m
    ensures d < -m ==> d % m == d + 2 * m && d % (2 * m) == d + 2 * m && (d + m) % (2 * m) == d + 3 * m
  {
    if d >= 0 {
      ModUnique(d, m, 0, d);
      ModUnique(d, 2 * m, 0, d);
      ModUnique(d + m, 2 * m, 0, d + m);
    } else if d >= -m {
      ModUnique(d, m, -1, d + m);
      ModUnique(d, 2 * m, -1, d + 2 * m);
      ModUnique(d + m, 2 * m, 0, d + m);
    } else {
      ModUnique(d, m, -2, d + 2 * m);
      ModUnique(d, 2 * m, -1, d + 2 * m);
      ModUnique(d + m, 2 * m, -1, d + 3 * m);
    }
  }

  lemma ModUnique(x: int, d: int, q: int, r: int)
    requires d > 0 && 0 <= r < d && x == d * q + r
    ensures x % d == r
  {
    var e := x / d - q;
    assert d * e == r - x % d by { assert d * (x / d) + x % d == x; assert d * e == d * (x / d) - d * q; }
  }

  lemma MixSumStep<T(!new)>(R: Ring<T>, a: seq<T>, c: seq<T>, k: int, i: nat)
    requires 0 < i <= |a| && |c| > 0
    ensures MixSum(R, a, c, k, i) == R.add(MixSum(R, a, c, k, i - 1), R.mul(a[i - 1], c[(k - (i - 1)) % |c|]))
  {
  }

  lemma FoldAt<T(!new)>(R: Ring<T>, s: seq<T>, k: nat)
    requires |s| % 2 == 0 && k < |s| / 2
    ensures Fold(R, s)[k] == R.add(s[k], s[k + |s| / 2])
  {
  }

  /** Two sums that grow by terms p and q grow together by p + q. */
  lemma SumTogether<T(!new)>(R: Ring<T>, s: T, p: T, t: T, q: T, total: T, both: T)
    requires R.Laws() && R.add(s, t) == total && R.add(p, q) == both
    ensures R.add(R.add(s, p), R.add(t, q)) == R.add(total, both)
  {
    R.AddSwap(s, p, t, q);
  }

  /** Folding the right operand: the two outputs k and k + m, added. */
  lemma {:induction false} FoldRight<T(!new)>(R: Ring<T>, a: seq<T>, b: seq<T>, k: nat, i: nat)
    requires R.Laws() && |b| % 2 == 0 && |a| == |b| > 0 && k < |b| / 2 && i <= |a|
    ensures R.add(MixSum(R, a, b, k, i), MixSum(R, a, b, k + |b| / 2, i)) == MixSum(R, a, Fold(R, b), k, i)
  {
    hide Ring.Laws, Fold;
    if i == 0 {
      R.Law(R.zero, R.zero, R.zero);
    } else {
      hide MixSum;
      var m, j := |b| / 2, i - 1;
      FoldRight(R, a, b, k, j);
      HalfCycle(k - j, m);
      MixSumStep(R, a, b, k, i);
      MixSumStep(R, a, b, k + m, i);
      MixSumStep(R, a, Fold(R, b), k, i);
      var x, y := b[(k - j) % (2 * m)], b[(k + m - j) % (2 * m)];
      FoldAt(R, b, (k - j) % m);
      R.Law(x, y, y);
      R.Law(a[j], x, y);
      SumTogether(R, MixSum(R, a, b, k, j), R.mul(a[j], x), MixSum(R, a, b, k + m, j), R.mul(a[j], y),
                  MixSum(R, a, Fold(R, b), k, j), R.mul(a[j], R.add(x, y)));
    }
  }

  /** Summing over both halves of the left operand is summing over the folded one. */
  lemma {:induction false} FoldLeft<T(!new)>(R: Ring<T>, a: seq<T>, c: seq<T>, k: int, i: nat)
    requires R.Laws() && |a| == 2 * |c| > 0 && i <= |c|
    ensures R.add(MixSum(R, a[..|c|], c, k, i), MixSum(R, a[|c|..], c, k, i)) == MixSum(R, Fold(R, a), c, k, i)
  {
    hide Ring.Laws, Fold;
    if i == 0 {
      R.Law(R.zero, R.zero, R.zero);
    } else {
      hide MixSum;
      var m, j := |c|, i - 1;
      FoldLeft(R, a, c, k, j);
      MixSumStep(R, a[..m], c, k, i);
      MixSumStep(R, a[m..], c, k, i);
      MixSumStep(R, Fold(R, a), c, k, i);
      var x, y, z := a[j], a[j + m], c[(k - j) % m];
      FoldAt(R, a, j);
      R.Law(z, x, y);
      R.CommutedProduct(x, z);
      R.CommutedProduct(y, z);
      R.CommutedProduct(R.add(x, y), z);
      SumTogether(R, MixSum(R, a[..m], c, k, j), R.mul(x, z), MixSum(R, a[m..], c, k, j), R.mul(y, z),
                  MixSum(R, Fold(R, a), c, k, j), R.mul(R.add(x, y), z));
    }
  }

  /** One entry of the folded convolution. */
  lemma FoldOfSums<T(!new)>(R: Ring<T>, a: seq<T>, b: seq<T>, k: nat)
    requires R.Laws() && |a| == |b| > 0 && |a| % 2 == 0 && k < |a| / 2
    ensures R.add(MixSum(R, a, b, k, |a|), MixSum(R, a, b, k + |a| / 2, |a|))
         == MixSum(R, Fold(R, a), Fold(R, b), k, |a| / 2)
  {
    hide Ring.Laws, Fold, MixSum;
    var m, c := |a| / 2, Fold(R, b);
    FoldRight(R, a, b, k, 2 * m);
    MixSumSplit(R, a, c, k, m);
    FoldLeft(R, a, c, k, m);
  }

  /** A sum over a concatenation; |c| divides the length of the first part, so the second starts in phase. */
  lemma {:induction false} MixSumSplit<T(!new)>(R: Ring<T>, a: seq<T>, c: seq<T>, k: int, i: nat)
    requires R.Laws() && |a| == 2 * |c| > 0 && i <= |c|
    ensures MixSum(R, a, c, k, |c| + i) == R.add(MixSum(R, a[..|c|], c, k, |c|), MixSum(R, a[|c|..], c, k, i))
  {
    hide Ring.Laws;
    var m := |c|;
    if i == 0 {
      MixSumPrefix(R, a, c, k, m);
      R.Law(MixSum(R, a[..m], c, k, m), R.zero, R.zero);
    } else {
      var j := i - 1;
      MixSumSplit(R, a, c, k, j);
      assert (k - (m + j)) % m == (k - j) % m by {
        ModUnique(k - j - m, m, (k - j) / m - 1, (k - j) % m);
      }
      R.Law(MixSum(R, a[..m], c, k, m), MixSum(R, a[m..], c, k, j), R.mul(a[m + j], c[(k - j) % m]));
    }
  }

  lemma {:induction false} MixSumPrefix<T(!new)>(R: Ring<T>, a: seq<T>, c: seq<T>, k: int, i: nat)
    requires |c| > 0 && i <= |c| <= |a|
    ensures MixSum(R, a, c, k, i) == MixSum(R, a[..|c|], c, k, i)
  {
    if i > 0 { MixSumPrefix(R, a, c, k, i - 1); }
  }

  lemma ConvAt<T(!new)>(R: Ring<T>, a: seq<T>, b: seq<T>, k: nat)
    requires |a| == |b| > k
    ensures Conv(R, a, b)[k] == MixSum(R, a, b, k, |a|)
  {
  }

  /** Folding is a ring homomorphism: it commutes with convolution. */
  lemma FoldOfConv<T(!new)>(R: Ring<T>, a: seq<T>, b: seq<T>)
    requires R.Laws() && |a| == |b| > 0 && |a| % 2 == 0
    ensures Fold(R, Conv(R, a, b)) == Conv(R, Fold(R, a), Fold(R, b))
  {
    hide Ring.Laws, Fold, Conv, MixSum;
    var m, c := |a| / 2, Conv(R, a, b);
    forall k | 0 <= k < m
      ensures Fold(R, c)[k] == Conv(R, Fold(R, a), Fold(R, b))[k]
    {
      FoldAt(R, c, k);
      ConvAt(R, a, b, k);
      ConvAt(R, a, b, k + m);
      ConvAt(R, Fold(R, a), Fold(R, b), k);
      FoldOfSums(R, a, b, k);
    }
  }

  /** Entry j times w^j. */
  ghost function Turn<T(!new)>(R: Ring<T>, s: seq<T>, w: T): (t: seq<T>)
    ensures |t| == |s|
  {
    seq(|s|, j requires 0 <= j < |s| => R.mul(s[j], R.Pow(w, j)))
  }

  lemma TurnAt<T(!new)>(R: Ring<T>, s: seq<T>, w: T, j: nat)
    requires j < |s|
    ensures Turn(R, s, w)[j] == R.mul(s[j], R.Pow(w, j))
  {
  }

  lemma TwistAt<T(!new)>(R: Ring<T>, s: seq<T>, w: T, k: nat)
    requires |s| % 2 == 0 && k < |s| / 2
    ensures Twist(R, s, w)[k] == R.mul(R.Sub(s[k], s[k + |s| / 2]), R.Pow(w, k))
  {
  }

  /** w is a root of unity of order 2 * m: its m-th power is -1. */
  ghost predicate HalfTurn<T(!new)>(R: Ring<T>, w: T, m: nat)
  {
    R.Pow(w, m) == R.neg(R.one)
  }

  /** w^(n + m) == -w^n. */
  lemma PowHalfTurn<T(!new)>(R: Ring<T>, w: T, m: nat, n: nat)
    requires R.Laws() && HalfTurn(R, w, m)
    ensures R.Pow(w, n + m) == R.neg(R.Pow(w, n))
  {
    hide Ring.Laws, Ring.Pow;
    var p := R.Pow(w, n);
    R.PowAdd(w, n, m);
    R.MulNeg(p, R.one);
    R.Law(p, p, p);
  }

  /** -(y - x) == x - y. */
  lemma NegSub<T(!new)>(R: Ring<T>, x: T, y: T)
    requires R.Laws()
    ensures R.neg(R.Sub(y, x)) == R.Sub(x, y)
  {
    hide Ring.Laws;
    R.NegAdd(y, R.neg(x));
    R.NegNeg(x);
    R.Law(R.neg(y), x, x);
  }

  /** The turned difference of the entries x and y of b that meet a[j] at outputs k and k + m. */
  lemma TwistTerm<T(!new)>(R: Ring<T>, b: seq<T>, w: T, k: nat, j: nat, x: T, y: T, g: T)
    requires |b| % 2 == 0 && k < |b| / 2 && j < |b|
    requires x == b[(k - j) % |b|] && y == b[(k + |b| / 2 - j) % |b|]
    requires g == Twist(R, b, w)[(k - j) % (|b| / 2)]
    requires R.Laws() && HalfTurn(R, w, |b| / 2)
    ensures R.mul(R.Sub(x, y), R.Pow(w, k)) == R.mul(R.Pow(w, j), g)
  {
    hide Ring.Laws, Ring.Pow, Twist, HalfTurn, Ring.Sub;
    var m := |b| / 2;
    HalfCycle(k - j, m);
    var r := (k - j) % m;
    var d, p, q := R.Sub(b[r], b[r + m]), R.Pow(w, j), R.Pow(w, r);
    TwistAt(R, b, w, r);
    R.MulSwap(p, d, q);
    R.PowAdd(w, j, r);
    assert R.mul(p, g) == R.mul(d, R.Pow(w, j + r));
    if k - j >= 0 {
    } else if k - j >= -m {
      PowHalfTurn(R, w, m, k);
      NegSub(R, b[r + m], b[r]);
      R.MulNeg(d, R.Pow(w, k));
    } else {
      PowHalfTurn(R, w, m, k);
      PowHalfTurn(R, w, m, k + m);
      R.NegNeg(R.Pow(w, k));
    }
  }

  /** Twisting the right operand: the two outputs k and k + m, subtracted and turned. */
  lemma {:induction false} TwistRight<T(!new)>(R: Ring<T>, a: seq<T>, b: seq<T>, w: T, k: nat, i: nat)
    requires R.Laws() && |b| % 2 == 0 && |a| == |b| && k < |b| / 2 && i <= |a| && HalfTurn(R, w, |b| / 2)
    ensures R.mul(R.Sub(MixSum(R, a, b, k, i), MixSum(R, a, b, k + |b| / 2, i)), R.Pow(w, k))
         == MixSum(R, Turn(R, a, w), Twist(R, b, w), k, i)
  {
    hide Ring.Laws, Ring.Pow, Twist, HalfTurn, Turn, Ring.Sub;
    var p := R.Pow(w, k);
    if i == 0 {
      ZeroDifference(R, p);
    } else {
      hide MixSum;
      var m, j := |b| / 2, i - 1;
      var t, g := Turn(R, a, w), Twist(R, b, w);
      TwistRight(R, a, b, w, k, j);
      MixSumStep(R, a, b, k, i);
      MixSumStep(R, a, b, k + m, i);
      MixSumStep(R, t, g, k, i);
      TurnAt(R, a, w, j);
      var x, y := b[(k - j) % (2 * m)], b[(k + m - j) % (2 * m)];
      TwistTerm(R, b, w, k, j, x, y, g[(k - j) % m]);
      TurnedTerm(R, a[j], x, y, p, R.Pow(w, j), g[(k - j) % m]);
      DifferenceTogether(R, MixSum(R, a, b, k, j), R.mul(a[j], x), MixSum(R, a, b, k + m, j), R.mul(a[j], y), p);
    }
  }

  lemma ZeroDifference<T(!new)>(R: Ring<T>, p: T)
    requires R.Laws()
    ensures R.mul(R.Sub(R.zero, R.zero), p) == R.zero
  {
    hide Ring.Laws;
    R.Law(R.zero, p, p);
    R.MulZero(p);
  }

  /** (a * x - a * y) * p == (a * q) * g, when (x - y) * p == q * g. */
  lemma TurnedTerm<T(!new)>(R: Ring<T>, a: T, x: T, y: T, p: T, q: T, g: T)
    requires R.Laws() && R.mul(R.Sub(x, y), p) == R.mul(q, g)
    ensures R.mul(R.Sub(R.mul(a, x), R.mul(a, y)), p) == R.mul(R.mul(a, q), g)
  {
    hide Ring.Laws, Ring.Sub;
    R.MulSub(a, x, y);
    R.Law(a, R.Sub(x, y), p);
    R.Law(a, q, g);
  }

  /** ((s + x) - (t + y)) * p == (s - t) * p + (x - y) * p. */
  lemma DifferenceTogether<T(!new)>(R: Ring<T>, s: T, x: T, t: T, y: T, p: T)
    requires R.Laws()
    ensures R.mul(R.Sub(R.add(s, x), R.add(t, y)), p) == R.add(R.mul(R.Sub(s, t), p), R.mul(R.Sub(x, y), p))
  {
    hide Ring.Laws, Ring.Sub;
    R.SubSwap(s, t, x, y);
    R.Law(p, R.Sub(s, t), R.Sub(x, y));
    R.Law(R.Sub(s, t), p, p);
    R.Law(R.Sub(x, y), p, p);
    R.Law(R.add(R.Sub(s, t), R.Sub(x, y)), p, p);
  }

  /** Twisting is turning, then folding. */
  lemma TwistIsFoldedTurn<T(!new)>(R: Ring<T>, s: seq<T>, w: T)
    requires R.Laws() && |s| % 2 == 0 && HalfTurn(R, w, |s| / 2)
    ensures Fold(R, Turn(R, s, w)) == Twist(R, s, w)
  {
    hide Ring.Laws, Ring.Pow, Twist, HalfTurn, Turn, Fold, Ring.Sub;
    var m, t := |s| / 2, Turn(R, s, w);
    forall k | 0 <= k < m
      ensures Fold(R, t)[k] == Twist(R, s, w)[k]
    {
      var p := R.Pow(w, k);
      FoldAt(R, t, k);
      TurnAt(R, s, w, k);
      TurnAt(R, s, w, k + m);
      TwistAt(R, s, w, k);
      PowHalfTurn(R, w, m, k);
      TurnedDifference(R, s[k], s[k + m], p);
    }
  }

  /** x * p + y * -p == (x - y) * p. */
  lemma TurnedDifference<T(!new)>(R: Ring<T>, x: T, y: T, p: T)
    requires R.Laws()
    ensures R.add(R.mul(x, p), R.mul(y, R.neg(p))) == R.mul(R.Sub(x, y), p)
  {
    hide Ring.Laws;
    R.MulNeg(y, p);
    R.Law(p, x, R.neg(y));
    R.CommutedProduct(x, p);
    R.CommutedProduct(R.neg(y), p);
    R.CommutedProduct(R.Sub(x, y), p);
  }

  /** Twisting is a ring homomorphism: it commutes with convolution. */
  lemma TwistOfConv<T(!new)>(R: Ring<T>, a: seq<T>, b: seq<T>, w: T)
    requires R.Laws() && |a| == |b| > 0 && |a| % 2 == 0 && HalfTurn(R, w, |a| / 2)
    ensures Twist(R, Conv(R, a, b), w) == Conv(R, Twist(R, a, w), Twist(R, b, w))
  {
    hide Ring.Laws, Ring.Pow, Ring.Sub, Fold, Twist, Turn, Conv, MixSum, HalfTurn;
    var m, c := |a| / 2, Conv(R, a, b);
    var t, g := Turn(R, a, w), Twist(R, b, w);
    TwistIsFoldedTurn(R, a, w);
    forall k | 0 <= k < m
      ensures Twist(R, c, w)[k] == Conv(R, Twist(R, a, w), g)[k]
    {
      TwistAt(R, c, w, k);
      ConvAt(R, a, b, k);
      ConvAt(R, a, b, k + m);
      ConvAt(R, Twist(R, a, w), g, k);
      TwistRight(R, a, b, w, k, 2 * m);
      MixSumSplit(R, t, g, k, m);
      FoldLeft(R, t, g, k, m);
    }
  }
}
