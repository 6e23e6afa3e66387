/** The recursive transform that the in-place butterflies compute, and why it turns convolution into products. */
module Fourier {
  import opened Convolution
  import opened Rings

  predicate PowerOfTwo(n: nat)
  {
    n == 1 || (n > 1 && n % 2 == 0 && PowerOfTwo(n / 2))
  }

  /** Decimation in frequency: the folded half, then the twisted half. */
  ghost function Transform<T(!new)>(R: Ring<T>, s: seq<T>, w: T): (t: seq<T>)
    requires PowerOfTwo(|s|)
    ensures |t| == |s|
    decreases |s|
  {
    if |s| == 1 then s
    else Transform(R, Fold(R, s), R.mul(w, w)) + Transform(R, Twist(R, s, w), R.mul(w, w))
  }

  /** Undoing one fold and twist: lo + turned hi, then lo - turned hi. */
  ghost function Unfold<T(!new)>(R: Ring<T>, lo: seq<T>, hi: seq<T>, v: T): (t: seq<T>)
    requires |lo| == |hi|
    ensures |t| == 2 * |lo|
  {
    var turned := Turn(R, hi, v);
    seq(|lo|, k requires 0 <= k < |lo| => R.add(lo[k], turned[k])) +
    seq(|lo|, k requires 0 <= k < |lo| => R.Sub(lo[k], turned[k]))
  }

  /** The inverse transform, up to a factor |s|. */
  ghost function Inverse<T(!new)>(R: Ring<T>, s: seq<T>, v: T): (t: seq<T>)
    requires PowerOfTwo(|s|)
    ensures |t| == |s|
    decreases |s|
  {
    if |s| == 1 then s
    else
      var m := |s| / 2;
      Unfold(R, Inverse(R, s[..m], R.mul(v, v)), Inverse(R, s[m..], R.mul(v, v)), v)
  }

  /** w generates the n-th roots of unity: going half way round the circle gives -1. */
  ghost predicate Root<T(!new)>(R: Ring<T>, w: T, n: nat)
  {
    n >= 2 ==> HalfTurn(R, w, n / 2)
  }

  /** Entry by entry product. */
  ghost function Pointwise<T(!new)>(R: Ring<T>, a: seq<T>, b: seq<T>): (p: seq<T>)
    requires |a| == |b|
    ensures |p| == |a|
  {
    seq(|a|, k requires 0 <= k < |a| => R.mul(a[k], b[k]))
  }

  /** Every entry times l. */
  ghost function ScaleBy<T(!new)>(R: Ring<T>, l: T, s: seq<T>): (t: seq<T>)
    ensures |t| == |s|
  {
    seq(|s|, k requires 0 <= k < |s| => R.mul(l, s[k]))
  }

  lemma PointwiseAppend<T(!new)>(R: Ring<T>, a: seq<T>, b: seq<T>, c: seq<T>, d: seq<T>)
    requires |a| == |b| && |c| == |d|
    ensures Pointwise(R, a + c, b + d) == Pointwise(R, a, b) + Pointwise(R, c, d)
  {
  }

  lemma RootSquare<T(!new)>(R: Ring<T>, w: T, n: nat, half: nat)
    requires PowerOfTwo(n) && n >= 2 && half == n / 2 && Root(R, w, n)
    requires R.Laws()
    ensures Root(R, R.mul(w, w), half)
  {
    hide Ring.Laws;
    if half >= 2 {
      R.PowPow(w, 2, half / 2);
      SquareIsPow(R, w);
    }
  }

  /** A square root of a root is a root of twice the order. */
  lemma RootOfSquare<T(!new)>(R: Ring<T>, v: T, w: T, n: nat)
    requires n >= 2 && n % 2 == 0 && Root(R, w, n) && R.mul(v, v) == w
    requires R.Laws()
    ensures Root(R, v, 2 * n)
  {
    hide Ring.Laws;
    SquareIsPow(R, v);
    R.PowPow(v, 2, n / 2);
  }

  lemma ConvOfOne<T(!new)>(R: Ring<T>, a: seq<T>, b: seq<T>)
    requires R.Laws() && |a| == |b| == 1
    ensures Conv(R, a, b) == Pointwise(R, a, b)
  {
    hide Ring.Laws;
    R.Law(R.mul(a[0], b[0]), R.zero, R.zero);
    assert MixSum(R, a, b, 0, 1) == R.add(MixSum(R, a, b, 0, 0), R.mul(a[0], b[0]));
  }

  /** The transform turns cyclic convolution into entry by entry products. */
  lemma {:induction false} TransformOfConv<T(!new)>(R: Ring<T>, a: seq<T>, b: seq<T>, w: T)
    requires PowerOfTwo(|a|) && |a| == |b| && Root(R, w, |a|)
    requires R.Laws()
    ensures Transform(R, Conv(R, a, b), w) == Pointwise(R, Transform(R, a, w), Transform(R, b, w))
    decreases |a|
  {
    hide Ring.Laws, Conv, Fold, Twist, Pointwise, HalfTurn;
    if |a| == 1 {
      ConvOfOne(R, a, b);
    } else {
      var w2 := R.mul(w, w);
      RootSquare(R, w, |a|, |a| / 2);
      FoldOfConv(R, a, b);
      TwistOfConv(R, a, b, w);
      TransformOfConv(R, Fold(R, a), Fold(R, b), w2);
      TransformOfConv(R, Twist(R, a, w), Twist(R, b, w), w2);
      PointwiseAppend(R, Transform(R, Fold(R, a), w2), Transform(R, Fold(R, b), w2),
                      Transform(R, Twist(R, a, w), w2), Transform(R, Twist(R, b, w), w2));
    }
  }

  /** Every entry taken n times. */
  ghost function TimesAll<T(!new)>(R: Ring<T>, n: nat, s: seq<T>): (t: seq<T>)
    ensures |t| == |s|
  {
    seq(|s|, k requires 0 <= k < |s| => R.Times(n, s[k]))
  }

  /** Inverting after transforming multiplies every entry by the length. */
  lemma {:induction false} InverseOfTransform<T(!new)>(R: Ring<T>, s: seq<T>, w: T, v: T)
    requires PowerOfTwo(|s|) && R.mul(w, v) == R.one
    requires R.Laws()
    ensures Inverse(R, Transform(R, s, w), v) == TimesAll(R, |s|, s)
    decreases |s|
  {
    hide Ring.Laws, Fold, Twist, TimesAll, Unfold;
    if |s| == 1 {
      TimesOne(R, s);
    } else {
      var m, w2, v2 := |s| / 2, R.mul(w, w), R.mul(v, v);
      assert R.mul(w2, v2) == R.one by {
        R.PowInverse(w, v, 2);
        R.Law(w, w, w);
        R.Law(v, v, v);
        SquareIsPow(R, w);
        SquareIsPow(R, v);
      }
      var f, g := Fold(R, s), Twist(R, s, w);
      InverseOfTransform(R, f, w2, v2);
      InverseOfTransform(R, g, w2, v2);
      var t := Transform(R, s, w);
      assert t[..m] == Transform(R, f, w2) && t[m..] == Transform(R, g, w2);
      UnfoldFolded(R, s, w, v, m);
    }
  }

  lemma SquareIsPow<T(!new)>(R: Ring<T>, w: T)
    requires R.Laws()
    ensures R.Pow(w, 2) == R.mul(w, w)
  {
    hide Ring.Laws;
    assert R.Pow(w, 1) == R.mul(R.Pow(w, 0), w);
    R.Law(w, w, w);
  }

  lemma TimesOne<T(!new)>(R: Ring<T>, s: seq<T>)
    requires R.Laws()
    ensures TimesAll(R, 1, s) == s
  {
    hide Ring.Laws;
    forall k | 0 <= k < |s|
      ensures R.Times(1, s[k]) == s[k]
    {
      assert R.Times(1, s[k]) == R.add(R.Times(0, s[k]), s[k]);
      R.Law(s[k], s[k], s[k]);
    }
  }

  /** m times the fold and m times the twist unfold to 2 * m times the original. */
  lemma UnfoldFolded<T(!new)>(R: Ring<T>, s: seq<T>, w: T, v: T, m: nat)
    requires |s| == 2 * m
    requires R.Laws() && R.mul(w, v) == R.one
    ensures Unfold(R, TimesAll(R, m, Fold(R, s)), TimesAll(R, m, Twist(R, s, w)), v) == TimesAll(R, |s|, s)
  {
    hide Ring.Laws, Ring.Pow, Ring.Times, Ring.Sub;
    var lo, hi := TimesAll(R, m, Fold(R, s)), TimesAll(R, m, Twist(R, s, w));
    var u := Unfold(R, lo, hi, v);
    forall i | 0 <= i < |s|
      ensures u[i] == R.Times(|s|, s[i])
    {
      var k := if i < m then i else i - m;
      var x, y := s[k], s[k + m];
      UnturnTimes(R, m, R.Sub(x, y), w, v, k);
      SumAndDifference(R, m, |s|, x, y);
    }
  }

  /** Turning back: (m times d * w^k) * v^k == m times d. */
  lemma UnturnTimes<T(!new)>(R: Ring<T>, m: nat, d: T, w: T, v: T, k: nat)
    requires R.Laws() && R.mul(w, v) == R.one
    ensures R.mul(R.Times(m, R.mul(d, R.Pow(w, k))), R.Pow(v, k)) == R.Times(m, d)
  {
    hide Ring.Laws, Ring.Pow, Ring.Times;
    var p, q := R.Pow(w, k), R.Pow(v, k);
    R.PowInverse(w, v, k);
    R.Law(d, p, p);
    R.TimesOfProduct(m, p, d);
    R.Law(p, R.Times(m, d), q);
    R.Law(R.Times(m, d), q, q);
    R.MulSwap(p, q, R.Times(m, d));
    R.Law(q, p, R.Times(m, d));
    R.Law(p, q, R.Times(m, d));
    R.Law(R.Times(m, d), d, d);
  }

  /** m(x + y) + m(x - y) == 2m x, and m(x + y) - m(x - y) == 2m y. */
  lemma SumAndDifference<T(!new)>(R: Ring<T>, m: nat, n: nat, x: T, y: T)
    requires n == 2 * m
    requires R.Laws()
    ensures R.add(R.Times(m, R.add(x, y)), R.Times(m, R.Sub(x, y))) == R.Times(n, x)
    ensures R.Sub(R.Times(m, R.add(x, y)), R.Times(m, R.Sub(x, y))) == R.Times(n, y)
  {
    hide Ring.Laws, Ring.Times;
    var mx, my, mn := R.Times(m, x), R.Times(m, y), R.Times(m, R.neg(y));
    R.TimesOfSum(m, x, y);
    R.TimesOfSum(m, x, R.neg(y));
    R.TimesAdd(m, m, x);
    R.TimesAdd(m, m, y);
    assert R.add(my, mn) == R.zero by {
      R.TimesOfSum(m, y, R.neg(y));
      R.Law(y, y, y);
      TimesZero(R, m);
    }
    R.NegUnique(my, mn);
    R.AddSwap(mx, my, mx, mn);
    R.Law(R.add(mx, mx), mx, mx);
    R.NegAdd(mx, mn);
    R.NegNeg(my);
    R.AddSwap(mx, my, R.neg(mx), my);
    R.Law(mx, mx, mx);
    R.Law(R.add(my, my), my, my);
  }

  lemma {:induction false} TimesZero<T(!new)>(R: Ring<T>, m: nat)
    requires R.Laws()
    ensures R.Times(m, R.zero) == R.zero
  {
    hide Ring.Laws;
    if m > 0 {
      TimesZero(R, m - 1);
      R.Law(R.zero, R.zero, R.zero);
    }
  }

  lemma ScaleSplit<T(!new)>(R: Ring<T>, l: T, s: seq<T>, m: nat)
    requires m <= |s|
    ensures ScaleBy(R, l, s)[..m] == ScaleBy(R, l, s[..m]) && ScaleBy(R, l, s)[m..] == ScaleBy(R, l, s[m..])
  {
  }

  /** The inverse transform is linear. */
  lemma {:induction false} InverseOfScaled<T(!new)>(R: Ring<T>, l: T, s: seq<T>, v: T)
    requires PowerOfTwo(|s|)
    requires R.Laws()
    ensures Inverse(R, ScaleBy(R, l, s), v) == ScaleBy(R, l, Inverse(R, s, v))
    decreases |s|
  {
    hide Ring.Laws, Unfold, ScaleBy;
    if |s| > 1 {
      var m, v2 := |s| / 2, R.mul(v, v);
      InverseOfScaled(R, l, s[..m], v2);
      InverseOfScaled(R, l, s[m..], v2);
      ScaleSplit(R, l, s, m);
      UnfoldScaled(R, l, Inverse(R, s[..m], v2), Inverse(R, s[m..], v2), v);
    }
  }

  lemma UnfoldScaled<T(!new)>(R: Ring<T>, l: T, lo: seq<T>, hi: seq<T>, v: T)
    requires |lo| == |hi|
    requires R.Laws()
    ensures Unfold(R, ScaleBy(R, l, lo), ScaleBy(R, l, hi), v) == ScaleBy(R, l, Unfold(R, lo, hi, v))
  {
    hide Ring.Laws, Ring.Pow, Ring.Sub;
    var m := |lo|;
    var left, right := Unfold(R, ScaleBy(R, l, lo), ScaleBy(R, l, hi), v), ScaleBy(R, l, Unfold(R, lo, hi, v));
    forall i | 0 <= i < |left|
      ensures left[i] == right[i]
    {
      var k := if i < m then i else i - m;
      var turned := R.mul(hi[k], R.Pow(v, k));
      R.Law(l, hi[k], R.Pow(v, k));
      R.Law(l, lo[k], turned);
      R.MulSub(l, lo[k], turned);
    }
  }

  /** Transforming, multiplying entry by entry with the scale factor, and inverting is cyclic convolution. */
  lemma ConvolutionTheorem<T(!new)>(R: Ring<T>, a: seq<T>, b: seq<T>, w: T, v: T, l: T, p: seq<T>)
    requires PowerOfTwo(|a|) && 0 < |a| == |b| == |p| && Root(R, w, |a|)
    requires forall k :: 0 <= k < |p| ==> p[k] == R.mul(R.mul(l, Transform(R, a, w)[k]), Transform(R, b, w)[k])
    requires R.Laws() && R.mul(w, v) == R.one && R.mul(l, R.Times(|a|, R.one)) == R.one
    ensures Inverse(R, p, v) == Conv(R, a, b)
  {
    hide Ring.Laws, Conv, Transform, Inverse, Root, PowerOfTwo, Ring.Times;
    var c, ta, tb := Conv(R, a, b), Transform(R, a, w), Transform(R, b, w);
    TransformOfConv(R, a, b, w);
    forall k | 0 <= k < |p|
      ensures p[k] == ScaleBy(R, l, Pointwise(R, ta, tb))[k]
    {
      R.Law(l, ta[k], tb[k]);
    }
    assert p == ScaleBy(R, l, Transform(R, c, w));
    InverseOfScaled(R, l, Transform(R, c, w), v);
    InverseOfTransform(R, c, w, v);
    forall k | 0 <= k < |c|
      ensures ScaleBy(R, l, TimesAll(R, |c|, c))[k] == c[k]
    {
      R.Law(c[k], c[k], c[k]);
      R.TimesOfProduct(|c|, c[k], R.one);
      R.MulSwap(l, c[k], R.Times(|c|, R.one));
    }
    assert ScaleBy(R, l, TimesAll(R, |c|, c)) == c;
  }
}
