/** Strings of base-256 columns, and why convolving them multiplies the numbers they stand for. */
module ByteStrings {
  import opened Digits

  /** The number a string of base-256 columns stands for, least significant first. */
  function ByteVal(s: seq<int>): int
  {
    if |s| == 0 then 0 else s[0] + 256 * ByteVal(s[1..])
  }

  /** The low and the high byte of every digit. */
  function Bytes(s: seq<Digit>): (b: seq<int>)
    ensures |b| == 2 * |s|
  {
    if |s| == 0 then [] else [s[0] % 256, s[0] / 256] + Bytes(s[1..])
  }

  lemma {:induction false} BytesAt(s: seq<Digit>, i: nat)
    requires i < |s|
    ensures Bytes(s)[2 * i] == s[i] % 256 && Bytes(s)[2 * i + 1] == s[i] / 256
  {
    if i > 0 { BytesAt(s[1..], i - 1); }
  }

  lemma {:induction false} BytesValue(s: seq<Digit>)
    ensures ByteVal(Bytes(s)) == Val(s)
  {
    if |s| > 0 {
      BytesValue(s[1..]);
      var b := Bytes(s);
      assert b[1..][1..] == Bytes(s[1..]);
    }
  }

  /** Pairs of byte columns, joined into digit columns. */
  function Pairs(c: seq<int>, n: nat): (columns: seq<int>)
    requires 2 * n <= |c|
    ensures |columns| == n
  {
    seq(n, i requires 0 <= i < n => c[2 * i] + 256 * c[2 * i + 1])
  }

  lemma {:induction false} PairsValue(c: seq<int>, n: nat)
    requires 2 * n <= |c| && forall k :: 2 * n <= k < |c| ==> c[k] == 0
    ensures Val(Pairs(c, n)) == ByteVal(c)
  {
    if n == 0 {
      ByteZeros(c);
    } else {
      var rest := c[1..][1..];
      assert rest == c[2..];
      PairsValue(rest, n - 1);
      assert Pairs(c, n)[1..] == Pairs(rest, n - 1);
    }
  }

  lemma {:induction false} ByteZeros(s: seq<int>)
    requires forall k :: 0 <= k < |s| ==> s[k] == 0
    ensures ByteVal(s) == 0
  {
    if |s| > 0 { ByteZeros(s[1..]); }
  }

  lemma {:induction false} ByteAppend(a: seq<int>, b: seq<int>)
    ensures ByteVal(a + b) == ByteVal(a) + Pow(256, |a|) * ByteVal(b)
  {
    if |a| == 0 {
      assert a + b == b;
    } else {
      assert (a + b)[1..] == a[1..] + b;
      ByteAppend(a[1..], b);
      MulAssociates(256, Pow(256, |a| - 1), ByteVal(b));
    }
  }

  /** The columns x + m * y. */
  lemma {:induction false} ByteCombine(x: seq<int>, m: int, y: seq<int>, c: seq<int>)
    requires |x| == |y| == |c| && forall k :: 0 <= k < |c| ==> c[k] == x[k] + m * y[k]
    ensures ByteVal(c) == ByteVal(x) + m * ByteVal(y)
  {
    if |x| > 0 {
      ByteCombine(x[1..], m, y[1..], c[1..]);
      MulDistributes(m, y[0], 256 * ByteVal(y[1..]));
      MulAssociates(256, m, ByteVal(y[1..]));
      MulAssociates(m, 256, ByteVal(y[1..]));
    }
  }

  /** The sum over j < i of a[j] * b[(k - j) mod |b|]. */
  function MixInt(a: seq<int>, b: seq<int>, k: int, i: nat): int
    requires i <= |a| && |b| > 0
  {
    if i == 0 then 0 else MixInt(a, b, k, i - 1) + a[i - 1] * b[(k - (i - 1)) % |b|]
  }

  /** The first i terms of every entry of the cyclic convolution. */
  function PartialConv(a: seq<int>, b: seq<int>, i: nat): (c: seq<int>)
    requires |a| == |b| > 0 && i <= |a|
    ensures |c| == |a|
  {
    seq(|a|, k requires 0 <= k < |a| => MixInt(a, b, k, i))
  }

  function Rotated(b: seq<int>, i: nat): (r: seq<int>)
    requires |b| > 0
    ensures |r| == |b|
  {
    seq(|b|, k requires 0 <= k < |b| => b[(k - i) % |b|])
  }

  /** Only zeros come round: rotating moves the string up. */
  lemma RotatedIsShifted(b: seq<int>, i: nat)
    requires i < |b| && forall k :: |b| - i <= k < |b| ==> b[k] == 0
    ensures Rotated(b, i) == seq(i, _ => 0) + b[..|b| - i]
  {
    var n := |b|;
    forall k | 0 <= k < n
      ensures Rotated(b, i)[k] == if k < i then 0 else b[k - i]
    {
      if k >= i { Small(k - i, n); } else { Wrapped(k - i, n); }
    }
  }

  /** Zeros on top do not count. */
  lemma DropZeros(b: seq<int>, n: nat)
    requires n <= |b| && forall k :: n <= k < |b| ==> b[k] == 0
    ensures ByteVal(b[..n]) == ByteVal(b)
  {
    ByteAppend(b[..n], b[n..]);
    assert b == b[..n] + b[n..];
    ByteZeros(b[n..]);
  }

  /** Rotating by i multiplies by 256^i as long as only zeros come round. */
  lemma RotatedValue(b: seq<int>, i: nat)
    requires i < |b| && forall k :: |b| - i <= k < |b| ==> b[k] == 0
    ensures ByteVal(Rotated(b, i)) == Pow(256, i) * ByteVal(b)
  {
    hide Rotated;
    var zeros := seq(i, _ => 0);
    RotatedIsShifted(b, i);
    ByteAppend(zeros, b[..|b| - i]);
    ByteZeros(zeros);
    DropZeros(b, |b| - i);
  }

  lemma Small(x: int, n: int)
    requires 0 <= x < n
    ensures x % n == x
  {
  }

  lemma Wrapped(x: int, n: int)
    requires -n <= x < 0
    ensures x % n == x + n
  {
    assert (x + n) % n == x + n;
    assert x % n == (x + n) % n by { var q := (x + n) / n; assert x == n * (q - 1) + (x + n) % n; }
  }

  /** Without wrap-around, cyclic convolution multiplies the numbers. */
  lemma {:induction false} PartialConvValue(a: seq<int>, b: seq<int>, na: nat, nb: nat, i: nat)
    requires |a| == |b| > 0 && na + nb <= |a| && i <= |a|
    requires forall k :: na <= k < |a| ==> a[k] == 0
    requires forall k :: nb <= k < |b| ==> b[k] == 0
    ensures ByteVal(PartialConv(a, b, i)) == ByteVal(a[..i]) * ByteVal(b)
  {
    if i == 0 {
      ByteZeros(PartialConv(a, b, 0));
      assert a[..0] == [];
    } else {
      var j := i - 1;
      PartialConvValue(a, b, na, nb, j);
      ByteCombine(PartialConv(a, b, j), a[j], Rotated(b, j), PartialConv(a, b, i));
      assert a[..i] == a[..j] + [a[j]];
      ByteAppend(a[..j], [a[j]]);
      assert ByteVal([a[j]]) == a[j] + 256 * ByteVal([a[j]][1..]);
      if j < na { RotatedValue(b, j); }
      ProductStep(ByteVal(a[..j]), Pow(256, j), a[j], ByteVal(b));
    }
  }

  lemma ProductStep(low: int, p: int, d: int, b: int)
    ensures (low + p * d) * b == low * b + d * (p * b)
  {
    MulAssociates(p, d, b);
    MulAssociates(d, p, b);
    MulDistributes(b, low, p * d);
  }

  /** Every entry of the convolution of n bytes is small. */
  lemma {:induction false} MixBound(a: seq<int>, b: seq<int>, k: int, i: nat)
    requires i <= |a| && |b| > 0
    requires forall j :: 0 <= j < |a| ==> 0 <= a[j] < 256
    requires forall j :: 0 <= j < |b| ==> 0 <= b[j] < 256
    ensures 0 <= MixInt(a, b, k, i) <= 65025 * i
  {
    if i > 0 {
      MixBound(a, b, k, i - 1);
      var x, y := a[i - 1], b[(k - (i - 1)) % |b|];
      MulMonotone(x, 255, y);
      MulMonotone(0, x, y);
    }
  }

  /** Entries that no pair of nonzero bytes reaches are zero. */
  lemma {:induction false} MixZero(a: seq<int>, b: seq<int>, na: nat, nb: nat, k: nat, i: nat)
    requires |a| == |b| > 0 && na + nb <= k < |a| && i <= |a|
    requires forall j :: na <= j < |a| ==> a[j] == 0
    requires forall j :: nb <= j < |b| ==> b[j] == 0
    ensures MixInt(a, b, k, i) == 0
  {
    if i > 0 {
      MixZero(a, b, na, nb, k, i - 1);
      if i - 1 < na { Small(k - (i - 1), |b|); }
    }
  }
}
