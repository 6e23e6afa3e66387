/** The in-place fast Fourier transform and its inverse. */
module FastFourier {
  import opened Convolution
  import opened Fourier
  import opened Rings

  /** The transforms of q consecutive blocks of size B. */
  ghost function TransformBlocks<T(!new)>(R: Ring<T>, s: seq<T>, B: nat, q: nat, w: T): (t: seq<T>)
    requires PowerOfTwo(B) && |s| == q * B
    ensures |t| == |s|
    decreases q
  {
    if q == 0 then []
    else
      BlockFits(q, B);
      Transform(R, s[..B], w) + TransformBlocks(R, s[B..], B, q - 1, w)
  }

  lemma BlockFits(q: nat, B: nat)
    requires q > 0
    ensures B <= q * B && q * B - B == (q - 1) * B
  {
  }

  /** One stage of butterflies on q consecutive blocks of size B. */
  ghost function Stage<T(!new)>(R: Ring<T>, s: seq<T>, B: nat, q: nat, w: T): (t: seq<T>)
    requires B % 2 == 0 && |s| == q * B
    ensures |t| == |s|
    decreases q
  {
    if q == 0 then []
    else
      BlockFits(q, B);
      Fold(R, s[..B]) + Twist(R, s[..B], w) + Stage(R, s[B..], B, q - 1, w)
  }

  /** After a stage there are twice as many blocks of half the size left to transform. */
  lemma {:induction false} StageHalvesBlocks<T(!new)>(R: Ring<T>, s: seq<T>, B: nat, q: nat, w: T)
    requires PowerOfTwo(B) && B >= 2 && |s| == q * B
    ensures B % 2 == 0 && PowerOfTwo(B / 2) && (2 * q) * (B / 2) == q * B
    ensures TransformBlocks(R, s, B, q, w) == TransformBlocks(R, Stage(R, s, B, q, w), B / 2, 2 * q, R.mul(w, w))
    decreases q
  {
    hide Fold, Twist;
    assert (2 * q) * (B / 2) == q * (2 * (B / 2));
    if q > 0 {
      BlockFits(q, B);
      var m, rest := B / 2, Stage(R, s[B..], B, q - 1, w);
      var f, g, w2 := Fold(R, s[..B]), Twist(R, s[..B], w), R.mul(w, w);
      StageHalvesBlocks(R, s[B..], B, q - 1, w);
      var t := Stage(R, s, B, q, w);
      assert t == f + (g + rest);
      BlockFits(2 * q, m);
      BlockFits(2 * q - 1, m);
      assert t[..m] == f && t[m..] == g + rest;
      assert (g + rest)[..m] == g && (g + rest)[m..] == rest;
      assert TransformBlocks(R, t, m, 2 * q, w2)
          == Transform(R, f, w2) + TransformBlocks(R, g + rest, m, 2 * q - 1, w2);
    }
  }

  /** Blocks of size one are their own transforms. */
  lemma {:induction false} BlocksOfOne<T(!new)>(R: Ring<T>, s: seq<T>, q: nat, w: T)
    requires |s| == q * 1
    ensures PowerOfTwo(1)
    ensures TransformBlocks(R, s, 1, q, w) == s
    decreases q
  {
    if q > 0 {
      BlocksOfOne(R, s[1..], q - 1, w);
      assert s == s[..1] + s[1..];
    }
  }

  /** A table of the first powers of w. */
  method PowerTable<T(!new)>(R: Ring<T>, w: T, half: nat) returns (table: array<T>)
    ensures fresh(table) && table.Length == half
    ensures forall i :: 0 <= i < half ==> table[i] == R.Pow(w, i)
  {
    hide Ring.Pow;
    table := new T[half](_ => R.zero);
    var wPow := R.one;
    R.PowStep(w, 0);
    var j := 0;
    while j < half
      invariant 0 <= j <= half && wPow == R.Pow(w, j)
      invariant forall i :: 0 <= i < j ==> table[i] == R.Pow(w, i)
    {
      R.PowStep(w, j);
      table[j] := wPow;
      wPow := R.mul(wPow, w);
      j := j + 1;
    }
  }

  lemma TwiddleIndex(k: nat, step: nat, skip: nat)
    requires k < step && skip > 0
    ensures k * skip < step * skip
  {
  }

  /** The butterflies of one block, starting at j. */
  method Butterflies<T(!new)>(R: Ring<T>, data: array<T>, table: array<T>, j: nat, step: nat, skip: nat,
                              ghost w: T, ghost S: seq<T>)
    requires R.Laws() && table != data && step > 0 && skip > 0 && j + 2 * step <= data.Length
    requires table.Length == step * skip && forall i :: 0 <= i < table.Length ==> table[i] == R.Pow(w, i)
    requires |S| == 2 * step && data[j..j + 2 * step] == S
    modifies data
    ensures data[..j] == old(data[..j]) && data[j + 2 * step..] == old(data[j + 2 * step..])
    ensures data[j..j + 2 * step] == Fold(R, S) + Twist(R, S, R.Pow(w, skip))
  {
    hide *;
    ghost var n, old_ := data.Length, data[..];
    ghost var F, G := Fold(R, S), Twist(R, S, R.Pow(w, skip));
    var k := 0;
    while k < step
      invariant 0 <= k <= step
      invariant forall i :: 0 <= i < j || j + 2 * step <= i < n ==> data[i] == old_[i]
      invariant forall i :: j <= i < j + k ==> data[i] == F[i - j]
      invariant forall i :: j + step <= i < j + step + k ==> data[i] == G[i - j - step]
      invariant forall i :: j + k <= i < j + step || j + step + k <= i < j + 2 * step ==> data[i] == old_[i]
    {
      var aIdx, bIdx := j + k, j + k + step;
      TwiddleIndex(k, step, skip);
      R.PowPow(w, skip, k);
      FoldAt(R, S, k);
      TwistAt(R, S, R.Pow(w, skip), k);
      var a := R.add(data[aIdx], data[bIdx]);
      var b := R.mul(R.Sub(data[aIdx], data[bIdx]), table[k * skip]);
      data[aIdx] := a;
      data[bIdx] := b;
      k := k + 1;
    }
    assert data[j..j + 2 * step] == F + G;
  }

  /** A stage does its first block, then the others. */
  lemma StageStep<T(!new)>(R: Ring<T>, s: seq<T>, B: nat, q: nat, w: T, first: seq<T>)
    requires B % 2 == 0 && q > 0 && |s| == q * B >= B && |s| - B == (q - 1) * B
    requires first == Fold(R, s[..B]) + Twist(R, s[..B], w)
    ensures Stage(R, s, B, q, w) == first + Stage(R, s[B..], B, q - 1, w)
  {
  }

  /** The butterflies of all the blocks. */
  method StageInPlace<T(!new)>(R: Ring<T>, data: array<T>, table: array<T>, step: nat, skip: nat, ghost w: T)
    requires R.Laws() && table != data && step > 0 && skip > 0 && data.Length == skip * (2 * step)
    requires table.Length == step * skip && forall i :: 0 <= i < table.Length ==> table[i] == R.Pow(w, i)
    modifies data
    ensures data[..] == Stage(R, old(data[..]), 2 * step, skip, R.Pow(w, skip))
  {
    hide Ring.Laws, Ring.Pow, Fold, Twist, Stage;
    ghost var wq, B, left := R.Pow(w, skip), 2 * step, skip;
    ghost var todo, done := data[..], [];
    var j := 0;
    while j < data.Length
      invariant 0 <= j <= data.Length && data.Length - j == left * B
      invariant data[..j] == done && data[j..] == todo
      invariant done + Stage(R, todo, B, left, wq) == Stage(R, old(data[..]), B, skip, wq)
    {
      BlockFits(left, B);
      Butterflies(R, data, table, j, step, skip, w, todo[..B]);
      ghost var first := data[j..j + B];
      StageStep(R, todo, B, left, wq, first);
      assert data[j + B..] == todo[B..];
      assert data[..j + B] == done + first;
      todo, done, left := todo[B..], done + first, left - 1;
      j := j + 2 * step;
    }
    StageNone(R, todo, B, left, wq);
    assert data[..] == done;
  }

  lemma StageNone<T(!new)>(R: Ring<T>, s: seq<T>, B: nat, q: nat, w: T)
    requires B > 0 && B % 2 == 0 && |s| == q * B == 0
    ensures Stage(R, s, B, q, w) == []
  {
  }

  lemma OneBlock<T(!new)>(R: Ring<T>, s: seq<T>, w: T)
    requires PowerOfTwo(|s|) && R.Laws()
    ensures TransformBlocks(R, s, |s|, 1, R.Pow(w, 1)) == Transform(R, s, w)
  {
    hide Ring.Laws, Transform;
    R.PowStep(w, 0);
    R.Law(w, w, w);
    assert s[..|s|] == s;
    assert TransformBlocks(R, s[|s|..], |s|, 0, w) == [];
  }

  /** The forward transform; w plays the role of exp(-2 pi i / len). */
  method Fft<T(!new)>(R: Ring<T>, data: array<T>, w: T)
    requires R.Laws() && PowerOfTwo(data.Length)
    modifies data
    ensures data[..] == Transform(R, old(data[..]), w)
  {
    hide Ring.Laws, Ring.Pow, Transform, Stage, TransformBlocks, PowerOfTwo;
    var half := data.Length / 2;
    var table := PowerTable(R, w, half);
    var skip: nat, step := 1, half;
    ghost var B: nat := data.Length;
    OneBlock(R, data[..], w);
    PowerOfTwoParts(B);
    while step != 0
      invariant PowerOfTwo(B) && B > 0 && skip > 0 && data.Length == skip * B && step == B / 2
      invariant table.Length == half && forall i :: 0 <= i < half ==> table[i] == R.Pow(w, i)
      invariant TransformBlocks(R, data[..], B, skip, R.Pow(w, skip)) == Transform(R, old(data[..]), w)
      decreases step
    {
      StageHalvesBlocks(R, data[..], B, skip, R.Pow(w, skip));
      StageInPlace(R, data, table, step, skip, w);
      R.PowAdd(w, skip, skip);
      step := step / 2;
      skip := skip * 2;
      B := B / 2;
    }
    BlocksOfOne(R, data[..], skip, R.Pow(w, skip));
  }

  /** The inverse transforms of q consecutive blocks of size B. */
  ghost function InverseBlocks<T(!new)>(R: Ring<T>, s: seq<T>, B: nat, q: nat, v: T): (t: seq<T>)
    requires PowerOfTwo(B) && |s| == q * B
    ensures |t| == |s|
    decreases q
  {
    if q == 0 then []
    else
      BlockFits(q, B);
      Inverse(R, s[..B], v) + InverseBlocks(R, s[B..], B, q - 1, v)
  }

  /** One inverse stage on q consecutive blocks of size B. */
  ghost function Unstage<T(!new)>(R: Ring<T>, s: seq<T>, B: nat, q: nat, v: T): (t: seq<T>)
    requires B % 2 == 0 && |s| == q * B
    ensures |t| == |s|
    decreases q
  {
    if q == 0 then []
    else
      BlockFits(q, B);
      Unfold(R, s[..B / 2], s[B / 2..B], v) + Unstage(R, s[B..], B, q - 1, v)
  }

  /** The first two blocks of half the size. */
  lemma TwoInverseBlocks<T(!new)>(R: Ring<T>, s: seq<T>, m: nat, q: nat, v: T)
    requires PowerOfTwo(m) && q >= 2 && |s| == q * m
    ensures 2 * m <= |s| == 2 * m + (q - 2) * m
    ensures InverseBlocks(R, s, m, q, v)
         == Inverse(R, s[..m], v) + Inverse(R, s[m..2 * m], v) + InverseBlocks(R, s[2 * m..], m, q - 2, v)
  {
    hide Inverse;
    BlockFits(q, m);
    BlockFits(q - 1, m);
    assert s[m..][..m] == s[m..2 * m] && s[m..][m..] == s[2 * m..];
    assert InverseBlocks(R, s[m..], m, q - 1, v)
        == Inverse(R, s[m..2 * m], v) + InverseBlocks(R, s[2 * m..], m, q - 2, v);
  }

  /** An inverse stage joins the inverted halves of every block. */
  lemma {:induction false} UnstageJoinsBlocks<T(!new)>(R: Ring<T>, s: seq<T>, B: nat, q: nat, v: T)
    requires PowerOfTwo(B) && B >= 2 && |s| == q * B
    ensures B % 2 == 0 && PowerOfTwo(B / 2) && (2 * q) * (B / 2) == q * B
    ensures Unstage(R, InverseBlocks(R, s, B / 2, 2 * q, R.mul(v, v)), B, q, v) == InverseBlocks(R, s, B, q, v)
    decreases q
  {
    hide Unfold, Unstage;
    var m, v2 := B / 2, R.mul(v, v);
    MulHalves(q, m);
    if q == 0 {
      UnstageNone(R, [], B, q, v);
    } else {
      BlockFits(q, B);
      UnstageJoinsBlocks(R, s[B..], B, q - 1, v);
      TwoInverseBlocks(R, s, m, 2 * q, v2);
      var lo, hi := Inverse(R, s[..m], v2), Inverse(R, s[m..B], v2);
      var t := InverseBlocks(R, s, m, 2 * q, v2);
      assert t[..m] == lo && t[m..B] == hi && t[B..] == InverseBlocks(R, s[B..], m, 2 * (q - 1), v2);
      UnstageStep(R, t, B, q, v, Unfold(R, lo, hi, v));
      assert s[..B][..m] == s[..m] && s[..B][m..] == s[m..B];
    }
  }

  lemma MulHalves(q: nat, m: nat)
    ensures (2 * q) * m == q * (2 * m)
  {
  }

  lemma {:induction false} InverseBlocksOfOne<T(!new)>(R: Ring<T>, s: seq<T>, q: nat, v: T)
    requires |s| == q * 1
    ensures PowerOfTwo(1)
    ensures InverseBlocks(R, s, 1, q, v) == s
    decreases q
  {
    if q > 0 {
      InverseBlocksOfOne(R, s[1..], q - 1, v);
      assert s == s[..1] + s[1..];
    }
  }

  lemma UnfoldAt<T(!new)>(R: Ring<T>, lo: seq<T>, hi: seq<T>, v: T, k: nat)
    requires k < |lo| == |hi|
    ensures var turned := R.mul(hi[k], R.Pow(v, k));
      Unfold(R, lo, hi, v)[k] == R.add(lo[k], turned) && Unfold(R, lo, hi, v)[k + |lo|] == R.Sub(lo[k], turned)
  {
  }

  /** The inverse butterflies of one block, starting at j. */
  method InverseButterflies<T(!new)>(R: Ring<T>, data: array<T>, table: array<T>, j: nat, step: nat, skip: nat,
                                     ghost v: T, ghost S: seq<T>)
    requires R.Laws() && table != data && step > 0 && skip > 0 && j + 2 * step <= data.Length
    requires table.Length == step * skip && forall i :: 0 <= i < table.Length ==> table[i] == R.Pow(v, i)
    requires |S| == 2 * step && data[j..j + 2 * step] == S
    modifies data
    ensures data[..j] == old(data[..j]) && data[j + 2 * step..] == old(data[j + 2 * step..])
    ensures data[j..j + 2 * step] == Unfold(R, S[..step], S[step..], R.Pow(v, skip))
  {
    hide *;
    ghost var n, old_ := data.Length, data[..];
    ghost var U := Unfold(R, S[..step], S[step..], R.Pow(v, skip));
    var k := 0;
    while k < step
      invariant 0 <= k <= step
      invariant forall i :: 0 <= i < j || j + 2 * step <= i < n ==> data[i] == old_[i]
      invariant forall i :: j <= i < j + k || j + step <= i < j + step + k ==> data[i] == U[i - j]
      invariant forall i :: j + k <= i < j + step || j + step + k <= i < j + 2 * step ==> data[i] == old_[i]
    {
      var aIdx, bIdx := j + k, j + k + step;
      TwiddleIndex(k, step, skip);
      R.PowPow(v, skip, k);
      UnfoldAt(R, S[..step], S[step..], R.Pow(v, skip), k);
      data[bIdx] := R.mul(data[bIdx], table[k * skip]);
      var a := R.add(data[aIdx], data[bIdx]);
      var b := R.Sub(data[aIdx], data[bIdx]);
      data[aIdx] := a;
      data[bIdx] := b;
      k := k + 1;
    }
    assert data[j..j + 2 * step] == U;
  }

  lemma UnstageStep<T(!new)>(R: Ring<T>, s: seq<T>, B: nat, q: nat, v: T, first: seq<T>)
    requires B % 2 == 0 && q > 0 && |s| == q * B >= B && |s| - B == (q - 1) * B
    requires first == Unfold(R, s[..B / 2], s[B / 2..B], v)
    ensures Unstage(R, s, B, q, v) == first + Unstage(R, s[B..], B, q - 1, v)
  {
  }

  lemma UnstageNone<T(!new)>(R: Ring<T>, s: seq<T>, B: nat, q: nat, v: T)
    requires B > 0 && B % 2 == 0 && |s| == q * B == 0
    ensures Unstage(R, s, B, q, v) == []
  {
  }

  /** The inverse butterflies of all the blocks. */
  method UnstageInPlace<T(!new)>(R: Ring<T>, data: array<T>, table: array<T>, step: nat, skip: nat, ghost v: T)
    requires R.Laws() && table != data && step > 0 && skip > 0 && data.Length == skip * (2 * step)
    requires table.Length == step * skip && forall i :: 0 <= i < table.Length ==> table[i] == R.Pow(v, i)
    modifies data
    ensures data[..] == Unstage(R, old(data[..]), 2 * step, skip, R.Pow(v, skip))
  {
    hide Ring.Laws, Ring.Pow, Unfold, Unstage;
    ghost var vq, B, left := R.Pow(v, skip), 2 * step, skip;
    ghost var todo, done := data[..], [];
    var j := 0;
    while j < data.Length
      invariant 0 <= j <= data.Length && data.Length - j == left * B
      invariant data[..j] == done && data[j..] == todo
      invariant done + Unstage(R, todo, B, left, vq) == Unstage(R, old(data[..]), B, skip, vq)
    {
      BlockFits(left, B);
      InverseButterflies(R, data, table, j, step, skip, v, todo[..B]);
      ghost var first := data[j..j + B];
      assert todo[..B][..step] == todo[..step] && todo[..B][step..] == todo[step..B];
      UnstageStep(R, todo, B, left, vq, first);
      assert data[j + B..] == todo[B..];
      assert data[..j + B] == done + first;
      todo, done, left := todo[B..], done + first, left - 1;
      j := j + 2 * step;
    }
    UnstageNone(R, todo, B, left, vq);
    assert data[..] == done;
  }

  lemma OneInverseBlock<T(!new)>(R: Ring<T>, s: seq<T>, v: T)
    requires PowerOfTwo(|s|) && R.Laws()
    ensures InverseBlocks(R, s, |s|, 1, R.Pow(v, 1)) == Inverse(R, s, v)
  {
    hide Ring.Laws, Inverse;
    R.PowStep(v, 0);
    R.Law(v, v, v);
    assert s[..|s|] == s;
    assert InverseBlocks(R, s[|s|..], |s|, 0, v) == [];
  }

  lemma PowerOfTwoParts(n: nat)
    requires PowerOfTwo(n)
    ensures n >= 1 && PowerOfTwo(2 * n)
    ensures n > 1 ==> n % 2 == 0 && PowerOfTwo(n / 2)
  {
    assert (2 * n) / 2 == n && (2 * n) % 2 == 0;
  }

  /** The inverse transform; v plays the role of exp(2 pi i / len). */
  method Ifft<T(!new)>(R: Ring<T>, data: array<T>, v: T)
    requires R.Laws() && PowerOfTwo(data.Length)
    modifies data
    ensures data[..] == Inverse(R, old(data[..]), v)
  {
    hide Ring.Laws, Ring.Pow, Inverse, Unstage, InverseBlocks, PowerOfTwo;
    var half := data.Length / 2;
    var table := PowerTable(R, v, half);
    var skip: nat, step: nat := half, 1;
    ghost var q: nat := data.Length;
    PowerOfTwoParts(q);
    InverseBlocksOfOne(R, data[..], q, R.Pow(v, q));
    while step <= half
      invariant PowerOfTwo(step) && PowerOfTwo(q) && q > 0 && step > 0
      invariant data.Length == q * step && skip == q / 2
      invariant table.Length == half && forall i :: 0 <= i < half ==> table[i] == R.Pow(v, i)
      invariant data[..] == InverseBlocks(R, old(data[..]), step, q, R.Pow(v, q))
      decreases half - step
    {
      MoreThanOneBlock(q, step, half);
      PowerOfTwoParts(q);
      PowerOfTwoParts(step);
      UnstageJoinsBlocks(R, old(data[..]), 2 * step, skip, R.Pow(v, skip));
      R.PowAdd(v, skip, skip);
      UnstageInPlace(R, data, table, step, skip, v);
      q := skip;
      step := step * 2;
      skip := skip / 2;
    }
    LastBlock(q, step, half);
    OneInverseBlock(R, old(data[..]), v);
  }

  lemma MoreThanOneBlock(q: nat, step: nat, half: nat)
    requires q > 0 && step > 0 && (q * step) / 2 == half && step <= half
    ensures q > 1
    ensures q % 2 == 0 ==> q * step == (q / 2) * (2 * step) && step * (q / 2) == half
  {
  }

  lemma LastBlock(q: nat, step: nat, half: nat)
    requires q > 0 && step > 0 && (q * step) / 2 == half < step
    ensures q == 1 && q * step == step
  {
    if q >= 2 { AtLeastTwice(q, step); }
  }

  lemma AtLeastTwice(q: nat, step: nat)
    requires q >= 2
    ensures q * step >= 2 * step
  {
  }
}
