/** Multiplication of large numbers by convolving their bytes. */
module FourierMultiplication {
  import opened ByteStrings
  import opened Columns
  import opened ComplexNumbers
  import opened Convolution
  import opened Digits
  import opened FastFourier
  import opened Fourier
  import opened LongArithmetic
  import opened Records
  import opened Rings

  /** Whole numbers as complex ones. */
  function Embed(s: seq<int>): (t: seq<Complex>)
    ensures |t| == |s|
  {
    seq(|s|, i requires 0 <= i < |s| => FromInt(s[i]))
  }

  /** The bytes of a number, filled up with zeros. */
  function PaddedBytes(s: seq<Digit>, size: nat): (b: seq<int>)
    requires 2 * |s| <= size
    ensures |b| == size
  {
    Bytes(s) + seq(size - 2 * |s|, _ => 0)
  }

  lemma {:induction false} BytesInRange(s: seq<Digit>)
    ensures forall k :: 0 <= k < |Bytes(s)| ==> 0 <= Bytes(s)[k] < 256
  {
    if |s| > 0 { BytesInRange(s[1..]); }
  }

  lemma PaddedBytesValue(s: seq<Digit>, size: nat)
    requires 2 * |s| <= size
    ensures ByteVal(PaddedBytes(s, size)) == Val(s)
    ensures forall k :: 0 <= k < size ==> 0 <= PaddedBytes(s, size)[k] < 256
  {
    hide ByteVal, Bytes, Val;
    var zeros := seq(size - 2 * |s|, _ => 0);
    assert PaddedBytes(s, size) == Bytes(s) + zeros;
    ByteAppend(Bytes(s), zeros);
    ByteZeros(zeros);
    BytesValue(s);
    BytesInRange(s);
  }

  predicate FourierSizeFits(digits: nat, size: nat)
  {
    2 * digits <= size < 4 * digits
  }

  /** The smallest power of two that is at least twice the number of digits. */
  method FourierSize(digits: nat) returns (size: nat)
    requires digits > 0
    ensures PowerOfTwo(size) && 2 * digits <= size < 4 * digits
  {
    size := 1;
    while size < digits * 2
      invariant PowerOfTwo(size) && size < 4 * digits
      decreases digits * 2 - size
    {
      PowerOfTwoParts(size);
      size := size * 2;
    }
  }

  /** Breaks a number into 8-bit chunks. */
  method LoadBytes(source: DataRecord, size: nat) returns (a: array<Complex>)
    requires source.Ok() && 2 * source.digitsUsed <= size
    ensures fresh(a) && a[..] == Embed(PaddedBytes(source.Digits(), size))
  {
    hide FromInt;
    ghost var S, B := source.Digits(), PaddedBytes(source.Digits(), size);
    a := new Complex[size](_ => ZERO);
    var i := 0;
    while i < source.digitsUsed
      invariant 0 <= i <= source.digitsUsed
      invariant forall k :: 0 <= k < 2 * i ==> a[k] == FromInt(B[k])
    {
      BytesAt(S, i);
      a[i * 2] := FromInt(source.number[i] % 256);
      a[i * 2 + 1] := FromInt(source.number[i] / 256);
      i := i + 1;
    }
    i := source.digitsUsed * 2;
    while i < size
      invariant source.digitsUsed * 2 <= i <= size
      invariant forall k :: 0 <= k < i ==> a[k] == FromInt(B[k])
    {
      a[i] := FromInt(0);
      i := i + 1;
    }
  }

  lemma {:induction false} EmbedMix(a: seq<int>, b: seq<int>, k: int, i: nat)
    requires i <= |a| && |b| > 0
    ensures MixSum(ComplexRing(), Embed(a), Embed(b), k, i) == FromInt(MixInt(a, b, k, i))
  {
    hide FromInt, Plus, Product;
    var R := ComplexRing();
    if i == 0 {
      FromIntIsHomomorphism(0, 0);
    } else {
      var x, y := a[i - 1], b[(k - (i - 1)) % |b|];
      EmbedMix(a, b, k, i - 1);
      FromIntIsHomomorphism(x, y);
      FromIntIsHomomorphism(MixInt(a, b, k, i - 1), x * y);
      assert MixSum(R, Embed(a), Embed(b), k, i)
          == Plus(MixSum(R, Embed(a), Embed(b), k, i - 1), Product(FromInt(x), FromInt(y)));
    }
  }

  lemma EmbedConv(a: seq<int>, b: seq<int>)
    requires |a| == |b| > 0
    ensures Conv(ComplexRing(), Embed(a), Embed(b)) == Embed(PartialConv(a, b, |a|))
  {
    hide FromInt, MixSum, MixInt, ComplexRing;
    forall k | 0 <= k < |a|
      ensures Conv(ComplexRing(), Embed(a), Embed(b))[k] == Embed(PartialConv(a, b, |a|))[k]
    {
      EmbedMix(a, b, k, |a|);
    }
  }

  /** w stands for exp(-2 pi i / size), a point on the unit circle. */
  ghost predicate UnitRoot(w: Complex, size: nat)
  {
    Root(ComplexRing(), w, size) && Product(w, Conjugate(w)) == ONE
  }

  /** The roots of the two smallest sizes. */
  lemma SmallRoots()
    ensures UnitRoot(Complex(-1.0, 0.0), 2) && UnitRoot(Complex(0.0, -1.0), 4)
  {
    var R := ComplexRing();
    var minusOne, minusI := Complex(-1.0, 0.0), Complex(0.0, -1.0);
    R.PowStep(minusOne, 0);
    R.PowStep(minusI, 0);
    R.PowStep(minusI, 1);
  }

  /** Square roots on the unit circle lead from each size to the next. */
  lemma RootOfRoot(v: Complex, w: Complex, size: nat)
    requires PowerOfTwo(size) && size >= 2 && UnitRoot(w, size)
    requires Product(v, v) == w && Product(v, Conjugate(v)) == ONE
    ensures UnitRoot(v, 2 * size)
  {
    ComplexLaws();
    hide Product, Conjugate, Ring.Laws, Root;
    PowerOfTwoParts(size);
    RootOfSquare(ComplexRing(), v, w, size);
  }

  lemma ScaleFactor(size: nat)
    requires size > 0
    ensures Product(Complex(1.0 / (size as real), 0.0), ComplexRing().Times(size, ONE)) == ONE
  {
    TimesIsProduct(size, ONE);
    ProductCommutes(FromInt(size), ONE);
    assert (1.0 / (size as real)) * (size as real) == 1.0;
  }

  /** The entry by entry products, with the scale factor. */
  method ScaledProducts(a: array<Complex>, b: array<Complex>, l: Complex)
    requires a != b && a.Length == b.Length
    modifies a
    ensures forall k :: 0 <= k < a.Length ==> a[k] == Product(Product(l, old(a[k])), b[k])
  {
    hide Product;
    var i := 0;
    while i < a.Length
      invariant 0 <= i <= a.Length
      invariant forall k :: i <= k < a.Length ==> a[k] == old(a[k])
      invariant forall k :: 0 <= k < i ==> a[k] == Product(Product(l, old(a[k])), b[k])
    {
      a[i] := Product(Product(l, a[i]), b[i]);
      i := i + 1;
    }
  }

  /** The products of two transforms invert to the convolution of the bytes. */
  lemma ConvolvedBytes(A: seq<int>, B: seq<int>, w: Complex, l: Complex, p: seq<Complex>)
    requires PowerOfTwo(|A|) && 0 < |A| == |B| == |p| && UnitRoot(w, |A|)
    requires l == Complex(1.0 / (|A| as real), 0.0)
    requires forall k :: 0 <= k < |p| ==>
      p[k] == Product(Product(l, Transform(ComplexRing(), Embed(A), w)[k]), Transform(ComplexRing(), Embed(B), w)[k])
    ensures Inverse(ComplexRing(), p, Conjugate(w)) == Embed(PartialConv(A, B, |A|))
  {
    hide Product, Transform, Inverse, PowerOfTwo, PartialConv, Embed, Conv, Root, Ring.Laws, Ring.Times;
    ComplexLaws();
    ScaleFactor(|A|);
    ConvolutionTheorem(ComplexRing(), Embed(A), Embed(B), w, Conjugate(w), l, p);
    EmbedConv(A, B);
  }

  /** The cyclic convolution of two byte strings, by forward transforms, products and an inverse transform. */
  method ConvolveInPlace(a: array<Complex>, b: array<Complex>, w: Complex, ghost A: seq<int>, ghost B: seq<int>)
    requires a != b && a.Length == b.Length > 0 && PowerOfTwo(a.Length) && UnitRoot(w, a.Length)
    requires a[..] == Embed(A) && b[..] == Embed(B)
    modifies a, b
    ensures a[..] == Embed(PartialConv(A, B, |A|))
  {
    hide *;
    ComplexLaws();
    Fft(ComplexRing(), a, w);
    Fft(ComplexRing(), b, w);
    var l := Complex(1.0 / (a.Length as real), 0.0);
    ghost var TA, TB := a[..], b[..];
    ScaledProducts(a, b, l);
    ConvolvedBytes(A, B, w, l, a[..]);
    Ifft(ComplexRing(), a, Conjugate(w));
  }

  /** Two byte steps of the carry loop are one digit step. */
  lemma TwoByteSteps(c0: nat, c1: nat, carry: nat)
    ensures var n1 := c0 + carry; var n2 := c1 + n1 / 256; var column := c0 + 256 * c1;
      && (n2 % 256) * 256 + n1 % 256 == (column + carry) % 65536
      && n2 / 256 == (column + carry) / 65536
  {
    var q1, r1 := (c0 + carry) / 256, (c0 + carry) % 256;
    var q2, r2 := (c1 + q1) / 256, (c1 + q1) % 256;
    assert c0 + carry == 256 * q1 + r1 && c1 + q1 == 256 * q2 + r2;
    DivModUnique(c0 + 256 * c1 + carry, 65536, q2, 256 * r2 + r1);
  }

  /** The two byte columns of digit i. */
  lemma ChunkPair(a: seq<Complex>, c: seq<int>, i: nat, len: nat)
    requires a == Embed(c) && i < len && 2 * len <= |c|
    ensures Round(a[i * 2]) == c[i * 2] && Round(a[i * 2 + 1]) == c[i * 2 + 1]
    ensures Pairs(c, len)[i] == c[i * 2] + 256 * c[i * 2 + 1]
  {
    RoundExact(c[i * 2]);
    RoundExact(c[i * 2 + 1]);
  }

  /** Rounds the convolution, carries, and stores two bytes a digit, counting the zeros on top. */
  method CarryBytes(a: array<Complex>, r: array<Digit>, len: nat, ghost c: seq<int>) returns (zeros: nat)
    requires a[..] == Embed(c) && 2 * len <= |c| && len <= r.Length
    requires forall k :: 0 <= k < |c| ==> 0 <= c[k] < 0x4000_0000_0000_0000
    modifies r
    ensures r[..len] == Propagate(Pairs(c, len), 0, len)
    ensures zeros <= len && (forall k :: len - zeros <= k < len ==> r[k] == 0)
    ensures zeros < len ==> r[len - zeros - 1] != 0
  {
    hide Round, Embed, Pairs;
    var carry: nat := 0;
    var i := 0;
    zeros := 0;
    while i < len
      invariant 0 <= i <= len && 0 <= carry < 0x4000_0000_0000_0000
      invariant carry == CarryAt(Pairs(c, len), 0, i)
      invariant r[..i] == Propagate(Pairs(c, len), 0, i)
      invariant zeros <= i && (forall k :: i - zeros <= k < i ==> r[k] == 0)
      invariant zeros < i ==> r[i - zeros - 1] != 0
    {
      ChunkPair(a[..], c, i, len);
      TwoByteSteps(c[i * 2], c[i * 2 + 1], carry);
      var num1 := Round(a[i * 2]) + carry;
      // Neither 64-bit sum wraps around.
      assert num1 < 0x1_0000_0000_0000_0000;
      carry := 0;
      if num1 > 255 {
        carry := num1 / 256;
        num1 := num1 % 256;
      }
      var num2 := Round(a[i * 2 + 1]) + carry;
      assert num2 < 0x1_0000_0000_0000_0000;
      carry := 0;
      if num2 > 255 {
        carry := num2 / 256;
        num2 := num2 % 256;
      }
      var word: int := num2 * 256 + num1;
      r[i] := word;
      zeros := if word == 0 then zeros + 1 else 0;
      i := i + 1;
    }
  }

  /** Sets the number of digits from the count of zeros on top. */
  method StoreProduct(result: DataRecord, len: nat, zeros: nat)
    requires 1 <= len <= result.number.Length && zeros <= len
    requires forall k :: len - zeros <= k < len ==> result.number[k] == 0
    requires zeros < len ==> result.number[len - zeros - 1] != 0
    modifies result`digitsUsed, result.number
    ensures result.Proper() && result.Value() == old(Val(result.number[..len]))
  {
    ghost var all := result.number[..len];
    result.digitsUsed := len - zeros;
    ValAppend(all[..len - zeros], all[len - zeros..]);
    ValZeros(all[len - zeros..]);
    assert all == all[..len - zeros] + all[len - zeros..];
    if result.digitsUsed == 0 {
      SetZero(result);
    } else {
      assert result.Digits() == all[..len - zeros];
    }
  }

  /** The convolution of two numbers' bytes: small entries that stand for the product. */
  lemma ProductColumns(S: seq<Digit>, T: seq<Digit>, size: nat) returns (c: seq<int>)
    requires |S| > 0 && |T| > 0 && 2 * (|S| + |T|) <= size < 0x8000_0000
    ensures c == PartialConv(PaddedBytes(S, size), PaddedBytes(T, size), size)
    ensures forall k :: 0 <= k < size ==> 0 <= c[k] < 0x4000_0000_0000_0000
    ensures Val(Pairs(c, |S| + |T|)) == Val(S) * Val(T)
  {
    hide MixInt, Val, ByteVal, Bytes;
    var A, B, na, nb := PaddedBytes(S, size), PaddedBytes(T, size), 2 * |S|, 2 * |T|;
    PaddedBytesValue(S, size);
    PaddedBytesValue(T, size);
    c := PartialConv(A, B, size);
    forall k | 0 <= k < size
      ensures 0 <= c[k] < 0x4000_0000_0000_0000
      ensures na + nb <= k ==> c[k] == 0
    {
      MixBound(A, B, k, size);
      if na + nb <= k { MixZero(A, B, na, nb, k, size); }
    }
    PartialConvValue(A, B, na, nb, size);
    assert A[..size] == A;
    PairsValue(c, |S| + |T|);
  }

  method LongMulFourier(lhs: DataRecord, rhs: DataRecord, result: DataRecord, w: Complex, size: nat)
    requires lhs.Proper() && rhs.Proper() && Apart(result, lhs) && Apart(result, rhs)
    requires result.number.Length >= lhs.digitsUsed + rhs.digitsUsed
    requires PowerOfTwo(size) && 2 * (lhs.digitsUsed + rhs.digitsUsed) <= size < 0x8000_0000 && UnitRoot(w, size)
    modifies result`digitsUsed, result.number
    ensures result.Proper() && result.Value() == lhs.Value() * rhs.Value()
  {
    hide Val, Weight, Canonical, PartialConv, PaddedBytes, Pairs, Embed, PowerOfTwo, UnitRoot, Propagate, CarryAt;
    ghost var S, T := lhs.Digits(), rhs.Digits();
    ghost var A, B := PaddedBytes(S, size), PaddedBytes(T, size);
    var a := LoadBytes(lhs, size);
    var b := LoadBytes(rhs, size);
    ConvolveInPlace(a, b, w, A, B);
    ghost var c := ProductColumns(S, T, size);
    var len := lhs.digitsUsed + rhs.digitsUsed;
    ProductBound(S, T);
    PropagateFits(Pairs(c, len), 0);
    var zeros := CarryBytes(a, result.number, len, c);
    StoreProduct(result, len, zeros);
  }

  /** Multiplication in kernel 2: shift and add for a small operand, convolution otherwise. */
  method LongMulKernel2(lhs: DataRecord, rhs: DataRecord, result: DataRecord, unit: nat -> Complex)
    requires lhs.Proper() && rhs.Proper() && Apart(result, lhs) && Apart(result, rhs)
    requires result.number.Length >= lhs.digitsUsed + rhs.digitsUsed
    requires lhs.digitsUsed + rhs.digitsUsed < 0x2000_0000
    requires forall size: nat :: PowerOfTwo(size) && FourierSizeFits(lhs.digitsUsed + rhs.digitsUsed, size) ==>
               UnitRoot(unit(size), size)
    modifies result`digitsUsed, result.number
    ensures result.Proper() && result.Value() == lhs.Value() * rhs.Value()
  {
    hide Val, Canonical, PowerOfTwo, UnitRoot;
    if lhs.digitsUsed < 10 || rhs.digitsUsed < 10 {
      LongMul(lhs, rhs, result);
    } else {
      var size := FourierSize(lhs.digitsUsed + rhs.digitsUsed);
      LongMulFourier(lhs, rhs, result, unit(size), size);
    }
  }
}
