/** The bytes of serialized objects, one by one. */
module SerializedForms {
  import opened Digits
  import opened IntegerFormat
  import opened LongArithmetic
  import opened Serialization

  lemma DivideTwice(m: nat, p: nat)
    requires p > 0
    ensures m / 256 / p == m / (256 * p)
  {
    var q, r := m / 256 / p, m / 256 % p;
    assert m / 256 == q * p + r;
    assert m == 256 * (m / 256) + m % 256;
    MulAssociates(256, q, p);
    MulAssociates(256, p, q);
    assert m == (256 * p) * q + (256 * r + m % 256);
    DivModUnique(m, 256 * p, q, 256 * r + m % 256);
  }

  lemma {:induction false} NumberByteAt(m: nat, i: nat)
    requires i < |NumberBytes(m)|
    ensures Pow(256, i) > 0 && NumberBytes(m)[i] == m / Pow(256, i) % 256
  {
    if i > 0 {
      NumberByteAt(m / 256, i - 1);
      assert NumberBytes(m)[i] == NumberBytes(m / 256)[i - 1];
      DivideTwice(m, Pow(256, i - 1));
    }
  }

  /**
   A serialized number: the control byte has the number of bytes that follow, and 128 more for a negative one;
   these are the digits of the absolute value to the base 256, the lowest first.
   */
  lemma PackedBytes(v: int, m: nat, i: nat)
    requires m < Span(8) && (v == m || v == -(m as int))
    ensures |Packed(v)| <= 9 && m < Span(|Packed(v)| - 1) && (m > 0 ==> Span(|Packed(v)| - 2) <= m)
    ensures Packed(v)[0] == |Packed(v)| - 1 + if v < 0 then 128 else 0
    ensures i + 1 < |Packed(v)| ==> Pow(256, i) > 0 && Packed(v)[i + 1] == m / Pow(256, i) % 256
  {
    NumberBytesMinimal(m);
    if i + 1 < |Packed(v)| { NumberByteAt(m, i); }
  }

  /** What is written for a number, a string, a pair with a vector of flags, and a map. */
  lemma KnownForms()
    ensures Span(8) > 300 && Size(2) && Size(1)
    ensures Serialized(Number(-300)) == [130, 44, 1]
    ensures Serialized(Text(['a' as int, 'b' as int])) == [1, 2, 97, 98]
    ensures Serialized(Pair(Number(7), Vector([Flag(true), Flag(false)]))) == [1, 7, 1, 2, 49, 48]
    ensures Serialized(Map([Number(1)], [Text(['a' as int])])) == [1, 1, 1, 1, 1, 1, 97]
  {
    SpanMonotone(2, 8);
    assert Span(2) == 65536;
    hide Span;
    PackedSmall(-300);
    PackedSmall(1);
    PackedSmall(2);
    PackedSmall(7);
    hide Packed;
    var flags := Vector([Flag(true), Flag(false)]);
    assert SerializedItems(flags, 1) == SerializedItems(flags, 0) + [49];
    assert SerializedItems(flags, 2) == SerializedItems(flags, 1) + [48];
    var entries := Map([Number(1)], [Text(['a' as int])]);
    assert SerializedEntries(entries, 1) == SerializedEntries(entries, 0) + [1, 1] + [1, 1, 97];
  }

  lemma PackedSmall(v: int)
    requires -65536 < v < 65536 && Magnitude(v) < Span(8)
    ensures v == -300 ==> Packed(v) == [130, 44, 1]
    ensures 0 <= v < 256 ==> Packed(v) == [1, v]
  {
  }

  lemma {:induction false} SpanIsPower(w: nat)
    ensures Span(w) == Pow(256, w)
  {
    if w > 0 { SpanIsPower(w - 1); }
  }

  /** The number that bytes stand for has them as its digits to the base 256, the first one the lowest. */
  lemma {:induction false} BytesAreDigits(bytes: seq<Byte>, i: nat)
    requires i < |bytes|
    ensures BytesNumber(bytes) < Pow(256, |bytes|)
    ensures Pow(256, i) > 0 && BytesNumber(bytes) / Pow(256, i) % 256 == bytes[i]
  {
    BytesNumberBound(bytes);
    SpanIsPower(|bytes|);
    if i > 0 {
      BytesAreDigits(bytes[1..], i - 1);
      assert BytesNumber(bytes) / 256 == BytesNumber(bytes[1..]);
      DivideTwice(BytesNumber(bytes), Pow(256, i - 1));
    }
  }

  /**
   What an unsigned type of w bytes reads, from any bytes: it fails on a sign, on more bytes than it has and on fewer
   bytes in the stream than announced, and on nothing else, not on zeros at the end nor on the reserved bits.
   */
  lemma UnsignedFound(input: seq<Byte>, pos: nat, w: nat, size: nat)
    requires 1 <= w <= 8 && pos < |input| && size == input[pos] % 16 > 0
    ensures UnpackedUnsigned(input, pos, w).Failed? <==> input[pos] >= 128 || size > w || pos + 1 + size > |input|
    ensures UnpackedUnsigned(input, pos, w).Item? ==>
      && UnpackedUnsigned(input, pos, w).next == pos + 1 + size
      && UnpackedUnsigned(input, pos, w).value == BytesNumber(input[pos + 1..pos + 1 + size])
    ensures UnpackedUnsigned([], 0, w).Failed?
  {
  }

  /** A signed type reads the number or its negative, reduced to its range by multiples of 256 to the power of w. */
  lemma SignedFound(input: seq<Byte>, pos: nat, w: nat, size: nat)
    requires 1 <= w <= 8 && pos < |input| && size == input[pos] % 16 > 0
    ensures UnpackedSigned(input, pos, w).Failed? <==> size > w || pos + 1 + size > |input|
    ensures UnpackedSigned(input, pos, w).Item? ==>
      var m, v := BytesNumber(input[pos + 1..pos + 1 + size]), UnpackedSigned(input, pos, w).value;
      && UnpackedSigned(input, pos, w).next == pos + 1 + size
      && 0 <= 2 * v + Pow(256, w) < 2 * Pow(256, w)
      && (v - if input[pos] >= 128 then -(m as int) else m) % Pow(256, w) == 0
  {
    SpanIsPower(w);
    if UnpackedSigned(input, pos, w).Item? {
      var m: int := BytesNumber(input[pos + 1..pos + 1 + size]);
      var wanted := if input[pos] >= 128 then -m else m;
      WrapNegation(m, w);
      var q := WrapCongruent(wanted, w);
      hide Wrap, Span, Half, Pow;
      MultipleOf(q, Span(w));
      assert UnpackedSigned(input, pos, w).value == Wrap(wanted, w);
      HalfIsHalf(UnpackedSigned(input, pos, w).value, w);
    }
  }

  lemma HalfIsHalf(v: int, w: nat)
    requires w >= 1 && InSigned(v, w)
    ensures 0 <= 2 * v + Span(w) < 2 * Span(w)
  {
  }

  lemma MultipleOf(q: int, n: nat)
    requires n > 0
    ensures (-(q * n)) % n == 0
  {
    QuotientUnique(-(q * n), n, -q, 0);
  }
}
