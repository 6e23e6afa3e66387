/** What a caller sees after a number of several digits is multiplied by a 16-bit zero. */
module ZeroProducts {
  import opened Comparison
  import opened Digits
  import opened Kernels
  import opened LongArithmetic
  import opened Records
  import opened Shifts

  /**
   * Multiplies by a 16-bit number and compares with another one. A zero of several digits equals nothing,
   * and is below what has no fewer digits.
   */
  method CompareProduct(data: DataRecord, value: Digit, other: DataRecord) returns (equal: bool, less: bool)
    requires data.Proper() && other.Proper()
    ensures equal <==> data.Value() * value == other.Value() && (value != 0 || data.digitsUsed == 1)
    ensures less <==> data.Value() * value < other.Value() && (value != 0 || data.digitsUsed <= other.digitsUsed)
  {
    hide Val, Canonical;
    var product := new DataRecord(data.digitsUsed + SLACK);
    ShortMul(data, value, product);
    if value == 0 { ZeroAndOthers(data.Digits(), other.Digits()); }
    equal := IsEqualTo(product, other);
    less := IsLessThan(product, other);
  }

  lemma ZeroAndOthers(data: seq<Digit>, other: seq<Digit>)
    requires Canonical(data) && Canonical(other)
    ensures |data| < |other| ==> Val(other) > 0
    ensures |data| == |other| > 1 ==> Val(other) > 0
    ensures Val(other) >= 0
  {
    ValBound(other);
    if |other| > 1 { CanonicalBound(other); }
  }

  /** 65536 has two digits; times zero it is a zero of two digits, which differs from zero and is not below one. */
  method ZeroOfTwoDigits() returns (product: DataRecord, equal: bool, less: bool)
    ensures product.Ok() && product.Value() == 0 && !product.Proper()
    ensures !equal && !less
  {
    var data := new DataRecord(SLACK);
    data.number[1] := 1;
    data.digitsUsed := 2;
    assert data.Digits() == [0, 1];
    product := new DataRecord(data.digitsUsed + SLACK);
    ShortMul(data, 0, product);
    var zero := new DataRecord(SLACK);
    var one := new DataRecord(SLACK);
    one.number[0] := 1;
    assert one.Digits() == [1];
    equal := IsEqualTo(product, zero);
    less := IsLessThan(product, one);
  }

  /** Shifting zero by a whole digit leaves a zero of two digits as well. */
  method ShiftedZero() returns (shifted: DataRecord, equal: bool)
    ensures shifted.Ok() && shifted.Value() == 0 && !shifted.Proper() && !equal
  {
    hide Pow;
    var zero := new DataRecord(SLACK);
    shifted := new DataRecord(SLACK);
    ShiftLeft(zero, shifted, 16);
    equal := IsEqualTo(shifted, zero);
  }
}
