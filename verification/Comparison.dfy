/** The comparison loops of the big integer kernel. */
module Comparison {
  import opened Digits
  import opened Records

  /** The highest position at which two equally long strings differ decides their order. */
  lemma HighestDifferenceDecides(a: seq<Digit>, b: seq<Digit>, i: nat)
    requires i < |a| == |b| && a[i] < b[i] && a[i + 1..] == b[i + 1..]
    ensures Val(a) < Val(b)
  {
    ValSplit(a, i);
    ValSplit(b, i);
    ValBound(a[..i]);
    ValBound(b[..i]);
    MulMonotone(a[i] + 1, b[i], Weight(i));
    assert Weight(i) * (a[i] + 1) == Weight(i) * a[i] + Weight(i);
  }

  lemma ValSplit(s: seq<Digit>, i: nat)
    requires i < |s|
    ensures Val(s) == Val(s[..i]) + Weight(i) * s[i] + Weight(i + 1) * Val(s[i + 1..])
  {
    assert s == s[..i + 1] + s[i + 1..];
    ValAppend(s[..i + 1], s[i + 1..]);
    ValSnoc(s, i);
  }

  /** Digits in the order of their number, and of their values if there are equally many: on canonical records the order of values. */
  method IsLessThan(lhs: DataRecord, rhs: DataRecord) returns (less: bool)
    requires lhs.Ok() && rhs.Ok()
    ensures less <==> lhs.digitsUsed < rhs.digitsUsed || (lhs.digitsUsed == rhs.digitsUsed && lhs.Value() < rhs.Value())
    ensures lhs.Proper() && rhs.Proper() ==> (less <==> lhs.Value() < rhs.Value())
  {
    ghost var L, R := lhs.Digits(), rhs.Digits();
    if lhs.digitsUsed < rhs.digitsUsed {
      if lhs.Proper() && rhs.Proper() { ShorterIsSmaller(L, R); }
      return true;
    } else if lhs.digitsUsed > rhs.digitsUsed {
      if lhs.Proper() && rhs.Proper() { ShorterIsSmaller(R, L); }
      return false;
    }
    var i := lhs.digitsUsed;
    while i != 0
      invariant 0 <= i <= |L| == |R| && L[i..] == R[i..]
    {
      i := i - 1;
      if lhs.number[i] < rhs.number[i] {
        HighestDifferenceDecides(L, R, i);
        return true;
      } else if lhs.number[i] > rhs.number[i] {
        HighestDifferenceDecides(R, L, i);
        return false;
      }
    }
    return false;
  }

  /** Canonical strings are determined by their numbers. */
  lemma EqualValuesEqualDigits(a: seq<Digit>, b: seq<Digit>)
    requires Canonical(a) && Canonical(b) && a != b
    ensures Val(a) != Val(b)
  {
    if |a| < |b| {
      ShorterIsSmaller(a, b);
    } else if |a| > |b| {
      ShorterIsSmaller(b, a);
    } else {
      var i := |a| - 1;
      while a[i] == b[i]
        invariant 0 <= i < |a| && a[i + 1..] == b[i + 1..]
        decreases i
      {
        i := i - 1;
      }
      if a[i] < b[i] { HighestDifferenceDecides(a, b, i); } else { HighestDifferenceDecides(b, a, i); }
    }
  }

  /** Whether the digits are the same: on canonical records, whether the values are. */
  method IsEqualTo(lhs: DataRecord, rhs: DataRecord) returns (equal: bool)
    requires lhs.Ok() && rhs.Ok()
    ensures equal <==> lhs.Digits() == rhs.Digits()
    ensures lhs.Proper() && rhs.Proper() ==> (equal <==> lhs.Value() == rhs.Value())
  {
    ghost var L, R := lhs.Digits(), rhs.Digits();
    if lhs.Proper() && rhs.Proper() && L != R { EqualValuesEqualDigits(L, R); }
    if lhs.digitsUsed != rhs.digitsUsed {
      return false;
    }
    var i := 0;
    while i != lhs.digitsUsed
      invariant 0 <= i <= |L| == |R| && L[..i] == R[..i]
    {
      if lhs.number[i] != rhs.number[i] {
        assert L[i] != R[i];
        return false;
      }
      i := i + 1;
    }
    return true;
  }
}
