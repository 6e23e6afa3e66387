/** Long division and shift-and-add multiplication. */
module LongArithmetic {
  import opened Comparison
  import opened Digits
  import opened Kernels
  import opened Records
  import opened Shifts

  const SLACK: nat := 25

  /** A canonical number below the weight of position n has at most n digits. */
  lemma DigitsFit(s: seq<Digit>, n: nat)
    requires Canonical(s) && n >= 1 && Val(s) < Weight(n)
    ensures |s| <= n
  {
    if |s| > n {
      TopDigit(s);
      WeightMonotone(n, |s| - 1);
    }
  }

  method SetZero(result: DataRecord)
    requires result.number.Length >= 1
    modifies result`digitsUsed, result.number
    ensures result.Proper() && result.Value() == 0
  {
    result.digitsUsed := 1;
    result.number[0] := 0;
    ValZeros(result.Digits());
  }

  method CopyValue(source: DataRecord, dest: DataRecord)
    requires source.Ok() && source.digitsUsed <= dest.number.Length && source.number != dest.number
    modifies dest`digitsUsed, dest.number
    ensures dest.Ok() && dest.Digits() == old(source.Digits())
  {
    dest.digitsUsed := source.digitsUsed;
    CopyDigits(source.number, dest.number, 0, dest.digitsUsed);
    assert dest.Digits() == dest.number[0..dest.digitsUsed];
  }

  /** Doubles temp until it reaches lhs. */
  method AlignUp(lhs: DataRecord, temp: DataRecord, start: nat, ghost R: nat) returns (shifts: nat)
    requires lhs.Proper() && temp.Proper() && Apart(temp, lhs)
    requires temp.number.Length >= lhs.digitsUsed + 2
    requires temp.Value() == R * Pow(2, start) && temp.Value() > 0
    modifies temp`digitsUsed, temp.number
    ensures temp.Proper() && temp.Value() == R * Pow(2, shifts) && lhs.Value() <= temp.Value()
  {
    hide Val, Weight, Pow, Canonical;
    shifts := start;
    ValBound(lhs.Digits());
    var below := IsLessThan(temp, lhs);
    while below
      invariant temp.Proper() && temp.Value() == R * Pow(2, shifts) && temp.Value() > 0
      invariant below <==> temp.Value() < lhs.Value()
      decreases lhs.Value() - temp.Value()
    {
      DigitsFit(temp.Digits(), lhs.digitsUsed);
      DoublePower(R, shifts);
      DoublePower(temp.Value(), 0);
      ShiftLeft(temp, temp, 1);
      shifts := shifts + 1;
      below := IsLessThan(temp, lhs);
    }
  }

  /** Halves temp until it is no larger than lhs. */
  method AlignDown(lhs: DataRecord, temp: DataRecord, start: nat, ghost R: nat) returns (shifts: nat)
    requires lhs.Proper() && temp.Proper() && Apart(temp, lhs)
    requires temp.Value() == R * Pow(2, start) && 0 < R <= lhs.Value() <= temp.Value()
    modifies temp`digitsUsed, temp.number
    ensures temp.Proper() && temp.Value() == R * Pow(2, shifts)
    ensures temp.Value() <= lhs.Value() < 2 * temp.Value()
  {
    hide Val, Weight, Canonical;
    shifts := start;
    var above := IsLessThan(lhs, temp);
    while above
      invariant temp.Proper() && temp.Value() == R * Pow(2, shifts) && lhs.Value() < 2 * temp.Value()
      invariant above <==> lhs.Value() < temp.Value()
      decreases temp.Value()
    {
      if shifts == 0 { assert false; }
      DoublePower(R, shifts - 1);
      ShiftRight(temp, temp);
      shifts := shifts - 1;
      above := IsLessThan(lhs, temp);
    }
  }

  /** Shifts rhs left until one more shift would make it larger than lhs. */
  method AlignDivisor(lhs: DataRecord, rhs: DataRecord, temp: DataRecord) returns (shifts: nat)
    requires lhs.Proper() && rhs.Proper() && 0 < rhs.Value() <= lhs.Value()
    requires Apart(temp, lhs) && Apart(temp, rhs)
    requires temp.number.Length >= lhs.digitsUsed + 2
    modifies temp`digitsUsed, temp.number
    ensures temp.Proper() && temp.Value() == rhs.Value() * Pow(2, shifts)
    ensures temp.Value() <= lhs.Value() < 2 * temp.Value()
  {
    hide Val, Weight, Pow, Canonical;
    if lhs.digitsUsed < rhs.digitsUsed { ShorterIsSmaller(lhs.Digits(), rhs.Digits()); }
    shifts := (lhs.digitsUsed - rhs.digitsUsed) * 16;
    ShiftLeft(rhs, temp, shifts);
    MulMonotone(1, Pow(2, shifts), rhs.Value());
    shifts := AlignUp(lhs, temp, shifts, rhs.Value());
    shifts := AlignDown(lhs, temp, shifts, rhs.Value());
  }

  lemma DoublePower(x: int, k: nat)
    ensures Pow(2, 0) == 1 && Pow(2, 1) == 2
    ensures x * Pow(2, k + 1) == 2 * (x * Pow(2, k))
  {
    assert Pow(2, 1) == 2 * Pow(2, 0);
    MulAssociates(x, 2, Pow(2, k));
    MulAssociates(2, x, Pow(2, k));
  }

  /** Appends one quotient bit and subtracts the divisor if it fits. */
  method DivideStep(temp: DataRecord, result: DataRecord, remainder: DataRecord, ghost n: nat)
    requires temp.Proper() && result.Proper() && remainder.Proper()
    requires Apart(temp, result) && Apart(temp, remainder) && Apart(result, remainder)
    requires 1 <= n < result.number.Length && 2 * result.Value() < Weight(n)
    requires remainder.Value() < 2 * temp.Value()
    modifies result`digitsUsed, result.number, remainder`digitsUsed, remainder.number
    ensures result.Proper() && remainder.Proper() && remainder.Value() < temp.Value()
    ensures old(remainder.Value()) < temp.Value() ==>
      result.Value() == 2 * old(result.Value()) && remainder.Value() == old(remainder.Value())
    ensures old(remainder.Value()) >= temp.Value() ==>
      result.Value() == 2 * old(result.Value()) + 1 && remainder.Value() == old(remainder.Value()) - temp.Value()
  {
    DoublePower(result.Value(), 0);
    DigitsFit(result.Digits(), n);
    ShiftLeft(result, result, 1);
    DigitsFit(result.Digits(), n);
    var less := IsLessThan(remainder, temp);
    if !less {
      LongSub(remainder, temp, remainder);
      // The carry loop over result's own digits.
      Increment(result, result);
    }
  }

  /** One quotient bit keeps dividend == quotient * divisor + remainder. */
  lemma QuotientBit(L: int, q: int, bit: int, divisor: int, rem: int)
    requires L == q * (2 * divisor) + rem
    ensures L == (2 * q + bit) * divisor + (rem - bit * divisor)
    ensures q >= 0 && divisor > 0 && rem >= 0 ==> 2 * q <= L
  {
    MulAssociates(q, 2, divisor);
    assert (2 * q + bit) * divisor == 2 * q * divisor + bit * divisor;
    if q >= 0 && divisor > 0 { MulMonotone(1, divisor, 2 * q); }
  }

  /** One round: a quotient bit, then a smaller divisor. */
  method DivideRound(temp: DataRecord, result: DataRecord, remainder: DataRecord, ghost L: nat, ghost n: nat)
    requires temp.Proper() && result.Proper() && remainder.Proper()
    requires Apart(temp, result) && Apart(temp, remainder) && Apart(result, remainder)
    requires 1 <= n < result.number.Length && L < Weight(n) && temp.Value() > 0
    requires L == result.Value() * (2 * temp.Value()) + remainder.Value() && remainder.Value() < 2 * temp.Value()
    modifies temp`digitsUsed, temp.number, result`digitsUsed, result.number, remainder`digitsUsed, remainder.number
    ensures temp.Proper() && result.Proper() && remainder.Proper()
    ensures temp.Value() == old(temp.Value()) / 2
    ensures L == result.Value() * old(temp.Value()) + remainder.Value() && remainder.Value() < old(temp.Value())
  {
    hide Val, Weight, Pow, Canonical;
    ghost var q, T, rem := result.Value(), temp.Value(), remainder.Value();
    QuotientBit(L, q, if rem < T then 0 else 1, T, rem);
    DivideStep(temp, result, remainder, n);
    ShiftRight(temp, temp);
  }

  /** Produces the quotient bits, the most significant first, from an aligned divisor. */
  method DivideBits(temp: DataRecord, result: DataRecord, remainder: DataRecord, count: nat,
                    ghost L: nat, ghost R: nat, ghost n: nat)
    requires temp.Proper() && result.Proper() && remainder.Proper()
    requires Apart(temp, result) && Apart(temp, remainder) && Apart(result, remainder)
    requires 1 <= n < result.number.Length && L < Weight(n) && R > 0
    requires result.Value() == 0 && remainder.Value() == L < 2 * temp.Value()
    requires count > 0 && R * Pow(2, count) == 2 * temp.Value()
    modifies temp`digitsUsed, temp.number, result`digitsUsed, result.number, remainder`digitsUsed, remainder.number
    ensures result.Proper() && remainder.Proper()
    ensures L == result.Value() * R + remainder.Value() && remainder.Value() < R
  {
    hide Val, Weight, Pow, Canonical;
    var shifts := count;
    ghost var step := R * Pow(2, shifts);
    while shifts != 0
      invariant temp.Proper() && result.Proper() && remainder.Proper()
      invariant step == R * Pow(2, shifts) > 0
      invariant L == result.Value() * step + remainder.Value() && remainder.Value() < step
      invariant shifts > 0 ==> step == 2 * temp.Value()
    {
      ghost var T := temp.Value();
      DivideRound(temp, result, remainder, L, n);
      shifts := shifts - 1;
      DoublePower(R, shifts);
      step := T;
      if shifts > 0 { DoublePower(R, shifts - 1); }
    }
    DoublePower(R, 0);
  }

  method LongDiv(lhs: DataRecord, rhs: DataRecord, result: DataRecord, remainder: DataRecord)
    requires lhs.Proper() && rhs.Proper() && rhs.Value() != 0
    requires Apart(result, lhs) && Apart(result, rhs) && Apart(result, remainder)
    requires Apart(remainder, lhs) && Apart(remainder, rhs)
    requires result.number.Length > lhs.digitsUsed && remainder.number.Length >= lhs.digitsUsed
    modifies result`digitsUsed, result.number, remainder`digitsUsed, remainder.number
    ensures result.Proper() && remainder.Proper()
    ensures lhs.Value() == result.Value() * rhs.Value() + remainder.Value()
    ensures remainder.Value() < rhs.Value()
  {
    hide Val, Weight, Pow, Canonical;
    SetZero(result);
    CopyValue(lhs, remainder);
    var less := IsLessThan(lhs, rhs);
    if less {
      return;
    }
    var temp := new DataRecord(lhs.digitsUsed + SLACK);
    var shifts := AlignDivisor(lhs, rhs, temp);
    DoublePower(rhs.Value(), shifts);
    ValBound(lhs.Digits());
    DivideBits(temp, result, remainder, shifts + 1, lhs.Value(), rhs.Value(), lhs.digitsUsed);
  }

  /** A number that had n digits before it was shifted left by t bits in all has no more digits than that calls for. */
  ghost predicate Grown(b: DataRecord, n: nat, t: nat)
    reads b`digitsUsed, b.number
  {
    b.Ok() && 16 * b.digitsUsed <= 16 * n + t + 15 && b.Value() < Pow(2, 16 * n + t)
  }

  lemma NotGrown(b: DataRecord)
    requires b.Ok()
    ensures Grown(b, b.digitsUsed, 0)
  {
    ValBound(b.Digits());
    WeightIsPow2(b.digitsUsed);
  }

  /** A shift adds a digit for every 16 bits, and one more only if the number needs it. */
  lemma GrownStep(v: nat, shift: nat, v': nat, used: nat, used': nat, n: nat, t: nat)
    requires 16 * used <= 16 * n + t + 15 && v < Pow(2, 16 * n + t) && v' == v * Pow(2, shift)
    requires 1 <= used' <= used + shift / 16 + 1 && (used' > used + shift / 16 ==> v' >= Weight(used' - 1))
    ensures 16 * used' <= 16 * n + (t + shift) + 15 && v' < Pow(2, 16 * n + (t + shift))
  {
    hide Weight, Pow;
    var bits := 16 * n + t;
    assert v' < Pow(2, bits + shift) by {
      PowAdd(2, bits, shift);
      ScaledBelow(v, Pow(2, bits), Pow(2, shift));
    }
    if used' > used + shift / 16 && bits + shift <= 16 * (used' - 1) {
      WeightIsPow2(used' - 1);
      PowMonotone(2, bits + shift, 16 * (used' - 1));
    }
  }

  lemma ScaledBelow(v: int, w: int, p: int)
    requires v < w && p > 0
    ensures v * p < w * p
  {
  }

  /** Adds the multiplicand, shifted to the current bit, into the partial product. */
  method AddShifted(b: DataRecord, result: DataRecord, shift: nat, ghost n: nat, ghost t: nat, ghost N: nat)
    requires Grown(b, n, t) && result.Ok() && Apart(b, result)
    requires 16 * n + t + shift < 16 * N && N < b.number.Length && N <= result.number.Length
    requires b.Value() * Pow(2, shift) + result.Value() < Weight(N)
    modifies b`digitsUsed, b.number, result`digitsUsed, result.number
    ensures Grown(b, n, t + shift) && b.Value() == old(b.Value()) * Pow(2, shift)
    ensures result.Ok() && result.Value() == old(result.Value()) + b.Value()
    ensures old(b.Proper() && result.Proper() && (b.Value() != 0 || shift < 16)) ==> b.Proper() && result.Proper()
  {
    hide Val, Pow, Canonical;
    ghost var v, used := b.Value(), b.digitsUsed;
    ShiftLeft(b, b, shift);
    GrownStep(v, shift, b.Value(), used, b.digitsUsed, n, t);
    WeightMonotone(N, result.number.Length);
    assert b.digitsUsed <= N;
    LongAdd(b, result, result);
  }

  /** Bit i of a digit. */
  function BitAt(digit: Digit, i: nat): (bit: nat)
    ensures bit <= 1
  {
    (digit / Pow(2, i)) % 2
  }

  /** The number formed by the low i bits of a digit. */
  function LowBits(digit: Digit, i: nat): nat
  {
    if i == 0 then 0 else LowBits(digit, i - 1) + Pow(2, i - 1) * BitAt(digit, i - 1)
  }

  lemma {:induction false} LowBitsIsRemainder(digit: Digit, i: nat)
    ensures LowBits(digit, i) == digit % Pow(2, i) <= digit
  {
    if i > 0 {
      LowBitsIsRemainder(digit, i - 1);
      var p := Pow(2, i - 1);
      var q, r := digit / p, digit % p;
      LowBitsArithmetic(digit, p, q / 2, q % 2, r);
    }
  }

  lemma LowBitsArithmetic(digit: int, p: int, h: int, bit: int, r: int)
    requires 0 <= digit && p > 0 && 0 <= bit <= 1 && 0 <= r < p && digit == p * (2 * h + bit) + r
    ensures digit % (2 * p) == r + p * bit && digit % (2 * p) <= digit
  {
    MulDistributes(p, 2 * h, bit);
    MulAssociates(p, 2, h);
    MulMonotone(bit, 1, p);
    MulMonotone(0, bit, p);
    assert digit == (2 * p) * h + (r + p * bit);
    DivModUnique(digit, 2 * p, h, r + p * bit);
  }

  lemma DivModUnique(x: int, d: int, q: int, r: int)
    requires d > 0 && 0 <= r < d && x == d * q + r
    ensures x / d == q && x % d == r
  {
    var q', r' := x / d, x % d;
    assert d * q' + r' == d * q + r;
    if q' > q { MulMonotone(q + 1, q', d); MulDistributes(d, q, 1); }
    if q' < q { MulMonotone(q' + 1, q, d); MulDistributes(d, q', 1); }
  }

  /** Adds digit * b, bit by bit; `shift` counts the bits b still has to be shifted by, and t those it has been. */
  method MultiplyDigit(digit: Digit, b: DataRecord, result: DataRecord, shift: nat, ghost P: nat,
                       ghost n: nat, ghost t: nat, ghost N: nat)
    returns (newShift: nat, ghost newT: nat)
    requires Grown(b, n, t) && result.Ok() && Apart(b, result)
    requires 16 * n + t + shift + 16 <= 16 * N && N < b.number.Length && N <= result.number.Length
    requires b.Value() * Pow(2, shift) == P && result.Value() + P * digit < Weight(N)
    modifies b`digitsUsed, b.number, result`digitsUsed, result.number
    ensures Grown(b, n, newT) && newT + newShift == t + shift + 16
    ensures b.Value() * Pow(2, newShift) == P * 65536 && (b.Value() == 0 <==> P == 0)
    ensures result.Ok() && result.Value() == old(result.Value()) + P * digit
    ensures old(b.Proper() && result.Proper() && (b.Value() != 0 || shift == 0)) ==> b.Proper() && result.Proper()
  {
    hide Val, Weight, Pow, Canonical, BitAt, LowBits;
    ghost var R0 := result.Value();
    ghost var clean := b.Proper() && result.Proper() && (b.Value() != 0 || shift == 0);
    newShift, newT := shift, t;
    var bit, i := 1, 0;
    BitEnds(digit);
    MulZero(P, b.Value(), Pow(2, shift));
    while i < 16
      invariant 0 <= i <= 16 && bit == Pow(2, i) % 65536
      invariant Grown(b, n, newT) && result.Ok() && newT + newShift == t + shift + i
      invariant b.Value() * Pow(2, newShift) == P * Pow(2, i)
      invariant b.Value() == 0 <==> P == 0
      invariant clean ==> b.Proper() && result.Proper() && (P == 0 ==> newShift <= i)
      invariant result.Value() == R0 + P * LowBits(digit, i)
    {
      BitStep(P, digit, i);
      if (digit / bit) % 2 == 1 {
        AddShifted(b, result, newShift, n, newT, N);
        newT := newT + newShift;
        newShift := 0;
      }
      DoublePower(b.Value(), newShift);
      DoublePower(P, i);
      newShift := newShift + 1;
      bit := (bit * 2) % 65536;
      i := i + 1;
    }
  }

  lemma BitEnds(digit: Digit)
    ensures Pow(2, 0) == 1 && Pow(2, 16) == 65536
    ensures LowBits(digit, 0) == 0 && LowBits(digit, 16) == digit
  {
    WeightIsPow2(1);
    LowBitsIsRemainder(digit, 16);
  }

  lemma MulZero(P: int, b: int, p: int)
    requires b * p == P && p > 0
    ensures b == 0 <==> P == 0
  {
  }

  /** What bit i contributes to P * digit. */
  lemma BitStep(P: nat, digit: Digit, i: nat)
    requires i < 16
    ensures Pow(2, i) % 65536 == Pow(2, i) > 0 && Pow(2, i + 1) == 2 * Pow(2, i)
    ensures BitAt(digit, i) == (digit / Pow(2, i)) % 2
    ensures P * LowBits(digit, i + 1) == P * LowBits(digit, i) + (P * Pow(2, i)) * BitAt(digit, i)
    ensures P * LowBits(digit, i + 1) <= P * digit
  {
    PowMonotone(2, i, 15);
    assert Pow(2, 15) == 32768 by { PowAdd(2, 7, 8); PowAdd(2, 4, 4); PowAdd(2, 3, 4); }
    MulDistributes(P, LowBits(digit, i), Pow(2, i) * BitAt(digit, i));
    MulAssociates(P, Pow(2, i), BitAt(digit, i));
    LowBitsIsRemainder(digit, i + 1);
    MulMonotone(LowBits(digit, i + 1), digit, P);
  }

  lemma {:induction false} WeightAdd(m: nat, n: nat)
    ensures Weight(m + n) == Weight(m) * Weight(n)
  {
    WeightIsPow2(m);
    WeightIsPow2(n);
    WeightIsPow2(m + n);
    PowAdd(2, 16 * m, 16 * n);
  }

  lemma ProductBound(a: seq<Digit>, b: seq<Digit>)
    ensures 0 <= Val(a) && 0 <= Val(b)
    ensures Val(a) * Val(b) < Weight(|a| + |b|)
  {
    ValBound(a);
    ValBound(b);
    WeightAdd(|a|, |b|);
    MulMonotone(Val(a), Weight(|a|) - 1, Val(b));
    MulMonotone(Val(b), Weight(|b|) - 1, Weight(|a|));
    MulDistributes(Val(b), Weight(|a|), -1);
    MulDistributes(Weight(|a|), Weight(|b|), -1);
  }

  /** What digit j of a contributes to a * b. */
  lemma DigitStep(a: seq<Digit>, j: nat, b: nat)
    requires j < |a|
    ensures b * Val(a[..j + 1]) == b * Val(a[..j]) + (b * Weight(j)) * a[j]
    ensures (b * Weight(j)) * 65536 == b * Weight(j + 1)
    ensures b * Val(a[..j + 1]) <= b * Val(a)
  {
    ValSnoc(a, j);
    MulDistributes(b, Val(a[..j]), Weight(j) * a[j]);
    MulAssociates(b, Weight(j), a[j]);
    MulAssociates(b, Weight(j), 65536);
    assert a == a[..j + 1] + a[j + 1..];
    ValAppend(a[..j + 1], a[j + 1..]);
    ValBound(a[j + 1..]);
    MulMonotone(0, Val(a[j + 1..]), Weight(j + 1));
    MulMonotone(Val(a[..j + 1]), Val(a), b);
  }

  /** Multiplies b, in place, by the digits of aa. */
  method MultiplyDigits(aa: DataRecord, b: DataRecord, result: DataRecord, ghost N: nat)
    requires aa.Ok() && b.Ok() && result.Ok() && result.Value() == 0
    requires Apart(b, result) && Apart(aa, result) && Apart(aa, b)
    requires b.digitsUsed + aa.digitsUsed == N < b.number.Length && N <= result.number.Length
    requires b.Value() * aa.Value() < Weight(N)
    modifies b`digitsUsed, b.number, result`digitsUsed, result.number
    ensures result.Ok() && result.Value() == old(b.Value()) * old(aa.Value())
    ensures old(b.Proper() && result.Proper() && (b.Value() != 0 || aa.digitsUsed == 1)) ==> result.Proper()
  {
    hide Val, Weight, Pow, Canonical, Grown;
    ghost var A, B, n := aa.Digits(), b.Value(), b.digitsUsed;
    ghost var clean := b.Proper() && result.Proper() && (B != 0 || aa.digitsUsed == 1);
    var shift, anum := 0, 0;
    ghost var t := 0;
    NotGrown(b);
    BitEnds(0);
    ProductEnds(A, B);
    while anum != aa.digitsUsed
      invariant 0 <= anum <= |A| && aa.Digits() == A && t + shift == 16 * anum
      invariant b.Ok() && Grown(b, n, t) && result.Ok()
      invariant b.Value() * Pow(2, shift) == B * Weight(anum)
      invariant clean ==> b.Proper() && result.Proper() && (b.Value() != 0 || (B == 0 && (anum > 0 || shift == 0)))
      invariant result.Value() == B * Val(A[..anum])
    {
      DigitStep(A, anum, B);
      shift, t := MultiplyDigit(aa.number[anum], b, result, shift, B * Weight(anum), n, t, N);
      Grows(b, n, t);
      MulZero(B * Weight(anum), B, Weight(anum));
      anum := anum + 1;
    }
    assert A[..anum] == A;
  }

  lemma Grows(b: DataRecord, n: nat, t: nat)
    requires Grown(b, n, t)
    ensures b.Ok()
  {
  }

  lemma ProductEnds(a: seq<Digit>, b: nat)
    ensures b * Weight(0) == b && b * Val(a[..0]) == 0
  {
    assert a[..0] == [];
  }

  method LongMul(lhs: DataRecord, rhs: DataRecord, result: DataRecord)
    requires lhs.Ok() && rhs.Ok() && Apart(result, lhs) && Apart(result, rhs)
    requires result.number.Length >= lhs.digitsUsed + rhs.digitsUsed
    modifies result`digitsUsed, result.number
    ensures result.Ok() && result.Value() == lhs.Value() * rhs.Value()
    ensures lhs.Proper() && rhs.Proper() ==> result.Proper()
  {
    hide Val, Weight, Pow, Canonical;
    SetZero(result);
    var aa, bb := lhs, rhs;
    if !(lhs.digitsUsed < rhs.digitsUsed) {
      aa, bb := rhs, lhs;
    }
    ProductBound(bb.Digits(), aa.Digits());
    if bb.Proper() && bb.Value() == 0 { DigitsFit(bb.Digits(), 1); }
    var b := new DataRecord.Copy(bb, aa.digitsUsed + SLACK);
    MultiplyDigits(aa, b, result, aa.digitsUsed + bb.digitsUsed);
  }
}
