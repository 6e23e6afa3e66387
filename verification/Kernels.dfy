/** The in-place digit loops of the big integer kernel. */
module Kernels {
  import opened Columns
  import opened Digits
  import opened Records

  /** Digits with their final carry on top stand for the columns they came from. */
  lemma CarryOnTop(columns: seq<int>, c0: int)
    ensures var n := |columns|; var carry := CarryAt(columns, c0, n);
      Val(Propagate(columns, c0, n) + [carry]) == Val(columns) + c0
  {
    var n := |columns|;
    var carry := CarryAt(columns, c0, n);
    PropagateValue(columns, c0, n);
    assert columns[..n] == columns;
    ValAppend(Propagate(columns, c0, n), [carry]);
    assert Val([carry]) == carry + 65536 * Val([carry][1..]);
  }

  /** The end of every adding loop: a final carry becomes one more digit. */
  method StoreFinalCarry(result: DataRecord, used: nat, carry: int, ghost columns: seq<int>, ghost c0: int)
    requires 1 <= used == |columns| <= result.number.Length
    requires result.number[..used] == Propagate(columns, c0, used)
    requires carry == CarryAt(columns, c0, used) && 0 <= carry < 65536
    requires 0 <= Val(columns) + c0 < Weight(result.number.Length)
    modifies result`digitsUsed, result.number
    ensures result.Ok() && result.Value() == Val(columns) + c0
    ensures result.digitsUsed == if carry != 0 then used + 1 else used
    ensures used == 1 || Val(columns) + c0 >= Weight(used - 1) ==> result.Proper()
  {
    ghost var digits := result.number[..used];
    CarryOnTop(columns, c0);
    if carry != 0 {
      if used == result.number.Length {
        PropagateFits(columns, c0);
        assert false;
      }
      result.digitsUsed := used + 1;
      result.number[used] := carry;
      assert result.Digits() == digits + [carry];
    } else {
      result.digitsUsed := used;
      ValAppend(digits, [0]);
      TopDigit(digits);
    }
  }

  /** A canonical number is at least the weight of its top digit. */
  lemma CanonicalBound(s: seq<Digit>)
    requires Canonical(s)
    ensures |s| == 1 || Val(s) >= Weight(|s| - 1)
  {
    TopDigit(s);
  }

  /** Adds the first `end` digits of two numbers. */
  method AddDigits(minNum: array<Digit>, maxNum: array<Digit>, r: array<Digit>, end: nat, ghost columns: seq<int>)
    returns (carry: int)
    requires end <= minNum.Length && end <= maxNum.Length && end <= r.Length && end <= |columns|
    requires forall k :: 0 <= k < end ==> columns[k] == minNum[k] as int + maxNum[k] as int
    modifies r
    ensures 0 <= carry <= 1 && carry == CarryAt(columns, 0, end)
    ensures r[..end] == Propagate(columns, 0, end)
    ensures forall k :: end <= k < r.Length ==> r[k] == old(r[k])
  {
    carry := 0;
    var i := 0;
    while i < end
      invariant 0 <= i <= end
      invariant 0 <= carry <= 1 && carry == CarryAt(columns, 0, i)
      invariant forall k :: i <= k < end ==> columns[k] == minNum[k] as int + maxNum[k] as int
      invariant r[..i] == Propagate(columns, 0, i)
      invariant forall k :: end <= k < r.Length ==> r[k] == old(r[k])
    {
      var temp: int := minNum[i] + maxNum[i] + carry;
      r[i] := temp % 65536;
      carry := temp / 65536;
      i := i + 1;
    }
  }

  /** Adds a carry into digits [start, end). */
  method AddCarry(number: array<Digit>, r: array<Digit>, start: nat, end: nat, carryIn: int,
                  ghost columns: seq<int>, ghost c0: int)
    returns (carry: int)
    requires start <= end <= number.Length && end <= r.Length && end <= |columns|
    requires forall k :: start <= k < end ==> columns[k] == number[k]
    requires 0 <= carryIn < 65536 && carryIn == CarryAt(columns, c0, start)
    requires r[..start] == Propagate(columns, c0, start)
    modifies r
    ensures 0 <= carry < 65536 && carry == CarryAt(columns, c0, end)
    ensures r[..end] == Propagate(columns, c0, end)
  {
    carry := carryIn;
    var i := start;
    while i < end
      invariant start <= i <= end
      invariant 0 <= carry < 65536 && carry == CarryAt(columns, c0, i)
      invariant forall k :: i <= k < end ==> columns[k] == number[k]
      invariant r[..i] == Propagate(columns, c0, i)
    {
      var temp: int := number[i] + carry;
      r[i] := temp % 65536;
      carry := temp / 65536;
      i := i + 1;
    }
  }

  /** Addition once the operands are ordered by their number of digits. */
  method AddOrdered(minNum: array<Digit>, minEnd: nat, maxNum: array<Digit>, maxEnd: nat, result: DataRecord)
    requires 1 <= minEnd <= maxEnd <= result.number.Length && minEnd <= minNum.Length && maxEnd <= maxNum.Length
    requires Val(minNum[..minEnd]) + Val(maxNum[..maxEnd]) < Weight(result.number.Length)
    modifies result`digitsUsed, result.number
    ensures result.Ok()
    ensures result.Value() == old(Val(minNum[..minEnd])) + old(Val(maxNum[..maxEnd]))
    ensures old(Canonical(maxNum[..maxEnd])) ==> result.Proper()
  {
    ghost var A, B := minNum[..minEnd], maxNum[..maxEnd];
    ghost var columns := CombineColumns(B, 1, A);
    ValBound(A);
    ValBound(B);
    if Canonical(B) { CanonicalBound(B); }

    var carry := AddDigits(minNum, maxNum, result.number, minEnd, columns);
    assert forall k :: minEnd <= k < maxEnd ==> maxNum[k] == B[k];
    carry := AddCarry(maxNum, result.number, minEnd, maxEnd, carry, columns, 0);
    StoreFinalCarry(result, maxEnd, carry, columns, 0);
  }

  method LongAdd(lhs: DataRecord, rhs: DataRecord, result: DataRecord)
    requires lhs.Ok() && rhs.Ok()
    requires lhs.digitsUsed <= result.number.Length && rhs.digitsUsed <= result.number.Length
    requires lhs.Value() + rhs.Value() < Weight(result.number.Length)
    modifies result`digitsUsed, result.number
    ensures result.Ok()
    ensures result.Value() == old(lhs.Value()) + old(rhs.Value())
    ensures old(lhs.Proper() && rhs.Proper()) ==> result.Proper()
  {
    if lhs.digitsUsed < rhs.digitsUsed {
      AddOrdered(lhs.number, lhs.digitsUsed, rhs.number, rhs.digitsUsed, result);
    } else {
      AddOrdered(rhs.number, rhs.digitsUsed, lhs.number, lhs.digitsUsed, result);
    }
  }

  method ShortAdd(data: DataRecord, value: Digit, result: DataRecord)
    requires data.Ok() && data.digitsUsed < result.number.Length
    modifies result`digitsUsed, result.number
    ensures result.Ok() && result.Value() == old(data.Value()) + value
    ensures old(data.Proper()) ==> result.Proper()
  {
    ghost var columns := data.Digits();
    var n := data.digitsUsed;
    ValBound(columns);
    WeightMonotone(n + 1, result.number.Length);
    if Canonical(columns) { CanonicalBound(columns); }
    var carry := AddCarry(data.number, result.number, 0, n, value, columns, value);
    assert columns[..n] == columns;
    StoreFinalCarry(result, n, carry, columns, value);
  }

  /** Multiplying by zero keeps every digit, so it leaves a longer number in a form that is not canonical. */
  method ShortMul(data: DataRecord, value: Digit, result: DataRecord)
    requires data.Ok() && data.digitsUsed < result.number.Length
    modifies result`digitsUsed, result.number
    ensures result.Ok() && result.Value() == old(data.Value()) * value
    ensures old(data.Proper()) ==> (result.Proper() <==> value != 0 || old(data.digitsUsed) == 1)
    ensures value == 0 ==> result.digitsUsed == old(data.digitsUsed)
  {
    ghost var D := data.Digits();
    ghost var columns := ScaleColumns(D, value);
    var number, r, n := data.number, result.number, data.digitsUsed;
    var carry, i := 0, 0;
    while i < n
      invariant 0 <= i <= n
      invariant 0 <= carry < 65536 && carry == CarryAt(columns, 0, i) && (value == 0 ==> carry == 0)
      invariant number[i..n] == D[i..]
      invariant r[..i] == Propagate(columns, 0, i)
    {
      assert number[i] == number[i..n][0];
      DigitProductBound(number[i], value);
      var temp: int := number[i] * value + carry;
      r[i] := temp % 65536;
      carry := temp / 65536;
      i := i + 1;
    }
    ScaledBound(D, value);
    WeightMonotone(n + 1, r.Length);
    StoreFinalCarry(result, n, carry, columns, 0);
    if value == 0 && result.Proper() { CanonicalZero(result.Digits()); }
  }

  lemma CanonicalZero(s: seq<Digit>)
    requires Canonical(s) && Val(s) == 0
    ensures |s| == 1
  {
    CanonicalBound(s);
  }

  lemma DigitProductBound(a: int, b: int)
    requires 0 <= a < 65536 && 0 <= b < 65536
    ensures 0 <= a * b <= 65535 * 65535
  {
    MulMonotone(b, 65535, a);
    MulMonotone(a, 65535, 65535);
    MulMonotone(0, b, a);
  }

  lemma ScaledBound(s: seq<Digit>, value: Digit)
    requires |s| >= 1
    ensures 0 <= Val(s) * value < Weight(|s| + 1)
    ensures Canonical(s) && value != 0 ==> |s| == 1 || Val(s) * value >= Weight(|s| - 1)
  {
    ValBound(s);
    MulMonotone(value, 65536, Val(s));
    MulMonotone(0, value, Val(s));
    if Canonical(s) && value != 0 {
      CanonicalBound(s);
      MulMonotone(1, value, Val(s));
    }
  }

  /** The low word and bit 31 of a 32-bit difference are its digit and its borrow. */
  lemma Difference32(x: int)
    requires -65536 <= x < 65536
    ensures (x % 0x1_0000_0000) % 65536 == x % 65536
    ensures 0 <= (x % 0x1_0000_0000) / 0x8000_0000 <= 1
    ensures -((x % 0x1_0000_0000) / 0x8000_0000) == x / 65536
  {
    assert x % 0x1_0000_0000 == if x < 0 then x + 0x1_0000_0000 else x;
  }

  /** Subtracts a borrow out of digits [start, end); a borrow is bit 31 of the last 32-bit difference. */
  method SubBorrow(number: array<Digit>, r: array<Digit>, start: nat, end: nat, borrowIn: int,
                   ghost columns: seq<int>, ghost c0: int)
    requires start <= end <= number.Length && end <= r.Length && end <= |columns|
    requires forall k :: start <= k < end ==> columns[k] == number[k]
    requires 0 <= borrowIn <= 1 && -borrowIn == CarryAt(columns, c0, start)
    requires r[..start] == Propagate(columns, c0, start)
    modifies r
    ensures r[..end] == Propagate(columns, c0, end)
  {
    var borrow, i := borrowIn, start;
    while i < end
      invariant start <= i <= end
      invariant 0 <= borrow <= 1 && -borrow == CarryAt(columns, c0, i)
      invariant forall k :: i <= k < end ==> columns[k] == number[k]
      invariant r[..i] == Propagate(columns, c0, i)
    {
      Difference32(number[i] as int - borrow);
      var temp: int := (number[i] as int - borrow) % 0x1_0000_0000;
      r[i] := temp % 65536;
      borrow := temp / 0x8000_0000;
      i := i + 1;
    }
  }

  /** Subtracts the digits of rhs from as many digits of lhs. */
  method SubDigits(number1: array<Digit>, number2: array<Digit>, r: array<Digit>, end: nat, ghost columns: seq<int>)
    returns (borrow: int)
    requires end <= number1.Length && end <= number2.Length && end <= r.Length && end <= |columns|
    requires forall k :: 0 <= k < end ==> columns[k] == number1[k] as int - number2[k] as int
    modifies r
    ensures 0 <= borrow <= 1 && -borrow == CarryAt(columns, 0, end)
    ensures r[..end] == Propagate(columns, 0, end)
    ensures forall k :: end <= k < r.Length ==> r[k] == old(r[k])
  {
    borrow := 0;
    var i := 0;
    while i < end
      invariant 0 <= i <= end
      invariant 0 <= borrow <= 1 && -borrow == CarryAt(columns, 0, i)
      invariant forall k :: i <= k < end ==> columns[k] == number1[k] as int - number2[k] as int
      invariant r[..i] == Propagate(columns, 0, i)
      invariant forall k :: end <= k < r.Length ==> r[k] == old(r[k])
    {
      Difference32(number1[i] as int - number2[i] as int - borrow);
      var temp: int := (number1[i] as int - number2[i] as int - borrow) % 0x1_0000_0000;
      r[i] := temp % 65536;
      borrow := temp / 0x8000_0000;
      i := i + 1;
    }
  }

  method LongSub(lhs: DataRecord, rhs: DataRecord, result: DataRecord)
    requires lhs.Ok() && rhs.Proper() && lhs.digitsUsed <= result.number.Length
    requires lhs.Value() >= rhs.Value()
    modifies result`digitsUsed, result.number
    ensures result.Proper() && result.Value() == old(lhs.Value()) - old(rhs.Value())
    ensures result.digitsUsed <= old(lhs.digitsUsed)
  {
    ghost var L, R := lhs.Digits(), rhs.Digits();
    var number1, number2, r := lhs.number, rhs.number, result.number;
    var n, end := lhs.digitsUsed, rhs.digitsUsed;
    if |L| < |R| { ShorterIsSmaller(L, R); }
    ghost var columns := CombineColumns(L, -1, R);
    ValBound(L);
    ValBound(R);
    var borrow := SubDigits(number1, number2, r, end, columns);
    assert forall k :: end <= k < n ==> number1[k] == L[k];
    SubBorrow(number1, r, end, n, borrow, columns, 0);
    PropagateFits(columns, 0);
    TrimLeadingZeros(result, n);
  }

  /** Sets digitsUsed to the number of digits below `used` that matter. */
  method TrimLeadingZeros(result: DataRecord, used: nat)
    requires 1 <= used <= result.number.Length
    modifies result`digitsUsed
    ensures result.Proper() && result.Value() == Val(result.number[..used]) && result.digitsUsed <= used
  {
    result.digitsUsed := used;
    while result.number[result.digitsUsed - 1] == 0 && result.digitsUsed > 1
      invariant 1 <= result.digitsUsed <= used
      invariant result.Value() == Val(result.number[..used])
    {
      DropTop(result.Digits());
      assert result.Digits()[..result.digitsUsed - 1] == result.number[..result.digitsUsed - 1];
      result.digitsUsed := result.digitsUsed - 1;
    }
  }

  /** Drops the top digit of `used` if it is zero, and only that one. */
  method DropOneZero(result: DataRecord, used: nat)
    requires 1 <= used <= result.number.Length
    modifies result`digitsUsed
    ensures result.Ok() && result.Value() == Val(result.number[..used])
    ensures used - 1 <= result.digitsUsed <= used
    ensures result.digitsUsed == used > 1 ==> result.Value() >= Weight(used - 1)
    ensures used <= 2 || Val(result.number[..used]) >= Weight(used - 2) ==> result.Proper()
  {
    ghost var digits := result.number[..used];
    if result.number[used - 1] == 0 {
      DropTop(digits);
      assert digits[..used - 1] == result.number[..used - 1];
      if used == 1 {
        result.digitsUsed := 1;
      } else {
        result.digitsUsed := used - 1;
        TopDigit(digits[..used - 1]);
      }
    } else {
      result.digitsUsed := used;
      TopDigit(digits);
    }
  }

  method ShortSub(data: DataRecord, value: Digit, result: DataRecord)
    requires data.Ok() && data.digitsUsed <= result.number.Length
    requires data.Value() >= value
    modifies result`digitsUsed, result.number
    ensures result.Ok() && result.Value() == old(data.Value()) - value
    ensures old(data.Proper()) ==> result.Proper()
  {
    ghost var columns := data.Digits();
    var number, r, n := data.number, result.number, data.digitsUsed;
    Difference32(number[0] as int - value as int);
    var temp: int := (number[0] as int - value as int) % 0x1_0000_0000;
    r[0] := temp % 65536;
    assert forall k :: 1 <= k < n ==> number[k] == columns[k];
    assert r[..1] == Propagate(columns, -(value as int), 1);
    SubBorrow(number, r, 1, n, temp / 0x8000_0000, columns, -(value as int));
    ValBound(columns);
    PropagateFits(columns, -(value as int));
    if n > 2 && Canonical(columns) { SubtractedBound(columns, value); }
    DropOneZero(result, n);
  }

  lemma SubtractedBound(s: seq<Digit>, value: Digit)
    requires Canonical(s) && |s| > 2
    ensures Val(s) - value >= Weight(|s| - 2)
  {
    CanonicalBound(s);
    assert Weight(|s| - 1) == 65536 * Weight(|s| - 2);
  }

  /** One step of schoolbook division: bringing down a digit. */
  lemma DivisionStep(value: int, quotient: int, remainder: int, digit: int, higher: int)
    requires value > 0 && 0 <= remainder < value && 0 <= digit < 65536
    requires higher == value * quotient + remainder
    ensures var temp := digit + remainder * 65536;
      && 0 <= temp / value < 65536 && 0 <= temp % value < value
      && digit + 65536 * higher == value * (temp / value + 65536 * quotient) + temp % value
  {
    var temp := digit + remainder * 65536;
    var q, m := temp / value, temp % value;
    assert temp == value * q + m;
    if q >= 65536 { MulMonotone(65536, q, value); }
    if q < 0 { MulMonotone(q, -1, value); }
    MulDistributes(value, q, 65536 * quotient);
  }

  /** Divides n digits from the top down. */
  method DivideDigits(number: array<Digit>, r: array<Digit>, n: nat, value: Digit, ghost S: seq<Digit>)
    returns (rem: Digit)
    requires n == |S| <= number.Length && n <= r.Length && value != 0 && number[..n] == S
    modifies r
    ensures rem < value && Val(S) == value * Val(r[..n]) + rem
  {
    var remainder: int := 0;
    var i := n;
    while i > 0
      invariant 0 <= i <= n && 0 <= remainder < value
      invariant number[..i] == S[..i]
      invariant Val(S[i..]) == value * Val(r[i..n]) + remainder
    {
      i := i - 1;
      ghost var higher := r[i + 1..n];
      assert number[i] == S[i];
      DivisionStep(value, Val(higher), remainder, number[i], Val(S[i + 1..]));
      var temp: int := number[i] as int + remainder * 65536;
      r[i] := temp / value;
      remainder := temp % value;
      assert r[i..n] == [r[i]] + higher;
    }
    rem := remainder;
    assert S[0..] == S && r[0..n] == r[..n];
  }

  method ShortDiv(data: DataRecord, value: Digit, result: DataRecord) returns (rem: Digit)
    requires data.Ok() && data.digitsUsed <= result.number.Length && value != 0
    modifies result`digitsUsed, result.number
    ensures result.Ok() && old(data.Value()) == value * result.Value() + rem && rem < value
    ensures old(data.Proper()) ==> result.Proper()
  {
    hide Val;
    ghost var S := data.Digits();
    var n := data.digitsUsed;
    var losesDigit := data.number[n - 1] < value;
    rem := DivideDigits(data.number, result.number, n, value, S);
    ghost var Q := result.number[..n];
    QuotientSize(S, value, Q, rem);
    result.digitsUsed := if losesDigit && n != 1 then n - 1 else n;
    if losesDigit && n != 1 {
      DropTop(Q);
      assert Q[..n - 1] == result.Digits();
    }
  }

  /** The quotient has one digit less exactly when the top digit is smaller than the divisor. */
  lemma QuotientSize(s: seq<Digit>, value: Digit, q: seq<Digit>, rem: Digit)
    requires |s| == |q| >= 1 && value != 0 && rem < value && Val(s) == value * Val(q) + rem
    ensures s[|s| - 1] < value ==> q[|q| - 1] == 0
    ensures Canonical(s) && s[|s| - 1] >= value ==> Canonical(q)
    ensures Canonical(s) && s[|s| - 1] < value && |q| > 1 ==> Canonical(q[..|q| - 1])
  {
    hide Val, Weight;
    var n := |s| - 1;
    var top, low := s[n], Val(s[..n]);
    assert Val(s) == low + Weight(n) * top by { ValSnoc(s, n); assert s[..n + 1] == s; }
    ValBound(s[..n]);
    ValBound(q);
    TopDigit(q);
    if top < value {
      QuotientBelow(value, Val(q), rem, Weight(n), low, top);
      if Canonical(s) && n > 0 {
        DropTop(q);
        TopDigit(q[..n]);
        WeightStep(n);
        QuotientAbove(value, Val(q), rem, Weight(n - 1), low, top);
      }
    } else {
      QuotientFull(value, Val(q), rem, Weight(n), low, top);
    }
  }

  lemma WeightStep(n: nat)
    requires n > 0
    ensures Weight(n) == 65536 * Weight(n - 1)
  {
  }

  lemma QuotientFull(value: int, q: int, rem: int, w: int, low: int, top: int)
    requires 0 <= low < w && 0 < value <= top && rem < value && value * q + rem == low + w * top
    ensures q >= w
  {
    MulMonotone(value, top, w);
    if q < w { MulMonotone(q + 1, w, value); MulDistributes(value, q, 1); }
  }

  lemma QuotientBelow(value: int, q: int, rem: int, w: int, low: int, top: int)
    requires 0 <= low < w && 0 <= top < value && 0 <= rem && value * q + rem == low + w * top
    ensures q < w
  {
    MulMonotone(top + 1, value, w);
    MulDistributes(w, top, 1);
    if q >= w { MulMonotone(w, q, value); }
  }

  lemma QuotientAbove(value: int, q: int, rem: int, v: int, low: int, top: int)
    requires 0 <= low && 1 <= top && 0 <= rem < value < 65536 && v > 0
    requires value * q + rem == low + (65536 * v) * top
    ensures q >= v
  {
    MulMonotone(1, top, 65536 * v);
    if q < v {
      MulMonotone(q + 1, v, value);
      MulDistributes(value, q, 1);
      MulMonotone(value, 65536, v);
    }
  }

  /** Copies digits [start, end). */
  method CopyDigits(s: array<Digit>, d: array<Digit>, start: nat, end: nat)
    requires start <= end <= s.Length && end <= d.Length
    modifies d
    ensures d[..start] == old(d[..start]) && d[start..end] == old(s[start..end])
    ensures s[..start] == old(s[..start]) && s[start..end] == old(s[start..end])
  {
    var i := start;
    while i < end
      invariant start <= i <= end
      invariant d[..start] == old(d[..start]) && d[start..i] == old(s[start..i])
      invariant s[..start] == old(s[..start]) && s[start..end] == old(s[start..end])
    {
      d[i] := s[i];
      assert old(s[start..i + 1]) == old(s[start..i]) + [old(s[i])];
      i := i + 1;
    }
  }

  /** Without a carry the remaining digits stay as they are. */
  lemma {:induction false} NoCarryCopies(columns: seq<int>, c0: int, i: nat, n: nat)
    requires i <= n <= |columns| && CarryAt(columns, c0, i) == 0
    requires forall k :: i <= k < n ==> 0 <= columns[k] < 65536
    ensures CarryAt(columns, c0, n) == 0
    ensures Propagate(columns, c0, n) == Propagate(columns, c0, i) + columns[i..n]
  {
    if i < n {
      NoCarryCopies(columns, c0, i, n - 1);
      assert columns[i..n] == columns[i..n - 1] + [columns[n - 1]];
    }
  }

  /** Copies the digits above the last carry. */
  method CopyRest(s: array<Digit>, d: array<Digit>, start: nat, n: nat, ghost columns: seq<int>, ghost c0: int)
    requires start <= n == |columns| <= s.Length && n <= d.Length
    requires d[..start] == Propagate(columns, c0, start) && CarryAt(columns, c0, start) == 0
    requires forall k :: start <= k < n ==> s[k] == columns[k]
    modifies d
    ensures d[..n] == Propagate(columns, c0, n) && CarryAt(columns, c0, n) == 0
    ensures d[..start] == old(d[..start]) && d[start..n] == columns[start..]
  {
    assert s[start..n] == columns[start..];
    assert forall k :: start <= k < n ==> 0 <= columns[k] < 65536 by {
      forall k | start <= k < n ensures 0 <= columns[k] < 65536 { assert s[k] == columns[k]; }
    }
    NoCarryCopies(columns, c0, start, n);
    CopyDigits(s, d, start, n);
    assert d[..n] == d[..start] + d[start..n];
  }

  /** Adds one until a digit takes it without a carry; `next` is one past that digit. */
  method IncrementRun(s: array<Digit>, d: array<Digit>, n: nat, ghost columns: seq<int>)
    returns (next: nat, carry: int)
    requires 1 <= n == |columns| <= s.Length && n <= d.Length && s[..n] == columns
    modifies d
    ensures next <= n && d[..next] == Propagate(columns, 1, next)
    ensures carry == CarryAt(columns, 1, next) && (carry == 0 || (carry == 1 && next == n))
    ensures forall k :: next <= k < n ==> s[k] == columns[k]
  {
    next, carry := 0, 1;
    while carry == 1 && next < n
      invariant next <= n && carry == CarryAt(columns, 1, next) && 0 <= carry <= 1
      invariant forall k :: next <= k < n ==> s[k] == columns[k]
      invariant d[..next] == Propagate(columns, 1, next)
    {
      d[next] := (s[next] as int + 1) % 65536;
      if d[next] != 0 { carry := 0; }
      next := next + 1;
    }
  }

  method Increment(source: DataRecord, dest: DataRecord)
    requires source.Ok() && source.digitsUsed < dest.number.Length
    modifies dest`digitsUsed, dest.number
    ensures dest.Ok() && dest.Value() == old(source.Value()) + 1
    ensures old(source.Proper()) ==> dest.Proper()
  {
    ghost var columns := source.Digits();
    var n := source.digitsUsed;
    ValBound(columns);
    WeightMonotone(n + 1, dest.number.Length);
    if Canonical(columns) { CanonicalBound(columns); }
    var next, carry := IncrementRun(source.number, dest.number, n, columns);
    if carry == 0 {
      CopyRest(source.number, dest.number, next, n, columns, 1);
    }
    StoreFinalCarry(dest, n, carry, columns, 1);
  }

  /** Subtracts one until a digit takes it without a borrow; i is that digit. */
  method DecrementRun(s: array<Digit>, d: array<Digit>, n: nat, ghost columns: seq<int>) returns (i: nat)
    requires 1 <= n == |columns| <= s.Length && n <= d.Length && s[..n] == columns
    requires CarryAt(columns, -1, n) == 0
    modifies d
    ensures i < n && d[..i + 1] == Propagate(columns, -1, i + 1) && CarryAt(columns, -1, i + 1) == 0
    ensures i > 0 ==> d[i - 1] == 0xFFFF
    ensures forall k :: i < k < n ==> s[k] == columns[k]
  {
    i := 0;
    while true
      invariant i < n && CarryAt(columns, -1, i) == -1
      invariant forall k :: i <= k < n ==> s[k] == columns[k]
      invariant d[..i] == Propagate(columns, -1, i)
      invariant i > 0 ==> d[i - 1] == 0xFFFF
      decreases n - i
    {
      d[i] := (s[i] as int - 1) % 65536;
      if d[i] != 0xFFFF {
        break;
      }
      i := i + 1;
    }
  }

  /** The end of a decrement that stopped at digit i. */
  method StoreDecremented(dest: DataRecord, n: nat, i: nat)
    requires i < n <= dest.number.Length
    requires i > 0 ==> dest.number[i - 1] == 0xFFFF
    modifies dest`digitsUsed
    ensures dest.Ok() && dest.Value() == Val(dest.number[..n])
    ensures i + 1 < n ==> dest.digitsUsed == n
    ensures i + 1 == n || dest.number[n - 1] != 0 ==> dest.Proper()
  {
    ghost var digits := dest.number[..n];
    if dest.number[i] == 0 && i + 1 == n {
      DropTop(digits);
      assert digits[..n - 1] == dest.number[..n - 1];
      dest.digitsUsed := if n == 1 then 1 else n - 1;
    } else {
      dest.digitsUsed := n;
    }
  }

  method Decrement(source: DataRecord, dest: DataRecord)
    requires source.Ok() && source.digitsUsed <= dest.number.Length && source.Value() != 0
    modifies dest`digitsUsed, dest.number
    ensures dest.Ok() && dest.Value() == old(source.Value()) - 1
    ensures old(source.Proper()) ==> dest.Proper()
  {
    ghost var columns := source.Digits();
    var d, n := dest.number, source.digitsUsed;
    ValBound(columns);
    PropagateFits(columns, -1);
    var i := DecrementRun(source.number, d, n, columns);
    ghost var run := d[..i + 1];
    CopyRest(source.number, d, i + 1, n, columns, -1);
    assert i + 1 < n ==> d[n - 1] == columns[n - 1];
    assert i > 0 ==> d[i - 1] == run[i - 1];
    StoreDecremented(dest, n, i);
  }
}
