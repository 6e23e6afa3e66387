/** Carry propagation: turning columns of arbitrary integers into digits, least significant first. */
module Columns {
  import opened Digits

  /** The carry into column i when c0 is carried into column 0; a borrow is a negative carry. */
  function CarryAt(columns: seq<int>, c0: int, i: nat): int
    requires i <= |columns|
  {
    if i == 0 then c0 else (columns[i - 1] + CarryAt(columns, c0, i - 1)) / 65536
  }

  /** The digits left behind in the first i columns. */
  function Propagate(columns: seq<int>, c0: int, i: nat): (digits: seq<Digit>)
    requires i <= |columns|
    ensures |digits| == i
  {
    if i == 0 then []
    else Propagate(columns, c0, i - 1) + [(columns[i - 1] + CarryAt(columns, c0, i - 1)) % 65536]
  }

  /** Propagation keeps the number: digits and carry stand for the columns and the carry in. */
  lemma {:induction false} PropagateValue(columns: seq<int>, c0: int, i: nat)
    requires i <= |columns|
    ensures Val(Propagate(columns, c0, i)) + Weight(i) * CarryAt(columns, c0, i) == Val(columns[..i]) + c0
  {
    if i > 0 {
      var j := i - 1;
      var digits, carry := Propagate(columns, c0, i), CarryAt(columns, c0, i);
      PropagateValue(columns, c0, j);
      ValAppend(Propagate(columns, c0, j), [digits[j]]);
      assert Val([digits[j]]) == digits[j] + 65536 * Val([digits[j]][1..]);
      ValSnoc(columns, j);
      ColumnStep(Weight(j), digits[j], carry, columns[j], CarryAt(columns, c0, j));
    }
  }

  lemma ColumnStep(w: int, digit: int, carryOut: int, column: int, carryIn: int)
    requires digit + 65536 * carryOut == column + carryIn
    ensures w * digit + (65536 * w) * carryOut == w * column + w * carryIn
  {
    assert w * digit + w * (65536 * carryOut) == w * (digit + 65536 * carryOut);
    assert w * (column + carryIn) == w * column + w * carryIn;
  }

  /** A number that fits leaves no carry. */
  lemma PropagateFits(columns: seq<int>, c0: int)
    requires 0 <= Val(columns) + c0 < Weight(|columns|)
    ensures Val(Propagate(columns, c0, |columns|)) == Val(columns) + c0
    ensures CarryAt(columns, c0, |columns|) == 0
  {
    var n := |columns|;
    PropagateValue(columns, c0, n);
    assert columns[..n] == columns;
    ValBound(Propagate(columns, c0, n));
    NoCarry(Weight(n), Val(Propagate(columns, c0, n)), CarryAt(columns, c0, n));
  }

  lemma NoCarry(w: int, low: int, carry: int)
    requires 0 <= low < w
    ensures 0 <= low + w * carry < w ==> carry == 0
  {
    if carry >= 1 { assert w * carry >= w * 1; }
    if carry <= -1 { assert w * carry <= w * -1; }
  }

  /** The digit of a at position k, zero above its top. */
  function At(a: seq<int>, k: nat): int
  {
    if k < |a| then a[k] else 0
  }

  /** The columns of a + sign * b, for b no longer than a. */
  lemma {:induction false} CombineColumns(a: seq<int>, sign: int, b: seq<int>) returns (columns: seq<int>)
    requires |b| <= |a|
    ensures |columns| == |a| && forall k :: 0 <= k < |a| ==> columns[k] == a[k] + sign * At(b, k)
    ensures Val(columns) == Val(a) + sign * Val(b)
  {
    if |a| == 0 {
      columns := [];
    } else if |b| == 0 {
      columns := a;
    } else {
      var rest := CombineColumns(a[1..], sign, b[1..]);
      columns := [a[0] + sign * b[0]] + rest;
      assert sign * (b[0] + 65536 * Val(b[1..])) == sign * b[0] + 65536 * (sign * Val(b[1..]));
    }
  }

  /** The columns of a * m. */
  lemma {:induction false} ScaleColumns(a: seq<int>, m: int) returns (columns: seq<int>)
    ensures |columns| == |a| && forall k :: 0 <= k < |a| ==> columns[k] == a[k] * m
    ensures Val(columns) == Val(a) * m
  {
    if |a| == 0 {
      columns := [];
    } else {
      var rest := ScaleColumns(a[1..], m);
      columns := [a[0] * m] + rest;
      assert (a[0] + 65536 * Val(a[1..])) * m == a[0] * m + 65536 * (Val(a[1..]) * m);
    }
  }
}
