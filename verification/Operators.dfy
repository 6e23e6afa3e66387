/** What the arithmetic operators compute, and the kernels that compute it. */
module Operators {
  import opened Digits
  import opened Kernels
  import opened LongArithmetic
  import opened Records

  function Number(s: seq<Digit>): nat
  {
    ValBound(s);
    Val(s)
  }

  datatype Operator = Plus | Minus | Times | Over | Modulo

  /** What the operators ask of their callers. */
  predicate Allowed(op: Operator, a: nat, b: nat)
  {
    match op
    case Minus => b <= a
    case Over | Modulo => b != 0
    case _ => true
  }

  function Apply(op: Operator, a: nat, b: nat): nat
    requires Allowed(op, a, b)
  {
    match op
    case Plus => a + b
    case Minus => a - b
    case Times => a * b
    case Over => a / b
    case Modulo => a % b
  }

  /** The room a long kernel asks for in its result, given the numbers of digits of its operands. */
  predicate Room(op: Operator, l: nat, r: nat, size: nat)
  {
    match op
    case Plus => l < size && r < size
    case Minus => l <= size
    case Times => l + r <= size
    case Over | Modulo => l < size
  }

  /** Which operands of a long kernel must be canonical: it compares or counts their digits. */
  predicate LongAccepts(op: Operator, l: bool, r: bool)
  {
    match op
    case Plus | Times => true
    case Minus => r
    case _ => l && r
  }

  /** The kernels compute the operators, also when the result is the left operand itself; division goes to new records. */
  method RunLongKernel(op: Operator, lhs: DataRecord, rhs: DataRecord, result: DataRecord)
    requires lhs.Ok() && rhs.Ok() && Allowed(op, lhs.Value(), rhs.Value())
    requires LongAccepts(op, lhs.Proper(), rhs.Proper())
    requires Room(op, lhs.digitsUsed, rhs.digitsUsed, result.number.Length)
    requires op.Plus? || op.Minus? || (Apart(result, lhs) && Apart(result, rhs))
    modifies result`digitsUsed, result.number
    ensures result.Ok() && result.Value() == old(Apply(op, lhs.Value(), rhs.Value()))
    ensures (op.Plus? || op.Times? ==> old(lhs.Proper() && rhs.Proper())) ==> result.Proper()
  {
    hide Canonical, Val;
    if op.Over? || op.Modulo? {
      RunDivision(op, lhs, rhs, result);
    } else if op.Plus? {
      SumFits(lhs.Digits(), rhs.Digits(), result.number.Length);
      LongAdd(lhs, rhs, result);
    } else if op.Minus? {
      LongSub(lhs, rhs, result);
    } else {
      LongMul(lhs, rhs, result);
    }
  }

  /** One kernel computes quotient and remainder; a new record takes the one that is not wanted. */
  method RunDivision(op: Operator, lhs: DataRecord, rhs: DataRecord, result: DataRecord)
    requires op.Over? || op.Modulo?
    requires lhs.Proper() && rhs.Proper() && rhs.Value() != 0 && lhs.digitsUsed < result.number.Length
    requires Apart(result, lhs) && Apart(result, rhs)
    modifies result`digitsUsed, result.number
    ensures result.Proper() && result.Value() == Apply(op, lhs.Value(), rhs.Value())
  {
    hide Canonical, Val;
    ghost var l, r := lhs.Value(), rhs.Value();
    var other := new DataRecord(result.number.Length);
    if op.Over? {
      LongDiv(lhs, rhs, result, other);
      DivModUnique(l, r, result.Value(), other.Value());
    } else {
      LongDiv(lhs, rhs, other, result);
      DivModUnique(l, r, other.Value(), result.Value());
    }
  }

  lemma SumFits(l: seq<Digit>, r: seq<Digit>, size: nat)
    requires |l| < size && |r| < size
    ensures Val(l) + Val(r) < Weight(size)
  {
    ValBound(l);
    ValBound(r);
    WeightMonotone(|l|, size - 1);
    WeightMonotone(|r|, size - 1);
  }

  /** Whether a short kernel makes a canonical number of a canonical one: not if it multiplies several digits by zero. */
  predicate KeepsCanonical(op: Operator, a: nat, k: Digit)
  {
    op.Times? ==> k != 0 || a < 65536
  }

  /** The room a short kernel asks for in its result. */
  predicate ShortRoom(op: Operator, l: nat, size: nat)
  {
    if op.Plus? || op.Times? then l < size else l <= size
  }

  /** Canonical numbers of one digit are those below the base. */
  lemma OneDigit(s: seq<Digit>)
    requires Canonical(s)
    ensures |s| == 1 <==> Val(s) < 65536
    ensures |s| == 1 ==> Val(s) == s[0]
  {
    if |s| == 1 {
      assert Val(s[1..]) == 0;
    } else {
      CanonicalBound(s);
      WeightMonotone(1, |s| - 1);
      assert Weight(1) == 65536;
    }
  }

  lemma OneDigitNumber(s: seq<Digit>)
    requires |s| == 1
    ensures Canonical(s) && Val(s) == s[0]
  {
    OneDigit(s);
  }

  /** The short kernels, also when the result is the operand itself; the operator % stores the remainder over it. */
  method RunShortKernel(op: Operator, data: DataRecord, value: Digit, result: DataRecord)
    requires data.Ok() && Allowed(op, data.Value(), value)
    requires ShortRoom(op, data.digitsUsed, result.number.Length)
    modifies result`digitsUsed, result.number
    ensures result.Ok() && result.Value() == old(Apply(op, data.Value(), value))
    ensures op.Modulo? ==> result.Proper()
    ensures old(data.Proper()) ==> (result.Proper() <==> op.Modulo? || KeepsCanonical(op, old(data.Value()), value))
  {
    hide Canonical, Val;
    ghost var v := data.Value();
    if op.Plus? {
      ShortAdd(data, value, result);
    } else if op.Minus? {
      ShortSub(data, value, result);
    } else if op.Times? {
      if data.Proper() { OneDigit(data.Digits()); }
      ShortMul(data, value, result);
    } else {
      var remainder := ShortDiv(data, value, result);
      DivModUnique(v, value, result.Value(), remainder);
      if op.Modulo? {
        result.digitsUsed := 1;
        result.number[0] := remainder;
        OneDigitNumber(result.Digits());
      }
    }
  }

  /** The increment and decrement kernels. */
  method RunStep(down: bool, source: DataRecord, dest: DataRecord)
    requires source.Ok() && (down ==> source.Value() != 0)
    requires ShortRoom(if down then Minus else Plus, source.digitsUsed, dest.number.Length)
    modifies dest`digitsUsed, dest.number
    ensures dest.Ok() && dest.Value() == old(source.Value()) + (if down then -1 else 1)
    ensures old(source.Proper()) ==> dest.Proper()
  {
    hide Canonical, Val;
    if down {
      Decrement(source, dest);
    } else {
      Increment(source, dest);
    }
  }
}
