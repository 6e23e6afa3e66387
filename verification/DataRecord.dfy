/** The reference-counted buffer that holds the digits of a big integer. */
module Records {
  import opened Digits

  class DataRecord {
    const number: array<Digit>
    var digitsUsed: nat
    var references: nat

    /** The representation of zero, with room for `size` digits. */
    constructor (size: nat)
      requires size >= 1
      ensures fresh(this) && fresh(number) && number.Length == size
      ensures references == 1
      ensures Proper() && Value() == 0 && digitsUsed == 1
    {
      number := new Digit[size](_ => 0);
      references := 1;
      digitsUsed := 1;
      new;
      assert number[..1] == [0];
      ValZeros(number[..1]);
    }

    /** A copy of `item` with room for `additionalSize` more digits. */
    constructor Copy(item: DataRecord, additionalSize: nat)
      requires item.Ok()
      ensures fresh(this) && fresh(number) && number.Length == item.digitsUsed + additionalSize
      ensures references == 1
      ensures Ok() && Digits() == item.Digits()
    {
      number := new Digit[item.digitsUsed + additionalSize](_ => 0);
      references := 1;
      digitsUsed := item.digitsUsed;
      new;
      var i := 0;
      while i < digitsUsed
        invariant 0 <= i <= digitsUsed == item.digitsUsed
        invariant number[..i] == item.number[..i]
        modifies number
      {
        number[i] := item.number[i];
        i := i + 1;
      }
    }

    ghost predicate Ok()
      reads this`digitsUsed
    {
      1 <= digitsUsed <= number.Length
    }

    ghost function Digits(): (s: seq<Digit>)
      requires Ok()
      reads this`digitsUsed, number
    {
      number[..digitsUsed]
    }

    /** Well formed and without superfluous leading zeros. */
    ghost predicate Proper()
      reads this`digitsUsed, number
    {
      Ok() && Canonical(Digits())
    }

    ghost function Value(): (v: nat)
      requires Ok()
      reads this`digitsUsed, number
    {
      ValBound(Digits());
      Val(Digits())
    }
  }

  /** Two records that share no state. */
  ghost predicate Apart(a: DataRecord, b: DataRecord)
  {
    a != b && a.number != b.number
  }
}
