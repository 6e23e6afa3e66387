/** Bitwise or on unsigned integers. */
module Bits {
  import opened Digits

  function BitOr(a: nat, b: nat): (r: nat)
  {
    if a == 0 && b == 0 then 0
    else (if a % 2 == 1 || b % 2 == 1 then 1 else 0) + 2 * BitOr(a / 2, b / 2)
  }

  lemma {:induction false} OrZero(a: nat)
    ensures BitOr(a, 0) == a
  {
    if a != 0 { OrZero(a / 2); }
  }

  /** Or-ing k low bits into a number whose k low bits are clear adds them. */
  lemma {:induction false} OrIsSum(k: nat, high: nat, low: nat)
    requires low < Pow(2, k)
    ensures BitOr(Pow(2, k) * high, low) == Pow(2, k) * high + low
  {
    if k == 0 {
      OrZero(high);
    } else {
      var p := Pow(2, k - 1);
      OrIsSum(k - 1, high, low / 2);
      assert Pow(2, k) * high == 2 * (p * high);
      assert (2 * (p * high)) / 2 == p * high && (2 * (p * high)) % 2 == 0;
    }
  }
}
