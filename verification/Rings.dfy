/** Commutative rings, as values that carry their operations. */
module Rings {

  datatype Ring<!T(!new)> = Ring(zero: T, one: T, add: (T, T) -> T, neg: T -> T, mul: (T, T) -> T) {

    function Sub(x: T, y: T): T {
      add(x, neg(y))
    }

    function Pow(x: T, n: nat): T {
      if n == 0 then one else mul(Pow(x, n - 1), x)
    }

    /** x added to itself n times. */
    function Times(n: nat, x: T): T {
      if n == 0 then zero else add(Times(n - 1, x), x)
    }

    ghost predicate AddCommutes() { forall x, y :: add(x, y) == add(y, x) }
    ghost predicate AddAssociates() { forall x, y, z :: add(add(x, y), z) == add(x, add(y, z)) }
    ghost predicate AddInverts() { forall x :: add(x, neg(x)) == zero && add(zero, x) == x }
    ghost predicate MulCommutes() { forall x, y :: mul(x, y) == mul(y, x) }
    ghost predicate MulAssociates() { forall x, y, z :: mul(mul(x, y), z) == mul(x, mul(y, z)) }
    ghost predicate MulHasOne() { forall x :: mul(one, x) == x }
    ghost predicate MulDistributes() { forall x, y, z :: mul(x, add(y, z)) == add(mul(x, y), mul(x, z)) }

    /** The laws of a commutative ring with one. */
    ghost predicate Laws() {
      && AddCommutes() && AddAssociates() && AddInverts()
      && MulCommutes() && MulAssociates() && MulHasOne() && MulDistributes()
    }

    lemma CommutedSum(x: T, y: T)
      requires Laws()
      ensures add(x, y) == add(y, x)
    {
      hide AddAssociates, AddInverts, MulCommutes, MulAssociates, MulHasOne, MulDistributes;
    }

    lemma AssociatedSum(x: T, y: T, z: T)
      requires Laws()
      ensures add(add(x, y), z) == add(x, add(y, z))
    {
      hide AddCommutes, AddInverts, MulCommutes, MulAssociates, MulHasOne, MulDistributes;
    }

    lemma InverseSum(x: T)
      requires Laws()
      ensures add(zero, x) == x && add(x, neg(x)) == zero
    {
      hide AddCommutes, AddAssociates, MulCommutes, MulAssociates, MulHasOne, MulDistributes;
    }

    lemma CommutedProduct(x: T, y: T)
      requires Laws()
      ensures mul(x, y) == mul(y, x)
    {
      hide AddCommutes, AddAssociates, AddInverts, MulAssociates, MulHasOne, MulDistributes;
    }

    lemma AssociatedProduct(x: T, y: T, z: T)
      requires Laws()
      ensures mul(mul(x, y), z) == mul(x, mul(y, z))
    {
      hide AddCommutes, AddAssociates, AddInverts, MulCommutes, MulHasOne, MulDistributes;
    }

    lemma DistributedProduct(x: T, y: T, z: T)
      requires Laws()
      ensures mul(x, add(y, z)) == add(mul(x, y), mul(x, z)) && mul(one, x) == x
    {
      hide AddCommutes, AddAssociates, AddInverts, MulCommutes, MulAssociates;
    }

    /** The laws at three elements. */
    lemma Law(x: T, y: T, z: T)
      requires Laws()
      ensures add(x, y) == add(y, x) && add(add(x, y), z) == add(x, add(y, z))
      ensures add(zero, x) == x == add(x, zero) && add(x, neg(x)) == zero
      ensures mul(x, y) == mul(y, x) && mul(mul(x, y), z) == mul(x, mul(y, z))
      ensures mul(one, x) == x == mul(x, one)
      ensures mul(x, add(y, z)) == add(mul(x, y), mul(x, z))
    {
      hide *;
      CommutedSum(x, y);
      CommutedSum(zero, x);
      AssociatedSum(x, y, z);
      InverseSum(x);
      CommutedProduct(x, y);
      CommutedProduct(one, x);
      AssociatedProduct(x, y, z);
      DistributedProduct(x, y, z);
    }

    /** (x + y) + (u + v) == (x + u) + (y + v). */
    lemma AddSwap(x: T, y: T, u: T, v: T)
      requires Laws()
      ensures add(add(x, y), add(u, v)) == add(add(x, u), add(y, v))
    {
      hide Laws;
      Law(x, y, add(u, v));
      Law(y, u, v);
      Law(u, y, v);
      Law(x, u, add(y, v));
    }

    /** x * (y * z) == y * (x * z). */
    lemma MulSwap(x: T, y: T, z: T)
      requires Laws()
      ensures mul(x, mul(y, z)) == mul(y, mul(x, z))
    {
      hide Laws;
      Law(x, y, z);
      Law(y, x, z);
    }

    /** x + y == 0 makes y the negative of x. */
    lemma NegUnique(x: T, y: T)
      requires Laws() && add(x, y) == zero
      ensures y == neg(x)
    {
      hide Laws;
      Law(neg(x), x, y);
      Law(x, neg(x), y);
      Law(y, y, y);
      Law(neg(x), x, x);
    }

    lemma MulZero(x: T)
      requires Laws()
      ensures mul(x, zero) == zero == mul(zero, x)
    {
      hide Laws;
      var p := mul(x, zero);
      Law(zero, x, x);
      Law(x, zero, zero);
      assert add(p, p) == p;
      Law(p, p, neg(p));
    }

    lemma NegNeg(x: T)
      requires Laws()
      ensures neg(neg(x)) == x && neg(zero) == zero
    {
      hide Laws;
      Law(x, neg(x), x);
      NegUnique(neg(x), x);
      Law(zero, zero, zero);
      NegUnique(zero, zero);
    }

    lemma MulNeg(x: T, y: T)
      requires Laws()
      ensures mul(x, neg(y)) == neg(mul(x, y)) == mul(neg(x), y)
    {
      hide Laws;
      Law(x, y, neg(y));
      Law(y, y, y);
      MulZero(x);
      NegUnique(mul(x, y), mul(x, neg(y)));
      Law(x, y, y);
      Law(x, x, x);
      Law(y, x, neg(x));
      MulZero(y);
      NegUnique(mul(y, x), mul(y, neg(x)));
      Law(y, neg(x), x);
    }

    lemma NegAdd(x: T, y: T)
      requires Laws()
      ensures neg(add(x, y)) == add(neg(x), neg(y))
    {
      hide Laws;
      AddSwap(x, y, neg(x), neg(y));
      Law(x, x, x);
      Law(y, y, y);
      Law(zero, zero, zero);
      NegUnique(add(x, y), add(neg(x), neg(y)));
    }

    /** (x - y) + (u - v) == (x + u) - (y + v). */
    lemma SubSwap(x: T, y: T, u: T, v: T)
      requires Laws()
      ensures add(Sub(x, y), Sub(u, v)) == Sub(add(x, u), add(y, v))
    {
      hide Laws;
      AddSwap(x, neg(y), u, neg(v));
      NegAdd(y, v);
    }

    lemma MulSub(x: T, y: T, z: T)
      requires Laws()
      ensures mul(x, Sub(y, z)) == Sub(mul(x, y), mul(x, z))
    {
      hide Laws;
      Law(x, y, neg(z));
      MulNeg(x, z);
    }

    lemma PowStep(x: T, n: nat)
      ensures Pow(x, 0) == one && Pow(x, n + 1) == mul(Pow(x, n), x)
    {
    }

    lemma {:induction false} PowAdd(x: T, m: nat, n: nat)
      requires Laws()
      ensures Pow(x, m + n) == mul(Pow(x, m), Pow(x, n))
    {
      hide Laws;
      if n == 0 {
        Law(Pow(x, m), x, x);
      } else {
        PowAdd(x, m, n - 1);
        Law(Pow(x, m), Pow(x, n - 1), x);
      }
    }

    lemma {:induction false} PowPow(x: T, m: nat, n: nat)
      requires Laws()
      ensures Pow(Pow(x, m), n) == Pow(x, m * n)
    {
      hide Laws;
      if n > 0 {
        PowPow(x, m, n - 1);
        PowAdd(x, m * (n - 1), m);
        assert m * (n - 1) + m == m * n;
      } else {
        assert m * n == 0;
      }
    }

    lemma {:induction false} PowInverse(x: T, y: T, n: nat)
      requires Laws() && mul(x, y) == one
      ensures mul(Pow(x, n), Pow(y, n)) == one
    {
      hide Laws;
      if n == 0 {
        Law(one, one, one);
      } else {
        var p, q := Pow(x, n - 1), Pow(y, n - 1);
        PowInverse(x, y, n - 1);
        Law(p, x, mul(q, y));
        MulSwap(x, q, y);
        Law(q, one, one);
      }
    }

    lemma {:induction false} TimesAdd(m: nat, n: nat, x: T)
      requires Laws()
      ensures Times(m + n, x) == add(Times(m, x), Times(n, x))
    {
      hide Laws;
      if n == 0 {
        Law(Times(m, x), x, x);
      } else {
        TimesAdd(m, n - 1, x);
        Law(Times(m, x), Times(n - 1, x), x);
      }
    }

    lemma {:induction false} TimesOfSum(n: nat, x: T, y: T)
      requires Laws()
      ensures Times(n, add(x, y)) == add(Times(n, x), Times(n, y))
    {
      hide Laws;
      if n == 0 {
        Law(zero, zero, zero);
      } else {
        TimesOfSum(n - 1, x, y);
        AddSwap(Times(n - 1, x), Times(n - 1, y), x, y);
      }
    }

    lemma {:induction false} TimesOfProduct(n: nat, x: T, y: T)
      requires Laws()
      ensures Times(n, mul(x, y)) == mul(x, Times(n, y))
    {
      hide Laws;
      if n == 0 {
        MulZero(x);
      } else {
        TimesOfProduct(n - 1, x, y);
        Law(x, Times(n - 1, y), y);
      }
    }
  }
}
