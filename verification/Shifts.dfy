/** Multiplying by a power of two and halving, in place. */
module Shifts {
  import opened Bits
  import opened Digits
  import opened Kernels
  import opened Records

  /** The bits that stay in a word shifted left by k. */
  function Low(x: Digit, k: nat): Digit
    requires k < 16
  {
    (x * Pow(2, k)) % 65536
  }

  /** The bits that leave a word shifted left by k. */
  function High(x: Digit, k: nat): (h: Digit)
    requires k < 16
    ensures h < Pow(2, k)
  {
    SplitWord(x, k);
    x / Pow(2, 16 - k)
  }

  lemma SplitWord(x: Digit, k: nat)
    requires k < 16
    ensures Pow(2, k) * Pow(2, 16 - k) == 65536
    ensures var m, w := Pow(2, k), Pow(2, 16 - k);
      && (x * m) % 65536 == m * (x % w)
      && 0 <= x / w < m && x / w <= x
      && x * m == (x * m) % 65536 + 65536 * (x / w)
      && (x * m) % 65536 + m <= 65536
  {
    var m, w := Pow(2, k), Pow(2, 16 - k);
    WordPower(k);
    hide Pow;
    var q, r := x / w, x % w;
    SplitWordArithmetic(x, m, w, q, r);
    WordRemainder(x * m, q, m * r);
  }

  lemma WordPower(k: nat)
    requires k <= 16
    ensures Pow(2, k) * Pow(2, 16 - k) == 65536
  {
    WeightIsPow2(1);
    PowAdd(2, k, 16 - k);
    assert Weight(1) == 65536 * Weight(0);
  }

  lemma WordRemainder(a: int, q: int, r: int)
    requires a == 65536 * q + r && 0 <= r < 65536
    ensures a % 65536 == r
  {
  }

  lemma SplitWordArithmetic(x: int, m: int, w: int, q: int, r: int)
    requires 0 <= x < 65536 && m > 0 && w > 0 && m * w == 65536 && x == w * q + r && 0 <= r < w
    ensures x * m == 65536 * q + m * r && 0 <= m * r && m * r + m <= 65536 && 0 <= q < m && q <= x
  {
    assert (w * q) * m == (m * w) * q;
    MulMonotone(r + 1, w, m);
    MulMonotone(0, r, m);
    if q < 0 { MulMonotone(q, -1, w); }
    if q >= m { MulMonotone(m, q, w); }
    MulMonotone(1, w, q);
  }

  /** One output word: the bits that stay, with the bits from below. */
  function ShiftWord(x: Digit, below: Digit, k: nat): (word: Digit)
    requires k < 16
    ensures word == Low(x, k) + High(below, k)
  {
    SplitWord(x, k);
    OrIsSum(k, x % Pow(2, 16 - k), High(below, k));
    BitOr(Low(x, k), High(below, k))
  }

  /** The digits of s shifted left by k bits, with the top bits of the digit below s coming in. */
  function ShiftDigits(s: seq<Digit>, k: nat, below: Digit): (digits: seq<Digit>)
    requires k < 16
    ensures |digits| == |s| + 1
  {
    if |s| == 0 then [High(below, k)] else [ShiftWord(s[0], below, k)] + ShiftDigits(s[1..], k, s[0])
  }

  lemma {:induction false} ShiftDigitsValue(s: seq<Digit>, k: nat, below: Digit)
    requires k < 16
    ensures Val(ShiftDigits(s, k, below)) == Val(s) * Pow(2, k) + High(below, k)
  {
    if |s| == 0 {
      assert Val([High(below, k)]) == High(below, k) + 65536 * Val([High(below, k)][1..]);
    } else {
      var m := Pow(2, k);
      ShiftDigitsValue(s[1..], k, s[0]);
      SplitWord(s[0], k);
      ShiftStep(m, s[0], Low(s[0], k), High(s[0], k), Val(s[1..]));
    }
  }

  lemma ShiftStep(m: int, x: int, low: int, high: int, rest: int)
    requires x * m == low + 65536 * high
    ensures (x + 65536 * rest) * m == low + 65536 * (rest * m + high)
  {
    MulDistributes(m, x, 65536 * rest);
    MulAssociates(65536, rest, m);
  }

  /** The digits of s halved. */
  function HalfDigits(s: seq<Digit>): (digits: seq<Digit>)
    ensures |digits| == |s|
  {
    if |s| == 0 then [] else [HalfWord(s[0], if |s| > 1 then s[1] else 0)] + HalfDigits(s[1..])
  }

  function HalfWord(x: Digit, above: Digit): (word: Digit)
    ensures word == x / 2 + 32768 * (above % 2)
  {
    assert Pow(2, 15) == 32768 by { PowAdd(2, 7, 8); PowAdd(2, 4, 4); PowAdd(2, 3, 4); }
    OrIsSum(15, above % 2, x / 2);
    assert (above * 32768) % 65536 == 32768 * (above % 2);
    BitOr((above * 32768) % 65536, x / 2)
  }

  lemma {:induction false} HalfDigitsValue(s: seq<Digit>)
    ensures Val(HalfDigits(s)) == Val(s) / 2
    ensures |s| > 0 ==> Val(s) % 2 == s[0] % 2
  {
    if |s| > 0 { HalfDigitsValue(s[1..]); }
  }

  lemma {:induction false} ShiftDigitAt(s: seq<Digit>, k: nat, below: Digit, i: nat)
    requires i <= |s| && k < 16
    ensures var b := if i == 0 then below else s[i - 1];
      ShiftDigits(s, k, below)[i] == if i == |s| then High(b, k) else ShiftWord(s[i], b, k)
  {
    if i > 0 { ShiftDigitAt(s[1..], k, s[0], i - 1); }
  }

  lemma LowIsWord(x: Digit, k: nat)
    requires k < 16
    ensures Low(x, k) == ShiftWord(x, 0, k)
  {
  }

  /** Writes the shifted words from the top down, so that source and destination may overlap. */
  method ShiftWordsLeft(number: array<Digit>, r: array<Digit>, n: nat, offset: nat, k: nat, ghost S: seq<Digit>)
    requires 1 <= n == |S| <= number.Length && n + offset < r.Length && k < 16
    requires number[..n] == S
    modifies r
    ensures r[offset..offset + n + 1] == ShiftDigits(S, k, 0)
  {
    hide *;
    ghost var T := ShiftDigits(S, k, 0);
    var s := n - 1;
    r[n + offset] := High(number[s], k);
    ShiftDigitAt(S, k, 0, n);
    while s != 0
      invariant 0 <= s < n
      invariant forall j :: 0 <= j <= s ==> number[j] == S[j]
      invariant forall j :: s + 1 <= j <= n ==> r[offset + j] == T[j]
    {
      r[s + offset] := ShiftWord(number[s], number[s - 1], k);
      ShiftDigitAt(S, k, 0, s);
      s := s - 1;
    }
    assert number[0] == S[0];
    r[offset] := Low(number[0], k);
    ShiftDigitAt(S, k, 0, 0);
    LowIsWord(S[0], k);
  }

  method ZeroBelow(r: array<Digit>, offset: nat)
    requires offset <= r.Length
    modifies r
    ensures forall j :: 0 <= j < offset ==> r[j] == 0
    ensures r[offset..] == old(r[offset..])
  {
    var i := offset;
    while i != 0
      invariant 0 <= i <= offset
      invariant forall j :: i <= j < offset ==> r[j] == 0
      invariant r[offset..] == old(r[offset..])
    {
      i := i - 1;
      r[i] := 0;
    }
  }

  method ShiftLeft(data: DataRecord, result: DataRecord, amount: nat)
    requires data.Ok() && data.digitsUsed + amount / 16 < result.number.Length
    modifies result`digitsUsed, result.number
    ensures result.Ok() && result.Value() == old(data.Value()) * Pow(2, amount)
    ensures old(data.Proper()) ==> (result.Proper() <==> old(data.Value()) != 0 || amount < 16)
    ensures result.digitsUsed <= old(data.digitsUsed) + amount / 16 + 1
    ensures result.digitsUsed > old(data.digitsUsed) + amount / 16 ==> result.Value() >= Weight(result.digitsUsed - 1)
  {
    hide Val, Weight, Pow, Canonical;
    ghost var S := data.Digits();
    var offset, k := amount / 16, amount % 16;
    var r, n := result.number, data.digitsUsed;
    ShiftWordsLeft(data.number, r, n, offset, k, S);
    ghost var words := r[offset..offset + n + 1];
    ZeroBelow(r, offset);
    ghost var zeros := r[..offset];
    assert r[..offset + n + 1] == zeros + words by {
      assert words == r[offset..][..n + 1];
    }
    ShiftedValue(S, zeros, amount);
    DropOneZero(result, n + offset + 1);
    ShiftedForm(S, amount, result);
  }

  /** Shifting keeps the canonical form unless it adds digits to zero. */
  lemma ShiftedForm(s: seq<Digit>, amount: nat, result: DataRecord)
    requires |s| >= 1 && result.Ok() && result.digitsUsed >= |s| + amount / 16
    requires result.Value() == Val(s) * Pow(2, amount)
    requires |s| + amount / 16 <= 1 || result.Value() >= Weight(|s| + amount / 16 - 1) ==> result.Proper()
    ensures Canonical(s) ==> (result.Proper() <==> Val(s) != 0 || amount < 16)
  {
    if Canonical(s) {
      if Val(s) != 0 {
        ShiftedBound(s, amount);
      } else {
        hide Val, Weight, Pow, Canonical;
        CanonicalZero(s);
        if result.Proper() { CanonicalZero(result.Digits()); }
      }
    }
  }

  lemma ShiftedBound(s: seq<Digit>, amount: nat)
    requires Canonical(s) && Val(s) != 0
    ensures Val(s) * Pow(2, amount) >= Weight(|s| + amount / 16 - 1)
  {
    var n, offset := |s| - 1, amount / 16;
    CanonicalWeight(s);
    hide *;
    WeightShift(n, offset);
    PowMonotone(2, 16 * offset, amount);
    MulBoth(Val(s), Pow(2, amount), Weight(n), Pow(2, 16 * offset));
  }

  lemma WeightShift(n: nat, offset: nat)
    ensures Weight(n + offset) == Weight(n) * Pow(2, 16 * offset)
  {
    hide *;
    WeightIsPow2(n);
    WeightIsPow2(n + offset);
    PowAdd(2, 16 * n, 16 * offset);
  }

  lemma MulBoth(a: int, b: int, c: int, d: int)
    requires a >= c > 0 && b >= d > 0
    ensures a * b >= c * d
  {
    MulMonotone(c, a, b);
    MulMonotone(d, b, c);
  }

  lemma CanonicalWeight(s: seq<Digit>)
    requires Canonical(s) && Val(s) != 0
    ensures Val(s) >= Weight(|s| - 1)
  {
    ValBound(s);
    TopDigit(s);
  }

  lemma ShiftedValue(s: seq<Digit>, zeros: seq<Digit>, amount: nat)
    requires |zeros| == amount / 16 && forall j :: 0 <= j < |zeros| ==> zeros[j] == 0
    ensures Val(zeros + ShiftDigits(s, amount % 16, 0)) == Val(s) * Pow(2, amount)
  {
    var offset, k := amount / 16, amount % 16;
    ValAppend(zeros, ShiftDigits(s, k, 0));
    ValZeros(zeros);
    ShiftDigitsValue(s, k, 0);
    assert Pow(2, amount) == Weight(offset) * Pow(2, k) by {
      WeightIsPow2(offset);
      PowAdd(2, 16 * offset, k);
    }
    MulAssociates(Weight(offset), Val(s), Pow(2, k));
    MulAssociates(Val(s), Weight(offset), Pow(2, k));
  }

  lemma UnfoldHalf(s: seq<Digit>, i: nat)
    requires i < |s|
    ensures HalfDigits(s[i..]) == [HalfWord(s[i], if i + 1 < |s| then s[i + 1] else 0)] + HalfDigits(s[i + 1..])
  {
    assert s[i..][1..] == s[i + 1..];
  }

  method HalveDigits(number: array<Digit>, r: array<Digit>, n: nat, ghost S: seq<Digit>)
    requires 1 <= n == |S| <= number.Length && n <= r.Length && number[..n] == S
    modifies r
    ensures r[..n] == HalfDigits(S)
  {
    var s := 0;
    assert S[0..] == S;
    while s != n - 1
      invariant 0 <= s < n
      invariant forall j :: s <= j < n ==> number[j] == S[j]
      invariant r[..s] + HalfDigits(S[s..]) == HalfDigits(S)
    {
      ghost var done := r[..s];
      r[s] := HalfWord(number[s], number[s + 1]);
      UnfoldHalf(S, s);
      assert r[..s + 1] == done + [r[s]];
      s := s + 1;
    }
    ghost var done := r[..s];
    r[s] := number[s] / 2;
    UnfoldHalf(S, s);
    assert r[..n] == done + [r[s]];
  }

  method ShiftRight(data: DataRecord, result: DataRecord)
    requires data.Ok() && data.digitsUsed <= result.number.Length
    modifies result`digitsUsed, result.number
    ensures result.Ok() && result.Value() == old(data.Value()) / 2
    ensures old(data.Proper()) ==> result.Proper()
  {
    ghost var S := data.Digits();
    var n := data.digitsUsed;
    HalveDigits(data.number, result.number, n, S);
    HalfDigitsValue(S);
    if n > 2 && Canonical(S) { CanonicalBound(S); }
    DropOneZero(result, n);
  }
}
