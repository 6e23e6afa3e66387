/** The self-delimiting format of serialized integers: a control byte, then the absolute value, low byte first. */
module IntegerFormat {
  import opened Bits
  import opened Digits

  type Byte = x: int | 0 <= x < 256

  /** 256 to the power of w: how many values an integer type of w bytes has. */
  function Span(w: nat): (n: nat)
    ensures n > 0
  {
    if w == 0 then 1 else 256 * Span(w - 1)
  }

  /** How many of them are non-negative if the type is signed. */
  function Half(w: nat): (n: int)
    requires w >= 1
    ensures n > 0 && 2 * n == Span(w)
  {
    128 * Span(w - 1)
  }

  predicate InSigned(v: int, w: nat)
    requires w >= 1
  {
    -Half(w) <= v < Half(w)
  }

  predicate InUnsigned(v: int, w: nat)
  {
    0 <= v < Span(w)
  }

  /** Reduction to a signed type of w bytes. */
  function Wrap(v: int, w: nat): (r: int)
    requires w >= 1
    ensures InSigned(r, w)
  {
    (v + Half(w)) % Span(w) - Half(w)
  }

  /** The bytes of a number, low byte first, as few as possible but at least one. */
  function NumberBytes(m: nat): (bytes: seq<Byte>)
    ensures |bytes| >= 1
  {
    if m < 256 then [m] else [m % 256] + NumberBytes(m / 256)
  }

  /** The number that bytes stand for. */
  function BytesNumber(bytes: seq<Byte>): (m: nat)
  {
    if |bytes| == 0 then 0 else bytes[0] + 256 * BytesNumber(bytes[1..])
  }

  lemma {:induction false} NumberBytesValue(m: nat)
    ensures BytesNumber(NumberBytes(m)) == m
  {
    if m >= 256 {
      NumberBytesValue(m / 256);
      assert NumberBytes(m)[1..] == NumberBytes(m / 256);
    } else {
      assert NumberBytes(m)[1..] == [];
    }
  }

  /** No shorter sequence of bytes can hold the number, and this one can. */
  lemma {:induction false} NumberBytesMinimal(m: nat)
    ensures m < Span(|NumberBytes(m)|)
    ensures m > 0 ==> Span(|NumberBytes(m)| - 1) <= m
  {
    if m >= 256 {
      NumberBytesMinimal(m / 256);
    } else {
      assert Span(1) == 256 * Span(0);
    }
  }

  lemma {:induction false} SpanMonotone(v: nat, w: nat)
    requires v <= w
    ensures Span(v) <= Span(w)
  {
    if v < w { SpanMonotone(v, w - 1); }
  }

  /** A number fits in w bytes exactly when its shortest form does. */
  lemma FitsInBytes(m: nat, w: nat)
    requires w >= 1
    ensures |NumberBytes(m)| <= w <==> m < Span(w)
  {
    NumberBytesMinimal(m);
    var n := |NumberBytes(m)|;
    if n <= w {
      SpanMonotone(n, w);
    } else {
      SpanMonotone(w, n - 1);
    }
  }

  function Magnitude(v: int): nat
  {
    if v < 0 then -v else v
  }

  /** The serialized form of an integer; it does not depend on the type it has. */
  function Packed(v: int): (bytes: seq<Byte>)
    requires Magnitude(v) < Span(8)
    ensures |bytes| >= 2 && bytes[0] % 16 == |bytes| - 1 <= 8
  {
    FitsInBytes(Magnitude(v), 8);
    var bytes := NumberBytes(Magnitude(v));
    [|bytes| + if v < 0 then 128 else 0] + bytes
  }

  /** What a loop that shifts bytes out has yet to write: rest, or, for the least number of a signed type, its negative. */
  ghost predicate Remaining(v: int, rest: nat, r: nat)
  {
    r >= 1 && rest < Span(r) && (v == rest || (v == -(rest as int) && rest == Half(r)))
  }

  /** The byte shifted out is the low byte of what remains. */
  lemma ShiftOut(v: int, rest: nat, r: nat)
    requires Remaining(v, rest, r)
    ensures v % 256 == rest % 256
    ensures r > 1 ==> Remaining(v / 256, rest / 256, r - 1) && (v / 256 == 0 <==> rest < 256)
    ensures r == 1 ==> rest < 256 && (v / 256 == 0 ==> v == rest)
  {
    assert Span(r) == 256 * Span(r - 1);
    if r > 1 {
      assert Span(r - 1) == 256 * Span(r - 2);
    } else {
      assert Span(0) == 1;
    }
  }

  lemma BytesStep(before: seq<Byte>, rest: nat)
    ensures rest < 256 ==> before + NumberBytes(rest) == before + [rest % 256]
    ensures rest >= 256 ==> before + NumberBytes(rest) == before + [rest % 256] + NumberBytes(rest / 256)
  {
  }

  /** Writes the low bytes of a number until nothing but zeros would follow. */
  method FillBytes(buf: array<Byte>, item: int, w: nat, ghost m: nat) returns (size: nat)
    requires buf.Length == 9 && 1 <= w <= 8 && Remaining(item, m, w)
    modifies buf
    ensures 1 <= size <= w && buf[1..size + 1] == NumberBytes(m)
  {
    hide NumberBytes, Remaining;
    var v := item;
    size := w;
    var i := 1;
    ghost var rest := m;
    while i <= w
      invariant 1 <= i <= w + 1 && size == w
      invariant i <= w ==> Remaining(v, rest, w - i + 1) && buf[1..i] + NumberBytes(rest) == NumberBytes(m)
      invariant i == w + 1 ==> buf[1..i] == NumberBytes(m)
    {
      ShiftOut(v, rest, w - i + 1);
      ghost var before := buf[1..i];
      BytesStep(before, rest);
      hide Remaining, NumberBytes;
      buf[i] := v % 256;
      assert buf[1..i + 1] == before + [rest % 256];
      v := v / 256;
      if v == 0 {
        size := i;
        break;
      }
      if i < w {
        rest := rest / 256;
      }
      i := i + 1;
    }
  }

  /** Serializes an integer of a signed type of w bytes; negating the least number wraps around. */
  method PackSigned(item: int, w: nat) returns (out: seq<Byte>)
    requires 1 <= w <= 8 && InSigned(item, w)
    ensures Magnitude(item) < Span(8) && out == Packed(item)
  {
    SignedMagnitude(item, w);
    hide Wrap, Half, InSigned, Remaining, BitOr;
    var buf := new Byte[9];
    var neg, v := 0, item;
    if item < 0 {
      neg := 128;
      v := Wrap(-item, w);
    }
    var size := FillBytes(buf, v, w, Magnitude(item));
    OrNegative(size, neg);
    buf[0] := BitOr(neg, size);
    out := buf[..size + 1];
    assert out == [buf[0]] + buf[1..size + 1];
  }

  lemma OrNegative(size: nat, neg: nat)
    requires size < 128 && (neg == 0 || neg == 128)
    ensures BitOr(neg, size) == size + neg
  {
    hide BitOr;
    assert Pow(2, 7) == 128 by { assert Pow(2, 3) == 8; PowAdd(2, 3, 4); PowAdd(2, 1, 3); }
    OrIsSum(7, if neg == 0 then 0 else 1, size);
  }

  lemma SignedMagnitude(item: int, w: nat)
    requires 1 <= w <= 8 && InSigned(item, w)
    ensures Remaining(if item < 0 then Wrap(-item, w) else item, Magnitude(item), w)
    ensures Magnitude(item) < Span(8)
  {
    SpanMonotone(w, 8);
    if item < 0 { WrapNegated(item, w); }
  }

  lemma WrapNegated(item: int, w: nat)
    requires w >= 1 && InSigned(item, w) && item < 0
    ensures Wrap(-item, w) == if item == -Half(w) then item else -item
  {
    RemainderOf(-item + Half(w), Span(w), if item == -Half(w) then 1 else 0);
  }

  lemma RemainderOf(a: int, n: nat, q: int)
    requires n > 0 && q * n <= a < q * n + n
    ensures a % n == a - q * n
  {
    var r := a - q * n;
    assert a == q * n + r;
    QuotientUnique(a, n, q, r);
  }

  lemma QuotientUnique(a: int, n: nat, q: int, r: int)
    requires n > 0 && a == q * n + r && 0 <= r < n
    ensures a % n == r
  {
    var q', r' := a / n, a % n;
    assert (q' - q) * n == r - r';
    if q' > q { MulMonotone(1, q' - q, n); }
    if q' < q { MulMonotone(q' - q, -1, n); }
  }

  /** Serializes an integer of an unsigned type of w bytes. */
  method PackUnsigned(item: nat, w: nat) returns (out: seq<Byte>)
    requires 1 <= w <= 8 && InUnsigned(item, w)
    ensures Magnitude(item) < Span(8) && out == Packed(item)
  {
    SpanMonotone(w, 8);
    var buf := new Byte[9];
    var size := FillBytes(buf, item, w, item);
    buf[0] := size;
    out := buf[..size + 1];
    assert out == [buf[0]] + buf[1..size + 1];
  }

  datatype Unpacked = Failed | Item(value: int, next: nat)

  /** What deserializing into a signed type of w bytes finds at a position; the control byte must announce some bytes. */
  function UnpackedSigned(input: seq<Byte>, pos: nat, w: nat): (r: Unpacked)
    requires w >= 1
    ensures r.Item? ==> InSigned(r.value, w) && pos < r.next <= |input|
  {
    if pos >= |input| then Failed
    else
      var size := input[pos] % 16;
      if size > w || pos + 1 + size > |input| then Failed
      else
        var m := Wrap(BytesNumber(input[pos + 1..pos + 1 + size]), w);
        Item(if input[pos] >= 128 then Wrap(-m, w) else m, pos + 1 + size)
  }

  /** The same for an unsigned type: the sign bit counts as part of the size, which makes it too big. */
  function UnpackedUnsigned(input: seq<Byte>, pos: nat, w: nat): (r: Unpacked)
    ensures r.Item? ==> r.value >= 0 && pos < r.next <= |input|
  {
    if pos >= |input| then Failed
    else
      var size := ControlSize(input[pos]);
      if size > w || pos + 1 + size > |input| then Failed
      else Item(BytesNumber(input[pos + 1..pos + 1 + size]), pos + 1 + size)
  }

  /** The control byte without its three reserved bits. */
  function ControlSize(control: Byte): nat
  {
    control % 16 + if control >= 128 then 128 else 0
  }

  lemma {:induction false} BytesNumberBound(bytes: seq<Byte>)
    ensures BytesNumber(bytes) < Span(|bytes|)
  {
    if |bytes| > 0 { BytesNumberBound(bytes[1..]); }
  }

  lemma OrLowByte(high: nat, low: Byte)
    ensures BitOr(high * 256, low) == high * 256 + low
  {
    hide BitOr;
    assert Pow(2, 8) == 256 by { assert Pow(2, 4) == 16; PowAdd(2, 4, 4); }
    OrIsSum(8, high, low);
  }

  /** Shifts bytes into an unsigned number, the last one first. */
  method GatherUnsigned(buf: seq<Byte>, w: nat) returns (item: nat)
    requires 1 <= |buf| <= w
    ensures item == BytesNumber(buf)
  {
    item := 0;
    var i := |buf|;
    assert buf[i..] == [];
    while i > 0
      invariant 0 <= i <= |buf| && item == BytesNumber(buf[i..])
    {
      i := i - 1;
      assert buf[i..][1..] == buf[i + 1..];
      ShiftFits(buf, i, w);
      OrLowByte(item, buf[i]);
      item := BitOr(item * 256 % Span(w), buf[i]);
    }
    assert buf[0..] == buf;
  }

  /** The bytes shifted in so far leave room for one more. */
  lemma ShiftFits(buf: seq<Byte>, i: nat, w: nat)
    requires i < |buf| <= w
    ensures BytesNumber(buf[i + 1..]) * 256 < Span(w)
    ensures BytesNumber(buf[i + 1..]) * 256 % Span(w) == BytesNumber(buf[i + 1..]) * 256
  {
    BytesNumberBound(buf[i + 1..]);
    SpanMonotone(|buf| - i, w);
    RemainderOf(BytesNumber(buf[i + 1..]) * 256, Span(w), 0);
  }

  method UnpackUnsigned(input: seq<Byte>, pos: nat, w: nat) returns (r: Unpacked)
    requires 1 <= w <= 8 && pos <= |input|
    requires pos < |input| ==> ControlSize(input[pos]) != 0
    ensures r == UnpackedUnsigned(input, pos, w)
  {
    if pos == |input| {
      return Failed;
    }
    var size := ControlSize(input[pos]);
    if size > w {
      return Failed;
    }
    if pos + 1 + size > |input| {
      return Failed;
    }
    var item := GatherUnsigned(input[pos + 1..pos + 1 + size], w);
    return Item(item, pos + 1 + size);
  }

  /** Wrapping changes a number by a multiple of the span, and only if it is out of range. */
  lemma WrapCongruent(v: int, w: nat) returns (q: int)
    requires w >= 1
    ensures Wrap(v, w) == v - q * Span(w)
    ensures InSigned(v, w) <==> Wrap(v, w) == v
  {
    q := (v + Half(w)) / Span(w);
    if InSigned(v, w) { RemainderOf(v + Half(w), Span(w), 0); }
  }

  /** Numbers that differ by a multiple of the span wrap to the same. */
  lemma WrapEqual(u: int, v: int, w: nat, q: int)
    requires w >= 1 && u == v - q * Span(w)
    ensures Wrap(u, w) == Wrap(v, w)
  {
    var p := WrapCongruent(v, w);
    var r := Wrap(v, w) + Half(w);
    assert u + Half(w) == (p - q) * Span(w) + r by { Distribute(p, q, Span(w)); }
    QuotientUnique(u + Half(w), Span(w), p - q, r);
  }

  lemma Distribute(p: int, q: int, n: int)
    ensures (p - q) * n == p * n - q * n && (p + q) * n == p * n + q * n
  {
  }

  /** Negating after wrapping is wrapping after negating. */
  lemma WrapNegation(m: int, w: nat)
    requires w >= 1
    ensures Wrap(-Wrap(m, w), w) == Wrap(-m, w)
  {
    var q := WrapCongruent(m, w);
    assert -Wrap(m, w) == -m - (-q) * Span(w);
    WrapEqual(-Wrap(m, w), -m, w, -q);
  }

  /** The unsigned reading of a wrapped number. */
  lemma WrapUnsigned(m: nat, w: nat)
    requires w >= 1 && m < Span(w)
    ensures Wrap(m, w) % Span(w) == m
  {
    var q := WrapCongruent(m, w);
    QuotientUnique(Wrap(m, w), Span(w), -q, m);
  }

  /** Shifts bytes into a signed number; a byte that reaches the sign bit wraps it around. */
  method GatherSigned(buf: seq<Byte>, w: nat) returns (item: int)
    requires 1 <= |buf| <= w
    ensures item == Wrap(BytesNumber(buf), w)
  {
    hide Wrap, BitOr, Half;
    item := 0;
    var i := |buf|;
    assert buf[i..] == [];
    WrapZero(w);
    while i > 0
      invariant 0 <= i <= |buf| && item == Wrap(BytesNumber(buf[i..]), w)
    {
      i := i - 1;
      assert buf[i..][1..] == buf[i + 1..];
      ShiftFits(buf, i, w);
      BytesNumberBound(buf[i + 1..]);
      SpanMonotone(|buf| - i - 1, w);
      WrapUnsigned(BytesNumber(buf[i + 1..]), w);
      OrLowByte(BytesNumber(buf[i + 1..]), buf[i]);
      item := Wrap(BitOr(item % Span(w) * 256 % Span(w), buf[i]), w);
    }
    assert buf[0..] == buf;
  }

  lemma WrapZero(w: nat)
    requires w >= 1
    ensures Wrap(0, w) == 0
  {
    var q := WrapCongruent(0, w);
  }

  method UnpackSigned(input: seq<Byte>, pos: nat, w: nat) returns (r: Unpacked)
    requires 1 <= w <= 8 && pos <= |input|
    requires pos < |input| ==> input[pos] % 16 != 0
    ensures r == UnpackedSigned(input, pos, w)
  {
    if pos == |input| {
      return Failed;
    }
    var isNegative := input[pos] >= 128;
    var size := input[pos] % 16;
    if size > w {
      return Failed;
    }
    if pos + 1 + size > |input| {
      return Failed;
    }
    var item := GatherSigned(input[pos + 1..pos + 1 + size], w);
    if isNegative {
      item := Wrap(-item, w);
    }
    return Item(item, pos + 1 + size);
  }

  /** The input has the serialized form of v at a position. */
  ghost predicate HasPacked(input: seq<Byte>, pos: nat, v: int)
  {
    Magnitude(v) < Span(8) && pos + |Packed(v)| <= |input| && input[pos..pos + |Packed(v)|] == Packed(v)
  }

  lemma PackedParts(input: seq<Byte>, pos: nat, v: int)
    requires HasPacked(input, pos, v)
    ensures var bytes := NumberBytes(Magnitude(v)); var n := |bytes|;
      && 1 <= n <= 8 && |Packed(v)| == n + 1 && pos + 1 + n <= |input|
      && input[pos] == n + (if v < 0 then 128 else 0)
      && input[pos + 1..pos + 1 + n] == bytes
  {
    var p := input[pos..pos + |Packed(v)|];
    assert p[0] == input[pos] && p[1..] == input[pos + 1..pos + |Packed(v)|];
  }

  /** An unsigned type gets back exactly the numbers it can hold; everything else, any negative included, is an error. */
  lemma UnsignedRoundTrip(input: seq<Byte>, pos: nat, v: int, w: nat)
    requires 1 <= w <= 8 && HasPacked(input, pos, v)
    ensures UnpackedUnsigned(input, pos, w) == if InUnsigned(v, w) then Item(v, pos + |Packed(v)|) else Failed
  {
    PackedParts(input, pos, v);
    FitsInBytes(Magnitude(v), w);
    NumberBytesValue(Magnitude(v));
  }

  /** A signed type gets back exactly the numbers it can hold; longer ones are an error, others wrap around. */
  lemma SignedRoundTrip(input: seq<Byte>, pos: nat, v: int, w: nat)
    requires 1 <= w <= 8 && HasPacked(input, pos, v)
    ensures UnpackedSigned(input, pos, w)
         == if Magnitude(v) < Span(w) then Item(Wrap(v, w), pos + |Packed(v)|) else Failed
    ensures UnpackedSigned(input, pos, w) == Item(v, pos + |Packed(v)|) <==> InSigned(v, w)
  {
    UnpackedPacked(input, pos, v, w);
    var q := WrapCongruent(v, w);
    hide UnpackedSigned, Wrap, Packed;
    if InSigned(v, w) { SignedFits(v, w); }
  }

  lemma SignedFits(v: int, w: nat)
    requires w >= 1 && InSigned(v, w)
    ensures Magnitude(v) < Span(w)
  {
  }

  lemma UnpackedPacked(input: seq<Byte>, pos: nat, v: int, w: nat)
    requires 1 <= w <= 8 && HasPacked(input, pos, v)
    ensures UnpackedSigned(input, pos, w)
         == if Magnitude(v) < Span(w) then Item(Wrap(v, w), pos + |Packed(v)|) else Failed
  {
    PackedParts(input, pos, v);
    FitsInBytes(Magnitude(v), w);
    NumberBytesValue(Magnitude(v));
    hide Wrap, Packed, NumberBytes, BytesNumber, Span, Half;
    if v < 0 { WrapNegation(Magnitude(v), w); }
  }

  /** No serialized integer is the beginning of another one. */
  lemma SelfDelimiting(u: int, v: int, s: seq<Byte>, t: seq<Byte>)
    requires Magnitude(u) < Span(8) && Magnitude(v) < Span(8) && Packed(u) + s == Packed(v) + t
    ensures u == v && s == t
  {
    var whole := Packed(u) + s;
    assert whole[..|Packed(u)|] == Packed(u) && whole[..|Packed(v)|] == Packed(v);
    PackedParts(whole, 0, u);
    PackedParts(whole, 0, v);
    NumberBytesValue(Magnitude(u));
    NumberBytesValue(Magnitude(v));
    assert s == whole[|Packed(u)|..] && t == whole[|Packed(v)|..];
  }
}
