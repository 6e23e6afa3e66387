/** A stream that ends within the serialized form of an object makes deserializing fail. */
module Truncation {
  import opened IntegerFormat
  import opened Serialization

  /** No vector of flags is in an object of this type; such vectors read false where the stream has no more bytes. */
  predicate Strict(t: Shape)
  {
    match t
    case PairOf(a, b) => Strict(a) && Strict(b)
    case VectorOf(e) => !e.Bool? && Strict(e)
    case MapOf(k, e) => Strict(k) && Strict(e)
    case _ => true
  }

  /** From a position on, the input has some of these bytes and then ends. */
  ghost predicate EndsIn(input: seq<Byte>, pos: nat, bytes: seq<Byte>)
  {
    pos <= |input| < pos + |bytes| && input[pos..] == bytes[..|input| - pos]
  }

  /** An input that ends in a form of two parts ends in the first, or has the first and ends in the second. */
  lemma EndsInParts(input: seq<Byte>, pos: nat, a: seq<Byte>, b: seq<Byte>)
    requires EndsIn(input, pos, a + b)
    ensures EndsIn(input, pos, a) || (HasAt(input, pos, a) && EndsIn(input, pos + |a|, b))
  {
    var n := |input| - pos;
    var whole := a + b;
    if n < |a| {
      assert input[pos..] == a[..n];
    } else {
      assert input[pos..pos + |a|] == input[pos..][..|a|] == whole[..n][..|a|] == a;
      assert input[pos + |a|..] == input[pos..][|a|..] == whole[..n][|a|..] == b[..n - |a|];
    }
  }

  /** The control byte announces more bytes than are left. */
  lemma NumberCut(input: seq<Byte>, pos: nat, n: int, w: nat)
    requires Magnitude(n) < Span(8) && EndsIn(input, pos, Packed(n))
    ensures n >= 0 ==> UnpackedUnsigned(input, pos, w) == Failed
    ensures n >= 0 && pos < |input| ==> ControlSize(input[pos]) != 0
    ensures w >= 1 ==> UnpackedSigned(input, pos, w) == Failed
    ensures pos < |input| ==> input[pos] % 16 != 0
  {
    hide Span, Wrap;
    if pos < |input| {
      var control := input[pos];
      assert control == input[pos..][0] == Packed(n)[0];
      assert n >= 0 ==> control < 128;
    }
  }

  lemma SizeCut(input: seq<Byte>, pos: nat, n: nat)
    requires Size(n) && Magnitude(n) < Span(8) && EndsIn(input, pos, Packed(n))
    ensures DeserializedSize(input, pos) == Failure
  {
    hide Packed, UnpackedUnsigned, UnpackedSigned, EndsIn;
    assert pos <= |input| by { EndsInRange(input, pos, Packed(n)); }
    NumberCut(input, pos, n, SIZE_WIDTH);
  }

  lemma EndsInRange(input: seq<Byte>, pos: nat, bytes: seq<Byte>)
    requires EndsIn(input, pos, bytes)
    ensures pos <= |input| < pos + |bytes|
  {
  }

  lemma ScalarCut(v: Value, t: Shape, input: seq<Byte>, pos: nat, less: Comparison)
    requires HasShape(v, t, less) && Serializable(v) && EndsIn(input, pos, Serialized(v))
    requires !t.PairOf? && !t.VectorOf? && !t.MapOf?
    ensures pos <= |input| && Deserialized(t, input, pos, less) == Failure
  {
    hide Ascending, UnpackedSigned, UnpackedUnsigned, DeserializedSize, InSigned, Packed, Span;
    match t {
      case Unsigned(w) =>
        assert v.n >= 0;
        NumberCut(input, pos, v.n, w);
      case Signed(w) => NumberCut(input, pos, v.n, w);
      case Bool =>
      case String =>
        EndsInParts(input, pos, Packed(|v.chars|), v.chars);
        if EndsIn(input, pos, Packed(|v.chars|)) {
          SizeCut(input, pos, |v.chars|);
        } else {
          SizeAt(input, pos, |v.chars|);
        }
    }
  }

  lemma SizeFails(t: Shape, input: seq<Byte>, pos: nat, less: Comparison)
    requires pos <= |input| && (t.MapOf? || (t.VectorOf? && !t.item.Bool?)) && DeserializedSize(input, pos) == Failure
    ensures Deserialized(t, input, pos, less) == Failure
  {
    hide DeserializedSize;
  }

  lemma ItemsFail(t: Shape, input: seq<Byte>, pos: nat, less: Comparison, n: nat, next: nat)
    requires t.VectorOf? && !t.item.Bool? && pos <= |input| && next <= |input|
    requires DeserializedSize(input, pos) == Success(n, next) && DeserializedItems(t, input, next, n, less) == Failure
    ensures Deserialized(t, input, pos, less) == Failure
  {
    hide DeserializedSize, DeserializedItems;
  }

  lemma EntriesFail(t: Shape, input: seq<Byte>, pos: nat, less: Comparison, n: nat, next: nat)
    requires t.MapOf? && pos <= |input| && next <= |input|
    requires DeserializedSize(input, pos) == Success(n, next) && DeserializedEntries(t, input, next, n, less) == Failure
    ensures Deserialized(t, input, pos, less) == Failure
  {
    hide DeserializedSize, DeserializedEntries;
  }

  lemma PairFails(t: Shape, input: seq<Byte>, pos: nat, less: Comparison, first: Value, middle: nat)
    requires t.PairOf? && pos <= |input|
    requires Deserialized(t.fst, input, pos, less) == Failure
             || (Deserialized(t.fst, input, pos, less) == Success(first, middle) && middle <= |input|
                 && Deserialized(t.snd, input, middle, less) == Failure)
    ensures Deserialized(t, input, pos, less) == Failure
  {
  }

  lemma ItemFails(t: Shape, input: seq<Byte>, pos: nat, n: nat, less: Comparison, items: seq<Value>, next: nat)
    requires t.VectorOf? && n > 0 && pos <= |input|
    requires DeserializedItems(t, input, pos, n - 1, less) == Failure
             || (DeserializedItems(t, input, pos, n - 1, less) == Success(items, next) && next <= |input|
                 && Deserialized(t.item, input, next, less) == Failure)
    ensures DeserializedItems(t, input, pos, n, less) == Failure
  {
    hide Deserialized;
  }

  lemma EntryFails(t: Shape, input: seq<Byte>, pos: nat, n: nat, less: Comparison,
                   entries: (seq<Value>, seq<Value>), next: nat, d: Value, middle: nat)
    requires t.MapOf? && n > 0 && pos <= |input|
    requires DeserializedEntries(t, input, pos, n - 1, less) == Failure
             || (DeserializedEntries(t, input, pos, n - 1, less) == Success(entries, next) && next <= |input|
                 && (Deserialized(t.key, input, next, less) == Failure
                     || (Deserialized(t.key, input, next, less) == Success(d, middle) && middle <= |input|
                         && Deserialized(t.value, input, middle, less) == Failure)))
    ensures DeserializedEntries(t, input, pos, n, less) == Failure
  {
    hide Deserialized, Stored;
  }

  lemma StrictParts(t: Shape)
    requires Strict(t)
    ensures t.PairOf? ==> Strict(t.fst) && Strict(t.snd)
    ensures t.VectorOf? ==> !t.item.Bool? && Strict(t.item)
    ensures t.MapOf? ==> Strict(t.key) && Strict(t.value)
  {
  }

  /** Deserializing from a stream that ends anywhere within the serialized form of an object is a failure. */
  lemma {:induction false} TruncatedFails(v: Value, t: Shape, input: seq<Byte>, pos: nat, less: Comparison)
    requires HasShape(v, t, less) && Serializable(v) && Strict(t)
    requires pos <= |input| < pos + |Serialized(v)| && input[pos..] == Serialized(v)[..|input| - pos]
    ensures Deserialized(t, input, pos, less) == Failure
    decreases v, 1, 1
  {
    assert EndsIn(input, pos, Serialized(v));
    hide *;
    StrictParts(t);
    if t.PairOf? {
      PairCut(v, t, input, pos, less);
    } else if t.VectorOf? {
      VectorCut(v, t, input, pos, less);
    } else if t.MapOf? {
      MapCut(v, t, input, pos, less);
    } else {
      ScalarCut(v, t, input, pos, less);
    }
  }

  /** The same with the hypothesis folded. */
  lemma {:induction false} Cut(v: Value, t: Shape, input: seq<Byte>, pos: nat, less: Comparison)
    requires HasShape(v, t, less) && Serializable(v) && Strict(t) && EndsIn(input, pos, Serialized(v))
    ensures pos <= |input| && Deserialized(t, input, pos, less) == Failure
    decreases v, 2
  {
    hide Deserialized, Serialized, HasShape, Serializable, Strict;
    TruncatedFails(v, t, input, pos, less);
  }

  lemma {:induction false} PairCut(v: Value, t: Shape, input: seq<Byte>, pos: nat, less: Comparison)
    requires t.PairOf? && HasShape(v, t, less) && Serializable(v) && Strict(t) && EndsIn(input, pos, Serialized(v))
    ensures pos <= |input| && Deserialized(t, input, pos, less) == Failure
    decreases v, 1, 0
  {
    hide *;
    StrictParts(t);
    PairParts(v, t, less);
    EndsInRange(input, pos, Serialized(v));
    var middle := pos + |Serialized(v.first)|;
    EndsInParts(input, pos, Serialized(v.first), Serialized(v.second));
    if EndsIn(input, pos, Serialized(v.first)) {
      Cut(v.first, t.fst, input, pos, less);
    } else {
      RoundTrip(v.first, t.fst, input, pos, less);
      Cut(v.second, t.snd, input, middle, less);
    }
    PairFails(t, input, pos, less, v.first, middle);
  }

  lemma {:induction false} VectorCut(v: Value, t: Shape, input: seq<Byte>, pos: nat, less: Comparison)
    requires t.VectorOf? && HasShape(v, t, less) && Serializable(v) && Strict(t) && EndsIn(input, pos, Serialized(v))
    ensures pos <= |input| && Deserialized(t, input, pos, less) == Failure
    decreases v, 1, 0
  {
    hide *;
    StrictParts(t);
    VectorParts(v, t, less);
    EndsInRange(input, pos, Serialized(v));
    var n := |v.items|;
    EndsInParts(input, pos, Packed(n), SerializedItems(v, n));
    if EndsIn(input, pos, Packed(n)) {
      SizeCut(input, pos, n);
      SizeFails(t, input, pos, less);
    } else {
      SizeAt(input, pos, n);
      ItemsCut(v, t, input, pos + |Packed(n)|, n, less);
      ItemsFail(t, input, pos, less, n, pos + |Packed(n)|);
    }
  }

  lemma {:induction false} ItemsCut(v: Value, t: Shape, input: seq<Byte>, pos: nat, k: nat, less: Comparison)
    requires t.VectorOf? && HasShape(v, t, less) && Serializable(v) && Strict(t)
    requires v.Vector? && k <= |v.items| && EndsIn(input, pos, SerializedItems(v, k))
    ensures pos <= |input| && DeserializedItems(t, input, pos, k, less) == Failure
    decreases v, 0, k
  {
    hide *;
    EndsInRange(input, pos, SerializedItems(v, k));
    if k == 0 {
      NothingToEndIn(v);
      assert false;
    }
    StrictParts(t);
    LastItem(v, t, k, less);
    var before, last := SerializedItems(v, k - 1), v.items[k - 1];
    EndsInParts(input, pos, before, Serialized(last));
    if EndsIn(input, pos, before) {
      ItemsCut(v, t, input, pos, k - 1, less);
    } else {
      ItemsRoundTrip(v, t, input, pos, k - 1, less);
      Cut(last, t.item, input, pos + |before|, less);
    }
    ItemFails(t, input, pos, k, less, v.items[..k - 1], pos + |before|);
  }

  lemma NothingToEndIn(v: Value)
    requires Serializable(v)
    ensures v.Vector? ==> SerializedItems(v, 0) == []
    ensures v.Map? ==> SerializedEntries(v, 0) == []
  {
  }

  lemma {:induction false} MapCut(v: Value, t: Shape, input: seq<Byte>, pos: nat, less: Comparison)
    requires t.MapOf? && HasShape(v, t, less) && Serializable(v) && Strict(t) && EndsIn(input, pos, Serialized(v))
    ensures pos <= |input| && Deserialized(t, input, pos, less) == Failure
    decreases v, 1, 0
  {
    hide *;
    MapParts(v, t, less);
    EndsInRange(input, pos, Serialized(v));
    var n := |v.keys|;
    EndsInParts(input, pos, Packed(n), SerializedEntries(v, n));
    if EndsIn(input, pos, Packed(n)) {
      SizeCut(input, pos, n);
      SizeFails(t, input, pos, less);
    } else {
      SizeAt(input, pos, n);
      EntriesCut(v, t, input, pos + |Packed(n)|, n, less);
      EntriesFail(t, input, pos, less, n, pos + |Packed(n)|);
    }
  }

  lemma {:induction false} EntriesCut(v: Value, t: Shape, input: seq<Byte>, pos: nat, k: nat, less: Comparison)
    requires t.MapOf? && HasShape(v, t, less) && Serializable(v) && Strict(t)
    requires v.Map? && k <= |v.keys| && EndsIn(input, pos, SerializedEntries(v, k))
    ensures pos <= |input| && DeserializedEntries(t, input, pos, k, less) == Failure
    decreases v, 0, k
  {
    hide *;
    EndsInRange(input, pos, SerializedEntries(v, k));
    if k == 0 {
      NothingToEndIn(v);
      assert false;
    }
    StrictParts(t);
    LastEntry(v, t, k, less);
    var before, d, e := SerializedEntries(v, k - 1), v.keys[k - 1], v.values[k - 1];
    var next, middle := pos + |before|, pos + |before| + |Serialized(d)|;
    EndsInParts(input, pos, before + Serialized(d), Serialized(e));
    if EndsIn(input, pos, before + Serialized(d)) {
      EndsInParts(input, pos, before, Serialized(d));
      if EndsIn(input, pos, before) {
        EntriesCut(v, t, input, pos, k - 1, less);
      } else {
        EntriesRoundTrip(v, t, input, pos, k - 1, less);
        Cut(d, t.key, input, next, less);
      }
    } else {
      HasParts(input, pos, before, Serialized(d));
      EntriesRoundTrip(v, t, input, pos, k - 1, less);
      RoundTrip(d, t.key, input, next, less);
      Cut(e, t.value, input, middle, less);
    }
    EntryFails(t, input, pos, k, less, (v.keys[..k - 1], v.values[..k - 1]), next, d, middle);
  }
}
