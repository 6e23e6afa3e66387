/** What deserializing finds when it succeeds, whatever the stream holds. */
module FoundValues {
  import opened IntegerFormat
  import opened Serialization

  /** Of two different keys exactly one comes first. */
  ghost predicate TotalOrder(less: Comparison)
  {
    && (forall a, b :: less(a, b) ==> !less(b, a))
    && (forall a, b :: a != b ==> less(a, b) || less(b, a))
    && (forall a, b, c :: less(a, b) && less(b, c) ==> less(a, c))
  }

  /** The map that a sequence of keys and their values stands for. */
  function AsMap(keys: seq<Value>, values: seq<Value>): (m: map<Value, Value>)
    requires |keys| == |values|
  {
    if |keys| == 0 then map[] else AsMap(keys[1..], values[1..])[keys[0] := values[0]]
  }

  /** Storing is assignment to a map, for keys that were there before too. */
  lemma {:induction false} StoredIsAssignment(keys: seq<Value>, values: seq<Value>, d: Value, r: Value, less: Comparison)
    requires TotalOrder(less) && |keys| == |values|
    ensures var stored := Stored(keys, values, d, r, less); AsMap(stored.0, stored.1) == AsMap(keys, values)[d := r]
  {
    hide TotalOrder;
    if |keys| > 0 && less(keys[0], d) {
      var tail := Stored(keys[1..], values[1..], d, r, less);
      StoredIsAssignment(keys[1..], values[1..], d, r, less);
      Different(less, keys[0], d);
      assert ([keys[0]] + tail.0)[1..] == tail.0 && ([values[0]] + tail.1)[1..] == tail.1;
    } else if |keys| > 0 && less(d, keys[0]) {
      assert ([d] + keys)[1..] == keys && ([r] + values)[1..] == values;
    } else if |keys| > 0 {
      Same(less, keys[0], d);
      assert ([r] + values[1..])[1..] == values[1..];
    }
  }

  lemma Different(less: Comparison, a: Value, b: Value)
    requires TotalOrder(less) && less(a, b)
    ensures a != b
  {
  }

  lemma Same(less: Comparison, a: Value, b: Value)
    requires TotalOrder(less) && !less(a, b) && !less(b, a)
    ensures a == b
  {
  }

  /** Storing keeps the entries in the order of their keys and adds at most one. */
  lemma {:induction false} StoredAscends(keys: seq<Value>, values: seq<Value>, d: Value, r: Value, less: Comparison)
    requires TotalOrder(less) && |keys| == |values| && Ascending(keys, less)
    ensures var stored := Stored(keys, values, d, r, less).0;
      && Ascending(stored, less) && |keys| <= |stored| <= |keys| + 1
      && forall k :: k in stored ==> k == d || k in keys
  {
    var stored := Stored(keys, values, d, r, less).0;
    if |keys| > 0 && less(keys[0], d) {
      StoredAscends(keys[1..], values[1..], d, r, less);
      FirstBelow(keys[0], stored[1..], less);
    } else if |keys| > 0 && less(d, keys[0]) {
      FirstBelow(d, keys, less);
    }
  }

  lemma FirstBelow(first: Value, rest: seq<Value>, less: Comparison)
    requires Ascending(rest, less) && forall k :: k in rest ==> less(first, k)
    ensures Ascending([first] + rest, less)
  {
  }

  /** A string that is read has exactly the announced number of characters, those behind the number. */
  lemma StringExact(input: seq<Byte>, pos: nat, less: Comparison)
    requires pos <= |input| && DeserializedSize(input, pos).Success?
    ensures var n, next := DeserializedSize(input, pos).value, DeserializedSize(input, pos).next;
      && (next + n > |input| ==> Deserialized(String, input, pos, less) == Failure)
      && (next + n <= |input| ==> Deserialized(String, input, pos, less) == Success(Text(input[next..next + n]), next + n))
  {
    hide DeserializedSize;
  }

  /** The types of numbers are those of one to eight bytes. */
  predicate Widths(t: Shape)
  {
    match t
    case Unsigned(w) => 1 <= w <= 8
    case Signed(w) => 1 <= w <= 8
    case PairOf(a, b) => Widths(a) && Widths(b)
    case VectorOf(e) => Widths(e)
    case MapOf(k, e) => Widths(k) && Widths(e)
    case _ => true
  }

  lemma UnsignedInRange(input: seq<Byte>, pos: nat, w: nat)
    requires w <= 8 && UnpackedUnsigned(input, pos, w).Item?
    ensures InUnsigned(UnpackedUnsigned(input, pos, w).value, w)
  {
    var size := ControlSize(input[pos]);
    BytesNumberBound(input[pos + 1..pos + 1 + size]);
    SpanMonotone(size, w);
  }

  lemma SizeInRange(input: seq<Byte>, pos: nat)
    requires pos <= |input| && DeserializedSize(input, pos).Success?
    ensures Size(DeserializedSize(input, pos).value)
  {
    hide Span;
    UnsignedInRange(input, pos, SIZE_WIDTH);
  }

  /** Whatever is read without failure is a value of the type: numbers in range, maps in the order of their keys. */
  lemma {:induction false} FoundHasShape(t: Shape, input: seq<Byte>, pos: nat, less: Comparison)
    requires pos <= |input| && Widths(t) && TotalOrder(less) && Deserialized(t, input, pos, less).Success?
    ensures HasShape(Deserialized(t, input, pos, less).value, t, less)
    decreases t, 1, 0
  {
    hide TotalOrder, DeserializedSize, UnpackedSigned, UnpackedUnsigned, InSigned, InUnsigned, Size, Stored, Ascending;
    match t {
      case Unsigned(w) => UnsignedInRange(input, pos, w);
      case Signed(w) =>
      case Bool =>
      case String => SizeInRange(input, pos);
      case PairOf(a, b) =>
        FoundHasShape(a, input, pos, less);
        FoundHasShape(b, input, Deserialized(a, input, pos, less).next, less);
      case VectorOf(e) =>
        SizeInRange(input, pos);
        if !e.Bool? {
          var size := DeserializedSize(input, pos);
          FoundItems(t, input, size.next, size.value, less);
        }
      case MapOf(_, _) =>
        SizeInRange(input, pos);
        var size := DeserializedSize(input, pos);
        FoundEntries(t, input, size.next, size.value, less);
        var entries := DeserializedEntries(t, input, size.next, size.value, less);
        if entries.Success? { SmallerSize(|entries.value.0|, size.value); }
    }
  }

  lemma SmallerSize(m: nat, n: nat)
    requires m <= n && Size(n)
    ensures Size(m)
  {
  }

  /** A vector has the announced number of items. */
  lemma {:induction false} FoundItems(t: Shape, input: seq<Byte>, pos: nat, n: nat, less: Comparison)
    requires t.VectorOf? && pos <= |input| && Widths(t) && TotalOrder(less)
    requires DeserializedItems(t, input, pos, n, less).Success?
    ensures var items := DeserializedItems(t, input, pos, n, less).value;
      |items| == n && forall i :: 0 <= i < n ==> HasShape(items[i], t.item, less)
    decreases t, 0, n
  {
    hide TotalOrder, Deserialized, HasShape;
    if n > 0 {
      FoundItems(t, input, pos, n - 1, less);
      FoundHasShape(t.item, input, DeserializedItems(t, input, pos, n - 1, less).next, less);
    }
  }

  /** A map has at most the announced number of entries: a key that comes again replaces its value. */
  lemma {:induction false} FoundEntries(t: Shape, input: seq<Byte>, pos: nat, n: nat, less: Comparison)
    requires t.MapOf? && pos <= |input| && Widths(t) && TotalOrder(less)
    requires DeserializedEntries(t, input, pos, n, less).Success?
    ensures var (keys, values) := DeserializedEntries(t, input, pos, n, less).value;
      && |keys| == |values| <= n && Ascending(keys, less)
      && (forall k :: k in keys ==> HasShape(k, t.key, less)) && (forall v :: v in values ==> HasShape(v, t.value, less))
    decreases t, 0, n
  {
    hide TotalOrder, Deserialized, HasShape, Stored, Ascending;
    if n == 0 {
      NothingAscends(less);
    } else {
      FoundEntries(t, input, pos, n - 1, less);
      var before := DeserializedEntries(t, input, pos, n - 1, less);
      var d := Deserialized(t.key, input, before.next, less);
      FoundHasShape(t.key, input, before.next, less);
      FoundHasShape(t.value, input, d.next, less);
      StoredAscends(before.value.0, before.value.1, d.value, Deserialized(t.value, input, d.next, less).value, less);
      StoredValues(before.value.0, before.value.1, d.value, Deserialized(t.value, input, d.next, less).value, less);
    }
  }

  lemma NothingAscends(less: Comparison)
    ensures Ascending([], less)
  {
  }

  lemma {:induction false} StoredValues(keys: seq<Value>, values: seq<Value>, d: Value, r: Value, less: Comparison)
    requires |keys| == |values|
    ensures forall v :: v in Stored(keys, values, d, r, less).1 ==> v == r || v in values
  {
    if |keys| > 0 && less(keys[0], d) { StoredValues(keys[1..], values[1..], d, r, less); }
  }
}
