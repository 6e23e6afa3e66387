/** Serializing pairs, vectors, maps, strings and the numbers and flags in them, nested to any depth. */
module Serialization {
  import opened IntegerFormat

  datatype Value =
    | Number(n: int)
    | Flag(b: bool)
    | Text(chars: seq<Byte>)
    | Pair(first: Value, second: Value)
    | Vector(items: seq<Value>)
    // The entries of a map in the order of its keys.
    | Map(keys: seq<Value>, values: seq<Value>)

  /** The type an object is declared with. */
  datatype Shape =
    | Unsigned(width: nat)
    | Signed(width: nat)
    | Bool
    | String
    | PairOf(fst: Shape, snd: Shape)
    | VectorOf(item: Shape)
    | MapOf(key: Shape, value: Shape)

  /** The comparison a map is sorted by. */
  type Comparison = (Value, Value) -> bool

  const TRUE_CHAR: Byte := 49
  const FALSE_CHAR: Byte := 48

  /** The width of the type that sizes are serialized with. */
  const SIZE_WIDTH: nat := 8

  predicate Size(n: nat)
  {
    n < Span(SIZE_WIDTH)
  }

  ghost predicate Ascending(keys: seq<Value>, less: Comparison)
  {
    forall i, j :: 0 <= i < j < |keys| ==> less(keys[i], keys[j])
  }

  /** The value is one that an object of this type can have. */
  ghost predicate HasShape(v: Value, t: Shape, less: Comparison)
  {
    match t
    case Unsigned(w) => v.Number? && 1 <= w <= 8 && InUnsigned(v.n, w)
    case Signed(w) => v.Number? && 1 <= w <= 8 && InSigned(v.n, w)
    case Bool => v.Flag?
    case String => v.Text? && Size(|v.chars|)
    case PairOf(a, b) => v.Pair? && HasShape(v.first, a, less) && HasShape(v.second, b, less)
    case VectorOf(e) => v.Vector? && Size(|v.items|) && forall i :: 0 <= i < |v.items| ==> HasShape(v.items[i], e, less)
    case MapOf(k, e) =>
      && v.Map? && Size(|v.keys|) && |v.values| == |v.keys| && Ascending(v.keys, less)
      && (forall i :: 0 <= i < |v.keys| ==> HasShape(v.keys[i], k, less))
      && (forall i :: 0 <= i < |v.values| ==> HasShape(v.values[i], e, less))
  }

  /** Numbers and sizes are not too big for the format. */
  predicate Serializable(v: Value)
  {
    match v
    case Number(n) => Magnitude(n) < Span(8)
    case Flag(b) => true
    case Text(chars) => Size(|chars|)
    case Pair(a, b) => Serializable(a) && Serializable(b)
    case Vector(items) => Size(|items|) && forall i :: 0 <= i < |items| ==> Serializable(items[i])
    case Map(keys, values) =>
      && Size(|keys|) && |values| == |keys|
      && (forall i :: 0 <= i < |keys| ==> Serializable(keys[i]))
      && (forall i :: 0 <= i < |values| ==> Serializable(values[i]))
  }

  lemma {:induction false} ShapedSerializable(v: Value, t: Shape, less: Comparison)
    requires HasShape(v, t, less)
    ensures Serializable(v)
    decreases v
  {
    match t {
      case Unsigned(w) => SpanMonotone(w, 8);
      case Signed(w) => SpanMonotone(w, 8);
      case Bool =>
      case String =>
      case PairOf(a, b) =>
        ShapedSerializable(v.first, a, less);
        ShapedSerializable(v.second, b, less);
      case VectorOf(e) =>
        forall i | 0 <= i < |v.items|
          ensures Serializable(v.items[i])
        {
          ShapedSerializable(v.items[i], e, less);
        }
      case MapOf(k, e) =>
        forall i | 0 <= i < |v.keys|
          ensures Serializable(v.keys[i]) && Serializable(v.values[i])
        {
          ShapedSerializable(v.keys[i], k, less);
          ShapedSerializable(v.values[i], e, less);
        }
    }
  }

  /** The serialized form of a value. */
  function Serialized(v: Value): seq<Byte>
    requires Serializable(v)
    decreases v, 0
  {
    match v
    case Number(n) => Packed(n)
    case Flag(b) => [if b then TRUE_CHAR else FALSE_CHAR]
    case Text(chars) => Packed(|chars|) + chars
    case Pair(a, b) => Serialized(a) + Serialized(b)
    case Vector(items) => Packed(|items|) + SerializedItems(v, |items|)
    case Map(keys, values) => Packed(|keys|) + SerializedEntries(v, |keys|)
  }

  /** The first k items of a vector. */
  function SerializedItems(v: Value, k: nat): seq<Byte>
    requires v.Vector? && Serializable(v) && k <= |v.items|
    decreases v, 0, k
  {
    if k == 0 then [] else SerializedItems(v, k - 1) + Serialized(v.items[k - 1])
  }

  /** The first k entries of a map. */
  function SerializedEntries(v: Value, k: nat): seq<Byte>
    requires v.Map? && Serializable(v) && k <= |v.keys|
    decreases v, 0, k
  {
    if k == 0 then []
    else SerializedEntries(v, k - 1) + Serialized(v.keys[k - 1]) + Serialized(v.values[k - 1])
  }

  /** Undefined stands for a control byte without bytes, after which unpack_int runs past its buffer. */
  datatype Outcome<T> = Success(value: T, next: nat) | Failure | Undefined

  /** Storing a value under a key, as indexing a map does. */
  function Stored(keys: seq<Value>, values: seq<Value>, d: Value, r: Value, less: Comparison): (m: (seq<Value>, seq<Value>))
    requires |keys| == |values|
    ensures |m.0| == |m.1|
  {
    if |keys| == 0 then ([d], [r])
    else if less(keys[0], d) then
      var (k, v) := Stored(keys[1..], values[1..], d, r, less);
      ([keys[0]] + k, [values[0]] + v)
    else if less(d, keys[0]) then ([d] + keys, [r] + values)
    else (keys, [r] + values[1..])
  }

  /** A key that comes after all others is added behind them. */
  lemma {:induction false} StoredLast(keys: seq<Value>, values: seq<Value>, d: Value, r: Value, less: Comparison)
    requires |keys| == |values| && Ascending(keys + [d], less)
    ensures Stored(keys, values, d, r, less) == (keys + [d], values + [r])
  {
    if |keys| == 0 {
      assert keys + [d] == [d] && values + [r] == [r];
    } else {
      var all := keys + [d];
      assert less(all[0], all[|keys|]);
      assert Ascending(keys[1..] + [d], less) by {
        assert keys[1..] + [d] == all[1..];
      }
      StoredLast(keys[1..], values[1..], d, r, less);
      assert [keys[0]] + (keys[1..] + [d]) == keys + [d] && [values[0]] + (values[1..] + [r]) == values + [r];
    }
  }

  /** Reading a size. */
  function DeserializedSize(input: seq<Byte>, pos: nat): (r: Outcome<nat>)
    requires pos <= |input|
    ensures r.Success? ==> r.next <= |input|
  {
    if pos < |input| && ControlSize(input[pos]) == 0 then Undefined
    else match UnpackedUnsigned(input, pos, SIZE_WIDTH)
      case Failed => Failure
      case Item(n, next) => Success(n, next)
  }

  /** The n flags at a position: every byte but one is false, and so is what the stream has no byte for. */
  function FlagsAt(input: seq<Byte>, pos: nat, n: nat): (flags: seq<Value>)
    ensures |flags| == n
  {
    seq(n, i requires 0 <= i < n => Flag(pos + i < |input| && input[pos + i] == TRUE_CHAR))
  }

  /** Where n bytes at a position end, or the stream does. */
  function FlagsEnd(input: seq<Byte>, pos: nat, n: nat): (end: nat)
    requires pos <= |input|
    ensures pos <= end <= |input|
  {
    if pos + n <= |input| then pos + n else |input|
  }

  /** A vector of flags is read as a vector of bytes, without the checks made for a single flag. */
  function DeserializedFlags(input: seq<Byte>, pos: nat): (r: Outcome<Value>)
    requires pos <= |input|
    ensures r.Success? ==> r.next <= |input|
  {
    match DeserializedSize(input, pos)
    case Failure => Failure
    case Undefined => Undefined
    case Success(n, next) => Success(Vector(FlagsAt(input, next, n)), FlagsEnd(input, next, n))
  }

  /** What deserializing an object of a type finds at a position of the stream. */
  function Deserialized(t: Shape, input: seq<Byte>, pos: nat, less: Comparison): (r: Outcome<Value>)
    requires pos <= |input|
    ensures r.Success? ==> r.next <= |input|
    decreases t, 1, 0
  {
    match t
    case Unsigned(w) =>
      if pos < |input| && ControlSize(input[pos]) == 0 then Undefined
      else (match UnpackedUnsigned(input, pos, w)
        case Failed => Failure
        case Item(n, next) => Success(Number(n), next))
    case Signed(w) =>
      if w == 0 || (pos < |input| && input[pos] % 16 == 0) then Undefined
      else (match UnpackedSigned(input, pos, w)
        case Failed => Failure
        case Item(n, next) => Success(Number(n), next))
    case Bool =>
      if pos == |input| then Failure
      else if input[pos] == TRUE_CHAR then Success(Flag(true), pos + 1)
      else if input[pos] == FALSE_CHAR then Success(Flag(false), pos + 1)
      else Failure
    case String =>
      (match DeserializedSize(input, pos)
        case Failure => Failure
        case Undefined => Undefined
        case Success(n, next) =>
          if next + n > |input| then Failure else Success(Text(input[next..next + n]), next + n))
    case PairOf(a, b) =>
      (match Deserialized(a, input, pos, less)
        case Failure => Failure
        case Undefined => Undefined
        case Success(first, next) =>
          match Deserialized(b, input, next, less)
          case Failure => Failure
          case Undefined => Undefined
          case Success(second, end) => Success(Pair(first, second), end))
    case VectorOf(e) =>
      if e.Bool? then DeserializedFlags(input, pos)
      else (match DeserializedSize(input, pos)
        case Failure => Failure
        case Undefined => Undefined
        case Success(n, next) =>
          match DeserializedItems(t, input, next, n, less)
          case Failure => Failure
          case Undefined => Undefined
          case Success(items, end) => Success(Vector(items), end))
    case MapOf(_, _) =>
      (match DeserializedSize(input, pos)
        case Failure => Failure
        case Undefined => Undefined
        case Success(n, next) =>
          match DeserializedEntries(t, input, next, n, less)
          case Failure => Failure
          case Undefined => Undefined
          case Success(entries, end) => Success(Map(entries.0, entries.1), end))
  }

  /** The first n items of a vector. */
  function DeserializedItems(t: Shape, input: seq<Byte>, pos: nat, n: nat, less: Comparison): (r: Outcome<seq<Value>>)
    requires t.VectorOf? && pos <= |input|
    ensures r.Success? ==> r.next <= |input|
    decreases t, 0, n
  {
    if n == 0 then Success([], pos)
    else match DeserializedItems(t, input, pos, n - 1, less)
      case Failure => Failure
      case Undefined => Undefined
      case Success(items, next) =>
        match Deserialized(t.item, input, next, less)
        case Failure => Failure
        case Undefined => Undefined
        case Success(v, end) => Success(items + [v], end)
  }

  /** The first n entries of a map, each stored as it is read. */
  function DeserializedEntries(t: Shape, input: seq<Byte>, pos: nat, n: nat, less: Comparison)
    : (r: Outcome<(seq<Value>, seq<Value>)>)
    requires t.MapOf? && pos <= |input|
    ensures r.Success? ==> r.next <= |input| && |r.value.0| == |r.value.1|
    decreases t, 0, n
  {
    if n == 0 then Success(([], []), pos)
    else match DeserializedEntries(t, input, pos, n - 1, less)
      case Failure => Failure
      case Undefined => Undefined
      case Success(entries, next) =>
        match Deserialized(t.key, input, next, less)
        case Failure => Failure
        case Undefined => Undefined
        case Success(d, middle) =>
          match Deserialized(t.value, input, middle, less)
          case Failure => Failure
          case Undefined => Undefined
          case Success(e, end) => Success(Stored(entries.0, entries.1, d, e, less), end)
  }

  /** The input has these bytes at a position. */
  ghost predicate HasAt(input: seq<Byte>, pos: nat, bytes: seq<Byte>)
  {
    pos + |bytes| <= |input| && input[pos..pos + |bytes|] == bytes
  }

  lemma HasParts(input: seq<Byte>, pos: nat, a: seq<Byte>, b: seq<Byte>)
    requires HasAt(input, pos, a + b)
    ensures HasAt(input, pos, a) && HasAt(input, pos + |a|, b)
  {
    var whole := input[pos..pos + |a + b|];
    assert input[pos..pos + |a|] == whole[..|a|] && input[pos + |a|..pos + |a| + |b|] == whole[|a|..];
  }

  lemma UnsignedAt(input: seq<Byte>, pos: nat, v: int, w: nat)
    requires 1 <= w <= 8 && Magnitude(v) < Span(8) && InUnsigned(v, w) && HasAt(input, pos, Packed(v))
    ensures pos < |input| && ControlSize(input[pos]) != 0
    ensures UnpackedUnsigned(input, pos, w) == Item(v, pos + |Packed(v)|)
  {
    PackedParts(input, pos, v);
    UnsignedRoundTrip(input, pos, v, w);
  }

  lemma SignedAt(input: seq<Byte>, pos: nat, v: int, w: nat)
    requires 1 <= w <= 8 && Magnitude(v) < Span(8) && InSigned(v, w) && HasAt(input, pos, Packed(v))
    ensures pos < |input| && input[pos] % 16 != 0
    ensures UnpackedSigned(input, pos, w) == Item(v, pos + |Packed(v)|)
  {
    PackedParts(input, pos, v);
    SignedRoundTrip(input, pos, v, w);
  }

  lemma SizeAt(input: seq<Byte>, pos: nat, n: nat)
    requires pos <= |input| && Size(n) && HasAt(input, pos, Packed(n))
    ensures DeserializedSize(input, pos) == Success(n, pos + |Packed(n)|)
  {
    UnsignedAt(input, pos, n, SIZE_WIDTH);
  }

  lemma PairStep(t: Shape, input: seq<Byte>, pos: nat, less: Comparison, first: Value, middle: nat, second: Value, end: nat)
    requires t.PairOf? && pos <= |input| && middle <= |input|
    requires Deserialized(t.fst, input, pos, less) == Success(first, middle)
    requires Deserialized(t.snd, input, middle, less) == Success(second, end)
    ensures Deserialized(t, input, pos, less) == Success(Pair(first, second), end)
  {
  }

  lemma VectorStep(t: Shape, input: seq<Byte>, pos: nat, less: Comparison, n: nat, next: nat, items: seq<Value>, end: nat)
    requires t.VectorOf? && !t.item.Bool? && pos <= |input| && next <= |input|
    requires DeserializedSize(input, pos) == Success(n, next)
    requires DeserializedItems(t, input, next, n, less) == Success(items, end)
    ensures Deserialized(t, input, pos, less) == Success(Vector(items), end)
  {
    hide DeserializedSize, DeserializedItems;
  }

  lemma MapStep(t: Shape, input: seq<Byte>, pos: nat, less: Comparison, n: nat, next: nat,
                entries: (seq<Value>, seq<Value>), end: nat)
    requires t.MapOf? && pos <= |input| && next <= |input| && DeserializedSize(input, pos) == Success(n, next)
    requires DeserializedEntries(t, input, next, n, less) == Success(entries, end)
    ensures Deserialized(t, input, pos, less) == Success(Map(entries.0, entries.1), end)
  {
    hide DeserializedSize, DeserializedEntries;
  }

  lemma ItemsStep(t: Shape, input: seq<Byte>, pos: nat, n: nat, less: Comparison, items: seq<Value>, next: nat,
                  v: Value, end: nat)
    requires t.VectorOf? && n > 0 && pos <= |input| && next <= |input|
    requires DeserializedItems(t, input, pos, n - 1, less) == Success(items, next)
    requires Deserialized(t.item, input, next, less) == Success(v, end)
    ensures DeserializedItems(t, input, pos, n, less) == Success(items + [v], end)
  {
    hide Deserialized;
  }

  lemma EntriesStep(t: Shape, input: seq<Byte>, pos: nat, n: nat, less: Comparison,
                    entries: (seq<Value>, seq<Value>), next: nat, d: Value, middle: nat, e: Value, end: nat)
    requires t.MapOf? && n > 0 && pos <= |input| && next <= |input| && middle <= |input| && |entries.0| == |entries.1|
    requires DeserializedEntries(t, input, pos, n - 1, less) == Success(entries, next)
    requires Deserialized(t.key, input, next, less) == Success(d, middle)
    requires Deserialized(t.value, input, middle, less) == Success(e, end)
    ensures DeserializedEntries(t, input, pos, n, less) == Success(Stored(entries.0, entries.1, d, e, less), end)
  {
    hide Deserialized, Stored;
  }

  lemma PairParts(v: Value, t: Shape, less: Comparison)
    requires t.PairOf? && HasShape(v, t, less) && Serializable(v)
    ensures v.Pair? && HasShape(v.first, t.fst, less) && HasShape(v.second, t.snd, less)
    ensures Serializable(v.first) && Serializable(v.second)
    ensures Serialized(v) == Serialized(v.first) + Serialized(v.second)
  {
  }

  lemma VectorParts(v: Value, t: Shape, less: Comparison)
    requires t.VectorOf? && HasShape(v, t, less) && Serializable(v)
    ensures v.Vector? && Size(|v.items|) && Magnitude(|v.items|) < Span(8)
    ensures Serialized(v) == Packed(|v.items|) + SerializedItems(v, |v.items|)
  {
    hide SerializedItems, Packed, Span;
  }

  lemma MapParts(v: Value, t: Shape, less: Comparison)
    requires t.MapOf? && HasShape(v, t, less) && Serializable(v)
    ensures v.Map? && |v.values| == |v.keys| && Size(|v.keys|) && Magnitude(|v.keys|) < Span(8)
    ensures Serialized(v) == Packed(|v.keys|) + SerializedEntries(v, |v.keys|)
  {
    hide SerializedEntries, Packed, Span;
  }

  /** Deserializing undoes serializing, at any position of any stream and for any nesting of types. */
  lemma {:induction false} RoundTrip(v: Value, t: Shape, input: seq<Byte>, pos: nat, less: Comparison)
    requires HasShape(v, t, less) && Serializable(v) && HasAt(input, pos, Serialized(v))
    ensures pos <= |input| && Deserialized(t, input, pos, less) == Success(v, pos + |Serialized(v)|)
    decreases v, 1, 1
  {
    hide *;
    if t.PairOf? {
      PairParts(v, t, less);
      HasParts(input, pos, Serialized(v.first), Serialized(v.second));
      RoundTrip(v.first, t.fst, input, pos, less);
      RoundTrip(v.second, t.snd, input, pos + |Serialized(v.first)|, less);
      PairStep(t, input, pos, less, v.first, pos + |Serialized(v.first)|, v.second, pos + |Serialized(v)|);
    } else if t.VectorOf? && t.item.Bool? {
      FlagsRoundTrip(v, t, input, pos, less);
    } else if t.VectorOf? {
      VectorRoundTrip(v, t, input, pos, less);
    } else if t.MapOf? {
      MapRoundTrip(v, t, input, pos, less);
    } else {
      ScalarRoundTrip(v, t, input, pos, less);
    }
  }

  lemma {:induction false} FlagBytes(v: Value, t: Shape, k: nat, less: Comparison)
    requires t.VectorOf? && t.item.Bool? && HasShape(v, t, less) && Serializable(v) && k <= |v.items|
    ensures |SerializedItems(v, k)| == k && FlagsAt(SerializedItems(v, k), 0, k) == v.items[..k]
    ensures forall i :: 0 <= i < k ==> v.items[i].Flag?
    ensures forall i :: 0 <= i < k ==> SerializedItems(v, k)[i] == if v.items[i].b then TRUE_CHAR else FALSE_CHAR
    decreases k
  {
    if k > 0 { FlagBytes(v, t, k - 1, less); }
  }

  lemma FlagsIn(input: seq<Byte>, pos: nat, bytes: seq<Byte>)
    requires HasAt(input, pos, bytes)
    ensures FlagsAt(input, pos, |bytes|) == FlagsAt(bytes, 0, |bytes|)
  {
    forall i | 0 <= i < |bytes|
      ensures input[pos + i] == bytes[i]
    {
      assert input[pos..pos + |bytes|][i] == bytes[i];
    }
  }

  lemma FlagsRoundTrip(v: Value, t: Shape, input: seq<Byte>, pos: nat, less: Comparison)
    requires t.VectorOf? && t.item.Bool? && HasShape(v, t, less) && Serializable(v) && HasAt(input, pos, Serialized(v))
    ensures pos <= |input| && Deserialized(t, input, pos, less) == Success(v, pos + |Serialized(v)|)
  {
    hide Packed, Span, Magnitude, SerializedItems, DeserializedSize, FlagsAt, HasShape, Serializable, Serialized;
    VectorParts(v, t, less);
    var n, all := |v.items|, SerializedItems(v, |v.items|);
    HasParts(input, pos, Packed(n), all);
    SizeAt(input, pos, n);
    FlagBytes(v, t, n, less);
    FlagsIn(input, pos + |Packed(n)|, all);
    assert v.items[..n] == v.items;
  }

  /** A vector of flags takes any byte other than that of true as false; a single flag rejects all but two. */
  lemma FlagsAreLenient(input: seq<Byte>, pos: nat, n: nat, next: nat, i: nat, less: Comparison)
    requires pos <= |input| && DeserializedSize(input, pos) == Success(n, next) && i < n
    ensures var found := Deserialized(VectorOf(Bool), input, pos, less);
      found.Success? && found.value.Vector? && |found.value.items| == n
      && found.value.items[i] == Flag(next + i < |input| && input[next + i] == '1' as int)
      && found.next == if next + n <= |input| then next + n else |input|
    ensures next + i < |input| ==> (Deserialized(Bool, input, next + i, less) == Failure
      <==> input[next + i] != '1' as int && input[next + i] != '0' as int)
  {
    hide DeserializedSize;
    var found := Deserialized(VectorOf(Bool), input, pos, less);
    assert found == DeserializedFlags(input, pos) && found.value == Vector(FlagsAt(input, next, n));
  }

  lemma {:induction false} VectorRoundTrip(v: Value, t: Shape, input: seq<Byte>, pos: nat, less: Comparison)
    requires t.VectorOf? && !t.item.Bool? && HasShape(v, t, less) && Serializable(v) && HasAt(input, pos, Serialized(v))
    ensures pos <= |input| && Deserialized(t, input, pos, less) == Success(v, pos + |Serialized(v)|)
    decreases v, 1, 0
  {
    hide *;
    VectorParts(v, t, less);
    var n, all := |v.items|, SerializedItems(v, |v.items|);
    HasParts(input, pos, Packed(n), all);
    SizeAt(input, pos, n);
    ItemsRoundTrip(v, t, input, pos + |Packed(n)|, n, less);
    assert v.items[..n] == v.items;
    VectorStep(t, input, pos, less, n, pos + |Packed(n)|, v.items, pos + |Packed(n)| + |all|);
  }

  lemma {:induction false} MapRoundTrip(v: Value, t: Shape, input: seq<Byte>, pos: nat, less: Comparison)
    requires t.MapOf? && HasShape(v, t, less) && Serializable(v) && HasAt(input, pos, Serialized(v))
    ensures pos <= |input| && Deserialized(t, input, pos, less) == Success(v, pos + |Serialized(v)|)
    decreases v, 1, 0
  {
    hide *;
    MapParts(v, t, less);
    var n, all := |v.keys|, SerializedEntries(v, |v.keys|);
    HasParts(input, pos, Packed(n), all);
    SizeAt(input, pos, n);
    EntriesRoundTrip(v, t, input, pos + |Packed(n)|, n, less);
    assert v.keys[..n] == v.keys && v.values[..n] == v.values;
    MapStep(t, input, pos, less, n, pos + |Packed(n)|, (v.keys, v.values), pos + |Packed(n)| + |all|);
  }

  lemma ScalarRoundTrip(v: Value, t: Shape, input: seq<Byte>, pos: nat, less: Comparison)
    requires HasShape(v, t, less) && Serializable(v) && HasAt(input, pos, Serialized(v))
    requires !t.PairOf? && !t.VectorOf? && !t.MapOf?
    ensures pos <= |input| && Deserialized(t, input, pos, less) == Success(v, pos + |Serialized(v)|)
  {
    hide Ascending, UnpackedSigned, UnpackedUnsigned, DeserializedSize, InSigned, InUnsigned;
    match t {
      case Unsigned(w) => UnsignedAt(input, pos, v.n, w);
      case Signed(w) => SignedAt(input, pos, v.n, w);
      case Bool => assert input[pos] == input[pos..pos + 1][0];
      case String =>
        HasParts(input, pos, Packed(|v.chars|), v.chars);
        SizeAt(input, pos, |v.chars|);
    }
  }

  lemma LastItem(v: Value, t: Shape, k: nat, less: Comparison)
    requires t.VectorOf? && HasShape(v, t, less) && Serializable(v) && 0 < k <= |v.items|
    ensures HasShape(v.items[k - 1], t.item, less) && Serializable(v.items[k - 1])
    ensures SerializedItems(v, k) == SerializedItems(v, k - 1) + Serialized(v.items[k - 1])
    ensures v.items[..k] == v.items[..k - 1] + [v.items[k - 1]]
  {
    hide Serialized, Size;
  }

  lemma LastEntry(v: Value, t: Shape, k: nat, less: Comparison)
    requires t.MapOf? && HasShape(v, t, less) && Serializable(v) && 0 < k <= |v.keys|
    ensures |v.values| == |v.keys|
    ensures HasShape(v.keys[k - 1], t.key, less) && Serializable(v.keys[k - 1])
    ensures HasShape(v.values[k - 1], t.value, less) && Serializable(v.values[k - 1])
    ensures SerializedEntries(v, k)
         == SerializedEntries(v, k - 1) + Serialized(v.keys[k - 1]) + Serialized(v.values[k - 1])
    ensures v.keys[..k] == v.keys[..k - 1] + [v.keys[k - 1]] && v.values[..k] == v.values[..k - 1] + [v.values[k - 1]]
    ensures Ascending(v.keys[..k - 1] + [v.keys[k - 1]], less)
  {
    hide Serialized, Size;
  }

  lemma NoItems(v: Value, t: Shape, input: seq<Byte>, pos: nat, less: Comparison)
    requires t.VectorOf? && HasShape(v, t, less) && Serializable(v) && HasAt(input, pos, SerializedItems(v, 0))
    ensures pos <= |input| && v.Vector?
    ensures DeserializedItems(t, input, pos, 0, less) == Success(v.items[..0], pos + |SerializedItems(v, 0)|)
  {
    hide Serialized, Deserialized;
  }

  lemma NoEntries(v: Value, t: Shape, input: seq<Byte>, pos: nat, less: Comparison)
    requires t.MapOf? && HasShape(v, t, less) && Serializable(v) && HasAt(input, pos, SerializedEntries(v, 0))
    ensures pos <= |input| && v.Map? && |v.values| == |v.keys|
    ensures DeserializedEntries(t, input, pos, 0, less)
         == Success((v.keys[..0], v.values[..0]), pos + |SerializedEntries(v, 0)|)
  {
    hide Serialized, Deserialized;
  }

  lemma {:induction false} ItemsRoundTrip(v: Value, t: Shape, input: seq<Byte>, pos: nat, k: nat, less: Comparison)
    requires t.VectorOf? && HasShape(v, t, less) && Serializable(v)
    requires v.Vector? && k <= |v.items| && HasAt(input, pos, SerializedItems(v, k))
    ensures pos <= |input|
    ensures DeserializedItems(t, input, pos, k, less) == Success(v.items[..k], pos + |SerializedItems(v, k)|)
    decreases v, 0, k
  {
    hide *;
    if k == 0 {
      NoItems(v, t, input, pos, less);
    } else {
      LastItem(v, t, k, less);
      var before, last := SerializedItems(v, k - 1), v.items[k - 1];
      HasParts(input, pos, before, Serialized(last));
      ItemsRoundTrip(v, t, input, pos, k - 1, less);
      RoundTrip(last, t.item, input, pos + |before|, less);
      ItemsStep(t, input, pos, k, less, v.items[..k - 1], pos + |before|, last, pos + |SerializedItems(v, k)|);
    }
  }

  lemma {:induction false} EntriesRoundTrip(v: Value, t: Shape, input: seq<Byte>, pos: nat, k: nat, less: Comparison)
    requires t.MapOf? && HasShape(v, t, less) && Serializable(v)
    requires v.Map? && k <= |v.keys| && HasAt(input, pos, SerializedEntries(v, k))
    ensures pos <= |input| && k <= |v.values|
    ensures DeserializedEntries(t, input, pos, k, less)
         == Success((v.keys[..k], v.values[..k]), pos + |SerializedEntries(v, k)|)
    decreases v, 0, k
  {
    hide *;
    if k == 0 {
      NoEntries(v, t, input, pos, less);
    } else {
      LastEntry(v, t, k, less);
      var before, d, e := SerializedEntries(v, k - 1), v.keys[k - 1], v.values[k - 1];
      HasParts(input, pos, before + Serialized(d), Serialized(e));
      HasParts(input, pos, before, Serialized(d));
      EntriesRoundTrip(v, t, input, pos, k - 1, less);
      RoundTrip(d, t.key, input, pos + |before|, less);
      RoundTrip(e, t.value, input, pos + |before| + |Serialized(d)|, less);
      StoredLast(v.keys[..k - 1], v.values[..k - 1], d, e, less);
      EntriesStep(t, input, pos, k, less, (v.keys[..k - 1], v.values[..k - 1]), pos + |before|, d,
                  pos + |before| + |Serialized(d)|, e, pos + |SerializedEntries(v, k)|);
    }
  }

  /** Serializes an object of a type. */
  method Serialize(v: Value, t: Shape, ghost less: Comparison) returns (out: seq<Byte>)
    requires HasShape(v, t, less)
    ensures Serializable(v) && out == Serialized(v)
    decreases v
  {
    ShapedSerializable(v, t, less);
    match t {
      case Unsigned(w) => out := PackUnsigned(v.n, w);
      case Signed(w) => out := PackSigned(v.n, w);
      case Bool => out := [if v.b then TRUE_CHAR else FALSE_CHAR];
      case String =>
        out := PackUnsigned(|v.chars|, SIZE_WIDTH);
        out := out + v.chars;
      case PairOf(a, b) =>
        out := Serialize(v.first, a, less);
        var second := Serialize(v.second, b, less);
        out := out + second;
      case VectorOf(e) => if e.Bool? { out := SerializeFlags(v, t, less); } else { out := SerializeVector(v, t, less); }
      case MapOf(_, _) => out := SerializeMap(v, t, less);
    }
  }

  /** A vector of flags is written as a vector of bytes. */
  method SerializeFlags(v: Value, t: Shape, ghost less: Comparison) returns (out: seq<Byte>)
    requires t.VectorOf? && t.item.Bool? && HasShape(v, t, less) && Serializable(v)
    ensures out == Serialized(v)
    decreases v, 0
  {
    VectorParts(v, t, less);
    FlagBytes(v, t, |v.items|, less);
    hide *;
    var temp: seq<Byte> := [];
    var i := 0;
    while i < |v.items|
      invariant 0 <= i == |temp| <= |v.items|
      invariant forall j :: 0 <= j < i ==> temp[j] == if v.items[j].b then TRUE_CHAR else FALSE_CHAR
    {
      temp := temp + [if v.items[i].b then TRUE_CHAR else FALSE_CHAR];
      i := i + 1;
    }
    assert temp == SerializedItems(v, |v.items|);
    var size := PackSize(|v.items|);
    out := size + temp;
  }

  method SerializeVector(v: Value, t: Shape, ghost less: Comparison) returns (out: seq<Byte>)
    requires t.VectorOf? && HasShape(v, t, less) && Serializable(v)
    ensures out == Serialized(v)
    decreases v, 0
  {
    hide *;
    VectorParts(v, t, less);
    var size := PackSize(|v.items|);
    out := size;
    var i := 0;
    NothingYet(v, size);
    while i < |v.items|
      invariant 0 <= i <= |v.items| && out == size + SerializedItems(v, i)
    {
      LastItem(v, t, i + 1, less);
      var item := Serialize(v.items[i], t.item, less);
      out := out + item;
      i := i + 1;
    }
  }

  method SerializeMap(v: Value, t: Shape, ghost less: Comparison) returns (out: seq<Byte>)
    requires t.MapOf? && HasShape(v, t, less) && Serializable(v)
    ensures out == Serialized(v)
    decreases v, 0
  {
    hide *;
    MapParts(v, t, less);
    var size := PackSize(|v.keys|);
    out := size;
    var i := 0;
    NothingYet(v, size);
    while i < |v.keys|
      invariant 0 <= i <= |v.keys| && out == size + SerializedEntries(v, i)
    {
      LastEntry(v, t, i + 1, less);
      var key := Serialize(v.keys[i], t.key, less);
      out := out + key;
      var value := Serialize(v.values[i], t.value, less);
      out := out + value;
      i := i + 1;
    }
  }

  method PackSize(n: nat) returns (out: seq<Byte>)
    requires Size(n)
    ensures Magnitude(n) < Span(8) && out == Packed(n)
  {
    out := PackUnsigned(n, SIZE_WIDTH);
  }

  lemma NothingYet(v: Value, size: seq<Byte>)
    requires Serializable(v)
    ensures v.Vector? ==> size + SerializedItems(v, 0) == size
    ensures v.Map? ==> size + SerializedEntries(v, 0) == size
  {
  }

  predicate WellTyped(t: Shape)
  {
    match t
    case Unsigned(w) => 1 <= w <= 8
    case Signed(w) => 1 <= w <= 8
    case Bool => true
    case String => true
    case PairOf(a, b) => WellTyped(a) && WellTyped(b)
    case VectorOf(e) => WellTyped(e)
    case MapOf(k, e) => WellTyped(k) && WellTyped(e)
  }

  /** An item that cannot be read stops the reading of the vector. */
  lemma {:induction false} ItemsStop(t: Shape, input: seq<Byte>, pos: nat, k: nat, n: nat, less: Comparison)
    requires t.VectorOf? && pos <= |input| && k <= n && !DeserializedItems(t, input, pos, k, less).Success?
    ensures DeserializedItems(t, input, pos, n, less) == DeserializedItems(t, input, pos, k, less)
    decreases n - k
  {
    hide Deserialized;
    if k < n { ItemsStop(t, input, pos, k + 1, n, less); }
  }

  lemma ItemRead(t: Shape, input: seq<Byte>, pos: nat, k: nat, n: nat, less: Comparison, items: seq<Value>, next: nat)
    requires t.VectorOf? && pos <= |input| && k < n && next <= |input|
    requires DeserializedItems(t, input, pos, k, less) == Success(items, next)
    requires DeserializedItems(t, input, pos, n, less) != Undefined
    ensures var r := Deserialized(t.item, input, next, less);
      && r != Undefined
      && (r == Failure ==> DeserializedItems(t, input, pos, n, less) == Failure)
      && (r.Success? ==> DeserializedItems(t, input, pos, k + 1, less) == Success(items + [r.value], r.next))
  {
    hide Deserialized;
    if !DeserializedItems(t, input, pos, k + 1, less).Success? { ItemsStop(t, input, pos, k + 1, n, less); }
  }

  lemma {:induction false} EntriesStop(t: Shape, input: seq<Byte>, pos: nat, k: nat, n: nat, less: Comparison)
    requires t.MapOf? && pos <= |input| && k <= n && !DeserializedEntries(t, input, pos, k, less).Success?
    ensures DeserializedEntries(t, input, pos, n, less) == DeserializedEntries(t, input, pos, k, less)
    decreases n - k
  {
    hide Deserialized, Stored;
    if k < n { EntriesStop(t, input, pos, k + 1, n, less); }
  }

  lemma EntryRead(t: Shape, input: seq<Byte>, pos: nat, k: nat, n: nat, less: Comparison,
                  keys: seq<Value>, values: seq<Value>, next: nat)
    requires t.MapOf? && pos <= |input| && k < n && next <= |input| && |keys| == |values|
    requires DeserializedEntries(t, input, pos, k, less) == Success((keys, values), next)
    requires DeserializedEntries(t, input, pos, n, less) != Undefined
    ensures var d := Deserialized(t.key, input, next, less);
      && d != Undefined
      && (d == Failure ==> DeserializedEntries(t, input, pos, n, less) == Failure)
      && (d.Success? ==>
            var e := Deserialized(t.value, input, d.next, less);
            && e != Undefined
            && (e == Failure ==> DeserializedEntries(t, input, pos, n, less) == Failure)
            && (e.Success? ==> DeserializedEntries(t, input, pos, k + 1, less)
                               == Success(Stored(keys, values, d.value, e.value, less), e.next)))
  {
    hide Deserialized, Stored;
    if !DeserializedEntries(t, input, pos, k + 1, less).Success? { EntriesStop(t, input, pos, k + 1, n, less); }
  }

  method ReadSize(input: seq<Byte>, pos: nat) returns (r: Outcome<nat>)
    requires pos <= |input| && DeserializedSize(input, pos) != Undefined
    ensures r == DeserializedSize(input, pos)
  {
    var size := UnpackUnsigned(input, pos, SIZE_WIDTH);
    match size {
      case Failed => return Failure;
      case Item(n, next) => return Success(n, next);
    }
  }

  /** Deserializes an object of a type, where the stream does not run into a control byte without bytes. */
  method Deserialize(t: Shape, input: seq<Byte>, pos: nat, less: Comparison) returns (r: Outcome<Value>)
    requires pos <= |input| && WellTyped(t) && Deserialized(t, input, pos, less) != Undefined
    ensures r == Deserialized(t, input, pos, less)
    decreases t, 1
  {
    match t {
      case Unsigned(w) =>
        var item := UnpackUnsigned(input, pos, w);
        return if item.Failed? then Failure else Success(Number(item.value), item.next);
      case Signed(w) =>
        var item := UnpackSigned(input, pos, w);
        return if item.Failed? then Failure else Success(Number(item.value), item.next);
      case Bool =>
        if pos == |input| {
          return Failure;
        }
        if input[pos] == TRUE_CHAR {
          return Success(Flag(true), pos + 1);
        }
        if input[pos] == FALSE_CHAR {
          return Success(Flag(false), pos + 1);
        }
        return Failure;
      case String =>
        var size := ReadSize(input, pos);
        if size == Failure || size.next + size.value > |input| {
          return Failure;
        }
        return Success(Text(input[size.next..size.next + size.value]), size.next + size.value);
      case PairOf(a, b) =>
        var first := Deserialize(a, input, pos, less);
        if first == Failure {
          return Failure;
        }
        var second := Deserialize(b, input, first.next, less);
        if second == Failure {
          return Failure;
        }
        return Success(Pair(first.value, second.value), second.next);
      case VectorOf(e) =>
        if e.Bool? { r := DeserializeFlags(t, input, pos, less); } else { r := DeserializeVector(t, input, pos, less); }
      case MapOf(_, _) => r := DeserializeMap(t, input, pos, less);
    }
  }

  /** Reads a vector of bytes, as far as there are any, and takes them for flags. */
  method DeserializeFlags(t: Shape, input: seq<Byte>, pos: nat, less: Comparison) returns (r: Outcome<Value>)
    requires t.VectorOf? && t.item.Bool? && pos <= |input| && Deserialized(t, input, pos, less) != Undefined
    ensures r == Deserialized(t, input, pos, less)
    decreases t, 0
  {
    hide DeserializedSize;
    var size := ReadSize(input, pos);
    if size == Failure {
      return Failure;
    }
    var n, start: nat := size.value, size.next;
    var end := FlagsEnd(input, start, n);
    // What could not be read stays zero.
    var temp := input[start..end] + seq(n - (end - start), _ => 0);
    var items: seq<Value> := [];
    var i := 0;
    while i < n
      invariant 0 <= i == |items| <= n && items == FlagsAt(input, start, n)[..i]
    {
      items := items + [Flag(temp[i] == TRUE_CHAR)];
      i := i + 1;
    }
    assert items == FlagsAt(input, start, n);
    return Success(Vector(items), end);
  }

  method DeserializeVector(t: Shape, input: seq<Byte>, pos: nat, less: Comparison) returns (r: Outcome<Value>)
    requires t.VectorOf? && !t.item.Bool? && pos <= |input| && WellTyped(t) && Deserialized(t, input, pos, less) != Undefined
    ensures r == Deserialized(t, input, pos, less)
    decreases t, 0
  {
    hide DeserializedItems, DeserializedSize;
    var size := ReadSize(input, pos);
    if size == Failure {
      return Failure;
    }
    var n := size.value;
    var items: seq<Value>, next: nat := [], size.next;
    var i := 0;
    NoItemsRead(t, input, size.next, less);
    while i < n
      invariant 0 <= i <= n && next <= |input| && DeserializedItems(t, input, size.next, i, less) == Success(items, next)
    {
      ItemRead(t, input, size.next, i, n, less, items, next);
      var item := Deserialize(t.item, input, next, less);
      if item == Failure {
        return Failure;
      }
      items, next := items + [item.value], item.next;
      i := i + 1;
    }
    return Success(Vector(items), next);
  }

  lemma NoItemsRead(t: Shape, input: seq<Byte>, pos: nat, less: Comparison)
    requires pos <= |input|
    ensures t.VectorOf? ==> DeserializedItems(t, input, pos, 0, less) == Success([], pos)
    ensures t.MapOf? ==> DeserializedEntries(t, input, pos, 0, less) == Success(([], []), pos)
  {
  }

  method DeserializeMap(t: Shape, input: seq<Byte>, pos: nat, less: Comparison) returns (r: Outcome<Value>)
    requires t.MapOf? && pos <= |input| && WellTyped(t) && Deserialized(t, input, pos, less) != Undefined
    ensures r == Deserialized(t, input, pos, less)
    decreases t, 0
  {
    hide DeserializedEntries, DeserializedSize, Stored;
    var size := ReadSize(input, pos);
    if size == Failure {
      return Failure;
    }
    var n := size.value;
    var next: nat := size.next;
    var keys: seq<Value>, values: seq<Value> := [], [];
    var i := 0;
    NoItemsRead(t, input, size.next, less);
    while i < n
      invariant 0 <= i <= n && next <= |input| && |keys| == |values|
      invariant DeserializedEntries(t, input, size.next, i, less) == Success((keys, values), next)
    {
      EntryRead(t, input, size.next, i, n, less, keys, values, next);
      var d := Deserialize(t.key, input, next, less);
      if d == Failure {
        return Failure;
      }
      var e := Deserialize(t.value, input, d.next, less);
      if e == Failure {
        return Failure;
      }
      var entries := Stored(keys, values, d.value, e.value, less);
      keys, values, next := entries.0, entries.1, e.next;
      i := i + 1;
    }
    return Success(Map(keys, values), next);
  }
}
