/** The growable array whose elements are moved in and out by swapping. */
module DlibArrays {

  /** The elements of an array, spare ones included, and how many are in use. */
  datatype Store<T> = Store(elements: seq<T>, size: nat) {
    predicate Valid()
    {
      size <= |elements|
    }

    function Contents(): seq<T>
      requires Valid()
    {
      elements[..size]
    }

    /** The spare elements have the default value. */
    ghost predicate Clean(initial: T)
    {
      forall k :: size <= k < |elements| ==> elements[k] == initial
    }
  }

  function Repeat<T>(x: T, n: nat): (s: seq<T>)
    ensures |s| == n && forall k :: 0 <= k < n ==> s[k] == x
  {
    seq(n, _ => x)
  }

  /** Pushing an item moves it in and leaves the caller with what was in its place. */
  function Pushed<T>(s: Store<T>, item: T, initial: T): (r: (Store<T>, T))
    requires s.Valid()
    ensures r.0.Valid() && r.0.Contents() == s.Contents() + [item]
    ensures s.Clean(initial) ==> r.0.Clean(initial) && r.1 == initial
  {
    if |s.elements| == s.size then (Store(s.elements + [item] + Repeat(initial, s.size), s.size + 1), initial)
    else (Store(s.elements[s.size := item], s.size + 1), s.elements[s.size])
  }

  /** Popping moves the last element out and leaves the caller's item in its place. */
  function Popped<T>(s: Store<T>, item: T): (r: (Store<T>, T))
    requires s.Valid() && s.size > 0
    ensures r.0.Valid() && r.0.Contents() + [r.1] == s.Contents()
  {
    (Store(s.elements[s.size - 1 := item], s.size - 1), s.elements[s.size - 1])
  }

  /** Changing the size keeps the elements that are in use before and after, and the spare ones. */
  function Resized<T>(s: Store<T>, newSize: nat, initial: T): (r: Store<T>)
    requires s.Valid()
    ensures r.Valid() && r.size == newSize
    ensures newSize <= s.size ==> r.Contents() == s.Contents()[..newSize]
    ensures newSize >= s.size ==> r.Contents()[..s.size] == s.Contents()
    ensures newSize >= s.size && s.Clean(initial) ==> forall k :: s.size <= k < newSize ==> r.elements[k] == initial
  {
    if |s.elements| < newSize then Store(s.Contents() + Repeat(initial, newSize - s.size), newSize)
    else Store(s.elements, newSize)
  }

  /** Pushing and then popping gives back the array and the item, whatever was spare. */
  lemma PopUndoesPush<T>(s: Store<T>, item: T, other: T, initial: T)
    requires s.Valid()
    ensures var p := Pushed(s, item, initial).0; var q := Popped(p, other);
      q.0.Contents() == s.Contents() && q.1 == item
  {
  }

  /** Pushing into spare room exchanges: array and caller together have what they had, in as many places. */
  lemma PushLosesNothing<T>(s: Store<T>, item: T, initial: T)
    requires s.Valid() && s.size < |s.elements|
    ensures var (r, left) := Pushed(s, item, initial);
      && |r.elements| == |s.elements| && left == s.elements[s.size]
      && multiset(r.elements) + multiset{left} == multiset(s.elements) + multiset{item}
  {
  }

  /** Pushing into a full array more than doubles its places; the new ones have the default value, as has the caller then. */
  lemma PushDoubles<T>(s: Store<T>, item: T, initial: T)
    requires s.Valid() && s.size == |s.elements|
    ensures var (r, left) := Pushed(s, item, initial);
      && |r.elements| == 2 * s.size + 1 && left == initial
      && r.elements[..s.size + 1] == s.elements + [item]
      && forall k :: s.size < k < |r.elements| ==> r.elements[k] == initial
  {
  }

  /** Popping exchanges as well. */
  lemma PopLosesNothing<T>(s: Store<T>, item: T)
    requires s.Valid() && s.size > 0
    ensures var (r, last) := Popped(s, item);
      && r.size == s.size - 1 && |r.elements| == |s.elements| && last == s.elements[s.size - 1]
      && multiset(r.elements) + multiset{last} == multiset(s.elements) + multiset{item}
  {
  }

  /** Resizing takes new places only if there are too few, and no more than are asked for. */
  lemma ResizeKeeps<T>(s: Store<T>, newSize: nat, initial: T)
    requires s.Valid()
    ensures var r := Resized(s, newSize, initial);
      && r.size == newSize && (newSize <= |s.elements| ==> r.elements == s.elements)
      && (newSize > |s.elements| ==> |r.elements| == newSize && r.elements[..s.size] == s.elements[..s.size]
                                     && forall k :: s.size <= k < newSize ==> r.elements[k] == initial)
  {
  }

  // No element is current.
  const NOWHERE: int := -1

  class DlibArray<T> {
    const initial: T
    var arraySize: nat
    var maxArraySize: nat
    var arrayElements: array<T>
    var pos: int
    var lastPos: int
    var atStart: bool

    ghost predicate Valid()
      reads this
    {
      && arraySize <= maxArraySize == arrayElements.Length
      && lastPos == (if arraySize > 0 then arraySize - 1 else NOWHERE)
      && NOWHERE <= pos < arraySize && (atStart ==> pos == NOWHERE)
    }

    function Elements(): (s: Store<T>)
      requires Valid()
      reads this, arrayElements
      ensures s.Valid() && s.size == arraySize && |s.elements| == maxArraySize
    {
      Store(arrayElements[..], arraySize)
    }

    constructor (initial: T)
      ensures Valid() && Elements() == Store([], 0) && this.initial == initial && atStart && fresh(arrayElements)
    {
      this.initial := initial;
      arraySize := 0;
      maxArraySize := 0;
      arrayElements := new T[0](_ => initial);
      pos, lastPos := NOWHERE, NOWHERE;
      atStart := true;
    }

    method Reset()
      requires Valid()
      modifies this`atStart, this`pos
      ensures Valid() && atStart
    {
      atStart := true;
      pos := NOWHERE;
    }

    method SetSize(size: nat)
      requires Valid() && size <= maxArraySize
      modifies this`atStart, this`pos, this`lastPos, this`arraySize
      ensures Valid() && atStart && Elements() == Store(old(Elements().elements), size)
    {
      Reset();
      arraySize := size;
      lastPos := if size > 0 then size - 1 else NOWHERE;
    }

    /** Empties the array; elements are allocated anew unless the capacity stays the same. */
    method SetMaxSize(max: nat)
      requires Valid()
      modifies this
      ensures Valid() && atStart
      ensures Elements() == Store(if max == old(maxArraySize) then old(Elements().elements) else Repeat(initial, max), 0)
      ensures arrayElements == old(arrayElements) || fresh(arrayElements)
    {
      Reset();
      arraySize := 0;
      lastPos := NOWHERE;
      if max != 0 {
        if max != maxArraySize {
          var init := initial;
          arrayElements := new T[max](_ => init);
          maxArraySize := max;
        }
      } else {
        var init := initial;
        arrayElements := new T[0](_ => init);
        maxArraySize := 0;
      }
    }

    /** Exchanges everything with another array. */
    method Swap(item: DlibArray<T>)
      requires Valid() && item.Valid()
      modifies this, item
      ensures Valid() && item.Valid()
      ensures Elements() == old(item.Elements()) && item.Elements() == old(Elements())
      ensures arrayElements == old(item.arrayElements) && item.arrayElements == old(arrayElements)
      ensures (pos, atStart) == old((item.pos, item.atStart)) && (item.pos, item.atStart) == old((pos, atStart))
    {
      var arraySizeTemp, maxArraySizeTemp, arrayElementsTemp := item.arraySize, item.maxArraySize, item.arrayElements;
      item.arraySize := arraySize;
      item.maxArraySize := maxArraySize;
      item.arrayElements := arrayElements;
      arraySize := arraySizeTemp;
      maxArraySize := maxArraySizeTemp;
      arrayElements := arrayElementsTemp;
      var atStartTemp, posTemp, lastPosTemp := item.atStart, item.pos, item.lastPos;
      item.atStart, item.pos, item.lastPos := atStart, pos, lastPos;
      atStart, pos, lastPos := atStartTemp, posTemp, lastPosTemp;
    }

    method Clear()
      requires Valid()
      modifies this
      ensures Valid() && atStart && Elements() == Store([], 0) && fresh(arrayElements)
    {
      Reset();
      lastPos := NOWHERE;
      arraySize := 0;
      var init := initial;
      arrayElements := new T[0](_ => init);
      maxArraySize := 0;
    }

    /** Exchanges the first n elements with those of another array. */
    method ExchangeElements(temp: DlibArray<T>, n: nat)
      requires Valid() && temp.Valid() && n <= arraySize && n <= temp.arraySize && arrayElements != temp.arrayElements
      modifies arrayElements, temp.arrayElements
      ensures arrayElements[..] == old(temp.arrayElements[..n]) + old(arrayElements[n..])
      ensures temp.arrayElements[..] == old(arrayElements[..n]) + old(temp.arrayElements[n..])
    {
      var i := 0;
      while i < n
        invariant 0 <= i <= n
        invariant forall k :: 0 <= k < i ==> arrayElements[k] == old(temp.arrayElements[k])
        invariant forall k :: 0 <= k < i ==> temp.arrayElements[k] == old(arrayElements[k])
        invariant arrayElements[i..] == old(arrayElements[i..]) && temp.arrayElements[i..] == old(temp.arrayElements[i..])
      {
        arrayElements[i], temp.arrayElements[i] := temp.arrayElements[i], arrayElements[i];
        i := i + 1;
      }
    }

    /** Moves an item in at the end of a full array, which takes double the size. */
    method PushGrowing(item: T) returns (left: T)
      requires Valid() && maxArraySize == arraySize
      modifies this, arrayElements
      ensures Valid() && (Elements(), left) == Pushed(old(Elements()), item, initial) && fresh(arrayElements)
    {
      ghost var before := arrayElements[..];
      assert Pushed(Elements(), item, initial)
          == (Store(before + [item] + Repeat(initial, |before|), |before| + 1), initial);
      hide Pushed;
      var temp := new DlibArray<T>(initial);
      temp.SetMaxSize(arraySize * 2 + 1);
      temp.SetSize(arraySize + 1);
      ExchangeElements(temp, arraySize);
      left := temp.arrayElements[temp.arraySize - 1];
      temp.arrayElements[temp.arraySize - 1] := item;
      assert left == initial && temp.arrayElements[..] == before + [item] + Repeat(initial, |before|);
      hide Repeat;
      temp.Swap(this);
    }

    /** Moves an item in at the end; what the caller's variable holds afterwards is returned. */
    method PushBack(item: T) returns (left: T)
      requires Valid()
      modifies this, arrayElements
      ensures Valid() && (Elements(), left) == Pushed(old(Elements()), item, initial)
      ensures arrayElements == old(arrayElements) || fresh(arrayElements)
    {
      if maxArraySize == arraySize {
        left := PushGrowing(item);
      } else {
        SetSize(arraySize + 1);
        left := arrayElements[arraySize - 1];
        arrayElements[arraySize - 1] := item;
      }
    }

    /** Moves the last element out; the item takes its place among the spare ones. */
    method PopBack(item: T) returns (last: T)
      requires Valid() && arraySize > 0
      modifies this, arrayElements
      ensures Valid() && (Elements(), last) == Popped(old(Elements()), item)
      ensures arrayElements == old(arrayElements)
    {
      last := arrayElements[arraySize - 1];
      arrayElements[arraySize - 1] := item;
      SetSize(arraySize - 1);
    }

    method Resize(newSize: nat)
      requires Valid()
      modifies this, arrayElements
      ensures Valid() && Elements() == Resized(old(Elements()), newSize, initial)
      ensures arrayElements == old(arrayElements) || fresh(arrayElements)
    {
      ghost var before := Elements();
      if maxArraySize < newSize {
        var temp := new DlibArray<T>(initial);
        temp.SetMaxSize(newSize);
        temp.SetSize(newSize);
        ExchangeElements(temp, arraySize);
        assert temp.arrayElements[..] == before.Contents() + Repeat(initial, newSize - before.size);
        temp.Swap(this);
      } else {
        SetSize(newSize);
      }
    }

    /** The elements that an enumeration has yet to come to. */
    function Ahead(): (s: seq<T>)
      requires Valid()
      reads this, arrayElements
    {
      Elements().Contents()[if atStart then 0 else pos + 1..]
    }

    /** Goes on to the next element, if there is one. Once it has answered no it must not be called again. */
    method MoveNext() returns (more: bool)
      requires Valid() && (atStart || pos != NOWHERE)
      modifies this`pos, this`atStart
      ensures Valid() && !atStart
      ensures more == (old(Ahead()) != [])
      ensures more ==> 0 <= pos < arrayElements.Length && [arrayElements[pos]] + Ahead() == old(Ahead())
      ensures !more ==> pos == NOWHERE
    {
      if !atStart {
        if pos < lastPos {
          pos := pos + 1;
          return true;
        } else {
          pos := NOWHERE;
          return false;
        }
      } else {
        atStart := false;
        if arraySize > 0 {
          pos := 0;
          return true;
        } else {
          return false;
        }
      }
    }

    /** Enumerating until the first no visits every element once, in order. */
    method Enumerate() returns (visited: seq<T>)
      requires Valid()
      modifies this`pos, this`atStart
      ensures Valid() && visited == Elements().Contents()
    {
      Reset();
      visited := [];
      ghost var all := Elements().Contents();
      assert Ahead() == all;
      hide *;
      var more := MoveNext();
      while more
        invariant Valid() && !atStart && (more ==> pos != NOWHERE && 0 <= pos < arrayElements.Length)
        invariant if more then visited + [arrayElements[pos]] + Ahead() == all else visited == all
        decreases if more then |Ahead()| + 1 else 0
      {
        visited := visited + [arrayElements[pos]];
        more := MoveNext();
      }
    }
  }
}
