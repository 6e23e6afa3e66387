/** Introsort: quicksort with a depth budget, heapsort on a subrange, and insertion sort, all in place. */
module Sorting {
  import opened Digits

  type Comparator<!T> = (T, T) -> bool

  /** What std::less and any other comparison of the callers is: irreflexive, transitive, with transitive ties. */
  ghost predicate StrictWeakOrder<T(!new)>(less: Comparator<T>)
  {
    && (forall x :: !less(x, x))
    && (forall x, y, z :: less(x, y) && less(y, z) ==> less(x, z))
    && (forall x, y, z :: Tied(less, x, y) && Tied(less, y, z) ==> Tied(less, x, z))
  }

  predicate Tied<T>(less: Comparator<T>, x: T, y: T)
  {
    !less(x, y) && !less(y, x)
  }

  /** The order that sorting establishes: nothing that should come later comes first. */
  predicate AtMost<T>(less: Comparator<T>, x: T, y: T)
  {
    !less(y, x)
  }

  lemma AtMostTotal<T(!new)>(less: Comparator<T>, x: T, y: T)
    requires StrictWeakOrder(less)
    ensures AtMost(less, x, y) || AtMost(less, y, x)
    ensures less(x, y) ==> AtMost(less, x, y)
    ensures AtMost(less, x, x)
  {
  }

  lemma AtMostTransitive<T(!new)>(less: Comparator<T>, x: T, y: T, z: T)
    requires StrictWeakOrder(less) && AtMost(less, x, y) && AtMost(less, y, z)
    ensures AtMost(less, x, z)
  {
    assert Tied(less, y, z) || less(y, z);
    assert Tied(less, x, y) || less(x, y);
  }

  /** Elements lo to hi - 1 are in order. */
  ghost predicate Ordered<T>(s: seq<T>, less: Comparator<T>, lo: nat, hi: nat)
    requires lo <= hi <= |s| || hi <= lo
  {
    forall i, j :: lo <= i < j < hi ==> AtMost(less, s[i], s[j])
  }

  /** Elements lo to hi - 1 have been rearranged, and nothing else has changed. */
  ghost predicate Rearranged<T>(before: seq<T>, after: seq<T>, lo: nat, hi: nat)
    requires lo <= hi <= |before|
  {
    && |after| == |before| && after[..lo] == before[..lo] && after[hi..] == before[hi..]
    && multiset(after[lo..hi]) == multiset(before[lo..hi])
  }

  function Swapped<T>(s: seq<T>, i: nat, j: nat): (t: seq<T>)
    requires i < |s| && j < |s|
    ensures |t| == |s|
  {
    s[i := s[j]][j := s[i]]
  }

  method Exchange<T>(a: array<T>, i: nat, j: nat)
    requires i < a.Length && j < a.Length
    modifies a
    ensures a[..] == Swapped(old(a[..]), i, j)
  {
    a[i], a[j] := a[j], a[i];
  }

  lemma SwapRearranges<T>(s: seq<T>, i: nat, j: nat, lo: nat, hi: nat)
    requires lo <= i < hi <= |s| && lo <= j < hi
    ensures Rearranged(s, Swapped(s, i, j), lo, hi)
  {
    var t := Swapped(s, i, j);
    assert t[lo..hi] == Swapped(s[lo..hi], i - lo, j - lo);
    SwapMultiset(s[lo..hi], i - lo, j - lo);
  }

  lemma SwapMultiset<T>(s: seq<T>, i: nat, j: nat)
    requires i < |s| && j < |s|
    ensures multiset(Swapped(s, i, j)) == multiset(s)
  {
  }

  lemma RearrangedTransitive<T>(s: seq<T>, t: seq<T>, u: seq<T>, lo: nat, hi: nat)
    requires lo <= hi <= |s| && Rearranged(s, t, lo, hi) && Rearranged(t, u, lo, hi)
    ensures Rearranged(s, u, lo, hi)
  {
  }

  lemma SameRearranged<T>(s: seq<T>, lo: nat, hi: nat)
    requires lo <= hi <= |s|
    ensures Rearranged(s, s, lo, hi)
  {
  }

  /** A rearrangement of a part is a rearrangement of the whole. */
  lemma RearrangedWider<T>(s: seq<T>, t: seq<T>, lo: nat, hi: nat, lo': nat, hi': nat)
    requires lo' <= lo <= hi <= hi' <= |s| && Rearranged(s, t, lo, hi)
    ensures Rearranged(s, t, lo', hi')
  {
    assert s[lo'..hi'] == s[lo'..lo] + s[lo..hi] + s[hi..hi'];
    assert t[lo'..hi'] == t[lo'..lo] + t[lo..hi] + t[hi..hi'];
    assert s[lo'..lo] == s[..lo][lo'..] && t[lo'..lo] == t[..lo][lo'..];
    assert s[hi..hi'] == s[hi..][..hi' - hi] && t[hi..hi'] == t[hi..][..hi' - hi];
    assert t[..lo'] == t[..lo][..lo'] && s[..lo'] == s[..lo][..lo'];
    assert t[hi'..] == t[hi..][hi' - hi..] && s[hi'..] == s[hi..][hi' - hi..];
  }

  /** What holds of all elements of a part still holds when they are rearranged. */
  lemma RearrangedKeepsAll<T>(s: seq<T>, t: seq<T>, lo: nat, hi: nat, p: T -> bool)
    requires lo <= hi <= |s| && Rearranged(s, t, lo, hi)
    requires forall k :: lo <= k < hi ==> p(s[k])
    ensures forall k :: lo <= k < hi ==> p(t[k])
  {
    forall k | lo <= k < hi
      ensures p(t[k])
    {
      assert t[k] == t[lo..hi][k - lo];
      assert t[k] in multiset(s[lo..hi]);
    }
  }

  /** What is outside stays where it was. */
  lemma RearrangedOutside<T>(s: seq<T>, t: seq<T>, lo: nat, hi: nat, k: nat)
    requires lo <= hi <= |s| && Rearranged(s, t, lo, hi) && k < |s| && (k < lo || hi <= k)
    ensures t[k] == s[k]
  {
    if k < lo {
      assert t[k] == t[..lo][k] && s[k] == s[..lo][k];
    } else {
      assert t[k] == t[hi..][k - hi] && s[k] == s[hi..][k - hi];
    }
  }

  /** In order but for element pos, which belongs before everything behind it up to element i. */
  ghost predicate OrderedExcept<T>(s: seq<T>, less: Comparator<T>, lo: nat, pos: nat, i: nat)
    requires lo <= pos <= i < |s|
  {
    && (forall x, y :: lo <= x < y <= i && x != pos && y != pos ==> AtMost(less, s[x], s[y]))
    && (forall y :: pos < y <= i ==> AtMost(less, s[pos], s[y]))
  }

  lemma InsertionStart<T(!new)>(s: seq<T>, less: Comparator<T>, lo: nat, i: nat)
    requires lo < i < |s| && Ordered(s, less, lo, i)
    ensures OrderedExcept(s, less, lo, i, i) && Rearranged(s, s, lo, i + 1)
  {
  }

  lemma InsertionStep<T(!new)>(s: seq<T>, less: Comparator<T>, lo: nat, pos: nat, i: nat)
    requires StrictWeakOrder(less) && lo < pos <= i < |s| && OrderedExcept(s, less, lo, pos, i)
    requires less(s[pos], s[pos - 1])
    ensures OrderedExcept(Swapped(s, pos, pos - 1), less, lo, pos - 1, i)
  {
    AtMostTotal(less, s[pos], s[pos - 1]);
    hide StrictWeakOrder;
  }

  lemma InsertionDone<T(!new)>(s: seq<T>, less: Comparator<T>, lo: nat, pos: nat, i: nat)
    requires StrictWeakOrder(less) && lo <= pos <= i < |s| && OrderedExcept(s, less, lo, pos, i)
    requires pos == lo || !less(s[pos], s[pos - 1])
    ensures Ordered(s, less, lo, i + 1)
  {
    forall x, y | lo <= x < y < i + 1
      ensures AtMost(less, s[x], s[y])
    {
      if y == pos && x < pos - 1 { AtMostTransitive(less, s[x], s[pos - 1], s[pos]); }
    }
  }

  /** Moves element i down to its place among the ordered elements before it. */
  method Insert<T(!new)>(a: array<T>, left: nat, i: nat, less: Comparator<T>)
    requires left < i < a.Length && StrictWeakOrder(less) && Ordered(a[..], less, left, i)
    modifies a
    ensures Ordered(a[..], less, left, i + 1) && Rearranged(old(a[..]), a[..], left, i + 1)
  {
    hide StrictWeakOrder, Ordered, OrderedExcept, Rearranged, Swapped;
    ghost var before := a[..];
    InsertionStart(before, less, left, i);
    var pos := i;
    var j := i - 1;
    while less(a[pos], a[j])
      invariant left <= j && pos == j + 1 <= i
      invariant OrderedExcept(a[..], less, left, pos, i) && Rearranged(before, a[..], left, i + 1)
      decreases j
    {
      ghost var s := a[..];
      InsertionStep(s, less, left, pos, i);
      SwapRearranges(s, pos, j, left, i + 1);
      Exchange(a, pos, j);
      RearrangedTransitive(before, s, a[..], left, i + 1);
      pos := j;
      if j == left {
        InsertionDone(a[..], less, left, pos, i);
        return;
      }
      j := j - 1;
    }
    InsertionDone(a[..], less, left, pos, i);
  }

  /** Insertion sort. */
  method IsortArray<T(!new)>(a: array<T>, left: nat, right: nat, less: Comparator<T>)
    requires left <= right < a.Length && StrictWeakOrder(less)
    modifies a
    ensures Ordered(a[..], less, left, right + 1) && Rearranged(old(a[..]), a[..], left, right + 1)
  {
    hide StrictWeakOrder, Rearranged;
    ghost var before := a[..];
    SameRearranged(before, left, right + 1);
    var i := left + 1;
    while i <= right
      invariant left < i <= right + 1
      invariant Ordered(a[..], less, left, i) && Rearranged(before, a[..], left, right + 1)
    {
      ghost var s := a[..];
      Insert(a, left, i, less);
      RearrangedWider(s, a[..], left, i + 1, left, right + 1);
      RearrangedTransitive(before, s, a[..], left, right + 1);
      i := i + 1;
    }
  }

  /** The parent of a node of the heap whose root is at index start. */
  function Parent(start: nat, k: nat): (p: nat)
    requires k > start
    ensures start <= p < k
  {
    start + (k - start - 1) / 2
  }

  /** Node k is in the subtree of node r. */
  predicate InSubtree(start: nat, r: nat, k: nat)
  {
    k == r || (k > start && k > r && InSubtree(start, r, Parent(start, k)))
  }

  lemma {:induction false} AllUnderRoot(start: nat, k: nat)
    requires start <= k
    ensures InSubtree(start, start, k)
  {
    if k > start { AllUnderRoot(start, Parent(start, k)); }
  }

  lemma {:induction false} SubtreeTransitive(start: nat, r: nat, i: nat, k: nat)
    requires InSubtree(start, r, i) && InSubtree(start, i, k)
    ensures InSubtree(start, r, k)
  {
    if k != i { SubtreeTransitive(start, r, i, Parent(start, k)); }
  }

  /** No node of the subtree of r up to end is greater than its parent, except perhaps the children of node skip. */
  ghost predicate SubtreeHeap<T>(s: seq<T>, less: Comparator<T>, start: nat, end: nat, r: nat, skip: int)
    requires start <= r && end < |s|
  {
    forall k :: r < k <= end && InSubtree(start, r, k) && Parent(start, k) != skip ==> AtMost(less, s[k], s[Parent(start, k)])
  }

  /** The children of node i are not greater than its parent. */
  ghost predicate GrandchildrenOk<T>(s: seq<T>, less: Comparator<T>, start: nat, end: nat, r: nat, i: nat)
    requires start <= r <= i && end < |s|
  {
    i > r ==> forall k :: i < k <= end && Parent(start, k) == i ==> AtMost(less, s[k], s[Parent(start, i)])
  }

  /** The state of the sift-down loop: only the children of i may be greater than their parent. */
  ghost predicate Sifting<T>(s: seq<T>, less: Comparator<T>, start: nat, end: nat, r: nat, i: nat)
    requires start <= r && end < |s|
  {
    && r <= i <= end && InSubtree(start, r, i)
    && SubtreeHeap(s, less, start, end, r, i) && GrandchildrenOk(s, less, start, end, r, i)
  }

  /** The children of i. */
  lemma ChildrenOf(start: nat, i: nat, k: nat)
    requires start <= i && start < k
    ensures Parent(start, k) == i <==> k == 2 * i + 1 - start || k == 2 * i + 2 - start
  {
  }

  /** Exchanging node i with its greatest child moves the trouble one level down. */
  lemma SiftStep<T(!new)>(s: seq<T>, less: Comparator<T>, start: nat, end: nat, r: nat, i: nat, largest: nat)
    requires StrictWeakOrder(less) && start <= r && end < |s| && Sifting(s, less, start, end, r, i)
    requires i < largest <= end && Parent(start, largest) == i && AtMost(less, s[i], s[largest])
    requires forall k :: i < k <= end && Parent(start, k) == i ==> AtMost(less, s[k], s[largest])
    ensures Sifting(Swapped(s, i, largest), less, start, end, r, largest)
  {
    assert InSubtree(start, i, largest);
    SubtreeTransitive(start, r, i, largest);
    hide StrictWeakOrder, AtMost;
    var t := Swapped(s, i, largest);
    forall k | r < k <= end && InSubtree(start, r, k) && Parent(start, k) != largest
      ensures AtMost(less, t[k], t[Parent(start, k)])
    {
      assert Parent(start, k) == i || k == i || (Parent(start, k) != i && k != largest);
    }
    forall k | largest < k <= end && Parent(start, k) == largest
      ensures AtMost(less, t[k], t[Parent(start, largest)])
    {
      assert InSubtree(start, largest, k);
      SubtreeTransitive(start, r, largest, k);
    }
  }

  lemma SiftDone<T(!new)>(s: seq<T>, less: Comparator<T>, start: nat, end: nat, r: nat, i: nat)
    requires start <= r && end < |s| && Sifting(s, less, start, end, r, i)
    requires forall k :: i < k <= end && Parent(start, k) == i ==> AtMost(less, s[k], s[i])
    ensures SubtreeHeap(s, less, start, end, r, -1)
  {
  }

  /** Elements that are not in the subtree of r have not moved. */
  ghost predicate OutsideSubtreeSame<T>(s: seq<T>, t: seq<T>, start: nat, r: nat)
  {
    |s| == |t| && forall k :: 0 <= k < |s| && !InSubtree(start, r, k) ==> t[k] == s[k]
  }

  lemma OutsideStep<T>(before: seq<T>, s: seq<T>, start: nat, r: nat, i: nat, largest: nat)
    requires OutsideSubtreeSame(before, s, start, r) && InSubtree(start, r, i)
    requires start <= i < largest < |s| && Parent(start, largest) == i
    ensures OutsideSubtreeSame(before, Swapped(s, i, largest), start, r)
  {
    assert InSubtree(start, i, largest);
    SubtreeTransitive(start, r, i, largest);
  }

  /** The index of the greatest among node i and its children. */
  method LargestOfThree<T(!new)>(a: array<T>, start: nat, end: nat, i: nat, less: Comparator<T>) returns (largest: nat)
    requires start <= i <= end < a.Length && StrictWeakOrder(less)
    ensures i <= largest <= end && (largest != i ==> Parent(start, largest) == i)
    ensures AtMost(less, a[i], a[largest])
    ensures forall k :: i < k <= end && Parent(start, k) == i ==> AtMost(less, a[k], a[largest])
  {
    var left := 2 * i + 1 - start;
    var right := left + 1;
    largest := if left <= end && less(a[i], a[left]) then left else i;
    ghost var first := largest;
    if right <= end && less(a[largest], a[right]) {
      largest := right;
    }
    AtMostTotal(less, a[first], a[largest]);
    AtMostTotal(less, a[i], a[first]);
    AtMostTransitive(less, a[i], a[first], a[largest]);
    forall k | i < k <= end && Parent(start, k) == i
      ensures AtMost(less, a[k], a[largest])
    {
      ChildrenOf(start, i, k);
      if k == left {
        AtMostTotal(less, a[left], a[first]);
        AtMostTransitive(less, a[left], a[first], a[largest]);
      } else {
        AtMostTotal(less, a[right], a[largest]);
      }
    }
  }

  lemma SiftStart<T>(s: seq<T>, less: Comparator<T>, start: nat, end: nat, r: nat)
    requires start <= r <= end < |s| && SubtreeHeap(s, less, start, end, r, r)
    ensures Sifting(s, less, start, end, r, r) && Rearranged(s, s, start, end + 1) && OutsideSubtreeSame(s, s, start, r)
  {
  }

  /** Makes the tree rooted at r a heap when the trees of its children are heaps; touches nothing outside that tree. */
  method Heapify<T(!new)>(a: array<T>, start: nat, end: nat, r: nat, less: Comparator<T>)
    requires start <= r <= end < a.Length && StrictWeakOrder(less)
    requires SubtreeHeap(a[..], less, start, end, r, r)
    modifies a
    ensures SubtreeHeap(a[..], less, start, end, r, -1)
    ensures Rearranged(old(a[..]), a[..], start, end + 1) && OutsideSubtreeSame(old(a[..]), a[..], start, r)
  {
    hide StrictWeakOrder, AtMost, Rearranged, OutsideSubtreeSame, SubtreeHeap, GrandchildrenOk;
    ghost var before := a[..];
    SiftStart(before, less, start, end, r);
    var i := r;
    var keepGoing := true;
    while keepGoing
      invariant Sifting(a[..], less, start, end, r, i)
      invariant !keepGoing ==> SubtreeHeap(a[..], less, start, end, r, -1)
      invariant Rearranged(before, a[..], start, end + 1) && OutsideSubtreeSame(before, a[..], start, r)
      decreases end - i, keepGoing
    {
      keepGoing := false;
      ghost var s := a[..];
      var largest := LargestOfThree(a, start, end, i, less);
      if largest != i {
        SiftStep(s, less, start, end, r, i, largest);
        SwapRearranges(s, i, largest, start, end + 1);
        Exchange(a, i, largest);
        RearrangedTransitive(before, s, a[..], start, end + 1);
        OutsideStep(before, s, start, r, i, largest);
        i := largest;
        keepGoing := true;
      } else {
        SiftDone(s, less, start, end, r, i);
      }
    }
  }

  /** No node up to end whose parent is at least from is greater than its parent. */
  ghost predicate HeapFrom<T>(s: seq<T>, less: Comparator<T>, start: nat, end: nat, from: nat)
    requires end < |s|
  {
    forall k :: start < k <= end && Parent(start, k) >= from ==> AtMost(less, s[k], s[Parent(start, k)])
  }

  /** Heapifying node i extends the heap to it. */
  lemma HeapGrows<T>(s: seq<T>, t: seq<T>, less: Comparator<T>, start: nat, end: nat, i: nat)
    requires start <= i <= end < |s| == |t| && HeapFrom(s, less, start, end, i + 1)
    requires SubtreeHeap(t, less, start, end, i, -1) && OutsideSubtreeSame(s, t, start, i)
    ensures HeapFrom(t, less, start, end, i)
  {
    hide AtMost;
    forall k | start < k <= end && Parent(start, k) >= i
      ensures AtMost(less, t[k], t[Parent(start, k)])
    {
      if !InSubtree(start, i, k) { assert !InSubtree(start, i, Parent(start, k)); }
    }
  }

  lemma {:induction false} RootIsGreatest<T(!new)>(s: seq<T>, less: Comparator<T>, start: nat, end: nat, k: nat)
    requires StrictWeakOrder(less) && start <= k <= end < |s| && HeapFrom(s, less, start, end, start)
    ensures AtMost(less, s[k], s[start])
  {
    if k == start {
      AtMostTotal(less, s[k], s[k]);
    } else {
      RootIsGreatest(s, less, start, end, Parent(start, k));
      AtMostTransitive(less, s[k], s[Parent(start, k)], s[start]);
    }
  }

  /** Turns the range into a heap. */
  method BuildHeap<T(!new)>(a: array<T>, left: nat, right: nat, less: Comparator<T>)
    requires left <= right < a.Length && StrictWeakOrder(less)
    modifies a
    ensures HeapFrom(a[..], less, left, right, left) && Rearranged(old(a[..]), a[..], left, right + 1)
  {
    hide StrictWeakOrder, AtMost, Rearranged, OutsideSubtreeSame, SubtreeHeap;
    ghost var before := a[..];
    SameRearranged(before, left, right + 1);
    var i := left + (right - left) / 2;
    while true
      invariant left <= i <= right && HeapFrom(a[..], less, left, right, i + 1)
      invariant Rearranged(before, a[..], left, right + 1)
      decreases i
    {
      ghost var s := a[..];
      TreesBelow(s, less, left, right, i);
      Heapify(a, left, right, i, less);
      HeapGrows(s, a[..], less, left, right, i);
      RearrangedTransitive(before, s, a[..], left, right + 1);
      if i == left {
        break;
      }
      i := i - 1;
    }
  }

  lemma TreesBelow<T>(s: seq<T>, less: Comparator<T>, start: nat, end: nat, i: nat)
    requires start <= i <= end < |s| && HeapFrom(s, less, start, end, i + 1)
    ensures SubtreeHeap(s, less, start, end, i, i)
  {
    hide AtMost;
    forall k | i < k <= end && InSubtree(start, i, k) && Parent(start, k) != i
      ensures AtMost(less, s[k], s[Parent(start, k)])
    {
      assert InSubtree(start, i, Parent(start, k));
    }
  }

  /** Everything before element i is at most everything from there on. */
  ghost predicate Below<T>(s: seq<T>, less: Comparator<T>, left: nat, i: nat, right: nat)
    requires right < |s|
  {
    forall x, y :: left <= x < i <= y <= right ==> AtMost(less, s[x], s[y])
  }

  /** The greatest elements are in order behind element i, and the others form a heap. */
  ghost predicate Extracting<T>(s: seq<T>, less: Comparator<T>, left: nat, i: nat, right: nat)
    requires left <= i <= right < |s|
  {
    HeapFrom(s, less, left, i, left) && Ordered(s, less, i + 1, right + 1) && Below(s, less, left, i + 1, right)
  }

  /** Moving the root behind the heap. */
  lemma ExtractRoot<T(!new)>(s: seq<T>, less: Comparator<T>, left: nat, i: nat, right: nat)
    requires StrictWeakOrder(less) && left < i <= right < |s| && Extracting(s, less, left, i, right)
    ensures var t := Swapped(s, i, left);
      && SubtreeHeap(t, less, left, i - 1, left, left) && Ordered(t, less, i, right + 1)
      && Below(t, less, left, i, right)
  {
    forall x | left <= x <= i
      ensures AtMost(less, s[x], s[left])
    {
      RootIsGreatest(s, less, left, i, x);
    }
    hide StrictWeakOrder, AtMost;
  }

  /** Making the rest a heap again. */
  lemma ExtractHeap<T>(t: seq<T>, u: seq<T>, less: Comparator<T>, left: nat, i: nat, right: nat)
    requires left <= i < right < |t| && Rearranged(t, u, left, i + 1)
    requires Ordered(t, less, i + 1, right + 1) && Below(t, less, left, i + 1, right)
    requires SubtreeHeap(u, less, left, i, left, -1)
    ensures Extracting(u, less, left, i, right)
  {
    forall y | i < y <= right
      ensures u[y] == t[y] && forall x :: left <= x <= i ==> AtMost(less, u[x], t[y])
    {
      RearrangedOutside(t, u, left, i + 1, y);
      RearrangedKeepsAll(t, u, left, i + 1, z => AtMost(less, z, t[y]));
    }
    hide AtMost;
    forall k | left < k <= i
      ensures InSubtree(left, left, k)
    {
      AllUnderRoot(left, k);
    }
  }

  /** Moves the greatest element of the heap behind it. */
  method ExtractGreatest<T(!new)>(a: array<T>, left: nat, i: nat, right: nat, less: Comparator<T>)
    requires left < i <= right < a.Length && StrictWeakOrder(less) && Extracting(a[..], less, left, i, right)
    modifies a
    ensures Extracting(a[..], less, left, i - 1, right) && Rearranged(old(a[..]), a[..], left, right + 1)
  {
    hide StrictWeakOrder, AtMost, Rearranged, OutsideSubtreeSame, SubtreeHeap, Extracting, Ordered, Below, Swapped;
    ghost var s := a[..];
    ExtractRoot(s, less, left, i, right);
    SwapRearranges(s, i, left, left, right + 1);
    Exchange(a, i, left);
    ghost var t := a[..];
    Heapify(a, left, i - 1, left, less);
    ExtractHeap(t, a[..], less, left, i - 1, right);
    RearrangedWider(t, a[..], left, i, left, right + 1);
    RearrangedTransitive(s, t, a[..], left, right + 1);
  }

  lemma ExtractedAll<T(!new)>(s: seq<T>, less: Comparator<T>, left: nat, right: nat)
    requires left <= right < |s| && Extracting(s, less, left, left, right)
    ensures Ordered(s, less, left, right + 1)
  {
    hide AtMost;
  }

  /** Heapsort; short ranges are left to insertion sort. */
  method HsortArray<T(!new)>(a: array<T>, left: nat, right: nat, less: Comparator<T>)
    requires left <= right < a.Length && StrictWeakOrder(less)
    modifies a
    ensures Ordered(a[..], less, left, right + 1) && Rearranged(old(a[..]), a[..], left, right + 1)
  {
    if right - left < 30 {
      IsortArray(a, left, right, less);
      return;
    }
    hide StrictWeakOrder, Rearranged, HeapFrom, Ordered;
    ghost var before := a[..];
    BuildHeap(a, left, right, less);
    HeapBuilt(a[..], less, left, right);
    hide Extracting;
    var i := right;
    while i > left
      invariant left <= i <= right && Extracting(a[..], less, left, i, right)
      invariant Rearranged(before, a[..], left, right + 1)
    {
      ghost var s := a[..];
      ExtractGreatest(a, left, i, right, less);
      RearrangedTransitive(before, s, a[..], left, right + 1);
      i := i - 1;
    }
    ExtractedAll(a[..], less, left, right);
  }

  lemma HeapBuilt<T>(s: seq<T>, less: Comparator<T>, left: nat, right: nat)
    requires left <= right < |s| && HeapFrom(s, less, left, right, left)
    ensures Extracting(s, less, left, right, right)
  {
  }

  /** Elements before i are less than the pivot, and elements from i to j - 1 are not. */
  ghost predicate PartitionedSoFar<T>(s: seq<T>, less: Comparator<T>, left: nat, i: nat, j: nat, pivot: T)
    requires j <= |s|
  {
    && (forall k :: left <= k < i && k < j ==> less(s[k], pivot))
    && forall k :: i <= k < j ==> !less(s[k], pivot)
  }

  /** Element p is greater than every element of the range before it, and no element behind it is less. */
  ghost predicate Partitioned<T>(s: seq<T>, less: Comparator<T>, left: nat, p: nat, right: nat)
    requires left <= p <= right < |s|
  {
    && (forall k :: left <= k < p ==> less(s[k], s[p]))
    && forall k :: p < k <= right ==> !less(s[k], s[p])
  }

  lemma PartitionStart<T(!new)>(s: seq<T>, less: Comparator<T>, left: nat, pivot: T)
    requires left <= |s|
    ensures PartitionedSoFar(s, less, left, left, left, pivot)
  {
  }

  lemma PartitionStep<T(!new)>(s: seq<T>, less: Comparator<T>, left: nat, i: nat, j: nat, right: nat, pivot: T)
    requires left <= i <= j < right < |s| && PartitionedSoFar(s, less, left, i, j, pivot)
    ensures Swapped(s, i, j)[right] == s[right] && |Swapped(s, i, j)| == |s|
    ensures less(s[j], pivot) ==> PartitionedSoFar(Swapped(s, i, j), less, left, i + 1, j + 1, pivot)
    ensures !less(s[j], pivot) ==> PartitionedSoFar(s, less, left, i, j + 1, pivot)
  {
  }

  lemma GatherStep<T(!new)>(before: seq<T>, s: seq<T>, less: Comparator<T>, left: nat, i: nat, j: nat, right: nat)
    requires left <= i <= j < right < |s| == |before| && PartitionedSoFar(s, less, left, i, j, s[right])
    requires Rearranged(before, s, left, right + 1)
    ensures !less(s[j], s[right]) ==> PartitionedSoFar(s, less, left, i, j + 1, s[right])
    ensures less(s[j], s[right]) ==>
      var t := Swapped(s, i, j);
      t[right] == s[right] && PartitionedSoFar(t, less, left, i + 1, j + 1, s[right]) && Rearranged(before, t, left, right + 1)
  {
    PartitionStep(s, less, left, i, j, right, s[right]);
    SwapRearranges(s, i, j, left, right + 1);
    RearrangedTransitive(before, s, Swapped(s, i, j), left, right + 1);
  }

  lemma PartitionDone<T(!new)>(s: seq<T>, less: Comparator<T>, left: nat, i: nat, right: nat)
    requires left <= i <= right < |s| && PartitionedSoFar(s, less, left, i, right, s[right]) && !less(s[right], s[right])
    ensures Partitioned(Swapped(s, i, right), less, left, i, right)
  {
  }

  /** Moves the elements that are less than the last one to the front. */
  method GatherLess<T(!new)>(a: array<T>, left: nat, right: nat, less: Comparator<T>) returns (i: nat)
    requires left < right < a.Length
    modifies a
    ensures left <= i <= right && PartitionedSoFar(a[..], less, left, i, right, a[right])
    ensures Rearranged(old(a[..]), a[..], left, right + 1)
  {
    hide Rearranged, PartitionedSoFar, Swapped;
    ghost var before, pivot := a[..], a[right];
    i := left;
    var j := left;
    PartitionStart(a[..], less, left, pivot);
    SameRearranged(before, left, right + 1);
    while j < right
      invariant left <= i <= j <= right && a[right] == pivot
      invariant PartitionedSoFar(a[..], less, left, i, j, pivot)
      invariant Rearranged(before, a[..], left, right + 1)
    {
      GatherStep(before, a[..], less, left, i, j, right);
      if less(a[j], a[right]) {
        Exchange(a, i, j);
        i := i + 1;
      }
      j := j + 1;
    }
  }

  /** Partitions the range around its middle element. */
  method QsortPartition<T(!new)>(a: array<T>, left: nat, right: nat, less: Comparator<T>) returns (i: nat)
    requires left < right < a.Length && StrictWeakOrder(less)
    modifies a
    ensures left <= i <= right && Partitioned(a[..], less, left, i, right)
    ensures Rearranged(old(a[..]), a[..], left, right + 1)
  {
    hide Rearranged, PartitionedSoFar, Partitioned, StrictWeakOrder, Swapped;
    ghost var before := a[..];
    SwapRearranges(before, (right - left) / 2 + left, right, left, right + 1);
    Exchange(a, (right - left) / 2 + left, right);
    ghost var s := a[..];
    i := GatherLess(a, left, right, less);
    ghost var t := a[..];
    AtMostTotal(less, a[right], a[right]);
    PartitionDone(t, less, left, i, right);
    SwapRearranges(t, i, right, left, right + 1);
    Exchange(a, i, right);
    RearrangedTransitive(before, s, t, left, right + 1);
    RearrangedTransitive(before, t, a[..], left, right + 1);
  }

  /** Sorting both sides of a partition sorts the range. */
  lemma SidesSorted<T(!new)>(s: seq<T>, t: seq<T>, u: seq<T>, less: Comparator<T>, left: nat, p: nat, right: nat)
    requires StrictWeakOrder(less) && left <= p <= right < |s| && Partitioned(s, less, left, p, right)
    requires Rearranged(s, t, left, p) && Ordered(t, less, left, p)
    requires Rearranged(t, u, p + 1, right + 1) && Ordered(u, less, p + 1, right + 1)
    ensures Ordered(u, less, left, right + 1)
  {
    RearrangedKeepsAll(s, t, left, p, z => less(z, s[p]));
    RearrangedOutside(s, t, left, p, p);
    forall k | left <= k <= p
      ensures u[k] == t[k]
    {
      RearrangedOutside(t, u, p + 1, right + 1, k);
    }
    forall k | p < k <= right
      ensures t[k] == s[k]
    {
      RearrangedOutside(s, t, left, p, k);
    }
    RearrangedKeepsAll(t, u, p + 1, right + 1, z => !less(z, s[p]));
    forall x, y | left <= x < y < right + 1
      ensures AtMost(less, u[x], u[y])
    {
      if x < p { AtMostTotal(less, u[x], s[p]); }
      if x < p < y { AtMostTransitive(less, u[x], s[p], u[y]); }
    }
  }

  lemma SidesRearranged<T>(before: seq<T>, s: seq<T>, t: seq<T>, u: seq<T>, left: nat, p: nat, right: nat)
    requires left <= p <= right < |before| && Rearranged(before, s, left, right + 1)
    requires Rearranged(s, t, left, p) && Rearranged(t, u, p + 1, right + 1)
    ensures Rearranged(before, u, left, right + 1)
  {
    RearrangedWider(s, t, left, p, left, right + 1);
    RearrangedWider(t, u, p + 1, right + 1, left, right + 1);
  }

  /** The budget that is left for the recursive calls. */
  function NextDepth(depthCheck: nat): (d: nat)
    ensures depthCheck > 0 ==> d < depthCheck
  {
    depthCheck / 2 + depthCheck / 2 / 16
  }

  /** How many levels of partitions a budget allows. */
  function Levels(depthCheck: nat): nat
  {
    if depthCheck == 0 then 0 else 1 + Levels(NextDepth(depthCheck))
  }

  function Log2(n: nat): nat
  {
    if n < 2 then 0 else 1 + Log2(n / 2)
  }

  /** The exponent of the greatest power of two that is not above n. */
  lemma {:induction false} Log2Is(n: nat)
    requires n > 0
    ensures Pow(2, Log2(n)) <= n < 2 * Pow(2, Log2(n))
  {
    if n >= 2 { Log2Is(n / 2); }
  }

  lemma {:induction false} Log2Monotone(m: nat, n: nat)
    requires m <= n
    ensures Log2(m) <= Log2(n)
  {
    if m >= 2 { Log2Monotone(m / 2, n / 2); }
  }

  /** Two levels take at least half of the budget. */
  lemma {:induction false} LevelsBound(d: nat)
    ensures Levels(d) <= 2 * (Log2(d) + 1)
  {
    if d > 0 && NextDepth(d) > 0 {
      var e := NextDepth(NextDepth(d));
      assert d >= 2 && e <= d / 2;
      LevelsBound(e);
      Log2Monotone(e, d / 2);
      if e == 0 { assert Levels(e) == 0; }
    }
  }

  lemma NothingToSort<T(!new)>(s: seq<T>, less: Comparator<T>, left: nat)
    requires left <= |s|
    ensures Ordered(s, less, left, left) && Rearranged(s, s, left, left)
  {
  }

  /** Quicksort until the range is short or the budget is spent; nesting counts the nested partitions. */
  method QsortArrayMain<T(!new)>(a: array<T>, left: nat, right: nat, depthCheck: nat, less: Comparator<T>)
    returns (ghost nesting: nat)
    requires left <= right + 1 && right < a.Length && StrictWeakOrder(less)
    modifies a
    ensures Ordered(a[..], less, left, right + 1) && Rearranged(old(a[..]), a[..], left, right + 1)
    ensures nesting <= Levels(depthCheck)
    decreases right + 1 - left
  {
    hide StrictWeakOrder, Partitioned;
    nesting := 0;
    if left < right {
      if right - left < 30 || depthCheck == 0 {
        HsortArray(a, left, right, less);
      } else {
        hide Rearranged, Ordered;
        ghost var before := a[..];
        var depth := depthCheck / 2;
        depth := depth + depth / 16;
        assert Levels(depthCheck) == 1 + Levels(depth) && depth == NextDepth(depthCheck);
        hide Levels, NextDepth;
        var partitionElement := QsortPartition(a, left, right, less);
        ghost var s := a[..];
        ghost var lower, upper := 0, 0;
        if partitionElement > 0 {
          lower := QsortArrayMain(a, left, partitionElement - 1, depth, less);
        } else {
          NothingToSort(s, less, left);
        }
        ghost var t := a[..];
        upper := QsortArrayMain(a, partitionElement + 1, right, depth, less);
        nesting := 1 + if lower < upper then upper else lower;
        SidesSorted(s, t, a[..], less, left, partitionElement, right);
        SidesRearranged(before, s, t, a[..], left, partitionElement, right);
      }
    }
  }

  /** In plain words: no element is less than one before it, the range has the same elements, the rest is untouched. */
  lemma SortedMeans<T>(before: seq<T>, after: seq<T>, less: Comparator<T>, left: nat, right: nat)
    requires left <= right < |before| && Rearranged(before, after, left, right + 1) && Ordered(after, less, left, right + 1)
    ensures |after| == |before| && forall i, j :: left <= i < j <= right ==> !less(after[j], after[i])
    ensures multiset(after[left..right + 1]) == multiset(before[left..right + 1])
    ensures forall i :: 0 <= i < |before| && (i < left || right < i) ==> after[i] == before[i]
  {
    forall i | 0 <= i < |before| && (i < left || right < i)
      ensures after[i] == before[i]
    {
      if i < left {
        assert after[..left][i] == before[..left][i];
      } else {
        assert after[right + 1..][i - (right + 1)] == before[right + 1..][i - (right + 1)];
      }
    }
    assert forall i, j :: left <= i < j <= right ==> AtMost(less, after[i], after[j]);
  }

  /** Sorts elements left to right, nesting partitions at most about twice as deep as the logarithm of the range. */
  method QsortArray<T(!new)>(a: array<T>, left: nat, right: nat, less: Comparator<T>) returns (ghost nesting: nat)
    requires left <= right < a.Length && StrictWeakOrder(less)
    modifies a
    ensures Ordered(a[..], less, left, right + 1) && Rearranged(old(a[..]), a[..], left, right + 1)
    ensures forall i, j :: left <= i < j <= right ==> !less(a[j], a[i])
    ensures multiset(a[left..right + 1]) == multiset(old(a[left..right + 1]))
    ensures forall i :: 0 <= i < a.Length && (i < left || right < i) ==> a[i] == old(a[i])
    ensures nesting <= 2 * (Log2(right - left) + 1)
  {
    LevelsBound(right - left);
    ghost var before := a[..];
    nesting := QsortArrayMain(a, left, right, right - left, less);
    SortedMeans(before, a[..], less, left, right);
    assert a[left..right + 1] == a[..][left..right + 1] && before[left..right + 1] == old(a[left..right + 1]);
    assert forall i :: 0 <= i < a.Length ==> before[i] == old(a[i]) && a[..][i] == a[i];
  }
}
