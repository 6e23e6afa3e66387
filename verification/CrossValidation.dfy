/** Cross-validation: shuffling labelled images, splitting them into folds and combining folds into training data. */
module CrossValidations {
  import opened Digits
  import opened DlibArrays

  datatype Image = Image(rows: nat, columns: nat, pixels: seq<nat>)

  datatype Rectangle = Rectangle(left: int, top: int, right: int, bottom: int)

  /** The boxes marked on one image. */
  type Boxes = seq<Rectangle>

  type ImageArray = Store<Image>

  const NO_IMAGE: Image := Image(0, 0, [])
  const NO_IMAGES: ImageArray := Store([], 0)

  /** Every index below n exactly once. */
  ghost predicate IsPermutation(r: seq<nat>, n: nat)
  {
    |r| == n && (forall i :: 0 <= i < n ==> r[i] < n) && forall i, j :: 0 <= i < j < n ==> r[i] != r[j]
  }

  /** The elements of s in the order that r gives. */
  function Permuted<T>(s: seq<T>, r: seq<nat>): (t: seq<T>)
    requires forall i :: 0 <= i < |r| ==> r[i] < |s|
    ensures |t| == |r|
  {
    seq(|r|, i requires 0 <= i < |r| => s[r[i]])
  }

  /** Image i is the first of its fold. */
  predicate FirstInFold(i: nat, perFold: nat)
    requires perFold > 0
  {
    i % perFold == 0
  }

  /** The first i elements in folds of the given size; the last fold may be incomplete. */
  function FoldsSoFar<T>(s: seq<T>, perFold: nat, i: nat): (folds: seq<seq<T>>)
    requires perFold > 0 && i <= |s|
    ensures i > 0 ==> |folds| > 0
  {
    if i == 0 then []
    else
      var folds := FoldsSoFar(s, perFold, i - 1);
      if FirstInFold(i - 1, perFold) then folds + [[s[i - 1]]]
      else folds[..|folds| - 1] + [folds[|folds| - 1] + [s[i - 1]]]
  }

  /** The first m stretches of perFold elements. */
  function Stretches<T>(s: seq<T>, perFold: nat, m: nat): (folds: seq<seq<T>>)
    requires m * perFold <= |s|
    ensures |folds| == m
  {
    if m == 0 then []
    else
      StretchBounds(perFold, m);
      Stretches(s, perFold, m - 1) + [s[(m - 1) * perFold..m * perFold]]
  }

  /**
   * Folds after a split: as many folds are added as the split makes, but filling starts again at fold 0,
   * so folds of an earlier split come first in them.
   */
  function Joined<T>(before: seq<seq<T>>, made: seq<seq<T>>): (folds: seq<seq<T>>)
    ensures |folds| == |before| + |made|
  {
    seq(|before| + |made|, f requires 0 <= f < |before| + |made| =>
      (if f < |before| then before[f] else []) + (if f < |made| then made[f] else []))
  }

  /** The first split makes the folds; a split of nothing makes none. */
  lemma JoinedNothing<T>(folds: seq<seq<T>>)
    ensures Joined([], folds) == folds == Joined(folds, [])
  {
    forall f | 0 <= f < |folds|
      ensures Joined([], folds)[f] == folds[f] == Joined(folds, [])[f]
    {
      assert [] + folds[f] == folds[f] == folds[f] + [];
    }
  }

  lemma JoinedBegin<T>(before: seq<seq<T>>, made: seq<seq<T>>, x: T)
    ensures var folds := Joined(before, made) + [[]];
      folds[|made| := folds[|made|] + [x]] == Joined(before, made + [[x]])
  {
    var folds := Joined(before, made) + [[]];
    var left, right := folds[|made| := folds[|made|] + [x]], Joined(before, made + [[x]]);
    assert folds[|made|] == if |made| < |before| then before[|made|] else [];
    forall f | 0 <= f < |right|
      ensures left[f] == right[f]
    {
    }
  }

  lemma JoinedAdd<T>(before: seq<seq<T>>, made: seq<seq<T>>, x: T)
    requires |made| > 0
    ensures var folds, last := Joined(before, made), |made| - 1;
      folds[last := folds[last] + [x]] == Joined(before, made[last := made[last] + [x]])
  {
    var folds, last := Joined(before, made), |made| - 1;
    var start := if last < |before| then before[last] else [];
    assert start + made[last] + [x] == start + (made[last] + [x]);
  }

  lemma StretchBounds(perFold: nat, m: nat)
    requires m > 0
    ensures m * perFold == (m - 1) * perFold + perFold && 0 <= (m - 1) * perFold
  {
  }

  /** Inside a stretch the last fold is its beginning. */
  lemma {:induction false} FoldsAre<T>(s: seq<T>, perFold: nat, m: nat, d: nat)
    requires perFold > 0 && 0 < d <= perFold && 0 <= m * perFold && m * perFold + d <= |s|
    ensures FoldsSoFar(s, perFold, m * perFold + d) == Stretches(s, perFold, m) + [s[m * perFold..m * perFold + d]]
    decreases m, d
  {
    hide FirstInFold;
    var i := m * perFold + d;
    FirstAt(perFold, m, d - 1);
    if d == 1 {
      if m == 0 {
        assert FoldsSoFar(s, perFold, 0) == [];
      } else {
        StretchBounds(perFold, m);
        FoldsAre(s, perFold, m - 1, perFold);
      }
      assert s[m * perFold..i] == [s[i - 1]];
    } else {
      FoldsAre(s, perFold, m, d - 1);
      assert s[m * perFold..i] == s[m * perFold..i - 1] + [s[i - 1]];
    }
  }

  lemma FirstAt(perFold: nat, m: nat, d: nat)
    requires d < perFold && m * perFold + d >= 0
    ensures FirstInFold(m * perFold + d, perFold) <==> d == 0
  {
    RemainderInFold(perFold, m, d);
  }

  lemma RemainderInFold(perFold: nat, m: nat, d: nat)
    requires d < perFold
    ensures (m * perFold + d) % perFold == d && (m * perFold + d) / perFold == m
  {
    var a := m * perFold + d;
    var q, r := a / perFold, a % perFold;
    Difference(q, m, perFold);
    if q > m { MulMonotone(1, q - m, perFold); }
    if q < m { MulMonotone(q - m, -1, perFold); }
  }

  lemma Difference(p: int, q: int, n: int)
    ensures (p - q) * n == p * n - q * n
  {
  }

  /** What the folds skipped leave of the first n folds; fold 0 is kept for testing. */
  function Training<T>(folds: seq<seq<T>>, skipped: int, n: nat): (data: seq<T>)
    requires n <= |folds|
  {
    if n <= 1 then []
    else Training(folds, skipped, n - 1) + (if skipped != n - 1 then folds[n - 1] else [])
  }

  /** Two arrays after the first i exchanges of shuffling: element j of the first with element r[j] of the second. */
  function Exchanged<T>(shuffled: seq<T>, all: seq<T>, r: seq<nat>, i: nat): (e: (seq<T>, seq<T>))
    requires i <= |r| && i <= |shuffled| && forall j :: 0 <= j < |r| ==> r[j] < |all|
    ensures |e.0| == |shuffled| && |e.1| == |all|
  {
    if i == 0 then (shuffled, all)
    else
      var (s, a) := Exchanged(shuffled, all, r, i - 1);
      (s[i - 1 := a[r[i - 1]]], a[r[i - 1] := s[i - 1]])
  }

  /** Nothing is lost: the first array gets the second one's elements in the order of r, and the second gets the first one's. */
  lemma {:induction false} ExchangedElements<T>(shuffled: seq<T>, all: seq<T>, r: seq<nat>, n: nat, i: nat)
    requires IsPermutation(r, n) && i <= n <= |shuffled| && n <= |all|
    ensures var (s, a) := Exchanged(shuffled, all, r, i);
      && (forall j :: 0 <= j < i ==> s[j] == all[r[j]] && a[r[j]] == shuffled[j])
      && (forall j :: i <= j < |shuffled| ==> s[j] == shuffled[j])
      && (forall q :: 0 <= q < |all| && (forall j :: 0 <= j < i ==> r[j] != q) ==> a[q] == all[q])
  {
    if i > 0 { ExchangedElements(shuffled, all, r, n, i - 1); }
  }

  /** All arrays involved are well formed, and what is spare in them is empty. */
  ghost predicate FoldsOk(folded: Store<ImageArray>)
  {
    folded.Valid() && folded.Clean(NO_IMAGES)
    && forall k :: 0 <= k < |folded.elements| ==> folded.elements[k].Valid() && folded.elements[k].Clean(NO_IMAGE)
  }

  /** The images of every fold. */
  ghost function FoldContents(folded: Store<ImageArray>): (folds: seq<seq<Image>>)
    requires FoldsOk(folded)
    ensures |folds| == folded.size
  {
    seq(folded.size, f requires 0 <= f < folded.size => folded.elements[f].Contents())
  }

  lemma FoldAdded(folded: Store<ImageArray>)
    requires FoldsOk(folded)
    ensures var p := Pushed(folded, NO_IMAGES, NO_IMAGES);
      FoldsOk(p.0) && p.1 == NO_IMAGES && p.0.size == folded.size + 1 && FoldContents(p.0) == FoldContents(folded) + [[]]
  {
    var p := Pushed(folded, NO_IMAGES, NO_IMAGES).0;
    assert forall k :: 0 <= k < folded.size ==> p.elements[k] == folded.elements[k];
    assert p.elements[folded.size] == NO_IMAGES;
    assert FoldsOk(p);
  }

  /** One fold with an image pushed into it. */
  function WithImage(folded: Store<ImageArray>, f: nat, image: Image): (w: Store<ImageArray>)
    requires folded.Valid() && f < folded.size && folded.elements[f].Valid()
  {
    Store(folded.elements[f := Pushed(folded.elements[f], image, NO_IMAGE).0], folded.size)
  }

  lemma ImageAdded(folded: Store<ImageArray>, f: nat, image: Image)
    requires FoldsOk(folded) && f < folded.size
    ensures var w := WithImage(folded, f, image);
      && FoldsOk(w) && Pushed(folded.elements[f], image, NO_IMAGE).1 == NO_IMAGE
      && FoldContents(w) == FoldContents(folded)[f := FoldContents(folded)[f] + [image]]
  {
    hide Pushed;
    var w := WithImage(folded, f, image);
    assert w.elements[f].Contents() == folded.elements[f].Contents() + [image];
  }

  /** One more element in the folds so far. */
  lemma FoldsStep<T>(s: seq<T>, perFold: nat, i: nat)
    requires perFold > 0 && i < |s|
    ensures var folds := FoldsSoFar(s, perFold, i);
      FoldsSoFar(s, perFold, i + 1)
      == if FirstInFold(i, perFold) then folds + [[s[i]]]
         else folds[|folds| - 1 := folds[|folds| - 1] + [s[i]]]
  {
    if !FirstInFold(i, perFold) {
      assert i > 0;
      var folds := FoldsSoFar(s, perFold, i);
      assert folds[|folds| - 1 := folds[|folds| - 1] + [s[i]]] == folds[..|folds| - 1] + [folds[|folds| - 1] + [s[i]]];
    }
  }

  /** At the beginning of a fold all folds are complete. */
  lemma FoldsComplete<T>(s: seq<T>, perFold: nat, i: nat)
    requires perFold > 0 && i <= |s| && i % perFold == 0
    ensures i / perFold * perFold == i && FoldsSoFar(s, perFold, i) == Stretches(s, perFold, i / perFold)
  {
    var m := i / perFold;
    assert m * perFold == i;
    if m == 0 {
      assert i == 0;
    } else {
      StretchBounds(perFold, m);
      FoldsAre(s, perFold, m - 1, perFold);
    }
  }

  class CrossValidation {
    var allImages: ImageArray
    var shuffledImages: ImageArray
    var currentImages: ImageArray
    var foldedImages: Store<ImageArray>
    var allBoxes: seq<Boxes>
    var shuffledBoxes: seq<Boxes>
    var currentBoxes: seq<Boxes>
    var foldedBoxes: seq<seq<Boxes>>
    var numberOfFolds: int

    ghost predicate Valid()
      reads this
    {
      && allImages.Valid() && shuffledImages.Valid() && currentImages.Valid() && FoldsOk(foldedImages)
      && shuffledImages.Clean(NO_IMAGE) && allImages.Clean(NO_IMAGE)
      && |allBoxes| == |shuffledBoxes| == allImages.size == shuffledImages.size
    }

    constructor ()
      ensures Valid() && allImages == shuffledImages == currentImages == NO_IMAGES && foldedImages == Store([], 0)
      ensures allBoxes == shuffledBoxes == currentBoxes == [] && foldedBoxes == []
    {
      allImages, shuffledImages, currentImages := NO_IMAGES, NO_IMAGES, NO_IMAGES;
      foldedImages := Store([], 0);
      allBoxes, shuffledBoxes, currentBoxes, foldedBoxes := [], [], [], [];
      numberOfFolds := 0;
    }

    /** Adds labelled images, once to be shuffled and once to shuffle from. */
    method AddImages(images: seq<Image>, boxes: seq<Boxes>)
      requires Valid() && |images| == |boxes|
      modifies this`allImages, this`shuffledImages, this`allBoxes, this`shuffledBoxes
      ensures Valid()
      ensures allImages.Contents() == old(allImages.Contents()) + images && allBoxes == old(allBoxes) + boxes
      ensures shuffledImages.Contents() == old(shuffledImages.Contents()) + images
      ensures shuffledBoxes == old(shuffledBoxes) + boxes
    {
      hide Pushed, FoldsOk;
      var i := 0;
      while i < |images|
        invariant 0 <= i <= |images| && Valid()
        invariant allImages.Contents() == old(allImages.Contents()) + images[..i] && allBoxes == old(allBoxes) + boxes[..i]
        invariant shuffledImages.Contents() == old(shuffledImages.Contents()) + images[..i]
        invariant shuffledBoxes == old(shuffledBoxes) + boxes[..i]
      {
        allImages := Pushed(allImages, images[i], NO_IMAGE).0;
        shuffledImages := Pushed(shuffledImages, images[i], NO_IMAGE).0;
        allBoxes := allBoxes + [boxes[i]];
        shuffledBoxes := shuffledBoxes + [boxes[i]];
        i := i + 1;
      }
    }

    /** Exchanges every shuffled image, with its boxes, for the one that the random index says. */
    method ShuffleImages(randomIndex: seq<nat>)
      requires Valid() && IsPermutation(randomIndex, allImages.size)
      modifies this`allImages, this`shuffledImages, this`allBoxes, this`shuffledBoxes
      ensures Valid() && allImages.size == old(allImages.size)
      ensures shuffledImages.Contents() == Permuted(old(allImages.Contents()), randomIndex)
      ensures shuffledBoxes == Permuted(old(allBoxes), randomIndex)
    {
      hide FoldsOk, Exchanged;
      ghost var shuffled, all := shuffledImages.elements, allImages.elements;
      ghost var n := allImages.size;
      assert Exchanged(shuffled, all, randomIndex, 0) == (shuffled, all) by { NothingExchanged(shuffled, all, randomIndex); }
      NothingExchanged(shuffledBoxes, allBoxes, randomIndex);
      var i := 0;
      while i < shuffledImages.size
        invariant 0 <= i <= n == shuffledImages.size == allImages.size == |allBoxes| == |shuffledBoxes|
        invariant (shuffledImages.elements, allImages.elements) == Exchanged(shuffled, all, randomIndex, i)
        invariant (shuffledBoxes, allBoxes) == Exchanged(old(shuffledBoxes), old(allBoxes), randomIndex, i)
      {
        var r := randomIndex[i];
        ExchangeStep(shuffled, all, randomIndex, i);
        ExchangeStep(old(shuffledBoxes), old(allBoxes), randomIndex, i);
        var image, box := shuffledImages.elements[i], shuffledBoxes[i];
        shuffledImages := Store(shuffledImages.elements[i := allImages.elements[r]], shuffledImages.size);
        allImages := Store(allImages.elements[r := image], allImages.size);
        shuffledBoxes := shuffledBoxes[i := allBoxes[r]];
        allBoxes := allBoxes[r := box];
        i := i + 1;
      }
      ExchangedElements(shuffled, all, randomIndex, n, n);
      ExchangedElements(old(shuffledBoxes), old(allBoxes), randomIndex, n, n);
    }

    /** Begins a fold; tempImages is what the caller's empty array holds before and after. */
    method BeginFold(tempImages: ImageArray) returns (left: ImageArray)
      requires FoldsOk(foldedImages) && tempImages == NO_IMAGES
      modifies this`foldedImages, this`foldedBoxes
      ensures FoldsOk(foldedImages) && left == NO_IMAGES
      ensures FoldContents(foldedImages) == old(FoldContents(foldedImages)) + [[]] && foldedBoxes == old(foldedBoxes) + [[]]
    {
      FoldAdded(foldedImages);
      hide FoldsOk, Pushed;
      var pushed := Pushed(foldedImages, tempImages, NO_IMAGES);
      foldedImages, left := pushed.0, pushed.1;
      foldedBoxes := foldedBoxes + [[]];
    }

    /** Moves a shuffled image into a fold and copies its boxes there. */
    method AddToFold(f: nat, i: nat)
      requires FoldsOk(foldedImages) && f < foldedImages.size && f < |foldedBoxes|
      requires shuffledImages.Valid() && i < shuffledImages.size && i < |shuffledBoxes|
      modifies this`foldedImages, this`foldedBoxes, this`shuffledImages
      ensures FoldsOk(foldedImages)
      ensures FoldContents(foldedImages)
           == old(FoldContents(foldedImages))[f := old(FoldContents(foldedImages))[f] + [old(shuffledImages.elements[i])]]
      ensures foldedBoxes == old(foldedBoxes)[f := old(foldedBoxes)[f] + [shuffledBoxes[i]]]
      ensures shuffledImages == Store(old(shuffledImages.elements)[i := NO_IMAGE], old(shuffledImages.size))
    {
      ImageAdded(foldedImages, f, shuffledImages.elements[i]);
      hide Pushed;
      var pushed := Pushed(foldedImages.elements[f], shuffledImages.elements[i], NO_IMAGE);
      foldedImages := Store(foldedImages.elements[f := pushed.0], foldedImages.size);
      shuffledImages := Store(shuffledImages.elements[i := pushed.1], shuffledImages.size);
      foldedBoxes := foldedBoxes[f := foldedBoxes[f] + [shuffledBoxes[i]]];
    }

    /** The first i of the images and boxes have joined the folds that were there. */
    ghost predicate Begun(imageFolds: seq<seq<Image>>, boxFolds: seq<seq<Boxes>>,
                          images: seq<Image>, boxes: seq<Boxes>, perFold: nat, i: nat)
      requires perFold > 0 && i <= |images| == |boxes|
      reads this`foldedImages, this`foldedBoxes
    {
      && FoldsOk(foldedImages) && FoldContents(foldedImages) == Joined(imageFolds, FoldsSoFar(images, perFold, i))
      && foldedBoxes == Joined(boxFolds, FoldsSoFar(boxes, perFold, i))
    }

    /** Places one shuffled image, in a new fold if it is the first one there. */
    method PlaceImage(i: nat, perFold: nat, currentFold: int, tempImages: ImageArray,
                      ghost imageFolds: seq<seq<Image>>, ghost boxFolds: seq<seq<Boxes>>,
                      ghost images: seq<Image>, ghost boxes: seq<Boxes>)
      returns (fold: int, left: ImageArray)
      requires perFold > 0 && i < |images| == |boxes| == shuffledImages.size && shuffledImages.Valid()
      requires shuffledImages.elements[i] == images[i] && shuffledBoxes == boxes
      requires Begun(imageFolds, boxFolds, images, boxes, perFold, i)
      requires currentFold == |FoldsSoFar(images, perFold, i)| - 1 && tempImages == NO_IMAGES
      modifies this`foldedImages, this`foldedBoxes, this`shuffledImages
      ensures Begun(imageFolds, boxFolds, images, boxes, perFold, i + 1)
      ensures fold == |FoldsSoFar(images, perFold, i + 1)| - 1 && left == NO_IMAGES
      ensures shuffledImages == Store(old(shuffledImages.elements)[i := NO_IMAGE], old(shuffledImages.size))
    {
      FoldsStep(images, perFold, i);
      FoldsStep(boxes, perFold, i);
      SameCount(images, boxes, perFold, i);
      ghost var imagesSoFar, boxesSoFar := FoldsSoFar(images, perFold, i), FoldsSoFar(boxes, perFold, i);
      hide FoldsOk, FoldContents, FoldsSoFar, Joined;
      fold, left := currentFold, tempImages;
      if FirstInFold(i, perFold) {
        JoinedBegin(imageFolds, imagesSoFar, images[i]);
        JoinedBegin(boxFolds, boxesSoFar, boxes[i]);
        left := BeginFold(tempImages);
        fold := currentFold + 1;
      } else {
        JoinedAdd(imageFolds, imagesSoFar, images[i]);
        JoinedAdd(boxFolds, boxesSoFar, boxes[i]);
      }
      AddToFold(fold, i);
    }

    /** Fills the folds until they are complete or the images run out. */
    method FillFolds(folds: nat, imagesPerFold: nat, ghost images: seq<Image>, ghost boxes: seq<Boxes>)
      requires shuffledImages.Valid() && FoldsOk(foldedImages)
      requires shuffledImages.Contents() == images && shuffledBoxes == boxes && |images| == |boxes|
      requires imagesPerFold > 0 && (folds + 1) * imagesPerFold <= |images|
      modifies this`foldedImages, this`foldedBoxes, this`shuffledImages
      ensures shuffledImages.Valid() && shuffledImages.size == old(shuffledImages.size)
      ensures |shuffledImages.elements| == |old(shuffledImages.elements)|
      ensures forall k :: |images| <= k < |shuffledImages.elements| ==>
                shuffledImages.elements[k] == old(shuffledImages.elements[k])
      ensures FoldsOk(foldedImages)
      ensures FoldContents(foldedImages) == Joined(old(FoldContents(foldedImages)), Stretches(images, imagesPerFold, folds + 1))
      ensures foldedBoxes == Joined(old(foldedBoxes), Stretches(boxes, imagesPerFold, folds + 1))
    {
      hide FoldsOk, FoldContents, FoldsSoFar, Joined, Stretches, FirstInFold;
      ghost var imageFolds, boxFolds := FoldContents(foldedImages), foldedBoxes;
      NothingPlaced(imageFolds, images, imagesPerFold);
      NothingPlaced(boxFolds, boxes, imagesPerFold);
      ghost var before, total := shuffledImages.elements, (folds + 1) * imagesPerFold;
      var tempImages: ImageArray := NO_IMAGES;
      var currentFold: int := -1;
      var i := 0;
      while i < shuffledImages.size
        invariant 0 <= i <= shuffledImages.size == |images| <= |shuffledImages.elements| == |before| && i <= total
        invariant Begun(imageFolds, boxFolds, images, boxes, imagesPerFold, i)
        invariant currentFold == |FoldsSoFar(images, imagesPerFold, i)| - 1 && tempImages == NO_IMAGES
        invariant forall k :: i <= k < |before| ==> shuffledImages.elements[k] == before[k]
      {
        CompleteFolds(images, imagesPerFold, i, folds + 1, total);
        CompleteFolds(boxes, imagesPerFold, i, folds + 1, total);
        if FirstInFold(i, imagesPerFold) {
          if currentFold == folds {
            SameCount(images, boxes, imagesPerFold, i);
            return;
          }
        }
        assert shuffledImages.elements[i] == images[i];
        currentFold, tempImages := PlaceImage(i, imagesPerFold, currentFold, tempImages, imageFolds, boxFolds, images, boxes);
        i := i + 1;
      }
      CompleteFolds(images, imagesPerFold, i, folds + 1, total);
      CompleteFolds(boxes, imagesPerFold, i, folds + 1, total);
    }

    /** Splits the shuffled images into the folds and one more, for testing; what is left over is discarded. */
    method SplitImagesIntoFolds(requested: int, randomIndex: seq<nat>)
      requires Valid() && IsPermutation(randomIndex, allImages.size)
      requires allImages.size == 0 || allImages.size >= FoldCount(requested) + 1
      modifies this
      ensures Valid() && numberOfFolds == FoldCount(requested)
      ensures numberOfFolds == if requested < 2 then 2 else requested
      ensures var n := old(allImages.size); var folds := if n == 0 then 0 else FoldCount(requested) + 1;
        var perFold := n / (FoldCount(requested) + 1);
        && folds * perFold <= n == |randomIndex|
        && FoldContents(foldedImages) == Joined(old(FoldContents(foldedImages)),
                                                Stretches(Permuted(old(allImages.Contents()), randomIndex), perFold, folds))
        && foldedBoxes == Joined(old(foldedBoxes), Stretches(Permuted(old(allBoxes), randomIndex), perFold, folds))
    {
      var folds := FoldCount(requested);
      numberOfFolds := folds;
      ShuffleImages(randomIndex);
      FoldSize(shuffledImages.size, folds + 1);
      JoinedNothing(FoldContents(foldedImages));
      JoinedNothing(foldedBoxes);
      if shuffledImages.size > 0 {
        var imagesPerFold := shuffledImages.size / (folds + 1);
        hide FoldsOk, FoldContents, Permuted, Stretches, Joined;
        FillFolds(folds, imagesPerFold, shuffledImages.Contents(), shuffledBoxes);
      }
    }

    /** Pushes a fold's images, copying each back into the fold it was moved out of. */
    method CopyFold(i: nat)
      requires FoldsOk(foldedImages) && i < foldedImages.size == |foldedBoxes|
      requires |foldedBoxes[i]| == foldedImages.elements[i].size
      requires currentImages.Valid() && currentImages.Clean(NO_IMAGE)
      modifies this`currentImages, this`currentBoxes, this`foldedImages
      ensures foldedImages == old(foldedImages) && currentImages.Valid() && currentImages.Clean(NO_IMAGE)
      ensures currentImages.Contents() == old(currentImages.Contents()) + FoldContents(foldedImages)[i]
      ensures currentBoxes == old(currentBoxes) + foldedBoxes[i]
    {
      ghost var folded, images, boxes := foldedImages, currentImages.Contents(), currentBoxes;
      ghost var fold := foldedImages.elements[i].Contents();
      hide Pushed;
      var j := 0;
      while j < foldedImages.elements[i].size
        invariant 0 <= j <= |fold| && foldedImages == folded && currentImages.Valid() && currentImages.Clean(NO_IMAGE)
        invariant currentImages.Contents() == images + fold[..j] && currentBoxes == boxes + foldedBoxes[i][..j]
      {
        var pushed := Pushed(currentImages, foldedImages.elements[i].elements[j], NO_IMAGE);
        currentImages := pushed.0;
        foldedImages := WithElement(foldedImages, i, j, pushed.1);
        assert currentImages.elements[currentImages.size - 1] == currentImages.Contents()[|images| + j] == fold[j];
        foldedImages := WithElement(foldedImages, i, j, CopyOf(currentImages.elements[currentImages.size - 1]));
        ElementRestored(folded, i, j, pushed.1);
        currentBoxes := currentBoxes + [foldedBoxes[i][j]];
        j := j + 1;
      }
    }

    /** The training data is every fold but the first and the skipped one; the folds stay as they are. */
    method CombineFoldsIntoTrainingData(skippedFold: int)
      requires FoldsOk(foldedImages) && |foldedBoxes| == foldedImages.size
      requires forall i :: 0 <= i < |foldedBoxes| ==> |foldedBoxes[i]| == foldedImages.elements[i].size
      modifies this`currentImages, this`currentBoxes, this`foldedImages
      ensures foldedImages == old(foldedImages) && currentImages.Valid()
      ensures if 0 <= skippedFold <= foldedImages.size
              then && currentImages.Contents() == Training(FoldContents(foldedImages), skippedFold, foldedImages.size)
                   && currentBoxes == Training(foldedBoxes, skippedFold, |foldedBoxes|)
              else currentImages.Contents() == [] && currentBoxes == []
    {
      currentImages := NO_IMAGES;
      currentBoxes := [];
      // A negative number is a huge unsigned one.
      if skippedFold < 0 || skippedFold > foldedImages.size {
        return;
      }
      hide FoldsOk, FoldContents;
      ghost var folded := foldedImages;
      var i := 1;
      while i < foldedImages.size
        invariant 1 <= i && foldedImages == folded && currentImages.Valid() && currentImages.Clean(NO_IMAGE)
        invariant i <= foldedImages.size || (i == 1 && foldedImages.size == 0)
        invariant i <= foldedImages.size ==>
          && currentImages.Contents() == Training(FoldContents(foldedImages), skippedFold, i)
          && currentBoxes == Training(foldedBoxes, skippedFold, i)
        invariant foldedImages.size == 0 ==> currentImages == NO_IMAGES && currentBoxes == []
      {
        if skippedFold != i {
          CopyFold(i);
        }
        i := i + 1;
      }
    }
  }

  /** A copy of an image of the same size. */
  function CopyOf(image: Image): Image
  {
    image
  }

  /** The folds with one image replaced. */
  function WithElement(folded: Store<ImageArray>, i: nat, j: nat, image: Image): Store<ImageArray>
    requires i < |folded.elements| && j < |folded.elements[i].elements|
  {
    var fold := folded.elements[i];
    Store(folded.elements[i := Store(fold.elements[j := image], fold.size)], folded.size)
  }

  lemma ElementRestored(folded: Store<ImageArray>, i: nat, j: nat, image: Image)
    requires i < |folded.elements| && j < |folded.elements[i].elements|
    ensures var w := WithElement(folded, i, j, image);
      WithElement(w, i, j, folded.elements[i].elements[j]) == folded
  {
    var fold := folded.elements[i];
    assert fold.elements[j := image][j := fold.elements[j]] == fold.elements;
    var w := WithElement(folded, i, j, image);
    assert WithElement(w, i, j, fold.elements[j]).elements == folded.elements;
  }

  /** At least two folds. */
  function FoldCount(requested: int): (k: nat)
  {
    if requested < 2 then 2 else requested
  }

  lemma FoldSize(n: nat, folds: nat)
    requires folds > 0
    ensures folds * (n / folds) <= n && (n >= folds ==> n / folds > 0)
  {
  }

  lemma {:induction false} SameCount<S, T>(s: seq<S>, t: seq<T>, perFold: nat, i: nat)
    requires perFold > 0 && i <= |s| && i <= |t|
    ensures |FoldsSoFar(s, perFold, i)| == |FoldsSoFar(t, perFold, i)|
  {
    hide FirstInFold;
    if i > 0 { SameCount(s, t, perFold, i - 1); }
  }

  lemma NothingPlaced<T>(before: seq<seq<T>>, s: seq<T>, perFold: nat)
    requires perFold > 0
    ensures |FoldsSoFar(s, perFold, 0)| == 0 && Joined(before, FoldsSoFar(s, perFold, 0)) == before
  {
    JoinedNothing(before);
  }

  /** The last fold is complete exactly when all m folds have been filled. */
  lemma CompleteFolds<T>(s: seq<T>, perFold: nat, i: nat, m: nat, total: nat)
    requires perFold > 0 && i <= total <= |s| && total == m * perFold && m > 0
    ensures i == total ==> FoldsSoFar(s, perFold, i) == Stretches(s, perFold, m)
    ensures FirstInFold(i, perFold) && |FoldsSoFar(s, perFold, i)| == m ==> i == total
    ensures i == total ==> FirstInFold(i, perFold) && |FoldsSoFar(s, perFold, i)| == m
  {
    RemainderInFold(perFold, m, 0);
    if i % perFold == 0 { FoldsComplete(s, perFold, i); }
  }

  lemma NothingExchanged<T>(shuffled: seq<T>, all: seq<T>, r: seq<nat>)
    requires forall j :: 0 <= j < |r| ==> r[j] < |all|
    ensures Exchanged(shuffled, all, r, 0) == (shuffled, all)
  {
  }

  lemma ExchangeStep<T>(shuffled: seq<T>, all: seq<T>, r: seq<nat>, i: nat)
    requires i < |r| && i < |shuffled| && forall j :: 0 <= j < |r| ==> r[j] < |all|
    ensures var (s, a) := Exchanged(shuffled, all, r, i);
      Exchanged(shuffled, all, r, i + 1) == (s[i := a[r[i]]], a[r[i] := s[i]])
  {
  }

  lemma {:induction false} StretchAt<T>(s: seq<T>, perFold: nat, m: nat, f: nat)
    requires m * perFold <= |s| && f < m
    ensures 0 <= f * perFold <= (f + 1) * perFold <= |s|
    ensures Stretches(s, perFold, m)[f] == s[f * perFold..(f + 1) * perFold]
    decreases m
  {
    StretchBounds(perFold, m);
    StretchBounds(perFold, f + 1);
    if f < m - 1 { StretchAt(s, perFold, m - 1, f); }
  }

  /** A fold has exactly the elements that its stretch of the random index names: images and boxes alike. */
  lemma FoldsFollowIndex<T>(s: seq<T>, r: seq<nat>, perFold: nat, m: nat, f: nat)
    requires IsPermutation(r, |s|) && m * perFold <= |r| && f < m
    ensures var indices: seq<nat> := Stretches(r, perFold, m)[f];
      && |indices| == perFold && (forall i :: 0 <= i < |indices| ==> indices[i] < |s|)
      && Stretches(Permuted(s, r), perFold, m)[f] == Permuted(s, indices)
  {
    StretchAt(r, perFold, m, f);
    StretchAt(Permuted(s, r), perFold, m, f);
    StretchBounds(perFold, f + 1);
  }

  /** No image is in two folds. */
  lemma FoldsDisjoint(r: seq<nat>, n: nat, perFold: nat, m: nat, f: nat, g: nat)
    requires IsPermutation(r, n) && m * perFold <= n && f < g < m
    ensures forall x :: x in Stretches(r, perFold, m)[f] ==> x !in Stretches(r, perFold, m)[g]
  {
    StretchAt(r, perFold, m, f);
    StretchAt(r, perFold, m, g);
    MulMonotone(f + 1, g, perFold);
  }

  /** The training data has everything from the folds it takes and nothing else. */
  lemma {:induction false} TrainingTakes<T>(folds: seq<seq<T>>, skipped: int, n: nat, x: T)
    requires n <= |folds|
    ensures x in Training(folds, skipped, n) <==> exists i :: 1 <= i < n && i != skipped && x in folds[i]
  {
    if n > 1 { TrainingTakes(folds, skipped, n - 1, x); }
  }

  /** No image that is used for training is in the skipped fold or in the one kept for testing. */
  lemma NoLeak(r: seq<nat>, n: nat, perFold: nat, m: nat, skipped: int, x: nat)
    requires IsPermutation(r, n) && m * perFold <= n && 0 < m
    requires x in Training(Stretches(r, perFold, m), skipped, m)
    ensures x !in Stretches(r, perFold, m)[0]
    ensures 0 <= skipped < m ==> x !in Stretches(r, perFold, m)[skipped]
  {
    var folds := Stretches(r, perFold, m);
    TrainingTakes(folds, skipped, m, x);
    var i :| 1 <= i < m && i != skipped && x in folds[i];
    FoldsDisjoint(r, n, perFold, m, 0, i);
    if 0 <= skipped < i {
      FoldsDisjoint(r, n, perFold, m, skipped, i);
    } else if i < skipped < m {
      FoldsDisjoint(r, n, perFold, m, i, skipped);
    }
  }

  /** The training data is as long as the folds it takes. */
  lemma {:induction false} TrainingLength<T>(folds: seq<seq<T>>, perFold: nat, skipped: int, n: nat)
    requires 0 < n <= |folds| && forall f :: 0 <= f < |folds| ==> |folds[f]| == perFold
    ensures |Training(folds, skipped, n)| == (n - 1 - if 1 <= skipped < n then 1 else 0) * perFold
  {
    if n > 1 {
      TrainingLength(folds, perFold, skipped, n - 1);
      var k := n - 2 - if 1 <= skipped < n - 1 then 1 else 0;
      assert (k + 1) * perFold == k * perFold + perFold;
    }
  }

  /** It takes them in order: element j of fold i is behind the folds taken before fold i. */
  lemma {:induction false} TrainingElement<T>(folds: seq<seq<T>>, perFold: nat, skipped: int, n: nat, i: nat, j: nat)
    requires n <= |folds| && forall f :: 0 <= f < |folds| ==> |folds[f]| == perFold
    requires 1 <= i < n && i != skipped && j < perFold
    ensures var at := (i - 1 - if 1 <= skipped < i then 1 else 0) * perFold + j;
      0 <= at < |Training(folds, skipped, n)| && Training(folds, skipped, n)[at] == folds[i][j]
  {
    TrainingLength(folds, perFold, skipped, n - 1);
    MulMonotone(0, i - 1 - if 1 <= skipped < i then 1 else 0, perFold);
    if i < n - 1 { TrainingElement(folds, perFold, skipped, n - 1, i, j); }
  }

  /** Place for place, a fold has what the random index names. */
  lemma FoldElement<T>(all: seq<T>, r: seq<nat>, perFold: nat, m: nat, f: nat, j: nat)
    requires IsPermutation(r, |all|) && m * perFold <= |all| && f < m && j < perFold
    ensures 0 <= f * perFold + j < |r| && |Stretches(Permuted(all, r), perFold, m)[f]| == perFold
    ensures Stretches(Permuted(all, r), perFold, m)[f][j] == all[r[f * perFold + j]]
  {
    StretchAt(Permuted(all, r), perFold, m, f);
    StretchBounds(perFold, f + 1);
  }

  lemma AllFoldsFull<T>(s: seq<T>, perFold: nat, m: nat)
    requires m * perFold <= |s|
    ensures forall f :: 0 <= f < m ==> |Stretches(s, perFold, m)[f]| == perFold
  {
    forall f | 0 <= f < m
      ensures |Stretches(s, perFold, m)[f]| == perFold
    {
      StretchAt(s, perFold, m, f);
      StretchBounds(perFold, f + 1);
    }
  }

  /** Place for place, what is trained with after a split is what the random index names. */
  lemma TrainingFollowsIndex<T>(all: seq<T>, r: seq<nat>, perFold: nat, m: nat, skipped: int, i: nat, j: nat, at: int)
    requires IsPermutation(r, |all|) && m * perFold <= |all| && 1 <= i < m && i != skipped && j < perFold
    requires at == (i - 1 - if 1 <= skipped < i then 1 else 0) * perFold + j
    ensures var data := Training(Stretches(Permuted(all, r), perFold, m), skipped, m);
      && |data| == (m - 1 - if 1 <= skipped < m then 1 else 0) * perFold
      && 0 <= i * perFold + j < |r| && 0 <= at < |data| && data[at] == all[r[i * perFold + j]]
  {
    var folds := Stretches(Permuted(all, r), perFold, m);
    AllFoldsFull(Permuted(all, r), perFold, m);
    FoldElement(all, r, perFold, m, i, j);
    hide Stretches, Training, Permuted;
    TrainingLength(folds, perFold, skipped, m);
    TrainingElement(folds, perFold, skipped, m, i, j);
  }

  /** The total length of the folds from 1 to n - 1 without the skipped one. */
  function LengthBefore<T>(folds: seq<seq<T>>, skipped: int, n: nat): (length: nat)
    requires n <= |folds|
  {
    if n <= 1 then 0 else LengthBefore(folds, skipped, n - 1) + if skipped != n - 1 then |folds[n - 1]| else 0
  }

  /** The same for folds of any sizes: each that is taken comes once, behind those taken before it. */
  lemma {:induction false} TrainingOrder<T>(folds: seq<seq<T>>, skipped: int, n: nat, i: nat, j: nat)
    requires n <= |folds| && 1 <= i < n && i != skipped && j < |folds[i]|
    ensures |Training(folds, skipped, n)| == LengthBefore(folds, skipped, n)
    ensures LengthBefore(folds, skipped, i) + j < |Training(folds, skipped, n)|
    ensures Training(folds, skipped, n)[LengthBefore(folds, skipped, i) + j] == folds[i][j]
  {
    TrainingSize(folds, skipped, n);
    TrainingSize(folds, skipped, n - 1);
    if i < n - 1 { TrainingOrder(folds, skipped, n - 1, i, j); }
  }

  lemma {:induction false} TrainingSize<T>(folds: seq<seq<T>>, skipped: int, n: nat)
    requires n <= |folds|
    ensures |Training(folds, skipped, n)| == LengthBefore(folds, skipped, n)
  {
    if n > 1 { TrainingSize(folds, skipped, n - 1); }
  }

  /** A second split leaves the images of the first where they are and adds fold f of its own behind fold f. */
  lemma SecondSplit<T>(first: seq<seq<T>>, made: seq<seq<T>>, f: nat)
    requires f < |first| + |made|
    ensures |Joined(first, made)| == |first| + |made|
    ensures f < |first| && f < |made| ==> Joined(first, made)[f] == first[f] + made[f]
    ensures |made| <= f < |first| ==> Joined(first, made)[f] == first[f]
    ensures |first| <= f < |made| ==> Joined(first, made)[f] == made[f]
    ensures |first| <= f && |made| <= f ==> Joined(first, made)[f] == []
  {
    assert forall s: seq<T> :: s + [] == s && [] + s == s;
  }

  /** No image is trained with twice. */
  lemma {:induction false} TrainingDistinct(r: seq<nat>, size: nat, perFold: nat, m: nat, skipped: int, n: nat, p: nat, q: nat)
    requires IsPermutation(r, size) && m * perFold <= size && n <= m
    requires p < q < |Training(Stretches(r, perFold, m), skipped, n)|
    ensures Training(Stretches(r, perFold, m), skipped, n)[p] != Training(Stretches(r, perFold, m), skipped, n)[q]
    decreases n
  {
    var folds := Stretches(r, perFold, m);
    var before, last := Training(folds, skipped, n - 1), folds[n - 1];
    StretchAt(r, perFold, m, n - 1);
    if q < |before| {
      TrainingDistinct(r, size, perFold, m, skipped, n - 1, p, q);
    } else if p < |before| {
      hide Stretches, Training;
      TrainingTakes(folds, skipped, n - 1, before[p]);
      var i :| 1 <= i < n - 1 && before[p] in folds[i];
      FoldsDisjoint(r, size, perFold, m, i, n - 1);
      assert last[q - |before|] in last;
    }
  }
}
