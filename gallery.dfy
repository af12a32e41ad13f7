/**
 * The property gallery: the image list padded to four entries for the
 * one-large-three-small layout, and the full-screen viewer stepping through
 * it with wrap-around.
 */
module Gallery {

  /** The stock photo shown when a listing has no usable first image. */
  const Placeholder: string := "https://images.unsplash.com/photo-1600596542815-ffad4c1539a9?w=1200&q=80"

  /** The layout shows one large and three small images. */
  const MinDisplayed: nat := 4

  /**
   * `images[0] || placeholder`: the first url when there is one and it is
   * not empty; otherwise (an empty url is falsy, and so is a missing one)
   * the stock photo. Either way the fill is never empty.
   */
  function Fill(images: seq<string>): (r: string)
    ensures r != ""
    ensures images != [] && images[0] != "" ==> r == images[0]
    ensures images == [] || images[0] == "" ==> r == Placeholder
  {
    if images != [] && images[0] != "" then images[0] else Placeholder
  }

  function Max(a: nat, b: nat): nat {
    if a < b then b else a
  }

  /**
   * displayImages: a copy of the images, then the fill pushed until there are
   * four. Nothing of the original changes and every added slot is the fill.
   */
  method PadImages(images: seq<string>) returns (displayImages: seq<string>)
    ensures |displayImages| == Max(MinDisplayed, |images|)
    ensures displayImages[..|images|] == images
    ensures forall i :: |images| <= i < |displayImages| ==> displayImages[i] == Fill(images)
  {
    displayImages := images;
    while |displayImages| < MinDisplayed
      invariant |images| <= |displayImages| <= Max(MinDisplayed, |images|)
      invariant displayImages[..|images|] == images
      invariant forall i :: |images| <= i < |displayImages| ==> displayImages[i] == Fill(images)
      decreases MinDisplayed - |displayImages|
    {
      displayImages := displayImages + [Fill(images)];
    }
  }

  /** goToNext: the last index goes to 0, every other index one up; an index of the list stays one. */
  function Next(i: int, n: int): (r: int)
    ensures 0 <= i < n ==> 0 <= r < n
  {
    if i == n - 1 then 0 else i + 1
  }

  /** goToPrevious: index 0 goes to the last, every other index one down; an index of the list stays one. */
  function Previous(i: int, n: int): (r: int)
    ensures 0 <= i < n ==> 0 <= r < n
  {
    if i == 0 then n - 1 else i - 1
  }

  /** Both steps stay within the list and are stepping modulo its length. */
  lemma StepsWrapAround(i: int, n: int)
    requires 0 <= i < n
    ensures 0 <= Next(i, n) < n && Next(i, n) == (i + 1) % n
    ensures 0 <= Previous(i, n) < n && Previous(i, n) == (i - 1) % n
  {
  }

  /** Stepping back undoes stepping forward and the other way round. */
  lemma StepsInverse(i: int, n: int)
    requires 0 <= i < n
    ensures Previous(Next(i, n), n) == i
    ensures Next(Previous(i, n), n) == i
  {
  }

  /** The viewer of one gallery. */
  class Viewer {
    /** displayImages */
    const displayImages: seq<string>
    /** isOpen */
    var isOpen: bool
    /** currentIndex */
    var currentIndex: int

    /** The index points at an image of the padded list. */
    predicate Valid()
      reads this
    {
      |displayImages| >= MinDisplayed && 0 <= currentIndex < |displayImages|
    }

    constructor (images: seq<string>)
      ensures |displayImages| == Max(MinDisplayed, |images|) && displayImages[..|images|] == images
      ensures forall i :: |images| <= i < |displayImages| ==> displayImages[i] == Fill(images)
      ensures !isOpen && currentIndex == 0
      ensures Valid()
    {
      var padded := PadImages(images);
      displayImages := padded;
      isOpen := false;
      currentIndex := 0;
    }

    /** openViewer: shows image index. */
    method OpenViewer(index: int)
      modifies this
      ensures isOpen && currentIndex == index
    {
      currentIndex := index;
      isOpen := true;
    }

    /** The large image opens the viewer at the first image. */
    method OpenMain()
      requires Valid()
      modifies this
      ensures isOpen && currentIndex == 0 && Valid()
    {
      OpenViewer(0);
    }

    /** Small image k of `displayImages.slice(1, 4)` opens the viewer at image k + 1. */
    method OpenThumbnail(k: int)
      requires Valid() && 0 <= k < |displayImages[1..MinDisplayed]|
      modifies this
      ensures isOpen && currentIndex == k + 1 && displayImages[currentIndex] == displayImages[1..MinDisplayed][k]
      ensures Valid()
    {
      OpenViewer(k + 1);
    }

    method GoToPrevious()
      modifies this
      ensures currentIndex == Previous(old(currentIndex), |displayImages|)
      ensures isOpen == old(isOpen)
      ensures old(Valid()) ==> Valid()
    {
      if old(Valid()) { StepsWrapAround(currentIndex, |displayImages|); }
      currentIndex := if currentIndex == 0 then |displayImages| - 1 else currentIndex - 1;
    }

    method GoToNext()
      modifies this
      ensures currentIndex == Next(old(currentIndex), |displayImages|)
      ensures isOpen == old(isOpen)
      ensures old(Valid()) ==> Valid()
    {
      if old(Valid()) { StepsWrapAround(currentIndex, |displayImages|); }
      currentIndex := if currentIndex == |displayImages| - 1 then 0 else currentIndex + 1;
    }

    /** A thumbnail of the viewer's strip shows its image. */
    method SelectThumbnail(index: int)
      requires 0 <= index < |displayImages|
      modifies this
      ensures currentIndex == index && isOpen == old(isOpen)
      ensures |displayImages| >= MinDisplayed ==> Valid()
    {
      currentIndex := index;
    }

    /** The close button hides the viewer and keeps the index. */
    method Close()
      modifies this
      ensures !isOpen && currentIndex == old(currentIndex)
    {
      isOpen := false;
    }
  }

  /** Next then previous leaves the viewer where it was. */
  method NextThenPrevious(v: Viewer)
    requires v.Valid()
    modifies v
    ensures v.currentIndex == old(v.currentIndex) && v.Valid()
  {
    StepsInverse(v.currentIndex, |v.displayImages|);
    v.GoToNext();
    v.GoToPrevious();
  }
}
