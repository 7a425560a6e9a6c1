/**
 * Pattern search (`patternPPM`, with the format check the menu performs
 * before calling it): the first position, scanning anchors column by column
 * and within a column row by row, at which the needle image occurs exactly in
 * the haystack image; on success a copy of the haystack with the found
 * region's border painted.
 */
module Pattern {
  import opened Wrappers
  import opened ImageModel
  import opened Box

  /** Both images decoded and of the same format: the setting every search runs in. */
  predicate Comparable(hay: Image, needle: Image)
  {
    WellFormed(hay) && WellFormed(needle) && hay.format == needle.format
  }

  /** (x1, y1) is an anchor the search tries: 0 <= x1 <= W1 - W2 and 0 <= y1 <= H1 - H2. */
  predicate Anchor(hay: Image, needle: Image, x1: int, y1: int)
  {
    0 <= x1 <= hay.width - needle.width && 0 <= y1 <= hay.height - needle.height
  }

  /** Needle pixel (x2, y2) equals haystack pixel (x1 + x2, y1 + y2) on every channel. */
  predicate PixelMatches(hay: Image, needle: Image, x1: int, y1: int, x2: int, y2: int)
    requires Comparable(hay, needle) && Anchor(hay, needle, x1, y1)
    requires 0 <= x2 < needle.width && 0 <= y2 < needle.height
  {
    forall c :: 0 <= c < Channels(needle.format) ==> At(hay, x1 + x2, y1 + y2, c) == At(needle, x2, y2, c)
  }

  /** The needle occurs at anchor (x1, y1). */
  predicate MatchesAt(hay: Image, needle: Image, x1: int, y1: int)
    requires Comparable(hay, needle) && Anchor(hay, needle, x1, y1)
  {
    forall x2, y2 :: 0 <= x2 < needle.width && 0 <= y2 < needle.height ==> PixelMatches(hay, needle, x1, y1, x2, y2)
  }

  /** Anchor (x, y) is tried before anchor (x', y'): x-outer, y-inner order. */
  predicate Before(x: int, y: int, x': int, y': int)
  {
    x < x' || (x == x' && y < y')
  }

  /** The first matching anchor at or after (x, y) in search order. */
  function FindFrom(hay: Image, needle: Image, x: int, y: int): Option<(int, int)>
    requires Comparable(hay, needle) && 0 <= x && 0 <= y
    decreases hay.width - needle.width - x + 1, hay.height - needle.height - y + 1
  {
    if x > hay.width - needle.width then None
    else if y > hay.height - needle.height then FindFrom(hay, needle, x + 1, 0)
    else if MatchesAt(hay, needle, x, y) then Some((x, y))
    else FindFrom(hay, needle, x, y + 1)
  }

  /** The anchor patternPPM reports, if any. */
  function Search(hay: Image, needle: Image): Option<(int, int)>
    requires Comparable(hay, needle)
  {
    FindFrom(hay, needle, 0, 0)
  }

  /** FindFrom returns the earliest match among the anchors at or after (x, y), and None when there is none. */
  lemma {:induction false} FindFromFirst(hay: Image, needle: Image, x: int, y: int)
    requires Comparable(hay, needle) && 0 <= x && 0 <= y
    ensures FindFrom(hay, needle, x, y).Some? ==>
              var (fx, fy) := FindFrom(hay, needle, x, y).value;
              Anchor(hay, needle, fx, fy) && MatchesAt(hay, needle, fx, fy) && !Before(fx, fy, x, y) &&
              forall x', y' :: Anchor(hay, needle, x', y') && !Before(x', y', x, y) && Before(x', y', fx, fy) ==>
                                 !MatchesAt(hay, needle, x', y')
    ensures FindFrom(hay, needle, x, y).None? ==>
              forall x', y' :: Anchor(hay, needle, x', y') && !Before(x', y', x, y) ==> !MatchesAt(hay, needle, x', y')
    decreases hay.width - needle.width - x + 1, hay.height - needle.height - y + 1
  {
    if x > hay.width - needle.width {
    } else if y > hay.height - needle.height {
      FindFromFirst(hay, needle, x + 1, 0);
    } else if MatchesAt(hay, needle, x, y) {
    } else {
      FindFromFirst(hay, needle, x, y + 1);
    }
  }

  /**
   * The search result is a matching anchor before which no anchor matches;
   * the search fails exactly when no anchor matches.
   */
  lemma SearchFirst(hay: Image, needle: Image)
    requires Comparable(hay, needle)
    ensures Search(hay, needle).Some? ==>
              var (x, y) := Search(hay, needle).value;
              Anchor(hay, needle, x, y) && MatchesAt(hay, needle, x, y) &&
              forall x', y' :: Anchor(hay, needle, x', y') && Before(x', y', x, y) ==> !MatchesAt(hay, needle, x', y')
    ensures Search(hay, needle).None? <==>
              forall x', y' :: Anchor(hay, needle, x', y') ==> !MatchesAt(hay, needle, x', y')
  {
    FindFromFirst(hay, needle, 0, 0);
  }

  /** A needle wider or taller than the haystack is never found. */
  lemma NeedleTooLarge(hay: Image, needle: Image)
    requires Comparable(hay, needle)
    requires needle.width > hay.width || needle.height > hay.height
    ensures Search(hay, needle).None?
  {
    SearchFirst(hay, needle);
  }

  /** A needle that occurs at some anchor is found there or at an earlier anchor. */
  lemma SearchFindsOccurrence(hay: Image, needle: Image, x: int, y: int)
    requires Comparable(hay, needle) && Anchor(hay, needle, x, y) && MatchesAt(hay, needle, x, y)
    ensures Search(hay, needle).Some?
    ensures !Before(x, y, Search(hay, needle).value.0, Search(hay, needle).value.1)
  {
    SearchFirst(hay, needle);
  }

  /**
   * What the pattern operation yields: an error for images of different
   * formats, no image when the needle does not occur, and otherwise the
   * haystack with the border of the first occurrence painted.
   */
  function Find(hay: Image, needle: Image): (r: Result<Option<Image>, Error>)
    requires WellFormed(hay) && WellFormed(needle)
    ensures r.Failure? <==> hay.format != needle.format
    ensures r.Failure? ==> r.error == FormatMismatch
    ensures r.Success? && r.value.Some? ==>
              WellFormed(r.value.value) && r.value.value.format == hay.format && r.value.value.width == hay.width &&
              r.value.value.height == hay.height && r.value.value.maxColour == hay.maxColour
  {
    if hay.format != needle.format then Failure(FormatMismatch)
    else match Search(hay, needle)
      case None => Success(None)
      case Some((x, y)) => Success(Some(Boxed(hay, x, y, needle.width, needle.height)))
  }

  /** On success the boxed copy keeps the haystack's header and every sample off the box's border. */
  lemma FindKeepsHaystack(hay: Image, needle: Image, x: int, y: int, c: int)
    requires WellFormed(hay) && WellFormed(needle)
    requires 0 <= x < hay.width && 0 <= y < hay.height && 0 <= c < Channels(hay.format)
    requires Find(hay, needle).Success? && Find(hay, needle).value.Some?
    ensures var img := Find(hay, needle).value.value;
            var (x1, y1) := Search(hay, needle).value;
            WellFormed(img) && img.format == hay.format && img.width == hay.width && img.height == hay.height &&
            img.maxColour == hay.maxColour &&
            (OnBox(x1, y1, needle.width, needle.height, x, y) ==> At(img, x, y, c) == Paint(hay.format, hay.maxColour, c)) &&
            (!OnBox(x1, y1, needle.width, needle.height, x, y) ==> At(img, x, y, c) == At(hay, x, y, c))
  {
    var (x1, y1) := Search(hay, needle).value;
    BoxedAt(hay, x1, y1, needle.width, needle.height, x, y, c);
  }

  // ---------------------------------------------------------------------
  // The imperative search

  /** The two inner loops of patternPPM: compares the needle with the haystack at anchor (x1, y1). */
  method MatchAt(hay: PPMImage, needle: PPMImage, x1: int, y1: int) returns (m: bool)
    requires hay.Valid() && needle.Valid() && hay.format == needle.format
    requires Anchor(hay.Value(), needle.Value(), x1, y1)
    ensures m == MatchesAt(hay.Value(), needle.Value(), x1, y1)
  {
    ghost var h, n := hay.Value(), needle.Value();
    m := true;
    var x2 := 0;
    while x2 < needle.width
      invariant 0 <= x2 <= needle.width && m
      invariant forall x', y' :: 0 <= x' < x2 && 0 <= y' < needle.height ==> PixelMatches(h, n, x1, y1, x', y')
    {
      var y2 := 0;
      while y2 < needle.height
        invariant 0 <= y2 <= needle.height && m
        invariant forall y' :: 0 <= y' < y2 ==> PixelMatches(h, n, x1, y1, x2, y')
      {
        IndexBounds(hay.width, hay.height, hay.format, x1 + x2, y1 + y2, Channels(hay.format) - 1);
        IndexBounds(needle.width, needle.height, needle.format, x2, y2, Channels(needle.format) - 1);
        if hay.format == P2 {
          var px1 := (y1 + y2) * hay.width + (x1 + x2);
          var px2 := y2 * needle.width + x2;
          if hay.data[px1] != needle.data[px2] {
            assert !PixelMatches(h, n, x1, y1, x2, y2) by {
              assert At(h, x1 + x2, y1 + y2, 0) != At(n, x2, y2, 0);
            }
            m := false;
            break;
          }
        } else {
          var px1 := 3 * ((y1 + y2) * hay.width + (x1 + x2));
          var px2 := 3 * (y2 * needle.width + x2);
          if hay.data[px1] != needle.data[px2] ||
             hay.data[px1 + 1] != needle.data[px2 + 1] ||
             hay.data[px1 + 2] != needle.data[px2 + 2] {
            assert !PixelMatches(h, n, x1, y1, x2, y2) by {
              assert At(h, x1 + x2, y1 + y2, 0) != At(n, x2, y2, 0) ||
                     At(h, x1 + x2, y1 + y2, 1) != At(n, x2, y2, 1) ||
                     At(h, x1 + x2, y1 + y2, 2) != At(n, x2, y2, 2);
            }
            m := false;
            break;
          }
        }
        y2 := y2 + 1;
      }
      if !m {
        break;
      }
      x2 := x2 + 1;
    }
  }

  /** A fresh image holding the same header and a copy of every sample of img. */
  method CopyImage(img: PPMImage) returns (r: PPMImage)
    requires img.Valid()
    ensures fresh(r) && fresh(r.data) && r.Valid() && r.Value() == img.Value()
  {
    var data := new Byte[img.data.Length](_ => 0);
    var i := 0;
    while i < data.Length
      invariant 0 <= i <= data.Length
      invariant forall k :: 0 <= k < i ==> data[k] == img.data[k]
    {
      data[i] := img.data[i];
      i := i + 1;
    }
    r := new PPMImage(img.format, img.width, img.height, img.maxColour, data);
    assert r.Value().data == img.Value().data;
  }

  /** The bound of patternPPM's copy loop as written: width * height * 3 samples, whatever the format. */
  function CopyBoundAsWritten(img: Image): int
  {
    img.width * img.height * 3
  }

  /** For a grayscale image that bound lies two samples per pixel past the end of the buffer. */
  lemma GrayCopyOverruns(img: Image)
    requires WellFormed(img) && img.format == P2
    ensures CopyBoundAsWritten(img) == |img.data| + 2 * (img.width * img.height)
    ensures CopyBoundAsWritten(img) > |img.data|
  {
    MulLe(1, img.width, img.height);
  }

  /**
   * patternPPM: scans the anchors in search order; at the first match returns
   * a copy of the haystack with the border of the found region painted, and
   * returns no image when no anchor matches.
   */
  method PatternPPM(hay: PPMImage, needle: PPMImage) returns (r: Result<Option<PPMImage>, Error>)
    requires hay.Valid() && needle.Valid()
    ensures r.Failure? <==> Find(hay.Value(), needle.Value()).Failure?
    ensures r.Failure? ==> r.error == Find(hay.Value(), needle.Value()).error
    ensures r.Success? ==> (r.value.None? <==> Find(hay.Value(), needle.Value()).value.None?)
    ensures r.Success? && r.value.Some? ==>
              fresh(r.value.value) && fresh(r.value.value.data) && r.value.value.Valid() &&
              r.value.value.Value() == Find(hay.Value(), needle.Value()).value.value
  {
    if hay.format != needle.format {
      return Failure(FormatMismatch);
    }
    ghost var h, n := hay.Value(), needle.Value();
    var x1 := 0;
    while x1 <= hay.width - needle.width
      invariant 0 <= x1 && (x1 == 0 || x1 <= hay.width - needle.width + 1)
      invariant Search(h, n) == FindFrom(h, n, x1, 0)
    {
      var y1 := 0;
      while y1 <= hay.height - needle.height
        invariant 0 <= y1 && (y1 == 0 || y1 <= hay.height - needle.height + 1)
        invariant Search(h, n) == FindFrom(h, n, x1, y1)
      {
        var m := MatchAt(hay, needle, x1, y1);
        if m {
          var copy := CopyImage(hay);
          DrawBox(copy, x1, y1, needle.width, needle.height);
          return Success(Some(copy));
        }
        y1 := y1 + 1;
      }
      x1 := x1 + 1;
    }
    return Success(None);
  }
}
