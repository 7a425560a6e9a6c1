/**
 * Image blending (`addPPM`, with the checks the menu performs before calling
 * it): two images of the same size and format are averaged sample by sample.
 */
module Blend {
  import opened Wrappers
  import opened ImageModel

  /** The C expression `(a + b) / 2` on two unsigned chars: promoted to int, truncating division. */
  function Average(p: Byte, q: Byte): (r: Byte)
    ensures 2 * r <= p + q <= 2 * r + 1
  {
    (p + q) / 2
  }

  /**
   * The combined image: the header of the first image and the average of every
   * pair of corresponding samples. Images of different width or height are
   * rejected first, then images of different formats.
   */
  function Blend(a: Image, b: Image): (r: Result<Image, Error>)
    requires WellFormed(a) && WellFormed(b)
    ensures r.Failure? <==> a.width != b.width || a.height != b.height || a.format != b.format
    ensures r.Failure? ==> r.error == (if a.width != b.width || a.height != b.height then SizeMismatch else FormatMismatch)
    ensures r.Success? ==> WellFormed(r.value) && r.value.format == a.format && r.value.width == a.width &&
                           r.value.height == a.height && r.value.maxColour == a.maxColour
    ensures r.Success? ==> |r.value.data| == |a.data| == |b.data| &&
                           forall k :: 0 <= k < |a.data| ==> r.value.data[k] == Average(a.data[k], b.data[k])
  {
    if a.width != b.width || a.height != b.height then Failure(SizeMismatch)
    else if a.format != b.format then Failure(FormatMismatch)
    else Success(Image(a.format, a.width, a.height, a.maxColour,
                       seq(|a.data|, k requires 0 <= k < |a.data| => Average(a.data[k], b.data[k]))))
  }

  /** Every blended sample lies between the two samples it comes from. */
  lemma AverageBetween(p: Byte, q: Byte)
    ensures p <= q ==> p <= Average(p, q) <= q
    ensures q <= p ==> q <= Average(p, q) <= p
    ensures Average(p, q) == Average(q, p)
  {
  }

  /** Blending is symmetric: the same verdict, the same samples; only the header's maximum value comes from the first image. */
  lemma BlendCommutes(a: Image, b: Image)
    requires WellFormed(a) && WellFormed(b)
    ensures Blend(a, b).Success? <==> Blend(b, a).Success?
    ensures Blend(a, b).Failure? ==> Blend(a, b).error == Blend(b, a).error
    ensures Blend(a, b).Success? ==> Blend(a, b).value.data == Blend(b, a).value.data
  {
    if Blend(a, b).Success? {
      var ab, ba := Blend(a, b).value.data, Blend(b, a).value.data;
      forall k | 0 <= k < |ab|
        ensures ab[k] == ba[k]
      {
        AverageBetween(a.data[k], b.data[k]);
      }
    }
  }

  /** Blending an image with itself gives the image back. */
  lemma BlendSelf(a: Image)
    requires WellFormed(a)
    ensures Blend(a, a) == Success(a)
  {
    var r := Blend(a, a).value;
    assert r.data == a.data;
  }

  /** addPPM: a fresh image with the first image's header whose buffer holds the averages. */
  method AddPPM(a: PPMImage, b: PPMImage) returns (r: Result<PPMImage, Error>)
    requires a.Valid() && b.Valid()
    ensures r.Success? <==> Blend(a.Value(), b.Value()).Success?
    ensures r.Failure? ==> r.error == Blend(a.Value(), b.Value()).error
    ensures r.Success? ==> fresh(r.value) && fresh(r.value.data) && r.value.Valid() &&
                           r.value.Value() == Blend(a.Value(), b.Value()).value
  {
    if a.width != b.width || a.height != b.height {
      return Failure(SizeMismatch);
    }
    if a.format != b.format {
      return Failure(FormatMismatch);
    }
    var data := new Byte[a.data.Length](_ => 0);
    AverageInto(a, b, data);
    var combined := new PPMImage(a.format, a.width, a.height, a.maxColour, data);
    assert combined.Value().data == Blend(a.Value(), b.Value()).value.data;
    return Success(combined);
  }

  /** addPPM's loop: every sample of data becomes the average of the corresponding samples of a and b. */
  method AverageInto(a: PPMImage, b: PPMImage, data: array<Byte>)
    requires a.Valid() && b.Valid() && a.width == b.width && a.height == b.height && a.format == b.format
    requires data.Length == a.data.Length && data != a.data && data != b.data
    modifies data
    ensures forall k :: 0 <= k < data.Length ==> data[k] == Average(a.data[k], b.data[k])
  {
    var pixels := a.width * a.height;
    var i := 0;
    while i < pixels
      invariant 0 <= i <= pixels
      invariant forall k :: 0 <= k < SampleCount(a.format, i) ==> data[k] == Average(a.data[k], b.data[k])
    {
      if a.format == P2 {
        data[i] := (a.data[i] as int + b.data[i]) / 2;
      } else {
        data[i * 3] := (a.data[i * 3] as int + b.data[i * 3]) / 2;
        data[i * 3 + 1] := (a.data[i * 3 + 1] as int + b.data[i * 3 + 1]) / 2;
        data[i * 3 + 2] := (a.data[i * 3 + 2] as int + b.data[i * 3 + 2]) / 2;
      }
      i := i + 1;
    }
  }
}
