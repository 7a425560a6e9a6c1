/**
 * The in-memory image of the PPM processor: a format tag, the dimensions, the
 * declared maximum colour value and a flat buffer of 8-bit samples, one per
 * pixel for grayscale (P2) and a red, green, blue triple per pixel for colour
 * (P3), in row-major order without padding.
 */
module ImageModel {

  /** One sample, as the `unsigned char` the buffer stores. */
  type Byte = x: int | 0 <= x < 256

  /** Conversion of a C `int` to `unsigned char`: reduction modulo 256. */
  function ToByte(n: int): (b: Byte)
    ensures (n - b) % 256 == 0
    ensures 0 <= n < 256 ==> b == n
  {
    n % 256
  }

  datatype Format = P2 | P3

  /** Samples per pixel: 1 for grayscale, 3 for colour. */
  function Channels(f: Format): nat
  {
    match f
    case P2 => 1
    case P3 => 3
  }

  /** Number of samples that n pixels occupy in the buffer. */
  function SampleCount(f: Format, n: int): int
  {
    match f
    case P2 => n
    case P3 => 3 * n
  }

  /** The errors the operations report instead of producing a broken image. */
  datatype Error =
    | BadTag          // the format tag is neither "P2" nor "P3"
    | BadHeader       // width, height or maximum value missing, malformed or not positive
    | Truncated       // fewer sample tokens than the header announces
    | BadSample       // a sample token that is not a decimal integer
    | SizeMismatch    // blending images of different width or height
    | FormatMismatch  // blending or searching images of different formats

  datatype Image = Image(format: Format, width: int, height: int, maxColour: int, data: seq<Byte>)

  /** A decoded image: positive header values and a buffer of exactly width*height*channels samples. */
  predicate WellFormed(img: Image)
  {
    img.width > 0 && img.height > 0 && img.maxColour > 0 &&
    |img.data| == SampleCount(img.format, img.width * img.height)
  }

  // ---------------------------------------------------------------------
  // Flat-index arithmetic

  /** Position of channel c of pixel (x, y) in the buffer of an image w pixels wide: (y*w + x)*channels + c. */
  function Index(w: int, f: Format, x: int, y: int, c: int): int
  {
    SampleCount(f, y * w + x) + c
  }

  /** The pixel, counted in row-major order, that buffer position k belongs to. */
  function PixelOf(f: Format, k: int): int
  {
    match f
    case P2 => k
    case P3 => k / 3
  }

  /** The column, row and channel that buffer position k belongs to. */
  function ColumnOf(w: int, f: Format, k: int): int
    requires w > 0
  {
    PixelOf(f, k) % w
  }

  function RowOf(w: int, f: Format, k: int): int
    requires w > 0
  {
    PixelOf(f, k) / w
  }

  function ChannelOf(f: Format, k: int): int
  {
    match f
    case P2 => 0
    case P3 => k % 3
  }

  /** The sample at channel c of pixel (x, y). */
  function At(img: Image, x: int, y: int, c: int): Byte
    requires WellFormed(img)
    requires 0 <= x < img.width && 0 <= y < img.height && 0 <= c < Channels(img.format)
  {
    IndexBounds(img.width, img.height, img.format, x, y, c);
    img.data[Index(img.width, img.format, x, y, c)]
  }

  lemma MulLe(a: int, b: int, c: int)
    requires 0 <= c && a <= b
    ensures a * c <= b * c
  {
    assert b * c - a * c == (b - a) * c;
  }

  lemma MulStrictMono(a: int, b: int, c: int)
    requires c > 0 && a * c < b * c
    ensures a < b
  {
    if a >= b {
      MulLe(b, a, c);
    }
  }

  lemma DivModUnique(n: int, d: int, q: int, r: int)
    requires d > 0 && 0 <= r < d && n == q * d + r
    ensures n / d == q && n % d == r
  {
    var q', r' := n / d, n % d;
    assert n == q' * d + r';
    if q' > q {
      MulLe(q + 1, q', d);
      assert false;
    } else if q' < q {
      MulLe(q' + 1, q, d);
      assert false;
    }
  }

  /** Pixel (x, y) of a w-by-h image is one of its w*h pixels. */
  lemma PixelBounds(w: int, h: int, x: int, y: int)
    requires 0 <= x < w && 0 <= y < h
    ensures 0 <= y * w + x < w * h
  {
    MulLe(0, y, w);
    MulLe(y, h - 1, w);
  }

  /** Every in-range coordinate lands inside the buffer. */
  lemma IndexBounds(w: int, h: int, f: Format, x: int, y: int, c: int)
    requires 0 <= x < w && 0 <= y < h && 0 <= c < Channels(f)
    ensures 0 <= Index(w, f, x, y, c) < SampleCount(f, w * h)
  {
    PixelBounds(w, h, x, y);
  }

  /** Decoding a flat index recovers the coordinates it was computed from. */
  lemma Decompose(w: int, f: Format, x: int, y: int, c: int)
    requires w > 0 && 0 <= x < w && 0 <= y && 0 <= c < Channels(f)
    ensures ColumnOf(w, f, Index(w, f, x, y, c)) == x
    ensures RowOf(w, f, Index(w, f, x, y, c)) == y
    ensures ChannelOf(f, Index(w, f, x, y, c)) == c
  {
    var p := y * w + x;
    if f == P3 {
      DivModUnique(Index(w, f, x, y, c), 3, p, c);
    }
    assert PixelOf(f, Index(w, f, x, y, c)) == p;
    DivModUnique(p, w, y, x);
  }

  /** Every buffer position is the flat index of an in-range coordinate. */
  lemma Recompose(w: int, h: int, f: Format, k: int)
    requires w > 0 && h > 0 && 0 <= k < SampleCount(f, w * h)
    ensures 0 <= ColumnOf(w, f, k) < w && 0 <= RowOf(w, f, k) < h && 0 <= ChannelOf(f, k) < Channels(f)
    ensures k == Index(w, f, ColumnOf(w, f, k), RowOf(w, f, k), ChannelOf(f, k))
  {
    var p := PixelOf(f, k);
    assert 0 <= p < w * h && k == SampleCount(f, p) + ChannelOf(f, k);
    var y, x := p / w, p % w;
    assert p == y * w + x && 0 <= x < w;
    assert 0 <= y by {
      if y < 0 { MulLe(y, -1, w); }
    }
    assert y * w < h * w;
    MulStrictMono(y, h, w);
  }

  /** The buffer positions of pixel (x, y) are exactly its Channels(f) consecutive samples. */
  lemma PixelSamples(w: int, h: int, f: Format, x: int, y: int, k: int)
    requires 0 <= x < w && 0 <= y < h && 0 <= k < SampleCount(f, w * h)
    ensures (ColumnOf(w, f, k) == x && RowOf(w, f, k) == y) <==>
            Index(w, f, x, y, 0) <= k < Index(w, f, x, y, 0) + Channels(f)
    ensures Index(w, f, x, y, 0) <= k < Index(w, f, x, y, 0) + Channels(f) ==>
            ChannelOf(f, k) == k - Index(w, f, x, y, 0)
  {
    Recompose(w, h, f, k);
    if Index(w, f, x, y, 0) <= k < Index(w, f, x, y, 0) + Channels(f) {
      Decompose(w, f, x, y, k - Index(w, f, x, y, 0));
    }
  }

  // ---------------------------------------------------------------------
  // The heap object

  /**
   * The `PPMImage` record: header fields fixed when the image is built and a
   * heap buffer whose samples the operations write.
   */
  class PPMImage {
    const format: Format
    const width: int
    const height: int
    const maxColour: int
    const data: array<Byte>

    constructor (format: Format, width: int, height: int, maxColour: int, data: array<Byte>)
      ensures this.format == format && this.width == width && this.height == height
      ensures this.maxColour == maxColour && this.data == data
    {
      this.format := format;
      this.width := width;
      this.height := height;
      this.maxColour := maxColour;
      this.data := data;
    }

    /** The buffer has exactly the size the header calls for. */
    ghost predicate Valid()
    {
      width > 0 && height > 0 && maxColour > 0 &&
      (format == P2 ==> data.Length == width * height) &&
      (format == P3 ==> data.Length == 3 * (width * height))
    }

    /** The image value this object currently holds. */
    ghost function Value(): (img: Image)
      reads data
      ensures Valid() ==> WellFormed(img)
    {
      Image(format, width, height, maxColour, data[..])
    }
  }
}
