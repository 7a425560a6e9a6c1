/**
 * Box drawing (`drawBox`): paints the one-pixel border of a rectangle into an
 * image buffer in place, with the maximum value for grayscale images and pure
 * red for colour images.
 */
module Box {
  import opened ImageModel

  /** Pixel (x, y) is on the top or bottom row of a box of height bh at (x0, y0), in a column x0 <= x < xEnd. */
  predicate TopOrBottom(x0: int, y0: int, bh: int, xEnd: int, x: int, y: int)
  {
    x0 <= x < xEnd && (y == y0 || y == y0 + bh - 1)
  }

  /** Pixel (x, y) is on the left or right column of a box of width bw at (x0, y0), in a row y0 <= y < yEnd. */
  predicate LeftOrRight(x0: int, y0: int, bw: int, yEnd: int, x: int, y: int)
  {
    y0 <= y < yEnd && (x == x0 || x == x0 + bw - 1)
  }

  /**
   * Pixel (x, y) lies on the border of the bw-by-bh box anchored at (x0, y0):
   * on its top or bottom row within its columns, or on its left or right column
   * within its rows.
   */
  predicate OnBox(x0: int, y0: int, bw: int, bh: int, x: int, y: int)
  {
    TopOrBottom(x0, y0, bh, x0 + bw, x, y) || LeftOrRight(x0, y0, bw, y0 + bh, x, y)
  }

  /** The border colour: the maximum value stored as a byte for P2, (255, 0, 0) for P3. */
  function Paint(f: Format, maxColour: int, c: int): Byte
  {
    match f
    case P2 => ToByte(maxColour)
    case P3 => if c == 0 then 255 else 0
  }

  /** The image with the border of the box painted and every other sample kept. */
  function Boxed(img: Image, x0: int, y0: int, bw: int, bh: int): (r: Image)
    requires WellFormed(img)
    ensures WellFormed(r)
    ensures r.format == img.format && r.width == img.width && r.height == img.height && r.maxColour == img.maxColour
  {
    Image(img.format, img.width, img.height, img.maxColour,
          seq(|img.data|, k requires 0 <= k < |img.data| =>
            if OnBox(x0, y0, bw, bh, ColumnOf(img.width, img.format, k), RowOf(img.width, img.format, k))
            then Paint(img.format, img.maxColour, ChannelOf(img.format, k))
            else img.data[k]))
  }

  /** Exactly the border pixels change, all channels of each; every other sample is kept. */
  lemma BoxedAt(img: Image, x0: int, y0: int, bw: int, bh: int, x: int, y: int, c: int)
    requires WellFormed(img) && 0 <= x < img.width && 0 <= y < img.height && 0 <= c < Channels(img.format)
    ensures OnBox(x0, y0, bw, bh, x, y) ==> At(Boxed(img, x0, y0, bw, bh), x, y, c) == Paint(img.format, img.maxColour, c)
    ensures !OnBox(x0, y0, bw, bh, x, y) ==> At(Boxed(img, x0, y0, bw, bh), x, y, c) == At(img, x, y, c)
  {
    IndexBounds(img.width, img.height, img.format, x, y, c);
    Decompose(img.width, img.format, x, y, c);
  }

  /** Paints every channel of pixel (x, y) with the border colour and changes nothing else. */
  method PaintPixel(img: PPMImage, x: int, y: int)
    requires img.Valid() && 0 <= x < img.width && 0 <= y < img.height
    modifies img.data
    ensures forall k :: 0 <= k < img.data.Length ==>
              img.data[k] == if ColumnOf(img.width, img.format, k) == x && RowOf(img.width, img.format, k) == y
                             then Paint(img.format, img.maxColour, ChannelOf(img.format, k)) else old(img.data[k])
  {
    IndexBounds(img.width, img.height, img.format, x, y, Channels(img.format) - 1);
    if img.format == P2 {
      img.data[y * img.width + x] := ToByte(img.maxColour);
    } else {
      var p := (y * img.width + x) * 3;
      img.data[p] := 255;
      img.data[p + 1] := 0;
      img.data[p + 2] := 0;
    }
    forall k | 0 <= k < img.data.Length
      ensures (ColumnOf(img.width, img.format, k) == x && RowOf(img.width, img.format, k) == y) <==>
              Index(img.width, img.format, x, y, 0) <= k < Index(img.width, img.format, x, y, 0) + Channels(img.format)
      ensures Index(img.width, img.format, x, y, 0) <= k < Index(img.width, img.format, x, y, 0) + Channels(img.format) ==>
              ChannelOf(img.format, k) == k - Index(img.width, img.format, x, y, 0)
    {
      PixelSamples(img.width, img.height, img.format, x, y, k);
    }
  }

  /**
   * drawBox: paints the border of the box in place, the top and bottom rows
   * first, then the left and right columns. The box must lie inside the image.
   */
  method DrawBox(img: PPMImage, x: int, y: int, bw: int, bh: int)
    requires img.Valid() && 0 <= x && 0 <= y && 1 <= bw && 1 <= bh
    requires x + bw <= img.width && y + bh <= img.height
    modifies img.data
    ensures img.Value() == Boxed(old(img.Value()), x, y, bw, bh)
  {
    ghost var before := img.data[..];
    var i := x;
    while i < x + bw
      invariant x <= i <= x + bw
      invariant forall k :: 0 <= k < img.data.Length ==>
                  img.data[k] == if TopOrBottom(x, y, bh, i, ColumnOf(img.width, img.format, k), RowOf(img.width, img.format, k))
                                 then Paint(img.format, img.maxColour, ChannelOf(img.format, k)) else before[k]
    {
      PaintPixel(img, i, y);
      PaintPixel(img, i, y + bh - 1);
      i := i + 1;
    }
    var j := y;
    while j < y + bh
      invariant y <= j <= y + bh
      invariant forall k :: 0 <= k < img.data.Length ==>
                  img.data[k] == if TopOrBottom(x, y, bh, x + bw, ColumnOf(img.width, img.format, k), RowOf(img.width, img.format, k)) ||
                                    LeftOrRight(x, y, bw, j, ColumnOf(img.width, img.format, k), RowOf(img.width, img.format, k))
                                 then Paint(img.format, img.maxColour, ChannelOf(img.format, k)) else before[k]
    {
      PaintPixel(img, x, j);
      PaintPixel(img, x + bw - 1, j);
      j := j + 1;
    }
    assert img.Value().data == Boxed(old(img.Value()), x, y, bw, bh).data;
  }
}
