/**
 * Sobel edge detection (`edgePPM`): every interior pixel of the result gets,
 * channel by channel, half of the 8-bit truncated sum of the absolute
 * horizontal and vertical Sobel responses of its 3x3 neighbourhood; the
 * outermost rows and columns are never written and keep their initial zero.
 */
module Edge {
  import opened ImageModel

  /** The two convolution kernels, indexed [row + 1][col + 1] for row and col in -1..1. */
  const SobelX: seq<seq<int>> := [[-1, 0, 1], [-2, 0, 2], [-1, 0, 1]]
  const SobelY: seq<seq<int>> := [[-1, -2, -1], [0, 0, 0], [1, 2, 1]]

  datatype Kernel = Horizontal | Vertical

  function Weight(k: Kernel, row: int, col: int): int
    requires -1 <= row <= 1 && -1 <= col <= 1
  {
    match k
    case Horizontal => SobelX[row + 1][col + 1]
    case Vertical => SobelY[row + 1][col + 1]
  }

  function Abs(n: int): nat
  {
    if n < 0 then -n else n
  }

  /** Pixels with a full 3x3 neighbourhood: 1 <= x <= w-2 and 1 <= y <= h-2. */
  predicate Interior(w: int, h: int, x: int, y: int)
  {
    1 <= x <= w - 2 && 1 <= y <= h - 2
  }

  /** Kernel-weighted sum over the first n columns (col = -1 .. n-2) of window row `row` around (x, y). */
  function RowSum(img: Image, k: Kernel, x: int, y: int, c: int, row: int, n: int): int
    requires WellFormed(img) && Interior(img.width, img.height, x, y) && 0 <= c < Channels(img.format)
    requires -1 <= row <= 1 && 0 <= n <= 3
  {
    if n == 0 then 0
    else RowSum(img, k, x, y, c, row, n - 1) + Weight(k, row, n - 2) * At(img, x + n - 2, y + row, c)
  }

  /** Kernel-weighted sum over the first m window rows (row = -1 .. m-2) around (x, y). */
  function WindowSum(img: Image, k: Kernel, x: int, y: int, c: int, m: int): int
    requires WellFormed(img) && Interior(img.width, img.height, x, y) && 0 <= c < Channels(img.format)
    requires 0 <= m <= 3
  {
    if m == 0 then 0 else WindowSum(img, k, x, y, c, m - 1) + RowSum(img, k, x, y, c, m - 2, 3)
  }

  /** The Sobel response of channel c at interior pixel (x, y). */
  function Gradient(img: Image, k: Kernel, x: int, y: int, c: int): int
    requires WellFormed(img) && Interior(img.width, img.height, x, y) && 0 <= c < Channels(img.format)
  {
    WindowSum(img, k, x, y, c, 3)
  }

  /**
   * `(unsigned char)(abs(gx) + abs(gy)) / 2`: the cast binds before the
   * division, so the sum wraps modulo 256 first and only sums below 256 are
   * simply halved.
   */
  function EdgeValue(gx: int, gy: int): (v: Byte)
    ensures v <= 127
    ensures Abs(gx) + Abs(gy) < 256 ==> v == (Abs(gx) + Abs(gy)) / 2
  {
    ToByte(Abs(gx) + Abs(gy)) / 2
  }

  /** The result sample at buffer position k. */
  function EdgeSample(img: Image, k: int): Byte
    requires WellFormed(img) && 0 <= k < |img.data|
  {
    var x, y, c := ColumnOf(img.width, img.format, k), RowOf(img.width, img.format, k), ChannelOf(img.format, k);
    Recompose(img.width, img.height, img.format, k);
    if Interior(img.width, img.height, x, y) then
      EdgeValue(Gradient(img, Horizontal, x, y, c), Gradient(img, Vertical, x, y, c))
    else 0
  }

  /** The image edgePPM returns: the same header, every sample as EdgeSample says. */
  function Edge(img: Image): (r: Image)
    requires WellFormed(img)
    ensures WellFormed(r)
    ensures r.format == img.format && r.width == img.width && r.height == img.height && r.maxColour == img.maxColour
  {
    Image(img.format, img.width, img.height, img.maxColour,
          seq(|img.data|, k requires 0 <= k < |img.data| => EdgeSample(img, k)))
  }

  /** Interior pixels carry the Sobel magnitude; the outer ring is zero. */
  lemma EdgeAt(img: Image, x: int, y: int, c: int)
    requires WellFormed(img) && 0 <= x < img.width && 0 <= y < img.height && 0 <= c < Channels(img.format)
    ensures Interior(img.width, img.height, x, y) ==>
              At(Edge(img), x, y, c) == EdgeValue(Gradient(img, Horizontal, x, y, c), Gradient(img, Vertical, x, y, c))
    ensures !Interior(img.width, img.height, x, y) ==> At(Edge(img), x, y, c) == 0
  {
    IndexBounds(img.width, img.height, img.format, x, y, c);
    Decompose(img.width, img.format, x, y, c);
  }

  /** No result sample exceeds 127. */
  lemma EdgeBounded(img: Image)
    requires WellFormed(img)
    ensures forall k :: 0 <= k < |Edge(img).data| ==> Edge(img).data[k] <= 127
  {
  }

  /** Sum of the kernel weights over the first n columns of window row `row`. */
  function RowWeight(k: Kernel, row: int, n: int): int
    requires -1 <= row <= 1 && 0 <= n <= 3
  {
    if n == 0 then 0 else RowWeight(k, row, n - 1) + Weight(k, row, n - 2)
  }

  /** On a constant image every sample reads as the constant. */
  lemma ConstantAt(img: Image, x: int, y: int, c: int, v: Byte)
    requires WellFormed(img) && 0 <= x < img.width && 0 <= y < img.height && 0 <= c < Channels(img.format)
    requires forall i :: 0 <= i < |img.data| ==> img.data[i] == v
    ensures At(img, x, y, c) == v
  {
    IndexBounds(img.width, img.height, img.format, x, y, c);
  }

  /** Multiplication distributes over addition, kept apart so that no other proof reasons about products. */
  lemma Distribute(a: int, b: int, v: int)
    ensures (a + b) * v == a * v + b * v
  {
  }

  /** Over a constant image a window row sums to its weights times the constant. */
  lemma {:induction false} RowOfConstant(img: Image, k: Kernel, x: int, y: int, c: int, row: int, n: int, v: Byte)
    requires WellFormed(img) && Interior(img.width, img.height, x, y) && 0 <= c < Channels(img.format)
    requires -1 <= row <= 1 && 0 <= n <= 3
    requires forall i :: 0 <= i < |img.data| ==> img.data[i] == v
    ensures RowSum(img, k, x, y, c, row, n) == RowWeight(k, row, n) * v
  {
    if n > 0 {
      RowOfConstant(img, k, x, y, c, row, n - 1, v);
      ConstantAt(img, x + n - 2, y + row, c, v);
      Distribute(RowWeight(k, row, n - 1), Weight(k, row, n - 2), v);
    }
  }

  /** Sum of the kernel weights over the first m window rows. */
  function WindowWeight(k: Kernel, m: int): int
    requires 0 <= m <= 3
  {
    if m == 0 then 0 else WindowWeight(k, m - 1) + RowWeight(k, m - 2, 3)
  }

  /** Over a constant image the window sums to the kernel's total weight times the constant. */
  lemma {:induction false} WindowOfConstant(img: Image, k: Kernel, x: int, y: int, c: int, m: int, v: Byte)
    requires WellFormed(img) && Interior(img.width, img.height, x, y) && 0 <= c < Channels(img.format)
    requires 0 <= m <= 3
    requires forall i :: 0 <= i < |img.data| ==> img.data[i] == v
    ensures WindowSum(img, k, x, y, c, m) == WindowWeight(k, m) * v
  {
    if m > 0 {
      WindowOfConstant(img, k, x, y, c, m - 1, v);
      RowOfConstant(img, k, x, y, c, m - 2, 3, v);
      Distribute(WindowWeight(k, m - 1), RowWeight(k, m - 2, 3), v);
    }
  }

  /** On a constant image both kernels, whose weights sum to zero, respond with zero. */
  lemma ConstantGradient(img: Image, k: Kernel, x: int, y: int, c: int, v: Byte)
    requires WellFormed(img) && Interior(img.width, img.height, x, y) && 0 <= c < Channels(img.format)
    requires forall i :: 0 <= i < |img.data| ==> img.data[i] == v
    ensures Gradient(img, k, x, y, c) == 0
  {
    WindowOfConstant(img, k, x, y, c, 3, v);
    assert WindowWeight(k, 3) == 0;
  }

  /** A constant image has no edges: every result sample is zero. */
  lemma EdgeOfConstant(img: Image, v: Byte)
    requires WellFormed(img)
    requires forall i :: 0 <= i < |img.data| ==> img.data[i] == v
    ensures forall k :: 0 <= k < |Edge(img).data| ==> Edge(img).data[k] == 0
  {
    forall k | 0 <= k < |img.data|
      ensures EdgeSample(img, k) == 0
    {
      var x, y, c := ColumnOf(img.width, img.format, k), RowOf(img.width, img.format, k), ChannelOf(img.format, k);
      Recompose(img.width, img.height, img.format, k);
      if Interior(img.width, img.height, x, y) {
        ConstantGradient(img, Horizontal, x, y, c, v);
        ConstantGradient(img, Vertical, x, y, c, v);
      }
    }
  }

  // ---------------------------------------------------------------------
  // The imperative edge detector

  /** The 3x3 accumulation loops of edgePPM for channel c: both kernel responses at interior pixel (x, y). */
  method SobelAt(img: PPMImage, x: int, y: int, c: int) returns (gx: int, gy: int)
    requires img.Valid() && Interior(img.width, img.height, x, y) && 0 <= c < Channels(img.format)
    ensures gx == Gradient(img.Value(), Horizontal, x, y, c)
    ensures gy == Gradient(img.Value(), Vertical, x, y, c)
  {
    ghost var v := img.Value();
    gx, gy := 0, 0;
    var row := -1;
    while row <= 1
      invariant -1 <= row <= 2
      invariant gx == WindowSum(v, Horizontal, x, y, c, row + 1)
      invariant gy == WindowSum(v, Vertical, x, y, c, row + 1)
    {
      var col := -1;
      while col <= 1
        invariant -1 <= col <= 2
        invariant gx == WindowSum(v, Horizontal, x, y, c, row + 1) + RowSum(v, Horizontal, x, y, c, row, col + 1)
        invariant gy == WindowSum(v, Vertical, x, y, c, row + 1) + RowSum(v, Vertical, x, y, c, row, col + 1)
      {
        IndexBounds(img.width, img.height, img.format, x + col, y + row, c);
        var idx := Index(img.width, img.format, x + col, y + row, c);
        gx := gx + SobelX[row + 1][col + 1] * img.data[idx];
        gy := gy + SobelY[row + 1][col + 1] * img.data[idx];
        col := col + 1;
      }
      row := row + 1;
    }
  }

  /** Writes the edge value of channel c of interior pixel (x, y) into data and nothing else. */
  method WriteSample(img: PPMImage, data: array<Byte>, x: int, y: int, c: int)
    requires img.Valid() && Interior(img.width, img.height, x, y) && 0 <= c < Channels(img.format)
    requires data.Length == img.data.Length && data != img.data
    modifies data
    ensures 0 <= Index(img.width, img.format, x, y, c) < data.Length
    ensures data[..] == old(data[..])[Index(img.width, img.format, x, y, c) :=
                                      Edge(img.Value()).data[Index(img.width, img.format, x, y, c)]]
  {
    IndexBounds(img.width, img.height, img.format, x, y, c);
    var gx, gy := SobelAt(img, x, y, c);
    data[Index(img.width, img.format, x, y, c)] := ToByte(Abs(gx) + Abs(gy)) / 2;
    EdgeAt(img.Value(), x, y, c);
  }

  /** Writes the edge value of every channel of interior pixel (x, y) into data and nothing else. */
  method WritePixel(img: PPMImage, data: array<Byte>, x: int, y: int)
    requires img.Valid() && Interior(img.width, img.height, x, y)
    requires data.Length == img.data.Length && data != img.data
    modifies data
    ensures forall k :: 0 <= k < data.Length ==>
              data[k] == if ColumnOf(img.width, img.format, k) == x && RowOf(img.width, img.format, k) == y
                         then Edge(img.Value()).data[k] else old(data[k])
  {
    if img.format == P2 {
      WriteSample(img, data, x, y, 0);
    } else {
      WriteSample(img, data, x, y, 0);
      WriteSample(img, data, x, y, 1);
      WriteSample(img, data, x, y, 2);
    }
    forall k | 0 <= k < data.Length
      ensures (ColumnOf(img.width, img.format, k) == x && RowOf(img.width, img.format, k) == y) <==>
              Index(img.width, img.format, x, y, 0) <= k < Index(img.width, img.format, x, y, 0) + Channels(img.format)
    {
      PixelSamples(img.width, img.height, img.format, x, y, k);
    }
  }

  /** Position k's pixel is interior and comes before (x, y) in row-by-row scan order. */
  ghost predicate Visited(img: PPMImage, k: int, x: int, y: int)
    requires img.Valid()
  {
    var col, row := ColumnOf(img.width, img.format, k), RowOf(img.width, img.format, k);
    Interior(img.width, img.height, col, row) && (row < y || (row == y && col < x))
  }

  /**
   * edgePPM: a fresh image with the same header whose interior samples hold the
   * Sobel magnitudes and whose outer ring stays zero.
   */
  method EdgePPM(img: PPMImage) returns (r: PPMImage)
    requires img.Valid()
    ensures fresh(r) && fresh(r.data) && r.Valid()
    ensures r.Value() == Edge(img.Value())
  {
    ghost var e := Edge(img.Value()).data;
    var data := new Byte[img.data.Length](_ => 0);
    var y := 1;
    while y < img.height - 1
      invariant 1 <= y && (y == 1 || y <= img.height - 1)
      invariant forall k :: 0 <= k < data.Length ==> data[k] == if Visited(img, k, 0, y) then e[k] else 0
    {
      var x := 1;
      while x < img.width - 1
        invariant 1 <= x && (x == 1 || x <= img.width - 1)
        invariant forall k :: 0 <= k < data.Length ==> data[k] == if Visited(img, k, x, y) then e[k] else 0
      {
        WritePixel(img, data, x, y);
        x := x + 1;
      }
      y := y + 1;
    }
    r := new PPMImage(img.format, img.width, img.height, img.maxColour, data);
    assert r.Value().data == e;
  }
}
