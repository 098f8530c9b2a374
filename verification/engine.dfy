/**
 * The convolution engine of src/lib.rs: edge projection under the three
 * boundary policies, the projected pixel read, and `convolve`, which builds
 * the output buffer pixel by pixel in row-major order.
 *
 * An image is its width, its height and its row-major luminance samples;
 * decoding and luma conversion belong to the image library and are taken as
 * given.
 */
module Engine {
  import opened Arith
  import opened Kernel

  const U32_LIMIT: int := 0x1_0000_0000

  type u32 = x: int | 0 <= x < U32_LIMIT

  datatype EdgeMode = Extend | Wrap | Mirror

  /** A single-channel 8-bit image, row-major, origin top left. */
  datatype GrayImage = GrayImage(width: u32, height: u32, pixels: seq<u8>)
  {
    predicate Valid() {
      |pixels| == width * height
    }
  }

  /** `v as u32` for an i64 `v`: keeps the low 32 bits. */
  function AsU32(v: int): (r: u32)
    ensures 0 <= v < U32_LIMIT ==> r == v
    ensures -U32_LIMIT <= v < 0 ==> r == v + U32_LIMIT
  {
    v % U32_LIMIT
  }

  /**
   * The projection of one coordinate against a dimension, before the cast to
   * u32: an in-range coordinate is kept, Extend always lands in range, and
   * every policy does for a coordinate at most one dimension outside.
   */
  function ProjectAxis(v: int, dim: int, mode: EdgeMode): (r: int)
    ensures 0 <= v < dim ==> r == v
    ensures mode == Extend && dim >= 1 ==> 0 <= r < dim
    ensures -dim <= v < 2 * dim ==> 0 <= r < dim
  {
    match mode
    case Extend => if v < 0 then 0 else if v > dim - 1 then dim - 1 else v
    case Wrap => if v < 0 then v + dim else if v > dim - 1 then v - dim else v
    case Mirror => if v < 0 then -v - 1 else if v > dim - 1 then -v + 2 * dim - 1 else v
  }

  /**
   * Maps a requested sample position to the one read, under the edge policy.
   * The axes are projected independently: a coordinate already inside its
   * dimension is kept, even when the other one is outside.
   */
  function EdgeProject(x: int, y: int, width: u32, height: u32, mode: EdgeMode): (r: (u32, u32))
    ensures 0 <= x < width ==> r.0 == x
    ensures 0 <= y < height ==> r.1 == y
  {
    if x >= 0 && x <= width - 1 && y >= 0 && y <= height - 1 then
      (AsU32(x), AsU32(y))
    else
      (AsU32(ProjectAxis(x, width, mode)), AsU32(ProjectAxis(y, height, mode)))
  }

  predicate InBounds(p: (u32, u32), width: u32, height: u32) {
    p.0 < width && p.1 < height
  }

  /** The rule of each policy on one axis, for a coordinate at most one dimension outside. */
  lemma ProjectAxisRule(v: int, dim: u32, mode: EdgeMode)
    requires dim >= 1 && -(dim as int) <= v < 2 * dim
    ensures var r := AsU32(ProjectAxis(v, dim, mode));
      && (0 <= v < dim ==> r == v)
      && (v < 0 ==> r == match mode case Extend => 0 case Wrap => v + dim case Mirror => -v - 1)
      && (v >= dim ==> r == match mode case Extend => dim - 1 case Wrap => v - dim case Mirror => 2 * dim - 1 - v)
  {
  }

  /** Extend clamps each axis, so every position lands in a non-empty image. */
  lemma ExtendClamps(x: int, y: int, width: u32, height: u32)
    requires width >= 1 && height >= 1
    ensures var p := EdgeProject(x, y, width, height, Extend);
      && InBounds(p, width, height)
      && p.0 == (if x < 0 then 0 else if x >= width then width - 1 else x)
      && p.1 == (if y < 0 then 0 else if y >= height then height - 1 else y)
  {
  }

  /** One axis of the projection, after the cast, lies below `dim` exactly under the one-overshoot condition (or always, for Extend). */
  lemma AxisInRangeIff(v: int, dim: u32, mode: EdgeMode)
    requires dim >= 1 && -U32_LIMIT <= v < U32_LIMIT + dim
    ensures AsU32(ProjectAxis(v, dim, mode)) < dim <==> mode == Extend || -(dim as int) <= v <= 2 * dim - 1
  {
    if mode != Extend && !(-(dim as int) <= v <= 2 * dim - 1) {
      if v < -(dim as int) {
        assert mode == Wrap ==> AsU32(ProjectAxis(v, dim, mode)) == v + dim + U32_LIMIT;
      } else {
        assert mode == Mirror ==> AsU32(ProjectAxis(v, dim, mode)) == 2 * dim - 1 - v + U32_LIMIT;
      }
    }
  }

  /**
   * The projected position is inside the image exactly when the policy is
   * Extend or both coordinates overshoot by at most one dimension; otherwise
   * the pixel lookup that follows fails.
   */
  lemma ProjectInBoundsIff(x: int, y: int, width: u32, height: u32, mode: EdgeMode)
    requires width >= 1 && height >= 1
    requires -U32_LIMIT <= x < U32_LIMIT + width && -U32_LIMIT <= y < U32_LIMIT + height
    ensures InBounds(EdgeProject(x, y, width, height, mode), width, height)
        <==> mode == Extend || (-(width as int) <= x <= 2 * width - 1 && -(height as int) <= y <= 2 * height - 1)
  {
    AxisInRangeIff(x, width, mode);
    AxisInRangeIff(y, height, mode);
  }

  /** Width and height 10: the positions just outside the left and right borders under each policy. */
  lemma ProjectExamples()
    ensures EdgeProject(-1, 5, 10, 10, Extend) == (0, 5) && EdgeProject(10, 3, 10, 10, Extend) == (9, 3)
    ensures EdgeProject(-1, 5, 10, 10, Wrap) == (9, 5) && EdgeProject(10, 3, 10, 10, Wrap) == (0, 3)
    ensures EdgeProject(-1, 5, 10, 10, Mirror) == (0, 5) && EdgeProject(10, 3, 10, 10, Mirror) == (9, 3)
  {
  }

  /** The sample at a requested position, read at its projection; the lookup requires the projection inside the image. */
  function GetPixel(image: GrayImage, x: int, y: int, mode: EdgeMode): (r: u8)
    requires image.Valid()
    requires InBounds(EdgeProject(x, y, image.width, image.height, mode), image.width, image.height)
    ensures r in image.pixels
  {
    var (px, py) := EdgeProject(x, y, image.width, image.height, mode);
    FlatIndexInRange(px, py, image.width, image.height);
    image.pixels[py * image.width + px]
  }

  /**
   * Every read of a `2*offset+1` window centred inside the image stays in
   * bounds: always for Extend or an empty image, otherwise when the offset
   * is at most the width and the height.
   */
  predicate WindowFits(width: u32, height: u32, offset: nat, mode: EdgeMode) {
    width == 0 || height == 0 || mode == Extend || (offset <= width && offset <= height)
  }

  lemma WindowReadInBounds(width: u32, height: u32, offset: nat, mode: EdgeMode, x: int, y: int, dx: int, dy: int)
    requires WindowFits(width, height, offset, mode)
    requires 0 <= x < width && 0 <= y < height
    requires -(offset as int) <= dx <= offset && -(offset as int) <= dy <= offset
    ensures InBounds(EdgeProject(x + dx, y + dy, width, height, mode), width, height)
  {
    if mode == Extend {
      ExtendClamps(x + dx, y + dy, width, height);
    } else {
      ProjectInBoundsIff(x + dx, y + dy, width, height, mode);
    }
  }

  /** When the window does not fit, the top-left pixel already asks for a sample outside the image. */
  lemma WindowOverflows(width: u32, height: u32, offset: nat, mode: EdgeMode) returns (dx: int, dy: int)
    requires !WindowFits(width, height, offset, mode)
    ensures 0 < width && 0 < height
    ensures -(offset as int) <= dx <= offset && -(offset as int) <= dy <= offset
    ensures !InBounds(EdgeProject(dx, dy, width, height, mode), width, height)
  {
    if offset > width {
      dx, dy := -(width as int) - 1, 0;
    } else {
      dx, dy := 0, -(height as int) - 1;
    }
    ProjectInBoundsIff(dx, dy, width, height, mode);
  }

  /** What `convolve` needs of its arguments. */
  predicate CanConvolve(image: GrayImage, convolution: Convolution, mode: EdgeMode) {
    image.Valid() && convolution.WellShaped() && WindowFits(image.width, image.height, convolution.size / 2, mode)
  }

  /** A sample scaled by a weight (the source converts the byte to f64 first). */
  function Weighted(p: u8, weight: real): real {
    (p as real) * weight
  }

  /** The contribution of kernel cell `(col, row)` to the output pixel `(x, y)`. */
  function Term(image: GrayImage, convolution: Convolution, mode: EdgeMode, x: int, y: int, col: nat, row: nat): real
    requires CanConvolve(image, convolution, mode)
    requires 0 <= x < image.width && 0 <= y < image.height
    requires col < convolution.size && row < convolution.size
  {
    var offset := convolution.size / 2;
    WindowReadInBounds(image.width, image.height, offset, mode, x, y, col - offset, row - offset);
    Weighted(GetPixel(image, x + (col - offset), y + (row - offset), mode), Index(convolution, col, row))
  }

  /** The contributions of the first `n` cells of kernel row `row`. */
  function RowSum(image: GrayImage, convolution: Convolution, mode: EdgeMode, x: int, y: int, row: nat, n: nat): real
    requires CanConvolve(image, convolution, mode)
    requires 0 <= x < image.width && 0 <= y < image.height
    requires row < convolution.size && n <= convolution.size
  {
    if n == 0 then 0.0
    else RowSum(image, convolution, mode, x, y, row, n - 1) + Term(image, convolution, mode, x, y, n - 1, row)
  }

  /** One more cell of a kernel row adds its sample times its weight (cells named by their offsets from the centre). */
  lemma RowSumStep(image: GrayImage, convolution: Convolution, mode: EdgeMode, x: int, y: int, offset: nat, dx: int, dy: int)
    requires CanConvolve(image, convolution, mode)
    requires 0 <= x < image.width && 0 <= y < image.height
    requires offset == convolution.size / 2
    requires -(offset as int) <= dx <= offset && -(offset as int) <= dy <= offset
    ensures InBounds(EdgeProject(x + dx, y + dy, image.width, image.height, mode), image.width, image.height)
    ensures RowSum(image, convolution, mode, x, y, dy + offset, dx + offset + 1)
         == RowSum(image, convolution, mode, x, y, dy + offset, dx + offset)
            + Weighted(GetPixel(image, x + dx, y + dy, mode), Index(convolution, dx + offset, dy + offset))
  {
    WindowReadInBounds(image.width, image.height, offset, mode, x, y, dx, dy);
    var col, row := dx + offset, dy + offset;
    assert col - offset == dx && row - offset == dy;
  }

  /** The contributions of the first `m` kernel rows, each row taken whole. */
  function WindowSum(image: GrayImage, convolution: Convolution, mode: EdgeMode, x: int, y: int, m: nat): real
    requires CanConvolve(image, convolution, mode)
    requires 0 <= x < image.width && 0 <= y < image.height
    requires m <= convolution.size
  {
    if m == 0 then 0.0
    else WindowSum(image, convolution, mode, x, y, m - 1) + RowSum(image, convolution, mode, x, y, m - 1, convolution.size)
  }

  /** Output pixel `(x, y)`: the rescaled weighted sum over the whole window. */
  function OutputPixel(image: GrayImage, convolution: Convolution, mode: EdgeMode, x: int, y: int): u8
    requires CanConvolve(image, convolution, mode)
    requires 0 <= x < image.width && 0 <= y < image.height
  {
    ComputeAdjustedPixelValue(convolution, WindowSum(image, convolution, mode, x, y, convolution.size))
  }

  /** The output sample at flat position `k`, pixels enumerated row by row. */
  function OutputAt(image: GrayImage, convolution: Convolution, mode: EdgeMode, k: int): u8
    requires CanConvolve(image, convolution, mode)
    requires 0 <= k < image.width * image.height
  {
    RowMajorEncode(k, image.width, image.height);
    OutputPixel(image, convolution, mode, k % image.width, k / image.width)
  }

  /** The whole output buffer. */
  function Convolved(image: GrayImage, convolution: Convolution, mode: EdgeMode): seq<u8>
    requires CanConvolve(image, convolution, mode)
  {
    seq(image.width * image.height, k requires 0 <= k < image.width * image.height => OutputAt(image, convolution, mode, k))
  }

  /** The buffer has `width*height` samples and holds pixel `(x, y)` at `y*width + x`. */
  lemma ConvolvedAt(image: GrayImage, convolution: Convolution, mode: EdgeMode, x: int, y: int)
    requires CanConvolve(image, convolution, mode)
    requires 0 <= x < image.width && 0 <= y < image.height
    ensures |Convolved(image, convolution, mode)| == image.width * image.height
    ensures 0 <= y * image.width + x < image.width * image.height
    ensures Convolved(image, convolution, mode)[y * image.width + x] == OutputPixel(image, convolution, mode, x, y)
  {
    FlatIndexInRange(x, y, image.width, image.height);
    RowMajorDecode(x, y, image.width);
  }

  /**
   * The weighted sum over one window, accumulated kernel row by kernel row
   * (the outer loop of `convolve`).
   */
  method AccumulateWindow(image: GrayImage, convolution: Convolution, mode: EdgeMode, x: int, y: int) returns (thisPixel: real)
    requires CanConvolve(image, convolution, mode)
    requires 0 <= x < image.width && 0 <= y < image.height
    ensures thisPixel == WindowSum(image, convolution, mode, x, y, convolution.size)
  {
    thisPixel := 0.0;
    var offset := GetSize(convolution) / 2;
    assert convolution.size == 2 * offset + 1;
    var yOffset := -offset;
    while yOffset < offset + 1
      invariant -offset <= yOffset <= offset + 1
      invariant thisPixel == WindowSum(image, convolution, mode, x, y, yOffset + offset)
    {
      thisPixel := AccumulateRow(image, convolution, mode, x, y, offset, yOffset, thisPixel);
      yOffset := yOffset + 1;
    }
  }

  /**
   * Adds the contributions of one kernel row, column by column, to the
   * running sum `start` (the inner loop of `convolve`).
   */
  method AccumulateRow(image: GrayImage, convolution: Convolution, mode: EdgeMode, x: int, y: int, offset: nat, yOffset: int, start: real)
    returns (thisPixel: real)
    requires CanConvolve(image, convolution, mode)
    requires 0 <= x < image.width && 0 <= y < image.height
    requires offset == convolution.size / 2 && -(offset as int) <= yOffset <= offset
    ensures thisPixel == start + RowSum(image, convolution, mode, x, y, yOffset + offset, convolution.size)
  {
    assert convolution.size == 2 * offset + 1;
    thisPixel := start;
    var xOffset := -(offset as int);
    while xOffset < offset + 1
      invariant -(offset as int) <= xOffset <= offset + 1
      invariant thisPixel == start + RowSum(image, convolution, mode, x, y, yOffset + offset, xOffset + offset)
    {
      RowSumStep(image, convolution, mode, x, y, offset, xOffset, yOffset);
      var p := GetPixel(image, x + xOffset, y + yOffset, mode);
      thisPixel := thisPixel + Weighted(p, Index(convolution, xOffset + offset, yOffset + offset));
      xOffset := xOffset + 1;
    }
  }

  /**
   * Convolves a grayscale image: pushes one rescaled window sum per pixel,
   * in row-major order, and returns an image of the same dimensions.
   */
  method Convolve(image: GrayImage, convolution: Convolution, mode: EdgeMode) returns (r: Result<GrayImage, ConvolutionError>)
    requires CanConvolve(image, convolution, mode)
    ensures r.Ok?
    ensures r.value.width == image.width && r.value.height == image.height && r.value.Valid()
    ensures r.value.pixels == Convolved(image, convolution, mode)
  {
    var n := image.width * image.height;
    var build: seq<u8> := [];
    var k := 0;
    while k < n
      invariant 0 <= k <= n && |build| == k
      invariant forall j | 0 <= j < k :: build[j] == OutputAt(image, convolution, mode, j)
    {
      RowMajorEncode(k, image.width, image.height);
      var x, y := k % image.width, k / image.width;
      var thisPixel := AccumulateWindow(image, convolution, mode, x, y);
      build := build + [ComputeAdjustedPixelValue(convolution, thisPixel)];
      k := k + 1;
    }
    r := Ok(GrayImage(image.width, image.height, build));
  }

  /** The identity kernel keeps each pixel. */
  lemma IdentityPixel(image: GrayImage, c: Convolution, mode: EdgeMode, x: int, y: int)
    requires c == Convolution([1.0], 1, 1.0, 1.0)
    requires image.Valid() && 0 <= x < image.width && 0 <= y < image.height
    ensures CanConvolve(image, c, mode)
    ensures 0 <= y * image.width + x < |image.pixels|
    ensures OutputPixel(image, c, mode, x, y) == image.pixels[y * image.width + x]
  {
    assert Square(1) == 1;
    FlatIndexInRange(x, y, image.width, image.height);
    var p := image.pixels[y * image.width + x];
    assert GetPixel(image, x, y, mode) == p;
    assert Index(c, 0, 0) == 1.0;
    assert Term(image, c, mode, x, y, 0, 0) == p as real;
    assert RowSum(image, c, mode, x, y, 0, 1) == p as real;
    assert WindowSum(image, c, mode, x, y, 1) == p as real;
    AdjustedDegenerateKeepsBytes(c, p);
  }

  /** Convolving with the identity kernel `[1.0]` gives back the image, under every edge policy. */
  lemma IdentityConvolution(image: GrayImage, mode: EdgeMode)
    requires image.Valid()
    ensures New([Finite(1.0)]).Ok?
    ensures CanConvolve(image, New([Finite(1.0)]).value, mode)
    ensures Convolved(image, New([Finite(1.0)]).value, mode) == image.pixels
  {
    IdentityKernel();
    var c := New([Finite(1.0)]).value;
    assert Square(1) == 1;
    var out := Convolved(image, c, mode);
    forall k | 0 <= k < |image.pixels|
      ensures out[k] == image.pixels[k]
    {
      RowMajorEncode(k, image.width, image.height);
      IdentityPixel(image, c, mode, k % image.width, k / image.width);
    }
  }

  /** The weights of the first `n` cells of kernel row `row`, added in the order the window visits them. */
  function RowWeights(convolution: Convolution, row: nat, n: nat): real
    requires convolution.WellShaped() && row < convolution.size && n <= convolution.size
  {
    if n == 0 then 0.0 else RowWeights(convolution, row, n - 1) + Index(convolution, n - 1, row)
  }

  /** The weights of the first `m` kernel rows. */
  function KernelWeights(convolution: Convolution, m: nat): real
    requires convolution.WellShaped() && m <= convolution.size
  {
    if m == 0 then 0.0 else KernelWeights(convolution, m - 1) + RowWeights(convolution, m - 1, convolution.size)
  }

  lemma WeightedDistributes(p: u8, a: real, b: real)
    ensures Weighted(p, a + b) == Weighted(p, a) + Weighted(p, b)
  {
  }

  /** Over a uniform image, the first `n` cells of a kernel row contribute the sample times their weights. */
  lemma {:induction false} UniformRowSum(image: GrayImage, convolution: Convolution, mode: EdgeMode, x: int, y: int, v: u8, row: nat, n: nat)
    requires CanConvolve(image, convolution, mode)
    requires 0 <= x < image.width && 0 <= y < image.height
    requires forall i | 0 <= i < |image.pixels| :: image.pixels[i] == v
    requires row < convolution.size && n <= convolution.size
    ensures RowSum(image, convolution, mode, x, y, row, n) == Weighted(v, RowWeights(convolution, row, n))
    decreases n
  {
    if n > 0 {
      UniformRowSum(image, convolution, mode, x, y, v, row, n - 1);
      UniformRowStep(image, convolution, mode, x, y, v, row, n);
      WeightedDistributes(v, RowWeights(convolution, row, n - 1), Index(convolution, n - 1, row));
    }
  }

  /** Over a uniform image, one more cell of a kernel row adds the sample times that cell's weight. */
  lemma UniformRowStep(image: GrayImage, convolution: Convolution, mode: EdgeMode, x: int, y: int, v: u8, row: nat, n: nat)
    requires CanConvolve(image, convolution, mode)
    requires 0 <= x < image.width && 0 <= y < image.height
    requires forall i | 0 <= i < |image.pixels| :: image.pixels[i] == v
    requires row < convolution.size && 0 < n <= convolution.size
    ensures RowSum(image, convolution, mode, x, y, row, n)
         == RowSum(image, convolution, mode, x, y, row, n - 1) + Weighted(v, Index(convolution, n - 1, row))
  {
    var offset := convolution.size / 2;
    assert convolution.size == 2 * offset + 1;
    var dx, dy := n - 1 - offset, row - offset;
    RowSumStep(image, convolution, mode, x, y, offset, dx, dy);
    UniformGetPixel(image, mode, x + dx, y + dy, v);
  }

  /** Over a uniform image every read returns the sample. */
  lemma UniformGetPixel(image: GrayImage, mode: EdgeMode, x: int, y: int, v: u8)
    requires image.Valid()
    requires InBounds(EdgeProject(x, y, image.width, image.height, mode), image.width, image.height)
    requires forall i | 0 <= i < |image.pixels| :: image.pixels[i] == v
    ensures GetPixel(image, x, y, mode) == v
  {
  }

  /** Over a uniform image, the first `m` kernel rows contribute the sample times their weights. */
  lemma {:induction false} UniformPartialWindowSum(image: GrayImage, convolution: Convolution, mode: EdgeMode, x: int, y: int, v: u8, m: nat)
    requires CanConvolve(image, convolution, mode)
    requires 0 <= x < image.width && 0 <= y < image.height
    requires forall i | 0 <= i < |image.pixels| :: image.pixels[i] == v
    requires m <= convolution.size
    ensures WindowSum(image, convolution, mode, x, y, m) == Weighted(v, KernelWeights(convolution, m))
    decreases m
  {
    if m > 0 {
      UniformPartialWindowSum(image, convolution, mode, x, y, v, m - 1);
      UniformRowSum(image, convolution, mode, x, y, v, m - 1, convolution.size);
      WeightedDistributes(v, KernelWeights(convolution, m - 1), RowWeights(convolution, m - 1, convolution.size));
    }
  }

  /**
   * Edge projection never brings in a value the image does not have: over a
   * uniform image every window sums to the sample times the sum of all
   * weights (the sample itself for weights summing to 1), before rescaling.
   */
  lemma UniformImageWindowSum(image: GrayImage, convolution: Convolution, mode: EdgeMode, x: int, y: int, v: u8)
    requires CanConvolve(image, convolution, mode)
    requires 0 <= x < image.width && 0 <= y < image.height
    requires forall i | 0 <= i < |image.pixels| :: image.pixels[i] == v
    ensures WindowSum(image, convolution, mode, x, y, convolution.size) == (v as real) * KernelWeights(convolution, convolution.size)
  {
    UniformPartialWindowSum(image, convolution, mode, x, y, v, convolution.size);
  }

  /** The 3 by 3 box blur: nine weights of one ninth. */
  function BoxBlur(): Convolution {
    Convolution(seq(9, _ => 1.0 / 9.0), 3, 1.0 / 9.0, 1.0)
  }

  /** `new` builds the box blur from nine weights of one ninth, with bounds 1/9 and 1. */
  lemma BoxBlurBuilt()
    ensures New(seq(9, _ => Finite(1.0 / 9.0))) == Ok(BoxBlur())
  {
    var values := seq(9, _ => Finite(1.0 / 9.0));
    var reals := seq(9, _ => 1.0 / 9.0);
    assert Square(3) == 9;
    ShapeAcceptsOddSquares(values, 3);
    var c := New(values).value;
    assert c.values == reals;
    assert !AnyNegative(reals) && AnyPositive(reals) by { assert reals[0] == 1.0 / 9.0; }
    assert MinimalPositive(reals) == 1.0 / 9.0 by {
      assert MinimalPositive(reals) in reals;
    }
    assert SumOfPositives(reals) == 1.0 by { NinthsSum(9); }
  }

  /** Nine ninths sum to one. */
  lemma {:induction false} NinthsSum(n: nat)
    requires n <= 9
    ensures SumOfPositives(seq(n, _ => 1.0 / 9.0)) == (n as real) / 9.0
  {
    if n > 0 {
      var s := seq(n, _ => 1.0 / 9.0);
      assert s[1..] == seq(n - 1, _ => 1.0 / 9.0);
      NinthsSum(n - 1);
    }
  }

  /**
   * Rescaling can move a uniform image even under a kernel whose weights sum
   * to one: the box blur turns an image whose samples are all 100 into
   * samples of 112 (the rescaled sum is 112.375).
   */
  lemma BoxBlurShiftsUniformImage(image: GrayImage, mode: EdgeMode, x: int, y: int)
    requires image.Valid() && 0 <= x < image.width && 0 <= y < image.height
    requires forall i | 0 <= i < |image.pixels| :: image.pixels[i] == 100
    ensures CanConvolve(image, BoxBlur(), mode)
    ensures OutputPixel(image, BoxBlur(), mode, x, y) == 112
  {
    var c := BoxBlur();
    assert Square(3) == 9;
    UniformImageWindowSum(image, c, mode, x, y, 100);
    assert KernelWeights(c, 3) == 1.0 by {
      assert forall col, row | col < 3 && row < 3 :: Index(c, col, row) == 1.0 / 9.0;
    }
    assert (100.0 - 1.0 / 9.0) / (1.0 - 1.0 / 9.0) == 112.375;
  }
}
