# convolve — a verified model

`convolve` applies a square convolution kernel to a grayscale image. A
kernel is a flat, row-major list of f64 weights. `Convolution::new`
validates it: every weight must be finite, and the length must be the
square of an odd number. It also precomputes two rescaling bounds:
- `min_value`: the sum of the negative weights, or the smallest weight if
  none is negative;
- `max_value`: the sum of the weights `>= 0`, or the largest weight if none
  is `>= 0`.

`convolve` works through the pixels in row-major order. For each pixel it
sums sample times weight over a `size` by `size` window centred on that
pixel. It reads positions outside the image through `edge_project` under
one of three policies: Extend (clamp), Wrap (shift by one dimension) and
Mirror (`-x-1`, or `2*dim-1-x`). It then rescales each sum to a byte with
`compute_adjusted_pixel_value`.

The model has three modules:
- `Arith` (`arith.dfy`): row-major index arithmetic shared by the kernel
  and the image.
- `Kernel` (`kernel.dfy`): `src/convolution/mod.rs`. The kernel is an
  immutable value, so it is a datatype, and its operations are functions.
- `Engine` (`engine.dfy`): `src/lib.rs`.
  - Edge projection and the pixel read are functions.
  - `convolve` is the method `Convolve`. Its pixel loop builds the output
    buffer.
  - `AccumulateWindow` and `AccumulateRow` are the two nested window loops,
    which accumulate `this_pixel`.
  - Each loop is proved against a specification function: `Convolved`
    (the buffer, as a sequence built pixel by pixel), and the recursive
    sums `WindowSum` and `RowSum`.

Numbers are modelled as follows:
- A finite f64 weight is an exact `real`.
- Infinite and NaN weights are separate variants of `Float`, so that `new`
  can reject them.
- `as u8` on an f64 truncates toward zero and saturates at 0 and 255.
- `as u32` on an i64 keeps the low 32 bits.
- The f64 square root followed by `floor` is the integer square root
  `FloorSqrt`.

Two facts about the code are worth stating up front:
- `convolve` always returns `Ok`. It never reports a kernel error; all
  validation happens in `Convolution::new`.
- A uniform image convolved with a kernel whose weights sum to one need not
  keep its value, because of the rescaling step. The identity kernel keeps
  it (`IdentityConvolution`). The 3 by 3 box blur turns samples of 100
  into samples of 112 (`BoxBlurShiftsUniformImage`). What holds for every
  kernel is `UniformImageWindowSum`: before rescaling, each window sum is
  the sample times the sum of the weights.

The source reads the image with `image.get_pixel`, which panics on a
position outside the image. `Convolve` therefore requires that every window
read stays inside the image (`CanConvolve`). `WindowOverflows` shows that
when this does not hold, the very first pixel already reads outside.

## Model

| member | source | states |
|---|---|---|
| Kernel.FloorSqrt | src/convolution/mod.rs:12-13 | the result squared is at most the length, and the next integer squared exceeds it |
| Kernel.IsCorrectlyDimensioned | src/convolution/mod.rs:11-17 | the shape test (floor square root squares back to the length, and is odd) accepts a length exactly when it is the square of an odd number |
| Kernel.OddSquareRoot | src/convolution/mod.rs:12-14 | the floor square root of the square of an odd number is that odd number |
| Kernel.ContainsNonFinite | src/convolution/mod.rs:28-30 | the front-to-back scan finds a non-finite weight exactly when some weight is infinite or NaN |
| Kernel.AnyNegative | src/convolution/mod.rs:82-84 | the front-to-back scan succeeds exactly when some weight is `< 0` |
| Kernel.AnyPositive | src/convolution/mod.rs:86-88 | the front-to-back scan succeeds exactly when some weight is `>= 0` (zero included) |
| Kernel.SumOfPositives | src/convolution/mod.rs:90-92 | the sum of the weights `>= 0` is non-negative and at least each of those weights |
| Kernel.SumOfNegatives | src/convolution/mod.rs:94-96 | the sum of the negative weights is non-positive, is negative exactly when some weight is negative, and is at most each negative weight |
| Kernel.MinimalPositive | src/convolution/mod.rs:98-105 | with some weight `>= 0`, the result is one of the weights, is `>= 0`, and is at most every weight `>= 0` |
| Kernel.MaximalNegative | src/convolution/mod.rs:107-114 | with some negative weight, the result is one of the weights, is negative, and is at least every negative weight |
| Kernel.MinValue | src/convolution/mod.rs:40-44 | the lower bound is at most every weight. When some weight is negative it is the sum of the negative weights (a negative number); otherwise it is a weight `>= 0` |
| Kernel.MaxValue | src/convolution/mod.rs:46-50 | the upper bound is at least every weight. It is the sum of the weights `>= 0` when one exists; otherwise it is a negative weight |
| Kernel.New | src/convolution/mod.rs:27-58 | `ConvolutionDoesNotContainNumbers` exactly when a weight is infinite or NaN. `ConvolutionIsNotWellShaped` exactly when all weights are finite but the length is not an odd square. Otherwise: the size is the odd square root of the length, the weights are kept in order, the bounds are MinValue and MaxValue, and min <= max |
| Kernel.NonFiniteReportedFirst | src/convolution/mod.rs:28-36 | a non-finite weight is reported even when the shape is also wrong |
| Kernel.ShapeRejectsSmallLengths | src/convolution/mod.rs:34-36 | the empty kernel and a kernel of two weights are rejected as not well shaped |
| Kernel.ShapeAcceptsOddSquares | src/convolution/mod.rs:34-38 | `k*k` finite weights with `k` odd are accepted with size `k` |
| Kernel.ShapeExamples | src/convolution/mod.rs:34-38 | lengths 1, 9 and 25 give sizes 1, 3 and 5 |
| Kernel.IdentityKernel | src/lib.rs:185 | `new(&[1.0])` gives size 1 with both bounds equal to 1.0 |
| Kernel.GetSize | src/convolution/mod.rs:60-62 | the size is odd, and its square is the number of weights |
| Kernel.Index | src/convolution/mod.rs:77-79 | the lookup of an in-range `(col, row)` returns one of the weights (the one at `row*size + col`) |
| Kernel.IndexReachesEveryWeight | src/convolution/mod.rs:77-79 | every weight is reached by some `(col, row)` inside the square |
| Kernel.IndexInjective | src/convolution/mod.rs:77-79 | distinct `(col, row)` pairs read distinct flat positions |
| Kernel.AsU8 | src/convolution/mod.rs:67 | the f64-to-u8 cast gives 0 below zero and 255 from 256 up, and truncates toward zero in between |
| Kernel.ComputeAdjustedPixelValue | src/convolution/mod.rs:64-71 | equal bounds: a sum in `[0, 256)` is truncated toward zero. Distinct bounds: a sum at or below the lower bound gives 0, and a sum at least `256 * (max - min)` above the lower bound gives 255 |
| Kernel.AdjustedDegenerateKeepsBytes | src/convolution/mod.rs:65-67 | when the bounds coincide, a byte-valued sum comes back unchanged |
| Kernel.AdjustedCollapsesBetweenBounds | src/convolution/mod.rs:68-70 | when the bounds differ, a sum between them rescales to 1 at the upper bound and to 0 everywhere else |
| Engine.AsU32 | src/lib.rs:84 | the i64-to-u32 cast is the identity on `[0, 2^32)` and adds `2^32` on `[-2^32, 0)` |
| Engine.ProjectAxis | src/lib.rs:65-125 | one axis before the cast: an in-range coordinate is kept, Extend always lands in range, and every policy does for a coordinate at most one dimension outside |
| Engine.EdgeProject | src/lib.rs:57-127 | each axis is projected independently: a coordinate inside its dimension is returned unchanged, even when the other one is outside (so a position inside the image is unchanged under every policy) |
| Engine.ProjectAxisRule | src/lib.rs:65-125 | the rule of each policy on one axis, after the cast, for a coordinate at most one dimension outside |
| Engine.ExtendClamps | src/lib.rs:66-85 | Extend clamps each axis to the image, so every position lands inside a non-empty image |
| Engine.AxisInRangeIff | src/lib.rs:86-125 | after the cast, one projected axis lies inside its dimension exactly when the policy is Extend or the coordinate overshoots by at most one dimension |
| Engine.ProjectInBoundsIff | src/lib.rs:57-127 | the projected position is inside the image exactly when the policy is Extend or both coordinates overshoot by at most one dimension |
| Engine.ProjectExamples | src/lib.rs:57-127 | on a 10 by 10 image, the neighbours just past the left and right borders under Extend, Wrap and Mirror |
| Engine.GetPixel | src/lib.rs:49-55 | the sample read at the projected position is one of the image's samples |
| Engine.WindowReadInBounds | src/lib.rs:26-34 | every read of a window centred inside the image stays inside when the window fits |
| Engine.WindowOverflows | src/lib.rs:26-34 | when the window does not fit, pixel `(0, 0)` already reads outside the image |
| Engine.RowSum | src/lib.rs:28-36 | specification of the inner loop: the first `n` cells of one kernel row, each the sample read at the projected position times `convolution[(col, row)]`, added left to right |
| Engine.WindowSum | src/lib.rs:27-39 | specification of the window loops: the first `m` whole kernel rows, added top to bottom |
| Engine.OutputPixel | src/lib.rs:25-41 | specification of one output sample: the whole-window sum, rescaled by `compute_adjusted_pixel_value` |
| Engine.Convolved | src/lib.rs:24-45 | specification of the output buffer: one output sample per pixel, in row-major order |
| Engine.RowSumStep | src/lib.rs:28-36 | one more cell of a kernel row adds its sample, read at the projected position, times its weight |
| Engine.AccumulateRow | src/lib.rs:28-37 | the inner loop adds exactly the weighted samples of one whole kernel row to the running sum |
| Engine.AccumulateWindow | src/lib.rs:25-39 | the two window loops leave in `this_pixel` the weighted sum over the whole window, row by row |
| Engine.Convolve | src/lib.rs:16-47 | returns `Ok` with an image of the same dimensions, whose buffer is the rescaled window sum of every pixel in row-major order |
| Engine.ConvolvedAt | src/lib.rs:24-45 | the output buffer has `width*height` samples, and position `y*width + x` holds output pixel `(x, y)` |
| Engine.IdentityPixel | src/lib.rs:183-196 | the identity kernel keeps each pixel |
| Engine.IdentityConvolution | src/lib.rs:183-196 | the identity kernel `[1.0]` gives back the whole image under every edge policy |
| Engine.UniformGetPixel | src/lib.rs:49-55 | every read from a uniform image returns its sample |
| Engine.UniformRowStep | src/lib.rs:28-36 | over a uniform image, one more cell of a row adds the sample times that cell's weight |
| Engine.UniformRowSum | src/lib.rs:28-37 | over a uniform image, a row sum is the sample times the row's weights |
| Engine.UniformPartialWindowSum | src/lib.rs:27-39 | over a uniform image, the first `m` rows sum to the sample times their weights |
| Engine.UniformImageWindowSum | src/lib.rs:24-39 | over a uniform image, every window sum before rescaling is the sample times the sum of all weights |
| Engine.BoxBlurBuilt | src/convolution/mod.rs:27-58 | nine weights of 1/9 build a size-3 kernel with bounds 1/9 and 1 |
| Engine.BoxBlurShiftsUniformImage | src/lib.rs:41 | rescaling turns a uniform image of 100s under the box blur into 112s |

## Left out

- Floating point: weights and sums are exact reals. Rounding, the order of
  summation, and the f64 square root of very large lengths are not modelled.
- Image decoding and `to_luma`: `convolve` receives a decoded grayscale
  image. `ImageBuffer::from_raw` is taken to succeed, and the proof that
  the buffer has `width*height` samples backs that assumption.
- The `println!` calls in `get_pixel` are output only and are left out.
- A window that does not fit the image makes the source panic inside
  `image.get_pixel`. The model does not have a panic, so `Convolve`
  requires the window to fit (`CanConvolve`). `WindowOverflows` shows the
  failing read.
- i64 overflow of `x + x_offset` is not modelled. The coordinates are
  bounded by u32 image dimensions plus half the kernel side.
- The capacity hint of `Vec::with_capacity` does not affect the result and
  is left out.
- The borrowed-slice lifetime of `Convolution` has no counterpart. The
  model keeps the weights by value.
- Kernel.ComputeAdjustedPixelValue: its contract pins the result only at
  the extremes. In between, the value comes from the definition together
  with AsU8, AdjustedDegenerateKeepsBytes and AdjustedCollapsesBetweenBounds.
- Kernel.Index: requires `col < size` and `row < size`. The source only
  fails when `row*size + col` is past the end of the weights, so a column
  past the row's end that still lands inside the slice is not modelled.
  `convolve` never makes such a call.
- Engine.BoxBlurShiftsUniformImage: uses exact arithmetic. Its samples of
  100 sit away from a truncation boundary, so rounding in f64 does not
  change the byte.
- Engine.Convolve: requires only a well-shaped kernel, not the rescaling
  bounds. Rescaling uses whatever bounds the kernel carries, as the source
  does.
- The command-line example and the fixture-image tests are not part of
  this model. The Gaussian fixture depends on external image files.
