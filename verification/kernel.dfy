/**
 * The convolution kernel of src/convolution/mod.rs: construction with
 * validation, the precomputed rescaling bounds, `(col, row)` lookup and the
 * rescaling of an accumulated sum to a byte.
 *
 * Weights are f64 in the source. Here a finite weight is an exact `real`
 * (no rounding, no summation-order effects); infinities and NaN are kept as
 * their own variants so that validation can reject them.
 */
module Kernel {
  import opened Arith

  /** An f64 weight as a caller hands it in. */
  datatype Float = Finite(value: real) | Infinite(negative: bool) | NaN

  /** An 8-bit unsigned sample, the type of every grayscale pixel. */
  type u8 = x: int | 0 <= x < 256

  datatype ConvolutionError = ConvolutionIsNotWellShaped | ConvolutionDoesNotContainNumbers

  datatype Result<T, E> = Ok(value: T) | Err(error: E)

  /** The integer part of the square root of `n` (the source takes an f64 square root and floors it). */
  function FloorSqrt(n: nat): (r: nat)
    ensures Square(r) <= n < Square(r + 1)
  {
    if n == 0 then 0
    else
      var s := FloorSqrt(n - 1);
      if Square(s + 1) <= n then s + 1 else s
  }

  lemma FloorSqrtUnique(n: nat, k: nat)
    requires Square(k) <= n < Square(k + 1)
    ensures FloorSqrt(n) == k
  {
    var r := FloorSqrt(n);
    if r < k {
      SquareMonotonic(r + 1, k);
    } else if r > k {
      SquareMonotonic(k + 1, r);
    }
  }

  /** `n` is the square of an odd number. */
  ghost predicate IsOddSquare(n: int) {
    exists k: nat :: Square(k) == n && k % 2 == 1
  }

  /**
   * The shape test: the rounded-down square root squares back to the length
   * and is odd. It accepts exactly the squares of odd numbers.
   */
  function IsCorrectlyDimensioned(len: nat): (r: bool)
    ensures r <==> IsOddSquare(len)
  {
    var root := FloorSqrt(len);
    OddSquareRoot(len);
    Square(root) == len && root % 2 == 1
  }

  /** The floor square root of the square of an odd number is that odd number. */
  lemma OddSquareRoot(len: nat)
    ensures IsOddSquare(len) ==> Square(FloorSqrt(len)) == len && FloorSqrt(len) % 2 == 1
  {
    if IsOddSquare(len) {
      var k: nat :| Square(k) == len && k % 2 == 1;
      assert Square(k + 1) == Square(k) + 2 * k + 1;
      FloorSqrtUnique(len, k);
    }
  }

  /** Scans the weights front to back for one that is infinite or not a number. */
  predicate ContainsNonFinite(values: seq<Float>): (r: bool)
    ensures r <==> exists i | 0 <= i < |values| :: !values[i].Finite?
  {
    values != [] && (!values[0].Finite? || ContainsNonFinite(values[1..]))
  }

  /** Scans the weights front to back for one that is `< 0`. */
  predicate AnyNegative(values: seq<real>): (r: bool)
    ensures r <==> exists i | 0 <= i < |values| :: values[i] < 0.0
  {
    values != [] && (values[0] < 0.0 || AnyNegative(values[1..]))
  }

  /** Scans the weights front to back for one that is `>= 0`: zero counts as positive. */
  predicate AnyPositive(values: seq<real>): (r: bool)
    ensures r <==> exists i | 0 <= i < |values| :: values[i] >= 0.0
  {
    values != [] && (values[0] >= 0.0 || AnyPositive(values[1..]))
  }

  /** The sum of the weights that are `>= 0`; it bounds each of them from above. */
  function SumOfPositives(values: seq<real>): (r: real)
    ensures r >= 0.0
    ensures forall i | 0 <= i < |values| && values[i] >= 0.0 :: values[i] <= r
  {
    if values == [] then 0.0
    else (if values[0] >= 0.0 then values[0] else 0.0) + SumOfPositives(values[1..])
  }

  /** The sum of the weights that are `< 0`; it is negative exactly when one of them is, and bounds each from below. */
  function SumOfNegatives(values: seq<real>): (r: real)
    ensures r <= 0.0
    ensures r < 0.0 <==> AnyNegative(values)
    ensures forall i | 0 <= i < |values| && values[i] < 0.0 :: r <= values[i]
  {
    if values == [] then 0.0
    else
      (if values[0] < 0.0 then values[0] else 0.0) + SumOfNegatives(values[1..])
  }

  /** The smallest weight that is `>= 0`; the source unwraps it, so one must exist. */
  function MinimalPositive(values: seq<real>): (r: real)
    requires AnyPositive(values)
    ensures r >= 0.0 && r in values
    ensures forall i | 0 <= i < |values| && values[i] >= 0.0 :: r <= values[i]
  {
    var rest := values[1..];
    if !AnyPositive(rest) then
      assert forall i | 1 <= i < |values| :: values[i] == rest[i - 1];
      values[0]
    else
      var m := MinimalPositive(rest);
      if values[0] >= 0.0 && values[0] <= m then values[0] else m
  }

  /** The largest weight that is `< 0`; the source unwraps it, so one must exist. */
  function MaximalNegative(values: seq<real>): (r: real)
    requires AnyNegative(values)
    ensures r < 0.0 && r in values
    ensures forall i | 0 <= i < |values| && values[i] < 0.0 :: values[i] <= r
  {
    var rest := values[1..];
    if !AnyNegative(rest) then
      assert forall i | 1 <= i < |values| :: values[i] == rest[i - 1];
      values[0]
    else
      var m := MaximalNegative(rest);
      if values[0] < 0.0 && m <= values[0] then values[0] else m
  }

  /**
   * The lower rescaling bound: the sum of the negative weights when there is
   * one, otherwise the smallest weight (all weights are then `>= 0`).
   */
  function MinValue(values: seq<real>): (r: real)
    requires |values| > 0
    ensures forall i | 0 <= i < |values| :: r <= values[i]
    ensures AnyNegative(values) ==> r < 0.0 && r == SumOfNegatives(values)
    ensures !AnyNegative(values) ==> 0.0 <= r && r in values
  {
    if AnyNegative(values) then SumOfNegatives(values)
    else
      assert values[0] >= 0.0;
      MinimalPositive(values)
  }

  /**
   * The upper rescaling bound: the sum of the weights `>= 0` when there is
   * one, otherwise the largest weight (all weights are then `< 0`).
   */
  function MaxValue(values: seq<real>): (r: real)
    requires |values| > 0
    ensures forall i | 0 <= i < |values| :: values[i] <= r
    ensures AnyPositive(values) ==> 0.0 <= r && r == SumOfPositives(values)
    ensures !AnyPositive(values) ==> r < 0.0 && r in values
  {
    if AnyPositive(values) then SumOfPositives(values)
    else
      assert values[0] < 0.0;
      MaximalNegative(values)
  }

  /** A kernel as `new` builds it: flat row-major weights, the side length and the two rescaling bounds. */
  datatype Convolution = Convolution(values: seq<real>, size: nat, minValue: real, maxValue: real)
  {
    /** The shape part of the invariant: `size` is odd and the weights fill a `size` by `size` square. */
    predicate WellShaped() {
      size % 2 == 1 && |values| == Square(size) && |values| > 0
    }

    /** What `new` establishes and nothing changes afterwards. */
    predicate Valid() {
      && WellShaped()
      && minValue == MinValue(values)
      && maxValue == MaxValue(values)
    }
  }

  /** The finite weights as reals. */
  function ToReals(values: seq<Float>): (r: seq<real>)
    requires !ContainsNonFinite(values)
    ensures |r| == |values|
    ensures forall i | 0 <= i < |values| :: values[i] == Finite(r[i])
  {
    seq(|values|, i requires 0 <= i < |values| => values[i].value)
  }

  /**
   * Validates the weights: non-finite weights are reported first, then a
   * length that is not the square of an odd number.
   */
  function New(values: seq<Float>): (r: Result<Convolution, ConvolutionError>)
    ensures r == Err(ConvolutionDoesNotContainNumbers) <==> ContainsNonFinite(values)
    ensures r == Err(ConvolutionIsNotWellShaped) <==> !ContainsNonFinite(values) && !IsOddSquare(|values|)
    ensures r.Ok? ==> r.value.Valid()
    ensures r.Ok? ==> Square(r.value.size) == |values| && r.value.size % 2 == 1 && r.value.size >= 1
    ensures r.Ok? ==> |r.value.values| == |values| && forall i | 0 <= i < |values| :: values[i] == Finite(r.value.values[i])
    ensures r.Ok? ==> r.value.minValue <= r.value.maxValue
  {
    if ContainsNonFinite(values) then Err(ConvolutionDoesNotContainNumbers)
    else if !IsCorrectlyDimensioned(|values|) then Err(ConvolutionIsNotWellShaped)
    else
      var reals := ToReals(values);
      var size := FloorSqrt(|values|);
      assert size >= 1;
      Ok(Convolution(reals, size, MinValue(reals), MaxValue(reals)))
  }

  /** The side length of a valid kernel: odd, and its square is the number of weights. */
  function GetSize(c: Convolution): (r: nat)
    requires c.WellShaped()
    ensures Square(r) == |c.values| && r % 2 == 1
  {
    c.size
  }

  /** The weight in column `col` and row `row` of the flat row-major weights. */
  function Index(c: Convolution, col: nat, row: nat): (r: real)
    requires |c.values| == Square(c.size) && col < c.size && row < c.size
    ensures r in c.values
  {
    FlatIndexInRange(col, row, c.size, c.size);
    c.values[row * c.size + col]
  }

  /** `(col, row)` lookup reaches every weight: weight `k` sits in some column and row of the square. */
  lemma IndexReachesEveryWeight(c: Convolution, k: nat) returns (col: nat, row: nat)
    requires c.WellShaped() && k < |c.values|
    ensures col < c.size && row < c.size && row * c.size + col == k
    ensures Index(c, col, row) == c.values[k]
  {
    var n := c.size;
    assert k < n * n;
    RowMajorEncode(k, n, n);
    col, row := k % n, k / n;
  }

  /** Distinct `(col, row)` pairs read distinct weights. */
  lemma IndexInjective(c: Convolution, col1: nat, row1: nat, col2: nat, row2: nat)
    requires col1 < c.size && row1 < c.size && col2 < c.size && row2 < c.size
    requires (col1, row1) != (col2, row2)
    ensures row1 * c.size + col1 != row2 * c.size + col2
  {
    RowMajorDecode(col1, row1, c.size);
    RowMajorDecode(col2, row2, c.size);
  }

  /** `v as u8` for an f64 `v`: rounds toward zero, then saturates at 0 and 255. */
  function AsU8(v: real): (r: u8)
    ensures v < 0.0 ==> r == 0
    ensures 0.0 <= v < 256.0 ==> r as real <= v < r as real + 1.0
    ensures 256.0 <= v ==> r == 255
  {
    if v < 0.0 then 0 else if v >= 255.0 then 255 else v.Floor
  }

  /**
   * Maps an accumulated sum to a byte: directly when the bounds coincide,
   * otherwise by the truncated fraction of the way from the lower bound to
   * the upper one.
   */
  function ComputeAdjustedPixelValue(c: Convolution, value: real): (r: u8)
    ensures c.maxValue == c.minValue && 0.0 <= value < 256.0 ==> r as real <= value < r as real + 1.0
    ensures c.minValue < c.maxValue && value <= c.minValue ==> r == 0
    ensures c.minValue < c.maxValue && c.minValue + 256.0 * (c.maxValue - c.minValue) <= value ==> r == 255
  {
    if c.maxValue == c.minValue then AsU8(value)
    else
      QuotientSign(value - c.minValue, c.maxValue - c.minValue);
      AsU8((value - c.minValue) / (c.maxValue - c.minValue))
  }

  /** For a positive divisor `b`, `a / b` is at most 0 when `a` is, and at least 256 when `a` is at least `256 * b`. */
  lemma QuotientSign(a: real, b: real)
    ensures b > 0.0 && a <= 0.0 ==> a / b <= 0.0
    ensures b > 0.0 && 256.0 * b <= a ==> 256.0 <= a / b
  {
    if b > 0.0 {
      var q := a / b;
      assert q * b == a;
    }
  }

  /** When the bounds coincide a byte-valued sum comes back unchanged. */
  lemma AdjustedDegenerateKeepsBytes(c: Convolution, p: u8)
    requires c.maxValue == c.minValue
    ensures ComputeAdjustedPixelValue(c, p as real) == p
  {
  }

  /**
   * The linear branch truncates a value in [0, 1]: a sum between the bounds
   * becomes 1 exactly at the upper bound and 0 everywhere else.
   */
  lemma AdjustedCollapsesBetweenBounds(c: Convolution, value: real)
    requires c.minValue < c.maxValue
    requires c.minValue <= value <= c.maxValue
    ensures ComputeAdjustedPixelValue(c, value) == (if value == c.maxValue then 1 else 0)
  {
    FractionInUnitInterval(value - c.minValue, c.maxValue - c.minValue);
  }

  /** A fraction `a / b` with `0 <= a <= b` lies in [0, 1] and is 1 only when `a == b`. */
  lemma FractionInUnitInterval(a: real, b: real)
    requires 0.0 <= a <= b && b > 0.0
    ensures 0.0 <= a / b <= 1.0
    ensures a / b == 1.0 <==> a == b
  {
    assert (a / b) * b == a;
  }

  /** The identity kernel `[1.0]`: both bounds are 1.0, and size 1. */
  lemma IdentityKernel()
    ensures New([Finite(1.0)]) == Ok(Convolution([1.0], 1, 1.0, 1.0))
  {
    assert Square(1) == 1;
    var r := New([Finite(1.0)]);
    assert r.Ok?;
    FloorSqrtUnique(1, 1);
    assert r.value.values == [1.0];
  }

  /** The shape check rejects the empty kernel and a kernel of two weights. */
  lemma ShapeRejectsSmallLengths()
    ensures New([]) == Err(ConvolutionIsNotWellShaped)
    ensures New([Finite(1.0), Finite(2.0)]) == Err(ConvolutionIsNotWellShaped)
  {
    assert FloorSqrt(0) == 0;
    assert Square(1) <= 2 < Square(2);
    FloorSqrtUnique(2, 1);
  }

  /** A kernel of `k*k` finite weights with `k` odd is accepted with size `k`. */
  lemma ShapeAcceptsOddSquares(values: seq<Float>, k: nat)
    requires !ContainsNonFinite(values)
    requires |values| == Square(k) && k % 2 == 1
    ensures New(values).Ok? && New(values).value.size == k
  {
    assert Square(k + 1) == Square(k) + 2 * k + 1;
    FloorSqrtUnique(|values|, k);
    assert IsCorrectlyDimensioned(|values|);
  }

  /** Lengths 1, 9 and 25 are accepted with sizes 1, 3 and 5. */
  lemma ShapeExamples(w: real)
    ensures New([Finite(w)]).Ok? && New([Finite(w)]).value.size == 1
    ensures New(seq(9, _ => Finite(w))).Ok? && New(seq(9, _ => Finite(w))).value.size == 3
    ensures New(seq(25, _ => Finite(w))).Ok? && New(seq(25, _ => Finite(w))).value.size == 5
  {
    assert Square(1) == 1 && Square(3) == 9 && Square(5) == 25;
    ShapeAcceptsOddSquares([Finite(w)], 1);
    ShapeAcceptsOddSquares(seq(9, _ => Finite(w)), 3);
    ShapeAcceptsOddSquares(seq(25, _ => Finite(w)), 5);
  }

  /** Non-finite weights are reported before the shape, even for a badly shaped kernel. */
  lemma NonFiniteReportedFirst(values: seq<Float>, i: nat)
    requires i < |values| && !values[i].Finite?
    ensures New(values) == Err(ConvolutionDoesNotContainNumbers)
  {
  }
}
