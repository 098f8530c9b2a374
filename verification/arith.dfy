/**
 * Integer facts about row-major flat indexing, shared by the kernel (whose
 * weights are a flat `size*size` sequence) and the image (a flat
 * `width*height` buffer).
 */
module Arith {

  function Square(k: int): int { k * k }

  /** Squaring is monotonic on naturals. */
  lemma SquareMonotonic(a: nat, b: nat)
    requires a <= b
    ensures Square(a) <= Square(b)
  {
    assert a * a <= a * b by { assert a * (b - a) >= 0; }
    assert a * b <= b * b by { assert b * (b - a) >= 0; }
  }

  /** The flat position of column `x`, row `y` lies inside a `w` by `h` grid. */
  lemma FlatIndexInRange(x: int, y: int, w: int, h: int)
    requires 0 <= x < w && 0 <= y < h
    ensures 0 <= y * w + x < w * h
  {
    var below, total := y * w, w * h;
    assert below >= 0 by { MultipleNonNegative(y, w); }
    assert total - w - below == (h - 1 - y) * w;
    MultipleNonNegative(h - 1 - y, w);
  }

  lemma MultipleNonNegative(a: int, b: int)
    requires a >= 0 && b >= 0
    ensures a * b >= 0
  {
  }

  /** Row-major decoding: the flat position of `(x, y)` gives back `x` and `y`. */
  lemma RowMajorDecode(x: int, y: int, w: int)
    requires 0 <= x < w && 0 <= y
    ensures (y * w + x) / w == y && (y * w + x) % w == x
  {
    var k := y * w + x;
    var q, r := k / w, k % w;
    assert k == q * w + r && 0 <= r < w;
    assert (q - y) * w == x - r;
    if q > y {
      MultipleAtLeast(q - y, w);
    } else if q < y {
      MultipleAtLeast(y - q, w);
    }
  }

  lemma MultipleAtLeast(d: int, w: int)
    requires d >= 1 && w >= 0
    ensures d * w >= w
  {
    assert (d - 1) * w >= 0;
  }

  /** Row-major encoding: a flat position inside a `w` by `h` grid names a column below `w` and a row below `h`. */
  lemma RowMajorEncode(k: int, w: int, h: int)
    requires 0 <= k < w * h && 0 <= h
    ensures w > 0
    ensures 0 <= k % w < w && 0 <= k / w < h
    ensures (k / w) * w + k % w == k
  {
    var q, r := k / w, k % w;
    assert k == q * w + r;
    if q >= h {
      MultipleAtLeast(q - h + 1, w);
    }
  }
}
