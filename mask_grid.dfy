/**
 * Raster conventions shared by the mask-geometry utilities
 * (src/components/3Drendering/Mask3DUtils.js): a mask is a row-major
 * buffer of intensities, pixel (x, y) lives at index y * width + x, and
 * a pixel is foreground when its value is strictly above the threshold.
 */
module MaskGrid {

  datatype Point = Point(x: int, y: int)

  /** One `{x, y, z}` triple pushed onto a `vertices` array. */
  datatype Vertex = Vertex(x: real, y: real, z: real)

  /** One `a, b, c` triple pushed onto a `faces` array. */
  datatype Face = Face(a: int, b: int, c: int)

  function Max(a: int, b: int): int { if a >= b then a else b }

  function Min(a: int, b: int): int { if a <= b then a else b }

  predicate InBounds(p: Point, width: int, height: int) {
    0 <= p.x < width && 0 <= p.y < height
  }

  /** Row-major buffer index of a pixel. */
  function Index(p: Point, width: int): int { p.y * width + p.x }

  /**
   * `maskData[index] > threshold`: reading past either end of a JavaScript
   * array yields `undefined`, which is never greater than a number.
   */
  predicate Above(mask: seq<real>, index: int, threshold: real) {
    0 <= index < |mask| && mask[index] > threshold
  }

  predicate IsForeground(mask: seq<real>, width: int, height: int, threshold: real, p: Point) {
    InBounds(p, width, height) && Above(mask, Index(p, width), threshold)
  }

  /** `(c / extent) * 2 - 1`: a grid coordinate mapped to the range [-1, 1]. */
  function Normalize(c: int, extent: int): real
    requires extent != 0
  {
    (c as real / extent as real) * 2.0 - 1.0
  }

  /** A coordinate inside [0, extent) is mapped into [-1, 1). */
  lemma NormalizeInRange(c: int, extent: int)
    requires 0 <= c < extent
    ensures -1.0 <= Normalize(c, extent) < 1.0
  {
    var q := c as real / extent as real;
    assert q * extent as real == c as real;
    assert 0.0 <= q < 1.0;
  }

  /** Every corner of the face is a valid index into a vertex list of length n. */
  predicate FaceWithin(f: Face, lo: int, hi: int) {
    lo <= f.a < hi && lo <= f.b < hi && lo <= f.c < hi
  }

  /** Rows below row r start at or after (r + 1) * width. */
  lemma {:induction false} MulMonotone(a: int, b: int, width: int)
    requires 0 <= a <= b && 0 <= width
    ensures a * width <= b * width
  {
    if a < b {
      MulMonotone(a, b - 1, width);
      assert b * width == (b - 1) * width + width;
    }
  }

  lemma IndexInRange(p: Point, width: int, height: int)
    requires InBounds(p, width, height)
    ensures 0 <= Index(p, width) < width * height
  {
    MulMonotone(p.y + 1, height, width);
    assert (p.y + 1) * width == p.y * width + width;
    assert height * width == width * height;
  }

  lemma {:induction false} IndexInjective(p: Point, q: Point, width: int, height: int)
    requires InBounds(p, width, height) && InBounds(q, width, height)
    requires Index(p, width) == Index(q, width)
    ensures p == q
  {
    assert (p.y + 1) * width == p.y * width + width;
    assert (q.y + 1) * width == q.y * width + width;
    if p.y < q.y {
      MulMonotone(p.y + 1, q.y, width);
    } else if q.y < p.y {
      MulMonotone(q.y + 1, p.y, width);
    }
  }
  /** Index of an in-bounds pixel, known to address a buffer of width * height entries. */
  function CellIndex(p: Point, width: int, height: int): (r: int)
    requires InBounds(p, width, height)
    ensures 0 <= r < width * height
  {
    IndexInRange(p, width, height);
    Index(p, width)
  }

  /** The pixel at buffer index k of a width x height grid: `k % width`, `floor(k / width)`. */
  function GridPosition(k: int, width: int, height: int): (p: Point)
    requires 1 <= width && 0 <= k < width * height
    ensures InBounds(p, width, height) && Index(p, width) == k
  {
    GridPositionInRange(k, width, height);
    Point(k % width, k / width)
  }

  lemma GridPositionInRange(k: int, width: int, height: int)
    requires 1 <= width && 0 <= k < width * height
    ensures 0 <= k / width < height && (k / width) * width + k % width == k
  {
    var q := k / width;
    assert k == q * width + k % width && 0 <= k % width < width;
    assert height * width == width * height;
    if q >= height {
      MulMonotone(height, q, width);
    }
  }
}
