/**
 * `smoothMask` of src/components/3Drendering/Mask3DUtils.js: a box filter
 * of half-width `floor(kernelSize / 2)` whose window is clipped at the
 * borders; each output pixel is the mean of the in-bounds pixels of its
 * window.
 */
module Smoothing {
  import opened MaskGrid

  /** Values of the in-bounds positions among columns [lo, hi) of row ny, left to right. */
  function RowValues(mask: seq<real>, width: int, height: int, ny: int, lo: int, hi: int): seq<real>
    requires |mask| >= width * height
    decreases hi - lo
  {
    if hi <= lo then []
    else
      RowValues(mask, width, height, ny, lo, hi - 1)
      + (if InBounds(Point(hi - 1, ny), width, height) then [mask[CellIndex(Point(hi - 1, ny), width, height)]] else [])
  }

  /** Values the window loops visit over rows [ylo, yhi) and columns [xlo, xhi), in loop order. */
  function BlockValues(mask: seq<real>, width: int, height: int, xlo: int, xhi: int, ylo: int, yhi: int): seq<real>
    requires |mask| >= width * height
    decreases yhi - ylo
  {
    if yhi <= ylo then []
    else BlockValues(mask, width, height, xlo, xhi, ylo, yhi - 1) + RowValues(mask, width, height, yhi - 1, xlo, xhi)
  }

  /** The clipped window of pixel p for half-width `half`. */
  function Window(mask: seq<real>, width: int, height: int, p: Point, half: int): seq<real>
    requires |mask| >= width * height
  {
    BlockValues(mask, width, height, p.x - half, p.x + half + 1, p.y - half, p.y + half + 1)
  }

  function Sum(s: seq<real>): real {
    if s == [] then 0.0 else Sum(s[..|s| - 1]) + s[|s| - 1]
  }

  /** The smoothed value of in-bounds pixel p: the mean over its clipped window. */
  function Mean(mask: seq<real>, width: int, height: int, p: Point, half: nat): real
    requires |mask| >= width * height && InBounds(p, width, height)
  {
    CenterCounted(mask, width, height, p, half);
    Sum(Window(mask, width, height, p, half)) / |Window(mask, width, height, p, half)| as real
  }

  lemma {:induction false} RowHasCenter(mask: seq<real>, width: int, height: int, p: Point, lo: int, hi: int)
    requires |mask| >= width * height && InBounds(p, width, height) && lo <= p.x < hi
    ensures |RowValues(mask, width, height, p.y, lo, hi)| >= 1
    decreases hi - lo
  {
    if hi - 1 != p.x {
      RowHasCenter(mask, width, height, p, lo, hi - 1);
    }
  }

  lemma {:induction false} BlockHasCenter(mask: seq<real>, width: int, height: int, p: Point, xlo: int, xhi: int, ylo: int, yhi: int)
    requires |mask| >= width * height && InBounds(p, width, height) && xlo <= p.x < xhi && ylo <= p.y < yhi
    ensures |BlockValues(mask, width, height, xlo, xhi, ylo, yhi)| >= 1
    decreases yhi - ylo
  {
    if yhi - 1 == p.y {
      RowHasCenter(mask, width, height, p, xlo, xhi);
    } else {
      BlockHasCenter(mask, width, height, p, xlo, xhi, ylo, yhi - 1);
    }
  }

  /** The window always holds its own centre, so `count` is never zero. */
  lemma CenterCounted(mask: seq<real>, width: int, height: int, p: Point, half: nat)
    requires |mask| >= width * height && InBounds(p, width, height)
    ensures |Window(mask, width, height, p, half)| >= 1
  {
    BlockHasCenter(mask, width, height, p, p.x - half, p.x + half + 1, p.y - half, p.y + half + 1);
  }

  lemma SumAppend(s: seq<real>, v: real)
    ensures Sum(s + [v]) == Sum(s) + v
  {
    assert (s + [v])[..|s|] == s;
  }

  lemma {:induction false} SumConcat(s: seq<real>, t: seq<real>)
    ensures Sum(s + t) == Sum(s) + Sum(t)
    decreases |t|
  {
    if t != [] {
      var init := t[..|t| - 1];
      assert s + t == (s + init) + [t[|t| - 1]];
      SumAppend(s + init, t[|t| - 1]);
      SumConcat(s, init);
    } else {
      assert s + t == s;
    }
  }

  /** The innermost loop: row ny of the window, columns x - half .. x + half. */
  method RowTotals(mask: seq<real>, width: nat, height: nat, x: int, ny: int, half: int)
    returns (sum: real, count: int)
    requires |mask| >= width * height && half >= 0
    ensures sum == Sum(RowValues(mask, width, height, ny, x - half, x + half + 1))
    ensures count == |RowValues(mask, width, height, ny, x - half, x + half + 1)|
  {
    sum := 0.0;
    count := 0;
    var kx := -half;
    while kx <= half
      invariant -half <= kx <= half + 1
      invariant sum == Sum(RowValues(mask, width, height, ny, x - half, x + kx))
      invariant count == |RowValues(mask, width, height, ny, x - half, x + kx)|
    {
      var nx := x + kx;
      ghost var row := RowValues(mask, width, height, ny, x - half, nx);
      if nx >= 0 && nx < width && ny >= 0 && ny < height {
        var v := mask[CellIndex(Point(nx, ny), width, height)];
        assert CellIndex(Point(nx, ny), width, height) == ny * width + nx;
        assert RowValues(mask, width, height, ny, x - half, nx + 1) == row + [v];
        SumAppend(row, v);
        sum := sum + mask[ny * width + nx];
        count := count + 1;
      } else {
        assert RowValues(mask, width, height, ny, x - half, nx + 1) == row;
      }
      kx := kx + 1;
    }
  }

  /** The two inner loops for one output pixel: window `sum` and in-bounds `count`. */
  method WindowTotals(mask: seq<real>, width: nat, height: nat, x: int, y: int, half: int)
    returns (sum: real, count: int)
    requires |mask| >= width * height && half >= 0
    ensures sum == Sum(Window(mask, width, height, Point(x, y), half))
    ensures count == |Window(mask, width, height, Point(x, y), half)|
  {
    sum := 0.0;
    count := 0;
    var xlo, xhi, ylo := x - half, x + half + 1, y - half;
    var ky := -half;
    while ky <= half
      invariant -half <= ky <= half + 1
      invariant Totals(sum, count, BlockValues(mask, width, height, xlo, xhi, ylo, y + ky))
    {
      var ny := y + ky;
      var rowSum, rowCount := RowTotals(mask, width, height, x, ny, half);
      BlockStep(mask, width, height, xlo, xhi, ylo, ny);
      TotalsConcat(sum, count, rowSum, rowCount,
                   BlockValues(mask, width, height, xlo, xhi, ylo, ny), RowValues(mask, width, height, ny, xlo, xhi));
      sum := sum + rowSum;
      count := count + rowCount;
      ky := ky + 1;
    }
  }

  /** `sum` and `count` are the sum and the number of the values `s`. */
  ghost predicate Totals(sum: real, count: int, s: seq<real>) {
    sum == Sum(s) && count == |s|
  }

  lemma TotalsConcat(sum: real, count: int, rowSum: real, rowCount: int, s: seq<real>, t: seq<real>)
    requires Totals(sum, count, s) && Totals(rowSum, rowCount, t)
    ensures Totals(sum + rowSum, count + rowCount, s + t)
  {
    SumConcat(s, t);
  }

  /** One more row of the window: the block grows by that row's values. */
  lemma BlockStep(mask: seq<real>, width: int, height: int, xlo: int, xhi: int, ylo: int, y: int)
    requires |mask| >= width * height && ylo <= y
    ensures BlockValues(mask, width, height, xlo, xhi, ylo, y + 1)
            == BlockValues(mask, width, height, xlo, xhi, ylo, y) + RowValues(mask, width, height, y, xlo, xhi)
  {
  }

  lemma DistinctCells(p: Point, q: Point, width: int, height: int)
    requires InBounds(p, width, height) && InBounds(q, width, height) && p != q
    ensures CellIndex(p, width, height) != CellIndex(q, width, height)
  {
    if CellIndex(p, width, height) == CellIndex(q, width, height) {
      IndexInjective(p, q, width, height);
    }
  }

  /** Output pixels already written by the scan when it stands at (x, y). */
  predicate Written(p: Point, x: int, y: int) {
    p.y < y || (p.y == y && p.x < x)
  }

  /**
   * The output buffer when the scan stands at (x, y): every pixel already
   * visited holds its mean, and the entries past the grid are still 0.
   */
  ghost predicate Done(out: seq<real>, mask: seq<real>, width: int, height: int, half: nat, x: int, y: int)
    requires |mask| >= width * height
  {
    |out| == |mask|
    && (forall p :: InBounds(p, width, height) && Written(p, x, y) ==>
          out[CellIndex(p, width, height)] == Mean(mask, width, height, p, half))
    && (forall i :: 0 <= i && width * height <= i < |out| ==> out[i] == 0.0)
  }

  lemma WriteStep(out: seq<real>, mask: seq<real>, width: int, height: int, half: nat, x: int, y: int, v: real)
    requires |mask| >= width * height && InBounds(Point(x, y), width, height)
    requires Done(out, mask, width, height, half, x, y)
    requires v == Mean(mask, width, height, Point(x, y), half)
    ensures Done(out[CellIndex(Point(x, y), width, height) := v], mask, width, height, half, x + 1, y)
  {
    var here := CellIndex(Point(x, y), width, height);
    var out' := out[here := v];
    forall p | InBounds(p, width, height) && Written(p, x + 1, y)
      ensures out'[CellIndex(p, width, height)] == Mean(mask, width, height, p, half)
    {
      if p != Point(x, y) {
        DistinctCells(p, Point(x, y), width, height);
      }
    }
  }

  lemma RowDone(out: seq<real>, mask: seq<real>, width: int, height: int, half: nat, y: int)
    requires |mask| >= width * height
    requires Done(out, mask, width, height, half, width, y)
    ensures Done(out, mask, width, height, half, 0, y + 1)
  {
    forall p | InBounds(p, width, height) && Written(p, 0, y + 1)
      ensures Written(p, width, y)
    {
    }
  }

  /** One pass of the x loop of `smoothMask`: row y of the output. */
  method SmoothRow(mask: seq<real>, width: nat, height: nat, half: nat, y: nat, out: array<real>)
    requires |mask| >= width * height && y < height
    requires Done(out[..], mask, width, height, half, 0, y)
    modifies out
    ensures Done(out[..], mask, width, height, half, 0, y + 1)
  {
    var x := 0;
    while x < width
      invariant 0 <= x <= width
      invariant Done(out[..], mask, width, height, half, x, y)
    {
      var sum, count := WindowTotals(mask, width, height, x, y, half);
      CenterCounted(mask, width, height, Point(x, y), half);
      ghost var here := CellIndex(Point(x, y), width, height);
      assert here == y * width + x;
      WriteStep(out[..], mask, width, height, half, x, y, sum / count as real);
      out[y * width + x] := sum / count as real;
      x := x + 1;
    }
    RowDone(out[..], mask, width, height, half, y);
  }

  /**
   * `smoothMask` with a non-negative kernel size: the result has the length
   * of the input; every grid pixel holds the mean of its window and entries
   * past width * height keep the initial 0 of the fresh `Float32Array`.
   */
  method SmoothMask(mask: seq<real>, width: nat, height: nat, kernelSize: int) returns (smoothed: seq<real>)
    requires |mask| >= width * height && kernelSize >= 0
    ensures |smoothed| == |mask|
    ensures forall p :: InBounds(p, width, height) ==>
              smoothed[CellIndex(p, width, height)] == Mean(mask, width, height, p, kernelSize / 2)
    ensures forall i :: width * height <= i < |mask| ==> smoothed[i] == 0.0
  {
    var out := new real[|mask|](_ => 0.0);
    var halfKernel := kernelSize / 2;
    var y := 0;
    while y < height
      invariant 0 <= y <= height
      invariant Done(out[..], mask, width, height, halfKernel, 0, y)
    {
      SmoothRow(mask, width, height, halfKernel, y, out);
      y := y + 1;
    }
    smoothed := out[..];
    forall p | InBounds(p, width, height)
      ensures Written(p, 0, height)
    {
    }
  }

  /** Every value a window visits is a pixel of the grid. */
  lemma {:induction false} RowValuesFromGrid(mask: seq<real>, width: int, height: int, ny: int, lo: int, hi: int, a: real, b: real)
    requires |mask| >= width * height
    requires forall i :: 0 <= i < width * height ==> a <= mask[i] <= b
    ensures forall v :: v in RowValues(mask, width, height, ny, lo, hi) ==> a <= v <= b
    decreases hi - lo
  {
    if hi > lo {
      RowValuesFromGrid(mask, width, height, ny, lo, hi - 1, a, b);
    }
  }

  lemma {:induction false} BlockValuesFromGrid(mask: seq<real>, width: int, height: int, xlo: int, xhi: int, ylo: int, yhi: int, a: real, b: real)
    requires |mask| >= width * height
    requires forall i :: 0 <= i < width * height ==> a <= mask[i] <= b
    ensures forall v :: v in BlockValues(mask, width, height, xlo, xhi, ylo, yhi) ==> a <= v <= b
    decreases yhi - ylo
  {
    if yhi > ylo {
      BlockValuesFromGrid(mask, width, height, xlo, xhi, ylo, yhi - 1, a, b);
      RowValuesFromGrid(mask, width, height, yhi - 1, xlo, xhi, a, b);
    }
  }

  /** A sum of n values in [a, b] lies in [n a, n b]. */
  lemma {:induction false} SumBounds(s: seq<real>, a: real, b: real)
    requires forall v :: v in s ==> a <= v <= b
    ensures |s| as real * a <= Sum(s) <= |s| as real * b
  {
    if s != [] {
      var init := s[..|s| - 1];
      assert forall v :: v in init ==> v in s;
      SumBounds(init, a, b);
      assert s[|s| - 1] in s;
      assert |s| as real == |init| as real + 1.0;
      assert |s| as real * a == |init| as real * a + a;
      assert |s| as real * b == |init| as real * b + b;
    }
  }

  lemma DivBounds(s: real, c: real, a: real, b: real)
    requires c > 0.0 && c * a <= s <= c * b
    ensures a <= s / c <= b
  {
    assert (s / c) * c == s;
  }

  /** Smoothing never leaves the range of the input: a 0/1 mask stays within [0, 1]. */
  lemma MeanBounds(mask: seq<real>, width: int, height: int, p: Point, half: nat, a: real, b: real)
    requires |mask| >= width * height && InBounds(p, width, height)
    requires forall i :: 0 <= i < width * height ==> a <= mask[i] <= b
    ensures a <= Mean(mask, width, height, p, half) <= b
  {
    var w := Window(mask, width, height, p, half);
    BlockValuesFromGrid(mask, width, height, p.x - half, p.x + half + 1, p.y - half, p.y + half + 1, a, b);
    CenterCounted(mask, width, height, p, half);
    AverageBounds(w, a, b);
  }

  /** The average of a nonempty sequence of values in [a, b] lies in [a, b]. */
  lemma AverageBounds(s: seq<real>, a: real, b: real)
    requires |s| >= 1 && forall v :: v in s ==> a <= v <= b
    ensures a <= Sum(s) / |s| as real <= b
  {
    SumBounds(s, a, b);
    DivBounds(Sum(s), |s| as real, a, b);
  }

  /** A mask that is constant on the grid is left unchanged by smoothing. */
  lemma MeanOfConstant(mask: seq<real>, width: int, height: int, p: Point, half: nat, v: real)
    requires |mask| >= width * height && InBounds(p, width, height)
    requires forall i :: 0 <= i < width * height ==> mask[i] == v
    ensures Mean(mask, width, height, p, half) == v
  {
    MeanBounds(mask, width, height, p, half, v, v);
  }
}
