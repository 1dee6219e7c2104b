/**
 * `maskToVoxels` of src/components/3Drendering/Mask3DUtils.js: one voxel,
 * in the z = 0 plane, for every pixel above the threshold, in row-major
 * scan order.
 */
module Voxels {
  import opened MaskGrid

  datatype Voxel = Voxel(x: real, y: real, z: real, size: real)

  /** The voxel emitted for foreground pixel p. */
  function VoxelAt(p: Point, width: int, height: int, size: real): Voxel
    requires width != 0 && height != 0
  {
    Voxel(Normalize(p.x, width), Normalize(p.y, height), 0.0, size)
  }

  /** Foreground pixels among columns [0, cols) of row y, left to right. */
  function RowPixels(mask: seq<real>, width: int, threshold: real, y: int, cols: nat): seq<Point>
  {
    if cols == 0 then []
    else
      RowPixels(mask, width, threshold, y, cols - 1)
      + (if Above(mask, Index(Point(cols - 1, y), width), threshold) then [Point(cols - 1, y)] else [])
  }

  /** Foreground pixels of rows [0, rows), in row-major scan order. */
  function ForegroundPixels(mask: seq<real>, width: nat, rows: nat, threshold: real): seq<Point>
  {
    if rows == 0 then []
    else ForegroundPixels(mask, width, rows - 1, threshold) + RowPixels(mask, width, threshold, rows - 1, width)
  }

  /** Strict row-major order: earlier row, or same row and earlier column. */
  predicate ScanBefore(p: Point, q: Point) {
    p.y < q.y || (p.y == q.y && p.x < q.x)
  }

  lemma {:induction false} RowPixelsMembership(mask: seq<real>, width: int, threshold: real, y: int, cols: nat, p: Point)
    ensures p in RowPixels(mask, width, threshold, y, cols)
            <==> p.y == y && 0 <= p.x < cols && Above(mask, Index(p, width), threshold)
  {
    if cols > 0 {
      RowPixelsMembership(mask, width, threshold, y, cols - 1, p);
    }
  }

  /** A pixel is listed exactly when it is in the grid and above the threshold. */
  lemma ForegroundMembership(mask: seq<real>, width: nat, rows: nat, threshold: real, p: Point)
    ensures p in ForegroundPixels(mask, width, rows, threshold) <==> IsForeground(mask, width, rows, threshold, p)
  {
    ForegroundListed(mask, width, rows, threshold);
    ForegroundComplete(mask, width, rows, threshold, p);
  }

  lemma {:induction false} RowPixelsListed(mask: seq<real>, width: int, threshold: real, y: int, cols: nat)
    ensures forall i :: 0 <= i < |RowPixels(mask, width, threshold, y, cols)| ==>
              RowPixels(mask, width, threshold, y, cols)[i].y == y
              && 0 <= RowPixels(mask, width, threshold, y, cols)[i].x < cols
              && Above(mask, Index(RowPixels(mask, width, threshold, y, cols)[i], width), threshold)
  {
    if cols > 0 {
      RowPixelsListed(mask, width, threshold, y, cols - 1);
    }
  }

  /** Every listed pixel is a foreground pixel of the grid. */
  lemma {:induction false} ForegroundListed(mask: seq<real>, width: nat, rows: nat, threshold: real)
    ensures forall i :: 0 <= i < |ForegroundPixels(mask, width, rows, threshold)| ==>
              IsForeground(mask, width, rows, threshold, ForegroundPixels(mask, width, rows, threshold)[i])
  {
    if rows > 0 {
      ForegroundListed(mask, width, rows - 1, threshold);
      RowPixelsListed(mask, width, threshold, rows - 1, width);
      var before := ForegroundPixels(mask, width, rows - 1, threshold);
      var row := RowPixels(mask, width, threshold, rows - 1, width);
      assert ForegroundPixels(mask, width, rows, threshold) == before + row;
      forall i | 0 <= i < |before + row|
        ensures IsForeground(mask, width, rows, threshold, (before + row)[i])
      {
        if i < |before| {
          assert (before + row)[i] == before[i];
        } else {
          assert (before + row)[i] == row[i - |before|];
        }
      }
    }
  }

  /** Every foreground pixel of the grid is listed. */
  lemma {:induction false} ForegroundComplete(mask: seq<real>, width: nat, rows: nat, threshold: real, p: Point)
    ensures IsForeground(mask, width, rows, threshold, p) ==> p in ForegroundPixels(mask, width, rows, threshold)
  {
    if rows > 0 && IsForeground(mask, width, rows, threshold, p) {
      var before := ForegroundPixels(mask, width, rows - 1, threshold);
      var row := RowPixels(mask, width, threshold, rows - 1, width);
      assert ForegroundPixels(mask, width, rows, threshold) == before + row;
      if p.y < rows - 1 {
        ForegroundComplete(mask, width, rows - 1, threshold, p);
        var k :| 0 <= k < |before| && before[k] == p;
        assert (before + row)[k] == p;
      } else {
        RowPixelsMembership(mask, width, threshold, rows - 1, width, p);
        var k :| 0 <= k < |row| && row[k] == p;
        assert (before + row)[|before| + k] == p;
      }
    }
  }

  lemma {:induction false} RowPixelsSorted(mask: seq<real>, width: int, threshold: real, y: int, cols: nat)
    ensures forall i :: 0 <= i < |RowPixels(mask, width, threshold, y, cols)| ==>
              RowPixels(mask, width, threshold, y, cols)[i].y == y && 0 <= RowPixels(mask, width, threshold, y, cols)[i].x < cols
    ensures forall i, j :: 0 <= i < j < |RowPixels(mask, width, threshold, y, cols)| ==>
              ScanBefore(RowPixels(mask, width, threshold, y, cols)[i], RowPixels(mask, width, threshold, y, cols)[j])
  {
    if cols > 0 {
      RowPixelsSorted(mask, width, threshold, y, cols - 1);
    }
  }

  /** The voxels come out in strict scan order, hence without repeats. */
  lemma {:induction false} ForegroundSorted(mask: seq<real>, width: nat, rows: nat, threshold: real)
    ensures forall i :: 0 <= i < |ForegroundPixels(mask, width, rows, threshold)| ==>
              ForegroundPixels(mask, width, rows, threshold)[i].y < rows
    ensures forall i, j :: 0 <= i < j < |ForegroundPixels(mask, width, rows, threshold)| ==>
              ScanBefore(ForegroundPixels(mask, width, rows, threshold)[i], ForegroundPixels(mask, width, rows, threshold)[j])
  {
    if rows > 0 {
      ForegroundSorted(mask, width, rows - 1, threshold);
      RowPixelsSorted(mask, width, threshold, rows - 1, width);
      var before := ForegroundPixels(mask, width, rows - 1, threshold);
      var row := RowPixels(mask, width, threshold, rows - 1, width);
      assert ForegroundPixels(mask, width, rows, threshold) == before + row;
      forall i, j | 0 <= i < j < |before + row|
        ensures ScanBefore((before + row)[i], (before + row)[j])
      {
        if j < |before| {
        } else if i < |before| {
          assert (before + row)[i] == before[i];
          assert (before + row)[j] == row[j - |before|];
        } else {
          assert (before + row)[i] == row[i - |before|];
        }
      }
    }
  }

  /**
   * `maskToVoxels`: the voxels are exactly the foreground pixels, in scan
   * order, each mapped to [-1, 1) on both axes.
   */
  method MaskToVoxels(mask: seq<real>, width: nat, height: nat, threshold: real, voxelSize: real)
    returns (voxels: seq<Voxel>)
    ensures |voxels| == |ForegroundPixels(mask, width, height, threshold)|
    ensures forall i :: 0 <= i < |voxels| ==>
              var p := ForegroundPixels(mask, width, height, threshold)[i];
              InBounds(p, width, height) && voxels[i] == VoxelAt(p, width, height, voxelSize)
  {
    voxels := [];
    ghost var pixels: seq<Point> := [];
    var y := 0;
    while y < height
      invariant 0 <= y <= height
      invariant pixels == ForegroundPixels(mask, width, y, threshold)
      invariant |voxels| == |pixels|
      invariant forall i :: 0 <= i < |voxels| ==>
                  InBounds(pixels[i], width, height) && voxels[i] == VoxelAt(pixels[i], width, height, voxelSize)
    {
      var x := 0;
      while x < width
        invariant 0 <= x <= width
        invariant pixels == ForegroundPixels(mask, width, y, threshold) + RowPixels(mask, width, threshold, y, x)
        invariant |voxels| == |pixels|
        invariant forall i :: 0 <= i < |voxels| ==>
                    InBounds(pixels[i], width, height) && voxels[i] == VoxelAt(pixels[i], width, height, voxelSize)
      {
        var index := y * width + x;
        if 0 <= index < |mask| && mask[index] > threshold {
          voxels := voxels + [Voxel((x as real / width as real) * 2.0 - 1.0,
                                    (y as real / height as real) * 2.0 - 1.0, 0.0, voxelSize)];
          pixels := pixels + [Point(x, y)];
        }
        x := x + 1;
      }
      y := y + 1;
    }
  }

  /** Every voxel centre lies in [-1, 1) x [-1, 1) at z = 0. */
  lemma VoxelInRange(p: Point, width: int, height: int, size: real)
    requires InBounds(p, width, height)
    ensures -1.0 <= VoxelAt(p, width, height, size).x < 1.0
    ensures -1.0 <= VoxelAt(p, width, height, size).y < 1.0
    ensures VoxelAt(p, width, height, size).z == 0.0
  {
    NormalizeInRange(p.x, width);
    NormalizeInRange(p.y, height);
  }
}
