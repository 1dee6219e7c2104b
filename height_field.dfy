/**
 * `maskToHeightMap` and `heightMapToMesh` of
 * src/components/3Drendering/Mask3DUtils.js: a mask scaled into a
 * `Float32Array` of heights, and that height field turned into a regular
 * grid mesh with one vertex and one UV pair per sample and two triangles
 * per grid cell.
 */
module HeightField {
  import opened MaskGrid

  datatype HeightMap = HeightMap(heights: seq<real>, width: nat, height: nat, maxHeight: real)

  datatype UV = UV(u: real, v: real)

  datatype GridMesh = GridMesh(vertices: seq<Vertex>, faces: seq<Face>, uvs: seq<UV>)

  /**
   * Entry i of the height buffer: the scaled mask value where the mask has
   * one, otherwise the 0 the typed array starts with.
   */
  function HeightAt(mask: seq<real>, maxHeight: real, i: int): real {
    if 0 <= i < |mask| then mask[i] * maxHeight else 0.0
  }

  /**
   * `maskToHeightMap`: the buffer has width * height entries; writes past
   * its end (a mask longer than the grid) are dropped, as a typed array
   * drops them.
   */
  method MaskToHeightMap(mask: seq<real>, width: nat, height: nat, maxHeight: real) returns (map_: HeightMap)
    ensures map_.width == width && map_.height == height && map_.maxHeight == maxHeight
    ensures |map_.heights| == width * height
    ensures forall i :: 0 <= i < width * height ==> map_.heights[i] == HeightAt(mask, maxHeight, i)
  {
    var heights := new real[width * height](_ => 0.0);
    var i := 0;
    while i < |mask|
      invariant 0 <= i <= |mask|
      invariant forall j :: 0 <= j < i && j < heights.Length ==> heights[j] == HeightAt(mask, maxHeight, j)
      invariant forall j :: i <= j < heights.Length ==> heights[j] == 0.0
    {
      if i < heights.Length {
        heights[i] := mask[i] * maxHeight;
        assert heights[i] == HeightAt(mask, maxHeight, i);
      }
      i := i + 1;
    }
    map_ := HeightMap(heights[..], width, height, maxHeight);
    forall j | |mask| <= j < heights.Length
      ensures heights[j] == HeightAt(mask, maxHeight, j)
    {
    }
  }

  /** A 0/1 mask becomes a field of 0 and maxHeight. */
  lemma BinaryHeights(mask: seq<real>, maxHeight: real, i: int)
    requires forall j :: 0 <= j < |mask| ==> mask[j] == 0.0 || mask[j] == 1.0
    ensures HeightAt(mask, maxHeight, i) == 0.0 || HeightAt(mask, maxHeight, i) == maxHeight
  {
  }

  /** A mask with values in [0, 1] gives heights in [0, maxHeight]. */
  lemma HeightRange(mask: seq<real>, maxHeight: real, i: int)
    requires maxHeight >= 0.0
    requires forall j :: 0 <= j < |mask| ==> 0.0 <= mask[j] <= 1.0
    ensures 0.0 <= HeightAt(mask, maxHeight, i) <= maxHeight
  {
    if 0 <= i < |mask| {
      assert mask[i] * maxHeight <= 1.0 * maxHeight;
    }
  }

  /** `(x / (extent - 1)) * 2 - 1`. */
  function GridCoord(c: int, extent: int): real
    requires extent >= 2
  {
    (c as real / (extent - 1) as real) * 2.0 - 1.0
  }

  /** `(heights[index] / maxHeight) * 2 - 1`. */
  function Elevation(h: real, maxHeight: real): real
    requires maxHeight != 0.0
  {
    (h / maxHeight) * 2.0 - 1.0
  }

  /** Vertices of row y for columns [0, cols). */
  function RowVertices(heights: seq<real>, width: int, height: int, maxHeight: real, y: int, cols: nat): seq<Vertex>
    requires width >= 2 && height >= 2 && maxHeight != 0.0
    requires |heights| >= width * height && 0 <= y < height && cols <= width
  {
    if cols == 0 then []
    else
      IndexInRange(Point(cols - 1, y), width, height);
      RowVertices(heights, width, height, maxHeight, y, cols - 1)
      + [Vertex(GridCoord(cols - 1, width), GridCoord(y, height),
                Elevation(heights[Index(Point(cols - 1, y), width)], maxHeight))]
  }

  /** Vertices of rows [0, rows), row-major. */
  function GridVertices(heights: seq<real>, width: int, height: int, maxHeight: real, rows: nat): seq<Vertex>
    requires width >= 2 && height >= 2 && maxHeight != 0.0
    requires |heights| >= width * height && rows <= height
  {
    if rows == 0 then []
    else GridVertices(heights, width, height, maxHeight, rows - 1) + RowVertices(heights, width, height, maxHeight, rows - 1, width)
  }

  function RowUVs(width: int, height: int, y: int, cols: nat): seq<UV>
    requires width >= 2 && height >= 2
  {
    if cols == 0 then []
    else RowUVs(width, height, y, cols - 1) + [UV((cols - 1) as real / (width - 1) as real, y as real / (height - 1) as real)]
  }

  function GridUVs(width: int, height: int, rows: nat): seq<UV>
    requires width >= 2 && height >= 2
  {
    if rows == 0 then [] else GridUVs(width, height, rows - 1) + RowUVs(width, height, rows - 1, width)
  }

  /** The two triangles of cells [0, cols) of cell row y. */
  function RowFaces(width: int, y: int, cols: nat): seq<Face>
  {
    if cols == 0 then []
    else
      var topLeft := y * width + (cols - 1);
      var bottomLeft := (y + 1) * width + (cols - 1);
      RowFaces(width, y, cols - 1)
      + [Face(topLeft, bottomLeft, topLeft + 1), Face(topLeft + 1, bottomLeft, bottomLeft + 1)]
  }

  function GridFaces(width: int, rows: nat): seq<Face>
    requires width >= 1
  {
    if rows == 0 then [] else GridFaces(width, rows - 1) + RowFaces(width, rows - 1, width - 1)
  }

  /** One pass of the first x loop of `heightMapToMesh`: the samples of row y. */
  method RowSamples(heights: seq<real>, width: nat, height: nat, maxHeight: real, y: nat)
    returns (vertices: seq<Vertex>, uvs: seq<UV>)
    requires width >= 2 && height >= 2 && maxHeight != 0.0 && |heights| >= width * height && y < height
    ensures vertices == RowVertices(heights, width, height, maxHeight, y, width)
    ensures uvs == RowUVs(width, height, y, width)
  {
    vertices := [];
    uvs := [];
    var x := 0;
    while x < width
      invariant 0 <= x <= width
      invariant vertices == RowVertices(heights, width, height, maxHeight, y, x)
      invariant uvs == RowUVs(width, height, y, x)
    {
      var index := y * width + x;
      IndexInRange(Point(x, y), width, height);
      var xPos := (x as real / (width - 1) as real) * 2.0 - 1.0;
      var yPos := (y as real / (height - 1) as real) * 2.0 - 1.0;
      var zPos := (heights[index] / maxHeight) * 2.0 - 1.0;
      vertices := vertices + [Vertex(xPos, yPos, zPos)];
      uvs := uvs + [UV(x as real / (width - 1) as real, y as real / (height - 1) as real)];
      x := x + 1;
    }
  }

  /** One pass of the second x loop: the two triangles of every cell of cell row y. */
  method RowTriangles(width: nat, y: nat) returns (faces: seq<Face>)
    requires width >= 2
    ensures faces == RowFaces(width, y, width - 1)
  {
    faces := [];
    var x := 0;
    while x < width - 1
      invariant 0 <= x <= width - 1
      invariant faces == RowFaces(width, y, x)
    {
      var topLeft := y * width + x;
      var topRight := topLeft + 1;
      var bottomLeft := (y + 1) * width + x;
      var bottomRight := bottomLeft + 1;
      faces := faces + [Face(topLeft, bottomLeft, topRight)];
      faces := faces + [Face(topRight, bottomLeft, bottomRight)];
      x := x + 1;
    }
  }

  /**
   * `heightMapToMesh` for a grid of at least 2 x 2 samples and a non-zero
   * `maxHeight` (the divisors of its coordinate formulas).
   */
  method HeightMapToMesh(heights: seq<real>, width: nat, height: nat, maxHeight: real) returns (mesh: GridMesh)
    requires width >= 2 && height >= 2 && maxHeight != 0.0 && |heights| >= width * height
    ensures mesh.vertices == GridVertices(heights, width, height, maxHeight, height)
    ensures mesh.uvs == GridUVs(width, height, height)
    ensures mesh.faces == GridFaces(width, height - 1)
  {
    var vertices: seq<Vertex> := [];
    var uvs: seq<UV> := [];
    var faces: seq<Face> := [];
    var y := 0;
    while y < height
      invariant 0 <= y <= height
      invariant vertices == GridVertices(heights, width, height, maxHeight, y)
      invariant uvs == GridUVs(width, height, y)
    {
      var rowVertices, rowUVs := RowSamples(heights, width, height, maxHeight, y);
      vertices := vertices + rowVertices;
      uvs := uvs + rowUVs;
      y := y + 1;
    }

    y := 0;
    while y < height - 1
      invariant 0 <= y <= height - 1
      invariant faces == GridFaces(width, y)
    {
      var rowFaces := RowTriangles(width, y);
      faces := faces + rowFaces;
      y := y + 1;
    }
    mesh := GridMesh(vertices, faces, uvs);
  }

  lemma {:induction false} RowCounts(heights: seq<real>, width: int, height: int, maxHeight: real, y: int, cols: nat)
    requires width >= 2 && height >= 2 && maxHeight != 0.0
    requires |heights| >= width * height && 0 <= y < height && cols <= width
    ensures |RowVertices(heights, width, height, maxHeight, y, cols)| == cols
    ensures |RowUVs(width, height, y, cols)| == cols
  {
    if cols > 0 {
      RowCounts(heights, width, height, maxHeight, y, cols - 1);
    }
  }

  /** One vertex and one UV pair per sample. */
  lemma {:induction false} GridCounts(heights: seq<real>, width: int, height: int, maxHeight: real, rows: nat)
    requires width >= 2 && height >= 2 && maxHeight != 0.0
    requires |heights| >= width * height && rows <= height
    ensures |GridVertices(heights, width, height, maxHeight, rows)| == rows * width
    ensures |GridUVs(width, height, rows)| == rows * width
  {
    if rows > 0 {
      GridCounts(heights, width, height, maxHeight, rows - 1);
      RowCounts(heights, width, height, maxHeight, rows - 1, width);
      assert rows * width == (rows - 1) * width + width;
    }
  }

  lemma {:induction false} RowFacesWithin(width: int, y: int, cols: nat, n: int)
    requires width >= 2 && y >= 0 && cols <= width - 1 && (y + 1) * width + width <= n
    ensures |RowFaces(width, y, cols)| == 2 * cols
    ensures forall f :: f in RowFaces(width, y, cols) ==> FaceWithin(f, 0, n)
  {
    if cols > 0 {
      RowFacesWithin(width, y, cols - 1, n);
      assert y * width >= 0;
      assert (y + 1) * width == y * width + width;
    }
  }

  /** Two triangles per cell, every corner a valid vertex index. */
  lemma {:induction false} GridFacesWithin(width: int, rows: nat, n: int)
    requires width >= 2 && rows * width + width <= n
    ensures |GridFaces(width, rows)| == 2 * rows * (width - 1)
    ensures forall f :: f in GridFaces(width, rows) ==> FaceWithin(f, 0, n)
  {
    if rows > 0 {
      assert rows * width == (rows - 1) * width + width;
      GridFacesWithin(width, rows - 1, n);
      RowFacesWithin(width, rows - 1, width - 1, n);
      assert 2 * rows * (width - 1) == 2 * (rows - 1) * (width - 1) + 2 * (width - 1);
    }
  }

  /** A w x h field has w h vertices and UV pairs. */
  lemma SampleCounts(heights: seq<real>, width: int, height: int, maxHeight: real)
    requires width >= 2 && height >= 2 && maxHeight != 0.0 && |heights| >= width * height
    ensures |GridVertices(heights, width, height, maxHeight, height)| == width * height
    ensures |GridUVs(width, height, height)| == width * height
  {
    GridCounts(heights, width, height, maxHeight, height);
    assert height * width == width * height;
  }

  /** A w x h field has 2 (w - 1)(h - 1) triangles, every corner a valid vertex index. */
  lemma TriangleShape(width: int, height: int)
    requires width >= 2 && height >= 2
    ensures |GridFaces(width, height - 1)| == 2 * (width - 1) * (height - 1)
    ensures forall f :: f in GridFaces(width, height - 1) ==> FaceWithin(f, 0, width * height)
  {
    var r := height - 1;
    assert (r + 1) * width == r * width + width;
    assert height * width == width * height;
    GridFacesWithin(width, r, width * height);
    assert 2 * r * (width - 1) == 2 * (width - 1) * r;
  }

  /** Grid coordinates and UVs span [-1, 1] and [0, 1]. */
  lemma CoordRange(c: int, extent: int)
    requires extent >= 2 && 0 <= c < extent
    ensures -1.0 <= GridCoord(c, extent) <= 1.0
    ensures 0.0 <= c as real / (extent - 1) as real <= 1.0
  {
    var q := c as real / (extent - 1) as real;
    assert q * (extent - 1) as real == c as real;
  }

  /**
   * Through `maskToHeightMap` and `heightMapToMesh` with the same
   * `maxHeight`, a mask value m becomes the elevation 2 m - 1: a 0/1 mask
   * gives the planes z = -1 and z = 1.
   */
  lemma ElevationOfMask(mask: seq<real>, maxHeight: real, i: int)
    requires maxHeight != 0.0 && 0 <= i < |mask|
    ensures Elevation(HeightAt(mask, maxHeight, i), maxHeight) == mask[i] * 2.0 - 1.0
  {
    assert (mask[i] * maxHeight) / maxHeight == mask[i];
  }
}
