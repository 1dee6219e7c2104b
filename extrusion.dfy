/**
 * `contoursToMesh` and `maskToMarchingCubes` of
 * src/components/3Drendering/Mask3DUtils.js: every contour of at least
 * three points becomes a prism of depth `depth`: a top and a bottom ring of
 * vertices (interleaved), a fan over each ring and two triangles per side.
 * Despite its name, `maskToMarchingCubes` is the contour walk followed by
 * this extrusion.
 */
module Extrusion {
  import opened MaskGrid
  import Contours

  datatype Mesh = Mesh(vertices: seq<Vertex>, faces: seq<Face>)

  /** Points of the contours that are extruded (those with at least three points). */
  function UsablePoints(cs: seq<seq<Point>>): nat
  {
    if cs == [] then 0
    else UsablePoints(cs[..|cs| - 1]) + (if |cs[|cs| - 1]| < 3 then 0 else |cs[|cs| - 1]|)
  }

  /** Triangles of the extrusion: 4n - 4 for every extruded contour of n points. */
  function TriangleCount(cs: seq<seq<Point>>): nat
  {
    if cs == [] then 0
    else TriangleCount(cs[..|cs| - 1]) + (if |cs[|cs| - 1]| < 3 then 0 else 4 * |cs[|cs| - 1]| - 4)
  }

  /** Index of the side neighbour of ring position i: `(i + 1) % n`. */
  function NextOnRing(i: int, n: int): int
    requires n > 0
  {
    (i + 1) % n
  }

  /** The ring of vertex k of a contour: top copy at base + 2k, bottom copy at base + 2k + 1. */
  predicate IsRing(contour: seq<Point>, width: int, height: int, depth: real, vertices: seq<Vertex>)
    requires width != 0 && height != 0
  {
    |vertices| == 2 * |contour|
    && forall k :: 0 <= k < |contour| ==>
         vertices[2 * k] == Vertex(Normalize(contour[k].x, width), Normalize(contour[k].y, height), depth / 2.0)
         && vertices[2 * k + 1] == Vertex(Normalize(contour[k].x, width), Normalize(contour[k].y, height), -depth / 2.0)
  }

  /** The vertices pushed for a contour: its ring of top and bottom copies, interleaved. */
  function RingOf(contour: seq<Point>, width: int, height: int, depth: real): seq<Vertex>
    requires width != 0 && height != 0
  {
    if contour == [] then []
    else
      var p := contour[|contour| - 1];
      var px, py := Normalize(p.x, width), Normalize(p.y, height);
      RingOf(contour[..|contour| - 1], width, height, depth) + [Vertex(px, py, depth / 2.0), Vertex(px, py, -depth / 2.0)]
  }

  /** The top fan's triangles (t0, tj, tj+1) for 1 <= j < i, tk being vertex base + 2k. */
  function TopFan(i: nat, base: int): seq<Face>
  {
    if i <= 1 then [] else TopFan(i - 1, base) + [Face(base, base + 2 * (i - 1), base + 2 * i)]
  }

  /** The bottom fan's triangles (b0, bj+1, bj) for 1 <= j < i, bk being vertex base + 2k + 1. */
  function BottomFan(i: nat, base: int): seq<Face>
  {
    if i <= 1 then [] else BottomFan(i - 1, base) + [Face(base + 1, base + 2 * i + 1, base + 2 * (i - 1) + 1)]
  }

  /** The side triangles of the first i edges of a ring of n points, two per edge. */
  function Sides(i: nat, n: int, base: int): seq<Face>
    requires n > 0
  {
    if i == 0 then []
    else
      var j := i - 1;
      var next := NextOnRing(j, n);
      Sides(i - 1, n, base) + [Face(base + 2 * j, base + 2 * j + 1, base + 2 * next),
                               Face(base + 2 * j + 1, base + 2 * next + 1, base + 2 * next)]
  }

  /** The triangles pushed for one contour of n points whose ring starts at `base`. */
  function PrismFaces(n: int, base: int): seq<Face>
    requires n >= 3
  {
    TopFan(n - 1, base) + BottomFan(n - 1, base) + Sides(n, n, base)
  }

  /**
   * First part of the `forEach` callback for one contour: normalise every
   * point and push its top and bottom copy, recording their indices from the
   * running `vertexIndex` (here `base`).
   */
  method BuildRing(contour: seq<Point>, width: int, height: int, depth: real, base: nat)
    returns (vertices: seq<Vertex>, topVertices: seq<int>, bottomVertices: seq<int>)
    requires width != 0 && height != 0
    ensures IsRing(contour, width, height, depth, vertices) && vertices == RingOf(contour, width, height, depth)
    ensures forall v :: v in vertices ==> v.z == depth / 2.0 || v.z == -depth / 2.0
    ensures |topVertices| == |contour| && |bottomVertices| == |contour|
    ensures forall j :: 0 <= j < |contour| ==> topVertices[j] == base + 2 * j && bottomVertices[j] == base + 2 * j + 1
  {
    vertices := [];
    topVertices := [];
    bottomVertices := [];
    var vertexIndex := base;
    var k := 0;
    while k < |contour|
      invariant 0 <= k <= |contour|
      invariant vertexIndex == base + 2 * k
      invariant vertices == RingOf(contour[..k], width, height, depth)
      invariant |topVertices| == k && |bottomVertices| == k
      invariant forall j :: 0 <= j < k ==> topVertices[j] == base + 2 * j && bottomVertices[j] == base + 2 * j + 1
    {
      assert contour[..k + 1][..k] == contour[..k];
      var px := Normalize(contour[k].x, width);
      var py := Normalize(contour[k].y, height);
      vertices := vertices + [Vertex(px, py, depth / 2.0)];
      topVertices := topVertices + [vertexIndex];
      vertexIndex := vertexIndex + 1;
      vertices := vertices + [Vertex(px, py, -depth / 2.0)];
      bottomVertices := bottomVertices + [vertexIndex];
      vertexIndex := vertexIndex + 1;
      k := k + 1;
    }
    assert contour[..k] == contour;
    RingOfIsRing(contour, width, height, depth);
    RingOfShape(contour, width, height, depth);
  }

  /** RingOf lays out the top and bottom copy of point k at positions 2k and 2k + 1. */
  lemma {:induction false} RingOfIsRing(contour: seq<Point>, width: int, height: int, depth: real)
    requires width != 0 && height != 0
    ensures IsRing(contour, width, height, depth, RingOf(contour, width, height, depth))
  {
    if contour != [] {
      var prefix := contour[..|contour| - 1];
      RingOfIsRing(prefix, width, height, depth);
      var r := RingOf(contour, width, height, depth);
      assert r[..2 * |prefix|] == RingOf(prefix, width, height, depth);
      forall k | 0 <= k < |prefix|
        ensures contour[k] == prefix[k]
      {
      }
    }
  }

  /** The caps: a fan over the top ring, then a reversed fan over the bottom ring. */
  method CapFans(topVertices: seq<int>, bottomVertices: seq<int>, base: nat) returns (faces: seq<Face>)
    requires |topVertices| == |bottomVertices| >= 3
    requires forall j :: 0 <= j < |topVertices| ==> topVertices[j] == base + 2 * j && bottomVertices[j] == base + 2 * j + 1
    ensures |faces| == 2 * |topVertices| - 4
    ensures forall i :: 1 <= i < |topVertices| - 1 ==>
              faces[i - 1] == Face(base, base + 2 * i, base + 2 * (i + 1))
    ensures forall i :: 1 <= i < |topVertices| - 1 ==>
              faces[|topVertices| - 3 + i] == Face(base + 1, base + 2 * (i + 1) + 1, base + 2 * i + 1)
    ensures faces == TopFan(|topVertices| - 1, base) + BottomFan(|topVertices| - 1, base)
  {
    faces := TopCap(topVertices, base);
    faces := BottomCap(faces, bottomVertices, base);
    CapsAt(faces, |topVertices|, base);
  }

  /** The first `for` loop of the caps: the top fan (t0, ti, ti+1). */
  method TopCap(topVertices: seq<int>, base: nat) returns (faces: seq<Face>)
    requires |topVertices| >= 3
    requires forall j :: 0 <= j < |topVertices| ==> topVertices[j] == base + 2 * j
    ensures faces == TopFan(|topVertices| - 1, base)
  {
    var n := |topVertices|;
    faces := [];
    var i := 1;
    while i < n - 1
      invariant 1 <= i <= n - 1
      invariant faces == TopFan(i, base)
    {
      assert topVertices[0] == base && topVertices[i] == base + 2 * i && topVertices[i + 1] == base + 2 * (i + 1);
      faces := faces + [Face(topVertices[0], topVertices[i], topVertices[i + 1])];
      i := i + 1;
    }
  }

  /** The second `for` loop of the caps: the bottom fan (b0, bi+1, bi), pushed after `faces`. */
  method BottomCap(prefix: seq<Face>, bottomVertices: seq<int>, base: nat) returns (faces: seq<Face>)
    requires |bottomVertices| >= 3
    requires forall j :: 0 <= j < |bottomVertices| ==> bottomVertices[j] == base + 2 * j + 1
    ensures faces == prefix + BottomFan(|bottomVertices| - 1, base)
  {
    var n := |bottomVertices|;
    faces := prefix;
    var i := 1;
    while i < n - 1
      invariant 1 <= i <= n - 1
      invariant faces == prefix + BottomFan(i, base)
    {
      assert bottomVertices[0] == base + 1 && bottomVertices[i] == base + 2 * i + 1
             && bottomVertices[i + 1] == base + 2 * (i + 1) + 1;
      faces := faces + [Face(bottomVertices[0], bottomVertices[i + 1], bottomVertices[i])];
      i := i + 1;
    }
  }

  /** The caps of a ring of n points: the top fan's n - 2 triangles, then the bottom fan's. */
  lemma CapsAt(caps: seq<Face>, n: int, base: int)
    requires n >= 3 && caps == TopFan(n - 1, base) + BottomFan(n - 1, base)
    ensures |caps| == 2 * n - 4
    ensures forall i :: 1 <= i < n - 1 ==> caps[i - 1] == Face(base, base + 2 * i, base + 2 * (i + 1))
    ensures forall i :: 1 <= i < n - 1 ==> caps[n - 3 + i] == Face(base + 1, base + 2 * (i + 1) + 1, base + 2 * i + 1)
  {
    TopFanAt(n - 1, base);
    BottomFanAt(n - 1, base);
  }

  /** The top fan over i ring points has i - 1 triangles, the j-th being (t0, tj, tj+1). */
  lemma {:induction false} TopFanAt(i: nat, base: int)
    requires i >= 1
    ensures |TopFan(i, base)| == i - 1
    ensures forall j :: 1 <= j < i ==> TopFan(i, base)[j - 1] == Face(base, base + 2 * j, base + 2 * (j + 1))
  {
    if i > 1 {
      TopFanAt(i - 1, base);
    }
  }

  /** The bottom fan over i ring points has i - 1 triangles, the j-th being (b0, bj+1, bj). */
  lemma {:induction false} BottomFanAt(i: nat, base: int)
    requires i >= 1
    ensures |BottomFan(i, base)| == i - 1
    ensures forall j :: 1 <= j < i ==> BottomFan(i, base)[j - 1] == Face(base + 1, base + 2 * (j + 1) + 1, base + 2 * j + 1)
  {
    if i > 1 {
      BottomFanAt(i - 1, base);
    }
  }

  /** The side walls: two triangles per ring edge, the last edge closing the ring. */
  method SideWalls(topVertices: seq<int>, bottomVertices: seq<int>, base: nat) returns (faces: seq<Face>)
    requires |topVertices| == |bottomVertices| >= 1
    requires forall j :: 0 <= j < |topVertices| ==> topVertices[j] == base + 2 * j && bottomVertices[j] == base + 2 * j + 1
    ensures |faces| == 2 * |topVertices|
    ensures forall i :: 0 <= i < |topVertices| ==>
              var next := NextOnRing(i, |topVertices|);
              faces[2 * i] == Face(base + 2 * i, base + 2 * i + 1, base + 2 * next)
              && faces[2 * i + 1] == Face(base + 2 * i + 1, base + 2 * next + 1, base + 2 * next)
    ensures faces == Sides(|topVertices|, |topVertices|, base)
  {
    var n := |topVertices|;
    faces := [];
    var i := 0;
    while i < n
      invariant 0 <= i <= n
      invariant faces == Sides(i, n, base)
    {
      var next := NextOnRing(i, n);
      faces := faces + [Face(topVertices[i], bottomVertices[i], topVertices[next])];
      faces := faces + [Face(bottomVertices[i], bottomVertices[next], topVertices[next])];
      i := i + 1;
    }
    SidesAt(n, n, base);
  }

  /** The first i edges of the ring give 2i triangles, two per edge (j, next). */
  lemma {:induction false} SidesAt(i: nat, n: int, base: int)
    requires n > 0
    ensures |Sides(i, n, base)| == 2 * i
    ensures forall j :: 0 <= j < i ==>
              var next := NextOnRing(j, n);
              Sides(i, n, base)[2 * j] == Face(base + 2 * j, base + 2 * j + 1, base + 2 * next)
              && Sides(i, n, base)[2 * j + 1] == Face(base + 2 * j + 1, base + 2 * next + 1, base + 2 * next)
  {
    if i > 0 {
      SidesAt(i - 1, n, base);
    }
  }

  /**
   * The `forEach` callback for one contour of n >= 3 points: `base` is the
   * running `vertexIndex`; the result is 2n vertices and 4n - 4 triangles
   * whose corners all lie among the new vertices.
   */
  method ExtrudeContour(contour: seq<Point>, width: int, height: int, depth: real, base: nat)
    returns (vertices: seq<Vertex>, faces: seq<Face>)
    requires |contour| >= 3 && width != 0 && height != 0
    ensures IsRing(contour, width, height, depth, vertices)
    ensures forall v :: v in vertices ==> v.z == depth / 2.0 || v.z == -depth / 2.0
    ensures |faces| == 4 * |contour| - 4
    // top fan from the first top vertex, direct winding
    ensures forall i :: 1 <= i < |contour| - 1 ==>
              faces[i - 1] == Face(base, base + 2 * i, base + 2 * (i + 1))
    // bottom fan from the first bottom vertex, reversed winding
    ensures forall i :: 1 <= i < |contour| - 1 ==>
              faces[|contour| - 3 + i] == Face(base + 1, base + 2 * (i + 1) + 1, base + 2 * i + 1)
    // two side triangles per ring edge
    ensures forall i :: 0 <= i < |contour| ==>
              var next := NextOnRing(i, |contour|);
              faces[2 * |contour| - 4 + 2 * i] == Face(base + 2 * i, base + 2 * i + 1, base + 2 * next)
              && faces[2 * |contour| - 3 + 2 * i] == Face(base + 2 * i + 1, base + 2 * next + 1, base + 2 * next)
    ensures forall f :: f in faces ==> FaceWithin(f, base, base + |vertices|)
    // the ring and the prism of this contour, as specified above
    ensures vertices == RingOf(contour, width, height, depth) && faces == PrismFaces(|contour|, base)
  {
    var topVertices, bottomVertices;
    vertices, topVertices, bottomVertices := BuildRing(contour, width, height, depth, base);
    faces := PrismTriangles(topVertices, bottomVertices, base);
    PrismFacesAt(faces, |contour|, base);
    PrismWithin(faces, |contour|, base);
  }

  /** The three face loops of one contour: the two caps, then the side walls. */
  method PrismTriangles(topVertices: seq<int>, bottomVertices: seq<int>, base: nat) returns (faces: seq<Face>)
    requires |topVertices| == |bottomVertices| >= 3
    requires forall j :: 0 <= j < |topVertices| ==> topVertices[j] == base + 2 * j && bottomVertices[j] == base + 2 * j + 1
    ensures faces == PrismFaces(|topVertices|, base)
  {
    var caps := CapFans(topVertices, bottomVertices, base);
    var sides := SideWalls(topVertices, bottomVertices, base);
    faces := caps + sides;
  }

  /**
   * The prism's triangles position by position: the top fan, the bottom
   * fan, then two side triangles per ring edge.
   */
  lemma PrismFacesAt(faces: seq<Face>, n: int, base: int)
    requires n >= 3 && faces == PrismFaces(n, base)
    ensures |faces| == 4 * n - 4
    ensures forall i :: 1 <= i < n - 1 ==> faces[i - 1] == Face(base, base + 2 * i, base + 2 * (i + 1))
    ensures forall i :: 1 <= i < n - 1 ==>
              faces[n - 3 + i] == Face(base + 1, base + 2 * (i + 1) + 1, base + 2 * i + 1)
    ensures forall i :: 0 <= i < n ==>
              var next := NextOnRing(i, n);
              faces[2 * n - 4 + 2 * i] == Face(base + 2 * i, base + 2 * i + 1, base + 2 * next)
              && faces[2 * n - 3 + 2 * i] == Face(base + 2 * i + 1, base + 2 * next + 1, base + 2 * next)
  {
    var caps := TopFan(n - 1, base) + BottomFan(n - 1, base);
    CapsAt(caps, n, base);
    SidesAt(n, n, base);
  }

  /** Every corner of the prism's triangles lies in its block of 2n vertices. */
  lemma PrismWithin(faces: seq<Face>, n: int, base: int)
    requires n >= 3 && faces == PrismFaces(n, base)
    ensures forall f :: f in faces ==> FaceWithin(f, base, base + 2 * n)
  {
    var caps := TopFan(n - 1, base) + BottomFan(n - 1, base);
    CapsAt(caps, n, base);
    SidesAt(n, n, base);
    CapsWithin(caps, n, base);
    SidesWithin(Sides(n, n, base), n, base);
  }

  lemma CapsWithin(caps: seq<Face>, n: int, base: int)
    requires n >= 3 && |caps| == 2 * n - 4
    requires forall i :: 1 <= i < n - 1 ==> caps[i - 1] == Face(base, base + 2 * i, base + 2 * (i + 1))
    requires forall i :: 1 <= i < n - 1 ==> caps[n - 3 + i] == Face(base + 1, base + 2 * (i + 1) + 1, base + 2 * i + 1)
    ensures forall f :: f in caps ==> FaceWithin(f, base, base + 2 * n)
  {
    forall m | 0 <= m < |caps|
      ensures FaceWithin(caps[m], base, base + 2 * n)
    {
      if m < n - 2 {
        var i := m + 1;
        assert 1 <= i < n - 1 && caps[i - 1] == caps[m];
        assert caps[m] == Face(base, base + 2 * i, base + 2 * (i + 1));
        assert base + 2 * (i + 1) < base + 2 * n;
        assert FaceWithin(caps[m], base, base + 2 * n);
      } else {
        var i := m - n + 3;
        assert 1 <= i < n - 1 && caps[n - 3 + i] == caps[m];
        assert caps[m] == Face(base + 1, base + 2 * (i + 1) + 1, base + 2 * i + 1);
        assert FaceWithin(caps[m], base, base + 2 * n);
      }
    }
  }

  lemma SidesWithin(sides: seq<Face>, n: int, base: int)
    requires n >= 1 && |sides| == 2 * n
    requires forall i :: 0 <= i < n ==>
               var next := NextOnRing(i, n);
               sides[2 * i] == Face(base + 2 * i, base + 2 * i + 1, base + 2 * next)
               && sides[2 * i + 1] == Face(base + 2 * i + 1, base + 2 * next + 1, base + 2 * next)
    ensures forall f :: f in sides ==> FaceWithin(f, base, base + 2 * n)
  {
    forall m | 0 <= m < |sides|
      ensures FaceWithin(sides[m], base, base + 2 * n)
    {
      var j := m / 2;
      assert m == 2 * j || m == 2 * j + 1;
      assert 0 <= NextOnRing(j, n) < n;
    }
  }

  lemma PrefixStep(cs: seq<seq<Point>>, i: int)
    requires 0 <= i < |cs|
    ensures cs[..i + 1][..i] == cs[..i] && cs[..i + 1][i] == cs[i]
  {
  }

  /**
   * The mesh `contoursToMesh` builds: each contour of at least three points
   * appends its ring to the vertices and its prism to the faces, the prism's
   * indices offset by the vertices already there.
   */
  function MeshOf(cs: seq<seq<Point>>, width: int, height: int, depth: real): Mesh
    requires UsablePoints(cs) > 0 ==> width != 0 && height != 0
  {
    if cs == [] then Mesh([], [])
    else
      var m := MeshOf(cs[..|cs| - 1], width, height, depth);
      var c := cs[|cs| - 1];
      if |c| < 3 then m
      else Mesh(m.vertices + RingOf(c, width, height, depth), m.faces + PrismFaces(|c|, |m.vertices|))
  }

  /**
   * `contoursToMesh`: contours of fewer than three points are skipped; the
   * others are extruded one after the other with a running vertex index.
   */
  method ContoursToMesh(contours: seq<seq<Point>>, width: int, height: int, depth: real)
    returns (mesh: Mesh)
    requires UsablePoints(contours) > 0 ==> width != 0 && height != 0
    ensures |mesh.vertices| == 2 * UsablePoints(contours)
    ensures |mesh.faces| == TriangleCount(contours)
    ensures forall f :: f in mesh.faces ==> FaceWithin(f, 0, |mesh.vertices|)
    ensures forall v :: v in mesh.vertices ==> v.z == depth / 2.0 || v.z == -depth / 2.0
    ensures mesh == MeshOf(contours, width, height, depth)
  {
    var vertices: seq<Vertex> := [];
    var faces: seq<Face> := [];
    var i := 0;
    while i < |contours|
      invariant 0 <= i <= |contours|
      invariant UsablePoints(contours[..i]) <= UsablePoints(contours)
      invariant Mesh(vertices, faces) == MeshOf(contours[..i], width, height, depth)
    {
      PrefixStep(contours, i);
      UsablePointsMonotone(contours, i + 1);
      MeshOfShape(contours[..i], width, height, depth);
      var contour := contours[i];
      if |contour| >= 3 {
        var vs, fs := ExtrudeContour(contour, width, height, depth, |vertices|);
        vertices := vertices + vs;
        faces := faces + fs;
      }
      i := i + 1;
    }
    assert contours[..|contours|] == contours;
    mesh := Mesh(vertices, faces);
    MeshOfShape(contours, width, height, depth);
  }

  /** A contour's ring has two vertices per point, at z = depth / 2 or -depth / 2. */
  lemma {:induction false} RingOfShape(contour: seq<Point>, width: int, height: int, depth: real)
    requires width != 0 && height != 0
    ensures |RingOf(contour, width, height, depth)| == 2 * |contour|
    ensures forall v :: v in RingOf(contour, width, height, depth) ==> v.z == depth / 2.0 || v.z == -depth / 2.0
  {
    if contour != [] {
      RingOfShape(contour[..|contour| - 1], width, height, depth);
    }
  }

  /**
   * The mesh has two vertices per extruded point and 4n - 4 triangles per
   * extruded contour of n points; every triangle indexes an existing vertex
   * and every vertex lies on the top or bottom plane.
   */
  lemma {:induction false} MeshOfShape(cs: seq<seq<Point>>, width: int, height: int, depth: real)
    requires UsablePoints(cs) > 0 ==> width != 0 && height != 0
    ensures var m := MeshOf(cs, width, height, depth);
      && |m.vertices| == 2 * UsablePoints(cs)
      && |m.faces| == TriangleCount(cs)
      && (forall f :: f in m.faces ==> FaceWithin(f, 0, |m.vertices|))
      && (forall v :: v in m.vertices ==> v.z == depth / 2.0 || v.z == -depth / 2.0)
  {
    if cs != [] {
      var prefix := cs[..|cs| - 1];
      MeshOfShape(prefix, width, height, depth);
      var c := cs[|cs| - 1];
      if |c| >= 3 {
        var m := MeshOf(prefix, width, height, depth);
        RingOfShape(c, width, height, depth);
        PrismFacesAt(PrismFaces(|c|, |m.vertices|), |c|, |m.vertices|);
        PrismWithin(PrismFaces(|c|, |m.vertices|), |c|, |m.vertices|);
        var faces := m.faces + PrismFaces(|c|, |m.vertices|);
        var total := |m.vertices| + 2 * |c|;
        forall f | f in faces
          ensures FaceWithin(f, 0, total)
        {
          if f in m.faces {
            assert FaceWithin(f, 0, |m.vertices|);
          } else {
            assert FaceWithin(f, |m.vertices|, total);
          }
        }
      }
    }
  }

  /** Two vertices per extruded point and 4n - 4 triangles per extruded contour of n points. */
  lemma {:induction false} MeshOfCounts(cs: seq<seq<Point>>, width: int, height: int, depth: real)
    requires UsablePoints(cs) > 0 ==> width != 0 && height != 0
    ensures |MeshOf(cs, width, height, depth).vertices| == 2 * UsablePoints(cs)
    ensures |MeshOf(cs, width, height, depth).faces| == TriangleCount(cs)
  {
    if cs != [] {
      var prefix := cs[..|cs| - 1];
      MeshOfCounts(prefix, width, height, depth);
      var c := cs[|cs| - 1];
      if |c| >= 3 {
        RingOfLength(c, width, height, depth);
        PrismFacesCount(|c|, |MeshOf(prefix, width, height, depth).vertices|);
      }
    }
  }

  /** A ring has two vertices per contour point. */
  lemma {:induction false} RingOfLength(contour: seq<Point>, width: int, height: int, depth: real)
    requires width != 0 && height != 0
    ensures |RingOf(contour, width, height, depth)| == 2 * |contour|
  {
    if contour != [] {
      RingOfLength(contour[..|contour| - 1], width, height, depth);
    }
  }

  /** A prism over n points has 4n - 4 triangles. */
  lemma PrismFacesCount(n: int, base: int)
    requires n >= 3
    ensures |PrismFaces(n, base)| == 4 * n - 4
  {
    FanLength(n - 1, base);
    SidesLength(n, n, base);
  }

  lemma {:induction false} FanLength(i: nat, base: int)
    requires i >= 1
    ensures |TopFan(i, base)| == i - 1 && |BottomFan(i, base)| == i - 1
  {
    if i > 1 {
      FanLength(i - 1, base);
    }
  }

  lemma {:induction false} SidesLength(i: nat, n: int, base: int)
    requires n > 0
    ensures |Sides(i, n, base)| == 2 * i
  {
    if i > 0 {
      SidesLength(i - 1, n, base);
    }
  }

  /** The mesh of a prefix of the contours is a prefix of the mesh. */
  lemma {:induction false} MeshOfPrefix(cs: seq<seq<Point>>, k: nat, width: int, height: int, depth: real)
    requires k <= |cs| && (UsablePoints(cs) > 0 ==> width != 0 && height != 0)
    ensures UsablePoints(cs[..k]) <= UsablePoints(cs)
    ensures var a, b := MeshOf(cs[..k], width, height, depth), MeshOf(cs, width, height, depth);
      a.vertices <= b.vertices && a.faces <= b.faces
    decreases |cs|
  {
    UsablePointsMonotone(cs, k);
    if k < |cs| {
      var prefix := cs[..|cs| - 1];
      assert prefix[..k] == cs[..k];
      MeshOfPrefix(prefix, k, width, height, depth);
    } else {
      assert cs[..k] == cs;
    }
  }

  /**
   * Contour i, when it has at least three points, owns the block of vertices
   * that starts after the 2 * UsablePoints of the contours before it: its
   * ring is there, and its prism, offset by that start, follows the
   * triangles of the contours before it.
   */
  lemma MeshOfBlock(cs: seq<seq<Point>>, i: nat, width: int, height: int, depth: real)
    requires i < |cs| && |cs[i]| >= 3 && width != 0 && height != 0
    ensures var m, start, first := MeshOf(cs, width, height, depth), 2 * UsablePoints(cs[..i]), TriangleCount(cs[..i]);
      && start + 2 * |cs[i]| <= |m.vertices|
      && m.vertices[start..start + 2 * |cs[i]|] == RingOf(cs[i], width, height, depth)
      && first + 4 * |cs[i]| - 4 <= |m.faces|
      && m.faces[first..first + 4 * |cs[i]| - 4] == PrismFaces(|cs[i]|, start)
  {
    RingBlock(cs, i, width, height, depth);
    PrismBlock(cs, i, width, height, depth);
  }

  /** The vertex half of MeshOfBlock. */
  lemma RingBlock(cs: seq<seq<Point>>, i: nat, width: int, height: int, depth: real)
    requires i < |cs| && |cs[i]| >= 3 && width != 0 && height != 0
    ensures var m, start := MeshOf(cs, width, height, depth), 2 * UsablePoints(cs[..i]);
      && start + 2 * |cs[i]| <= |m.vertices|
      && m.vertices[start..start + 2 * |cs[i]|] == RingOf(cs[i], width, height, depth)
  {
    var a := MeshOf(cs[..i], width, height, depth);
    MeshOfSnoc(cs, i, width, height, depth);
    MeshOfPrefix(cs, i + 1, width, height, depth);
    MeshOfCounts(cs[..i], width, height, depth);
    RingOfLength(cs[i], width, height, depth);
    var b := MeshOf(cs[..i + 1], width, height, depth);
    var m := MeshOf(cs, width, height, depth);
    SliceOfPrefix(m.vertices, b.vertices, a.vertices, RingOf(cs[i], width, height, depth),
                  2 * UsablePoints(cs[..i]), 2 * |cs[i]|);
  }

  /** The face half of MeshOfBlock. */
  lemma PrismBlock(cs: seq<seq<Point>>, i: nat, width: int, height: int, depth: real)
    requires i < |cs| && |cs[i]| >= 3 && width != 0 && height != 0
    ensures var m, first := MeshOf(cs, width, height, depth), TriangleCount(cs[..i]);
      && first + 4 * |cs[i]| - 4 <= |m.faces|
      && m.faces[first..first + 4 * |cs[i]| - 4] == PrismFaces(|cs[i]|, 2 * UsablePoints(cs[..i]))
  {
    var a := MeshOf(cs[..i], width, height, depth);
    MeshOfSnoc(cs, i, width, height, depth);
    MeshOfPrefix(cs, i + 1, width, height, depth);
    MeshOfCounts(cs[..i], width, height, depth);
    var start := |a.vertices|;
    assert start == 2 * UsablePoints(cs[..i]);
    PrismFacesCount(|cs[i]|, start);
    var b := MeshOf(cs[..i + 1], width, height, depth);
    var m := MeshOf(cs, width, height, depth);
    SliceOfPrefix(m.faces, b.faces, a.faces, PrismFaces(|cs[i]|, start), TriangleCount(cs[..i]), 4 * |cs[i]| - 4);
  }

  /** One more contour of at least three points appends its ring, and its prism offset by the vertices before it. */
  lemma MeshOfSnoc(cs: seq<seq<Point>>, i: nat, width: int, height: int, depth: real)
    requires i < |cs| && |cs[i]| >= 3 && width != 0 && height != 0
    ensures var a := MeshOf(cs[..i], width, height, depth);
      MeshOf(cs[..i + 1], width, height, depth)
      == Mesh(a.vertices + RingOf(cs[i], width, height, depth), a.faces + PrismFaces(|cs[i]|, |a.vertices|))
  {
    PrefixStep(cs, i);
  }

  /** A sequence that extends a + r holds r right after a. */
  lemma SliceOfPrefix<T>(m: seq<T>, b: seq<T>, a: seq<T>, r: seq<T>, start: int, length: int)
    requires b <= m && b == a + r && start == |a| && length == |r|
    ensures 0 <= start <= start + length <= |m| && m[start..start + length] == r
  {
    assert m[..|b|] == b;
  }

  lemma {:induction false} UsablePointsMonotone(cs: seq<seq<Point>>, i: int)
    requires 0 <= i <= |cs|
    ensures UsablePoints(cs[..i]) <= UsablePoints(cs)
    decreases |cs|
  {
    if i < |cs| {
      assert cs[..|cs| - 1][..i] == cs[..i];
      UsablePointsMonotone(cs[..|cs| - 1], i);
    } else {
      assert cs[..i] == cs;
    }
  }

  /** No vertices at all exactly when every contour has fewer than three points. */
  lemma {:induction false} UsablePointsZero(cs: seq<seq<Point>>)
    ensures UsablePoints(cs) == 0 <==> forall c :: c in cs ==> |c| < 3
  {
    if cs != [] {
      UsablePointsZero(cs[..|cs| - 1]);
      assert cs == cs[..|cs| - 1] + [cs[|cs| - 1]];
    }
  }

  /** The mesh `maskToMarchingCubes` returns: the extrusion, at depth 1, of the contours the scan keeps. */
  function MarchingCubesMesh(mask: seq<real>, width: nat, height: nat, threshold: real): Mesh
  {
    Contours.ExtractedNeedsGrid(mask, width, height, threshold);
    MeshOf(Contours.ExtractedContours(mask, width, height, threshold), width, height, 1.0)
  }

  /**
   * `maskToMarchingCubes`: the contour walk followed by the extrusion at
   * depth 1. A mask without a single pixel above the threshold (all zeros,
   * say) yields an empty mesh.
   */
  method MaskToMarchingCubes(mask: seq<real>, width: nat, height: nat, threshold: real)
    returns (mesh: Mesh)
    ensures forall f :: f in mesh.faces ==> FaceWithin(f, 0, |mesh.vertices|)
    ensures |mesh.vertices| % 2 == 0
    ensures (forall i :: 0 <= i < |mask| ==> mask[i] <= threshold) ==> mesh.vertices == [] && mesh.faces == []
    ensures |mesh.vertices| > 0 ==> |mesh.vertices| >= 6 && |mesh.faces| >= 8
    ensures mesh == MarchingCubesMesh(mask, width, height, threshold)
  {
    var contours := Contours.ExtractContours(mask, width, height, threshold);
    Contours.ExtractedNeedsGrid(mask, width, height, threshold);
    mesh := ContoursToMesh(contours, width, height, 1.0);
    MarchingCubesShape(mask, width, height, threshold);
  }

  /**
   * The mesh of a mask indexes only its own vertices, which come in
   * top/bottom pairs; a mask without a pixel above the threshold gives no
   * mesh, and any mesh holds at least one prism.
   */
  lemma MarchingCubesShape(mask: seq<real>, width: nat, height: nat, threshold: real)
    ensures var m := MarchingCubesMesh(mask, width, height, threshold);
      && (forall f :: f in m.faces ==> FaceWithin(f, 0, |m.vertices|))
      && |m.vertices| % 2 == 0
      && ((forall i :: 0 <= i < |mask| ==> mask[i] <= threshold) ==> m.vertices == [] && m.faces == [])
      && (|m.vertices| > 0 ==> |m.vertices| >= 6 && |m.faces| >= 8)
  {
    var cs := Contours.ExtractedContours(mask, width, height, threshold);
    Contours.ExtractedNeedsGrid(mask, width, height, threshold);
    var m := MeshOf(cs, width, height, 1.0);
    assert m == MarchingCubesMesh(mask, width, height, threshold);
    Contours.ExtractedContoursLong(mask, width, height, threshold);
    AllUsable(cs);
    MeshOfShape(cs, width, height, 1.0);
    if forall i :: 0 <= i < |mask| ==> mask[i] <= threshold {
      Contours.BackgroundHasNoContour(mask, width, height, threshold);
    }
  }

  /**
   * When the first pixel above the threshold starts a walk of more than two
   * points, the mesh is not empty: it has at least one prism.
   */
  lemma MarchingCubesNotEmpty(mask: seq<real>, width: nat, height: nat, threshold: real, j: nat)
    requires j < width * height && Above(mask, j, threshold)
    requires forall i :: 0 <= i < j ==> !Above(mask, i, threshold)
    requires |Contours.Walk(mask, width, height, threshold, {}, GridPosition(j, width, height), 0,
                            Contours.MaxContourLength(width, height))| > 2
    ensures |MarchingCubesMesh(mask, width, height, threshold).vertices| >= 6
    ensures |MarchingCubesMesh(mask, width, height, threshold).faces| >= 8
  {
    var cs := Contours.ExtractedContours(mask, width, height, threshold);
    Contours.FirstSeedKept(mask, width, height, threshold, j);
    Contours.ExtractedContoursLong(mask, width, height, threshold);
    Contours.ExtractedNeedsGrid(mask, width, height, threshold);
    AllUsable(cs);
    MeshOfShape(cs, width, height, 1.0);
  }

  /**
   * Three pixels above the threshold need not give a mesh: an L in the
   * top-left corner of any grid from 2 x 2 up, every other pixel below the
   * threshold, yields none.
   */
  lemma CornerMeshEmpty(mask: seq<real>, width: nat, height: nat, threshold: real)
    requires 2 <= width && 2 <= height && |mask| == width * height
    requires Contours.ExactlyAbove(mask, threshold, {0, 1, width})
    ensures MarchingCubesMesh(mask, width, height, threshold) == Mesh([], [])
  {
    Contours.CornerHasNoContour(mask, width, height, threshold);
  }

  /**
   * A 2 x 2 square in the top-left corner of any grid from 2 x 2 up, every
   * other pixel below the threshold, gives one prism over a ring of four
   * points: 8 vertices and 12 triangles.
   */
  lemma FullSquareMesh(mask: seq<real>, width: nat, height: nat, threshold: real)
    requires 2 <= width && 2 <= height && |mask| == width * height
    requires Contours.ExactlyAbove(mask, threshold, {0, 1, width, width + 1})
    ensures |MarchingCubesMesh(mask, width, height, threshold).vertices| == 8
    ensures |MarchingCubesMesh(mask, width, height, threshold).faces| == 12
  {
    Contours.FullSquareContour(mask, width, height, threshold);
    var cs := [[Point(0, 0), Point(0, 1), Point(1, 1), Point(1, 0)]];
    MeshOfShape(cs, width, height, 1.0);
  }

  /** When every contour has at least three points, each adds >= 6 vertices and >= 8 triangles. */
  lemma {:induction false} AllUsable(cs: seq<seq<Point>>)
    requires forall i :: 0 <= i < |cs| ==> |cs[i]| >= 3
    ensures cs == [] ==> UsablePoints(cs) == 0 && TriangleCount(cs) == 0
    ensures cs != [] ==> UsablePoints(cs) >= 3 && TriangleCount(cs) >= 8
  {
    if cs != [] {
      AllUsable(cs[..|cs| - 1]);
    }
  }
}
