/**
 * The geometry of the floor-plan view
 * (src/components/3Drendering/FloorPlan3D.jsx): even-odd ray casting,
 * grouping of outer contours into sections that collect the holes they
 * contain, and the bounding-box centring and scaling applied before the
 * sections are extruded. The extrusion itself is a Three.js call and is
 * not modelled; the model stops at the scaled shapes with their holes.
 */
module FloorPlan {
  import opened Options

  /** A contour point `[x, y]`. */
  datatype Pt = Pt(x: real, y: real)

  /** An element of `outerPoints` / `innerPoints`: an array of points, or anything else. */
  datatype Entry = Ring(points: seq<Pt>) | Other

  /** Index j paired with index i by `j = i++`, starting from `polygon.length - 1`. */
  function Prev(i: nat, n: nat): int {
    if i == 0 then n - 1 else i - 1
  }

  /**
   * The edge from b (vertex j) to a (vertex i) straddles the horizontal
   * through p and meets it to the right of p. The straddle test rules out
   * a horizontal edge, so the division is defined.
   */
  predicate Crosses(p: Pt, a: Pt, b: Pt) {
    (a.y > p.y) != (b.y > p.y) && p.x < (b.x - a.x) * (p.y - a.y) / (b.y - a.y) + a.x
  }

  /** How many of the edges ending at vertices 0 .. k-1 cross the ray from p. */
  function CrossingCount(p: Pt, polygon: seq<Pt>, k: nat): nat
    requires k <= |polygon|
  {
    if k == 0 then 0
    else CrossingCount(p, polygon, k - 1) + (if Crosses(p, polygon[k - 1], polygon[Prev(k - 1, |polygon|)]) then 1 else 0)
  }

  /** The even-odd rule: p is inside when the ray crosses the boundary an odd number of times. */
  predicate Inside(p: Pt, polygon: seq<Pt>) {
    CrossingCount(p, polygon, |polygon|) % 2 == 1
  }

  /** `pointInPolygon`: the loop flips `isInside` at every crossing edge. */
  method PointInPolygon(point: Pt, polygon: seq<Pt>) returns (isInside: bool)
    ensures isInside <==> Inside(point, polygon)
    ensures |polygon| == 0 ==> !isInside
  {
    isInside := false;
    var i := 0;
    var j := |polygon| - 1;
    while i < |polygon|
      invariant 0 <= i <= |polygon|
      invariant j == Prev(i, |polygon|)
      invariant isInside <==> CrossingCount(point, polygon, i) % 2 == 1
    {
      var intersect := Crosses(point, polygon[i], polygon[j]);
      if intersect {
        isInside := !isInside;
      }
      j := i;
      i := i + 1;
    }
  }

  /** No edge crosses the horizontal through a point that lies strictly below, or level with or above, every vertex. */
  lemma {:induction false} NoStraddleNoCrossing(p: Pt, polygon: seq<Pt>, k: nat)
    requires k <= |polygon|
    requires (forall v :: v in polygon ==> v.y > p.y) || (forall v :: v in polygon ==> v.y <= p.y)
    ensures CrossingCount(p, polygon, k) == 0
  {
    if k > 0 {
      NoStraddleNoCrossing(p, polygon, k - 1);
      assert polygon[k - 1] in polygon && polygon[Prev(k - 1, |polygon|)] in polygon;
    }
  }

  /** A point above or below the polygon's vertical extent is outside. */
  lemma OutsideVerticalExtent(p: Pt, polygon: seq<Pt>)
    requires (forall v :: v in polygon ==> v.y > p.y) || (forall v :: v in polygon ==> v.y <= p.y)
    ensures !Inside(p, polygon)
  {
    NoStraddleNoCrossing(p, polygon, |polygon|);
  }

  /** Where a straddling edge meets the horizontal lies between the edge's end points' x, so at most the larger one. */
  lemma CrossingBetween(p: Pt, a: Pt, b: Pt, bound: real)
    requires (a.y > p.y) != (b.y > p.y)
    requires a.x <= bound && b.x <= bound
    ensures (b.x - a.x) * (p.y - a.y) / (b.y - a.y) + a.x <= bound
  {
    var d := b.y - a.y;
    var t := (p.y - a.y) / d;
    assert t * d == p.y - a.y;
    assert 0.0 <= t <= 1.0 by {
      if d > 0.0 {
        assert 0.0 <= p.y - a.y < d;
      } else {
        assert d < p.y - a.y + 0.0 || d <= p.y - a.y;
        assert d <= p.y - a.y < 0.0;
      }
    }
    assert (b.x - a.x) * (p.y - a.y) / d == (b.x - a.x) * t;
    assert (b.x - a.x) * t + a.x == (1.0 - t) * a.x + t * b.x;
    assert (1.0 - t) * a.x <= (1.0 - t) * bound;
    assert t * b.x <= t * bound;
  }

  lemma {:induction false} RightOfAllNoCrossing(p: Pt, polygon: seq<Pt>, k: nat)
    requires k <= |polygon|
    requires forall v :: v in polygon ==> v.x <= p.x
    ensures CrossingCount(p, polygon, k) == 0
  {
    if k > 0 {
      RightOfAllNoCrossing(p, polygon, k - 1);
      var a, b := polygon[k - 1], polygon[Prev(k - 1, |polygon|)];
      assert a in polygon && b in polygon;
      if (a.y > p.y) != (b.y > p.y) {
        CrossingBetween(p, a, b, p.x);
      }
    }
  }

  /** A point to the right of every vertex (or level with the rightmost) is outside. */
  lemma OutsideToTheRight(p: Pt, polygon: seq<Pt>)
    requires forall v :: v in polygon ==> v.x <= p.x
    ensures !Inside(p, polygon)
  {
    RightOfAllNoCrossing(p, polygon, |polygon|);
  }

  /** `{ outer, holes }`: an outer contour and the holes assigned to it. */
  datatype Section = Section(outer: seq<Pt>, holes: seq<seq<Pt>>)

  /** `Array.isArray(c) && c.length >= 3`. */
  predicate Usable(e: Entry) {
    e.Ring? && |e.points| >= 3
  }

  /** `outerPoints.filter(usable).map(outerContour => ({ outer: outerContour, holes: [] }))`. */
  function Sections(entries: seq<Entry>): seq<Section> {
    if |entries| == 0 then []
    else
      var last := entries[|entries| - 1];
      Sections(entries[..|entries| - 1]) + (if Usable(last) then [Section(last.points, [])] else [])
  }

  /** Filtering keeps the input order: the sections of a concatenation are the concatenated sections. */
  lemma {:induction false} SectionsAppend(a: seq<Entry>, b: seq<Entry>)
    ensures Sections(a + b) == Sections(a) + Sections(b)
  {
    if |b| == 0 {
      assert a + b == a;
    } else {
      SectionsAppend(a, b[..|b| - 1]);
      assert (a + b)[..|a + b| - 1] == a + b[..|b| - 1];
    }
  }

  /** The sections are exactly the usable outer contours, each with no holes yet. */
  lemma {:induction false} SectionsMembership(entries: seq<Entry>, s: Section)
    ensures s in Sections(entries) <==> s.holes == [] && |s.outer| >= 3 && Ring(s.outer) in entries
  {
    if |entries| > 0 {
      var init := entries[..|entries| - 1];
      SectionsMembership(init, s);
      assert entries == init + [entries[|entries| - 1]];
    }
  }

  function Outers(sections: seq<Section>): (r: seq<seq<Pt>>)
    ensures |r| == |sections| && forall k :: 0 <= k < |sections| ==> r[k] == sections[k].outer
  {
    seq(|sections|, k requires 0 <= k < |sections| => sections[k].outer)
  }

  /**
   * `sections.find(section => pointInPolygon(point, section.outer))`,
   * searching from position `from`: the first outer ring that contains
   * the point, or None when none does.
   */
  function FirstContaining(outers: seq<seq<Pt>>, point: Pt, from: nat): (r: Option<nat>)
    requires from <= |outers|
    ensures r.Some? ==> from <= r.value < |outers| && Inside(point, outers[r.value])
    ensures r.Some? ==> forall j :: from <= j < r.value ==> !Inside(point, outers[j])
    ensures r.None? ==> forall j :: from <= j < |outers| ==> !Inside(point, outers[j])
    decreases |outers| - from
  {
    if from == |outers| then None
    else if Inside(point, outers[from]) then Some(from)
    else FirstContaining(outers, point, from + 1)
  }

  /** The holes the forEach loop pushes onto section k: usable inner contours, in order, whose first point section k is the first to contain. */
  function HolesFor(outers: seq<seq<Pt>>, inner: seq<Entry>, k: nat): seq<seq<Pt>> {
    if |inner| == 0 then []
    else
      var last := inner[|inner| - 1];
      HolesFor(outers, inner[..|inner| - 1], k)
        + (if Usable(last) && FirstContaining(outers, last.points[0], 0) == Some(k) then [last.points] else [])
  }

  /** A contour is a hole of section k exactly when it is a usable inner contour whose first point section k is the first to contain. */
  lemma {:induction false} HolesMembership(outers: seq<seq<Pt>>, inner: seq<Entry>, k: nat, h: seq<Pt>)
    ensures h in HolesFor(outers, inner, k) <==>
      Ring(h) in inner && |h| >= 3 && FirstContaining(outers, h[0], 0) == Some(k)
  {
    if |inner| > 0 {
      var init := inner[..|inner| - 1];
      HolesMembership(outers, init, k, h);
      assert inner == init + [inner[|inner| - 1]];
    }
  }

  /** No hole is given to two sections, and a hole inside no outer ring is dropped. */
  lemma HoleHasOneParent(outers: seq<seq<Pt>>, inner: seq<Entry>, h: seq<Pt>, k1: nat, k2: nat)
    ensures h in HolesFor(outers, inner, k1) && h in HolesFor(outers, inner, k2) ==> k1 == k2
    ensures |h| >= 1 && FirstContaining(outers, h[0], 0).None? ==> h !in HolesFor(outers, inner, k1)
  {
    HolesMembership(outers, inner, k1, h);
    HolesMembership(outers, inner, k2, h);
  }

  /** `sections.find(...)` over the sections built so far. */
  method FindSection(sections: array<Section>, point: Pt) returns (found: Option<nat>)
    ensures found == FirstContaining(Outers(sections[..]), point, 0)
  {
    var k := 0;
    while k < sections.Length
      invariant 0 <= k <= sections.Length
      invariant FirstContaining(Outers(sections[..]), point, 0) == FirstContaining(Outers(sections[..]), point, k)
    {
      var inside := PointInPolygon(point, sections[k].outer);
      if inside {
        return Some(k);
      }
      k := k + 1;
    }
    return None;
  }

  /**
   * The `innerPoints` forEach: each usable hole is pushed onto the
   * `holes` of the first section containing its first point. Outer rings
   * are left as they are.
   */
  method AssignHoles(sections: array<Section>, innerPoints: seq<Entry>)
    modifies sections
    ensures Outers(sections[..]) == Outers(old(sections[..]))
    ensures forall k :: 0 <= k < sections.Length ==>
      sections[k].holes == old(sections[k].holes) + HolesFor(Outers(old(sections[..])), innerPoints, k)
  {
    ghost var original := sections[..];
    ghost var outers := Outers(original);
    var i := 0;
    while i < |innerPoints|
      invariant 0 <= i <= |innerPoints|
      invariant HolesSoFar(sections[..], original, outers, innerPoints[..i])
    {
      assert innerPoints[..i + 1] == innerPoints[..i] + [innerPoints[i]];
      PlaceHole(sections, innerPoints[i], original, outers, innerPoints[..i]);
      i := i + 1;
    }
    assert innerPoints[..|innerPoints|] == innerPoints;
  }

  /** After the entries `done`: outer rings as they were, each section holding its holes so far. */
  ghost predicate HolesSoFar(current: seq<Section>, original: seq<Section>, outers: seq<seq<Pt>>, done: seq<Entry>) {
    |current| == |original| && Outers(current) == outers
    && forall k :: 0 <= k < |current| ==> current[k].holes == original[k].holes + HolesFor(outers, done, k)
  }

  /** One pass of the forEach body: a usable hole joins the first section containing its first point. */
  method PlaceHole(sections: array<Section>, hole: Entry, ghost original: seq<Section>,
                   ghost outers: seq<seq<Pt>>, ghost done: seq<Entry>)
    requires HolesSoFar(sections[..], original, outers, done)
    modifies sections
    ensures HolesSoFar(sections[..], original, outers, done + [hole])
  {
    ghost var before := sections[..];
    if Usable(hole) {
      var parent := FindSection(sections, hole.points[0]);
      if parent.Some? {
        var k := parent.value;
        sections[k] := sections[k].(holes := sections[k].holes + [hole.points]);
        HoleAdded(before, sections[..], original, outers, done, hole, k);
        return;
      }
    }
    HoleSkipped(sections[..], original, outers, done, hole);
  }

  /** The holes after one more entry: the earlier ones, then this one if it goes to section k. */
  lemma HolesForSnoc(outers: seq<seq<Pt>>, done: seq<Entry>, hole: Entry, k: nat)
    ensures HolesFor(outers, done + [hole], k)
            == HolesFor(outers, done, k)
               + (if Usable(hole) && FirstContaining(outers, hole.points[0], 0) == Some(k) then [hole.points] else [])
  {
    assert (done + [hole])[..|done|] == done;
  }

  lemma HoleAdded(before: seq<Section>, after: seq<Section>, original: seq<Section>, outers: seq<seq<Pt>>,
                  done: seq<Entry>, hole: Entry, k: nat)
    requires HolesSoFar(before, original, outers, done)
    requires Usable(hole) && k < |before| && FirstContaining(outers, hole.points[0], 0) == Some(k)
    requires after == before[k := before[k].(holes := before[k].holes + [hole.points])]
    ensures HolesSoFar(after, original, outers, done + [hole])
  {
    forall j | 0 <= j < |after|
      ensures after[j].holes == original[j].holes + HolesFor(outers, done + [hole], j)
    {
      HolesForSnoc(outers, done, hole, j);
    }
    assert forall j :: 0 <= j < |after| ==> Outers(after)[j] == Outers(before)[j];
  }

  lemma HoleSkipped(current: seq<Section>, original: seq<Section>, outers: seq<seq<Pt>>, done: seq<Entry>, hole: Entry)
    requires HolesSoFar(current, original, outers, done)
    requires Usable(hole) ==> FirstContaining(outers, hole.points[0], 0).None?
    ensures HolesSoFar(current, original, outers, done + [hole])
  {
    forall j | 0 <= j < |current|
      ensures current[j].holes == original[j].holes + HolesFor(outers, done + [hole], j)
    {
      HolesForSnoc(outers, done, hole, j);
    }
  }

  /** A non-empty `THREE.Box2`; the empty box is None. */
  datatype Box = Box(minX: real, minY: real, maxX: real, maxY: real)

  function MinR(a: real, b: real): real { if a <= b then a else b }

  function MaxR(a: real, b: real): real { if a >= b then a else b }

  predicate Contains(b: Box, p: Pt) {
    b.minX <= p.x <= b.maxX && b.minY <= p.y <= b.maxY
  }

  /** `boundingBox.expandByPoint(p)`. */
  function Expand(box: Option<Box>, p: Pt): Box {
    match box
    case None => Box(p.x, p.y, p.x, p.y)
    case Some(b) => Box(MinR(b.minX, p.x), MinR(b.minY, p.y), MaxR(b.maxX, p.x), MaxR(b.maxY, p.y))
  }

  /** The box after expanding an empty one by every point in turn; it holds every point. */
  function BoxOf(points: seq<Pt>): (r: Option<Box>)
    ensures r.None? <==> |points| == 0
    ensures r.Some? ==> forall i :: 0 <= i < |points| ==> Contains(r.value, points[i])
  {
    if |points| == 0 then None else Some(Expand(BoxOf(points[..|points| - 1]), points[|points| - 1]))
  }

  /** Each side of the box is the coordinate of some point: the box is the smallest that holds them all. */
  lemma {:induction false} BoxIsTight(points: seq<Pt>)
    requires |points| > 0
    ensures var b := BoxOf(points).value;
      (exists i :: 0 <= i < |points| && points[i].x == b.minX) &&
      (exists i :: 0 <= i < |points| && points[i].x == b.maxX) &&
      (exists i :: 0 <= i < |points| && points[i].y == b.minY) &&
      (exists i :: 0 <= i < |points| && points[i].y == b.maxY)
  {
    var n := |points| - 1;
    var b := BoxOf(points).value;
    if n > 0 {
      var init := points[..n];
      BoxIsTight(init);
      var a := BoxOf(init).value;
      var i1 :| 0 <= i1 < n && init[i1].x == a.minX;
      var i2 :| 0 <= i2 < n && init[i2].x == a.maxX;
      var i3 :| 0 <= i3 < n && init[i3].y == a.minY;
      var i4 :| 0 <= i4 < n && init[i4].y == a.maxY;
      assert points[if b.minX == a.minX then i1 else n].x == b.minX;
      assert points[if b.maxX == a.maxX then i2 else n].x == b.maxX;
      assert points[if b.minY == a.minY then i3 else n].y == b.minY;
      assert points[if b.maxY == a.maxY then i4 else n].y == b.maxY;
    } else {
      assert points[0].x == b.minX && points[0].y == b.minY;
    }
  }

  /** The `allPoints.forEach(...)` loop growing the box. */
  method BoundingBox(points: seq<Pt>) returns (box: Option<Box>)
    ensures box == BoxOf(points)
  {
    box := None;
    var i := 0;
    while i < |points|
      invariant 0 <= i <= |points|
      invariant box == BoxOf(points[..i])
    {
      assert points[..i + 1][..i] == points[..i];
      box := Some(Expand(box, points[i]));
      i := i + 1;
    }
    assert points[..|points|] == points;
  }

  /** `pointList.outerPoints.flat()`: the points of all outer contours, in order. */
  function Flatten(entries: seq<Entry>): seq<Pt> {
    if |entries| == 0 then []
    else
      var last := entries[|entries| - 1];
      Flatten(entries[..|entries| - 1]) + (if last.Ring? then last.points else [])
  }

  lemma {:induction false} FlattenContains(entries: seq<Entry>, ring: seq<Pt>, q: Pt)
    requires Ring(ring) in entries && q in ring
    ensures q in Flatten(entries)
  {
    var init := entries[..|entries| - 1];
    if entries[|entries| - 1] != Ring(ring) {
      assert entries == init + [entries[|entries| - 1]];
      FlattenContains(init, ring, q);
    }
  }

  /** `Math.max(size.x, size.y)`. */
  function Extent(b: Box): real {
    MaxR(b.maxX - b.minX, b.maxY - b.minY)
  }

  /** `targetSize / Math.max(size.x, size.y)` with `targetSize = 100`. */
  function Scale(b: Box): real
    requires Extent(b) > 0.0
  {
    100.0 / Extent(b)
  }

  /** `((p[0] - center.x) * scale, (p[1] - center.y) * scale)`. */
  function Transform(p: Pt, b: Box): Pt
    requires Extent(b) > 0.0
  {
    Pt((p.x - (b.minX + b.maxX) / 2.0) * Scale(b), (p.y - (b.minY + b.maxY) / 2.0) * Scale(b))
  }

  lemma ScaledOffset(d: real, half: real, e: real)
    requires e > 0.0 && 0.0 <= half && 2.0 * half <= e && -half <= d <= half
    ensures -50.0 <= d * (100.0 / e) <= 50.0
  {
    var s := 100.0 / e;
    assert s * e == 100.0;
    assert s > 0.0;
    assert d * s <= half * s;
    assert -half * s <= d * s;
    assert half * s <= (e / 2.0) * s == 50.0;
  }

  /** Centred and scaled, a point of the box lands in the 100 x 100 square around the origin. */
  lemma TransformInTarget(p: Pt, b: Box)
    requires Extent(b) > 0.0 && Contains(b, p)
    ensures -50.0 <= Transform(p, b).x <= 50.0 && -50.0 <= Transform(p, b).y <= 50.0
  {
    ScaledOffset(p.x - (b.minX + b.maxX) / 2.0, (b.maxX - b.minX) / 2.0, Extent(b));
    ScaledOffset(p.y - (b.minY + b.maxY) / 2.0, (b.maxY - b.minY) / 2.0, Extent(b));
  }

  function TransformRing(ring: seq<Pt>, b: Box): (r: seq<Pt>)
    requires Extent(b) > 0.0
    ensures |r| == |ring| && forall i :: 0 <= i < |ring| ==> r[i] == Transform(ring[i], b)
  {
    seq(|ring|, i requires 0 <= i < |ring| => Transform(ring[i], b))
  }

  /** A ring inside the box is centred and scaled into the 100 x 100 square around the origin. */
  lemma TransformRingInTarget(ring: seq<Pt>, b: Box)
    requires Extent(b) > 0.0 && forall i :: 0 <= i < |ring| ==> Contains(b, ring[i])
    ensures forall i :: 0 <= i < |ring| ==>
              -50.0 <= TransformRing(ring, b)[i].x <= 50.0 && -50.0 <= TransformRing(ring, b)[i].y <= 50.0
  {
    forall i | 0 <= i < |ring|
      ensures -50.0 <= TransformRing(ring, b)[i].x <= 50.0 && -50.0 <= TransformRing(ring, b)[i].y <= 50.0
    {
      TransformInTarget(ring[i], b);
    }
  }

  function TransformRings(rings: seq<seq<Pt>>, b: Box): (r: seq<seq<Pt>>)
    requires Extent(b) > 0.0
    ensures |r| == |rings| && forall i :: 0 <= i < |rings| ==> r[i] == TransformRing(rings[i], b)
  {
    seq(|rings|, i requires 0 <= i < |rings| => TransformRing(rings[i], b))
  }

  /** `wallHeight * scale` with `wallHeight = 500`: the extrusion depth. */
  function WallHeight(scale: real): real {
    500.0 * scale
  }

  /** `scaledWallHeight + 0.01`: the cap sits just above the walls, against z-fighting. */
  function CapElevation(scale: real): (r: real)
    ensures r > WallHeight(scale)
  {
    WallHeight(scale) + 0.01
  }

  /** A section ready for extrusion: scaled outer ring and scaled holes. */
  datatype Shape = Shape(outer: seq<Pt>, holes: seq<seq<Pt>>)

  datatype Plan = Plan(shapes: seq<Shape>, wallHeight: real, capElevation: real)

  /** The `innerPoints` to use: none when the property is absent. */
  function InnerOrEmpty(innerPoints: Option<seq<Entry>>): seq<Entry> {
    if innerPoints.Some? then innerPoints.value else []
  }

  /** The bounding box of the outer points has a positive width or height. */
  predicate NonDegenerate(outerPoints: seq<Entry>) {
    BoxOf(Flatten(outerPoints)).Some? && Extent(BoxOf(Flatten(outerPoints)).value) > 0.0
  }

  /**
   * The effect body up to the extrusion: nothing is built without outer
   * points; otherwise one shape per usable outer contour, in order,
   * carrying the holes assigned to it, all centred and scaled so that
   * every outer point lies in [-50, 50] on both axes.
   */
  method BuildFloorPlan(outerPoints: seq<Entry>, innerPoints: Option<seq<Entry>>) returns (plan: Option<Plan>)
    requires |outerPoints| == 0 || NonDegenerate(outerPoints)
    ensures plan.None? <==> |outerPoints| == 0
    ensures plan.Some? ==>
      var box := BoxOf(Flatten(outerPoints)).value;
      var sections := Sections(outerPoints);
      |plan.value.shapes| == |sections| &&
      (forall k :: 0 <= k < |sections| ==>
        plan.value.shapes[k].outer == TransformRing(sections[k].outer, box) &&
        plan.value.shapes[k].holes == TransformRings(HolesFor(Outers(sections), InnerOrEmpty(innerPoints), k), box)) &&
      plan.value.wallHeight == WallHeight(Scale(box)) &&
      plan.value.capElevation == CapElevation(Scale(box))
    ensures plan.Some? ==> forall k, i :: 0 <= k < |plan.value.shapes| && 0 <= i < |plan.value.shapes[k].outer| ==>
      -50.0 <= plan.value.shapes[k].outer[i].x <= 50.0 && -50.0 <= plan.value.shapes[k].outer[i].y <= 50.0
    ensures plan.Some? ==> 0.0 < plan.value.wallHeight < plan.value.capElevation
  {
    if |outerPoints| == 0 {
      return None;
    }
    var found := BoundingBox(Flatten(outerPoints));
    var box := found.value;
    var scale := Scale(box);
    var initial := Sections(outerPoints);
    var sections := new Section[|initial|](k requires 0 <= k < |initial| => initial[k]);
    assert sections[..] == initial;
    if innerPoints.Some? {
      AssignHoles(sections, innerPoints.value);
    } else {
      assert forall k :: HolesFor(Outers(initial), [], k) == [];
    }
    var shapes := TransformSections(sections[..], box);
    PlanShapes(outerPoints, InnerOrEmpty(innerPoints), sections[..], box);
    PlanInTarget(outerPoints, sections[..]);
    return Some(Plan(shapes, WallHeight(scale), CapElevation(scale)));
  }

  /** Each section turned into a shape: its outer contour and its holes centred and scaled. */
  function TransformSections(sections: seq<Section>, b: Box): (r: seq<Shape>)
    requires Extent(b) > 0.0
    ensures |r| == |sections|
    ensures forall k :: 0 <= k < |sections| ==>
      r[k].outer == TransformRing(sections[k].outer, b) && r[k].holes == TransformRings(sections[k].holes, b)
  {
    seq(|sections|, k requires 0 <= k < |sections| => Shape(TransformRing(sections[k].outer, b), TransformRings(sections[k].holes, b)))
  }

  /**
   * Sections that keep the outer contours of the usable outer entries and
   * gained exactly their assigned holes give one shape per section, in order.
   */
  lemma PlanShapes(outerPoints: seq<Entry>, inner: seq<Entry>, done: seq<Section>, b: Box)
    requires Extent(b) > 0.0
    requires Outers(done) == Outers(Sections(outerPoints))
    requires forall k :: 0 <= k < |done| ==>
      done[k].holes == Sections(outerPoints)[k].holes + HolesFor(Outers(Sections(outerPoints)), inner, k)
    ensures var shapes := TransformSections(done, b); var sections := Sections(outerPoints);
      |shapes| == |sections| &&
      forall k :: 0 <= k < |sections| ==>
        shapes[k].outer == TransformRing(sections[k].outer, b) &&
        shapes[k].holes == TransformRings(HolesFor(Outers(sections), inner, k), b)
  {
    var sections := Sections(outerPoints);
    forall k | 0 <= k < |sections|
      ensures done[k].outer == sections[k].outer
      ensures done[k].holes == HolesFor(Outers(sections), inner, k)
    {
      assert Outers(done)[k] == done[k].outer;
      assert sections[k] in sections;
      SectionsMembership(outerPoints, sections[k]);
    }
  }

  /** Every outer point of every shape lies in [-50, 50] on both axes. */
  lemma PlanInTarget(outerPoints: seq<Entry>, done: seq<Section>)
    requires NonDegenerate(outerPoints)
    requires Outers(done) == Outers(Sections(outerPoints))
    ensures var shapes := TransformSections(done, BoxOf(Flatten(outerPoints)).value);
      forall k, i :: 0 <= k < |shapes| && 0 <= i < |shapes[k].outer| ==>
        -50.0 <= shapes[k].outer[i].x <= 50.0 && -50.0 <= shapes[k].outer[i].y <= 50.0
  {
    var box := BoxOf(Flatten(outerPoints)).value;
    var shapes := TransformSections(done, box);
    forall k, i | 0 <= k < |shapes| && 0 <= i < |shapes[k].outer|
      ensures -50.0 <= shapes[k].outer[i].x <= 50.0 && -50.0 <= shapes[k].outer[i].y <= 50.0
    {
      assert Outers(done)[k] == done[k].outer;
      SectionInTarget(outerPoints, k, i);
    }
  }

  /** Every point of a usable outer contour lands in [-50, 50] on both axes. */
  lemma SectionInTarget(outerPoints: seq<Entry>, k: int, i: int)
    requires NonDegenerate(outerPoints)
    requires 0 <= k < |Sections(outerPoints)| && 0 <= i < |Sections(outerPoints)[k].outer|
    ensures var p := Transform(Sections(outerPoints)[k].outer[i], BoxOf(Flatten(outerPoints)).value);
      -50.0 <= p.x <= 50.0 && -50.0 <= p.y <= 50.0
  {
    var allPoints := Flatten(outerPoints);
    var box := BoxOf(allPoints).value;
    var initial := Sections(outerPoints);
    var outer := initial[k].outer;
    assert initial[k] in initial;
    SectionsMembership(outerPoints, initial[k]);
    FlattenContains(outerPoints, outer, outer[i]);
    var j :| 0 <= j < |allPoints| && allPoints[j] == outer[i];
    TransformInTarget(outer[i], box);
  }
}
