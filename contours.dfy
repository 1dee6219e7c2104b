/**
 * The contour walk of src/components/3Drendering/Mask3DUtils.js
 * (`extractContours`, `traceContour`): a row-major scan for unvisited
 * foreground seeds, each followed by a bounded walk over 4-neighbours that
 * takes the first unvisited foreground neighbour, trying the arrival
 * direction first and then turning through `directions`.
 */
module Contours {
  import opened MaskGrid
  import opened Options

  /** `directions = [[0, 1], [1, 0], [0, -1], [-1, 0]]`, column 0. */
  function DX(dir: int): int { if dir == 1 then 1 else if dir == 3 then -1 else 0 }

  /** `directions = [[0, 1], [1, 0], [0, -1], [-1, 0]]`, column 1. */
  function DY(dir: int): int { if dir == 0 then 1 else if dir == 2 then -1 else 0 }

  /** The neighbour of p one entry of `directions` away: down, right, up, left. */
  function Step(p: Point, dir: int): Point {
    if dir == 0 then Point(p.x, p.y + 1)
    else if dir == 1 then Point(p.x + 1, p.y)
    else if dir == 2 then Point(p.x, p.y - 1)
    else Point(p.x - 1, p.y)
  }

  /** Step moves by row `dir` of `directions`. */
  lemma StepDelta(p: Point, dir: int)
    requires 0 <= dir < 4
    ensures Step(p, dir) == Point(p.x + DX(dir), p.y + DY(dir))
  {
  }

  /** The direction index that leads from p to q (3 when q is not a unit step away). */
  function DirBetween(p: Point, q: Point): int {
    if q == Step(p, 0) then 0 else if q == Step(p, 1) then 1 else if q == Step(p, 2) then 2 else 3
  }

  /** Two pixels that differ by exactly one of the four unit steps. */
  predicate Adjacent(p: Point, q: Point) {
    (p.x == q.x && (q.y == p.y + 1 || q.y == p.y - 1)) ||
    (p.y == q.y && (q.x == p.x + 1 || q.x == p.x - 1))
  }

  /** A neighbour the walk may move to: in bounds, foreground and not yet visited. */
  predicate IsFree(mask: seq<real>, width: int, height: int, threshold: real, visited: set<int>, p: Point) {
    IsForeground(mask, width, height, threshold, p) && Index(p, width) !in visited
  }

  /**
   * The rule of the inner `for` loop: the first of the directions
   * dir, dir + 1, ... (mod 4), starting at offset `tried`, whose step
   * reaches a free pixel.
   */
  function NextDir(mask: seq<real>, width: int, height: int, threshold: real,
                   visited: set<int>, p: Point, dir: int, tried: nat): (r: Option<int>)
    requires 0 <= dir < 4 && tried <= 4
    ensures r.Some? ==> 0 <= r.value < 4 && IsFree(mask, width, height, threshold, visited, Step(p, r.value))
    decreases 4 - tried
  {
    if tried == 4 then None
    else if IsFree(mask, width, height, threshold, visited, Step(p, Turn(dir, tried))) then Some(Turn(dir, tried))
    else NextDir(mask, width, height, threshold, visited, p, dir, tried + 1)
  }

  /** `(dir + i) % 4` for a direction and a turn count both below 4. */
  function Turn(dir: int, i: int): (r: int)
    requires 0 <= dir < 4 && 0 <= i < 4
    ensures 0 <= r < 4 && (r == dir + i || r == dir + i - 4)
  {
    if dir + i < 4 then dir + i else dir + i - 4
  }

  /** The direction in which the walk arrived at point k (0 for the start). */
  function ArrivalDir(c: seq<Point>, k: int): int
    requires 0 <= k < |c|
  {
    if k == 0 then 0 else DirBetween(c[k - 1], c[k])
  }

  function IndexSet(c: seq<Point>, width: int): set<int> {
    set k | 0 <= k < |c| :: Index(c[k], width)
  }

  predicate DistinctIndices(c: seq<Point>, width: int) {
    forall j, k :: 0 <= j < k < |c| ==> Index(c[j], width) != Index(c[k], width)
  }

  /** `Math.max(width, height) * 4`, the walk's step cap. */
  function MaxContourLength(width: int, height: int): int { Max(width, height) * 4 }

  lemma StepDirBetween(p: Point, dir: int)
    requires 0 <= dir < 4
    ensures DirBetween(p, Step(p, dir)) == dir && Adjacent(p, Step(p, dir))
  {
  }

  /**
   * The inner `for` loop of `traceContour`: try the four directions,
   * starting with `dir`, and stop at the first free neighbour.
   */
  method FindNext(mask: seq<real>, width: nat, height: nat, threshold: real,
                  visited: set<int>, x: int, y: int, dir: int)
    returns (found: bool, nx: int, ny: int, nextDir: int)
    requires 0 <= dir < 4
    ensures found <==> NextDir(mask, width, height, threshold, visited, Point(x, y), dir, 0).Some?
    ensures found ==> NextDir(mask, width, height, threshold, visited, Point(x, y), dir, 0) == Some(nextDir)
                      && Point(nx, ny) == Step(Point(x, y), nextDir)
  {
    found, nx, ny, nextDir := false, x, y, dir;
    var i := 0;
    while i < 4
      invariant 0 <= i <= 4
      invariant NextDir(mask, width, height, threshold, visited, Point(x, y), dir, 0)
                == NextDir(mask, width, height, threshold, visited, Point(x, y), dir, i)
    {
      var d := (dir + i) % 4;
      assert d == Turn(dir, i);
      var cx := x + DX(d);
      var cy := y + DY(d);
      StepDelta(Point(x, y), d);
      if cx >= 0 && cx < width && cy >= 0 && cy < height {
        var nextIndex := cy * width + cx;
        if Above(mask, nextIndex, threshold) && nextIndex !in visited {
          found, nx, ny, nextDir := true, cx, cy, d;
          return;
        }
      }
      i := i + 1;
    }
  }

  /**
   * The shape of a walk: its pixels are in bounds, every pixel after the
   * seed is foreground, consecutive pixels are 4-neighbours and no index
   * repeats.
   */
  ghost predicate IsPath(mask: seq<real>, width: int, height: int, threshold: real, c: seq<Point>)
  {
    && (forall k :: 0 <= k < |c| ==> InBounds(c[k], width, height))
    && (forall k :: 1 <= k < |c| ==> IsForeground(mask, width, height, threshold, c[k]))
    && (forall k :: 0 <= k < |c| - 1 ==> Adjacent(c[k], c[k + 1]))
    && DistinctIndices(c, width)
  }

  /**
   * The choices of a walk started with the shared set `visited`: every step
   * went to the first free neighbour, trying the arrival direction first.
   */
  ghost predicate FollowsRule(mask: seq<real>, width: int, height: int, threshold: real,
                              visited: set<int>, c: seq<Point>)
  {
    forall k :: 0 <= k < |c| - 1 ==>
      NextDir(mask, width, height, threshold, visited + IndexSet(c[..k + 1], width),
              c[k], ArrivalDir(c, k), 0)
      == Some(DirBetween(c[k], c[k + 1]))
  }

  /** A walk started with the shared set `visited`. */
  ghost predicate IsWalk(mask: seq<real>, width: int, height: int, threshold: real,
                         visited: set<int>, c: seq<Point>)
  {
    && IsPath(mask, width, height, threshold, c)
    && (forall k :: 0 <= k < |c| ==> Index(c[k], width) !in visited)
    && FollowsRule(mask, width, height, threshold, visited, c)
  }

  lemma AppendIndexSet(c: seq<Point>, p: Point, width: int)
    ensures IndexSet(c + [p], width) == IndexSet(c, width) + {Index(p, width)}
  {
    var c' := c + [p];
    forall i | i in IndexSet(c', width)
      ensures i in IndexSet(c, width) + {Index(p, width)}
    {
      var k :| 0 <= k < |c'| && i == Index(c'[k], width);
      if k < |c| { assert c'[k] == c[k]; }
    }
    forall i | i in IndexSet(c, width)
      ensures i in IndexSet(c', width)
    {
      var k :| 0 <= k < |c| && i == Index(c[k], width);
      assert c'[k] == c[k];
    }
    assert c'[|c|] == p;
  }

  lemma ExtendPath(mask: seq<real>, width: int, height: int, threshold: real, c: seq<Point>, p: Point)
    requires IsPath(mask, width, height, threshold, c)
    requires InBounds(p, width, height)
    requires Index(p, width) !in IndexSet(c, width)
    requires |c| > 0 ==> Adjacent(c[|c| - 1], p) && IsForeground(mask, width, height, threshold, p)
    ensures IsPath(mask, width, height, threshold, c + [p])
  {
    var c' := c + [p];
    forall j, k | 0 <= j < k < |c'|
      ensures Index(c'[j], width) != Index(c'[k], width)
    {
      if k == |c| {
        assert c'[j] == c[j];
        assert Index(c[j], width) in IndexSet(c, width);
      }
    }
  }

  lemma ExtendRule(mask: seq<real>, width: int, height: int, threshold: real,
                   visited: set<int>, c: seq<Point>, dir: int, p: Point)
    requires FollowsRule(mask, width, height, threshold, visited, c)
    requires 0 <= dir < 4
    requires |c| > 0 ==> p == Step(c[|c| - 1], dir)
                         && NextDir(mask, width, height, threshold, visited + IndexSet(c, width),
                                    c[|c| - 1], ArrivalDir(c, |c| - 1), 0) == Some(dir)
    ensures FollowsRule(mask, width, height, threshold, visited, c + [p])
    ensures |c| > 0 ==> ArrivalDir(c + [p], |c|) == dir
  {
    var c' := c + [p];
    if |c| > 0 {
      StepDirBetween(c[|c| - 1], dir);
      assert c'[|c| - 1] == c[|c| - 1] && c'[|c|] == p;
    }
    forall k | 0 <= k < |c'| - 1
      ensures NextDir(mask, width, height, threshold, visited + IndexSet(c'[..k + 1], width),
                      c'[k], ArrivalDir(c', k), 0)
              == Some(DirBetween(c'[k], c'[k + 1]))
    {
      RuleStep(mask, width, height, threshold, visited, c, dir, p, k);
    }
  }

  /** The rule at step k of the extended walk: an old step, or the new last one. */
  lemma RuleStep(mask: seq<real>, width: int, height: int, threshold: real,
                 visited: set<int>, c: seq<Point>, dir: int, p: Point, k: int)
    requires FollowsRule(mask, width, height, threshold, visited, c)
    requires 0 <= dir < 4 && 0 <= k < |c|
    requires p == Step(c[|c| - 1], dir)
    requires NextDir(mask, width, height, threshold, visited + IndexSet(c, width),
                     c[|c| - 1], ArrivalDir(c, |c| - 1), 0) == Some(dir)
    ensures NextDir(mask, width, height, threshold, visited + IndexSet((c + [p])[..k + 1], width),
                    (c + [p])[k], ArrivalDir(c + [p], k), 0)
            == Some(DirBetween((c + [p])[k], (c + [p])[k + 1]))
  {
    if k < |c| - 1 {
      RuleKept(mask, width, height, threshold, visited, c, p, k);
    } else {
      RuleAtEnd(mask, width, height, threshold, visited, c, dir, p, k);
    }
  }

  /** The appended point is the one the rule picks from the old last point. */
  lemma RuleAtEnd(mask: seq<real>, width: int, height: int, threshold: real,
                  visited: set<int>, c: seq<Point>, dir: int, p: Point, k: int)
    requires k == |c| - 1 && 0 <= k && 0 <= dir < 4 && p == Step(c[k], dir)
    requires NextDir(mask, width, height, threshold, visited + IndexSet(c, width),
                     c[k], ArrivalDir(c, k), 0) == Some(dir)
    ensures NextDir(mask, width, height, threshold, visited + IndexSet((c + [p])[..k + 1], width),
                    (c + [p])[k], ArrivalDir(c + [p], k), 0)
            == Some(DirBetween((c + [p])[k], (c + [p])[k + 1]))
  {
    var c' := c + [p];
    StepDirBetween(c[k], dir);
    assert c'[..k + 1] == c;
    assert ArrivalDir(c', k) == ArrivalDir(c, k);
    assert c'[k] == c[k] && c'[k + 1] == p;
  }

  /** Appending a point leaves the rule at every earlier step as it was. */
  lemma RuleKept(mask: seq<real>, width: int, height: int, threshold: real,
                 visited: set<int>, c: seq<Point>, p: Point, k: int)
    requires FollowsRule(mask, width, height, threshold, visited, c)
    requires 0 <= k < |c| - 1
    ensures NextDir(mask, width, height, threshold, visited + IndexSet((c + [p])[..k + 1], width),
                    (c + [p])[k], ArrivalDir(c + [p], k), 0)
            == Some(DirBetween((c + [p])[k], (c + [p])[k + 1]))
  {
    var c' := c + [p];
    assert c'[..k + 1] == c[..k + 1];
    assert ArrivalDir(c', k) == ArrivalDir(c, k);
    assert c'[k] == c[k] && c'[k + 1] == c[k + 1];
  }

  /** One iteration of the do-while body: the walk grows by the chosen pixel. */
  lemma ExtendWalk(mask: seq<real>, width: int, height: int, threshold: real,
                   visited: set<int>, c: seq<Point>, dir: int, p: Point)
    requires IsWalk(mask, width, height, threshold, visited, c)
    requires 0 <= dir < 4 && InBounds(p, width, height)
    requires Index(p, width) !in visited + IndexSet(c, width)
    requires |c| > 0 ==> p == Step(c[|c| - 1], dir) && IsForeground(mask, width, height, threshold, p)
                         && NextDir(mask, width, height, threshold, visited + IndexSet(c, width),
                                    c[|c| - 1], ArrivalDir(c, |c| - 1), 0) == Some(dir)
    ensures IsWalk(mask, width, height, threshold, visited, c + [p])
    ensures IndexSet(c + [p], width) == IndexSet(c, width) + {Index(p, width)}
    ensures |c| > 0 ==> ArrivalDir(c + [p], |c|) == dir
  {
    if |c| > 0 {
      StepDirBetween(c[|c| - 1], dir);
    }
    ExtendPath(mask, width, height, threshold, c, p);
    ExtendRule(mask, width, height, threshold, visited, c, dir, p);
    AppendIndexSet(c, p, width);
    var c' := c + [p];
    forall k | 0 <= k < |c'|
      ensures Index(c'[k], width) !in visited
    {
      if k < |c| { assert c'[k] == c[k]; }
    }
  }

  /**
   * `traceContour`: the do-while walk from (startX, startY), sharing the
   * `visited` set with its caller (returned updated, as the caller's Set
   * object is after the call).
   */
  method TraceContour(mask: seq<real>, width: nat, height: nat, startX: int, startY: int,
                      visited: set<int>, threshold: real)
    returns (contour: seq<Point>, visitedAfter: set<int>)
    // the walk is bounded by the step cap
    ensures |contour| <= MaxContourLength(width, height) + 1
    // it is empty exactly when the start is out of bounds or already visited
    ensures |contour| == 0 <==> !InBounds(Point(startX, startY), width, height)
                                || Index(Point(startX, startY), width) in visited
    ensures |contour| > 0 ==> contour[0] == Point(startX, startY)
    // in bounds, foreground after the seed, unit steps, no repeats, first-free-neighbour rule
    ensures IsWalk(mask, width, height, threshold, visited, contour)
    ensures visitedAfter == visited + IndexSet(contour, width)
    // a walk shorter than the cap ended because no free neighbour was left
    ensures 0 < |contour| <= MaxContourLength(width, height) ==>
              NextDir(mask, width, height, threshold, visitedAfter, contour[|contour| - 1],
                      ArrivalDir(contour, |contour| - 1), 0) == None
    // and it is the walk the rule defines
    ensures contour == Walk(mask, width, height, threshold, visited, Point(startX, startY), 0,
                            MaxContourLength(width, height))
  {
    contour := [];
    visitedAfter := visited;
    var x, y := startX, startY;
    var dir := 0;
    var maxContourLength := MaxContourLength(width, height);
    var steps := 0;
    ghost var walk := Walk(mask, width, height, threshold, visited, Point(startX, startY), 0, maxContourLength);

    while true
      invariant steps == |contour| <= maxContourLength
      invariant Tracing(mask, width, height, threshold, visited, startX, startY, contour, visitedAfter, x, y, dir)
      invariant contour + Walk(mask, width, height, threshold, visitedAfter, Point(x, y), dir,
                               MaxContourLength(width, height) - |contour|) == walk
      decreases maxContourLength - steps
    {
      // out of bounds, or already visited: both checks break out of the loop
      if x < 0 || x >= width || y < 0 || y >= height || Index(Point(x, y), width) in visitedAfter {
        TraceBlocked(mask, width, height, threshold, visited, startX, startY, contour, visitedAfter, x, y, dir,
                     walk, MaxContourLength(width, height) - |contour|);
        break;
      }
      var more;
      contour, visitedAfter, x, y, dir, more := TraceStep(mask, width, height, threshold, visited, startX, startY,
                                                         contour, visitedAfter, x, y, dir, walk);
      steps := steps + 1;
      if !more {
        break;
      }
    }
  }

  /**
   * The rest of the do-while body once (x, y) passed the bounds and visited
   * checks: push the pixel, stop at the step cap, otherwise look for the
   * next free neighbour; `more` is false when the walk stops here. The
   * loop condition `x !== startX || y !== startY` always holds after a
   * move, since the start pixel is visited and the walk never re-enters it.
   */
  method TraceStep(mask: seq<real>, width: nat, height: nat, threshold: real, visited: set<int>,
                   startX: int, startY: int, contour: seq<Point>, visitedAfter: set<int>, x: int, y: int, dir: int,
                   ghost walk: seq<Point>)
    returns (contour': seq<Point>, visitedAfter': set<int>, x': int, y': int, dir': int, more: bool)
    requires |contour| <= MaxContourLength(width, height)
    requires Tracing(mask, width, height, threshold, visited, startX, startY, contour, visitedAfter, x, y, dir)
    requires InBounds(Point(x, y), width, height) && Index(Point(x, y), width) !in visitedAfter
    requires contour + Walk(mask, width, height, threshold, visitedAfter, Point(x, y), dir,
                            MaxContourLength(width, height) - |contour|) == walk
    ensures contour' == contour + [Point(x, y)]
    ensures more ==> |contour'| <= MaxContourLength(width, height)
                     && Tracing(mask, width, height, threshold, visited, startX, startY, contour', visitedAfter', x', y', dir')
                     && contour' + Walk(mask, width, height, threshold, visitedAfter', Point(x', y'), dir',
                                        MaxContourLength(width, height) - |contour'|) == walk
                     && Point(x', y') != Point(startX, startY)
    ensures !more ==> contour' == walk
                      && visitedAfter' == visited + IndexSet(contour', width)
                      && IsWalk(mask, width, height, threshold, visited, contour')
                      && contour'[0] == Point(startX, startY) && InBounds(Point(startX, startY), width, height)
                      && Index(Point(startX, startY), width) !in visited
    ensures !more && |contour'| <= MaxContourLength(width, height) ==>
              NextDir(mask, width, height, threshold, visitedAfter', contour'[|contour'| - 1],
                      ArrivalDir(contour', |contour'| - 1), 0) == None
  {
    var fuel := MaxContourLength(width, height) - |contour|;
    WalkGrows(mask, width, height, threshold, visitedAfter, Point(x, y), dir, fuel, contour, walk);
    contour', visitedAfter' := GrowContour(mask, width, height, threshold, visited, startX, startY,
                                           contour, visitedAfter, x, y, dir);
    x', y', dir' := x, y, dir;
    if |contour'| > MaxContourLength(width, height) {
      return contour', visitedAfter', x', y', dir', false;
    }

    // Find the next boundary pixel.
    var found, nx, ny, nextDir := FindNext(mask, width, height, threshold, visitedAfter', x, y, dir);
    if !found {
      return contour', visitedAfter', x', y', dir', false;
    }
    x', y', dir' := nx, ny, nextDir;
    assert Index(Point(startX, startY), width) in visitedAfter';
    more := true;
  }

  /**
   * The walk of `traceContour` as a function: from pixel p, entered in
   * direction dir, with `fuel` more steps left under the cap. A pixel
   * outside the grid or already visited ends the walk before it is
   * pushed; otherwise it is pushed and the walk moves on to the first free
   * neighbour, until none is left or the fuel runs out.
   */
  function Walk(mask: seq<real>, width: int, height: int, threshold: real,
                visited: set<int>, p: Point, dir: int, fuel: nat): seq<Point>
    requires 0 <= dir < 4
    decreases fuel
  {
    if !InBounds(p, width, height) || Index(p, width) in visited then []
    else if fuel == 0 then [p]
    else match NextDir(mask, width, height, threshold, visited + {Index(p, width)}, p, dir, 0)
      case None => [p]
      case Some(d) => [p] + Walk(mask, width, height, threshold, visited + {Index(p, width)}, Step(p, d), d, fuel - 1)
  }

  /**
   * One unfolding of Walk at a pixel that is pushed, after the points
   * `done`: the walk ends there, or goes on at the rule's next pixel.
   */
  lemma WalkGrows(mask: seq<real>, width: int, height: int, threshold: real,
                  visited: set<int>, p: Point, dir: int, fuel: nat, done: seq<Point>, walk: seq<Point>)
    requires 0 <= dir < 4 && InBounds(p, width, height) && Index(p, width) !in visited
    requires done + Walk(mask, width, height, threshold, visited, p, dir, fuel) == walk
    ensures var next := NextDir(mask, width, height, threshold, visited + {Index(p, width)}, p, dir, 0);
      if fuel == 0 || next.None? then done + [p] == walk
      else (done + [p]) + Walk(mask, width, height, threshold, visited + {Index(p, width)},
                               Step(p, next.value), next.value, fuel - 1) == walk
  {
    var next := NextDir(mask, width, height, threshold, visited + {Index(p, width)}, p, dir, 0);
    if fuel == 0 || next.None? {
      assert Walk(mask, width, height, threshold, visited, p, dir, fuel) == [p];
    } else {
      var rest := Walk(mask, width, height, threshold, visited + {Index(p, width)}, Step(p, next.value), next.value, fuel - 1);
      assert Walk(mask, width, height, threshold, visited, p, dir, fuel) == [p] + rest;
      assert done + ([p] + rest) == (done + [p]) + rest;
    }
  }

  /** The loop stops before growing: (x, y) is outside the grid or visited, which only the start can be. */
  lemma TraceBlocked(mask: seq<real>, width: int, height: int, threshold: real, visited: set<int>,
                     startX: int, startY: int, contour: seq<Point>, visitedAfter: set<int>, x: int, y: int, dir: int,
                     walk: seq<Point>, fuel: nat)
    requires Tracing(mask, width, height, threshold, visited, startX, startY, contour, visitedAfter, x, y, dir)
    requires !InBounds(Point(x, y), width, height) || Index(Point(x, y), width) in visitedAfter
    requires contour + Walk(mask, width, height, threshold, visitedAfter, Point(x, y), dir, fuel) == walk
    ensures contour == [] && visitedAfter == visited && walk == []
    ensures !InBounds(Point(startX, startY), width, height) || Index(Point(startX, startY), width) in visited
  {
    if |contour| > 0 {
      assert false;
    }
    assert IndexSet(contour, width) == {};
  }

  /** The invariant of the walk in `traceContour`, (x, y) being the pixel to try next. */
  ghost predicate Tracing(mask: seq<real>, width: int, height: int, threshold: real, visited: set<int>,
                          startX: int, startY: int, contour: seq<Point>, visitedAfter: set<int>, x: int, y: int, dir: int)
  {
    && 0 <= dir < 4
    && visitedAfter == visited + IndexSet(contour, width)
    && IsWalk(mask, width, height, threshold, visited, contour)
    && (|contour| == 0 ==> x == startX && y == startY && dir == 0)
    && (|contour| > 0 ==> contour[0] == Point(startX, startY)
                          && InBounds(Point(startX, startY), width, height)
                          && Index(Point(startX, startY), width) !in visited)
    && (|contour| > 0 ==>
          Point(x, y) == Step(contour[|contour| - 1], dir)
          && IsFree(mask, width, height, threshold, visitedAfter, Point(x, y))
          && NextDir(mask, width, height, threshold, visitedAfter, contour[|contour| - 1],
                     ArrivalDir(contour, |contour| - 1), 0) == Some(dir))
  }

  /** The first half of the do-while body: the pixel (x, y) joins the contour and the visited set. */
  method GrowContour(mask: seq<real>, width: nat, height: nat, threshold: real, visited: set<int>,
                     startX: int, startY: int, contour: seq<Point>, visitedAfter: set<int>, x: int, y: int, dir: int)
    returns (contour': seq<Point>, visitedAfter': set<int>)
    requires Tracing(mask, width, height, threshold, visited, startX, startY, contour, visitedAfter, x, y, dir)
    requires InBounds(Point(x, y), width, height) && Index(Point(x, y), width) !in visitedAfter
    ensures contour' == contour + [Point(x, y)] && visitedAfter' == visitedAfter + {Index(Point(x, y), width)}
    ensures visitedAfter' == visited + IndexSet(contour', width)
    ensures IsWalk(mask, width, height, threshold, visited, contour')
    ensures contour'[0] == Point(startX, startY) && InBounds(Point(startX, startY), width, height)
            && Index(Point(startX, startY), width) !in visited
    ensures ArrivalDir(contour', |contour'| - 1) == dir && 0 <= dir < 4
    ensures forall nextDir ::
              (0 <= nextDir < 4 && NextDir(mask, width, height, threshold, visitedAfter', Point(x, y), dir, 0) == Some(nextDir)) ==>
              Tracing(mask, width, height, threshold, visited, startX, startY, contour', visitedAfter',
                      Step(Point(x, y), nextDir).x, Step(Point(x, y), nextDir).y, nextDir)
  {
    ExtendWalk(mask, width, height, threshold, visited, contour, dir, Point(x, y));
    contour' := contour + [Point(x, y)];
    visitedAfter' := visitedAfter + {Index(Point(x, y), width)};
  }

  /** The state of the scan of `extractContours`: the contours kept and the shared `visited` set. */
  datatype Scan = Scan(contours: seq<seq<Point>>, visited: set<int>)

  /**
   * One pixel of the scan: a pixel above the threshold that no earlier walk
   * visited seeds a walk; its pixels become visited, and it is kept when it
   * has more than two points.
   */
  function ScanStep(mask: seq<real>, width: nat, height: nat, threshold: real, s: Scan, p: Point): Scan {
    var index := Index(p, width);
    if Above(mask, index, threshold) && index !in s.visited then
      var c := Walk(mask, width, height, threshold, s.visited, p, 0, MaxContourLength(width, height));
      Scan(if |c| > 2 then s.contours + [c] else s.contours, s.visited + IndexSet(c, width))
    else s
  }

  /** The scan after the first k pixels in row-major order. */
  function ScanUpTo(mask: seq<real>, width: nat, height: nat, threshold: real, k: nat): Scan
    requires k <= width * height
  {
    if k == 0 || width == 0 then Scan([], {})
    else ScanStep(mask, width, height, threshold, ScanUpTo(mask, width, height, threshold, k - 1),
                  GridPosition(k - 1, width, height))
  }

  /** The contours `extractContours` returns. */
  function ExtractedContours(mask: seq<real>, width: nat, height: nat, threshold: real): seq<seq<Point>> {
    ScanUpTo(mask, width, height, threshold, width * height).contours
  }

  /** The walk seeded at buffer index k, when the scan starts one there. */
  function SeedWalk(mask: seq<real>, width: nat, height: nat, threshold: real, k: nat): seq<Point>
    requires k < width * height
  {
    Walk(mask, width, height, threshold, ScanUpTo(mask, width, height, threshold, k).visited,
         GridPosition(k, width, height), 0, MaxContourLength(width, height))
  }

  /** The scan starts a walk at index k and keeps it. */
  predicate KeptSeed(mask: seq<real>, width: nat, height: nat, threshold: real, k: nat)
    requires k < width * height
  {
    Above(mask, k, threshold) && k !in ScanUpTo(mask, width, height, threshold, k).visited
    && |SeedWalk(mask, width, height, threshold, k)| > 2
  }

  /** Later pixels only append contours and only add visited pixels. */
  lemma {:induction false} ScanGrows(mask: seq<real>, width: nat, height: nat, threshold: real, k: nat, n: nat)
    requires k <= n <= width * height
    ensures var a, b := ScanUpTo(mask, width, height, threshold, k), ScanUpTo(mask, width, height, threshold, n);
      |a.contours| <= |b.contours| && b.contours[..|a.contours|] == a.contours && a.visited <= b.visited
    decreases n - k
  {
    if k < n {
      ScanGrows(mask, width, height, threshold, k + 1, n);
      var s := ScanUpTo(mask, width, height, threshold, k);
      var t := ScanUpTo(mask, width, height, threshold, k + 1);
      assert |s.contours| <= |t.contours| && t.contours[..|s.contours|] == s.contours;
    }
  }

  /** Every pixel above the threshold is visited by the time the scan has passed it. */
  lemma {:induction false} ScanCovers(mask: seq<real>, width: nat, height: nat, threshold: real, n: nat, j: nat)
    requires j < n <= width * height && Above(mask, j, threshold)
    ensures j in ScanUpTo(mask, width, height, threshold, n).visited
  {
    ScanGrows(mask, width, height, threshold, j + 1, n);
    var s := ScanUpTo(mask, width, height, threshold, j);
    var p := GridPosition(j, width, height);
    if j !in s.visited {
      var c := Walk(mask, width, height, threshold, s.visited, p, 0, MaxContourLength(width, height));
      assert c[0] == p;
      assert j in IndexSet(c, width);
    }
  }

  /** One more pixel appends its walk exactly when it is a kept seed. */
  lemma ScanStepContours(mask: seq<real>, width: nat, height: nat, threshold: real, k: nat)
    requires k < width * height
    ensures ScanUpTo(mask, width, height, threshold, k + 1).contours
            == ScanUpTo(mask, width, height, threshold, k).contours
               + (if KeptSeed(mask, width, height, threshold, k) then [SeedWalk(mask, width, height, threshold, k)] else [])
  {
    var p := GridPosition(k, width, height);
    assert Index(p, width) == k;
  }

  /**
   * The contours after n pixels are exactly the walks kept at the seeds
   * before n.
   */
  lemma ScanContours(mask: seq<real>, width: nat, height: nat, threshold: real, n: nat, c: seq<Point>)
    requires n <= width * height
    ensures c in ScanUpTo(mask, width, height, threshold, n).contours <==>
              exists k :: 0 <= k < n && KeptSeed(mask, width, height, threshold, k)
                          && SeedWalk(mask, width, height, threshold, k) == c
  {
    if c in ScanUpTo(mask, width, height, threshold, n).contours {
      ScanContoursSound(mask, width, height, threshold, n, c);
    }
    if exists k :: 0 <= k < n && KeptSeed(mask, width, height, threshold, k)
                   && SeedWalk(mask, width, height, threshold, k) == c {
      var k :| 0 <= k < n && KeptSeed(mask, width, height, threshold, k)
               && SeedWalk(mask, width, height, threshold, k) == c;
      ScanContoursComplete(mask, width, height, threshold, n, k);
    }
  }

  /** Every contour after n pixels is the walk of a kept seed before n. */
  lemma {:induction false} ScanContoursSound(mask: seq<real>, width: nat, height: nat, threshold: real, n: nat, c: seq<Point>)
    requires n <= width * height && c in ScanUpTo(mask, width, height, threshold, n).contours
    ensures exists k :: 0 <= k < n && KeptSeed(mask, width, height, threshold, k)
                        && SeedWalk(mask, width, height, threshold, k) == c
  {
    ScanStepContours(mask, width, height, threshold, n - 1);
    if c in ScanUpTo(mask, width, height, threshold, n - 1).contours {
      ScanContoursSound(mask, width, height, threshold, n - 1, c);
    } else {
      assert KeptSeed(mask, width, height, threshold, n - 1) && SeedWalk(mask, width, height, threshold, n - 1) == c;
    }
  }

  /** The walk of every kept seed before n is among the contours after n pixels. */
  lemma ScanContoursComplete(mask: seq<real>, width: nat, height: nat, threshold: real, n: nat, k: nat)
    requires k < n <= width * height && KeptSeed(mask, width, height, threshold, k)
    ensures SeedWalk(mask, width, height, threshold, k) in ScanUpTo(mask, width, height, threshold, n).contours
  {
    ScanStepContours(mask, width, height, threshold, k);
    ScanGrows(mask, width, height, threshold, k + 1, n);
    var cs := ScanUpTo(mask, width, height, threshold, k + 1).contours;
    assert cs[|cs| - 1] == SeedWalk(mask, width, height, threshold, k);
    assert ScanUpTo(mask, width, height, threshold, n).contours[|cs| - 1] == cs[|cs| - 1];
  }

  /** Every contour the scan keeps has more than two points. */
  lemma ExtractedContoursLong(mask: seq<real>, width: nat, height: nat, threshold: real)
    ensures var cs := ExtractedContours(mask, width, height, threshold);
      forall i :: 0 <= i < |cs| ==> |cs[i]| > 2
  {
    var cs := ExtractedContours(mask, width, height, threshold);
    forall i | 0 <= i < |cs|
      ensures |cs[i]| > 2
    {
      ScanContours(mask, width, height, threshold, width * height, cs[i]);
    }
  }

  /** An empty grid yields no contour. */
  lemma ExtractedNeedsGrid(mask: seq<real>, width: nat, height: nat, threshold: real)
    ensures ExtractedContours(mask, width, height, threshold) != [] ==> 0 < width && 0 < height
  {
    if width == 0 || height == 0 {
      assert width * height == 0;
    }
  }

  /**
   * The first pixel above the threshold seeds a walk from the empty
   * visited set; when that walk has more than two points the scan returns
   * at least one contour.
   */
  lemma FirstSeedKept(mask: seq<real>, width: nat, height: nat, threshold: real, j: nat)
    requires j < width * height && Above(mask, j, threshold)
    requires forall i :: 0 <= i < j ==> !Above(mask, i, threshold)
    requires |Walk(mask, width, height, threshold, {}, GridPosition(j, width, height), 0, MaxContourLength(width, height))| > 2
    ensures ExtractedContours(mask, width, height, threshold) != []
  {
    ScanEmptyBefore(mask, width, height, threshold, j);
    ScanGrows(mask, width, height, threshold, j + 1, width * height);
  }

  lemma {:induction false} ScanEmptyBefore(mask: seq<real>, width: nat, height: nat, threshold: real, j: nat)
    requires j <= width * height
    requires forall i :: 0 <= i < j ==> !Above(mask, i, threshold)
    ensures ScanUpTo(mask, width, height, threshold, j) == Scan([], {})
  {
    if j > 0 && width > 0 {
      ScanEmptyBefore(mask, width, height, threshold, j - 1);
    }
  }

  /** What `extractContours` keeps: the invariant of its scan. */
  ghost predicate ContoursSoFar(mask: seq<real>, width: int, height: int, threshold: real,
                                visited: set<int>, contours: seq<seq<Point>>)
  {
    && (forall i :: 0 <= i < |contours| ==> 2 < |contours[i]| <= MaxContourLength(width, height) + 1)
    && (forall i :: 0 <= i < |contours| ==> IsForeground(mask, width, height, threshold, contours[i][0]))
    && (forall i :: 0 <= i < |contours| ==> IsPath(mask, width, height, threshold, contours[i]))
    && (forall i, j :: 0 <= i < j < |contours| ==> IndexSet(contours[i], width) !! IndexSet(contours[j], width))
    && (forall i :: 0 <= i < |contours| ==> IndexSet(contours[i], width) <= visited)
    && (forall i, j :: 0 <= i < j < |contours| ==> Index(contours[i][0], width) < Index(contours[j][0], width))
  }

  /**
   * `extractContours`: scan the pixels row by row; start a walk at every
   * foreground pixel not yet visited by an earlier walk, and keep the walks
   * of more than two points.
   */
  method ExtractContours(mask: seq<real>, width: nat, height: nat, threshold: real)
    returns (contours: seq<seq<Point>>)
    ensures forall i :: 0 <= i < |contours| ==> 2 < |contours[i]| <= MaxContourLength(width, height) + 1
    // every point is a foreground pixel, consecutive points are 4-neighbours
    ensures forall i, k :: 0 <= i < |contours| && 0 <= k < |contours[i]| ==>
              IsForeground(mask, width, height, threshold, contours[i][k])
    ensures forall i, k :: 0 <= i < |contours| && 0 <= k < |contours[i]| - 1 ==>
              Adjacent(contours[i][k], contours[i][k + 1])
    // no pixel appears twice, within a contour or across contours
    ensures forall i :: 0 <= i < |contours| ==> DistinctIndices(contours[i], width)
    ensures forall i, j :: 0 <= i < j < |contours| ==>
              IndexSet(contours[i], width) !! IndexSet(contours[j], width)
    // contours come in row-major order of their seed pixels
    ensures forall i, j :: 0 <= i < j < |contours| ==>
              Index(contours[i][0], width) < Index(contours[j][0], width)
    // they are the walks kept by the scan
    ensures contours == ExtractedContours(mask, width, height, threshold)
  {
    contours := [];
    var visited: set<int> := {};
    var y := 0;
    assert height * width == width * height;
    while y < height
      invariant 0 <= y <= height
      invariant ContoursSoFar(mask, width, height, threshold, visited, contours)
      invariant SeedsBefore(contours, width, y * width)
      invariant y * width <= width * height
      invariant Scan(contours, visited) == ScanUpTo(mask, width, height, threshold, y * width)
    {
      visited, contours := ScanRow(mask, width, height, threshold, y, visited, contours);
      y := y + 1;
    }
    forall i, k | 0 <= i < |contours| && 0 <= k < |contours[i]|
      ensures IsForeground(mask, width, height, threshold, contours[i][k])
    {
      assert IsPath(mask, width, height, threshold, contours[i]);
    }
  }

  /** The inner scan loop over row y. */
  method ScanRow(mask: seq<real>, width: nat, height: nat, threshold: real, y: nat,
                 visited: set<int>, contours: seq<seq<Point>>)
    returns (visited': set<int>, contours': seq<seq<Point>>)
    requires y < height
    requires ContoursSoFar(mask, width, height, threshold, visited, contours)
    requires SeedsBefore(contours, width, y * width)
    requires Scan(contours, visited) == ScanUpTo(mask, width, height, threshold, y * width)
    ensures ContoursSoFar(mask, width, height, threshold, visited', contours')
    ensures SeedsBefore(contours', width, (y + 1) * width)
    ensures (y + 1) * width <= width * height
    ensures Scan(contours', visited') == ScanUpTo(mask, width, height, threshold, (y + 1) * width)
  {
    MulMonotone(y + 1, height, width);
    assert (y + 1) * width == y * width + width;
    visited', contours' := visited, contours;
    var x := 0;
    while x < width
      invariant 0 <= x <= width
      invariant ContoursSoFar(mask, width, height, threshold, visited', contours')
      invariant SeedsBefore(contours', width, y * width + x)
      invariant Scan(contours', visited') == ScanUpTo(mask, width, height, threshold, y * width + x)
    {
      assert y * width + x < height * width == width * height;
      visited', contours' := ScanPixel(mask, width, height, threshold, x, y, visited', contours');
      x := x + 1;
    }
  }

  /** Every contour so far was seeded at a buffer index below bound. */
  ghost predicate SeedsBefore(contours: seq<seq<Point>>, width: int, bound: int) {
    forall i :: 0 <= i < |contours| ==> |contours[i]| > 0 && Index(contours[i][0], width) < bound
  }

  /**
   * One pass of the inner scan loop at pixel (x, y): an unvisited pixel
   * above the threshold seeds a walk, which is kept when it has more than
   * two points; its pixels are visited either way.
   */
  method ScanPixel(mask: seq<real>, width: nat, height: nat, threshold: real, x: nat, y: nat,
                   visited: set<int>, contours: seq<seq<Point>>)
    returns (visited': set<int>, contours': seq<seq<Point>>)
    requires x < width && y < height
    requires ContoursSoFar(mask, width, height, threshold, visited, contours)
    requires SeedsBefore(contours, width, y * width + x)
    requires y * width + x < width * height
    requires Scan(contours, visited) == ScanUpTo(mask, width, height, threshold, y * width + x)
    ensures ContoursSoFar(mask, width, height, threshold, visited', contours')
    ensures SeedsBefore(contours', width, y * width + x + 1)
    ensures Scan(contours', visited') == ScanUpTo(mask, width, height, threshold, y * width + x + 1)
  {
    ScanNext(mask, width, height, threshold, x, y);
    visited', contours' := visited, contours;
    var p := Point(x, y);
    var index := Index(p, width);
    assert index == y * width + x;
    if Above(mask, index, threshold) && index !in visited {
      var contour, after := TraceContour(mask, width, height, x, y, visited, threshold);
      ScanStepSeeded(mask, width, height, threshold, Scan(contours, visited), p, contour);
      SeededStep(mask, width, height, threshold, visited, contours, p, contour, after);
      if |contour| > 2 {
        contours' := contours + [contour];
      }
      visited' := after;
    }
    assert Scan(contours', visited') == ScanStep(mask, width, height, threshold, Scan(contours, visited), p);
  }

  /** The walk from an unvisited foreground seed keeps the scan invariant, whether it is kept or not. */
  lemma SeededStep(mask: seq<real>, width: int, height: int, threshold: real, visited: set<int>,
                   contours: seq<seq<Point>>, p: Point, contour: seq<Point>, visited': set<int>)
    requires ContoursSoFar(mask, width, height, threshold, visited, contours)
    requires SeedsBefore(contours, width, Index(p, width))
    requires IsForeground(mask, width, height, threshold, p)
    requires 0 < |contour| <= MaxContourLength(width, height) + 1 && contour[0] == p
    requires IsWalk(mask, width, height, threshold, visited, contour)
    requires visited' == visited + IndexSet(contour, width)
    ensures var cs := if |contour| > 2 then contours + [contour] else contours;
      ContoursSoFar(mask, width, height, threshold, visited', cs) && SeedsBefore(cs, width, Index(p, width) + 1)
  {
    if |contour| > 2 {
      AddContour(mask, width, height, threshold, visited, contours, contour, visited');
    }
  }

  /** A kept walk extends the scan invariant (its seed comes after all earlier seeds). */
  lemma AddContour(mask: seq<real>, width: int, height: int, threshold: real, visited: set<int>,
                   contours: seq<seq<Point>>, contour: seq<Point>, visited': set<int>)
    requires ContoursSoFar(mask, width, height, threshold, visited, contours)
    requires 2 < |contour| <= MaxContourLength(width, height) + 1
    requires IsForeground(mask, width, height, threshold, contour[0])
    requires IsWalk(mask, width, height, threshold, visited, contour)
    requires visited' == visited + IndexSet(contour, width)
    requires SeedsBefore(contours, width, Index(contour[0], width))
    ensures ContoursSoFar(mask, width, height, threshold, visited', contours + [contour])
  {
    var cs := contours + [contour];
    forall i | 0 <= i < |contours|
      ensures IndexSet(contours[i], width) !! IndexSet(contour, width)
    {
    }
  }

  /** A seeded pixel appends its walk when that has more than two points, and visits its pixels. */
  lemma ScanStepSeeded(mask: seq<real>, width: nat, height: nat, threshold: real, s: Scan, p: Point, c: seq<Point>)
    requires Above(mask, Index(p, width), threshold) && Index(p, width) !in s.visited
    requires c == Walk(mask, width, height, threshold, s.visited, p, 0, MaxContourLength(width, height))
    ensures ScanStep(mask, width, height, threshold, s, p)
            == Scan(if |c| > 2 then s.contours + [c] else s.contours, s.visited + IndexSet(c, width))
  {
  }

  /** The scan's pixel number y * width + x is (x, y). */
  lemma ScanNext(mask: seq<real>, width: nat, height: nat, threshold: real, x: nat, y: nat)
    requires x < width && y < height
    ensures y * width + x < width * height
    ensures ScanUpTo(mask, width, height, threshold, y * width + x + 1)
            == ScanStep(mask, width, height, threshold, ScanUpTo(mask, width, height, threshold, y * width + x), Point(x, y))
  {
    ScanPosition(width, height, x, y);
  }

  /** Pixel (x, y) is the scan's pixel number y * width + x. */
  lemma ScanPosition(width: nat, height: nat, x: nat, y: nat)
    requires x < width && y < height
    ensures y * width + x < width * height
    ensures GridPosition(y * width + x, width, height) == Point(x, y)
  {
    IndexInRange(Point(x, y), width, height);
    var p := GridPosition(y * width + x, width, height);
    IndexInjective(p, Point(x, y), width, height);
  }

  /** The pixels above the threshold are exactly those whose buffer indices are in `on`. */
  predicate ExactlyAbove(mask: seq<real>, threshold: real, on: set<int>) {
    forall i :: 0 <= i < |mask| ==> (mask[i] > threshold <==> i in on)
  }

  /** In a grid of at least 2 x 2, the pixels (1, 0), (0, 1), (1, 1) and (0, 2) have buffer indices below width * height or leave it. */
  lemma CornerIndices(width: nat, height: nat)
    requires 2 <= width && 2 <= height
    ensures width + 1 < width * height && 2 * width <= width * height
    ensures Index(Point(1, 0), width) == 1 && Index(Point(0, 1), width) == width
    ensures Index(Point(1, 1), width) == width + 1 && Index(Point(0, 0), width) == 0
  {
    assert width * height == width * (height - 2) + 2 * width;
  }

  /**
   * Three pixels above the threshold in an L in the top-left corner of a
   * grid of any size from 2 x 2 up, every other pixel below it: the walk
   * from the corner goes down and stops after two points, the walk from the
   * right-hand pixel stops after one, so no contour is returned.
   */
  lemma CornerHasNoContour(mask: seq<real>, width: nat, height: nat, threshold: real)
    requires 2 <= width && 2 <= height && |mask| == width * height
    requires ExactlyAbove(mask, threshold, {0, 1, width})
    ensures ExtractedContours(mask, width, height, threshold) == []
  {
    var s := CornerScan(mask, width, height, threshold);
    forall j | 2 <= j < width * height
      ensures j in s.visited || !Above(mask, j, threshold)
    {
    }
    ScanRestSkipped(mask, width, height, threshold, 2, s);
  }

  /** After the L's top row the scan holds no contour and has visited the whole L. */
  lemma CornerScan(mask: seq<real>, width: nat, height: nat, threshold: real) returns (s: Scan)
    requires 2 <= width && 2 <= height && |mask| == width * height
    requires ExactlyAbove(mask, threshold, {0, 1, width})
    ensures 2 <= width * height && ScanUpTo(mask, width, height, threshold, 2) == s
    ensures s == Scan([], {0, width, 1})
  {
    CornerIndices(width, height);
    var fuel := MaxContourLength(width, height);
    var first := Scan([], {0, width});
    assert ScanUpTo(mask, width, height, threshold, 1) == first by {
      CornerWalk(mask, width, height, threshold, fuel);
      ScanFirstPixel(mask, width, height, threshold, [Point(0, 0), Point(0, 1)]);
      PairIndexSet(Point(0, 0), Point(0, 1), width);
    }
    assert Walk(mask, width, height, threshold, first.visited, Point(1, 0), 0, fuel) == [Point(1, 0)] by {
      CornerRightPixel(mask, width, height, threshold, first.visited, fuel);
    }
    ScanNext(mask, width, height, threshold, 1, 0);
    ScanStepSeeded(mask, width, height, threshold, first, Point(1, 0), [Point(1, 0)]);
    SingleIndexSet(Point(1, 0), width);
    s := Scan([], {0, width, 1});
  }

  /** The walk over the L from its corner: down to (0, 1), where it stops. */
  lemma CornerWalk(mask: seq<real>, width: nat, height: nat, threshold: real, fuel: nat)
    requires 2 <= width && 2 <= height && |mask| == width * height
    requires ExactlyAbove(mask, threshold, {0, 1, width}) && fuel > 0
    ensures Walk(mask, width, height, threshold, {}, Point(0, 0), 0, fuel) == [Point(0, 0), Point(0, 1)]
  {
    CornerIndices(width, height);
    var none: set<int> := {};
    var v := none + {Index(Point(0, 0), width)};
    DownFromTopLeft(mask, width, height, threshold, v);
    CornerFromBottomLeft(mask, width, height, threshold, v, fuel - 1);
    WalkOn(mask, width, height, threshold, none, Point(0, 0), 0, fuel, 0, Point(0, 1), v, [Point(0, 1)]);
  }

  /** From (0, 1) of the L, entered downwards, the walk stops at once. */
  lemma CornerFromBottomLeft(mask: seq<real>, width: nat, height: nat, threshold: real, v: set<int>, fuel: nat)
    requires 2 <= width && 2 <= height && |mask| == width * height
    requires ExactlyAbove(mask, threshold, {0, 1, width}) && 0 in v && width !in v
    ensures Walk(mask, width, height, threshold, v, Point(0, 1), 0, fuel) == [Point(0, 1)]
  {
    CornerIndices(width, height);
    StuckAtBottomLeft(mask, width, height, threshold, v + {width});
    WalkStops(mask, width, height, threshold, v, Point(0, 1), 0, fuel);
  }

  /** The walk from the L's right-hand pixel, its left neighbour visited, is that pixel alone. */
  lemma CornerRightPixel(mask: seq<real>, width: nat, height: nat, threshold: real, v: set<int>, fuel: nat)
    requires 2 <= width && 2 <= height && |mask| == width * height
    requires ExactlyAbove(mask, threshold, {0, 1, width}) && 0 in v && 1 !in v
    ensures Walk(mask, width, height, threshold, v, Point(1, 0), 0, fuel) == [Point(1, 0)]
  {
    CornerIndices(width, height);
    StuckAtTopRightOfL(mask, width, height, threshold, v + {1});
    WalkStops(mask, width, height, threshold, v, Point(1, 0), 0, fuel);
  }

  /** At (0, 1) of the L heading down: the pixel below and (1, 1) are background, (0, 0) is visited, left leaves the grid. */
  lemma StuckAtBottomLeft(mask: seq<real>, width: nat, height: nat, threshold: real, v: set<int>)
    requires 2 <= width && 2 <= height && |mask| == width * height
    requires ExactlyAbove(mask, threshold, {0, 1, width}) && 0 in v
    ensures NextDir(mask, width, height, threshold, v, Point(0, 1), 0, 0) == None
  {
    var p := Point(0, 1);
    assert Step(p, Turn(0, 0)) == Point(0, 2) && Index(Point(0, 2), width) == 2 * width;
    assert Step(p, Turn(0, 1)) == Point(1, 1) && Index(Point(1, 1), width) == width + 1;
    assert Step(p, Turn(0, 2)) == Point(0, 0) && Index(Point(0, 0), width) == 0;
    NoFreeNeighbour(mask, width, height, threshold, v, p, 0);
  }

  /** At (1, 0) of the L heading down: (1, 1) and (2, 0) are background or outside, up leaves the grid, (0, 0) is visited. */
  lemma StuckAtTopRightOfL(mask: seq<real>, width: nat, height: nat, threshold: real, v: set<int>)
    requires 2 <= width && 2 <= height && |mask| == width * height
    requires ExactlyAbove(mask, threshold, {0, 1, width}) && 0 in v
    ensures NextDir(mask, width, height, threshold, v, Point(1, 0), 0, 0) == None
  {
    var p := Point(1, 0);
    assert Step(p, Turn(0, 0)) == Point(1, 1) && Index(Point(1, 1), width) == width + 1;
    assert Step(p, Turn(0, 1)) == Point(2, 0) && Index(Point(2, 0), width) == 2;
    assert Step(p, Turn(0, 3)) == Point(0, 0) && Index(Point(0, 0), width) == 0;
    NoFreeNeighbour(mask, width, height, threshold, v, p, 0);
  }

  /**
   * A 2 x 2 square above the threshold in the top-left corner of a grid of
   * any size from 2 x 2 up, every other pixel below it: the walk from
   * (0, 0) goes down, right and up, visiting all four pixels, and is the
   * only contour.
   */
  lemma FullSquareContour(mask: seq<real>, width: nat, height: nat, threshold: real)
    requires 2 <= width && 2 <= height && |mask| == width * height
    requires ExactlyAbove(mask, threshold, {0, 1, width, width + 1})
    ensures ExtractedContours(mask, width, height, threshold) == [[Point(0, 0), Point(0, 1), Point(1, 1), Point(1, 0)]]
  {
    var s := SquareScan(mask, width, height, threshold);
    forall j | 1 <= j < width * height
      ensures j in s.visited || !Above(mask, j, threshold)
    {
    }
    ScanRestSkipped(mask, width, height, threshold, 1, s);
  }

  /** After its first pixel the scan holds the square's walk and has visited all four pixels. */
  lemma SquareScan(mask: seq<real>, width: nat, height: nat, threshold: real) returns (s: Scan)
    requires 2 <= width && 2 <= height && |mask| == width * height
    requires ExactlyAbove(mask, threshold, {0, 1, width, width + 1})
    ensures 1 <= width * height && ScanUpTo(mask, width, height, threshold, 1) == s
    ensures s == Scan([[Point(0, 0), Point(0, 1), Point(1, 1), Point(1, 0)]], {0, width, width + 1, 1})
  {
    CornerIndices(width, height);
    var c := [Point(0, 0), Point(0, 1), Point(1, 1), Point(1, 0)];
    SquareWalk(mask, width, height, threshold, MaxContourLength(width, height));
    ScanFirstPixel(mask, width, height, threshold, c);
    QuadIndexSet(Point(0, 0), Point(0, 1), Point(1, 1), Point(1, 0), width);
    s := Scan([c], {0, width, width + 1, 1});
  }

  /** The walk over the square, move by move. */
  lemma SquareWalk(mask: seq<real>, width: nat, height: nat, threshold: real, fuel: nat)
    requires 2 <= width && 2 <= height && |mask| == width * height
    requires ExactlyAbove(mask, threshold, {0, 1, width, width + 1}) && fuel >= 3
    ensures Walk(mask, width, height, threshold, {}, Point(0, 0), 0, fuel)
            == [Point(0, 0), Point(0, 1), Point(1, 1), Point(1, 0)]
  {
    CornerIndices(width, height);
    var none: set<int> := {};
    var v := none + {Index(Point(0, 0), width)};
    assert NextDir(mask, width, height, threshold, v, Point(0, 0), 0, 0) == Some(0) by {
      DownFromTopLeft(mask, width, height, threshold, v);
    }
    assert Walk(mask, width, height, threshold, v, Point(0, 1), 0, fuel - 1) == [Point(0, 1), Point(1, 1), Point(1, 0)] by {
      SquareFromBottomLeft(mask, width, height, threshold, v, fuel - 1);
    }
    WalkOn(mask, width, height, threshold, none, Point(0, 0), 0, fuel, 0, Point(0, 1), v,
           [Point(0, 1), Point(1, 1), Point(1, 0)]);
  }

  /** From (0, 1), entered downwards: the pixel below is background or outside, (1, 1) to the right is free. */
  lemma SquareFromBottomLeft(mask: seq<real>, width: nat, height: nat, threshold: real, v: set<int>, fuel: nat)
    requires 2 <= width && 2 <= height && |mask| == width * height
    requires ExactlyAbove(mask, threshold, {0, 1, width, width + 1}) && fuel >= 2
    requires 0 in v && 1 !in v && width !in v && width + 1 !in v
    ensures Walk(mask, width, height, threshold, v, Point(0, 1), 0, fuel) == [Point(0, 1), Point(1, 1), Point(1, 0)]
  {
    CornerIndices(width, height);
    var v' := v + {width};
    RightFromBottomLeft(mask, width, height, threshold, v');
    SquareFromBottomRight(mask, width, height, threshold, v', fuel - 1);
    WalkOn(mask, width, height, threshold, v, Point(0, 1), 0, fuel, 1, Point(1, 1), v', [Point(1, 1), Point(1, 0)]);
  }

  /** From (1, 1), entered rightwards: the pixel to the right is background or outside, (1, 0) above is free. */
  lemma SquareFromBottomRight(mask: seq<real>, width: nat, height: nat, threshold: real, v: set<int>, fuel: nat)
    requires 2 <= width && 2 <= height && |mask| == width * height
    requires ExactlyAbove(mask, threshold, {0, 1, width, width + 1}) && fuel >= 1
    requires 0 in v && 1 !in v && width + 1 !in v
    ensures Walk(mask, width, height, threshold, v, Point(1, 1), 1, fuel) == [Point(1, 1), Point(1, 0)]
  {
    CornerIndices(width, height);
    var v' := v + {width + 1};
    UpFromBottomRight(mask, width, height, threshold, v');
    SquareFromTopRight(mask, width, height, threshold, v', fuel - 1);
    WalkOn(mask, width, height, threshold, v, Point(1, 1), 1, fuel, 2, Point(1, 0), v', [Point(1, 0)]);
  }

  /** From (1, 0), entered upwards: the walk stops there. */
  lemma SquareFromTopRight(mask: seq<real>, width: nat, height: nat, threshold: real, v: set<int>, fuel: nat)
    requires 2 <= width && 2 <= height && |mask| == width * height
    requires ExactlyAbove(mask, threshold, {0, 1, width, width + 1})
    requires 0 in v && 1 !in v && width + 1 in v
    ensures Walk(mask, width, height, threshold, v, Point(1, 0), 2, fuel) == [Point(1, 0)]
  {
    CornerIndices(width, height);
    StuckAtTopRight(mask, width, height, threshold, v + {1});
    WalkStops(mask, width, height, threshold, v, Point(1, 0), 2, fuel);
  }

  /** At (0, 0) heading down, the free pixel (0, 1) is taken at once. */
  lemma DownFromTopLeft(mask: seq<real>, width: nat, height: nat, threshold: real, v: set<int>)
    requires 1 <= width && 2 <= height && Above(mask, width, threshold) && width !in v
    ensures NextDir(mask, width, height, threshold, v, Point(0, 0), 0, 0) == Some(0)
  {
    assert Step(Point(0, 0), Turn(0, 0)) == Point(0, 1) && Index(Point(0, 1), width) == width;
  }

  /** At (0, 1) heading down: the pixel below is background or outside, the free pixel (1, 1) to the right is taken. */
  lemma RightFromBottomLeft(mask: seq<real>, width: nat, height: nat, threshold: real, v: set<int>)
    requires 2 <= width && 2 <= height && |mask| == width * height
    requires ExactlyAbove(mask, threshold, {0, 1, width, width + 1}) && width + 1 !in v
    ensures NextDir(mask, width, height, threshold, v, Point(0, 1), 0, 0) == Some(1)
  {
    CornerIndices(width, height);
    var p := Point(0, 1);
    assert Step(p, Turn(0, 0)) == Point(0, 2) && Index(Point(0, 2), width) == 2 * width;
    assert Step(p, Turn(0, 1)) == Point(1, 1);
  }

  /** At (1, 1) heading right: the pixel to the right is background or outside, the free pixel (1, 0) above is taken. */
  lemma UpFromBottomRight(mask: seq<real>, width: nat, height: nat, threshold: real, v: set<int>)
    requires 2 <= width && 2 <= height && |mask| == width * height
    requires ExactlyAbove(mask, threshold, {0, 1, width, width + 1}) && 1 !in v
    ensures NextDir(mask, width, height, threshold, v, Point(1, 1), 1, 0) == Some(2)
  {
    CornerIndices(width, height);
    var p := Point(1, 1);
    assert Step(p, Turn(1, 0)) == Point(2, 1) && Index(Point(2, 1), width) == width + 2;
    assert Step(p, Turn(1, 1)) == Point(1, 0);
  }

  /** At (1, 0) heading up: up leaves the grid, (0, 0) and (1, 1) are visited, (2, 0) is background or outside. */
  lemma StuckAtTopRight(mask: seq<real>, width: nat, height: nat, threshold: real, v: set<int>)
    requires 2 <= width && 2 <= height && |mask| == width * height
    requires ExactlyAbove(mask, threshold, {0, 1, width, width + 1}) && 0 in v && width + 1 in v
    ensures NextDir(mask, width, height, threshold, v, Point(1, 0), 2, 0) == None
  {
    var p := Point(1, 0);
    assert Step(p, Turn(2, 1)) == Point(0, 0) && Index(Point(0, 0), width) == 0;
    assert Step(p, Turn(2, 2)) == Point(1, 1) && Index(Point(1, 1), width) == width + 1;
    assert Step(p, Turn(2, 3)) == Point(2, 0) && Index(Point(2, 0), width) == 2;
    NoFreeNeighbour(mask, width, height, threshold, v, p, 2);
  }

  /** When none of the four steps reaches a free pixel, the search finds nothing. */
  lemma NoFreeNeighbour(mask: seq<real>, width: int, height: int, threshold: real,
                        visited: set<int>, p: Point, dir: int)
    requires 0 <= dir < 4
    requires !IsFree(mask, width, height, threshold, visited, Step(p, Turn(dir, 0)))
    requires !IsFree(mask, width, height, threshold, visited, Step(p, Turn(dir, 1)))
    requires !IsFree(mask, width, height, threshold, visited, Step(p, Turn(dir, 2)))
    requires !IsFree(mask, width, height, threshold, visited, Step(p, Turn(dir, 3)))
    ensures NextDir(mask, width, height, threshold, visited, p, dir, 0) == None
  {
    assert NextDir(mask, width, height, threshold, visited, p, dir, 3) == None;
    assert NextDir(mask, width, height, threshold, visited, p, dir, 2) == None;
    assert NextDir(mask, width, height, threshold, visited, p, dir, 1) == None;
  }

  /** A walk at an unvisited pixel whose rule finds no free neighbour is that pixel alone. */
  lemma WalkStops(mask: seq<real>, width: int, height: int, threshold: real,
                  visited: set<int>, p: Point, dir: int, fuel: nat)
    requires 0 <= dir < 4 && InBounds(p, width, height) && Index(p, width) !in visited
    requires NextDir(mask, width, height, threshold, visited + {Index(p, width)}, p, dir, 0).None?
    ensures Walk(mask, width, height, threshold, visited, p, dir, fuel) == [p]
  {
  }

  /** A walk at an unvisited pixel, with fuel left, moves on in the rule's direction d. */
  lemma WalkMoves(mask: seq<real>, width: int, height: int, threshold: real,
                  visited: set<int>, p: Point, dir: int, fuel: nat, d: int)
    requires 0 <= dir < 4 && InBounds(p, width, height) && Index(p, width) !in visited && fuel > 0
    requires NextDir(mask, width, height, threshold, visited + {Index(p, width)}, p, dir, 0) == Some(d)
    ensures 0 <= d < 4
    ensures Walk(mask, width, height, threshold, visited, p, dir, fuel)
            == [p] + Walk(mask, width, height, threshold, visited + {Index(p, width)}, Step(p, d), d, fuel - 1)
  {
  }

  /** A walk that moves from p to q, where a walk `rest` starts, is p followed by `rest`. */
  lemma WalkOn(mask: seq<real>, width: int, height: int, threshold: real,
               visited: set<int>, p: Point, dir: int, fuel: nat, d: int, q: Point, visited': set<int>, rest: seq<Point>)
    requires 0 <= dir < 4 && InBounds(p, width, height) && Index(p, width) !in visited && fuel > 0
    requires visited' == visited + {Index(p, width)}
    requires NextDir(mask, width, height, threshold, visited', p, dir, 0) == Some(d) && Step(p, d) == q
    requires Walk(mask, width, height, threshold, visited', q, d, fuel - 1) == rest
    ensures Walk(mask, width, height, threshold, visited, p, dir, fuel) == [p] + rest
  {
    WalkMoves(mask, width, height, threshold, visited, p, dir, fuel, d);
  }

  /** The scan after its first pixel, (0, 0), above the threshold, whose walk is c. */
  lemma ScanFirstPixel(mask: seq<real>, width: nat, height: nat, threshold: real, c: seq<Point>)
    requires 0 < width && 0 < height && Above(mask, 0, threshold)
    requires c == Walk(mask, width, height, threshold, {}, Point(0, 0), 0, MaxContourLength(width, height))
    ensures ScanUpTo(mask, width, height, threshold, 1) == Scan(if |c| > 2 then [c] else [], IndexSet(c, width))
  {
    ScanNext(mask, width, height, threshold, 0, 0);
    ScanStepSeeded(mask, width, height, threshold, Scan([], {}), Point(0, 0), c);
  }

  /** A pixel already visited, or not above the threshold, leaves the scan as it was. */
  lemma ScanSkips(mask: seq<real>, width: nat, height: nat, threshold: real, k: nat)
    requires k < width * height
    requires k in ScanUpTo(mask, width, height, threshold, k).visited || !Above(mask, k, threshold)
    ensures ScanUpTo(mask, width, height, threshold, k + 1) == ScanUpTo(mask, width, height, threshold, k)
  {
  }

  /**
   * Once every pixel from k on was visited or is not above the threshold,
   * the rest of the scan leaves it as it was.
   */
  lemma {:induction false} ScanRestSkipped(mask: seq<real>, width: nat, height: nat, threshold: real, k: nat, s: Scan)
    requires k <= width * height && ScanUpTo(mask, width, height, threshold, k) == s
    requires forall j :: k <= j < width * height ==> j in s.visited || !Above(mask, j, threshold)
    ensures ScanUpTo(mask, width, height, threshold, width * height) == s
    decreases width * height - k
  {
    if k < width * height {
      ScanSkips(mask, width, height, threshold, k);
      ScanRestSkipped(mask, width, height, threshold, k + 1, s);
    }
  }

  lemma SingleIndexSet(p: Point, width: int)
    ensures IndexSet([p], width) == {Index(p, width)}
  {
    var c := [p];
    assert c[0] == p;
  }

  lemma PairIndexSet(p: Point, q: Point, width: int)
    ensures IndexSet([p, q], width) == {Index(p, width), Index(q, width)}
  {
    var c := [p, q];
    assert c[0] == p && c[1] == q;
  }

  lemma QuadIndexSet(p: Point, q: Point, r: Point, t: Point, width: int)
    ensures IndexSet([p, q, r, t], width) == {Index(p, width), Index(q, width), Index(r, width), Index(t, width)}
  {
    var c := [p, q, r, t];
    assert c[0] == p && c[1] == q && c[2] == r && c[3] == t;
  }

  /** A mask without a pixel above the threshold yields no contour. */
  lemma BackgroundHasNoContour(mask: seq<real>, width: nat, height: nat, threshold: real)
    requires forall i :: 0 <= i < |mask| ==> mask[i] <= threshold
    ensures ExtractedContours(mask, width, height, threshold) == []
  {
    var cs := ExtractedContours(mask, width, height, threshold);
    if cs != [] {
      // the first contour was seeded at a pixel above the threshold
      ScanContoursSound(mask, width, height, threshold, width * height, cs[0]);
      assert false;
    }
  }

  /** Without a kept seed before n, the scan has no contour after n pixels. */
  lemma NoKeptSeeds(mask: seq<real>, width: nat, height: nat, threshold: real, n: nat)
    requires n <= width * height
    requires forall k :: 0 <= k < n ==> !KeptSeed(mask, width, height, threshold, k)
    ensures ScanUpTo(mask, width, height, threshold, n).contours == []
  {
    var contours := ScanUpTo(mask, width, height, threshold, n).contours;
    if contours != [] {
      ScanContours(mask, width, height, threshold, n, contours[0]);
      assert false;
    }
  }
}
