/**
 * Day 15: sensors, beacons and the rows where a beacon cannot be.
 *
 * Coordinates are unbounded integers. A sensor excludes every point whose
 * Manhattan distance to it is at most the distance to its closest beacon; on
 * one row those points form a closed range of x values, and the ranges of all
 * sensors are sorted and merged by `ReduceConstraints`.
 */
module BeaconExclusion {
  import opened Wrappers

  datatype Point = Point(x: int, y: int)

  /** A closed range of integers `[lo, hi]` (the source's `[number, number]`). */
  type Range = (int, int)

  /** A sensor, its closest beacon and the distance between the two. */
  datatype Reading = Reading(sensor: Point, beacon: Point, distance: int)

  /** The three markers of the sparse graph: "S", "B" and "#". */
  datatype Marker = Sensor | Beacon | NotBeacon

  function Abs(n: int): nat {
    if n < 0 then -n else n
  }

  function ManhattanDistance(p1: Point, p2: Point): (d: nat)
    ensures d == 0 <==> p1 == p2
  {
    Abs(p1.x - p2.x) + Abs(p1.y - p2.y)
  }

  lemma DistanceSymmetric(p: Point, q: Point)
    ensures ManhattanDistance(p, q) == ManhattanDistance(q, p)
  {
  }

  lemma TriangleInequality(p: Point, q: Point, r: Point)
    ensures ManhattanDistance(p, r) <= ManhattanDistance(p, q) + ManhattanDistance(q, r)
  {
  }

  /**
   * The four corners (left, top, right, bottom) of the diamond of points at
   * most `distance` away from `p`.
   */
  function BoundingBox(p: Point, distance: int): (box: seq<Point>)
    ensures |box| == 4
    ensures distance >= 0 ==> forall k :: 0 <= k < 4 ==> ManhattanDistance(p, box[k]) == distance
    ensures box[0].y == box[2].y == p.y && box[1].x == box[3].x == p.x
    ensures box[0].x <= box[2].x && box[1].y <= box[3].y <==> distance >= 0
  {
    [Point(p.x - distance, p.y), Point(p.x, p.y - distance),
     Point(p.x + distance, p.y), Point(p.x, p.y + distance)]
  }

  /**
   * The x values on the row `yPrime` that are at most `beaconDistance` away
   * from `p`: the range is empty (lo > hi) exactly when the row is out of reach.
   */
  function GetX(p: Point, beaconDistance: int, yPrime: int): (r: Range)
    ensures forall x :: r.0 <= x <= r.1 <==> ManhattanDistance(p, Point(x, yPrime)) <= beaconDistance
    ensures r.0 > r.1 <==> Abs(yPrime - p.y) > beaconDistance
  {
    (Abs(yPrime - p.y) + p.x - beaconDistance, beaconDistance - Abs(yPrime - p.y) + p.x)
  }

  // ---------------------------------------------------------------------
  // Walking along a line and around the perimeter of a diamond.

  function Sign(d: int): int {
    if d > 0 then 1 else if d < 0 then -1 else 0
  }

  /** `k` steps of size `Sign(s)`. */
  function Offset(k: int, s: int): int {
    if s > 0 then k else if s < 0 then -k else 0
  }

  predicate InBounds(p: Point, xMin: int, xMax: int, yMin: int, yMax: int) {
    xMin <= p.x <= xMax && yMin <= p.y <= yMax
  }

  /** The segment is horizontal, vertical or at 45 degrees, so stepping by signs reaches its end. */
  predicate Aligned(p1: Point, p2: Point) {
    p1.x == p2.x || p1.y == p2.y || Abs(p2.x - p1.x) == Abs(p2.y - p1.y)
  }

  /** Number of steps from `p1` to `p2` along an aligned segment. */
  function LineLength(p1: Point, p2: Point): nat {
    if Abs(p2.x - p1.x) >= Abs(p2.y - p1.y) then Abs(p2.x - p1.x) else Abs(p2.y - p1.y)
  }

  /** The point reached after `k` steps of `(sign dx, sign dy)` from `p1` toward `p2`. */
  function PointOnLine(p1: Point, p2: Point, k: int): Point {
    Point(p1.x + Offset(k, p2.x - p1.x), p1.y + Offset(k, p2.y - p1.y))
  }

  /** On an aligned segment the walk meets `p2` after exactly `LineLength` steps and not before. */
  lemma WalkReachesEnd(p1: Point, p2: Point, k: nat)
    requires Aligned(p1, p2) && k <= LineLength(p1, p2)
    ensures PointOnLine(p1, p2, k) == p2 <==> k == LineLength(p1, p2)
  {
  }

  /** The points `PointOnLine(p1, p2, k)`, `0 <= k < n`, that are inside the bounds, in order. */
  function VisibleOnLine(p1: Point, p2: Point, n: nat, xMin: int, xMax: int, yMin: int, yMax: int): (ps: seq<Point>)
    ensures forall q :: q in ps ==> InBounds(q, xMin, xMax, yMin, yMax)
    ensures |ps| <= n
  {
    if n == 0 then []
    else
      var q := PointOnLine(p1, p2, n - 1);
      VisibleOnLine(p1, p2, n - 1, xMin, xMax, yMin, yMax)
        + (if InBounds(q, xMin, xMax, yMin, yMax) then [q] else [])
  }

  /** Every visible point is one of the first `n` points of the walk. */
  lemma {:induction false} VisibleOnLineSound(p1: Point, p2: Point, n: nat, q: Point, xMin: int, xMax: int, yMin: int, yMax: int)
    requires q in VisibleOnLine(p1, p2, n, xMin, xMax, yMin, yMax)
    ensures exists k :: 0 <= k < n && q == PointOnLine(p1, p2, k)
  {
    if q in VisibleOnLine(p1, p2, n - 1, xMin, xMax, yMin, yMax) {
      VisibleOnLineSound(p1, p2, n - 1, q, xMin, xMax, yMin, yMax);
    } else {
      assert q == PointOnLine(p1, p2, n - 1);
    }
  }

  lemma {:induction false} VisibleOnLineComplete(p1: Point, p2: Point, n: nat, k: nat, xMin: int, xMax: int, yMin: int, yMax: int)
    requires k < n && InBounds(PointOnLine(p1, p2, k), xMin, xMax, yMin, yMax)
    ensures PointOnLine(p1, p2, k) in VisibleOnLine(p1, p2, n, xMin, xMax, yMin, yMax)
  {
    if k < n - 1 {
      VisibleOnLineComplete(p1, p2, n - 1, k, xMin, xMax, yMin, yMax);
    }
  }

  /**
   * `iterateOnLine`: the points from `p1` to `p2` inclusive, stepping by
   * `(sign dx, sign dy)`, that lie inside the bounds. The walk ends only for
   * aligned segments.
   */
  method IterateOnLine(p1: Point, p2: Point, xMin: int, xMax: int, yMin: int, yMax: int)
    returns (points: seq<Point>)
    requires Aligned(p1, p2)
    ensures points == VisibleOnLine(p1, p2, LineLength(p1, p2) + 1, xMin, xMax, yMin, yMax)
  {
    var p := p1;
    ghost var k: nat := 0;
    points := [];
    WalkReachesEnd(p1, p2, 0);
    while p != p2
      invariant k <= LineLength(p1, p2)
      invariant p == PointOnLine(p1, p2, k)
      invariant points == VisibleOnLine(p1, p2, k, xMin, xMax, yMin, yMax)
      decreases LineLength(p1, p2) - k
    {
      WalkReachesEnd(p1, p2, k);
      if InBounds(p, xMin, xMax, yMin, yMax) {
        points := points + [p];
      }
      p := Point(p.x + Sign(p2.x - p1.x), p.y + Sign(p2.y - p1.y));
      k := k + 1;
      WalkReachesEnd(p1, p2, k);
    }
    WalkReachesEnd(p1, p2, k);
    if InBounds(p, xMin, xMax, yMin, yMax) {
      points := points + [p];
    }
  }

  /** The walk along an aligned segment includes its end point exactly when that point is in bounds. */
  lemma EndVisible(p1: Point, p2: Point, xMin: int, xMax: int, yMin: int, yMax: int)
    requires Aligned(p1, p2)
    ensures p2 in VisibleOnLine(p1, p2, LineLength(p1, p2) + 1, xMin, xMax, yMin, yMax)
            <==> InBounds(p2, xMin, xMax, yMin, yMax)
  {
    var n := LineLength(p1, p2);
    WalkReachesEnd(p1, p2, n);
    if InBounds(p2, xMin, xMax, yMin, yMax) {
      VisibleOnLineComplete(p1, p2, n + 1, n, xMin, xMax, yMin, yMax);
    }
  }

  /** The in-bounds points of the closed walk p1-p2, p2-p3, p3-p4, p4-p1, each side with both ends. */
  function Walk4(p1: Point, p2: Point, p3: Point, p4: Point, xMin: int, xMax: int, yMin: int, yMax: int): seq<Point> {
    VisibleOnLine(p1, p2, LineLength(p1, p2) + 1, xMin, xMax, yMin, yMax)
      + VisibleOnLine(p2, p3, LineLength(p2, p3) + 1, xMin, xMax, yMin, yMax)
      + VisibleOnLine(p3, p4, LineLength(p3, p4) + 1, xMin, xMax, yMin, yMax)
      + VisibleOnLine(p4, p1, LineLength(p4, p1) + 1, xMin, xMax, yMin, yMax)
  }

  /** `iterateOverPerimeter`: the four sides p1-p2, p2-p3, p3-p4, p4-p1 one after the other. */
  method IterateOverPerimeter(xMin: int, xMax: int, yMin: int, yMax: int, p1: Point, p2: Point, p3: Point, p4: Point)
    returns (points: seq<Point>)
    requires Aligned(p1, p2) && Aligned(p2, p3) && Aligned(p3, p4) && Aligned(p4, p1)
    ensures points == Walk4(p1, p2, p3, p4, xMin, xMax, yMin, yMax)
  {
    var a := IterateOnLine(p1, p2, xMin, xMax, yMin, yMax);
    var b := IterateOnLine(p2, p3, xMin, xMax, yMin, yMax);
    var c := IterateOnLine(p3, p4, xMin, xMax, yMin, yMax);
    var d := IterateOnLine(p4, p1, xMin, xMax, yMin, yMax);
    points := a + b + c + d;
  }

  /** Side `side` of the diamond of radius `d` around `s`: from corner `side` to the next one, within the bounds. */
  function Side(s: Point, d: int, side: nat, xMin: int, xMax: int, yMin: int, yMax: int): seq<Point>
    requires side < 4
  {
    var box := BoundingBox(s, d);
    VisibleOnLine(box[side], box[(side + 1) % 4], LineLength(box[side], box[(side + 1) % 4]) + 1, xMin, xMax, yMin, yMax)
  }

  /** The perimeter of `BoundingBox(s, d)` as the four sides that `IterateOverPerimeter` walks. */
  function PerimeterPoints(s: Point, d: int, xMin: int, xMax: int, yMin: int, yMax: int): seq<Point> {
    Side(s, d, 0, xMin, xMax, yMin, yMax) + Side(s, d, 1, xMin, xMax, yMin, yMax)
      + Side(s, d, 2, xMin, xMax, yMin, yMax) + Side(s, d, 3, xMin, xMax, yMin, yMax)
  }

  /** Each side of the diamond of radius `d` stays at distance `d` from the centre. */
  lemma SideAtDistance(s: Point, d: nat, side: nat, k: nat)
    requires side < 4 && k <= d
    ensures var box := BoundingBox(s, d);
      ManhattanDistance(s, PointOnLine(box[side], box[(side + 1) % 4], k)) == d
  {
  }

  /** Each side of the diamond of radius `d` is `d` steps long. */
  lemma SideLength(s: Point, d: nat, side: nat)
    requires side < 4
    ensures var box := BoundingBox(s, d);
      LineLength(box[side], box[(side + 1) % 4]) == d
  {
  }

  /** A point on a side is in bounds and at distance `d` from the centre. */
  lemma SideSound(s: Point, d: nat, side: nat, q: Point, xMin: int, xMax: int, yMin: int, yMax: int)
    requires side < 4 && q in Side(s, d, side, xMin, xMax, yMin, yMax)
    ensures InBounds(q, xMin, xMax, yMin, yMax) && ManhattanDistance(s, q) == d
  {
    var box := BoundingBox(s, d);
    SideLength(s, d, side);
    VisibleOnLineSound(box[side], box[(side + 1) % 4], d + 1, q, xMin, xMax, yMin, yMax);
    var k :| 0 <= k < d + 1 && q == PointOnLine(box[side], box[(side + 1) % 4], k);
    SideAtDistance(s, d, side, k);
  }

  /** The in-bounds point `k` steps along a side is on that side. */
  lemma SideComplete(s: Point, d: nat, side: nat, k: nat, xMin: int, xMax: int, yMin: int, yMax: int)
    requires side < 4 && k <= d
    requires var box := BoundingBox(s, d);
      InBounds(PointOnLine(box[side], box[(side + 1) % 4], k), xMin, xMax, yMin, yMax)
    ensures var box := BoundingBox(s, d);
      PointOnLine(box[side], box[(side + 1) % 4], k) in Side(s, d, side, xMin, xMax, yMin, yMax)
  {
    var box := BoundingBox(s, d);
    SideLength(s, d, side);
    VisibleOnLineComplete(box[side], box[(side + 1) % 4], d + 1, k, xMin, xMax, yMin, yMax);
  }

  lemma PerimeterSound(s: Point, d: nat, q: Point, xMin: int, xMax: int, yMin: int, yMax: int)
    requires q in PerimeterPoints(s, d, xMin, xMax, yMin, yMax)
    ensures InBounds(q, xMin, xMax, yMin, yMax) && ManhattanDistance(s, q) == d
  {
    var side: nat :| side < 4 && q in Side(s, d, side, xMin, xMax, yMin, yMax);
    SideSound(s, d, side, q, xMin, xMax, yMin, yMax);
  }

  /** The perimeter is the walk along the four sides between consecutive corners. */
  lemma PerimeterWalk(s: Point, d: int, xMin: int, xMax: int, yMin: int, yMax: int)
    ensures var box := BoundingBox(s, d);
      PerimeterPoints(s, d, xMin, xMax, yMin, yMax) == Walk4(box[0], box[1], box[2], box[3], xMin, xMax, yMin, yMax)
  {
  }

  /** Whatever the radius, the perimeter walk stays within the bounds. */
  lemma PerimeterInBounds(s: Point, d: int, q: Point, xMin: int, xMax: int, yMin: int, yMax: int)
    requires q in PerimeterPoints(s, d, xMin, xMax, yMin, yMax)
    ensures InBounds(q, xMin, xMax, yMin, yMax)
  {
    var side: nat :| side < 4 && q in Side(s, d, side, xMin, xMax, yMin, yMax);
  }

  lemma PerimeterComplete(s: Point, d: nat, q: Point, xMin: int, xMax: int, yMin: int, yMax: int)
    requires InBounds(q, xMin, xMax, yMin, yMax) && ManhattanDistance(s, q) == d
    ensures q in PerimeterPoints(s, d, xMin, xMax, yMin, yMax)
  {
    var box := BoundingBox(s, d);
    var dx, dy := q.x - s.x, q.y - s.y;
    var side: nat, k: nat;
    if d == 0 {
      side, k := 0, 0;
    } else if dx <= 0 && dy <= 0 {
      side, k := 0, -dy;
    } else if dx >= 0 && dy <= 0 {
      side, k := 1, dx;
    } else if dx >= 0 && dy >= 0 {
      side, k := 2, dy;
    } else {
      side, k := 3, -dx;
    }
    assert q == PointOnLine(box[side], box[(side + 1) % 4], k);
    SideComplete(s, d, side, k, xMin, xMax, yMin, yMax);
  }

  /**
   * The perimeter walk of the diamond of radius `d` yields exactly the
   * in-bounds points at distance `d` from its centre.
   */
  lemma PerimeterIsDistance(s: Point, d: nat, q: Point, xMin: int, xMax: int, yMin: int, yMax: int)
    ensures q in PerimeterPoints(s, d, xMin, xMax, yMin, yMax)
            <==> InBounds(q, xMin, xMax, yMin, yMax) && ManhattanDistance(s, q) == d
  {
    if q in PerimeterPoints(s, d, xMin, xMax, yMin, yMax) {
      PerimeterSound(s, d, q, xMin, xMax, yMin, yMax);
    }
    if InBounds(q, xMin, xMax, yMin, yMax) && ManhattanDistance(s, q) == d {
      PerimeterComplete(s, d, q, xMin, xMax, yMin, yMax);
    }
  }

  // ---------------------------------------------------------------------
  // Merging ranges.

  predicate SortedByLo(s: seq<Range>) {
    forall i, j :: 0 <= i < j < |s| ==> s[i].0 <= s[j].0
  }

  /** Every range ends strictly before the next one starts. */
  predicate Separated(s: seq<Range>) {
    forall k :: 0 <= k < |s| - 1 ==> s[k].1 < s[k + 1].0
  }

  predicate WellFormed(s: seq<Range>) {
    forall k :: 0 <= k < |s| ==> s[k].0 <= s[k].1
  }

  predicate InRange(r: Range, x: int) {
    r.0 <= x <= r.1
  }

  /** Some range of `s` contains `x`. */
  predicate Covers(s: seq<Range>, x: int) {
    exists k :: 0 <= k < |s| && InRange(s[k], x)
  }

  /**
   * The merge pass of `reduceConstraints` with running range `last` over the
   * remaining sorted ranges `rest`: a contained range is skipped, an overlapping
   * one (lo <= last.hi) extends `last`, otherwise `last` is emitted.
   */
  function MergeFrom(last: Range, rest: seq<Range>): seq<Range>
    decreases |rest|
  {
    if rest == [] then [last]
    else
      var c := rest[0];
      if c.0 >= last.0 && c.1 <= last.1 then MergeFrom(last, rest[1..])
      else if c.0 <= last.1 then MergeFrom((last.0, if last.1 >= c.1 then last.1 else c.1), rest[1..])
      else [last] + MergeFrom(c, rest[1..])
  }

  function Merge(s: seq<Range>): seq<Range> {
    if s == [] then [] else MergeFrom(s[0], s[1..])
  }

  lemma {:induction false} MergeFromShape(last: Range, rest: seq<Range>)
    requires SortedByLo(rest)
    requires forall k :: 0 <= k < |rest| ==> last.0 <= rest[k].0
    ensures var m := MergeFrom(last, rest);
      && 1 <= |m| <= |rest| + 1
      && m[0].0 == last.0
      && SortedByLo(m) && Separated(m)
      && (forall k :: 0 <= k < |m| ==> last.0 <= m[k].0)
    decreases |rest|
  {
    if rest != [] {
      var c := rest[0];
      if c.0 >= last.0 && c.1 <= last.1 {
        MergeFromShape(last, rest[1..]);
      } else if c.0 <= last.1 {
        MergeFromShape((last.0, if last.1 >= c.1 then last.1 else c.1), rest[1..]);
      } else {
        MergeFromShape(c, rest[1..]);
        var tail := MergeFrom(c, rest[1..]);
        var m := [last] + tail;
        assert MergeFrom(last, rest) == m;
        forall i, j | 0 <= i < j < |m| ensures m[i].0 <= m[j].0 {
          if i > 0 {
            assert m[i] == tail[i - 1] && m[j] == tail[j - 1];
          }
        }
        forall k | 0 <= k < |m| - 1 ensures m[k].1 < m[k + 1].0 {
          if k > 0 {
            assert m[k] == tail[k - 1] && m[k + 1] == tail[k];
          }
        }
      }
    }
  }

  /** A range in front covers what it covers, and the rest what the rest covers. */
  lemma CoversCons(r: Range, s: seq<Range>, x: int)
    ensures Covers([r] + s, x) <==> InRange(r, x) || Covers(s, x)
  {
    var m := [r] + s;
    if Covers(m, x) {
      var k :| 0 <= k < |m| && InRange(m[k], x);
      if k > 0 {
        assert InRange(s[k - 1], x);
      }
    }
    if Covers(s, x) {
      var k :| 0 <= k < |s| && InRange(s[k], x);
      assert InRange(m[k + 1], x);
    }
    if InRange(r, x) {
      assert InRange(m[0], x);
    }
  }

  lemma {:induction false} MergeFromCovers(last: Range, rest: seq<Range>, x: int)
    requires forall k :: 0 <= k < |rest| ==> last.0 <= rest[k].0
    requires SortedByLo(rest)
    ensures Covers(MergeFrom(last, rest), x) <==> InRange(last, x) || Covers(rest, x)
    decreases |rest|
  {
    if rest == [] {
      CoversCons(last, [], x);
      assert [last] + [] == [last];
    } else {
      var c := rest[0];
      CoversCons(c, rest[1..], x);
      assert rest == [c] + rest[1..];
      if c.0 >= last.0 && c.1 <= last.1 {
        MergeFromCovers(last, rest[1..], x);
      } else if c.0 <= last.1 {
        MergeFromCovers((last.0, if last.1 >= c.1 then last.1 else c.1), rest[1..], x);
      } else {
        MergeFromCovers(c, rest[1..], x);
        CoversCons(last, MergeFrom(c, rest[1..]), x);
      }
    }
  }

  /**
   * Merging a sorted list of ranges gives a sorted, strictly separated list
   * that is no longer than the input, empty exactly when the input is, and
   * covers exactly the same integers.
   */
  lemma MergeCorrect(s: seq<Range>)
    requires SortedByLo(s)
    ensures var m := Merge(s);
      && |m| <= |s| && (m == [] <==> s == [])
      && SortedByLo(m) && Separated(m)
      && forall x :: Covers(m, x) <==> Covers(s, x)
  {
    if s != [] {
      MergeFromShape(s[0], s[1..]);
      forall x ensures Covers(Merge(s), x) <==> Covers(s, x) {
        MergeFromCovers(s[0], s[1..], x);
        if Covers(s, x) {
          var k :| 0 <= k < |s| && InRange(s[k], x);
          if k > 0 {
            assert InRange(s[1..][k - 1], x);
          }
        }
        if Covers(s[1..], x) {
          var k :| 0 <= k < |s[1..]| && InRange(s[1..][k], x);
          assert InRange(s[k + 1], x);
        }
      }
    }
  }

  lemma {:induction false} MergeFromSeparatedIsIdentity(last: Range, rest: seq<Range>)
    requires last.0 <= last.1 && WellFormed(rest) && Separated([last] + rest)
    ensures MergeFrom(last, rest) == [last] + rest
    decreases |rest|
  {
    if rest != [] {
      var c := rest[0];
      assert ([last] + rest)[0] == last && ([last] + rest)[1] == c;
      assert last.1 < c.0;
      var s' := [c] + rest[1..];
      assert rest == s';
      forall k | 0 <= k < |s'| - 1 ensures s'[k].1 < s'[k + 1].0 {
        assert s'[k] == ([last] + rest)[k + 1] && s'[k + 1] == ([last] + rest)[k + 2];
      }
      MergeFromSeparatedIsIdentity(c, rest[1..]);
    }
  }

  /** Merging is idempotent on ranges with lo <= hi. */
  lemma MergeIdempotent(s: seq<Range>)
    requires SortedByLo(s) && WellFormed(s)
    ensures Merge(Merge(s)) == Merge(s)
  {
    if s != [] {
      MergeCorrect(s);
      MergeFromWellFormed(s[0], s[1..]);
      var m := Merge(s);
      assert m == [m[0]] + m[1..];
      MergeFromSeparatedIsIdentity(m[0], m[1..]);
    }
  }

  lemma {:induction false} MergeFromWellFormed(last: Range, rest: seq<Range>)
    requires last.0 <= last.1 && WellFormed(rest)
    ensures WellFormed(MergeFrom(last, rest))
    decreases |rest|
  {
    if rest != [] {
      var c := rest[0];
      if c.0 >= last.0 && c.1 <= last.1 {
        MergeFromWellFormed(last, rest[1..]);
      } else if c.0 <= last.1 {
        MergeFromWellFormed((last.0, if last.1 >= c.1 then last.1 else c.1), rest[1..]);
      } else {
        MergeFromWellFormed(c, rest[1..]);
        var tail := MergeFrom(c, rest[1..]);
        assert forall k :: 1 <= k < |[last] + tail| ==> ([last] + tail)[k] == tail[k - 1];
      }
    }
  }

  /** The documented example: [1,2] [3,5] [4,6] [5,7] [5,7] reduces to [1,2] [3,7]. */
  lemma ReduceExample()
    ensures Merge([(1, 2), (3, 5), (4, 6), (5, 7), (5, 7)]) == [(1, 2), (3, 7)]
  {
  }

  /** The in-place `constraints.sort((a, b) => a[0] - b[0])`, a stable insertion sort. */
  method SortByLo(a: array<Range>)
    modifies a
    ensures SortedByLo(a[..])
    ensures multiset(a[..]) == multiset(old(a[..]))
  {
    if a.Length == 0 {
      return;
    }
    for i := 1 to a.Length
      invariant SortedByLo(a[..i])
      invariant multiset(a[..]) == multiset(old(a[..]))
    {
      InsertLast(a, i);
    }
    assert a[..a.Length] == a[..];
  }

  /** Moves `a[i]` left past every larger lo, so that `a[..i + 1]` is sorted. */
  method InsertLast(a: array<Range>, i: nat)
    requires i < a.Length && SortedByLo(a[..i])
    modifies a
    ensures SortedByLo(a[..i + 1])
    ensures multiset(a[..]) == multiset(old(a[..]))
  {
    var j := i;
    while j > 0 && a[j - 1].0 > a[j].0
      invariant 0 <= j <= i
      invariant multiset(a[..]) == multiset(old(a[..]))
      invariant forall k, l :: 0 <= k < l <= i && k != j && l != j ==> a[k].0 <= a[l].0
      invariant forall l :: j < l <= i ==> a[j].0 < a[l].0
    {
      SwapWithPrevious(a, j);
      j := j - 1;
    }
  }

  method SwapWithPrevious(a: array<Range>, j: int)
    requires 0 < j < a.Length
    modifies a
    ensures a[j - 1] == old(a[j]) && a[j] == old(a[j - 1])
    ensures forall m :: 0 <= m < a.Length && m != j - 1 && m != j ==> a[m] == old(a[m])
    ensures multiset(a[..]) == multiset(old(a[..]))
  {
    a[j - 1], a[j] := a[j], a[j - 1];
  }

  /**
   * `reduceConstraints`: sorts the array in place, then merges in one pass.
   * The running range is an element of the array (`last` aliases it), so its
   * upper bound is widened in the array itself; the returned list holds the
   * merged ranges, each of them an element of the array as it ends.
   */
  method ReduceConstraints(constraints: array<Range>) returns (reduced: seq<Range>, ghost sorted: seq<Range>)
    modifies constraints
    ensures SortedByLo(sorted) && multiset(sorted) == multiset(old(constraints[..]))
    ensures reduced == Merge(sorted)
    ensures |reduced| <= constraints.Length && (reduced == [] <==> constraints.Length == 0)
    ensures SortedByLo(reduced) && Separated(reduced)
    ensures forall x :: Covers(reduced, x) <==> Covers(old(constraints[..]), x)
    ensures |sorted| == constraints.Length
    ensures forall k :: 0 <= k < constraints.Length ==> constraints[k].0 == sorted[k].0 && constraints[k].1 >= sorted[k].1
    ensures forall m :: 0 <= m < |reduced| ==> reduced[m] in constraints[..]
  {
    SortByLo(constraints);
    sorted := constraints[..];
    reduced := [];
    var li := -1;
    ghost var held: seq<nat> := [];
    for i := 0 to constraints.Length
      invariant -1 <= li < i || (i == 0 && li == -1)
      invariant li == -1 <==> i == 0
      invariant li == -1 ==> reduced == []
      invariant constraints[i..] == sorted[i..]
      invariant li >= 0 ==> reduced + MergeFrom(constraints[li], constraints[i..]) == Merge(sorted)
      invariant forall k :: 0 <= k < constraints.Length ==> constraints[k].0 == sorted[k].0 && constraints[k].1 >= sorted[k].1
      invariant |held| == |reduced| && forall m :: 0 <= m < |held| ==> held[m] < li && constraints[held[m]] == reduced[m]
    {
      var c := constraints[i];
      assert constraints[i..] == [c] + constraints[i + 1..];
      if li == -1 {
        li := i;
        assert constraints[..] == sorted;
        continue;
      }
      var last := constraints[li];
      assert MergeFrom(last, constraints[i..]) == MergeFrom(last, [c] + constraints[i + 1..]);
      if c.0 >= last.0 && c.1 <= last.1 {
        assert MergeFrom(last, [c] + constraints[i + 1..]) == MergeFrom(last, constraints[i + 1..]);
        continue;
      }
      if c.0 <= last.1 {
        ghost var tail := constraints[i + 1..];
        var merged := (last.0, if last.1 >= c.1 then last.1 else c.1);
        assert MergeFrom(last, [c] + tail) == MergeFrom(merged, tail);
        constraints[li] := merged;
        assert constraints[i + 1..] == tail;
      } else {
        assert MergeFrom(last, [c] + constraints[i + 1..]) == [last] + MergeFrom(c, constraints[i + 1..]);
        assert reduced + ([last] + MergeFrom(c, constraints[i + 1..])) == (reduced + [last]) + MergeFrom(c, constraints[i + 1..]);
        reduced := reduced + [last];
        held := held + [li];
        li := i;
      }
    }
    assert constraints[constraints.Length..] == [];
    if li >= 0 {
      assert MergeFrom(constraints[li], []) == [constraints[li]];
      reduced := reduced + [constraints[li]];
      held := held + [li];
    } else {
      assert sorted == [];
    }
    assert reduced == Merge(sorted);
    MergeCorrect(sorted);
    assert |sorted| == constraints.Length;
    forall x ensures Covers(sorted, x) <==> Covers(old(constraints[..]), x) {
      CoversPermutation(sorted, old(constraints[..]), x);
    }
    forall m | 0 <= m < |reduced| ensures reduced[m] in constraints[..] {
      assert constraints[..][held[m]] == reduced[m];
    }
  }

  lemma CoversPermutation(s: seq<Range>, t: seq<Range>, x: int)
    requires multiset(s) == multiset(t)
    ensures Covers(s, x) <==> Covers(t, x)
  {
    if Covers(s, x) {
      var k :| 0 <= k < |s| && InRange(s[k], x);
      assert s[k] in multiset(t);
      var j :| 0 <= j < |t| && t[j] == s[k];
    }
    if Covers(t, x) {
      var k :| 0 <= k < |t| && InRange(t[k], x);
      assert t[k] in multiset(s);
      var j :| 0 <= j < |s| && s[j] == t[k];
    }
  }

  // ---------------------------------------------------------------------
  // The sparse graph of markers.

  /** `addNode`: a "#" never replaces a sensor or a beacon; everything else is an upsert. */
  function AddNode(g: map<Point, Marker>, p: Point, kind: Marker): (g': map<Point, Marker>)
    ensures g'.Keys == g.Keys + {p}
    ensures forall q :: q in g && q != p ==> g'[q] == g[q]
    ensures p in g && !g[p].NotBeacon? && kind.NotBeacon? ==> g'[p] == g[p]
    ensures !(p in g && !g[p].NotBeacon?) || !kind.NotBeacon? ==> g'[p] == kind
  {
    if kind.NotBeacon? && p in g && !g[p].NotBeacon? then g
    else g[p := kind]
  }

  /** Marking a point "#" keeps every sensor and beacon where it was. */
  lemma NotBeaconPreservesMarkers(g: map<Point, Marker>, p: Point, q: Point)
    requires q in g && !g[q].NotBeacon?
    ensures AddNode(g, p, NotBeacon)[q] == g[q]
  {
  }

  /** The sensor and beacon positions of the readings. */
  function KnownPoints(readings: seq<Reading>): set<Point> {
    (set k | 0 <= k < |readings| :: readings[k].sensor) + (set k | 0 <= k < |readings| :: readings[k].beacon)
  }

  /** The integers of one range, as a set. */
  function RangeSet(r: Range): set<int> {
    set x: int | r.0 <= x <= r.1 && InRange(r, x)
  }

  lemma RangeSetSnoc(lo: int, x: int)
    requires lo <= x
    ensures RangeSet((lo, x)) == RangeSet((lo, x - 1)) + {x}
  {
  }

  /** The integers on row `y` within reach of some sensor. */
  function RowCoverage(readings: seq<Reading>, y: int): set<int>
    ensures forall x :: x in RowCoverage(readings, y) <==>
      exists k :: 0 <= k < |readings| && ManhattanDistance(readings[k].sensor, Point(x, y)) <= readings[k].distance
  {
    if readings == [] then {}
    else
      var s := readings[|readings| - 1];
      var before := readings[..|readings| - 1];
      var r := GetX(s.sensor, s.distance, y);
      assert forall x :: x in RangeSet(r) <==> ManhattanDistance(s.sensor, Point(x, y)) <= s.distance;
      assert forall k :: 0 <= k < |before| ==> before[k] == readings[k];
      RowCoverage(before, y) + RangeSet(r)
  }

  /** The integers covered by a list of ranges, as a set. */
  function RangesSet(rs: seq<Range>): (u: set<int>)
    ensures forall x :: x in u <==> Covers(rs, x)
  {
    if rs == [] then {}
    else
      var before := rs[..|rs| - 1];
      assert forall x :: Covers(rs, x) <==> Covers(before, x) || InRange(rs[|rs| - 1], x) by {
        forall x ensures Covers(rs, x) <==> Covers(before, x) || InRange(rs[|rs| - 1], x) {
          if Covers(before, x) {
            var k :| 0 <= k < |before| && InRange(before[k], x);
            assert InRange(rs[k], x);
          }
        }
      }
      RangesSet(before) + RangeSet(rs[|rs| - 1])
  }

  /**
   * Part one: the number of positions on row `y` (2000000 in the puzzle) that
   * lie within reach of some sensor and hold neither a sensor nor a beacon.
   */
  method PartOne(pairs: seq<(Point, Point)>, y: int) returns (count: nat)
    ensures count == |Free(RowCoverage(Readings(pairs), y), KnownPoints(Readings(pairs)), y)|
  {
    var g, readings := BuildGraph(pairs);
    var xConstraints := RowConstraints(readings, y);
    var arr := new Range[|xConstraints|](k requires 0 <= k < |xConstraints| => xConstraints[k]);
    assert arr[..] == xConstraints;
    var reduced, _ := ReduceConstraints(arr);
    count := CountFree(reduced, g, y);
    SameCoverage(reduced, xConstraints, readings, y);
  }

  /** Ranges covering what the row constraints cover hold exactly the row coverage. */
  lemma SameCoverage(reduced: seq<Range>, xConstraints: seq<Range>, readings: seq<Reading>, y: int)
    requires forall x :: Covers(reduced, x) <==> Covers(xConstraints, x)
    requires forall x :: Covers(xConstraints, x) <==> x in RowCoverage(readings, y)
    ensures RangesSet(reduced) == RowCoverage(readings, y)
  {
    forall x ensures x in RangesSet(reduced) <==> x in RowCoverage(readings, y) {
    }
  }

  /** The first loop of part one: readings with their distances, and the graph of sensors and beacons. */
  method BuildGraph(pairs: seq<(Point, Point)>) returns (g: map<Point, Marker>, readings: seq<Reading>)
    ensures readings == Readings(pairs)
    ensures g.Keys == KnownPoints(readings)
    ensures forall q :: q in g ==> !g[q].NotBeacon?
  {
    g := map[];
    readings := [];
    for i := 0 to |pairs|
      invariant readings == Readings(pairs[..i])
      invariant g.Keys == KnownPoints(readings)
      invariant forall q :: q in g ==> !g[q].NotBeacon?
    {
      ReadingsStep(pairs, i);
      g, readings := AddPair(g, readings, pairs[i]);
    }
    assert pairs[..|pairs|] == pairs;
  }

  /** The body of the first loop: one reading more, and its sensor and beacon marked in the graph. */
  method AddPair(g0: map<Point, Marker>, readings0: seq<Reading>, pair: (Point, Point))
    returns (g: map<Point, Marker>, readings: seq<Reading>)
    requires g0.Keys == KnownPoints(readings0)
    requires forall q :: q in g0 ==> !g0[q].NotBeacon?
    ensures readings == readings0 + [Reading(pair.0, pair.1, ManhattanDistance(pair.0, pair.1))]
    ensures g.Keys == KnownPoints(readings)
    ensures forall q :: q in g ==> !g[q].NotBeacon?
  {
    var (sensorPt, beaconPt) := pair;
    var r := Reading(sensorPt, beaconPt, ManhattanDistance(sensorPt, beaconPt));
    KnownPointsSnoc(readings0, r);
    readings := readings0 + [r];
    g := AddNode(g0, sensorPt, Sensor);
    g := AddNode(g, beaconPt, Beacon);
  }

  /** The readings of one pair more are the readings before and the reading of that pair. */
  lemma ReadingsStep(pairs: seq<(Point, Point)>, i: nat)
    requires i < |pairs|
    ensures Readings(pairs[..i + 1])
            == Readings(pairs[..i]) + [Reading(pairs[i].0, pairs[i].1, ManhattanDistance(pairs[i].0, pairs[i].1))]
  {
    assert pairs[..i + 1][..i] == pairs[..i];
  }

  /** The second loop of part one: the non-empty row ranges of the sensors. */
  method RowConstraints(readings: seq<Reading>, y: int) returns (xConstraints: seq<Range>)
    ensures forall x :: Covers(xConstraints, x) <==> x in RowCoverage(readings, y)
  {
    xConstraints := [];
    for i := 0 to |readings|
      invariant forall x :: Covers(xConstraints, x) <==> x in RowCoverage(readings[..i], y)
    {
      var s := readings[i];
      var (x1, x2) := GetX(s.sensor, s.distance, y);
      assert readings[..i + 1][..i] == readings[..i];
      assert readings[..i + 1][i] == s;
      if x1 > x2 {
        continue;
      }
      CoversSnoc(xConstraints, (x1, x2));
      xConstraints := xConstraints + [(x1, x2)];
    }
    assert readings[..|readings|] == readings;
  }

  /** The readings built from the parsed (sensor, beacon) pairs. */
  function Readings(pairs: seq<(Point, Point)>): (rs: seq<Reading>)
    ensures |rs| == |pairs|
    ensures forall k :: 0 <= k < |pairs| ==> rs[k] == Reading(pairs[k].0, pairs[k].1, ManhattanDistance(pairs[k].0, pairs[k].1))
  {
    if pairs == [] then []
    else Readings(pairs[..|pairs| - 1]) + [Reading(pairs[|pairs| - 1].0, pairs[|pairs| - 1].1, ManhattanDistance(pairs[|pairs| - 1].0, pairs[|pairs| - 1].1))]
  }

  lemma KnownPointsSnoc(rs: seq<Reading>, r: Reading)
    ensures KnownPoints(rs + [r]) == KnownPoints(rs) + {r.sensor, r.beacon}
  {
    var t := rs + [r];
    assert forall k :: 0 <= k < |rs| ==> t[k] == rs[k];
    assert t[|rs|] == r;
    assert (set k | 0 <= k < |t| :: t[k].sensor) == (set k | 0 <= k < |rs| :: rs[k].sensor) + {r.sensor};
    assert (set k | 0 <= k < |t| :: t[k].beacon) == (set k | 0 <= k < |rs| :: rs[k].beacon) + {r.beacon};
  }

  lemma CoversSnoc(rs: seq<Range>, r: Range)
    ensures forall x :: Covers(rs + [r], x) <==> Covers(rs, x) || InRange(r, x)
  {
    var t := rs + [r];
    forall x ensures Covers(t, x) <==> Covers(rs, x) || InRange(r, x) {
      if Covers(rs, x) {
        var k :| 0 <= k < |rs| && InRange(rs[k], x);
        assert InRange(t[k], x);
      }
      if InRange(r, x) {
        assert InRange(t[|rs|], x);
      }
    }
  }

  /** The members of `xs` whose point on row `y` is not in `occupied`. */
  function Free(xs: set<int>, occupied: set<Point>, y: int): set<int> {
    set x | x in xs && Point(x, y) !in occupied
  }

  lemma FreeSnoc(xs: set<int>, x: int, occupied: set<Point>, y: int)
    requires x !in xs
    ensures |Free(xs + {x}, occupied, y)| == |Free(xs, occupied, y)| + (if Point(x, y) in occupied then 0 else 1)
  {
    if Point(x, y) in occupied {
      assert Free(xs + {x}, occupied, y) == Free(xs, occupied, y);
    } else {
      assert Free(xs + {x}, occupied, y) == Free(xs, occupied, y) + {x};
    }
  }

  /** Counts the integers of separated ranges on row `y` that are not markers of the graph. */
  method CountFree(reduced: seq<Range>, g: map<Point, Marker>, y: int) returns (count: nat)
    requires SortedByLo(reduced) && Separated(reduced)
    requires forall q :: q in g ==> !g[q].NotBeacon?
    ensures count == |Free(RangesSet(reduced), g.Keys, y)|
  {
    count := 0;
    for k := 0 to |reduced|
      invariant count == |Free(RangesSet(reduced[..k]), g.Keys, y)|
    {
      var c := reduced[k];
      ghost var done := RangesSet(reduced[..k]);
      forall z | z in done ensures z < c.0 {
        var j :| 0 <= j < k && InRange(reduced[..k][j], z);
        SeparatedBefore(reduced, j, k);
      }
      count := CountFreeInRange(c, done, g, y, count);
      assert reduced[..k + 1] == reduced[..k] + [c];
      assert RangesSet(reduced[..k + 1]) == done + RangeSet(c);
    }
    assert reduced[..|reduced|] == reduced;
  }

  /** The inner loop of the count: walks `x` over one range, adding the free positions to `count0`. */
  method CountFreeInRange(c: Range, ghost done: set<int>, g: map<Point, Marker>, y: int, count0: nat) returns (count: nat)
    requires forall z :: z in done ==> z < c.0
    requires forall q :: q in g ==> !g[q].NotBeacon?
    requires count0 == |Free(done, g.Keys, y)|
    ensures count == |Free(done + RangeSet(c), g.Keys, y)|
  {
    count := count0;
    var x := c.0;
    assert done + RangeSet((c.0, x - 1)) == done;
    while x <= c.1
      invariant c.0 <= x && (x <= c.1 + 1 || x == c.0)
      invariant count == |Free(done + RangeSet((c.0, x - 1)), g.Keys, y)|
      decreases c.1 - x
    {
      RangeSetSnoc(c.0, x);
      assert done + RangeSet((c.0, x)) == (done + RangeSet((c.0, x - 1))) + {x};
      FreeSnoc(done + RangeSet((c.0, x - 1)), x, g.Keys, y);
      if Point(x, y) !in g || g[Point(x, y)].NotBeacon? {
        count := count + 1;
      }
      x := x + 1;
    }
    if x == c.1 + 1 {
      assert (c.0, x - 1) == c;
    } else {
      assert RangeSet((c.0, x - 1)) == {} == RangeSet(c);
    }
  }

  lemma SeparatedBefore(rs: seq<Range>, j: int, k: int)
    requires SortedByLo(rs) && Separated(rs) && 0 <= j < k < |rs|
    ensures rs[j].1 < rs[k].0
  {
    assert rs[j].1 < rs[j + 1].0;
    assert rs[j + 1].0 <= rs[k].0;
  }

  /** Point `p` is out of reach of every sensor. */
  predicate OutOfRange(readings: seq<Reading>, p: Point) {
    forall k :: 0 <= k < |readings| ==> ManhattanDistance(readings[k].sensor, p) > readings[k].distance
  }

  /**
   * Part two: walk the perimeter just outside each sensor's reach, inside
   * `[0, maxCoord]` on both axes (4000000 in the puzzle), and report the tuning frequency
   * `4000000 * x + y` of the first point out of reach of every sensor; `None`
   * (the source's "todo") when no such point lies on any of those perimeters.
   */
  method PartTwo(pairs: seq<(Point, Point)>, maxCoord: int) returns (r: Option<int>)
    ensures r.Some? ==> exists p :: InBounds(p, 0, maxCoord, 0, maxCoord) && OutOfRange(Readings(pairs), p)
                                    && r.value == 4000000 * p.x + p.y
    ensures r.None? ==> forall k :: 0 <= k < |pairs| ==> Blocked(Readings(pairs), Readings(pairs)[k], maxCoord)
  {
    var readings := Readings(pairs);
    for i := 0 to |readings|
      invariant forall k :: 0 <= k < i ==> Blocked(readings, readings[k], maxCoord)
    {
      var found := ScanPerimeter(readings, readings[i], maxCoord);
      if found.Some? {
        var p := found.value;
        return Some(4000000 * p.x + p.y);
      }
    }
    return None;
  }

  /** The point lies one step beyond the reach of the sensor. */
  predicate JustOutside(s: Reading, p: Point) {
    ManhattanDistance(s.sensor, p) == s.distance + 1
  }

  /** Every point inside `[0, maxCoord]` on both axes one step beyond the reach of `s` is within reach of some sensor. */
  ghost predicate Blocked(readings: seq<Reading>, s: Reading, maxCoord: int) {
    forall p :: InBounds(p, 0, maxCoord, 0, maxCoord) && JustOutside(s, p) ==> !OutOfRange(readings, p)
  }

  /** Walks the in-bounds part of the perimeter just outside the reach of `s`. */
  method ScanPerimeter(readings: seq<Reading>, s: Reading, maxCoord: int) returns (found: Option<Point>)
    ensures found.Some? ==> InBounds(found.value, 0, maxCoord, 0, maxCoord) && OutOfRange(readings, found.value)
    ensures found.None? ==> Blocked(readings, s, maxCoord)
  {
    var points := WalkPerimeter(s.sensor, s.distance + 1, 0, maxCoord, 0, maxCoord);
    found := FirstOutOfRange(readings, points);
  }

  /** The walk around the diamond of radius `d` that `IterateOverPerimeter` makes over its corners. */
  method WalkPerimeter(s: Point, d: int, xMin: int, xMax: int, yMin: int, yMax: int) returns (points: seq<Point>)
    ensures points == PerimeterPoints(s, d, xMin, xMax, yMin, yMax)
    ensures forall q :: q in points ==> InBounds(q, xMin, xMax, yMin, yMax)
    ensures forall q :: InBounds(q, xMin, xMax, yMin, yMax) && ManhattanDistance(s, q) == d ==> q in points
  {
    var box := BoundingBox(s, d);
    points := IterateOverPerimeter(xMin, xMax, yMin, yMax, box[0], box[1], box[2], box[3]);
    PerimeterWalk(s, d, xMin, xMax, yMin, yMax);
    PerimeterBounds(s, d, points, xMin, xMax, yMin, yMax);
  }

  /** The perimeter walk is in bounds and meets every in-bounds point at distance `d`. */
  lemma PerimeterBounds(s: Point, d: int, points: seq<Point>, xMin: int, xMax: int, yMin: int, yMax: int)
    requires points == PerimeterPoints(s, d, xMin, xMax, yMin, yMax)
    ensures forall q :: q in points ==> InBounds(q, xMin, xMax, yMin, yMax)
    ensures forall q :: InBounds(q, xMin, xMax, yMin, yMax) && ManhattanDistance(s, q) == d ==> q in points
  {
    forall q | q in points
      ensures InBounds(q, xMin, xMax, yMin, yMax)
    {
      PerimeterInBounds(s, d, q, xMin, xMax, yMin, yMax);
    }
    forall q | InBounds(q, xMin, xMax, yMin, yMax) && ManhattanDistance(s, q) == d
      ensures q in points
    {
      PerimeterComplete(s, d, q, xMin, xMax, yMin, yMax);
    }
  }

  /** The first of `points` out of reach of every sensor, if any. */
  method FirstOutOfRange(readings: seq<Reading>, points: seq<Point>) returns (found: Option<Point>)
    ensures found.Some? ==> found.value in points && OutOfRange(readings, found.value)
    ensures found.Some? ==> exists j :: 0 <= j < |points| && points[j] == found.value && forall q :: q in points[..j] ==> !OutOfRange(readings, q)
    ensures found.None? ==> forall q :: q in points ==> !OutOfRange(readings, q)
  {
    for j := 0 to |points|
      invariant forall q :: q in points[..j] ==> !OutOfRange(readings, q)
    {
      var p := points[j];
      var inRange := InRangeOfSome(readings, p);
      if !inRange {
        assert points[j] == p;
        return Some(p);
      }
      assert points[..j + 1] == points[..j] + [p];
    }
    assert points[..|points|] == points;
    return None;
  }

  /** Whether some sensor reaches `p`. */
  method InRangeOfSome(readings: seq<Reading>, p: Point) returns (inRange: bool)
    ensures inRange <==> !OutOfRange(readings, p)
  {
    inRange := false;
    for m := 0 to |readings|
      invariant !inRange
      invariant forall k :: 0 <= k < m ==> ManhattanDistance(readings[k].sensor, p) > readings[k].distance
    {
      if ManhattanDistance(readings[m].sensor, p) <= readings[m].distance {
        return true;
      }
    }
  }
}
