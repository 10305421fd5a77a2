/**
 * Day 14: sand falling into a cave of rock.
 *
 * The cave is a sparse map from coordinates to cells. Rock paths are drawn
 * into it segment by segment, then units of sand are dropped from the source
 * at (500, 0) until one falls past the lowest rock or, with the floor, until
 * a unit comes to rest on the source itself.
 */
module FallingSand {
  import opened Wrappers
  import Text

  datatype Point = Point(x: int, y: int)

  /**
   * The data of a cell of the map. Adding a node to the map replaces its
   * data, so a cell is exactly one of these.
   */
  datatype Cell = Rock | Source | Sand

  const SourceCoords := Point(500, 0)

  function Max(a: int, b: int): int {
    if a >= b then a else b
  }

  function Min(a: int, b: int): int {
    if a <= b then a else b
  }

  function Sign(n: int): (s: int)
    ensures n > 0 ==> s == 1
    ensures n < 0 ==> s == -1
    ensures n == 0 ==> s == 0
  {
    if n > 0 then 1 else if n < 0 then -1 else 0
  }

  // ---------------------------------------------------------------------
  // Rock segments.

  /** Whether the rock-path guard lets the segment from `a` to `b` through, as written: only a down-right diagonal is refused. */
  predicate RefusedAsWritten(a: Point, b: Point) {
    b.x - a.x > 0 && b.y - a.y > 0
  }

  /** The guard the drawing loop needs: every segment that is not horizontal or vertical is refused. */
  predicate Refused(a: Point, b: Point) {
    a.x != b.x && a.y != b.y
  }

  /** The `k`-th point visited by the drawing loop that walks from `a` toward `b`. */
  function WalkPoint(a: Point, b: Point, k: nat): Point {
    Point(a.x + k * Sign(b.x - a.x), a.y + k * Sign(b.y - a.y))
  }

  /**
   * The segment from (0, 0) to (-1, 2) passes the guard as written, yet the
   * drawing loop, which stops only on reaching the end point, never does:
   * the run does not terminate.
   */
  lemma AsWrittenGuardAdmitsEndlessWalk()
    ensures !RefusedAsWritten(Point(0, 0), Point(-1, 2))
    ensures forall k: nat :: WalkPoint(Point(0, 0), Point(-1, 2), k) != Point(-1, 2)
  {
    forall k: nat ensures WalkPoint(Point(0, 0), Point(-1, 2), k) != Point(-1, 2) {
      var n: int := k;
      assert WalkPoint(Point(0, 0), Point(-1, 2), k) == Point(-n, n);
    }
  }

  /**
   * The points the drawing loop turns to rock for the segment from `a` to
   * `b`: every integer point between them, both ends included, unless the
   * segment is a single point, in which case the loop draws nothing.
   */
  predicate OnSegment(a: Point, b: Point, p: Point) {
    && a != b
    && Min(a.x, b.x) <= p.x <= Max(a.x, b.x)
    && Min(a.y, b.y) <= p.y <= Max(a.y, b.y)
  }

  /** The greatest y the drawing of segment `a`-`b` takes into account, starting from `h`. */
  function SegmentHighest(a: Point, b: Point, h: int): (r: int)
    ensures r >= h
    ensures forall p :: OnSegment(a, b, p) ==> p.y <= r
    ensures a != b ==> (r == h || r == a.y || r == b.y)
  {
    if a == b then h else Max(h, Max(a.y, b.y))
  }

  /** The number of segments of a path of `|path|` points. */
  function Segments(path: seq<Point>): nat {
    if |path| == 0 then 0 else |path| - 1
  }

  /** Segment `i` of the path, from point `i` to point `i + 1`, is horizontal or vertical. */
  predicate StraightSegment(path: seq<Point>, i: nat)
    requires i < Segments(path)
  {
    !Refused(path[i], path[i + 1])
  }

  /** `p` lies on segment `i` of the path. */
  predicate OnSegmentOf(path: seq<Point>, i: nat, p: Point)
    requires i < Segments(path)
  {
    OnSegment(path[i], path[i + 1], p)
  }

  /** `p` lies on one of the first `n` segments of the path. */
  predicate OnPath(path: seq<Point>, n: nat, p: Point)
    requires n <= Segments(path)
  {
    exists i :: 0 <= i < n && OnSegmentOf(path, i, p)
  }

  /** The greatest y over the first `n` segments of the path, starting from `h`. */
  function PathHighest(path: seq<Point>, n: nat, h: int): (r: int)
    requires n <= Segments(path)
    ensures r >= h
  {
    if n == 0 then h else SegmentHighest(path[n - 1], path[n], PathHighest(path, n - 1, h))
  }

  /** `p` lies on a segment of one of the first `m` paths. */
  predicate OnPaths(paths: seq<seq<Point>>, m: nat, p: Point)
    requires m <= |paths|
  {
    exists j :: 0 <= j < m && OnPath(paths[j], Segments(paths[j]), p)
  }

  /** The greatest y over the first `m` paths, starting from `h`. */
  function PathsHighest(paths: seq<seq<Point>>, m: nat, h: int): (r: int)
    requires m <= |paths|
    ensures r >= h
  {
    if m == 0 then h else PathHighest(paths[m - 1], Segments(paths[m - 1]), PathsHighest(paths, m - 1, h))
  }

  /** Every segment of the first `m` paths is horizontal or vertical. */
  predicate Straight(paths: seq<seq<Point>>, m: nat)
    requires m <= |paths|
  {
    forall j, i :: 0 <= j < m && 0 <= i < Segments(paths[j]) ==> StraightSegment(paths[j], i)
  }

  /** `highestRockY` bounds the y of every rock point drawn. */
  lemma {:induction false} PathHighestBounds(path: seq<Point>, n: nat, h: int)
    requires n <= Segments(path)
    ensures forall p :: OnPath(path, n, p) ==> p.y <= PathHighest(path, n, h)
  {
    if n > 0 {
      PathHighestBounds(path, n - 1, h);
      var before := PathHighest(path, n - 1, h);
      var r := SegmentHighest(path[n - 1], path[n], before);
      assert PathHighest(path, n, h) == r;
      forall p | OnPath(path, n, p) ensures p.y <= r {
        var i :| 0 <= i < n && OnSegmentOf(path, i, p);
        if i < n - 1 {
          assert OnPath(path, n - 1, p);
          assert p.y <= before;
        }
      }
    }
  }

  /** `highestRockY` is the y of some rock point drawn, unless it kept its start value. */
  lemma {:induction false} PathHighestAttained(path: seq<Point>, n: nat, h: int)
    requires n <= Segments(path)
    ensures PathHighest(path, n, h) == h || exists p :: OnPath(path, n, p) && p.y == PathHighest(path, n, h)
  {
    if n > 0 {
      PathHighestAttained(path, n - 1, h);
      var a, b := path[n - 1], path[n];
      var before := PathHighest(path, n - 1, h);
      var r := SegmentHighest(a, b, before);
      if r != h {
        if r == before {
          var p :| OnPath(path, n - 1, p) && p.y == before;
          assert OnPath(path, n, p);
        } else if r == a.y {
          assert OnSegmentOf(path, n - 1, a);
          assert OnPath(path, n, a);
        } else {
          assert OnSegmentOf(path, n - 1, b);
          assert OnPath(path, n, b);
        }
      }
    }
  }

  /** `highestRockY` is the greatest y of any rock point drawn, and its start value when there is none. */
  lemma PathHighestIsMax(path: seq<Point>, n: nat, h: int)
    requires n <= Segments(path)
    ensures PathHighest(path, n, h) >= h
    ensures forall p :: OnPath(path, n, p) ==> p.y <= PathHighest(path, n, h)
    ensures PathHighest(path, n, h) == h || exists p :: OnPath(path, n, p) && p.y == PathHighest(path, n, h)
  {
    PathHighestBounds(path, n, h);
    PathHighestAttained(path, n, h);
  }

  /** Over several paths, `highestRockY` is likewise the greatest y of any rock point, or the start value. */
  lemma {:induction false} PathsHighestIsMax(paths: seq<seq<Point>>, m: nat, h: int)
    requires m <= |paths|
    ensures PathsHighest(paths, m, h) >= h
    ensures forall p :: OnPaths(paths, m, p) ==> p.y <= PathsHighest(paths, m, h)
    ensures PathsHighest(paths, m, h) == h || exists p :: OnPaths(paths, m, p) && p.y == PathsHighest(paths, m, h)
  {
    if m > 0 {
      PathsHighestIsMax(paths, m - 1, h);
      var path := paths[m - 1];
      var before := PathsHighest(paths, m - 1, h);
      PathHighestIsMax(path, Segments(path), before);
      var r := PathsHighest(paths, m, h);
      forall p | OnPaths(paths, m, p) ensures p.y <= r {
        var j :| 0 <= j < m && OnPath(paths[j], Segments(paths[j]), p);
        if j < m - 1 {
          assert OnPaths(paths, m - 1, p);
        }
      }
      if r != h {
        if r == before {
          var p :| OnPaths(paths, m - 1, p) && p.y == before;
          assert OnPaths(paths, m, p);
        } else {
          var p :| OnPath(path, Segments(path), p) && p.y == r;
          assert OnPaths(paths, m, p);
        }
      }
    }
  }

  // ---------------------------------------------------------------------
  // Falling sand.

  /** Sand can move into a cell that is absent or holds neither sand nor rock. */
  predicate Free(cells: map<Point, Cell>, p: Point) {
    p !in cells || !(cells[p].Sand? || cells[p].Rock?)
  }

  /** The moves a unit of sand tries, in order: down, down-left, down-right. */
  const Moves: seq<(int, int)> := [(0, 1), (-1, 1), (1, 1)]

  function Target(p: Point, k: nat): Point
    requires k < |Moves|
  {
    Point(p.x + Moves[k].0, p.y + Moves[k].1)
  }

  /** The first free target among the three moves, if any. */
  function NextMove(cells: map<Point, Cell>, p: Point): (r: Option<Point>)
    ensures r.Some? ==> r.value.y == p.y + 1 && r.value.x - p.x in {0, -1, 1} && Free(cells, r.value)
    ensures r.None? <==> forall k :: 0 <= k < |Moves| ==> !Free(cells, Target(p, k))
    ensures r.Some? ==> exists k :: 0 <= k < |Moves| && r.value == Target(p, k) && forall j :: 0 <= j < k ==> !Free(cells, Target(p, j))
  {
    if Free(cells, Target(p, 0)) then Some(Target(p, 0))
    else if Free(cells, Target(p, 1)) then Some(Target(p, 1))
    else if Free(cells, Target(p, 2)) then Some(Target(p, 2))
    else None
  }

  /**
   * Where a unit of sand at `p` ends: it keeps making its next move while it
   * can and its y stays below `h + 1`.
   */
  function Settle(cells: map<Point, Cell>, p: Point, h: int): Point
    decreases h + 1 - p.y
  {
    match NextMove(cells, p)
    case None => p
    case Some(q) => if q.y < h + 1 then Settle(cells, q, h) else q
  }

  /**
   * A unit starting at or above row `h` descends one row per move, never
   * below `h + 1` and never sideways more than it descends; it ends in a free
   * cell (or where it started) and either can move no more or is at `h + 1`.
   */
  lemma {:induction false} SettleBounds(cells: map<Point, Cell>, p: Point, h: int)
    requires p.y <= h
    ensures var r := Settle(cells, p, h);
      && p.y <= r.y <= h + 1
      && -(r.y - p.y) <= r.x - p.x <= r.y - p.y
      && (r != p ==> Free(cells, r))
      && (NextMove(cells, r).None? || r.y == h + 1)
    decreases h + 1 - p.y
  {
    match NextMove(cells, p)
    case None =>
    case Some(q) =>
      if q.y < h + 1 {
        SettleBounds(cells, q, h);
      }
  }

  /** The cells sand or rock occupies. */
  function Blocked(cells: map<Point, Cell>): (b: set<Point>)
    ensures forall p :: p in b <==> !Free(cells, p)
  {
    set p | p in cells && (cells[p].Sand? || cells[p].Rock?)
  }

  /** The cells of sand. */
  function SandCells(cells: map<Point, Cell>): (s: set<Point>)
    ensures forall p :: p in s <==> p in cells && cells[p] == Sand
  {
    set p | p in cells && cells[p] == Sand
  }

  /** Every cell a unit dropped from the source can reach when rock is no lower than row `h`. */
  function Reachable(h: int): set<Point> {
    set y: int, x: int | 0 <= y <= h + 1 && 500 - y <= x <= 500 + y :: Point(x, y)
  }

  /** How many reachable cells are still free. */
  function Unfilled(cells: map<Point, Cell>, h: int): nat {
    |Reachable(h) - Blocked(cells)|
  }

  /** A unit dropped from the source ends at the source or in a free reachable cell. */
  lemma SettleFromSource(cells: map<Point, Cell>, h: int)
    requires h >= 0
    ensures var p := Settle(cells, SourceCoords, h);
      p == SourceCoords || (p in Reachable(h) && p !in Blocked(cells))
  {
    SettleBounds(cells, SourceCoords, h);
    var p := Settle(cells, SourceCoords, h);
    if p != SourceCoords {
      assert p in Reachable(h) by {
        assert 0 <= p.y <= h + 1 && 500 - p.y <= p.x <= 500 + p.y;
      }
    }
  }

  /** Putting sand in a free reachable cell leaves one cell fewer to fill. */
  lemma FillOne(cells: map<Point, Cell>, h: int, p: Point)
    requires p in Reachable(h) && p !in Blocked(cells)
    ensures Unfilled(cells[p := Sand], h) < Unfilled(cells, h)
  {
    var before := Reachable(h) - Blocked(cells);
    var after := Reachable(h) - Blocked(cells[p := Sand]);
    assert Blocked(cells[p := Sand]) == Blocked(cells) + {p};
    assert before == after + {p} && p !in after;
  }

  /**
   * `dropSand` as a function: the number of units at rest (counting from
   * `dropped`) and the cells at the end.
   */
  function DropAll(cells: map<Point, Cell>, h: int, floor: bool, dropped: nat): (nat, map<Point, Cell>)
    requires h >= 0
    decreases Unfilled(cells, h)
  {
    var p := Settle(cells, SourceCoords, h);
    if !floor && p.y > h then (dropped, cells)
    else if p == SourceCoords then (dropped + 1, cells[p := Sand])
    else
      SettleFromSource(cells, h);
      FillOne(cells, h, p);
      DropAll(cells[p := Sand], h, floor, dropped + 1)
  }

  /** One unit of `dropSand` that comes to rest, away from the source or on it. */
  lemma DropStep(cells: map<Point, Cell>, h: int, floor: bool, dropped: nat)
    requires h >= 0
    requires floor || Settle(cells, SourceCoords, h).y <= h
    ensures var p := Settle(cells, SourceCoords, h);
      && (p != SourceCoords ==>
            && DropAll(cells, h, floor, dropped) == DropAll(cells[p := Sand], h, floor, dropped + 1)
            && Unfilled(cells[p := Sand], h) < Unfilled(cells, h))
      && (p == SourceCoords ==> DropAll(cells, h, floor, dropped) == (dropped + 1, cells[p := Sand]))
  {
    var p := Settle(cells, SourceCoords, h);
    SettleFromSource(cells, h);
    if p != SourceCoords {
      FillOne(cells, h, p);
    }
  }

  /**
   * Dropping sand turns one cell into sand per unit at rest and changes
   * nothing else: rock stays rock everywhere but possibly at the source, and
   * every new sand cell is at most at row `h` (`h + 1` with the floor).
   */
  lemma {:induction false} DropAllChanges(cells: map<Point, Cell>, h: int, floor: bool, dropped: nat)
    requires h >= 0
    ensures var (n, after) := DropAll(cells, h, floor, dropped);
      && n >= dropped
      && cells.Keys <= after.Keys
      && (forall q :: q in after && (q !in cells || after[q] != cells[q]) ==>
            after[q] == Sand && q.y <= (if floor then h + 1 else h))
      && SameRock(cells, after)
    decreases Unfilled(cells, h)
  {
    var p := Settle(cells, SourceCoords, h);
    SettleBounds(cells, SourceCoords, h);
    if !floor && p.y > h {
    } else if p == SourceCoords {
      SandKeepsRock(cells, p);
    } else {
      SettleFromSource(cells, h);
      FillOne(cells, h, p);
      DropAllChanges(cells[p := Sand], h, floor, dropped + 1);
      SandKeepsRock(cells, p);
      SameRockTransitive(cells, cells[p := Sand], DropAll(cells, h, floor, dropped).1);
    }
  }

  /** Away from the source, the same cells hold rock in both maps. */
  ghost predicate SameRock(c1: map<Point, Cell>, c2: map<Point, Cell>) {
    forall q :: q != SourceCoords ==> (q in c1 && c1[q] == Rock <==> q in c2 && c2[q] == Rock)
  }

  /** Sand put in a cell that is not rock, or on the source, leaves the rock as it was. */
  lemma SandKeepsRock(cells: map<Point, Cell>, p: Point)
    requires p == SourceCoords || p !in Blocked(cells)
    ensures SameRock(cells, cells[p := Sand])
  {
  }

  lemma SameRockTransitive(c1: map<Point, Cell>, c2: map<Point, Cell>, c3: map<Point, Cell>)
    requires SameRock(c1, c2) && SameRock(c2, c3)
    ensures SameRock(c1, c3)
  {
  }

  /** Each unit counted adds exactly one cell of sand. */
  lemma {:induction false} DropAllCountsSand(cells: map<Point, Cell>, h: int, floor: bool, dropped: nat)
    requires h >= 0 && (SourceCoords in cells ==> cells[SourceCoords] != Sand)
    ensures var (n, after) := DropAll(cells, h, floor, dropped);
      |SandCells(after)| == |SandCells(cells)| + (n - dropped)
    decreases Unfilled(cells, h)
  {
    var p := Settle(cells, SourceCoords, h);
    if !floor && p.y > h {
    } else {
      assert p !in SandCells(cells) by {
        SettleFromSource(cells, h);
      }
      assert SandCells(cells[p := Sand]) == SandCells(cells) + {p};
      if p != SourceCoords {
        SettleFromSource(cells, h);
        FillOne(cells, h, p);
        DropAllCountsSand(cells[p := Sand], h, floor, dropped + 1);
      }
    }
  }

  /**
   * How the dropping ends: with the floor, with a unit at rest on the source;
   * without it, either so or because the next unit falls below row `h`, and
   * that unit is not stored.
   */
  lemma {:induction false} DropAllEnds(cells: map<Point, Cell>, h: int, floor: bool, dropped: nat)
    requires h >= 0
    ensures var (n, after) := DropAll(cells, h, floor, dropped);
      || (SourceCoords in after && after[SourceCoords] == Sand)
      || (!floor && Settle(after, SourceCoords, h).y > h)
    ensures floor ==> var (n, after) := DropAll(cells, h, floor, dropped);
      SourceCoords in after && after[SourceCoords] == Sand
    decreases Unfilled(cells, h)
  {
    var p := Settle(cells, SourceCoords, h);
    if !floor && p.y > h {
    } else if p == SourceCoords {
    } else {
      SettleFromSource(cells, h);
      FillOne(cells, h, p);
      DropAllEnds(cells[p := Sand], h, floor, dropped + 1);
      DropAllChanges(cells[p := Sand], h, floor, dropped + 1);
    }
  }

  /** The number of steps the drawing loop takes from `a` to `b`. */
  function WalkLength(a: Point, b: Point): nat {
    (if b.x >= a.x then b.x - a.x else a.x - b.x) + (if b.y >= a.y then b.y - a.y else a.y - b.y)
  }

  /**
   * On a segment the corrected guard lets through, the walk reaches `b`
   * after exactly `WalkLength` steps, and not before.
   */
  lemma WalkEnds(a: Point, b: Point, k: nat)
    requires !Refused(a, b) && k <= WalkLength(a, b)
    ensures WalkPoint(a, b, k) == b <==> k == WalkLength(a, b)
    ensures WalkPoint(a, b, k) == a <==> k == 0 || a == b
  {
  }

  /** Each step of the walk adds the point it leaves and the point it reaches to the drawn segment. */
  lemma WalkGrows(a: Point, b: Point, k: nat)
    requires !Refused(a, b) && k < WalkLength(a, b)
    ensures forall p :: OnSegment(a, WalkPoint(a, b, k + 1), p) <==>
      OnSegment(a, WalkPoint(a, b, k), p) || p == WalkPoint(a, b, k) || p == WalkPoint(a, b, k + 1)
  {
    var p0, p1 := WalkPoint(a, b, k), WalkPoint(a, b, k + 1);
    if a.x == b.x {
      var s := Sign(b.y - a.y);
      assert s == 1 || s == -1;
      assert p0 == Point(a.x, a.y + k * s) && p1 == Point(a.x, a.y + k * s + s);
      forall p ensures OnSegment(a, p1, p) <==> OnSegment(a, p0, p) || p == p0 || p == p1 {
        if s == 1 {
          assert OnSegment(a, p1, p) <==> p.x == a.x && a.y <= p.y <= a.y + k + 1;
        } else {
          assert OnSegment(a, p1, p) <==> p.x == a.x && a.y - k - 1 <= p.y <= a.y;
        }
      }
    } else {
      var s := Sign(b.x - a.x);
      assert s == 1 || s == -1;
      assert p0 == Point(a.x + k * s, a.y) && p1 == Point(a.x + k * s + s, a.y);
      forall p ensures OnSegment(a, p1, p) <==> OnSegment(a, p0, p) || p == p0 || p == p1 {
        if s == 1 {
          assert OnSegment(a, p1, p) <==> p.y == a.y && a.x <= p.x <= a.x + k + 1;
        } else {
          assert OnSegment(a, p1, p) <==> p.y == a.y && a.x - k - 1 <= p.x <= a.x;
        }
      }
    }
  }

  /** `after` is `before` with rock added on the segment from `a` to `b`. */
  ghost predicate SegmentDrawn(before: map<Point, Cell>, after: map<Point, Cell>, a: Point, b: Point) {
    forall p ::
      && (p in after <==> p in before || OnSegment(a, b, p))
      && (p in after ==> after[p] == if OnSegment(a, b, p) then Rock else before[p])
  }

  /** `after` is `before` with rock added on the first `n` segments of the path. */
  ghost predicate PathDrawn(before: map<Point, Cell>, after: map<Point, Cell>, path: seq<Point>, n: nat)
    requires n <= Segments(path)
  {
    forall p ::
      && (p in after <==> p in before || OnPath(path, n, p))
      && (p in after ==> after[p] == if OnPath(path, n, p) then Rock else before[p])
  }

  /** `after` is `before` with rock added on every segment of the first `m` paths. */
  ghost predicate PathsDrawn(before: map<Point, Cell>, after: map<Point, Cell>, paths: seq<seq<Point>>, m: nat)
    requires m <= |paths|
  {
    forall p ::
      && (p in after <==> p in before || OnPaths(paths, m, p))
      && (p in after ==> after[p] == if OnPaths(paths, m, p) then Rock else before[p])
  }

  lemma PathDrawnNext(c0: map<Point, Cell>, c1: map<Point, Cell>, c2: map<Point, Cell>, path: seq<Point>, i: nat)
    requires i < Segments(path)
    requires PathDrawn(c0, c1, path, i) && SegmentDrawn(c1, c2, path[i], path[i + 1])
    ensures PathDrawn(c0, c2, path, i + 1)
  {
    OnPathNext(path, i);
  }

  lemma PathsDrawnNext(c0: map<Point, Cell>, c1: map<Point, Cell>, c2: map<Point, Cell>, paths: seq<seq<Point>>, j: nat)
    requires j < |paths|
    requires PathsDrawn(c0, c1, paths, j) && PathDrawn(c1, c2, paths[j], Segments(paths[j]))
    ensures PathsDrawn(c0, c2, paths, j + 1)
  {
    OnPathsNext(paths, j);
  }

  /** One step of the drawing loop extends the drawn part of the segment and its greatest y. */
  lemma DrawStep(c0: map<Point, Cell>, c1: map<Point, Cell>, a: Point, b: Point, k: nat, h: int, x: int, y: int)
    requires !Refused(a, b) && k < WalkLength(a, b) && Point(x, y) == WalkPoint(a, b, k)
    requires SegmentDrawn(c0, c1, a, Point(x, y))
    ensures var q := Point(x + Sign(b.x - a.x), y + Sign(b.y - a.y));
      && q == WalkPoint(a, b, k + 1)
      && SegmentDrawn(c0, c1[Point(x, y) := Rock][q := Rock], a, q)
      && SegmentHighest(a, q, h) == Max(SegmentHighest(a, Point(x, y), h), Max(y, q.y))
  {
    WalkGrows(a, b, k);
    assert (k + 1) * Sign(b.x - a.x) == k * Sign(b.x - a.x) + Sign(b.x - a.x);
    assert (k + 1) * Sign(b.y - a.y) == k * Sign(b.y - a.y) + Sign(b.y - a.y);
  }

  /** The cave: the sparse map from coordinates to cells. */
  class Cave {
    var cells: map<Point, Cell>

    /** A cave holding only the source, as `run` starts. */
    constructor()
      ensures cells == map[SourceCoords := Source]
    {
      cells := map[SourceCoords := Source];
    }

    /**
     * The body of the rock-drawing loop for one segment: walks from `a`
     * toward `b` one step at a time, turning both ends of each step to rock
     * and raising `highestRockY` to their y.
     */
    method DrawSegment(a: Point, b: Point, highestRockY: int) returns (highest: int)
      requires !Refused(a, b)
      modifies this
      ensures SegmentDrawn(old(cells), cells, a, b)
      ensures highest == SegmentHighest(a, b, highestRockY)
    {
      var sx, sy := Sign(b.x - a.x), Sign(b.y - a.y);
      var x, y := a.x, a.y;
      var start := cells;
      var drawn := start;
      highest := highestRockY;
      ghost var k := 0;
      while true
        invariant 0 <= k <= WalkLength(a, b) && Point(x, y) == WalkPoint(a, b, k)
        invariant SegmentDrawn(start, drawn, a, Point(x, y))
        invariant highest == SegmentHighest(a, Point(x, y), highestRockY)
        decreases WalkLength(a, b) - k
      {
        WalkEnds(a, b, k);
        if x == b.x && y == b.y {
          break;
        }
        DrawStep(start, drawn, a, b, k, highestRockY, x, y);
        drawn := drawn[Point(x, y) := Rock];
        drawn := drawn[Point(x + sx, y + sy) := Rock];
        highest := Max(highest, Max(y, y + sy));
        x, y := x + sx, y + sy;
        k := k + 1;
      }
      cells := drawn;
    }

    /**
     * The rock-drawing loop for one line of input: each consecutive pair of
     * points is a segment. Returns false, the source's "diagonal line" error,
     * at the first segment that is not horizontal or vertical.
     */
    method DrawPath(path: seq<Point>, highestRockY: int) returns (ok: bool, highest: int)
      modifies this
      ensures ok <==> forall i :: 0 <= i < Segments(path) ==> StraightSegment(path, i)
      ensures ok ==> PathDrawn(old(cells), cells, path, Segments(path))
      ensures ok ==> highest == PathHighest(path, Segments(path), highestRockY)
    {
      highest := highestRockY;
      for i := 0 to Segments(path)
        invariant forall k :: 0 <= k < i ==> StraightSegment(path, k)
        invariant PathDrawn(old(cells), cells, path, i)
        invariant highest == PathHighest(path, i, highestRockY)
      {
        if Refused(path[i], path[i + 1]) {
          assert !StraightSegment(path, i);
          return false, highest;
        }
        ghost var before := cells;
        highest := DrawSegment(path[i], path[i + 1], highest);
        PathDrawnNext(old(cells), before, cells, path, i);
      }
      return true, highest;
    }

    /** The rock-drawing part of `run`: every line of input in turn. */
    method DrawRocks(paths: seq<seq<Point>>, highestRockY: int) returns (ok: bool, highest: int)
      modifies this
      ensures ok <==> Straight(paths, |paths|)
      ensures ok ==> PathsDrawn(old(cells), cells, paths, |paths|)
      ensures ok ==> highest == PathsHighest(paths, |paths|, highestRockY)
    {
      highest := highestRockY;
      for j := 0 to |paths|
        invariant Straight(paths, j)
        invariant PathsDrawn(old(cells), cells, paths, j)
        invariant highest == PathsHighest(paths, j, highestRockY)
      {
        ghost var before := cells;
        ok, highest := DrawPath(paths[j], highest);
        if !ok {
          assert !Straight(paths, |paths|) by {
            var i :| 0 <= i < Segments(paths[j]) && !StraightSegment(paths[j], i);
          }
          return false, highest;
        }
        PathsDrawnNext(old(cells), before, cells, paths, j);
      }
      return true, highest;
    }

    /**
     * One step of a falling unit: the first of down, down-left and
     * down-right that is free, if any.
     */
    method Step(x: int, y: int) returns (nx: int, ny: int, moved: bool)
      ensures moved <==> NextMove(cells, Point(x, y)).Some?
      ensures moved ==> Point(nx, ny) == NextMove(cells, Point(x, y)).value
      ensures !moved ==> nx == x && ny == y
    {
      nx, ny, moved := x, y, false;
      var k := 0;
      while k < |Moves|
        invariant 0 <= k <= |Moves|
        invariant forall j :: 0 <= j < k ==> !Free(cells, Target(Point(x, y), j))
        invariant nx == x && ny == y
      {
        var (dx, dy) := Moves[k];
        var n := Point(x + dx, y + dy);
        if n !in cells || !(cells[n].Sand? || cells[n].Rock?) {
          return n.x, n.y, true;
        }
        k := k + 1;
      }
    }

    /** The inner do-while loop of `dropSand`: where the next unit comes to rest. */
    method DropUnit(highestRockY: int) returns (x: int, y: int)
      ensures Point(x, y) == Settle(cells, SourceCoords, highestRockY)
    {
      x, y := SourceCoords.x, SourceCoords.y;
      var moved;
      x, y, moved := Step(x, y);
      while moved && y < highestRockY + 1
        invariant Settle(cells, SourceCoords, highestRockY)
          == if moved && y < highestRockY + 1 then Settle(cells, Point(x, y), highestRockY) else Point(x, y)
        decreases highestRockY + 1 - y + (if moved then 1 else 0)
      {
        x, y, moved := Step(x, y);
      }
    }
  }

  /**
   * `dropSand`: drops units until one falls below the lowest rock (without
   * the floor) or one comes to rest on the source (with it), and returns how
   * many came to rest. Fails when the source is not in the map.
   */
  method DropSand(g: Cave, highestRockY: int, simulateFloor: bool) returns (r: Result<nat>)
    requires highestRockY >= 0
    modifies g
    ensures r.Failure? <==> SourceCoords !in old(g.cells)
    ensures r.Failure? ==> g.cells == old(g.cells)
    ensures r.Success? ==> (r.value, g.cells) == DropAll(old(g.cells), highestRockY, simulateFloor, 0)
  {
    var dropped := 0;
    while true
      invariant SourceCoords in g.cells <==> SourceCoords in old(g.cells)
      invariant SourceCoords !in old(g.cells) ==> g.cells == old(g.cells)
      invariant DropAll(old(g.cells), highestRockY, simulateFloor, 0) == DropAll(g.cells, highestRockY, simulateFloor, dropped)
      decreases Unfilled(g.cells, highestRockY)
    {
      if SourceCoords !in g.cells {
        return Failure("source node not found");
      }
      var x, y := g.DropUnit(highestRockY);
      if !simulateFloor && y > highestRockY {
        break;
      }
      DropStep(g.cells, highestRockY, simulateFloor, dropped);
      g.cells := g.cells[Point(x, y) := Sand];
      if x == SourceCoords.x && y == SourceCoords.y {
        dropped := dropped + 1;
        return Success(dropped);
      }
      dropped := dropped + 1;
    }
    return Success(dropped);
  }

  lemma OnPathNext(path: seq<Point>, i: nat)
    requires i < Segments(path)
    ensures forall p :: OnPath(path, i + 1, p) <==> OnPath(path, i, p) || OnSegmentOf(path, i, p)
  {
  }

  lemma OnPathsNext(paths: seq<seq<Point>>, j: nat)
    requires j < |paths|
    ensures forall p :: OnPaths(paths, j + 1, p) <==> OnPaths(paths, j, p) || OnPath(paths[j], Segments(paths[j]), p)
  {
  }

  /** The cave after drawing every path: rock on every segment, the source elsewhere at (500, 0), nothing else. */
  ghost predicate DrawnCave(paths: seq<seq<Point>>, cells: map<Point, Cell>) {
    forall p ::
      && (p in cells <==> p == SourceCoords || OnPaths(paths, |paths|, p))
      && (p in cells ==> cells[p] == if OnPaths(paths, |paths|, p) then Rock else Source)
  }

  /**
   * `run`: draws the rock paths into a cave holding the source, with
   * `highestRockY` starting at 0, then drops sand. Fails on a segment that is
   * neither horizontal nor vertical.
   */
  method Run(paths: seq<seq<Point>>, simulateFloor: bool) returns (r: Result<nat>)
    ensures r.Failure? <==> !Straight(paths, |paths|)
    ensures r.Success? ==> exists cells :: DrawnCave(paths, cells) && r.value == DropAll(cells, PathsHighest(paths, |paths|, 0), simulateFloor, 0).0
  {
    var cave := new Cave();
    var ok, highestRockY := cave.DrawRocks(paths, 0);
    if !ok {
      return Failure("diagonal line");
    }
    assert DrawnCave(paths, cave.cells);
    PathsHighestIsMax(paths, |paths|, 0);
    r := DropSand(cave, highestRockY, simulateFloor);
  }

  // ---------------------------------------------------------------------
  // Drawing the cave.

  /** `drawGraph`'s character for a cell: rock, source, sand, or air when absent. */
  function CellChar(cells: map<Point, Cell>, p: Point): char {
    if p !in cells then '.'
    else match cells[p]
      case Rock => '#'
      case Source => '+'
      case Sand => 'o'
  }

  /** The characters of row `y` from `x0` to `x1`, both included. */
  function Row(cells: map<Point, Cell>, y: int, x0: int, x1: int): (line: string)
    ensures |line| == if x1 >= x0 then x1 - x0 + 1 else 0
    ensures forall i :: 0 <= i < |line| ==> line[i] == CellChar(cells, Point(x0 + i, y))
    decreases x1 - x0
  {
    if x1 < x0 then "" else Row(cells, y, x0, x1 - 1) + [CellChar(cells, Point(x1, y))]
  }

  /** The rows of `drawGraph` from `upperLeft` to `lowerRight`, both corners included. */
  function Rows(cells: map<Point, Cell>, upperLeft: Point, lowerRight: Point): (lines: seq<string>)
    ensures |lines| == if lowerRight.y >= upperLeft.y then lowerRight.y - upperLeft.y + 1 else 0
    ensures forall j :: 0 <= j < |lines| ==> lines[j] == Row(cells, upperLeft.y + j, upperLeft.x, lowerRight.x)
    decreases lowerRight.y - upperLeft.y
  {
    if lowerRight.y < upperLeft.y then []
    else Rows(cells, upperLeft, Point(lowerRight.x, lowerRight.y - 1)) + [Row(cells, lowerRight.y, upperLeft.x, lowerRight.x)]
  }
  /**
   * `drawGraph`: row by row from the upper-left corner to the lower-right
   * one, each row built cell by cell, the rows joined with newlines.
   */
  method DrawGraph(cells: map<Point, Cell>, upperLeft: Point, lowerRight: Point) returns (graph: string)
    ensures var lines := Rows(cells, upperLeft, lowerRight);
      graph == if lines == [] then "" else Text.Join(lines, '\n')
  {
    var lines: seq<string> := [];
    var y := upperLeft.y;
    while y <= lowerRight.y
      invariant upperLeft.y <= y <= Max(upperLeft.y, lowerRight.y + 1)
      invariant lines == Rows(cells, upperLeft, Point(lowerRight.x, y - 1))
      decreases lowerRight.y - y
    {
      var line := "";
      var x := upperLeft.x;
      while x <= lowerRight.x
        invariant upperLeft.x <= x <= Max(upperLeft.x, lowerRight.x + 1)
        invariant line == Row(cells, y, upperLeft.x, x - 1)
        decreases lowerRight.x - x
      {
        line := line + [CellChar(cells, Point(x, y))];
        x := x + 1;
      }
      lines := lines + [line];
      y := y + 1;
    }
    graph := if lines == [] then "" else Text.Join(lines, '\n');
  }
}
