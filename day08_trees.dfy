/**
 * Day 8: a rectangular grid of tree heights, one decimal digit per tree. A
 * tree is visible if, looking from it toward some edge, every tree on the way
 * is strictly shorter. Its scenic score multiplies, over the four
 * directions, how many trees can be seen before the view is blocked. Row `x`
 * of the grid is `grid[x]`; `y` counts along a row.
 */
module TreeGrid {
  import opened Wrappers
  import Text

  type Grid = seq<seq<int>>

  /** Every row is as long as the first (what `run` checks while reading). */
  predicate Rectangular(grid: Grid) {
    forall k :: 0 <= k < |grid| ==> |grid[k]| == |grid[0]|
  }

  predicate InGrid(grid: Grid, x: int, y: int) {
    0 <= x < |grid| && 0 <= y < |grid[x]|
  }

  /** The height at `(x, y)`; 0 outside the grid, where it is never used. */
  function At(grid: Grid, x: int, y: int): int {
    if InGrid(grid, x, y) then grid[x][y] else 0
  }

  datatype Direction = Upward | Downward | Leftward | Rightward

  /** `k` steps from `(x, y)`: up and down change the row, left and right the place in the row. */
  function Shift(x: int, y: int, d: Direction, k: int): (int, int) {
    match d
    case Upward => (x - k, y)
    case Downward => (x + k, y)
    case Leftward => (x, y - k)
    case Rightward => (x, y + k)
  }

  /** How many steps from `(x, y)` to the edge in direction `d`. */
  function Dist(grid: Grid, x: int, y: int, d: Direction): nat
    requires Rectangular(grid) && InGrid(grid, x, y)
  {
    match d
    case Upward => x
    case Downward => |grid| - 1 - x
    case Leftward => y
    case Rightward => |grid[0]| - 1 - y
  }

  /** Walking toward the edge stays in the grid and brings the edge one step closer each time. */
  lemma ShiftDist(grid: Grid, x: int, y: int, d: Direction, k: int)
    requires Rectangular(grid) && InGrid(grid, x, y) && 0 <= k <= Dist(grid, x, y, d)
    ensures var p := Shift(x, y, d, k);
      InGrid(grid, p.0, p.1) && Dist(grid, p.0, p.1, d) == Dist(grid, x, y, d) - k &&
      Shift(p.0, p.1, d, 1) == Shift(x, y, d, k + 1)
  {
  }

  /** The heights met walking from `(x, y)` to the edge in direction `d`, nearest first. */
  function Ray(grid: Grid, x: int, y: int, d: Direction): (ray: seq<int>)
    requires Rectangular(grid) && InGrid(grid, x, y)
    ensures |ray| == Dist(grid, x, y, d)
    ensures forall k :: 0 <= k < |ray| ==> ray[k] == AtShift(grid, x, y, d, k + 1)
  {
    seq(Dist(grid, x, y, d), k => AtShift(grid, x, y, d, k + 1))
  }

  /** The height `k` steps from `(x, y)` in direction `d`. */
  function AtShift(grid: Grid, x: int, y: int, d: Direction, k: int): int {
    var p := Shift(x, y, d, k);
    At(grid, p.0, p.1)
  }

  /** What a step reports: `false` at the edge, or the height of the tree stepped onto. */
  datatype Seen = Edge | Tree(height: int)

  /** The neighbour of `(x, y)` in direction `d`. */
  function Neighbor(grid: Grid, x: int, y: int, d: Direction): (r: Seen)
    requires Rectangular(grid) && InGrid(grid, x, y)
    ensures r.Edge? <==> Dist(grid, x, y, d) == 0
    ensures r.Tree? ==> r.height == Ray(grid, x, y, d)[0]
  {
    if Dist(grid, x, y, d) == 0 then Edge else Tree(AtShift(grid, x, y, d, 1))
  }

  // ---------------------------------------------------------------------
  // The moving coordinate.

  /**
   * `Coord`: a position on the grid that steps one tree at a time and
   * reports the height it lands on. The bounds of `right` and `down` are
   * the corrected ones (see `RightAsWritten` and `DownAsWritten`).
   */
  class Coord {
    var x: int
    var y: int
    const grid: Grid

    ghost predicate Valid()
      reads this
    {
      Rectangular(grid) && InGrid(grid, x, y)
    }

    constructor(x: int, y: int, grid: Grid)
      requires Rectangular(grid) && InGrid(grid, x, y)
      ensures Valid() && this.x == x && this.y == y && this.grid == grid
    {
      this.x := x;
      this.y := y;
      this.grid := grid;
    }

    method Set(x: int, y: int)
      requires Rectangular(grid) && InGrid(grid, x, y)
      modifies this
      ensures Valid() && this.x == x && this.y == y
    {
      this.x := x;
      this.y := y;
    }

    function Value(): int
      reads this
      requires Valid()
    {
      grid[x][y]
    }

    /** `left`: `false` in the first place of the row, otherwise one step back along the row. */
    method Left() returns (r: Seen)
      requires Valid()
      modifies this
      ensures Valid() && r == Neighbor(grid, old(x), old(y), Leftward)
      ensures (x, y) == if r.Edge? then (old(x), old(y)) else Shift(old(x), old(y), Leftward, 1)
    {
      if y == 0 {
        return Edge;
      }
      y := y - 1;
      return Tree(Value());
    }

    /** `right`: `false` in the last place of the row, otherwise one step on along the row. */
    method Right() returns (r: Seen)
      requires Valid()
      modifies this
      ensures Valid() && r == Neighbor(grid, old(x), old(y), Rightward)
      ensures (x, y) == if r.Edge? then (old(x), old(y)) else Shift(old(x), old(y), Rightward, 1)
    {
      if y == |grid[0]| - 1 {
        return Edge;
      }
      y := y + 1;
      return Tree(Value());
    }

    /** `up`: `false` in the first row, otherwise one row back. */
    method Up() returns (r: Seen)
      requires Valid()
      modifies this
      ensures Valid() && r == Neighbor(grid, old(x), old(y), Upward)
      ensures (x, y) == if r.Edge? then (old(x), old(y)) else Shift(old(x), old(y), Upward, 1)
    {
      if x == 0 {
        return Edge;
      }
      x := x - 1;
      return Tree(Value());
    }

    /** `down`: `false` in the last row, otherwise one row on. */
    method Down() returns (r: Seen)
      requires Valid()
      modifies this
      ensures Valid() && r == Neighbor(grid, old(x), old(y), Downward)
      ensures (x, y) == if r.Edge? then (old(x), old(y)) else Shift(old(x), old(y), Downward, 1)
    {
      if x == |grid| - 1 {
        return Edge;
      }
      x := x + 1;
      return Tree(Value());
    }

    /** `direction.call(position)`: the movement method for `d`. */
    method Step(d: Direction) returns (r: Seen)
      requires Valid()
      modifies this
      ensures Valid() && r == Neighbor(grid, old(x), old(y), d)
      ensures (x, y) == if r.Edge? then (old(x), old(y)) else Shift(old(x), old(y), d, 1)
    {
      match d
      case Upward => r := Up();
      case Downward => r := Down();
      case Leftward => r := Left();
      case Rightward => r := Right();
    }
  }

  // ---------------------------------------------------------------------
  // Part one: visible trees.

  /** Every height on the ray is strictly below `h`. */
  predicate Clear(ray: seq<int>, h: int) {
    forall k :: 0 <= k < |ray| ==> ray[k] < h
  }

  /** The tree at `(x, y)` can be seen from outside the grid along some row or column. */
  predicate Visible(grid: Grid, x: int, y: int)
    requires Rectangular(grid) && InGrid(grid, x, y)
  {
    var h := grid[x][y];
    Clear(Ray(grid, x, y, Upward), h) || Clear(Ray(grid, x, y, Downward), h) ||
    Clear(Ray(grid, x, y, Leftward), h) || Clear(Ray(grid, x, y, Rightward), h)
  }

  /** A tree on the edge has nothing in front of it on one side. */
  lemma EdgeTreesVisible(grid: Grid, x: int, y: int)
    requires Rectangular(grid) && InGrid(grid, x, y)
    requires x == 0 || y == 0 || x == |grid| - 1 || y == |grid[0]| - 1
    ensures Visible(grid, x, y)
  {
    var d := if x == 0 then Upward else if y == 0 then Leftward else if x == |grid| - 1 then Downward else Rightward;
    assert |Ray(grid, x, y, d)| == 0;
  }

  /** One pass of the inner `for` of `one`: walk toward the edge until a tree at least `value` tall. */
  method LookClear(position: Coord, d: Direction, value: int) returns (clear: bool)
    requires position.Valid()
    modifies position
    ensures position.Valid()
    ensures clear == Clear(Ray(position.grid, old(position.x), old(position.y), d), value)
  {
    ghost var x0, y0 := position.x, position.y;
    ghost var ray := Ray(position.grid, x0, y0, d);
    ghost var k := 0;
    ghost var checked := 0;
    clear := true;
    var next := position.Step(d);
    if next.Tree? {
      k := 1;
    }
    while next.Tree?
      invariant position.Valid()
      invariant 0 <= k <= |ray| && (position.x, position.y) == Shift(x0, y0, d, k)
      invariant next.Edge? ==> k == |ray|
      invariant next.Tree? ==> 1 <= k && next.height == ray[k - 1]
      invariant checked == if next.Tree? then k - 1 else k
      invariant forall i :: 0 <= i < checked ==> ray[i] < value
      decreases |ray| - k + (if next.Tree? then 1 else 0)
    {
      if next.height >= value {
        clear := false;
        break;
      }
      checked := k;
      ShiftDist(position.grid, x0, y0, d, k);
      next := position.Step(d);
      if next.Tree? {
        k := k + 1;
      }
    }
  }

  /** Whether one tree is counted by `one`: the directions are tried in turn until one is clear. */
  method IsVisible(grid: Grid, x: int, y: int) returns (visible: bool)
    requires Rectangular(grid) && InGrid(grid, x, y)
    ensures visible == Visible(grid, x, y)
  {
    var position := new Coord(x, y, grid);
    var value := position.Value();
    var directions := [Upward, Downward, Leftward, Rightward];
    visible := false;
    var i := 0;
    while i < 4
      invariant 0 <= i <= 4 && position.grid == grid
      invariant forall j :: 0 <= j < i ==> !Clear(Ray(grid, x, y, directions[j]), value)
    {
      position.Set(x, y);
      var clear := LookClear(position, directions[i], value);
      if clear {
        assert Clear(Ray(grid, x, y, directions[i]), grid[x][y]);
        visible := true;
        return;
      }
      i := i + 1;
    }
    assert !Clear(Ray(grid, x, y, directions[0]), grid[x][y]) && !Clear(Ray(grid, x, y, directions[1]), grid[x][y]);
    assert !Clear(Ray(grid, x, y, directions[2]), grid[x][y]) && !Clear(Ray(grid, x, y, directions[3]), grid[x][y]);
  }

  /** Visible trees among the first `n` of row `x`. */
  function CountRow(grid: Grid, x: int, n: nat): (r: nat)
    requires Rectangular(grid) && 0 <= x < |grid| && n <= |grid[x]|
    ensures r <= n
  {
    if n == 0 then 0 else CountRow(grid, x, n - 1) + (if Visible(grid, x, n - 1) then 1 else 0)
  }

  /** Visible trees in the first `m` rows. */
  function CountRows(grid: Grid, m: nat): (r: nat)
    requires Rectangular(grid) && m <= |grid|
    ensures r <= m * (if grid == [] then 0 else |grid[0]|)
  {
    if m == 0 then 0 else CountRows(grid, m - 1) + CountRow(grid, m - 1, |grid[m - 1]|)
  }

  function CountVisible(grid: Grid): nat
    requires Rectangular(grid)
  {
    CountRows(grid, |grid|)
  }

  /** `one`: a nested loop over the grid adding one per visible tree. */
  method CountVisibleTrees(grid: Grid) returns (visible: nat)
    requires Rectangular(grid)
    ensures visible == CountVisible(grid)
  {
    visible := 0;
    for x := 0 to |grid|
      invariant visible == CountRows(grid, x)
    {
      for y := 0 to |grid[x]|
        invariant visible == CountRows(grid, x) + CountRow(grid, x, y)
      {
        var seen := IsVisible(grid, x, y);
        if seen {
          visible := visible + 1;
        }
      }
    }
  }

  /** In the first and the last row every tree is visible. */
  lemma {:induction false} EdgeRowCount(grid: Grid, x: int, n: nat)
    requires Rectangular(grid) && 0 <= x < |grid| && n <= |grid[x]|
    requires x == 0 || x == |grid| - 1
    ensures CountRow(grid, x, n) == n
  {
    if n > 0 {
      EdgeRowCount(grid, x, n - 1);
      EdgeTreesVisible(grid, x, n - 1);
    }
  }

  /** In any row of at least two trees, its two end trees are visible. */
  lemma {:induction false} RowCountAtLeastEnds(grid: Grid, x: int, n: nat)
    requires Rectangular(grid) && 0 <= x < |grid| && 1 <= n <= |grid[x]|
    ensures CountRow(grid, x, n) >= 1
    ensures n == |grid[x]| && n >= 2 ==> CountRow(grid, x, n) >= 2
  {
    if n == 1 {
      EdgeTreesVisible(grid, x, 0);
    } else {
      RowCountAtLeastEnds(grid, x, n - 1);
      if n == |grid[x]| {
        EdgeTreesVisible(grid, x, n - 1);
      }
    }
  }

  lemma {:induction false} RowsCountAtLeastEnds(grid: Grid, m: nat)
    requires Rectangular(grid) && 1 <= m < |grid| && |grid[0]| >= 2
    ensures CountRows(grid, m) >= |grid[0]| + 2 * (m - 1)
  {
    if m == 1 {
      EdgeRowCount(grid, 0, |grid[0]|);
      assert CountRows(grid, 0) == 0;
    } else {
      RowsCountAtLeastEnds(grid, m - 1);
      RowCountAtLeastEnds(grid, m - 1, |grid[m - 1]|);
    }
  }

  /**
   * Every tree is counted at most once, and all trees on the edge count:
   * between the perimeter and the whole grid.
   */
  lemma CountVisibleBounds(grid: Grid)
    requires Rectangular(grid) && |grid| >= 2 && |grid[0]| >= 2
    ensures 2 * |grid| + 2 * |grid[0]| - 4 <= CountVisible(grid) <= |grid| * |grid[0]|
  {
    RowsCountAtLeastEnds(grid, |grid| - 1);
    EdgeRowCount(grid, |grid| - 1, |grid[|grid| - 1]|);
  }

  // ---------------------------------------------------------------------
  // Part two: scenic scores.

  /**
   * The viewing distance along a ray: the trees up to and including the
   * first one at least `h` tall, or all of them up to the edge.
   */
  function ViewDistance(ray: seq<int>, h: int): (r: nat)
    requires |ray| >= 1
    ensures 1 <= r <= |ray|
    ensures forall i :: 0 <= i < r - 1 ==> ray[i] < h
    ensures r < |ray| ==> ray[r - 1] >= h
  {
    if ray[0] >= h || |ray| == 1 then 1 else 1 + ViewDistance(ray[1..], h)
  }

  /** The viewing distance is the only count with those properties. */
  lemma ViewDistanceIs(ray: seq<int>, h: int, r: nat)
    requires 1 <= r <= |ray|
    requires forall i :: 0 <= i < r - 1 ==> ray[i] < h
    requires r < |ray| ==> ray[r - 1] >= h
    ensures ViewDistance(ray, h) == r
  {
  }

  /** One pass of the inner `for` of `two`: count trees until one at least `value` tall or the edge. */
  method ViewingDistance(position: Coord, d: Direction, value: int) returns (score: nat)
    requires position.Valid() && Dist(position.grid, position.x, position.y, d) >= 1
    modifies position
    ensures position.Valid()
    ensures score == ViewDistance(Ray(position.grid, old(position.x), old(position.y), d), value)
  {
    ghost var x0, y0 := position.x, position.y;
    ghost var ray := Ray(position.grid, x0, y0, d);
    score := 1;
    var next := position.Step(d);
    while true
      invariant position.Valid()
      invariant next.Tree? && 1 <= score <= |ray|
      invariant (position.x, position.y) == Shift(x0, y0, d, score)
      invariant next.height == ray[score - 1]
      invariant forall i :: 0 <= i < score - 1 ==> ray[i] < value
      decreases |ray| - score
    {
      if next.height >= value {
        break;
      }
      ShiftDist(position.grid, x0, y0, d, score);
      next := position.Step(d);
      if next.Edge? {
        break;
      }
      score := score + 1;
    }
    ViewDistanceIs(ray, value, score);
  }

  /** Not on the edge: every direction has at least one tree. */
  predicate Interior(grid: Grid, x: int, y: int) {
    1 <= x < |grid| - 1 && 1 <= y < |grid[0]| - 1
  }

  /** The directions in the order `two` tries them. */
  function DirectionAt(i: int): Direction {
    if i == 0 then Upward else if i == 1 then Downward else if i == 2 then Leftward else Rightward
  }

  /** The product of the viewing distances in the first `i` directions. */
  function PartialScore(grid: Grid, x: int, y: int, i: nat): (r: nat)
    requires Rectangular(grid) && Interior(grid, x, y)
    ensures r >= 1
  {
    if i == 0 then 1
    else PartialScore(grid, x, y, i - 1) * ViewDistance(Ray(grid, x, y, DirectionAt(i - 1)), grid[x][y])
  }

  /** The scenic score: the viewing distances up, down, left and right multiplied. */
  function Score(grid: Grid, x: int, y: int): (r: nat)
    requires Rectangular(grid) && Interior(grid, x, y)
    ensures r >= 1
  {
    PartialScore(grid, x, y, 4)
  }

  /** One direction of the inner `for` of `two`, from a position set back to `(x, y)`. */
  method DirectionScore(position: Coord, x: int, y: int, i: nat) returns (distance: nat)
    requires Rectangular(position.grid) && Interior(position.grid, x, y)
    modifies position
    ensures distance == ViewDistance(Ray(position.grid, x, y, DirectionAt(i)), position.grid[x][y])
  {
    position.Set(x, y);
    distance := ViewingDistance(position, DirectionAt(i), position.Value());
  }

  /** The scenic score of one interior tree, as `two` builds it from a running product. */
  method ScenicScore(grid: Grid, x: int, y: int) returns (score: nat)
    requires Rectangular(grid) && Interior(grid, x, y)
    ensures score == Score(grid, x, y)
  {
    var position := new Coord(x, y, grid);
    var scenic: Option<nat> := None;
    for i := 0 to 4
      invariant position.grid == grid
      invariant scenic == if i == 0 then None else Some(PartialScore(grid, x, y, i))
    {
      var distance := DirectionScore(position, x, y, i);
      if scenic.None? {
        scenic := Some(distance);
      } else {
        scenic := Some(scenic.value * distance);
      }
    }
    score := scenic.value;
  }

  /** The best score among the interior trees before place `n` of row `x`, or 0. */
  function RowBest(grid: Grid, x: int, n: int): (r: nat)
    requires Rectangular(grid) && 1 <= x < |grid| - 1 && (n <= 1 || n <= |grid[0]| - 1)
    ensures forall y :: 1 <= y < n ==> Score(grid, x, y) <= r
    decreases n
  {
    if n <= 1 then 0
    else
      var best := RowBest(grid, x, n - 1);
      var s := Score(grid, x, n - 1);
      if s > best then s else best
  }

  /** The best score of a row is the score of one of its interior trees, if it has any. */
  lemma {:induction false} RowBestAttained(grid: Grid, x: int, n: int)
    requires Rectangular(grid) && 1 <= x < |grid| - 1 && (n <= 1 || n <= |grid[0]| - 1)
    ensures n <= 1 ==> RowBest(grid, x, n) == 0
    ensures n >= 2 ==> exists y :: 1 <= y < n && Score(grid, x, y) == RowBest(grid, x, n)
    decreases n
  {
    if n >= 2 {
      var s := Score(grid, x, n - 1);
      if n >= 3 {
        RowBestAttained(grid, x, n - 1);
      }
      if n == 2 || s > RowBest(grid, x, n - 1) {
        assert Score(grid, x, n - 1) == RowBest(grid, x, n);
      } else {
        var y :| 1 <= y < n - 1 && Score(grid, x, y) == RowBest(grid, x, n - 1);
        assert Score(grid, x, y) == RowBest(grid, x, n);
      }
    }
  }

  /** The best score among the interior trees of the rows before row `m`, or 0. */
  function GridBest(grid: Grid, m: int): (r: nat)
    requires Rectangular(grid) && (m <= 1 || m <= |grid| - 1)
    ensures forall x, y :: 1 <= x < m && Interior(grid, x, y) ==> Score(grid, x, y) <= r
    decreases m
  {
    if m <= 1 then 0
    else
      var best := GridBest(grid, m - 1);
      var row := RowBest(grid, m - 1, |grid[0]| - 1);
      var r := if row > best then row else best;
      var x := m - 1;
      assert forall y :: Interior(grid, x, y) ==> Score(grid, x, y) <= r;
      r
  }

  /** The best score of the rows is the score of one of their interior trees; it is 0 only when there is none. */
  lemma {:induction false} GridBestAttained(grid: Grid, m: int)
    requires Rectangular(grid) && (m <= 1 || m <= |grid| - 1)
    ensures GridBest(grid, m) == 0 <==> m <= 1 || |grid[0]| <= 2
    ensures GridBest(grid, m) != 0 ==>
      exists x, y :: 1 <= x < m && Interior(grid, x, y) && Score(grid, x, y) == GridBest(grid, m)
    decreases m
  {
    if m > 1 {
      GridBestAttained(grid, m - 1);
      var x := m - 1;
      RowBestAttained(grid, x, |grid[0]| - 1);
      if |grid[0]| > 2 {
        var y :| 1 <= y < |grid[0]| - 1 && Score(grid, x, y) == RowBest(grid, x, |grid[0]| - 1);
        assert Interior(grid, x, y);
      }
    }
  }

  /** The answer of `two`: the highest scenic score of an interior tree, 0 when there is none. */
  function BestScore(grid: Grid): (r: nat)
    requires Rectangular(grid)
    ensures forall x, y :: Interior(grid, x, y) ==> Score(grid, x, y) <= r
  {
    if |grid| < 2 then 0 else GridBest(grid, |grid| - 1)
  }

  /** The best score is the score of some interior tree, and 0 exactly when there is no interior tree. */
  lemma BestScoreAttained(grid: Grid)
    requires Rectangular(grid)
    ensures BestScore(grid) == 0 <==> !exists x, y :: Interior(grid, x, y)
    ensures BestScore(grid) != 0 ==> exists x, y :: Interior(grid, x, y) && Score(grid, x, y) == BestScore(grid)
  {
    if |grid| >= 2 {
      GridBestAttained(grid, |grid| - 1);
      if BestScore(grid) != 0 {
        assert Interior(grid, 1, 1);
      }
    }
  }

  /** The inner loop of `two` over the interior trees of row `x`. */
  method RowHighest(grid: Grid, x: int, highest: nat) returns (r: nat)
    requires Rectangular(grid) && 1 <= x < |grid| - 1
    ensures r == Max(highest, RowBest(grid, x, |grid[0]| - 1))
  {
    r := highest;
    var y := 1;
    while y < |grid[x]| - 1
      invariant 1 <= y <= Max(1, |grid[0]| - 1)
      invariant r == Max(highest, RowBest(grid, x, y))
    {
      RowBestStep(grid, x, y);
      var score := ScenicScore(grid, x, y);
      if score > r {
        r := score;
      }
      y := y + 1;
    }
  }

  /** Place `y` of the row raises the best score to its own score when that is higher. */
  lemma RowBestStep(grid: Grid, x: int, y: int)
    requires Rectangular(grid) && 1 <= x < |grid| - 1 && 1 <= y < |grid[0]| - 1
    ensures RowBest(grid, x, y + 1) == Max(RowBest(grid, x, y), Score(grid, x, y))
  {
  }

  /** Row `x` raises the best score to its own best when that is higher. */
  lemma GridBestStep(grid: Grid, x: int)
    requires Rectangular(grid) && 1 <= x < |grid| - 1
    ensures GridBest(grid, x + 1) == Max(GridBest(grid, x), RowBest(grid, x, |grid[0]| - 1))
  {
  }

  /** `two`: the nested loop over the interior trees keeping the highest score. */
  method HighestScenicScore(grid: Grid) returns (highest: nat)
    requires Rectangular(grid)
    ensures highest == BestScore(grid)
  {
    highest := 0;
    var x := 1;
    while x < |grid| - 1
      invariant 1 <= x <= Max(1, |grid| - 1)
      invariant highest == GridBest(grid, x)
    {
      GridBestStep(grid, x);
      highest := RowHighest(grid, x, highest);
      x := x + 1;
    }
  }

  function Max(a: int, b: int): int {
    if a < b then b else a
  }

  // ---------------------------------------------------------------------
  // Reading the grid.

  predicate AllDigits(line: string) {
    forall k :: 0 <= k < |line| ==> Text.IsDigit(line[k])
  }

  /** `line.split("").map((c) => parseInt(c))` on a line of digits. */
  function Digits(line: string): (row: seq<int>)
    requires AllDigits(line)
    ensures |row| == |line| && forall k :: 0 <= k < |line| ==> row[k] == Text.DigitValue(line[k])
  {
    seq(|line|, k requires 0 <= k < |line| && Text.IsDigit(line[k]) => Text.DigitValue(line[k]))
  }

  /**
   * The grid `run` builds: one row per non-blank line, failing with "not a
   * square grid" as soon as a row's length differs from the first row's.
   */
  function ParseGrid(lines: seq<string>): (r: Result<Grid>)
    ensures r.Success? <==>
      (forall k :: 0 <= k < |Text.NonBlank(lines)| ==> AllDigits(Text.NonBlank(lines)[k])) &&
      (forall k :: 0 <= k < |Text.NonBlank(lines)| ==> |Text.NonBlank(lines)[k]| == |Text.NonBlank(lines)[0]|)
    ensures r.Success? ==> Rectangular(r.value) && |r.value| == |Text.NonBlank(lines)|
    ensures r.Success? ==> forall k :: 0 <= k < |r.value| ==> r.value[k] == Digits(Text.NonBlank(lines)[k])
  {
    if lines == [] then Success([])
    else
      var init, line := lines[..|lines| - 1], lines[|lines| - 1];
      var previous := ParseGrid(init);
      var nb, before := Text.NonBlank(lines), Text.NonBlank(init);
      assert nb == if line == "" then before else before + [line];
      assert forall k :: 0 <= k < |before| ==> nb[k] == before[k];
      if previous.Failure? || line == "" then previous
      else
        assert nb[|nb| - 1] == line;
        if !AllDigits(line) then Failure("not a digit")
        else
          var row := Digits(line);
          if |previous.value| > 0 && |row| != |previous.value[0]| then
            assert nb[0] == before[0];
            Failure("not a square grid")
          else Success(previous.value + [row])
  }

  /** One line more for the reading loop: a blank line is skipped, any other line is checked and added as a row. */
  lemma ParseGridStep(lines: seq<string>, i: nat, grid: Grid)
    requires i < |lines| && ParseGrid(lines[..i]) == Success(grid)
    ensures var line := lines[i];
      ParseGrid(lines[..i + 1]) ==
        if line == "" then Success(grid)
        else if !AllDigits(line) then Failure("not a digit")
        else if |grid| > 0 && |Digits(line)| != |grid[0]| then Failure("not a square grid")
        else Success(grid + [Digits(line)])
  {
    assert lines[..i + 1][..i] == lines[..i];
  }

  /** The reading loop of `run`. */
  method ReadGrid(lines: seq<string>) returns (r: Result<Grid>)
    ensures r == ParseGrid(lines)
  {
    var grid: Grid := [];
    for i := 0 to |lines|
      invariant ParseGrid(lines[..i]) == Success(grid)
    {
      ParseGridStep(lines, i, grid);
      var line := lines[i];
      if line == "" {
        continue;
      }
      if !AllDigits(line) {
        FailureSticks(lines, i + 1);
        return Failure("not a digit");
      }
      var row := Digits(line);
      if |grid| > 0 && |row| != |grid[0]| {
        FailureSticks(lines, i + 1);
        return Failure("not a square grid");
      }
      grid := grid + [row];
    }
    assert lines[..|lines|] == lines;
    return Success(grid);
  }

  /** Once reading has failed, later lines do not change the outcome. */
  lemma {:induction false} FailureSticks(lines: seq<string>, k: nat)
    requires k <= |lines| && ParseGrid(lines[..k]).Failure?
    ensures ParseGrid(lines) == ParseGrid(lines[..k])
    decreases |lines| - k
  {
    if k < |lines| {
      assert lines[..k + 1][..k] == lines[..k];
      FailureSticks(lines, k + 1);
    } else {
      assert lines[..k] == lines;
    }
  }

  /** `one`: the number of visible trees. */
  method One(lines: seq<string>) returns (r: Result<nat>)
    ensures r.Success? <==> ParseGrid(lines).Success?
    ensures r.Success? ==> r.value == CountVisible(ParseGrid(lines).value)
  {
    var grid := ReadGrid(lines);
    if grid.Failure? {
      return Failure(grid.error);
    }
    var visible := CountVisibleTrees(grid.value);
    return Success(visible);
  }

  /** `two`: the highest scenic score. */
  method Two(lines: seq<string>) returns (r: Result<nat>)
    ensures r.Success? <==> ParseGrid(lines).Success?
    ensures r.Success? ==> r.value == BestScore(ParseGrid(lines).value)
  {
    var grid := ReadGrid(lines);
    if grid.Failure? {
      return Failure(grid.error);
    }
    var highest := HighestScenicScore(grid.value);
    return Success(highest);
  }

  // ---------------------------------------------------------------------
  // The edge tests of `right` and `down` as written.

  /** What a step of the original code can produce: `false`, a height, `undefined`, or a thrown TypeError. */
  datatype Reading = Stopped | Height(h: int) | Undefined | TypeError

  /**
   * `right` as written: the place in the row is compared with the number of
   * ROWS, so it stops early on a grid wider than tall and reads past the end
   * of the row (`undefined`) on a grid taller than wide.
   */
  function RightAsWritten(grid: Grid, x: int, y: int): (r: Reading)
    requires InGrid(grid, x, y)
    ensures r == Stopped <==> y == |grid| - 1
  {
    if y == |grid| - 1 then Stopped
    else if y + 1 < |grid[x]| then Height(grid[x][y + 1])
    else Undefined
  }

  /**
   * `down` as written: the row is compared with the length of the first row,
   * so it stops early on a grid taller than wide and, on a grid wider than
   * tall, indexes a row that does not exist (`grid[x][y]` throws).
   */
  function DownAsWritten(grid: Grid, x: int, y: int): (r: Reading)
    requires InGrid(grid, x, y)
    ensures r == Stopped <==> x == |grid[0]| - 1
  {
    if x == |grid[0]| - 1 then Stopped
    else if x + 1 < |grid| then (if y < |grid[x + 1]| then Height(grid[x + 1][y]) else Undefined)
    else TypeError
  }

  function AsReading(s: Seen): Reading {
    match s
    case Edge => Stopped
    case Tree(h) => Height(h)
  }

  /** On a square grid the two tests agree with the corrected ones. */
  lemma AsWrittenAgreesWhenSquare(grid: Grid, x: int, y: int)
    requires Rectangular(grid) && InGrid(grid, x, y) && |grid| == |grid[0]|
    ensures RightAsWritten(grid, x, y) == AsReading(Neighbor(grid, x, y, Rightward))
    ensures DownAsWritten(grid, x, y) == AsReading(Neighbor(grid, x, y, Downward))
  {
  }

  /**
   * On a one-row grid of two trees, `right` from the first tree stops
   * although a tree lies to its right; on a one-column grid of two trees,
   * `down` from the top stops although a tree lies below, and `right` reads
   * past the end of the row.
   */
  lemma AsWrittenStopsEarly()
    ensures RightAsWritten([[3, 5]], 0, 0) == Stopped
    ensures Neighbor([[3, 5]], 0, 0, Rightward) == Tree(5)
    ensures DownAsWritten([[3], [5]], 0, 0) == Stopped
    ensures Neighbor([[3], [5]], 0, 0, Downward) == Tree(5)
    ensures RightAsWritten([[3], [5]], 0, 0) == Undefined
  {
  }
}
