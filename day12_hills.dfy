/**
 * Day 12: hill climbing. The height map is a grid of letters; `S` is the
 * start (elevation `a`), `E` the best signal (elevation `z`). A step goes to an
 * orthogonal neighbour at most one letter higher. Part one asks for the fewest
 * steps from `S`, part two from any `S` or `a` cell.
 *
 * The graph library becomes a map from positions to cells plus a map from each
 * position to the positions it links to; the path search is a function
 * parameter `find`, returning the node path it found or `[]` for none.
 */
module HillClimbing {
  import opened Wrappers
  import Text

  /** `canTravelFrom`: the destination may be at most one letter higher; any drop is allowed. */
  predicate CanTravelFrom(a: char, b: char) {
    b as int - a as int <= 1
  }

  /** A square can always be left for one at the same or a lower elevation, never for one two or more higher. */
  lemma CanTravelFacts(a: char, b: char)
    ensures b <= a ==> CanTravelFrom(a, b)
    ensures b as int >= a as int + 2 ==> !CanTravelFrom(a, b)
    ensures CanTravelFrom(a, b) && CanTravelFrom(b, a) ==> -1 <= a as int - b as int <= 1
  {
  }

  datatype Part = One | Two

  /** The `startCondition` of `one` (only `S`) and of `two` (`S` or `a`). */
  predicate IsStart(part: Part, v: char) {
    match part
    case One => v == 'S'
    case Two => v == 'S' || v == 'a'
  }

  /** The data `run` stores with a node. */
  datatype Cell = Cell(elevation: char, start: bool, end: bool)

  /** The node data of a square with letter `v`. */
  function CellOf(v: char, part: Part): (cell: Cell)
    ensures cell.start <==> IsStart(part, v)
    ensures cell.end <==> v == 'E'
    ensures cell.start ==> cell.elevation == 'a'
    ensures cell.end ==> cell.elevation == 'z'
    ensures !cell.start && !cell.end ==> cell.elevation == v
  {
    var start := IsStart(part, v);
    var end := v == 'E';
    Cell(if start then 'a' else if end then 'z' else v, start, end)
  }

  predicate IsHeightLetter(v: char) {
    'a' <= v <= 'z' || v == 'S' || v == 'E'
  }

  /**
   * On a height map every elevation is a lower-case letter. In part two the
   * starts are exactly the squares at elevation `a` that are not the end; in part
   * one only the `S` square is a start.
   */
  lemma StartsAtLowest(v: char, part: Part)
    requires IsHeightLetter(v)
    ensures 'a' <= CellOf(v, part).elevation <= 'z'
    ensures part == Two ==> (CellOf(v, part).start <==> CellOf(v, part).elevation == 'a' && !CellOf(v, part).end)
    ensures part == One ==> (CellOf(v, part).start <==> v == 'S')
  {
  }

  /** A node's position; its id is `${row},${col}`. */
  datatype Pos = Pos(row: int, col: int)

  /** The node id of a position. */
  function Id(p: Pos): string {
    Text.IntToString(p.row) + "," + Text.IntToString(p.col)
  }

  /** `id.split(",").map(parseInt)` read back into a position; `None` when either number is missing. */
  function ParseId(id: string): Option<Pos> {
    var parts := Text.Split(id, ',');
    if |parts| < 2 then None
    else
      match (Text.ParseInt(parts[0]), Text.ParseInt(parts[1]))
      case (Some(r), Some(c)) => Some(Pos(r, c))
      case _ => None
  }

  /** `forEachNode` reads back the position each id was made from. */
  lemma ParseIdOfId(p: Pos)
    ensures ParseId(Id(p)) == Some(p)
  {
    var a, b := Text.IntToString(p.row), Text.IntToString(p.col);
    NoComma(p.row);
    NoComma(p.col);
    Text.SplitJoin([a, b], ',');
    assert Text.Join([a, b], ',') == a + "," + b;
    Text.ParseIntIntToString(p.row);
    Text.ParseIntIntToString(p.col);
  }

  lemma NoComma(i: int)
    ensures ',' !in Text.IntToString(i)
  {
    var d := Text.NatToString(if i < 0 then -i else i);
    assert forall k :: 0 <= k < |d| ==> d[k] != ',';
    if i < 0 {
      assert Text.IntToString(i) == "-" + d;
    }
  }

  /** Different positions get different ids, so a map keyed by position is the graph keyed by id. */
  lemma IdInjective(p: Pos, q: Pos)
    ensures Id(p) == Id(q) ==> p == q
  {
    ParseIdOfId(p);
    ParseIdOfId(q);
  }

  /** The squares of the (non-blank) rows. */
  predicate InRows(rows: seq<string>, p: Pos) {
    0 <= p.row < |rows| && 0 <= p.col < |rows[p.row]|
  }

  /** The nodes `run` adds: one per square, keyed by position. */
  function GridOf(rows: seq<string>, part: Part): map<Pos, Cell> {
    map r, c | 0 <= r < |rows| && 0 <= c < |rows[r]| :: Pos(r, c) := CellOf(rows[r][c], part)
  }

  /** `grid` holds exactly one node per square, with that square's data. */
  ghost predicate IsGrid(grid: map<Pos, Cell>, rows: seq<string>, part: Part) {
    (forall p :: p in grid <==> InRows(rows, p)) &&
    (forall p :: p in grid ==> InRows(rows, p) && grid[p] == CellOf(rows[p.row][p.col], part))
  }

  lemma GridOfIsGrid(rows: seq<string>, part: Part)
    ensures IsGrid(GridOf(rows, part), rows, part)
  {
    var g := GridOf(rows, part);
    forall p | InRows(rows, p) ensures p in g {
      assert p == Pos(p.row, p.col);
    }
  }

  /** A grid is determined by its rows. */
  lemma GridUnique(grid: map<Pos, Cell>, rows: seq<string>, part: Part)
    requires IsGrid(grid, rows, part)
    ensures grid == GridOf(rows, part)
  {
    GridOfIsGrid(rows, part);
    var g := GridOf(rows, part);
    assert grid.Keys == g.Keys;
  }

  /** The starts of one row, left to right. */
  function RowStarts(row: int, line: string, part: Part): seq<Pos> {
    if line == [] then []
    else RowStarts(row, line[..|line| - 1], part) + if IsStart(part, line[|line| - 1]) then [Pos(row, |line| - 1)] else []
  }

  /** `startNodes`: the start squares, row by row. */
  function StartsOf(rows: seq<string>, part: Part): seq<Pos> {
    if rows == [] then []
    else StartsOf(rows[..|rows| - 1], part) + RowStarts(|rows| - 1, rows[|rows| - 1], part)
  }

  /** The last `E` of one row. */
  function RowEnd(row: int, line: string): Option<Pos> {
    if line == [] then None
    else if line[|line| - 1] == 'E' then Some(Pos(row, |line| - 1))
    else RowEnd(row, line[..|line| - 1])
  }

  /** `endNode`: the last `E` square, if any. */
  function EndOf(rows: seq<string>): Option<Pos> {
    if rows == [] then None
    else
      match RowEnd(|rows| - 1, rows[|rows| - 1])
      case Some(p) => Some(p)
      case None => EndOf(rows[..|rows| - 1])
  }

  lemma {:induction false} RowStartsAre(row: int, line: string, part: Part, p: Pos)
    ensures p in RowStarts(row, line, part) <==> p.row == row && 0 <= p.col < |line| && IsStart(part, line[p.col])
  {
    if line != [] {
      RowStartsAre(row, line[..|line| - 1], part, p);
    }
  }

  /** The start list holds exactly the squares whose letter meets the start condition. */
  lemma {:induction false} StartsAre(rows: seq<string>, part: Part, p: Pos)
    ensures p in StartsOf(rows, part) <==> InRows(rows, p) && IsStart(part, rows[p.row][p.col])
  {
    if rows != [] {
      var init := rows[..|rows| - 1];
      StartsAre(init, part, p);
      RowStartsAre(|rows| - 1, rows[|rows| - 1], part, p);
      if 0 <= p.row < |init| {
        assert rows[p.row] == init[p.row];
      }
    }
  }

  lemma {:induction false} RowEndIs(row: int, line: string)
    ensures RowEnd(row, line).Some? ==>
      (RowEnd(row, line).value.row == row && 0 <= RowEnd(row, line).value.col < |line| &&
       line[RowEnd(row, line).value.col] == 'E')
    ensures RowEnd(row, line).None? <==> 'E' !in line
  {
    if line != [] {
      RowEndIs(row, line[..|line| - 1]);
      if line[|line| - 1] != 'E' {
        assert line == line[..|line| - 1] + [line[|line| - 1]];
      }
    }
  }

  /** The end is an `E` square, and there is none exactly when no row has an `E`. */
  lemma {:induction false} EndIs(rows: seq<string>)
    ensures EndOf(rows).Some? ==> InRows(rows, EndOf(rows).value) && rows[EndOf(rows).value.row][EndOf(rows).value.col] == 'E'
    ensures EndOf(rows).None? <==> forall r :: 0 <= r < |rows| ==> 'E' !in rows[r]
  {
    if rows != [] {
      var init := rows[..|rows| - 1];
      EndIs(init);
      RowEndIs(|rows| - 1, rows[|rows| - 1]);
      if EndOf(rows).Some? && RowEnd(|rows| - 1, rows[|rows| - 1]).None? {
        assert rows[EndOf(rows).value.row] == init[EndOf(rows).value.row];
      }
      if RowEnd(|rows| - 1, rows[|rows| - 1]).None? && EndOf(init).None? {
        forall r | 0 <= r < |rows| ensures 'E' !in rows[r] {
          if r < |init| {
            assert rows[r] == init[r];
          }
        }
      }
    }
  }

  /** The four positions `run` looks at: up, down, left, right. */
  function Neighbours(u: Pos): seq<Pos> {
    [Pos(u.row - 1, u.col), Pos(u.row + 1, u.col), Pos(u.row, u.col - 1), Pos(u.row, u.col + 1)]
  }

  /** The links `run` adds from `u`: to each existing neighbour it can travel to. */
  function OutLinks(grid: map<Pos, Cell>, u: Pos): set<Pos>
    requires u in grid
  {
    set v | v in Neighbours(u) && v in grid && CanTravelFrom(grid[u].elevation, grid[v].elevation)
  }

  /** All the links of the graph, as a map from each node to the nodes it links to. */
  function LinksOf(grid: map<Pos, Cell>): map<Pos, set<Pos>> {
    map u | u in grid :: OutLinks(grid, u)
  }

  function Abs(x: int): nat {
    if x < 0 then -x else x
  }

  /** A link joins two squares one apart in Manhattan distance, climbing at most one letter, and every such pair is linked. */
  lemma LinkIsStep(grid: map<Pos, Cell>, u: Pos, v: Pos)
    requires u in grid
    ensures v in OutLinks(grid, u) <==>
      v in grid && Abs(u.row - v.row) + Abs(u.col - v.col) == 1 && CanTravelFrom(grid[u].elevation, grid[v].elevation)
  {
    if v in grid && Abs(u.row - v.row) + Abs(u.col - v.col) == 1 {
      if v.row < u.row {
        assert v == Neighbours(u)[0];
      } else if v.row > u.row {
        assert v == Neighbours(u)[1];
      } else if v.col < u.col {
        assert v == Neighbours(u)[2];
      } else {
        assert v == Neighbours(u)[3];
      }
    }
  }

  /** The body of `forEachNode` for one node: the links from `u`, neighbour by neighbour. */
  method NodeLinks(grid: map<Pos, Cell>, u: Pos) returns (out: set<Pos>)
    requires u in grid
    ensures out == OutLinks(grid, u)
  {
    var ns := Neighbours(u);
    out := {};
    for i := 0 to 4
      invariant forall v :: v in out <==> v in ns[..i] && v in grid && CanTravelFrom(grid[u].elevation, grid[v].elevation)
    {
      var v := ns[i];
      assert ns[..i + 1] == ns[..i] + [v];
      if v in grid && CanTravelFrom(grid[u].elevation, grid[v].elevation) {
        out := out + {v};
      }
    }
    assert ns[..4] == ns;
  }

  /** `forEachNode`: adds the links of every node, in no particular order. */
  method BuildLinks(grid: map<Pos, Cell>) returns (links: map<Pos, set<Pos>>)
    ensures links == LinksOf(grid)
  {
    links := map[];
    var todo := grid.Keys;
    while todo != {}
      invariant todo <= grid.Keys
      invariant links.Keys == grid.Keys - todo
      invariant forall u :: u in links ==> u in grid && links[u] == OutLinks(grid, u)
      decreases |todo|
    {
      var u :| u in todo;
      var out := NodeLinks(grid, u);
      links := links[u := out];
      todo := todo - {u};
    }
    assert links.Keys == LinksOf(grid).Keys;
  }

  /** A path through the graph: at least one node, each linked to the next. */
  predicate IsWalk(links: map<Pos, set<Pos>>, w: seq<Pos>) {
    |w| >= 1 && forall k :: 0 <= k < |w| - 1 ==> w[k] in links && w[k + 1] in links[w[k]]
  }

  /** A walk from `s` to `e`. */
  predicate WalkFromTo(links: map<Pos, set<Pos>>, w: seq<Pos>, s: Pos, e: Pos) {
    IsWalk(links, w) && w[0] == s && w[|w| - 1] == e
  }

  /** Along a walk the elevation rises by at most one letter per step. */
  lemma {:induction false} WalkClimbsSlowly(grid: map<Pos, Cell>, w: seq<Pos>)
    requires IsWalk(LinksOf(grid), w) && w[|w| - 1] in grid
    ensures w[0] in grid
    ensures grid[w[|w| - 1]].elevation as int - grid[w[0]].elevation as int <= |w| - 1
  {
    if |w| > 1 {
      var init := w[..|w| - 1];
      assert IsWalk(LinksOf(grid), init) by {
        forall k | 0 <= k < |init| - 1 ensures init[k] in LinksOf(grid) && init[k + 1] in LinksOf(grid)[init[k]] {
          assert init[k] == w[k] && init[k + 1] == w[k + 1];
        }
      }
      var u, v := w[|w| - 2], w[|w| - 1];
      assert u in LinksOf(grid) && v in LinksOf(grid)[u];
      assert CanTravelFrom(grid[u].elevation, grid[v].elevation);
      WalkClimbsSlowly(grid, init);
    }
  }

  /** The shortest-path search: the node path from `s` to `e`, or `[]` when it finds none. */
  type Finder = (map<Pos, set<Pos>>, Pos, Pos) -> seq<Pos>

  /** The paths the search returns for each start. */
  function FoundPaths(find: Finder, links: map<Pos, set<Pos>>, starts: seq<Pos>, end: Pos): (paths: seq<seq<Pos>>)
    ensures |paths| == |starts|
    ensures forall k :: 0 <= k < |starts| ==> paths[k] == find(links, starts[k], end)
  {
    if starts == [] then []
    else FoundPaths(find, links, starts[..|starts| - 1], end) + [find(links, starts[|starts| - 1], end)]
  }

  /** `shortest` after the loop over the found paths: the least `length - 1`, or -1 when no path was found. */
  function Shortest(paths: seq<seq<Pos>>): int {
    if paths == [] then -1
    else
      var before := Shortest(paths[..|paths| - 1]);
      var path := paths[|paths| - 1];
      if path == [] then before
      else if before == -1 || |path| - 1 < before then |path| - 1
      else before
  }

  /** `Shortest` is the minimum of the found path lengths, and -1 exactly when none was found. */
  lemma {:induction false} ShortestIsMinimum(paths: seq<seq<Pos>>)
    ensures Shortest(paths) == -1 <==> forall k :: 0 <= k < |paths| ==> paths[k] == []
    ensures Shortest(paths) != -1 ==>
      (exists k :: 0 <= k < |paths| && paths[k] != [] && Shortest(paths) == |paths[k]| - 1)
    ensures forall k :: 0 <= k < |paths| && paths[k] != [] ==> 0 <= Shortest(paths) <= |paths[k]| - 1
  {
    if paths != [] {
      var init := paths[..|paths| - 1];
      ShortestIsMinimum(init);
      forall k | 0 <= k < |init| ensures paths[k] == init[k] {}
      if Shortest(paths) != -1 && Shortest(paths) == Shortest(init) {
        var k :| 0 <= k < |init| && init[k] != [] && Shortest(init) == |init[k]| - 1;
        assert paths[k] == init[k];
      }
    }
  }

  /** The value `run` returns, or the error it throws when there is no start or no end. */
  function RunResult(lines: seq<string>, part: Part, find: Finder): Result<int> {
    var rows := Text.NonBlank(lines);
    var starts := StartsOf(rows, part);
    var end := EndOf(rows);
    if |starts| == 0 || end.None? then Failure("no start or end node")
    else Success(Shortest(FoundPaths(find, LinksOf(GridOf(rows, part)), starts, end.value)))
  }

  /** The search returns either nothing or a walk from the start it was given to the end. */
  ghost predicate FindsWalks(find: Finder, links: map<Pos, set<Pos>>, starts: seq<Pos>, end: Pos) {
    forall k :: 0 <= k < |starts| ==>
      find(links, starts[k], end) == [] || WalkFromTo(links, find(links, starts[k], end), starts[k], end)
  }

  /** The search finds a walk whenever one exists, and none shorter exists. */
  ghost predicate FindsShortest(find: Finder, links: map<Pos, set<Pos>>, starts: seq<Pos>, end: Pos) {
    forall k, w :: 0 <= k < |starts| && WalkFromTo(links, w, starts[k], end) ==>
      find(links, starts[k], end) != [] && |find(links, starts[k], end)| <= |w|
  }

  /** When the search returns walks, a non-negative answer is the length of a walk from some start to the end. */
  lemma RunAnswerIsAWalk(lines: seq<string>, part: Part, find: Finder)
    requires (var rows := Text.NonBlank(lines);
      EndOf(rows).Some? && FindsWalks(find, LinksOf(GridOf(rows, part)), StartsOf(rows, part), EndOf(rows).value))
    requires RunResult(lines, part, find).Success? && RunResult(lines, part, find).value >= 0
    ensures var rows := Text.NonBlank(lines);
      exists k, w :: 0 <= k < |StartsOf(rows, part)| &&
        WalkFromTo(LinksOf(GridOf(rows, part)), w, StartsOf(rows, part)[k], EndOf(rows).value) &&
        |w| - 1 == RunResult(lines, part, find).value
  {
    var rows := Text.NonBlank(lines);
    var starts, end := StartsOf(rows, part), EndOf(rows).value;
    var links := LinksOf(GridOf(rows, part));
    var paths := FoundPaths(find, links, starts, end);
    ShortestIsMinimum(paths);
    var k :| 0 <= k < |paths| && paths[k] != [] && Shortest(paths) == |paths[k]| - 1;
    assert WalkFromTo(links, paths[k], starts[k], end);
  }

  /** When the search is optimal, no walk from any start to the end is shorter than the answer. */
  lemma RunAnswerIsShortest(lines: seq<string>, part: Part, find: Finder, k: nat, w: seq<Pos>)
    requires (var rows := Text.NonBlank(lines);
      EndOf(rows).Some? && k < |StartsOf(rows, part)| &&
      FindsShortest(find, LinksOf(GridOf(rows, part)), StartsOf(rows, part), EndOf(rows).value) &&
      WalkFromTo(LinksOf(GridOf(rows, part)), w, StartsOf(rows, part)[k], EndOf(rows).value))
    ensures RunResult(lines, part, find).Success?
    ensures 0 <= RunResult(lines, part, find).value <= |w| - 1
  {
    var rows := Text.NonBlank(lines);
    var starts, end := StartsOf(rows, part), EndOf(rows).value;
    var links := LinksOf(GridOf(rows, part));
    var paths := FoundPaths(find, links, starts, end);
    ShortestIsMinimum(paths);
    assert paths[k] != [] && |paths[k]| <= |w|;
  }

  /** The inner loop of `run` for one square: add its node and note it as a start or the end. */
  method AddSquare(grid: map<Pos, Cell>, starts: seq<Pos>, end: Option<Pos>, row: nat, col: nat, v: char, part: Part)
    returns (grid': map<Pos, Cell>, starts': seq<Pos>, end': Option<Pos>)
    ensures grid' == grid[Pos(row, col) := CellOf(v, part)]
    ensures starts' == starts + if IsStart(part, v) then [Pos(row, col)] else []
    ensures end' == if !IsStart(part, v) && v == 'E' then Some(Pos(row, col)) else end
  {
    var start := IsStart(part, v);
    var isEnd := v == 'E';
    var elevation := if start then 'a' else if isEnd then 'z' else v;
    grid' := grid[Pos(row, col) := Cell(elevation, start, isEnd)];
    starts', end' := starts, end;
    if start {
      starts' := starts + [Pos(row, col)];
    } else if isEnd {
      end' := Some(Pos(row, col));
    }
  }

  lemma GridStep(grid: map<Pos, Cell>, rows: seq<string>, line: string, col: nat, part: Part)
    requires col < |line|
    requires IsGrid(grid, rows + [line[..col]], part)
    ensures IsGrid(grid[Pos(|rows|, col) := CellOf(line[col], part)], rows + [line[..col + 1]], part)
  {
    var before, after := rows + [line[..col]], rows + [line[..col + 1]];
    var g := grid[Pos(|rows|, col) := CellOf(line[col], part)];
    forall p ensures p in g <==> InRows(after, p) {
      if 0 <= p.row < |rows| {
        assert after[p.row] == before[p.row];
      }
    }
    forall p | p in g ensures g[p] == CellOf(after[p.row][p.col], part) {
      if p.row < |rows| {
        assert after[p.row] == before[p.row];
      } else if p.col < col {
        assert after[p.row][p.col] == before[p.row][p.col];
      }
    }
  }

  /** One non-blank line of the height map: a node per letter, left to right. */
  method AddRow(grid: map<Pos, Cell>, starts: seq<Pos>, end: Option<Pos>, row: nat, line: string, part: Part, ghost rows: seq<string>)
    returns (grid': map<Pos, Cell>, starts': seq<Pos>, end': Option<Pos>)
    requires row == |rows| && IsGrid(grid, rows, part)
    requires starts == StartsOf(rows, part) && end == EndOf(rows)
    ensures IsGrid(grid', rows + [line], part)
    ensures starts' == StartsOf(rows + [line], part) && end' == EndOf(rows + [line])
  {
    grid', starts', end' := grid, starts, end;
    assert IsGrid(grid, rows + [line[..0]], part) by {
      forall p ensures InRows(rows, p) <==> InRows(rows + [line[..0]], p) {
        if 0 <= p.row < |rows| {
          assert (rows + [line[..0]])[p.row] == rows[p.row];
        }
      }
    }
    assert (rows + [line[..0]])[..|rows|] == rows;
    for col := 0 to |line|
      invariant IsGrid(grid', rows + [line[..col]], part)
      invariant starts' == StartsOf(rows, part) + RowStarts(row, line[..col], part)
      invariant end' == match RowEnd(row, line[..col]) case Some(p) => Some(p) case None => EndOf(rows)
    {
      GridStep(grid', rows, line, col, part);
      assert line[..col + 1][..col] == line[..col];
      grid', starts', end' := AddSquare(grid', starts', end', row, col, line[col], part);
    }
    assert line[..|line|] == line;
    assert (rows + [line])[..|rows|] == rows;
  }

  /** `NonBlank` gains a line exactly when the line is not blank. */
  lemma NonBlankStep(lines: seq<string>, i: nat)
    requires i < |lines|
    ensures Text.NonBlank(lines[..i + 1]) ==
      if lines[i] == "" then Text.NonBlank(lines[..i]) else Text.NonBlank(lines[..i]) + [lines[i]]
  {
    assert lines[..i + 1][..i] == lines[..i];
  }

  /** The loop of `run` over the lines: a row of nodes per non-blank line, the start list and the end. */
  method BuildGrid(lines: seq<string>, part: Part) returns (grid: map<Pos, Cell>, starts: seq<Pos>, end: Option<Pos>)
    ensures IsGrid(grid, Text.NonBlank(lines), part)
    ensures starts == StartsOf(Text.NonBlank(lines), part) && end == EndOf(Text.NonBlank(lines))
  {
    grid, starts, end := map[], [], None;
    var row := 0;
    for i := 0 to |lines|
      invariant row == |Text.NonBlank(lines[..i])|
      invariant IsGrid(grid, Text.NonBlank(lines[..i]), part)
      invariant starts == StartsOf(Text.NonBlank(lines[..i]), part) && end == EndOf(Text.NonBlank(lines[..i]))
    {
      NonBlankStep(lines, i);
      if lines[i] == "" {
        continue;
      }
      grid, starts, end := AddRow(grid, starts, end, row, lines[i], part, Text.NonBlank(lines[..i]));
      row := row + 1;
    }
    assert lines[..|lines|] == lines;
  }

  /** The loop of `run` over the start nodes: the shortest path the search finds to the end. */
  method ShortestFound(find: Finder, links: map<Pos, set<Pos>>, starts: seq<Pos>, end: Pos) returns (shortest: int)
    ensures shortest == Shortest(FoundPaths(find, links, starts, end))
  {
    shortest := -1;
    for i := 0 to |starts|
      invariant shortest == Shortest(FoundPaths(find, links, starts[..i], end))
    {
      ShortestFoundStep(find, links, starts, end, i);
      var found := find(links, starts[i], end);
      if found == [] {
        continue;
      }
      var pathLength := |found| - 1;
      if shortest == -1 || pathLength < shortest {
        shortest := pathLength;
      }
    }
    assert starts[..|starts|] == starts;
  }

  /** One more start: its found path shortens the answer when it is shorter. */
  lemma ShortestFoundStep(find: Finder, links: map<Pos, set<Pos>>, starts: seq<Pos>, end: Pos, i: nat)
    requires i < |starts|
    ensures var path := find(links, starts[i], end);
      var before := Shortest(FoundPaths(find, links, starts[..i], end));
      Shortest(FoundPaths(find, links, starts[..i + 1], end)) ==
        if path == [] then before else if before == -1 || |path| - 1 < before then |path| - 1 else before
  {
    assert starts[..i + 1][..i] == starts[..i];
    var paths := FoundPaths(find, links, starts[..i + 1], end);
    assert paths[..i] == FoundPaths(find, links, starts[..i], end);
  }

  /** `one` / `two` after reading the lines: build the graph, then take the shortest path found from any start. */
  method Run(lines: seq<string>, part: Part, find: Finder) returns (r: Result<int>)
    ensures r == RunResult(lines, part, find)
  {
    var grid, starts, end := BuildGrid(lines, part);
    if |starts| == 0 || end.None? {
      return Failure("no start or end node");
    }
    GridUnique(grid, Text.NonBlank(lines), part);
    var links := BuildLinks(grid);
    var shortest := ShortestFound(find, links, starts, end.value);
    return Success(shortest);
  }
}
