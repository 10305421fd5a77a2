/**
 * Day 9: a rope of knots on the integer grid. The head follows the moves of
 * the transcript one unit at a time; after each unit every other knot, in
 * order, catches up with the knot before it. Each knot records the positions
 * it has been at; the answer is how many positions the last knot visited.
 */
module Rope {
  import opened Wrappers
  import Text

  datatype Position = Position(x: int, y: int)

  const Origin := Position(0, 0)

  function Abs(n: int): nat {
    if n < 0 then -n else n
  }

  /** The number of unit steps between two positions along the axes. */
  function Manhattan(a: Position, b: Position): nat {
    Abs(a.x - b.x) + Abs(a.y - b.y)
  }

  /** The largest of the two coordinate differences. */
  function Chebyshev(a: Position, b: Position): nat {
    var dx := Abs(a.x - b.x);
    var dy := Abs(a.y - b.y);
    if dx < dy then dy else dx
  }

  /** `touching`: the Manhattan distance is 1 or 2 (so a knot on top of another is not touching it). */
  predicate Touching(a: Position, b: Position) {
    var v := Manhattan(a, b);
    v == 1 || v == 2
  }

  lemma TouchingSymmetric(a: Position, b: Position)
    ensures Touching(a, b) <==> Touching(b, a)
  {
  }

  /** Touching is adjacency (sideways or diagonal) or two steps apart in a straight line. */
  lemma TouchingMeans(a: Position, b: Position)
    ensures Touching(a, b) <==>
      (a != b && Chebyshev(a, b) <= 1) || (Manhattan(a, b) == 2 && (a.x == b.x || a.y == b.y))
    ensures !Touching(a, a)
  {
  }

  // ---------------------------------------------------------------------
  // The follow rule.

  /**
   * `updatePositionInRelationTo`: where a knot at `tail` goes when its leader
   * is at `head`. Two steps straight away: one step toward it; not touching
   * and in neither the same row nor column: one step diagonally toward it;
   * otherwise it stays.
   */
  function Follow(head: Position, tail: Position): (r: Position)
    ensures Abs(r.x - tail.x) <= 1 && Abs(r.y - tail.y) <= 1
  {
    if head.x == tail.x && head.y == tail.y + 2 then tail.(y := tail.y + 1)
    else if head.x == tail.x && head.y == tail.y - 2 then tail.(y := tail.y - 1)
    else if head.x == tail.x + 2 && head.y == tail.y then tail.(x := tail.x + 1)
    else if head.x == tail.x - 2 && head.y == tail.y then tail.(x := tail.x - 1)
    else if !Touching(head, tail) && head.x != tail.x && head.y != tail.y then
      Position(if head.x > tail.x then tail.x + 1 else tail.x - 1,
               if head.y > tail.y then tail.y + 1 else tail.y - 1)
    else tail
  }

  /** Two steps straight away: the knot takes one step toward its leader along that line. */
  lemma FollowStraight(head: Position, tail: Position)
    requires Manhattan(head, tail) == 2 && (head.x == tail.x || head.y == tail.y)
    ensures Manhattan(head, Follow(head, tail)) == 1
    ensures Follow(head, tail).x == tail.x || Follow(head, tail).y == tail.y
  {
  }

  /** Not touching and off both axes: one diagonal step that closes both gaps by one. */
  lemma FollowDiagonal(head: Position, tail: Position)
    requires !Touching(head, tail) && head.x != tail.x && head.y != tail.y
    ensures var r := Follow(head, tail);
      && Abs(r.x - tail.x) == 1 && Abs(r.y - tail.y) == 1
      && Abs(head.x - r.x) == Abs(head.x - tail.x) - 1
      && Abs(head.y - r.y) == Abs(head.y - tail.y) - 1
  {
  }

  /** Otherwise the knot stays where it is. */
  lemma FollowStays(head: Position, tail: Position)
    requires Chebyshev(head, tail) <= 1 || (Manhattan(head, tail) != 2 && (head.x == tail.x || head.y == tail.y))
    ensures Follow(head, tail) == tail
  {
  }

  /** A knot at most two steps away (in each coordinate) from its leader ends up next to it or on it. */
  lemma FollowStaysClose(head: Position, tail: Position)
    requires Chebyshev(head, tail) <= 2
    ensures Chebyshev(head, Follow(head, tail)) <= 1
  {
  }

  // ---------------------------------------------------------------------
  // The rope as values.

  /** One unit of a head move; an unknown direction leaves the head where it is. */
  function Move(p: Position, direction: string): (r: Position)
    ensures Chebyshev(p, r) <= 1
  {
    if direction == "U" then p.(y := p.y + 1)
    else if direction == "D" then p.(y := p.y - 1)
    else if direction == "L" then p.(x := p.x - 1)
    else if direction == "R" then p.(x := p.x + 1)
    else p
  }

  /** Each knot of `rest`, in order, follows the one before it (the first follows `leader`). */
  function Drag(leader: Position, rest: seq<Position>): (r: seq<Position>)
    ensures |r| == |rest|
    decreases |rest|
  {
    if rest == [] then []
    else
      var p := Follow(leader, rest[0]);
      [p] + Drag(p, rest[1..])
  }

  /** One unit of the transcript: the head moves, then knots `1 .. n - 1` follow in order. */
  function Step(knots: seq<Position>, direction: string): (r: seq<Position>)
    requires |knots| >= 1
    ensures |r| == |knots|
  {
    var head := Move(knots[0], direction);
    [head] + Drag(head, knots[1..])
  }

  /** Knot `i` of the stepped rope follows the already stepped knot `i - 1`. */
  lemma {:induction false} DragIndex(leader: Position, rest: seq<Position>, i: nat)
    requires i < |rest|
    ensures Drag(leader, rest)[i] == Follow(if i == 0 then leader else Drag(leader, rest)[i - 1], rest[i])
    decreases i
  {
    if i > 0 {
      DragIndex(Follow(leader, rest[0]), rest[1..], i - 1);
    }
  }

  lemma StepIndex(knots: seq<Position>, direction: string, i: nat)
    requires 1 <= i < |knots|
    ensures Step(knots, direction)[i] == Follow(Step(knots, direction)[i - 1], knots[i])
  {
    var head := Move(knots[0], direction);
    DragIndex(head, knots[1..], i - 1);
  }

  /** Every knot is next to or on the knot before it. */
  predicate Close(knots: seq<Position>) {
    forall i :: 1 <= i < |knots| ==> Chebyshev(knots[i - 1], knots[i]) <= 1
  }

  /** A rope that is close stays close after a step: no knot is ever left behind. */
  lemma StepKeepsClose(knots: seq<Position>, direction: string)
    requires |knots| >= 1 && Close(knots)
    ensures Close(Step(knots, direction))
  {
    var r := Step(knots, direction);
    forall i | 1 <= i < |knots|
      ensures Chebyshev(r[i - 1], r[i]) <= 1
    {
      StepIndex(knots, direction, i);
      if i == 1 {
        assert r[0] == Move(knots[0], direction);
      } else {
        StepIndex(knots, direction, i - 1);
      }
      FollowStaysClose(r[i - 1], knots[i]);
    }
  }

  /** The rope and the positions visited by its last knot. */
  datatype Rope = Rope(knots: seq<Position>, trail: set<Position>)

  /** The starting rope: every knot at the origin, the last knot having visited only the origin. */
  function Start(numKnots: nat): (r: Rope)
    requires numKnots >= 1
    ensures |r.knots| == numKnots && Close(r.knots) && r.trail == {Origin}
  {
    Rope(seq(numKnots, _ => Origin), {Origin})
  }

  /**
   * One unit: the last knot adds its new position to its trail. A rope of one
   * knot adds nothing, since the head records only its starting position.
   */
  function StepRope(r: Rope, direction: string): (s: Rope)
    requires |r.knots| >= 1
    ensures |s.knots| == |r.knots| && r.trail <= s.trail
  {
    var knots := Step(r.knots, direction);
    Rope(knots, if |knots| >= 2 then r.trail + {knots[|knots| - 1]} else r.trail)
  }

  /** `count` units in one direction. */
  function StepTimes(r: Rope, direction: string, count: nat): (s: Rope)
    requires |r.knots| >= 1
    ensures |s.knots| == |r.knots| && r.trail <= s.trail
    decreases count
  {
    if count == 0 then r else StepRope(StepTimes(r, direction, count - 1), direction)
  }

  /**
   * The number of units of a move line: `parseInt` without a radix of its
   * second word; a missing word, NaN or a number below 1 stops the loop
   * `i < distance` at once.
   */
  function Distance(line: string): (n: nat)
    ensures var parts := Text.Split(line, ' ');
            n > 0 <==> |parts| >= 2 && Text.ParseIntAuto(parts[1]).Some? && Text.ParseIntAuto(parts[1]).value > 0
    ensures n > 0 ==> Text.ParseIntAuto(Text.Split(line, ' ')[1]) == Some(n)
  {
    var parts := Text.Split(line, ' ');
    if |parts| < 2 then 0
    else match Text.ParseIntAuto(parts[1])
      case Some(n) => if n > 0 then n else 0
      case None => 0
  }

  /** A distance after `0x` is hexadecimal: "R 0x10" moves sixteen units. */
  lemma DistanceHex()
    ensures Distance("R 0x10") == 16
  {
    assert "R 0x10" == "R" + [' '] + "0x10";
    Text.SplitCons("R", ' ', "0x10");
    assert ' ' !in "0x10";
    assert "0x10" == ['0', 'x'] + "10";
    Text.ParseIntAutoHex('x', "10");
  }

  /** The direction of a move line: its first word. */
  function Direction(line: string): string {
    Text.Split(line, ' ')[0]
  }

  /** The rope after the transcript; blank lines are skipped. */
  function Simulate(lines: seq<string>, numKnots: nat): (r: Rope)
    requires numKnots >= 1
    ensures |r.knots| == numKnots
    decreases |lines|
  {
    if lines == [] then Start(numKnots)
    else
      var before := Simulate(lines[..|lines| - 1], numKnots);
      var line := lines[|lines| - 1];
      if line == "" then before else StepTimes(before, Direction(line), Distance(line))
  }

  /** What holds of the rope at every point: its knots are close and the last knot's trail has the origin and where it is now. */
  predicate Invariant(r: Rope) {
    && |r.knots| >= 1 && Close(r.knots) && Origin in r.trail
    && (|r.knots| >= 2 ==> r.knots[|r.knots| - 1] in r.trail)
  }

  lemma {:induction false} StepTimesInvariant(r: Rope, direction: string, count: nat)
    requires Invariant(r)
    ensures Invariant(StepTimes(r, direction, count))
    decreases count
  {
    if count > 0 {
      var before := StepTimes(r, direction, count - 1);
      StepTimesInvariant(r, direction, count - 1);
      StepKeepsClose(before.knots, direction);
    }
  }

  /** Throughout the transcript the rope stays close and the trail holds the origin and the last knot. */
  lemma {:induction false} SimulateInvariant(lines: seq<string>, numKnots: nat)
    requires numKnots >= 1
    ensures Invariant(Simulate(lines, numKnots))
    decreases |lines|
  {
    if lines != [] {
      SimulateInvariant(lines[..|lines| - 1], numKnots);
      var line := lines[|lines| - 1];
      if line != "" {
        StepTimesInvariant(Simulate(lines[..|lines| - 1], numKnots), Direction(line), Distance(line));
      }
    }
  }

  /** The trail only grows as the transcript goes on. */
  lemma {:induction false} TrailGrows(lines: seq<string>, more: seq<string>, numKnots: nat)
    requires numKnots >= 1
    ensures Simulate(lines, numKnots).trail <= Simulate(lines + more, numKnots).trail
    decreases |more|
  {
    if more == [] {
      assert lines + more == lines;
    } else {
      var front := more[..|more| - 1];
      assert (lines + more)[..|lines + more| - 1] == lines + front;
      TrailGrows(lines, front, numKnots);
    }
  }

  // ---------------------------------------------------------------------
  // The objects.

  /** A knot: its position, updated in place, and the set of positions it has been at. */
  class Knot {
    var position: Position
    var visited: set<Position>

    constructor(p: Position)
      ensures position == p && visited == {p}
    {
      position := p;
      visited := {p};
    }

    method Up()
      modifies this
      ensures position == old(position).(y := old(position).y + 1) && visited == old(visited)
    {
      position := position.(y := position.y + 1);
    }

    method Down()
      modifies this
      ensures position == old(position).(y := old(position).y - 1) && visited == old(visited)
    {
      position := position.(y := position.y - 1);
    }

    method Left()
      modifies this
      ensures position == old(position).(x := old(position).x - 1) && visited == old(visited)
    {
      position := position.(x := position.x - 1);
    }

    method Right()
      modifies this
      ensures position == old(position).(x := old(position).x + 1) && visited == old(visited)
    {
      position := position.(x := position.x + 1);
    }

    /** `updatePositionInRelationTo`: follows the leader at `head` and records the position reached. */
    method UpdatePositionInRelationTo(head: Position)
      modifies this
      ensures position == Follow(head, old(position))
      ensures visited == old(visited) + {position}
    {
      if head.x == position.x && head.y == position.y + 2 {
        Up();
      } else if head.x == position.x && head.y == position.y - 2 {
        Down();
      } else if head.x == position.x + 2 && head.y == position.y {
        Right();
      } else if head.x == position.x - 2 && head.y == position.y {
        Left();
      } else if !Touching(head, position) && head.x != position.x && head.y != position.y {
        if head.x > position.x {
          Right();
        } else {
          Left();
        }
        if head.y > position.y {
          Up();
        } else {
          Down();
        }
      }
      visited := visited + {position};
    }
  }

  /** The positions of a sequence of knots. */
  ghost function Positions(knots: seq<Knot>): (r: seq<Position>)
    reads knots
    ensures |r| == |knots| && forall i :: 0 <= i < |knots| ==> r[i] == knots[i].position
  {
    seq(|knots|, i reads knots requires 0 <= i < |knots| => knots[i].position)
  }

  /** No knot appears twice. */
  predicate Distinct(knots: seq<Knot>) {
    forall i, j :: 0 <= i < j < |knots| ==> knots[i] != knots[j]
  }

  /** One unit of a move on the objects: the head moves, then knots `1 .. n - 1` follow in order. */
  method StepKnots(knots: seq<Knot>, direction: string)
    requires |knots| >= 1 && Distinct(knots)
    modifies knots
    ensures var after := StepRope(Rope(old(Positions(knots)), old(knots[|knots| - 1].visited)), direction);
      Positions(knots) == after.knots && knots[|knots| - 1].visited == after.trail
  {
    ghost var before := Positions(knots);
    ghost var after := Step(before, direction);
    var head := knots[0];
    if direction == "U" {
      head.Up();
    } else if direction == "D" {
      head.Down();
    } else if direction == "L" {
      head.Left();
    } else if direction == "R" {
      head.Right();
    }
    ghost var tail := knots[|knots| - 1];
    for i := 1 to |knots|
      invariant forall j :: 0 <= j < i ==> knots[j].position == after[j]
      invariant forall j :: i <= j < |knots| ==> knots[j].position == before[j]
      invariant i < |knots| || |knots| == 1 ==> tail.visited == old(tail.visited)
      invariant i >= 2 && i == |knots| ==> tail.visited == old(tail.visited) + {tail.position}
    {
      StepIndex(before, direction, i);
      knots[i].UpdatePositionInRelationTo(knots[i - 1].position);
    }
  }

  /** The knots of `run`: `numKnots` new knots at the origin. */
  method NewKnots(numKnots: nat) returns (knots: seq<Knot>)
    ensures |knots| == numKnots && Distinct(knots)
    ensures forall j :: 0 <= j < numKnots ==> fresh(knots[j])
    ensures forall j :: 0 <= j < numKnots ==> knots[j].position == Origin && knots[j].visited == {Origin}
  {
    knots := [];
    for i := 0 to numKnots
      invariant |knots| == i && Distinct(knots)
      invariant forall j :: 0 <= j < i ==> fresh(knots[j])
      invariant forall j :: 0 <= j < i ==> knots[j].position == Origin && knots[j].visited == {Origin}
    {
      var k := new Knot(Origin);
      knots := knots + [k];
    }
  }

  /** The units of one move line, on the objects. */
  method MoveKnots(knots: seq<Knot>, direction: string, distance: nat)
    requires |knots| >= 1 && Distinct(knots)
    modifies knots
    ensures var after := StepTimes(Rope(old(Positions(knots)), old(knots[|knots| - 1].visited)), direction, distance);
      Positions(knots) == after.knots && knots[|knots| - 1].visited == after.trail
  {
    ghost var tail := knots[|knots| - 1];
    ghost var start := Rope(Positions(knots), tail.visited);
    for s := 0 to distance
      invariant Positions(knots) == StepTimes(start, direction, s).knots
      invariant tail.visited == StepTimes(start, direction, s).trail
    {
      StepKnots(knots, direction);
    }
  }

  /** `run`: the number of positions the last of `numKnots` knots visits. */
  method Run(lines: seq<string>, numKnots: nat) returns (count: nat)
    requires numKnots >= 1
    ensures count == |Simulate(lines, numKnots).trail|
  {
    var knots := NewKnots(numKnots);
    var tail := knots[numKnots - 1];
    assert Positions(knots) == Start(numKnots).knots;
    for li := 0 to |lines|
      invariant Rope(Positions(knots), tail.visited) == Simulate(lines[..li], numKnots)
    {
      assert lines[..li + 1][..li] == lines[..li];
      var line := lines[li];
      if line != "" {
        MoveKnots(knots, Direction(line), Distance(line));
      }
    }
    assert lines[..|lines|] == lines;
    return |tail.visited|;
  }

  /** Part one: a rope of two knots. */
  method PartOne(lines: seq<string>) returns (count: nat)
    ensures count == |Simulate(lines, 2).trail|
  {
    count := Run(lines, 2);
  }

  /** Part two: a rope of ten knots. */
  method PartTwo(lines: seq<string>) returns (count: nat)
    ensures count == |Simulate(lines, 10).trail|
  {
    count := Run(lines, 10);
  }

  /** The last knot always visits at least the origin. */
  lemma VisitsAtLeastOne(lines: seq<string>, numKnots: nat)
    requires numKnots >= 1
    ensures |Simulate(lines, numKnots).trail| >= 1
  {
    SimulateInvariant(lines, numKnots);
  }
}
