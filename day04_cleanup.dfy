/**
 * Day 4: camp cleanup. Each line holds two section-ID ranges, "2-4,6-8".
 * Part one counts the lines where one range contains the other, part two the
 * lines where they overlap.
 * A bound that `parseInt` cannot read (NaN) or that is missing (`undefined`)
 * is `None`; every comparison with it is false, as in JavaScript. A line
 * without a comma has no second range, and reading a bound of `undefined`
 * throws a TypeError: here a `Failure`.
 */
module Cleanup {
  import opened Wrappers
  import Text

  /** A bound as JavaScript sees it: a number, or NaN / `undefined`. */
  type Bound = Option<int>

  /** `a <= b`, false when either side is not a number. */
  predicate Le(a: Bound, b: Bound) {
    a.Some? && b.Some? && a.value <= b.value
  }

  /** `SIDRange`: the first and last section of an assignment. */
  datatype Range = Range(lo: Bound, hi: Bound)

  /** Both bounds are numbers and the first is not after the last. */
  predicate WellFormed(r: Range) {
    Le(r.lo, r.hi)
  }

  /** The sections a well-formed range covers. */
  predicate Covers(r: Range, x: int)
    requires WellFormed(r)
  {
    r.lo.value <= x <= r.hi.value
  }

  /** `contains`: one of the ranges lies within the other. */
  predicate Contains(r1: Range, r2: Range) {
    (Le(r1.lo, r2.lo) && Le(r2.hi, r1.hi)) || (Le(r2.lo, r1.lo) && Le(r1.hi, r2.hi))
  }

  /** `overlaps`: the start of one range lies within the other. */
  predicate Overlaps(r1: Range, r2: Range) {
    (Le(r1.lo, r2.lo) && Le(r2.lo, r1.hi)) || (Le(r2.lo, r1.lo) && Le(r1.lo, r2.hi))
  }

  /** Neither test depends on the order of the two ranges. */
  lemma Symmetric(r1: Range, r2: Range)
    ensures Contains(r1, r2) == Contains(r2, r1)
    ensures Overlaps(r1, r2) == Overlaps(r2, r1)
  {
  }

  /** For well-formed ranges, containment is containment of the covered sections. */
  lemma ContainsMeansSubset(r1: Range, r2: Range)
    requires WellFormed(r1) && WellFormed(r2)
    ensures Contains(r1, r2) <==>
      (forall x :: Covers(r2, x) ==> Covers(r1, x)) || (forall x :: Covers(r1, x) ==> Covers(r2, x))
  {
    if (forall x :: Covers(r2, x) ==> Covers(r1, x)) {
      assert Covers(r2, r2.lo.value) && Covers(r2, r2.hi.value);
    }
    if (forall x :: Covers(r1, x) ==> Covers(r2, x)) {
      assert Covers(r1, r1.lo.value) && Covers(r1, r1.hi.value);
    }
  }

  /** For well-formed ranges, overlapping means sharing a section: the larger start is at most the smaller end. */
  lemma OverlapsMeansShared(r1: Range, r2: Range)
    requires WellFormed(r1) && WellFormed(r2)
    ensures Overlaps(r1, r2) <==> Max(r1.lo.value, r2.lo.value) <= Min(r1.hi.value, r2.hi.value)
    ensures Overlaps(r1, r2) <==> exists x :: Covers(r1, x) && Covers(r2, x)
  {
    if Overlaps(r1, r2) {
      var x := Max(r1.lo.value, r2.lo.value);
      assert Covers(r1, x) && Covers(r2, x);
    }
  }

  function Max(a: int, b: int): int {
    if a < b then b else a
  }

  function Min(a: int, b: int): int {
    if a < b then a else b
  }

  /** For well-formed ranges, containment implies overlap, and a range both contains and overlaps itself. */
  lemma ContainsImpliesOverlaps(r1: Range, r2: Range)
    requires WellFormed(r1) && WellFormed(r2)
    ensures Contains(r1, r2) ==> Overlaps(r1, r2)
    ensures Contains(r1, r1) && Overlaps(r1, r1)
  {
  }

  /** `r.split("-").map(parseInt)`: the first two numbers, `None` for NaN or a missing one. */
  function ParseRange(s: string): Range {
    var nums := Text.Split(s, '-');
    Range(Text.ParseInt(nums[0]), if |nums| >= 2 then Text.ParseInt(nums[1]) else None)
  }

  /** `${lo}-${hi}` for two numbers. */
  function ShowRange(lo: nat, hi: nat): string {
    Text.NatToString(lo) + "-" + Text.NatToString(hi)
  }

  /** Reading back a printed range gives its bounds. */
  lemma ParseShowRange(lo: nat, hi: nat)
    ensures ParseRange(ShowRange(lo, hi)) == Range(Some(lo), Some(hi))
  {
    var a, b := Text.NatToString(lo), Text.NatToString(hi);
    assert '-' !in a && '-' !in b by {
      assert forall k :: 0 <= k < |a| ==> a[k] != '-';
      assert forall k :: 0 <= k < |b| ==> b[k] != '-';
    }
    Text.SplitJoin([a, b], '-');
    assert Text.Join([a, b], '-') == a + "-" + b;
    Text.ParseIntNatToString(lo);
    Text.ParseIntNatToString(hi);
  }

  /** The two ranges of a trimmed line, or the TypeError of a line without a comma. */
  function ParseLine(line: string): Result<(Range, Range)> {
    var parts := Text.Split(Text.Trim(line), ',');
    if |parts| < 2 then Failure("TypeError: Cannot read properties of undefined")
    else Success((ParseRange(parts[0]), ParseRange(parts[1])))
  }

  datatype Part = One | Two

  /** The test of part one (`contains`) or part two (`overlaps`). */
  predicate Test(part: Part, r1: Range, r2: Range) {
    match part
    case One => Contains(r1, r2)
    case Two => Overlaps(r1, r2)
  }

  /** One line more: an error stays, a line that throws is the error, a pair that passes adds one. */
  function Step(before: Result<nat>, pair: Result<(Range, Range)>, part: Part): Result<nat> {
    if before.Failure? then before
    else if pair.Failure? then Failure(pair.error)
    else Success(if Test(part, pair.value.0, pair.value.1) then before.value + 1 else before.value)
  }

  /** Every line read into its ranges. */
  function ParseLines(lines: seq<string>): (pairs: seq<Result<(Range, Range)>>)
    ensures |pairs| == |lines|
    ensures forall k :: 0 <= k < |lines| ==> pairs[k] == ParseLine(lines[k])
  {
    seq(|lines|, k requires 0 <= k < |lines| => ParseLine(lines[k]))
  }

  /** How many read lines pass the test, or the first error. */
  function CountOf(pairs: seq<Result<(Range, Range)>>, part: Part): Result<nat> {
    if pairs == [] then Success(0)
    else Step(CountOf(pairs[..|pairs| - 1], part), pairs[|pairs| - 1], part)
  }

  /** The answer of `one` / `two`. */
  function CountPairs(lines: seq<string>, part: Part): Result<nat> {
    CountOf(ParseLines(lines), part)
  }

  /** The count is at most the number of lines, and fails exactly when some line has no comma. */
  lemma {:induction false} CountOfBounds(pairs: seq<Result<(Range, Range)>>, part: Part)
    ensures CountOf(pairs, part).Success? ==> CountOf(pairs, part).value <= |pairs|
    ensures CountOf(pairs, part).Failure? <==> exists k :: 0 <= k < |pairs| && pairs[k].Failure?
  {
    if pairs != [] {
      var init := pairs[..|pairs| - 1];
      CountOfBounds(init, part);
      if CountOf(init, part).Failure? {
        var k :| 0 <= k < |init| && init[k].Failure?;
        assert pairs[k] == init[k];
      }
      if CountOf(init, part).Success? && pairs[|pairs| - 1].Success? {
        forall k | 0 <= k < |pairs| ensures pairs[k].Success? {
          if k < |init| {
            assert pairs[k] == init[k];
          }
        }
      }
    }
  }

  /** A line read into two well-formed ranges. */
  predicate PairWellFormed(p: Result<(Range, Range)>) {
    p.Success? && WellFormed(p.value.0) && WellFormed(p.value.1)
  }

  /** On well-formed input, every pair part one counts part two counts too. */
  lemma {:induction false} ContainedAtMostOverlapping(pairs: seq<Result<(Range, Range)>>)
    requires forall k :: 0 <= k < |pairs| ==> PairWellFormed(pairs[k])
    ensures CountOf(pairs, One).Success? && CountOf(pairs, Two).Success?
    ensures CountOf(pairs, One).value <= CountOf(pairs, Two).value
  {
    if pairs != [] {
      var init := pairs[..|pairs| - 1];
      assert forall k :: 0 <= k < |init| ==> init[k] == pairs[k];
      ContainedAtMostOverlapping(init);
      var pair := pairs[|pairs| - 1];
      assert PairWellFormed(pair);
      ContainsImpliesOverlaps(pair.value.0, pair.value.1);
    }
  }

  /** The body of the loop for a line read into `pair`: count it if it passes, and stop at an error. */
  method CountLine(total: nat, pair: Result<(Range, Range)>, part: Part) returns (r: Result<nat>)
    ensures r == Step(Success(total), pair, part)
  {
    if pair.Failure? {
      return Failure(pair.error);
    }
    var (r1, r2) := pair.value;
    var pass := match part case One => Contains(r1, r2) case Two => Overlaps(r1, r2);
    r := Success(if pass then total + 1 else total);
  }

  /** `one` / `two`: the loop reading each line and counting those that pass. */
  method Count(lines: seq<string>, part: Part) returns (r: Result<nat>)
    ensures r == CountPairs(lines, part)
  {
    ghost var pairs := ParseLines(lines);
    var total := 0;
    for i := 0 to |lines|
      invariant CountOf(pairs[..i], part) == Success(total)
    {
      CountOfStep(pairs, i, part);
      var pair := ParseLine(lines[i]);
      var next := CountLine(total, pair, part);
      if next.Failure? {
        FailureSticks(pairs, i + 1, part);
        return next;
      }
      total := next.value;
    }
    assert pairs[..|lines|] == pairs;
    return Success(total);
  }

  /** The count of one more pair is a step of the loop from the count before it. */
  lemma CountOfStep(pairs: seq<Result<(Range, Range)>>, i: nat, part: Part)
    requires i < |pairs|
    ensures CountOf(pairs[..i + 1], part) == Step(CountOf(pairs[..i], part), pairs[i], part)
  {
    assert pairs[..i + 1][..i] == pairs[..i];
  }

  /** Once a prefix fails, the whole count fails with the same error. */
  lemma {:induction false} FailureSticks(pairs: seq<Result<(Range, Range)>>, i: nat, part: Part)
    requires i <= |pairs| && CountOf(pairs[..i], part).Failure?
    ensures CountOf(pairs, part) == CountOf(pairs[..i], part)
    decreases |pairs| - i
  {
    if i < |pairs| {
      assert pairs[..i + 1][..i] == pairs[..i];
      FailureSticks(pairs, i + 1, part);
    } else {
      assert pairs[..i] == pairs;
    }
  }
}
