/**
 * Day 1: calorie counting. The input is a list of numbers in groups separated
 * by blank lines, one group per elf. Part one asks for the largest group
 * total; part two for the sum of the three largest, kept in a running top
 * three while the groups are read.
 */
module Calories {
  import Sorting

  /** A trimmed input line: blank, or the calories of one item. */
  datatype Entry = Blank | Food(calories: int)

  /**
   * The running total of each group: a blank line closes the current group and
   * opens a new one at 0, and the last element is the group still open.
   */
  function GroupSums(entries: seq<Entry>): (sums: seq<int>)
    ensures |sums| >= 1
  {
    if entries == [] then [0]
    else
      var before := GroupSums(entries[..|entries| - 1]);
      match entries[|entries| - 1]
      case Blank => before + [0]
      case Food(c) => before[..|before| - 1] + [before[|before| - 1] + c]
  }

  /** A group is closed by each blank line, plus the last group at the end. */
  lemma {:induction false} GroupCount(entries: seq<Entry>)
    ensures |GroupSums(entries)| == 1 + |set k | 0 <= k < |entries| && entries[k] == Blank|
  {
    if entries != [] {
      var init := entries[..|entries| - 1];
      GroupCount(init);
      var blanks := set k | 0 <= k < |init| && init[k] == Blank;
      var blanks' := set k | 0 <= k < |entries| && entries[k] == Blank;
      if entries[|entries| - 1] == Blank {
        assert blanks' == blanks + {|entries| - 1};
      } else {
        assert blanks' == blanks;
      }
    }
  }

  function Max(a: int, b: int): int {
    if a < b then b else a
  }

  /** The largest of `sums` and 0 (the starting value of `highestCalSum`). */
  function Highest(sums: seq<int>): (r: int)
    ensures r >= 0 && forall k :: 0 <= k < |sums| ==> sums[k] <= r
    ensures r == 0 || exists k :: 0 <= k < |sums| && sums[k] == r
  {
    if sums == [] then 0
    else
      var init := Highest(sums[..|sums| - 1]);
      var last := sums[|sums| - 1];
      if last > init then last
      else
        assert init == 0 || exists k :: 0 <= k < |sums| - 1 && sums[k] == init;
        init
  }

  /** The answer of `one`: the largest group total, or 0. */
  function MostCaloriesAnswer(entries: seq<Entry>): int {
    Highest(GroupSums(entries))
  }

  /** `one`: the largest group total, the last group included. */
  method MostCalories(entries: seq<Entry>) returns (highest: int)
    ensures highest == MostCaloriesAnswer(entries)
  {
    var current := 0;
    highest := 0;
    for i := 0 to |entries|
      invariant var sums := GroupSums(entries[..i]);
        current == sums[|sums| - 1] && highest == Highest(sums[..|sums| - 1])
    {
      assert entries[..i + 1][..i] == entries[..i];
      ghost var sums := GroupSums(entries[..i]);
      match entries[i]
      case Blank =>
        assert sums[..|sums| - 1] + [sums[|sums| - 1]] == sums;
        if current > highest {
          highest := current;
        }
        current := 0;
      case Food(c) =>
        current := current + c;
    }
    ghost var sums := GroupSums(entries);
    assert entries[..|entries|] == entries;
    assert sums[..|sums| - 1] + [sums[|sums| - 1]] == sums;
    if current > highest {
      highest := current;
    }
  }

  // ---------------------------------------------------------------------
  // The running top three.

  function Min(a: int, b: int): int {
    if a < b then a else b
  }

  /** The sums of `all` that are not among `top`. */
  function Outside(top: seq<int>, all: seq<int>): multiset<int> {
    multiset(all) - multiset(top)
  }

  /**
   * `top` holds the three largest of `all` (all of them when there are fewer),
   * largest first: every sum left out is at most every sum kept.
   */
  predicate TopThree(top: seq<int>, all: seq<int>) {
    Sorting.SortedDescending(top) && |top| == Min(3, |all|) && multiset(top) <= multiset(all) &&
    forall x :: x in Outside(top, all) ==> forall k :: 0 <= k < |top| ==> x <= top[k]
  }

  /** The first three of a sequence. */
  function Take3(s: seq<int>): (r: seq<int>)
    ensures |r| == Min(3, |s|)
    ensures r == s[..|r|]
  {
    if |s| > 3 then s[..3] else s
  }

  /**
   * `finalize` on `top3`: a group total below a full top three's last is
   * dropped; otherwise it joins, the list is sorted largest first and cut to three.
   */
  function FinalizeTop(top: seq<int>, current: int): seq<int> {
    if |top| == 3 && top[2] > current then top
    else Take3(Sorting.SortDescending(top + [current]))
  }

  lemma SubMultisetSameSize(a: multiset<int>, b: multiset<int>)
    requires a <= b && |a| == |b|
    ensures a == b
  {
    assert b == a + (b - a);
  }

  /** A total below the last of a full top three is dropped: it is left out and no larger than any kept. */
  lemma FinalizeDrops(top: seq<int>, all: seq<int>, current: int)
    requires TopThree(top, all)
    requires |top| == 3 && top[2] > current
    ensures TopThree(top, all + [current])
  {
    assert multiset(all + [current]) == multiset(all) + multiset{current};
    assert Outside(top, all + [current]) == Outside(top, all) + multiset{current};
  }

  /** While fewer than three totals are known, every one of them is kept. */
  lemma FinalizeFills(top: seq<int>, all: seq<int>, current: int, s: seq<int>)
    requires TopThree(top, all)
    requires |top| < 3
    requires Sorting.SortedDescending(s) && multiset(s) == multiset(top + [current])
    ensures TopThree(Take3(s), all + [current])
  {
    SubMultisetSameSize(multiset(top), multiset(all));
    assert |s| == |multiset(s)| == |top| + 1;
    assert multiset(all + [current]) == multiset(all) + multiset{current};
    assert Outside(s, all + [current]) == multiset{};
  }

  /** Sorting a full top three with a total at least its last puts that last one fourth. */
  lemma LastOfFour(top: seq<int>, current: int, s: seq<int>)
    requires Sorting.SortedDescending(top) && |top| == 3 && top[2] <= current
    requires Sorting.SortedDescending(s) && multiset(s) == multiset(top + [current])
    ensures |s| == 4 && s[3] == top[2]
    ensures multiset(s[..3]) == multiset(top[..2]) + multiset{current}
    ensures forall k :: 0 <= k < 4 ==> top[2] <= s[k]
  {
    FourAtLeastLast(top, current, s);
    FourEndsWithLast(top, current, s);
    FourFirstThree(top, current, s);
  }

  /** The four sorted totals are each at least the last of the top three. */
  lemma FourAtLeastLast(top: seq<int>, current: int, s: seq<int>)
    requires Sorting.SortedDescending(top) && |top| == 3 && top[2] <= current
    requires multiset(s) == multiset(top + [current])
    ensures |s| == 4 && forall k :: 0 <= k < 4 ==> top[2] <= s[k]
  {
    var d := top[2];
    assert top + [current] == [top[0], top[1], d, current];
    assert |s| == |multiset(s)| == 4;
    forall k | 0 <= k < 4 ensures d <= s[k] {
      assert s[k] in multiset(top + [current]);
    }
  }

  /** The smallest of the four, the last of the top three, comes last. */
  lemma FourEndsWithLast(top: seq<int>, current: int, s: seq<int>)
    requires |top| == 3 && |s| == 4 && forall k :: 0 <= k < 4 ==> top[2] <= s[k]
    requires Sorting.SortedDescending(s) && multiset(s) == multiset(top + [current])
    ensures s[3] == top[2]
  {
    var d := top[2];
    assert (top + [current])[2] == d;
    assert d in multiset(s);
    var i :| 0 <= i < 4 && s[i] == d;
    assert s[3] <= s[i];
  }

  /** Once the last of the top three is fourth, the first three are the rest. */
  lemma FourFirstThree(top: seq<int>, current: int, s: seq<int>)
    requires |top| == 3 && |s| == 4 && s[3] == top[2]
    requires multiset(s) == multiset(top + [current])
    ensures multiset(s[..3]) == multiset(top[..2]) + multiset{current}
  {
    var d := top[2];
    assert s == s[..3] + [d];
    assert multiset(s) == multiset(s[..3]) + multiset{d};
    assert top == top[..2] + [d];
    assert multiset(top) == multiset(top[..2]) + multiset{d};
    assert multiset(top + [current]) == multiset(top[..2]) + multiset{current} + multiset{d};
    assert multiset(s[..3]) == multiset(s) - multiset{d};
  }

  /** After the last of a full top three is swapped for a larger total, whatever is left out is still no larger. */
  lemma ReplacedOutside(top: seq<int>, all: seq<int>, current: int, r: seq<int>)
    requires TopThree(top, all) && |top| == 3
    requires multiset(r) == multiset(top[..2]) + multiset{current}
    requires forall k :: 0 <= k < |r| ==> top[2] <= r[k]
    ensures forall x :: x in Outside(r, all + [current]) ==> forall k :: 0 <= k < |r| ==> x <= r[k]
  {
    var d := top[2];
    assert top == top[..2] + [d];
    assert multiset(all + [current]) == multiset(all) + multiset{current};
    forall x | x in Outside(r, all + [current]) && x != d
      ensures x <= d
    {
      assert multiset(r)[x] == multiset(top)[x] + multiset{current}[x];
      assert x in Outside(top, all);
    }
  }

  /**
   * A total at least the last of a full top three pushes that last one out:
   * of the four sorted largest first, the first three are kept.
   */
  lemma FinalizeReplaces(top: seq<int>, all: seq<int>, current: int, s: seq<int>)
    requires TopThree(top, all)
    requires |top| == 3 && top[2] <= current
    requires Sorting.SortedDescending(s) && multiset(s) == multiset(top + [current])
    ensures TopThree(Take3(s), all + [current])
  {
    LastOfFour(top, current, s);
    var r := s[..3];
    ReplacedOutside(top, all, current, r);
    assert top == top[..2] + [top[2]];
    assert multiset(all + [current]) == multiset(all) + multiset{current};
    assert multiset(r) <= multiset(all + [current]);
  }

  /** `finalize` keeps the three largest group totals, sorted largest first. */
  lemma FinalizeKeepsTopThree(top: seq<int>, all: seq<int>, current: int)
    requires TopThree(top, all)
    ensures TopThree(FinalizeTop(top, current), all + [current])
  {
    if |top| == 3 && top[2] > current {
      FinalizeDrops(top, all, current);
    } else if |top| < 3 {
      FinalizeFills(top, all, current, Sorting.SortDescending(top + [current]));
    } else {
      FinalizeReplaces(top, all, current, Sorting.SortDescending(top + [current]));
    }
  }

  /** `top3` after finalizing each of `sums` in turn, from empty. */
  function TopFold(sums: seq<int>): seq<int> {
    if sums == [] then [] else FinalizeTop(TopFold(sums[..|sums| - 1]), sums[|sums| - 1])
  }

  /** Finalizing one more total is one step of the fold. */
  lemma TopFoldStep(sums: seq<int>, last: int)
    ensures TopFold(sums + [last]) == FinalizeTop(TopFold(sums), last)
  {
    assert (sums + [last])[..|sums|] == sums;
  }

  lemma {:induction false} TopFoldIsTopThree(sums: seq<int>)
    ensures TopThree(TopFold(sums), sums)
  {
    if sums != [] {
      var init, last := sums[..|sums| - 1], sums[|sums| - 1];
      assert sums == init + [last];
      TopFoldIsTopThree(init);
      FinalizeKeepsTopThree(TopFold(init), init, last);
    }
  }

  /**
   * The state the closures `add` and `finalize` of `two` share: the running
   * total and the top three. `finalized` is every total closed so far.
   */
  class Tally {
    var current: int
    var top3: seq<int>
    ghost var finalized: seq<int>

    ghost predicate Valid()
      reads this
    {
      top3 == TopFold(finalized)
    }

    constructor()
      ensures Valid() && current == 0 && finalized == []
    {
      current := 0;
      top3 := [];
      finalized := [];
    }

    /** `add`: one more item in the open group. */
    method Add(calories: int)
      modifies this
      ensures current == old(current) + calories
      ensures top3 == old(top3) && finalized == old(finalized)
    {
      current := current + calories;
    }

    /** `finalize`: close the open group, keep the top three, start the next group at 0. */
    method Finalize()
      requires Valid()
      modifies this
      ensures Valid() && top3 == FinalizeTop(old(top3), old(current))
      ensures finalized == old(finalized) + [old(current)] && current == 0
    {
      var next := top3;
      if !(|top3| == 3 && top3[2] > current) {
        next := Sorting.SortDescending(top3 + [current]);
        if |next| > 3 {
          next := next[..3];
        }
      }
      TopFoldStep(finalized, current);
      top3 := next;
      finalized := finalized + [current];
      current := 0;
    }
  }

  /** The answer of `two`: the sum of the three largest group totals. */
  function TopThreeSum(entries: seq<Entry>): int {
    Sorting.Sum(TopFold(GroupSums(entries)))
  }

  /** `two`: feed every entry to `add` or `finalize`, finalize the last group, sum the top three. */
  method TopThreeCalories(entries: seq<Entry>) returns (sum: int)
    ensures sum == TopThreeSum(entries)
  {
    var tally := new Tally();
    for i := 0 to |entries|
      invariant tally.Valid()
      invariant var sums := GroupSums(entries[..i]);
        tally.finalized == sums[..|sums| - 1] && tally.current == sums[|sums| - 1]
    {
      assert entries[..i + 1][..i] == entries[..i];
      ghost var sums := GroupSums(entries[..i]);
      match entries[i]
      case Food(c) =>
        tally.Add(c);
      case Blank =>
        tally.Finalize();
        assert sums[..|sums| - 1] + [sums[|sums| - 1]] == sums;
    }
    tally.Finalize();
    ghost var sums := GroupSums(entries);
    assert entries[..|entries|] == entries;
    assert sums[..|sums| - 1] + [sums[|sums| - 1]] == sums;
    sum := AddUp(tally.top3);
  }

  /** The `map` in `two` that adds up the top three. */
  method AddUp(s: seq<int>) returns (sum: int)
    ensures sum == Sorting.Sum(s)
  {
    sum := 0;
    for k := 0 to |s|
      invariant sum == Sorting.Sum(s[..k])
    {
      Sorting.SumAppend(s[..k], [s[k]]);
      assert s[..k + 1] == s[..k] + [s[k]];
      sum := sum + s[k];
    }
    assert s[..|s|] == s;
  }

  /** The top three `two` adds up are the three largest group totals. */
  lemma TopThreeOfGroups(entries: seq<Entry>)
    ensures TopThree(TopFold(GroupSums(entries)), GroupSums(entries))
  {
    TopFoldIsTopThree(GroupSums(entries));
  }

  /** The answer of `one` is the first of the top three of `two`, unless every total is negative. */
  lemma PartsAgree(entries: seq<Entry>)
    ensures var top := TopFold(GroupSums(entries));
      |top| >= 1 && MostCaloriesAnswer(entries) == Max(0, top[0])
  {
    var sums := GroupSums(entries);
    var top := TopFold(sums);
    TopFoldIsTopThree(sums);
    assert top[0] in multiset(sums);
    forall k | 0 <= k < |sums| ensures sums[k] <= top[0] {
      assert sums[k] in multiset(sums);
      if sums[k] !in Outside(top, sums) {
        assert sums[k] in multiset(top);
      }
    }
  }
}
