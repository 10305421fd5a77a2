/**
 * Day 3: rucksack reorganisation. Each non-blank line is a rucksack whose
 * items are letters. Part one adds the priority of the first item of the first
 * compartment (the first half of the line) that also occurs in the second.
 * Part two groups the rucksacks in threes and adds the priority of the first
 * item of the first rucksack that the other two also hold.
 * A non-letter item has no priority (`undefined`), which makes the total NaN:
 * here `None`.
 */
module Rucksacks {
  import opened Wrappers
  import Text

  predicate IsLower(c: char) {
    'a' <= c <= 'z'
  }

  predicate IsUpper(c: char) {
    'A' <= c <= 'Z'
  }

  /** `itemPriority`: character codes 65-90 give 27-52, codes 97-122 give 1-26, anything else is `undefined`. */
  function ItemPriority(item: char): (p: Option<int>)
    ensures p.Some? <==> IsLower(item) || IsUpper(item)
    ensures IsLower(item) ==> 1 <= p.value <= 26
    ensures IsUpper(item) ==> 27 <= p.value <= 52
  {
    var code := item as int;
    if 65 <= code <= 90 then Some(code - 38)
    else if 97 <= code <= 122 then Some(code - 96)
    else None
  }

  /** 'a' is 1 and 'A' is 27, and the priority goes up by one from letter to letter. */
  lemma PriorityFollowsAlphabet(c: char)
    ensures ItemPriority('a') == Some(1) && ItemPriority('A') == Some(27)
    ensures 'a' <= c < 'z' || 'A' <= c < 'Z' ==>
      ItemPriority((c as int + 1) as char) == Some(ItemPriority(c).value + 1)
  {
  }

  /** Different items have different priorities. */
  lemma PriorityInjective(a: char, b: char)
    requires ItemPriority(a).Some? && ItemPriority(a) == ItemPriority(b)
    ensures a == b
  {
  }

  /** `c` occurs in every one of `others`. */
  predicate InAll(c: char, others: seq<string>) {
    forall k :: 0 <= k < |others| ==> c in others[k]
  }

  lemma InAllOne(s2: string)
    ensures forall c :: InAll(c, [s2]) <==> c in s2
  {
    forall c ensures InAll(c, [s2]) <==> c in s2 {
      assert [s2][0] == s2;
    }
  }

  lemma InAllTwo(s2: string, s3: string)
    ensures forall c :: InAll(c, [s2, s3]) <==> c in s2 && c in s3
  {
    forall c ensures InAll(c, [s2, s3]) <==> c in s2 && c in s3 {
      if InAll(c, [s2, s3]) {
        assert c in [s2, s3][0] && c in [s2, s3][1];
      }
    }
  }

  /** The index of the first item of `s` that every one of `others` also holds, or `|s|` if there is none. */
  function FirstInAll(s: string, others: seq<string>): (i: nat)
    ensures i <= |s|
    ensures forall j :: 0 <= j < i ==> !InAll(s[j], others)
    ensures i < |s| ==> InAll(s[i], others)
  {
    if s == [] || InAll(s[0], others) then 0 else 1 + FirstInAll(s[1..], others)
  }

  /** What `commonChar(s1, s2)` returns: the first item of `s1` also in `s2`, `None` for "". */
  function Common(s1: string, s2: string): (r: Option<char>)
    ensures r.None? <==> forall j :: 0 <= j < |s1| ==> s1[j] !in s2
    ensures r.Some? ==> r.value in s1 && r.value in s2
  {
    InAllOne(s2);
    var i := FirstInAll(s1, [s2]);
    if i < |s1| then Some(s1[i]) else None
  }

  /** `commonChar`: the scan over `s1` that returns at the first item `s2` also holds. */
  method CommonChar(s1: string, s2: string) returns (r: Option<char>)
    ensures r == Common(s1, s2)
  {
    InAllOne(s2);
    for i := 0 to |s1|
      invariant forall j :: 0 <= j < i ==> s1[j] !in s2
    {
      if s1[i] in s2 {
        assert FirstInAll(s1, [s2]) == i by {
          FirstInAllIs(s1, [s2], i);
        }
        return Some(s1[i]);
      }
    }
    FirstInAllIs(s1, [s2], |s1|);
    return None;
  }

  /** The index `FirstInAll` finds is the only one before which nothing is shared and at which the item is. */
  lemma FirstInAllIs(s: string, others: seq<string>, i: nat)
    requires i <= |s|
    requires forall j :: 0 <= j < i ==> !InAll(s[j], others)
    requires i < |s| ==> InAll(s[i], others)
    ensures FirstInAll(s, others) == i
  {
  }

  // ---------------------------------------------------------------------
  // Part one: the two compartments of a rucksack.

  /** The two halves of a line, split at `Math.floor(length / 2)`. */
  function Compartments(line: string): (halves: (string, string))
    ensures halves.0 + halves.1 == line
    ensures |halves.0| <= |halves.1| <= |halves.0| + 1
  {
    var half := |line| / 2;
    (line[..half], line[half..])
  }

  /** The amount `one` adds for a rucksack: 0 when the halves share nothing, else the shared item's priority. */
  function RucksackScore(line: string): Option<int> {
    var (left, right) := Compartments(line);
    match Common(left, right)
    case None => Some(0)
    case Some(c) => ItemPriority(c)
  }

  /** A rucksack of letters scores at most 52, and 0 exactly when its halves share nothing. */
  lemma RucksackScoreRange(line: string)
    requires forall j :: 0 <= j < |line| ==> IsLower(line[j]) || IsUpper(line[j])
    ensures RucksackScore(line).Some? && 0 <= RucksackScore(line).value <= 52
    ensures RucksackScore(line) == Some(0) <==>
      var (left, right) := Compartments(line); forall j :: 0 <= j < |left| ==> left[j] !in right
  {
    var (left, right) := Compartments(line);
    var c := Common(left, right);
    if c.Some? {
      var j :| 0 <= j < |left| && left[j] == c.value;
      assert left[j] == line[j];
    }
  }

  /** The answer of `one`: the rucksack scores of the lines not blank once trimmed. */
  function PartOneTotal(lines: seq<string>): Option<int> {
    if lines == [] then Some(0)
    else
      var before := PartOneTotal(lines[..|lines| - 1]);
      var line := Text.Trim(lines[|lines| - 1]);
      if line == "" then before else AddNumber(before, RucksackScore(line))
  }

  /** The body of the loop in `one`. */
  method AddRucksack(total: Option<int>, line: string) returns (next: Option<int>)
    requires line != ""
    ensures next == AddNumber(total, RucksackScore(line))
  {
    var half := |line| / 2;
    var left, right := line[..half], line[half..];
    var common := CommonChar(left, right);
    var score := if common.None? then Some(0) else ItemPriority(common.value);
    next := AddNumber(total, score);
  }

  /** One more line adds its rucksack's score, or nothing if it is blank. */
  lemma PartOneStep(lines: seq<string>, i: nat)
    requires i < |lines|
    ensures PartOneTotal(lines[..i + 1]) ==
      var line := Text.Trim(lines[i]);
      if line == "" then PartOneTotal(lines[..i]) else AddNumber(PartOneTotal(lines[..i]), RucksackScore(line))
  {
    assert lines[..i + 1][..i] == lines[..i];
  }

  /** `one`: the loop over the lines adding each rucksack's score. */
  method PartOne(lines: seq<string>) returns (total: Option<int>)
    ensures total == PartOneTotal(lines)
  {
    total := Some(0);
    for i := 0 to |lines|
      invariant total == PartOneTotal(lines[..i])
    {
      PartOneStep(lines, i);
      var line := Text.Trim(lines[i]);
      if line == "" {
        continue;
      }
      total := AddRucksack(total, line);
    }
    assert lines[..|lines|] == lines;
  }

  // ---------------------------------------------------------------------
  // Part two: groups of three.

  /** Every line trimmed. */
  function TrimAll(lines: seq<string>): (t: seq<string>)
    ensures |t| == |lines| && forall k :: 0 <= k < |t| ==> t[k] == Text.Trim(lines[k])
  {
    if lines == [] then [] else TrimAll(lines[..|lines| - 1]) + [Text.Trim(lines[|lines| - 1])]
  }

  /** The lines not blank once trimmed, trimmed: the rucksacks `two` places in groups. */
  function Rucksacks(lines: seq<string>): (r: seq<string>)
    ensures |r| <= |lines|
    ensures forall k :: 0 <= k < |r| ==> r[k] != ""
  {
    if lines == [] then []
    else
      var line := Text.Trim(lines[|lines| - 1]);
      if line == "" then Rucksacks(lines[..|lines| - 1]) else Rucksacks(lines[..|lines| - 1]) + [line]
  }

  /**
   * The rucksacks are the non-blank lines of the trimmed lines, so they are
   * the trimmed lines themselves, in input order.
   */
  lemma {:induction false} RucksacksInOrder(lines: seq<string>)
    ensures Rucksacks(lines) == Text.NonBlank(TrimAll(lines))
    ensures |Rucksacks(lines)| == |Text.NonBlankIndices(TrimAll(lines))|
    ensures forall k :: 0 <= k < |Rucksacks(lines)| ==>
      Rucksacks(lines)[k] == Text.Trim(lines[Text.NonBlankIndices(TrimAll(lines))[k]])
  {
    if lines != [] {
      RucksacksInOrder(lines[..|lines| - 1]);
      assert TrimAll(lines)[..|lines| - 1] == TrimAll(lines[..|lines| - 1]);
    }
    Text.NonBlankInOrder(TrimAll(lines));
  }

  /** The amount `processGroup` adds: the priority of the first item of `s1` in `s2` and `s3`, or 0 if there is none. */
  function Badge(s1: string, s2: string, s3: string): Option<int> {
    var i := FirstInAll(s1, [s2, s3]);
    if i < |s1| then ItemPriority(s1[i]) else Some(0)
  }

  /** The badge is an item all three rucksacks hold. */
  lemma BadgeIsShared(s1: string, s2: string, s3: string)
    requires Badge(s1, s2, s3) != Some(0)
    ensures exists c :: c in s1 && c in s2 && c in s3 && ItemPriority(c) == Badge(s1, s2, s3)
  {
    var i := FirstInAll(s1, [s2, s3]);
    assert InAll(s1[i], [s2, s3]);
    assert s1[i] in [s2, s3][0] && s1[i] in [s2, s3][1];
  }

  /** The sum of the badges of consecutive groups of three. */
  function GroupsTotal(rucksacks: seq<string>): Option<int>
    requires |rucksacks| % 3 == 0
  {
    if rucksacks == [] then Some(0)
    else
      var n := |rucksacks|;
      AddNumber(GroupsTotal(rucksacks[..n - 3]), Badge(rucksacks[n - 3], rucksacks[n - 2], rucksacks[n - 1]))
  }

  /** The answer of `two`: the badges of the complete groups; a last group of one or two is not counted. */
  function PartTwoTotal(lines: seq<string>): Option<int> {
    var r := Rucksacks(lines);
    GroupsTotal(r[..|r| - |r| % 3])
  }

  /** `processGroup`: the scan over `s1` that stops at the first item `s2` and `s3` also hold. */
  method ProcessGroup(s1: string, s2: string, s3: string, total: Option<int>) returns (next: Option<int>)
    ensures next == AddNumber(total, Badge(s1, s2, s3))
  {
    InAllTwo(s2, s3);
    next := total;
    var i := 0;
    while i < |s1|
      invariant i <= |s1|
      invariant forall j :: 0 <= j < i ==> !InAll(s1[j], [s2, s3])
    {
      var c := s1[i];
      if c in s2 && c in s3 {
        FirstInAllIs(s1, [s2, s3], i);
        next := AddNumber(next, ItemPriority(c));
        break;
      }
      i := i + 1;
    }
    if i == |s1| {
      FirstInAllIs(s1, [s2, s3], i);
      next := AddNumber(next, Some(0));
    }
  }

  /** One more rucksack: the rucksacks seen so far are the old ones and, unless it is blank, the new line. */
  lemma RucksacksStep(lines: seq<string>, i: nat)
    requires i < |lines|
    ensures var line := Text.Trim(lines[i]);
      Rucksacks(lines[..i + 1]) == if line == "" then Rucksacks(lines[..i]) else Rucksacks(lines[..i]) + [line]
  {
    assert lines[..i + 1][..i] == lines[..i];
  }

  /** `n` empty strings: the free slots of a group. */
  function Empties(n: nat): (r: seq<string>)
    ensures |r| == n && forall k :: 0 <= k < n ==> r[k] == ""
  {
    seq(n, _ => "")
  }

  /**
   * What the `group` array holds after some lines: the rucksacks of the
   * incomplete group in order, then empty strings; and the badges of the
   * complete groups are in `total`.
   */
  ghost predicate GroupState(group: seq<string>, total: Option<int>, rucksacks: seq<string>) {
    var open := |rucksacks| % 3;
    group == rucksacks[|rucksacks| - open..] + Empties(3 - open) &&
    total == GroupsTotal(rucksacks[..|rucksacks| - open])
  }

  /** Adding a rucksack to a group that then has three: its badge is added and the group starts over. */
  lemma CloseGroup(group: seq<string>, total: Option<int>, rucksacks: seq<string>, line: string)
    requires GroupState(group, total, rucksacks) && |rucksacks| % 3 == 2
    ensures GroupState(["", "", ""], AddNumber(total, Badge(group[0], group[1], line)), rucksacks + [line])
  {
    assert Empties(3) == ["", "", ""];
    var r := rucksacks + [line];
    var n := |r|;
    assert r[n..] == [];
    assert r[..n] == r;
    assert r[..n - 3] == rucksacks[..|rucksacks| - 2];
    assert group[0] == r[n - 3] && group[1] == r[n - 2];
  }

  /** Adding a rucksack to a group that then has fewer than three: it takes the first empty slot. */
  lemma FillGroup(group: seq<string>, total: Option<int>, rucksacks: seq<string>, line: string)
    requires GroupState(group, total, rucksacks) && |rucksacks| % 3 < 2
    ensures GroupState(group[|rucksacks| % 3 := line], total, rucksacks + [line])
  {
    var r := rucksacks + [line];
    var open := |rucksacks| % 3;
    assert r[..|r| - (open + 1)] == rucksacks[..|rucksacks| - open];
    assert group[open := line] == r[|r| - (open + 1)..] + Empties(3 - (open + 1));
  }

  /** The scan in `two` for the first empty slot of the group: 3 when there is none. */
  method FirstEmpty(group: seq<string>) returns (i: nat)
    requires |group| == 3
    ensures i <= 3 && (i < 3 ==> group[i] == "")
    ensures forall k :: 0 <= k < i ==> group[k] != ""
  {
    i := 0;
    while i < 3 && group[i] != ""
      invariant i <= 3
      invariant forall k :: 0 <= k < i ==> group[k] != ""
    {
      i := i + 1;
    }
  }

  /** The slot `two` fills is the one after the rucksacks already in the group. */
  lemma FirstEmptySlot(group: seq<string>, total: Option<int>, rucksacks: seq<string>, i: nat)
    requires GroupState(group, total, rucksacks)
    requires forall k :: 0 <= k < |rucksacks| ==> rucksacks[k] != ""
    requires i <= 3 && (i < 3 ==> group[i] == "")
    requires forall k :: 0 <= k < i ==> group[k] != ""
    ensures i == |rucksacks| % 3
  {
    var open := |rucksacks| % 3;
    assert group[open] == "";
    forall k | 0 <= k < open ensures group[k] != "" {
      assert group[k] == rucksacks[|rucksacks| - open..][k] == rucksacks[|rucksacks| - open + k];
    }
  }

  /** The body of the loop in `two` for a non-blank line: put it in the first empty slot, and score and empty a full group. */
  method Place(group: seq<string>, total: Option<int>, line: string, ghost rucksacks: seq<string>)
    returns (group': seq<string>, total': Option<int>)
    requires GroupState(group, total, rucksacks)
    requires forall k :: 0 <= k < |rucksacks| ==> rucksacks[k] != ""
    ensures GroupState(group', total', rucksacks + [line])
  {
    var i := FirstEmpty(group);
    FirstEmptySlot(group, total, rucksacks, i);
    group' := group[i := line];
    total' := total;
    if i == 2 {
      CloseGroup(group, total, rucksacks, line);
      total' := ProcessGroup(group'[0], group'[1], group'[2], total);
      group' := ["", "", ""];
    } else {
      FillGroup(group, total, rucksacks, line);
    }
  }

  /** `two`: each non-blank line goes into the first empty slot of `group`; a full group is scored and replaced. */
  method PartTwo(lines: seq<string>) returns (total: Option<int>)
    ensures total == PartTwoTotal(lines)
  {
    total := Some(0);
    var group := ["", "", ""];
    GroupStateStart();
    for l := 0 to |lines|
      invariant GroupState(group, total, Rucksacks(lines[..l]))
    {
      RucksacksStep(lines, l);
      var line := Text.Trim(lines[l]);
      if line != "" {
        group, total := Place(group, total, line, Rucksacks(lines[..l]));
      }
    }
    assert lines[..|lines|] == lines;
    GroupStateTotal(group, total, lines);
  }

  /** Before any line, the group is empty and the total is 0. */
  lemma GroupStateStart()
    ensures GroupState(["", "", ""], Some(0), [])
  {
    assert Empties(3) == ["", "", ""];
  }

  /** After every line, the total is the answer of `two`. */
  lemma GroupStateTotal(group: seq<string>, total: Option<int>, lines: seq<string>)
    requires GroupState(group, total, Rucksacks(lines))
    ensures total == PartTwoTotal(lines)
  {
  }
}
