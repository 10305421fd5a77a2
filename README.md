# Advent of Code 2022, days 1 to 15, in Dafny

This project models fifteen TypeScript puzzle solvers, one per day, and proves
properties of the model. Each day file `N/main.ts` reads an input file line by
line, runs a small integer algorithm and prints an answer for part one or
part two. The Dafny model keeps each program's own structure. Classes
(`Stack`, `CircularBuffer`, `Knot`, `CPU`, `CRT`, `Coord`, the monkey games)
become Dafny classes whose methods update their fields. Pure rules become
functions. Every loop of the source becomes a method with a `while` or `for`
loop, proved against a specification function. Where a loop sits inside a
recursive function (the index loop of day 13's `compare`), the recursion stays
a function and the loop is also given as a method proved equal to it. The
properties the programs rely on are proved as lemmas about those functions.

The modules are:

- `Wrappers`: `Option` and `Result`. `Option` stands for JavaScript's NaN or `undefined`; `Result` stands for a thrown error.
- `Text`: the string helpers the programs take from JavaScript: `split`, `trim`, `startsWith`, `parseInt(s, 10)`, `parseInt(s)` without a radix (which also reads hexadecimal after `0x`) and decimal printing. It proves the split/join and print/parse round trips.
- `Sorting`: the comparator sorts on numbers (insertion sorts on sequences), proved sorted and a permutation.
- `Calories` (day 1): group sums and the running top three, kept sorted.
- `RockPaperScissors` (day 2): the letter decoding, the score and the two totals.
- `Rucksacks` (day 3): item priorities, the first common item, and the half and three-line groupings.
- `Cleanup` (day 4): range containment and overlap, and the two counts.
- `Crates` (day 5): the `Stack` class, reading the drawing of the crates, and moves of one crate at a time or of a block of crates.
- `Marker` (day 6): the `CircularBuffer` class and the search for the start-of-packet marker.
- `DirectoryTree` (day 7): the transcript interpreter, recursive directory sizes, the depth-first collection of every directory, and the two selections.
- `TreeGrid` (day 8): the `Coord` walker, visibility from the edges, viewing distances and the scenic score.
- `Rope` (day 9): the `Knot` class, the follow rule and the multi-knot simulation.
- `Cpu` (day 10): the `CPU` scheduler keyed by completion cycle, the `CRT` and the two parts.
- `Monkeys` (day 11): both games. In the first, an item's worry is divided by three. In the second, each item replays its operation history modulo the divisor; the congruence that makes this correct is proved.
- `HillClimbing` (day 12): the elevation rule, the graph construction, and the minimum over start cells.
- `PacketOrder` (day 13): the recursive three-way packet comparison, its symmetry and transitivity, and the two parts.
- `FallingSand` (day 14): the `Cave` sparse map, drawing the rock paths, dropping sand and `drawGraph`.
- `BeaconExclusion` (day 15): Manhattan geometry, the perimeter walk, the in-place sort and merge of `reduceConstraints`, and both parts.

Most parts take the input as a sequence of lines. Some take values already read from the lines instead: the monkeys (day 11), packets (day 13) and sensor readings (day 15), where the source uses a regular expression or `JSON.parse`; and day 1's entries and day 14's rock paths, where the source uses `trim`, `split` and `parseInt`. Integers are unbounded.

## Model

| member | source | states |
|---|---|---|
| Text.FirstIndex | 4/main.ts:26 | the index found holds the separator, and no earlier position does |
| Text.Split | 4/main.ts:23-28 | `split` gives at least one piece and no piece contains the separator |
| Text.JoinSplit | 4/main.ts:23-28 | joining the pieces of a split with the separator gives back the original string |
| Text.SplitCons | 4/main.ts:26 | splitting at a first separator gives the piece before it followed by the pieces of the rest |
| Text.SplitJoin | 4/main.ts:26 | joining separator-free pieces and splitting again gives back the pieces |
| Text.JoinAppend | 6/main.ts:46-48 | joining one more piece adds the separator and that piece at the end |
| Text.DigitChar | 6/main.ts:56 | the character of a digit is a decimal digit whose value is that digit |
| Text.DigitPrefix | 1/main.ts:16 | `parseInt` reads the longest run of leading decimal digits, and stops at the first non-digit |
| Text.ParseInt | 1/main.ts:16 | `parseInt(s, 10)` skips leading white space, then gives a number exactly when, after an optional sign, the text starts with a digit, and NaN otherwise; without a minus sign the number is not negative |
| Text.ParseIntSkipsSpace | 1/main.ts:16 | white space in front of the text does not change what `parseInt` reads |
| Text.NatToString | 6/main.ts:56 | printing a natural number gives decimal digits without a leading zero |
| Text.DigitsValueOfNatToString | 4/main.ts:26-28 | the digits printed for a number have that number as their value |
| Text.ParseIntNatToString | 4/main.ts:26-28 | parsing a printed natural number gives it back |
| Text.IntToString | 12/main.ts:42 | printing an integer gives a non-empty string without spaces |
| Text.ParseIntIntToString | 12/main.ts:55 | parsing a printed integer, negative or not, gives it back |
| Text.DigitPrefixAllDigits | 1/main.ts:16 | on a string of digits only, `parseInt` reads every character |
| Text.HexPrefix | 7/main.ts:147 | after `0x`, `parseInt` without a radix reads the longest run of leading hexadecimal digits, and stops at the first non-digit |
| Text.ParseIntAuto | 7/main.ts:147 | `parseInt(s)` without a radix: when the text after white space and an optional sign does not start with `0x` or `0X` it reads exactly as `parseInt(s, 10)`; after that prefix it gives a number exactly when a hexadecimal digit follows, and NaN otherwise; without a minus sign the number is not negative |
| Text.SignedHex | 7/main.ts:147 | the digits after `0x` give a number exactly when they start with a hexadecimal digit, and it is not negative without a minus sign |
| Text.ParseIntAutoHexCase | 7/main.ts:147 | hexadecimal digits after the prefix read as their hexadecimal value, negated after a minus sign |
| Text.HexPrefixAllDigits | 7/main.ts:147 | on a string of hexadecimal digits only, the hexadecimal reading takes every character |
| Text.ParseIntAutoHex | 9/main.ts:100 | `0x` or `0X` followed by hexadecimal digits reads as their hexadecimal value |
| Text.ParseIntAutoNegativeHex | 10/main.ts:80 | a minus sign before `0x` and hexadecimal digits negates their value |
| Text.ParseIntAutoIntToString | 10/main.ts:80 | without a radix, a printed integer still reads back as itself |
| Text.FirstPieceStart | 7/main.ts:146-147 | the first piece of a split starts with the string's first character, unless that is the separator |
| Text.LeadingSpaces | 1/main.ts:9 | `trim` removes exactly the white space the line starts with |
| Text.TrailingSpaces | 1/main.ts:9 | `trim` removes exactly the white space the line ends with |
| Text.Trim | 1/main.ts:9 | a trimmed line is empty exactly when the line is all white space, and otherwise starts and ends with a non-space |
| Text.NonBlank | 6/main.ts:43-45 | the lines kept are exactly the non-empty ones, and there are no more of them than lines; `Text.NonBlankInOrder` states their order |
| Text.NonBlankIndices | 6/main.ts:43-45 | the positions of the non-empty lines, strictly increasing: each holds a non-empty line, and every non-empty line's position is among them |
| Text.NonBlankInOrder | 6/main.ts:43-45 | the kept lines are the lines at those positions, one for one and in increasing order of position, so the lines keep their original order |
| Sorting.ConsAscending | 7/main.ts:83-86 | a value no greater than any element of a sorted list keeps it sorted in front |
| Sorting.ConsDescending | 1/main.ts:39 | a value no smaller than any element of a descending list keeps it descending in front |
| Sorting.InsertAscending | 7/main.ts:83-86 | inserting into an ascending list keeps it ascending and adds exactly that value |
| Sorting.SortAscending | 7/main.ts:83-86 | sorting ascending gives an ascending permutation |
| Sorting.InsertDescending | 1/main.ts:39 | inserting into a descending list keeps it descending and adds exactly that value |
| Sorting.SortDescending | 1/main.ts:39 | `sort((a, b) => b - a)` gives a descending permutation |
| Sorting.DescendingHeadIsMax | 1/main.ts:39-42 | the first element of a descending list is its largest |
| Sorting.SumAppend | 1/main.ts:51-54 | the sum of two lists joined is the sum of their sums |
| Calories.GroupSums | 1/main.ts:6-22 | the running group total is closed by each blank line and once more at the end, so there is always a last group |
| Calories.GroupCount | 1/main.ts:10-22 | the number of group totals is one more than the number of blank lines |
| Calories.Highest | 1/main.ts:7-22 | `highestCalSum` ends as the largest group total and 0: at least every total, at least 0, and equal to 0 or to one of the totals |
| Calories.MostCalories | 1/main.ts:3-24 | the loop of `one`, the last group included, returns the largest group total (or 0) |
| Calories.Take3 | 1/main.ts:40-42 | `slice(0, 3)` keeps the first three elements, or all of them when there are fewer |
| Calories.FinalizeDrops | 1/main.ts:34-35 | a total below the third of a full top three is dropped and the top three is still the three largest |
| Calories.FinalizeFills | 1/main.ts:36-42 | while fewer than three totals are known, pushing, sorting and slicing keeps all of them, largest first |
| Calories.LastOfFour | 1/main.ts:37-42 | sorting a full top three with a total at least its third puts that third one fourth, so the slice drops it |
| Calories.FinalizeReplaces | 1/main.ts:36-42 | a total at least the third of a full top three takes that third's place, and the top three is still the three largest |
| Calories.FinalizeKeepsTopThree | 1/main.ts:33-44 | each `finalize` keeps `top3` the three largest totals seen so far, sorted largest first |
| Calories.TopFoldIsTopThree | 1/main.ts:45-54 | after finalizing every group, `top3` holds the three largest group totals, sorted, with everything left out no larger |
| Calories.Tally.constructor | 1/main.ts:28-29 | `two` starts with an open total of 0 and an empty `top3` |
| Calories.Tally.Add | 1/main.ts:30-32 | `add` adds the calories to the open total and changes nothing else |
| Calories.Tally.Finalize | 1/main.ts:33-44 | `finalize` makes `top3` the finalized top three of the old one and the open total, records the total and resets it to 0 |
| Calories.TopThreeCalories | 1/main.ts:26-58 | `two` returns the sum of the finalized top three of all group totals |
| Calories.AddUp | 1/main.ts:55-57 | the `map` that adds up `top3` returns the sum of its elements |
| Calories.TopThreeOfGroups | 1/main.ts:45-57 | the three `two` adds up are the three largest group totals |
| Calories.PartsAgree | 1/main.ts:3-58 | the answer of `one` is the first of the top three of `two`, or 0 when every total is negative |
| RockPaperScissors.BeatsIsACycle | 2/main.ts:15-39 | every throw beats exactly one throw and is beaten by exactly one, and never beats itself |
| RockPaperScissors.ThrowForOutcome | 2/main.ts:16-39 | the chosen throw wins, draws or loses against the given throw exactly as the outcome asks, in both directions |
| RockPaperScissors.LetterToThrowCases | 2/main.ts:42-54 | A or X and only they give rock, B or Y paper, C or Z scissors |
| RockPaperScissors.LetterToOutcomeCases | 2/main.ts:57-66 | X and only X gives a loss, Y a draw, Z a win |
| RockPaperScissors.ThrowValue | 2/main.ts:69-78 | a throw is worth 1, 2 or 3 points |
| RockPaperScissors.ThrowValueInjective | 2/main.ts:69-78 | different throws are worth different points |
| RockPaperScissors.Score | 2/main.ts:81-110 | a round scores the value of our throw plus 3 for a draw, 6 for a win and 0 for a loss, so between 1 and 9 |
| RockPaperScissors.ScoreOfChosenThrow | 2/main.ts:140-143 | playing the throw chosen for an outcome earns the points of that outcome plus the throw's value |
| RockPaperScissors.ScoreDeterminesRound | 2/main.ts:81-110 | equal scores mean the same throw of ours and the same result |
| RockPaperScissors.Round | 2/main.ts:121-125 | a round read from a line scores between 1 and 9, or is NaN |
| RockPaperScissors.Fields | 2/main.ts:117-121 | a line that is not blank once trimmed has at least one space-separated field |
| RockPaperScissors.Contributions | 2/main.ts:116-127 | every line is read, in order |
| RockPaperScissors.RoundCount | 2/main.ts:116-127 | there are no more rounds than lines |
| RockPaperScissors.ContributionsInRange | 2/main.ts:116-127 | every round read scores between 1 and 9 or is NaN |
| RockPaperScissors.TotalOfBounds | 2/main.ts:114-128 | a total that is a number lies between the number of rounds and nine times it |
| RockPaperScissors.TotalScoreBounds | 2/main.ts:112-147 | the answer of `one` or `two`, when a number, lies between the number of rounds and nine times it |
| RockPaperScissors.TotalOfStaysNaN | 2/main.ts:126 | once the running total is NaN it stays NaN |
| RockPaperScissors.ContributionsAppend | 2/main.ts:116-127 | reading more lines reads the first ones as before |
| RockPaperScissors.TotalScoreStaysNaN | 2/main.ts:112-147 | once a line has no score the answer is NaN whatever lines follow |
| RockPaperScissors.AddLine | 2/main.ts:117-126 | the loop body skips a blank line and adds the round's score otherwise |
| RockPaperScissors.Total | 2/main.ts:112-147 | the loops of `one` and `two` return the sum of the round scores, blank lines skipped |
| Rucksacks.ItemPriority | 3/main.ts:6-13 | a letter has a priority and nothing else does: 1-26 for lower case, 27-52 for upper case |
| Rucksacks.PriorityFollowsAlphabet | 3/main.ts:3-13 | 'a' is 1, 'A' is 27, and the priority goes up by one from letter to letter |
| Rucksacks.PriorityInjective | 3/main.ts:6-13 | different items have different priorities |
| Rucksacks.InAllOne | 3/main.ts:19 | one other rucksack holds an item exactly when the item occurs in it |
| Rucksacks.InAllTwo | 3/main.ts:53 | two other rucksacks hold an item exactly when it occurs in both |
| Rucksacks.FirstInAll | 3/main.ts:18-23 | the scan stops at the first item every other rucksack holds, or runs to the end |
| Rucksacks.FirstInAllIs | 3/main.ts:18-23 | the stopping place is the only index with nothing shared before it and a shared item at it |
| Rucksacks.Common | 3/main.ts:15-24 | `commonChar` returns "" exactly when no item of the first string is in the second, and otherwise an item of both |
| Rucksacks.CommonChar | 3/main.ts:17-24 | the loop of `commonChar` returns the first item of `s1` that `s2` also holds |
| Rucksacks.Compartments | 3/main.ts:35-38 | the two halves put together give the line back, and the second is the same length or one longer |
| Rucksacks.RucksackScoreRange | 3/main.ts:35-40 | a rucksack of letters scores between 0 and 52, and 0 exactly when its halves share nothing |
| Rucksacks.AddRucksack | 3/main.ts:31-40 | the loop body of `one` adds the rucksack's score, skipping a blank line |
| Rucksacks.PartOneStep | 3/main.ts:30-41 | one more line adds its rucksack's score, or nothing if it is blank |
| Rucksacks.PartOne | 3/main.ts:26-43 | `one` returns the sum of the rucksack scores of the non-blank lines |
| Rucksacks.Rucksacks | 3/main.ts:59-63 | the rucksacks `two` places are non-empty and no more than the lines; `Rucksacks.RucksacksInOrder` states which lines they are and their order |
| Rucksacks.TrimAll | 3/main.ts:60 | every line trimmed, in place |
| Rucksacks.RucksacksInOrder | 3/main.ts:59-63 | the rucksacks are the trimmed lines that are not blank: line for line the trimmed lines at the increasing positions of the non-blank ones, in their original order |
| Rucksacks.BadgeIsShared | 3/main.ts:50-58 | a badge that is counted is the priority of an item all three rucksacks hold |
| Rucksacks.ProcessGroup | 3/main.ts:50-58 | the loop of `processGroup` adds the priority of the first item of `s1` in `s2` and `s3`, or nothing |
| Rucksacks.RucksacksStep | 3/main.ts:59-63 | one more line adds itself to the rucksacks unless it is blank |
| Rucksacks.CloseGroup | 3/main.ts:67-71 | the third rucksack of a group adds the group's badge and empties the group |
| Rucksacks.FillGroup | 3/main.ts:67 | a first or second rucksack takes the next free slot of the group |
| Rucksacks.FirstEmpty | 3/main.ts:65-66 | the scan for a free slot stops at the first empty string, or at 3 |
| Rucksacks.FirstEmptySlot | 3/main.ts:64-66 | the free slot found is the one after the rucksacks already in the open group |
| Rucksacks.Place | 3/main.ts:64-71 | the loop body of `two` keeps the group holding the open rucksacks and the total holding the badges of the complete groups |
| Rucksacks.GroupStateStart | 3/main.ts:47-49 | before any line the group is empty and the total is 0 |
| Rucksacks.GroupStateTotal | 3/main.ts:72-73 | after every line the total is the sum of the badges of the complete groups; an incomplete last group is not counted |
| Rucksacks.PartTwo | 3/main.ts:45-74 | `two` returns the badges of the complete groups of three |
| Cleanup.Symmetric | 4/main.ts:5-17 | neither `contains` nor `overlaps` depends on the order of the two ranges |
| Cleanup.Contains | 4/main.ts:5-10 | `contains`: one range starts no later and ends no earlier than the other; `Cleanup.ContainsMeansSubset` states its meaning |
| Cleanup.Overlaps | 4/main.ts:12-17 | `overlaps`: the start of one range lies within the other; `Cleanup.OverlapsMeansShared` states its meaning |
| Cleanup.ContainsMeansSubset | 4/main.ts:5-10 | for well-formed ranges, `contains` holds exactly when the sections of one range are all sections of the other |
| Cleanup.OverlapsMeansShared | 4/main.ts:12-17 | for well-formed ranges, `overlaps` holds exactly when the larger start is at most the smaller end, that is when the ranges share a section |
| Cleanup.ContainsImpliesOverlaps | 4/main.ts:5-17 | containment implies overlap, and a range contains and overlaps itself |
| Cleanup.ParseShowRange | 4/main.ts:26-28 | reading back a printed range "lo-hi" gives its two bounds |
| Cleanup.ParseRange | 4/main.ts:26-28 | `r.split("-").map((n) => parseInt(n, 10))` as a value: the first two numbers of a range, NaN for a missing or unreadable one; `Cleanup.ParseShowRange` states that a printed range reads back |
| Cleanup.ParseLine | 4/main.ts:24-28 | the trimmed line split at its commas into two ranges, or the TypeError of a line without a comma; `Cleanup.CountOfBounds` states when it fails |
| Cleanup.ParseLines | 4/main.ts:23-28 | every line is read into its two ranges, in order |
| Cleanup.CountOfBounds | 4/main.ts:19-51 | the count is at most the number of lines, and fails exactly when some line has no second range |
| Cleanup.ContainedAtMostOverlapping | 4/main.ts:19-51 | on well-formed input, every pair `one` counts `two` counts too |
| Cleanup.CountLine | 4/main.ts:29-31 | the loop body adds one for a pair that passes the test and stops at a line that throws |
| Cleanup.Count | 4/main.ts:19-51 | the loops of `one` and `two` return the number of lines that pass the test, or the TypeError of the first line without a comma |
| Cleanup.CountOfStep | 4/main.ts:23-32 | one more line is one more step of the count |
| Cleanup.FailureSticks | 4/main.ts:29 | once a line throws, the answer is that error |
| Crates.Reversed | 5/main.ts:19-21 | `reverse()` puts element `i` at place `n - 1 - i` |
| Crates.ReversedTwice | 5/main.ts:19-21 | reversing twice gives the stack back |
| Crates.ReversedMultiset | 5/main.ts:19-21 | reversing keeps every crate |
| Crates.Popped | 5/main.ts:9-11 | `pop()` splits the top item off a non-empty stack, the rest followed by that item being the stack; an empty stack stays empty and gives `undefined` |
| Crates.PopAfterPush | 5/main.ts:6-14 | popping after a push gives the pushed item and the stack as it was, and `peek` sees the pushed item |
| Crates.PushAfterPop | 5/main.ts:6-14 | pushing back what was popped from a non-empty stack restores it, and the popped item is what `peek` sees |
| Crates.MoveOne | 5/main.ts:61-62 | one pop and push between two different stacks moves the top crate of `from` onto `to`; every other stack and the number of stacks stay the same |
| Crates.MoveCrates | 5/main.ts:60-63 | part one's move keeps the number of stacks and every stack other than `from` and `to` |
| Crates.PopMany | 5/main.ts:107-110 | `count` pops collect `count` items |
| Crates.MoveBlock | 5/main.ts:106-114 | part two's move keeps the number of stacks and every stack other than `from` and `to` |
| Crates.MoveCratesLands | 5/main.ts:60-63 | moving one at a time puts the top `count` crates of `from` on `to` in reversed order and changes no other stack |
| Crates.PopManyEnough | 5/main.ts:107-110 | popping `count` items from a stack that has them takes its top `count`, topmost first |
| Crates.MoveBlockLands | 5/main.ts:106-114 | moving a block puts the top `count` crates of `from` on `to` in their original order and changes no other stack |
| Crates.MoveCratesSameStack | 5/main.ts:58-63 | moving crates from a stack to itself changes nothing while it has enough crates |
| Crates.MoveBlockSameStack | 5/main.ts:104-114 | moving a block from a stack to itself changes nothing while it has enough crates |
| Crates.MoveCratesConserve | 5/main.ts:60-63 | moving one at a time keeps every crate of the two stacks |
| Crates.MoveBlockConserve | 5/main.ts:106-114 | moving a block keeps every crate of the two stacks |
| Crates.RemoveFirst | 5/main.ts:43 | `replace` with a string pattern removes the first occurrence of the character, and leaves a string without it unchanged |
| Crates.Grow | 5/main.ts:47-49 | growing adds empty stacks up to the index and keeps the old ones |
| Crates.PushLabel | 5/main.ts:43-50 | an empty label changes nothing; otherwise the label goes on top of stack `i`, after the stacks grow with empty ones to reach it, and every other stack is kept or new and empty |
| Crates.PushLabels | 5/main.ts:42-51 | pushing the pieces of a line never removes a stack |
| Crates.AddCrateLine | 5/main.ts:40-51 | reading a drawing line never removes a stack |
| Crates.CollapseDrawn | 5/main.ts:41 | a drawn level, once runs of four spaces become one, is its pieces joined by single spaces |
| Crates.LabelOfPiece | 5/main.ts:43 | removing the brackets of a piece gives the crate's letter, or nothing for an empty column |
| Crates.PushPieces | 5/main.ts:42-51 | pushing the pieces of a level puts each column's crate on its own stack |
| Crates.PushColumn | 5/main.ts:42-50 | pushing the piece of one more column, a crate or an empty one, extends the pushed columns by that column |
| Crates.ReadLevel | 5/main.ts:40-51 | reading one drawn level puts its crate in column `i` on top of stack `i`, growing the stacks as needed |
| Crates.ApplyMove | 5/main.ts:52-64 | a move that succeeds keeps the number of stacks |
| Crates.SplitMoveLine | 5/main.ts:53-54 | splitting a move line at its spaces gives its six words |
| Crates.ReadMove | 5/main.ts:53-56 | the words of a move line that contain a digit read as its three numbers |
| Crates.Numbers | 5/main.ts:53-56 | the words of a move line that contain a digit, each read by `parseInt(p, 10)`, in order; `Crates.ReadMove` states that a move line gives its three numbers |
| Crates.StackIndex | 5/main.ts:57-59 | `stacks[n - 1]` for a number `n` of the move: the stack numbered `n` from 1, or `undefined` when there is none; `Crates.ApplyMoveLine` and `Crates.ApplyMoveMissingStack` state what a move does with it |
| Crates.ApplyMoveLine | 5/main.ts:52-64 | a move line naming existing stacks moves `count` crates from `from` to `to` (numbered from 1), one at a time in part one and as a block in part two |
| Crates.ApplyMoveMissingStack | 5/main.ts:57-62 | a move line naming a stack that does not exist throws as soon as it moves a crate |
| Crates.ReverseEach | 5/main.ts:36-37 | every stack is reversed |
| Crates.TopsSpell | 5/main.ts:66-67 | with a one-letter crate on top of every stack, the answer spells the tops in order |
| Crates.DrawnIsLevel | 5/main.ts:31-40 | a drawn level is neither blank nor the line of stack numbers |
| Crates.ReadLevels | 5/main.ts:29-51 | reading the levels of a drawing leaves stack `i` holding column `i`, top level first |
| Crates.ReadDrawing | 5/main.ts:34-38 | after the line of stack numbers, stack `i` holds column `i` with the top level's crate on top |
| Crates.Stack.constructor | 5/main.ts:4-5 | a new stack is empty |
| Crates.Stack.Push | 5/main.ts:6-8 | `push` adds the item on top |
| Crates.Stack.Pop | 5/main.ts:9-11 | `pop` removes and returns the top, as the value model says |
| Crates.Stack.Peek | 5/main.ts:12-14 | `peek` returns the top without changing the stack |
| Crates.Stack.IsEmpty | 5/main.ts:15-17 | `isEmpty` holds exactly when the stack has no item |
| Crates.Stack.Reverse | 5/main.ts:19-21 | `reverse` reverses the items in place |
| Crates.MoveOneOf | 5/main.ts:61-62 | one pop and push on the stack objects does what the value model's move of one crate does |
| Crates.MoveCratesOf | 5/main.ts:58-63 | part one's loop on the stack objects does what `MoveCrates` does |
| Crates.PopItems | 5/main.ts:107-110 | the popping loop of part two collects what `PopMany` collects |
| Crates.PushAll | 5/main.ts:112-114 | the pushing loop adds the items in order |
| Crates.MoveBlockOf | 5/main.ts:104-114 | part two's move on the stack objects does what `MoveBlock` does |
| Crates.AddCrateLineOf | 5/main.ts:40-51 | reading a drawing line on the objects adds fresh stacks and pushes what `AddCrateLine` pushes |
| Crates.PushParts | 5/main.ts:42-51 | the loop over the pieces pushes what `PushLabels` pushes |
| Crates.PushPart | 5/main.ts:43-50 | one piece, unless its label is empty, goes on stack `i` |
| Crates.PushAt | 5/main.ts:47-50 | the stacks are grown to reach `i` and the item goes on stack `i` |
| Crates.GrowTo | 5/main.ts:47-49 | the growing loop adds fresh empty stacks up to `n` |
| Crates.ReverseAll | 5/main.ts:37 | every stack object is reversed in place |
| Crates.TopsOf | 5/main.ts:67 | the answer is the tops of the stacks joined |
| Crates.StepLineOf | 5/main.ts:29-65 | one line on the objects does what the value model's step does, or fails with its error |
| Crates.RearrangeOf | 5/main.ts:24-65 | the loop over the lines builds and moves the stacks as the value model does, or fails with the same error |
| Crates.StepLine | 5/main.ts:29-65 | one line of `one` and `two` as a value: a blank line is skipped, the line of stack numbers reverses every stack and ends the drawing, a drawing line pushes its crates, and after the drawing a line is a move; `Crates.StepLineOf` and `Crates.FailureSticks` state its properties |
| Crates.Rearrange | 5/main.ts:24-65 | the line loop as a value, failing with the error of the first line that throws; `Crates.RearrangeOf` and `Crates.ReadDrawing` state its properties |
| Crates.Run | 5/main.ts:24-119 | `one` and `two` return the tops of the rearranged stacks |
| Crates.FailureSticks | 5/main.ts:58-62 | once a line throws, the answer is that error |
| Marker.DistinctCount | 6/main.ts:23-26 | the set of the values is never larger than the sequence, and as large exactly when the values are pairwise different |
| Marker.Rotate | 6/main.ts:13-16 | the rotated window holds the newest `r` values first, then the older ones, each in its slot |
| Marker.DistinctWrap | 6/main.ts:23-26 | wrapping values as written slots keeps them distinct or not |
| Marker.DistinctRotate | 6/main.ts:13-16 | rotating the window keeps it distinct or not |
| Marker.DistinctPadded | 6/main.ts:20-26 | written values followed by `k` unwritten slots are distinct only when the values are and at most one slot is unwritten |
| Marker.RotateGet | 6/main.ts:17-19 | in the rotated window, the `j`-th oldest value sits `j` slots after `index`, wrapping round |
| Marker.Next | 6/main.ts:15 | the index moves on by one modulo the size |
| Marker.DistinctLayout | 6/main.ts:23-26 | the slots are all different exactly when the last `size` values are, or, before the buffer is full, when one slot is unwritten and the values differ |
| Marker.PushLayout | 6/main.ts:13-16 | writing the slot at `index` and advancing it gives the layout after one more value |
| Marker.LayoutOfFull | 6/main.ts:13-16 | a buffer that has just filled up holds the values in order, the oldest in slot 0 |
| Marker.RotateShift | 6/main.ts:13-16 | once full, a push overwrites the oldest value |
| Marker.CircularBuffer.constructor | 6/main.ts:8-12 | a new buffer has `n` unwritten slots and `index` 0 |
| Marker.CircularBuffer.Push | 6/main.ts:13-16 | `push` writes the slot at `index`, moves `index` on modulo the size, and keeps the slots equal to the layout of the values pushed |
| Marker.CircularBuffer.Get | 6/main.ts:17-19 | on a full buffer `get(j)` is the `j`-th oldest of the last `size` values, and any non-negative `j` reads some slot |
| Marker.CircularBuffer.Full | 6/main.ts:20-22 | `full` holds exactly once `size` values were pushed |
| Marker.CircularBuffer.AllUnique | 6/main.ts:23-26 | `allUnique` holds exactly when the slots differ: on a full buffer, when the last `size` values are pairwise different |
| Marker.MarkerFrom | 6/main.ts:50-59 | the position found from `from` holds a marker and no earlier position from `from` does |
| Marker.Marker | 6/main.ts:50-59 | the position reported is the least at which the last `n` characters differ, and there is none when nothing is reported |
| Marker.PushAndTest | 6/main.ts:51-57 | one step of the inner loop pushes the character and finds a marker exactly when the buffer is full of different characters |
| Marker.WindowIsMarker | 6/main.ts:50-57 | the last `n` of the first `i + 1` characters are all different exactly when a marker ends at `i + 1` |
| Marker.FindMarker | 6/main.ts:49-59 | the inner loop of `run` finds the least marker position of the line, or none |
| Marker.Run | 6/main.ts:37-62 | `run` appends the marker position of each non-blank line, separated by newlines |
| Marker.One | 6/main.ts:29-31 | `one` looks for markers of four characters |
| Marker.Two | 6/main.ts:33-35 | `two` looks for markers of fourteen characters |
| Marker.ReportIgnoresBlank | 6/main.ts:43-45 | blank lines add nothing, not even a separator |
| Marker.AddLine | 6/main.ts:42-59 | one pass of the line loop: a blank line adds nothing, any other line a newline when `ret` is not empty, then its marker position if it has one; `Marker.ReportIgnoresBlank` and `Marker.ReportJoinsPositions` state the result |
| Marker.Report | 6/main.ts:37-62 | the string `run` returns, built line by line; `Marker.Run` computes it and `Marker.ReportJoinsPositions` states its content |
| Marker.Numerals | 6/main.ts:56 | there is one position per line |
| Marker.ReportJoinsPositions | 6/main.ts:46-57 | when every line holds a marker, the report is the positions, in line order, joined with newlines |
| DirectoryTree.ChildrenSizeBound | 7/main.ts:57-67 | a subdirectory's size is at most the sum over any run of children that includes it |
| DirectoryTree.ChildSizeBound | 7/main.ts:57-67 | `size` of a subdirectory is at most `size` of the directory listing it |
| DirectoryTree.ParentSizeBound | 7/main.ts:57-67 | no directory is larger than its parent |
| DirectoryTree.RootIsLargest | 7/main.ts:88 | the root is the largest directory, which is why `two` takes the last of the ascending sizes as the root |
| DirectoryTree.AncestorBefore | 7/main.ts:29-33 | an ancestor was created before its descendants |
| DirectoryTree.AncestorTransitive | 7/main.ts:51-53 | following parent links twice is following them once |
| DirectoryTree.AncestorChildUnique | 7/main.ts:51-53 | a directory lies below only one child of each of its ancestors |
| DirectoryTree.SubtreeCount | 7/main.ts:158-169 | the subtree of a directory holds each of its descendants exactly once and nothing else |
| DirectoryTree.ChildrenCount | 7/main.ts:164-168 | the subtrees of the first `k` children hold a directory once exactly when one of those children is on its way up |
| DirectoryTree.DirChildCount | 7/main.ts:164-168 | the subtree of one child holds a descendant exactly when that child is on the descendant's way up |
| DirectoryTree.RootIsAncestor | 7/main.ts:104-105 | every directory of a tree read from a transcript lies below the root |
| DirectoryTree.EveryDirectoryOnce | 7/main.ts:155-169 | the root's subtree holds every directory exactly once |
| DirectoryTree.FirstChildDirectory | 7/main.ts:43-50 | `findChildDirectory` returns a subdirectory with that path listed among the children, and none only when no child is one |
| DirectoryTree.FirstChildDirectoryIsFirst | 7/main.ts:43-50 | the directory found is the first matching child |
| DirectoryTree.AddDirectory | 7/main.ts:142-144 | `dir` adds one directory |
| DirectoryTree.AddFile | 7/main.ts:145-148 | a file line adds no directory |
| DirectoryTree.Step | 7/main.ts:109-153 | a line fails exactly on a `cd` to an absolute path other than `/`, a `cd ..` from the root, a `cd` to an unknown subdirectory, or an `ls` line that is neither `dir` nor starts with a digit; a successful line keeps the session consistent |
| DirectoryTree.LeadingNumber | 7/main.ts:145-147 | the size of a file line is `parseInt` without a radix of its first word, so `0x1A` is 26; as the word starts with a digit the number is never negative |
| DirectoryTree.FirstWordNotNegative | 7/main.ts:145-147 | a first word that starts with a digit never reads as a negative number |
| DirectoryTree.LeadingNumberHex | 7/main.ts:147 | the listing line "0x1A a" records a file of size 26 |
| DirectoryTree.SecondWord | 7/main.ts:146-147 | the name of a file line is its second word, `parts[1]`, or `undefined` when it has none |
| DirectoryTree.AddDirectoryOrdered | 7/main.ts:142-144 | after `dir`, children are later directories and parents earlier ones |
| DirectoryTree.AddFileOrdered | 7/main.ts:145-148 | after a file line, children are later directories and parents earlier ones |
| DirectoryTree.ListingOnlyAfterLs | 7/main.ts:141-152 | a non-command line outside a listing changes nothing |
| DirectoryTree.CommandsSetListing | 7/main.ts:114-120 | after a command, lines are listing output exactly when the command was `$ ls` |
| DirectoryTree.Interpret | 7/main.ts:103-153 | reading a transcript keeps the session consistent |
| DirectoryTree.StepWellFormed | 7/main.ts:109-153 | every line keeps each directory listed exactly once by its parent |
| DirectoryTree.AddDirectoryWellFormed | 7/main.ts:142-144 | `dir` keeps the tree well formed |
| DirectoryTree.AddDirectoryLinked | 7/main.ts:142-144 | after `dir`, every subdirectory entry names a directory whose parent is the listing directory |
| DirectoryTree.AddDirectoryEntries | 7/main.ts:142-144 | after `dir`, every directory but the root has a parent that lists it exactly once |
| DirectoryTree.AddFileWellFormed | 7/main.ts:145-148 | a file line keeps the tree well formed |
| DirectoryTree.InterpretWellFormed | 7/main.ts:103-153 | every transcript read without error yields a well-formed tree |
| DirectoryTree.FileTree.constructor | 7/main.ts:104 | a new tree is the root alone |
| DirectoryTree.FileTree.NewDirectory | 7/main.ts:29-33 | `new Directory` appends a directory with its parent and no children |
| DirectoryTree.FileTree.AddChild | 7/main.ts:37-39 | `addChild` appends the child to that directory and changes nothing else |
| DirectoryTree.FileTree.FindChildDirectory | 7/main.ts:43-50 | the loop returns the first subdirectory with that path |
| DirectoryTree.ProcessLine | 7/main.ts:110-152 | one pass of the line loop fails exactly when `Step` does and otherwise leaves the tree, current directory and listing flag `Step` gives |
| DirectoryTree.ReadTranscript | 7/main.ts:104-153 | the line loop fails exactly when `Interpret` does and otherwise builds its tree |
| DirectoryTree.FailureSticks | 7/main.ts:124-150 | an error thrown on one line ends the whole run |
| DirectoryTree.SizeOf | 7/main.ts:57-67 | the loop of `size` computes the recursive size |
| DirectoryTree.Size | 7/main.ts:57-67 | `size`: the sizes of the files listed plus the sizes of the subdirectories listed; `DirectoryTree.SizeOf`, `DirectoryTree.ParentSizeBound` and `DirectoryTree.RootSizeIsMax` state its properties |
| DirectoryTree.CollectDirectories | 7/main.ts:155-169 | the stack walk collects the directories of the root's subtree, each as often as it occurs there |
| DirectoryTree.PushSubdirectories | 7/main.ts:164-168 | pushing the children adds exactly their subtrees to what the stack still has to visit |
| DirectoryTree.PushedStep | 7/main.ts:165-167 | pushing one child directory adds its subtree |
| DirectoryTree.ChildrenMsStep | 7/main.ts:164-168 | a file child adds nothing to the walk, a directory child its subtree |
| DirectoryTree.StackMsPush | 7/main.ts:166 | pushing a directory adds its subtree |
| DirectoryTree.RangeCounts | 7/main.ts:155-169 | each directory index appears once among all indices |
| DirectoryTree.CollectedAreAll | 7/main.ts:155-169 | in a well-formed tree the walk collects every directory exactly once |
| DirectoryTree.LookupPermutation | 7/main.ts:72-75 | the sizes of rearranged directories are the same sizes rearranged |
| DirectoryTree.CollectedSizes | 7/main.ts:72-75 | the sizes of the collected directories are the sizes of all directories, rearranged |
| DirectoryTree.SmallSumAppend | 7/main.ts:71-76 | the part-one total of two lists adds up |
| DirectoryTree.SmallSumPermutation | 7/main.ts:71-76 | the part-one total does not depend on the order the walk finds the directories in |
| DirectoryTree.SmallSumBounds | 7/main.ts:73-75 | the total is between 0 and 100000 per directory |
| DirectoryTree.PartOne | 7/main.ts:69-79 | `one` fails exactly when reading fails and otherwise is the total size of the directories of size at most 100000 |
| DirectoryTree.CollectedSizesOf | 7/main.ts:155-170 | the walk of a tree read from a transcript yields the size of every directory, rearranged |
| DirectoryTree.SortedLast | 7/main.ts:84-88 | the last of the ascending sizes is the largest size |
| DirectoryTree.FirstFreeingIsSmallest | 7/main.ts:91-96 | the first ascending size that frees enough is a directory's size and the smallest such |
| DirectoryTree.RootSizeIsMax | 7/main.ts:88-89 | the root's size is the maximum of all sizes |
| DirectoryTree.PartTwo | 7/main.ts:81-99 | `two` fails exactly when reading fails and otherwise is the size of the smallest directory whose deletion leaves 30000000 of 70000000 free; it never reaches the failure message |
| DirectoryTree.FirstFreeing | 7/main.ts:92-97 | the loop finds the first sorted size that frees enough, or reports that none does |
| DirectoryTree.DirectorySizes | 7/main.ts:72-74 | the size of each collected directory, in order |
| TreeGrid.ShiftDist | 8/main.ts:91-92 | walking toward an edge stays on the grid and brings the edge one step closer each step |
| TreeGrid.Ray | 8/main.ts:21-25 | the heights met from a tree to the edge are the trees one, two, … steps away, as many as there are |
| TreeGrid.Neighbor | 8/main.ts:106-133 | a step reports `false` exactly at the edge, and otherwise the height of the nearest tree in that direction |
| TreeGrid.Coord.constructor | 8/main.ts:97-101 | a new position is the given place on the grid |
| TreeGrid.Coord.Set | 8/main.ts:102-105 | `set` moves the position to the given place |
| TreeGrid.Coord.Left | 8/main.ts:106-112 | `left` reports `false` and stays in the first place of a row, otherwise moves one back along the row and reports that height |
| TreeGrid.Coord.Right | 8/main.ts:113-119 | `right` (with the corrected bound) reports `false` and stays in the last place of a row, otherwise moves one on and reports that height |
| TreeGrid.Coord.Up | 8/main.ts:120-126 | `up` reports `false` and stays in the first row, otherwise moves one row back and reports that height |
| TreeGrid.Coord.Down | 8/main.ts:127-133 | `down` (with the corrected bound) reports `false` and stays in the last row, otherwise moves one row on and reports that height |
| TreeGrid.Coord.Step | 8/main.ts:22-24 | calling the direction's method moves the position as that method does |
| TreeGrid.EdgeTreesVisible | 8/main.ts:18-36 | every tree on the edge is visible |
| TreeGrid.LookClear | 8/main.ts:19-30 | the inner loop of `one` finds the direction clear exactly when every tree up to the edge is shorter |
| TreeGrid.IsVisible | 8/main.ts:9-37 | a tree is counted exactly when it is visible from some direction |
| TreeGrid.CountRow | 8/main.ts:8-38 | a row contributes at most one per tree |
| TreeGrid.CountRows | 8/main.ts:7-39 | the rows contribute at most one per tree |
| TreeGrid.CountVisibleTrees | 8/main.ts:6-40 | the nested loop of `one` counts the visible trees |
| TreeGrid.EdgeRowCount | 8/main.ts:7-39 | every tree of the first and last rows is counted |
| TreeGrid.RowCountAtLeastEnds | 8/main.ts:8-38 | both end trees of a row are counted |
| TreeGrid.RowsCountAtLeastEnds | 8/main.ts:7-39 | the first rows count at least the first row and both ends of the others |
| TreeGrid.CountVisibleBounds | 8/main.ts:3-42 | the answer of `one` is between the number of trees on the perimeter and the number of trees |
| TreeGrid.ViewDistance | 8/main.ts:63-75 | the viewing distance counts the trees up to and including the first one at least as tall, or up to the edge |
| TreeGrid.ViewDistanceIs | 8/main.ts:63-75 | the viewing distance is the only count with those properties |
| TreeGrid.ViewingDistance | 8/main.ts:62-75 | the `while` loop of `two` computes the viewing distance in that direction |
| TreeGrid.PartialScore | 8/main.ts:76-80 | the running product of viewing distances is at least 1 |
| TreeGrid.Score | 8/main.ts:53-81 | the scenic score is at least 1 for an interior tree |
| TreeGrid.DirectionScore | 8/main.ts:61-75 | each pass of the direction loop, after `set`, yields the viewing distance from the tree |
| TreeGrid.ScenicScore | 8/main.ts:53-81 | the direction loop of `two` multiplies the four viewing distances |
| TreeGrid.RowBest | 8/main.ts:50-85 | the best so far bounds every interior score of the row seen |
| TreeGrid.RowBestAttained | 8/main.ts:50-85 | the best of a row is the score of one of its interior trees, 0 when there is none |
| TreeGrid.GridBest | 8/main.ts:49-86 | the best so far bounds every interior score of the rows seen |
| TreeGrid.GridBestAttained | 8/main.ts:49-86 | the best of the rows is 0 exactly when there is no interior tree, and otherwise some interior tree's score |
| TreeGrid.BestScore | 8/main.ts:44-89 | the answer of `two` bounds the score of every interior tree |
| TreeGrid.BestScoreAttained | 8/main.ts:44-89 | the answer of `two` is the score of some interior tree, and 0 exactly when there is none |
| TreeGrid.RowHighest | 8/main.ts:50-85 | the inner loop of `two` raises `highest` to the best score of the row |
| TreeGrid.RowBestStep | 8/main.ts:82-84 | one more tree raises the best to its own score when that is higher |
| TreeGrid.GridBestStep | 8/main.ts:49-86 | one more row raises the best to the row's best when that is higher |
| TreeGrid.HighestScenicScore | 8/main.ts:48-87 | the nested loop of `two` computes the best interior score |
| TreeGrid.Digits | 8/main.ts:150 | one height per character, its digit value |
| TreeGrid.ParseGrid | 8/main.ts:141-158 | reading succeeds exactly when every non-blank line is all digits and as long as the first, and then gives one row of digit values per non-blank line, all of equal length |
| TreeGrid.ParseGridStep | 8/main.ts:145-156 | a blank line is skipped and any other line is checked against the first row and appended |
| TreeGrid.ReadGrid | 8/main.ts:141-158 | the reading loop builds the grid `ParseGrid` describes |
| TreeGrid.FailureSticks | 8/main.ts:151-153 | once "not a square grid" is thrown, later lines change nothing |
| TreeGrid.One | 8/main.ts:3-42 | with the corrected `right`/`down` bounds, `one` fails exactly when reading fails and otherwise counts the visible trees; on a rectangular grid that is not square the source instead throws or never ends (see Findings) |
| TreeGrid.Two | 8/main.ts:44-89 | with the corrected `right`/`down` bounds, `two` fails exactly when reading fails and otherwise is the highest scenic score; on a rectangular grid that is not square the source instead throws or never ends (see Findings) |
| TreeGrid.RightAsWritten | 8/main.ts:113-119 | `right` as written stops exactly when the place in the row is the number of rows less one |
| TreeGrid.DownAsWritten | 8/main.ts:127-133 | `down` as written stops exactly when the row is the length of the first row less one |
| TreeGrid.AsWrittenAgreesWhenSquare | 8/main.ts:113-133 | on a square grid `right` and `down` as written behave like the corrected steps |
| TreeGrid.AsWrittenStopsEarly | 8/main.ts:113-133 | on a grid of one row or one column, `right` or `down` as written stops before the edge, or reads past the end of the row |
| Rope.TouchingSymmetric | 9/main.ts:69-72 | `touching` does not depend on the order of its arguments |
| Rope.TouchingMeans | 9/main.ts:69-72 | touching means adjacent sideways or diagonally, or two steps apart in a straight line; a knot is never touching itself |
| Rope.Touching | 9/main.ts:69-72 | `touching`: the Manhattan distance is 1 or 2; `Rope.TouchingMeans` states what that means on the grid |
| Rope.Follow | 9/main.ts:36-63 | a knot moves at most one step in each coordinate |
| Rope.FollowStraight | 9/main.ts:38-46 | a knot two steps straight from its leader moves one step toward it along that line |
| Rope.FollowDiagonal | 9/main.ts:48-62 | a knot not touching and off both axes moves diagonally, closing both gaps by one |
| Rope.FollowStays | 9/main.ts:36-63 | in every other case the knot stays |
| Rope.FollowStaysClose | 9/main.ts:36-63 | a knot at most two steps from its leader in each coordinate ends next to it or on it |
| Rope.Move | 9/main.ts:102-115 | a head move changes each coordinate by at most one |
| Rope.Drag | 9/main.ts:116-118 | every knot after the head follows |
| Rope.Step | 9/main.ts:101-119 | one unit keeps the number of knots |
| Rope.DragIndex | 9/main.ts:116-118 | knot `i` follows knot `i - 1` after that knot has already moved |
| Rope.StepIndex | 9/main.ts:116-118 | in one unit, knot `i` follows the already moved knot `i - 1` |
| Rope.StepKeepsClose | 9/main.ts:101-119 | after each unit every knot is next to or on the knot before it |
| Rope.Start | 9/main.ts:87-92 | all knots start at the origin and the last knot has visited only the origin |
| Rope.StepRope | 9/main.ts:101-119 | a unit never removes a visited position |
| Rope.StepTimes | 9/main.ts:101 | the units of one line never remove a visited position |
| Rope.Distance | 9/main.ts:98-101 | the loop runs `parseInt` without a radix of the second word times when that is a positive number, and not at all otherwise: a missing word, NaN or a number below 1 fails `i < distance` at once |
| Rope.DistanceHex | 9/main.ts:100 | the move line "R 0x10" moves sixteen units |
| Rope.Direction | 9/main.ts:98-99 | the direction of a move line is its first word |
| Rope.Simulate | 9/main.ts:93-120 | the rope keeps its number of knots through the transcript |
| Rope.StepTimesInvariant | 9/main.ts:101-119 | the units of one line keep the knots close and the last knot's position in its trail |
| Rope.SimulateInvariant | 9/main.ts:84-122 | throughout the transcript the rope stays close and the trail holds the origin and the last knot's position |
| Rope.TrailGrows | 9/main.ts:93-121 | more lines never shrink the set of visited positions |
| Rope.Knot.constructor | 9/main.ts:20-23 | a new knot is at its position and has visited only it |
| Rope.Knot.Up | 9/main.ts:24-26 | `up` adds one to `y` and records nothing |
| Rope.Knot.Down | 9/main.ts:27-29 | `down` subtracts one from `y` and records nothing |
| Rope.Knot.Left | 9/main.ts:30-32 | `left` subtracts one from `x` and records nothing |
| Rope.Knot.Right | 9/main.ts:33-35 | `right` adds one to `x` and records nothing |
| Rope.Knot.UpdatePositionInRelationTo | 9/main.ts:36-65 | the knot moves as `Follow` says and records the position reached |
| Rope.Positions | 9/main.ts:117 | the positions of the knots, in order |
| Rope.StepKnots | 9/main.ts:102-118 | one unit on the objects moves the knots and extends the tail's visited set as `StepRope` does |
| Rope.NewKnots | 9/main.ts:87-90 | `numKnots` new, distinct knots at the origin, each having visited only it |
| Rope.MoveKnots | 9/main.ts:101-119 | the `for` over the distance applies `distance` units |
| Rope.Run | 9/main.ts:84-122 | `run` reports the number of positions the last knot visited during the transcript |
| Rope.PartOne | 9/main.ts:74-76 | `one` runs a rope of two knots |
| Rope.PartTwo | 9/main.ts:78-80 | `two` runs a rope of ten knots |
| Rope.VisitsAtLeastOne | 9/main.ts:121 | the answer is at least 1, the origin |
| Cpu.NewInstruction | 10/main.ts:14-23 | the constructor succeeds exactly for `addx` (2 cycles) and `noop` (1 cycle) and throws "unknown command" otherwise |
| Cpu.ParseLine | 10/main.ts:146-149 | a line is its first word as the name and its second word, read by `parseInt` without a radix (10/main.ts:80), as the operand; it fails exactly on an unknown name or an `addx` whose operand is not a number |
| Cpu.ParseLineHex | 10/main.ts:80 | the line "addx 0x5" is an `addx` of 5 |
| Cpu.ParseFormatInstruction | 10/main.ts:24-26 | reading back the line `toString` prints gives the instruction |
| Cpu.FormatInstruction | 10/main.ts:24-26 | `toString`: the name, a space and the `addx` operand; `Cpu.ParseFormatInstruction` states that it reads back |
| Cpu.ParseProgram | 10/main.ts:141-150 | the program reads exactly when every non-blank line does, and then holds only known instructions |
| Cpu.TickProgress | 10/main.ts:72-97 | a tick of a non-empty schedule advances the clock, runs and removes the entry due now if there is one, and brings the run one tick closer to its end |
| Cpu.RunSpec | 10/main.ts:66-70 | `run` calls the callback once per tick, so the final clock is the start clock plus the number of callbacks |
| Cpu.CPU.constructor | 10/main.ts:42-48 | a new CPU is at clock 1 with nothing scheduled and `x` as given |
| Cpu.CPU.AddInstruction | 10/main.ts:50-64 | the instruction is appended to the list due at `clock + cycles - 1`, which is created when missing; clock and `x` are kept |
| Cpu.CPU.Tick | 10/main.ts:72-97 | the instructions due now run in order, their entry is removed, the clock moves on and the callback sees the new clock and `x` |
| Cpu.CPU.Run | 10/main.ts:66-70 | `run` ticks until nothing is scheduled, passing the callback the arguments `RunSpec` gives |
| Cpu.InstructionTrace | 10/main.ts:66-97 | one instruction run alone calls the callback once per cycle |
| Cpu.RunEmpty | 10/main.ts:67 | running with nothing scheduled does not tick |
| Cpu.TickDue | 10/main.ts:73-95 | the tick on an instruction's due cycle runs it and leaves nothing scheduled |
| Cpu.RunOneCycle | 10/main.ts:66-97 | `noop` finishes on the first tick |
| Cpu.RunTwoCycles | 10/main.ts:66-97 | `addx` waits one tick with `x` unchanged and changes `x` on the second |
| Cpu.RunOne | 10/main.ts:150-157 | adding a known instruction to an idle CPU and running it takes its cycles and changes only `x`, by its effect |
| Cpu.ProgramRun | 10/main.ts:141-158 | after the program the clock is 1 plus the number of callbacks |
| Cpu.ProgramRunStep | 10/main.ts:141-158 | each line adds its instruction's callbacks to those of the lines before it |
| Cpu.RunInstruction | 10/main.ts:149-157 | adding one instruction and running leaves the CPU idle, with the clock moved on by its cycles and `x` changed by its effect |
| Cpu.ProgramRunClocks | 10/main.ts:95-96 | the callbacks see the clocks 2, 3, 4, … in order |
| Cpu.SampledCycles | 10/main.ts:152 | the signal is sampled exactly at clocks 20, 60, 100, 140, 180 and 220 |
| Cpu.SampleSignals | 10/main.ts:151-157 | part one's callback adds `clock * x` for every sampled callback |
| Cpu.Signal | 10/main.ts:151-155 | the signal strength one callback adds: `clock * x` on a sampled clock, nothing otherwise; `Cpu.SampledCycles` states which clocks are sampled |
| Cpu.SignalSum | 10/main.ts:137-159 | the sum of the signal strengths over the callbacks, in order; `Cpu.SampleSignals` computes it and `Cpu.SignalSumAppend` states that it adds up |
| Cpu.SignalSumAppend | 10/main.ts:151-157 | the signal sum of two runs adds up |
| Cpu.PartOne | 10/main.ts:136-160 | `one` is the sum of the signal strengths at the sampled clocks over the whole program |
| Cpu.PixelLit | 10/main.ts:120-124 | a pixel is `#` exactly when the sprite covers its column, and `.` otherwise |
| Cpu.DrawSpec | 10/main.ts:110-126 | drawing keeps the number of pixels |
| Cpu.DrawAll | 10/main.ts:180-182 | drawing several times keeps the number of pixels |
| Cpu.ScreenLayout | 10/main.ts:127-133 | with single-character pixels the screen is six lines of forty pixels, each ending in a newline, pixel by pixel |
| Cpu.CRT.constructor | 10/main.ts:105-109 | a new CRT has 240 empty pixels |
| Cpu.CRT.Draw | 10/main.ts:110-126 | `draw` sets only pixel `clock - 1`, and only on the screen, lit when the sprite covers its column |
| Cpu.CRT.DrawTrace | 10/main.ts:180-182 | part two's callback draws every callback's clock in order |
| Cpu.CRT.ToString | 10/main.ts:127-133 | `toString` joins the six rows of forty pixels, each followed by a newline |
| Cpu.Screen | 10/main.ts:127-133 | the screen `toString` prints: the six rows of forty pixels, each followed by a newline; `Cpu.ScreenLayout` states its layout |
| Cpu.DrawAllAppend | 10/main.ts:180-182 | drawing two traces in turn is drawing them together |
| Cpu.DrawAllInOrder | 10/main.ts:110-126 | drawing one clock per cycle from 1 sets each drawn position from its own draw and leaves the rest empty |
| Cpu.ScreenStep | 10/main.ts:170-183 | the pixels after one more line are the pixels before it with that instruction's callbacks drawn |
| Cpu.PartTwo | 10/main.ts:164-185 | `two` draws clock 1 with `x` = 1, then every callback of the program, and prints the screen |
| Cpu.PartTwoPixels | 10/main.ts:164-185 | pixel `p` shows the sprite seen on clock `p + 1`, or stays empty when the program ends sooner |
| Monkeys.ApplyCases | 11/main.ts:16-23 | `old * old` squares, `old + old` doubles, and a constant operand is multiplied or added |
| Monkeys.ParseOperation | 11/main.ts:7-25 | parsing succeeds only on five words `new ? old <op> <operand>` with `*` or `+` and an operand `old` or a number, and the operation returned is the one those words name; every other shape throws |
| Monkeys.Apply | 11/main.ts:16-23 | the function an operation stands for: the old worry times or plus the operand, `old` standing for the worry itself; `Monkeys.InspectIsCongruent` states that replaying it modulo a divisor is sound |
| Monkeys.ParseFormatOperation | 11/main.ts:7-25 | every operation the puzzle can write reads back to itself |
| Monkeys.SplitFormatOperation | 11/main.ts:8 | the printed operation splits into its five words |
| Monkeys.ParseOperationWords | 11/main.ts:7-25 | any line whose words are those of an operation parses to it |
| Monkeys.ParseTest | 11/main.ts:31-42 | a test parses exactly when it has three words, the first `divisible`, and its divisor is `parseInt` of the third |
| Monkeys.ParseTestDivisibleBy | 11/main.ts:31-42 | "divisible by k" holds for `n` exactly when `k` is non-zero and divides `n` |
| Monkeys.JsRem | 11/main.ts:313 | JavaScript's `%` agrees with the mathematical remainder on non-negative numbers |
| Monkeys.TruncDiv | 11/main.ts:98 | `Math.trunc(a / 3)` rounds toward zero on both signs |
| Monkeys.ModAdd | 11/main.ts:246-259 | reducing a summand modulo `m` keeps the sum modulo `m` |
| Monkeys.ModMul | 11/main.ts:246-259 | reducing a factor modulo `m` keeps the product modulo `m` |
| Monkeys.ApplyMod | 11/main.ts:246-259 | an operation applied to a value or to its remainder gives the same remainder |
| Monkeys.InspectionThrowsAway | 11/main.ts:102-112 | with valid targets every inspection throws to another existing monkey |
| Monkeys.ThrowAll | 11/main.ts:93-114 | throwing items keeps the number of monkeys |
| Monkeys.Turn | 11/main.ts:92-114 | a turn keeps the number of monkeys |
| Monkeys.RoundUpTo | 11/main.ts:91-115 | the turns so far keep the number of monkeys |
| Monkeys.RoundCounts | 11/main.ts:113 | in a round each monkey inspects as many items as it holds when its turn begins |
| Monkeys.ThrowAllDelivers | 11/main.ts:106-111 | every target's queue gains the items thrown to it, at the end, in inspection order |
| Monkeys.ThrownToSelf | 11/main.ts:106-111 | a monkey throws nothing to itself |
| Monkeys.TurnDelivers | 11/main.ts:92-114 | after a turn the monkey holds nothing and every other monkey has the items thrown to it appended in order |
| Monkeys.ThrowAllFrame | 11/main.ts:96 | what the monkey still holds does not affect where its throws land |
| Monkeys.TotalItemsUpdate | 11/main.ts:96-111 | replacing one queue changes the item total by the difference in its length |
| Monkeys.ThrowAllConserves | 11/main.ts:93-114 | throwing items adds exactly those items to the total |
| Monkeys.RoundConserves | 11/main.ts:90-117 | a round neither creates nor loses items |
| Monkeys.TopTwoProduct | 11/main.ts:118-124 | the monkey business is a number exactly when there are at least two monkeys (otherwise NaN) |
| Monkeys.TopTwoProductIsTwoLargest | 11/main.ts:118-124 | the monkey business is the largest count times the largest of the other counts |
| Monkeys.ThrowAllKeeps | 11/main.ts:93-96 | part way through a turn the monkey's queue is what it has not yet thrown |
| Monkeys.ThrowNext | 11/main.ts:93-114 | one more pass of the `while` removes the front item and delivers it to its target |
| Monkeys.AddCounts | 11/main.ts:113 | the counts are added monkey by monkey |
| Monkeys.CountedNext | 11/main.ts:113 | one more turn adds that monkey's inspections to its count |
| Monkeys.RoundCountsAdded | 11/main.ts:91-115 | after a round each count grew by the items that monkey inspected |
| Monkeys.Game.constructor | 11/main.ts:83-88 | a new game has the monkeys and their items, and every count 0 |
| Monkeys.Game.PerformTurn | 11/main.ts:92-114 | one monkey's `while` loop throws its items as `Turn` says and adds the number it held to its count |
| Monkeys.Game.PerformRound | 11/main.ts:90-117 | `performRound` plays every monkey's turn in order and adds each monkey's inspections to its count |
| Monkeys.Game.MonkeyBusiness | 11/main.ts:118-124 | `monkeyBusiness` is the product of the two largest counts |
| Monkeys.PlayRounds | 11/main.ts:408-410 | rounds keep the number of monkeys and of counts |
| Monkeys.PlayRoundsConserves | 11/main.ts:408-410 | no number of rounds creates or loses items |
| Monkeys.PartOne | 11/main.ts:396-412 | `one` is the monkey business after twenty rounds from zero counts |
| Monkeys.OperationTable.constructor | 11/main.ts:261 | the table starts empty |
| Monkeys.OperationTable.Register | 11/main.ts:263-273 | a new operation is appended and its id is its position |
| Monkeys.UnboundedNonNegative | 11/main.ts:246-259 | with non-negative values and constants worry levels never go negative |
| Monkeys.ReplayFailure | 11/main.ts:318-322 | replaying fails, with "Operation ID … not found", exactly when some replayed id is missing from the table |
| Monkeys.InspectFailsOnMissingId | 11/main.ts:288-353 | `inspect` fails exactly when a recorded id is missing from the table |
| Monkeys.ReplayCongruent | 11/main.ts:318-351 | replaying the operations modulo `m` gives the fully applied worry level modulo `m` |
| Monkeys.ReplayStepMod | 11/main.ts:323-346 | one replayed step on a remainder gives the remainder of the step on the full value |
| Monkeys.UnboundedStep | 11/main.ts:246-259 | each operation applies to the result of the ones before it |
| Monkeys.FirstStepCongruent | 11/main.ts:289-313 | the first step is the first operation's result modulo `m` |
| Monkeys.InspectIsCongruent | 11/main.ts:288-353 | `inspect(m)` is the worry level with every recorded operation applied, modulo `m` |
| Monkeys.InspectInRange | 11/main.ts:288-353 | a successful inspection lies in `[0, m)` |
| Monkeys.Item.constructor | 11/main.ts:279-283 | a new item has its value and no recorded operation |
| Monkeys.Item.PushOperation | 11/main.ts:284-287 | `pushOperation` records one more id after the earlier ones |
| Monkeys.Item.Inspect | 11/main.ts:288-353 | the loop of `inspect` computes `InspectItem`, failing on a missing id |
| Monkeys.ReplayMissing | 11/main.ts:320-322 | once replaying fails it stays failed |
| Monkeys.NewInspectionThrowsAway | 11/main.ts:375-381 | with valid monkeys every inspection throws to another existing monkey |
| Monkeys.KnownIdsTake | 11/main.ts:372-374 | taking the front item keeps every recorded id known |
| Monkeys.KnownIdsGive | 11/main.ts:381 | giving an item whose ids are known keeps every recorded id known |
| Monkeys.NewGame.constructor | 11/main.ts:361-366 | a new game has the monkeys, the table and the items, and every count 0 |
| Monkeys.NewGame.PerformTurn | 11/main.ts:370-383 | one monkey's loop records its operation on each item, throws it by the replayed remainder as `Turn` says, never fails, and adds the number it held to its count |
| Monkeys.NewGame.PerformRound | 11/main.ts:368-386 | part two's `performRound` plays every turn in order and adds each monkey's inspections to its count |
| Monkeys.NewGame.MonkeyBusiness | 11/main.ts:387-393 | `monkeyBusiness` is the product of the two largest counts |
| Monkeys.TableOf | 11/main.ts:231-238 | the table lists the monkeys' operations in input order |
| Monkeys.MonkeysOf | 11/main.ts:231-238 | monkey `i` refers to its operation by id `i` and keeps its divisor and targets |
| Monkeys.FreshItems | 11/main.ts:232 | every starting item has its value and no recorded operation |
| Monkeys.RegisterOperations | 11/main.ts:208-244 | registering the operations in input order gives the table and the monkeys |
| Monkeys.PlayNewRounds | 11/main.ts:426-428 | rounds keep the number of monkeys and of counts |
| Monkeys.PartTwo | 11/main.ts:414-430 | `two` is the monkey business after 10000 rounds of part two from zero counts |
| HillClimbing.CanTravelFacts | 12/main.ts:9-11 | a step may always go down or stay level, never climb two or more letters; two squares reachable from each other differ by at most one letter |
| HillClimbing.CellOf | 12/main.ts:38-41 | a square is a start exactly when it meets the start condition, the end exactly when it is `E`; a start has elevation `a`, the end `z`, any other square its own letter |
| HillClimbing.StartsAtLowest | 12/main.ts:13-19 | on a height map every elevation is a letter; part two's starts are the squares at elevation `a` other than the end, part one's only `S` |
| HillClimbing.ParseIdOfId | 12/main.ts:42-55 | reading back a node id gives the row and column it was made from |
| HillClimbing.NoComma | 12/main.ts:42 | a printed number has no comma, so the id splits at the one comma |
| HillClimbing.IdInjective | 12/main.ts:42 | different squares get different node ids |
| HillClimbing.GridOfIsGrid | 12/main.ts:36-48 | the nodes hold one entry per square with that square's data |
| HillClimbing.GridUnique | 12/main.ts:36-48 | the nodes are determined by the rows |
| HillClimbing.RowStartsAre | 12/main.ts:37-44 | a row's starts are exactly its squares meeting the start condition |
| HillClimbing.StartsAre | 12/main.ts:31-50 | `startNodes` holds exactly the squares meeting the start condition |
| HillClimbing.RowEndIs | 12/main.ts:45-47 | a row's end is an `E` square of it, and there is none exactly when it has no `E` |
| HillClimbing.EndIs | 12/main.ts:31-50 | `endNode` is an `E` square, and is null exactly when no row has an `E` |
| HillClimbing.LinkIsStep | 12/main.ts:54-70 | a node links to a square exactly when that square exists, is one step up, down, left or right, and climbs at most one letter |
| HillClimbing.NodeLinks | 12/main.ts:55-69 | the loop over the four neighbours adds the links `OutLinks` describes |
| HillClimbing.BuildLinks | 12/main.ts:54-70 | `forEachNode` adds the links of every node |
| HillClimbing.WalkClimbsSlowly | 12/main.ts:63-68 | along a path the elevation rises by at most one letter per step |
| HillClimbing.FoundPaths | 12/main.ts:73-75 | one search per start, in order |
| HillClimbing.ShortestIsMinimum | 12/main.ts:71-84 | the answer is -1 exactly when no path was found, and otherwise the least `length - 1` over the paths found |
| HillClimbing.Shortest | 12/main.ts:71-84 | the fold over the found paths: -1 until a path is found, then the least `length - 1`; `HillClimbing.ShortestIsMinimum` states that it is the minimum |
| HillClimbing.RunAnswerIsAWalk | 12/main.ts:21-85 | when the search returns walks, a non-negative answer is the number of steps of a walk from some start to the end |
| HillClimbing.RunAnswerIsShortest | 12/main.ts:21-85 | when the search is optimal, no walk from any start to the end is shorter than the answer |
| HillClimbing.AddSquare | 12/main.ts:38-47 | one square adds its node, and notes it as a start or else as the end |
| HillClimbing.GridStep | 12/main.ts:42 | one more square adds its node to those of the squares before it |
| HillClimbing.AddRow | 12/main.ts:36-49 | one line adds a node per letter and extends the start list and end as for the rows before it |
| HillClimbing.NonBlankStep | 12/main.ts:33-35 | a blank line is skipped and any other line adds a row |
| HillClimbing.BuildGrid | 12/main.ts:31-50 | the line loop builds the nodes, the start list and the end of the non-blank rows |
| HillClimbing.ShortestFound | 12/main.ts:71-83 | the loop over the starts computes the least found path length, or -1 |
| HillClimbing.Run | 12/main.ts:21-85 | `run` throws "no start or end node" without a start or an end, and otherwise returns the shortest found path length |
| HillClimbing.RunResult | 12/main.ts:21-85 | `run` as a value: "no start or end node" without a start or an end, otherwise the shortest over the found paths; `HillClimbing.Run`, `HillClimbing.RunAnswerIsAWalk` and `HillClimbing.RunAnswerIsShortest` state its properties |
| PacketOrder.Size | 13/main.ts:3-4 | every value has at least one constructor, the measure that makes `compare` terminate |
| PacketOrder.SizeSeq | 13/main.ts:3-4 | a list measures at least its length |
| PacketOrder.SizeSeqSingleton | 13/main.ts:105-110 | wrapping a value in a one-element list does not grow the measure of its items |
| PacketOrder.Compare | 13/main.ts:50-113 | `compare` as a value: integers by size, two lists by `CompareLists`, mixed operands with the integer wrapped in a list; `PacketOrder.CompareInts`, `PacketOrder.Promotion`, `PacketOrder.CompareFlip` and `PacketOrder.CompareTransitive` state its properties |
| PacketOrder.CompareLists | 13/main.ts:79-100 | the index loop of `compare` as a value; `PacketOrder.CompareListsSkipsUndecided`, `PacketOrder.FirstDecidingPairDecides` and `PacketOrder.RunningOut` state its properties |
| PacketOrder.CompareItems | 13/main.ts:79-100 | the index loop of `compare`, step by step, returns the list comparison `CompareLists` |
| PacketOrder.CompareInts | 13/main.ts:69-76 | two integers are in the right order exactly when the left is smaller, the wrong order when it is larger, undecided when equal |
| PacketOrder.Promotion | 13/main.ts:101-111 | an integer against a list compares as the one-element list holding it |
| PacketOrder.CompareListsSkipsUndecided | 13/main.ts:79-92 | pairs that give no decision are skipped: the comparison is that of the remaining items |
| PacketOrder.FirstDecidingPairDecides | 13/main.ts:86-91 | the first pair that decides decides for the lists |
| PacketOrder.RunningOut | 13/main.ts:79-100 | with every shared pair undecided, the right list running out first is the wrong order, the left running out first the right order, and equal lengths give no decision |
| PacketOrder.CompareReflexive | 13/main.ts:50-113 | every value compares as undecided with itself |
| PacketOrder.CompareListsReflexive | 13/main.ts:77-100 | every list compares as undecided with itself |
| PacketOrder.CompareFlip | 13/main.ts:50-113 | swapping the operands swaps right and wrong order and keeps no decision |
| PacketOrder.CompareListsFlip | 13/main.ts:77-100 | swapping two lists swaps right and wrong order |
| PacketOrder.CompareViaItems | 13/main.ts:50-113 | every comparison is the list comparison of the operands with integers promoted |
| PacketOrder.CompareTransitive | 13/main.ts:50-113 | `compare` is transitive: not after and not after gives not after, strictly when either step is strict |
| PacketOrder.ItemsSize | 13/main.ts:105-110 | promoting an integer does not grow the measure, and a list's items measure less than the list |
| PacketOrder.CompareListsTransitive | 13/main.ts:77-100 | the list comparison is transitive in the same way |
| PacketOrder.Pairs | 13/main.ts:119-133 | pair `i` is packets `2i` and `2i + 1`, and a last unpaired packet is dropped |
| PacketOrder.PartOne | 13/main.ts:115-149 | `one` is the sum of the 1-based indices of the pairs in the right order |
| PacketOrder.PairUp | 13/main.ts:119-133 | the reading loop with `prevPacket` pairs the packets as `Pairs` says |
| PacketOrder.SumRightOrder | 13/main.ts:135-148 | the summing loop adds the index of each pair in the right order |
| PacketOrder.PairsStep | 13/main.ts:126-129 | a packet at an odd position completes the pair begun by the one before it |
| PacketOrder.PairsSnoc | 13/main.ts:126-132 | two more packets add one pair at the end |
| PacketOrder.PairsDropsLast | 13/main.ts:130-132 | a trailing unpaired packet adds no pair |
| PacketOrder.RightOrderIndexSumBound | 13/main.ts:135-148 | the sum is at most the sum of all indices, and reaches it when every pair is in the right order |
| PacketOrder.SortPackets | 13/main.ts:168-179 | sorting with `compare` is stable: it leaves a permutation in which no packet comes after a later one, and every run of packets tying with a value keeps its order |
| PacketOrder.InsertPacket | 13/main.ts:168-179 | one insertion step extends the stably sorted prefix by the next packet and leaves the rest of the array alone |
| PacketOrder.SwapWithPrevious | 13/main.ts:168-179 | a swap exchanges two neighbouring packets and nothing else |
| PacketOrder.PartTwo | 13/main.ts:151-189 | `two` appends the dividers and sorts them with the packets, stably, into a permutation ordered by `compare` in which `[[2]]` comes before `[[6]]`; the product of the dividers' positions is (1 + the number of packets not after `[[2]]`) times (2 + the number of packets not after `[[6]]`) |
| PacketOrder.DividerPositions | 13/main.ts:164-187 | in any sorted permutation `[[2]]` comes before `[[6]]`, and they are the only divider objects, so the product is that of their two positions |
| PacketOrder.DividersOrdered | 13/main.ts:165 | `[[6]]` is in the wrong order before `[[2]]` |
| PacketOrder.DividerCounts | 13/main.ts:164-166 | the packets with the dividers hold each divider object once and no other divider object |
| PacketOrder.OnlyTwoDividers | 13/main.ts:182-187 | apart from the two dividers found, no position holds a divider object |
| PacketOrder.Tagged | 13/main.ts:155-162 | no input packet is a divider object, even one equal to a divider |
| PacketOrder.DividerProductOfTwo | 13/main.ts:182-188 | with exactly two divider positions the product is their 1-based positions multiplied |
| PacketOrder.DividerProductOfOne | 13/main.ts:182-188 | with one divider position the product is that position |
| PacketOrder.DividerProductOfNone | 13/main.ts:182-188 | with no divider the product is 1 |
| PacketOrder.Ties | 13/main.ts:168-179 | the packets tying with a value, no more than the packets |
| PacketOrder.TiesMembers | 13/main.ts:168-179 | a packet among the ties is one of the packets and ties with the value |
| PacketOrder.TiesAppend | 13/main.ts:168-179 | the ties of two sequences joined are their ties joined |
| PacketOrder.NoTiesAfter | 13/main.ts:168-179 | no packet strictly after a packet ties with what that packet ties with |
| PacketOrder.SecondOccurrence | 13/main.ts:168-179 | a packet after `d` that ties with it, when `d` is the last of its ties, means `d` occurs twice |
| PacketOrder.InsertSorted | 13/main.ts:168-179 | inserting a packet after every packet not after it and before every packet strictly after it keeps the packets sorted |
| PacketOrder.InsertStable | 13/main.ts:168-179 | that insertion keeps every run of ties in its order, the inserted packet last in its run |
| PacketOrder.InsertStep | 13/main.ts:168-179 | one insertion step keeps the prefix a stable sort of the packets read, with the new packet added |
| PacketOrder.InsertKeepsTies | 13/main.ts:168-179 | the insertion keeps every run of ties of the packets read, with the new packet added at its end |
| PacketOrder.NotAfter | 13/main.ts:168-179 | the number of packets that do not come after a value is at most the number of packets |
| PacketOrder.PrecedingAppend | 13/main.ts:181-187 | the count of input packets not after a value adds up over two sequences joined |
| PacketOrder.PrecedingAll | 13/main.ts:181-187 | a sequence of counted packets counts its length |
| PacketOrder.PrecedingNone | 13/main.ts:181-187 | a sequence without a counted packet counts 0 |
| PacketOrder.PrecedingBelow | 13/main.ts:181-187 | when exactly the packets before position `c` are counted, the count is `c` |
| PacketOrder.PrecedingBelowSkip | 13/main.ts:181-187 | when exactly the packets before `c` other than the one at `i` are counted, the count is `c - 1` |
| PacketOrder.MultisetRemove | 13/main.ts:168-179 | taking one packet out of a sequence takes it out of its multiset |
| PacketOrder.PrecedingRemove | 13/main.ts:181-187 | taking one packet out of a sequence takes its share out of the count |
| PacketOrder.PrecedingPermutation | 13/main.ts:168-179 | reordering the packets does not change the count |
| PacketOrder.PrecedingTagged | 13/main.ts:155-162 | among the input packets the count is the number of packets not after the value |
| PacketOrder.NoTieAfterLast | 13/main.ts:168-179 | when a packet occurs once and is the last of its ties, no later packet ties with it |
| PacketOrder.DividerTies | 13/main.ts:164-166 | the ties of each divider are the input packets tying with it, followed by the divider |
| PacketOrder.CountedBeforeTwo | 13/main.ts:164-187 | after a stable sort, the input packets not after `[[2]]` are exactly those before it |
| PacketOrder.CountedBeforeSix | 13/main.ts:164-187 | after a stable sort, the input packets not after `[[6]]` are exactly those before it other than `[[2]]` |
| PacketOrder.DividerTwoPosition | 13/main.ts:164-187 | after a stable sort, `[[2]]` has exactly the packets not after it before it |
| PacketOrder.DividerSixPosition | 13/main.ts:164-187 | after a stable sort, `[[6]]` has `[[2]]` and exactly the packets not after it before it |
| PacketOrder.DividersAreNotCounted | 13/main.ts:164-166 | the dividers add nothing to the count of input packets |
| PacketOrder.DividerProductClosedForm | 13/main.ts:164-188 | whatever stable sorted permutation the sort yields, the product is (1 + the packets not after `[[2]]`) times (2 + the packets not after `[[6]]`) |
| PacketOrder.FindDividers | 13/main.ts:181-188 | in a sorted permutation `[[2]]` and `[[6]]` sit at two positions, in that order, whose 1-based product `two` returns |
| FallingSand.AsWrittenGuardAdmitsEndlessWalk | 14/main.ts:127-146 | the guard as written lets the segment (0,0) to (-1,2) through, and the drawing walk from (0,0) never reaches (-1,2) |
| FallingSand.SegmentHighest | 14/main.ts:136-146 | the greatest y the drawing of one segment raises `highestRockY` to is at least the start value, bounds every point drawn, and is the start value or an end point's y |
| FallingSand.PathHighest | 14/main.ts:120-147 | `highestRockY` over a line's segments never falls below its start value |
| FallingSand.PathsHighest | 14/main.ts:114-148 | `highestRockY` over all lines never falls below its start value |
| FallingSand.PathHighestBounds | 14/main.ts:143 | `highestRockY` is at least the y of every rock point drawn for the line |
| FallingSand.PathHighestAttained | 14/main.ts:143 | `highestRockY` is the y of some rock point of the line, unless it kept its start value |
| FallingSand.PathHighestIsMax | 14/main.ts:143 | `highestRockY` is the greatest y of the line's rock, or its start value when there is none |
| FallingSand.PathsHighestIsMax | 14/main.ts:110-148 | over all lines, `highestRockY` is the greatest y of any rock point, or 0 when there is none |
| FallingSand.NextMove | 14/main.ts:77-90 | a unit moves one row down, to the first free cell among down, down-left and down-right, and stays exactly when all three are blocked by sand or rock |
| FallingSand.Settle | 14/main.ts:72-91 | where a unit dropped at a point comes to rest: it keeps taking its next move until none is free or it passes `highestRockY`; `FallingSand.SettleBounds` and `FallingSand.SettleFromSource` state its properties |
| FallingSand.SettleBounds | 14/main.ts:74-91 | a falling unit ends no lower than `highestRockY + 1`, within a cone below its start, in a free cell, and either blocked or at `highestRockY + 1` |
| FallingSand.SettleFromSource | 14/main.ts:72-91 | a unit dropped from the source ends on the source or in a free cell of the cone below it |
| FallingSand.FillOne | 14/main.ts:96 | putting sand in a free cell of the cone leaves one cell fewer to fill, so the dropping ends |
| FallingSand.DropStep | 14/main.ts:92-101 | a unit at rest away from the source continues the dropping on the map with that sand added; one at rest on the source ends it with one more unit |
| FallingSand.DropAll | 14/main.ts:58-103 | `dropSand` as a value: units are dropped until one falls into the void or, with the floor, one comes to rest on the source; `FallingSand.DropAllChanges`, `FallingSand.DropAllCountsSand` and `FallingSand.DropAllEnds` state its properties |
| FallingSand.DropAllChanges | 14/main.ts:58-103 | dropping only adds sand, never above the floor row, and leaves the rock as it was |
| FallingSand.SandKeepsRock | 14/main.ts:96 | adding sand in a free cell or on the source leaves every rock cell as it was |
| FallingSand.SameRockTransitive | 14/main.ts:96 | leaving the rock as it was is preserved over successive units |
| FallingSand.DropAllCountsSand | 14/main.ts:96-100 | the returned count is exactly the number of sand cells added |
| FallingSand.DropAllEnds | 14/main.ts:92-101 | with the floor, the dropping ends with sand on the source; otherwise it ends with sand on the source or with a unit that falls past `highestRockY` into the void, which is not stored |
| FallingSand.WalkEnds | 14/main.ts:129-139 | with every non-straight segment refused, the drawing walk reaches the end point after exactly as many steps as the segment is long, and not before |
| FallingSand.WalkGrows | 14/main.ts:140-141 | each step of the walk adds the point it leaves and the point it reaches to the drawn part of the segment |
| FallingSand.PathDrawnNext | 14/main.ts:120-147 | drawing one more segment extends the rock of a line by that segment |
| FallingSand.PathsDrawnNext | 14/main.ts:114-148 | drawing one more line extends the rock of the cave by that line |
| FallingSand.DrawStep | 14/main.ts:136-146 | one step of the drawing loop extends the drawn segment and raises `highestRockY` to the y of the step's ends |
| FallingSand.Cave.constructor | 14/main.ts:109-113 | the cave starts with only the source at (500, 0) |
| FallingSand.Cave.DrawSegment | 14/main.ts:127-146 | drawing a straight segment turns exactly its points, both ends included, to rock, leaves other cells alone, and returns `highestRockY` raised to the segment's y |
| FallingSand.Cave.DrawPath | 14/main.ts:120-147 | a line is drawn exactly when all its segments are straight; then the cave gains rock on all its segments |
| FallingSand.Cave.DrawRocks | 14/main.ts:114-148 | all lines are drawn exactly when every segment is straight; then the cave gains rock on every segment and `highestRockY` is their greatest y |
| FallingSand.Cave.Step | 14/main.ts:76-90 | one step of a falling unit moves it to its next free cell exactly when there is one, and otherwise leaves it in place |
| FallingSand.Cave.DropUnit | 14/main.ts:72-91 | the do-while loop leaves the unit where it settles |
| FallingSand.DropSand | 14/main.ts:53-104 | `dropSand` fails exactly when the source is missing, and otherwise returns the number of units that came to rest, with the cave after them |
| FallingSand.OnPathNext | 14/main.ts:120 | the rock of one more segment of a line is the rock before it plus that segment |
| FallingSand.OnPathsNext | 14/main.ts:114 | the rock of one more line is the rock before it plus that line |
| FallingSand.Run | 14/main.ts:106-162 | `run`, with the corrected guard, fails exactly when some segment is not horizontal or vertical, and otherwise returns the number of units at rest in the cave of all the rock lines with the source, dropped above the greatest rock y |
| FallingSand.Row | 14/main.ts:23-38 | a row of the drawing has one character per column, each the character of its cell |
| FallingSand.Rows | 14/main.ts:14-41 | `drawGraph` has one row per y from the upper-left to the lower-right corner, each the row of the cells at that y |
| FallingSand.CellChar | 14/main.ts:25-37 | the character `drawGraph` draws for a cell: `#` for rock, `+` for the source, `o` for sand and `.` for air |
| FallingSand.DrawGraph | 14/main.ts:14-41 | the nested loops of `drawGraph` build exactly the rows `Rows` describes, joined with newlines, and "" when there are none |
| BeaconExclusion.ManhattanDistance | 15/main.ts:13-16 | the Manhattan distance is zero exactly between equal points |
| BeaconExclusion.DistanceSymmetric | 15/main.ts:14-16 | the distance does not depend on the order of the two points |
| BeaconExclusion.TriangleInequality | 15/main.ts:14-16 | the distance obeys the triangle inequality |
| BeaconExclusion.BoundingBox | 15/main.ts:18-27 | the four corners (left, top, right, bottom) lie at the given distance from the centre, on its row and column, in order exactly when the distance is not negative |
| BeaconExclusion.GetX | 15/main.ts:111-125 | an x lies in the returned range exactly when the point on row `yPrime` is within the beacon distance of the sensor; the range is empty exactly when the row is out of reach |
| BeaconExclusion.WalkReachesEnd | 15/main.ts:38-48 | on a horizontal, vertical or 45-degree segment the walk meets the end point after exactly as many steps as the segment is long, and not before |
| BeaconExclusion.VisibleOnLine | 15/main.ts:43-51 | every point the walk yields is inside the bounds, and it yields at most one point per step |
| BeaconExclusion.VisibleOnLineSound | 15/main.ts:43-48 | every yielded point is a point of the walk |
| BeaconExclusion.VisibleOnLineComplete | 15/main.ts:44-45 | every in-bounds point of the walk is yielded |
| BeaconExclusion.IterateOnLine | 15/main.ts:29-52 | `iterateOnLine` yields the in-bounds points from `p1` to `p2`, both included, in walk order |
| BeaconExclusion.EndVisible | 15/main.ts:49-51 | the end point is yielded exactly when it is in bounds |
| BeaconExclusion.IterateOverPerimeter | 15/main.ts:54-70 | `iterateOverPerimeter` yields the four sides one after another, from the first corner clockwise |
| BeaconExclusion.SideAtDistance | 15/main.ts:224-233 | every point on a side of the diamond of radius `d` is at distance `d` from its centre |
| BeaconExclusion.SideLength | 15/main.ts:224-233 | each side of the diamond of radius `d` is `d` steps long |
| BeaconExclusion.SideSound | 15/main.ts:225-234 | a point yielded on a side is in bounds and at distance `d` from the centre |
| BeaconExclusion.SideComplete | 15/main.ts:225-234 | every in-bounds point along a side is yielded on that side |
| BeaconExclusion.PerimeterSound | 15/main.ts:224-234 | every point of the perimeter walk is in bounds and at distance `d` from the centre |
| BeaconExclusion.PerimeterWalk | 15/main.ts:224-234 | the perimeter is the walk of `iterateOverPerimeter` over the corners of `boundingBox` |
| BeaconExclusion.PerimeterInBounds | 15/main.ts:225-234 | the perimeter walk stays within the bounds whatever the radius |
| BeaconExclusion.PerimeterComplete | 15/main.ts:224-234 | every in-bounds point at distance `d` from the centre is on the perimeter walk |
| BeaconExclusion.PerimeterIsDistance | 15/main.ts:224-234 | the perimeter walk yields exactly the in-bounds points at distance `d` from the centre |
| BeaconExclusion.MergeFromShape | 15/main.ts:83-108 | the merge pass emits between one and as many ranges as it reads, sorted, each ending strictly before the next starts, the first starting where the running range does |
| BeaconExclusion.MergeFrom | 15/main.ts:83-108 | the merge pass of `reduceConstraints`: a range starting no later than the running range ends is merged into it, otherwise the running range is emitted; `BeaconExclusion.MergeFromShape` and `BeaconExclusion.MergeFromCovers` state its properties |
| BeaconExclusion.Merge | 15/main.ts:83-108 | the merge of sorted ranges, starting with the first as the running range; `BeaconExclusion.MergeCorrect` and `BeaconExclusion.MergeIdempotent` state its properties |
| BeaconExclusion.CoversCons | 15/main.ts:83-108 | a list of ranges with one in front covers what that range covers and what the rest covers |
| BeaconExclusion.MergeFromCovers | 15/main.ts:83-103 | the merge pass covers exactly the integers the running range and the remaining ranges cover |
| BeaconExclusion.MergeCorrect | 15/main.ts:72-109 | merging sorted ranges gives a sorted, strictly separated list, no longer than the input, empty exactly when the input is, covering exactly the same integers |
| BeaconExclusion.MergeFromSeparatedIsIdentity | 15/main.ts:83-103 | the merge pass leaves well-formed, already separated ranges unchanged |
| BeaconExclusion.MergeIdempotent | 15/main.ts:72-109 | reducing the reduced constraints again changes nothing |
| BeaconExclusion.MergeFromWellFormed | 15/main.ts:88-103 | merging ranges with lo <= hi gives ranges with lo <= hi |
| BeaconExclusion.ReduceExample | 15/main.ts:72-76 | the documented example reduces [1,2] [3,5] [4,6] [5,7] [5,7] to [1,2] [3,7] |
| BeaconExclusion.SortByLo | 15/main.ts:80 | the sort leaves the constraints ordered by lower bound and a permutation of what they were |
| BeaconExclusion.InsertLast | 15/main.ts:80 | one insertion step extends the sorted prefix by one element and keeps a permutation |
| BeaconExclusion.SwapWithPrevious | 15/main.ts:80 | swapping two neighbours changes only those two and keeps a permutation |
| BeaconExclusion.ReduceConstraints | 15/main.ts:77-109 | `reduceConstraints` sorts the constraints in place into a permutation ordered by lower bound and returns the merge of that order, `Merge(sorted)`; so it returns sorted, strictly separated ranges, no more than it was given, empty exactly when the input is, covering exactly the integers the input covered; the array ends with every element holding the lower bound of the sorted order at its place and an upper bound no smaller, and every returned range is an element of it |
| BeaconExclusion.CoversPermutation | 15/main.ts:80 | reordering the ranges does not change what they cover |
| BeaconExclusion.AddNode | 15/main.ts:130-140 | `addNode` adds the point, never turns a sensor or beacon into "#", otherwise sets the marker, and leaves every other point alone |
| BeaconExclusion.NotBeaconPreservesMarkers | 15/main.ts:132-138 | marking a point "#" keeps every sensor and beacon |
| BeaconExclusion.RangeSetSnoc | 15/main.ts:186 | one more x extends the walked part of a range by that x |
| BeaconExclusion.RowCoverage | 15/main.ts:171-179 | an x is covered on the row exactly when some sensor reaches its point within its beacon distance |
| BeaconExclusion.RangesSet | 15/main.ts:185-192 | the integers of a list of ranges are exactly those some range covers |
| BeaconExclusion.PartOne | 15/main.ts:142-194 | `one` counts exactly the positions on the examined row within reach of some sensor that hold neither a sensor nor a beacon |
| BeaconExclusion.SameCoverage | 15/main.ts:180 | ranges covering what the row constraints cover hold exactly the row coverage |
| BeaconExclusion.BuildGraph | 15/main.ts:148-167 | the reading loop records every sensor with its beacon and distance, in order, and marks exactly the sensors and beacons in the graph |
| BeaconExclusion.AddPair | 15/main.ts:158-166 | one line adds its reading and marks its sensor and beacon |
| BeaconExclusion.ReadingsStep | 15/main.ts:160-164 | one line more adds its reading at the end |
| BeaconExclusion.RowConstraints | 15/main.ts:171-179 | the non-empty sensor ranges on the row cover exactly the row coverage |
| BeaconExclusion.Readings | 15/main.ts:158-164 | every parsed pair becomes a reading with its Manhattan distance, in order |
| BeaconExclusion.KnownPointsSnoc | 15/main.ts:165-166 | one reading more adds its sensor and beacon to the marked points |
| BeaconExclusion.CoversSnoc | 15/main.ts:178 | one range more adds what it covers |
| BeaconExclusion.FreeSnoc | 15/main.ts:186-190 | one more x adds one to the count exactly when its point holds neither a sensor nor a beacon |
| BeaconExclusion.CountFree | 15/main.ts:183-192 | the counting loop counts exactly the covered positions on the row that hold neither a sensor nor a beacon |
| BeaconExclusion.CountFreeInRange | 15/main.ts:186-191 | the inner loop adds exactly the free positions of one range |
| BeaconExclusion.SeparatedBefore | 15/main.ts:183-192 | in sorted, separated ranges every range ends before any later one starts, so no position is counted twice |
| BeaconExclusion.PartTwo | 15/main.ts:196-251 | `two` reports `4000000 * x + y` for an in-bounds point out of reach of every sensor, and "todo" only when every in-bounds point just outside each sensor's reach is within reach of some sensor |
| BeaconExclusion.ScanPerimeter | 15/main.ts:222-248 | the scan of one sensor finds an in-bounds point out of reach of every sensor, or shows that every in-bounds point just outside its reach is reached |
| BeaconExclusion.WalkPerimeter | 15/main.ts:224-234 | the perimeter walk of radius `d` yields in-bounds points only, and every in-bounds point at distance `d` |
| BeaconExclusion.PerimeterBounds | 15/main.ts:224-234 | the perimeter walk is in bounds and meets every in-bounds point at distance `d` |
| BeaconExclusion.FirstOutOfRange | 15/main.ts:225-248 | the scan of the perimeter returns its first point out of reach of every sensor, or none when every point is reached |
| BeaconExclusion.InRangeOfSome | 15/main.ts:236-242 | the inner loop sets `inRange` exactly when some sensor reaches the point |

## Left out

- File reading with `n-readlines` and the command-line dispatch at the end of every file: the model takes the input as a sequence of lines or as parsed values.
- Every `console.log` and `console.error`. This covers the traces in `reduceConstraints` (day 15), in `compare` and `ValueToString` (day 13), in the monkey printers (day 11) and in the CRT dump (day 10).
- JavaScript numbers are doubles. The model uses unbounded integers, so overflow and loss of precision in large worry levels (day 11) and in `4000000 * x + y` (day 15) are not modelled.
- NaN and `undefined` are `None`, and thrown errors are `Failure`. This covers `parseInt` of text without digits (days 4, 5 and 9) and an unknown letter (days 2 and 3). Day 4's TypeError on a line without a comma is a `Failure`.
- Calories.MostCalories / Calories.TopThreeCalories: these take the trimmed lines already read as entries, blank or a number. A line `parseInt` cannot read is not modelled: in the source it makes the group total NaN, which `one` then never takes as the highest and `two` sorts with a comparator that returns NaN.
- The regular expressions `MonkeyRegex`, `NewMonkeyRegex` (day 11) and `lineRegex` (day 15), and `JSON.parse` (day 13), are not modelled. The parts take the parsed monkeys, packets and sensor/beacon pairs.
- The `ngraph.graph` library becomes a map from coordinates to cell data (days 12, 14 and 15).
- The `ngraph.path` `aStar` search (day 12) is not modelled. It is the function parameter `find` of `HillClimbing`; only the way its result is folded over the start cells is proved.
- The `async` wrapper on day 11's part two is not modelled.
- DirectoryTree: directory objects that point at each other become an arena of records indexed by position. Object identity becomes the index.
- PacketOrder.PartTwo: the identity of the divider packets (`includes` on the very objects pushed) is modelled as a flag carried by each packet.
- Cpu.ParseLine: an `addx` operand that `parseInt` cannot read, such as `0x` alone, gives `Failure`, where the source would add NaN to `x`.
- DirectoryTree.LeadingNumber: a first word that `parseInt` cannot read, `0x` or `0X` with no hexadecimal digit after it (as in "0x a"), gives a file of size 0, where the source records a size of NaN that every directory above it then carries.
- BeaconExclusion.ReduceConstraints: the order of constraints with equal lower bounds after the sort is not stated. `Array.prototype.sort` keeps their input order; the model's insertion sort is not proved to. Only which of them the widened upper bound is written to depends on it, and the caller never reads the array again.
- Cpu.PartOne / Cpu.PartTwo: these take a program of `addx` and `noop` instructions only. `Cpu.ParseProgram` refuses an unknown name with `Failure`, as the `Instruction` constructor throws. The registers map is reduced to the one register `x`.
- Marker.Run: this requires a buffer size above zero. The source only uses 4 and 14; a size of 0 would take a remainder by zero.
- Rope.Run: this requires at least one knot. The source only uses 2 and 10.
- TreeGrid.One / TreeGrid.Two: these use the corrected bounds of `Coord.Right` and `Coord.Down`. Reading accepts any rectangle, and on one that is not square the source does not answer: on the lines "111", "111", `down` from the place (1,0) moves to row 2 and `grid[2][0]` throws a TypeError; with rows longer than the number of rows, `right` past the last row index keeps reading `undefined`, which is neither `false` nor at least the height, so the direction loop never ends. The model answers with the corrected count and score there (see Findings).
- TreeGrid.ParseGrid: a character that is not a digit gives `Failure`, where the source's `parseInt` would give NaN.
- Monkeys.ParseOperation: an operand that is neither `old` nor a number gives `Failure`, where the source would compute with NaN. Constants are not negative, as the input format only writes digits.
- Monkeys.Game.constructor: this requires every throw target to be another existing monkey. In the source a missing target throws, and a monkey that throws to itself loops forever. `Monkeys.ValidNewMonkeys` requires the same, and also requires a test divisor above zero, since a divisor of 0 gives NaN.
- Monkeys.Item.PushOperation: the operation history is an unbounded sequence of ids. The source's `Uint8Array(100000)` keeps ids only modulo 256 and ignores pushes beyond 100000 entries.
- BeaconExclusion.PartTwo: this states that the reported point is inside the bounds and out of every sensor's reach. It does not state that it is the first such point in scanning order; `BeaconExclusion.FirstOutOfRange` states that for one perimeter. The scan's running time is not modelled.
- BeaconExclusion.PartOne / BeaconExclusion.PartTwo: the examined row (2000000) and the bound (4000000) are parameters.
- FallingSand.Run: this uses the corrected guard, which refuses every segment that is neither horizontal nor vertical. The source's guard `dx > 0 && dy > 0` refuses only down-right diagonals: it lets through, and draws, the 45-degree segments going up-left, up-right or down-left, such as "2,2 -> 0,0", which the model refuses with "diagonal line"; it also lets through the other slanted segments, whose drawing never ends (see Findings). Run takes the rock paths already read: the `split(" -> ")`, `split(",")` and `parseInt` of each line are not modelled.
- `reduceConstraints` merges a range into the running one only when the two overlap (`c[0] <= last[1]`). Adjacent ranges such as [1,2] and [3,5] stay apart, so the result is strictly separated but not maximally merged.

## Findings

| source | as written | input that shows it | evidently intended | confidence | as-written member | corrected member |
|---|---|---|---|---|---|---|
| 14/main.ts:129-131 | the guard `dx > 0 && dy > 0` refuses only down-right diagonals | the segment "0,0 -> -1,2" passes the guard, and the drawing loop never reaches its end | refuse every segment that is neither horizontal nor vertical | not executed | FallingSand.AsWrittenGuardAdmitsEndlessWalk | FallingSand.WalkEnds |
| 8/main.ts:113-119, 127-133 | `right` compares the column with the number of rows, and `down` compares the row with the length of the first row | the grid `[[3,5]]`: `right` from (0,0) stops although a tree lies to the right; `[[3],[5]]`: `down` stops, and `right` reads past the row | compare the column with the row length and the row with the number of rows | not executed | TreeGrid.AsWrittenStopsEarly | TreeGrid.Coord.Right |
