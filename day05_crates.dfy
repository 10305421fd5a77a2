/**
 * Day 5: stacks of crates. A drawing of the stacks (one line per level, top
 * level first) is read into stacks, which are reversed once the line of stack
 * numbers is reached; each later line moves crates between two stacks, one
 * at a time (part one) or as a block (part two). The answer is the label on
 * top of each stack, in order.
 */
module Crates {
  import opened Wrappers
  import Text

  /**
   * What a stack holds: a crate label, or `undefined` (`None`), which is what
   * popping an empty stack gives and what a move then pushes.
   */
  type Crate = Option<string>

  /** `reverse()`: the elements in the opposite order. */
  function Reversed<T>(s: seq<T>): (r: seq<T>)
    ensures |r| == |s| && forall i :: 0 <= i < |s| ==> r[i] == s[|s| - 1 - i]
  {
    if s == [] then [] else Reversed(s[1..]) + [s[0]]
  }

  lemma ReversedTwice<T>(s: seq<T>)
    ensures Reversed(Reversed(s)) == s
  {
  }

  lemma ReversedMultiset<T>(s: seq<T>)
    ensures multiset(Reversed(s)) == multiset(s)
  {
    if s != [] {
      ReversedMultiset(s[1..]);
      assert s == [s[0]] + s[1..];
    }
  }

  /** `pop()`: the stack without its top, and the top; an empty stack stays empty and gives `undefined`. */
  function Popped(s: seq<Crate>): (r: (seq<Crate>, Crate))
    ensures |r.0| == if s == [] then 0 else |s| - 1
    ensures s == [] ==> r.1 == None
    ensures s != [] ==> r.0 + [r.1] == s
  {
    if s == [] then ([], None) else (s[..|s| - 1], s[|s| - 1])
  }

  /** `peek()`: the top of the stack, or `undefined` when it is empty. */
  function TopOf(s: seq<Crate>): Crate {
    if s == [] then None else s[|s| - 1]
  }

  /** Stacks are last in, first out: popping after a push gives the pushed item back and the stack as it was. */
  lemma PopAfterPush(s: seq<Crate>, item: Crate)
    ensures Popped(s + [item]) == (s, item)
    ensures TopOf(s + [item]) == item
  {
    assert (s + [item])[..|s|] == s;
  }

  /** Popping a non-empty stack and pushing the item back restores it. */
  lemma PushAfterPop(s: seq<Crate>)
    requires s != []
    ensures Popped(s).0 + [Popped(s).1] == s
    ensures Popped(s).1 == TopOf(s)
  {
  }

  // ---------------------------------------------------------------------
  // Moves.

  /** One crate from `from` to `to` (which may be the same stack). */
  function MoveOne(stacks: seq<seq<Crate>>, from: nat, to: nat): (r: seq<seq<Crate>>)
    requires from < |stacks| && to < |stacks|
    ensures |r| == |stacks|
    ensures forall i :: 0 <= i < |r| && i != from && i != to ==> r[i] == stacks[i]
    ensures from != to ==> r[from] == Popped(stacks[from]).0 && r[to] == stacks[to] + [Popped(stacks[from]).1]
  {
    var popped := Popped(stacks[from]);
    var mid := stacks[from := popped.0];
    mid[to := mid[to] + [popped.1]]
  }

  /** Part one's move: `count` crates, one at a time. */
  function MoveCrates(stacks: seq<seq<Crate>>, count: nat, from: nat, to: nat): (r: seq<seq<Crate>>)
    requires from < |stacks| && to < |stacks|
    ensures |r| == |stacks|
    ensures forall i :: 0 <= i < |r| && i != from && i != to ==> r[i] == stacks[i]
    decreases count
  {
    if count == 0 then stacks else MoveOne(MoveCrates(stacks, count - 1, from, to), from, to)
  }

  /** The stack after `count` pops, and the items popped, in the order they came off. */
  function PopMany(s: seq<Crate>, count: nat): (r: (seq<Crate>, seq<Crate>))
    ensures |r.1| == count
    decreases count
  {
    if count == 0 then (s, [])
    else
      var before := PopMany(s, count - 1);
      var popped := Popped(before.0);
      (popped.0, before.1 + [popped.1])
  }

  /** Part two's move: `count` crates popped into a list, which is reversed and pushed in order. */
  function MoveBlock(stacks: seq<seq<Crate>>, count: nat, from: nat, to: nat): (r: seq<seq<Crate>>)
    requires from < |stacks| && to < |stacks|
    ensures |r| == |stacks|
    ensures forall i :: 0 <= i < |r| && i != from && i != to ==> r[i] == stacks[i]
  {
    var popped := PopMany(stacks[from], count);
    var mid := stacks[from := popped.0];
    mid[to := mid[to] + Reversed(popped.1)]
  }

  /** Moving one at a time puts the top `count` crates of `from` on `to` in reversed order, and changes nothing else. */
  lemma {:induction false} MoveCratesLands(stacks: seq<seq<Crate>>, count: nat, from: nat, to: nat)
    requires from < |stacks| && to < |stacks| && from != to && count <= |stacks[from]|
    ensures var r := MoveCrates(stacks, count, from, to);
      var n := |stacks[from]|;
      && r[from] == stacks[from][..n - count]
      && r[to] == stacks[to] + Reversed(stacks[from][n - count..])
      && forall i :: 0 <= i < |stacks| && i != from && i != to ==> r[i] == stacks[i]
    decreases count
  {
    var n := |stacks[from]|;
    if count > 0 {
      MoveCratesLands(stacks, count - 1, from, to);
      var moved := stacks[from][n - count..];
      assert moved[1..] == stacks[from][n - count + 1..];
      assert stacks[from][..n - count + 1][..n - count] == stacks[from][..n - count];
    } else {
      assert stacks[from][n..] == [];
      assert stacks[from][..n] == stacks[from];
    }
  }

  /** Popping `count` items from a stack that has them takes its top `count`, topmost first. */
  lemma {:induction false} PopManyEnough(s: seq<Crate>, count: nat)
    requires count <= |s|
    ensures PopMany(s, count) == (s[..|s| - count], Reversed(s[|s| - count..]))
    decreases count
  {
    var n := |s|;
    if count > 0 {
      PopManyEnough(s, count - 1);
      assert s[..n - count + 1][..n - count] == s[..n - count];
      var moved := s[n - count..];
      assert moved[1..] == s[n - count + 1..];
    } else {
      assert s[..n] == s;
    }
  }

  /** Moving a block puts the top `count` crates of `from` on `to` in their original order, and changes nothing else. */
  lemma MoveBlockLands(stacks: seq<seq<Crate>>, count: nat, from: nat, to: nat)
    requires from < |stacks| && to < |stacks| && from != to && count <= |stacks[from]|
    ensures var r := MoveBlock(stacks, count, from, to);
      var n := |stacks[from]|;
      && r[from] == stacks[from][..n - count]
      && r[to] == stacks[to] + stacks[from][n - count..]
      && forall i :: 0 <= i < |stacks| && i != from && i != to ==> r[i] == stacks[i]
  {
    var n := |stacks[from]|;
    var moved := stacks[from][n - count..];
    PopManyEnough(stacks[from], count);
    ReversedTwice(moved);
    var popped := PopMany(stacks[from], count);
    assert popped.0 == stacks[from][..n - count];
    assert Reversed(popped.1) == moved;
  }

  /** Moving crates from a stack to itself changes nothing, while the stack has enough crates. */
  lemma {:induction false} MoveCratesSameStack(stacks: seq<seq<Crate>>, count: nat, from: nat)
    requires from < |stacks| && count <= |stacks[from]|
    ensures MoveCrates(stacks, count, from, from) == stacks
    decreases count
  {
    if count > 0 {
      MoveCratesSameStack(stacks, count - 1, from);
      PushAfterPop(stacks[from]);
    }
  }

  lemma MoveBlockSameStack(stacks: seq<seq<Crate>>, count: nat, from: nat)
    requires from < |stacks| && count <= |stacks[from]|
    ensures MoveBlock(stacks, count, from, from) == stacks
  {
    var s := stacks[from];
    PopManyEnough(s, count);
    ReversedTwice(s[|s| - count..]);
    assert s[..|s| - count] + s[|s| - count..] == s;
  }

  /** A stack is its bottom `k` crates below the rest. */
  lemma SplitMultiset(s: seq<Crate>, k: nat)
    requires k <= |s|
    ensures multiset(s) == multiset(s[..k]) + multiset(s[k..])
  {
    assert s == s[..k] + s[k..];
  }

  /** Moving one at a time keeps every crate: the two stacks together hold the same crates before and after. */
  lemma MoveCratesConserve(stacks: seq<seq<Crate>>, count: nat, from: nat, to: nat)
    requires from < |stacks| && to < |stacks| && from != to && count <= |stacks[from]|
    ensures var r := MoveCrates(stacks, count, from, to);
      multiset(r[from]) + multiset(r[to]) == multiset(stacks[from]) + multiset(stacks[to])
  {
    var s := stacks[from];
    var k := |s| - count;
    MoveCratesLands(stacks, count, from, to);
    ReversedMultiset(s[k..]);
    SplitMultiset(s, k);
  }

  /** Moving a block keeps every crate too. */
  lemma MoveBlockConserve(stacks: seq<seq<Crate>>, count: nat, from: nat, to: nat)
    requires from < |stacks| && to < |stacks| && from != to && count <= |stacks[from]|
    ensures var r := MoveBlock(stacks, count, from, to);
      multiset(r[from]) + multiset(r[to]) == multiset(stacks[from]) + multiset(stacks[to])
  {
    MoveBlockLands(stacks, count, from, to);
    SplitMultiset(stacks[from], |stacks[from]| - count);
  }

  // ---------------------------------------------------------------------
  // Reading the drawing.

  /** `replace(/    /g, " ")`: every run of four spaces, matched from the left without overlap, becomes one space. */
  function CollapseGaps(s: string): (r: string)
    decreases |s|
  {
    if |s| >= 4 && s[..4] == "    " then " " + CollapseGaps(s[4..])
    else if s == [] then []
    else [s[0]] + CollapseGaps(s[1..])
  }

  /** `replace(c, "")` with a string pattern: only the first `c` goes. */
  function RemoveFirst(s: string, c: char): (r: string)
    ensures c !in s ==> r == s
    ensures c in s ==> r == s[..Text.FirstIndex(s, c)] + s[Text.FirstIndex(s, c) + 1..]
    decreases |s|
  {
    if s == [] then []
    else if s[0] == c then s[1..]
    else [s[0]] + RemoveFirst(s[1..], c)
  }

  /** The label of one piece of a drawing line: its first `[` and first `]` removed. */
  function Label(part: string): string {
    RemoveFirst(RemoveFirst(part, '['), ']')
  }

  /** The stacks extended with empty stacks up to `n`. */
  function Grow(stacks: seq<seq<Crate>>, n: nat): (r: seq<seq<Crate>>)
    ensures |r| == if n <= |stacks| then |stacks| else n
    ensures forall i :: 0 <= i < |r| ==> r[i] == if i < |stacks| then stacks[i] else []
  {
    if n <= |stacks| then stacks else stacks + seq(n - |stacks|, _ => [])
  }

  /** One piece pushed: a non-empty label goes on stack `i`, after growing the stacks to reach it. */
  function PushLabel(stacks: seq<seq<Crate>>, i: nat, name: string): (r: seq<seq<Crate>>)
    ensures |r| >= |stacks|
    ensures name == "" ==> r == stacks
    ensures name != "" ==> i < |r| && r[i] == (if i < |stacks| then stacks[i] else []) + [Some(name)]
    ensures forall j :: 0 <= j < |r| && j != i ==> r[j] == if j < |stacks| then stacks[j] else []
  {
    if name == "" then stacks
    else
      var grown := Grow(stacks, i + 1);
      grown[i := grown[i] + [Some(name)]]
  }

  /** The first `k` pieces of a drawing line pushed: piece `i`, unless its label is empty, goes on stack `i`. */
  function PushLabels(stacks: seq<seq<Crate>>, parts: seq<string>, k: nat): (r: seq<seq<Crate>>)
    requires k <= |parts|
    ensures |r| >= |stacks|
    decreases k
  {
    if k == 0 then stacks
    else PushLabel(PushLabels(stacks, parts, k - 1), k - 1, Label(parts[k - 1]))
  }

  /** One line of the drawing, pushed onto the stacks. */
  function AddCrateLine(stacks: seq<seq<Crate>>, line: string): (r: seq<seq<Crate>>)
    ensures |r| >= |stacks|
  {
    var parts := Text.Split(CollapseGaps(line), ' ');
    PushLabels(stacks, parts, |parts|)
  }

  /** A level of the drawing: a crate (its one-letter label) or nothing, per column. */
  type Level = seq<Option<char>>

  /** A label that the drawing can show between brackets. */
  predicate Printable(c: char) {
    c != '[' && c != ']' && c != ' '
  }

  predicate Drawable(level: Level) {
    && |level| >= 1
    && (exists i :: 0 <= i < |level| && level[i].Some?)
    && forall i :: 0 <= i < |level| && level[i].Some? ==> Printable(level[i].value)
  }

  /** How a column is drawn: `[c]`, or three spaces. */
  function DrawnCell(cell: Option<char>): string {
    if cell.Some? then ['[', cell.value, ']'] else "   "
  }

  /** A level drawn: its cells separated by single spaces. */
  function Draw(level: Level): string
    requires |level| >= 1
  {
    Text.Join(seq(|level|, i requires 0 <= i < |level| => DrawnCell(level[i])), ' ')
  }

  /** The piece a cell becomes once the gaps are collapsed: `[c]` or the empty string. */
  function Piece(cell: Option<char>): string {
    if cell.Some? then ['[', cell.value, ']'] else ""
  }

  function Pieces(level: Level): seq<string> {
    seq(|level|, i requires 0 <= i < |level| => Piece(level[i]))
  }

  /** What follows the first cell of a drawn level: nothing, or a space and the other cells drawn. */
  function DrawRest(level: Level): string
    requires |level| >= 1
  {
    if |level| == 1 then "" else " " + Draw(level[1..])
  }

  /** What follows the first piece of a level once collapsed: nothing, or a space and the other pieces joined. */
  function JoinRest(level: Level): string
    requires |level| >= 1
  {
    if |level| == 1 then "" else " " + Text.Join(Pieces(level[1..]), ' ')
  }

  lemma DrawCons(level: Level)
    requires |level| >= 1
    ensures Draw(level) == DrawnCell(level[0]) + DrawRest(level)
  {
    if |level| > 1 {
      var cells := seq(|level|, i requires 0 <= i < |level| => DrawnCell(level[i]));
      assert cells[1..] == seq(|level| - 1, i requires 0 <= i < |level| - 1 => DrawnCell(level[1..][i]));
      var rest := Text.Join(cells[1..], ' ');
      assert cells[0] + [' '] + rest == cells[0] + (" " + rest);
    }
  }

  lemma PiecesCons(level: Level)
    requires |level| >= 1
    ensures Text.Join(Pieces(level), ' ') == Piece(level[0]) + JoinRest(level)
  {
    if |level| > 1 {
      var pieces := Pieces(level);
      assert pieces[1..] == Pieces(level[1..]);
      var rest := Text.Join(pieces[1..], ' ');
      assert pieces[0] + [' '] + rest == pieces[0] + (" " + rest);
    }
  }

  lemma CollapseKeeps(x: char, t: string)
    requires x != ' '
    ensures CollapseGaps([x] + t) == [x] + CollapseGaps(t)
  {
    var s := [x] + t;
    assert s[0] == x && s[1..] == t;
    if |s| >= 4 {
      assert s[..4][0] == x;
    }
  }

  lemma CollapseCrate(c: char, t: string)
    requires Printable(c)
    ensures CollapseGaps(['[', c, ']'] + t) == ['[', c, ']'] + CollapseGaps(t)
  {
    CollapseKeeps(']', t);
    CollapseKeeps(c, [']'] + t);
    CollapseKeeps('[', [c] + ([']'] + t));
    assert ['[', c, ']'] + t == ['['] + ([c] + ([']'] + t));
  }

  lemma CollapseSpaceCrate(c: char, t: string)
    requires Printable(c)
    ensures CollapseGaps(" " + (['[', c, ']'] + t)) == " " + (['[', c, ']'] + CollapseGaps(t))
  {
    var s := " " + (['[', c, ']'] + t);
    assert s[..4][1] == '[';
    assert s[1..] == ['[', c, ']'] + t;
    CollapseCrate(c, t);
  }

  lemma CollapseGap(t: string)
    ensures CollapseGaps("    " + t) == " " + CollapseGaps(t)
  {
    assert ("    " + t)[..4] == "    ";
    assert ("    " + t)[4..] == t;
  }

  /** A space and one cell, then a text that collapses to `joined`, collapse to a space, the cell's piece and `joined`. */
  lemma CollapseFront(cell: Option<char>, rest: string, joined: string)
    requires cell.Some? ==> Printable(cell.value)
    requires CollapseGaps(rest) == joined
    ensures CollapseGaps(" " + (DrawnCell(cell) + rest)) == " " + (Piece(cell) + joined)
  {
    if cell.Some? {
      CollapseSpaceCrate(cell.value, rest);
    } else {
      assert " " + ("   " + rest) == "    " + rest;
      CollapseGap(rest);
    }
  }

  /** After a separating space, a drawn level collapses to its pieces joined by spaces. */
  lemma {:induction false} CollapseAfterSpace(level: Level)
    requires |level| >= 1
    requires forall i :: 0 <= i < |level| && level[i].Some? ==> Printable(level[i].value)
    ensures CollapseGaps(" " + Draw(level)) == " " + Text.Join(Pieces(level), ' ')
    decreases |level|
  {
    DrawCons(level);
    PiecesCons(level);
    if |level| > 1 {
      CollapseAfterSpace(level[1..]);
    }
    CollapseFront(level[0], DrawRest(level), JoinRest(level));
  }

  /** A drawn level whose first cell is empty starts with four spaces. */
  lemma CollapseDrawnGap(level: Level)
    requires |level| > 1 && level[0].None?
    ensures CollapseGaps(Draw(level)) == " " + CollapseGaps(Draw(level[1..]))
    ensures Text.Join(Pieces(level), ' ') == " " + Text.Join(Pieces(level[1..]), ' ')
  {
    DrawCons(level);
    PiecesCons(level);
    assert "   " + (" " + Draw(level[1..])) == "    " + Draw(level[1..]);
    CollapseGap(Draw(level[1..]));
  }

  /** A drawn level with a crate in it collapses to its pieces joined by spaces. */
  lemma {:induction false} CollapseDrawn(level: Level)
    requires Drawable(level)
    ensures CollapseGaps(Draw(level)) == Text.Join(Pieces(level), ' ')
    decreases |level|
  {
    if level[0].Some? {
      DrawCons(level);
      PiecesCons(level);
      if |level| > 1 {
        CollapseAfterSpace(level[1..]);
      }
      CollapseCrate(level[0].value, DrawRest(level));
    } else {
      var i :| 0 <= i < |level| && level[i].Some?;
      assert |level| > 1 && level[1..][i - 1].Some?;
      CollapseDrawnGap(level);
      CollapseDrawn(level[1..]);
    }
  }

  /** The crates of one level, column by column: its label as a one-letter string, or none. */
  function Entry(level: Level, i: nat): seq<Crate> {
    if i < |level| && level[i].Some? then [Some([level[i].value])] else []
  }

  /** Stack `i`, or an empty stack beyond the end. */
  function StackAt(stacks: seq<seq<Crate>>, i: nat): seq<Crate> {
    if i < |stacks| then stacks[i] else []
  }

  /** `r` is `stacks` with the crates of the first `k` columns of `level` pushed, one per stack. */
  predicate PushedUpTo(r: seq<seq<Crate>>, stacks: seq<seq<Crate>>, level: Level, k: nat) {
    && (forall i :: 0 <= i < |r| ==> r[i] == StackAt(stacks, i) + (if i < k then Entry(level, i) else []))
    && (forall i :: |r| <= i < k ==> Entry(level, i) == [])
  }

  /** The label of a piece: its crate's letter, or nothing. */
  lemma LabelOfPiece(cell: Option<char>)
    ensures Label(Piece(cell)) == if cell.Some? then [cell.value] else ""
  {
    if cell.Some? {
      var c := cell.value;
      assert RemoveFirst(['[', c, ']'], '[') == [c, ']'];
      assert RemoveFirst([c, ']'], ']') == [c];
    }
  }

  /** Pushing the piece of an empty column changes nothing. */
  lemma PushEmptyColumn(before: seq<seq<Crate>>, stacks: seq<seq<Crate>>, level: Level, k: nat)
    requires 0 < k <= |level| && level[k - 1].None?
    requires PushedUpTo(before, stacks, level, k - 1)
    ensures PushedUpTo(PushLabel(before, k - 1, Label(Piece(level[k - 1]))), stacks, level, k)
  {
    LabelOfPiece(level[k - 1]);
  }

  /** Pushing the piece of a crate puts it on stack `k - 1`. */
  lemma PushCrateColumn(before: seq<seq<Crate>>, stacks: seq<seq<Crate>>, level: Level, k: nat)
    requires 0 < k <= |level| && level[k - 1].Some?
    requires |before| >= |stacks| && PushedUpTo(before, stacks, level, k - 1)
    ensures PushedUpTo(PushLabel(before, k - 1, Label(Piece(level[k - 1]))), stacks, level, k)
  {
    LabelOfPiece(level[k - 1]);
    var r := PushLabel(before, k - 1, Label(Piece(level[k - 1])));
    forall i | 0 <= i < |r|
      ensures r[i] == StackAt(stacks, i) + (if i < k then Entry(level, i) else [])
    {
      if i == k - 1 {
        assert r[i] == StackAt(before, i) + [Some([level[i].value])];
      } else if i < |before| {
        assert r[i] == before[i];
      } else {
        assert r[i] == [] && StackAt(stacks, i) == [];
      }
    }
  }

  lemma {:induction false} PushPieces(stacks: seq<seq<Crate>>, level: Level, k: nat)
    requires k <= |level|
    ensures PushedUpTo(PushLabels(stacks, Pieces(level), k), stacks, level, k)
    decreases k
  {
    if k > 0 {
      PushPieces(stacks, level, k - 1);
      var pieces := Pieces(level);
      var before := PushLabels(stacks, pieces, k - 1);
      assert pieces[k - 1] == Piece(level[k - 1]);
      assert PushLabels(stacks, pieces, k) == PushLabel(before, k - 1, Label(pieces[k - 1]));
      PushColumn(before, stacks, level, k);
    }
  }

  /** Pushing the piece of column `k - 1`, crate or empty, extends the pushed columns by one. */
  lemma PushColumn(before: seq<seq<Crate>>, stacks: seq<seq<Crate>>, level: Level, k: nat)
    requires 0 < k <= |level|
    requires |before| >= |stacks| && PushedUpTo(before, stacks, level, k - 1)
    ensures PushedUpTo(PushLabel(before, k - 1, Label(Piece(level[k - 1]))), stacks, level, k)
  {
    if level[k - 1].Some? {
      PushCrateColumn(before, stacks, level, k);
    } else {
      PushEmptyColumn(before, stacks, level, k);
    }
  }

  /** Reading one drawn level adds its crate in column `i` on top of stack `i`, growing the stacks as needed. */
  lemma ReadLevel(stacks: seq<seq<Crate>>, level: Level)
    requires Drawable(level)
    ensures var r := AddCrateLine(stacks, Draw(level));
      && (forall i :: 0 <= i < |r| ==> r[i] == StackAt(stacks, i) + Entry(level, i))
      && (forall i :: |r| <= i ==> Entry(level, i) == [])
  {
    CollapseDrawn(level);
    Text.SplitJoin(Pieces(level), ' ');
    PushPieces(stacks, level, |level|);
  }

  // ---------------------------------------------------------------------
  // Reading a move.

  predicate HasDigit(w: string) {
    exists k :: 0 <= k < |w| && Text.IsDigit(w[k])
  }

  /** The words that contain a digit, each through `parseInt` (`None` for NaN). */
  function Numbers(words: seq<string>): seq<Option<int>>
    decreases |words|
  {
    if words == [] then []
    else (if HasDigit(words[0]) then [Text.ParseInt(words[0])] else []) + Numbers(words[1..])
  }

  /** How often the move loop runs: its bound is the first number, and NaN or a missing number stops it at once. */
  function Count(numbers: seq<Option<int>>): nat {
    if |numbers| >= 1 && numbers[0].Some? && numbers[0].value > 0 then numbers[0].value else 0
  }

  /** The stack that `stacks[n - 1]` names, for the `k`-th number `n`; `None` when it is `undefined`. */
  function StackIndex(numbers: seq<Option<int>>, k: nat, size: nat): Option<nat> {
    if k < |numbers| && numbers[k].Some? && 1 <= numbers[k].value <= size then Some(numbers[k].value - 1) else None
  }

  /** One move line. Moving at least one crate from or to a stack that does not exist fails. */
  function ApplyMove(stacks: seq<seq<Crate>>, line: string, block: bool): (r: Result<seq<seq<Crate>>>)
    ensures r.Success? ==> |r.value| == |stacks|
  {
    var numbers := Numbers(Text.Split(line, ' '));
    var count := Count(numbers);
    var from := StackIndex(numbers, 1, |stacks|);
    var to := StackIndex(numbers, 2, |stacks|);
    if count == 0 then Success(stacks)
    else if from.None? then Failure("Cannot read properties of undefined (reading 'pop')")
    else if to.None? then Failure("Cannot read properties of undefined (reading 'push')")
    else if block then Success(MoveBlock(stacks, count, from.value, to.value))
    else Success(MoveCrates(stacks, count, from.value, to.value))
  }

  /** The words of a move line, "move 3 from 1 to 2". */
  function MoveWords(count: nat, from: nat, to: nat): (words: seq<string>)
    ensures |words| == 6
  {
    ["move", Text.NatToString(count), "from", Text.NatToString(from), "to", Text.NatToString(to)]
  }

  /** A move line: its words separated by single spaces. */
  function MoveLine(count: nat, from: nat, to: nat): string {
    Text.Join(MoveWords(count, from, to), ' ')
  }

  /** Splitting a move line at its spaces gives its words back. */
  lemma SplitMoveLine(count: nat, from: nat, to: nat)
    ensures Text.Split(MoveLine(count, from, to), ' ') == MoveWords(count, from, to)
  {
    var words := MoveWords(count, from, to);
    forall k | 0 <= k < |words|
      ensures ' ' !in words[k]
    {
      if k == 1 || k == 3 || k == 5 {
        assert forall j :: 0 <= j < |words[k]| ==> Text.IsDigit(words[k][j]);
      }
    }
    Text.SplitJoin(words, ' ');
  }

  /** A word without a digit adds no number. */
  lemma NumbersSkip(w: string, rest: seq<string>)
    requires !HasDigit(w)
    ensures Numbers([w] + rest) == Numbers(rest)
  {
    assert ([w] + rest)[1..] == rest;
  }

  /** A word with a digit adds its number in front. */
  lemma NumbersKeep(w: string, rest: seq<string>)
    requires HasDigit(w)
    ensures Numbers([w] + rest) == [Text.ParseInt(w)] + Numbers(rest)
  {
    assert ([w] + rest)[1..] == rest;
  }

  lemma KeywordsHaveNoDigit()
    ensures !HasDigit("move") && !HasDigit("from") && !HasDigit("to")
  {
  }

  lemma ToNumbers(t: string)
    requires HasDigit(t)
    ensures Numbers(["to", t]) == [Text.ParseInt(t)]
  {
    KeywordsHaveNoDigit();
    assert [t] == [t] + [];
    NumbersKeep(t, []);
    NumbersSkip("to", [t]);
    assert ["to"] + [t] == ["to", t];
  }

  lemma FromNumbers(f: string, t: string)
    requires HasDigit(f) && HasDigit(t)
    ensures Numbers(["from", f, "to", t]) == [Text.ParseInt(f), Text.ParseInt(t)]
  {
    KeywordsHaveNoDigit();
    ToNumbers(t);
    NumbersKeep(f, ["to", t]);
    NumbersSkip("from", [f, "to", t]);
    assert ["from"] + [f, "to", t] == ["from", f, "to", t];
    assert [f] + ["to", t] == [f, "to", t];
  }

  lemma MoveNumbers(c: string, f: string, t: string)
    requires HasDigit(c) && HasDigit(f) && HasDigit(t)
    ensures Numbers(["move", c, "from", f, "to", t]) == [Text.ParseInt(c), Text.ParseInt(f), Text.ParseInt(t)]
  {
    KeywordsHaveNoDigit();
    FromNumbers(f, t);
    NumbersKeep(c, ["from", f, "to", t]);
    NumbersSkip("move", [c, "from", f, "to", t]);
    assert ["move"] + [c, "from", f, "to", t] == ["move", c, "from", f, "to", t];
    assert [c] + ["from", f, "to", t] == [c, "from", f, "to", t];
  }

  /** A move line reads as its three numbers. */
  lemma ReadMove(count: nat, from: nat, to: nat)
    ensures Numbers(Text.Split(MoveLine(count, from, to), ' ')) == [Some(count), Some(from), Some(to)]
  {
    var c := Text.NatToString(count);
    var f := Text.NatToString(from);
    var t := Text.NatToString(to);
    assert Text.IsDigit(c[0]) && Text.IsDigit(f[0]) && Text.IsDigit(t[0]);
    SplitMoveLine(count, from, to);
    MoveNumbers(c, f, t);
    Text.ParseIntNatToString(count);
    Text.ParseIntNatToString(from);
    Text.ParseIntNatToString(to);
  }

  /**
   * A move line naming stacks that exist moves `count` crates from stack
   * `from` to stack `to` (numbered from 1), one at a time or as a block;
   * moving no crate changes nothing.
   */
  lemma ApplyMoveLine(stacks: seq<seq<Crate>>, count: nat, from: nat, to: nat, block: bool)
    requires 1 <= from <= |stacks| && 1 <= to <= |stacks|
    ensures ApplyMove(stacks, MoveLine(count, from, to), block) ==
      if count == 0 then Success(stacks)
      else if block then Success(MoveBlock(stacks, count, from - 1, to - 1))
      else Success(MoveCrates(stacks, count, from - 1, to - 1))
  {
    ReadMove(count, from, to);
  }

  /** A move line naming a stack that does not exist fails as soon as it moves a crate. */
  lemma ApplyMoveMissingStack(stacks: seq<seq<Crate>>, count: nat, from: nat, to: nat, block: bool)
    requires count >= 1 && (from == 0 || from > |stacks| || to == 0 || to > |stacks|)
    ensures ApplyMove(stacks, MoveLine(count, from, to), block).Failure?
  {
    ReadMove(count, from, to);
  }

  // ---------------------------------------------------------------------
  // The whole transcript.

  /** The stacks so far, and whether the line of stack numbers has been passed. */
  datatype Yard = Yard(stacks: seq<seq<Crate>>, finalized: bool)

  /**
   * One line: blank lines are skipped; before the stack numbers a line is a
   * level of the drawing, the numbers line reverses every stack, and after it
   * a line is a move.
   */
  function StepLine(y: Yard, line: string, block: bool): Result<Yard> {
    if line == "" then Success(y)
    else if !y.finalized && Text.StartsWith(line, " 1") then
      Success(Yard(ReverseEach(y.stacks), true))
    else if !y.finalized then Success(Yard(AddCrateLine(y.stacks, line), false))
    else
      match ApplyMove(y.stacks, line, block)
      case Success(stacks) => Success(Yard(stacks, true))
      case Failure(e) => Failure(e)
  }

  /** `stacks.forEach((s) => s.reverse())` */
  function ReverseEach(stacks: seq<seq<Crate>>): (r: seq<seq<Crate>>)
    ensures |r| == |stacks| && forall i :: 0 <= i < |stacks| ==> r[i] == Reversed(stacks[i])
  {
    seq(|stacks|, i requires 0 <= i < |stacks| => Reversed(stacks[i]))
  }

  function Rearrange(lines: seq<string>, block: bool): Result<Yard>
    decreases |lines|
  {
    if lines == [] then Success(Yard([], false))
    else
      match Rearrange(lines[..|lines| - 1], block)
      case Success(y) => StepLine(y, lines[|lines| - 1], block)
      case Failure(e) => Failure(e)
  }

  /** The label on top of a stack, or nothing for an empty stack or `undefined` (which `join` prints as nothing). */
  function TopLabel(s: seq<Crate>): string {
    match TopOf(s)
    case Some(name) => name
    case None => ""
  }

  /** The tops of the stacks, in order, joined. */
  function Tops(stacks: seq<seq<Crate>>): string
    decreases |stacks|
  {
    if stacks == [] then "" else Tops(stacks[..|stacks| - 1]) + TopLabel(stacks[|stacks| - 1])
  }

  /** With one-letter labels on top of every stack, the answer spells the tops in order. */
  lemma {:induction false} TopsSpell(stacks: seq<seq<Crate>>)
    requires forall i :: 0 <= i < |stacks| ==> stacks[i] != [] && TopOf(stacks[i]).Some? && |TopOf(stacks[i]).value| == 1
    ensures |Tops(stacks)| == |stacks|
    ensures forall i :: 0 <= i < |stacks| ==> [Tops(stacks)[i]] == TopOf(stacks[i]).value
    decreases |stacks|
  {
    if stacks != [] {
      TopsSpell(stacks[..|stacks| - 1]);
    }
  }

  function Answer(lines: seq<string>, block: bool): Result<string> {
    match Rearrange(lines, block)
    case Success(y) => Success(Tops(y.stacks))
    case Failure(e) => Failure(e)
  }

  /** The crates of column `i` from the top level down. */
  function Column(levels: seq<Level>, i: nat): seq<Crate>
    decreases |levels|
  {
    if levels == [] then [] else Column(levels[..|levels| - 1], i) + Entry(levels[|levels| - 1], i)
  }

  function DrawAll(levels: seq<Level>): (r: seq<string>)
    requires forall k :: 0 <= k < |levels| ==> Drawable(levels[k])
    ensures |r| == |levels|
    decreases |levels|
  {
    if levels == [] then []
    else
      var last := levels[|levels| - 1];
      assert Drawable(last);
      DrawAll(levels[..|levels| - 1]) + [Draw(last)]
  }

  /** A drawn level is neither blank nor the line of stack numbers. */
  lemma DrawnIsLevel(level: Level)
    requires |level| >= 1
    ensures Draw(level) != "" && !Text.StartsWith(Draw(level), " 1")
  {
    var d := Draw(level);
    DrawCons(level);
    var cell := DrawnCell(level[0]);
    assert d[0] == cell[0] && d[1] == cell[1];
    assert cell[0] == '[' || cell[1] == ' ';
    if |d| >= 2 {
      assert d[..2][0] == d[0] && d[..2][1] == d[1];
    }
  }

  lemma {:induction false} ReadLevels(levels: seq<Level>, block: bool)
    requires forall k :: 0 <= k < |levels| ==> Drawable(levels[k])
    ensures var r := Rearrange(DrawAll(levels), block);
      && r.Success? && !r.value.finalized
      && (forall i :: 0 <= i < |r.value.stacks| ==> r.value.stacks[i] == Column(levels, i))
      && (forall i :: |r.value.stacks| <= i ==> Column(levels, i) == [])
    decreases |levels|
  {
    if levels != [] {
      var front := levels[..|levels| - 1];
      var last := levels[|levels| - 1];
      ReadLevels(front, block);
      assert DrawAll(levels)[..|levels| - 1] == DrawAll(front);
      DrawnIsLevel(last);
      ReadLevel(Rearrange(DrawAll(front), block).value.stacks, last);
    }
  }

  /**
   * Reading a drawing and then the line of stack numbers leaves stack `i`
   * holding column `i` with the top level's crate on top.
   */
  lemma ReadDrawing(levels: seq<Level>, numbers: string, block: bool)
    requires forall k :: 0 <= k < |levels| ==> Drawable(levels[k])
    requires Text.StartsWith(numbers, " 1")
    ensures var r := Rearrange(DrawAll(levels) + [numbers], block);
      && r.Success? && r.value.finalized
      && (forall i :: 0 <= i < |r.value.stacks| ==> r.value.stacks[i] == Reversed(Column(levels, i)))
      && (forall i :: |r.value.stacks| <= i ==> Column(levels, i) == [])
  {
    ReadLevels(levels, block);
    assert (DrawAll(levels) + [numbers])[..|levels|] == DrawAll(levels);
  }

  // ---------------------------------------------------------------------
  // The objects.

  /** `Stack<string>`: its items in an array, top last. */
  class Stack {
    var data: seq<Crate>

    constructor()
      ensures data == []
    {
      data := [];
    }

    method Push(item: Crate)
      modifies this
      ensures data == old(data) + [item]
    {
      data := data + [item];
    }

    method Pop() returns (item: Crate)
      modifies this
      ensures (data, item) == Popped(old(data))
    {
      if data == [] {
        return None;
      }
      item := data[|data| - 1];
      data := data[..|data| - 1];
    }

    /** Looks at the top without changing the stack. */
    method Peek() returns (item: Crate)
      ensures item == TopOf(data)
      ensures data != [] ==> Popped(data).1 == item
    {
      if data == [] {
        return None;
      }
      return data[|data| - 1];
    }

    method IsEmpty() returns (empty: bool)
      ensures empty <==> |data| == 0
    {
      return |data| == 0;
    }

    method Reverse()
      modifies this
      ensures data == Reversed(old(data))
    {
      data := Reversed(data);
    }
  }

  /** The items of each stack. */
  ghost function Contents(stacks: seq<Stack>): (r: seq<seq<Crate>>)
    reads stacks
    ensures |r| == |stacks| && forall i :: 0 <= i < |stacks| ==> r[i] == stacks[i].data
  {
    seq(|stacks|, i reads stacks requires 0 <= i < |stacks| => stacks[i].data)
  }

  predicate Distinct(stacks: seq<Stack>) {
    forall i, j :: 0 <= i < j < |stacks| ==> stacks[i] != stacks[j]
  }

  /** `grown` holds distinct stacks and starts with `stacks`. */
  predicate Extends(grown: seq<Stack>, stacks: seq<Stack>) {
    && Distinct(grown)
    && |grown| >= |stacks|
    && forall j :: 0 <= j < |stacks| ==> grown[j] == stacks[j]
  }

  /** One crate from stack `from` to stack `to` on the objects. */
  method MoveOneOf(stacks: seq<Stack>, from: nat, to: nat)
    requires from < |stacks| && to < |stacks| && Distinct(stacks)
    modifies stacks
    ensures Contents(stacks) == MoveOne(old(Contents(stacks)), from, to)
  {
    ghost var before := Contents(stacks);
    var item := stacks[from].Pop();
    ghost var mid := before[from := stacks[from].data];
    forall j | 0 <= j < |stacks| && j != from
      ensures stacks[j].data == before[j]
    {
      assert stacks[j] != stacks[from];
    }
    assert Contents(stacks) == mid;
    stacks[to].Push(item);
    forall j | 0 <= j < |stacks| && j != to
      ensures stacks[j].data == mid[j]
    {
      assert stacks[j] != stacks[to];
    }
    assert Contents(stacks) == mid[to := mid[to] + [item]];
  }

  /** Part one's move on the objects: pop from `from`, push on `to`, `count` times. */
  method MoveCratesOf(stacks: seq<Stack>, count: nat, from: nat, to: nat)
    requires from < |stacks| && to < |stacks| && Distinct(stacks)
    modifies stacks
    ensures Contents(stacks) == MoveCrates(old(Contents(stacks)), count, from, to)
  {
    ghost var start := Contents(stacks);
    for i := 0 to count
      invariant Contents(stacks) == MoveCrates(start, i, from, to)
    {
      MoveOneOf(stacks, from, to);
    }
  }

  /** `count` pops from one stack, collected in the order they came off. */
  method PopItems(stack: Stack, count: nat) returns (items: seq<Crate>)
    modifies stack
    ensures (stack.data, items) == PopMany(old(stack.data), count)
  {
    items := [];
    for i := 0 to count
      invariant (stack.data, items) == PopMany(old(stack.data), i)
    {
      var item := stack.Pop();
      items := items + [item];
    }
  }

  /** Pushes `items` in order. */
  method PushAll(stack: Stack, items: seq<Crate>)
    modifies stack
    ensures stack.data == old(stack.data) + items
  {
    for i := 0 to |items|
      invariant stack.data == old(stack.data) + items[..i]
    {
      stack.Push(items[i]);
      assert items[..i + 1] == items[..i] + [items[i]];
    }
    assert items[..|items|] == items;
  }

  /** Part two's move on the objects: pop `count` items into a list, reverse it, push it in order. */
  method MoveBlockOf(stacks: seq<Stack>, count: nat, from: nat, to: nat)
    requires from < |stacks| && to < |stacks| && Distinct(stacks)
    modifies stacks
    ensures Contents(stacks) == MoveBlock(old(Contents(stacks)), count, from, to)
  {
    ghost var start := Contents(stacks);
    var items := PopItems(stacks[from], count);
    ghost var mid := Contents(stacks);
    assert mid == start[from := PopMany(start[from], count).0];
    items := Reversed(items);
    PushAll(stacks[to], items);
    assert Contents(stacks) == mid[to := mid[to] + items];
  }

  /** Pushes the pieces of a drawing line, adding new stacks up to the column of each crate. */
  method AddCrateLineOf(stacks: seq<Stack>, line: string) returns (grown: seq<Stack>)
    requires Distinct(stacks)
    modifies stacks
    ensures Extends(grown, stacks)
    ensures forall i :: |stacks| <= i < |grown| ==> fresh(grown[i])
    ensures Contents(grown) == AddCrateLine(old(Contents(stacks)), line)
  {
    var parts := Text.Split(CollapseGaps(line), ' ');
    grown := PushParts(stacks, parts);
  }

  /** The loop over the pieces of a drawing line. */
  method PushParts(stacks: seq<Stack>, parts: seq<string>) returns (grown: seq<Stack>)
    requires Distinct(stacks)
    modifies stacks
    ensures Extends(grown, stacks)
    ensures forall i :: |stacks| <= i < |grown| ==> fresh(grown[i])
    ensures Contents(grown) == PushLabels(old(Contents(stacks)), parts, |parts|)
  {
    ghost var start := Contents(stacks);
    grown := stacks;
    for i := 0 to |parts|
      invariant Extends(grown, stacks)
      invariant forall j :: |stacks| <= j < |grown| ==> fresh(grown[j])
      invariant Contents(grown) == PushLabels(start, parts, i)
    {
      ghost var before := grown;
      PushLabelsNext(start, parts, i);
      grown := PushPart(grown, i, parts[i]);
      forall j | |stacks| <= j < |grown|
        ensures fresh(grown[j])
      {
        if j < |before| {
          assert grown[j] == before[j];
        }
      }
    }
  }

  lemma PushLabelsNext(stacks: seq<seq<Crate>>, parts: seq<string>, i: nat)
    requires i < |parts|
    ensures PushLabels(stacks, parts, i + 1) == PushLabel(PushLabels(stacks, parts, i), i, Label(parts[i]))
  {
  }

  /** Pushes one piece of a drawing line: its label, unless empty, on stack `i`. */
  method PushPart(stacks: seq<Stack>, i: nat, part: string) returns (grown: seq<Stack>)
    requires Distinct(stacks)
    modifies stacks
    ensures Extends(grown, stacks)
    ensures forall j :: |stacks| <= j < |grown| ==> fresh(grown[j])
    ensures Contents(grown) == PushLabel(old(Contents(stacks)), i, Label(part))
  {
    var name := Label(part);
    if name == "" {
      return stacks;
    }
    grown := PushAt(stacks, i, Some(name));
  }

  /** Grows the stacks to reach index `i`, then pushes `item` on stack `i`. */
  method PushAt(stacks: seq<Stack>, i: nat, item: Crate) returns (grown: seq<Stack>)
    requires Distinct(stacks)
    modifies stacks
    ensures Extends(grown, stacks)
    ensures forall j :: |stacks| <= j < |grown| ==> fresh(grown[j])
    ensures var g := Grow(old(Contents(stacks)), i + 1); Contents(grown) == g[i := g[i] + [item]]
  {
    grown := GrowTo(stacks, i + 1);
    ghost var g := Contents(grown);
    grown[i].Push(item);
    assert Contents(grown) == g[i := g[i] + [item]];
  }

  /** `while (stacks.length <= n - 1) stacks.push(new Stack())` */
  method GrowTo(stacks: seq<Stack>, n: nat) returns (grown: seq<Stack>)
    requires Distinct(stacks)
    ensures Extends(grown, stacks)
    ensures forall j :: |stacks| <= j < |grown| ==> fresh(grown[j])
    ensures Contents(grown) == Grow(Contents(stacks), n)
  {
    grown := stacks;
    while |grown| < n
      invariant Extends(grown, stacks)
      invariant |grown| == |stacks| || |grown| <= n
      invariant forall j :: |stacks| <= j < |grown| ==> fresh(grown[j])
      invariant Contents(grown) == Grow(Contents(stacks), |grown|)
      decreases n - |grown|
    {
      var s := new Stack();
      grown := grown + [s];
    }
  }

  /** Reverses every stack in place. */
  method ReverseAll(stacks: seq<Stack>)
    requires Distinct(stacks)
    modifies stacks
    ensures Contents(stacks) == ReverseEach(old(Contents(stacks)))
  {
    ghost var start := Contents(stacks);
    for i := 0 to |stacks|
      invariant forall j :: 0 <= j < i ==> stacks[j].data == Reversed(start[j])
      invariant forall j :: i <= j < |stacks| ==> stacks[j].data == start[j]
    {
      stacks[i].Reverse();
    }
  }

  /** `stacks.map((s) => s.peek()).join("")` */
  method TopsOf(stacks: seq<Stack>) returns (answer: string)
    ensures answer == Tops(Contents(stacks))
  {
    answer := "";
    for i := 0 to |stacks|
      invariant answer == Tops(Contents(stacks)[..i])
    {
      assert Contents(stacks)[..i + 1][..i] == Contents(stacks)[..i];
      var top := stacks[i].Peek();
      if top.Some? {
        answer := answer + top.value;
      }
    }
    assert Contents(stacks)[..|stacks|] == Contents(stacks);
  }

  /** One line of the transcript on the objects: returns the stacks (with any new ones) and whether the drawing is finished. */
  method StepLineOf(stacks: seq<Stack>, finalized: bool, line: string, block: bool) returns (r: Result<(seq<Stack>, bool)>)
    requires Distinct(stacks)
    modifies stacks
    ensures var expected := StepLine(Yard(old(Contents(stacks)), finalized), line, block);
      && (r.Failure? ==> expected == Failure(r.error))
      && (r.Success? ==> expected == Success(Yard(Contents(r.value.0), r.value.1)))
    ensures r.Success? ==> Extends(r.value.0, stacks)
    ensures r.Success? ==> forall j :: |stacks| <= j < |r.value.0| ==> fresh(r.value.0[j])
  {
    if line == "" {
      return Success((stacks, finalized));
    }
    if !finalized && Text.StartsWith(line, " 1") {
      ghost var start := Contents(stacks);
      ReverseAll(stacks);
      return Success((stacks, true));
    }
    if !finalized {
      var grown := AddCrateLineOf(stacks, line);
      return Success((grown, false));
    }
    var numbers := Numbers(Text.Split(line, ' '));
    var count := Count(numbers);
    var from := StackIndex(numbers, 1, |stacks|);
    var to := StackIndex(numbers, 2, |stacks|);
    if count > 0 {
      if from.None? {
        return Failure("Cannot read properties of undefined (reading 'pop')");
      }
      if to.None? {
        return Failure("Cannot read properties of undefined (reading 'push')");
      }
      if block {
        MoveBlockOf(stacks, count, from.value, to.value);
      } else {
        MoveCratesOf(stacks, count, from.value, to.value);
      }
    }
    return Success((stacks, true));
  }

  /** The loop over the lines of `one` / `two`: the stacks it builds and moves, or the error a line throws. */
  method RearrangeOf(lines: seq<string>, block: bool) returns (r: Result<seq<Stack>>)
    ensures r.Failure? ==> Rearrange(lines, block) == Failure(r.error)
    ensures r.Success? ==> Rearrange(lines, block).Success? && Rearrange(lines, block).value.stacks == Contents(r.value)
  {
    var stacks: seq<Stack> := [];
    var finalized := false;
    for k := 0 to |lines|
      invariant Distinct(stacks)
      invariant forall j :: 0 <= j < |stacks| ==> fresh(stacks[j])
      invariant Rearrange(lines[..k], block) == Success(Yard(Contents(stacks), finalized))
    {
      RearrangeStep(lines, k, block);
      var step := StepLineOf(stacks, finalized, lines[k], block);
      if step.Failure? {
        FailureSticks(lines, k + 1, block);
        return Failure(step.error);
      }
      stacks, finalized := step.value.0, step.value.1;
    }
    assert lines[..|lines|] == lines;
    return Success(stacks);
  }

  /** One more line is one more step, unless an earlier line failed. */
  lemma RearrangeStep(lines: seq<string>, k: nat, block: bool)
    requires k < |lines|
    ensures var before := Rearrange(lines[..k], block);
      Rearrange(lines[..k + 1], block) == if before.Success? then StepLine(before.value, lines[k], block) else before
  {
    assert lines[..k + 1][..k] == lines[..k];
  }

  /** `one` (`block` false) and `two` (`block` true), which differ only in how a move is made. */
  method Run(lines: seq<string>, block: bool) returns (r: Result<string>)
    ensures r == Answer(lines, block)
  {
    var stacks := RearrangeOf(lines, block);
    if stacks.Failure? {
      return Failure(stacks.error);
    }
    var answer := TopsOf(stacks.value);
    return Success(answer);
  }

  /** Once a line fails, the transcript fails with the same error. */
  lemma {:induction false} FailureSticks(lines: seq<string>, k: nat, block: bool)
    requires k <= |lines| && Rearrange(lines[..k], block).Failure?
    ensures Rearrange(lines, block) == Rearrange(lines[..k], block)
    decreases |lines| - k
  {
    if k < |lines| {
      assert lines[..k + 1][..k] == lines[..k];
      FailureSticks(lines, k + 1, block);
    } else {
      assert lines[..k] == lines;
    }
  }
}
