/**
 * Day 2: rock, paper, scissors. Each line of the strategy guide holds the
 * opponent's letter and a second letter, read as our throw in part one and as
 * the outcome to aim for in part two; the answer is the total score.
 * A letter outside A-C / X-Z is `undefined` in the program, and the score of
 * such a round is `undefined` or NaN, which makes the total NaN: here `None`.
 */
module RockPaperScissors {
  import opened Wrappers
  import Text

  datatype Throw = Rock | Paper | Scissors
  datatype Outcome = Win | Draw | Loss

  /** Rock blunts scissors, scissors cut paper, paper wraps rock. */
  predicate Beats(a: Throw, b: Throw) {
    (a == Rock && b == Scissors) || (a == Scissors && b == Paper) || (a == Paper && b == Rock)
  }

  /** Every throw is beaten by exactly one throw and beats exactly one throw. */
  lemma BeatsIsACycle(t: Throw)
    ensures exists w :: Beats(w, t) && forall u :: Beats(u, t) ==> u == w
    ensures exists l :: Beats(t, l) && forall u :: Beats(t, u) ==> u == l
    ensures !Beats(t, t)
  {
    match t
    case Rock => assert Beats(Paper, Rock) && Beats(Rock, Scissors);
    case Paper => assert Beats(Scissors, Paper) && Beats(Paper, Rock);
    case Scissors => assert Beats(Rock, Scissors) && Beats(Scissors, Paper);
  }

  /** `throwForOutcome`: the throw that gets `outcome` against `theirs`. */
  function ThrowForOutcome(theirs: Throw, outcome: Outcome): (mine: Throw)
    ensures outcome == Win <==> Beats(mine, theirs)
    ensures outcome == Draw <==> mine == theirs
    ensures outcome == Loss <==> Beats(theirs, mine)
  {
    match outcome
    case Win => (match theirs case Rock => Paper case Paper => Scissors case Scissors => Rock)
    case Draw => theirs
    case Loss => (match theirs case Rock => Scissors case Paper => Rock case Scissors => Paper)
  }

  /** `letterToThrow`: A or X is rock, B or Y paper, C or Z scissors; anything else is `undefined`. */
  function LetterToThrow(letter: string): Option<Throw> {
    if |letter| != 1 then None
    else
      match letter[0]
      case 'A' => Some(Rock)
      case 'X' => Some(Rock)
      case 'B' => Some(Paper)
      case 'Y' => Some(Paper)
      case 'C' => Some(Scissors)
      case 'Z' => Some(Scissors)
      case _ => None
  }

  lemma LetterToThrowCases(letter: string)
    ensures LetterToThrow(letter) == Some(Rock) <==> letter == "A" || letter == "X"
    ensures LetterToThrow(letter) == Some(Paper) <==> letter == "B" || letter == "Y"
    ensures LetterToThrow(letter) == Some(Scissors) <==> letter == "C" || letter == "Z"
  {
  }

  /** `letterToOutcome`: X is a loss, Y a draw, Z a win; anything else is `undefined`. */
  function LetterToOutcome(letter: string): Option<Outcome> {
    if |letter| != 1 then None
    else
      match letter[0]
      case 'X' => Some(Loss)
      case 'Y' => Some(Draw)
      case 'Z' => Some(Win)
      case _ => None
  }

  lemma LetterToOutcomeCases(letter: string)
    ensures LetterToOutcome(letter) == Some(Loss) <==> letter == "X"
    ensures LetterToOutcome(letter) == Some(Draw) <==> letter == "Y"
    ensures LetterToOutcome(letter) == Some(Win) <==> letter == "Z"
  {
  }

  /** `throwValue`: 1 for rock, 2 for paper, 3 for scissors. */
  function ThrowValue(t: Throw): (v: int)
    ensures 1 <= v <= 3
  {
    match t
    case Rock => 1
    case Paper => 2
    case Scissors => 3
  }

  /** Different throws are worth different points. */
  lemma ThrowValueInjective(a: Throw, b: Throw)
    ensures ThrowValue(a) == ThrowValue(b) ==> a == b
  {
  }

  /** The points for the result of a round, seen from `mine`: 6 for a win, 3 for a draw, 0 for a loss. */
  function OutcomePoints(o: Outcome): int {
    match o
    case Win => 6
    case Draw => 3
    case Loss => 0
  }

  /** `score(theirs, mine)`: the value of our throw plus 6, 3 or 0 as it wins, draws or loses. */
  function Score(theirs: Throw, mine: Throw): (s: int)
    ensures 1 <= s <= 9
    ensures theirs == mine ==> s == ThrowValue(mine) + 3
    ensures Beats(mine, theirs) ==> s == ThrowValue(mine) + 6
    ensures Beats(theirs, mine) ==> s == ThrowValue(mine)
  {
    if theirs == mine then ThrowValue(mine) + 3
    else
      match theirs
      case Rock => if mine == Paper then ThrowValue(mine) + 6 else ThrowValue(mine) + 0
      case Paper => if mine == Scissors then ThrowValue(mine) + 6 else ThrowValue(mine) + 0
      case Scissors => if mine == Rock then ThrowValue(mine) + 6 else ThrowValue(mine) + 0
  }

  /** Playing the throw `throwForOutcome` picks earns exactly the points of the outcome aimed for. */
  lemma ScoreOfChosenThrow(theirs: Throw, outcome: Outcome)
    ensures var mine := ThrowForOutcome(theirs, outcome);
      Score(theirs, mine) == ThrowValue(mine) + OutcomePoints(outcome)
  {
  }

  /** The score identifies the round: our throw and whether we won, drew or lost. */
  lemma ScoreDeterminesRound(theirs1: Throw, mine1: Throw, theirs2: Throw, mine2: Throw)
    requires Score(theirs1, mine1) == Score(theirs2, mine2)
    ensures mine1 == mine2
    ensures Beats(mine1, theirs1) == Beats(mine2, theirs2) && (theirs1 == mine1) == (theirs2 == mine2)
  {
  }

  datatype Part = One | Two

  /** The score of the round on a non-blank line, given its space-separated fields: the first two, read for `part`. */
  function Round(fields: seq<string>, part: Part): (r: Option<int>)
    requires |fields| >= 1
    ensures r.Some? ==> 1 <= r.value <= 9
  {
    var first := LetterToThrow(fields[0]);
    if |fields| < 2 || first.None? then None
    else
      match part
      case One =>
        (match LetterToThrow(fields[1])
         case Some(mine) => Some(Score(first.value, mine))
         case None => None)
      case Two =>
        (match LetterToOutcome(fields[1])
         case Some(o) => Some(Score(first.value, ThrowForOutcome(first.value, o)))
         case None => None)
  }

  /** The fields of the round on a line, or `None` for a line that is blank once trimmed. */
  function Fields(line: string): (r: Option<seq<string>>)
    ensures r.Some? ==> |r.value| >= 1
  {
    var t := Text.Trim(line);
    if t == "" then None else Some(Text.Split(t, ' '))
  }

  /** What a line adds to the total: nothing for a blank line, otherwise its round's score (`None` for NaN). */
  datatype Contribution = Skipped | Scored(points: Option<int>)

  function LineContribution(line: string, part: Part): Contribution {
    match Fields(line)
    case None => Skipped
    case Some(fields) => Scored(Round(fields, part))
  }

  /** Every line read, in order. */
  function Contributions(lines: seq<string>, part: Part): (cs: seq<Contribution>)
    ensures |cs| == |lines| && forall k :: 0 <= k < |lines| ==> cs[k] == LineContribution(lines[k], part)
  {
    seq(|lines|, k requires 0 <= k < |lines| => LineContribution(lines[k], part))
  }

  /** One line more: a blank line keeps the total, a round adds its score, and NaN in either makes NaN. */
  function Accumulate(total: Option<int>, c: Contribution): Option<int> {
    match c
    case Skipped => total
    case Scored(points) => AddNumber(total, points)
  }

  /** The running total after the given lines, from 0. */
  function TotalOf(cs: seq<Contribution>): Option<int> {
    if cs == [] then Some(0) else Accumulate(TotalOf(cs[..|cs| - 1]), cs[|cs| - 1])
  }

  /** The answer of `one` or `two`: the sum of the scores of the rounds, blank lines skipped. */
  function TotalScore(lines: seq<string>, part: Part): Option<int> {
    TotalOf(Contributions(lines, part))
  }

  /** The number of rounds among the lines read. */
  function RoundCount(cs: seq<Contribution>): (n: nat)
    ensures n <= |cs|
  {
    if cs == [] then 0 else RoundCount(cs[..|cs| - 1]) + if cs[|cs| - 1].Skipped? then 0 else 1
  }

  /** Every round read scores between 1 and 9 (or is NaN). */
  predicate InRange(cs: seq<Contribution>) {
    forall k :: 0 <= k < |cs| && cs[k].Scored? && cs[k].points.Some? ==> 1 <= cs[k].points.value <= 9
  }

  lemma ContributionsInRange(lines: seq<string>, part: Part)
    ensures InRange(Contributions(lines, part))
  {
  }

  /** With every score between 1 and 9, the total lies between the number of rounds and nine times it. */
  lemma {:induction false} TotalOfBounds(cs: seq<Contribution>)
    requires InRange(cs)
    ensures TotalOf(cs).Some? ==> RoundCount(cs) <= TotalOf(cs).value <= 9 * RoundCount(cs)
  {
    if cs != [] {
      var init := cs[..|cs| - 1];
      assert forall k :: 0 <= k < |init| ==> init[k] == cs[k];
      TotalOfBounds(init);
    }
  }

  /** Each round scores between 1 and 9, so the total lies between the number of rounds and nine times it. */
  lemma TotalScoreBounds(lines: seq<string>, part: Part)
    ensures var cs := Contributions(lines, part);
      TotalScore(lines, part).Some? ==> RoundCount(cs) <= TotalScore(lines, part).value <= 9 * RoundCount(cs)
  {
    ContributionsInRange(lines, part);
    TotalOfBounds(Contributions(lines, part));
  }

  /** Once a round has no score the total is NaN, whatever follows. */
  lemma {:induction false} TotalOfStaysNaN(cs: seq<Contribution>, more: seq<Contribution>)
    requires TotalOf(cs).None?
    ensures TotalOf(cs + more).None?
    decreases |more|
  {
    if more != [] {
      var init := more[..|more| - 1];
      TotalOfStaysNaN(cs, init);
      var all := cs + more;
      assert all[..|all| - 1] == cs + init;
    } else {
      assert cs + more == cs;
    }
  }

  /** Reading more lines reads the first ones as before. */
  lemma ContributionsAppend(lines: seq<string>, more: seq<string>, part: Part)
    ensures Contributions(lines + more, part) == Contributions(lines, part) + Contributions(more, part)
  {
  }

  /** Once a line has no score the answer is NaN, whatever lines follow. */
  lemma TotalScoreStaysNaN(lines: seq<string>, more: seq<string>, part: Part)
    requires TotalScore(lines, part).None?
    ensures TotalScore(lines + more, part).None?
  {
    ContributionsAppend(lines, more, part);
    TotalOfStaysNaN(Contributions(lines, part), Contributions(more, part));
  }

  /** One more line is one more step of the total. */
  lemma TotalOfStep(cs: seq<Contribution>, i: nat)
    requires i < |cs|
    ensures TotalOf(cs[..i + 1]) == Accumulate(TotalOf(cs[..i]), cs[i])
  {
    assert cs[..i + 1][..i] == cs[..i];
  }

  /** The body of the loop in `one` / `two`: skip a blank line, otherwise add the round's score. */
  method AddLine(total: Option<int>, line: string, part: Part) returns (next: Option<int>)
    ensures next == Accumulate(total, LineContribution(line, part))
  {
    next := total;
    var trimmed := Text.Trim(line);
    if trimmed != "" {
      var fields := Text.Split(trimmed, ' ');
      var s := Round(fields, part);
      if total.Some? && s.Some? {
        next := Some(total.value + s.value);
      } else {
        next := None;
      }
    }
  }

  /** `one` / `two`: the loop adding up the round scores, skipping blank lines. */
  method Total(lines: seq<string>, part: Part) returns (total: Option<int>)
    ensures total == TotalScore(lines, part)
  {
    ghost var cs := Contributions(lines, part);
    total := Some(0);
    for i := 0 to |lines|
      invariant total == TotalOf(cs[..i])
    {
      TotalOfStep(cs, i);
      total := AddLine(total, lines[i], part);
    }
    assert cs[..|lines|] == cs;
  }
}
