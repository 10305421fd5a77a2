/**
 * Day 11: monkeys passing items around.
 *
 * Each monkey inspects the items it holds in order, computes a new worry
 * level, tests it and throws the item to one of two other monkeys. Part one
 * divides the worry level by three after each inspection. Part two keeps the
 * starting value of each item with the list of operations applied to it, and
 * replays that list modulo the test divisor whenever it needs the test result.
 */
module Monkeys {
  import opened Wrappers
  import opened Text
  import Sorting

  datatype Operator = Mul | Add
  datatype Operand = Old | Const(k: int)

  /** `new = old <operator> <operand>` */
  datatype Operation = Operation(operator: Operator, operand: Operand)

  function Apply(op: Operation, n: int): int {
    var v := if op.operand.Old? then n else op.operand.k;
    match op.operator
    case Mul => n * v
    case Add => n + v
  }

  /** The operation squares or doubles for an `old` operand, else uses the constant. */
  lemma ApplyCases(op: Operation, n: int)
    ensures op == Operation(Mul, Old) ==> Apply(op, n) == n * n
    ensures op == Operation(Add, Old) ==> Apply(op, n) == 2 * n
    ensures op.operand.Const? && op.operator.Mul? ==> Apply(op, n) == n * op.operand.k
    ensures op.operand.Const? && op.operator.Add? ==> Apply(op, n) == n + op.operand.k
  {
  }

  /**
   * `ParseOperation`: five space-separated words, the first `new` and the third
   * `old`, an operator `*` or `+` and an operand that is `old` or a number. The
   * second word is not looked at.
   */
  function ParseOperation(s: string): (r: Result<Operation>)
    ensures r.Success? ==> var parts := Split(s, ' ');
      && |parts| == 5 && parts[0] == "new" && parts[2] == "old"
      && (parts[3] == "*" <==> r.value.operator.Mul?)
      && (parts[3] == "+" <==> r.value.operator.Add?)
      && (parts[4] == "old" <==> r.value.operand.Old?)
      && (r.value.operand.Const? ==> ParseInt(parts[4]) == Some(r.value.operand.k))
    ensures r.Failure? ==> var parts := Split(s, ' ');
      || |parts| != 5 || parts[0] != "new" || parts[2] != "old"
      || (parts[3] != "*" && parts[3] != "+")
      || (parts[4] != "old" && ParseInt(parts[4]).None?)
  {
    var parts := Split(s, ' ');
    if |parts| != 5 then Failure("invalid operation")
    else if parts[2] != "old" || parts[0] != "new" then Failure("invalid operation")
    else if parts[3] != "*" && parts[3] != "+" then Failure("invalid operation " + parts[3])
    else
      var operator := if parts[3] == "*" then Mul else Add;
      if parts[4] == "old" then Success(Operation(operator, Old))
      else
        match ParseInt(parts[4])
        case None => Failure("invalid operand " + parts[4])
        case Some(k) => Success(Operation(operator, Const(k)))
  }

  /** The text of an operation with a non-negative constant, as the puzzle writes it. */
  function FormatOperation(op: Operation): string
    requires op.operand.Const? ==> op.operand.k >= 0
  {
    Join(["new", "=", "old", if op.operator.Mul? then "*" else "+", OperandText(op)], ' ')
  }

  /** Every operation the puzzle can write is parsed back to itself. */
  lemma ParseFormatOperation(op: Operation)
    requires op.operand.Const? ==> op.operand.k >= 0
    ensures ParseOperation(FormatOperation(op)) == Success(op)
  {
    SplitFormatOperation(op);
    ParseOperationWords(FormatOperation(op), op);
  }

  function OperandText(op: Operation): string
    requires op.operand.Const? ==> op.operand.k >= 0
  {
    if op.operand.Old? then "old" else NatToString(op.operand.k)
  }

  lemma SplitFormatOperation(op: Operation)
    requires op.operand.Const? ==> op.operand.k >= 0
    ensures Split(FormatOperation(op), ' ') == ["new", "=", "old", if op.operator.Mul? then "*" else "+", OperandText(op)]
  {
    var last := OperandText(op);
    assert forall k :: 0 <= k < |last| ==> last[k] != ' ';
    SplitJoin(["new", "=", "old", if op.operator.Mul? then "*" else "+", last], ' ');
  }

  lemma ParseOperationWords(s: string, op: Operation)
    requires op.operand.Const? ==> op.operand.k >= 0
    requires Split(s, ' ') == ["new", "=", "old", if op.operator.Mul? then "*" else "+", OperandText(op)]
    ensures ParseOperation(s) == Success(op)
  {
    if op.operand.Const? {
      ParseIntNatToString(op.operand.k);
      var last := NatToString(op.operand.k);
      assert last != "old" by {
        assert IsDigit(last[0]);
      }
    }
  }

  /**
   * A divisibility test. `divisor` is `None` when its text is not a number:
   * the source then divides by NaN and the test never holds.
   */
  datatype Test = DivisibleBy(divisor: Option<int>)

  /** `n % k === 0`; a zero divisor gives NaN, which is not 0. */
  predicate Holds(t: Test, n: int) {
    t.divisor.Some? && t.divisor.value != 0 && n % t.divisor.value == 0
  }

  /** `ParseTest`: three words, the first `divisible`; the second is not looked at. */
  function ParseTest(s: string): (r: Result<Test>)
    ensures r.Success? <==> |Split(s, ' ')| == 3 && Split(s, ' ')[0] == "divisible"
    ensures r.Success? ==> r.value.divisor == ParseInt(Split(s, ' ')[2])
  {
    var parts := Split(s, ' ');
    if |parts| != 3 then Failure("invalid test " + s)
    else if parts[0] == "divisible" then Success(DivisibleBy(ParseInt(parts[2])))
    else Failure("invalid test " + parts[0])
  }

  /** "divisible by k" parses to the test "k divides n". */
  lemma ParseTestDivisibleBy(k: nat, n: int)
    ensures var r := ParseTest(Join(["divisible", "by", NatToString(k)], ' '));
      r.Success? && (Holds(r.value, n) <==> k != 0 && n % k == 0)
  {
    var last := NatToString(k);
    assert forall j :: 0 <= j < |last| ==> last[j] != ' ';
    SplitJoin(["divisible", "by", last], ' ');
    ParseIntNatToString(k);
  }

  // ---------------------------------------------------------------------
  // JavaScript arithmetic and the congruences behind part two.

  /** `a % m` in JavaScript: the remainder takes the sign of the dividend. */
  function JsRem(a: int, m: int): (r: int)
    requires m > 0
    ensures a >= 0 ==> r == a % m
  {
    if a >= 0 then a % m else -((-a) % m)
  }

  /** `Math.trunc(a / b)`: division rounding toward zero. */
  function TruncDiv(a: int, b: int): (q: int)
    requires b > 0
    ensures a >= 0 ==> q == a / b
    ensures a < 0 ==> q == -((-a) / b)
  {
    if a >= 0 then a / b else -((-a) / b)
  }

  /** A non-zero multiple of `m` is at least `m` away from zero. */
  lemma MultipleBound(d: int, m: int)
    requires m > 0
    ensures d >= 1 ==> d * m >= m
    ensures d <= -1 ==> d * m <= -m
  {
    if d >= 1 {
      assert d * m == (d - 1) * m + m;
    } else if d <= -1 {
      assert d * m == (d + 1) * m - m;
    }
  }

  lemma DivModUnique(a: int, m: int, q: int, r: int)
    requires m > 0 && 0 <= r < m && a == q * m + r
    ensures a % m == r
  {
    var q', r' := a / m, a % m;
    assert (q - q') * m == r' - r;
    MultipleBound(q - q', m);
  }

  lemma ModSubMultiple(x: int, q: int, m: int)
    requires m > 0
    ensures (x - q * m) % m == x % m
  {
    var d, r := x / m, x % m;
    assert x - q * m == (d - q) * m + r;
    DivModUnique(x - q * m, m, d - q, r);
  }

  /** Reducing a summand modulo `m` does not change the sum modulo `m`. */
  lemma ModAdd(a: int, b: int, m: int)
    requires m > 0
    ensures ((a % m) + b) % m == (a + b) % m
  {
    assert (a % m) + b == (a + b) - (a / m) * m;
    ModSubMultiple(a + b, a / m, m);
  }

  /** Reducing a factor modulo `m` does not change the product modulo `m`. */
  lemma ModMul(a: int, b: int, m: int)
    requires m > 0
    ensures ((a % m) * b) % m == (a * b) % m
  {
    var d := a / m;
    assert a % m == a - d * m;
    assert (a - d * m) * b == a * b - (d * b) * m;
    ModSubMultiple(a * b, d * b, m);
  }

  /** Applying an operation to a value or to its remainder gives the same remainder. */
  lemma ApplyMod(op: Operation, x: int, m: int)
    requires m > 0
    ensures Apply(op, x % m) % m == Apply(op, x) % m
  {
    var r := x % m;
    match op.operand
    case Old =>
      if op.operator.Mul? {
        ModMul(x, r, m);
        ModMul(x, x, m);
        assert r * r == r * r;
        assert (r * r) % m == (x * r) % m;
        assert (x * r) % m == (r * x) % m;
      } else {
        ModAdd(x, r, m);
        ModAdd(x, x, m);
        assert (r + r) % m == (x + r) % m;
      }
    case Const(k) =>
      if op.operator.Mul? {
        ModMul(x, k, m);
      } else {
        ModAdd(x, k, m);
      }
  }

  // ---------------------------------------------------------------------
  // Monkeys, turns and rounds.

  /** A monkey of part one. */
  datatype Monkey = Monkey(operation: Operation, test: Test, throwToTrue: nat, throwToFalse: nat)

  /**
   * Throw targets must name another monkey: an unknown target makes the source
   * fail, and a monkey throwing to itself keeps its turn going forever.
   */
  predicate ValidTargets(ms: seq<Monkey>) {
    forall i :: 0 <= i < |ms| ==>
      ms[i].throwToTrue < |ms| && ms[i].throwToFalse < |ms| && ms[i].throwToTrue != i && ms[i].throwToFalse != i
  }

  /**
   * Part one's inspection by monkey `i`: the new worry level is
   * `trunc(op(x) / 3)`, thrown to `throwToTrue` exactly when the test holds.
   */
  function Inspection(ms: seq<Monkey>, i: nat, x: int): (int, nat) {
    if i < |ms| then
      var w := TruncDiv(Apply(ms[i].operation, x), 3);
      (w, if Holds(ms[i].test, w) then ms[i].throwToTrue else ms[i].throwToFalse)
    else (x, 0)
  }

  function InspectionFn(ms: seq<Monkey>): (nat, int) -> (int, nat) {
    (i, x) => Inspection(ms, i, x)
  }

  /** Monkey `i`'s inspections always throw to another monkey among `n`. */
  ghost predicate ThrowsAway<T(!new)>(step: (nat, T) -> (T, nat), i: nat, n: nat) {
    forall x: T :: step(i, x).1 < n && step(i, x).1 != i
  }

  ghost predicate AllThrowAway<T(!new)>(step: (nat, T) -> (T, nat), n: nat) {
    forall i :: 0 <= i < n ==> ThrowsAway(step, i, n)
  }

  lemma InspectionThrowsAway(ms: seq<Monkey>)
    requires ValidTargets(ms)
    ensures AllThrowAway(InspectionFn(ms), |ms|)
  {
  }

  /** The queues after monkey `i` threw the items `q`, in order, with `step`. */
  function ThrowAll<T(!new)>(qs: seq<seq<T>>, i: nat, q: seq<T>, step: (nat, T) -> (T, nat)): (r: seq<seq<T>>)
    requires ThrowsAway(step, i, |qs|)
    ensures |r| == |qs|
    decreases |q|
  {
    if q == [] then qs
    else
      var s := ThrowAll(qs, i, q[..|q| - 1], step);
      var (y, t) := step(i, q[|q| - 1]);
      s[t := s[t] + [y]]
  }

  /** The items of `q` that monkey `i` throws to `t`, as they arrive there. */
  function Thrown<T(!new)>(q: seq<T>, i: nat, t: nat, step: (nat, T) -> (T, nat)): seq<T>
    decreases |q|
  {
    if q == [] then []
    else
      var (y, u) := step(i, q[|q| - 1]);
      Thrown(q[..|q| - 1], i, t, step) + (if u == t then [y] else [])
  }

  /** A turn of monkey `i`: its queue is emptied and each item lands on its target's queue. */
  function Turn<T(!new)>(qs: seq<seq<T>>, i: nat, step: (nat, T) -> (T, nat)): (r: seq<seq<T>>)
    requires i < |qs| && ThrowsAway(step, i, |qs|)
    ensures |r| == |qs|
  {
    ThrowAll(qs[i := []], i, qs[i], step)
  }

  /** The queues after the turns of monkeys `0..k`. */
  function RoundUpTo<T(!new)>(qs: seq<seq<T>>, k: nat, step: (nat, T) -> (T, nat)): (r: seq<seq<T>>)
    requires k <= |qs| && AllThrowAway(step, |qs|)
    ensures |r| == |qs|
    decreases k
  {
    if k == 0 then qs else Turn(RoundUpTo(qs, k - 1, step), k - 1, step)
  }

  /** How many items each monkey inspects in the round that starts with `qs`. */
  function RoundCounts<T(!new)>(qs: seq<seq<T>>, step: (nat, T) -> (T, nat)): (c: seq<nat>)
    requires AllThrowAway(step, |qs|)
    ensures |c| == |qs|
    ensures forall i :: 0 <= i < |qs| ==> c[i] == |RoundUpTo(qs, i, step)[i]|
  {
    seq(|qs|, i requires 0 <= i < |qs| => |RoundUpTo(qs, i, step)[i]|)
  }

  lemma {:induction false} ThrowAllDelivers<T(!new)>(qs: seq<seq<T>>, i: nat, q: seq<T>, step: (nat, T) -> (T, nat), t: nat)
    requires ThrowsAway(step, i, |qs|) && t < |qs|
    ensures ThrowAll(qs, i, q, step)[t] == qs[t] + Thrown(q, i, t, step)
    decreases |q|
  {
    if q != [] {
      ThrowAllDelivers(qs, i, q[..|q| - 1], step, t);
    }
  }

  lemma {:induction false} ThrownToSelf<T(!new)>(q: seq<T>, i: nat, n: nat, step: (nat, T) -> (T, nat))
    requires ThrowsAway(step, i, n)
    ensures Thrown(q, i, i, step) == []
    decreases |q|
  {
    if q != [] {
      ThrownToSelf(q[..|q| - 1], i, n, step);
    }
  }

  /**
   * After monkey `i`'s turn its queue is empty and every other queue has the
   * items thrown to it appended, in the order they were inspected.
   */
  lemma TurnDelivers<T(!new)>(qs: seq<seq<T>>, i: nat, step: (nat, T) -> (T, nat), t: nat)
    requires i < |qs| && ThrowsAway(step, i, |qs|) && t < |qs|
    ensures Turn(qs, i, step)[t] == if t == i then [] else qs[t] + Thrown(qs[i], i, t, step)
  {
    ThrowAllDelivers(qs[i := []], i, qs[i], step, t);
    if t == i {
      ThrownToSelf(qs[i], i, |qs|, step);
    }
  }

  /** Changing queue `i` does not interact with monkey `i`'s throws. */
  lemma {:induction false} ThrowAllFrame<T(!new)>(qs: seq<seq<T>>, i: nat, a: seq<T>, q: seq<T>, step: (nat, T) -> (T, nat))
    requires i < |qs| && ThrowsAway(step, i, |qs|)
    ensures ThrowAll(qs[i := a], i, q, step) == ThrowAll(qs, i, q, step)[i := a]
    decreases |q|
  {
    if q != [] {
      ThrowAllFrame(qs, i, a, q[..|q| - 1], step);
    }
  }

  /** The number of items held by all monkeys together. */
  function TotalItems<T>(qs: seq<seq<T>>): nat {
    if qs == [] then 0 else |qs[0]| + TotalItems(qs[1..])
  }

  lemma {:induction false} TotalItemsUpdate<T>(qs: seq<seq<T>>, t: nat, a: seq<T>)
    requires t < |qs|
    ensures TotalItems(qs[t := a]) + |qs[t]| == TotalItems(qs) + |a|
  {
    if t > 0 {
      TotalItemsUpdate(qs[1..], t - 1, a);
      assert qs[t := a][1..] == qs[1..][t - 1 := a];
    } else {
      assert qs[t := a][1..] == qs[1..];
    }
  }

  lemma {:induction false} ThrowAllConserves<T(!new)>(qs: seq<seq<T>>, i: nat, q: seq<T>, step: (nat, T) -> (T, nat))
    requires ThrowsAway(step, i, |qs|)
    ensures TotalItems(ThrowAll(qs, i, q, step)) == TotalItems(qs) + |q|
    decreases |q|
  {
    if q != [] {
      ThrowAllConserves(qs, i, q[..|q| - 1], step);
      var s := ThrowAll(qs, i, q[..|q| - 1], step);
      var (y, t) := step(i, q[|q| - 1]);
      TotalItemsUpdate(s, t, s[t] + [y]);
    }
  }

  /** A round neither creates nor loses items. */
  lemma {:induction false} RoundConserves<T(!new)>(qs: seq<seq<T>>, k: nat, step: (nat, T) -> (T, nat))
    requires k <= |qs| && AllThrowAway(step, |qs|)
    ensures TotalItems(RoundUpTo(qs, k, step)) == TotalItems(qs)
    decreases k
  {
    if k > 0 {
      RoundConserves(qs, k - 1, step);
      var s := RoundUpTo(qs, k - 1, step);
      TotalItemsUpdate(s, k - 1, []);
      ThrowAllConserves(s[k - 1 := []], k - 1, s[k - 1], step);
    }
  }

  /** The product of the two largest inspection counts; `None` (NaN) with fewer than two monkeys. */
  function TopTwoProduct(counts: seq<nat>): (r: Option<int>)
    ensures r.Some? <==> |counts| >= 2
  {
    var s := Sorting.SortDescending(counts);
    assert |multiset(s)| == |multiset(counts)|;
    if |s| < 2 then None else Some(s[0] * s[1])
  }

  /**
   * The monkey business is `a * b` where `a` is the largest count and `b` the
   * largest of the others (`a` itself again if it occurs twice).
   */
  lemma TopTwoProductIsTwoLargest(counts: seq<nat>)
    requires |counts| >= 2
    ensures exists a, b ::
      && TopTwoProduct(counts) == Some(a * b)
      && a in multiset(counts) && b in multiset(counts) - multiset{a}
      && (forall x :: x in multiset(counts) ==> x <= a)
      && (forall x :: x in multiset(counts) - multiset{a} ==> x <= b)
  {
    var s := Sorting.SortDescending(counts);
    assert multiset(s) == multiset(counts);
    assert s == [s[0]] + s[1..];
    assert multiset(s) - multiset{s[0]} == multiset(s[1..]);
    assert s[1] in multiset(s[1..]) by {
      assert s[1..][0] == s[1];
    }
    forall x | x in multiset(counts) ensures x <= s[0] {
      assert x in s;
    }
    forall x | x in multiset(counts) - multiset{s[0]} ensures x <= s[1] {
      assert x in s[1..];
      var k :| 0 <= k < |s[1..]| && s[1..][k] == x;
      assert s[k + 1] == x;
    }
  }

  /** The queue of monkey `i` part way through its turn, after `k` of its items were thrown. */
  lemma {:induction false} ThrowAllKeeps<T(!new)>(start: seq<seq<T>>, i: nat, k: nat, step: (nat, T) -> (T, nat))
    requires i < |start| && k <= |start[i]| && ThrowsAway(step, i, |start|)
    ensures ThrowAll(start[i := start[i][k..]], i, start[i][..k], step)[i] == start[i][k..]
  {
    ThrowAllDelivers(start[i := start[i][k..]], i, start[i][..k], step, i);
    ThrownToSelf(start[i][..k], i, |start|, step);
  }

  /**
   * One more step of monkey `i`'s turn: the first item left on its queue is
   * removed from it and delivered to its target.
   */
  lemma ThrowNext<T(!new)>(start: seq<seq<T>>, i: nat, k: nat, step: (nat, T) -> (T, nat))
    requires i < |start| && k < |start[i]| && ThrowsAway(step, i, |start|)
    ensures var before := ThrowAll(start[i := start[i][k..]], i, start[i][..k], step);
      var yt := step(i, start[i][k]);
      ThrowAll(start[i := start[i][k + 1..]], i, start[i][..k + 1], step)
        == before[i := start[i][k + 1..]][yt.1 := before[yt.1] + [yt.0]]
  {
    ThrowAllFrame(start[i := start[i][k..]], i, start[i][k + 1..], start[i][..k], step);
    assert start[i := start[i][k..]][i := start[i][k + 1..]] == start[i := start[i][k + 1..]];
    assert start[i][..k + 1][..k] == start[i][..k];
  }

  /** Element-wise sum of two count sequences. */
  function AddCounts(a: seq<nat>, b: seq<nat>): (c: seq<nat>)
    requires |a| == |b|
    ensures |c| == |a|
    ensures forall i :: 0 <= i < |a| ==> c[i] == a[i] + b[i]
  {
    seq(|a|, i requires 0 <= i < |a| => a[i] + b[i])
  }

  /** `after` is `before` plus the counts of the turns of monkeys `0..k` in the round starting with `qs`. */
  ghost predicate CountedUpTo<T(!new)>(qs: seq<seq<T>>, k: nat, step: (nat, T) -> (T, nat), before: seq<nat>, after: seq<nat>)
    requires k <= |qs| && AllThrowAway(step, |qs|)
  {
    && |before| == |qs| && |after| == |qs|
    && forall j :: 0 <= j < |qs| ==> after[j] == before[j] + if j < k then |RoundUpTo(qs, j, step)[j]| else 0
  }

  lemma CountedNext<T(!new)>(qs: seq<seq<T>>, k: nat, step: (nat, T) -> (T, nat), before: seq<nat>, after: seq<nat>)
    requires k < |qs| && AllThrowAway(step, |qs|) && CountedUpTo(qs, k, step, before, after)
    ensures CountedUpTo(qs, k + 1, step, before, after[k := after[k] + |RoundUpTo(qs, k, step)[k]|])
  {
  }

  lemma RoundCountsAdded<T(!new)>(qs: seq<seq<T>>, step: (nat, T) -> (T, nat), before: seq<nat>, after: seq<nat>)
    requires AllThrowAway(step, |qs|) && CountedUpTo(qs, |qs|, step, before, after)
    ensures after == AddCounts(before, RoundCounts(qs, step))
  {
    var sum := AddCounts(before, RoundCounts(qs, step));
    forall j | 0 <= j < |qs| ensures after[j] == sum[j] {
    }
  }

  /** Part one's game: the monkeys, the items each holds and the inspection counts. */
  class Game {
    const monkeys: seq<Monkey>
    var items: seq<seq<int>>
    var inspections: seq<nat>

    ghost predicate Valid()
      reads this
    {
      |items| == |monkeys| && |inspections| == |monkeys| && ValidTargets(monkeys)
    }

    constructor(monkeys: seq<Monkey>, items: seq<seq<int>>)
      requires |items| == |monkeys| && ValidTargets(monkeys)
      ensures Valid()
      ensures this.monkeys == monkeys && this.items == items
      ensures inspections == seq(|monkeys|, _ => 0)
    {
      this.monkeys := monkeys;
      this.items := items;
      inspections := seq(|monkeys|, _ => 0);
    }

    /**
     * The body of `performRound` for monkey `i`: it inspects and throws its
     * items front to back until it holds none, counting each inspection.
     */
    method PerformTurn(i: nat)
      requires Valid() && i < |monkeys|
      modifies this
      ensures Valid()
      ensures items == Turn(old(items), i, InspectionFn(monkeys))
      ensures inspections == old(inspections)[i := old(inspections)[i] + |old(items)[i]|]
    {
      InspectionThrowsAway(monkeys);
      ghost var step := InspectionFn(monkeys);
      ghost var start := items;
      ghost var k := 0;
      ThrowAllKeeps(start, i, k, step);
      while |items[i]| > 0
        invariant Valid()
        invariant 0 <= k <= |start[i]|
        invariant items == ThrowAll(start[i := start[i][k..]], i, start[i][..k], step)
        invariant items[i] == start[i][k..]
        invariant inspections == old(inspections)[i := old(inspections)[i] + k]
        decreases |items[i]|
      {
        var item := items[i][0];
        items := items[i := items[i][1..]];
        var monkey := monkeys[i];
        item := Apply(monkey.operation, item);
        item := TruncDiv(item, 3);
        if Holds(monkey.test, item) {
          items := items[monkey.throwToTrue := items[monkey.throwToTrue] + [item]];
        } else {
          items := items[monkey.throwToFalse := items[monkey.throwToFalse] + [item]];
        }
        inspections := inspections[i := inspections[i] + 1];
        ThrowNext(start, i, k, step);
        k := k + 1;
        ThrowAllKeeps(start, i, k, step);
      }
      assert start[i][..k] == start[i];
    }

    /**
     * `performRound`: every monkey in turn inspects and throws the items it
     * holds; its inspection count grows by the number of items it held when
     * its turn began.
     */
    method PerformRound()
      requires Valid()
      modifies this
      ensures Valid()
      ensures items == RoundUpTo(old(items), |monkeys|, InspectionFn(monkeys))
      ensures inspections == AddCounts(old(inspections), RoundCounts(old(items), InspectionFn(monkeys)))
    {
      InspectionThrowsAway(monkeys);
      ghost var step := InspectionFn(monkeys);
      for i := 0 to |monkeys|
        invariant Valid()
        invariant items == RoundUpTo(old(items), i, step)
        invariant CountedUpTo(old(items), i, step, old(inspections), inspections)
      {
        CountedNext(old(items), i, step, old(inspections), inspections);
        PerformTurn(i);
      }
      RoundCountsAdded(old(items), step, old(inspections), inspections);
    }

    /** `monkeyBusiness`: the product of the two largest inspection counts. */
    method MonkeyBusiness() returns (r: Option<int>)
      ensures r == TopTwoProduct(inspections)
    {
      var sorted := Sorting.SortDescending(inspections);
      if |sorted| < 2 {
        return None;
      }
      return Some(sorted[0] * sorted[1]);
    }
  }

  /** The queues and inspection counts after `n` rounds of part one. */
  function PlayRounds(ms: seq<Monkey>, qs: seq<seq<int>>, counts: seq<nat>, n: nat): (r: (seq<seq<int>>, seq<nat>))
    requires |qs| == |ms| && |counts| == |ms| && ValidTargets(ms)
    ensures |r.0| == |ms| && |r.1| == |ms|
    decreases n
  {
    if n == 0 then (qs, counts)
    else
      InspectionThrowsAway(ms);
      var (qs', counts') := PlayRounds(ms, qs, counts, n - 1);
      (RoundUpTo(qs', |ms|, InspectionFn(ms)), AddCounts(counts', RoundCounts(qs', InspectionFn(ms))))
  }

  /** Rounds neither create nor lose items. */
  lemma {:induction false} PlayRoundsConserves(ms: seq<Monkey>, qs: seq<seq<int>>, counts: seq<nat>, n: nat)
    requires |qs| == |ms| && |counts| == |ms| && ValidTargets(ms)
    ensures TotalItems(PlayRounds(ms, qs, counts, n).0) == TotalItems(qs)
    decreases n
  {
    if n > 0 {
      InspectionThrowsAway(ms);
      PlayRoundsConserves(ms, qs, counts, n - 1);
      RoundConserves(PlayRounds(ms, qs, counts, n - 1).0, |ms|, InspectionFn(ms));
    }
  }

  /** Part one: twenty rounds, then the monkey business. */
  method PartOne(monkeys: seq<Monkey>, items: seq<seq<int>>) returns (r: Option<int>)
    requires |items| == |monkeys| && ValidTargets(monkeys)
    ensures r == TopTwoProduct(PlayRounds(monkeys, items, seq(|monkeys|, _ => 0), 20).1)
  {
    var game := new Game(monkeys, items);
    for round := 0 to 20
      invariant game.Valid() && game.monkeys == monkeys
      invariant (game.items, game.inspections) == PlayRounds(monkeys, items, seq(|monkeys|, _ => 0), round)
    {
      game.PerformRound();
    }
    r := game.MonkeyBusiness();
  }

  // ---------------------------------------------------------------------
  // Part two: items that remember their operations.

  /** The global table of operations; an operation's id is its position. */
  class OperationTable {
    var operations: seq<Operation>

    constructor()
      ensures operations == []
    {
      operations := [];
    }

    /** `new NewOperation(...)`: appends the operation and returns its id, its index. */
    method Register(op: Operation) returns (id: nat)
      modifies this
      ensures id == |old(operations)| && operations == old(operations) + [op]
      ensures operations[id] == op
    {
      id := |operations|;
      operations := operations + [op];
    }
  }

  /** The state of an item: its starting worry level and the ids of the operations applied so far. */
  datatype ItemState = ItemState(value: int, operations: seq<nat>)

  const UndefinedOperation := "operation is undefined"
  const MissingOperation := "operation id not found"

  /** The first operation, applied to the remainders of the starting value and of a constant operand. */
  function FirstStep(op: Operation, value: int, m: int): int
    requires m > 0
  {
    var v := JsRem(value, m);
    match op.operand
    case Old => if op.operator.Mul? then v * v else v + v
    case Const(k) => if op.operator.Mul? then v * JsRem(k, m) else v + JsRem(k, m)
  }

  /** Replaying operations `1..n` modulo `m`, starting from `start`; a missing id fails. */
  function Replay(table: seq<Operation>, ops: seq<nat>, n: nat, m: int, start: int): Result<int>
    requires 1 <= n <= |ops| && m > 0
    decreases n
  {
    if n == 1 then Success(start)
    else
      match Replay(table, ops, n - 1, m, start)
      case Failure(e) => Failure(e)
      case Success(r) =>
        if ops[n - 1] >= |table| then Failure(MissingOperation)
        else Success(JsRem(Apply(table[ops[n - 1]], r), m))
  }

  /**
   * `Item.inspect(modulo)`. With no operation recorded, id 0 is read from the
   * zero-filled history.
   */
  function InspectItem(table: seq<Operation>, item: ItemState, m: int): Result<int>
    requires m > 0
  {
    var firstId := if |item.operations| == 0 then 0 else item.operations[0];
    if firstId >= |table| then Failure(UndefinedOperation)
    else
      var start := JsRem(FirstStep(table[firstId], item.value, m), m);
      if |item.operations| == 0 then Success(start) else Replay(table, item.operations, |item.operations|, m, start)
  }

  /** The worry level with every recorded operation applied in order, without any reduction. */
  function Unbounded(table: seq<Operation>, value: int, ops: seq<nat>): int
    requires forall i :: 0 <= i < |ops| ==> ops[i] < |table|
    decreases |ops|
  {
    if ops == [] then value else Apply(table[ops[|ops| - 1]], Unbounded(table, value, ops[..|ops| - 1]))
  }

  /** No operation of the table has a negative constant. */
  predicate NonNegativeOperands(table: seq<Operation>) {
    forall i :: 0 <= i < |table| ==> (table[i].operand.Const? ==> table[i].operand.k >= 0)
  }

  lemma {:induction false} UnboundedNonNegative(table: seq<Operation>, value: int, ops: seq<nat>)
    requires forall i :: 0 <= i < |ops| ==> ops[i] < |table|
    requires value >= 0 && NonNegativeOperands(table)
    ensures Unbounded(table, value, ops) >= 0
    decreases |ops|
  {
    if ops != [] {
      UnboundedNonNegative(table, value, ops[..|ops| - 1]);
    }
  }

  lemma {:induction false} ReplayFailure(table: seq<Operation>, ops: seq<nat>, n: nat, m: int, start: int)
    requires 1 <= n <= |ops| && m > 0
    ensures Replay(table, ops, n, m, start).Success? <==> forall i :: 1 <= i < n ==> ops[i] < |table|
    ensures Replay(table, ops, n, m, start).Failure? ==> Replay(table, ops, n, m, start) == Failure(MissingOperation)
    decreases n
  {
    if n > 1 {
      ReplayFailure(table, ops, n - 1, m, start);
    }
  }

  /** Inspecting fails exactly when some recorded operation id is not in the table. */
  lemma InspectFailsOnMissingId(table: seq<Operation>, item: ItemState, m: int)
    requires m > 0
    ensures InspectItem(table, item, m).Success? <==>
      (if |item.operations| == 0 then 0 < |table| else forall i :: 0 <= i < |item.operations| ==> item.operations[i] < |table|)
  {
    if |item.operations| > 0 && item.operations[0] < |table| {
      var start := JsRem(FirstStep(table[item.operations[0]], item.value, m), m);
      ReplayFailure(table, item.operations, |item.operations|, m, start);
    }
  }

  lemma {:induction false} ReplayCongruent(table: seq<Operation>, value: int, ops: seq<nat>, n: nat, m: int, start: int)
    requires 1 <= n <= |ops| && m > 0
    requires forall i :: 0 <= i < |ops| ==> ops[i] < |table|
    requires value >= 0 && NonNegativeOperands(table)
    requires start == Unbounded(table, value, ops[..1]) % m
    ensures Replay(table, ops, n, m, start) == Success(Unbounded(table, value, ops[..n]) % m)
    decreases n
  {
    if n > 1 {
      ReplayCongruent(table, value, ops, n - 1, m, start);
      var prev := Unbounded(table, value, ops[..n - 1]);
      UnboundedNonNegative(table, value, ops[..n - 1]);
      ReplayStepMod(table[ops[n - 1]], prev, m);
      UnboundedStep(table, value, ops, n);
    }
  }

  /** One replayed operation on a remainder gives the remainder of the operation on the full value. */
  lemma ReplayStepMod(op: Operation, prev: int, m: int)
    requires m > 0 && prev >= 0 && (op.operand.Const? ==> op.operand.k >= 0)
    ensures JsRem(Apply(op, prev % m), m) == Apply(op, prev) % m
  {
    var r := prev % m;
    if op.operator.Mul? {
      MulNonNegative(r, if op.operand.Old? then r else op.operand.k);
    }
    ApplyMod(op, prev, m);
  }

  /** The value after `n` operations is the `n`-th operation applied to the value after `n - 1`. */
  lemma UnboundedStep(table: seq<Operation>, value: int, ops: seq<nat>, n: nat)
    requires 1 <= n <= |ops| && forall i :: 0 <= i < |ops| ==> ops[i] < |table|
    ensures Unbounded(table, value, ops[..n]) == Apply(table[ops[n - 1]], Unbounded(table, value, ops[..n - 1]))
  {
    assert ops[..n][..n - 1] == ops[..n - 1];
  }

  /** The first step computes the first operation's result modulo `m`. */
  lemma FirstStepCongruent(op: Operation, v: int, m: int)
    requires m > 0 && v >= 0 && (op.operand.Const? ==> op.operand.k >= 0)
    ensures FirstStep(op, v, m) >= 0
    ensures FirstStep(op, v, m) % m == Apply(op, v) % m
  {
    var r := v % m;
    assert JsRem(v, m) == r;
    ApplyMod(op, v, m);
    if op.operand.Old? {
      assert FirstStep(op, v, m) == Apply(op, r);
      MulNonNegative(r, r);
    } else {
      var k := op.operand.k;
      var c := k % m;
      assert JsRem(k, m) == c;
      if op.operator.Mul? {
        assert FirstStep(op, v, m) == r * c;
        MulNonNegative(r, c);
        ModMul(k, r, m);
        assert r * c == c * r && r * k == k * r;
      } else {
        assert FirstStep(op, v, m) == r + c;
        ModAdd(k, r, m);
      }
    }
  }

  lemma MulNonNegative(a: int, b: int)
    requires a >= 0 && b >= 0
    ensures a * b >= 0
  {
  }

  /**
   * The congruence the part-two design rests on: for a positive modulus, a
   * non-negative starting value, non-negative constants and at least one
   * recorded operation, `inspect(m)` is the fully applied worry level modulo `m`.
   */
  lemma InspectIsCongruent(table: seq<Operation>, item: ItemState, m: int)
    requires m > 0 && item.value >= 0 && NonNegativeOperands(table)
    requires |item.operations| >= 1
    requires forall i :: 0 <= i < |item.operations| ==> item.operations[i] < |table|
    ensures InspectItem(table, item, m) == Success(Unbounded(table, item.value, item.operations) % m)
  {
    var ops := item.operations;
    var op := table[ops[0]];
    var v := item.value;
    assert ops[..1][..0] == [];
    assert Unbounded(table, v, ops[..1]) == Apply(op, v);
    FirstStepCongruent(op, v, m);
    ReplayCongruent(table, v, ops, |ops|, m, JsRem(FirstStep(op, v, m), m));
    assert ops[..|ops|] == ops;
  }

  /** With non-negative values and constants, a successful inspection lies in `[0, m)`. */
  lemma InspectInRange(table: seq<Operation>, item: ItemState, m: int)
    requires m > 0 && item.value >= 0 && NonNegativeOperands(table)
    requires InspectItem(table, item, m).Success?
    ensures 0 <= InspectItem(table, item, m).value < m
  {
    if |item.operations| == 0 {
      assert FirstStep(table[0], item.value, m) >= 0;
    } else {
      InspectFailsOnMissingId(table, item, m);
      InspectIsCongruent(table, item, m);
    }
  }

  /** An item object of part two. */
  class Item {
    var value: int
    var operations: seq<nat>

    constructor(value: int)
      ensures this.value == value && operations == []
    {
      this.value := value;
      operations := [];
    }

    function State(): ItemState
      reads this
    {
      ItemState(value, operations)
    }

    /** `pushOperation`: records one more operation id after the earlier ones. */
    method PushOperation(operationId: nat)
      modifies this
      ensures operations == old(operations) + [operationId] && value == old(value)
    {
      operations := operations + [operationId];
    }

    /** `inspect(modulo)`: replays the recorded operations modulo `modulo`. */
    method Inspect(table: OperationTable, modulo: int) returns (r: Result<int>)
      requires modulo > 0
      ensures r == InspectItem(table.operations, State(), modulo)
    {
      var firstId := if |operations| == 0 then 0 else operations[0];
      if firstId >= |table.operations| {
        return Failure(UndefinedOperation);
      }
      var op := table.operations[firstId];
      var ret := 0;
      var vm := JsRem(value, modulo);
      match op.operand {
        case Old =>
          if op.operator.Mul? {
            ret := vm * vm;
          } else {
            ret := vm + vm;
          }
        case Const(k) =>
          if op.operator.Mul? {
            ret := vm * JsRem(k, modulo);
          } else {
            ret := vm + JsRem(k, modulo);
          }
      }
      assert ret == FirstStep(op, value, modulo);
      ret := JsRem(ret, modulo);
      ghost var start := ret;
      assert InspectItem(table.operations, State(), modulo)
        == if |operations| == 0 then Success(start) else Replay(table.operations, operations, |operations|, modulo, start);
      var i := 1;
      while i < |operations|
        invariant 1 <= i && (|operations| == 0 || i <= |operations|)
        invariant |operations| > 0 ==> Replay(table.operations, operations, i, modulo, start) == Success(ret)
        invariant |operations| == 0 ==> ret == start
      {
        if operations[i] >= |table.operations| {
          ReplayMissing(table.operations, operations, i + 1, |operations|, modulo, start);
          return Failure(MissingOperation);
        }
        op := table.operations[operations[i]];
        var old_ := ret;
        match op.operand {
          case Old =>
            if op.operator.Mul? {
              ret := old_ * old_;
            } else {
              ret := old_ + old_;
            }
          case Const(k) =>
            if op.operator.Mul? {
              ret := old_ * k;
            } else {
              ret := old_ + k;
            }
        }
        assert ret == Apply(op, old_);
        ret := JsRem(ret, modulo);
        i := i + 1;
      }
      return Success(ret);
    }
  }

  lemma {:induction false} ReplayMissing(table: seq<Operation>, ops: seq<nat>, n: nat, n': nat, m: int, start: int)
    requires 1 <= n <= n' <= |ops| && m > 0
    requires Replay(table, ops, n, m, start) == Failure(MissingOperation)
    ensures Replay(table, ops, n', m, start) == Failure(MissingOperation)
    decreases n' - n
  {
    if n < n' {
      ReplayMissing(table, ops, n, n' - 1, m, start);
    }
  }

  /** A monkey of part two: the id of its operation and its test divisor. */
  datatype NewMonkey = NewMonkey(operationId: nat, test: int, throwToTrue: nat, throwToFalse: nat)

  predicate ValidNewMonkeys(ms: seq<NewMonkey>, table: seq<Operation>) {
    forall i :: 0 <= i < |ms| ==>
      && ms[i].operationId < |table| && ms[i].test > 0
      && ms[i].throwToTrue < |ms| && ms[i].throwToFalse < |ms|
      && ms[i].throwToTrue != i && ms[i].throwToFalse != i
  }

  /**
   * Part two's inspection by monkey `i`: the monkey's operation id is pushed
   * onto the item, and the item goes to `throwToTrue` exactly when the
   * replayed worry level is 0 modulo the monkey's divisor.
   */
  function NewInspection(ms: seq<NewMonkey>, table: seq<Operation>, i: nat, x: ItemState): (ItemState, nat) {
    if i < |ms| && ms[i].test > 0 then
      var y := ItemState(x.value, x.operations + [ms[i].operationId]);
      var r := InspectItem(table, y, ms[i].test);
      (y, if r == Success(0) then ms[i].throwToTrue else ms[i].throwToFalse)
    else (x, 0)
  }

  function NewInspectionFn(ms: seq<NewMonkey>, table: seq<Operation>): (nat, ItemState) -> (ItemState, nat) {
    (i, x) => NewInspection(ms, table, i, x)
  }

  lemma NewInspectionThrowsAway(ms: seq<NewMonkey>, table: seq<Operation>)
    requires ValidNewMonkeys(ms, table)
    ensures AllThrowAway(NewInspectionFn(ms, table), |ms|)
  {
  }

  /** Every operation id recorded on the item is in the table. */
  predicate KnownItem(x: ItemState, table: seq<Operation>) {
    forall k :: 0 <= k < |x.operations| ==> x.operations[k] < |table|
  }

  /** Every operation id recorded on any item is in the table. */
  predicate KnownIds(qs: seq<seq<ItemState>>, table: seq<Operation>) {
    forall i, j :: 0 <= i < |qs| && 0 <= j < |qs[i]| ==> KnownItem(qs[i][j], table)
  }

  lemma KnownIdsTake(qs: seq<seq<ItemState>>, table: seq<Operation>, i: nat)
    requires KnownIds(qs, table) && i < |qs| && |qs[i]| > 0
    ensures KnownItem(qs[i][0], table) && KnownIds(qs[i := qs[i][1..]], table)
  {
    var rest := qs[i := qs[i][1..]];
    forall a, b | 0 <= a < |rest| && 0 <= b < |rest[a]| ensures KnownItem(rest[a][b], table) {
      if a == i {
        assert rest[a][b] == qs[i][b + 1];
      }
    }
  }

  lemma KnownIdsGive(qs: seq<seq<ItemState>>, table: seq<Operation>, t: nat, x: ItemState)
    requires KnownIds(qs, table) && t < |qs| && KnownItem(x, table)
    ensures KnownIds(qs[t := qs[t] + [x]], table)
  {
    var more := qs[t := qs[t] + [x]];
    forall a, b | 0 <= a < |more| && 0 <= b < |more[a]| ensures KnownItem(more[a][b], table) {
      if a == t && b < |qs[t]| {
        assert more[a][b] == qs[t][b];
      }
    }
  }

  /**
   * Part two's game. The source moves `Item` objects between monkeys; each is
   * held by exactly one monkey at a time, so here the game holds their states.
   */
  class NewGame {
    const monkeys: seq<NewMonkey>
    const table: seq<Operation>
    var items: seq<seq<ItemState>>
    var inspections: seq<nat>

    ghost predicate Valid()
      reads this
    {
      |items| == |monkeys| && |inspections| == |monkeys| && ValidNewMonkeys(monkeys, table)
    }

    constructor(monkeys: seq<NewMonkey>, table: seq<Operation>, items: seq<seq<ItemState>>)
      requires |items| == |monkeys| && ValidNewMonkeys(monkeys, table)
      ensures Valid()
      ensures this.monkeys == monkeys && this.table == table && this.items == items
      ensures inspections == seq(|monkeys|, _ => 0)
    {
      this.monkeys := monkeys;
      this.table := table;
      this.items := items;
      inspections := seq(|monkeys|, _ => 0);
    }

    /**
     * The body of part two's `performRound` for monkey `i`: each item gets the
     * monkey's operation recorded and is thrown by the replayed remainder.
     * While every recorded id is in the table, no inspection fails.
     */
    method PerformTurn(i: nat)
      requires Valid() && KnownIds(items, table) && i < |monkeys|
      modifies this
      ensures Valid() && KnownIds(items, table)
      ensures items == Turn(old(items), i, NewInspectionFn(monkeys, table))
      ensures inspections == old(inspections)[i := old(inspections)[i] + |old(items)[i]|]
    {
      NewInspectionThrowsAway(monkeys, table);
      ghost var step := NewInspectionFn(monkeys, table);
      ghost var start := items;
      ghost var k := 0;
      ThrowAllKeeps(start, i, k, step);
      while |items[i]| > 0
        invariant Valid()
        invariant 0 <= k <= |start[i]|
        invariant items == ThrowAll(start[i := start[i][k..]], i, start[i][..k], step)
        invariant items[i] == start[i][k..]
        invariant KnownIds(items, table)
        invariant inspections == old(inspections)[i := old(inspections)[i] + k]
        decreases |items[i]|
      {
        KnownIdsTake(items, table, i);
        var item := items[i][0];
        items := items[i := items[i][1..]];
        var monkey := monkeys[i];
        item := ItemState(item.value, item.operations + [monkey.operationId]);
        KnownIdsGive(items, table, if InspectItem(table, item, monkey.test) == Success(0) then monkey.throwToTrue else monkey.throwToFalse, item);
        InspectFailsOnMissingId(table, item, monkey.test);
        var result := InspectItem(table, item, monkey.test);
        var throwTo := if result.value == 0 then monkey.throwToTrue else monkey.throwToFalse;
        items := items[throwTo := items[throwTo] + [item]];
        inspections := inspections[i := inspections[i] + 1];
        ThrowNext(start, i, k, step);
        k := k + 1;
        ThrowAllKeeps(start, i, k, step);
      }
      assert start[i][..k] == start[i];
    }

    /** `performRound` of part two: every monkey takes its turn in order. */
    method PerformRound()
      requires Valid() && KnownIds(items, table)
      modifies this
      ensures Valid() && KnownIds(items, table)
      ensures items == RoundUpTo(old(items), |monkeys|, NewInspectionFn(monkeys, table))
      ensures inspections == AddCounts(old(inspections), RoundCounts(old(items), NewInspectionFn(monkeys, table)))
    {
      NewInspectionThrowsAway(monkeys, table);
      ghost var step := NewInspectionFn(monkeys, table);
      for i := 0 to |monkeys|
        invariant Valid() && KnownIds(items, table)
        invariant items == RoundUpTo(old(items), i, step)
        invariant CountedUpTo(old(items), i, step, old(inspections), inspections)
      {
        CountedNext(old(items), i, step, old(inspections), inspections);
        PerformTurn(i);
      }
      RoundCountsAdded(old(items), step, old(inspections), inspections);
    }

    method MonkeyBusiness() returns (r: Option<int>)
      ensures r == TopTwoProduct(inspections)
    {
      var sorted := Sorting.SortDescending(inspections);
      if |sorted| < 2 {
        return None;
      }
      return Some(sorted[0] * sorted[1]);
    }
  }

  /** A monkey as read from the input of part two: its operation, divisor and targets. */
  datatype MonkeySpec = MonkeySpec(operation: Operation, test: int, throwToTrue: nat, throwToFalse: nat)

  /** The operation table after registering every monkey's operation in input order. */
  function TableOf(specs: seq<MonkeySpec>): (t: seq<Operation>)
    ensures |t| == |specs| && forall i :: 0 <= i < |specs| ==> t[i] == specs[i].operation
  {
    seq(|specs|, i requires 0 <= i < |specs| => specs[i].operation)
  }

  /** Monkey `i` of part two refers to its operation by id `i`. */
  function MonkeysOf(specs: seq<MonkeySpec>): (ms: seq<NewMonkey>)
    ensures |ms| == |specs|
    ensures forall i :: 0 <= i < |specs| ==>
      ms[i] == NewMonkey(i, specs[i].test, specs[i].throwToTrue, specs[i].throwToFalse)
  {
    seq(|specs|, i requires 0 <= i < |specs| => NewMonkey(i, specs[i].test, specs[i].throwToTrue, specs[i].throwToFalse))
  }

  /** The starting items of part two, with no operation recorded. */
  function FreshItems(values: seq<seq<int>>): (qs: seq<seq<ItemState>>)
    ensures |qs| == |values|
    ensures forall i :: 0 <= i < |values| ==> |qs[i]| == |values[i]|
    ensures forall i, j :: 0 <= i < |values| && 0 <= j < |values[i]| ==> qs[i][j] == ItemState(values[i][j], [])
  {
    seq(|values|, i requires 0 <= i < |values| => seq(|values[i]|, j requires 0 <= j < |values[i]| => ItemState(values[i][j], [])))
  }

  /**
   * Registers each monkey's operation in a fresh table, in input order, so
   * that monkey `i`'s operation gets id `i`.
   */
  method RegisterOperations(specs: seq<MonkeySpec>) returns (table: OperationTable, monkeys: seq<NewMonkey>)
    ensures fresh(table)
    ensures table.operations == TableOf(specs) && monkeys == MonkeysOf(specs)
  {
    table := new OperationTable();
    monkeys := [];
    for i := 0 to |specs|
      invariant table.operations == TableOf(specs[..i])
      invariant monkeys == MonkeysOf(specs[..i])
    {
      var id := table.Register(specs[i].operation);
      monkeys := monkeys + [NewMonkey(id, specs[i].test, specs[i].throwToTrue, specs[i].throwToFalse)];
    }
    assert specs[..|specs|] == specs;
  }

  /** The queues and inspection counts after `n` rounds of part two. */
  function PlayNewRounds(ms: seq<NewMonkey>, table: seq<Operation>, qs: seq<seq<ItemState>>, counts: seq<nat>, n: nat)
    : (r: (seq<seq<ItemState>>, seq<nat>))
    requires |qs| == |ms| && |counts| == |ms| && ValidNewMonkeys(ms, table)
    ensures |r.0| == |ms| && |r.1| == |ms|
    decreases n
  {
    if n == 0 then (qs, counts)
    else
      NewInspectionThrowsAway(ms, table);
      var (qs', counts') := PlayNewRounds(ms, table, qs, counts, n - 1);
      (RoundUpTo(qs', |ms|, NewInspectionFn(ms, table)), AddCounts(counts', RoundCounts(qs', NewInspectionFn(ms, table))))
  }

  /** Monkey `i` of part two can only throw to another monkey. */
  predicate ValidSpecs(specs: seq<MonkeySpec>) {
    forall i :: 0 <= i < |specs| ==>
      && specs[i].test > 0
      && specs[i].throwToTrue < |specs| && specs[i].throwToFalse < |specs|
      && specs[i].throwToTrue != i && specs[i].throwToFalse != i
  }

  /**
   * Part two: the operations are registered, every item starts with no
   * recorded operation, and 10000 rounds are played.
   */
  method PartTwo(specs: seq<MonkeySpec>, values: seq<seq<int>>) returns (r: Option<int>)
    requires |values| == |specs| && ValidSpecs(specs)
    ensures ValidNewMonkeys(MonkeysOf(specs), TableOf(specs))
    ensures r == TopTwoProduct(PlayNewRounds(MonkeysOf(specs), TableOf(specs), FreshItems(values), seq(|specs|, _ => 0), 10000).1)
  {
    var table, monkeys := RegisterOperations(specs);
    var qs := FreshItems(values);
    var game := new NewGame(monkeys, table.operations, qs);
    for round := 0 to 10000
      invariant game.Valid() && game.monkeys == monkeys && game.table == table.operations
      invariant KnownIds(game.items, game.table)
      invariant (game.items, game.inspections) == PlayNewRounds(monkeys, table.operations, qs, seq(|specs|, _ => 0), round)
    {
      game.PerformRound();
    }
    r := game.MonkeyBusiness();
  }
}
