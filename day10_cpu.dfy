/**
 * Day 10: a CPU with one register `x` that schedules each instruction by the
 * clock cycle it completes on, and a 40x6 CRT that lights a pixel when the
 * sprite at `x` covers the column being drawn.
 *
 * The callback passed to `run` is modelled by its arguments: `Run` returns the
 * sequence of `(clock, x)` pairs the callback would receive, and the parts
 * fold over that sequence the way their callbacks do.
 */
module Cpu {
  import opened Wrappers
  import Text

  /** An instruction: its name, its already parsed operand and the cycles it takes. */
  datatype Instruction = Instruction(name: string, operand: int, cycles: nat)

  /** The number of cycles of each known instruction. */
  const InstructionLengths: map<string, nat> := map["addx" := 2, "noop" := 1]

  /** The `Instruction` constructor: an unknown name fails. */
  function NewInstruction(name: string, operand: int): (r: Result<Instruction>)
    ensures r.Success? <==> name == "addx" || name == "noop"
    ensures r.Success? ==> r.value.name == name && r.value.operand == operand
    ensures r.Success? && name == "addx" ==> r.value.cycles == 2
    ensures r.Success? && name == "noop" ==> r.value.cycles == 1
  {
    if name in InstructionLengths then Success(Instruction(name, operand, InstructionLengths[name]))
    else Failure("unknown command: " + name)
  }

  /**
   * One input line: the instruction's name, then its parameters, separated by
   * spaces. An unknown name fails as the constructor does; an `addx` whose
   * first parameter has no number fails too (its operand would be NaN). The
   * operand is read by `parseInt` without a radix, so `0x5` is 5.
   */
  function ParseLine(line: string): (r: Result<Instruction>)
    ensures var parts := Text.Split(line, ' ');
      r.Success? <==> parts[0] == "noop" || (parts[0] == "addx" && |parts| >= 2 && Text.ParseIntAuto(parts[1]).Some?)
    ensures r.Success? ==> Known(r.value) && r.value.name == Text.Split(line, ' ')[0]
    ensures r.Success? && r.value.name == "addx" ==> r.value.operand == Text.ParseIntAuto(Text.Split(line, ' ')[1]).value
  {
    var parts := Text.Split(line, ' ');
    var name := parts[0];
    if name !in InstructionLengths then NewInstruction(name, 0)
    else if name == "noop" then NewInstruction(name, 0)
    else if |parts| < 2 then Failure("NaN operand")
    else match Text.ParseIntAuto(parts[1])
      case None => Failure("NaN operand")
      case Some(v) => NewInstruction(name, v)
  }

  /** `toString`: the name, a space, then the parameters separated by spaces (none for `noop`). */
  function FormatInstruction(ins: Instruction): string {
    ins.name + " " + (if ins.name == "addx" then Text.IntToString(ins.operand) else "")
  }

  /** Printing an instruction and reading the line back gives the instruction. */
  lemma ParseFormatInstruction(ins: Instruction)
    requires Known(ins) && (ins.name == "noop" ==> ins.operand == 0)
    ensures ParseLine(FormatInstruction(ins)) == Success(ins)
  {
    var operand := if ins.name == "addx" then Text.IntToString(ins.operand) else "";
    assert ' ' !in ins.name;
    assert ' ' !in operand;
    assert FormatInstruction(ins) == Text.Join([ins.name, operand], ' ');
    Text.SplitJoin([ins.name, operand], ' ');
    if ins.name == "addx" {
      Text.ParseIntAutoIntToString(ins.operand);
    }
  }

  /** An `addx` operand after `0x` is hexadecimal: "addx 0x5" adds 5. */
  lemma ParseLineHex()
    ensures ParseLine("addx 0x5").Success? && ParseLine("addx 0x5").value.operand == 5
  {
    assert "addx 0x5" == "addx" + [' '] + "0x5";
    Text.SplitCons("addx", ' ', "0x5");
    assert ' ' !in "0x5";
    assert Text.Split("addx 0x5", ' ') == ["addx", "0x5"];
    HexFive();
  }

  lemma HexFive()
    ensures Text.ParseIntAuto("0x5") == Some(5)
  {
    assert "0x5" == ['0', 'x'] + "5";
    Text.ParseIntAutoHex('x', "5");
    assert "5"[..0] == [];
  }

  /** The input's non-empty lines, parsed in order; the first bad line fails the whole input. */
  function ParseProgram(lines: seq<string>): (r: Result<seq<Instruction>>)
    ensures r.Success? <==> forall i :: 0 <= i < |lines| && lines[i] != "" ==> ParseLine(lines[i]).Success?
    ensures r.Success? ==> forall i :: 0 <= i < |r.value| ==> Known(r.value[i])
    ensures r.Success? ==> |r.value| <= |lines|
  {
    if lines == [] then Success([])
    else if lines[0] == "" then ParseProgram(lines[1..])
    else match ParseLine(lines[0])
      case Failure(e) => Failure(e)
      case Success(ins) =>
        match ParseProgram(lines[1..])
          case Failure(e) => Failure(e)
          case Success(rest) => Success([ins] + rest)
  }

  /** Every instruction built by the constructor takes one or two cycles. */
  predicate Known(ins: Instruction) {
    ins.name in InstructionLengths && ins.cycles == InstructionLengths[ins.name]
  }

  /** The effect of a completing instruction on `x`: `addx` adds its operand, anything else keeps it. */
  function Effect(ins: Instruction, x: int): int {
    if ins.name == "addx" then x + ins.operand else x
  }

  /** The effect of completing the instructions of `due` in order. */
  function Execute(due: seq<Instruction>, x: int): int
    decreases |due|
  {
    if due == [] then x else Effect(due[|due| - 1], Execute(due[..|due| - 1], x))
  }

  /** A schedule the CPU can run to the end: nothing is due before `clock` and no entry is empty. */
  predicate Runnable(schedule: map<int, seq<Instruction>>, clock: int) {
    forall k :: k in schedule ==> k >= clock && |schedule[k]| > 0
  }

  /** A cycle a non-empty schedule has instructions for, the same one for the same schedule. */
  ghost function SomeKey(schedule: map<int, seq<Instruction>>): (k: int)
    requires schedule != map[]
    ensures k in schedule
  {
    HasKey(schedule);
    var k :| k in schedule;
    k
  }

  lemma HasKey(schedule: map<int, seq<Instruction>>)
    requires schedule != map[]
    ensures exists k :: k in schedule
  {
    if forall k :: k !in schedule {
      assert false;
    }
  }

  /** `tick` as a function on the schedule, the clock and `x`. */
  function TickSpec(schedule: map<int, seq<Instruction>>, clock: int, x: int): (map<int, seq<Instruction>>, int, int) {
    if clock in schedule && |schedule[clock]| > 0 then (schedule - {clock}, clock + 1, Execute(schedule[clock], x))
    else (schedule, clock + 1, x)
  }

  /** A tick of a runnable, non-empty schedule keeps it runnable, makes progress, and begins the run. */
  lemma TickProgress(schedule: map<int, seq<Instruction>>, clock: int, x: int)
    requires Runnable(schedule, clock) && schedule != map[]
    ensures var next := TickSpec(schedule, clock, x);
      && Runnable(next.0, next.1) && next.1 == clock + 1
      && (clock in schedule ==> |next.0.Keys| < |schedule.Keys|)
      && (clock !in schedule ==> next.0 == schedule && SomeKey(schedule) > clock)
      && var rest := RunSpec(next.0, next.1, next.2);
        RunSpec(schedule, clock, x) == ([(next.1, next.2)] + rest.0, rest.1, rest.2)
  {
    if clock in schedule {
      assert schedule.Keys - {clock} < schedule.Keys;
      assert (schedule - {clock}).Keys == schedule.Keys - {clock};
    }
  }

  /**
   * `run` as a function: the callback arguments of every tick until the
   * schedule is empty, then the final clock and `x`.
   */
  ghost function RunSpec(schedule: map<int, seq<Instruction>>, clock: int, x: int): (r: (seq<(int, int)>, int, int))
    requires Runnable(schedule, clock)
    ensures r.1 == clock + |r.0|
    decreases |schedule.Keys|, if schedule == map[] then 0 else SomeKey(schedule) - clock
  {
    if schedule == map[] then ([], clock, x)
    else
      var next := TickSpec(schedule, clock, x);
      assert clock !in schedule ==> next.0 == schedule;
      var rest := RunSpec(next.0, next.1, next.2);
      ([(next.1, next.2)] + rest.0, rest.1, rest.2)
  }

  /** The CPU: its clock, the schedule of instructions by completion cycle and the register `x`. */
  class CPU {
    var clock: int
    var instructions: map<int, seq<Instruction>>
    var x: int

    ghost predicate Valid()
      reads this
    {
      Runnable(instructions, clock)
    }

    constructor(x: int)
      ensures Valid()
      ensures clock == 1 && instructions == map[] && this.x == x
    {
      clock := 1;
      instructions := map[];
      this.x := x;
    }

    /**
     * `addInstruction`: files the instruction under the cycle it completes
     * on, `clock + cycles - 1`, after any already due then.
     */
    method AddInstruction(instruction: Instruction)
      requires Valid() && instruction.cycles >= 1
      modifies this
      ensures Valid() && clock == old(clock) && x == old(x)
      ensures var due := clock + instruction.cycles - 1;
        instructions == old(instructions)[due := (if due in old(instructions) then old(instructions)[due] else []) + [instruction]]
    {
      var due := clock + instruction.cycles - 1;
      if due in instructions {
        instructions := instructions[due := instructions[due] + [instruction]];
      } else {
        assert [] + [instruction] == [instruction];
        instructions := instructions[due := [instruction]];
      }
    }

    /**
     * `tick`: completes the instructions due now, removes their entry and
     * advances the clock; returns the callback's arguments.
     */
    method Tick() returns (c: int, xv: int)
      requires Valid()
      modifies this
      ensures Valid()
      ensures (instructions, clock, x) == TickSpec(old(instructions), old(clock), old(x))
      ensures c == clock && xv == x
    {
      if clock in instructions {
        var due := instructions[clock];
        assert |due| > 0;
        for i := 0 to |due|
          invariant clock == old(clock)
          invariant x == Execute(due[..i], old(x))
          invariant i == 0 ==> instructions == old(instructions)
          invariant i > 0 ==> instructions == old(instructions) - {clock}
        {
          var instruction := due[i];
          if instruction.name == "addx" {
            x := x + instruction.operand;
          }
          instructions := instructions - {clock};
          assert due[..i + 1][..i] == due[..i];
          assert Execute(due[..i + 1], old(x)) == Effect(due[i], Execute(due[..i], old(x)));
        }
        assert due[..|due|] == due;
        assert instructions == old(instructions) - {old(clock)};
      }
      clock := clock + 1;
      return clock, x;
    }

    /** `run`: ticks until the schedule is empty; returns every tick's callback arguments. */
    method Run() returns (trace: seq<(int, int)>)
      requires Valid()
      modifies this
      ensures Valid() && instructions == map[]
      ensures (trace, clock, x) == RunSpec(old(instructions), old(clock), old(x))
    {
      trace := [];
      assert [] + RunSpec(instructions, clock, x).0 == RunSpec(instructions, clock, x).0;
      while |instructions| > 0
        invariant Valid()
        invariant RunSpec(old(instructions), old(clock), old(x)).0 == trace + RunSpec(instructions, clock, x).0
        invariant RunSpec(old(instructions), old(clock), old(x)).1 == RunSpec(instructions, clock, x).1
        invariant RunSpec(old(instructions), old(clock), old(x)).2 == RunSpec(instructions, clock, x).2
        decreases |instructions.Keys|, if instructions == map[] then 0 else SomeKey(instructions) - clock
      {
        assert instructions != map[];
        TickProgress(instructions, clock, x);
        ghost var rest := RunSpec(TickSpec(instructions, clock, x).0, clock + 1, TickSpec(instructions, clock, x).2);
        var c, xv := Tick();
        assert trace + ([(c, xv)] + rest.0) == (trace + [(c, xv)]) + rest.0;
        trace := trace + [(c, xv)];
      }
      assert instructions == map[];
      assert trace + [] == trace;
    }
  }

  /** The callback arguments of one instruction run alone from `clock`: one per cycle, `x` changing on the last. */
  function InstructionTrace(ins: Instruction, clock: int, x: int): (t: seq<(int, int)>)
    ensures |t| == ins.cycles
  {
    seq(ins.cycles, i requires 0 <= i < ins.cycles => (clock + 1 + i, if i == ins.cycles - 1 then Effect(ins, x) else x))
  }

  /** Running an empty schedule ticks no more. */
  lemma RunEmpty(clock: int, x: int)
    ensures RunSpec(map[], clock, x) == ([], clock, x)
  {
  }

  /** The tick on the cycle an instruction is due runs it and empties a schedule holding only it. */
  lemma TickDue(ins: Instruction, clock: int, x: int)
    ensures TickSpec(map[clock := [ins]], clock, x) == (map[], clock + 1, Effect(ins, x))
  {
    assert [ins][..0] == [];
    assert Execute([ins], x) == Effect(ins, x);
    assert clock in map[clock := [ins]];
    assert map[clock := [ins]] - {clock} == map[];
  }

  /** A one-cycle instruction completes on the first tick. */
  lemma RunOneCycle(ins: Instruction, clock: int, x: int)
    requires ins.cycles == 1
    ensures RunSpec(map[clock := [ins]], clock, x) == ([(clock + 1, Effect(ins, x))], clock + 1, Effect(ins, x))
  {
    var s := map[clock := [ins]];
    assert clock in s;
    TickProgress(s, clock, x);
    TickDue(ins, clock, x);
    RunEmpty(clock + 1, Effect(ins, x));
    assert [(clock + 1, Effect(ins, x))] + [] == [(clock + 1, Effect(ins, x))];
  }

  /** A two-cycle instruction waits one tick and completes on the second. */
  lemma RunTwoCycles(ins: Instruction, clock: int, x: int)
    requires ins.cycles == 2
    ensures RunSpec(map[clock + 1 := [ins]], clock, x) ==
      ([(clock + 1, x), (clock + 2, Effect(ins, x))], clock + 2, Effect(ins, x))
  {
    var s := map[clock + 1 := [ins]];
    assert clock + 1 in s;
    TickProgress(s, clock, x);
    assert TickSpec(s, clock, x) == (s, clock + 1, x);
    TickProgress(s, clock + 1, x);
    TickDue(ins, clock + 1, x);
    RunEmpty(clock + 2, Effect(ins, x));
    var last := [(clock + 2, Effect(ins, x))];
    assert last + [] == last;
    assert RunSpec(s, clock + 1, x) == (last, clock + 2, Effect(ins, x));
    assert [(clock + 1, x)] + last == [(clock + 1, x), (clock + 2, Effect(ins, x))];
  }

  /** A known instruction added to an empty schedule runs for its cycles and then only changes `x` by its effect. */
  lemma RunOne(ins: Instruction, clock: int, x: int)
    requires Known(ins)
    ensures var due := clock + ins.cycles - 1;
      Runnable(map[due := [ins]], clock)
      && RunSpec(map[due := [ins]], clock, x) == (InstructionTrace(ins, clock, x), clock + ins.cycles, Effect(ins, x))
  {
    var t := InstructionTrace(ins, clock, x);
    if ins.cycles == 1 {
      RunOneCycle(ins, clock, x);
      assert t == [(clock + 1, Effect(ins, x))];
    } else {
      RunTwoCycles(ins, clock, x);
      assert t == [(clock + 1, x), (clock + 2, Effect(ins, x))];
    }
  }

  /** The callback arguments of a whole program run one instruction at a time from clock 1 and `x` = 1, then the final clock and `x`. */
  function ProgramRun(program: seq<Instruction>): (r: (seq<(int, int)>, int, int))
    ensures r.1 == 1 + |r.0|
    decreases |program|
  {
    if program == [] then ([], 1, 1)
    else
      var (t, c, x) := ProgramRun(program[..|program| - 1]);
      var ins := program[|program| - 1];
      (t + InstructionTrace(ins, c, x), c + ins.cycles, Effect(ins, x))
  }

  lemma ProgramRunStep(program: seq<Instruction>, i: nat)
    requires i < |program|
    ensures var prev := ProgramRun(program[..i]);
      ProgramRun(program[..i + 1]) == (prev.0 + InstructionTrace(program[i], prev.1, prev.2), prev.1 + program[i].cycles, Effect(program[i], prev.2))
  {
    assert program[..i + 1][..i] == program[..i];
  }

  /** What both parts do with each line: add its instruction to an idle CPU and run until the schedule is empty. */
  method RunInstruction(cpu: CPU, instruction: Instruction) returns (trace: seq<(int, int)>)
    requires cpu.Valid() && cpu.instructions == map[] && Known(instruction)
    modifies cpu
    ensures cpu.Valid() && cpu.instructions == map[]
    ensures trace == InstructionTrace(instruction, old(cpu.clock), old(cpu.x))
    ensures cpu.clock == old(cpu.clock) + instruction.cycles && cpu.x == Effect(instruction, old(cpu.x))
  {
    RunOne(instruction, cpu.clock, cpu.x);
    cpu.AddInstruction(instruction);
    assert [] + [instruction] == [instruction];
    assert cpu.instructions == map[cpu.clock + instruction.cycles - 1 := [instruction]];
    trace := cpu.Run();
  }

  /** The callbacks see the clocks 2, 3, 4, ... in order, one per cycle. */
  lemma {:induction false} ProgramRunClocks(program: seq<Instruction>)
    ensures forall i :: 0 <= i < |ProgramRun(program).0| ==> ProgramRun(program).0[i].0 == i + 2
    decreases |program|
  {
    if program != [] {
      ProgramRunClocks(program[..|program| - 1]);
    }
  }

  /** Whether part one samples the signal at `clock`: cycles 20, 60, 100, 140, 180 and 220. */
  predicate Sampled(clock: int) {
    (clock + 20) % 40 == 0 && clock > 0 && clock < 240
  }

  lemma SampledCycles(clock: int)
    ensures Sampled(clock) <==> clock in {20, 60, 100, 140, 180, 220}
  {
  }

  /** The sum of `clock * x` over the sampled callbacks. */
  function SignalSum(trace: seq<(int, int)>): int
    decreases |trace|
  {
    if trace == [] then 0 else SignalSum(trace[..|trace| - 1]) + Signal(trace[|trace| - 1])
  }

  /** The signal strength a callback adds: `clock * x` on a sampled clock, nothing otherwise. */
  function Signal(sample: (int, int)): int {
    if Sampled(sample.0) then sample.0 * sample.1 else 0
  }

  /** Part one's callback, applied to every tick of one `run`. */
  method SampleSignals(trace: seq<(int, int)>) returns (sum: int)
    ensures sum == SignalSum(trace)
  {
    sum := 0;
    for k := 0 to |trace|
      invariant sum == SignalSum(trace[..k])
    {
      var (clock, x) := trace[k];
      assert trace[..k + 1][..k] == trace[..k];
      if (clock + 20) % 40 == 0 && clock > 0 && clock < 240 {
        sum := sum + clock * x;
      }
    }
    assert trace[..|trace|] == trace;
  }

  lemma {:induction false} SignalSumAppend(a: seq<(int, int)>, b: seq<(int, int)>)
    ensures SignalSum(a + b) == SignalSum(a) + SignalSum(b)
    decreases |b|
  {
    if b != [] {
      assert (a + b)[..|a + b| - 1] == a + b[..|b| - 1];
      assert (a + b)[|a + b| - 1] == b[|b| - 1];
      SignalSumAppend(a, b[..|b| - 1]);
    } else {
      assert a + b == a;
    }
  }

  /** Part one: each instruction is added and run alone; the callback adds the sampled signal strengths. */
  method PartOne(program: seq<Instruction>) returns (signalStrengthSum: int)
    requires forall i :: 0 <= i < |program| ==> Known(program[i])
    ensures signalStrengthSum == SignalSum(ProgramRun(program).0)
  {
    var cpu := new CPU(1);
    signalStrengthSum := 0;
    for i := 0 to |program|
      invariant cpu.Valid() && cpu.instructions == map[]
      invariant cpu.clock == ProgramRun(program[..i]).1 && cpu.x == ProgramRun(program[..i]).2
      invariant signalStrengthSum == SignalSum(ProgramRun(program[..i]).0)
    {
      ghost var prev := ProgramRun(program[..i]);
      ProgramRunStep(program, i);
      var trace := RunInstruction(cpu, program[i]);
      var added := SampleSignals(trace);
      SignalSumAppend(prev.0, trace);
      signalStrengthSum := signalStrengthSum + added;
    }
    assert program[..|program|] == program;
  }

  // ---------------------------------------------------------------------
  // The CRT.

  /** The pixel at `position` for a sprite centred at `sprite`: lit when the sprite covers its column. */
  function Pixel(position: nat, sprite: int): string {
    if position % 40 >= sprite - 1 && position % 40 <= sprite + 1 then "#" else "."
  }

  lemma PixelLit(position: nat, sprite: int)
    ensures Pixel(position, sprite) == "#" <==> -1 <= position % 40 - sprite <= 1
    ensures Pixel(position, sprite) == "." <==> !(-1 <= position % 40 - sprite <= 1)
  {
  }

  /** `draw` as a function on the pixels: only position `clock - 1` changes, and only within the screen. */
  function DrawSpec(pixels: seq<string>, clock: int, sprite: int): (r: seq<string>)
    ensures |r| == |pixels|
  {
    var position := clock - 1;
    if position < 0 || position >= 240 || position >= |pixels| then pixels
    else pixels[position := Pixel(position, sprite)]
  }

  /** The pixels after drawing each `(clock, sprite)` in order. */
  function DrawAll(pixels: seq<string>, draws: seq<(int, int)>): (r: seq<string>)
    ensures |r| == |pixels|
    decreases |draws|
  {
    if draws == [] then pixels
    else DrawSpec(DrawAll(pixels, draws[..|draws| - 1]), draws[|draws| - 1].0, draws[|draws| - 1].1)
  }

  /** The characters of a sequence of strings, in order. */
  function Concat(parts: seq<string>): string
    decreases |parts|
  {
    if parts == [] then "" else Concat(parts[..|parts| - 1]) + parts[|parts| - 1]
  }

  /** `toString`: the first 6 rows of 40 pixels, each followed by a newline. */
  function Screen(pixels: seq<string>): string
    requires |pixels| == 240
  {
    ScreenRows(pixels, 6)
  }

  function ScreenRows(pixels: seq<string>, rows: nat): string
    requires rows <= 6 && |pixels| == 240
  {
    if rows == 0 then "" else ScreenRows(pixels, rows - 1) + Concat(pixels[(rows - 1) * 40..rows * 40]) + "\n"
  }

  /** When every pixel is one character, the screen is 6 lines of 40 characters each ending in a newline. */
  lemma {:induction false} ScreenLayout(pixels: seq<string>, rows: nat)
    requires rows <= 6 && |pixels| == 240
    requires forall i :: 0 <= i < 240 ==> |pixels[i]| == 1
    ensures |ScreenRows(pixels, rows)| == 41 * rows
    ensures forall i :: 0 <= i < 41 * rows ==>
      ScreenRows(pixels, rows)[i] == if i % 41 == 40 then '\n' else pixels[40 * (i / 41) + i % 41][0]
  {
    if rows > 0 {
      ScreenLayout(pixels, rows - 1);
      var row := pixels[(rows - 1) * 40..rows * 40];
      ConcatSingles(row);
      var s := ScreenRows(pixels, rows);
      var prev := ScreenRows(pixels, rows - 1);
      assert s == prev + Concat(row) + "\n";
      forall i | 41 * (rows - 1) <= i < 41 * rows
        ensures s[i] == if i % 41 == 40 then '\n' else pixels[40 * (i / 41) + i % 41][0]
      {
        var j := i - 41 * (rows - 1);
        assert i / 41 == rows - 1 && i % 41 == j;
        if j < 40 {
          assert s[i] == Concat(row)[j] == row[j][0];
        }
      }
    }
  }

  lemma {:induction false} ConcatSingles(parts: seq<string>)
    requires forall i :: 0 <= i < |parts| ==> |parts[i]| == 1
    ensures |Concat(parts)| == |parts|
    ensures forall i :: 0 <= i < |parts| ==> Concat(parts)[i] == parts[i][0]
    decreases |parts|
  {
    if parts != [] {
      ConcatSingles(parts[..|parts| - 1]);
    }
  }

  /** The CRT: 240 pixels, each the empty string until drawn. */
  class CRT {
    const pixels: array<string>

    constructor()
      ensures fresh(pixels) && pixels.Length == 240
      ensures forall i :: 0 <= i < 240 ==> pixels[i] == ""
    {
      pixels := new string[240](_ => "");
    }

    /** `draw`: sets pixel `clock - 1` to lit or dark; positions off the screen are left alone. */
    method Draw(clock: int, sprite: int)
      requires pixels.Length == 240
      modifies pixels
      ensures pixels[..] == DrawSpec(old(pixels[..]), clock, sprite)
    {
      var pixelPosition := clock - 1;
      if pixelPosition < 0 || pixelPosition >= 240 {
        return;
      }
      if pixelPosition % 40 >= sprite - 1 && pixelPosition % 40 <= sprite + 1 {
        pixels[pixelPosition] := "#";
      } else {
        pixels[pixelPosition] := ".";
      }
    }

    /** Part two's callback, applied to every tick of one `run`. */
    method DrawTrace(trace: seq<(int, int)>)
      requires pixels.Length == 240
      modifies pixels
      ensures pixels[..] == DrawAll(old(pixels[..]), trace)
    {
      for k := 0 to |trace|
        invariant pixels[..] == DrawAll(old(pixels[..]), trace[..k])
      {
        var (clock, x) := trace[k];
        assert trace[..k + 1][..k] == trace[..k];
        Draw(clock, x);
      }
      assert trace[..|trace|] == trace;
    }

    /** `toString`: the six rows of forty pixels, each followed by a newline. */
    method ToString() returns (result: string)
      requires pixels.Length == 240
      ensures result == Screen(pixels[..])
    {
      result := "";
      for i := 0 to 6
        invariant result == ScreenRows(pixels[..], i)
      {
        var row := "";
        for j := i * 40 to (i + 1) * 40
          invariant row == Concat(pixels[i * 40..j])
        {
          assert pixels[i * 40..j + 1] == pixels[i * 40..j] + [pixels[j]];
          row := row + pixels[j];
        }
        assert pixels[i * 40..(i + 1) * 40] == pixels[..][i * 40..(i + 1) * 40];
        result := result + row + "\n";
      }
    }
  }

  lemma {:induction false} DrawAllAppend(pixels: seq<string>, a: seq<(int, int)>, b: seq<(int, int)>)
    ensures DrawAll(pixels, a + b) == DrawAll(DrawAll(pixels, a), b)
    decreases |b|
  {
    if b != [] {
      assert (a + b)[..|a + b| - 1] == a + b[..|b| - 1];
      assert (a + b)[|a + b| - 1] == b[|b| - 1];
      DrawAllAppend(pixels, a, b[..|b| - 1]);
    } else {
      assert a + b == a;
    }
  }

  /** Drawing one pixel per clock 1, 2, 3, ... sets each drawn position from its own draw. */
  lemma {:induction false} DrawAllInOrder(pixels: seq<string>, draws: seq<(int, int)>)
    requires |pixels| == 240
    requires forall i :: 0 <= i < |draws| ==> draws[i].0 == i + 1
    ensures forall p :: 0 <= p < 240 ==>
      DrawAll(pixels, draws)[p] == if p < |draws| then Pixel(p, draws[p].1) else pixels[p]
    decreases |draws|
  {
    if draws != [] {
      DrawAllInOrder(pixels, draws[..|draws| - 1]);
    }
  }

  /** The screen after one more instruction is the screen before it with that instruction's cycles drawn. */
  lemma ScreenStep(program: seq<Instruction>, i: nat, blank: seq<string>)
    requires i < |program|
    ensures var prev := ProgramRun(program[..i]);
      DrawAll(blank, [(1, 1)] + ProgramRun(program[..i + 1]).0) ==
        DrawAll(DrawAll(blank, [(1, 1)] + prev.0), InstructionTrace(program[i], prev.1, prev.2))
  {
    var prev := ProgramRun(program[..i]);
    var trace := InstructionTrace(program[i], prev.1, prev.2);
    ProgramRunStep(program, i);
    DrawAllAppend(blank, [(1, 1)] + prev.0, trace);
    assert [(1, 1)] + prev.0 + trace == [(1, 1)] + (prev.0 + trace);
  }

  /**
   * Part two: the CRT draws clock 1 with the initial `x`, then each
   * instruction is added and run alone, the callback drawing every clock.
   */
  method PartTwo(program: seq<Instruction>) returns (screen: string)
    requires forall i :: 0 <= i < |program| ==> Known(program[i])
    ensures screen == Screen(DrawAll(seq(240, _ => ""), [(1, 1)] + ProgramRun(program).0))
  {
    var cpu := new CPU(1);
    var crt := new CRT();
    ghost var blank := crt.pixels[..];
    assert blank == seq(240, _ => "");
    crt.Draw(1, cpu.x);
    for i := 0 to |program|
      invariant cpu.Valid() && cpu.instructions == map[]
      invariant cpu.clock == ProgramRun(program[..i]).1 && cpu.x == ProgramRun(program[..i]).2
      invariant crt.pixels[..] == DrawAll(blank, [(1, 1)] + ProgramRun(program[..i]).0)
    {
      ProgramRunStep(program, i);
      ScreenStep(program, i, blank);
      var trace := RunInstruction(cpu, program[i]);
      crt.DrawTrace(trace);
    }
    assert program[..|program|] == program;
    screen := crt.ToString();
  }

  /**
   * The screen shows, at each position drawn, the pixel for the `x` the
   * callback saw on the clock after it: the CRT draws position `p` during
   * cycle `p + 1`.
   */
  lemma PartTwoPixels(program: seq<Instruction>)
    ensures var draws := [(1, 1)] + ProgramRun(program).0;
      forall p :: 0 <= p < 240 ==>
        DrawAll(seq(240, _ => ""), draws)[p] == if p < |draws| then Pixel(p, draws[p].1) else ""
  {
    var draws := [(1, 1)] + ProgramRun(program).0;
    ProgramRunClocks(program);
    DrawAllInOrder(seq(240, _ => ""), draws);
  }
}
