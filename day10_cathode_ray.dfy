/** Day 10: a CPU with one register `X` that runs `noop` and `addx` instructions and, cycle by
    cycle, samples its signal strength and draws one pixel of a 6x40 screen. */
module CathodeRay {
  import opened Options
  import opened Text

  const ROWS: nat := 6
  const COLUMNS: nat := 40

  datatype Command = Noop | AddX(value: int)

  /** Whether the signal is sampled during `cycle`: `(cycle - 20) % 40 == 0`. Rust's `%`
      truncates, but whether the remainder is zero does not depend on the rounding. */
  predicate Sampled(cycle: int)
  {
    (cycle - 20) % 40 == 0
  }

  /** The sampled cycles are exactly 20, 60, 100, ... */
  lemma SampledCycles(cycle: int)
    requires cycle >= 1
    ensures Sampled(cycle) <==> cycle >= 20 && cycle == 20 + 40 * ((cycle - 20) / 40)
  {
  }

  /** No two consecutive cycles are both sampled, so an `addx` yields at most one sample. */
  lemma NoConsecutiveSamples(cycle: int)
    ensures !(Sampled(cycle) && Sampled(cycle + 1))
  {
  }

  /** The pixel drawn during `cycle` is lit: the sprite at `register - 1 ..= register + 1` covers
      its column `(cycle - 1) % 40`. */
  predicate Lit(cycle: int, register: int)
  {
    var column := (cycle - 1) % COLUMNS;
    register - 1 <= column <= register + 1
  }

  /** The value of the register during each cycle of running `commands` from `register`:
      element `k` is the value during cycle `k + 1`. */
  function Trace(commands: seq<Command>, register: int): seq<int>
  {
    if commands == [] then []
    else
      Trace(commands[..|commands| - 1], register) + Ticks(commands[|commands| - 1], Final(commands[..|commands| - 1], register))
  }

  /** The register during the cycles of one command. */
  function Ticks(command: Command, register: int): seq<int>
  {
    match command
    case Noop => [register]
    case AddX(_) => [register, register]
  }

  /** The register after running `commands`. */
  function Final(commands: seq<Command>, register: int): int
  {
    if commands == [] then register
    else
      var current := Final(commands[..|commands| - 1], register);
      match commands[|commands| - 1]
      case Noop => current
      case AddX(v) => current + v
  }

  /** `noop` takes one cycle and `addx` two. */
  function Cycles(commands: seq<Command>): nat
  {
    if commands == [] then 0
    else Cycles(commands[..|commands| - 1]) + (if commands[|commands| - 1].Noop? then 1 else 2)
  }

  lemma {:induction false} TraceLength(commands: seq<Command>, register: int)
    ensures |Trace(commands, register)| == Cycles(commands)
  {
    if commands != [] {
      TraceLength(commands[..|commands| - 1], register);
    }
  }

  /** The sum of `X * cycle` over the sampled cycles of a trace. */
  function SignalStrength(trace: seq<int>): int
  {
    if trace == [] then 0
    else SignalStrength(trace[..|trace| - 1]) + (if Sampled(|trace|) then trace[|trace| - 1] * |trace| else 0)
  }

  /** The picture a trace draws: the pixel at `row`, `column` belongs to cycle
      `40 * row + column + 1` and is lit iff that cycle ran with the sprite over the column. */
  predicate Pixel(trace: seq<int>, row: nat, column: nat)
    requires column < COLUMNS
  {
    var k := COLUMNS * row + column;
    k < |trace| && Lit(k + 1, trace[k])
  }

  /** Drawing stays on the screen: no cycle after the 240th lights a pixel (the source indexes
      the screen out of bounds, and panics, in that case). */
  predicate StaysOnScreen(trace: seq<int>)
  {
    forall k :: ROWS * COLUMNS <= k < |trace| ==> !Lit(k + 1, trace[k])
  }

  class Processor {
    var cycle: int
    var register: int
    const screen: array2<bool>

    ghost predicate Valid()
      reads this
    {
      cycle >= 1 && screen.Length0 == ROWS && screen.Length1 == COLUMNS
    }

    /** `Processor::new`. */
    constructor ()
      ensures Valid() && fresh(screen)
      ensures cycle == 1 && register == 1
      ensures forall i, j :: 0 <= i < ROWS && 0 <= j < COLUMNS ==> !screen[i, j]
    {
      cycle := 1;
      register := 1;
      screen := new bool[ROWS, COLUMNS]((i, j) => false);
    }

    /** `check_for_sampling`. */
    function CheckForSampling(): (sample: bool)
      reads this
      requires Valid()
      ensures sample <==> cycle >= 20 && cycle == 20 + 40 * ((cycle - 20) / 40)
    {
      SampledCycles(cycle);
      (cycle - 20) % 40 == 0
    }

    /** `draw_pixel`: sets the pixel of the current cycle. */
    method DrawPixel()
      requires Valid() && cycle <= ROWS * COLUMNS
      modifies screen
      ensures forall i, j :: 0 <= i < ROWS && 0 <= j < COLUMNS ==>
        screen[i, j] == (old(screen[i, j]) || COLUMNS * i + j + 1 == cycle)
    {
      var x := (cycle - 1) / COLUMNS;
      var y := (cycle - 1) % COLUMNS;
      screen[x, y] := true;
    }

    /** `process`: one cycle. Samples the signal if the cycle is a sampled one, draws the pixel
        if the sprite covers it, and moves on to the next cycle. */
    method Process(result: Option<int>) returns (result': Option<int>)
      requires Valid()
      requires Lit(cycle, register) ==> cycle <= ROWS * COLUMNS
      modifies this, screen
      ensures Valid()
      ensures cycle == old(cycle) + 1 && register == old(register)
      ensures result' == if Sampled(old(cycle)) then Some(register * old(cycle)) else result
      ensures forall i, j :: 0 <= i < ROWS && 0 <= j < COLUMNS ==>
        screen[i, j] == (old(screen[i, j]) || (COLUMNS * i + j + 1 == old(cycle) && Lit(old(cycle), register)))
    {
      result' := result;
      if CheckForSampling() {
        result' := Some(register * cycle);
      }
      var currentPixel := (cycle - 1) % COLUMNS;
      if register - 1 <= currentPixel <= register + 1 {
        DrawPixel();
      }
      cycle := cycle + 1;
    }

    /** `process_noop`: one cycle. */
    method ProcessNoop() returns (result: Option<int>)
      requires Valid()
      requires Lit(cycle, register) ==> cycle <= ROWS * COLUMNS
      modifies this, screen
      ensures Valid()
      ensures cycle == old(cycle) + 1 && register == old(register)
      ensures result == if Sampled(old(cycle)) then Some(register * old(cycle)) else None
      ensures forall i, j :: 0 <= i < ROWS && 0 <= j < COLUMNS ==>
        screen[i, j] == (old(screen[i, j]) || (COLUMNS * i + j + 1 == old(cycle) && Lit(old(cycle), register)))
    {
      result := Process(None);
    }

    /** `process_addx`: two cycles with the old register, then the register moves by `value`. */
    method ProcessAddx(value: int) returns (result: Option<int>)
      requires Valid()
      requires Lit(cycle, register) ==> cycle <= ROWS * COLUMNS
      requires Lit(cycle + 1, register) ==> cycle + 1 <= ROWS * COLUMNS
      modifies this, screen
      ensures Valid()
      ensures cycle == old(cycle) + 2 && register == old(register) + value
      ensures result == if Sampled(old(cycle)) then Some(old(register) * old(cycle))
                        else if Sampled(old(cycle) + 1) then Some(old(register) * (old(cycle) + 1))
                        else None
      ensures forall i, j :: 0 <= i < ROWS && 0 <= j < COLUMNS ==>
        screen[i, j] == (old(screen[i, j])
          || (COLUMNS * i + j + 1 == old(cycle) && Lit(old(cycle), old(register)))
          || (COLUMNS * i + j + 1 == old(cycle) + 1 && Lit(old(cycle) + 1, old(register))))
    {
      NoConsecutiveSamples(cycle);
      result := Process(None);
      result := Process(result);
      register := register + value;
    }
  }

  /** The loop of `main`: runs every command on a new processor and adds up the samples. The
      processor ends at the cycle after the last, with the register the commands leave, the sum
      of the sampled signal strengths, and the picture the trace draws. */
  method RunProgram(commands: seq<Command>) returns (processor: Processor, result: int)
    requires StaysOnScreen(Trace(commands, 1))
    ensures processor.Valid()
    ensures processor.cycle == Cycles(commands) + 1
    ensures processor.register == Final(commands, 1)
    ensures result == SignalStrength(Trace(commands, 1))
    ensures forall i, j :: 0 <= i < ROWS && 0 <= j < COLUMNS ==>
      processor.screen[i, j] == Pixel(Trace(commands, 1), i, j)
  {
    processor := new Processor();
    result := 0;
    for n := 0 to |commands|
      invariant processor.Valid()
      invariant processor.cycle == |Trace(commands[..n], 1)| + 1
      invariant processor.register == Final(commands[..n], 1)
      invariant result == SignalStrength(Trace(commands[..n], 1))
      invariant forall i, j :: 0 <= i < ROWS && 0 <= j < COLUMNS ==>
        processor.screen[i, j] == Pixel(Trace(commands[..n], 1), i, j)
    {
      result := RunNext(processor, commands, n, result);
    }
    assert commands[..|commands|] == commands;
    TraceLength(commands, 1);
  }

  /** One more command extends the trace by its own cycles, inside the whole trace, and moves
      the register by its operand. */
  lemma RunStep(commands: seq<Command>, n: nat)
    requires n < |commands|
    ensures Trace(commands[..n + 1], 1) == Trace(commands[..n], 1) + Ticks(commands[n], Final(commands[..n], 1))
    ensures Final(commands[..n + 1], 1) == Final(commands[..n], 1) + (if commands[n].AddX? then commands[n].value else 0)
    ensures Trace(commands[..n + 1], 1) <= Trace(commands, 1)
  {
    assert commands[..n + 1][..n] == commands[..n];
    TraceOfPrefix(commands, n + 1);
  }

  /** One turn of the loop of `main`: the processor has run the first `n` commands and `result`
      holds their samples; afterwards both account for command `n` too. */
  method RunNext(processor: Processor, commands: seq<Command>, n: nat, result: int) returns (result': int)
    requires n < |commands| && StaysOnScreen(Trace(commands, 1))
    requires processor.Valid() && processor.cycle == |Trace(commands[..n], 1)| + 1
    requires processor.register == Final(commands[..n], 1)
    requires result == SignalStrength(Trace(commands[..n], 1))
    requires forall i, j :: 0 <= i < ROWS && 0 <= j < COLUMNS ==>
      processor.screen[i, j] == Pixel(Trace(commands[..n], 1), i, j)
    modifies processor, processor.screen
    ensures processor.Valid() && processor.cycle == |Trace(commands[..n + 1], 1)| + 1
    ensures processor.register == Final(commands[..n + 1], 1)
    ensures result' == SignalStrength(Trace(commands[..n + 1], 1))
    ensures forall i, j :: 0 <= i < ROWS && 0 <= j < COLUMNS ==>
      processor.screen[i, j] == Pixel(Trace(commands[..n + 1], 1), i, j)
  {
    RunStep(commands, n);
    var value := RunCommand(processor, commands[n], Trace(commands[..n], 1), Trace(commands, 1));
    result' := result;
    if value.Some? {
      result' := result + value.value;
    }
  }

  /** The body of the loop of `main`: one command, on a processor that has drawn `trace`. */
  method RunCommand(processor: Processor, command: Command, ghost trace: seq<int>, ghost whole: seq<int>)
    returns (value: Option<int>)
    requires processor.Valid() && processor.cycle == |trace| + 1
    requires trace + Ticks(command, processor.register) <= whole && StaysOnScreen(whole)
    requires forall i, j :: 0 <= i < ROWS && 0 <= j < COLUMNS ==> processor.screen[i, j] == Pixel(trace, i, j)
    modifies processor, processor.screen
    ensures processor.Valid()
    ensures processor.cycle == |trace + Ticks(command, old(processor.register))| + 1
    ensures processor.register == old(processor.register) + (if command.AddX? then command.value else 0)
    ensures SignalStrength(trace + Ticks(command, old(processor.register)))
      == SignalStrength(trace) + (if value.Some? then value.value else 0)
    ensures forall i, j :: 0 <= i < ROWS && 0 <= j < COLUMNS ==>
      processor.screen[i, j] == Pixel(trace + Ticks(command, old(processor.register)), i, j)
  {
    var r := processor.register;
    var c := processor.cycle;
    assert whole[|trace|] == r;
    DrawOneMore(trace, r);
    match command
    case Noop =>
      value := processor.ProcessNoop();
    case AddX(v) =>
      assert whole[|trace| + 1] == r;
      value := processor.ProcessAddx(v);
      DrawTwoMore(trace, r);
  }

  /** The two cycles of `addx` add at most one sample, and light at most their own two pixels. */
  lemma DrawTwoMore(trace: seq<int>, r: int)
    ensures SignalStrength(trace + [r, r]) == SignalStrength(trace)
      + (if Sampled(|trace| + 1) then r * (|trace| + 1) else if Sampled(|trace| + 2) then r * (|trace| + 2) else 0)
    ensures forall i: nat, j: nat :: j < COLUMNS ==>
      (Pixel(trace + [r, r], i, j) <==>
        (|| Pixel(trace, i, j)
         || (COLUMNS * i + j == |trace| && Lit(|trace| + 1, r))
         || (COLUMNS * i + j == |trace| + 1 && Lit(|trace| + 2, r))))
  {
    DrawOneMore(trace, r);
    DrawOneMore(trace + [r], r);
    NoConsecutiveSamples(|trace| + 1);
    assert trace + [r] + [r] == trace + [r, r];
  }

  /** One more cycle adds its sample to the signal strength and can light only its own pixel. */
  lemma DrawOneMore(trace: seq<int>, r: int)
    ensures SignalStrength(trace + [r])
      == SignalStrength(trace) + (if Sampled(|trace| + 1) then r * (|trace| + 1) else 0)
    ensures forall i: nat, j: nat :: j < COLUMNS ==>
      (Pixel(trace + [r], i, j) <==> Pixel(trace, i, j) || (COLUMNS * i + j == |trace| && Lit(|trace| + 1, r)))
  {
    assert (trace + [r])[..|trace|] == trace;
  }

  /** Running a prefix of the commands traces a prefix of the whole trace. */
  lemma {:induction false} TraceOfPrefix(commands: seq<Command>, n: nat)
    requires n <= |commands|
    ensures Trace(commands[..n], 1) <= Trace(commands, 1)
    decreases |commands| - n
  {
    if n < |commands| {
      TraceOfPrefix(commands, n + 1);
      assert commands[..n + 1][..n] == commands[..n];
    } else {
      assert commands[..n] == commands;
    }
  }

  /** One line of the program: its first word names the command, `addx` takes a second word
      that must parse as an `i64`; further words are ignored. `None` is where the source panics
      (an empty line, an unknown word, a missing or malformed number). */
  function ParseCommand(line: string): (r: Option<Command>)
    ensures r.Some? ==> |SplitWhitespace(line)| >= 1
    ensures r == Some(Noop) <==> |SplitWhitespace(line)| >= 1 && SplitWhitespace(line)[0] == "noop"
    ensures r.Some? && r.value.AddX? ==>
      (|SplitWhitespace(line)| >= 2 && SplitWhitespace(line)[0] == "addx" && I64_MIN <= r.value.value <= I64_MAX)
  {
    var parts := SplitWhitespace(line);
    if |parts| == 0 then None
    else if parts[0] == "noop" then Some(Noop)
    else if parts[0] == "addx" then
      if |parts| < 2 then None
      else
        match ParseSigned(parts[1], I64_MIN, I64_MAX)
        case None => None
        case Some(v) => Some(AddX(v))
    else None
  }

  /** How a command is written in the program. */
  function ShowCommand(command: Command): string
  {
    match command
    case Noop => "noop"
    case AddX(v) => "addx " + IntToString(v)
  }

  /** Parsing a written command gives it back, for every `i64` operand. */
  lemma ParseCommandRoundTrip(command: Command)
    requires command.AddX? ==> I64_MIN <= command.value <= I64_MAX
    ensures ParseCommand(ShowCommand(command)) == Some(command)
  {
    match command
    case Noop =>
      SplitWhitespaceOfToken("noop", "");
      assert "noop" + "" == "noop";
    case AddX(v) =>
      var digits := IntToString(v);
      forall j | 0 <= j < |digits| ensures !IsWhitespace(digits[j]) {
      }
      SplitWhitespaceOfPair("addx", digits);
      assert ShowCommand(command) == "addx" + " " + digits;
      ParseSignedIntToString(v, I64_MIN, I64_MAX);
  }

  /** `parse_commands`: one command per line of the input, in order; `None` if any line does
      not parse (where the source panics). */
  method ParseCommands(input: string) returns (r: Option<seq<Command>>)
    ensures r.Some? <==> forall k :: 0 <= k < |Lines(input)| ==> ParseCommand(Lines(input)[k]).Some?
    ensures r.Some? ==>
      (|r.value| == |Lines(input)| && forall k :: 0 <= k < |r.value| ==> Some(r.value[k]) == ParseCommand(Lines(input)[k]))
  {
    var lines := Lines(input);
    var result: seq<Command> := [];
    for k := 0 to |lines|
      invariant |result| == k
      invariant forall k' :: 0 <= k' < k ==> Some(result[k']) == ParseCommand(lines[k'])
    {
      var command := ParseCommand(lines[k]);
      if command.None? {
        assert !ParseCommand(Lines(input)[k]).Some?;
        return None;
      }
      result := result + [command.value];
    }
    return Some(result);
  }

  /** The lines of the source's unit test parse to `Noop`, `AddX(1)` and `Noop`. */
  lemma TestProgramCommands()
    ensures ParseCommand("noop") == Some(Noop)
    ensures ParseCommand("addx 1") == Some(AddX(1))
  {
    ParseCommandRoundTrip(Noop);
    ParseCommandRoundTrip(AddX(1));
    assert ShowCommand(AddX(1)) == "addx 1";
  }
}
