/**
 * The tree-walking interpreter (src/main.rs:128-168). The state is a tape of
 * 256 unsigned 8-bit cells and an unsigned 8-bit pointer, both starting at
 * zero; pointer moves and cell updates wrap modulo 256. Standard input and
 * output are modelled as a sequence of bytes still to be read and a sequence
 * of bytes written so far.
 *
 * A loop may run forever, so the semantics is indexed by fuel: every
 * iteration of a loop spends one unit of that loop's fuel, its body runs with
 * one unit less, and `None` means the fuel ran out before the program ended.
 */
module Interpreter {
  import opened Wrappers
  import opened Parser

  /** An unsigned 8-bit value: a cell, the pointer, an input or output byte. */
  type Byte = x: int | 0 <= x < 256

  /** The tape: exactly one cell for every value of the pointer. */
  type Tape = t: seq<Byte> | |t| == 256 witness seq(256, _ => 0)

  /** The interpreter's state: tape, pointer, the input not yet read and the output written so far. */
  datatype Config = Config(tape: Tape, ptr: Byte, input: seq<Byte>, output: seq<Byte>)
  {
    /** The cell under the pointer. */
    function Cell(): Byte
    {
      tape[ptr]
    }
  }

  /** The state `run_interpreter` starts from: 256 zero cells and the pointer at cell 0. */
  function Initial(input: seq<Byte>): Config
  {
    Config(seq(256, _ => 0), 0, input, [])
  }

  /**
   * `u8` increment. The Rust code writes a plain `+= 1`, which wraps in a
   * release build (and panics in a debug build); the model takes the
   * wrapping behaviour.
   */
  function Succ(x: Byte): (r: Byte)
    ensures x < 255 ==> r == x + 1
    ensures x == 255 ==> r == 0
  {
    (x + 1) % 256
  }

  /** `u8` decrement, wrapping like Succ (Dafny's `%` is Euclidean, so 0 goes to 255). */
  function Pred(x: Byte): (r: Byte)
    ensures x > 0 ==> r == x - 1
    ensures x == 0 ==> r == 255
  {
    (x - 1) % 256
  }

  /**
   * One primitive command. Each touches exactly one thing: `Right`/`Left`
   * the pointer, `Inc`/`Dec` the current cell, `Out` the output, and `In`
   * the current cell and the input, or nothing once the input is exhausted.
   */
  function Step(c: Command, s: Config): (t: Config)
    requires !c.Loop?
    ensures c.Right? || c.Left? ==> t.tape == s.tape && t.input == s.input && t.output == s.output
    ensures c.Right? ==> t.ptr == Succ(s.ptr)
    ensures c.Left? ==> t.ptr == Pred(s.ptr)
    ensures c.Inc? || c.Dec? ==> t.ptr == s.ptr && t.input == s.input && t.output == s.output
    ensures c.Inc? || c.Dec? ==> forall k :: 0 <= k < 256 && k != s.ptr ==> t.tape[k] == s.tape[k]
    ensures c.Inc? ==> t.Cell() == Succ(s.Cell())
    ensures c.Dec? ==> t.Cell() == Pred(s.Cell())
    ensures c.Out? ==> t.tape == s.tape && t.ptr == s.ptr && t.input == s.input
    ensures c.Out? ==> t.output == s.output + [s.Cell()]
    ensures c.In? && s.input == [] ==> t == s
    ensures c.In? && s.input != [] ==>
      t.ptr == s.ptr && t.output == s.output && t.input == s.input[1..] && t.Cell() == s.input[0] &&
      forall k :: 0 <= k < 256 && k != s.ptr ==> t.tape[k] == s.tape[k]
  {
    match c
    case Right => s.(ptr := Succ(s.ptr))
    case Left => s.(ptr := Pred(s.ptr))
    case Inc => s.(tape := s.tape[s.ptr := Succ(s.Cell())])
    case Dec => s.(tape := s.tape[s.ptr := Pred(s.Cell())])
    case Out => s.(output := s.output + [s.Cell()])
    case In =>
      if s.input == [] then s
      else s.(tape := s.tape[s.ptr := s.input[0]], input := s.input[1..])
  }

  /** Run a command sequence: each command in turn, on the state the previous one left. */
  function Run(cs: seq<Command>, s: Config, fuel: nat): Option<Config>
    decreases fuel, cs
  {
    if cs == [] then Some(s)
    else
      var next := if cs[0].Loop? then RunLoop(cs[0].body, s, fuel) else Some(Step(cs[0], s));
      match next
      case None => None
      case Some(t) => Run(cs[1..], t, fuel)
  }

  /** Run a loop: while the current cell is non-zero, run the body once more. */
  function RunLoop(body: seq<Command>, s: Config, fuel: nat): Option<Config>
    decreases fuel, body
  {
    if s.Cell() == 0 then Some(s)
    else if fuel == 0 then None
    else
      match Run(body, s, fuel - 1)
      case None => None
      case Some(t) => RunLoop(body, t, fuel - 1)
  }

  /** Continue a run that may have run out of fuel with more commands. */
  function Then(r: Option<Config>, cs: seq<Command>, fuel: nat): Option<Config>
  {
    match r
    case None => None
    case Some(t) => Run(cs, t, fuel)
  }

  /** The pointer moves are each other's inverse, wrapping included. */
  lemma MovesCancel(s: Config)
    ensures Step(Left, Step(Right, s)) == s
    ensures Step(Right, Step(Left, s)) == s
  {
  }

  /** Increment and decrement are each other's inverse, wrapping included. */
  lemma CellUpdatesCancel(s: Config)
    ensures Step(Dec, Step(Inc, s)) == s
    ensures Step(Inc, Step(Dec, s)) == s
  {
    assert s.tape[s.ptr := Pred(Succ(s.Cell()))] == s.tape;
    assert s.tape[s.ptr := Succ(Pred(s.Cell()))] == s.tape;
  }

  /** Running `n` increments adds `n` to the current cell modulo 256 and changes nothing else. */
  lemma {:induction false} Increments(n: nat, s: Config, fuel: nat)
    ensures Run(seq(n, _ => Command.Inc), s, fuel) == Some(s.(tape := s.tape[s.ptr := (s.Cell() + n) % 256]))
  {
    var incs := seq(n, _ => Command.Inc);
    if n == 0 {
      assert s.tape[s.ptr := s.Cell()] == s.tape;
    } else {
      var t := Step(Command.Inc, s);
      assert incs[0] == Command.Inc && incs[1..] == seq(n - 1, _ => Command.Inc);
      Increments(n - 1, t, fuel);
      assert t.Cell() == (s.Cell() + 1) % 256;
      assert (t.Cell() + (n - 1)) % 256 == (s.Cell() + n) % 256;
      assert t.tape[t.ptr := (t.Cell() + (n - 1)) % 256] == s.tape[s.ptr := (s.Cell() + n) % 256];
    }
  }

  /** 256 increments bring every state back to itself; from a zero cell the cell ends at zero. */
  lemma IncrementWraps(s: Config, fuel: nat)
    ensures Run(seq(256, _ => Command.Inc), s, fuel) == Some(s)
  {
    Increments(256, s, fuel);
    assert s.tape[s.ptr := (s.Cell() + 256) % 256] == s.tape;
  }

  /** Decrementing a zero cell yields 255; moving left from cell 0 reaches cell 255, and right from 255 reaches 0. */
  lemma Wraparound(s: Config)
    ensures s.Cell() == 0 ==> Step(Dec, s).Cell() == 255
    ensures s.ptr == 0 ==> Step(Left, s).ptr == 255
    ensures s.ptr == 255 ==> Step(Right, s).ptr == 0
  {
  }

  /** Running a sequence is running its first part and then, on the state it leaves, the rest. */
  lemma {:induction false} RunAppend(a: seq<Command>, b: seq<Command>, s: Config, fuel: nat)
    ensures Run(a + b, s, fuel) == Then(Run(a, s, fuel), b, fuel)
  {
    if a == [] {
      assert a + b == b;
    } else {
      assert (a + b)[0] == a[0] && (a + b)[1..] == a[1..] + b;
      var next := if a[0].Loop? then RunLoop(a[0].body, s, fuel) else Some(Step(a[0], s));
      if next.Some? {
        RunAppend(a[1..], b, next.value, fuel);
      }
    }
  }

  /** More fuel does not change a run that finished. */
  lemma {:induction false} RunMonotone(cs: seq<Command>, s: Config, fuel: nat, more: nat)
    requires fuel <= more && Run(cs, s, fuel).Some?
    ensures Run(cs, s, more) == Run(cs, s, fuel)
    decreases fuel, cs
  {
    if cs != [] {
      if cs[0].Loop? {
        RunLoopMonotone(cs[0].body, s, fuel, more);
        RunMonotone(cs[1..], RunLoop(cs[0].body, s, fuel).value, fuel, more);
      } else {
        RunMonotone(cs[1..], Step(cs[0], s), fuel, more);
      }
    }
  }

  /** More fuel does not change a loop that finished. */
  lemma {:induction false} RunLoopMonotone(body: seq<Command>, s: Config, fuel: nat, more: nat)
    requires fuel <= more && RunLoop(body, s, fuel).Some?
    ensures RunLoop(body, s, more) == RunLoop(body, s, fuel)
    decreases fuel, body
  {
    if s.Cell() != 0 {
      RunMonotone(body, s, fuel - 1, more - 1);
      RunLoopMonotone(body, Run(body, s, fuel - 1).value, fuel - 1, more - 1);
    }
  }

  /** Determinism: whatever fuel two finished runs were given, they end in the same state. */
  lemma RunDeterministic(cs: seq<Command>, s: Config, fuel1: nat, fuel2: nat)
    requires Run(cs, s, fuel1).Some? && Run(cs, s, fuel2).Some?
    ensures Run(cs, s, fuel1) == Run(cs, s, fuel2)
  {
    if fuel1 <= fuel2 {
      RunMonotone(cs, s, fuel1, fuel2);
    } else {
      RunMonotone(cs, s, fuel2, fuel1);
    }
  }

  /** A loop that finishes leaves the current cell at zero. */
  lemma {:induction false} LoopExitsOnZero(body: seq<Command>, s: Config, fuel: nat)
    requires RunLoop(body, s, fuel).Some?
    ensures RunLoop(body, s, fuel).value.Cell() == 0
    decreases fuel
  {
    if s.Cell() != 0 {
      LoopExitsOnZero(body, Run(body, s, fuel - 1).value, fuel - 1);
    }
  }

  /** A loop entered on a zero cell runs its body zero times and changes nothing. */
  lemma LoopSkipped(body: seq<Command>, s: Config, fuel: nat)
    requires s.Cell() == 0
    ensures Run([Loop(body)], s, fuel) == Some(s)
  {
  }

  /**
   * The zeroing idiom `[-]`: from a cell holding `v` it runs `v` iterations
   * and leaves that cell at zero, touching nothing else; it needs `v` units
   * of fuel.
   */
  lemma {:induction false} ClearLoop(s: Config, fuel: nat)
    ensures RunLoop([Dec], s, fuel) == if fuel >= s.Cell() then Some(s.(tape := s.tape[s.ptr := 0])) else None
    decreases s.Cell()
  {
    if s.Cell() == 0 {
      assert s.tape[s.ptr := 0] == s.tape;
    } else if fuel > 0 {
      var t := Step(Dec, s);
      assert Run([Dec], s, fuel - 1) == Some(t);
      ClearLoop(t, fuel - 1);
      assert t.tape[t.ptr := 0] == s.tape[s.ptr := 0];
    }
  }

  /**
   * Input is only consumed and output only appended to: a finished run
   * leaves a suffix of the input unread and extends the output.
   */
  lemma {:induction false} RunStreams(cs: seq<Command>, s: Config, fuel: nat)
    requires Run(cs, s, fuel).Some?
    ensures |Run(cs, s, fuel).value.input| <= |s.input|
    ensures Run(cs, s, fuel).value.input == s.input[|s.input| - |Run(cs, s, fuel).value.input|..]
    ensures s.output <= Run(cs, s, fuel).value.output
    decreases fuel, cs
  {
    if cs != [] {
      var t := if cs[0].Loop? then RunLoop(cs[0].body, s, fuel).value else Step(cs[0], s);
      if cs[0].Loop? {
        RunLoopStreams(cs[0].body, s, fuel);
      }
      RunStreams(cs[1..], t, fuel);
    }
  }

  /** RunStreams for a loop. */
  lemma {:induction false} RunLoopStreams(body: seq<Command>, s: Config, fuel: nat)
    requires RunLoop(body, s, fuel).Some?
    ensures |RunLoop(body, s, fuel).value.input| <= |s.input|
    ensures RunLoop(body, s, fuel).value.input == s.input[|s.input| - |RunLoop(body, s, fuel).value.input|..]
    ensures s.output <= RunLoop(body, s, fuel).value.output
    decreases fuel, body
  {
    if s.Cell() != 0 {
      var t := Run(body, s, fuel - 1).value;
      RunStreams(body, s, fuel - 1);
      RunLoopStreams(body, t, fuel - 1);
    }
  }

  /** The echo program `,.`: the byte read is the byte written. */
  lemma Echo(s: Config, fuel: nat)
    requires s.input != []
    ensures Run([In, Out], s, fuel).Some?
    ensures Run([In, Out], s, fuel).value.output == s.output + [s.input[0]]
    ensures Run([In, Out], s, fuel).value.input == s.input[1..]
  {
    var t := Step(In, s);
    assert Run([In, Out], s, fuel) == Run([Out], t, fuel);
  }

  /**
   * The interpreter's state, updated in place: the memory array, the
   * pointer, and the input and output streams.
   */
  class Machine {
    var memory: array<Byte>
    var pointer: Byte
    var input: seq<Byte>
    var output: seq<Byte>

    /** The memory has one cell for every pointer value, so every `memory[pointer]` is in bounds. */
    ghost predicate Valid()
      reads this
    {
      memory.Length == 256
    }

    /** The abstract state of the machine. */
    function State(): Config
      reads this, memory
      requires Valid()
    {
      Config(memory[..], pointer, input, output)
    }

    /** `run_interpreter`'s set-up: 256 zero cells, the pointer at zero, nothing written yet. */
    constructor (input: seq<Byte>)
      ensures Valid() && fresh(memory)
      ensures forall k :: 0 <= k < memory.Length ==> memory[k] == 0
      ensures pointer == 0 && this.input == input && output == []
      ensures State() == Initial(input)
    {
      memory := new Byte[256](_ => 0);
      pointer := 0;
      this.input := input;
      output := [];
      new;
      assert memory[..] == seq(256, _ => 0);
    }

    /**
     * `interpreter`: run the commands in order on this machine. A loop
     * re-tests the current cell before every iteration and runs its body
     * through a recursive call. The result says whether the run finished
     * within `fuel`; when it did, the new state is the one Run gives.
     */
    method Interpreter(commands: seq<Command>, fuel: nat) returns (completed: bool)
      requires Valid()
      modifies this, memory
      ensures Valid() && memory == old(memory)
      ensures Run(commands, old(State()), fuel) == if completed then Some(State()) else None
      decreases fuel, commands
    {
      ghost var start := State();
      for i := 0 to |commands|
        invariant Valid() && memory == old(memory)
        invariant Run(commands, start, fuel) == Run(commands[i..], State(), fuel)
      {
        ghost var before := State();
        assert commands[i..][0] == commands[i] && commands[i..][1..] == commands[i + 1..];
        match commands[i] {
          case Right =>
            pointer := Succ(pointer);
          case Left =>
            pointer := Pred(pointer);
          case Inc =>
            memory[pointer] := Succ(memory[pointer]);
          case Dec =>
            memory[pointer] := Pred(memory[pointer]);
          case Out =>
            output := output + [memory[pointer]];
          case In =>
            if input != [] {
              memory[pointer] := input[0];
              input := input[1..];
            }
          case Loop(body) =>
            var f: nat := fuel;
            while memory[pointer] != 0
              invariant Valid() && memory == old(memory)
              invariant f <= fuel
              invariant RunLoop(body, before, fuel) == RunLoop(body, State(), f)
              decreases f
            {
              if f == 0 {
                return false;
              }
              var ok := Interpreter(body, f - 1);
              if !ok {
                return false;
              }
              f := f - 1;
            }
        }
        assert !commands[i].Loop? ==> State() == Step(commands[i], before);
      }
      return true;
    }
  }

  /** `run_interpreter`: run a program on a fresh machine. */
  method RunInterpreter(commands: seq<Command>, input: seq<Byte>, fuel: nat) returns (result: Option<Config>)
    ensures result == Run(commands, Initial(input), fuel)
  {
    var machine := new Machine(input);
    var completed := machine.Interpreter(commands, fuel);
    result := if completed then Some(machine.State()) else None;
  }
}
