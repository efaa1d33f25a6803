/**
 * The pipeline of `main` (src/main.rs:11-26) without its command line and
 * file handling: lex the program text, reject it if its brackets do not
 * balance, otherwise build the instruction tree and run it on a fresh machine.
 */
module Pipeline {
  import opened Wrappers
  import opened Lexer
  import opened Syntax
  import opened Parser
  import opened Interpreter

  /** What running a program text gives: a syntax error, or the tree that was run and the run's end state. */
  datatype Outcome = InvalidSyntax | Ran(program: seq<Command>, result: Option<Config>)

  /**
   * `main` after the file is read. An invalid program is never parsed or
   * run; a valid one is parsed into the tree that flattens back to its
   * tokens and run from the initial state.
   */
  method Execute(text: string, input: seq<Byte>, fuel: nat) returns (outcome: Outcome)
    ensures outcome.InvalidSyntax? <==> !Balanced(Lex(text))
    ensures outcome.Ran? ==> Flatten(outcome.program) == Lex(text)
    ensures outcome.Ran? ==> outcome.result == Run(outcome.program, Initial(input), fuel)
  {
    var tokens := LexicalAnalysis(text);
    var valid := SyntaxAnalysis(tokens);
    if !valid {
      return InvalidSyntax;
    }
    assert tokens[0..|tokens|] == tokens;
    var program := Parse(tokens, 0, |tokens|);
    var result := RunInterpreter(program, input, fuel);
    return Ran(program, result);
  }

  /** Flatten of three increments and an output, computed one command at a time. */
  lemma FlattenCountProgram()
    ensures Flatten(seq(3, _ => Command.Inc) + [Command.Out]) == [Token.Inc, Token.Inc, Token.Inc, Token.Out]
  {
    var incs := seq(3, _ => Command.Inc);
    assert incs == [Command.Inc, Command.Inc] + [Command.Inc];
    assert Flatten([Command.Inc]) == [Token.Inc] by {
      assert [Command.Inc][..0] == [];
    }
    FlattenSnoc([Command.Inc], Command.Inc);
    FlattenSnoc([Command.Inc, Command.Inc], Command.Inc);
    FlattenSnoc(incs, Command.Out);
  }

  /** `+++.` is the tree of three increments and an output, and prints the byte 3. */
  lemma CountToThree(program: seq<Command>, fuel: nat)
    requires Flatten(program) == Lex("+++.")
    ensures program == seq(3, _ => Command.Inc) + [Command.Out]
    ensures Run(program, Initial([]), fuel) == Some(Initial([]).(tape := Initial([]).tape[0 := 3], output := [3]))
  {
    var incs := seq(3, _ => Command.Inc);
    assert Lex("+++.") == [Token.Inc, Token.Inc, Token.Inc, Token.Out];
    FlattenCountProgram();
    FlattenInjective(program, incs + [Command.Out]);
    var s := Initial([]);
    RunAppend(incs, [Command.Out], s, fuel);
    Increments(3, s, fuel);
    var t := s.(tape := s.tape[0 := 3]);
    assert s.Cell() == 0;
    assert Run(incs, s, fuel) == Some(t);
    assert t.Cell() == 3 && t.output == [];
    assert Step(Command.Out, t) == t.(output := [3]);
    assert [Command.Out][1..] == [];
    assert Run([Command.Out], t, fuel) == Some(Step(Command.Out, t));
    assert Run(incs + [Command.Out], s, fuel) == Run([Command.Out], t, fuel);
  }

  /** `,.` is the tree of an input and an output, and echoes the byte it reads. */
  lemma EchoByte(program: seq<Command>, b: Byte, fuel: nat)
    requires Flatten(program) == Lex(",.")
    ensures program == [Command.In, Command.Out]
    ensures Run(program, Initial([b]), fuel).Some?
    ensures Run(program, Initial([b]), fuel).value.output == [b]
  {
    var expected := [Command.In, Command.Out];
    assert Lex(",.") == [Token.In, Token.Out];
    assert Flatten(expected) == [Token.In, Token.Out];
    FlattenInjective(program, expected);
    Echo(Initial([b]), fuel);
  }

  /** `[-]` is a loop around one decrement; started on the zero tape its body never runs. */
  lemma ClearOnFreshTape(program: seq<Command>, input: seq<Byte>, fuel: nat)
    requires Flatten(program) == Lex("[-]")
    ensures program == [Loop([Command.Dec])]
    ensures Run(program, Initial(input), fuel) == Some(Initial(input))
  {
    var expected := [Loop([Command.Dec])];
    assert Lex("[-]") == [Begin, Token.Dec, End];
    assert Flatten([Command.Dec]) == [Token.Dec];
    assert Flatten(expected) == [Begin, Token.Dec, End];
    FlattenInjective(program, expected);
    LoopSkipped([Command.Dec], Initial(input), fuel);
  }

  /** `[+` leaves a loop open, so it is rejected before anything runs. */
  lemma OpenLoopRejected()
    ensures !Balanced(Lex("[+"))
  {
    assert Lex("[+") == [Begin, Token.Inc];
    assert Depth([Begin, Token.Inc]) == 1 by {
      assert [Begin, Token.Inc][..1] == [Begin];
      assert [Begin][..0] == [];
    }
  }
}
