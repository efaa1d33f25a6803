# A verified model of a brainfuck interpreter

This project models, in Dafny, the core of a small brainfuck interpreter written in Rust (`src/main.rs`). The interpreter is a pipeline of four stages:

1. **Lexer** (`Lexer.dfy`). It turns the program text into tokens. Each of the eight instruction characters `> < + - . , [ ]` becomes one token, and every other character is dropped.
2. **Validator** (`Syntax.dfy`). It makes one pass with an open-loop counter. It fails at the first `]` that has no open `[`, and otherwise accepts exactly when the counter ends at zero.
3. **Tree builder** (`Parser.dfy`). It works over the index range `[from, to)`. Primitive tokens become primitive commands. A `[` is matched to its `]` by a forward scan with a nesting counter, and the tokens strictly between the two become a `Loop` node's body.
4. **Tree-walking interpreter** (`Interpreter.dfy`). The state is a tape of 256 unsigned 8-bit cells and an 8-bit pointer, all starting at zero. Pointer moves and cell updates wrap modulo 256. `.` writes the current cell. `,` reads a byte into the current cell, or does nothing once the input is exhausted. A loop repeats its body while the current cell is non-zero.

`Pipeline.dfy` models `main` after the file has been read: lex, validate, then either reject or parse and run.

The Rust functions are modelled as Dafny methods with the same loops. Each method is proved against a specification function:

- `LexicalAnalysis` against `Lex`.
- `SyntaxAnalysis` against `Balanced`. No prefix has more `End` than `Begin` tokens, and the totals are equal.
- `Parse` against `Flatten`. This function turns a tree back into tokens.
- `Machine.Interpreter` against the big-step semantics `Run`/`RunLoop`.

The interpreter's state is a class `Machine`. It holds the memory `array`, the pointer, the unread input and the output written so far, and its methods update them in place. A program may loop forever, so `Run` takes fuel and returns an `Option`. Each loop iteration spends one unit of fuel, and the loop body runs with one unit less. `None` means the fuel ran out.

The 256-cell tape is the subset type `Tape`, and the pointer is a `Byte` (0..255). So every `memory[pointer]` access is in bounds, and the verifier checks this. Wraparound is written out in `Succ` and `Pred`. The Rust code writes plain `+= 1` / `-= 1` on `u8`. That wraps in a release build and panics in a debug build. The model takes the wrapping behaviour.

## Model

| member | source | states |
|---|---|---|
| `Lexer.TokenOf` | src/main.rs:44-54 | a character yields a token exactly when it is one of the eight instruction characters, and that token renders back to the character |
| `Lexer.LexicalAnalysis` | src/main.rs:40-57 | the pushing loop returns exactly `Lex(text)`: one token per instruction character, in source order |
| `Lexer.LexAppend` | src/main.rs:43-55 | lexing a concatenation is the concatenation of the lexings |
| `Lexer.LexRender` | src/main.rs:44-54 | lexing the rendering of any token sequence gives that sequence back |
| `Lexer.LexKeepsInstructions` | src/main.rs:43-55 | rendering the lexer's output gives the text with every non-instruction character removed, so there is one token per instruction character |
| `Lexer.LexIdempotent` | src/main.rs:40-57 | re-lexing the rendered tokens, or lexing the text stripped of comments, gives the same tokens |
| `Syntax.SyntaxAnalysis` | src/main.rs:59-73 | returns true iff no prefix has more `End` than `Begin` tokens and the totals are equal; it returns false at an `End` with an open count of 0 |
| `Syntax.StrayEnd` | src/main.rs:65-68 | a sequence that starts with `End` is rejected |
| `Syntax.ValidatorExamples` | src/main.rs:59-73 | the empty program, `[]` and `[[]]` are accepted; `]`, `[` and `[[]` are rejected |
| `Syntax.BalancedConcat` | src/main.rs:59-73 | two accepted sequences, one after the other, are accepted |
| `Syntax.BalancedWrap` | src/main.rs:59-73 | an accepted sequence between brackets is accepted, and every proper nonempty prefix of it has an open loop |
| `Syntax.BalancedTail` | src/main.rs:90-98 | after a primitive token at the front of an accepted range, the rest of the range is accepted |
| `Syntax.SplitAtMatch` | src/main.rs:99-115 | in an accepted range starting with `Begin`, the first point where the nesting counter returns to zero is an `End`, and both the inner range and the rest are accepted |
| `Syntax.DepthAppend` | src/main.rs:60-71 | the open count of a concatenation is the sum of the parts' counts |
| `Parser.ParsePrimitive` | src/main.rs:93-98 | pushing a primitive command extends the parsed prefix by its token and keeps the rest accepted |
| `Parser.MatchSplits` | src/main.rs:103-115 | the scan's stopping point, stated at positions of the whole token sequence: an `End` with accepted ranges inside and after it |
| `Parser.MatchingEnd` | src/main.rs:99-115 | on an accepted range the bracket scan stops before the end of the range, at an `End`, and the ranges strictly inside and after the match are accepted |
| `Parser.ParseLoop` | src/main.rs:117-119 | pushing the `Loop` node extends the parsed prefix by `[`, the body's tokens and `]` |
| `Parser.Parse` | src/main.rs:86-126 | on an accepted range it never reaches the panic, and the returned tree flattens back to exactly `tokens[lo..hi]` (the Rust `from` and `to`); an empty range gives no commands |
| `Parser.FlattenAppend` | src/main.rs:87-125 | flattening distributes over concatenation of command sequences |
| `Parser.EmitBalanced` | src/main.rs:83 | a single command's tokens are accepted by the validator |
| `Parser.FlattenBalanced` | src/main.rs:59-126 | every tree flattens to tokens the validator accepts: the validator accepts exactly the token sequences that are the flattening of some tree (the other direction is `Parse`) |
| `Parser.EmitSuffixCloses` | src/main.rs:99-115 | every proper nonempty suffix of a loop's tokens closes more loops than it opens |
| `Parser.EmitLengthsAgree` | src/main.rs:99-119 | two trees with the same tokens end in commands with the same number of tokens |
| `Parser.EmitInjective` | src/main.rs:75-84 | a command is determined by its tokens |
| `Parser.FlattenInjective` | src/main.rs:86-126 | a tree is determined by its tokens, so the tree built for a range is the only one that flattens to it, and each loop body is the parse of the range between its brackets |
| `Interpreter.Succ` | src/main.rs:138 | the `u8` increment adds one below 255 and wraps 255 to 0 |
| `Interpreter.Pred` | src/main.rs:141 | the `u8` decrement subtracts one above 0 and wraps 0 to 255 |
| `Interpreter.Step` | src/main.rs:137-160 | `>`/`<` change only the pointer by ±1 mod 256; `+`/`-` change only the current cell by ±1 mod 256; `.` appends the current cell to the output; `,` stores the next input byte and consumes it, or changes nothing once the input is exhausted |
| `Interpreter.MovesCancel` | src/main.rs:137-142 | `>` then `<`, and `<` then `>`, restore the state, wraparound included |
| `Interpreter.CellUpdatesCancel` | src/main.rs:143-148 | `+` then `-`, and `-` then `+`, restore the state, wraparound included |
| `Interpreter.Wraparound` | src/main.rs:138-147 | `-` on a zero cell gives 255; `<` from cell 0 goes to 255, and `>` from 255 goes to 0 |
| `Interpreter.Increments` | src/main.rs:143-145 | `n` increments add `n` to the current cell modulo 256 and change nothing else |
| `Interpreter.IncrementWraps` | src/main.rs:143-145 | 256 increments bring any state back to itself |
| `Interpreter.RunAppend` | src/main.rs:135 | running a concatenation runs the first part, then the rest on the state it leaves |
| `Interpreter.RunMonotone` | src/main.rs:135-166 | a run that finishes gives the same result with any larger fuel |
| `Interpreter.RunLoopMonotone` | src/main.rs:161-165 | a loop that finishes gives the same result with any larger fuel |
| `Interpreter.RunDeterministic` | src/main.rs:134-168 | two finished runs of the same program on the same state and input end in the same state and output |
| `Interpreter.LoopExitsOnZero` | src/main.rs:162 | a loop that finishes leaves the current cell at zero |
| `Interpreter.LoopSkipped` | src/main.rs:162 | a loop entered on a zero cell runs its body zero times and changes nothing |
| `Interpreter.ClearLoop` | src/main.rs:161-165 | `[-]` from a cell holding `v` ends after `v` iterations with that cell at zero and nothing else changed; with less fuel it does not finish |
| `Interpreter.RunStreams` | src/main.rs:149-160 | a finished run leaves a suffix of the input unread and only appends to the output |
| `Interpreter.RunLoopStreams` | src/main.rs:161-165 | the same for a finished loop |
| `Interpreter.Echo` | src/main.rs:149-160 | `,.` writes exactly the byte it reads and consumes it |
| `Interpreter.Machine.constructor` | src/main.rs:129-130 | the machine starts with 256 zero cells, the pointer at 0 and no output |
| `Interpreter.Machine.Interpreter` | src/main.rs:134-168 | updating the memory array and pointer in place, it finishes within the fuel exactly when `Run` does, and it then leaves the state `Run` gives; the array is never replaced |
| `Interpreter.RunInterpreter` | src/main.rs:128-132 | running on a fresh machine gives exactly `Run` from the initial state |
| `Pipeline.Execute` | src/main.rs:16-25 | a program whose brackets do not balance is rejected and never parsed or run; otherwise the tree that is run flattens back to the program's tokens and the result is `Run` from the initial state |
| `Pipeline.CountToThree` | src/main.rs:16-25 | `+++.` parses only to three increments and an output, and with empty input it outputs the single byte 3 |
| `Pipeline.EchoByte` | src/main.rs:16-25 | `,.` parses only to input-then-output, and echoes its input byte |
| `Pipeline.ClearOnFreshTape` | src/main.rs:161-165 | `[-]` parses only to a loop around a decrement, and on the fresh zero tape it is a no-op |
| `Pipeline.OpenLoopRejected` | src/main.rs:18-21 | `[+` is rejected by the validator, so nothing is run |

## Left out

- Command-line parsing and reading the program file (src/main.rs:1-14) are library and I/O plumbing. `Execute` starts from the program text.
- The `ERROR: invalid syntax` message (src/main.rs:19) is terminal output. Only the rule that an invalid program is never parsed or run is modelled.
- Standard input and output are the byte sequences `input` and `output`. A read error is treated like the end of input: the Rust code's `ok()` turns both into `None`. The UTF-8 encoding that `as char` and `print!` give bytes of 128 and above is not modelled. Output is the sequence of cell values.
- Debug-build overflow panics on `u8` `+= 1` / `-= 1` are not modelled. Wraparound, the release-build behaviour, is modelled instead.
- Call-stack exhaustion from deep nesting in `parse` and `interpreter` is not modelled. It is a runtime resource limit.
- The validator's counter is an `i32` in the Rust code. Its overflow, which needs more than 2^31 unmatched `[`, is not modelled. The model's counter is unbounded.
- Parser.Parse: requires the range to be accepted by the validator, which `main` guarantees. The Rust code's behaviour on an unbalanced range is not described: a panic at src/main.rs:121 or an out-of-bounds index at src/main.rs:106.
- Interpreter.Machine.Interpreter: runs within a fuel bound and reports whether it finished. The Rust code has no bound and may run forever. When the fuel runs out, the contract does not describe the partial state left behind.
- Interpreter.RunInterpreter: takes the same fuel bound and returns `None` when it runs out. The Rust code runs without a bound.
