/**
 * The tree builder (src/main.rs:75-126): a balanced token range becomes a
 * sequence of commands in which every matching `Begin`/`End` pair has become
 * a `Loop` node owning the commands strictly between the brackets.
 */
module Parser {
  import opened Lexer
  import opened Syntax

  /** The instruction tree: six primitive commands and the loop, which owns its body. */
  datatype Command = Right | Left | Inc | Dec | Out | In | Loop(body: seq<Command>)

  /** The tokens a command stands for: a loop is its body between brackets. */
  function Emit(c: Command): seq<Token>
  {
    match c
    case Right => [Token.Right]
    case Left => [Token.Left]
    case Inc => [Token.Inc]
    case Dec => [Token.Dec]
    case Out => [Token.Out]
    case In => [Token.In]
    case Loop(body) => [Begin] + Flatten(body) + [End]
  }

  /** The token sequence a command sequence stands for. */
  function Flatten(cs: seq<Command>): seq<Token>
  {
    if cs == [] then [] else Flatten(cs[..|cs| - 1]) + Emit(cs[|cs| - 1])
  }

  /** Appending a command appends its tokens. */
  lemma FlattenSnoc(cs: seq<Command>, c: Command)
    ensures Flatten(cs + [c]) == Flatten(cs) + Emit(c)
  {
    assert (cs + [c])[..|cs|] == cs;
  }

  /** Flattening distributes over concatenation. */
  lemma {:induction false} FlattenAppend(a: seq<Command>, b: seq<Command>)
    ensures Flatten(a + b) == Flatten(a) + Flatten(b)
  {
    if b == [] {
      assert a + b == a;
    } else {
      var b' := b[..|b| - 1];
      assert a + b == (a + b') + [b[|b| - 1]];
      FlattenSnoc(a + b', b[|b| - 1]);
      FlattenAppend(a, b');
      FlattenSnoc(b', b[|b| - 1]);
      assert b == b' + [b[|b| - 1]];
    }
  }

  /** Every command stands for at least one token. */
  lemma EmitNonEmpty(c: Command)
    ensures |Emit(c)| >= 1
    ensures !c.Loop? ==> |Emit(c)| == 1
  {
  }

  /** A single command's tokens are balanced. */
  lemma {:induction false} EmitBalanced(c: Command)
    ensures Balanced(Emit(c))
    decreases c
  {
    if c.Loop? {
      FlattenBalanced(c.body);
      BalancedWrap(Flatten(c.body));
    } else {
      var t := Emit(c)[0];
      assert Emit(c) == [t];
      assert [t][..0] == [] && [t][..1] == [t];
    }
  }

  /** Every command sequence flattens to a balanced token sequence, so the validator accepts it. */
  lemma {:induction false} FlattenBalanced(cs: seq<Command>)
    ensures Balanced(Flatten(cs))
    decreases cs
  {
    if cs != [] {
      FlattenBalanced(cs[..|cs| - 1]);
      EmitBalanced(cs[|cs| - 1]);
      BalancedConcat(Flatten(cs[..|cs| - 1]), Emit(cs[|cs| - 1]));
    }
  }

  /** Every proper nonempty suffix of a command's tokens closes more loops than it opens. */
  lemma EmitSuffixCloses(d: Command, k: nat)
    requires 0 < k < |Emit(d)|
    ensures Depth(Emit(d)[k..]) < 0
  {
    if d.Loop? {
      var w := Emit(d);
      FlattenBalanced(d.body);
      BalancedWrap(Flatten(d.body));
      assert w == w[..k] + w[k..];
      DepthAppend(w[..k], w[k..]);
      assert PrefixDepth(w, k) >= 1;
      assert w[..|w|] == w;
    }
  }

  /** Two command sequences with the same tokens, one command at the end of each: the last commands have equally many tokens. */
  lemma EmitLengthsAgree(x: seq<Token>, c: Command, y: seq<Token>, d: Command)
    requires x + Emit(c) == y + Emit(d)
    ensures |Emit(c)| == |Emit(d)|
  {
    var ec, ed := Emit(c), Emit(d);
    EmitNonEmpty(c);
    EmitNonEmpty(d);
    if |ec| < |ed| {
      var k := |ed| - |ec|;
      assert ed[k..] == ec by {
        forall p | 0 <= p < |ec| ensures ed[k + p] == ec[p] {
          assert (x + ec)[|x| + p] == (y + ed)[|y| + k + p];
        }
      }
      EmitSuffixCloses(d, k);
      EmitBalanced(c);
    } else if |ed| < |ec| {
      var k := |ec| - |ed|;
      assert ec[k..] == ed by {
        forall p | 0 <= p < |ed| ensures ec[k + p] == ed[p] {
          assert (x + ec)[|x| + k + p] == (y + ed)[|y| + p];
        }
      }
      EmitSuffixCloses(c, k);
      EmitBalanced(d);
    }
  }

  /** A command is determined by its tokens. */
  lemma {:induction false} EmitInjective(c: Command, d: Command)
    requires Emit(c) == Emit(d)
    ensures c == d
    decreases c
  {
    EmitNonEmpty(c);
    EmitNonEmpty(d);
    if c.Loop? && d.Loop? {
      var fc, fd := Flatten(c.body), Flatten(d.body);
      assert fc == Emit(c)[1..|Emit(c)| - 1];
      assert fd == Emit(d)[1..|Emit(d)| - 1];
      FlattenInjective(c.body, d.body);
    }
  }

  /**
   * A command sequence is determined by its tokens: the tree the parser
   * builds for a balanced range is the only one that flattens to it.
   */
  lemma {:induction false} FlattenInjective(a: seq<Command>, b: seq<Command>)
    requires Flatten(a) == Flatten(b)
    ensures a == b
    decreases a
  {
    if a == [] || b == [] {
      if a != [] {
        EmitNonEmpty(a[|a| - 1]);
      }
      if b != [] {
        EmitNonEmpty(b[|b| - 1]);
      }
    } else {
      var a', c := a[..|a| - 1], a[|a| - 1];
      var b', d := b[..|b| - 1], b[|b| - 1];
      EmitLengthsAgree(Flatten(a'), c, Flatten(b'), d);
      var n := |Flatten(a)| - |Emit(c)|;
      assert Flatten(a') == Flatten(a)[..n] && Flatten(b') == Flatten(b)[..n];
      assert Emit(c) == Flatten(a)[n..] && Emit(d) == Flatten(b)[n..];
      FlattenInjective(a', b');
      EmitInjective(c, d);
      assert a == a' + [c] && b == b' + [d];
    }
  }

  /** One primitive command parsed at position `i`: the parsed prefix grows by one token and the rest stays balanced. */
  lemma ParsePrimitive(tokens: seq<Token>, lo: nat, i: nat, hi: nat, commands: seq<Command>, c: Command)
    requires lo <= i < hi <= |tokens|
    requires Flatten(commands) == tokens[lo..i] && Balanced(tokens[i..hi])
    requires Emit(c) == [tokens[i]] && Delta(tokens[i]) == 0
    ensures Flatten(commands + [c]) == tokens[lo..i + 1]
    ensures Balanced(tokens[i + 1..hi])
  {
    assert tokens[lo..i + 1] == tokens[lo..i] + [tokens[i]];
    FlattenSnoc(commands, c);
    BalancedTail(tokens[i..hi]);
    assert tokens[i..hi][1..] == tokens[i + 1..hi];
  }

  /** A loop parsed from the `Begin` at `i` to its match at `j`: the parsed prefix grows by the loop's tokens. */
  lemma ParseLoop(tokens: seq<Token>, lo: nat, i: nat, j: nat, commands: seq<Command>, body: seq<Command>)
    requires lo <= i < j < |tokens|
    requires Flatten(commands) == tokens[lo..i]
    requires tokens[i..j + 1] == [Begin] + tokens[i + 1..j] + [End]
    requires Flatten(body) == tokens[i + 1..j]
    ensures Flatten(commands + [Loop(body)]) == tokens[lo..j + 1]
  {
    FlattenSnoc(commands, Loop(body));
    assert tokens[lo..j + 1] == tokens[lo..i] + tokens[i..j + 1];
  }

  /** SplitAtMatch restated at the positions of the whole token sequence. */
  lemma MatchSplits(tokens: seq<Token>, i: nat, j: nat, hi: nat)
    requires i < j < hi <= |tokens| && tokens[i] == Begin
    requires Balanced(tokens[i..hi])
    requires Depth(tokens[i..hi][..j - i + 1]) == 0
    requires forall k :: 0 < k <= j - i ==> PrefixDepth(tokens[i..hi], k) >= 1
    ensures tokens[j] == End
    ensures Balanced(tokens[i + 1..j]) && Balanced(tokens[j + 1..hi])
    ensures tokens[i..j + 1] == [Begin] + tokens[i + 1..j] + [End]
  {
    var s := tokens[i..hi];
    SplitAtMatch(s, j - i);
    assert |s| == hi - i;
    assert s[1..j - i] == tokens[i + 1..j] by {
      forall m | i + 1 <= m < j ensures s[m - i] == tokens[m] {
      }
    }
    assert s[j - i + 1..] == tokens[j + 1..hi];
  }

  /**
   * The matching-bracket scan of `parse`: from the `Begin` at `i`, walk
   * forward with a nesting counter starting at one until it first drops to
   * zero. On a balanced range the walk stops before `hi`, at an `End`, and
   * both the tokens strictly between the brackets and those after the match
   * are balanced.
   */
  method MatchingEnd(tokens: seq<Token>, i: nat, hi: nat) returns (j: nat)
    requires i < hi <= |tokens| && tokens[i] == Begin
    requires Balanced(tokens[i..hi])
    ensures i < j < hi && tokens[j] == End
    ensures Balanced(tokens[i + 1..j]) && Balanced(tokens[j + 1..hi])
    ensures tokens[i..j + 1] == [Begin] + tokens[i + 1..j] + [End]
  {
    ghost var s := tokens[i..hi];
    j := i;
    var counter := 1;
    DepthSnoc(s, 0);
    assert s[..0] == [];
    while true
      invariant i <= j < hi
      invariant counter == Depth(s[..j - i + 1])
      invariant forall k :: 0 < k <= j - i + 1 ==> PrefixDepth(s, k) >= 1
      decreases hi - j
    {
      BalancedTotal(s);
      assert j + 1 < hi;
      j := j + 1;
      DepthSnoc(s, j - i);
      assert s[j - i] == tokens[j];
      if tokens[j] == End {
        counter := counter - 1;
        if counter == 0 {
          break;
        }
      } else if tokens[j] == Begin {
        counter := counter + 1;
      }
    }
    MatchSplits(tokens, i, j, hi);
  }

  /**
   * `parse`: build the commands of the token range `[lo, hi)` (the Rust code's
   * `from` and `to`). Primitive tokens become primitive commands; a `Begin`
   * is matched by MatchingEnd, the range strictly between the brackets is
   * parsed into the loop's body, and parsing resumes after the match. An
   * `End` met at this level is the Rust code's panic, which a balanced range
   * never reaches.
   */
  method Parse(tokens: seq<Token>, lo: nat, hi: nat) returns (commands: seq<Command>)
    requires lo <= hi <= |tokens|
    requires Balanced(tokens[lo..hi])
    ensures Flatten(commands) == tokens[lo..hi]
    ensures lo == hi ==> commands == []
    decreases hi - lo
  {
    commands := [];
    var i := lo;
    while i != hi
      invariant lo <= i <= hi
      invariant Flatten(commands) == tokens[lo..i]
      invariant Balanced(tokens[i..hi])
      decreases hi - i
    {
      match tokens[i] {
        case Right =>
          ParsePrimitive(tokens, lo, i, hi, commands, Command.Right);
          commands := commands + [Command.Right];
        case Left =>
          ParsePrimitive(tokens, lo, i, hi, commands, Command.Left);
          commands := commands + [Command.Left];
        case Inc =>
          ParsePrimitive(tokens, lo, i, hi, commands, Command.Inc);
          commands := commands + [Command.Inc];
        case Dec =>
          ParsePrimitive(tokens, lo, i, hi, commands, Command.Dec);
          commands := commands + [Command.Dec];
        case Out =>
          ParsePrimitive(tokens, lo, i, hi, commands, Command.Out);
          commands := commands + [Command.Out];
        case In =>
          ParsePrimitive(tokens, lo, i, hi, commands, Command.In);
          commands := commands + [Command.In];
        case Begin =>
          var loopFrom := i + 1;
          var loopTo := MatchingEnd(tokens, i, hi);
          var body := Parse(tokens, loopFrom, loopTo);
          ParseLoop(tokens, lo, i, loopTo, commands, body);
          commands := commands + [Loop(body)];
          i := loopTo;
        case End =>
          StrayEnd(tokens[i..hi]);
          assert false;
      }
      i := i + 1;
    }
  }
}
