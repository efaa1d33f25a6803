/**
 * The lexer: source text to instruction tokens (src/main.rs:28-57).
 * Every one of the eight instruction characters becomes one token, in source
 * order; every other character is a comment and is dropped. Lexing never fails.
 */
module Lexer {
  import opened Wrappers

  /** The eight instruction tokens. */
  datatype Token = Right | Left | Inc | Dec | Out | In | Begin | End

  /** The characters that denote instructions. */
  const Instructions: string := "><+-.,[]"

  /** The character that denotes a token. */
  function Render(t: Token): char
  {
    match t
    case Right => '>'
    case Left => '<'
    case Inc => '+'
    case Dec => '-'
    case Out => '.'
    case In => ','
    case Begin => '['
    case End => ']'
  }

  /** The lexer's match on one character: an instruction character gives its token, any other none. */
  function TokenOf(c: char): (r: Option<Token>)
    ensures r.Some? <==> c in Instructions
    ensures r.Some? ==> Render(r.value) == c
  {
    match c
    case '>' => Some(Right)
    case '<' => Some(Left)
    case '+' => Some(Inc)
    case '-' => Some(Dec)
    case '.' => Some(Out)
    case ',' => Some(In)
    case '[' => Some(Begin)
    case ']' => Some(End)
    case _ => None
  }

  /** The tokens one character contributes: its token, or nothing. */
  function LexChar(c: char): seq<Token>
  {
    match TokenOf(c)
    case Some(t) => [t]
    case None => []
  }

  /** The token sequence of a whole text. */
  function Lex(s: string): seq<Token>
  {
    if s == [] then [] else LexChar(s[0]) + Lex(s[1..])
  }

  /** The textual rendering of a token sequence. */
  function RenderAll(ts: seq<Token>): string
  {
    if ts == [] then [] else [Render(ts[0])] + RenderAll(ts[1..])
  }

  /** The instruction characters of a text, in order; every other character dropped. */
  function Keep(s: string): string
  {
    if s == [] then [] else (if s[0] in Instructions then [s[0]] else []) + Keep(s[1..])
  }

  /** Lexing distributes over concatenation: the lexer looks at one character at a time. */
  lemma {:induction false} LexAppend(a: string, b: string)
    ensures Lex(a + b) == Lex(a) + Lex(b)
  {
    if a == [] {
      assert a + b == b;
    } else {
      assert (a + b)[0] == a[0];
      assert (a + b)[1..] == a[1..] + b;
      LexAppend(a[1..], b);
    }
  }

  /** Rendering then lexing gives back the tokens: each token's character lexes to that token. */
  lemma {:induction false} LexRender(ts: seq<Token>)
    ensures Lex(RenderAll(ts)) == ts
  {
    if ts != [] {
      var s := RenderAll(ts);
      assert s[0] == Render(ts[0]) && s[1..] == RenderAll(ts[1..]);
      LexRender(ts[1..]);
    }
  }

  /**
   * The lexer keeps exactly the instruction characters, one token each, in
   * source order: rendering its output yields the text with every other
   * character removed.
   */
  lemma {:induction false} LexKeepsInstructions(s: string)
    ensures RenderAll(Lex(s)) == Keep(s)
    ensures |Lex(s)| == |Keep(s)|
  {
    if s != [] {
      LexKeepsInstructions(s[1..]);
      var t := TokenOf(s[0]);
      if t.Some? {
        assert Lex(s) == [t.value] + Lex(s[1..]);
        assert RenderAll(Lex(s))[1..] == RenderAll(Lex(s[1..]));
      } else {
        assert Lex(s) == Lex(s[1..]);
      }
    }
  }

  /**
   * Re-lexing the rendered tokens gives the same tokens, and lexing the text
   * stripped of its comments gives the same tokens as lexing the text.
   */
  lemma {:induction false} LexIdempotent(s: string)
    ensures Lex(RenderAll(Lex(s))) == Lex(s)
    ensures Lex(Keep(s)) == Lex(s)
  {
    LexRender(Lex(s));
    LexKeepsInstructions(s);
  }

  /** `lexical_analysis`: push the token of every instruction character, skip the rest. */
  method LexicalAnalysis(text: string) returns (tokens: seq<Token>)
    ensures tokens == Lex(text)
  {
    tokens := [];
    for i := 0 to |text|
      invariant tokens == Lex(text[..i])
    {
      assert text[..i + 1] == text[..i] + [text[i]];
      LexAppend(text[..i], [text[i]]);
      match text[i] {
        case '>' => tokens := tokens + [Right];
        case '<' => tokens := tokens + [Left];
        case '+' => tokens := tokens + [Inc];
        case '-' => tokens := tokens + [Dec];
        case '.' => tokens := tokens + [Out];
        case ',' => tokens := tokens + [In];
        case '[' => tokens := tokens + [Begin];
        case ']' => tokens := tokens + [End];
        case _ =>
      }
    }
    assert text[..|text|] == text;
  }
}
