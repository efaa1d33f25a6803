/**
 * The bracket-balance validator (src/main.rs:59-73). A token sequence is
 * balanced when no prefix holds more `End` than `Begin` tokens and the whole
 * sequence holds as many of each.
 */
module Syntax {
  import opened Lexer

  /** How a token moves the open-loop count. */
  function Delta(t: Token): int
  {
    match t
    case Begin => 1
    case End => -1
    case _ => 0
  }

  /** The number of `Begin` minus the number of `End` tokens. */
  function Depth(ts: seq<Token>): int
  {
    if ts == [] then 0 else Depth(ts[..|ts| - 1]) + Delta(ts[|ts| - 1])
  }

  /** The open-loop count after the first `k` tokens. */
  function PrefixDepth(ts: seq<Token>, k: nat): int
    requires k <= |ts|
  {
    Depth(ts[..k])
  }

  /** No prefix closes more loops than it opens, and every opened loop is closed. */
  predicate Balanced(ts: seq<Token>)
  {
    Depth(ts) == 0 && forall k :: 0 <= k <= |ts| ==> PrefixDepth(ts, k) >= 0
  }

  /** A balanced sequence, taken whole, has depth zero as a prefix of itself. */
  lemma BalancedTotal(ts: seq<Token>)
    requires Balanced(ts)
    ensures PrefixDepth(ts, |ts|) == 0
  {
    assert ts[..|ts|] == ts;
  }

  /** The depth of one more token. */
  lemma DepthSnoc(ts: seq<Token>, k: nat)
    requires k < |ts|
    ensures Depth(ts[..k + 1]) == Depth(ts[..k]) + Delta(ts[k])
  {
    assert ts[..k + 1][..k] == ts[..k];
  }

  /** The depth of a concatenation is the sum of the depths. */
  lemma {:induction false} DepthAppend(a: seq<Token>, b: seq<Token>)
    ensures Depth(a + b) == Depth(a) + Depth(b)
  {
    if b != [] {
      var b' := b[..|b| - 1];
      assert (a + b)[..|a + b| - 1] == a + b';
      DepthAppend(a, b');
    } else {
      assert a + b == a;
    }
  }

  /** Every prefix of a concatenation is a prefix of the first part or the first part followed by a prefix of the second. */
  lemma PrefixOfAppend(a: seq<Token>, b: seq<Token>, k: nat)
    requires |a| <= k <= |a| + |b|
    ensures (a + b)[..k] == a + b[..k - |a|]
  {
  }

  /** Two balanced sequences, one after the other, are balanced. */
  lemma BalancedConcat(a: seq<Token>, b: seq<Token>)
    requires Balanced(a) && Balanced(b)
    ensures Balanced(a + b)
  {
    DepthAppend(a, b);
    forall k | 0 <= k <= |a + b|
      ensures PrefixDepth(a + b, k) >= 0
    {
      if k <= |a| {
        assert (a + b)[..k] == a[..k];
        assert PrefixDepth(a, k) >= 0;
      } else {
        PrefixOfAppend(a, b, k);
        DepthAppend(a, b[..k - |a|]);
        assert PrefixDepth(b, k - |a|) >= 0;
        assert a[..|a|] == a;
      }
    }
  }

  /** A balanced sequence between a matching `Begin` and `End` is balanced, and every proper nonempty prefix of the whole is open. */
  lemma {:induction false} BalancedWrap(a: seq<Token>)
    requires Balanced(a)
    ensures Balanced([Begin] + a + [End])
    ensures forall k :: 0 < k < |a| + 2 ==> PrefixDepth([Begin] + a + [End], k) >= 1
  {
    var w := [Begin] + a + [End];
    DepthAppend([Begin] + a, [End]);
    DepthAppend([Begin], a);
    assert Depth([Begin]) == 1 by { assert [Begin][..0] == []; }
    assert Depth([End]) == -1 by { assert [End][..0] == []; }
    forall k | 0 < k < |w|
      ensures PrefixDepth(w, k) >= 1
    {
      assert w[..k] == [Begin] + a[..k - 1];
      DepthAppend([Begin], a[..k - 1]);
      assert PrefixDepth(a, k - 1) >= 0;
    }
    assert w[..|w|] == w;
    assert w[..0] == [];
  }

  /** Dropping a leading token that neither opens nor closes a loop keeps a sequence balanced. */
  lemma BalancedTail(s: seq<Token>)
    requires Balanced(s) && |s| > 0 && Delta(s[0]) == 0
    ensures Balanced(s[1..])
  {
    var t := s[1..];
    assert s == [s[0]] + t;
    assert Depth([s[0]]) == 0 by { assert [s[0]][..0] == []; }
    DepthAppend([s[0]], t);
    forall m | 0 <= m <= |t|
      ensures PrefixDepth(t, m) >= 0
    {
      assert s[..m + 1] == [s[0]] + t[..m];
      DepthAppend([s[0]], t[..m]);
      assert PrefixDepth(s, m + 1) >= 0;
    }
    assert t[..|t|] == t;
    assert s[..|s|] == s;
  }

  /** A sequence that starts with `End` is not balanced: the first `End` has no open `Begin`. */
  lemma StrayEnd(ts: seq<Token>)
    requires |ts| > 0 && ts[0] == End
    ensures !Balanced(ts)
  {
    DepthSnoc(ts, 0);
    assert ts[..0] == [];
    assert PrefixDepth(ts, 1) < 0;
  }

  /**
   * The matching-bracket scan. In a balanced sequence that starts with
   * `Begin`, let `j` be the first position at which the open count returns to
   * zero. Then the tokens strictly between the brackets are balanced, and so
   * are the tokens after the match.
   */
  lemma SplitAtMatch(s: seq<Token>, j: nat)
    requires Balanced(s) && 0 < j < |s| && s[0] == Begin
    requires Depth(s[..j + 1]) == 0
    requires forall k :: 0 < k <= j ==> PrefixDepth(s, k) >= 1
    ensures s[j] == End
    ensures Balanced(s[1..j]) && Balanced(s[j + 1..])
    ensures s == [Begin] + s[1..j] + [End] + s[j + 1..]
  {
    DepthSnoc(s, j);
    assert PrefixDepth(s, j) >= 1;
    assert s[j] == End;
    var inner := s[1..j];
    var rest := s[j + 1..];
    assert [Begin] + inner + [End] == s[..j + 1];
    assert s == s[..j + 1] + rest;
    // Depth of the part strictly inside the brackets.
    assert Depth([Begin]) == 1 by { assert [Begin][..0] == []; }
    assert Depth([End]) == -1 by { assert [End][..0] == []; }
    DepthAppend([Begin] + inner, [End]);
    DepthAppend([Begin], inner);
    forall m | 0 <= m <= |inner|
      ensures PrefixDepth(inner, m) >= 0
    {
      assert s[..m + 1] == [Begin] + inner[..m];
      DepthAppend([Begin], inner[..m]);
      assert PrefixDepth(s, m + 1) >= 1;
    }
    assert inner[..|inner|] == inner;
    // Depth of the part after the match.
    DepthAppend(s[..j + 1], rest);
    forall m | 0 <= m <= |rest|
      ensures PrefixDepth(rest, m) >= 0
    {
      assert s[..j + 1 + m] == s[..j + 1] + rest[..m];
      DepthAppend(s[..j + 1], rest[..m]);
      assert PrefixDepth(s, j + 1 + m) >= 0;
    }
    assert rest[..|rest|] == rest;
    assert s[..|s|] == s;
  }

  /** `syntax_analysis`: count open loops, fail at an `End` with none open, accept iff the count ends at zero. */
  method SyntaxAnalysis(tokens: seq<Token>) returns (valid: bool)
    ensures valid <==> Balanced(tokens)
  {
    var count := 0;
    for i := 0 to |tokens|
      invariant count == Depth(tokens[..i])
      invariant forall k :: 0 <= k <= i ==> PrefixDepth(tokens, k) >= 0
    {
      DepthSnoc(tokens, i);
      if tokens[i] == Begin {
        count := count + 1;
      }
      if tokens[i] == End {
        if count < 1 {
          assert PrefixDepth(tokens, i + 1) < 0;
          return false;
        }
        count := count - 1;
      }
    }
    assert tokens[..|tokens|] == tokens;
    return count == 0;
  }

  /** The verdicts on the small examples: `[]`, `[[]]` and the empty program pass; `]`, `[` and `[[]` fail. */
  lemma ValidatorExamples()
    ensures Balanced([])
    ensures Balanced([Begin, End])
    ensures Balanced([Begin, Begin, End, End])
    ensures !Balanced([End])
    ensures !Balanced([Begin])
    ensures !Balanced([Begin, Begin, End])
  {
    BalancedWrap([]);
    assert [Begin] + [] + [End] == [Begin, End];
    BalancedWrap([Begin, End]);
    assert [Begin] + [Begin, End] + [End] == [Begin, Begin, End, End];
    StrayEnd([End]);
    assert Depth([Begin]) == 1 by { assert [Begin][..0] == []; }
    DepthAppend([Begin], [Begin, End]);
    assert [Begin] + [Begin, End] == [Begin, Begin, End];
  }
}
