/** Postfix notation: as tokens, and as characters with either one character or the letter `a` and a decimal
    number for every letter. */
module Postfix {
  import opened Regex

  datatype Token = Letter(k: nat) | UnionTok | ConcatTok | StarTok | PlusTok | EpsTok | EmptyTok

  function Tokens(e: Rex): (t: seq<Token>)
    ensures |t| > 0
  {
    match e
    case Empty => [EmptyTok]
    case Eps => [EpsTok]
    case Sym(k) => [Letter(k)]
    case Union(a, b) => Tokens(a) + Tokens(b) + [UnionTok]
    case Concat(a, b) => Tokens(a) + Tokens(b) + [ConcatTok]
    case Star(a) => Tokens(a) + [StarTok]
    case Plus(a) => Tokens(a) + [PlusTok]
  }

  /** What a token does to a stack of expressions. */
  function Push(stack: seq<Rex>, t: Token): seq<Rex> {
    var n := |stack|;
    match t
    case Letter(k) => stack + [Sym(k)]
    case EpsTok => stack + [Eps]
    case EmptyTok => stack + [Empty]
    case UnionTok => if n < 2 then stack else stack[..n - 2] + [Union(stack[n - 2], stack[n - 1])]
    case ConcatTok => if n < 2 then stack else stack[..n - 2] + [Concat(stack[n - 2], stack[n - 1])]
    case StarTok => if n < 1 then stack else stack[..n - 1] + [Star(stack[n - 1])]
    case PlusTok => if n < 1 then stack else stack[..n - 1] + [Plus(stack[n - 1])]
  }

  function Evaluate(stack: seq<Rex>, t: seq<Token>): seq<Rex>
    decreases |t|
  {
    if t == [] then stack else Evaluate(Push(stack, t[0]), t[1..])
  }

  lemma {:induction false} EvaluateConcat(stack: seq<Rex>, s: seq<Token>, t: seq<Token>)
    ensures Evaluate(stack, s + t) == Evaluate(Evaluate(stack, s), t)
    decreases |s|
  {
    if s == [] {
      assert s + t == t;
    } else {
      assert (s + t)[0] == s[0] && (s + t)[1..] == s[1..] + t;
      EvaluateConcat(Push(stack, s[0]), s[1..], t);
    }
  }

  lemma {:induction false} EvaluateTokens(stack: seq<Rex>, e: Rex)
    ensures Evaluate(stack, Tokens(e)) == stack + [e]
    decreases Rank(e), 0
  {
    match e
    case Empty => EvaluateOne(stack, EmptyTok);
    case Eps => EvaluateOne(stack, EpsTok);
    case Sym(k) => EvaluateOne(stack, Letter(k));
    case Union(a, b) => EvaluateBinary(stack, a, b, UnionTok);
    case Concat(a, b) => EvaluateBinary(stack, a, b, ConcatTok);
    case Star(a) => EvaluateUnary(stack, a, StarTok);
    case Plus(a) => EvaluateUnary(stack, a, PlusTok);
  }

  lemma EvaluateOne(stack: seq<Rex>, t: Token)
    ensures Evaluate(stack, [t]) == Push(stack, t)
  {
    assert Evaluate(Push(stack, t), []) == Push(stack, t);
  }

  lemma EvaluateUnary(stack: seq<Rex>, a: Rex, t: Token)
    ensures Evaluate(stack, Tokens(a) + [t]) == Push(stack + [a], t)
    decreases Rank(a), 1
  {
    EvaluateConcat(stack, Tokens(a), [t]);
    EvaluateTokens(stack, a);
    EvaluateOne(stack + [a], t);
  }

  lemma EvaluateBinary(stack: seq<Rex>, a: Rex, b: Rex, t: Token)
    ensures Evaluate(stack, Tokens(a) + Tokens(b) + [t]) == Push(stack + [a] + [b], t)
    decreases Rank(a) + Rank(b), 1
  {
    EvaluateConcat(stack, Tokens(a) + Tokens(b), [t]);
    EvaluateConcat(stack, Tokens(a), Tokens(b));
    EvaluateTokens(stack, a);
    EvaluateTokens(stack + [a], b);
    EvaluateOne(stack + [a] + [b], t);
  }

  /** An expression can be read back from its postfix notation. */
  lemma TokensInjective(e: Rex, f: Rex)
    requires Tokens(e) == Tokens(f)
    ensures e == f
  {
    var none: seq<Rex> := [];
    EvaluateTokens(none, e);
    EvaluateTokens(none, f);
    assert (none + [e])[0] == e && (none + [f])[0] == f;
  }
}
