/** Reading a postfix string: the letters are numbered in order, and only the first symbol of a run of stars and
    pluses is kept. */
module PostfixReader {
  import opened Automata
  import opened Regex
  import opened Postfix
  import opened Notation
  import opened MarkedExpressions
  import opened FollowAutomata
  import opened StackedStars
  import opened ExpressionTapes

  // ---- strings that can be read ----

  /** The rest of a postfix string, when d operands have been read, and a number may go on if word is set. */
  predicate Fits(d: nat, word: bool, text: string)
    decreases |text|
  {
    if text == "" then d == 1
    else
      var c, rest := text[0], text[1..];
      if IsLetter(c) then Fits(d + 1, true, rest)
      else if IsDigit(c) then word && Fits(d, true, rest)
      else if c == '@' then Fits(d + 1, false, rest)
      else if c == 'U' || c == '.' then d >= 2 && Fits(d - 1, false, rest)
      else if c == '*' || c == '+' then d >= 1 && Fits(d, false, rest)
      else false
  }

  lemma {:induction false} FitsWord(d: nat, text: string)
    requires Fits(d, false, text)
    ensures Fits(d, true, text)
  {
  }

  lemma {:induction false} FitsDecimal(d: nat, k: nat, rest: string)
    requires Fits(d, true, rest)
    ensures Fits(d, true, Decimal(k) + rest)
    decreases k
  {
    DigitValue(k % 10);
    var tail := [DIGITS[k % 10]] + rest;
    assert tail[1..] == rest;
    if k < 10 {
      assert Decimal(k) + rest == tail;
    } else {
      FitsDecimal(d, k / 10, tail);
      assert Decimal(k) + rest == Decimal(k / 10) + tail;
    }
  }

  lemma FitsCons(d: nat, word: bool, c: char, rest: string)
    requires IsLetter(c) && Fits(d + 1, true, rest)
    ensures Fits(d, word, [c] + rest)
  {
    assert ([c] + rest)[1..] == rest;
  }

  lemma FitsLetter(d: nat, word: bool, k: nat, numbered: bool, rest: string)
    requires 1 <= k && Fits(d + 1, false, rest)
    ensures Fits(d, word, LetterChars(k, numbered) + rest)
  {
    FitsWord(d + 1, rest);
    hide Decimal, Fits;
    if !numbered && k <= 26 {
      LetterValue(k);
      FitsCons(d, word, ITOC[k], rest);
    } else {
      FitsDecimal(d + 1, k, rest);
      FitsCons(d, word, 'a', Decimal(k) + rest);
      assert LetterChars(k, numbered) + rest == ['a'] + (Decimal(k) + rest);
    }
  }

  lemma FitsOp(d: nat, word: bool, c: char, rest: string)
    ensures c == '@' && Fits(d + 1, false, rest) ==> Fits(d, word, [c] + rest)
    ensures (c == 'U' || c == '.') && Fits(d + 1, false, rest) ==> Fits(d + 2, word, [c] + rest)
    ensures (c == '*' || c == '+') && Fits(d + 1, false, rest) ==> Fits(d + 1, word, [c] + rest)
  {
    assert ([c] + rest)[1..] == rest;
  }

  /** Every text of a well-formed expression can be read as one more operand. */
  lemma {:induction false} FitsText(e: Rex, letters: nat, numbered: bool, d: nat, word: bool, rest: string)
    requires WellFormed(e, letters) && Fits(d + 1, false, rest)
    ensures Fits(d, word, Text(e, numbered) + rest)
    decreases Rank(e), 1
  {
    hide Text;
    TextLeaf(0, numbered);
    match e
    case Eps => FitsOp(d, word, '@', rest);
    case Sym(k) =>
      TextLeaf(k, numbered);
      FitsLetter(d, word, k, numbered, rest);
    case Union(a, b) => FitsBinary(e, letters, numbered, d, word, 'U', rest);
    case Concat(a, b) => FitsBinary(e, letters, numbered, d, word, '.', rest);
    case Star(a) =>
      TextUnary(a, numbered);
      FitsOp(d, false, '*', rest);
      FitsText(a, letters, numbered, d, word, "*" + rest);
      assert Text(e, numbered) + rest == Text(a, numbered) + ("*" + rest);
    case Plus(a) =>
      TextUnary(a, numbered);
      FitsOp(d, false, '+', rest);
      FitsText(a, letters, numbered, d, word, "+" + rest);
      assert Text(e, numbered) + rest == Text(a, numbered) + ("+" + rest);
  }

  lemma FitsBinary(e: Rex, letters: nat, numbered: bool, d: nat, word: bool, op: char, rest: string)
    requires (e.Union? && op == 'U') || (e.Concat? && op == '.')
    requires WellFormed(e, letters) && Fits(d + 1, false, rest)
    ensures Fits(d, word, Text(e, numbered) + rest)
    decreases Rank(e), 0
  {
    hide Text;
    TextBinary(e.left, e.right, numbered);
    FitsOp(d, false, op, rest);
    FitsText(e.right, letters, numbered, d + 1, false, [op] + rest);
    FitsText(e.left, letters, numbered, d, word, Text(e.right, numbered) + ([op] + rest));
    assert Text(e, numbered) + rest == Text(e.left, numbered) + (Text(e.right, numbered) + ([op] + rest));
  }

  // ---- the expression that a string stands for ----

  ghost function AllTokens(stack: seq<Rex>): seq<Token> {
    if stack == [] then [] else AllTokens(stack[..|stack| - 1]) + Tokens(stack[|stack| - 1])
  }

  lemma TokensOnTop(stack: seq<Rex>, e: Rex)
    ensures AllTokens(stack + [e]) == AllTokens(stack) + Tokens(e)
  {
    assert (stack + [e])[..|stack|] == stack;
  }

  /** One character turns the operands read so far into others. */
  lemma ParseChar(stack: seq<Rex>, s: Scan, word: bool, c: char, rest: string) returns (stack': seq<Rex>, word': bool)
    requires Fits(|stack|, word, [c] + rest) && s.tokens == AllTokens(stack)
    requires word ==> stack != [] && stack[|stack| - 1].Sym?
    ensures Fits(|stack'|, word', rest) && Next(s, c).tokens == AllTokens(stack')
    ensures word' ==> stack' != [] && stack'[|stack'| - 1].Sym?
  {
    assert ([c] + rest)[1..] == rest;
    var n := |stack|;
    word' := IsLetter(c) || IsDigit(c);
    if IsLetter(c) {
      stack' := stack + [Sym(c as int - 'a' as int + 1)];
      TokensOnTop(stack, Sym(c as int - 'a' as int + 1));
    } else if IsDigit(c) {
      var below, k := stack[..n - 1], stack[n - 1].letter;
      var num := s.num * 10 + (c as int - '0' as int);
      stack' := below + [Sym(num)];
      TokensOnTop(below, Sym(num));
      assert s.tokens == AllTokens(below) + [Letter(k)];
    } else if c == '@' {
      stack' := stack + [Eps];
      TokensOnTop(stack, Eps);
    } else if c == 'U' || c == '.' {
      stack' := ParseBinary(stack, s, c);
    } else {
      var below, a := stack[..n - 1], stack[n - 1];
      var e := if c == '*' then Star(a) else Plus(a);
      stack' := below + [e];
      TokensOnTop(below, e);
    }
  }

  lemma ParseBinary(stack: seq<Rex>, s: Scan, c: char) returns (stack': seq<Rex>)
    requires (c == 'U' || c == '.') && |stack| >= 2 && s.tokens == AllTokens(stack)
    ensures |stack'| == |stack| - 1 && Next(s, c).tokens == AllTokens(stack')
  {
    var n := |stack|;
    var below, a, b := stack[..n - 2], stack[n - 2], stack[n - 1];
    var e := if c == 'U' then Union(a, b) else Concat(a, b);
    stack' := below + [e];
    TokensOnTop(below, e);
    TokensOnTop(below, a);
    TokensOnTop(below + [a], b);
    assert stack == below + [a] + [b];
    Regroup(AllTokens(below), Tokens(a), Tokens(b), Tokens(e)[|Tokens(a)| + |Tokens(b)|..]);
  }

  /** What is read to the end is one expression. */
  lemma {:induction false} Parse(stack: seq<Rex>, s: Scan, word: bool, rest: string) returns (e: Rex)
    requires Fits(|stack|, word, rest) && s.tokens == AllTokens(stack)
    requires word ==> stack != [] && stack[|stack| - 1].Sym?
    ensures Read(s, rest).tokens == Tokens(e)
    decreases |rest|
  {
    if rest == "" {
      var none: seq<Rex> := [];
      e := stack[0];
      assert stack == none + [e];
      TokensOnTop(none, e);
      assert AllTokens(none) + Tokens(e) == Tokens(e);
    } else {
      assert rest == [rest[0]] + rest[1..];
      var stack', word' := ParseChar(stack, s, word, rest[0], rest[1..]);
      e := Parse(stack', Next(s, rest[0]), word', rest[1..]);
    }
  }

  /** The expression that a string stands for, in either notation or in a mixture of both. */
  ghost function Expression(text: string): (e: Rex)
    requires Fits(0, false, text)
    ensures Tokens(e) == Read(Scan([], 0), text).tokens
  {
    IsExpression(text);
    Evaluate([], Read(Scan([], 0), text).tokens)[0]
  }

  lemma IsExpression(text: string)
    requires Fits(0, false, text)
    ensures var stack := Evaluate([], Read(Scan([], 0), text).tokens);
            |stack| == 1 && Tokens(stack[0]) == Read(Scan([], 0), text).tokens
  {
    var none: seq<Rex> := [];
    var e := Parse(none, Scan([], 0), false, text);
    EvaluateTokens(none, e);
    assert none + [e] == [e];
  }

  /** The text of an expression stands for it. */
  lemma TextExpression(e: Rex, letters: nat, numbered: bool)
    requires WellFormed(e, letters)
    ensures Fits(0, false, Text(e, numbered)) && Expression(Text(e, numbered)) == e
  {
    FitsText(e, letters, numbered, 0, false, "");
    assert Text(e, numbered) + "" == Text(e, numbered);
    ReadAll(e, letters, numbered);
    TokensInjective(e, Expression(Text(e, numbered)));
  }

  lemma ReadAll(e: Rex, letters: nat, numbered: bool)
    requires WellFormed(e, letters)
    ensures Read(Scan([], 0), Text(e, numbered)).tokens == Tokens(e)
  {
    TokensInRange(e, letters);
    ReadChars(Scan([], 0), Tokens(e), numbered);
    var none: seq<Token> := [];
    assert none + Tokens(e) == Tokens(e);
  }

  // ---- the tokens that are kept ----

  predicate IsStarToken(t: Token) {
    t.StarTok? || t.PlusTok?
  }

  /** Read one more token: a star or plus behind a star or plus is dropped. */
  function Keep(kept: seq<Token>, t: Token): seq<Token> {
    if IsStarToken(t) && kept != [] && IsStarToken(kept[|kept| - 1]) then kept else kept + [t]
  }

  function Compress(t: seq<Token>): seq<Token> {
    if t == [] then [] else Keep(Compress(t[..|t| - 1]), t[|t| - 1])
  }

  lemma CompressOne(s: seq<Token>, t: Token)
    ensures Compress(s + [t]) == Keep(Compress(s), t)
  {
    assert (s + [t])[..|s|] == s;
  }

  lemma TokensLast(e: Rex)
    ensures IsStarToken(Tokens(e)[|Tokens(e)| - 1]) <==> IsStarred(e)
  {
  }

  lemma {:induction false} CompressTokens(s: seq<Token>, e: Rex)
    ensures Compress(s + Tokens(e)) == Compress(s) + Tokens(Squash(e))
    decreases Rank(e), 1
  {
    match e
    case Empty => CompressOne(s, EmptyTok);
    case Eps => CompressOne(s, EpsTok);
    case Sym(k) => CompressOne(s, Letter(k));
    case Union(a, b) => CompressBinary(s, a, b, UnionTok);
    case Concat(a, b) => CompressBinary(s, a, b, ConcatTok);
    case Star(a) => CompressUnary(s, a, StarTok);
    case Plus(a) => CompressUnary(s, a, PlusTok);
  }

  lemma CompressBinary(s: seq<Token>, a: Rex, b: Rex, t: Token)
    requires !IsStarToken(t)
    ensures Compress(s + (Tokens(a) + Tokens(b) + [t])) == Compress(s) + (Tokens(Squash(a)) + Tokens(Squash(b)) + [t])
    decreases Rank(a) + Rank(b) + 1, 0
  {
    hide Tokens, Squash, Compress;
    CompressTokens(s, a);
    CompressTokens(s + Tokens(a), b);
    CompressOne(s + Tokens(a) + Tokens(b), t);
    Regroup(s, Tokens(a), Tokens(b), [t]);
    assert s + (Tokens(a) + Tokens(b) + [t]) == s + Tokens(a) + Tokens(b) + [t];
    assert Compress(s) + (Tokens(Squash(a)) + Tokens(Squash(b)) + [t])
        == Compress(s) + Tokens(Squash(a)) + Tokens(Squash(b)) + [t];
  }

  lemma CompressUnary(s: seq<Token>, a: Rex, t: Token)
    requires IsStarToken(t)
    ensures Compress(s + (Tokens(a) + [t])) ==
      Compress(s) + (if IsStarred(a) then Tokens(Squash(a)) else Tokens(Squash(a)) + [t])
    decreases Rank(a) + 1, 0
  {
    hide Tokens, Squash, Compress;
    CompressTokens(s, a);
    CompressOne(s + Tokens(a), t);
    TokensLast(Squash(a));
    assert s + (Tokens(a) + [t]) == s + Tokens(a) + [t];
  }

  // ---- the signs that are written ----

  function OpToken(c: char): Token {
    if c == 'U' then UnionTok else if c == '.' then ConcatTok else if c == '*' then StarTok
    else if c == '+' then PlusTok else if c == '@' then EpsTok else EmptyTok
  }

  ghost function SignToken(s: Sign, lab: seq<nat>): Token {
    match s
    case Op(c) => OpToken(c)
    case Pos(k) => Letter(LetterOf(lab, k))
    case Jump(_) => EmptyTok
  }

  ghost function SignTokens(s: seq<Sign>, lab: seq<nat>): (t: seq<Token>)
    ensures |t| == |s| && forall i :: 0 <= i < |s| ==> t[i] == SignToken(s[i], lab)
  {
    seq(|s|, i requires 0 <= i < |s| => SignToken(s[i], lab))
  }

  lemma SignTokensConcat(s: seq<Sign>, t: seq<Sign>, lab: seq<nat>)
    ensures SignTokens(s + t, lab) == SignTokens(s, lab) + SignTokens(t, lab)
  {
  }

  lemma SignTokensOne(s: Sign, lab: seq<nat>)
    ensures SignTokens([s], lab) == [SignToken(s, lab)]
  {
  }

  lemma {:induction false} PostTokens(e: Rex, lab: seq<nat>)
    ensures SignTokens(Post(e), lab) == Tokens(Unmark(e, lab))
  {
    SignTokensOne(Post(e)[|Post(e)| - 1], lab);
    match e
    case Empty =>
    case Eps =>
    case Sym(_) =>
    case Union(a, b) =>
      PostTokens(a, lab);
      PostTokens(b, lab);
      SignTokensConcat(Post(a), Post(b), lab);
      SignTokensConcat(Post(a) + Post(b), [Op('U')], lab);
    case Concat(a, b) =>
      PostTokens(a, lab);
      PostTokens(b, lab);
      SignTokensConcat(Post(a), Post(b), lab);
      SignTokensConcat(Post(a) + Post(b), [Op('.')], lab);
    case Star(a) =>
      PostTokens(a, lab);
      SignTokensConcat(Post(a), [Op('*')], lab);
    case Plus(a) =>
      PostTokens(a, lab);
      SignTokensConcat(Post(a), [Op('+')], lab);
  }

  /** The positions are numbered upwards within 1..n. */
  ghost predicate Numbered(s: seq<Sign>, n: nat) {
    && (forall i :: 0 <= i < |s| && s[i].Pos? ==> 1 <= s[i].k <= n)
    && (forall i, j :: 0 <= i < j < |s| && s[i].Pos? && s[j].Pos? ==> s[i].k < s[j].k)
  }

  lemma NumberedParts(s: seq<Sign>, t: seq<Sign>, n: nat)
    requires Numbered(s + t, n)
    ensures Numbered(s, n) && Numbered(t, n)
    ensures forall i, j :: 0 <= i < |s| && 0 <= j < |t| && s[i].Pos? && t[j].Pos? ==> s[i].k != t[j].k
  {
    var u := s + t;
    assert forall i :: 0 <= i < |s| ==> u[i] == s[i];
    assert forall j :: 0 <= j < |t| ==> u[|s| + j] == t[j];
  }

  lemma {:induction false} PositionIndex(e: Rex, k: nat) returns (i: nat)
    requires k in Positions(e)
    ensures i < |Post(e)| && Post(e)[i] == Pos(k)
    decreases Rank(e), 1
  {
    match e
    case Sym(_) => i := 0;
    case Union(a, b) => i := PositionIndexBinary(a, b, k);
    case Concat(a, b) => i := PositionIndexBinary(a, b, k);
    case Star(a) => i := PositionIndex(a, k);
    case Plus(a) => i := PositionIndex(a, k);
  }

  lemma PositionIndexBinary(a: Rex, b: Rex, k: nat) returns (i: nat)
    requires k in Positions(a) || k in Positions(b)
    ensures i < |Post(a) + Post(b)| && (Post(a) + Post(b))[i] == Pos(k)
    decreases Rank(a) + Rank(b) + 1, 0
  {
    if k in Positions(a) {
      i := PositionIndex(a, k);
    } else {
      i := PositionIndex(b, k);
      i := |Post(a)| + i;
    }
  }

  /** Positions numbered upwards occur once. */
  lemma {:induction false} NumberedLinear(e: Rex, n: nat)
    requires Numbered(Post(e), n)
    ensures Linear(e) && forall k :: k in Positions(e) ==> 1 <= k <= n
    decreases Rank(e), 1
  {
    match e
    case Empty =>
    case Eps =>
    case Sym(_) => assert Post(e)[0] == Pos(e.letter);
    case Union(a, b) =>
      NumberedParts(Post(a) + Post(b), [Op('U')], n);
      NumberedBinary(a, b, n);
    case Concat(a, b) =>
      NumberedParts(Post(a) + Post(b), [Op('.')], n);
      NumberedBinary(a, b, n);
    case Star(a) =>
      NumberedParts(Post(a), [Op('*')], n);
      NumberedLinear(a, n);
    case Plus(a) =>
      NumberedParts(Post(a), [Op('+')], n);
      NumberedLinear(a, n);
  }

  lemma NumberedBinary(a: Rex, b: Rex, n: nat)
    requires Numbered(Post(a) + Post(b), n)
    ensures Linear(a) && Linear(b) && Positions(a) !! Positions(b)
    ensures forall k :: k in Positions(a) || k in Positions(b) ==> 1 <= k <= n
    decreases Rank(a) + Rank(b) + 1, 0
  {
    NumberedParts(Post(a), Post(b), n);
    NumberedLinear(a, n);
    NumberedLinear(b, n);
    forall k | k in Positions(a)
      ensures k !in Positions(b)
    {
      var i := PositionIndex(a, k);
      if k in Positions(b) {
        var j := PositionIndex(b, k);
      }
    }
  }

  // ---- what has been read ----

  ghost function PostAll(stack: seq<Rex>): seq<Sign> {
    if stack == [] then [] else PostAll(stack[..|stack| - 1]) + Post(stack[|stack| - 1])
  }

  ghost function ReserveAll(stack: seq<Rex>): nat {
    if stack == [] then 0 else ReserveAll(stack[..|stack| - 1]) + Reserve(stack[|stack| - 1])
  }

  ghost function ConcatsAll(stack: seq<Rex>): nat {
    if stack == [] then 0 else ConcatsAll(stack[..|stack| - 1]) + Concats(stack[|stack| - 1])
  }

  /** The stack with its last operands replaced by e. */
  lemma StackTop(stack: seq<Rex>, e: Rex)
    ensures PostAll(stack + [e]) == PostAll(stack) + Post(e)
    ensures ReserveAll(stack + [e]) == ReserveAll(stack) + Reserve(e)
    ensures ConcatsAll(stack + [e]) == ConcatsAll(stack) + Concats(e)
  {
    assert (stack + [e])[..|stack|] == stack;
  }

  /** The signs that stand for the tokens read so far, and the expressions they are made of. */
  datatype Progress = Progress(code: seq<Sign>, stack: seq<Rex>, lab: seq<nat>)

  ghost predicate Reading(p: Progress, tokens: seq<Token>, n: nat) {
    && p.code == PostAll(p.stack) && Numbered(p.code, n)
    && |p.lab| == n + 1 && SignTokens(p.code, p.lab) == Compress(tokens)
  }

  lemma ReadingBounds(p: Progress, tokens: seq<Token>, n: nat)
    requires Reading(p, tokens, n)
    ensures |p.lab| == n + 1 && forall i :: 0 <= i < |p.code| && p.code[i].Pos? ==> p.code[i].k <= n
    ensures forall i, j :: 0 <= i < j < |p.code| && p.code[i].Pos? && p.code[j].Pos? ==> p.code[i].k < p.code[j].k
    ensures |Compress(tokens)| == |p.code| && (p.code != [] ==> tokens != [])
  {
  }

  lemma NumberedOne(s: seq<Sign>, x: Sign, n: nat, n': nat)
    requires Numbered(s, n) && n <= n' && (x.Pos? ==> n < x.k <= n')
    ensures Numbered(s + [x], n')
  {
  }

  lemma NewLabel(s: seq<Sign>, lab: seq<nat>, lab': seq<nat>, n: nat)
    requires Numbered(s, n) && n < |lab| && n < |lab'| && forall k :: 1 <= k <= n ==> lab'[k] == lab[k]
    ensures SignTokens(s, lab') == SignTokens(s, lab)
  {
  }

  lemma ReadLetter(p: Progress, tokens: seq<Token>, n: nat, x: nat) returns (p': Progress)
    requires Reading(p, tokens, n)
    ensures Reading(p', tokens + [Letter(x)], n + 1)
    ensures p'.code == p.code + [Pos(n + 1)] && p'.stack == p.stack + [Sym(n + 1)] && p'.lab == p.lab + [x]
    ensures ReserveAll(p'.stack) == ReserveAll(p.stack) && ConcatsAll(p'.stack) == ConcatsAll(p.stack)
  {
    p' := Progress(p.code + [Pos(n + 1)], p.stack + [Sym(n + 1)], p.lab + [x]);
    StackTop(p.stack, Sym(n + 1));
    NumberedOne(p.code, Pos(n + 1), n, n + 1);
    NewLabel(p.code, p.lab, p'.lab, n);
    SignTokensConcat(p.code, [Pos(n + 1)], p'.lab);
    SignTokensOne(Pos(n + 1), p'.lab);
    CompressOne(tokens, Letter(x));
  }

  /** The tokens in front of a letter that has just been read. */
  lemma BeforeLetter(code: seq<Sign>, tokens: seq<Token>, lab: seq<nat>, n: nat)
    requires SignTokens(code + [Pos(n)], lab) == Compress(tokens) && tokens != []
    ensures SignTokens(code, lab) == Compress(tokens[..|tokens| - 1])
  {
    SignTokensConcat(code, [Pos(n)], lab);
    SignTokensOne(Pos(n), lab);
    var s, kept, last := SignTokens(code, lab), Compress(tokens[..|tokens| - 1]), tokens[|tokens| - 1];
    var all := Compress(tokens);
    assert all == s + [Letter(LetterOf(lab, n))];
    assert all[|all| - 1].Letter?;
    assert all == Keep(kept, last);
    assert all == kept + [last];
    assert s == all[..|all| - 1] == kept;
  }

  lemma ReadDigit(p: Progress, tokens: seq<Token>, n: nat, x: nat) returns (p': Progress)
    requires Reading(p, tokens, n) && tokens != [] && n > 0
    requires p.code != [] && p.code[|p.code| - 1] == Pos(n)
    ensures Reading(p', tokens[|tokens| - 1 := Letter(x)], n)
    ensures |p.lab| == n + 1 && p' == p.(lab := p.lab[n := x])
  {
    hide PostAll, Compress, SignToken;
    p' := p.(lab := p.lab[n := x]);
    var before, code := tokens[..|tokens| - 1], p.code[..|p.code| - 1];
    assert p.code == code + [Pos(n)];
    BeforeLetter(code, tokens, p.lab, n);
    assert Numbered(code, n - 1);
    NewLabel(code, p.lab, p'.lab, n - 1);
    ReplacedLetter(code, before, p'.lab, n);
    assert tokens[|tokens| - 1 := Letter(x)] == before + [Letter(x)];
  }

  lemma ReplacedLetter(code: seq<Sign>, tokens: seq<Token>, lab: seq<nat>, n: nat)
    requires SignTokens(code, lab) == Compress(tokens)
    ensures SignTokens(code + [Pos(n)], lab) == Compress(tokens + [Letter(LetterOf(lab, n))])
  {
    SignTokensConcat(code, [Pos(n)], lab);
    SignTokensOne(Pos(n), lab);
    CompressOne(tokens, Letter(LetterOf(lab, n)));
  }

  /** A symbol that is kept and turns the operands on top of the stack into e. */
  lemma ReadSymbol(p: Progress, tokens: seq<Token>, n: nat, c: char, e: Rex, rest: seq<Rex>) returns (p': Progress)
    requires Reading(p, tokens, n) && PostAll(p.stack) + [Op(c)] == PostAll(rest) + Post(e)
    requires IsStarToken(OpToken(c)) && p.code != [] ==> !IsStarToken(SignToken(p.code[|p.code| - 1], p.lab))
    ensures Reading(p', tokens + [OpToken(c)], n)
    ensures p' == Progress(p.code + [Op(c)], rest + [e], p.lab)
  {
    p' := Progress(p.code + [Op(c)], rest + [e], p.lab);
    StackTop(rest, e);
    NumberedOne(p.code, Op(c), n, n);
    SignTokensConcat(p.code, [Op(c)], p.lab);
    SignTokensOne(Op(c), p.lab);
    CompressOne(tokens, OpToken(c));
  }

  /** A symbol that is dropped. */
  lemma ReadDropped(p: Progress, tokens: seq<Token>, n: nat, c: char)
    requires Reading(p, tokens, n) && (c == '*' || c == '+')
    requires p.code != [] && IsStarToken(SignToken(p.code[|p.code| - 1], p.lab))
    ensures Reading(p, tokens + [OpToken(c)], n)
  {
    CompressOne(tokens, OpToken(c));
  }

  /** When one operand has been read, it is the squashed expression with numbered letters. */
  lemma ReadingDone(p: Progress, e: Rex, n: nat)
    requires Reading(p, Tokens(e), n) && |p.stack| == 1
    ensures p.code == Post(p.stack[0]) && Linear(p.stack[0])
    ensures forall k :: k in Positions(p.stack[0]) ==> 1 <= k <= n
    ensures Unmark(p.stack[0], p.lab) == Squash(e)
    ensures ReserveAll(p.stack) == Reserve(p.stack[0]) && ConcatsAll(p.stack) == Concats(p.stack[0])
  {
    hide Tokens, Squash, Compress, Unmark, Positions, Linear, Numbered, Post;
    OneOperand(p.stack);
    var m := p.stack[0];
    NumberedLinear(m, n);
    PostTokens(m, p.lab);
    CompressAll(e);
    TokensInjective(Unmark(m, p.lab), Squash(e));
  }

  lemma OneOperand(stack: seq<Rex>)
    requires |stack| == 1
    ensures PostAll(stack) == Post(stack[0])
    ensures ReserveAll(stack) == Reserve(stack[0]) && ConcatsAll(stack) == Concats(stack[0])
  {
    var none: seq<Rex> := [];
    assert stack == none + [stack[0]];
    StackTop(none, stack[0]);
    assert PostAll(none) + Post(stack[0]) == Post(stack[0]);
  }

  lemma CompressAll(e: Rex)
    ensures Compress(Tokens(e)) == Tokens(Squash(e))
  {
    var none: seq<Token> := [];
    CompressTokens(none, e);
    assert none + Tokens(e) == Tokens(e) && Compress(none) + Tokens(Squash(e)) == Tokens(Squash(e));
  }

  // ---- the arrays that are filled ----

  /** The signs of the postfix arrays. */
  ghost function Code(rex: string, posch: seq<nat>): seq<Sign>
    requires |rex| == |posch|
  {
    seq(|rex|, i requires 0 <= i < |rex| => if rex[i] == 'a' then Pos(posch[i]) else Op(rex[i]))
  }

  lemma CodeAppend(rex: string, posch: seq<nat>, ch: char)
    requires |rex| == |posch| && ch != 'a'
    ensures Code(rex + [ch], posch + [0]) == Code(rex, posch) + [Op(ch)] && |Code(rex, posch)| == |rex|
  {
  }

  /** The expression on top of the postfix form, and its character. */
  lemma TopSign(rex: string, posch: seq<nat>, r: int, e: Rex)
    requires |rex| == |posch| && EndsWith(Code(rex, posch), r, e)
    ensures 0 <= r < |rex|
    ensures var c := rex[r];
      && (c == '%' <==> e.Empty?) && (c == '@' <==> e.Eps?) && (c == 'a' <==> e.Sym?)
      && (c == 'U' <==> e.Union?) && (c == '.' <==> e.Concat?)
      && (c == '*' <==> e.Star?) && (c == '+' <==> e.Plus?)
      && (e.Sym? ==> posch[r] == e.letter)
  {
    EndsWithLast(Code(rex, posch), r, e);
    PostLast(e);
  }

  /** Reads the characters one by one. */
  class Reader {
    var rex: string
    var posch: seq<nat>
    var poslt: seq<nat>
    var stateno: nat
    var length: nat
    var concats: nat
    var num: nat
    var getrex: int
    ghost var p: Progress

    /** The arrays stand for the tokens that have been read. */
    ghost predicate Valid(tokens: seq<Token>)
      reads this
    {
      && |rex| == |posch| == |poslt| && Code(rex, posch) == p.code && Reading(p, tokens, stateno)
      && (forall i :: 0 <= i < |rex| && rex[i] == 'a' ==> poslt[i] == LetterOf(p.lab, posch[i]))
      && length == ReserveAll(p.stack) && concats == ConcatsAll(p.stack)
    }

    /** A number may go on. */
    ghost predicate AtLetter()
      reads this
    {
      |rex| == |posch| && 0 < |rex| && 0 < stateno && rex[|rex| - 1] == 'a' && posch[|rex| - 1] == stateno
    }

    predicate AtStar()
      reads this
    {
      |rex| > 0 && (rex[|rex| - 1] == '*' || rex[|rex| - 1] == '+')
    }

    constructor ()
      ensures Valid([]) && p.stack == [] && num == 0 && rex == ""
    {
      rex, posch, poslt := "", [], [];
      stateno, length, concats, num, getrex := 0, 0, 0, 0, 0;
      p := Progress([], [], [0]);
    }

    method TakeLetter(ch: char, ghost tokens: seq<Token>)
      requires Valid(tokens) && IsLetter(ch)
      modifies this
      ensures Valid(tokens + [Letter(ch as int - 'a' as int + 1)]) && num == 0
      ensures AtLetter() && !AtStar() && |p.stack| == |old(p.stack)| + 1
    {
      hide Reading, Numbered, PostAll, ReserveAll, ConcatsAll;
      ReadingBounds(p, tokens, stateno);
      assert forall i :: 0 <= i < |rex| && rex[i] == 'a' ==> Code(rex, posch)[i] == Pos(posch[i]);
      var a := ch as int - 'a' as int + 1;
      p := ReadLetter(p, tokens, stateno, a);
      stateno := stateno + 1;
      posch := posch + [stateno];
      poslt := poslt + [a];
      rex := rex + ['a'];
      num := 0;
      assert Code(rex, posch) == p.code;
      assert LetterOf(p.lab, stateno) == a;
    }

    method TakeDigit(ch: char, ghost tokens: seq<Token>)
      requires Valid(tokens) && IsDigit(ch) && AtLetter()
      modifies this
      ensures tokens != [] && num == old(num) * 10 + (ch as int - '0' as int)
      ensures Valid(tokens[|tokens| - 1 := Letter(num)])
      ensures AtLetter() && !AtStar() && p.stack == old(p.stack)
    {
      hide Reading, Numbered, PostAll, ReserveAll, ConcatsAll;
      ReadingBounds(p, tokens, stateno);
      assert forall i :: 0 <= i < |rex| && rex[i] == 'a' ==> Code(rex, posch)[i] == Pos(posch[i]);
      assert p.code[|p.code| - 1] == Pos(stateno);
      num := num * 10 + (ch as int - '0' as int);
      poslt := poslt[|rex| - 1 := num];
      p := ReadDigit(p, tokens, stateno, num);
      assert forall i :: 0 <= i < |rex| - 1 && rex[i] == 'a' ==> posch[i] < stateno;
    }

    /** The empty word as an operand, or a union or concatenation of the last two operands. */
    method TakeSymbol(ch: char, ghost tokens: seq<Token>)
      requires Valid(tokens) && (ch == '@' || ((ch == 'U' || ch == '.') && |p.stack| >= 2))
      modifies this
      ensures Valid(tokens + [OpToken(ch)]) && num == old(num) && !AtStar()
      ensures |p.stack| == if ch == '@' then |old(p.stack)| + 1 else |old(p.stack)| - 1
    {
      hide Reading, Numbered, PostAll, ReserveAll, ConcatsAll;
      ghost var rest, e := OnTop(p.stack, ch);
      p := ReadSymbol(p, tokens, stateno, ch, e, rest);
      StackTop(rest, e);
      rex := rex + [ch];
      posch := posch + [0];
      poslt := poslt + [0];
      length := length + 1;
      if ch == '.' {
        concats := concats + 1;
      }
      assert Code(rex, posch) == p.code;
    }

    lemma OnTop(stack: seq<Rex>, ch: char) returns (rest: seq<Rex>, e: Rex)
      requires ch == '@' || ((ch == 'U' || ch == '.') && |stack| >= 2)
      ensures PostAll(stack) + [Op(ch)] == PostAll(rest) + Post(e)
      ensures ReserveAll(stack) + 1 == ReserveAll(rest) + Reserve(e)
      ensures ConcatsAll(stack) + (if ch == '.' then 1 else 0) == ConcatsAll(rest) + Concats(e)
      ensures |rest| == if ch == '@' then |stack| else |stack| - 2
    {
      if ch == '@' {
        rest, e := stack, Eps;
      } else {
        var n := |stack|;
        rest := stack[..n - 2];
        var a, b := stack[n - 2], stack[n - 1];
        e := if ch == 'U' then Union(a, b) else Concat(a, b);
        assert stack[..n - 1][..n - 2] == rest;
        Regroup(PostAll(rest), Post(a), Post(b), [Op(ch)]);
        assert Post(e) == Post(a) + (Post(b) + [Op(ch)]);
      }
    }

    /** A star or plus on the last operand; the signs under it are counted. */
    method TakeStar(ch: char, ghost tokens: seq<Token>)
      requires Valid(tokens) && (ch == '*' || ch == '+') && |p.stack| >= 1 && !AtStar()
      modifies this
      ensures Valid(tokens + [OpToken(ch)]) && num == old(num) && AtStar()
      ensures |p.stack| == |old(p.stack)|
    {
      hide Reading, PostAll, ReserveAll, ConcatsAll, Code, Post, Weight, EndsWith;
      ghost var rest, e := OnTopStar(p.stack, ch);
      NotAtStar();
      p := ReadSymbol(p, tokens, stateno, ch, e, rest);
      CodeAppend(rex, posch, ch);
      rex := rex + [ch];
      posch := posch + [0];
      poslt := poslt + [0];
      AtEnd(Code(rex, posch), PostAll(rest), e);
      getrex := |rex| - 1;
      CountExpr(e);
      length := length + 1;
    }

    lemma OnTopStar(stack: seq<Rex>, ch: char) returns (rest: seq<Rex>, e: Rex)
      requires (ch == '*' || ch == '+') && |stack| >= 1
      ensures PostAll(stack) + [Op(ch)] == PostAll(rest) + Post(e) == PostAll(rest + [e])
      ensures ReserveAll(stack) + Weight(e) + 1 == ReserveAll(rest + [e])
      ensures ConcatsAll(stack) == ConcatsAll(rest + [e])
      ensures |rest| + 1 == |stack|
    {
      var a := stack[|stack| - 1];
      rest := stack[..|stack| - 1];
      e := if ch == '*' then Star(a) else Plus(a);
      assert stack == rest + [a];
      StackTop(rest, a);
      StackTop(rest, e);
    }

    lemma AtEnd(code: seq<Sign>, before: seq<Sign>, e: Rex)
      requires code == before + Post(e)
      ensures EndsWith(code, |code| - 1, e)
    {
    }

    lemma NotAtStar()
      requires |rex| == |posch| && Code(rex, posch) == p.code
      ensures p.code != [] ==> (IsStarToken(SignToken(p.code[|p.code| - 1], p.lab)) <==> AtStar())
    {
    }

    /** Count the signs of an expression. */
    method CountExpr(ghost e: Rex)
      requires |rex| == |posch| && EndsWith(Code(rex, posch), getrex, e)
      modifies this`getrex, this`length
      ensures getrex == old(getrex) - Size(e) && length == old(length) + Weight(e)
      decreases Size(e)
    {
      hide Code, EndsWith;
      TopSign(rex, posch, getrex, e);
      var op := rex[getrex];
      getrex := getrex - 1;
      if op == 'U' || op == '.' {
        EndsWithBinary(Code(rex, posch), getrex + 1, e);
        CountExpr(e.right);
        CountExpr(e.left);
        length := length + 2;
      } else if op == '+' || op == '*' {
        EndsWithUnary(Code(rex, posch), getrex + 1, e);
        CountExpr(e.body);
        length := length + 2;
      } else {
        length := length + 1;
      }
    }
  }

  lemma ReadNext(text: string, i: nat)
    requires i < |text|
    ensures Read(Scan([], 0), text[..i + 1]) == Next(Read(Scan([], 0), text[..i]), text[i])
  {
    assert text[..i + 1] == text[..i] + [text[i]];
    ReadConcat(Scan([], 0), text[..i], [text[i]]);
    ReadOne(Read(Scan([], 0), text[..i]), text[i]);
  }

  lemma NextSymbol(s: Scan, c: char)
    requires c == '@' || c == 'U' || c == '.' || c == '*' || c == '+'
    ensures Next(s, c) == Scan(s.tokens + [OpToken(c)], s.num)
  {
  }

  /** Take the character ch, which is followed by rest. */
  method TakeChar(r: Reader, ch: char, ghost s: Scan, ghost word: bool, ghost rest: string) returns (ghost word': bool)
    requires r.Valid(s.tokens) && r.num == s.num && Fits(|r.p.stack|, word, [ch] + rest)
    requires word ==> r.AtLetter()
    requires r.AtStar() ==> ch != '*' && ch != '+'
    modifies r
    ensures r.Valid(Next(s, ch).tokens) && r.num == Next(s, ch).num && Fits(|r.p.stack|, word', rest)
    ensures word' ==> r.AtLetter()
    ensures r.AtStar() <==> ch == '*' || ch == '+'
    ensures r.AtStar() ==> |r.p.stack| >= 1 && !word'
  {
    hide r.Valid, Reading;
    assert ([ch] + rest)[1..] == rest;
    word' := false;
    if IsLetter(ch) {
      r.TakeLetter(ch, s.tokens);
      word' := true;
    } else if IsDigit(ch) {
      r.TakeDigit(ch, s.tokens);
      word' := true;
    } else if ch == '@' || ch == 'U' || ch == '.' {
      NextSymbol(s, ch);
      r.TakeSymbol(ch, s.tokens);
    } else {
      NextSymbol(s, ch);
      r.TakeStar(ch, s.tokens);
    }
  }

  /** Read a whole postfix string. */
  method ReadPostfix(exprex: string) returns (r: Reader)
    requires Fits(0, false, exprex)
    ensures fresh(r) && |r.p.stack| == 1 && r.Valid(Tokens(Expression(exprex)))
  {
    hide Reading;
    r := new Reader();
    var i := 0;
    ghost var s, word := Scan([], 0), false;
    assert exprex[..0] == "" && exprex[0..] == exprex;
    while i < |exprex|
      invariant i <= |exprex| && s == Read(Scan([], 0), exprex[..i]) && fresh(r)
      invariant r.Valid(s.tokens) && r.num == s.num && Fits(|r.p.stack|, word, exprex[i..])
      invariant word ==> r.AtLetter()
      invariant r.AtStar() && i < |exprex| ==> exprex[i] != '*' && exprex[i] != '+'
    {
      ReadNext(exprex, i);
      assert exprex[i..] == [exprex[i]] + exprex[i + 1..];
      word := TakeChar(r, exprex[i], s, word, exprex[i + 1..]);
      s := Next(s, exprex[i]);
      i := i + 1;
      if r.AtStar() {
        i := SkipStars(r, exprex, i, s);
        s := Read(Scan([], 0), exprex[..i]);
      }
    }
    assert exprex[..i] == exprex;
  }

  /** Pass over the stars and pluses behind a star or plus. */
  method SkipStars(r: Reader, exprex: string, i: nat, ghost s: Scan) returns (j: nat)
    requires i <= |exprex| && s == Read(Scan([], 0), exprex[..i]) && r.Valid(s.tokens) && r.num == s.num
    requires r.AtStar() && |r.p.stack| >= 1 && Fits(|r.p.stack|, false, exprex[i..])
    ensures i <= j <= |exprex| && (j < |exprex| ==> exprex[j] != '*' && exprex[j] != '+')
    ensures var s' := Read(Scan([], 0), exprex[..j]); r.Valid(s'.tokens) && r.num == s'.num
    ensures Fits(|r.p.stack|, false, exprex[j..])
  {
    hide Reading;
    j := i;
    while j < |exprex| && (exprex[j] == '*' || exprex[j] == '+')
      invariant i <= j <= |exprex| && Fits(|r.p.stack|, false, exprex[j..])
      invariant var s' := Read(Scan([], 0), exprex[..j]); r.Valid(s'.tokens) && r.num == s'.num
    {
      ghost var s' := Read(Scan([], 0), exprex[..j]);
      ReadNext(exprex, j);
      NextSymbol(s', exprex[j]);
      r.NotAtStar();
      ReadDropped(r.p, s'.tokens, r.stateno, exprex[j]);
      assert exprex[j..][1..] == exprex[j + 1..];
      j := j + 1;
    }
  }
}
