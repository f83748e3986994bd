/** The characters of the postfix notation: one character per letter for small alphabets, and the letter `a`
    followed by a decimal number otherwise. */
module Notation {
  import opened Regex
  import opened Postfix

  const ITOC := "@abcdefghijklmnopqrstuvwxyz"
  const DIGITS := "0123456789"

  function Decimal(k: nat): (s: string)
    ensures |s| > 0
  {
    if k < 10 then [DIGITS[k]] else Decimal(k / 10) + [DIGITS[k % 10]]
  }

  function LetterChars(k: nat, numbered: bool): (s: string)
    ensures |s| > 0
  {
    if !numbered && k <= 26 then [ITOC[k]] else "a" + Decimal(k)
  }

  function TokenChars(t: Token, numbered: bool): (s: string)
    ensures |s| > 0
  {
    match t
    case Letter(k) => LetterChars(k, numbered)
    case UnionTok => "U"
    case ConcatTok => "."
    case StarTok => "*"
    case PlusTok => "+"
    case EpsTok => "@"
    case EmptyTok => "%"
  }

  function Chars(t: seq<Token>, numbered: bool): string {
    if t == [] then "" else TokenChars(t[0], numbered) + Chars(t[1..], numbered)
  }

  /** The postfix string of an expression. */
  function Text(e: Rex, numbered: bool): string {
    Chars(Tokens(e), numbered)
  }

  lemma {:induction false} CharsConcat(s: seq<Token>, t: seq<Token>, numbered: bool)
    ensures Chars(s + t, numbered) == Chars(s, numbered) + Chars(t, numbered)
  {
    if s == [] {
      assert s + t == t;
    } else {
      assert (s + t)[0] == s[0] && (s + t)[1..] == s[1..] + t;
      CharsConcat(s[1..], t, numbered);
    }
  }

  lemma CharsOne(t: Token, numbered: bool)
    ensures Chars([t], numbered) == TokenChars(t, numbered)
  {
    assert Chars([], numbered) == "";
  }

  lemma TextNonempty(e: Rex, numbered: bool)
    ensures Text(e, numbered) != ""
  {
    assert Chars(Tokens(e), numbered) == TokenChars(Tokens(e)[0], numbered) + Chars(Tokens(e)[1..], numbered);
  }

  /** The text of compound expressions, as string operations build it. */
  lemma TextUnary(a: Rex, numbered: bool)
    ensures Text(Star(a), numbered) == Text(a, numbered) + "*"
    ensures Text(Plus(a), numbered) == Text(a, numbered) + "+"
  {
    CharsConcat(Tokens(a), [StarTok], numbered);
    CharsConcat(Tokens(a), [PlusTok], numbered);
    CharsOne(StarTok, numbered);
    CharsOne(PlusTok, numbered);
  }

  lemma TextBinary(a: Rex, b: Rex, numbered: bool)
    ensures Text(Union(a, b), numbered) == Text(a, numbered) + Text(b, numbered) + "U"
    ensures Text(Concat(a, b), numbered) == Text(a, numbered) + Text(b, numbered) + "."
  {
    CharsConcat(Tokens(a) + Tokens(b), [UnionTok], numbered);
    CharsConcat(Tokens(a) + Tokens(b), [ConcatTok], numbered);
    CharsConcat(Tokens(a), Tokens(b), numbered);
    CharsOne(UnionTok, numbered);
    CharsOne(ConcatTok, numbered);
  }

  lemma TextLeaf(k: nat, numbered: bool)
    ensures Text(Sym(k), numbered) == LetterChars(k, numbered)
    ensures Text(Eps, numbered) == "@" && Text(Empty, numbered) == "%"
  {
    CharsOne(Letter(k), numbered);
    CharsOne(EpsTok, numbered);
    CharsOne(EmptyTok, numbered);
  }

  predicate IsLetter(c: char) {
    'a' <= c <= 'z'
  }

  predicate IsDigit(c: char) {
    '0' <= c <= '9'
  }

  /** What has been read: the tokens, and the number that the digits behind the last letter make up so far. */
  datatype Scan = Scan(tokens: seq<Token>, num: nat)

  /** Read one character. */
  function Next(s: Scan, c: char): Scan {
    if IsLetter(c) then Scan(s.tokens + [Letter(c as int - 'a' as int + 1)], 0)
    else if IsDigit(c) then
      var num := s.num * 10 + (c as int - '0' as int);
      if s.tokens == [] then Scan([], num) else Scan(s.tokens[|s.tokens| - 1 := Letter(num)], num)
    else
      var t := if c == 'U' then [UnionTok] else if c == '.' then [ConcatTok] else if c == '*' then [StarTok]
               else if c == '+' then [PlusTok] else if c == '@' then [EpsTok] else if c == '%' then [EmptyTok] else [];
      Scan(s.tokens + t, s.num)
  }

  function Read(s: Scan, text: string): Scan
    decreases |text|
  {
    if text == "" then s else Read(Next(s, text[0]), text[1..])
  }

  lemma {:induction false} ReadConcat(s: Scan, v: string, w: string)
    ensures Read(s, v + w) == Read(Read(s, v), w)
    decreases |v|
  {
    if v == "" {
      assert v + w == w;
    } else {
      assert (v + w)[0] == v[0] && (v + w)[1..] == v[1..] + w;
      ReadConcat(Next(s, v[0]), v[1..], w);
    }
  }

  lemma ReadOne(s: Scan, c: char)
    ensures Read(s, [c]) == Next(s, c)
  {
    assert Read(Next(s, c), "") == Next(s, c);
  }

  lemma DigitValue(d: nat)
    requires d < 10
    ensures IsDigit(DIGITS[d]) && !IsLetter(DIGITS[d]) && DIGITS[d] as int - '0' as int == d
  {
  }

  lemma {:induction false} ReadDecimal(t: seq<Token>, x: nat, k: nat)
    ensures Read(Scan(t + [Letter(x)], 0), Decimal(k)) == Scan(t + [Letter(k)], k)
    decreases k
  {
    if k < 10 {
      DigitValue(k);
      ReadOne(Scan(t + [Letter(x)], 0), DIGITS[k]);
      assert (t + [Letter(x)])[|t| := Letter(k)] == t + [Letter(k)];
    } else {
      ReadDecimal(t, x, k / 10);
      ReadConcat(Scan(t + [Letter(x)], 0), Decimal(k / 10), [DIGITS[k % 10]]);
      DigitValue(k % 10);
      ReadOne(Scan(t + [Letter(k / 10)], k / 10), DIGITS[k % 10]);
      assert (t + [Letter(k / 10)])[|t| := Letter(k)] == t + [Letter(k)];
    }
  }

  lemma ReadToken(s: Scan, t: Token, numbered: bool)
    requires t.Letter? ==> 1 <= t.k
    ensures Read(s, TokenChars(t, numbered)).tokens == s.tokens + [t]
  {
    match t
    case Letter(k) =>
      if !numbered && k <= 26 {
        LetterValue(k);
        ReadOne(s, ITOC[k]);
      } else {
        ReadConcat(s, "a", Decimal(k));
        ReadOne(s, 'a');
        ReadDecimal(s.tokens, 1, k);
      }
    case UnionTok => ReadOne(s, 'U');
    case ConcatTok => ReadOne(s, '.');
    case StarTok => ReadOne(s, '*');
    case PlusTok => ReadOne(s, '+');
    case EpsTok => ReadOne(s, '@');
    case EmptyTok => ReadOne(s, '%');
  }

  lemma LetterValue(k: nat)
    requires 1 <= k <= 26
    ensures IsLetter(ITOC[k]) && ITOC[k] as int - 'a' as int + 1 == k
  {
  }

  /** Reading the characters gives back the tokens. */
  lemma {:induction false} ReadChars(s: Scan, t: seq<Token>, numbered: bool)
    requires forall i :: 0 <= i < |t| && t[i].Letter? ==> 1 <= t[i].k
    ensures Read(s, Chars(t, numbered)).tokens == s.tokens + t
    decreases |t|
  {
    if t == [] {
      assert s.tokens + t == s.tokens;
    } else {
      ReadConcat(s, TokenChars(t[0], numbered), Chars(t[1..], numbered));
      ReadToken(s, t[0], numbered);
      var s1 := Read(s, TokenChars(t[0], numbered));
      ReadChars(s1, t[1..], numbered);
      assert s1.tokens + t[1..] == s.tokens + t;
    }
  }

  lemma {:induction false} TokensInRange(e: Rex, k: nat)
    requires WellFormed(e, k)
    ensures forall i :: 0 <= i < |Tokens(e)| && Tokens(e)[i].Letter? ==> 1 <= Tokens(e)[i].k <= k
  {
    match e
    case Empty =>
    case Eps =>
    case Sym(_) =>
    case Union(a, b) =>
      TokensInRange(a, k);
      TokensInRange(b, k);
    case Concat(a, b) =>
      TokensInRange(a, k);
      TokensInRange(b, k);
    case Star(a) => TokensInRange(a, k);
    case Plus(a) => TokensInRange(a, k);
  }

  /** The postfix string determines the expression. */
  lemma TextInjective(e: Rex, f: Rex, k: nat, numbered: bool)
    requires WellFormed(e, k) && WellFormed(f, k) && Text(e, numbered) == Text(f, numbered)
    ensures e == f
  {
    TokensInRange(e, k);
    TokensInRange(f, k);
    var s := Scan([], 0);
    ReadChars(s, Tokens(e), numbered);
    ReadChars(s, Tokens(f), numbered);
    assert s.tokens + Tokens(e) == Tokens(e) && s.tokens + Tokens(f) == Tokens(f);
    TokensInjective(e, f);
  }

  /** The string `%` stands for the empty set alone. */
  lemma EmptySetText(e: Rex, k: nat, numbered: bool)
    requires WellFormed(e, k)
    ensures Text(e, numbered) != "%"
  {
    if Text(e, numbered) == "%" {
      TokensInRange(e, k);
      PercentTokens(Tokens(e), numbered);
      EmptyTokens(e);
    }
  }

  lemma PercentTokens(t: seq<Token>, numbered: bool)
    requires (forall i :: 0 <= i < |t| && t[i].Letter? ==> 1 <= t[i].k) && Chars(t, numbered) == "%"
    ensures t == [EmptyTok]
  {
    var s := Scan([], 0);
    ReadChars(s, t, numbered);
    ReadOne(s, '%');
    assert s.tokens + t == t && s.tokens + [EmptyTok] == [EmptyTok];
  }

  lemma EmptyTokens(e: Rex)
    requires Tokens(e) == [EmptyTok]
    ensures e == Empty
  {
    TokensInjective(e, Empty);
  }

  // ---- what the characters are ----

  /** The value of decimal digits. */
  ghost function Value(s: string): int
    decreases |s|
  {
    if s == "" then 0 else Value(s[..|s| - 1]) * 10 + (s[|s| - 1] as int - '0' as int)
  }

  /** The decimal number k without leading zeros. */
  ghost predicate IsNumber(s: string, k: nat) {
    s != "" && s[0] != '0' && (forall i :: 0 <= i < |s| ==> '0' <= s[i] <= '9') && Value(s) == k
  }

  /** A letter is one of the characters from 'a' on, or an 'a' with its number. */
  ghost predicate Spells(s: string, t: Token, numbered: bool) {
    match t
    case Letter(k) =>
      if numbered then s != "" && s[0] == 'a' && IsNumber(s[1..], k)
      else |s| == 1 && s[0] as int == 'a' as int + k - 1 && k <= 26
    case UnionTok => s == "U"
    case ConcatTok => s == "."
    case StarTok => s == "*"
    case PlusTok => s == "+"
    case EpsTok => s == "@"
    case EmptyTok => s == "%"
  }

  ghost function Flatten(pieces: seq<string>): string {
    if pieces == [] then "" else pieces[0] + Flatten(pieces[1..])
  }

  /** The text is the spelling of the tokens, one after the other. */
  ghost predicate IsSpelled(text: string, tokens: seq<Token>, numbered: bool) {
    exists pieces: seq<string> :: |pieces| == |tokens| && Flatten(pieces) == text
                                  && forall i :: 0 <= i < |tokens| ==> Spells(pieces[i], tokens[i], numbered)
  }

  lemma {:induction false} DecimalIsNumber(k: nat)
    ensures Value(Decimal(k)) == k && (k > 0 ==> Decimal(k)[0] != '0')
    ensures forall i :: 0 <= i < |Decimal(k)| ==> '0' <= Decimal(k)[i] <= '9'
    decreases k
  {
    if k < 10 {
      DigitValue(k);
      assert [DIGITS[k]][..0] == "" && Value("") == 0;
    } else {
      DecimalIsNumber(k / 10);
      DigitValue(k % 10);
      assert (Decimal(k / 10) + [DIGITS[k % 10]])[..|Decimal(k / 10)|] == Decimal(k / 10);
    }
  }

  lemma TokenSpelled(t: Token, letters: nat)
    requires t.Letter? ==> 1 <= t.k <= letters
    ensures Spells(TokenChars(t, letters > 26), t, letters > 26)
  {
    if t.Letter? {
      if letters > 26 {
        DecimalIsNumber(t.k);
        assert ("a" + Decimal(t.k))[1..] == Decimal(t.k);
      } else {
        LetterValue(t.k);
      }
    }
  }

  lemma {:induction false} CharsSpelled(t: seq<Token>, letters: nat) returns (pieces: seq<string>)
    requires forall i :: 0 <= i < |t| && t[i].Letter? ==> 1 <= t[i].k <= letters
    ensures |pieces| == |t| && Flatten(pieces) == Chars(t, letters > 26)
    ensures forall i :: 0 <= i < |t| ==> Spells(pieces[i], t[i], letters > 26)
    decreases |t|
  {
    if t == [] {
      pieces := [];
    } else {
      TokenSpelled(t[0], letters);
      var rest := CharsSpelled(t[1..], letters);
      var first := TokenChars(t[0], letters > 26);
      pieces := [first] + rest;
      assert pieces[1..] == rest;
      forall i | 0 <= i < |t|
        ensures Spells(pieces[i], t[i], letters > 26)
      {
        assert i > 0 ==> t[i] == t[1..][i - 1] && pieces[i] == rest[i - 1];
      }
    }
  }

  /** A letter of a large alphabet is an 'a' with the number of the letter. */
  lemma NumberedLetter(k: nat)
    requires k >= 1
    ensures Text(Sym(k), true)[..1] == "a" && IsNumber(Text(Sym(k), true)[1..], k)
  {
    TextLeaf(k, true);
    DecimalIsNumber(k);
    assert ("a" + Decimal(k))[1..] == Decimal(k);
  }

  /** The text of an expression is the spelling of its tokens. */
  lemma TextSpelled(e: Rex, letters: nat)
    requires WellFormed(e, letters) || e == Empty
    ensures IsSpelled(Text(e, letters > 26), Tokens(e), letters > 26)
  {
    if e != Empty {
      TokensInRange(e, letters);
    }
    var pieces := CharsSpelled(Tokens(e), letters);
  }
}
