/** Regular expressions, their languages and their postfix notation. */
module Regex {
  import opened Automata

  /** The empty set, the empty word, a letter, union, concatenation, Kleene star and Kleene plus. */
  datatype Rex =
    | Empty
    | Eps
    | Sym(letter: nat)
    | Union(left: Rex, right: Rex)
    | Concat(left: Rex, right: Rex)
    | Star(body: Rex)
    | Plus(body: Rex)

  ghost function Rank(e: Rex): nat {
    match e
    case Empty => 0
    case Eps => 0
    case Sym(_) => 0
    case Union(a, b) => Rank(a) + Rank(b) + 1
    case Concat(a, b) => Rank(a) + Rank(b) + 1
    case Star(a) => Rank(a) + 1
    case Plus(a) => Rank(a) + 2
  }

  /** w is in the language of e. */
  ghost predicate Matches(e: Rex, w: Word)
    decreases Rank(e), |w|
  {
    match e
    case Empty => false
    case Eps => w == []
    case Sym(k) => w == [k]
    case Union(a, b) => Matches(a, w) || Matches(b, w)
    case Concat(a, b) => exists i :: 0 <= i <= |w| && Matches(a, w[..i]) && Matches(b, w[i..])
    case Star(a) => w == [] || exists i :: 0 < i <= |w| && Matches(a, w[..i]) && Matches(Star(a), w[i..])
    case Plus(a) => exists i :: 0 <= i <= |w| && Matches(a, w[..i]) && Matches(Star(a), w[i..])
  }

  predicate Nullable(e: Rex) {
    match e
    case Empty => false
    case Eps => true
    case Sym(_) => false
    case Union(a, b) => Nullable(a) || Nullable(b)
    case Concat(a, b) => Nullable(a) && Nullable(b)
    case Star(_) => true
    case Plus(a) => Nullable(a)
  }

  lemma {:induction false} NullableExact(e: Rex)
    ensures Nullable(e) <==> Matches(e, [])
  {
    var none: Word := [];
    match e
    case Empty =>
    case Eps =>
    case Sym(_) =>
    case Union(a, b) =>
      NullableExact(a);
      NullableExact(b);
    case Concat(a, b) =>
      NullableExact(a);
      NullableExact(b);
      assert none[..0] == [] && none[0..] == [];
    case Star(_) =>
    case Plus(a) =>
      NullableExact(a);
      assert none[..0] == [] && none[0..] == [];
      assert Matches(Star(a), []);
  }

  lemma ConcatIntro(a: Rex, b: Rex, u: Word, v: Word)
    requires Matches(a, u) && Matches(b, v)
    ensures Matches(Concat(a, b), u + v)
  {
    assert (u + v)[..|u|] == u && (u + v)[|u|..] == v;
  }

  lemma ConcatElim(a: Rex, b: Rex, w: Word) returns (u: Word, v: Word)
    requires Matches(Concat(a, b), w)
    ensures Matches(a, u) && Matches(b, v) && w == u + v
  {
    var i :| 0 <= i <= |w| && Matches(a, w[..i]) && Matches(b, w[i..]);
    u, v := w[..i], w[i..];
  }

  lemma PlusElim(a: Rex, w: Word) returns (u: Word, v: Word)
    requires Matches(Plus(a), w)
    ensures Matches(a, u) && Matches(Star(a), v) && w == u + v
  {
    var i :| 0 <= i <= |w| && Matches(a, w[..i]) && Matches(Star(a), w[i..]);
    u, v := w[..i], w[i..];
  }

  lemma StarElim(a: Rex, w: Word) returns (u: Word, v: Word)
    requires Matches(Star(a), w) && w != []
    ensures u != [] && Matches(a, u) && Matches(Star(a), v) && w == u + v
  {
    var i :| 0 < i <= |w| && Matches(a, w[..i]) && Matches(Star(a), w[i..]);
    u, v := w[..i], w[i..];
  }

  lemma EmptyMatchesNothing(w: Word)
    ensures !Matches(Empty, w)
  {
  }

  lemma StarNil(a: Rex)
    ensures Matches(Star(a), [])
  {
  }

  lemma PlusIntro(a: Rex, u: Word, v: Word)
    requires Matches(a, u) && Matches(Star(a), v)
    ensures Matches(Plus(a), u + v)
  {
    assert (u + v)[..|u|] == u && (u + v)[|u|..] == v;
  }

  lemma StarCons(a: Rex, u: Word, v: Word)
    requires Matches(a, u) && Matches(Star(a), v)
    ensures Matches(Star(a), u + v)
  {
    if u == [] {
      assert u + v == v;
    } else {
      assert (u + v)[..|u|] == u && (u + v)[|u|..] == v;
    }
  }

  lemma StarOne(a: Rex, u: Word)
    requires Matches(a, u)
    ensures Matches(Star(a), u)
  {
    StarCons(a, u, []);
    assert u + [] == u;
  }

  lemma {:induction false} StarConcat(a: Rex, u: Word, v: Word)
    requires Matches(Star(a), u) && Matches(Star(a), v)
    ensures Matches(Star(a), u + v)
    decreases |u|
  {
    if u == [] {
      assert u + v == v;
    } else {
      var i :| 0 < i <= |u| && Matches(a, u[..i]) && Matches(Star(a), u[i..]);
      StarConcat(a, u[i..], v);
      StarCons(a, u[..i], u[i..] + v);
      assert u + v == u[..i] + (u[i..] + v);
    }
  }

  /** The star of e is the plus of e with the empty word. */
  lemma StarIsPlusOrEmpty(a: Rex, w: Word)
    ensures Matches(Star(a), w) <==> w == [] || Matches(Plus(a), w)
  {
    StarNil(a);
    hide Matches;
    if Matches(Star(a), w) && w != [] {
      var u, v := StarElim(a, w);
      PlusIntro(a, u, v);
    }
    if Matches(Plus(a), w) {
      var u, v := PlusElim(a, w);
      StarCons(a, u, v);
    }
  }

  /** The same language. */
  ghost predicate SameLang(e: Rex, f: Rex) {
    forall w :: Matches(e, w) <==> Matches(f, w)
  }

  /** Only the letters 1..k occur, and the empty set does not. */
  predicate WellFormed(e: Rex, k: nat) {
    match e
    case Empty => false
    case Eps => true
    case Sym(a) => 1 <= a <= k
    case Union(a, b) => WellFormed(a, k) && WellFormed(b, k)
    case Concat(a, b) => WellFormed(a, k) && WellFormed(b, k)
    case Star(a) => WellFormed(a, k)
    case Plus(a) => WellFormed(a, k)
  }

  /** No star or plus stands directly on a star or plus. */
  predicate Clean(e: Rex) {
    match e
    case Empty => true
    case Eps => true
    case Sym(_) => true
    case Union(a, b) => Clean(a) && Clean(b)
    case Concat(a, b) => Clean(a) && Clean(b)
    case Star(a) => Clean(a) && !a.Star? && !a.Plus?
    case Plus(a) => Clean(a) && !a.Star? && !a.Plus?
  }
}
