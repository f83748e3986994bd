/** Marked expressions written on a tape: postfix and prefix form, and reading a tape that holds places to be
    passed over and jumps to later places. */
module ExpressionTapes {
  import opened Regex
  import opened MarkedExpressions
  import opened StackedStars

  /** A symbol, a letter at a position, or the order to go on reading further up. */
  datatype Sign = Op(c: char) | Pos(k: nat) | Jump(to: nat)

  const SKIP := '!'
  const UNSKIP := '?'

  function Post(e: Rex): (s: seq<Sign>)
    ensures |s| > 0
  {
    match e
    case Empty => [Op('%')]
    case Eps => [Op('@')]
    case Sym(k) => [Pos(k)]
    case Union(a, b) => Post(a) + Post(b) + [Op('U')]
    case Concat(a, b) => Post(a) + Post(b) + [Op('.')]
    case Star(a) => Post(a) + [Op('*')]
    case Plus(a) => Post(a) + [Op('+')]
  }

  function Pre(e: Rex): (s: seq<Sign>)
    ensures |s| == |Post(e)|
  {
    match e
    case Empty => [Op('%')]
    case Eps => [Op('@')]
    case Sym(k) => [Pos(k)]
    case Union(a, b) => [Op('U')] + Pre(a) + Pre(b)
    case Concat(a, b) => [Op('.')] + Pre(a) + Pre(b)
    case Star(a) => [Op('*')] + Pre(a)
    case Plus(a) => [Op('+')] + Pre(a)
  }

  function Size(e: Rex): nat {
    |Post(e)|
  }

  /** The last sign of a postfix expression tells which kind of expression it is. */
  lemma PostLast(e: Rex)
    ensures var s := Post(e)[|Post(e)| - 1];
      && (s == Op('%') <==> e.Empty?) && (s == Op('@') <==> e.Eps?) && (s.Pos? <==> e.Sym?)
      && (s == Op('U') <==> e.Union?) && (s == Op('.') <==> e.Concat?)
      && (s == Op('*') <==> e.Star?) && (s == Op('+') <==> e.Plus?)
      && (e.Sym? ==> s == Pos(e.letter)) && !s.Jump?
  {
  }

  /** The code ends with the postfix form of e at index r. */
  ghost predicate EndsWith(code: seq<Sign>, r: int, e: Rex) {
    Size(e) - 1 <= r < |code| && code[r + 1 - Size(e)..r + 1] == Post(e)
  }

  lemma EndsWithLast(code: seq<Sign>, r: int, e: Rex)
    requires EndsWith(code, r, e)
    ensures 0 <= r < |code| && code[r] == Post(e)[Size(e) - 1]
  {
    assert code[r + 1 - Size(e)..r + 1][Size(e) - 1] == code[r];
  }

  lemma EndsWithBinary(code: seq<Sign>, r: int, e: Rex)
    requires EndsWith(code, r, e) && (e.Union? || e.Concat?)
    ensures Size(e) == Size(e.left) + Size(e.right) + 1
    ensures EndsWith(code, r - 1, e.right) && EndsWith(code, r - 1 - Size(e.right), e.left)
  {
    var op := Post(e)[Size(e) - 1];
    assert Post(e) == Post(e.left) + Post(e.right) + [op];
    Pieces(code, r + 1 - Size(e), Post(e.left), Post(e.right), [op]);
  }

  lemma EndsWithUnary(code: seq<Sign>, r: int, e: Rex)
    requires EndsWith(code, r, e) && IsStarred(e)
    ensures Size(e) == Size(e.body) + 1 && EndsWith(code, r - 1, e.body)
  {
    var op := Post(e)[Size(e) - 1];
    var none: seq<Sign> := [];
    assert Post(e) == Post(e.body) + [op];
    hide Post;
    assert Post(e) == Post(e.body) + [op] + none;
    Pieces(code, r + 1 - Size(e), Post(e.body), [op], none);
  }

  lemma Pieces<T>(s: seq<T>, i: int, a: seq<T>, b: seq<T>, c: seq<T>)
    requires 0 <= i <= i + |a| + |b| + |c| <= |s| && s[i..i + |a| + |b| + |c|] == a + b + c
    ensures s[i..i + |a|] == a && s[i + |a|..i + |a| + |b|] == b && s[i + |a| + |b|..i + |a| + |b| + |c|] == c
  {
    var n := i + |a| + |b| + |c|;
    var u := s[i..n];
    assert u == (a + b) + c;
    SliceOfSlice(s, i, n, 0, |a|);
    SliceOfSlice(s, i, n, |a|, |a| + |b|);
    SliceOfSlice(s, i, n, |a| + |b|, |u|);
    assert u[..|a|] == a && u[|a|..|a| + |b|] == b && u[|a| + |b|..] == c;
  }

  lemma SliceOfSlice<T>(s: seq<T>, i: int, n: int, x: int, y: int)
    requires 0 <= i <= n <= |s| && 0 <= x <= y <= n - i
    ensures s[i..n][x..y] == s[i + x..i + y]
  {
    var u, v := s[i..n][x..y], s[i + x..i + y];
    assert forall k :: 0 <= k < |v| ==> u[k] == v[k];
  }

  // ---- reading the tape ----

  /** What is read from index i on. */
  ghost function View(t: seq<Sign>, i: nat): seq<Sign>
    decreases |t| - i
  {
    if i >= |t| then []
    else match t[i]
      case Jump(to) => if i < to then View(t, to) else []
      case Op(c) => if c == UNSKIP then View(t, i + 1) else [t[i]] + View(t, i + 1)
      case Pos(_) => [t[i]] + View(t, i + 1)
  }

  /** The tape shows the prefix form of e from index i on, followed by rest. */
  ghost predicate Reads(t: seq<Sign>, i: nat, e: Rex, rest: seq<Sign>) {
    View(t, i) == Pre(e) + rest
  }

  /** The first sign of a prefix form tells which kind of expression it is. */
  lemma PreFirst(e: Rex)
    ensures var s := Pre(e)[0];
      && (s == Op('%') <==> e.Empty?) && (s == Op('@') <==> e.Eps?) && (s.Pos? <==> e.Sym?)
      && (s == Op('U') <==> e.Union?) && (s == Op('.') <==> e.Concat?)
      && (s == Op('*') <==> e.Star?) && (s == Op('+') <==> e.Plus?)
      && (e.Sym? ==> s == Pos(e.letter)) && !s.Jump? && s != Op(UNSKIP)
  {
  }

  lemma ReadsHere(t: seq<Sign>, i: nat, e: Rex, rest: seq<Sign>)
    requires Reads(t, i, e, rest)
    ensures i < |t|
    ensures t[i].Jump? ==> i < t[i].to && Reads(t, t[i].to, e, rest)
    ensures t[i] == Op(UNSKIP) ==> Reads(t, i + 1, e, rest)
    ensures !t[i].Jump? && t[i] != Op(UNSKIP) ==> Pre(e)[0] == t[i]
  {
    assert |Pre(e) + rest| > 0 && (Pre(e) + rest)[0] == Pre(e)[0];
    PreFirst(e);
  }

  lemma ViewHead(t: seq<Sign>, i: nat)
    requires i < |t|
    ensures t[i].Jump? && i < t[i].to ==> View(t, i) == View(t, t[i].to)
    ensures !t[i].Jump? && t[i] != Op(UNSKIP) ==> View(t, i) == [t[i]] + View(t, i + 1)
  {
  }

  lemma ViewTail(t: seq<Sign>, i: nat, rest: seq<Sign>)
    requires i < |t| && !t[i].Jump? && t[i] != Op(UNSKIP) && View(t, i) == [t[i]] + rest
    ensures View(t, i + 1) == rest
  {
    assert View(t, i)[1..] == View(t, i + 1);
  }

  lemma Regroup<T>(a: seq<T>, b: seq<T>, c: seq<T>, d: seq<T>)
    ensures (a + b + c) + d == a + (b + (c + d))
  {
  }

  lemma ReadsParts(t: seq<Sign>, i: nat, e: Rex, rest: seq<Sign>)
    requires Reads(t, i, e, rest) && i < |t| && !t[i].Jump? && t[i] != Op(UNSKIP) && t[i] == Pre(e)[0]
    ensures if e.Union? || e.Concat? then Reads(t, i + 1, e.left, Pre(e.right) + rest)
            else if IsStarred(e) then Reads(t, i + 1, e.body, rest)
            else View(t, i + 1) == rest
  {
    hide View;
    var tail := if e.Union? || e.Concat? then Pre(e.left) + (Pre(e.right) + rest)
                else if IsStarred(e) then Pre(e.body) + rest else rest;
    var none: seq<Sign> := [];
    if e.Union? || e.Concat? {
      assert Pre(e) == [t[i]] + Pre(e.left) + Pre(e.right);
      Regroup([t[i]], Pre(e.left), Pre(e.right), rest);
    } else if IsStarred(e) {
      assert Pre(e) == [t[i]] + Pre(e.body);
      Regroup([t[i]], Pre(e.body), none, rest);
      assert none + rest == rest && Pre(e) + none == Pre(e);
    } else {
      assert Pre(e) == [t[i]];
    }
    ViewTail(t, i, tail);
  }

  ghost predicate Plain(s: seq<Sign>) {
    forall i :: 0 <= i < |s| ==> !s[i].Jump?
  }

  /** A plain piece of tape without the places to be passed over. */
  ghost function Strip(s: seq<Sign>): seq<Sign> {
    if s == [] then [] else (if s[0] == Op(UNSKIP) then [] else [s[0]]) + Strip(s[1..])
  }

  lemma {:induction false} StripConcat(s: seq<Sign>, t: seq<Sign>)
    ensures Strip(s + t) == Strip(s) + Strip(t)
    decreases |s|
  {
    if s == [] {
      assert s + t == t;
    } else {
      assert (s + t)[0] == s[0] && (s + t)[1..] == s[1..] + t;
      StripConcat(s[1..], t);
    }
  }

  lemma {:induction false} PrePlain(e: Rex)
    ensures Plain(Pre(e)) && Strip(Pre(e)) == Pre(e)
    decreases Rank(e), 1
  {
    match e
    case Empty => assert Strip(Pre(e)[1..]) == [];
    case Eps => assert Strip(Pre(e)[1..]) == [];
    case Sym(_) => assert Strip(Pre(e)[1..]) == [];
    case Union(a, b) => PrePlainBinary(Op('U'), a, b);
    case Concat(a, b) => PrePlainBinary(Op('.'), a, b);
    case Star(a) =>
      PrePlain(a);
      assert Pre(e)[1..] == Pre(a);
    case Plus(a) =>
      PrePlain(a);
      assert Pre(e)[1..] == Pre(a);
  }

  lemma PrePlainBinary(op: Sign, a: Rex, b: Rex)
    requires op.Op? && op != Op(UNSKIP)
    ensures Plain([op] + Pre(a) + Pre(b)) && Strip([op] + Pre(a) + Pre(b)) == [op] + Pre(a) + Pre(b)
    decreases Rank(a) + Rank(b) + 1, 0
  {
    PrePlain(a);
    PrePlain(b);
    PlainBinary(op, Pre(a), Pre(b));
  }

  lemma PlainBinary(op: Sign, s: seq<Sign>, t: seq<Sign>)
    requires op.Op? && op != Op(UNSKIP) && Plain(s) && Strip(s) == s && Plain(t) && Strip(t) == t
    ensures Plain([op] + s + t) && Strip([op] + s + t) == [op] + s + t
  {
    StripConcat([op], s);
    StripConcat([op] + s, t);
    StripOne(op);
  }

  lemma StripOne(s: Sign)
    ensures Strip([s]) == if s == Op(UNSKIP) then [] else [s]
  {
    assert Strip([s][1..]) == [];
  }

  lemma {:induction false} ViewFrame(t: seq<Sign>, t': seq<Sign>, i: nat)
    requires |t| == |t'| && forall k :: i <= k < |t| ==> t[k] == t'[k]
    ensures View(t, i) == View(t', i)
    decreases |t| - i
  {
    if i < |t| {
      match t[i]
      case Jump(to) =>
        if i < to {
          ViewFrame(t, t', to);
        }
      case Op(_) => ViewFrame(t, t', i + 1);
      case Pos(_) => ViewFrame(t, t', i + 1);
    }
  }

  lemma {:induction false} ViewPlain(t: seq<Sign>, i: nat, j: nat)
    requires i <= j <= |t| && Plain(t[i..j])
    ensures View(t, i) == Strip(t[i..j]) + View(t, j)
    decreases j - i
  {
    if i < j {
      assert t[i..j][0] == t[i] && t[i..j][1..] == t[i + 1..j];
      var u, v := t[i..j], t[i + 1..j];
      forall k | 0 <= k < |v|
        ensures !v[k].Jump?
      {
        assert v[k] == u[k + 1];
      }
      ViewPlain(t, i + 1, j);
    }
  }

  // ---- how much tape the computation of the follow sets uses ----

  /** The expression under a run of stars and pluses. */
  function Core(e: Rex): (c: Rex)
    ensures !IsStarred(c) && Size(c) <= Size(e) && (IsStarred(e) ==> Size(c) < Size(e))
  {
    if IsStarred(e) then Core(e.body) else e
  }

  /** Some symbol of the run of stars and pluses on top of e is a star. */
  predicate HasStar(e: Rex) {
    IsStarred(e) && (e.Star? || HasStar(e.body))
  }

  /** What is left on the tape: a run of stars and pluses becomes one of them. */
  function Merged(e: Rex): Rex {
    match e
    case Union(a, b) => Union(Merged(a), Merged(b))
    case Concat(a, b) => Concat(Merged(a), Merged(b))
    case Star(a) => Star(Core(a))
    case Plus(a) => if HasStar(a) then Star(Core(a)) else Plus(Core(a))
    case Empty => e
    case Eps => e
    case Sym(_) => e
  }

  lemma MergedShape(e: Rex)
    ensures e.Union? ==> Merged(e) == Union(Merged(e.left), Merged(e.right))
    ensures e.Concat? ==> Merged(e) == Concat(Merged(e.left), Merged(e.right))
    ensures IsStarred(e) ==> IsStarred(Merged(e)) && Merged(e).body == Core(e)
    ensures IsStarred(e) ==> Pre(Merged(e))[0] == Op(if HasStar(e) then '*' else '+')
  {
  }

  lemma {:induction false} CoreSets(e: Rex)
    ensures First(Core(e)) == First(e) && Last(Core(e)) == Last(e)
    ensures Nullable(e) <==> HasStar(e) || Nullable(Core(e))
    ensures Follow(e) == Follow(Core(e)) + if IsStarred(e) then Cross(Last(e), First(e)) else {}
  {
    if IsStarred(e) {
      CoreSets(e.body);
    }
  }

  lemma {:induction false} MergedSets(e: Rex)
    ensures First(Merged(e)) == First(e) && (Nullable(Merged(e)) <==> Nullable(e))
  {
    match e
    case Empty =>
    case Eps =>
    case Sym(_) =>
    case Union(a, b) =>
      MergedSets(a);
      MergedSets(b);
    case Concat(a, b) =>
      MergedSets(a);
      MergedSets(b);
    case Star(a) => CoreSets(a);
    case Plus(a) => CoreSets(a);
  }

  /** The number of signs that the follow sets of e leave on the tape. */
  function Used(e: Rex): nat {
    match e
    case Union(a, b) => Used(a) + Used(b) + 2
    case Concat(a, b) => Used(a) + Used(b) + 3
    case Star(a) => Size(Core(a)) + 2
    case Plus(a) => Size(Core(a)) + 2
    case Empty => 1
    case Eps => 1
    case Sym(_) => 1
  }

  /** The symbols of e as they are counted under a star or plus. */
  function Weight(e: Rex): nat {
    match e
    case Union(a, b) => Weight(a) + Weight(b) + 2
    case Concat(a, b) => Weight(a) + Weight(b) + 2
    case Star(a) => Weight(a) + 2
    case Plus(a) => Weight(a) + 2
    case Empty => 1
    case Eps => 1
    case Sym(_) => 1
  }

  /** The tape that is reserved beyond the size of e. */
  function Reserve(e: Rex): nat {
    match e
    case Union(a, b) => Reserve(a) + Reserve(b) + 1
    case Concat(a, b) => Reserve(a) + Reserve(b) + 1
    case Star(a) => Reserve(a) + Weight(a) + 3
    case Plus(a) => Reserve(a) + Weight(a) + 3
    case Empty => 0
    case Eps => 1
    case Sym(_) => 0
  }

  function Concats(e: Rex): nat {
    match e
    case Union(a, b) => Concats(a) + Concats(b)
    case Concat(a, b) => Concats(a) + Concats(b) + 1
    case Star(a) => Concats(a)
    case Plus(a) => Concats(a)
    case Empty => 0
    case Eps => 0
    case Sym(_) => 0
  }

  function Room(e: Rex): nat {
    Size(e) + Reserve(e) + Concats(e)
  }

  lemma {:induction false} SizeWeight(e: Rex)
    ensures Size(e) <= Weight(e)
  {
    match e
    case Empty =>
    case Eps =>
    case Sym(_) =>
    case Union(a, b) =>
      SizeWeight(a);
      SizeWeight(b);
    case Concat(a, b) =>
      SizeWeight(a);
      SizeWeight(b);
    case Star(a) => SizeWeight(a);
    case Plus(a) => SizeWeight(a);
  }

  /** A smaller run needs no more tape. */
  lemma {:induction false} CoreRoom(e: Rex)
    ensures Room(Core(e)) <= Room(e)
  {
    if IsStarred(e) {
      CoreRoom(e.body);
    }
  }

  /** The reserved tape is enough: for the signs that stay, and for the parts while they are computed. */
  lemma {:induction false} RoomEnough(e: Rex)
    ensures Used(e) <= Room(e)
    ensures e.Union? ==> Room(e) == Room(e.left) + Room(e.right) + 2
    ensures e.Concat? ==> Room(e) == Room(e.left) + Room(e.right) + 3
    ensures IsStarred(e) ==> Size(Core(e)) + 2 + Room(Core(e)) <= Room(e)
    ensures e.Union? ==> Used(e) == Used(e.left) + Used(e.right) + 2
    ensures e.Concat? ==> Used(e) == Used(e.left) + Used(e.right) + 3
    ensures IsStarred(e) ==> Used(e) == Size(Core(e)) + 2
  {
    match e
    case Empty =>
    case Eps =>
    case Sym(_) =>
    case Union(a, b) =>
      RoomEnough(a);
      RoomEnough(b);
    case Concat(a, b) =>
      RoomEnough(a);
      RoomEnough(b);
    case Star(a) =>
      CoreRoom(a);
      SizeWeight(a);
    case Plus(a) =>
      CoreRoom(a);
      SizeWeight(a);
  }

  // ---- what the steps of the computation write ----

  /** The piece of tape from i to j holds e, apart from places to be passed over. */
  ghost predicate Holds(t: seq<Sign>, i: int, j: int, e: Rex) {
    0 <= i <= j <= |t| && Plain(t[i..j]) && Strip(t[i..j]) == Pre(e)
  }

  lemma HoldsFrame(t: seq<Sign>, t': seq<Sign>, i: nat, j: nat, e: Rex)
    requires Holds(t, i, j, e) && |t| == |t'| && forall k :: i <= k < j ==> t'[k] == t[k]
    ensures Holds(t', i, j, e)
  {
    assert t'[i..j] == t[i..j];
  }

  /** A place to be passed over in front of or behind a piece belongs to it. */
  lemma HoldsNoise(t: seq<Sign>, i: nat, j: nat, e: Rex)
    requires Holds(t, i, j, e)
    ensures i > 0 && t[i - 1] == Op(UNSKIP) ==> Holds(t, i - 1, j, e)
    ensures j < |t| && t[j] == Op(UNSKIP) ==> Holds(t, i, j + 1, e)
  {
    StripOne(Op(UNSKIP));
    if i > 0 && t[i - 1] == Op(UNSKIP) {
      assert t[i - 1..j] == [t[i - 1]] + t[i..j];
      StripConcat([t[i - 1]], t[i..j]);
    }
    if j < |t| && t[j] == Op(UNSKIP) {
      assert t[i..j + 1] == t[i..j] + [t[j]];
      StripConcat(t[i..j], [t[j]]);
    }
  }

  /** A sign in front of one or two pieces. */
  lemma HoldsJoined(t: seq<Sign>, q: nat, i: nat, j: nat, e: Rex)
    requires q < i <= j <= |t| && t[q] == Pre(e)[0]
    requires if e.Union? || e.Concat? then Holds(t, q + 1, i, e.left) && Holds(t, i, j, e.right)
             else IsStarred(e) && i == j && Holds(t, q + 1, i, e.body)
    ensures Holds(t, q, j, e)
  {
    var a, b, c := [t[q]], t[q + 1..i], t[i..j];
    assert t[q..j] == a + b + c;
    PreFirst(e);
    StripPieces(t[q], b, c);
    if IsStarred(e) {
      assert c == [] && Strip(c) == [] && Pre(e) == a + Pre(e.body) + [];
    } else {
      assert Pre(e) == a + Pre(e.left) + Pre(e.right);
    }
  }

  lemma StripPieces(s: Sign, b: seq<Sign>, c: seq<Sign>)
    requires s != Op(UNSKIP) && !s.Jump? && Plain(b) && Plain(c)
    ensures Plain([s] + b + c) && Strip([s] + b + c) == [s] + Strip(b) + Strip(c)
  {
    StripConcat([s] + b, c);
    StripConcat([s], b);
    StripOne(s);
  }

  /** A piece that ends with a jump, and what is read after the jump, as one expression. */
  lemma ReadsJoined(t: seq<Sign>, q: nat, s: nat, f: nat, e: Rex, rest: seq<Sign>)
    requires q < s < f && s < |t| && (e.Union? || e.Concat?) && t[q] == Pre(e)[0]
    requires Holds(t, q + 1, s, e.left) && t[s] == Jump(f) && Reads(t, f, e.right, rest)
    ensures Reads(t, q, e, rest)
  {
    ViewPlain(t, q + 1, s);
    PreFirst(e);
    ViewHead(t, q);
    ViewHead(t, s);
    hide View;
    assert View(t, q) == [t[q]] + (Pre(e.left) + (Pre(e.right) + rest));
    assert Pre(e) == [t[q]] + Pre(e.left) + Pre(e.right);
    Regroup([t[q]], Pre(e.left), Pre(e.right), rest);
  }

  lemma HoldsLeaf(t: seq<Sign>, i: nat, e: Rex)
    requires i < |t| && (e.Empty? || e.Eps? || e.Sym?) && t[i] == Pre(e)[0]
    ensures Holds(t, i, i + 1, e)
  {
    assert t[i..i + 1] == [t[i]] == Pre(e);
    StripOne(t[i]);
  }
}
