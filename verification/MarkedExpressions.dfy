/** Expressions whose letters are numbered positions: first, last and follow sets, and the local-language
    theorem behind the construction of Berry and Sethi. */
module MarkedExpressions {
  import opened Automata
  import opened Regex

  function Positions(e: Rex): set<nat> {
    match e
    case Empty => {}
    case Eps => {}
    case Sym(k) => {k}
    case Union(a, b) => Positions(a) + Positions(b)
    case Concat(a, b) => Positions(a) + Positions(b)
    case Star(a) => Positions(a)
    case Plus(a) => Positions(a)
  }

  /** No position occurs twice. */
  predicate Linear(e: Rex) {
    match e
    case Empty => true
    case Eps => true
    case Sym(_) => true
    case Union(a, b) => Linear(a) && Linear(b) && Positions(a) !! Positions(b)
    case Concat(a, b) => Linear(a) && Linear(b) && Positions(a) !! Positions(b)
    case Star(a) => Linear(a)
    case Plus(a) => Linear(a)
  }

  /** The positions a word can start with. */
  function First(e: Rex): set<nat> {
    match e
    case Empty => {}
    case Eps => {}
    case Sym(k) => {k}
    case Union(a, b) => First(a) + First(b)
    case Concat(a, b) => First(a) + if Nullable(a) then First(b) else {}
    case Star(a) => First(a)
    case Plus(a) => First(a)
  }

  /** The positions a word can end with. */
  function Last(e: Rex): set<nat> {
    match e
    case Empty => {}
    case Eps => {}
    case Sym(k) => {k}
    case Union(a, b) => Last(a) + Last(b)
    case Concat(a, b) => Last(b) + if Nullable(b) then Last(a) else {}
    case Star(a) => Last(a)
    case Plus(a) => Last(a)
  }

  function Cross(a: set<nat>, b: set<nat>): set<(nat, nat)> {
    set p, q | p in a && q in b :: (p, q)
  }

  /** The pairs of positions that can stand next to each other. */
  function Follow(e: Rex): set<(nat, nat)> {
    match e
    case Empty => {}
    case Eps => {}
    case Sym(_) => {}
    case Union(a, b) => Follow(a) + Follow(b)
    case Concat(a, b) => Follow(a) + Follow(b) + Cross(Last(a), First(b))
    case Star(a) => Follow(a) + Cross(Last(a), First(a))
    case Plus(a) => Follow(a) + Cross(Last(a), First(a))
  }

  lemma {:induction false} SetsInPositions(e: Rex)
    ensures First(e) <= Positions(e) && Last(e) <= Positions(e)
    ensures forall p, q :: (p, q) in Follow(e) ==> p in Positions(e) && q in Positions(e)
  {
    match e
    case Empty =>
    case Eps =>
    case Sym(_) =>
    case Union(a, b) =>
      SetsInPositions(a);
      SetsInPositions(b);
    case Concat(a, b) =>
      SetsInPositions(a);
      SetsInPositions(b);
    case Star(a) => SetsInPositions(a);
    case Plus(a) => SetsInPositions(a);
  }

  /** Every two neighbours in v are related. */
  ghost predicate Chain(r: set<(nat, nat)>, v: Word) {
    forall i, j :: 0 <= i < j < |v| && j == i + 1 ==> (v[i], v[j]) in r
  }

  /** A nonempty word that the three sets allow. */
  ghost predicate Local(first: set<nat>, last: set<nat>, follow: set<(nat, nat)>, v: Word) {
    |v| > 0 && v[0] in first && v[|v| - 1] in last && Chain(follow, v)
  }

  ghost predicate IsLocal(e: Rex, v: Word) {
    Local(First(e), Last(e), Follow(e), v)
  }

  lemma ChainMore(r: set<(nat, nat)>, s: set<(nat, nat)>, v: Word)
    requires Chain(r, v) && r <= s
    ensures Chain(s, v)
  {
  }

  lemma ChainConcat(r: set<(nat, nat)>, u: Word, v: Word)
    requires Chain(r, u) && Chain(r, v) && (u != [] && v != [] ==> (u[|u| - 1], v[0]) in r)
    ensures Chain(r, u + v)
  {
  }

  /** Two nonempty words put together. */
  lemma LocalConcat(e: Rex, a: Rex, u: Word, b: Rex, v: Word)
    requires IsLocal(a, u) && IsLocal(b, v)
    requires Follow(a) <= Follow(e) && Follow(b) <= Follow(e) && Cross(Last(a), First(b)) <= Follow(e)
    requires First(a) <= First(e) && Last(b) <= Last(e)
    ensures IsLocal(e, u + v)
  {
    assert (u[|u| - 1], v[0]) in Cross(Last(a), First(b));
    ChainConcat(Follow(e), u, v);
  }

  // ---- every word of the expression is local ----

  lemma {:induction false} MatchesLocal(e: Rex, v: Word)
    requires Matches(e, v) && v != []
    ensures IsLocal(e, v)
    decreases Rank(e), |v|, 0
  {
    match e
    case Sym(_) =>
    case Union(a, b) =>
      if Matches(a, v) {
        MatchesLocal(a, v);
      } else {
        MatchesLocal(b, v);
      }
    case Concat(a, b) =>
      var x, y := ConcatElim(a, b, v);
      ConcatLocal(a, b, x, y);
    case Star(a) =>
      var x, y := StarElim(a, v);
      MatchesLocal(a, x);
      StarLocal(e, a, x, y);
    case Plus(a) =>
      var x, y := PlusElim(a, v);
      if x != [] {
        MatchesLocal(a, x);
        StarLocal(e, a, x, y);
      } else {
        assert y == v;
        MatchesLocal(Star(a), v);
      }
  }

  lemma ConcatLocal(a: Rex, b: Rex, x: Word, y: Word)
    requires Matches(a, x) && Matches(b, y) && x + y != []
    ensures IsLocal(Concat(a, b), x + y)
    decreases Rank(Concat(a, b)), 0
  {
    NullableExact(a);
    NullableExact(b);
    if x == [] {
      MatchesLocal(b, y);
      assert x + y == y;
    } else {
      MatchesLocal(a, x);
      if y == [] {
        assert x + y == x;
      } else {
        MatchesLocal(b, y);
        LocalConcat(Concat(a, b), a, x, b, y);
      }
    }
  }

  lemma StarLocal(e: Rex, a: Rex, x: Word, y: Word)
    requires (e == Star(a) || e == Plus(a)) && x != [] && IsLocal(a, x) && Matches(Star(a), y)
    ensures IsLocal(e, x + y)
    decreases Rank(Star(a)), |y|, 1
  {
    if y == [] {
      assert x + y == x;
    } else {
      MatchesLocal(Star(a), y);
      LocalConcat(e, a, x, Star(a), y);
    }
  }

  // ---- with every position occurring once, every local word is a word of the expression ----

  /** The first place where v leaves the set s. */
  lemma Leave(s: set<nat>, v: Word) returns (k: nat)
    ensures k <= |v| && (forall i :: 0 <= i < k ==> v[i] in s) && (k < |v| ==> v[k] !in s)
  {
    k := 0;
    while k < |v| && v[k] in s
      invariant k <= |v| && forall i :: 0 <= i < k ==> v[i] in s
    {
      k := k + 1;
    }
  }

  /** A chain that starts in a set that the relation does not leave. */
  lemma {:induction false} Stay(r: set<(nat, nat)>, s: set<nat>, v: Word)
    requires Chain(r, v) && v != [] && v[0] in s && forall p, q :: (p, q) in r && p in s ==> q in s
    ensures forall i :: 0 <= i < |v| ==> v[i] in s
    decreases |v|
  {
    if |v| > 1 {
      assert (v[0], v[1]) in r;
      assert Chain(r, v[1..]);
      Stay(r, s, v[1..]);
      forall i | 0 <= i < |v|
        ensures v[i] in s
      {
        assert i > 0 ==> v[i] == v[1..][i - 1];
      }
    }
  }

  /** Inside the positions of a part, a chain of the whole is a chain of the part. */
  lemma ChainInside(e: Rex, a: Rex, b: Rex, v: Word)
    requires e == Union(a, b) || e == Concat(a, b) || e == Union(b, a) || e == Concat(b, a)
    requires Linear(e) && Chain(Follow(e), v) && forall i :: 0 <= i < |v| ==> v[i] in Positions(a)
    ensures Chain(Follow(a), v)
  {
    SetsInPositions(a);
    SetsInPositions(b);
  }

  lemma UnionMatches(a: Rex, b: Rex, v: Word)
    requires Linear(Union(a, b)) && IsLocal(Union(a, b), v)
    ensures IsLocal(a, v) || IsLocal(b, v)
  {
    SetsInPositions(a);
    SetsInPositions(b);
    var r := Follow(Union(a, b));
    if v[0] in First(a) {
      Stay(r, Positions(a), v);
      ChainInside(Union(a, b), a, b, v);
    } else {
      Stay(r, Positions(b), v);
      ChainInside(Union(a, b), b, a, v);
    }
  }

  lemma ConcatMatches(a: Rex, b: Rex, v: Word) returns (k: nat)
    requires Linear(Concat(a, b)) && IsLocal(Concat(a, b), v)
    ensures k <= |v|
    ensures if k == 0 then Nullable(a) else IsLocal(a, v[..k])
    ensures if k == |v| then Nullable(b) else IsLocal(b, v[k..])
  {
    k := Leave(Positions(a), v);
    FirstOperand(a, b, v, k);
    if k < |v| {
      SecondOperand(a, b, v, k);
    }
  }

  lemma FirstOperand(a: Rex, b: Rex, v: Word, k: nat)
    requires Linear(Concat(a, b)) && IsLocal(Concat(a, b), v) && k <= |v|
    requires (forall i :: 0 <= i < k ==> v[i] in Positions(a)) && (k < |v| ==> v[k] !in Positions(a))
    ensures if k == 0 then Nullable(a) else IsLocal(a, v[..k])
    ensures k == |v| ==> Nullable(b)
    ensures 0 < k < |v| ==> v[k] in First(b)
    ensures k == 0 && v != [] ==> v[0] in First(b)
  {
    SetsInPositions(a);
    SetsInPositions(b);
    var e := Concat(a, b);
    var x := v[..k];
    assert Chain(Follow(e), x);
    ChainInside(e, a, b, x);
    if 0 < k < |v| {
      assert (v[k - 1], v[k]) in Follow(e);
    }
  }

  lemma SecondOperand(a: Rex, b: Rex, v: Word, k: nat)
    requires Linear(Concat(a, b)) && IsLocal(Concat(a, b), v) && k < |v| && v[k] in First(b)
    ensures IsLocal(b, v[k..])
  {
    SetsInPositions(a);
    SetsInPositions(b);
    var e := Concat(a, b);
    var y := v[k..];
    assert Chain(Follow(e), y);
    Stay(Follow(e), Positions(b), y);
    ChainInside(e, b, a, y);
    assert y[|y| - 1] == v[|v| - 1];
  }

  /** The first round of a star. */
  lemma FirstRound(a: Rex, v: Word) returns (k: nat)
    requires IsLocal(Star(a), v)
    ensures 0 < k <= |v| && IsLocal(a, v[..k]) && (k < |v| ==> IsLocal(Star(a), v[k..]))
  {
    k := 1;
    while k < |v| && (v[k - 1], v[k]) in Follow(a)
      invariant 0 < k <= |v| && Chain(Follow(a), v[..k])
    {
      ChainConcat(Follow(a), v[..k], [v[k]]);
      assert v[..k] + [v[k]] == v[..k + 1];
      k := k + 1;
    }
    if k < |v| {
      assert (v[k - 1], v[k]) in Cross(Last(a), First(a));
      assert v[k..][|v| - k - 1] == v[|v| - 1];
    }
  }

  lemma ChainStart(r: set<(nat, nat)>, v: Word)
    requires Chain(r, v) && |v| > 1
    ensures (v[0], v[1]) in r
  {
  }

  lemma SymLocal(k: nat, v: Word)
    requires IsLocal(Sym(k), v)
    ensures v == [k]
  {
    hide Chain;
    if |v| > 1 {
      ChainStart(Follow(Sym(k)), v);
    }
  }

  lemma {:induction false} LocalMatches(e: Rex, v: Word)
    requires Linear(e) && IsLocal(e, v)
    ensures Matches(e, v)
    decreases Rank(e), |v|
  {
    match e
    case Sym(k) => SymLocal(k, v);
    case Union(a, b) =>
      UnionMatches(a, b, v);
      if IsLocal(a, v) {
        LocalMatches(a, v);
      } else {
        LocalMatches(b, v);
      }
    case Concat(a, b) =>
      NullableExact(a);
      NullableExact(b);
      var k := ConcatMatches(a, b, v);
      if k > 0 {
        LocalMatches(a, v[..k]);
      }
      if k < |v| {
        LocalMatches(b, v[k..]);
      }
      ConcatIntro(a, b, v[..k], v[k..]);
      assert v[..k] + v[k..] == v;
    case Star(a) =>
      var k := FirstRound(a, v);
      LocalMatches(a, v[..k]);
      if k < |v| {
        LocalMatches(e, v[k..]);
      }
      StarCons(a, v[..k], v[k..]);
      assert v[..k] + v[k..] == v;
    case Plus(a) =>
      LocalMatches(Star(a), v);
      StarIsPlusOrEmpty(a, v);
  }

  /** A linear expression is described by its empty word and the three sets. */
  lemma LocalLanguage(e: Rex, v: Word)
    requires Linear(e)
    ensures Matches(e, v) <==> if v == [] then Nullable(e) else IsLocal(e, v)
  {
    NullableExact(e);
    if v != [] {
      if Matches(e, v) {
        MatchesLocal(e, v);
      }
      if IsLocal(e, v) {
        LocalMatches(e, v);
      }
    }
  }
}
