/** The automaton of Berry and Sethi: its states are the positions of a marked expression and a new initial
    state 0; a pair of positions that can stand next to each other is a transition. */
module FollowAutomata {
  import opened Automata
  import opened Regex
  import opened MarkedExpressions

  /** The letter of position k. */
  function LetterOf(lab: seq<nat>, k: nat): nat {
    if k < |lab| then lab[k] else 0
  }

  /** Put the letters back in place of the positions. */
  function Unmark(e: Rex, lab: seq<nat>): Rex {
    match e
    case Empty => Empty
    case Eps => Eps
    case Sym(k) => Sym(LetterOf(lab, k))
    case Union(a, b) => Union(Unmark(a, lab), Unmark(b, lab))
    case Concat(a, b) => Concat(Unmark(a, lab), Unmark(b, lab))
    case Star(a) => Star(Unmark(a, lab))
    case Plus(a) => Plus(Unmark(a, lab))
  }

  ghost function ReadOff(lab: seq<nat>, v: Word): (w: Word)
    ensures |w| == |v| && forall i :: 0 <= i < |v| ==> w[i] == LetterOf(lab, v[i])
  {
    seq(|v|, i requires 0 <= i < |v| => LetterOf(lab, v[i]))
  }

  lemma ReadOffConcat(lab: seq<nat>, u: Word, v: Word)
    ensures ReadOff(lab, u + v) == ReadOff(lab, u) + ReadOff(lab, v)
  {
  }

  lemma {:induction false} ReadOffMatches(e: Rex, lab: seq<nat>, v: Word)
    requires Matches(e, v)
    ensures Matches(Unmark(e, lab), ReadOff(lab, v))
    decreases Rank(e), |v|
  {
    match e
    case Eps =>
    case Sym(_) =>
    case Union(a, b) =>
      if Matches(a, v) {
        ReadOffMatches(a, lab, v);
      } else {
        ReadOffMatches(b, lab, v);
      }
    case Concat(a, b) =>
      var x, y := ConcatElim(a, b, v);
      ReadOffMatches(a, lab, x);
      ReadOffMatches(b, lab, y);
      ReadOffConcat(lab, x, y);
      ConcatIntro(Unmark(a, lab), Unmark(b, lab), ReadOff(lab, x), ReadOff(lab, y));
    case Star(a) =>
      if v == [] {
        assert ReadOff(lab, v) == [];
      } else {
        var x, y := StarElim(a, v);
        ReadOffMatches(a, lab, x);
        ReadOffMatches(e, lab, y);
        ReadOffConcat(lab, x, y);
        StarCons(Unmark(a, lab), ReadOff(lab, x), ReadOff(lab, y));
      }
    case Plus(a) =>
      var x, y := PlusElim(a, v);
      ReadOffMatches(a, lab, x);
      ReadOffMatches(Star(a), lab, y);
      ReadOffConcat(lab, x, y);
      PlusIntro(Unmark(a, lab), ReadOff(lab, x), ReadOff(lab, y));
  }

  lemma {:induction false} Remark(e: Rex, lab: seq<nat>, w: Word) returns (v: Word)
    requires Matches(Unmark(e, lab), w)
    ensures Matches(e, v) && ReadOff(lab, v) == w
    decreases Rank(e), |w|
  {
    match e
    case Eps => v := [];
    case Sym(k) => v := [k];
    case Union(a, b) =>
      if Matches(Unmark(a, lab), w) {
        v := Remark(a, lab, w);
      } else {
        v := Remark(b, lab, w);
      }
    case Concat(a, b) =>
      var x, y := ConcatElim(Unmark(a, lab), Unmark(b, lab), w);
      var s := Remark(a, lab, x);
      var t := Remark(b, lab, y);
      ReadOffConcat(lab, s, t);
      ConcatIntro(a, b, s, t);
      v := s + t;
    case Star(a) =>
      if w == [] {
        v := [];
      } else {
        var x, y := StarElim(Unmark(a, lab), w);
        var s := Remark(a, lab, x);
        var t := Remark(e, lab, y);
        ReadOffConcat(lab, s, t);
        StarCons(a, s, t);
        v := s + t;
      }
    case Plus(a) =>
      var x, y := PlusElim(Unmark(a, lab), w);
      var s := Remark(a, lab, x);
      var t := Remark(Star(a), lab, y);
      ReadOffConcat(lab, s, t);
      PlusIntro(a, s, t);
      v := s + t;
  }

  // ---- automata given by a relation on states ----

  /** Every pair (p, q) of the relation as a transition from p to q that reads the letter of q. */
  function Edges(lab: seq<nat>, r: set<(nat, nat)>): (d: set<(nat, nat, nat)>)
    ensures forall a, p, q :: (a, p, q) in d <==> (p, q) in r && a == LetterOf(lab, q)
  {
    var d := set e | e in r :: (LetterOf(lab, e.1), e.0, e.1);
    assert forall p, q :: (p, q) in r ==> (LetterOf(lab, (p, q).1), (p, q).0, (p, q).1) in d;
    d
  }

  lemma EdgesUnion(lab: seq<nat>, r: set<(nat, nat)>, s: set<(nat, nat)>)
    ensures Edges(lab, r + s) == Edges(lab, r) + Edges(lab, s)
  {
  }

  lemma {:induction false} ChainAccepted(na: Nfa, lab: seq<nat>, r: set<(nat, nat)>, q: nat, v: Word)
    requires na.Valid() && na.delta == Edges(lab, r) && q < na.states
    requires Chain(r, [q] + v) && ([q] + v)[|v|] < na.states && na.final[([q] + v)[|v|]]
    ensures na.AcceptsFrom(q, ReadOff(lab, v))
    decreases |v|
  {
    if v != [] {
      var t, w := v[0], ReadOff(lab, v);
      assert ([q] + v)[0] == q && ([q] + v)[1] == t;
      assert (LetterOf(lab, t), q, t) in na.delta;
      assert [t] + v[1..] == v;
      assert Chain(r, v) by {
        forall i, j | 0 <= i < j < |v| && j == i + 1
          ensures (v[i], v[j]) in r
        {
          assert ([q] + v)[j] == v[i] && ([q] + v)[j + 1] == v[j];
        }
      }
      ChainAccepted(na, lab, r, t, v[1..]);
      assert ReadOff(lab, v[1..]) == w[1..];
    }
  }

  lemma PrependState(lab: seq<nat>, r: set<(nat, nat)>, q: nat, t: nat, rest: Word)
    requires (q, t) in r && Chain(r, [t] + rest)
    ensures var v := [t] + rest;
      && Chain(r, [q] + v) && ([q] + v)[|v|] == ([t] + rest)[|rest|]
      && ReadOff(lab, v) == [LetterOf(lab, t)] + ReadOff(lab, rest)
  {
    ChainConcat(r, [q], [t] + rest);
    ReadOffConcat(lab, [t], rest);
    assert ReadOff(lab, [t]) == [LetterOf(lab, t)];
  }

  lemma {:induction false} AcceptedChain(na: Nfa, lab: seq<nat>, r: set<(nat, nat)>, q: nat, w: Word) returns (v: Word)
    requires na.Valid() && na.delta == Edges(lab, r) && q < na.states && na.AcceptsFrom(q, w)
    ensures Chain(r, [q] + v) && ReadOff(lab, v) == w
    ensures ([q] + v)[|v|] < na.states && na.final[([q] + v)[|v|]]
    decreases |w|
  {
    if w == [] {
      v := [];
    } else {
      var t :| (w[0], q, t) in na.delta && na.AcceptsFrom(t, w[1..]);
      var rest := AcceptedChain(na, lab, r, t, w[1..]);
      v := [t] + rest;
      PrependState(lab, r, q, t, rest);
      assert [w[0]] + w[1..] == w;
    }
  }

  // ---- the automaton of an expression ----

  ghost predicate IsFollowNfa(na: Nfa, e: Rex, lab: seq<nat>) {
    && na.Valid()
    && Linear(e) && 0 !in Positions(e) && (forall k :: k in Positions(e) ==> k < na.states)
    && (forall q :: 0 <= q < na.states ==> na.init[q] == (q == 0))
    && (forall q :: 0 <= q < na.states ==> na.final[q] == if q == 0 then Nullable(e) else q in Last(e))
    && na.delta == Edges(lab, Cross({0}, First(e)) + Follow(e))
  }

  /** Chains from the initial state are the words of the marked expression. */
  lemma ChainIsWord(e: Rex, v: Word)
    requires Linear(e) && 0 !in Positions(e)
    ensures Matches(e, v) <==>
      && Chain(Cross({0}, First(e)) + Follow(e), [0] + v)
      && if v == [] then Nullable(e) else v[|v| - 1] in Last(e)
  {
    LocalLanguage(e, v);
    SetsInPositions(e);
    var r := Cross({0}, First(e)) + Follow(e);
    var u: Word := [0] + v;
    if v != [] {
      assert u[0] == 0 && u[1] == v[0];
      if IsLocal(e, v) {
        ChainMore(Follow(e), r, v);
        ChainConcat(r, [0], v);
      }
      if Chain(r, u) {
        assert (u[0], u[1]) in r;
        forall i, j | 0 <= i < j < |v| && j == i + 1
          ensures (v[i], v[j]) in Follow(e)
        {
          assert v[i] == u[j] && v[j] == u[j + 1] && (u[i], u[j]) in r && (u[j], u[j + 1]) in r;
        }
      }
    }
  }

  /** The automaton accepts exactly the language of the expression with the letters put back. */
  lemma FollowNfaExact(na: Nfa, e: Rex, lab: seq<nat>, w: Word)
    requires IsFollowNfa(na, e, lab)
    ensures na.Accepts(w) <==> Matches(Unmark(e, lab), w)
  {
    var r := Cross({0}, First(e)) + Follow(e);
    SetsInPositions(e);
    if na.Accepts(w) {
      var v := AcceptedChain(na, lab, r, 0, w);
      LastOfChain(na, e, lab, v);
      ChainIsWord(e, v);
      ReadOffMatches(e, lab, v);
    }
    if Matches(Unmark(e, lab), w) {
      var v := Remark(e, lab, w);
      ChainIsWord(e, v);
      LastOfChain(na, e, lab, v);
      ChainAccepted(na, lab, r, 0, v);
    }
  }

  lemma LastOfChain(na: Nfa, e: Rex, lab: seq<nat>, v: Word)
    requires IsFollowNfa(na, e, lab) && Chain(Cross({0}, First(e)) + Follow(e), [0] + v)
    ensures var q := ([0] + v)[|v|];
      q < na.states && (na.final[q] <==> if v == [] then Nullable(e) else v[|v| - 1] in Last(e))
  {
    SetsInPositions(e);
    var u: Word := [0] + v;
    if v != [] {
      assert (u[|v| - 1], u[|v|]) in Cross({0}, First(e)) + Follow(e);
    }
  }

  lemma {:induction false} UnmarkWellFormed(e: Rex, lab: seq<nat>, letters: nat)
    requires WellFormed(Unmark(e, lab), letters)
    ensures forall k :: k in Positions(e) ==> 1 <= LetterOf(lab, k) <= letters
  {
    match e
    case Eps =>
    case Sym(_) =>
    case Union(a, b) =>
      UnmarkWellFormed(a, lab, letters);
      UnmarkWellFormed(b, lab, letters);
    case Concat(a, b) =>
      UnmarkWellFormed(a, lab, letters);
      UnmarkWellFormed(b, lab, letters);
    case Star(a) => UnmarkWellFormed(a, lab, letters);
    case Plus(a) => UnmarkWellFormed(a, lab, letters);
  }

  /** The parts of the automaton, as they are computed, fit together. */
  lemma AssembledFollowNfa(na: Nfa, e: Rex, lab: seq<nat>)
    requires Linear(e) && (forall k :: k in Positions(e) ==> 1 <= k < na.states)
    requires WellFormed(Unmark(e, lab), na.letters) && 0 < na.states == |na.init| == |na.final|
    requires forall q :: 0 <= q < na.states ==> na.init[q] == (q == 0)
    requires forall q :: 0 <= q < na.states ==> na.final[q] == if q == 0 then Nullable(e) else q in Last(e)
    requires na.delta == Edges(lab, Cross({0}, First(e))) + Edges(lab, Follow(e))
    ensures IsFollowNfa(na, e, lab)
  {
    EdgesUnion(lab, Cross({0}, First(e)), Follow(e));
    UnmarkWellFormed(e, lab, na.letters);
    SetsInPositions(e);
  }
}
