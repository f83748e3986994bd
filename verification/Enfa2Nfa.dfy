/** Removing epsilon moves: the new letter moves are entered in place, row by row, and some are missed. */
module Enfa2Nfa {
  import opened Automata
  import opened EpsilonClosure

  // ---- which moves are found ----

  /** Letter a leads from s to g, with epsilon moves before and after. */
  ghost predicate Through(e: Enfa, a: nat, s: nat, g: nat, p: nat, r: nat) {
    e.Eps(s, p) && (a, p, r) in e.delta && e.Eps(r, g)
  }

  ghost predicate Wanted(e: Enfa, a: nat, s: nat, g: nat) {
    exists p: nat, r: nat :: Through(e, a, s, g, p, r)
  }

  /** What the loops find: the letter move starts in a row that is not after s, or ends in a column that is not
      after g. */
  ghost predicate Found(e: Enfa, a: nat, s: nat, g: nat) {
    exists p: nat, r: nat :: Through(e, a, s, g, p, r) && (p <= s || r <= g)
  }

  ghost predicate Before(a: nat, s: nat, g: nat, b: nat, t: nat, h: nat) {
    a < b || (a == b && (s < t || (s == t && g < h)))
  }

  /** The moves when the loops have come to (a, s, g). */
  ghost predicate Entered(e: Enfa, d: set<(nat, nat, nat)>, a: nat, s: nat, g: nat) {
    && (forall b, t, h :: (b, t, h) in d ==> 1 <= b <= e.letters && t < e.states && h < e.states)
    && (forall b, t, h :: 1 <= b <= e.letters && 0 <= t < e.states && 0 <= h < e.states ==>
          ((b, t, h) in d <==> if Before(b, t, h, a, s, g) then Found(e, b, t, h) else (b, t, h) in e.delta))
  }

  /** A move over cut: epsilon moves first, or epsilon moves last. */
  ghost predicate Over(e: Enfa, d: set<(nat, nat, nat)>, a: nat, s: nat, g: nat, cut: nat) {
    (e.Eps(s, cut) && (a, cut, g) in d) || (e.Eps(cut, g) && (a, s, cut) in d)
  }

  lemma FoundIntro(e: Enfa, a: nat, s: nat, g: nat, p: nat, r: nat)
    requires e.Eps(s, p) && (a, p, r) in e.delta && e.Eps(r, g) && (p <= s || r <= g)
    ensures Found(e, a, s, g)
  {
    assert Through(e, a, s, g, p, r);
  }

  lemma KnownFound(e: Enfa, a: nat, s: nat, g: nat)
    requires (a, s, g) in e.delta
    ensures Found(e, a, s, g)
  {
    EpsReflexive(e, s);
    EpsReflexive(e, g);
    FoundIntro(e, a, s, g, s, g);
  }

  /** A move over some state is a found one. */
  lemma OverFound(e: Enfa, d: set<(nat, nat, nat)>, a: nat, s: nat, g: nat, cut: nat)
    requires Entered(e, d, a, s, g) && Over(e, d, a, s, g, cut)
    requires 1 <= a <= e.letters && s < e.states && g < e.states && cut < e.states
    ensures Found(e, a, s, g)
  {
    EpsReflexive(e, s);
    EpsReflexive(e, g);
    if e.Eps(s, cut) && (a, cut, g) in d {
      if Before(a, cut, g, a, s, g) {
        var p: nat, r: nat :| Through(e, a, cut, g, p, r) && (p <= cut || r <= g);
        EpsTransitive(e, s, cut, p);
        FoundIntro(e, a, s, g, p, r);
      } else {
        FoundIntro(e, a, s, g, cut, g);
      }
    } else {
      if Before(a, s, cut, a, s, g) {
        var p: nat, r: nat :| Through(e, a, s, cut, p, r) && (p <= s || r <= cut);
        EpsTransitive(e, r, cut, g);
        FoundIntro(e, a, s, g, p, r);
      } else {
        FoundIntro(e, a, s, g, s, cut);
      }
    }
  }

  /** A found move is there already or goes over some state. */
  lemma FoundOver(e: Enfa, d: set<(nat, nat, nat)>, a: nat, s: nat, g: nat) returns (cut: nat)
    requires e.Valid() && Entered(e, d, a, s, g) && Found(e, a, s, g)
    requires 1 <= a <= e.letters && s < e.states && g < e.states
    ensures cut < e.states && Over(e, d, a, s, g, cut)
  {
    var p: nat, r: nat :| Through(e, a, s, g, p, r) && (p <= s || r <= g);
    EpsReflexive(e, p);
    EpsReflexive(e, r);
    if r < g {
      cut := r;
      FoundIntro(e, a, s, r, p, r);
    } else if p < s {
      cut := p;
      FoundIntro(e, a, p, g, p, r);
    } else if r == g {
      cut := p;
      KnownFound(e, a, p, g);
    } else {
      cut := r;
      KnownFound(e, a, s, r);
    }
  }

  // ---- the loops ----

  lemma MoveDone(e: Enfa, d0: set<(nat, nat, nat)>, d: set<(nat, nat, nat)>, a: nat, s: nat, g: nat)
    requires e.Valid() && Entered(e, d0, a, s, g) && 1 <= a <= e.letters && s < e.states && g < e.states
    requires d == d0 || d == d0 + {(a, s, g)}
    requires (a, s, g) in d ==> Found(e, a, s, g)
    requires forall c: nat :: c < e.states && Over(e, d0, a, s, g, c) ==> (a, s, g) in d
    ensures Entered(e, d, a, s, g + 1)
  {
    if Found(e, a, s, g) {
      var cut := FoundOver(e, d0, a, s, g);
    }
    forall b: nat, t: nat, h: nat | 1 <= b <= e.letters && t < e.states && h < e.states
      ensures (b, t, h) in d <==> if Before(b, t, h, a, s, g + 1) then Found(e, b, t, h) else (b, t, h) in e.delta
    {
      if !(b == a && t == s && h == g) {
        assert (b, t, h) in d <==> (b, t, h) in d0;
        assert Before(b, t, h, a, s, g + 1) <==> Before(b, t, h, a, s, g);
      }
    }
  }

  /** Plane matp of the matrices tells which states epsilon moves lead to. */
  ghost predicate Closed(e: Enfa, mat: array3<bool>, matp: nat)
    reads mat
  {
    && mat.Length0 == 2 && mat.Length1 == mat.Length2 == e.states && matp < 2
    && forall p: nat, q: nat :: p < e.states && q < e.states ==> (mat[matp, p, q] <==> e.Eps(p, q))
  }

  /** Look at all states between: enter the move if one of them gives it. */
  method EnterMove(e: Enfa, mat: array3<bool>, matp: nat, d0: set<(nat, nat, nat)>, a: nat, s: nat, g: nat)
    returns (d: set<(nat, nat, nat)>)
    requires e.Valid() && Closed(e, mat, matp)
    requires Entered(e, d0, a, s, g) && 1 <= a <= e.letters && s < e.states && g < e.states
    ensures Entered(e, d, a, s, g + 1)
  {
    d := d0;
    if (a, s, g) in e.delta {
      KnownFound(e, a, s, g);
    }
    for cut := 0 to e.states
      invariant d == d0 || d == d0 + {(a, s, g)}
      invariant (a, s, g) in d ==> Found(e, a, s, g)
      invariant forall c: nat :: c < cut && Over(e, d0, a, s, g, c) ==> (a, s, g) in d
    {
      if (a, s, g) in d {
        d := d + {(a, s, g)};
      } else if mat[matp, s, cut] && (a, cut, g) in d {
        OverFound(e, d0, a, s, g, cut);
        d := d + {(a, s, g)};
      } else if mat[matp, cut, g] && (a, s, cut) in d {
        OverFound(e, d0, a, s, g, cut);
        d := d + {(a, s, g)};
      }
    }
    MoveDone(e, d0, d, a, s, g);
  }

  lemma NextRow(e: Enfa, d: set<(nat, nat, nat)>, a: nat, s: nat)
    requires Entered(e, d, a, s, e.states)
    ensures Entered(e, d, a, s + 1, 0)
  {
    assert forall b: nat, t: nat, h: nat :: h < e.states ==>
      (Before(b, t, h, a, s, e.states) <==> Before(b, t, h, a, s + 1, 0));
  }

  lemma NextLetter(e: Enfa, d: set<(nat, nat, nat)>, a: nat)
    requires Entered(e, d, a, e.states, 0)
    ensures Entered(e, d, a + 1, 0, 0)
  {
    assert forall b: nat, t: nat, h: nat :: t < e.states ==>
      (Before(b, t, h, a, e.states, 0) <==> Before(b, t, h, a + 1, 0, 0));
  }

  /** Enter the new letter moves in place. */
  method EnterMoves(e: Enfa, mat: array3<bool>, matp: nat, d0: set<(nat, nat, nat)>) returns (d: set<(nat, nat, nat)>)
    requires e.Valid() && Closed(e, mat, matp) && d0 == set x | x in e.delta && x.0 > 0
    ensures forall a: nat, s: nat, g: nat :: (a, s, g) in d <==>
      1 <= a <= e.letters && s < e.states && g < e.states && Found(e, a, s, g)
  {
    d := d0;
    assert Entered(e, d, 1, 0, 0);
    hide Entered, Closed;
    for letter := 1 to e.letters + 1
      invariant Entered(e, d, letter, 0, 0)
    {
      for state := 0 to e.states
        invariant Entered(e, d, letter, state, 0)
      {
        for goal := 0 to e.states
          invariant Entered(e, d, letter, state, goal)
        {
          d := EnterMove(e, mat, matp, d, letter, state, goal);
        }
        NextRow(e, d, letter, state);
      }
      NextLetter(e, d, letter);
    }
    AllEntered(e, d);
  }

  lemma AllEntered(e: Enfa, d: set<(nat, nat, nat)>)
    requires Entered(e, d, e.letters + 1, 0, 0)
    ensures forall a: nat, s: nat, g: nat :: (a, s, g) in d <==>
      1 <= a <= e.letters && s < e.states && g < e.states && Found(e, a, s, g)
  {
  }

  ghost predicate ToFinal(e: Enfa, q: nat)
    requires e.Valid()
  {
    exists t :: 0 <= t < e.states && e.Eps(q, t) && e.final[t]
  }

  /** The initial states below k are marked. */
  ghost predicate Marked(e: Enfa, final: seq<bool>, k: nat)
    requires e.Valid()
  {
    |final| == e.states && forall q :: 0 <= q < e.states ==>
      (final[q] <==> e.final[q] || (q < k && e.init[q] && ToFinal(e, q)))
  }

  lemma MarkedAlready(e: Enfa, final: seq<bool>, k: nat)
    requires e.Valid() && Marked(e, final, k) && k < e.states && (!e.init[k] || final[k])
    ensures Marked(e, final, k + 1)
  {
  }

  lemma FinalBehind(e: Enfa, final: seq<bool>, k: nat, q: nat, t: nat)
    requires e.Valid() && Marked(e, final, k) && t < e.states && e.Eps(q, t) && final[t]
    ensures ToFinal(e, q)
  {
    if !e.final[t] {
      var u :| 0 <= u < e.states && e.Eps(t, u) && e.final[u];
      EpsTransitive(e, q, t, u);
    }
  }

  /** Search for a final state; the marks that were added before do not matter. */
  method MarkState(e: Enfa, mat: array3<bool>, matp: nat, final0: seq<bool>, state: nat) returns (final: seq<bool>)
    requires e.Valid() && Closed(e, mat, matp) && Marked(e, final0, state)
    requires state < e.states && e.init[state] && !final0[state]
    ensures Marked(e, final, state + 1)
  {
    final := final0;
    for goal := 0 to e.states
      invariant final == final0 && forall t :: 0 <= t < goal && e.Eps(state, t) ==> !e.final[t]
    {
      if final[goal] && mat[matp, state, goal] {
        FinalBehind(e, final0, state, state, goal);
        final := final[state := true];
        return;
      }
    }
  }

  /** An initial state with epsilon moves to a final state becomes final. */
  method MarkFinal(e: Enfa, mat: array3<bool>, matp: nat) returns (final: seq<bool>)
    requires e.Valid() && Closed(e, mat, matp)
    ensures Marked(e, final, e.states)
  {
    final := e.final;
    for state := 0 to e.states
      invariant Marked(e, final, state)
    {
      if e.init[state] && !final[state] {
        final := MarkState(e, mat, matp, final, state);
      } else {
        MarkedAlready(e, final, state);
      }
    }
  }

  // ---- the languages ----

  /** No move over epsilon moves is missed. */
  ghost predicate NothingMissed(e: Enfa) {
    forall a: nat, s: nat, g: nat ::
      1 <= a <= e.letters && s < e.states && g < e.states && Wanted(e, a, s, g) ==> Found(e, a, s, g)
  }

  /** Some run over w along found moves leads from q to one of the states f. */
  ghost predicate FoundFrom(e: Enfa, q: nat, w: Word, f: seq<bool>)
    requires e.Valid() && q < e.states == |f|
    decreases |w|
  {
    if w == [] then f[q] else exists r: nat :: r < e.states && Found(e, w[0], q, r) && FoundFrom(e, r, w[1..], f)
  }

  ghost predicate Falling(e: Enfa) {
    forall p, q :: (0, p, q) in e.delta ==> q <= p
  }

  ghost predicate Rising(e: Enfa) {
    forall p, q :: (0, p, q) in e.delta ==> p <= q
  }

  lemma {:induction false} MonotoneMoves(e: Enfa, p: nat, q: nat, k: nat)
    requires e.Moves(p, q, k)
    ensures (Falling(e) ==> q <= p) && (Rising(e) ==> p <= q)
    decreases k
  {
    if k > 0 {
      var r: nat :| (0, p, r) in e.delta && e.Moves(r, q, k - 1);
      MonotoneMoves(e, r, q, k - 1);
    }
  }

  /** If all epsilon moves go to smaller numbers, or all to larger ones, no move is missed. */
  lemma MonotoneEnough(e: Enfa)
    requires Falling(e) || Rising(e)
    ensures NothingMissed(e)
  {
    forall a: nat, s: nat, g: nat | Wanted(e, a, s, g)
      ensures Found(e, a, s, g)
    {
      var p: nat, r: nat :| Through(e, a, s, g, p, r);
      var k :| e.Moves(s, p, k);
      var l :| e.Moves(r, g, l);
      MonotoneMoves(e, s, p, k);
      MonotoneMoves(e, r, g, l);
      FoundIntro(e, a, s, g, p, r);
    }
  }

  /** Found moves are moves of the automaton. */
  lemma {:induction false} FoundSound(e: Enfa, q: nat, w: Word, f: seq<bool>)
    requires e.Valid() && q < e.states == |f| && FoundFrom(e, q, w, f)
    ensures e.AcceptsFrom(q, w, f)
    decreases |w|
  {
    if w == [] {
      EpsReflexive(e, q);
    } else {
      var g: nat :| g < e.states && Found(e, w[0], q, g) && FoundFrom(e, g, w[1..], f);
      var p: nat, r: nat :| Through(e, w[0], q, g, p, r);
      FoundSound(e, g, w[1..], f);
      EpsFirst(e, r, g, w[1..], f);
    }
  }

  /** If no move is missed, words that are not empty keep their runs. */
  lemma {:induction false} FoundComplete(e: Enfa, q: nat, w: Word, f: seq<bool>)
    requires e.Valid() && q < e.states == |f| && NothingMissed(e) && IsWord(w, e.letters) && w != []
    requires e.AcceptsFrom(q, w, f)
    ensures FoundFrom(e, q, w, f)
    decreases |w|
  {
    var p: nat, r: nat :| e.Eps(q, p) && (w[0], p, r) in e.delta && e.AcceptsFrom(r, w[1..], f);
    var g: nat := r;
    if |w| == 1 {
      g :| g < e.states && e.Eps(r, g) && f[g];
    } else {
      EpsReflexive(e, r);
      FoundComplete(e, r, w[1..], f);
    }
    assert Through(e, w[0], q, g, p, r) && Wanted(e, w[0], q, g);
    assert Found(e, w[0], q, g) && FoundFrom(e, g, w[1..], f);
  }

  /** Exactly if no move is missed, the found moves accept the same words that are not empty, from every state and
      for every choice of final states. */
  lemma MissedExact(e: Enfa)
    requires e.Valid()
    ensures NothingMissed(e) <==>
              forall q: nat, w: Word, f: seq<bool> ::
                q < e.states == |f| && IsWord(w, e.letters) && w != [] ==>
                  (FoundFrom(e, q, w, f) <==> e.AcceptsFrom(q, w, f))
  {
    if NothingMissed(e) {
      forall q: nat, w: Word, f: seq<bool> | q < e.states == |f| && IsWord(w, e.letters) && w != []
        ensures FoundFrom(e, q, w, f) <==> e.AcceptsFrom(q, w, f)
      {
        if FoundFrom(e, q, w, f) {
          FoundSound(e, q, w, f);
        }
        if e.AcceptsFrom(q, w, f) {
          FoundComplete(e, q, w, f);
        }
      }
    } else {
      var a: nat, s: nat, g: nat :|
        1 <= a <= e.letters && s < e.states && g < e.states && Wanted(e, a, s, g) && !Found(e, a, s, g);
      MissedMove(e, a, s, g);
    }
  }

  lemma MissedMove(e: Enfa, a: nat, s: nat, g: nat)
    requires e.Valid() && 1 <= a <= e.letters && s < e.states && g < e.states
    requires Wanted(e, a, s, g) && !Found(e, a, s, g)
    ensures var f := seq(e.states, q => q == g); e.AcceptsFrom(s, [a], f) && !FoundFrom(e, s, [a], f)
  {
    var f := seq(e.states, q => q == g);
    var w: Word := [a];
    assert w[1..] == [];
    var p: nat, r: nat :| Through(e, a, s, g, p, r);
    assert e.AcceptsFrom(r, w[1..], f);
    assert e.AcceptsFrom(s, w, f);
    forall x: nat | x < e.states && Found(e, a, s, x)
      ensures !FoundFrom(e, x, w[1..], f)
    {
    }
  }

  /** The automaton without epsilon moves: found moves, and marks for initial states that reach final ones. */
  ghost predicate IsResult(e: Enfa, na: Nfa)
    requires e.Valid()
  {
    && na.Valid() && na.states == e.states && na.letters == e.letters && na.init == e.init
    && Marked(e, na.final, e.states)
    && forall a: nat, s: nat, g: nat :: (a, s, g) in na.delta <==>
         1 <= a <= e.letters && s < e.states && g < e.states && Found(e, a, s, g)
  }

  lemma {:induction false} ResultSound(e: Enfa, na: Nfa, q: nat, w: Word)
    requires e.Valid() && IsResult(e, na) && q < e.states && na.AcceptsFrom(q, w)
    ensures e.AcceptsFrom(q, w, e.final) && IsWord(w, e.letters)
    decreases |w|
  {
    if w == [] {
      EpsReflexive(e, q);
      assert na.final[q];
    } else {
      var g: nat :| (w[0], q, g) in na.delta && na.AcceptsFrom(g, w[1..]);
      ResultSound(e, na, g, w[1..]);
      var p: nat, r: nat :| Through(e, w[0], q, g, p, r);
      EpsFirst(e, r, g, w[1..], e.final);
    }
  }

  lemma {:induction false} ResultFound(e: Enfa, na: Nfa, q: nat, w: Word)
    requires e.Valid() && IsResult(e, na) && q < e.states && IsWord(w, e.letters) && FoundFrom(e, q, w, e.final)
    ensures na.AcceptsFrom(q, w)
    decreases |w|
  {
    if w != [] {
      var g: nat :| g < e.states && Found(e, w[0], q, g) && FoundFrom(e, g, w[1..], e.final);
      ResultFound(e, na, g, w[1..]);
    }
  }

  /** The result never accepts more, and accepts the same if no move is missed. */
  lemma ResultLanguage(e: Enfa, na: Nfa, w: Word)
    requires e.Valid() && IsResult(e, na) && IsWord(w, e.letters)
    ensures na.Accepts(w) ==> e.Accepts(w)
    ensures NothingMissed(e) && e.Accepts(w) ==> na.Accepts(w)
  {
    if na.Accepts(w) {
      var q :| 0 <= q < na.states && na.init[q] && na.AcceptsFrom(q, w);
      ResultSound(e, na, q, w);
    }
    if NothingMissed(e) && e.Accepts(w) {
      var q :| 0 <= q < e.states && e.init[q] && e.AcceptsFrom(q, w, e.final);
      if w == [] {
        assert ToFinal(e, q) && na.final[q];
      } else {
        FoundComplete(e, q, w, e.final);
        ResultFound(e, na, q, w);
      }
      assert na.AcceptsFrom(q, w);
    }
  }

  lemma {:induction false} NoMoves(e: Enfa, p: nat, q: nat, k: nat)
    requires (forall s, t :: (0, s, t) !in e.delta) && e.Moves(p, q, k)
    ensures p == q
  {
  }

  lemma NoEpsilon(e: Enfa, a: nat, s: nat, g: nat)
    requires forall p, q :: (0, p, q) !in e.delta
    ensures Found(e, a, s, g) <==> (a, s, g) in e.delta
    ensures Wanted(e, a, s, g) ==> Found(e, a, s, g)
  {
    forall p: nat, q: nat | e.Eps(p, q)
      ensures p == q
    {
      var k :| e.Moves(p, q, k);
      NoMoves(e, p, q, k);
    }
    if (a, s, g) in e.delta {
      KnownFound(e, a, s, g);
    }
  }

  /** The automaton without epsilon moves; without the mark isEps it is the automaton itself. */
  method Enfa2Nfa(e: Enfa, isEps: bool) returns (na: Nfa)
    requires e.Valid() && (!isEps ==> forall p, q :: (0, p, q) !in e.delta)
    ensures IsResult(e, na)
    ensures forall w :: IsWord(w, e.letters) && na.Accepts(w) ==> e.Accepts(w)
    ensures NothingMissed(e) ==> forall w :: IsWord(w, e.letters) ==> (na.Accepts(w) <==> e.Accepts(w))
    ensures !isEps ==> NothingMissed(e)
  {
    var final := e.final;
    var delta := set x | x in e.delta && x.0 > 0;
    if isEps {
      var mat, matp := EpsClosure(e);
      final := MarkFinal(e, mat, matp);
      delta := EnterMoves(e, mat, matp, delta);
    } else {
      NoEpsilonResult(e, delta);
    }
    na := Nfa(e.states, e.letters, e.init, final, delta);
    forall w | IsWord(w, e.letters)
      ensures na.Accepts(w) ==> e.Accepts(w)
      ensures NothingMissed(e) && e.Accepts(w) ==> na.Accepts(w)
    {
      ResultLanguage(e, na, w);
    }
  }

  lemma NoEpsilonResult(e: Enfa, delta: set<(nat, nat, nat)>)
    requires e.Valid() && (forall p, q :: (0, p, q) !in e.delta) && delta == set x | x in e.delta && x.0 > 0
    ensures NothingMissed(e) && Marked(e, e.final, e.states)
    ensures forall a: nat, s: nat, g: nat :: (a, s, g) in delta <==>
      1 <= a <= e.letters && s < e.states && g < e.states && Found(e, a, s, g)
  {
    forall a: nat, s: nat, g: nat
      ensures Found(e, a, s, g) <==> (a, s, g) in e.delta
      ensures Wanted(e, a, s, g) ==> Found(e, a, s, g)
    {
      NoEpsilon(e, a, s, g);
    }
    forall p: nat, q: nat | e.Eps(p, q)
      ensures p == q
    {
      var k :| e.Moves(p, q, k);
      NoMoves(e, p, q, k);
    }
  }

  // ---- a word that is lost ----

  /** From 0 an epsilon move to 1, the letter 1 to 3 and an epsilon move back to the final state 2. */
  ghost function Back(): Enfa {
    Enfa(4, 1, [true, false, false, false], [false, false, true, false], {(0, 0, 1), (1, 1, 3), (0, 3, 2)})
  }

  lemma {:induction false} BackMoves(p: nat, q: nat, k: nat)
    requires Back().Moves(p, q, k)
    ensures p == q || (p == 0 && q == 1) || (p == 3 && q == 2)
    decreases k
  {
    if k > 0 {
      var r: nat :| (0, p, r) in Back().delta && Back().Moves(r, q, k - 1);
      BackMoves(r, q, k - 1);
    }
  }

  lemma BackEps(p: nat, q: nat)
    requires Back().Eps(p, q)
    ensures p == q || (p == 0 && q == 1) || (p == 3 && q == 2)
  {
    var k :| Back().Moves(p, q, k);
    BackMoves(p, q, k);
  }

  lemma BackAccepts()
    ensures Back().Valid() && Back().Accepts([1])
  {
    var e := Back();
    var w: Word := [1];
    assert w[1..] == [];
    EpsOne(e, 0, 1);
    EpsOne(e, 3, 2);
    assert e.final[2];
    assert e.AcceptsFrom(3, w[1..], e.final);
    assert e.AcceptsFrom(0, w, e.final);
  }

  lemma OnlyThree(g: nat)
    requires Found(Back(), 1, 0, g)
    ensures g == 3
  {
    var p: nat, r: nat :| Through(Back(), 1, 0, g, p, r) && (p <= 0 || r <= g);
    BackEps(r, g);
  }

  lemma BackResult(na: Nfa)
    requires Back().Valid() && IsResult(Back(), na)
    ensures !na.Accepts([1])
  {
    hide Found;
    var w: Word := [1];
    assert w[1..] == [];
    if na.Accepts(w) {
      var q :| 0 <= q < na.states && na.init[q] && na.AcceptsFrom(q, w);
      var g: nat :| (w[0], q, g) in na.delta && na.AcceptsFrom(g, w[1..]);
      OnlyThree(g);
    }
  }

  /** The row of 0 comes before that of 1, and column 2 before column 3: the word 1 is lost. */
  lemma LostWord(na: Nfa)
    requires Back().Valid() && IsResult(Back(), na)
    ensures Back().Accepts([1]) && !na.Accepts([1]) && !NothingMissed(Back())
  {
    hide Nfa.Accepts, Enfa.Accepts, NothingMissed, IsResult;
    BackAccepts();
    BackResult(na);
    var w: Word := [1];
    assert IsWord(w, Back().letters);
    ResultLanguage(Back(), na, w);
  }
}
