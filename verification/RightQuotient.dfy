/** The right quotient of two deterministic automata: searches over pairs of states that remember where earlier
    searches have failed. */
module RightQuotient {
  import opened Automata

  type Pair = (nat, nat)

  /** Some word leads from p and from q to final states. */
  ghost predicate Meet(d1: Dfa, d2: Dfa, p: nat, q: nat)
    requires Fit(d1, d2) && p < d1.states && q < d2.states
  {
    exists v :: IsWord(v, d1.letters) && d1.final[d1.Run(p, v)] && d2.final[d2.Run(q, v)]
  }

  ghost predicate Fit(d1: Dfa, d2: Dfa) {
    d1.Valid() && d2.Valid() && d1.letters == d2.letters
  }

  predicate BothFinal(d1: Dfa, d2: Dfa, x: Pair)
    requires Fit(d1, d2) && x.0 < d1.states && x.1 < d2.states
  {
    d1.final[x.0] && d2.final[x.1]
  }

  ghost predicate InRange(d1: Dfa, d2: Dfa, x: Pair) {
    x.0 < d1.states && x.1 < d2.states
  }

  function Next(d1: Dfa, d2: Dfa, x: Pair, a: nat): (y: Pair)
    requires Fit(d1, d2) && InRange(d1, d2, x) && 1 <= a <= d1.letters
    ensures InRange(d1, d2, y)
  {
    (d1.delta[a][x.0], d2.delta[a][x.1])
  }

  lemma MeetNow(d1: Dfa, d2: Dfa, x: Pair)
    requires Fit(d1, d2) && InRange(d1, d2, x) && BothFinal(d1, d2, x)
    ensures Meet(d1, d2, x.0, x.1)
  {
    var none: Word := [];
    assert d1.Run(x.0, none) == x.0 && d2.Run(x.1, none) == x.1;
  }

  lemma MeetLater(d1: Dfa, d2: Dfa, x: Pair, a: nat)
    requires Fit(d1, d2) && InRange(d1, d2, x) && 1 <= a <= d1.letters
    requires var y := Next(d1, d2, x, a); Meet(d1, d2, y.0, y.1)
    ensures Meet(d1, d2, x.0, x.1)
  {
    var y := Next(d1, d2, x, a);
    var v: Word :| IsWord(v, d1.letters) && d1.final[d1.Run(y.0, v)] && d2.final[d2.Run(y.1, v)];
    var w: Word := [a] + v;
    assert w[1..] == v && w[0] == a;
    assert d1.Run(x.0, w) == d1.Run(y.0, v) && d2.Run(x.1, w) == d2.Run(y.1, v);
  }

  /** The pairs in dead cannot reach a pair of final states. */
  ghost predicate Hopeless(d1: Dfa, d2: Dfa, dead: set<Pair>)
    requires Fit(d1, d2)
  {
    forall x :: x in dead ==> InRange(d1, d2, x) && !Meet(d1, d2, x.0, x.1)
  }

  /** Without a pair of final states, and closed under all letters up to pairs that are hopeless. */
  ghost predicate ClosedWithoutFinal(d1: Dfa, d2: Dfa, pairs: seq<Pair>, dead: set<Pair>)
    requires Fit(d1, d2)
  {
    forall x :: x in pairs ==> InRange(d1, d2, x) && !BothFinal(d1, d2, x) && LeadsInside(d1, d2, x, pairs, dead)
  }

  ghost predicate LeadsInside(d1: Dfa, d2: Dfa, x: Pair, pairs: seq<Pair>, dead: set<Pair>)
    requires Fit(d1, d2) && InRange(d1, d2, x)
  {
    forall a :: 1 <= a <= d1.letters ==> Next(d1, d2, x, a) in pairs || Next(d1, d2, x, a) in dead
  }

  lemma {:induction false} ClosedRun(d1: Dfa, d2: Dfa, pairs: seq<Pair>, dead: set<Pair>, x: Pair, v: Word)
    requires Fit(d1, d2) && Hopeless(d1, d2, dead) && ClosedWithoutFinal(d1, d2, pairs, dead) && x in pairs
    requires IsWord(v, d1.letters)
    ensures InRange(d1, d2, x) && !(d1.final[d1.Run(x.0, v)] && d2.final[d2.Run(x.1, v)])
    decreases |v|
  {
    if v != [] {
      var y := Next(d1, d2, x, v[0]);
      assert IsWord(v[1..], d1.letters);
      if y in pairs {
        ClosedRun(d1, d2, pairs, dead, y, v[1..]);
      } else {
        assert y in dead && !Meet(d1, d2, y.0, y.1);
      }
    }
  }

  /** A search that ends without a pair of final states shows that all its pairs are hopeless. */
  lemma FailedSearch(d1: Dfa, d2: Dfa, pairs: seq<Pair>, dead: set<Pair>)
    requires Fit(d1, d2) && Hopeless(d1, d2, dead) && ClosedWithoutFinal(d1, d2, pairs, dead)
    ensures Hopeless(d1, d2, dead + set x | x in pairs)
  {
    forall x | x in pairs
      ensures InRange(d1, d2, x) && !Meet(d1, d2, x.0, x.1)
    {
      forall v: Word | IsWord(v, d1.letters)
        ensures !(d1.final[d1.Run(x.0, v)] && d2.final[d2.Run(x.1, v)])
      {
        ClosedRun(d1, d2, pairs, dead, x, v);
      }
    }
  }

  // ---- the search ----

  const FALSE := 0
  const TRUE := 1
  const UN_KNOWN := 2

  /** The marks: TRUE for the pairs of the current search, UN_KNOWN for the hopeless ones. */
  ghost predicate Marked(mark: array2<nat>, d1: Dfa, d2: Dfa, pairs: seq<Pair>, dead: set<Pair>)
    reads mark
  {
    && mark.Length0 == d1.states && mark.Length1 == d2.states
    && (forall p, q :: 0 <= p < d1.states && 0 <= q < d2.states ==>
        mark[p, q] == if (p, q) in pairs then TRUE else if (p, q) in dead then UN_KNOWN else FALSE)
  }

  /** The pairs found are different, not final, not known to be hopeless, and lead back to the first one. */
  ghost predicate Searching(d1: Dfa, d2: Dfa, pairs: seq<Pair>, dead: set<Pair>, run: nat)
    requires Fit(d1, d2)
  {
    && run <= |pairs| && pairs != []
    && (forall i :: 0 <= i < |pairs| ==> InRange(d1, d2, pairs[i]) && !BothFinal(d1, d2, pairs[i]) && pairs[i] !in dead)
    && (forall i, j :: 0 <= i < j < |pairs| ==> pairs[i] != pairs[j])
    && (forall i :: 0 <= i < |pairs| && Meet(d1, d2, pairs[i].0, pairs[i].1) ==> Meet(d1, d2, pairs[0].0, pairs[0].1))
    && (forall i :: 0 <= i < run ==> LeadsInside(d1, d2, pairs[i], pairs, dead))
  }

  lemma SearchEnds(d1: Dfa, d2: Dfa, pairs: seq<Pair>, dead: set<Pair>)
    requires Fit(d1, d2) && Searching(d1, d2, pairs, dead, |pairs|)
    ensures ClosedWithoutFinal(d1, d2, pairs, dead)
  {
  }

  /** There are at most as many different pairs as there are pairs of states. */
  lemma PairsBound(d1: Dfa, d2: Dfa, pairs: seq<Pair>)
    requires forall i :: 0 <= i < |pairs| ==> InRange(d1, d2, pairs[i])
    requires forall i, j :: 0 <= i < j < |pairs| ==> pairs[i] != pairs[j]
    ensures |pairs| <= d1.states * d2.states
  {
    var f: seq<nat> := seq(|pairs|, i requires 0 <= i < |pairs| => pairs[i].0 * d2.states + pairs[i].1);
    forall i | 0 <= i < |f|
      ensures f[i] < d1.states * d2.states
    {
      Coded(pairs[i].0, pairs[i].1, d1.states, d2.states);
    }
    forall i, j | 0 <= i < j < |f|
      ensures f[i] != f[j]
    {
      if f[i] == f[j] {
        CodeInjective(pairs[i].0, pairs[i].1, pairs[j].0, pairs[j].1, d2.states);
      }
    }
    Pigeonhole(f, d1.states * d2.states);
  }

  lemma {:induction false} MultipleLess(a: nat, b: nat, n: nat)
    requires a < b
    ensures a * n + n <= b * n
  {
    if a + 1 < b {
      MultipleLess(a, b - 1, n);
    }
    assert (b - 1) * n + n == b * n;
  }

  lemma Coded(p: nat, q: nat, m: nat, n: nat)
    requires p < m && q < n
    ensures p * n + q < m * n
  {
    MultipleLess(p, m, n);
  }

  lemma CodeInjective(p: nat, q: nat, p': nat, q': nat, n: nat)
    requires q < n && q' < n && p * n + q == p' * n + q'
    ensures p == p' && q == q'
  {
    if p < p' {
      MultipleLess(p, p', n);
    } else if p' < p {
      MultipleLess(p', p, n);
    }
  }

  /** A new pair behind a pair of the list. */
  lemma FoundPair(d1: Dfa, d2: Dfa, pairs: seq<Pair>, dead: set<Pair>, run: nat, a: nat)
    requires Fit(d1, d2) && Searching(d1, d2, pairs, dead, run) && run < |pairs| && 1 <= a <= d1.letters
    requires var y := Next(d1, d2, pairs[run], a); !BothFinal(d1, d2, y) && y !in pairs && y !in dead
    ensures Searching(d1, d2, pairs + [Next(d1, d2, pairs[run], a)], dead, run)
  {
    var y := Next(d1, d2, pairs[run], a);
    var more := pairs + [y];
    if Meet(d1, d2, y.0, y.1) {
      MeetLater(d1, d2, pairs[run], a);
    }
    forall i | 0 <= i < run
      ensures LeadsInside(d1, d2, more[i], more, dead)
    {
      assert LeadsInside(d1, d2, pairs[i], pairs, dead);
    }
  }

  /** The letters of the pair in work, as long as they lead to no pair of final states. */
  method Expand(d1: Dfa, d2: Dfa, mark: array2<nat>, pairs0: seq<Pair>, run: nat, ghost dead: set<Pair>)
    returns (test: bool, pairs: seq<Pair>)
    requires Fit(d1, d2) && Marked(mark, d1, d2, pairs0, dead) && Searching(d1, d2, pairs0, dead, run) && run < |pairs0|
    modifies mark
    ensures Marked(mark, d1, d2, pairs, dead) && pairs0 <= pairs && Searching(d1, d2, pairs, dead, run)
    ensures test ==> LeadsInside(d1, d2, pairs[run], pairs, dead)
    ensures !test ==> Meet(d1, d2, pairs0[0].0, pairs0[0].1)
  {
    hide Meet, BothFinal, Searching;
    pairs := pairs0;
    SearchFacts(d1, d2, pairs, dead, run);
    var x := pairs[run];
    for a := 1 to d1.letters + 1
      invariant Marked(mark, d1, d2, pairs, dead) && pairs0 <= pairs && Searching(d1, d2, pairs, dead, run)
      invariant forall b :: 1 <= b < a ==> Next(d1, d2, x, b) in pairs || Next(d1, d2, x, b) in dead
    {
      var y := Next(d1, d2, x, a);
      if BothFinal(d1, d2, y) {
        MeetNow(d1, d2, y);
        MeetLater(d1, d2, x, a);
        SearchFacts(d1, d2, pairs, dead, run);
        return false, pairs;
      }
      if mark[y.0, y.1] == FALSE {
        FoundPair(d1, d2, pairs, dead, run, a);
        pairs := pairs + [y];
        mark[y.0, y.1] := TRUE;
      }
    }
    test := true;
  }

  lemma SearchFacts(d1: Dfa, d2: Dfa, pairs: seq<Pair>, dead: set<Pair>, run: nat)
    requires Fit(d1, d2) && Searching(d1, d2, pairs, dead, run)
    ensures forall i :: 0 <= i < |pairs| ==> InRange(d1, d2, pairs[i]) && pairs[i] !in dead
    ensures forall i :: 0 <= i < |pairs| && Meet(d1, d2, pairs[i].0, pairs[i].1) ==>
      Meet(d1, d2, pairs[0].0, pairs[0].1)
    ensures |pairs| <= d1.states * d2.states
  {
    PairsBound(d1, d2, pairs);
  }

  /** Search from a pair that is neither final nor marked for a pair of final states. */
  method Search(d1: Dfa, d2: Dfa, mark: array2<nat>, state: nat, ghost dead: set<Pair>)
    returns (test: bool, pairs: seq<Pair>)
    requires Fit(d1, d2) && Marked(mark, d1, d2, [], dead) && state < d1.states
    requires (state, d2.init) !in dead && !BothFinal(d1, d2, (state, d2.init))
    modifies mark
    ensures Marked(mark, d1, d2, pairs, dead) && forall x :: x in pairs ==> InRange(d1, d2, x) && x !in dead
    ensures test ==> ClosedWithoutFinal(d1, d2, pairs, dead) && (state, d2.init) in pairs
    ensures !test ==> Meet(d1, d2, state, d2.init)
  {
    hide Meet, BothFinal, Searching;
    pairs := [(state, d2.init)];
    mark[state, d2.init] := TRUE;
    var run := 0;
    test := true;
    StartSearch(d1, d2, (state, d2.init), dead);
    while run < |pairs| && test
      invariant Marked(mark, d1, d2, pairs, dead) && Searching(d1, d2, pairs, dead, if test then run else 0)
      invariant run <= |pairs| && |pairs| > 0 && pairs[0] == (state, d2.init)
      invariant !test ==> Meet(d1, d2, state, d2.init)
      decreases d1.states * d2.states - run, test
    {
      test, pairs := Expand(d1, d2, mark, pairs, run, dead);
      NextRun(d1, d2, pairs, dead, run);
      SearchFacts(d1, d2, pairs, dead, run);
      run := run + 1;
    }
    SearchFacts(d1, d2, pairs, dead, if test then run else 0);
    if test {
      SearchEnds(d1, d2, pairs, dead);
    }
  }

  lemma StartSearch(d1: Dfa, d2: Dfa, x: Pair, dead: set<Pair>)
    requires Fit(d1, d2) && InRange(d1, d2, x) && !BothFinal(d1, d2, x) && x !in dead
    ensures Searching(d1, d2, [x], dead, 0)
  {
  }

  lemma NextRun(d1: Dfa, d2: Dfa, pairs: seq<Pair>, dead: set<Pair>, run: nat)
    requires Fit(d1, d2) && Searching(d1, d2, pairs, dead, run) && run < |pairs|
    ensures InRange(d1, d2, pairs[run])
    ensures LeadsInside(d1, d2, pairs[run], pairs, dead) ==> Searching(d1, d2, pairs, dead, run + 1)
    ensures Searching(d1, d2, pairs, dead, 0)
  {
  }

  /** Replace the marks of the search. */
  method Reset(d1: Dfa, d2: Dfa, mark: array2<nat>, pairs: seq<Pair>, test: bool, ghost dead: set<Pair>)
    requires Marked(mark, d1, d2, pairs, dead) && forall x :: x in pairs ==> InRange(d1, d2, x)
    requires forall x :: x in pairs ==> x !in dead
    modifies mark
    ensures Marked(mark, d1, d2, [], if test then dead + set x | x in pairs else dead)
  {
    for i := 0 to |pairs|
      invariant mark.Length0 == d1.states && mark.Length1 == d2.states
      invariant forall p, q :: 0 <= p < d1.states && 0 <= q < d2.states ==>
        mark[p, q] == if (p, q) in pairs[..i] then (if test then UN_KNOWN else FALSE)
                      else if (p, q) in pairs then TRUE else if (p, q) in dead then UN_KNOWN else FALSE
    {
      var x := pairs[i];
      assert x in pairs;
      mark[x.0, x.1] := if test then UN_KNOWN else FALSE;
      assert pairs[..i + 1] == pairs[..i] + [x];
    }
    assert pairs[..|pairs|] == pairs;
  }

  // ---- the quotient ----

  /** The words that some word of the second automaton extends to a word of the first. */
  ghost predicate InQuotient(d1: Dfa, d2: Dfa, w: Word)
    requires Fit(d1, d2) && IsWord(w, d1.letters)
  {
    exists v :: IsWord(v, d1.letters) && IsWord(w + v, d1.letters) && d2.Accepts(v) && d1.Accepts(w + v)
  }

  lemma QuotientState(d1: Dfa, d2: Dfa, w: Word)
    requires Fit(d1, d2) && IsWord(w, d1.letters)
    ensures InQuotient(d1, d2, w) <==> Meet(d1, d2, d1.Run(d1.init, w), d2.init)
  {
    var q := d1.Run(d1.init, w);
    if InQuotient(d1, d2, w) {
      var v: Word :| IsWord(v, d1.letters) && IsWord(w + v, d1.letters) && d2.Accepts(v) && d1.Accepts(w + v);
      RunConcat(d1, d1.init, w, v);
    }
    if Meet(d1, d2, q, d2.init) {
      var v: Word :| IsWord(v, d1.letters) && d1.final[d1.Run(q, v)] && d2.final[d2.Run(d2.init, v)];
      RunConcat(d1, d1.init, w, v);
      assert IsWord(w + v, d1.letters);
    }
  }

  lemma {:induction false} SameRun(d1: Dfa, e: Dfa, q: nat, w: Word)
    requires d1.Valid() && e.Valid() && e.states == d1.states && e.letters == d1.letters && e.delta == d1.delta
    requires q < d1.states && IsWord(w, d1.letters)
    ensures e.Run(q, w) == d1.Run(q, w)
    decreases |w|
  {
    if w != [] {
      SameRun(d1, e, d1.delta[w[0]][q], w[1..]);
    }
  }

  /** The right quotient: a search from every state, skipped where an earlier one has failed. */
  method RightQuot(d1: Dfa, d2: Dfa) returns (e: Dfa)
    requires Fit(d1, d2)
    ensures e.Valid() && e.letters == d1.letters
    ensures forall w :: IsWord(w, d1.letters) ==> (e.Accepts(w) <==> InQuotient(d1, d2, w))
  {
    hide Meet, InQuotient;
    var mark := new nat[d1.states, d2.states]((p, q) => FALSE);
    var final: seq<bool> := [];
    ghost var dead: set<Pair> := {};
    for state := 0 to d1.states
      invariant fresh(mark) && Marked(mark, d1, d2, [], dead) && Hopeless(d1, d2, dead) && |final| == state
      invariant forall p :: 0 <= p < state ==> (final[p] <==> Meet(d1, d2, p, d2.init))
    {
      var test: bool;
      test, dead := Decide(d1, d2, mark, state, dead);
      final := final + [test];
    }
    e := Dfa(d1.states, d1.letters, d1.init, final, d1.delta);
    forall w: Word | IsWord(w, d1.letters)
      ensures e.Accepts(w) <==> InQuotient(d1, d2, w)
    {
      QuotientState(d1, d2, w);
      SameRun(d1, e, d1.init, w);
    }
  }

  /** Is the state final in the quotient? */
  method Decide(d1: Dfa, d2: Dfa, mark: array2<nat>, state: nat, ghost dead0: set<Pair>)
    returns (final: bool, ghost dead: set<Pair>)
    requires Fit(d1, d2) && Marked(mark, d1, d2, [], dead0) && Hopeless(d1, d2, dead0) && state < d1.states
    modifies mark
    ensures Marked(mark, d1, d2, [], dead) && Hopeless(d1, d2, dead)
    ensures final <==> Meet(d1, d2, state, d2.init)
  {
    hide Meet;
    dead := dead0;
    var x := (state, d2.init);
    if BothFinal(d1, d2, x) {
      MeetNow(d1, d2, x);
      return true, dead;
    }
    if mark[state, d2.init] != FALSE {
      assert x in dead;
      return false, dead;
    }
    var test, pairs := Search(d1, d2, mark, state, dead);
    Reset(d1, d2, mark, pairs, test, dead);
    if test {
      FailedSearch(d1, d2, pairs, dead);
      dead := dead + set y | y in pairs;
    }
    final := !test;
  }
}
