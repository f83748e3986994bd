/** Words, complete deterministic automata and epsilon-free nondeterministic automata, with their languages.

    Letters are numbered 1..letters, as in libAMoRE; position 0 of a transition table is not used.
    A table over `states` states has the indices 0..states-1, so `states` is the source's highest_state + 1. */
module Automata {

  type Word = seq<nat>

  ghost predicate Distinct<T(!new)>(s: seq<T>) {
    forall i, j :: 0 <= i < j < |s| ==> s[i] != s[j]
  }

  ghost function UpTo(n: nat): (s: set<nat>)
    ensures forall i: nat :: i in s <==> i < n
  {
    if n == 0 then {} else UpTo(n - 1) + {n - 1}
  }

  lemma Times(a: nat, b: nat, n: nat)
    requires a <= b
    ensures a * n <= b * n
  {
  }

  /** A word over the letters 1..k. */
  ghost predicate IsWord(w: Word, k: nat) {
    forall i :: 0 <= i < |w| ==> 1 <= w[i] <= k
  }

  datatype Dfa = Dfa(states: nat, letters: nat, init: nat, final: seq<bool>, delta: seq<seq<nat>>)
  {
    ghost predicate Valid() {
      && init < states
      && |final| == states
      && |delta| == letters + 1
      && (forall a :: 1 <= a <= letters ==> |delta[a]| == states)
      && (forall a, q :: 1 <= a <= letters && 0 <= q < states ==> delta[a][q] < states)
    }

    ghost function Run(q: nat, w: Word): (r: nat)
      requires Valid() && q < states && IsWord(w, letters)
      ensures r < states
      decreases |w|
    {
      if w == [] then q else Run(delta[w[0]][q], w[1..])
    }

    ghost predicate Accepts(w: Word)
      requires Valid() && IsWord(w, letters)
    {
      final[Run(init, w)]
    }

    ghost predicate Reachable(q: nat)
      requires Valid()
    {
      exists w :: IsWord(w, letters) && Run(init, w) == q
    }

    ghost predicate AllReachable()
      requires Valid()
    {
      forall q :: 0 <= q < states ==> Reachable(q)
    }

    /** No word tells p and q apart: the Myhill-Nerode equivalence on states. */
    ghost predicate Equivalent(p: nat, q: nat)
      requires Valid() && p < states && q < states
    {
      forall w :: IsWord(w, letters) ==> final[Run(p, w)] == final[Run(q, w)]
    }

    /** Different states are told apart by some word. */
    ghost predicate Reduced()
      requires Valid()
    {
      forall p, q :: 0 <= p < states && 0 <= q < states && Equivalent(p, q) ==> p == q
    }
  }

  /** An epsilon-free nondeterministic automaton; (a, p, q) in delta says that letter a leads from p to q. */
  datatype Nfa = Nfa(states: nat, letters: nat, init: seq<bool>, final: seq<bool>, delta: set<(nat, nat, nat)>)
  {
    ghost predicate Valid() {
      && 0 < states == |init| == |final|
      && (forall a, p, q :: (a, p, q) in delta ==> 1 <= a <= letters && p < states && q < states)
    }

    /** Some run over w leads from q to a final state. */
    ghost predicate AcceptsFrom(q: nat, w: Word)
      requires Valid() && q < states
      decreases |w|
    {
      if w == [] then final[q]
      else exists t :: (w[0], q, t) in delta && AcceptsFrom(t, w[1..])
    }

    ghost predicate Accepts(w: Word)
      requires Valid()
    {
      exists q :: 0 <= q < states && init[q] && AcceptsFrom(q, w)
    }
  }

  ghost predicate SameLanguage(d: Dfa, e: Dfa)
    requires d.Valid() && e.Valid() && d.letters == e.letters
  {
    forall w :: IsWord(w, d.letters) ==> d.Accepts(w) == e.Accepts(w)
  }

  lemma {:induction false} RunConcat(d: Dfa, q: nat, v: Word, w: Word)
    requires d.Valid() && q < d.states && IsWord(v, d.letters) && IsWord(w, d.letters)
    ensures IsWord(v + w, d.letters) && d.Run(q, v + w) == d.Run(d.Run(q, v), w)
    decreases |v|
  {
    if v == [] {
      assert v + w == w;
    } else {
      assert (v + w)[1..] == v[1..] + w && (v + w)[0] == v[0];
      RunConcat(d, d.delta[v[0]][q], v[1..], w);
    }
  }

  lemma ReachableStep(d: Dfa, q: nat, a: nat)
    requires d.Valid() && q < d.states && 1 <= a <= d.letters && d.Reachable(q)
    ensures d.Reachable(d.delta[a][q])
  {
    var w :| IsWord(w, d.letters) && d.Run(d.init, w) == q;
    RunConcat(d, d.init, w, [a]);
    assert d.Run(q, [a]) == d.Run(d.delta[a][q], []);
    assert IsWord(w + [a], d.letters) && d.Run(d.init, w + [a]) == d.delta[a][q];
  }

  lemma EquivalentStep(d: Dfa, p: nat, q: nat, a: nat)
    requires d.Valid() && p < d.states && q < d.states && 1 <= a <= d.letters && d.Equivalent(p, q)
    ensures d.Equivalent(d.delta[a][p], d.delta[a][q])
  {
    forall w | IsWord(w, d.letters)
      ensures d.final[d.Run(d.delta[a][p], w)] == d.final[d.Run(d.delta[a][q], w)]
    {
      assert IsWord([a] + w, d.letters) && ([a] + w)[1..] == w;
      assert d.Run(p, [a] + w) == d.Run(d.delta[a][p], w);
      assert d.Run(q, [a] + w) == d.Run(d.delta[a][q], w);
    }
  }

  lemma EquivalentFinal(d: Dfa, p: nat, q: nat)
    requires d.Valid() && p < d.states && q < d.states && d.Equivalent(p, q)
    ensures d.final[p] == d.final[q]
  {
    assert IsWord([], d.letters);
    assert d.Run(p, []) == p && d.Run(q, []) == q;
  }

  /** Map the states of d one to one into the states of e, along a word that reaches each of them. */
  ghost function Representative(d: Dfa, q: nat): (w: Word)
    requires d.Valid() && d.Reachable(q)
    ensures IsWord(w, d.letters) && d.Run(d.init, w) == q
  {
    var w :| IsWord(w, d.letters) && d.Run(d.init, w) == q; w
  }

  lemma SameImageEquivalent(d: Dfa, e: Dfa, v: Word, w: Word)
    requires d.Valid() && e.Valid() && d.letters == e.letters && SameLanguage(d, e)
    requires IsWord(v, d.letters) && IsWord(w, d.letters)
    requires e.Run(e.init, v) == e.Run(e.init, w)
    ensures d.Equivalent(d.Run(d.init, v), d.Run(d.init, w))
  {
    forall x | IsWord(x, d.letters)
      ensures d.final[d.Run(d.Run(d.init, v), x)] == d.final[d.Run(d.Run(d.init, w), x)]
    {
      RunConcat(d, d.init, v, x);
      RunConcat(d, d.init, w, x);
      RunConcat(e, e.init, v, x);
      RunConcat(e, e.init, w, x);
      assert d.Accepts(v + x) == e.Accepts(v + x);
      assert d.Accepts(w + x) == e.Accepts(w + x);
    }
  }

  lemma {:induction false} Pigeonhole(f: seq<nat>, m: nat)
    requires forall i :: 0 <= i < |f| ==> f[i] < m
    requires forall i, j :: 0 <= i < j < |f| ==> f[i] != f[j]
    ensures |f| <= m
  {
    if |f| > 0 {
      assert f[0] < m;
      if k :| 0 <= k < |f| && f[k] == m - 1 {
        Pigeonhole(f[..k] + f[k + 1..], m - 1);
      } else {
        Pigeonhole(f, m - 1);
      }
    }
  }

  /** Minimality: an automaton whose states are all reachable and pairwise distinguishable has no more
      states than any other automaton for its language. */
  lemma ReducedIsMinimal(d: Dfa, e: Dfa)
    requires d.Valid() && e.Valid() && d.letters == e.letters && SameLanguage(d, e)
    requires d.AllReachable() && d.Reduced()
    ensures d.states <= e.states
  {
    var f := seq(d.states, q requires 0 <= q < d.states => e.Run(e.init, Representative(d, q)));
    forall i, j | 0 <= i < j < |f|
      ensures f[i] != f[j]
    {
      if f[i] == f[j] {
        SameImageEquivalent(d, e, Representative(d, i), Representative(d, j));
      }
    }
    Pigeonhole(f, e.states);
  }
}
