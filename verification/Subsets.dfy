/** Sets of states of a nondeterministic automaton as the states of a deterministic one. */
module Subsets {
  import opened Automata

  type StateSet = seq<bool>

  ghost predicate Meets(s: StateSet, t: StateSet) {
    exists q :: 0 <= q < |s| && q < |t| && s[q] && t[q]
  }

  /** Some state of s leads to p with the letter a. */
  ghost predicate Leads(na: Nfa, s: StateSet, a: nat, p: nat) {
    exists q :: 0 <= q < |s| && s[q] && (a, q, p) in na.delta
  }

  ghost function Successors(na: Nfa, s: StateSet, a: nat): (r: StateSet)
    ensures |r| == na.states && forall p :: 0 <= p < |r| ==> (r[p] <==> Leads(na, s, a, p))
  {
    seq(na.states, p requires p >= 0 => Leads(na, s, a, p))
  }

  ghost function After(na: Nfa, s: StateSet, w: Word): (r: StateSet)
    requires |s| == na.states
    ensures |r| == na.states
    decreases |w|
  {
    if w == [] then s else After(na, Successors(na, s, w[0]), w[1..])
  }

  lemma {:induction false} AfterConcat(na: Nfa, s: StateSet, v: Word, w: Word)
    requires |s| == na.states
    ensures After(na, s, v + w) == After(na, After(na, s, v), w)
    decreases |v|
  {
    if v == [] {
      assert v + w == w;
    } else {
      assert (v + w)[0] == v[0] && (v + w)[1..] == v[1..] + w;
      AfterConcat(na, Successors(na, s, v[0]), v[1..], w);
    }
  }

  lemma AfterOne(na: Nfa, s: StateSet, a: nat)
    requires |s| == na.states
    ensures After(na, s, [a]) == Successors(na, s, a)
  {
    assert After(na, Successors(na, s, a), []) == Successors(na, s, a);
  }

  /** A word is accepted from some state of s exactly if it leads to a set with a final state. */
  lemma {:induction false} AfterExact(na: Nfa, s: StateSet, w: Word)
    requires na.Valid() && |s| == na.states
    ensures Meets(After(na, s, w), na.final) <==> exists q :: 0 <= q < na.states && s[q] && na.AcceptsFrom(q, w)
    decreases |w|
  {
    if w == [] {
      assert forall q :: 0 <= q < na.states ==> na.AcceptsFrom(q, w) == na.final[q];
    } else {
      var r, v := Successors(na, s, w[0]), w[1..];
      AfterExact(na, r, v);
      if p :| 0 <= p < na.states && r[p] && na.AcceptsFrom(p, v) {
        var q :| 0 <= q < |s| && s[q] && (w[0], q, p) in na.delta;
        assert na.AcceptsFrom(q, w);
      }
      if q :| 0 <= q < na.states && s[q] && na.AcceptsFrom(q, w) {
        var p :| (w[0], q, p) in na.delta && na.AcceptsFrom(p, v);
        assert r[p];
      }
    }
  }

  ghost predicate IsReached(na: Nfa, s: StateSet)
    requires na.Valid()
  {
    exists w :: IsWord(w, na.letters) && After(na, na.init, w) == s
  }

  lemma ReachedStep(na: Nfa, s: StateSet, a: nat)
    requires na.Valid() && IsReached(na, s) && 1 <= a <= na.letters
    ensures IsReached(na, Successors(na, s, a))
  {
    var w :| IsWord(w, na.letters) && After(na, na.init, w) == s;
    AfterConcat(na, na.init, w, [a]);
    AfterOne(na, s, a);
    assert IsWord(w + [a], na.letters);
  }

  /** State i of da stands for sets[i]; the sets are exactly those that words reach from the initial one. */
  ghost predicate IsSubsetDfa(da: Dfa, na: Nfa, sets: seq<StateSet>)
    requires na.Valid()
  {
    && da.Valid() && da.letters == na.letters && da.states == |sets| && da.init == 0
    && sets[0] == na.init && Distinct(sets)
    && (forall i :: 0 <= i < |sets| ==> |sets[i]| == na.states && IsReached(na, sets[i]))
    && (forall i :: 0 <= i < |sets| ==> da.final[i] == Meets(sets[i], na.final))
    && (forall a, i :: 1 <= a <= na.letters && 0 <= i < |sets| ==> sets[da.delta[a][i]] == Successors(na, sets[i], a))
  }

  lemma {:induction false} RunIsAfter(da: Dfa, na: Nfa, sets: seq<StateSet>, i: nat, w: Word)
    requires na.Valid() && IsSubsetDfa(da, na, sets) && i < |sets| && IsWord(w, na.letters)
    ensures sets[da.Run(i, w)] == After(na, sets[i], w)
    decreases |w|
  {
    if w != [] {
      RunIsAfter(da, na, sets, da.delta[w[0]][i], w[1..]);
    }
  }

  lemma InitExact(na: Nfa, w: Word)
    requires na.Valid()
    ensures na.Accepts(w) <==> Meets(After(na, na.init, w), na.final)
  {
    AfterExact(na, na.init, w);
  }

  /** The deterministic automaton accepts the language of the nondeterministic one, and all its states are reachable. */
  lemma SubsetDfaExact(da: Dfa, na: Nfa, sets: seq<StateSet>)
    requires na.Valid() && IsSubsetDfa(da, na, sets)
    ensures forall w :: IsWord(w, na.letters) ==> (da.Accepts(w) <==> na.Accepts(w))
    ensures da.AllReachable()
    ensures forall s :: IsReached(na, s) ==> s in sets
  {
    forall w: Word | IsWord(w, na.letters)
      ensures da.Accepts(w) <==> na.Accepts(w)
      ensures After(na, na.init, w) in sets
    {
      RunIsAfter(da, na, sets, 0, w);
      InitExact(na, w);
    }
    forall i: nat | i < da.states
      ensures da.Reachable(i)
    {
      var w :| IsWord(w, na.letters) && After(na, na.init, w) == sets[i];
      RunIsAfter(da, na, sets, 0, w);
    }
  }
}
