/** The minimal automaton of a complete deterministic automaton. */
module Minimization {
  import opened Automata
  import opened Reachability
  import opened Hopcroft

  /** e accepts the language of d, and no automaton for this language has fewer states. */
  ghost predicate IsMinimalFor(d: Dfa, e: Dfa)
    requires d.Valid()
  {
    && e.Valid() && e.letters == d.letters && SameLanguage(d, e)
    && forall f: Dfa :: f.Valid() && f.letters == d.letters && SameLanguage(d, f) ==> e.states <= f.states
  }

  lemma ReducedSuffices(d: Dfa, e: Dfa)
    requires d.Valid() && e.Valid() && e.letters == d.letters && SameLanguage(d, e)
    requires e.AllReachable() && e.Reduced()
    ensures IsMinimalFor(d, e)
  {
    forall f: Dfa | f.Valid() && f.letters == d.letters && SameLanguage(d, f)
      ensures e.states <= f.states
    {
      ReducedIsMinimal(e, f);
    }
  }

  /** One state for the empty or the full language. */
  method OneState(d: Dfa) returns (outdfa: Dfa)
    requires d.Valid() && forall s, t :: 0 <= s < t < d.states ==> d.final[s] == d.final[t]
    ensures outdfa.Valid() && outdfa.letters == d.letters && outdfa.states == 1
    ensures SameLanguage(d, outdfa) && outdfa.AllReachable() && outdfa.Reduced()
  {
    outdfa := Dfa(1, d.letters, 0, [d.final[0]], seq(d.letters + 1, _ => [0]));
    assert outdfa.Run(0, []) == 0 && IsWord([], d.letters);
    assert outdfa.Reachable(0);
  }

  /** Minimise: delete the states that are not reachable, refine the partition, read off the blocks. */
  method Dfamdfa(indfa: Dfa) returns (outdfa: Dfa)
    requires indfa.Valid()
    ensures IsMinimalFor(indfa, outdfa)
    ensures outdfa.AllReachable() && outdfa.Reduced()
  {
    var stadfa := DelStates(indfa);
    if stadfa.states == 1 {
      outdfa := stadfa;
    } else {
      var m := new Minimizer(stadfa);
      var simple := m.InitStatic();
      if simple {
        outdfa := OneState(stadfa);
      } else {
        m.Refine();
        outdfa := m.MakeNewAutomaton();
      }
    }
    ReducedSuffices(indfa, outdfa);
  }
}
