/** From an automaton to an expression and back. */
module RoundTrip {
  import opened Automata
  import opened PostfixReader
  import opened Regex
  import opened StackedStars
  import E = Nfa2Rex
  import B = Rex2Nfa

  /** The expression of an automaton never stacks stars and pluses, so reading it back loses nothing. */
  method ThereAndBack(na: Nfa) returns (nb: Nfa)
    requires na.Valid() && exists w :: na.Accepts(w)
    ensures nb.Valid() && nb.letters == na.letters
    ensures forall w :: nb.Accepts(w) <==> na.Accepts(w)
  {
    var exprex, erexl;
    ghost var e;
    exprex, erexl, e := E.Nfa2Rex(na);
    CleanUnchanged(e);
    EmptyOrNot(na, e);
    TextExpression(e, na.letters, na.letters > 26);
    nb := B.Rex2Nfa(exprex, na.letters);
  }

  lemma EmptyOrNot(na: Nfa, e: Rex)
    requires na.Valid() && (exists w :: na.Accepts(w)) && forall w :: Matches(e, w) <==> na.Accepts(w)
    ensures e != Empty
  {
    var w :| na.Accepts(w);
    EmptyMatchesNothing(w);
  }
}
