/** Why refining a partition by Hopcroft's waiting list ends in the Myhill-Nerode classes.

    A partition is given by the block number cls[s] of every state s; the waiting entries are a set of
    pairs (letter, block). */
module PartitionRefinement {
  import opened Automata
  import opened WaitingRing

  ghost predicate Classes(d: Dfa, cls: seq<nat>) {
    d.Valid() && |cls| == d.states
  }

  /** States that no word tells apart are in one block. */
  ghost predicate Coarse(d: Dfa, cls: seq<nat>)
    requires Classes(d, cls)
  {
    forall p, q :: 0 <= p < d.states && 0 <= q < d.states && d.Equivalent(p, q) ==> cls[p] == cls[q]
  }

  /** No block holds both a final and a nonfinal state. */
  ghost predicate FinalPure(d: Dfa, cls: seq<nat>)
    requires Classes(d, cls)
  {
    forall p, q :: 0 <= p < d.states && 0 <= q < d.states && cls[p] == cls[q] ==> d.final[p] == d.final[q]
  }

  /** Whenever letter b leads from one block into two different blocks, one of the two is waiting with b,
      or b is the letter a just taken and the set hit still separates the two states. */
  ghost predicate Covered(d: Dfa, cls: seq<nat>, waiting: set<Item>, a: nat, hit: set<nat>)
    requires Classes(d, cls)
  {
    forall p, q, b :: 0 <= p < d.states && 0 <= q < d.states && 1 <= b <= d.letters && cls[p] == cls[q] ==>
      CoveredAt(d, cls, waiting, a, hit, p, q, b)
  }

  ghost predicate CoveredAt(d: Dfa, cls: seq<nat>, waiting: set<Item>, a: nat, hit: set<nat>, p: nat, q: nat, b: nat)
    requires Classes(d, cls) && p < d.states && q < d.states && 1 <= b <= d.letters
  {
    var x, y := cls[d.delta[b][p]], cls[d.delta[b][q]];
    x == y || Item(b, x) in waiting || Item(b, y) in waiting || (b == a && ((p in hit) != (q in hit)))
  }

  /** The states that letter a leads into block bno. */
  ghost function Hit(d: Dfa, cls: seq<nat>, a: nat, bno: nat): (hit: set<nat>)
    requires Classes(d, cls) && 1 <= a <= d.letters
  {
    set s: nat | s < d.states && cls[d.delta[a][s]] == bno
  }

  /** The members of a block that lie in hit get the new number nb. */
  ghost predicate SplitInto(d: Dfa, cls: seq<nat>, cls': seq<nat>, bl: nat, nb: nat, hit: set<nat>)
    requires Classes(d, cls)
  {
    && |cls'| == |cls|
    && (forall s :: 0 <= s < |cls| ==> cls[s] != nb)
    && (forall s :: 0 <= s < |cls| ==> cls'[s] == if cls[s] == bl && s in hit then nb else cls[s])
  }

  /** No two equivalent states are separated by hit. */
  ghost predicate Respected(d: Dfa, hit: set<nat>)
    requires d.Valid()
  {
    forall p, q :: 0 <= p < d.states && 0 <= q < d.states && d.Equivalent(p, q) ==> (p in hit <==> q in hit)
  }

  lemma SplitKeepsCoarse(d: Dfa, cls: seq<nat>, cls': seq<nat>, bl: nat, nb: nat, hit: set<nat>)
    requires Classes(d, cls) && Coarse(d, cls) && SplitInto(d, cls, cls', bl, nb, hit)
    requires Respected(d, hit)
    ensures Coarse(d, cls')
  {
  }

  /** Final and nonfinal states apart, and both blocks waiting with every letter. */
  lemma FirstPartition(d: Dfa, cls: seq<nat>, waiting: set<Item>)
    requires Classes(d, cls) && (forall s :: 0 <= s < d.states ==> cls[s] == if d.final[s] then 0 else 1)
    requires forall a, b :: 1 <= a <= d.letters && 0 <= b < 2 ==> Item(a, b) in waiting
    ensures Coarse(d, cls) && FinalPure(d, cls) && Covered(d, cls, waiting, 0, {})
  {
    forall p, q | 0 <= p < d.states && 0 <= q < d.states && d.Equivalent(p, q)
      ensures cls[p] == cls[q]
    {
      EquivalentFinal(d, p, q);
    }
  }

  lemma HitRespectsEquivalence(d: Dfa, cls: seq<nat>, a: nat, bno: nat)
    requires Classes(d, cls) && Coarse(d, cls) && 1 <= a <= d.letters
    ensures Respected(d, Hit(d, cls, a, bno))
  {
    forall p, q | 0 <= p < d.states && 0 <= q < d.states && d.Equivalent(p, q)
      ensures p in Hit(d, cls, a, bno) <==> q in Hit(d, cls, a, bno)
    {
      EquivalentStep(d, p, q, a);
    }
  }

  /** The entry taken from the list is made up for by the set it hits. */
  lemma TakeKeepsCovered(d: Dfa, cls: seq<nat>, waiting: set<Item>, a: nat, bno: nat)
    requires Classes(d, cls) && 1 <= a <= d.letters && Covered(d, cls, waiting, 0, {})
    ensures Covered(d, cls, waiting - {Item(a, bno)}, a, Hit(d, cls, a, bno))
  {
    forall p, q, b | 0 <= p < d.states && 0 <= q < d.states && 1 <= b <= d.letters && cls[p] == cls[q]
      ensures CoveredAt(d, cls, waiting - {Item(a, bno)}, a, Hit(d, cls, a, bno), p, q, b)
    {
      assert CoveredAt(d, cls, waiting, 0, {}, p, q, b);
    }
  }

  /** Splitting a block keeps the cover if for every letter one of the halves is waiting afterwards, and
      both are where the whole block was: which half is added does not matter for correctness. */
  lemma SplitKeepsCovered(d: Dfa, cls: seq<nat>, cls': seq<nat>, waiting: set<Item>, waiting': set<Item>,
                          a: nat, hit: set<nat>, bl: nat, nb: nat)
    requires Classes(d, cls) && SplitInto(d, cls, cls', bl, nb, hit)
    requires Covered(d, cls, waiting, a, hit) && waiting <= waiting'
    requires forall b :: 1 <= b <= d.letters && Item(b, bl) in waiting ==> Item(b, nb) in waiting'
    requires forall b :: 1 <= b <= d.letters ==> Item(b, bl) in waiting' || Item(b, nb) in waiting'
    ensures Covered(d, cls', waiting', a, hit)
  {
    forall p, q, b | 0 <= p < d.states && 0 <= q < d.states && 1 <= b <= d.letters && cls'[p] == cls'[q]
      ensures CoveredAt(d, cls', waiting', a, hit, p, q, b)
    {
      assert CoveredAt(d, cls, waiting, a, hit, p, q, b);
    }
  }

  /** When no block is cut by hit any more, hit can be forgotten. */
  lemma StepDone(d: Dfa, cls: seq<nat>, waiting: set<Item>, a: nat, hit: set<nat>)
    requires Classes(d, cls) && Covered(d, cls, waiting, a, hit)
    requires forall p, q :: 0 <= p < d.states && 0 <= q < d.states && cls[p] == cls[q] ==> (p in hit <==> q in hit)
    ensures Covered(d, cls, waiting, 0, {})
  {
    forall p, q, b | 0 <= p < d.states && 0 <= q < d.states && 1 <= b <= d.letters && cls[p] == cls[q]
      ensures CoveredAt(d, cls, waiting, 0, {}, p, q, b)
    {
      assert CoveredAt(d, cls, waiting, a, hit, p, q, b);
    }
  }

  /** Nothing waits: letters lead from one block into one block. */
  ghost predicate Stable(d: Dfa, cls: seq<nat>)
    requires Classes(d, cls)
  {
    forall p, q, b :: 0 <= p < d.states && 0 <= q < d.states && 1 <= b <= d.letters && cls[p] == cls[q] ==>
      cls[d.delta[b][p]] == cls[d.delta[b][q]]
  }

  lemma NothingWaiting(d: Dfa, cls: seq<nat>)
    requires Classes(d, cls) && Covered(d, cls, {}, 0, {})
    ensures Stable(d, cls)
  {
    forall p, q, b | 0 <= p < d.states && 0 <= q < d.states && 1 <= b <= d.letters && cls[p] == cls[q]
      ensures cls[d.delta[b][p]] == cls[d.delta[b][q]]
    {
      assert CoveredAt(d, cls, {}, 0, {}, p, q, b);
    }
  }

  lemma {:induction false} StableRun(d: Dfa, cls: seq<nat>, p: nat, q: nat, w: Word)
    requires Classes(d, cls) && Stable(d, cls) && p < d.states && q < d.states && cls[p] == cls[q]
    requires IsWord(w, d.letters)
    ensures cls[d.Run(p, w)] == cls[d.Run(q, w)]
    decreases |w|
  {
    if w != [] {
      StableRun(d, cls, d.delta[w[0]][p], d.delta[w[0]][q], w[1..]);
    }
  }

  /** The blocks of a stable, coarse and pure partition are exactly the Myhill-Nerode classes. */
  lemma BlocksAreClasses(d: Dfa, cls: seq<nat>)
    requires Classes(d, cls) && Coarse(d, cls) && FinalPure(d, cls) && Stable(d, cls)
    ensures forall p, q :: 0 <= p < d.states && 0 <= q < d.states ==> (cls[p] == cls[q] <==> d.Equivalent(p, q))
  {
    forall p, q | 0 <= p < d.states && 0 <= q < d.states && cls[p] == cls[q]
      ensures d.Equivalent(p, q)
    {
      forall w | IsWord(w, d.letters)
        ensures d.final[d.Run(p, w)] == d.final[d.Run(q, w)]
      {
        StableRun(d, cls, p, q, w);
      }
    }
  }

  /** The automaton over the blocks, read off one representative of each. */
  ghost predicate Quotient(d: Dfa, cls: seq<nat>, rep: seq<nat>, e: Dfa)
    requires Classes(d, cls)
  {
    && e.Valid() && e.letters == d.letters && e.states == |rep|
    && (forall s :: 0 <= s < |cls| ==> cls[s] < |rep|)
    && (forall b :: 0 <= b < |rep| ==> rep[b] < d.states && cls[rep[b]] == b)
    && e.init == cls[d.init]
    && (forall b :: 0 <= b < |rep| ==> e.final[b] == d.final[rep[b]])
    && (forall a, b :: 1 <= a <= d.letters && 0 <= b < |rep| ==> e.delta[a][b] == cls[d.delta[a][rep[b]]])
  }

  lemma {:induction false} QuotientRun(d: Dfa, cls: seq<nat>, rep: seq<nat>, e: Dfa, q: nat, w: Word)
    requires Classes(d, cls) && Stable(d, cls) && Quotient(d, cls, rep, e) && q < d.states && IsWord(w, d.letters)
    ensures e.Run(cls[q], w) == cls[d.Run(q, w)]
    decreases |w|
  {
    if w != [] {
      var b := cls[q];
      assert cls[rep[b]] == b;
      assert e.delta[w[0]][b] == cls[d.delta[w[0]][rep[b]]] == cls[d.delta[w[0]][q]];
      QuotientRun(d, cls, rep, e, d.delta[w[0]][q], w[1..]);
    }
  }

  lemma QuotientIsMinimal(d: Dfa, cls: seq<nat>, rep: seq<nat>, e: Dfa)
    requires Classes(d, cls) && Coarse(d, cls) && FinalPure(d, cls) && Stable(d, cls) && d.AllReachable()
    requires Quotient(d, cls, rep, e)
    ensures SameLanguage(d, e) && e.AllReachable() && e.Reduced()
  {
    forall w | IsWord(w, d.letters)
      ensures d.Accepts(w) == e.Accepts(w)
    {
      QuotientRun(d, cls, rep, e, d.init, w);
      var s := d.Run(d.init, w);
      assert cls[rep[cls[s]]] == cls[s];
    }
    forall b | 0 <= b < e.states
      ensures e.Reachable(b)
    {
      assert d.Reachable(rep[b]);
      var w :| IsWord(w, d.letters) && d.Run(d.init, w) == rep[b];
      QuotientRun(d, cls, rep, e, d.init, w);
    }
    forall b, c | 0 <= b < e.states && 0 <= c < e.states && e.Equivalent(b, c)
      ensures b == c
    {
      forall w | IsWord(w, d.letters)
        ensures d.final[d.Run(rep[b], w)] == d.final[d.Run(rep[c], w)]
      {
        QuotientRun(d, cls, rep, e, rep[b], w);
        QuotientRun(d, cls, rep, e, rep[c], w);
        var s, t := d.Run(rep[b], w), d.Run(rep[c], w);
        assert e.final[e.Run(b, w)] == e.final[e.Run(c, w)];
        assert cls[rep[cls[s]]] == cls[s] && cls[rep[cls[t]]] == cls[t];
      }
      assert d.Equivalent(rep[b], rep[c]);
    }
  }
}
