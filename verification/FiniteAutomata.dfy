/** libAMoRE++'s view of an epsilon-free finite automaton: states 0..states-1, letters 0..letters-1. */
module FiniteAutomata {
  import opened Automata
  import opened OrderedSets

  datatype Fa = Fa(states: nat, letters: nat, initial: seq<nat>, final: seq<nat>, trans: set<(nat, nat, nat)>)
  {
    ghost predicate Valid() {
      && Sorted(initial) && Sorted(final)
      && (forall q :: q in Elems(initial) ==> q < states)
      && (forall q :: q in Elems(final) ==> q < states)
      && (forall p, a, q :: (p, a, q) in trans ==> p < states && a < letters && q < states)
    }

    /** Some run over w leads from q to a final state. */
    ghost predicate AcceptsFrom(q: nat, w: Word)
      decreases |w|
    {
      if w == [] then q in Elems(final)
      else exists t :: (q, w[0], t) in trans && AcceptsFrom(t, w[1..])
    }

    ghost predicate Accepts(w: Word) {
      exists q: nat :: q in Elems(initial) && AcceptsFrom(q, w)
    }

    ghost function Post(q: nat, a: nat): set<nat> {
      set x | x in trans && x.0 == q && x.1 == a :: x.2
    }

    ghost function Pre(q: nat, a: nat): set<nat> {
      set x | x in trans && x.2 == q && x.1 == a :: x.0
    }

    /** The states from which w is not accepted. */
    ghost function Safe(w: Word): set<nat> {
      set s: nat | s < states && !AcceptsFrom(s, w)
    }
  }

  /** A word that the one automaton accepts and the other does not. */
  ghost predicate Separates(a: Fa, b: Fa, w: Word) {
    b.Accepts(w) && !a.Accepts(w)
  }

  /** One letter in front: the states all of whose successors are safe are safe. */
  lemma SafeStep(a: Fa, x: nat, w: Word)
    requires a.Valid()
    ensures a.Safe([x] + w) == set s: nat | s < a.states && a.Post(s, x) <= a.Safe(w)
  {
    forall s: nat | s < a.states
      ensures a.AcceptsFrom(s, [x] + w) <==> !(a.Post(s, x) <= a.Safe(w))
    {
      assert ([x] + w)[1..] == w;
      if a.AcceptsFrom(s, [x] + w) {
        var t :| (s, x, t) in a.trans && a.AcceptsFrom(t, w);
        assert t in a.Post(s, x);
      }
      if !(a.Post(s, x) <= a.Safe(w)) {
        var t :| t in a.Post(s, x) && t !in a.Safe(w);
        assert (s, x, t) in a.trans;
      }
    }
  }

  lemma AcceptsStep(b: Fa, q: nat, x: nat, w: Word)
    ensures b.AcceptsFrom(q, [x] + w) <==> exists t: nat :: q in b.Pre(t, x) && b.AcceptsFrom(t, w)
  {
    assert ([x] + w)[1..] == w;
    if b.AcceptsFrom(q, [x] + w) {
      var t :| (q, x, t) in b.trans && b.AcceptsFrom(t, w);
      assert q in b.Pre(t, x);
    }
    if t: nat :| q in b.Pre(t, x) && b.AcceptsFrom(t, w) {
      assert (q, x, t) in b.trans;
    }
  }

  /** b accepts w from its initial state q, and a accepts w from none of its initial states. */
  ghost predicate SeparatesFrom(a: Fa, b: Fa, q: nat, w: Word) {
    q in Elems(b.initial) && b.AcceptsFrom(q, w) && Elems(a.initial) <= a.Safe(w)
  }

  lemma SeparatesIff(a: Fa, b: Fa, w: Word)
    requires a.Valid()
    ensures Separates(a, b, w) <==> exists q :: SeparatesFrom(a, b, q, w)
  {
    assert a.Accepts(w) <==> !(Elems(a.initial) <= a.Safe(w)) by {
      if !(Elems(a.initial) <= a.Safe(w)) {
        var s: nat :| s in Elems(a.initial) && s !in a.Safe(w);
        assert a.AcceptsFrom(s, w);
      }
    }
    if Separates(a, b, w) {
      var q: nat :| q in Elems(b.initial) && b.AcceptsFrom(q, w);
      assert SeparatesFrom(a, b, q, w);
    }
  }

  /** maps[state][letter] holds the predecessors, or the successors, of every state under every letter. */
  ghost predicate IsPremap(a: Fa, premap: seq<seq<seq<nat>>>) {
    && |premap| == a.states
    && (forall q :: 0 <= q < a.states ==> |premap[q]| == a.letters)
    && (forall q, x :: 0 <= q < a.states && 0 <= x < a.letters ==>
          Sorted(premap[q][x]) && Elems(premap[q][x]) == a.Pre(q, x))
  }

  ghost predicate IsPostmap(a: Fa, postmap: seq<seq<seq<nat>>>) {
    && |postmap| == a.states
    && (forall q :: 0 <= q < a.states ==> |postmap[q]| == a.letters)
    && (forall q, x :: 0 <= q < a.states && 0 <= x < a.letters ==>
          Sorted(postmap[q][x]) && Elems(postmap[q][x]) == a.Post(q, x))
  }

  method PredecessorStates(a: Fa, state: nat, sigma: nat) returns (ret: seq<nat>)
    requires a.Valid() && state < a.states && sigma < a.letters
    ensures Sorted(ret) && Elems(ret) == a.Pre(state, sigma)
  {
    ret := [];
    for src := 0 to a.states
      invariant Sorted(ret) && Elems(ret) == set q | q in a.Pre(state, sigma) && q < src
    {
      if (src, sigma, state) in a.trans {
        InsertExact(ret, src);
        ret := Insert(ret, src);
      }
    }
  }

  method SuccessorStates(a: Fa, state: nat, sigma: nat) returns (ret: seq<nat>)
    requires a.Valid() && state < a.states && sigma < a.letters
    ensures Sorted(ret) && Elems(ret) == a.Post(state, sigma)
  {
    ret := [];
    for dst := 0 to a.states
      invariant Sorted(ret) && Elems(ret) == set q | q in a.Post(state, sigma) && q < dst
    {
      if (state, sigma, dst) in a.trans {
        InsertExact(ret, dst);
        ret := Insert(ret, dst);
      }
    }
  }

  method GetTransitionMaps(a: Fa) returns (premap: seq<seq<seq<nat>>>, postmap: seq<seq<seq<nat>>>)
    requires a.Valid()
    ensures IsPremap(a, premap) && IsPostmap(a, postmap)
  {
    premap, postmap := [], [];
    for state := 0 to a.states
      invariant |premap| == |postmap| == state
      invariant forall q :: 0 <= q < state ==> |premap[q]| == |postmap[q]| == a.letters
      invariant forall q, x :: 0 <= q < state && 0 <= x < a.letters ==>
        Sorted(premap[q][x]) && Elems(premap[q][x]) == a.Pre(q, x)
      invariant forall q, x :: 0 <= q < state && 0 <= x < a.letters ==>
        Sorted(postmap[q][x]) && Elems(postmap[q][x]) == a.Post(q, x)
    {
      var pre: seq<seq<nat>>, post: seq<seq<nat>> := [], [];
      for sigma := 0 to a.letters
        invariant |pre| == |post| == sigma
        invariant forall x :: 0 <= x < sigma ==> Sorted(pre[x]) && Elems(pre[x]) == a.Pre(state, x)
        invariant forall x :: 0 <= x < sigma ==> Sorted(post[x]) && Elems(post[x]) == a.Post(state, x)
      {
        var p := PredecessorStates(a, state, sigma);
        var s := SuccessorStates(a, state, sigma);
        pre, post := pre + [p], post + [s];
      }
      premap, postmap := premap + [pre], postmap + [post];
    }
  }
}
