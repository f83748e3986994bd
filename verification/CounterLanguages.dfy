/** Languages of automata with one visible counter: the part within a bound, products, and inclusion. */
module CounterLanguages {
  import opened Automata
  import opened CounterAutomata

  /** An automaton with an initial state and final states. */
  datatype Vca = Vca(base: Mvca, init: nat, final: set<nat>)
  {
    ghost predicate Valid() {
      base.Valid() && init < base.states && forall q :: q in final ==> q < base.states
    }

    /** Accepting is ending in a final state with the counter 0. */
    ghost predicate Accepts(w: Word)
      requires Valid()
    {
      exists q :: q in final && base.Drives(init, 0, w, q, 0)
    }
  }

  /** The counter stays in 0..b. */
  ghost predicate Within(dir: seq<int>, m: int, w: Word, b: nat)
    decreases |w|
  {
    0 <= m <= b && (w == [] || (w[0] < |dir| && Within(dir, m + dir[w[0]], w[1..], b)))
  }

  /** Numbers for pairs. */
  function Pair(p: nat, q: nat, n: nat): nat {
    p * n + q
  }

  lemma PairInjective(p: nat, q: nat, r: nat, s: nat, n: nat)
    requires q < n && s < n && Pair(p, q, n) == Pair(r, s, n)
    ensures p == r && q == s
  {
    if p < r {
      Times(p + 1, r, n);
    } else if r < p {
      Times(r + 1, p, n);
    }
  }

  lemma PairBelow(p: nat, q: nat, k: nat, n: nat)
    requires p < k && q < n
    ensures Pair(p, q, n) < k * n
  {
    Times(p + 1, k, n);
  }

  // ---- the behaviour within a bound ----

  /** A finite automaton; (p, x, q) in edges says that x leads from p to q. */
  datatype Graph = Graph(states: nat, letters: nat, init: set<nat>, final: set<nat>, edges: set<(nat, nat, nat)>)
  {
    ghost predicate Runs(p: nat, w: Word, q: nat)
      decreases |w|
    {
      if w == [] then p == q else exists r :: (p, w[0], r) in edges && Runs(r, w[1..], q)
    }

    ghost predicate Accepts(w: Word) {
      exists p, q :: p in init && q in final && Runs(p, w, q)
    }
  }

  /** The rule at the counter m from p to q is an edge from (m, p) to (k, q), within the bound b. */
  ghost predicate IsEdge(a: Mvca, b: nat, m: nat, p: nat, x: nat, k: nat, q: nat)
    requires a.Valid()
  {
    m <= b && (a.Level(m), p, x, q) in a.delta && k == m + a.dir[x] && k <= b
  }

  function Edge(n: nat, m: nat, p: nat, x: nat, k: nat, q: nat): (nat, nat, nat) {
    (Pair(m, p, n), x, Pair(k, q, n))
  }

  ghost predicate HasEdge(a: Mvca, b: nat, e: (nat, nat, nat))
    requires a.Valid()
  {
    exists m: nat, p: nat, x: nat, k: nat, q: nat :: IsEdge(a, b, m, p, x, k, q) && e == Edge(a.states, m, p, x, k, q)
  }

  /** The edges are among those of the automaton within the bound b. */
  ghost predicate OnlyEdges(a: Mvca, b: nat, edges: set<(nat, nat, nat)>)
    requires a.Valid()
  {
    forall e :: e in edges ==> HasEdge(a, b, e)
  }

  /** Those from the counter m with the letter x, from the states below p, are there. */
  ghost predicate LetterEdges(a: Mvca, b: nat, edges: set<(nat, nat, nat)>, m: nat, x: nat, p: nat)
    requires a.Valid()
  {
    forall o: nat, k: nat, q: nat :: o < p && IsEdge(a, b, m, o, x, k, q) ==> Edge(a.states, m, o, x, k, q) in edges
  }

  /** Those from counters below m are there. */
  ghost predicate CounterEdges(a: Mvca, b: nat, edges: set<(nat, nat, nat)>, m: nat)
    requires a.Valid()
  {
    forall i: nat, x: nat :: i < m && x < a.letters ==> LetterEdges(a, b, edges, i, x, a.states)
  }

  ghost predicate EdgesOf(a: Mvca, b: nat, edges: set<(nat, nat, nat)>)
    requires a.Valid()
  {
    OnlyEdges(a, b, edges) && CounterEdges(a, b, edges, b + 1)
  }

  lemma OneEdge(a: Mvca, b: nat, edges: set<(nat, nat, nat)>, m: nat, p: nat, x: nat, k: nat, q: nat)
    requires a.Valid() && OnlyEdges(a, b, edges) && IsEdge(a, b, m, p, x, k, q)
    ensures OnlyEdges(a, b, edges + {Edge(a.states, m, p, x, k, q)})
  {
    assert HasEdge(a, b, Edge(a.states, m, p, x, k, q));
  }

  /** The edges from all states with the counter m and the letter x. */
  method BoundedEdges(a: Mvca, b: nat, m: nat, x: nat, edges: set<(nat, nat, nat)>)
      returns (more: set<(nat, nat, nat)>)
    requires a.Valid() && m <= b && x < a.letters && OnlyEdges(a, b, edges)
    ensures edges <= more && OnlyEdges(a, b, more) && LetterEdges(a, b, more, m, x, a.states)
  {
    hide OnlyEdges, Edge;
    more := edges;
    var k := m + a.dir[x];
    for p := 0 to a.states
      invariant edges <= more && OnlyEdges(a, b, more) && LetterEdges(a, b, more, m, x, p)
    {
      if k < 0 || k > b {
        break;
      }
      var j: nat := k;
      for q := 0 to a.states
        invariant edges <= more && OnlyEdges(a, b, more) && LetterEdges(a, b, more, m, x, p)
        invariant forall r: nat :: r < q && IsEdge(a, b, m, p, x, j, r) ==> Edge(a.states, m, p, x, j, r) in more
      {
        if (a.Level(m), p, x, q) in a.delta {
          OneEdge(a, b, more, m, p, x, j, q);
          more := more + {Edge(a.states, m, p, x, j, q)};
        }
      }
    }
  }

  lemma EdgesKept(a: Mvca, b: nat, edges: set<(nat, nat, nat)>, more: set<(nat, nat, nat)>)
    requires a.Valid() && edges <= more
    ensures forall m: nat, x: nat, p: nat :: LetterEdges(a, b, edges, m, x, p) ==> LetterEdges(a, b, more, m, x, p)
  {
  }

  /** The edges from all states with the counter m. */
  method BoundedLetters(a: Mvca, b: nat, m: nat, edges: set<(nat, nat, nat)>) returns (more: set<(nat, nat, nat)>)
    requires a.Valid() && m <= b && OnlyEdges(a, b, edges)
    ensures edges <= more && OnlyEdges(a, b, more)
    ensures forall x: nat :: x < a.letters ==> LetterEdges(a, b, more, m, x, a.states)
  {
    hide OnlyEdges, LetterEdges;
    more := edges;
    for x: nat := 0 to a.letters
      invariant edges <= more && OnlyEdges(a, b, more)
      invariant forall y: nat :: y < x ==> LetterEdges(a, b, more, m, y, a.states)
    {
      ghost var before := more;
      more := BoundedEdges(a, b, m, x, more);
      EdgesKept(a, b, before, more);
    }
  }

  /** The automaton over pairs of counter and state. */
  method GetBoundedBehaviourGraph(v: Vca, b: nat) returns (g: Graph)
    requires v.Valid()
    ensures g.states == v.base.states * (b + 1) && g.letters == v.base.letters
    ensures g.init == {v.init} && g.final == v.final && EdgesOf(v.base, b, g.edges)
    ensures forall w :: g.Accepts(w) <==> v.Accepts(w) && Within(v.base.dir, 0, w, b)
  {
    hide OnlyEdges, LetterEdges, Graph.Accepts, Vca.Accepts, Within;
    var edges: set<(nat, nat, nat)> := {};
    assert OnlyEdges(v.base, b, edges) by {
      NoEdges(v.base, b);
    }
    for m: nat := 0 to b + 1
      invariant OnlyEdges(v.base, b, edges) && CounterEdges(v.base, b, edges, m)
    {
      ghost var before := edges;
      edges := BoundedLetters(v.base, b, m, edges);
      EdgesKept(v.base, b, before, edges);
    }
    g := Graph(v.base.states * (b + 1), v.base.letters, {v.init}, v.final, edges);
    forall w: Word
      ensures g.Accepts(w) <==> v.Accepts(w) && Within(v.base.dir, 0, w, b)
    {
      GraphAccepts(v, b, g, w);
    }
  }

  lemma NoEdges(a: Mvca, b: nat)
    requires a.Valid()
    ensures OnlyEdges(a, b, {})
  {
  }

  lemma EdgeFrom(a: Mvca, b: nat, edges: set<(nat, nat, nat)>, m: nat, p: nat, x: nat, t: nat) returns (k: nat, q: nat)
    requires a.Valid() && EdgesOf(a, b, edges) && (Pair(m, p, a.states), x, t) in edges && p < a.states
    ensures IsEdge(a, b, m, p, x, k, q) && t == Pair(k, q, a.states)
  {
    hide Pair;
    var e := (Pair(m, p, a.states), x, t);
    assert HasEdge(a, b, e);
    var i: nat, o: nat, y: nat, j: nat, r: nat :| IsEdge(a, b, i, o, y, j, r) && e == Edge(a.states, i, o, y, j, r);
    PairInjective(i, o, m, p, a.states);
    k, q := j, r;
  }

  lemma EdgeTo(a: Mvca, b: nat, edges: set<(nat, nat, nat)>, m: nat, p: nat, x: nat, k: nat, q: nat)
    requires a.Valid() && EdgesOf(a, b, edges) && IsEdge(a, b, m, p, x, k, q)
    ensures (Pair(m, p, a.states), x, Pair(k, q, a.states)) in edges
  {
    assert LetterEdges(a, b, edges, m, x, a.states);
    assert Edge(a.states, m, p, x, k, q) in edges;
  }

  lemma {:induction false} GraphRuns(a: Mvca, b: nat, g: Graph, m: nat, p: nat, w: Word, k: nat, q: nat)
    requires a.Valid() && EdgesOf(a, b, g.edges) && m <= b && p < a.states && k <= b && q < a.states
    ensures g.Runs(Pair(m, p, a.states), w, Pair(k, q, a.states))
            <==> a.Drives(p, m, w, q, k) && Within(a.dir, m, w, b)
    decreases |w|
  {
    hide Pair, EdgesOf;
    if w == [] {
      if Pair(m, p, a.states) == Pair(k, q, a.states) {
        PairInjective(m, p, k, q, a.states);
      }
    } else {
      if g.Runs(Pair(m, p, a.states), w, Pair(k, q, a.states)) {
        var t: nat :| (Pair(m, p, a.states), w[0], t) in g.edges && g.Runs(t, w[1..], Pair(k, q, a.states));
        var j, r := EdgeFrom(a, b, g.edges, m, p, w[0], t);
        GraphRuns(a, b, g, j, r, w[1..], k, q);
        assert a.Step(p, m, w[0], r, j);
      }
      if a.Drives(p, m, w, q, k) && Within(a.dir, m, w, b) {
        var r: nat, j: nat :| a.Step(p, m, w[0], r, j) && a.Drives(r, j, w[1..], q, k);
        assert Within(a.dir, j, w[1..], b);
        GraphRuns(a, b, g, j, r, w[1..], k, q);
        EdgeTo(a, b, g.edges, m, p, w[0], j, r);
      }
    }
  }

  /** The graph accepts exactly the accepted words whose counter stays within the bound. */
  lemma GraphAccepts(v: Vca, b: nat, g: Graph, w: Word)
    requires v.Valid() && EdgesOf(v.base, b, g.edges) && g.init == {v.init} && g.final == v.final
    ensures g.Accepts(w) <==> v.Accepts(w) && Within(v.base.dir, 0, w, b)
  {
    var a := v.base;
    forall q | q in v.final
      ensures g.Runs(v.init, w, q) <==> a.Drives(v.init, 0, w, q, 0) && Within(a.dir, 0, w, b)
    {
      assert Pair(0, v.init, a.states) == v.init && Pair(0, q, a.states) == q;
      GraphRuns(a, b, g, 0, v.init, w, 0, q);
    }
  }
}
