/** From a nondeterministic automaton to a regular expression, by state elimination on a matrix of strings. */
module Nfa2Rex {
  import opened Automata
  import opened Regex
  import opened Postfix
  import opened Notation
  import opened LabelledGraphs

  // ---- the first graph ----

  /** The union of the letters 1..k that lead from i to j. */
  ghost function LetterSum(na: Nfa, i: nat, j: nat, k: nat): Rex {
    if k == 0 then Empty
    else
      var before := LetterSum(na, i, j, k - 1);
      if (k, i, j) !in na.delta then before
      else if before == Empty then Sym(k)
      else Union(before, Sym(k))
  }

  lemma {:induction false} LetterSumExact(na: Nfa, i: nat, j: nat, k: nat, w: Word)
    ensures Matches(LetterSum(na, i, j, k), w) <==> |w| == 1 && 1 <= w[0] <= k && (w[0], i, j) in na.delta
    ensures LetterSum(na, i, j, k) == Empty || WellFormed(LetterSum(na, i, j, k), k)
    ensures var e := LetterSum(na, i, j, k); Clean(e) && !e.Eps? && !e.Star? && !e.Plus?
  {
    if k > 0 {
      LetterSumExact(na, i, j, k - 1, w);
      WellFormedMore(LetterSum(na, i, j, k - 1), k - 1, k);
    }
  }

  lemma {:induction false} WellFormedMore(e: Rex, k: nat, k': nat)
    requires k <= k'
    ensures WellFormed(e, k) ==> WellFormed(e, k')
  {
    match e
    case Empty =>
    case Eps =>
    case Sym(_) =>
    case Union(a, b) =>
      WellFormedMore(a, k, k');
      WellFormedMore(b, k, k');
    case Concat(a, b) =>
      WellFormedMore(a, k, k');
      WellFormedMore(b, k, k');
    case Star(a) => WellFormedMore(a, k, k');
    case Plus(a) => WellFormedMore(a, k, k');
  }

  ghost predicate InitialAndFinal(na: Nfa)
    requires na.Valid()
  {
    exists q :: 0 <= q < na.states && na.init[q] && na.final[q]
  }

  /** Two more nodes: na.states is a new initial one, na.states + 1 a new final one, both joined by epsilon. */
  ghost function FirstLabel(na: Nfa, i: nat, j: nat): Rex
    requires na.Valid()
  {
    var n := na.states;
    if i < n && j < n then LetterSum(na, i, j, na.letters)
    else if i == n && j < n then if na.init[j] then Eps else Empty
    else if i < n && j == n + 1 then if na.final[i] then Eps else Empty
    else if i == n && j == n + 1 then if InitialAndFinal(na) then Eps else Empty
    else Empty
  }

  ghost function FirstGraph(na: Nfa): (m: Graph)
    requires na.Valid()
    ensures Square(m, na.states + 2)
    ensures forall i, j :: 0 <= i < na.states + 2 && 0 <= j < na.states + 2 ==> m[i][j] == FirstLabel(na, i, j)
  {
    seq(na.states + 2, i requires i >= 0 => seq(na.states + 2, j requires j >= 0 => FirstLabel(na, i, j)))
  }

  lemma {:induction false} FirstRun(na: Nfa, i: nat, run: seq<Hop>)
    requires na.Valid() && i < na.states && IsRun(FirstGraph(na), na.states + 2, 0, i, run, na.states + 1)
    ensures na.AcceptsFrom(i, Label(run))
    decreases |run|
  {
    var h, rest := run[0], run[1..];
    if h.to < na.states {
      LetterSumExact(na, i, h.to, na.letters, h.word);
      FirstRun(na, h.to, rest);
      assert Label(run)[1..] == Label(rest) && Label(run)[0] == h.word[0];
    } else {
      EmptyMatchesNothing(h.word);
      assert h.to == na.states + 1 && h.word == [] && na.final[i];
      FinalHasNoEdges(na, rest);
      assert Label(run) == [];
    }
  }

  lemma FinalHasNoEdges(na: Nfa, run: seq<Hop>)
    requires na.Valid() && IsRun(FirstGraph(na), na.states + 2, 0, na.states + 1, run, na.states + 1)
    ensures run == []
  {
  }

  lemma {:induction false} AcceptedRun(na: Nfa, i: nat, w: Word) returns (run: seq<Hop>)
    requires na.Valid() && i < na.states && na.AcceptsFrom(i, w)
    ensures IsRun(FirstGraph(na), na.states + 2, 0, i, run, na.states + 1) && Label(run) == w
    decreases |w|
  {
    if w == [] {
      run := [Hop(na.states + 1, [])];
      assert run[1..] == [];
    } else {
      var t :| (w[0], i, t) in na.delta && na.AcceptsFrom(t, w[1..]);
      LetterSumExact(na, i, t, na.letters, [w[0]]);
      var rest := AcceptedRun(na, t, w[1..]);
      FirstHop(na, i, t, [w[0]]);
      hide Matches, FirstGraph, FirstLabel, LetterSum;
      run := [Hop(t, [w[0]])] + rest;
      RunCons(FirstGraph(na), na.states + 2, 0, i, Hop(t, [w[0]]), rest, na.states + 1);
    }
  }

  lemma FirstHop(na: Nfa, i: nat, t: nat, w: Word)
    requires na.Valid() && i < na.states && t < na.states && Matches(LetterSum(na, i, t, na.letters), w)
    ensures Matches(FirstGraph(na)[i][t], w)
  {
  }

  lemma DenotedAccepted(na: Nfa, w: Word)
    requires na.Valid() && Denotes(FirstGraph(na), na.states + 2, 0, na.states, na.states + 1, w)
    ensures na.Accepts(w)
  {
    var m, n := FirstGraph(na), na.states + 2;
    var run: seq<Hop> :| IsRun(m, n, 0, na.states, run, na.states + 1) && Label(run) == w;
    var h, rest := run[0], run[1..];
    EmptyMatchesNothing(h.word);
    if h.to < na.states {
      FirstRun(na, h.to, rest);
      assert Label(run) == Label(rest);
    } else {
      FinalHasNoEdges(na, rest);
      var q :| 0 <= q < na.states && na.init[q] && na.final[q];
      assert w == [] && na.AcceptsFrom(q, w);
    }
  }

  /** The first graph denotes the language of the automaton. */
  lemma FirstGraphExact(na: Nfa, w: Word)
    requires na.Valid()
    ensures Denotes(FirstGraph(na), na.states + 2, 0, na.states, na.states + 1, w) <==> na.Accepts(w)
  {
    var m, n := FirstGraph(na), na.states + 2;
    if Denotes(m, n, 0, na.states, na.states + 1, w) {
      DenotedAccepted(na, w);
    }
    if na.Accepts(w) {
      var q :| 0 <= q < na.states && na.init[q] && na.AcceptsFrom(q, w);
      var rest := AcceptedRun(na, q, w);
      RunCons(m, n, 0, na.states, Hop(q, []), rest, na.states + 1);
      assert [] + Label(rest) == w;
    }
  }

  // ---- the elimination on strings ----

  /** An entry of the matrix: the postfix string of the label and its length, which is 0 for no edge. */
  datatype Edge = Edge(s: string, l: nat)

  /** The entry holds exactly the postfix string of the label e, with the right length. */
  ghost predicate Holds(entry: Edge, e: Rex, letters: nat) {
    if e == Empty then entry.l == 0
    else WellFormed(e, letters) && Clean(e) && entry.s == Text(e, letters > 26) && entry.l == |entry.s|
  }

  ghost function WithoutLoop(m: Graph, n: nat, q: nat): (m': Graph)
    requires Square(m, n) && q < n
    ensures LoopRemoved(m, n, q, m')
    ensures forall j :: 0 <= j < q ==> m'[q][j] == m[q][j]
  {
    seq(n, i requires 0 <= i < n => seq(n, j requires 0 <= j < n =>
      if i != q || j < q then m[i][j] else if j == q then Empty else AfterLoop(m[q][q], m[q][j])))
  }

  ghost function WithoutNode(m: Graph, n: nat, q: nat): (m': Graph)
    requires Square(m, n) && q < n
    ensures NodeDeleted(m, n, q, m')
    ensures forall i, j :: 0 <= i < n && 0 <= j < n && (i <= q || j <= q) ==> m'[i][j] == m[i][j]
  {
    seq(n, i requires 0 <= i < n => seq(n, j requires 0 <= j < n =>
      if i <= q || j <= q then m[i][j] else Bypass(m[i][q], m[q][j], m[i][j])))
  }

  /** What the elimination keeps about the labels: epsilon only leaves the new initial node or enters the new
      final one, nothing enters the former or leaves the latter, and loops are neither starred nor plussed. */
  ghost predicate Tidy(m: Graph, states: nat) {
    && Square(m, states + 2)
    && (forall i, j :: 0 <= i < states + 2 && 0 <= j < states + 2 && m[i][j] == Eps ==> i == states || j == states + 1)
    && (forall i :: 0 <= i < states + 2 ==> m[i][states] == Empty && m[states + 1][i] == Empty)
    && (forall i :: 0 <= i < states ==> !m[i][i].Star? && !m[i][i].Plus?)
  }

  lemma FirstTidy(na: Nfa)
    requires na.Valid()
    ensures Tidy(FirstGraph(na), na.states)
  {
    forall i, j | 0 <= i < na.states && 0 <= j < na.states
      ensures !FirstGraph(na)[i][j].Eps? && !FirstGraph(na)[i][j].Star? && !FirstGraph(na)[i][j].Plus?
    {
      LetterSumExact(na, i, j, na.letters, []);
    }
  }

  lemma LoopTidy(m: Graph, states: nat, q: nat)
    requires Tidy(m, states) && q <= states
    ensures Tidy(WithoutLoop(m, states + 2, q), states)
  {
    var g := WithoutLoop(m, states + 2, q);
    forall i, j | 0 <= i < states + 2 && 0 <= j < states + 2
      ensures g[i][j] == Eps ==> i == states || j == states + 1
      ensures j == states || i == states + 1 ==> g[i][j] == Empty
      ensures i == j < states ==> !g[i][i].Star? && !g[i][i].Plus?
    {
      assert m[i][j] == Eps ==> i == states || j == states + 1;
      assert m[i][states] == Empty && m[j][states] == Empty && m[states + 1][j] == Empty;
      assert i < states ==> !m[i][i].Star? && !m[i][i].Plus?;
    }
  }

  lemma NodeLabels(m: Graph, n: nat, d: nat)
    requires Square(m, n) && d < n
    ensures var g := WithoutNode(m, n, d);
      && Square(g, n)
      && forall p, q {:trigger g[p][q]} :: 0 <= p < n && 0 <= q < n ==>
        g[p][q] == if p <= d || q <= d then m[p][q] else Bypass(m[p][d], m[d][q], m[p][q])
  {
  }

  lemma BypassNone(e1: Rex, e2: Rex, e3: Rex)
    requires e1 == Empty || e2 == Empty
    ensures Bypass(e1, e2, e3) == e3
  {
  }

  lemma LoopShape(m: Graph, states: nat, q: nat)
    requires Tidy(m, states) && q <= states
    ensures Square(m, states + 2)
    ensures m[q][q] == Empty || (m[q][q] != Eps && !m[q][q].Star? && !m[q][q].Plus?)
  {
  }

  lemma NodeTidy(m: Graph, states: nat, q: nat)
    requires Tidy(m, states) && q < states
    ensures Tidy(WithoutNode(m, states + 2, q), states)
  {
  }

  // ---- how the texts are put together ----

  lemma LabelSizes(entry: Edge, e: Rex, letters: nat)
    requires Holds(entry, e, letters)
    ensures entry.l == 0 <==> e == Empty
    ensures e != Empty ==> (entry.s == "@" <==> e == Eps)
  {
    if e != Empty {
      TextNonempty(e, letters > 26);
      TextLeaf(0, letters > 26);
      hide Text;
      if entry.s == "@" {
        TextInjective(e, Eps, letters, letters > 26);
      }
    }
  }

  /** The entry of an edge that leaves a node with the loop r. */
  function LoopEntry(loop: string, edge: Edge): Edge {
    if edge.l == 0 then edge
    else if edge.s == "@" then Edge(loop + "*", |loop| + 1)
    else if loop == edge.s then Edge(loop + "+", edge.l + 1)
    else Edge(loop + "*" + edge.s + ".", edge.l + |loop| + 2)
  }

  lemma LoopEntryHolds(loop: Edge, r: Rex, edge: Edge, e: Rex, letters: nat)
    requires Holds(loop, r, letters) && r != Empty && r != Eps && !r.Star? && !r.Plus? && Holds(edge, e, letters)
    ensures Holds(LoopEntry(loop.s, edge), AfterLoop(r, e), letters)
  {
    var numbered := letters > 26;
    LabelSizes(edge, e, letters);
    if e != Empty {
      TextUnary(r, numbered);
      if e != Eps {
        if loop.s == edge.s {
          TextInjective(r, e, letters, numbered);
        } else {
          TextBinary(Star(r), e, numbered);
        }
      }
    }
  }

  lemma BypassHolds(edge1: Edge, e1: Rex, edge2: Edge, e2: Rex, edge3: Edge, e3: Rex, letters: nat)
    requires Holds(edge1, e1, letters) && Holds(edge2, e2, letters) && Holds(edge3, e3, letters)
    requires e1 != Empty && e2 != Empty
    ensures var l1, l2, l3 := edge1.l, edge2.l, edge3.l;
      var e := Bypass(e1, e2, e3);
      && (e1 != Eps && e2 != Eps && e3 != Empty ==>
            Holds(Edge(edge1.s + edge2.s + "." + edge3.s + "U", l1 + l2 + l3 + 2), e, letters))
      && (e1 != Eps && e2 != Eps && e3 == Eps ==> Holds(Edge(edge1.s + edge2.s + ".@U", l1 + l2 + 3), e, letters))
      && (e1 != Eps && e2 != Eps && e3 == Empty ==> Holds(Edge(edge1.s + edge2.s + ".", l1 + l2 + 1), e, letters))
      && (e1 != Eps && e2 == Eps && e3 != Empty ==> Holds(Edge(edge1.s + edge3.s + "U", l1 + l3 + 1), e, letters))
      && (e1 != Eps && e2 == Eps && e3 == Empty ==> Holds(Edge(edge1.s, l1), e, letters))
      && (e1 == Eps && e2 != Eps && e3 != Empty ==> Holds(Edge(edge2.s + edge3.s + "U", l2 + l3 + 1), e, letters))
      && (e1 == Eps && e2 != Eps && e3 == Empty ==> Holds(Edge(edge2.s, l2), e, letters))
      && (e1 == Eps && e2 == Eps && e3 != Empty && e3 != Eps ==> Holds(Edge(edge3.s + "@U", l3 + 2), e, letters))
      && (e1 == Eps && e2 == Eps && e3 == Eps ==> Holds(edge3, e, letters))
      && (e1 == Eps && e2 == Eps && e3 == Empty ==> Holds(Edge("@", 1), e, letters))
  {
    hide Chars, Tokens;
    var numbered := letters > 26;
    TextLeaf(0, numbered);
    if e1 != Eps && e2 != Eps {
      TextBinary(e1, e2, numbered);
      TextBinary(Concat(e1, e2), e3, numbered);
      assert WellFormed(Concat(e1, e2), letters) && Clean(Concat(e1, e2));
      assert edge1.s + edge2.s + "." + "@" + "U" == edge1.s + edge2.s + ".@U";
    } else if e1 != Eps {
      TextBinary(e1, e3, numbered);
    } else if e2 != Eps {
      TextBinary(e2, e3, numbered);
    } else {
      TextBinary(e3, Eps, numbered);
    }
  }

  lemma LetterEntry(na: Nfa, i: nat, j: nat, k: nat, ent: string)
    requires k >= 1 && k <= na.letters && (k, i, j) in na.delta
    requires Holds(Edge(ent, |ent|), LetterSum(na, i, j, k - 1), na.letters)
    requires LetterSum(na, i, j, k - 1) == Empty ==> ent == ""
    ensures var numbered := na.letters > 26;
      var str := LetterChars(k, numbered) + if ent == "" then "" else "U";
      Holds(Edge(ent + str, |ent| + |str|), LetterSum(na, i, j, k), na.letters)
  {
    var numbered := na.letters > 26;
    var before := LetterSum(na, i, j, k - 1);
    LabelSizes(Edge(ent, |ent|), before, na.letters);
    TextLeaf(k, numbered);
    TextBinary(before, Sym(k), numbered);
  }

  lemma LeafEntries(letters: nat)
    ensures Holds(Edge("@", 1), Eps, letters) && Holds(Edge("", 0), Empty, letters)
  {
    TextLeaf(0, letters > 26);
  }

  lemma FirstLabels(na: Nfa)
    requires na.Valid()
    ensures |na.init| == |na.final| == na.states && Square(FirstGraph(na), na.states + 2)
    ensures forall i, j :: 0 <= i < na.states && 0 <= j < na.states ==>
      FirstGraph(na)[i][j] == LetterSum(na, i, j, na.letters)
    ensures forall j :: 0 <= j <= na.states ==>
      FirstGraph(na)[na.states][j] == if j < na.states && na.init[j] then Eps else Empty
    ensures forall i, j :: 0 <= i <= na.states && j == na.states + 1 ==>
      FirstGraph(na)[i][j] ==
        if (i < na.states && na.final[i]) || (i == na.states && InitialAndFinal(na)) then Eps else Empty
  {
  }

  ghost predicate Nonempty(e: Rex) {
    exists w: Word :: Matches(e, w)
  }

  /** Without the empty set no expression has an empty language. */
  lemma {:induction false} WellFormedNonempty(e: Rex, k: nat)
    requires WellFormed(e, k)
    ensures Nonempty(e)
  {
    match e
    case Eps => assert Matches(e, []);
    case Sym(a) => assert Matches(e, [a]);
    case Union(a, b) =>
      WellFormedNonempty(a, k);
      var u :| Matches(a, u);
      assert Matches(e, u);
    case Concat(a, b) =>
      WellFormedNonempty(a, k);
      WellFormedNonempty(b, k);
      var u, v :| Matches(a, u) && Matches(b, v);
      ConcatIntro(a, b, u, v);
    case Star(a) => StarNil(a);
    case Plus(a) =>
      WellFormedNonempty(a, k);
      var u :| Matches(a, u);
      StarNil(a);
      PlusIntro(a, u, []);
  }

  /** From lo on, the graph still denotes the language of the automaton. */
  ghost predicate Tracks(m: Graph, lo: nat, na: Nfa)
    requires na.Valid() && Square(m, na.states + 2)
  {
    forall w :: Denotes(m, na.states + 2, lo, na.states, na.states + 1, w) <==> na.Accepts(w)
  }

  lemma FirstTracks(na: Nfa)
    requires na.Valid()
    ensures Tracks(FirstGraph(na), 0, na)
  {
    forall w: Word {
      FirstGraphExact(na, w);
    }
  }

  lemma LoopTracks(m: Graph, q: nat, na: Nfa)
    requires na.Valid() && Tidy(m, na.states) && q <= na.states && Tracks(m, q, na)
    ensures Tracks(WithoutLoop(m, na.states + 2, q), q, na)
  {
    forall w: Word {
      LoopRemovalExact(m, na.states + 2, q, WithoutLoop(m, na.states + 2, q), na.states, na.states + 1, w);
    }
  }

  lemma NodeTracks(m: Graph, q: nat, na: Nfa)
    requires na.Valid() && Tidy(m, na.states) && q < na.states && m[q][q] == Empty && Tracks(m, q, na)
    ensures Tracks(WithoutNode(m, na.states + 2, q), q + 1, na)
  {
    forall w: Word {
      NodeDeletionExact(m, na.states + 2, q, WithoutNode(m, na.states + 2, q), na.states, na.states + 1, w);
    }
  }

  /** When only the new nodes are left, the label between them denotes the language. */
  lemma LastLabel(m: Graph, na: Nfa, w: Word)
    requires na.Valid() && Tidy(m, na.states) && m[na.states][na.states] == Empty && Tracks(m, na.states, na)
    ensures Matches(m[na.states][na.states + 1], w) <==> na.Accepts(w)
  {
    var n := na.states + 2;
    if Denotes(m, n, na.states, na.states, na.states + 1, w) {
      var run: seq<Hop> :| IsRun(m, n, na.states, na.states, run, na.states + 1) && Label(run) == w;
      var h, rest := run[0], run[1..];
      EmptyMatchesNothing(h.word);
      assert IsRun(m, n, na.states, h.to, rest, na.states + 1);
      if rest != [] {
        EmptyMatchesNothing(rest[0].word);
      }
      assert Label(rest) == [] && h.word + [] == h.word;
    }
    if Matches(m[na.states][na.states + 1], w) {
      var none: seq<Hop> := [];
      var h := Hop(na.states + 1, w);
      RunCons(m, n, na.states, na.states, h, none, na.states + 1);
      assert Label(none) == [] && w + [] == w;
    }
  }

  class Eliminator {
    const states: nat
    const letters: nat
    const area: array2<Edge>
    var qst: nat
    ghost var m: Graph   // the labels as expressions

    ghost predicate Valid()
      reads this, area
    {
      && area.Length0 == area.Length1 == states + 2
      && Square(m, states + 2) && Tidy(m, states) && qst <= states
      && (forall i, j :: 0 <= i < states + 2 && 0 <= j < states + 2 ==> Holds(area[i, j], m[i][j], letters))
    }

    constructor (na: Nfa)
      ensures states == na.states && letters == na.letters && qst == 0 && fresh(area)
      ensures area.Length0 == area.Length1 == states + 2
      ensures forall i, j :: 0 <= i < states + 2 && 0 <= j < states + 2 ==> area[i, j] == Edge("", 0)
    {
      states, letters, qst := na.states, na.letters, 0;
      area := new Edge[na.states + 2, na.states + 2]((i, j) => Edge("", 0));
    }

    /** The letters that lead from i to j, joined by unions. */
    method EntryLabel(na: Nfa, i: nat, j: nat) returns (edge: Edge)
      requires na.Valid() && letters == na.letters
      ensures Holds(edge, LetterSum(na, i, j, letters), letters)
    {
      LeafEntries(letters);
      hide Holds;
      var first, ent, l := true, "", 0;
      for k := 1 to letters + 1
        invariant l == |ent| && first == (ent == "") == (LetterSum(na, i, j, k - 1) == Empty)
        invariant Holds(Edge(ent, l), LetterSum(na, i, j, k - 1), letters)
      {
        if (k, i, j) in na.delta {
          LetterEntry(na, i, j, k, ent);
          var str := LetterChars(k, letters > 26) + if first then "" else "U";
          first := false;
          l := l + |str|;
          ent := ent + str;
        }
      }
      edge := Edge(ent, l);
    }

    /** Fill the matrix from the automaton. */
    method Init(na: Nfa)
      requires na.Valid() && states == na.states && letters == na.letters && qst == 0
      requires area.Length0 == area.Length1 == states + 2
      requires forall i, j :: 0 <= i < states + 2 && 0 <= j < states + 2 ==> area[i, j] == Edge("", 0)
      modifies this`m, area
      ensures Valid() && m == FirstGraph(na)
    {
      FirstTidy(na);
      ghost var g := FirstGraph(na);
      InitLetters(na, g);
      var eps := InitInitial(na, g);
      InitFinal(na, eps, g);
      m := g;
    }

    method InitLetters(na: Nfa, ghost g: Graph)
      requires na.Valid() && states == na.states && letters == na.letters && g == FirstGraph(na)
      requires area.Length0 == area.Length1 == states + 2
      requires forall i, j :: 0 <= i < states + 2 && 0 <= j < states + 2 ==> area[i, j] == Edge("", 0)
      modifies area
      ensures forall i, j :: 0 <= i < states && 0 <= j < states ==> Holds(area[i, j], g[i][j], letters)
      ensures forall i, j :: 0 <= i < states + 2 && 0 <= j < states + 2 && (i >= states || j >= states) ==>
        area[i, j] == Edge("", 0)
    {
      hide Holds, FirstGraph, FirstLabel, LetterSum;
      FirstLabels(na);
      for j := 0 to states
        invariant forall p, q :: 0 <= p < states && 0 <= q < j ==> Holds(area[p, q], g[p][q], letters)
        invariant forall p, q :: 0 <= p < states + 2 && 0 <= q < states + 2 && (p >= states || q >= states) ==>
          area[p, q] == Edge("", 0)
      {
        for i := 0 to states
          invariant forall p, q :: 0 <= p < states && 0 <= q < j ==> Holds(area[p, q], g[p][q], letters)
          invariant forall p :: 0 <= p < i ==> Holds(area[p, j], g[p][j], letters)
          invariant forall p, q :: 0 <= p < states + 2 && 0 <= q < states + 2 && (p >= states || q >= states) ==>
            area[p, q] == Edge("", 0)
        {
          var edge := EntryLabel(na, i, j);
          area[i, j] := edge;
        }
      }
    }

    /** The edges labelled with the empty word that leave the new initial node. */
    method InitInitial(na: Nfa, ghost g: Graph) returns (eps: bool)
      requires na.Valid() && states == na.states && letters == na.letters && g == FirstGraph(na)
      requires area.Length0 == area.Length1 == states + 2
      requires forall q :: 0 <= q < states + 2 ==> area[states, q] == Edge("", 0)
      modifies area
      ensures eps == InitialAndFinal(na)
      ensures forall q :: 0 <= q <= states ==> Holds(area[states, q], g[states][q], letters)
      ensures forall p, q :: 0 <= p < states + 2 && 0 <= q < states + 2 && (p != states || q > states) ==>
        area[p, q] == old(area[p, q])
    {
      hide Holds, FirstGraph, FirstLabel;
      eps := false;
      FirstLabels(na);
      LeafEntries(letters);
      for i := 0 to states
        invariant forall q :: 0 <= q < i ==> Holds(area[states, q], g[states][q], letters)
        invariant forall q :: i <= q < states + 2 ==> area[states, q] == Edge("", 0)
        invariant forall p, q :: 0 <= p < states + 2 && 0 <= q < states + 2 && (p != states || q > states) ==>
          area[p, q] == old(area[p, q])
        invariant eps == exists q :: 0 <= q < i && na.init[q] && na.final[q]
      {
        if na.init[i] {
          area[states, i] := Edge("@", 1);
          if na.final[i] {
            eps := true;
          }
        }
      }
    }

    /** The edges labelled with the empty word that enter the new final node. */
    method InitFinal(na: Nfa, eps: bool, ghost g: Graph)
      requires na.Valid() && states == na.states && letters == na.letters && g == FirstGraph(na)
      requires area.Length0 == area.Length1 == states + 2 && eps == InitialAndFinal(na)
      requires forall p, q :: 0 <= p < states + 2 && q == states + 1 ==> area[p, q] == Edge("", 0)
      modifies area
      ensures forall p, q :: 0 <= p <= states && q == states + 1 ==> Holds(area[p, q], g[p][q], letters)
      ensures forall p, q :: 0 <= p < states + 2 && 0 <= q < states + 2 && (p > states || q <= states) ==>
        area[p, q] == old(area[p, q])
    {
      hide Holds, FirstGraph, FirstLabel;
      FirstLabels(na);
      LeafEntries(letters);
      ghost var fin := states + 1;
      if eps {
        area[states, states + 1] := Edge("@", 1);
      }
      for i := 0 to states
        invariant Holds(area[states, fin], g[states][fin], letters)
        invariant forall p :: 0 <= p < i ==> Holds(area[p, fin], g[p][fin], letters)
        invariant forall p :: i <= p < states ==> area[p, fin] == Edge("", 0)
        invariant forall p, q :: 0 <= p < states + 2 && 0 <= q < states + 2 && (p > states || q <= states) ==>
          area[p, q] == old(area[p, q])
      {
        if na.final[i] {
          area[i, states + 1] := Edge("@", 1);
        }
      }
    }

    /** Remove the loop of node qst. */
    method DestroyLoops()
      requires Valid()
      modifies this`m, area
      ensures Valid() && m == WithoutLoop(old(m), states + 2, qst)
    {
      hide Holds, Tidy, LoopEntry, WithoutLoop;
      LoopTidy(m, states, qst);
      LoopShape(m, states, qst);
      var i, loop := qst, area[qst, qst];
      ghost var r := m[i][i];
      LabelSizes(loop, r, letters);
      LeafEntries(letters);
      if loop.l != 0 {
        area[i, i] := loop.(l := 0);
        if loop.s != "@" {
          RelabelRow(loop.s);
        }
        area[i, i] := Edge("", 0);
        forall j | i < j < states + 2
          ensures Holds(area[i, j], AfterLoop(r, m[i][j]), letters)
        {
          LoopEntryHolds(loop, r, old(area[i, j]), m[i][j], letters);
        }
      }
      m := WithoutLoop(m, states + 2, i);
    }

    /** Put the loop in front of every edge that leaves node qst. */
    method RelabelRow(loop: string)
      requires area.Length0 == area.Length1 == states + 2 && qst <= states
      modifies area
      ensures forall i, j :: 0 <= i < states + 2 && 0 <= j < states + 2 ==>
        area[i, j] == if i == qst && j >= qst then LoopEntry(loop, old(area[i, j])) else old(area[i, j])
    {
      var i := qst;
      for j := qst to states + 2
        invariant forall k :: qst <= k < j ==> area[i, k] == LoopEntry(loop, old(area[i, k]))
        invariant forall p, q :: 0 <= p < states + 2 && 0 <= q < states + 2 && (p != i || q < qst || q >= j) ==>
          area[p, q] == old(area[p, q])
      {
        if area[i, j].l != 0 {
          if area[i, j].s != "@" {
            if loop == area[i, j].s {
              area[i, j] := Edge(loop + "+", area[i, j].l + 1);
            } else {
              area[i, j] := Edge(loop + "*" + area[i, j].s + ".", area[i, j].l + |loop| + 2);
            }
          } else {
            area[i, j] := Edge(loop + "*", |loop| + 1);
          }
        }
      }
    }

    /** Delete node qst, which has no loop. */
    method DeleteNode() returns (more: bool)
      requires Valid() && qst < states && m[qst][qst] == Empty
      modifies this, area
      ensures Valid() && qst == old(qst) + 1 && m == WithoutNode(old(m), states + 2, old(qst))
      ensures more <==> qst < states
    {
      hide Holds, Tidy, WithoutNode, NodeDeleted;
      NodeTidy(m, states, qst);
      LoopShape(m, states, qst);
      NodeLabels(m, states + 2, qst);
      ghost var g, g' := m, WithoutNode(m, states + 2, qst);
      var delnod := qst;
      qst := qst + 1;
      for i := qst to states + 2
        invariant qst == delnod + 1 && m == g
        invariant forall p, q :: 0 <= p < states + 2 && 0 <= q < states + 2 ==>
          Holds(area[p, q], if p < i then g'[p][q] else g[p][q], letters)
      {
        DeleteRow(i, delnod, g, g');
      }
      m := g';
      more := qst + 1 < states + 1;
    }

    /** Replace the ways from i over the node delnod. */
    method DeleteRow(i: nat, delnod: nat, ghost g: Graph, ghost g': Graph)
      requires area.Length0 == area.Length1 == states + 2 && Square(g, states + 2) && Square(g', states + 2)
      requires qst == delnod + 1 <= i < states + 2
      requires forall p, q {:trigger g'[p][q]} :: 0 <= p < states + 2 && 0 <= q < states + 2 ==>
        g'[p][q] == if p <= delnod || q <= delnod then g[p][q] else Bypass(g[p][delnod], g[delnod][q], g[p][q])
      requires forall p, q :: 0 <= p < states + 2 && 0 <= q < states + 2 ==>
        Holds(area[p, q], if p < i then g'[p][q] else g[p][q], letters)
      modifies area
      ensures forall p, q :: 0 <= p < states + 2 && 0 <= q < states + 2 ==>
        Holds(area[p, q], if p <= i then g'[p][q] else g[p][q], letters)
    {
      hide Holds, Bypass;
      LabelSizes(area[i, delnod], g[i][delnod], letters);
      ghost var row := g'[i];
      if area[i, delnod].l != 0 {
        for j := qst to states + 2
          invariant forall p, q :: 0 <= p < states + 2 && 0 <= q < states + 2 && p != i ==>
            area[p, q] == old(area[p, q])
          invariant forall q :: 0 <= q < states + 2 && (q < qst || j <= q) ==> area[i, q] == old(area[i, q])
          invariant forall q :: qst <= q < j ==> Holds(area[i, q], row[q], letters)
        {
          LabelSizes(area[delnod, j], g[delnod][j], letters);
          if area[delnod, j].l != 0 {
            var edge := Join(area[i, delnod], area[delnod, j], area[i, j], g[i][delnod], g[delnod][j], g[i][j]);
            area[i, j] := edge;
          } else {
            BypassNone(g[i][delnod], g[delnod][j], g[i][j]);
          }
        }
      } else {
        forall q | delnod < q < states + 2
          ensures Holds(area[i, q], row[q], letters)
        {
          BypassNone(g[i][delnod], g[delnod][q], g[i][q]);
        }
      }
    }

    /** The entry for a way over a deleted node and the edge beside it. */
    method Join(edge1: Edge, edge2: Edge, edge3: Edge, ghost e1: Rex, ghost e2: Rex, ghost e3: Rex) returns (edge: Edge)
      requires Holds(edge1, e1, letters) && Holds(edge2, e2, letters) && Holds(edge3, e3, letters)
      requires edge1.l != 0 && edge2.l != 0
      ensures Holds(edge, Bypass(e1, e2, e3), letters)
    {
      hide Bypass, Text, WellFormed, Clean;
      LabelSizes(edge1, e1, letters);
      LabelSizes(edge2, e2, letters);
      LabelSizes(edge3, e3, letters);
      BypassHolds(edge1, e1, edge2, e2, edge3, e3, letters);
      var l1, l2, l3 := edge1.l, edge2.l, edge3.l;
      var w1 := if edge1.s != "@" then 2 else 1;
      var w2 := if edge2.s != "@" then 2 else 1;
      var w3 := if l3 == 0 then 0 else if edge3.s != "@" then 2 else 1;
      match 9 * w1 + 3 * w2 + w3
      case 26 => edge := Edge(edge1.s + edge2.s + "." + edge3.s + "U", l1 + l2 + l3 + 2);
      case 25 => edge := Edge(edge1.s + edge2.s + ".@U", l1 + l2 + 3);
      case 24 => edge := Edge(edge1.s + edge2.s + ".", l1 + l2 + 1);
      case 23 => edge := Edge(edge1.s + edge3.s + "U", l1 + l3 + 1);
      case 22 => edge := Edge(edge1.s + edge3.s + "U", l1 + l3 + 1);
      case 21 => edge := Edge(edge1.s, l1);
      case 17 => edge := Edge(edge2.s + edge3.s + "U", l2 + l3 + 1);
      case 16 => edge := Edge(edge2.s + edge3.s + "U", l2 + l3 + 1);
      case 15 => edge := Edge(edge2.s, l2);
      case 14 => edge := Edge(edge3.s + "@U", l3 + 2);
      case 13 => edge := edge3;
      case _ => edge := Edge("@", 1);
    }
  }

  /** One round of the elimination; it needs the whole loop invariant and gives it back. */
  method Eliminate(el: Eliminator, ghost na: Nfa) returns (more: bool)
    requires na.Valid() && el.Valid() && el.states == na.states && el.qst < na.states && Tracks(el.m, el.qst, na)
    modifies el, el.area
    ensures el.Valid() && Tracks(el.m, el.qst, na) && el.qst == old(el.qst) + 1 && more == (el.qst < na.states)
  {
    hide Tidy, Holds, Tracks, WithoutLoop, WithoutNode;
    LoopTracks(el.m, el.qst, na);
    LoopShape(el.m, na.states, el.qst);
    el.DestroyLoops();
    LoopShape(el.m, na.states, el.qst);
    NodeTracks(el.m, el.qst, na);
    more := el.DeleteNode();
  }

  method EliminateAll(na: Nfa) returns (el: Eliminator)
    requires na.Valid()
    ensures el.Valid() && el.states == na.states == el.qst && el.letters == na.letters
    ensures el.m[na.states][na.states] == Empty && Tracks(el.m, na.states, na)
  {
    hide Tidy, Holds, Tracks, WithoutLoop, WithoutNode;
    el := new Eliminator(na);
    el.Init(na);
    FirstTracks(na);
    var more := Eliminate(el, na);
    while more
      invariant fresh(el) && fresh(el.area) && el.Valid() && el.states == na.states && el.letters == na.letters
      invariant el.qst <= na.states && Tracks(el.m, el.qst, na) && more == (el.qst < na.states)
      decreases na.states - el.qst
    {
      more := Eliminate(el, na);
    }
    LoopTracks(el.m, el.qst, na);
    LoopShape(el.m, na.states, el.qst);
    el.DestroyLoops();
    LoopShape(el.m, na.states, el.qst);
  }

  /** The postfix expression of an automaton: the text of an expression e for its language, of the recorded
      length, or `%` if the language is empty. */
  method Nfa2Rex(na: Nfa) returns (exprex: string, erexl: nat, ghost e: Rex)
    requires na.Valid()
    ensures forall w :: Matches(e, w) <==> na.Accepts(w)
    ensures exprex == Text(e, na.letters > 26) && erexl == |exprex|
    ensures IsSpelled(exprex, Tokens(e), na.letters > 26)
    ensures Clean(e) && (WellFormed(e, na.letters) || e == Empty)
    ensures exprex == "%" <==> forall w :: !na.Accepts(w)
  {
    var el := EliminateAll(na);
    LoopShape(el.m, na.states, el.qst);
    e := el.m[el.qst][el.states + 1];
    var edge := el.area[el.qst, el.states + 1];
    forall w: Word ensures Matches(e, w) <==> na.Accepts(w) {
      LastLabel(el.m, na, w);
    }
    if edge.l != 0 {
      erexl, exprex := edge.l, edge.s;
    } else {
      erexl, exprex := 1, "%";
    }
    EmptyText(edge, e, na.letters);
    TextSpelled(e, na.letters);
  }

  lemma EmptyText(edge: Edge, e: Rex, letters: nat)
    requires Holds(edge, e, letters)
    ensures if edge.l == 0 then e == Empty && Text(e, letters > 26) == "%" else Nonempty(e) && edge.s != "%"
  {
    TextLeaf(0, letters > 26);
    LabelSizes(edge, e, letters);
    if e != Empty {
      WellFormedNonempty(e, letters);
      EmptySetText(e, letters, letters > 26);
    }
  }
}
