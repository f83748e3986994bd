/** Graphs whose edges are labelled with regular expressions, and the two steps of state elimination on them. */
module LabelledGraphs {
  import opened Automata
  import opened Regex

  /** m[i][j] is the label of the edge from i to j; Empty stands for no edge. */
  type Graph = seq<seq<Rex>>

  ghost predicate Square(m: Graph, n: nat) {
    |m| == n && forall i :: 0 <= i < n ==> |m[i]| == n
  }

  /** One edge of a run: the node it leads to and the word read on it. */
  datatype Hop = Hop(to: nat, word: Word)

  /** A run from i to j through nodes that are not below lo. */
  ghost predicate IsRun(m: Graph, n: nat, lo: nat, i: nat, run: seq<Hop>, j: nat)
    requires Square(m, n) && i < n
    decreases |run|
  {
    if run == [] then i == j
    else lo <= run[0].to < n && Matches(m[i][run[0].to], run[0].word) && IsRun(m, n, lo, run[0].to, run[1..], j)
  }

  ghost function Label(run: seq<Hop>): Word {
    if run == [] then [] else run[0].word + Label(run[1..])
  }

  /** The language of the graph from i to j over the nodes from lo on. */
  ghost predicate Denotes(m: Graph, n: nat, lo: nat, i: nat, j: nat, w: Word)
    requires Square(m, n) && i < n
  {
    exists run :: IsRun(m, n, lo, i, run, j) && Label(run) == w
  }

  lemma {:induction false} RunConcat(m: Graph, n: nat, lo: nat, i: nat, u: seq<Hop>, k: nat, v: seq<Hop>, j: nat)
    requires Square(m, n) && i < n && k < n && IsRun(m, n, lo, i, u, k) && IsRun(m, n, lo, k, v, j)
    ensures IsRun(m, n, lo, i, u + v, j) && Label(u + v) == Label(u) + Label(v)
    decreases |u|
  {
    if u == [] {
      assert u + v == v && Label(u) + Label(v) == Label(v);
    } else {
      assert (u + v)[0] == u[0] && (u + v)[1..] == u[1..] + v;
      RunConcat(m, n, lo, u[0].to, u[1..], k, v, j);
      assert u[0].word + (Label(u[1..]) + Label(v)) == (u[0].word + Label(u[1..])) + Label(v);
    }
  }

  lemma RunCons(m: Graph, n: nat, lo: nat, i: nat, h: Hop, run: seq<Hop>, j: nat)
    requires Square(m, n) && i < n && lo <= h.to < n && Matches(m[i][h.to], h.word) && IsRun(m, n, lo, h.to, run, j)
    ensures IsRun(m, n, lo, i, [h] + run, j) && Label([h] + run) == h.word + Label(run)
  {
    assert ([h] + run)[1..] == run;
  }

  // ---- removing the loop of node q ----

  /** The label r of a loop combined with the label e of an edge that leaves its node. */
  function AfterLoop(r: Rex, e: Rex): Rex {
    if r == Empty || e == Empty || r == Eps then e
    else if e == Eps then Star(r)
    else if e == r then Plus(r)
    else Concat(Star(r), e)
  }

  lemma AfterLoopExact(r: Rex, e: Rex, w: Word)
    ensures Matches(AfterLoop(r, e), w) <==> Matches(Concat(Star(r), e), w)
  {
    if r == Empty || r == Eps {
      TrivialStar(r, e, w);
    } else if e == Empty {
      assert !Matches(Concat(Star(r), e), w);
    } else if e == Eps {
      EpsConcat(Star(r), e, w);
    } else if e == r {
      StarThenOne(r, w);
    }
  }

  /** The star of the empty set or of the empty word adds nothing in front. */
  lemma TrivialStar(r: Rex, e: Rex, w: Word)
    requires r == Empty || r == Eps
    ensures Matches(Concat(Star(r), e), w) <==> Matches(e, w)
  {
    if Matches(Concat(Star(r), e), w) {
      var u, v := ConcatElim(Star(r), e, w);
      assert u == [] && [] + v == v;
    }
    if Matches(e, w) {
      ConcatIntro(Star(r), e, [], w);
      assert [] + w == w;
    }
  }

  lemma EpsConcat(e1: Rex, e2: Rex, w: Word)
    ensures e1 == Eps ==> (Matches(Concat(e1, e2), w) <==> Matches(e2, w))
    ensures e2 == Eps ==> (Matches(Concat(e1, e2), w) <==> Matches(e1, w))
  {
    assert [] + w == w && w + [] == w;
    if Matches(Concat(e1, e2), w) {
      var u, v := ConcatElim(e1, e2, w);
      assert e1 == Eps ==> v == w;
      assert e2 == Eps ==> u == w;
    }
    if e1 == Eps && Matches(e2, w) {
      ConcatIntro(e1, e2, [], w);
    }
    if e2 == Eps && Matches(e1, w) {
      ConcatIntro(e1, e2, w, []);
    }
  }

  /** rr* and r*r are the same language. */
  lemma StarThenOne(r: Rex, w: Word)
    ensures Matches(Plus(r), w) <==> Matches(Concat(Star(r), r), w)
  {
    if Matches(Plus(r), w) {
      var u, v := PlusElim(r, w);
      OneThenStar(r, u, v);
    }
    if Matches(Concat(Star(r), r), w) {
      var u, v := ConcatElim(Star(r), r, w);
      StarThenOneIsPlus(r, u, v);
    }
  }

  lemma {:induction false} OneThenStar(r: Rex, u: Word, v: Word)
    requires Matches(r, u) && Matches(Star(r), v)
    ensures Matches(Concat(Star(r), r), u + v)
    decreases |v|
  {
    hide Matches;
    if v == [] {
      StarNil(r);
      ConcatIntro(Star(r), r, [], u);
      assert [] + u == u + v;
    } else {
      var x, y := StarElim(r, v);
      OneThenStar(r, x, y);
      var s, t := ConcatElim(Star(r), r, v);
      StarCons(r, u, s);
      ConcatIntro(Star(r), r, u + s, t);
      assert (u + s) + t == u + v;
    }
  }

  lemma {:induction false} StarThenOneIsPlus(r: Rex, u: Word, v: Word)
    requires Matches(Star(r), u) && Matches(r, v)
    ensures Matches(Plus(r), u + v)
    decreases |u|
  {
    hide Matches;
    if u == [] {
      StarNil(r);
      PlusIntro(r, v, []);
      assert v + [] == u + v;
    } else {
      var x, y := StarElim(r, u);
      StarThenOneIsPlus(r, y, v);
      StarIsPlusOrEmpty(r, y + v);
      PlusIntro(r, x, y + v);
      assert x + (y + v) == u + v;
    }
  }

  /** The graph without the loop of q. */
  ghost predicate LoopRemoved(m: Graph, n: nat, q: nat, m': Graph)
    requires Square(m, n) && q < n
  {
    && Square(m', n)
    && (forall i, j :: 0 <= i < n && 0 <= j < n && i != q ==> m'[i][j] == m[i][j])
    && m'[q][q] == Empty
    && (forall j :: q < j < n ==> m'[q][j] == AfterLoop(m[q][q], m[q][j]))
  }

  /** A run from q that starts after some rounds of its loop, without the loop. */
  lemma {:induction false} LoopForward(m: Graph, n: nat, q: nat, m': Graph, i: nat, u: Word, run: seq<Hop>, j: nat)
    returns (run': seq<Hop>)
    requires Square(m, n) && q <= i < n && q < j && LoopRemoved(m, n, q, m') && IsRun(m, n, q, i, run, j)
    requires if i == q then Matches(Star(m[q][q]), u) else u == []
    ensures IsRun(m', n, q, i, run', j) && Label(run') == u + Label(run)
    decreases |run|
  {
    hide Matches;
    if run == [] {
      run' := [];
      assert u + Label(run) == [];
    } else {
      var h, rest := run[0], run[1..];
      EmptyMatchesNothing(h.word);
      assert u + Label(run) == (u + h.word) + Label(rest);
      if i == q && h.to == q {
        StarOne(m[q][q], h.word);
        StarConcat(m[q][q], u, h.word);
        run' := LoopForward(m, n, q, m', q, u + h.word, rest, j);
      } else {
        StarNil(m[q][q]);
        var tail := LoopForward(m, n, q, m', h.to, [], rest, j);
        if i == q {
          ConcatIntro(Star(m[q][q]), m[q][h.to], u, h.word);
          AfterLoopExact(m[q][q], m[q][h.to], u + h.word);
        } else {
          assert u + h.word == h.word;
        }
        run' := [Hop(h.to, u + h.word)] + tail;
        RunCons(m', n, q, i, Hop(h.to, u + h.word), tail, j);
        assert [] + Label(rest) == Label(rest);
      }
    }
  }

  /** Rounds of the loop of q as a run. */
  lemma {:induction false} UnrollLoop(m: Graph, n: nat, q: nat, u: Word) returns (run: seq<Hop>)
    requires Square(m, n) && q < n && Matches(Star(m[q][q]), u)
    ensures IsRun(m, n, q, q, run, q) && Label(run) == u
    decreases |u|
  {
    hide Matches;
    if u == [] {
      run := [];
    } else {
      var x, y := StarElim(m[q][q], u);
      var rest := UnrollLoop(m, n, q, y);
      run := [Hop(q, x)] + rest;
      RunCons(m, n, q, q, Hop(q, x), rest, q);
    }
  }

  /** The first edge of a run from q without the loop, unrolled. */
  lemma LoopRestored(m: Graph, n: nat, q: nat, m': Graph, h: Hop, tail: seq<Hop>, j: nat) returns (run: seq<Hop>)
    requires Square(m, n) && q < n && LoopRemoved(m, n, q, m') && q < h.to < n && Matches(m'[q][h.to], h.word)
    requires IsRun(m, n, q, h.to, tail, j)
    ensures IsRun(m, n, q, q, run, j) && Label(run) == h.word + Label(tail)
  {
    hide Matches;
    AfterLoopExact(m[q][q], m[q][h.to], h.word);
    var u, v := ConcatElim(Star(m[q][q]), m[q][h.to], h.word);
    var rounds := UnrollLoop(m, n, q, u);
    RunCons(m, n, q, q, Hop(h.to, v), tail, j);
    RunConcat(m, n, q, q, rounds, q, [Hop(h.to, v)] + tail, j);
    run := rounds + ([Hop(h.to, v)] + tail);
    assert u + (v + Label(tail)) == h.word + Label(tail);
  }

  lemma {:induction false} LoopBackward(m: Graph, n: nat, q: nat, m': Graph, i: nat, run: seq<Hop>, j: nat)
    returns (run': seq<Hop>)
    requires Square(m, n) && q <= i < n && LoopRemoved(m, n, q, m') && IsRun(m', n, q, i, run, j)
    ensures IsRun(m, n, q, i, run', j) && Label(run') == Label(run)
    decreases |run|
  {
    hide Matches;
    if run == [] {
      run' := [];
    } else {
      var h, rest := run[0], run[1..];
      EmptyMatchesNothing(h.word);
      var tail := LoopBackward(m, n, q, m', h.to, rest, j);
      if i == q {
        run' := LoopRestored(m, n, q, m', h, tail, j);
      } else {
        run' := [h] + tail;
        RunCons(m, n, q, i, h, tail, j);
      }
    }
  }

  /** Removing the loop of q keeps the language from q or a later node to a later node. */
  lemma LoopRemovalExact(m: Graph, n: nat, q: nat, m': Graph, i: nat, j: nat, w: Word)
    requires Square(m, n) && q <= i < n && q < j < n && LoopRemoved(m, n, q, m')
    ensures Denotes(m, n, q, i, j, w) <==> Denotes(m', n, q, i, j, w)
  {
    if Denotes(m, n, q, i, j, w) {
      var run :| IsRun(m, n, q, i, run, j) && Label(run) == w;
      StarNil(m[q][q]);
      var run' := LoopForward(m, n, q, m', i, [], run, j);
      assert [] + Label(run) == w;
    }
    if Denotes(m', n, q, i, j, w) {
      var run :| IsRun(m', n, q, i, run, j) && Label(run) == w;
      var run' := LoopBackward(m, n, q, m', i, run, j);
    }
  }

  // ---- deleting node q, which has no loop ----

  /** The label of an edge e3 together with the way over a deleted node, labelled e1 and e2. */
  function Bypass(e1: Rex, e2: Rex, e3: Rex): Rex {
    if e1 == Empty || e2 == Empty then e3
    else if e1 != Eps && e2 != Eps then
      if e3 == Empty then Concat(e1, e2) else Union(Concat(e1, e2), e3)
    else if e1 != Eps then
      if e3 == Empty then e1 else Union(e1, e3)
    else if e2 != Eps then
      if e3 == Empty then e2 else Union(e2, e3)
    else
      if e3 == Empty then Eps else if e3 == Eps then Eps else Union(e3, Eps)
  }

  lemma BypassExact(e1: Rex, e2: Rex, e3: Rex, w: Word)
    ensures Matches(Bypass(e1, e2, e3), w) <==> Matches(e3, w) || Matches(Concat(e1, e2), w)
  {
    EpsConcat(e1, e2, w);
  }

  ghost predicate NodeDeleted(m: Graph, n: nat, q: nat, m': Graph)
    requires Square(m, n) && q < n
  {
    && Square(m', n)
    && (forall i, j :: q < i < n && q < j < n ==> m'[i][j] == Bypass(m[i][q], m[q][j], m[i][j]))
  }

  lemma {:induction false} DeleteForward(m: Graph, n: nat, q: nat, m': Graph, i: nat, run: seq<Hop>, j: nat)
    returns (run': seq<Hop>)
    requires Square(m, n) && q < i < n && q < j && m[q][q] == Empty && NodeDeleted(m, n, q, m')
    requires IsRun(m, n, q, i, run, j)
    ensures IsRun(m', n, q + 1, i, run', j) && Label(run') == Label(run)
    decreases |run|
  {
    hide Matches;
    if run == [] {
      run' := [];
    } else {
      var h, rest := run[0], run[1..];
      EmptyMatchesNothing(h.word);
      if h.to == q {
        var g, tail := rest[0], rest[1..];
        EmptyMatchesNothing(g.word);
        var tail' := DeleteForward(m, n, q, m', g.to, tail, j);
        ConcatIntro(m[i][q], m[q][g.to], h.word, g.word);
        BypassExact(m[i][q], m[q][g.to], m[i][g.to], h.word + g.word);
        run' := [Hop(g.to, h.word + g.word)] + tail';
        RunCons(m', n, q + 1, i, Hop(g.to, h.word + g.word), tail', j);
        assert (h.word + g.word) + Label(tail) == h.word + (g.word + Label(tail));
      } else {
        var tail' := DeleteForward(m, n, q, m', h.to, rest, j);
        BypassExact(m[i][q], m[q][h.to], m[i][h.to], h.word);
        run' := [h] + tail';
        RunCons(m', n, q + 1, i, h, tail', j);
      }
    }
  }

  lemma {:induction false} DeleteBackward(m: Graph, n: nat, q: nat, m': Graph, i: nat, run: seq<Hop>, j: nat)
    returns (run': seq<Hop>)
    requires Square(m, n) && q < i < n && NodeDeleted(m, n, q, m') && IsRun(m', n, q + 1, i, run, j)
    ensures IsRun(m, n, q, i, run', j) && Label(run') == Label(run)
    decreases |run|
  {
    hide Matches;
    if run == [] {
      run' := [];
    } else {
      var h, rest := run[0], run[1..];
      var tail := DeleteBackward(m, n, q, m', h.to, rest, j);
      BypassExact(m[i][q], m[q][h.to], m[i][h.to], h.word);
      if Matches(m[i][h.to], h.word) {
        run' := [h] + tail;
        RunCons(m, n, q, i, h, tail, j);
      } else {
        var u, v := ConcatElim(m[i][q], m[q][h.to], h.word);
        var first, second := Hop(q, u), Hop(h.to, v);
        RunCons(m, n, q, q, second, tail, j);
        RunCons(m, n, q, i, first, [second] + tail, j);
        run' := [first] + ([second] + tail);
        assert u + (v + Label(tail)) == h.word + Label(tail);
      }
    }
  }

  /** Deleting node q keeps the language between any two later nodes. */
  lemma NodeDeletionExact(m: Graph, n: nat, q: nat, m': Graph, i: nat, j: nat, w: Word)
    requires Square(m, n) && q < i < n && q < j < n && m[q][q] == Empty && NodeDeleted(m, n, q, m')
    ensures Denotes(m, n, q, i, j, w) <==> Denotes(m', n, q + 1, i, j, w)
  {
    if Denotes(m, n, q, i, j, w) {
      var run :| IsRun(m, n, q, i, run, j) && Label(run) == w;
      var run' := DeleteForward(m, n, q, m', i, run, j);
    }
    if Denotes(m', n, q + 1, i, j, w) {
      var run :| IsRun(m', n, q + 1, i, run, j) && Label(run) == w;
      var run' := DeleteBackward(m, n, q, m', i, run, j);
    }
  }
}
