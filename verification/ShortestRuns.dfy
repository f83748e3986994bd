/** The shortest word from a set of states to another: breadth-first search that puts epsilon moves in front. */
module ShortestRuns {
  import opened Automata
  import opened EpsilonClosure

  /** One move from r to q makes w of v; the label l of a word is the letter l + 1 of the table. */
  ghost predicate Step(e: Enfa, v: Word, r: nat, w: Word, q: nat) {
    || (w == v && (0, r, q) in e.delta)
    || (|w| == |v| + 1 && w[..|v|] == v && (w[|v|] + 1, r, q) in e.delta)
  }

  ghost predicate Leads(e: Enfa, p: nat, w: Word, q: nat, k: nat)
    decreases k
  {
    if k == 0 then w == [] && p == q
    else exists r: nat, v: Word :: Leads(e, p, v, r, k - 1) && Step(e, v, r, w, q)
  }

  /** Some way of k moves spells w from one of the states to q. */
  ghost predicate Reaches(e: Enfa, from: set<nat>, w: Word, q: nat) {
    exists p: nat, k: nat :: p in from && Leads(e, p, w, q, k)
  }

  datatype Run = Run(state: nat, prefix: Word)

  lemma ReachesEps(e: Enfa, from: set<nat>, w: Word, r: nat, q: nat)
    requires Reaches(e, from, w, r) && (0, r, q) in e.delta
    ensures Reaches(e, from, w, q)
  {
    var p: nat, k: nat :| p in from && Leads(e, p, w, r, k);
    assert Step(e, w, r, w, q);
    assert Leads(e, p, w, q, k + 1);
  }

  lemma ReachesLetter(e: Enfa, from: set<nat>, w: Word, r: nat, l: nat, q: nat)
    requires Reaches(e, from, w, r) && (l + 1, r, q) in e.delta
    ensures Reaches(e, from, w + [l], q)
  {
    var p: nat, k: nat :| p in from && Leads(e, p, w, r, k);
    assert Step(e, w, r, w + [l], q);
    assert Leads(e, p, w + [l], q, k + 1);
  }

  // ---- the queue ----

  /** The prefixes get longer by at most one from the front to the back. */
  ghost predicate Sorted(fifo: seq<Run>, n: nat) {
    && (forall i, j :: 0 <= i < j < |fifo| ==> |fifo[i].prefix| <= |fifo[j].prefix|)
    && (forall i :: 0 <= i < |fifo| ==> n <= |fifo[i].prefix| <= n + 1)
  }

  /** State q is visited with a word of at most n letters, or such a run to q is waiting. */
  ghost predicate Near(best: map<nat, nat>, fifo: seq<Run>, q: nat, n: nat) {
    (q in best && best[q] <= n) || (exists i :: 0 <= i < |fifo| && fifo[i].state == q && |fifo[i].prefix| <= n)
  }

  ghost predicate Sound(e: Enfa, from: set<nat>, fifo: seq<Run>) {
    forall i :: 0 <= i < |fifo| ==> fifo[i].state < e.states && Reaches(e, from, fifo[i].prefix, fifo[i].state)
  }

  /** best holds the visited states with the lengths of their words; nothing around them is forgotten, but for the
      state x whose moves are being followed. */
  ghost predicate Searching(e: Enfa, from: set<nat>, best: map<nat, nat>, fifo: seq<Run>, n: nat) {
    && Sound(e, from, fifo) && Sorted(fifo, n)
    && (forall q :: q in best ==> q < e.states && best[q] <= n)
    && (forall q :: q in from ==> Near(best, fifo, q, 0))
  }

  /** The epsilon moves of v. */
  ghost predicate EpsFollowed(e: Enfa, best: map<nat, nat>, fifo: seq<Run>, v: nat, k: nat)
    requires v in best
  {
    forall q: nat :: q < k && (0, v, q) in e.delta ==> Near(best, fifo, q, best[v])
  }

  ghost predicate LettersFollowed(e: Enfa, best: map<nat, nat>, fifo: seq<Run>, v: nat, k: nat)
    requires v in best
  {
    forall a: nat, q: nat :: q < k && 1 <= a && (a, v, q) in e.delta ==> Near(best, fifo, q, best[v] + 1)
  }

  ghost predicate Followed(e: Enfa, best: map<nat, nat>, fifo: seq<Run>, v: nat)
    requires v in best
  {
    EpsFollowed(e, best, fifo, v, e.states) && LettersFollowed(e, best, fifo, v, e.states)
  }

  ghost predicate AllFollowed(e: Enfa, best: map<nat, nat>, fifo: seq<Run>, but: set<nat>) {
    forall v :: v in best && v !in but ==> Followed(e, best, fifo, v)
  }

  /** Every way ends at a visited state with a word that is not longer, or a waiting run is not longer than it. */
  lemma {:induction false} WayCovered(e: Enfa, from: set<nat>, best: map<nat, nat>, fifo: seq<Run>, n: nat,
                                      p: nat, w: Word, q: nat, k: nat)
    requires e.Valid() && Searching(e, from, best, fifo, n) && AllFollowed(e, best, fifo, {})
    requires p in from && Leads(e, p, w, q, k)
    ensures Visited(best, q, |w|) || Waiting(fifo, |w|)
    decreases k
  {
    if k == 0 {
      assert Near(best, fifo, q, 0);
    } else {
      var r: nat, v: Word :| Leads(e, p, v, r, k - 1) && Step(e, v, r, w, q);
      WayCovered(e, from, best, fifo, n, p, v, r, k - 1);
      if Visited(best, r, |v|) {
        assert Followed(e, best, fifo, r);
        StepCovered(e, best, fifo, v, r, w, q);
      }
    }
  }

  ghost predicate Visited(best: map<nat, nat>, q: nat, n: nat) {
    q in best && best[q] <= n
  }

  ghost predicate Waiting(fifo: seq<Run>, n: nat) {
    exists i :: 0 <= i < |fifo| && |fifo[i].prefix| <= n
  }

  lemma StepCovered(e: Enfa, best: map<nat, nat>, fifo: seq<Run>, v: Word, r: nat, w: Word, q: nat)
    requires e.Valid() && r in best && best[r] <= |v| && Followed(e, best, fifo, r) && Step(e, v, r, w, q)
    ensures Visited(best, q, |w|) || Waiting(fifo, |w|)
  {
    if w == v && (0, r, q) in e.delta {
      assert Near(best, fifo, q, best[r]);
    } else {
      assert Near(best, fifo, q, best[r] + 1);
    }
  }

  // ---- steps of the search ----

  lemma NearMore(best: map<nat, nat>, fifo: seq<Run>, more: seq<Run>, q: nat, n: nat, m: nat)
    requires Near(best, fifo, q, n) && n <= m && forall x :: x in fifo ==> x in more
    ensures Near(best, more, q, m)
  {
    if i :| 0 <= i < |fifo| && fifo[i].state == q && |fifo[i].prefix| <= n {
      assert fifo[i] in more;
    }
  }

  lemma NearNew(best: map<nat, nat>, fifo: seq<Run>, x: Run)
    requires x in fifo
    ensures Near(best, fifo, x.state, |x.prefix|)
  {
  }

  lemma FollowedMore(e: Enfa, best: map<nat, nat>, fifo: seq<Run>, more: seq<Run>, v: nat, k: nat)
    requires v in best && forall x :: x in fifo ==> x in more
    ensures EpsFollowed(e, best, fifo, v, k) ==> EpsFollowed(e, best, more, v, k)
    ensures LettersFollowed(e, best, fifo, v, k) ==> LettersFollowed(e, best, more, v, k)
  {
    if EpsFollowed(e, best, fifo, v, k) {
      forall q: nat | q < k && (0, v, q) in e.delta
        ensures Near(best, more, q, best[v])
      {
        NearMore(best, fifo, more, q, best[v], best[v]);
      }
    }
    if LettersFollowed(e, best, fifo, v, k) {
      forall a: nat, q: nat | q < k && 1 <= a && (a, v, q) in e.delta
        ensures Near(best, more, q, best[v] + 1)
      {
        NearMore(best, fifo, more, q, best[v] + 1, best[v] + 1);
      }
    }
  }

  lemma AllFollowedMore(e: Enfa, best: map<nat, nat>, fifo: seq<Run>, more: seq<Run>, but: set<nat>)
    requires AllFollowed(e, best, fifo, but) && forall x :: x in fifo ==> x in more
    ensures AllFollowed(e, best, more, but)
  {
    forall v | v in best && v !in but
      ensures Followed(e, best, more, v)
    {
      assert Followed(e, best, fifo, v);
      FollowedMore(e, best, fifo, more, v, e.states);
    }
  }

  /** One more waiting run, in front or behind, keeps the search in order. */
  lemma Pushed(e: Enfa, from: set<nat>, best: map<nat, nat>, fifo: seq<Run>, n: nat, x: Run, more: seq<Run>,
               but: set<nat>)
    requires Searching(e, from, best, fifo, n) && AllFollowed(e, best, fifo, but)
    requires x.state < e.states && Reaches(e, from, x.prefix, x.state)
    requires (more == [x] + fifo && |x.prefix| == n) || (more == fifo + [x] && |x.prefix| == n + 1)
    ensures Searching(e, from, best, more, n) && AllFollowed(e, best, more, but) && x in more
    ensures forall y :: y in fifo ==> y in more
  {
    hide Reaches, Near, Followed;
    AllFollowedMore(e, best, fifo, more, but);
    forall q | q in from
      ensures Near(best, more, q, 0)
    {
      NearMore(best, fifo, more, q, 0, 0);
    }
  }

  /** What the first run of the queue gave is given by its visited state. */
  lemma NearPopped(best: map<nat, nat>, fifo: seq<Run>, best': map<nat, nat>, q: nat, m: nat)
    requires fifo != [] && Near(best, fifo, q, m) && fifo[0].state in best' && best'[fifo[0].state] <= |fifo[0].prefix|
    requires forall v :: v in best ==> v in best' && best'[v] == best[v]
    ensures Near(best', fifo[1..], q, m)
  {
    if i :| 0 <= i < |fifo| && fifo[i].state == q && |fifo[i].prefix| <= m {
      assert i > 0 ==> fifo[1..][i - 1] == fifo[i];
    }
  }

  lemma FollowedPopped(e: Enfa, best: map<nat, nat>, fifo: seq<Run>, best': map<nat, nat>, v: nat)
    requires v in best && Followed(e, best, fifo, v)
    requires fifo != [] && fifo[0].state in best' && best'[fifo[0].state] <= |fifo[0].prefix|
    requires forall v :: v in best ==> v in best' && best'[v] == best[v]
    ensures Followed(e, best', fifo[1..], v)
  {
    forall q: nat | q < e.states && (0, v, q) in e.delta
      ensures Near(best', fifo[1..], q, best'[v])
    {
      NearPopped(best, fifo, best', q, best[v]);
    }
    forall a: nat, q: nat | q < e.states && 1 <= a && (a, v, q) in e.delta
      ensures Near(best', fifo[1..], q, best'[v] + 1)
    {
      NearPopped(best, fifo, best', q, best[v] + 1);
    }
  }

  lemma SearchingPopped(e: Enfa, from: set<nat>, best: map<nat, nat>, fifo: seq<Run>, n: nat, best': map<nat, nat>)
    requires Searching(e, from, best, fifo, n) && fifo != []
    requires best' == if fifo[0].state in best then best else best[fifo[0].state := |fifo[0].prefix|]
    ensures Searching(e, from, best', fifo[1..], |fifo[0].prefix|)
  {
    hide Reaches, Near;
    forall q | q in from
      ensures Near(best', fifo[1..], q, 0)
    {
      NearPopped(best, fifo, best', q, 0);
    }
  }

  /** The first run is taken; its state is visited now, or has been before. */
  lemma Popped(e: Enfa, from: set<nat>, best: map<nat, nat>, fifo: seq<Run>, n: nat)
    requires Searching(e, from, best, fifo, n) && AllFollowed(e, best, fifo, {}) && fifo != []
    ensures var x, m := fifo[0], |fifo[0].prefix|;
            var best' := if x.state in best then best else best[x.state := m];
            Searching(e, from, best', fifo[1..], m) && AllFollowed(e, best', fifo[1..], best'.Keys - best.Keys)
  {
    var x, m := fifo[0], |fifo[0].prefix|;
    var best' := if x.state in best then best else best[x.state := m];
    SearchingPopped(e, from, best, fifo, n, best');
    hide Reaches, Near, Followed;
    forall v | v in best' && v !in best'.Keys - best.Keys
      ensures Followed(e, best', fifo[1..], v)
    {
      FollowedPopped(e, best, fifo, best', v);
    }
  }

  /** The first run of the queue is a shortest one, if its state is a target and no visited state is one. */
  lemma FrontIsShortest(e: Enfa, from: set<nat>, best: map<nat, nat>, fifo: seq<Run>, n: nat, to: set<nat>, w: Word,
                        q: nat)
    requires e.Valid() && Searching(e, from, best, fifo, n) && AllFollowed(e, best, fifo, {})
    requires (forall v :: v in best ==> v !in to) && q in to && Reaches(e, from, w, q)
    ensures fifo != [] && |fifo[0].prefix| <= |w|
  {
    var p: nat, k: nat :| p in from && Leads(e, p, w, q, k);
    WayCovered(e, from, best, fifo, n, p, w, q, k);
  }

  // ---- the search ----

  /** Epsilon moves go in front. */
  method CloseEpsilon(e: Enfa, current: Run, visited: set<nat>, fifo0: seq<Run>, ghost from: set<nat>,
                      ghost best: map<nat, nat>)
    returns (fifo: seq<Run>)
    requires Searching(e, from, best, fifo0, |current.prefix|) && AllFollowed(e, best, fifo0, {current.state})
    requires visited == best.Keys && current.state in best && best[current.state] == |current.prefix|
    requires Reaches(e, from, current.prefix, current.state)
    ensures Searching(e, from, best, fifo, |current.prefix|) && AllFollowed(e, best, fifo, {current.state})
    ensures EpsFollowed(e, best, fifo, current.state, e.states)
  {
    hide Reaches, Near, AllFollowed;
    fifo := fifo0;
    for s := 0 to e.states
      invariant Searching(e, from, best, fifo, |current.prefix|) && AllFollowed(e, best, fifo, {current.state})
      invariant EpsFollowed(e, best, fifo, current.state, s)
    {
      ghost var before := fifo;
      if (0, current.state, s) in e.delta {
        if s !in visited {
          var next := Run(s, current.prefix);
          ReachesEps(e, from, current.prefix, current.state, s);
          Pushed(e, from, best, fifo, |current.prefix|, next, [next] + fifo, {current.state});
          fifo := [next] + fifo;
          FollowedMore(e, best, before, fifo, current.state, s);
          NearNew(best, fifo, next);
        } else {
          NearVisited(best, fifo, s, |current.prefix|);
        }
      }
    }
  }

  lemma NearVisited(best: map<nat, nat>, fifo: seq<Run>, q: nat, n: nat)
    requires q in best && best[q] <= n
    ensures Near(best, fifo, q, n)
  {
  }

  /** The letters from the current state to s go behind. */
  method AdvanceTo(e: Enfa, current: Run, s: nat, fifo0: seq<Run>, ghost from: set<nat>, ghost best: map<nat, nat>)
    returns (fifo: seq<Run>)
    requires Searching(e, from, best, fifo0, |current.prefix|) && AllFollowed(e, best, fifo0, {current.state})
    requires current.state in best && best[current.state] == |current.prefix| && s < e.states
    requires Reaches(e, from, current.prefix, current.state)
    ensures Searching(e, from, best, fifo, |current.prefix|) && AllFollowed(e, best, fifo, {current.state})
    ensures forall x :: x in fifo0 ==> x in fifo
    ensures forall a :: 1 <= a <= e.letters && (a, current.state, s) in e.delta ==>
      Near(best, fifo, s, |current.prefix| + 1)
  {
    hide Reaches, Near, AllFollowed;
    fifo := fifo0;
    for l := 0 to e.letters
      invariant Searching(e, from, best, fifo, |current.prefix|) && AllFollowed(e, best, fifo, {current.state})
      invariant forall x :: x in fifo0 ==> x in fifo
      invariant forall a :: 1 <= a <= l && (a, current.state, s) in e.delta ==>
        Near(best, fifo, s, |current.prefix| + 1)
    {
      if (l + 1, current.state, s) in e.delta {
        var next := Run(s, current.prefix + [l]);
        ReachesLetter(e, from, current.prefix, current.state, l, s);
        Pushed(e, from, best, fifo, |current.prefix|, next, fifo + [next], {current.state});
        fifo := fifo + [next];
        NearNew(best, fifo, next);
      }
    }
  }

  method Advance(e: Enfa, current: Run, visited: set<nat>, fifo0: seq<Run>, ghost from: set<nat>,
                 ghost best: map<nat, nat>)
    returns (fifo: seq<Run>)
    requires e.Valid() && Searching(e, from, best, fifo0, |current.prefix|)
    requires visited == best.Keys && current.state in best && best[current.state] == |current.prefix|
    requires AllFollowed(e, best, fifo0, {current.state}) && EpsFollowed(e, best, fifo0, current.state, e.states)
    requires Reaches(e, from, current.prefix, current.state)
    ensures Searching(e, from, best, fifo, |current.prefix|) && AllFollowed(e, best, fifo, {})
  {
    hide Reaches, Near, AllFollowed, EpsFollowed;
    fifo := fifo0;
    for s := 0 to e.states
      invariant Searching(e, from, best, fifo, |current.prefix|) && AllFollowed(e, best, fifo, {current.state})
      invariant EpsFollowed(e, best, fifo, current.state, e.states) && LettersFollowed(e, best, fifo, current.state, s)
    {
      ghost var before := fifo;
      if s !in visited {
        fifo := AdvanceTo(e, current, s, fifo, from, best);
        FollowedMore(e, best, before, fifo, current.state, e.states);
        FollowedMore(e, best, before, fifo, current.state, s);
      } else {
        NearVisited(best, fifo, s, |current.prefix| + 1);
      }
    }
    CurrentDone(e, best, fifo, current.state);
  }

  lemma CurrentDone(e: Enfa, best: map<nat, nat>, fifo: seq<Run>, v: nat)
    requires v in best && AllFollowed(e, best, fifo, {v}) && Followed(e, best, fifo, v)
    ensures AllFollowed(e, best, fifo, {})
  {
  }

  lemma Started(e: Enfa, from: set<nat>, fifo: seq<Run>)
    requires forall q :: q in from ==> q < e.states && Run(q, []) in fifo
    requires forall x :: x in fifo ==> x.prefix == [] && x.state in from
    ensures Searching(e, from, map[], fifo, 0)
  {
    forall i | 0 <= i < |fifo|
      ensures fifo[i].state < e.states && fifo[i].prefix == [] && Reaches(e, from, fifo[i].prefix, fifo[i].state)
    {
      assert fifo[i] in fifo;
      assert Leads(e, fifo[i].state, fifo[i].prefix, fifo[i].state, 0);
    }
  }

  /** The states of from wait with the empty word. */
  method StartRuns(e: Enfa, from: set<nat>) returns (fifo: seq<Run>)
    requires forall q :: q in from ==> q < e.states
    ensures Searching(e, from, map[], fifo, 0)
  {
    fifo := [];
    for q := 0 to e.states
      invariant forall x :: x in fifo ==> x.prefix == [] && x.state in from
      invariant forall p :: p in from && p < q ==> Run(p, []) in fifo
    {
      if q in from {
        fifo := fifo + [Run(q, [])];
      }
    }
    Started(e, from, fifo);
  }

  /** A shortest word from one of the states in from to one of the states in to. */
  method ShortestRun(e: Enfa, isEps: bool, from: set<nat>, to: set<nat>) returns (ret: Word, reachable: bool)
    requires e.Valid() && (forall q :: q in from ==> q < e.states) && (!isEps ==> forall p, q :: (0, p, q) !in e.delta)
    ensures reachable <==> exists w: Word, q: nat :: q in to && Reaches(e, from, w, q)
    ensures reachable ==> exists q: nat :: q in to && Reaches(e, from, ret, q)
    ensures reachable ==> forall w: Word, q: nat :: q in to && Reaches(e, from, w, q) ==> |ret| <= |w|
    ensures !reachable ==> ret == []
  {
    var fifo := StartRuns(e, from);
    var visited: set<nat> := {};
    ghost var best: map<nat, nat>, n: nat := map[], 0;
    while fifo != []
      invariant Searching(e, from, best, fifo, n) && AllFollowed(e, best, fifo, {}) && visited == best.Keys
      invariant forall q :: q in best ==> q !in to
      decreases UpTo(e.states) - visited, |fifo|
    {
      var current := fifo[0];
      ghost var best0, fifo0, n0 := best, fifo, n;
      Popped(e, from, best, fifo, n);
      n := |current.prefix|;
      fifo := fifo[1..];
      if current.state !in visited {
        visited := visited + {current.state};
        if current.state in to {
          forall w: Word, q: nat | q in to && Reaches(e, from, w, q)
            ensures |current.prefix| <= |w|
          {
            FrontIsShortest(e, from, best0, fifo0, n0, to, w, q);
          }
          return current.prefix, true;
        }
        best := best[current.state := n];
        assert best.Keys - best0.Keys == {current.state};
        if isEps {
          fifo := CloseEpsilon(e, current, visited, fifo, from, best);
        }
        fifo := Advance(e, current, visited, fifo, from, best);
      }
    }
    forall w: Word, q: nat | q in to
      ensures !Reaches(e, from, w, q)
    {
      if Reaches(e, from, w, q) {
        FrontIsShortest(e, from, best, fifo, n, to, w, q);
      }
    }
    return [], false;
  }

  // ---- a sample word ----

  /** The labels of a word as letters of the table. */
  ghost function Shift(w: Word): (u: Word)
    ensures |u| == |w| && forall i :: 0 <= i < |w| ==> u[i] == w[i] + 1
  {
    seq(|w|, i requires 0 <= i < |w| => w[i] + 1)
  }

  lemma {:induction false} LeadsAccepts(e: Enfa, p: nat, w: Word, q: nat, k: nat, v: Word, f: seq<bool>)
    requires e.Valid() && |f| == e.states && Leads(e, p, w, q, k) && e.AcceptsFrom(q, v, f)
    ensures e.AcceptsFrom(p, Shift(w) + v, f)
    decreases k
  {
    if k == 0 {
      assert Shift(w) + v == v;
    } else {
      var r: nat, u: Word :| Leads(e, p, u, r, k - 1) && Step(e, u, r, w, q);
      if w == u && (0, r, q) in e.delta {
        EpsOne(e, r, q);
        EpsFirst(e, r, q, v, f);
        LeadsAccepts(e, p, u, r, k - 1, v, f);
      } else {
        var a := w[|u|] + 1;
        assert ([a] + v)[1..] == v;
        EpsReflexive(e, r);
        assert e.AcceptsFrom(r, [a] + v, f);
        LeadsAccepts(e, p, u, r, k - 1, [a] + v, f);
        assert Shift(u) + ([a] + v) == Shift(w) + v;
      }
    }
  }

  lemma {:induction false} LeadsMoves(e: Enfa, from: set<nat>, w: Word, r: nat, q: nat, k: nat)
    requires Reaches(e, from, w, r) && e.Moves(r, q, k)
    ensures Reaches(e, from, w, q)
    decreases k
  {
    if k > 0 {
      var x: nat :| (0, r, x) in e.delta && e.Moves(x, q, k - 1);
      ReachesEps(e, from, w, r, x);
      LeadsMoves(e, from, w, x, q, k - 1);
    }
  }

  lemma {:induction false} AcceptedReached(e: Enfa, from: set<nat>, w: Word, r: nat, u: Word, f: seq<bool>)
      returns (x: Word, q: nat)
    requires e.Valid() && |f| == e.states && Reaches(e, from, w, r) && e.AcceptsFrom(r, u, f) && IsWord(u, e.letters)
    ensures q < e.states && f[q] && Reaches(e, from, x, q) && Shift(x) == Shift(w) + u
    decreases |u|
  {
    if u == [] {
      q :| 0 <= q < e.states && e.Eps(r, q) && f[q];
      var k :| e.Moves(r, q, k);
      LeadsMoves(e, from, w, r, q, k);
      x := w;
      assert Shift(w) + u == Shift(w);
    } else {
      var p: nat, o: nat :| e.Eps(r, p) && (u[0], p, o) in e.delta && e.AcceptsFrom(o, u[1..], f);
      var k :| e.Moves(r, p, k);
      LeadsMoves(e, from, w, r, p, k);
      ReachesLetter(e, from, w, p, u[0] - 1, o);
      x, q := AcceptedReached(e, from, w + [u[0] - 1], o, u[1..], f);
      assert Shift(w + [u[0] - 1]) + u[1..] == Shift(w) + u;
    }
  }

  ghost function Marks(b: seq<bool>): set<nat> {
    set q: nat | q < |b| && b[q]
  }

  method Collect(b: seq<bool>) returns (s: set<nat>)
    ensures s == Marks(b)
  {
    s := {};
    for q := 0 to |b|
      invariant s == set p: nat | p < q && b[p]
    {
      if b[q] {
        s := s + {q};
      }
    }
  }

  /** A word from an initial to a final state is an accepted word, and every accepted word is one. */
  lemma SampleExact(e: Enfa)
    requires e.Valid()
    ensures forall w: Word, q: nat :: q in Marks(e.final) && Reaches(e, Marks(e.init), w, q) ==> e.Accepts(Shift(w))
    ensures forall u :: IsWord(u, e.letters) && e.Accepts(u) ==>
      exists w: Word, q: nat :: q in Marks(e.final) && Reaches(e, Marks(e.init), w, q) && Shift(w) == u
  {
    var none: Word := [];
    forall w: Word, q: nat | q in Marks(e.final) && Reaches(e, Marks(e.init), w, q)
      ensures e.Accepts(Shift(w))
    {
      var p: nat, k: nat :| p in Marks(e.init) && Leads(e, p, w, q, k);
      EpsReflexive(e, q);
      LeadsAccepts(e, p, w, q, k, none, e.final);
      assert Shift(w) + none == Shift(w);
    }
    forall u | IsWord(u, e.letters) && e.Accepts(u)
      ensures exists w: Word, q: nat :: q in Marks(e.final) && Reaches(e, Marks(e.init), w, q) && Shift(w) == u
    {
      var p :| 0 <= p < e.states && e.init[p] && e.AcceptsFrom(p, u, e.final);
      assert p in Marks(e.init) && Leads(e, p, none, p, 0);
      var w, q := AcceptedReached(e, Marks(e.init), none, p, u, e.final);
      assert Shift(none) + u == u;
    }
  }

  /** A shortest accepted word, unless there is none. */
  method GetSampleWord(e: Enfa, isEps: bool) returns (ret: Word, isEmpty: bool)
    requires e.Valid() && (!isEps ==> forall p, q :: (0, p, q) !in e.delta)
    ensures isEmpty <==> forall u :: IsWord(u, e.letters) ==> !e.Accepts(u)
    ensures !isEmpty ==> e.Accepts(Shift(ret)) && forall u :: IsWord(u, e.letters) && e.Accepts(u) ==> |ret| <= |u|
  {
    var initialStates := Collect(e.init);
    var finalStates := Collect(e.final);
    var reachable;
    ret, reachable := ShortestRun(e, isEps, initialStates, finalStates);
    isEmpty := !reachable;
    SampleExact(e);
    if reachable {
      ReachedInRange(e, initialStates, ret);
    }
  }

  lemma {:induction false} LeadsInRange(e: Enfa, p: nat, w: Word, q: nat, k: nat)
    requires e.Valid() && Leads(e, p, w, q, k)
    ensures IsWord(Shift(w), e.letters)
    decreases k
  {
    if k > 0 {
      var r: nat, v: Word :| Leads(e, p, v, r, k - 1) && Step(e, v, r, w, q);
      LeadsInRange(e, p, v, r, k - 1);
      if w != v {
        forall i | 0 <= i < |w|
          ensures 1 <= Shift(w)[i] <= e.letters
        {
          assert i < |v| ==> w[i] == w[..|v|][i] == v[i] && Shift(v)[i] == v[i] + 1;
        }
      }
    }
  }

  lemma ReachedInRange(e: Enfa, from: set<nat>, w: Word)
    requires e.Valid() && exists q: nat :: Reaches(e, from, w, q)
    ensures IsWord(Shift(w), e.letters)
  {
    var q: nat :| Reaches(e, from, w, q);
    var p: nat, k: nat :| p in from && Leads(e, p, w, q, k);
    LeadsInRange(e, p, w, q, k);
  }
}
