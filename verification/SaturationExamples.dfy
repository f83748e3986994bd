/** Automata for which the answer is not the promised one. */
module SaturationExamples {
  import opened Automata
  import opened CounterAutomata
  import opened Saturation
  import opened SaturationOrders
  import opened PreStar

  ghost function Twice(): Mvca {
    Mvca(5, 2, 1, [1, -1], {(0, 0, 0, 1), (1, 1, 0, 2), (1, 2, 1, 3), (1, 3, 1, 4)})
  }

  lemma DrivesCons(a: Mvca, q: nat, m: nat, x: nat, r: nat, k: nat, w: Word, q': nat, m': nat)
    requires a.Valid() && a.Step(q, m, x, r, k) && a.Drives(r, k, w, q', m')
    ensures a.Drives(q, m, [x] + w, q', m')
  {
    assert ([x] + w)[0] == x && ([x] + w)[1..] == w;
  }

  lemma TwiceRun()
    ensures Twice().Valid() && Twice().Drives(0, 0, [0, 0, 1, 1], 4, 0)
  {
    hide Mvca.Drives;
    var a := Twice();
    TwiceEnd();
    DrivesCons(a, 3, 1, 1, 4, 0, [], 4, 0);
    DrivesCons(a, 2, 2, 1, 3, 1, [1] + [], 4, 0);
    DrivesCons(a, 1, 1, 0, 2, 2, [1] + ([1] + []), 4, 0);
    DrivesCons(a, 0, 0, 0, 1, 1, [0] + ([1] + ([1] + [])), 4, 0);
    var w: Word := [0] + ([0] + ([1] + ([1] + [])));
    assert w == [0, 0, 1, 1];
  }

  lemma TwiceEnd()
    ensures Twice().Valid() && Twice().Drives(4, 0, [], 4, 0)
  {
  }

  lemma TwiceNotTame(v: Word)
    ensures Twice().Valid() && !Twice().DrivesLow(0, 0, v, 4, 0)
  {
    var a := Twice();
    if v != [] && a.DrivesLow(0, 0, v, 4, 0) {
      var r: nat, k: nat :| a.Step(0, 0, v[0], r, k) && a.Tame(0, v[0]) && a.DrivesLow(r, k, v[1..], 4, 0);
      TwiceStuck(v[1..]);
    }
  }

  lemma TwiceStuck(v: Word)
    ensures Twice().Valid() && !Twice().DrivesLow(1, 1, v, 4, 0)
  {
  }

  /** With the bound 1: the only run counts up from the bound, so the saturation misses it. */
  lemma MissedRun()
    ensures var a := Twice(); a.Valid() && a.Drives(0, 0, [0, 0, 1, 1], 4, 0) && !CanReach(a, {(4, 0)}, 0, 0)
  {
    TwiceRun();
    forall v: Word
      ensures !Twice().DrivesLow(0, 0, v, 4, 0)
    {
      TwiceNotTame(v);
    }
  }

  // ---- a run that is not a shortest one ----

  /** All rules stay at the counter 0; from 4 there is a way of four steps over 3 and one of two steps over 5. */
  function Detour(): Mvca {
    Mvca(6, 1, 0, [0], {(0, 1, 0, 0), (0, 2, 0, 1), (0, 3, 0, 2), (0, 4, 0, 3), (0, 4, 0, 5), (0, 5, 0, 0)})
  }

  /** The states below n, but not those from n on, lead to 6, each with a word that is as long as its number. */
  ghost predicate Chained(t: Transitions, n: nat) {
    && (6, 0, 7) in t && t[(6, 0, 7)] == [] && (forall r :: (6, 0, r) in t ==> r == 7)
    && (forall p, r :: (p, 0, r) in t && p < 6 ==> r == 6 && p < n && |t[(p, 0, r)]| == p)
    && (forall p :: 0 <= p < n ==> (p, 0, 6) in t)
  }

  /** What one symbol reads. */
  lemma ReadsOne(t: Transitions, q: nat, y: nat, r: nat)
    ensures Reads(t.Keys, q, [y], r) <==> (q, y, r) in t
    ensures forall w :: ReadsWith(t, q, [y], r, w) ==> (q, y, r) in t && w == t[(q, y, r)]
  {
    var s: Stack := [y];
    assert s[1..] == [];
    forall w | ReadsWith(t, q, s, r, w)
      ensures (q, y, r) in t && w == t[(q, y, r)]
    {
      var o: nat, v: Word :| (q, s[0], o) in t && w == t[(q, s[0], o)] + v && ReadsWith(t, o, s[1..], r, v);
    }
  }

  /** A rule that stays at the level l copies the transitions of q to p, one letter longer. */
  ghost predicate Copied(t: Transitions, t1: Transitions, l: nat, p: nat, q: nat, n: nat) {
    && (forall k :: k in t ==> k in t1 && t1[k] == t[k])
    && (forall k :: k in t1 && k !in t ==> k.0 == p && k.1 == l && (q, l, k.2) in t && |t1[k]| == 1 + |t[(q, l, k.2)]|)
    && (forall r: nat :: r < n && (q, l, r) in t ==> (p, l, r) in t1)
  }

  lemma YieldsOne(t: Transitions, x: nat, q: nat, y: nat, r: nat, w: Word)
    requires Yields(t, x, q, [y], r, w)
    ensures (q, y, r) in t && |w| == 1 + |t[(q, y, r)]|
  {
    ReadsOne(t, q, y, r);
  }

  lemma RuleCopies(a: Mvca, t: Transitions, t1: Transitions, l: nat, p: nat, x: nat, q: nat, n: nat)
    requires a.Valid() && (l, p, x, q) in a.delta && a.dir[x] == 0
    requires RuleApplied(a, t, t1, l, p, x, q, n)
    ensures Copied(t, t1, l, p, q, n)
  {
    hide Reads, ReadsWith, Yields;
    var s: Stack := [l];
    assert StackTop(l, a.bound, a.dir[x]) == s;
    forall k | k in t1 && k !in t
      ensures k.0 == p && k.1 == l && (q, l, k.2) in t && |t1[k]| == 1 + |t[(q, l, k.2)]|
    {
      YieldsOne(t, x, q, l, k.2, t1[k]);
    }
    forall r: nat | r < n && (q, l, r) in t
      ensures (p, l, r) in t1
    {
      ReadsOne(t, q, l, r);
    }
  }

  lemma ChainStep(t: Transitions, t1: Transitions, p: nat)
    requires 1 <= p < 5 && Chained(t, p) && Copied(t, t1, 0, p, p - 1, 8)
    ensures Chained(t1, p + 1)
  {
    assert (p - 1, 0, 6) in t && (p, 0, 6) !in t && (p, 0, 6) in t1;
  }

  lemma ChainStop(t: Transitions, t1: Transitions)
    requires Chained(t, 5) && Copied(t, t1, 0, 4, 5, 8)
    ensures Chained(t1, 5)
  {
    assert forall k :: k in t1 ==> k in t;
  }

  /** The rules in lexicographic order. */
  ghost function DetourOrder(): seq<Rule> {
    [(0, 1, 0, 0), (0, 2, 0, 1), (0, 3, 0, 2), (0, 4, 0, 3), (0, 4, 0, 5), (0, 5, 0, 0)]
  }

  lemma DetourRules()
    ensures Detour().Valid() && Detour().bound == 0 && Detour().letters == 1 && Detour().states == 6
    ensures Detour().dir == [0]
    ensures InOrder(DetourOrder()) && forall r: Rule :: r in DetourOrder() <==> Due(Detour(), r)
  {
  }

  /** One pass copies, rule after rule. */
  lemma OnePass(t: Transitions, u: Transitions) returns (ts: seq<Transitions>)
    requires Detour().Valid() && PassDone(Detour(), t, u, 8)
    ensures |ts| == 7 && ts[0] == t && ts[6] == u
    ensures Copied(ts[0], ts[1], 0, 1, 0, 8) && Copied(ts[1], ts[2], 0, 2, 1, 8) && Copied(ts[2], ts[3], 0, 3, 2, 8)
    ensures Copied(ts[3], ts[4], 0, 4, 3, 8) && Copied(ts[4], ts[5], 0, 4, 5, 8) && Copied(ts[5], ts[6], 0, 5, 0, 8)
  {
    DetourRules();
    var order, a := DetourOrder(), Detour();
    assert order[0] == (0, 1, 0, 0) && order[1] == (0, 2, 0, 1) && order[2] == (0, 3, 0, 2);
    assert order[3] == (0, 4, 0, 3) && order[4] == (0, 4, 0, 5) && order[5] == (0, 5, 0, 0);
    hide Detour, DetourOrder, RuleApplied, Copied;
    var rules: seq<Rule>, tables: seq<Transitions> :|
      Leads(a, t, u, 8, rules, tables) && forall r :: r in rules <==> Due(a, r);
    OneOrder(rules, order);
    ts := tables;
    RuleCopies(a, ts[0], ts[1], 0, 1, 0, 0, 8);
    RuleCopies(a, ts[1], ts[2], 0, 2, 0, 1, 8);
    RuleCopies(a, ts[2], ts[3], 0, 3, 0, 2, 8);
    RuleCopies(a, ts[3], ts[4], 0, 4, 0, 3, 8);
    RuleCopies(a, ts[4], ts[5], 0, 4, 0, 5, 8);
    RuleCopies(a, ts[5], ts[6], 0, 5, 0, 0, 8);
  }

  /** All states lead to 6: 5 with one letter, and 4 with the four letters over 3. */
  ghost predicate Full(t: Transitions) {
    && (6, 0, 7) in t && t[(6, 0, 7)] == [] && (forall r :: (6, 0, r) in t ==> r == 7)
    && (forall p, r :: (p, 0, r) in t && p < 6 ==> r == 6)
    && (forall p :: 0 <= p < 6 ==> (p, 0, 6) in t)
    && |t[(4, 0, 6)]| == 4
  }

  lemma ChainFull(t: Transitions, u: Transitions)
    requires Chained(t, 5) && Copied(t, u, 0, 5, 0, 8)
    ensures Full(u)
  {
    assert (0, 0, 6) in t && (5, 0, 6) in u && (4, 0, 6) in t;
  }

  lemma FirstPass(t: Transitions, u: Transitions)
    requires Detour().Valid() && PassDone(Detour(), t, u, 8) && Chained(t, 1)
    ensures Full(u)
  {
    hide Detour, PassDone, Chained, Copied, Full;
    var ts := OnePass(t, u);
    ChainStep(ts[0], ts[1], 1);
    ChainStep(ts[1], ts[2], 2);
    ChainStep(ts[2], ts[3], 3);
    ChainStep(ts[3], ts[4], 4);
    ChainStop(ts[4], ts[5]);
    ChainFull(ts[5], ts[6]);
  }

  // ---- later passes change nothing ----

  lemma FullCopy(t: Transitions, u: Transitions, p: nat, q: nat)
    requires Full(t) && Copied(t, u, 0, p, q, 8) && p < 6 && q < 6
    ensures Full(u)
  {
    assert forall k :: k in u ==> k in t;
  }

  lemma LaterPass(t: Transitions, u: Transitions)
    requires Detour().Valid() && PassDone(Detour(), t, u, 8) && Full(t)
    ensures Full(u)
  {
    hide Detour, PassDone, Copied, Full;
    var ts := OnePass(t, u);
    FullCopy(ts[0], ts[1], 1, 0);
    FullCopy(ts[1], ts[2], 2, 1);
    FullCopy(ts[2], ts[3], 3, 2);
    FullCopy(ts[3], ts[4], 4, 3);
    FullCopy(ts[4], ts[5], 4, 5);
    FullCopy(ts[5], ts[6], 5, 0);
  }

  lemma {:induction false} AllPasses(t: Transitions, u: Transitions, i: nat)
    requires Detour().Valid() && i > 0 && Passes(Detour(), t, u, 8, i) && Chained(t, 1)
    ensures Full(u)
    decreases i
  {
    hide Full, Chained, PassDone, Detour;
    var j := i - 1;
    var v :| Passes(Detour(), t, v, 8, j) && PassDone(Detour(), v, u, 8);
    if j == 0 {
      FirstPass(v, u);
    } else {
      AllPasses(t, v, j);
      LaterPass(v, u);
    }
  }

  // ---- the answer ----

  lemma DetourStart()
    ensures StartCount(Detour(), {0}, 0, 6) == 8 && StartEnds(Detour(), {0}, 0, 6) == {7}
    ensures Chained(StartTable(Detour(), {0}, 0, 6), 1)
  {
    DetourRules();
    assert Config(0, -1) == [0] && Config(0, 0) == [0, 0];
    StartSix(Detour());
    assert [0, 0][..1] == [0] && [0][..0] == [];
  }

  /** Only the state 0 is asked for. */
  lemma StartSix(a: Mvca)
    requires a.states == 6
    ensures StartCount(a, {0}, 0, 6) == StartCount(a, {0}, 0, 1) && StartEnds(a, {0}, 0, 6) == StartEnds(a, {0}, 0, 1)
    ensures StartTable(a, {0}, 0, 6) == StartTable(a, {0}, 0, 1)
  {
    StartOne(a, 2);
    StartOne(a, 3);
    StartOne(a, 4);
    StartOne(a, 5);
    StartOne(a, 6);
  }

  lemma StartOne(a: Mvca, n: nat)
    requires n > 1
    ensures StartCount(a, {0}, 0, n) == StartCount(a, {0}, 0, n - 1)
    ensures StartEnds(a, {0}, 0, n) == StartEnds(a, {0}, 0, n - 1)
    ensures StartTable(a, {0}, 0, n) == StartTable(a, {0}, 0, n - 1)
  {
  }

  lemma FullWord(t: Transitions, w: Word)
    requires Full(t) && ReadsWith(t, 4, Config(0, 0), 7, w)
    ensures |w| == 4
  {
    var s: Stack := [0];
    assert Config(0, -1) == s && Config(0, 0) == [0] + s;
    var q: nat, v: Word :| (4, 0, q) in t && w == t[(4, 0, q)] + v && ReadsWith(t, q, s, 7, v);
    ReadsOne(t, q, 0, 7);
    assert q == 6 && v == [];
  }

  /** Whatever the passes over the rules do, the answer from 4 to 0 has four letters, although two are enough. */
  lemma NotShortest(word: Word)
    requires Detour().Valid() && Answer(Detour(), {4}, 0, {0}, 0, word)
    ensures |word| == 4 && Detour().Drives(4, 0, [0, 0], 0, 0)
  {
    DetourRules();
    DetourStart();
    DetourRun();
    hide Full, Chained, ReadsWith, Passes, StartTable, StartCount, StartEnds, Config;
    var a := Detour();
    var t: Transitions, p: nat, r: nat :|
      && Saturated(a, StartTable(a, {0}, 0, a.states), t, StartCount(a, {0}, 0, a.states))
      && p in {4} && r in StartEnds(a, {0}, 0, a.states) && ReadsWith(t, p, Config(a.bound, 0), r, word);
    var i: nat :| i > 0 && Passes(a, StartTable(a, {0}, 0, 6), t, 8, i);
    AllPasses(StartTable(a, {0}, 0, 6), t, i);
    FullWord(t, word);
  }

  /** What the call answers. */
  method AskDetour() returns (word: Word, reachable: bool)
    ensures reachable && |word| == 4 && Detour().Valid() && Detour().Drives(4, 0, [0, 0], 0, 0)
    ensures !Favourable(Detour(), {0}, 0)
  {
    DetourRules();
    DetourLow();
    hide Detour, Answer, Favourable;
    ghost var run: Word := [0, 0];
    word, reachable := ShortestRun(Detour(), {4}, 0, {0}, 0);
    assert Detour().DrivesLow(4, 0, run, 0, 0);
    NotShortest(word);
  }

  lemma DetourLow()
    ensures Detour().Valid() && Detour().DrivesLow(4, 0, [0, 0], 0, 0)
  {
    DetourRun();
    DetourRules();
    assert NeverClimbs(Detour());
    DrivesTame(Detour(), 4, 0, [0, 0], 0, 0);
  }

  lemma DetourRun()
    ensures Detour().Valid() && Detour().Drives(4, 0, [0, 0], 0, 0)
  {
    var none: Word := [];
    assert Detour().Drives(0, 0, none, 0, 0);
    DrivesCons(Detour(), 5, 0, 0, 0, 0, none, 0, 0);
    DrivesCons(Detour(), 4, 0, 0, 5, 0, [0] + none, 0, 0);
    assert [0] + ([0] + none) == [0, 0];
  }

  // ---- the order of levels and letters ----

  /** From 3 there is a short way over 4, with the letter 0, and a long one over level 1, with the letter 1. */
  function Levels(): Mvca {
    Mvca(5, 3, 1, [0, 1, -1], {(1, 1, 2, 0), (1, 2, 0, 1), (0, 3, 1, 2), (0, 3, 0, 4), (0, 4, 0, 0)})
  }

  ghost function LevelsOrder(): seq<Rule> {
    [(0, 3, 0, 4), (0, 3, 1, 2), (0, 4, 0, 0), (1, 1, 2, 0), (1, 2, 0, 1)]
  }

  lemma LevelsRules()
    ensures Levels().Valid() && Levels().bound == 1 && Levels().letters == 3 && Levels().states == 5
    ensures Levels().dir == [0, 1, -1]
    ensures InOrder(LevelsOrder()) && forall r: Rule :: r in LevelsOrder() <==> Due(Levels(), r)
  {
  }

  /** What is there, with the lengths of the words to 5. */
  ghost predicate Few(t: Transitions) {
    && (forall k :: k in t ==> k in {(0, 0, 5), (4, 0, 5), (3, 0, 5), (1, 1, 0), (2, 1, 0)})
    && (0, 0, 5) in t && t[(0, 0, 5)] == []
    && ((4, 0, 5) in t ==> |t[(4, 0, 5)]| == 1) && ((3, 0, 5) in t ==> |t[(3, 0, 5)]| == 2)
  }

  lemma FewCopied(t: Transitions, u: Transitions, l: nat, p: nat, q: nat)
    requires Few(t) && Copied(t, u, l, p, q, 6) && (l, p, q) in {(0, 3, 4), (0, 4, 0), (1, 2, 1)}
    ensures Few(u) && Extends(t, u)
    ensures forall k :: k in u && k !in t ==> k.0 == p && k.1 == l
    ensures (q, l, 5) in t ==> (p, l, 5) in u
  {
  }

  lemma FewReadsUp(t: Transitions, r: nat, w: Word)
    requires Few(t) && ReadsWith(t, 2, [1, 0], r, w)
    ensures r == 5 && (2, 1, 0) in t
  {
    var s: Stack := [1, 0];
    var q: nat, v: Word :| (2, s[0], q) in t && w == t[(2, s[0], q)] + v && ReadsWith(t, q, s[1..], r, v);
    assert s[1..] == [0];
    hide ReadsWith;
    ReadsOne(t, q, 0, r);
  }

  /** The way over level 1 comes too late. */
  lemma FewUp(a: Mvca, t: Transitions, u: Transitions)
    requires a.Valid() && (0, 3, 1, 2) in a.delta && a.bound == 1 && a.dir[1] == 1
    requires Few(t) && RuleApplied(a, t, u, 0, 3, 1, 2, 6) && ((2, 1, 0) in t ==> (3, 0, 5) in t)
    ensures u == t
  {
    var s: Stack := [1, 0];
    assert StackTop(0, 1, 1) == s;
    hide Few, ReadsWith, Reads;
    forall k | k in u
      ensures k in t
    {
      if k !in t {
        assert Yields(t, 1, 2, s, k.2, u[k]);
        assert k == (3, 0, k.2);
        FewReadsUp(t, k.2, u[k][1..]);
      }
    }
  }

  lemma FewDown(t: Transitions, u: Transitions)
    requires Levels().Valid() && Few(t) && RuleApplied(Levels(), t, u, 1, 1, 2, 0, 6)
    ensures Few(u) && Extends(t, u) && forall k :: k in u && k !in t ==> k == (1, 1, 0)
  {
    var s: Stack := [];
    assert StackTop(1, 1, -1) == s;
  }

  lemma LevelsPass(t: Transitions, u: Transitions)
    requires Levels().Valid() && PassDone(Levels(), t, u, 6) && Few(t) && ((2, 1, 0) in t ==> (4, 0, 5) in t)
    ensures Few(u) && (4, 0, 5) in u
  {
    LevelsRules();
    var order, a := LevelsOrder(), Levels();
    hide Levels, RuleApplied, Few, Copied;
    var rules: seq<Rule>, ts: seq<Transitions> :|
      Leads(a, t, u, 6, rules, ts) && forall r :: r in rules <==> Due(a, r);
    OneOrder(rules, order);
    assert rules[0] == (0, 3, 0, 4) && rules[1] == (0, 3, 1, 2) && rules[2] == (0, 4, 0, 0);
    assert rules[3] == (1, 1, 2, 0) && rules[4] == (1, 2, 0, 1);
    RuleCopies(a, ts[0], ts[1], 0, 3, 0, 4, 6);
    FewCopied(ts[0], ts[1], 0, 3, 4);
    FewUp(a, ts[1], ts[2]);
    RuleCopies(a, ts[2], ts[3], 0, 4, 0, 0, 6);
    FewStart(ts[2]);
    FewCopied(ts[2], ts[3], 0, 4, 0);
    FewDown(ts[3], ts[4]);
    RuleCopies(a, ts[4], ts[5], 1, 2, 0, 1, 6);
    FewCopied(ts[4], ts[5], 1, 2, 1);
  }

  lemma FewStart(t: Transitions)
    requires Few(t)
    ensures (0, 0, 5) in t
  {
  }

  lemma {:induction false} LevelsPasses(t: Transitions, u: Transitions, i: nat)
    requires Levels().Valid() && Passes(Levels(), t, u, 6, i) && Few(t) && (2, 1, 0) !in t
    ensures Few(u) && ((2, 1, 0) in u ==> (4, 0, 5) in u)
    decreases i
  {
    hide Few, PassDone, Levels;
    if i > 0 {
      var j := i - 1;
      var v :| Passes(Levels(), t, v, 6, j) && PassDone(Levels(), v, u, 6);
      LevelsPasses(t, v, j);
      LevelsPass(v, u);
    }
  }

  lemma LevelsStart()
    ensures StartCount(Levels(), {0}, 0, 5) == 6 && StartEnds(Levels(), {0}, 0, 5) == {5}
    ensures Few(StartTable(Levels(), {0}, 0, 5)) && (2, 1, 0) !in StartTable(Levels(), {0}, 0, 5)
  {
    LevelsRules();
    assert Config(1, 0) == [0];
    StartOne(Levels(), 2);
    StartOne(Levels(), 3);
    StartOne(Levels(), 4);
    StartOne(Levels(), 5);
    assert [0][..0] == [];
  }

  lemma ShortAnswer(word: Word)
    requires Levels().Valid() && Answer(Levels(), {3}, 0, {0}, 0, word)
    ensures |word| == 2
  {
    LevelsRules();
    LevelsStart();
    var a := Levels();
    var s: Stack := [0];
    assert Config(1, 0) == s;
    hide Levels, Few, ReadsWith, Passes, StartTable, StartCount, StartEnds, Config;
    var t: Transitions, p: nat, r: nat :|
      && Saturated(a, StartTable(a, {0}, 0, a.states), t, StartCount(a, {0}, 0, a.states))
      && p in {3} && r in StartEnds(a, {0}, 0, a.states) && ReadsWith(t, p, Config(a.bound, 0), r, word);
    var i: nat :| i > 0 && Passes(a, StartTable(a, {0}, 0, 5), t, 6, i);
    LevelsPasses(StartTable(a, {0}, 0, 5), t, i);
    ReadsOne(t, 3, 0, 5);
    FewWord(t);
  }

  lemma FewWord(t: Transitions)
    requires Few(t)
    ensures (3, 0, 5) in t ==> |t[(3, 0, 5)]| == 2
  {
  }

  /** The levels are taken upward and the letters in their order, so the short way is found first. */
  method AskLevels() returns (word: Word, reachable: bool)
    ensures reachable && |word| == 2
  {
    LevelsRules();
    LevelsRun();
    hide Levels, Answer, Favourable;
    ghost var run: Word := [0, 0];
    word, reachable := ShortestRun(Levels(), {3}, 0, {0}, 0);
    assert Levels().DrivesLow(3, 0, run, 0, 0);
    ShortAnswer(word);
  }

  lemma LevelsRun()
    ensures Levels().Valid() && Levels().DrivesLow(3, 0, [0, 0], 0, 0)
  {
    var none, one, two: Word := [], [0], [0, 0];
    var a := Levels();
    assert a.DrivesLow(0, 0, none, 0, 0);
    assert one[1..] == none && a.Step(4, 0, 0, 0, 0);
    assert a.DrivesLow(4, 0, one, 0, 0);
    assert two[1..] == one && a.Step(3, 0, 0, 4, 0);
  }

  // ---- a word that is too long and never asked for ----

  /** At level 1, from 0 to 2 in one step or over 1 in two; 3 has no rules. */
  ghost function Aside(): Mvca {
    Mvca(4, 2, 1, [0, -1], {(1, 0, 0, 1), (1, 0, 1, 2), (1, 1, 1, 2)})
  }

  lemma AsideRules()
    ensures Aside().Valid() && Aside().bound == 1 && Aside().dir == [0, -1]
    ensures {(1, 0, 0, 1), (1, 0, 1, 2), (1, 1, 1, 2)} <= Aside().delta
  {
  }

  /** A rule that takes the symbol off the stack. */
  lemma PopTree(a: Mvca, start: set<Key>, k: Key, x: nat) returns (t: Tree)
    requires a.Valid() && k !in start && (k.1, k.0, x, k.2) in a.delta && k.1 + a.dir[x] >= 0
    requires StackTop(k.1, a.bound, a.dir[x]) == []
    ensures IsTree(a, start, t) && t.key == k
    ensures Simple(t) && Size(t) == 1 && Keys(t) == {k}
  {
    hide StackTop;
    var none: seq<Tree> := [];
    t := Node(k, x, k.2, none);
  }

  /** A step down from level 1. */
  lemma DownTree(start: set<Key>, p: nat) returns (t: Tree)
    requires p < 2 && (p, 1, 2) !in start
    ensures Aside().Valid() && IsTree(Aside(), start, t) && Simple(t) && t.key == (p, 1, 2) && Size(t) == 1
    ensures Keys(t) == {(p, 1, 2)}
  {
    AsideRules();
    assert (1, p, 1, 2) in Aside().delta;
    assert StackTop(1, 1, -1) == [];
    hide *;
    t := PopTree(Aside(), start, (p, 1, 2), 1);
  }

  lemma AsideLong(start: set<Key>, one: Tree) returns (long: Tree)
    requires (0, 1, 2) !in start && Aside().Valid() && IsTree(Aside(), start, one)
    requires one.key == (1, 1, 2) && Size(one) == 1 && Simple(one) && Keys(one) == {(1, 1, 2)}
    ensures IsTree(Aside(), start, long) && Simple(long) && long.key == (0, 1, 2) && Size(long) == 2
  {
    AsideRules();
    hide Aside;
    var path, none: seq<Tree> := [one], [];
    long := Node((0, 1, 2), 0, 1, path);
    var s: Stack := [1];
    assert StackTop(1, 1, 0) == s;
    assert path[1..] == none && s[1..] == [];
    assert Chain(none, 2, [], 2) && AreTrees(Aside(), start, none);
    assert Chain(path, 1, s, 2);
    assert AreTrees(Aside(), start, path);
    assert Sizes(path) == 1 && KeysOf(path) == {(1, 1, 2)} && AllSimple(path);
  }

  /** The condition fails, but there is no run to 3 but the empty one, so every answer is a shortest run. */
  lemma NotNeeded()
    ensures Aside().Valid() && !Favourable(Aside(), {3}, 0)
    ensures forall p, m, w :: Aside().DrivesLow(p, m, w, 3, 0) ==> w == []
  {
    var start := StartTable(Aside(), {3}, 0, 4).Keys;
    AsideRules();
    AsideStart(start);
    var one := DownTree(start, 1);
    var short := DownTree(start, 0);
    var long := AsideLong(start, one);
    hide IsTree, Size, Simple, Aside;
    assert !Shortest(Aside(), start, long);
    forall p, m, w: Word | Aside().DrivesLow(p, m, w, 3, 0)
      ensures w == []
    {
      AsideRun(p, m, w);
    }
  }

  lemma AsideStart(start: set<Key>)
    requires start == StartTable(Aside(), {3}, 0, 4).Keys
    ensures (0, 1, 2) !in start && (1, 1, 2) !in start
  {
    var g := StartHeights(Aside(), {3}, 0, 4, [0, 1, 2, 3]);
    assert g[0] == 0 && g[1] == 1 && g[2] == 2;
  }

  lemma {:induction false} AsideRun(p: nat, m: nat, w: Word)
    requires Aside().Valid() && Aside().DrivesLow(p, m, w, 3, 0)
    ensures w == []
    decreases |w|
  {
    if w != [] {
      var r: nat, k: nat :| Aside().Step(p, m, w[0], r, k) && Aside().DrivesLow(r, k, w[1..], 3, 0);
      AsideRun(r, k, w[1..]);
    }
  }
}
