/** Inclusion of the languages of two automata with one visible counter: completion, product and saturation. */
module CounterInclusion {
  import opened Automata
  import opened CounterAutomata
  import opened Saturation
  import opened SaturationOrders
  import opened PreStar
  import opened CounterLanguages
  import opened CounterProducts

  ghost predicate Deterministic(a: Mvca) {
    forall l, p, x, q, r :: (l, p, x, q) in a.delta && (l, p, x, r) in a.delta ==> q == r
  }

  // ---- a sink ----

  /** No rule at level l with the letter x leaves the state i, if the level does not get below 0. */
  ghost predicate Stays(a: Mvca, i: nat, l: nat, x: nat)
    requires a.Valid() && x < a.letters
  {
    l + a.dir[x] >= 0 ==> forall q :: (l, i, x, q) in a.delta ==> q == i
  }

  ghost predicate IsSink(v: Vca, i: nat)
    requires v.Valid()
  {
    i < v.base.states && i !in v.final
    && forall l: nat, x: nat :: l <= v.base.bound && x < v.base.letters ==> Stays(v.base, i, l, x)
  }

  method StaysHere(a: Mvca, i: nat, l: nat, x: nat) returns (valid: bool)
    requires a.Valid() && x < a.letters
    ensures valid <==> Stays(a, i, l, x)
  {
    valid := true;
    if l + a.dir[x] >= 0 {
      for q: nat := 0 to a.states
        invariant valid <==> forall r: nat :: r < q && (l, i, x, r) in a.delta ==> r == i
      {
        if (l, i, x, q) in a.delta && q != i {
          valid := false;
        }
      }
    }
  }

  method IsSinkState(v: Vca, i: nat) returns (valid: bool)
    requires v.Valid() && i < v.base.states && i !in v.final
    ensures valid <==> IsSink(v, i)
  {
    hide Stays;
    valid := true;
    var l: nat := 0;
    while l <= v.base.bound
      invariant valid <==> forall k: nat, x: nat :: k < l && k <= v.base.bound && x < v.base.letters ==>
        Stays(v.base, i, k, x)
      invariant l <= v.base.bound + 1
    {
      var x: nat := 0;
      ghost var before := valid;
      while x < v.base.letters
        invariant x <= v.base.letters
        invariant valid <==> before && forall y: nat :: y < x ==> Stays(v.base, i, l, y)
      {
        var here := StaysHere(v.base, i, l, x);
        valid := valid && here;
        x := x + 1;
      }
      l := l + 1;
    }
  }

  /** The first state that is not final and is never left, or -1. */
  method FindSink(v: Vca) returns (ret: int)
    requires v.Valid()
    ensures ret == -1 || (ret >= 0 && IsSink(v, ret))
    ensures forall i: nat :: i < v.base.states && (ret == -1 || i < ret) ==> !IsSink(v, i)
  {
    hide IsSink;
    ret := -1;
    for i: nat := 0 to v.base.states
      invariant ret == -1 && forall j: nat :: j < i ==> !IsSink(v, j)
    {
      if i in v.final {
        FinalNoSink(v, i);
        continue;
      }
      var valid := IsSinkState(v, i);
      if valid {
        return i;
      }
    }
  }

  lemma FinalNoSink(v: Vca, i: nat)
    requires v.Valid() && i in v.final
    ensures !IsSink(v, i)
  {
  }

  // ---- completion ----

  ghost predicate HasRule(delta: set<Rule>, l: nat, p: nat, x: nat) {
    exists q :: (l, p, x, q) in delta
  }

  /** u has the rules of v, and rules to sink where v has none. */
  ghost predicate Extended(v: Vca, delta: set<Rule>, sink: nat) {
    && v.base.delta <= delta
    && forall l, p, x, q :: (l, p, x, q) in delta && (l, p, x, q) !in v.base.delta ==>
         q == sink && l <= v.base.bound && x < v.base.letters && p < Larger(v.base.states, sink + 1)
         && !HasRule(v.base.delta, l, p, x)
  }

  /** There is a rule, or the level would get below 0. */
  ghost predicate Covered(v: Vca, delta: set<Rule>, l: nat, p: nat, x: nat)
    requires v.Valid() && x < v.base.letters
  {
    l + v.base.dir[x] >= 0 ==> HasRule(delta, l, p, x)
  }

  /** The first sink, or a new state if there is none. */
  ghost predicate ChosenSink(v: Vca, sink: nat)
    requires v.Valid()
  {
    (IsSink(v, sink) || sink == v.base.states) && forall i: nat :: i < sink && i < v.base.states ==> !IsSink(v, i)
  }

  ghost predicate Completion(v: Vca, u: Vca, sink: nat)
    requires v.Valid()
  {
    && u.base.letters == v.base.letters && u.base.dir == v.base.dir && u.base.bound == v.base.bound
    && u.init == v.init && u.final == v.final && ChosenSink(v, sink)
    && u.base.states == Larger(v.base.states, sink + 1) && Extended(v, u.base.delta, sink)
    && forall l: nat, p: nat, x: nat :: l <= v.base.bound && p < u.base.states && x < v.base.letters ==>
         Covered(v, u.base.delta, l, p, x)
  }

  method AddMissing(v: Vca, delta: set<Rule>, sink: nat, m: nat, src: nat, x: nat) returns (more: set<Rule>)
    requires v.Valid() && Extended(v, delta, sink) && m <= v.base.bound && x < v.base.letters
    requires src < Larger(v.base.states, sink + 1)
    requires forall l, p, y, q :: (l, p, y, q) in delta ==> q < Larger(v.base.states, sink + 1)
    ensures delta <= more && Extended(v, more, sink) && Covered(v, more, m, src, x)
    ensures forall l, p, y, q :: (l, p, y, q) in more ==> q < Larger(v.base.states, sink + 1)
  {
    more := delta;
    var empty := true;
    for q: nat := 0 to Larger(v.base.states, sink + 1)
      invariant empty <==> forall r: nat :: r < q ==> (m, src, x, r) !in delta
    {
      if (m, src, x, q) in delta {
        empty := false;
      }
    }
    if empty && m + v.base.dir[x] >= 0 {
      more := delta + {(m, src, x, sink)};
      assert (m, src, x, sink) in more;
    }
  }

  lemma CoveredKept(v: Vca, delta: set<Rule>, more: set<Rule>)
    requires v.Valid() && delta <= more
    ensures forall l: nat, p: nat, x: nat :: x < v.base.letters && Covered(v, delta, l, p, x) ==>
      Covered(v, more, l, p, x)
  {
    forall l: nat, p: nat, x: nat | HasRule(delta, l, p, x)
      ensures HasRule(more, l, p, x)
    {
      var q :| (l, p, x, q) in delta;
    }
  }

  ghost predicate TargetsBelow(delta: set<Rule>, n: nat) {
    forall l, p, x, q :: (l, p, x, q) in delta ==> q < n
  }

  /** Every state with every letter, at one level. */
  method AddLevel(v: Vca, delta: set<Rule>, sink: nat, m: nat) returns (more: set<Rule>)
    requires v.Valid() && Extended(v, delta, sink) && m <= v.base.bound
    requires TargetsBelow(delta, Larger(v.base.states, sink + 1))
    ensures delta <= more && Extended(v, more, sink) && TargetsBelow(more, Larger(v.base.states, sink + 1))
    ensures forall p: nat, x: nat :: p < Larger(v.base.states, sink + 1) && x < v.base.letters ==>
      Covered(v, more, m, p, x)
  {
    hide Extended, Covered, Larger;
    more := delta;
    for src: nat := 0 to Larger(v.base.states, sink + 1)
      invariant delta <= more && Extended(v, more, sink) && TargetsBelow(more, Larger(v.base.states, sink + 1))
      invariant forall p: nat, x: nat :: p < src && x < v.base.letters ==> Covered(v, more, m, p, x)
    {
      for letter: nat := 0 to v.base.letters
        invariant delta <= more && Extended(v, more, sink) && TargetsBelow(more, Larger(v.base.states, sink + 1))
        invariant forall p: nat, x: nat ::
          (p < src || (p == src && x < letter)) && x < v.base.letters ==> Covered(v, more, m, p, x)
      {
        ghost var before := more;
        more := AddMissing(v, more, sink, m, src, letter);
        CoveredKept(v, before, more);
      }
    }
  }

  /** Lead every missing rule to a sink: one that is there, or a new state. */
  method CompleteAutomaton(v: Vca) returns (u: Vca, ghost sink: nat)
    requires v.Valid()
    ensures u.Valid() && Completion(v, u, sink)
  {
    hide Extended, Covered, IsSink;
    var found := FindSink(v);
    var target: nat := if found < 0 then v.base.states else found;
    sink := target;
    SinkInside(v, target);
    var states := Larger(v.base.states, target + 1);
    var delta := v.base.delta;
    NothingExtended(v, target);
    for m: nat := 0 to v.base.bound + 1
      invariant Extended(v, delta, target) && TargetsBelow(delta, states)
      invariant forall l: nat, p: nat, x: nat :: l < m && p < states && x < v.base.letters ==>
        Covered(v, delta, l, p, x)
    {
      ghost var before := delta;
      delta := AddLevel(v, delta, target, m);
      CoveredKept(v, before, delta);
    }
    u := Vca(Mvca(states, v.base.letters, v.base.bound, v.base.dir, delta), v.init, v.final);
    CompletionValid(v, u, target);
  }

  lemma SinkInside(v: Vca, sink: nat)
    requires v.Valid()
    ensures IsSink(v, sink) ==> sink < v.base.states
  {
  }

  lemma NothingExtended(v: Vca, sink: nat)
    requires v.Valid()
    ensures Extended(v, v.base.delta, sink) && TargetsBelow(v.base.delta, Larger(v.base.states, sink + 1))
  {
  }

  lemma CompletionValid(v: Vca, u: Vca, sink: nat)
    requires v.Valid() && Completion(v, u, sink) && TargetsBelow(u.base.delta, u.base.states)
    ensures u.Valid()
  {
    forall l, p, x, q | (l, p, x, q) in u.base.delta
      ensures l <= u.base.bound && p < u.base.states && x < u.base.letters && q < u.base.states
    {
      assert (l, p, x, q) in v.base.delta || (l, p, x, q) !in v.base.delta;
    }
  }

  /** Completion adds no choice. */
  lemma CompletionDeterministic(v: Vca, u: Vca, sink: nat)
    requires v.Valid() && Completion(v, u, sink) && Deterministic(v.base)
    ensures Deterministic(u.base)
  {
    forall l, p, x, q, r | (l, p, x, q) in u.base.delta && (l, p, x, r) in u.base.delta
      ensures q == r
    {
      if (l, p, x, q) in v.base.delta || (l, p, x, r) in v.base.delta {
        assert HasRule(v.base.delta, l, p, x);
      }
    }
  }

  /** Levels stand for counters that can be counted down whenever the levels can. */
  ghost predicate Sturdy(a: Mvca)
    requires a.Valid()
  {
    a.bound > 0 || forall x :: 0 <= x < a.letters ==> a.dir[x] != -1
  }

  lemma LevelCounts(a: Mvca, m: nat, x: nat)
    requires a.Valid() && Sturdy(a) && x < a.letters && m + a.dir[x] >= 0
    ensures a.Level(m) + a.dir[x] >= 0
  {
  }

  /** A state that no run leaves. */
  ghost predicate Trap(a: Mvca, i: nat)
    requires a.Valid()
  {
    forall m: nat, x: nat, q: nat, k: nat :: a.Step(i, m, x, q, k) ==> q == i
  }

  lemma SinkIsTrap(v: Vca, u: Vca, sink: nat)
    requires v.Valid() && u.Valid() && Completion(v, u, sink) && Sturdy(v.base)
    ensures Trap(u.base, sink)
  {
    forall m: nat, x: nat, q: nat, k: nat | u.base.Step(sink, m, x, q, k)
      ensures q == sink
    {
      LevelCounts(u.base, m, x);
      var l := u.base.Level(m);
      if (l, sink, x, q) in v.base.delta {
        assert IsSink(v, sink);
        assert Stays(v.base, sink, l, x);
      }
    }
  }

  lemma {:induction false} TrapRun(a: Mvca, i: nat, m: nat, w: Word, q: nat, k: nat)
    requires a.Valid() && Trap(a, i) && a.Drives(i, m, w, q, k)
    ensures q == i
    decreases |w|
  {
    if w != [] {
      var r: nat, j: nat :| a.Step(i, m, w[0], r, j) && a.Drives(r, j, w[1..], q, k);
      TrapRun(a, i, j, w[1..], q, k);
    }
  }

  lemma {:induction false} MoreDrives(a: Mvca, b: Mvca, p: nat, m: nat, w: Word, q: nat, k: nat)
    requires a.Valid() && b.Valid() && a.delta <= b.delta && a.dir == b.dir && a.letters == b.letters
    requires a.bound == b.bound
    requires a.Drives(p, m, w, q, k)
    ensures b.Drives(p, m, w, q, k)
    decreases |w|
  {
    if w != [] {
      var r: nat, j: nat :| a.Step(p, m, w[0], r, j) && a.Drives(r, j, w[1..], q, k);
      MoreDrives(a, b, r, j, w[1..], q, k);
      assert b.Step(p, m, w[0], r, j);
    }
  }

  /** A run that does not end in the sink uses no new rule. */
  lemma {:induction false} OldRun(v: Vca, u: Vca, sink: nat, p: nat, m: nat, w: Word, q: nat, k: nat)
    requires v.Valid() && u.Valid() && Completion(v, u, sink) && Trap(u.base, sink)
    requires u.base.Drives(p, m, w, q, k) && q != sink
    ensures v.base.Drives(p, m, w, q, k)
    decreases |w|
  {
    if w != [] {
      var r: nat, j: nat :| u.base.Step(p, m, w[0], r, j) && u.base.Drives(r, j, w[1..], q, k);
      if r == sink {
        TrapRun(u.base, sink, j, w[1..], q, k);
      }
      OldRun(v, u, sink, r, j, w[1..], q, k);
      assert (u.base.Level(m), p, w[0], r) in v.base.delta;
      assert v.base.Step(p, m, w[0], r, j);
    }
  }

  /** Completion keeps the language. */
  lemma CompletionLanguage(v: Vca, u: Vca, sink: nat)
    requires v.Valid() && u.Valid() && Completion(v, u, sink) && Sturdy(v.base)
    ensures forall w :: u.Accepts(w) <==> v.Accepts(w)
  {
    SinkIsTrap(v, u, sink);
    forall w: Word
      ensures u.Accepts(w) <==> v.Accepts(w)
    {
      if u.Accepts(w) {
        var q: nat :| q in u.final && u.base.Drives(u.init, 0, w, q, 0);
        OldRun(v, u, sink, u.init, 0, w, q, 0);
      }
      if v.Accepts(w) {
        var q: nat :| q in v.final && v.base.Drives(v.init, 0, w, q, 0);
        MoreDrives(v.base, u.base, v.init, 0, w, q, 0);
      }
    }
  }

  /** Where some automaton has a run, the completed one has one with the same counters. */
  lemma {:induction false} RunExists(v: Vca, u: Vca, sink: nat, a: Mvca, p: nat, m: nat, w: Word, q: nat, k: nat,
                                     i: nat)
      returns (j: nat)
    requires v.Valid() && u.Valid() && Completion(v, u, sink) && Sturdy(v.base) && i < u.base.states
    requires a.Valid() && a.dir == u.base.dir && a.letters == u.base.letters && a.Drives(p, m, w, q, k)
    ensures j < u.base.states && u.base.Drives(i, m, w, j, k)
    decreases |w|
  {
    if w == [] {
      j := i;
    } else {
      var r: nat, n: nat :| a.Step(p, m, w[0], r, n) && a.Drives(r, n, w[1..], q, k);
      LevelCounts(u.base, m, w[0]);
      assert Covered(v, u.base.delta, u.base.Level(m), i, w[0]);
      var o :| (u.base.Level(m), i, w[0], o) in u.base.delta;
      j := RunExists(v, u, sink, a, r, n, w[1..], q, k, o);
      assert u.base.Step(i, m, w[0], o, n);
    }
  }

  lemma {:induction false} OneRun(a: Mvca, p: nat, m: nat, w: Word, q: nat, k: nat, r: nat, j: nat)
    requires a.Valid() && Deterministic(a) && a.Drives(p, m, w, q, k) && a.Drives(p, m, w, r, j)
    ensures q == r && k == j
    decreases |w|
  {
    if w != [] {
      var o: nat, n: nat :| a.Step(p, m, w[0], o, n) && a.Drives(o, n, w[1..], q, k);
      var o': nat, n': nat :| a.Step(p, m, w[0], o', n') && a.Drives(o', n', w[1..], r, j);
      OneRun(a, o, n, w[1..], q, k, r, j);
    }
  }

  // ---- runs within the bound ----

  /** Runs that stay within the bound are the tame ones. */
  lemma {:induction false} WithinTame(a: Mvca, p: nat, m: nat, w: Word, q: nat, k: nat)
    requires a.Valid() && m <= a.bound
    ensures a.DrivesLow(p, m, w, q, k) <==> a.Drives(p, m, w, q, k) && Within(a.dir, m, w, a.bound)
    decreases |w|
  {
    if w != [] {
      if a.DrivesLow(p, m, w, q, k) {
        var r: nat, j: nat :| a.Step(p, m, w[0], r, j) && a.Tame(m, w[0]) && a.DrivesLow(r, j, w[1..], q, k);
        WithinTame(a, r, j, w[1..], q, k);
      }
      if a.Drives(p, m, w, q, k) && Within(a.dir, m, w, a.bound) {
        var r: nat, j: nat :| a.Step(p, m, w[0], r, j) && a.Drives(r, j, w[1..], q, k);
        assert Within(a.dir, j, w[1..], a.bound);
        WithinStart(a.dir, j, w[1..], a.bound);
        WithinTame(a, r, j, w[1..], q, k);
        assert a.Tame(m, w[0]);
      }
    }
  }

  lemma WithinStart(dir: seq<int>, m: nat, w: Word, b: nat)
    requires Within(dir, m, w, b)
    ensures m <= b
  {
  }

  lemma {:induction false} WithinMore(dir: seq<int>, m: int, w: Word, b: nat, c: nat)
    requires Within(dir, m, w, b) && b <= c
    ensures Within(dir, m, w, c)
    decreases |w|
  {
    if w != [] {
      WithinMore(dir, m + dir[w[0]], w[1..], b, c);
    }
  }

  // ---- inclusion ----

  /** Two automata whose languages are compared: deterministic, with the same letters. */
  ghost predicate Comparable(v: Vca, u: Vca) {
    && v.Valid() && u.Valid() && Deterministic(v.base) && Deterministic(u.base)
    && v.base.letters == u.base.letters && v.base.dir == u.base.dir
  }

  /** w is accepted by v, not by u. */
  ghost predicate Separating(v: Vca, u: Vca, w: Word)
    requires v.Valid() && u.Valid()
  {
    v.Accepts(w) && !u.Accepts(w)
  }

  /** (f, 0) is a configuration of the product that is final for v and not for u. */
  ghost predicate Bad(v: Vca, u: Vca, f: nat) {
    exists p: nat, q: nat :: p in v.final && q < u.base.states && q !in u.final && f == Pair(p, q, u.base.states)
  }

  /** Those of the first states are added. */
  ghost predicate BadAdded(v: Vca, u: Vca, added: set<(nat, nat)>, i: nat, j: nat) {
    && (forall f, k :: (f, k) in added ==> k == 0 && Bad(v, u, f))
    && forall p: nat, q: nat :: (p < i || (p == i && q < j)) && p in v.final && q < u.base.states && q !in u.final ==>
         (Pair(p, q, u.base.states), 0) in added
  }

  lemma BadNext(v: Vca, u: Vca, added: set<(nat, nat)>, i: nat, j: nat)
    requires BadAdded(v, u, added, i, j)
    ensures i in v.final && j < u.base.states && j !in u.final ==>
              BadAdded(v, u, added + {(Pair(i, j, u.base.states), 0)}, i, j + 1)
    ensures i !in v.final || j >= u.base.states || j in u.final ==> BadAdded(v, u, added, i, j + 1)
    ensures i !in v.final || j >= u.base.states ==> BadAdded(v, u, added, i + 1, 0)
  {
    if i in v.final && j < u.base.states && j !in u.final {
      assert Bad(v, u, Pair(i, j, u.base.states));
    }
  }

  /** A saturated automaton over the product for all configurations that are final for v and not for u. */
  method Separator(v: Vca, u: Vca, c: Mvca) returns (pa: PAutomaton)
    requires v.Valid() && u.Valid() && c.Valid() && c.states == v.base.states * u.base.states
    ensures fresh(pa) && pa.Valid() && pa.base == c && BadAdded(v, u, pa.added, v.base.states, 0)
    ensures pa.final != {} ==> Closed(c, pa.transitions.Keys)
  {
    hide PAutomaton.Valid, Closed, BadAdded, Bad, PathTable, Config, Saturated;
    pa := new PAutomaton(c);
    NoneBad(v, u);
    for i: nat := 0 to v.base.states
      invariant fresh(pa) && pa.Valid() && pa.base == c && BadAdded(v, u, pa.added, i, 0)
    {
      if i in v.final {
        for j: nat := 0 to u.base.states
          invariant fresh(pa) && pa.Valid() && pa.base == c && BadAdded(v, u, pa.added, i, j)
        {
          BadNext(v, u, pa.added, i, j);
          if j !in u.final {
            PairBelow(i, j, v.base.states, u.base.states);
            pa.AddAcceptingConfiguration(Pair(i, j, u.base.states), 0);
          }
        }
        BadNext(v, u, pa.added, i, u.base.states);
      } else {
        BadNext(v, u, pa.added, i, 0);
      }
    }
    pa.SaturatePreStar();
  }

  lemma NoneBad(v: Vca, u: Vca)
    ensures BadAdded(v, u, {}, 0, 0)
  {
  }

  lemma SameFrame(v: Vca, u: Vca, v': Vca, s: nat, u': Vca, t: nat, c: Mvca)
    requires Comparable(v, u) && v'.Valid() && u'.Valid()
    requires Completion(v, v', s) && Completion(u, u', t) && IsProduct(v'.base, u'.base, c)
    ensures c.dir == v.base.dir == u.base.dir == v'.base.dir == u'.base.dir && c.letters == v.base.letters
    ensures v'.init == v.init && u'.init == u.init && v'.final == v.final && u'.final == u.final
    ensures v'.base.letters == u'.base.letters && c.bound == Larger(v.base.bound, u.base.bound)
  {
  }

  /** w drives v to a final state and u to one that is not, with the counter within 0..b and 0 at the end. */
  ghost predicate Splits(v: Vca, u: Vca, w: Word, b: nat)
    requires v.Valid() && u.Valid()
  {
    Within(v.base.dir, 0, w, b)
    && exists p: nat, q: nat :: p in v.final && q < u.base.states && q !in u.final
                                && v.base.Drives(v.init, 0, w, p, 0) && u.base.Drives(u.init, 0, w, q, 0)
  }

  ghost predicate SameLetters(v: Vca, u: Vca) {
    v.Valid() && u.Valid() && v.base.letters == u.base.letters && v.base.dir == u.base.dir
  }

  /** Tame runs of the product into bad configurations split. */
  lemma LowSplits(v: Vca, u: Vca, c: Mvca, w: Word, f: nat)
    requires SameLetters(v, u) && IsProduct(v.base, u.base, c) && c.Valid() && Bad(v, u, f)
    requires c.DrivesLow(Pair(v.init, u.init, u.base.states), 0, w, f, 0)
    ensures Splits(v, u, w, c.bound)
  {
    ProductFrame(v, u, c);
    WithinTame(c, Pair(v.init, u.init, u.base.states), 0, w, f, 0);
    hide IsProduct, Pair, Within;
    var p: nat, q: nat :| p in v.final && q < u.base.states && q !in u.final && f == Pair(p, q, u.base.states);
    ProductDrives(v.base, u.base, c, v.init, u.init, 0, w, p, q, 0);
  }

  lemma ProductFrame(v: Vca, u: Vca, c: Mvca)
    requires SameLetters(v, u) && IsProduct(v.base, u.base, c)
    ensures c.dir == v.base.dir && c.bound == Larger(v.base.bound, u.base.bound)
  {
  }

  lemma SplitsLow(v: Vca, u: Vca, c: Mvca, w: Word) returns (p: nat, q: nat)
    requires SameLetters(v, u) && IsProduct(v.base, u.base, c) && c.Valid() && Splits(v, u, w, c.bound)
    ensures p in v.final && q < u.base.states && q !in u.final
    ensures c.DrivesLow(Pair(v.init, u.init, u.base.states), 0, w, Pair(p, q, u.base.states), 0)
  {
    ProductFrame(v, u, c);
    hide IsProduct, Pair, Within;
    p, q :| p in v.final && q < u.base.states && q !in u.final
      && v.base.Drives(v.init, 0, w, p, 0) && u.base.Drives(u.init, 0, w, q, 0);
    ProductDrives(v.base, u.base, c, v.init, u.init, 0, w, p, q, 0);
    WithinTame(c, Pair(v.init, u.init, u.base.states), 0, w, Pair(p, q, u.base.states), 0);
  }

  /** A bad configuration of the product can be reached by tame steps exactly if a word within the bound splits. */
  lemma ReachExact(v: Vca, u: Vca, c: Mvca, added: set<(nat, nat)>)
    requires SameLetters(v, u) && IsProduct(v.base, u.base, c) && c.Valid() && BadAdded(v, u, added, v.base.states, 0)
    ensures CanReach(c, added, Pair(v.init, u.init, u.base.states), 0) <==> exists w :: Splits(v, u, w, c.bound)
  {
    hide IsProduct, Pair, Splits;
    var start := Pair(v.init, u.init, u.base.states);
    if CanReach(c, added, start, 0) {
      var w: Word, f: nat, k: nat :| (f, k) in added && c.DrivesLow(start, 0, w, f, k);
      LowSplits(v, u, c, w, f);
    }
    if w: Word :| Splits(v, u, w, c.bound) {
      var p, q := SplitsLow(v, u, c, w);
      assert (Pair(p, q, u.base.states), 0) in added;
    }
  }

  /** A word splits the completed automata exactly if it separates the languages. */
  lemma SplitsSeparates(v: Vca, u: Vca, v': Vca, s: nat, u': Vca, t: nat, w: Word, b: nat)
    requires Comparable(v, u) && Sturdy(v.base) && Sturdy(u.base) && v'.Valid() && u'.Valid()
    requires Completion(v, v', s) && Completion(u, u', t)
    ensures Splits(v', u', w, b) <==> Separating(v, u, w) && Within(v.base.dir, 0, w, b)
  {
    Frames(v, v', s);
    Frames(u, u', t);
    CompletionDeterministic(u, u', t);
    CompletionLanguage(v, v', s);
    CompletionLanguage(u, u', t);
    hide Within, Deterministic, Sturdy;
    if Splits(v', u', w, b) {
      var p: nat, q: nat :| p in v'.final && q < u'.base.states && q !in u'.final
        && v'.base.Drives(v'.init, 0, w, p, 0) && u'.base.Drives(u'.init, 0, w, q, 0);
      if u'.Accepts(w) {
        var r: nat :| r in u'.final && u'.base.Drives(u'.init, 0, w, r, 0);
        OneRun(u'.base, u'.init, 0, w, q, 0, r, 0);
      }
    }
    if Separating(v, u, w) && Within(v.base.dir, 0, w, b) {
      var p: nat :| p in v'.final && v'.base.Drives(v'.init, 0, w, p, 0);
      var q := RunExists(u, u', t, v'.base, v'.init, 0, w, p, 0, u'.init);
    }
  }

  /** No word within the bound separates. */
  ghost predicate IncludedLow(v: Vca, u: Vca)
    requires v.Valid() && u.Valid()
  {
    forall w :: v.Accepts(w) && Within(v.base.dir, 0, w, Larger(v.base.bound, u.base.bound)) ==> u.Accepts(w)
  }

  ghost predicate Included(v: Vca, u: Vca)
    requires v.Valid() && u.Valid()
  {
    forall w :: v.Accepts(w) ==> u.Accepts(w)
  }

  /** Compare the languages: complete both, and look for a run of the product into a bad configuration. */
  method LangSubsetOf(v: Vca, u: Vca)
    returns (subset: bool, counterexample: Word, ghost v': Vca, ghost s: nat, ghost u': Vca, ghost t: nat)
    requires Comparable(v, u)
    ensures v'.Valid() && u'.Valid() && Completion(v, v', s) && Completion(u, u', t)
    ensures !subset <==> exists w :: Splits(v', u', w, Larger(v.base.bound, u.base.bound))
    ensures if subset then counterexample == [] else Splits(v', u', counterexample, Larger(v.base.bound, u.base.bound))
    ensures Sturdy(v.base) && Sturdy(u.base) ==> (subset <==> IncludedLow(v, u))
    ensures Sturdy(v.base) && Sturdy(u.base) && !subset ==> Separating(v, u, counterexample)
    ensures Sturdy(v.base) && Sturdy(u.base) && NeverClimbs(v.base) ==> (subset <==> Included(v, u))
  {
    hide PAutomaton.Valid, Closed, BadAdded, IsProduct, Completion, CanReach, Within, Pair, Splits, Separating;
    var left, right;
    left, s := CompleteAutomaton(v);
    right, t := CompleteAutomaton(u);
    v', u' := left, right;
    Frames(v, v', s);
    Frames(u, u', t);
    var c := Crossproduct(left.base, right.base);
    SameFrame(v, u, v', s, u', t, c);
    ProductSize(left.base, right.base, c);
    var pa := Separator(left, right, c);
    PairBelow(left.init, right.init, left.base.states, right.base.states);
    var found;
    counterexample, found := pa.GetShortestValidRun(Pair(left.init, right.init, right.base.states), 0);
    subset := !found;
    ReachExact(v', u', c, pa.added);
    if found {
      ghost var f: nat, k: nat :| (f, k) in pa.added
        && c.DrivesLow(Pair(v'.init, u'.init, u'.base.states), 0, counterexample, f, k);
      AddedIsBad(v', u', pa.added, f, k);
      LowSplits(v', u', c, counterexample, f);
    }
    if Sturdy(v.base) && Sturdy(u.base) {
      SplitAnswer(v, u, v', s, u', t, subset, counterexample);
    }
  }

  /** Where completion keeps the languages the answer is about them. */
  lemma SplitAnswer(v: Vca, u: Vca, v': Vca, s: nat, u': Vca, t: nat, subset: bool, counterexample: Word)
    requires Comparable(v, u) && Sturdy(v.base) && Sturdy(u.base) && v'.Valid() && u'.Valid()
    requires Completion(v, v', s) && Completion(u, u', t)
    requires !subset <==> exists w :: Splits(v', u', w, Larger(v.base.bound, u.base.bound))
    requires !subset ==> Splits(v', u', counterexample, Larger(v.base.bound, u.base.bound))
    ensures subset <==> IncludedLow(v, u)
    ensures !subset ==> Separating(v, u, counterexample)
    ensures NeverClimbs(v.base) ==> (subset <==> Included(v, u))
  {
    hide Completion, Splits, Within, Sturdy, Separating, Deterministic, NeverClimbs, Included, IncludedLow;
    var b := Larger(v.base.bound, u.base.bound);
    forall w: Word
      ensures Splits(v', u', w, b) <==> Separating(v, u, w) && Within(v.base.dir, 0, w, b)
    {
      SplitsSeparates(v, u, v', s, u', t, w, b);
    }
    NoneSeparates(v, u);
    if NeverClimbs(v.base) {
      ClimbFree(v);
      LowIncluded(v, u);
    }
  }

  lemma NoneSeparates(v: Vca, u: Vca)
    requires v.Valid() && u.Valid()
    ensures IncludedLow(v, u) <==>
              !exists w :: Separating(v, u, w) && Within(v.base.dir, 0, w, Larger(v.base.bound, u.base.bound))
  {
    assert forall w :: Separating(v, u, w) <==> v.Accepts(w) && !u.Accepts(w);
  }

  lemma Frames(v: Vca, u: Vca, sink: nat)
    requires v.Valid() && Completion(v, u, sink)
    ensures u.base.letters == v.base.letters && u.base.dir == v.base.dir && u.init == v.init && u.final == v.final
  {
  }

  lemma AddedIsBad(v: Vca, u: Vca, added: set<(nat, nat)>, f: nat, k: nat)
    requires BadAdded(v, u, added, v.base.states, 0) && (f, k) in added
    ensures k == 0 && Bad(v, u, f)
  {
  }

  // ---- when the answer is right ----

  /** The counter of accepted words stays within the bound. */
  ghost predicate Low(v: Vca)
    requires v.Valid()
  {
    forall w :: v.Accepts(w) ==> Within(v.base.dir, 0, w, v.base.bound)
  }

  /** Without rules that count up from the bound all accepted words are low. */
  lemma ClimbFree(v: Vca)
    requires v.Valid() && NeverClimbs(v.base)
    ensures Low(v)
  {
    forall w: Word | v.Accepts(w)
      ensures Within(v.base.dir, 0, w, v.base.bound)
    {
      var q: nat :| q in v.final && v.base.Drives(v.init, 0, w, q, 0);
      DrivesTame(v.base, v.init, 0, w, q, 0);
      WithinTame(v.base, v.init, 0, w, q, 0);
    }
  }

  lemma LowIncluded(v: Vca, u: Vca)
    requires v.Valid() && u.Valid() && Low(v)
    ensures IncludedLow(v, u) <==> Included(v, u)
  {
    forall w: Word | v.Accepts(w)
      ensures Within(v.base.dir, 0, w, Larger(v.base.bound, u.base.bound))
    {
      WithinMore(v.base.dir, 0, w, v.base.bound, Larger(v.base.bound, u.base.bound));
    }
  }

  /** v without the rules that count up from the bound. */
  ghost function Capped(v: Vca): Vca
    requires v.Valid()
  {
    var a := v.base;
    v.(base := a.(delta := set t | t in a.delta && !(t.0 == a.bound && a.dir[t.2] == 1)))
  }

  lemma {:induction false} CappedRuns(v: Vca, p: nat, m: nat, w: Word, q: nat, k: nat)
    requires v.Valid() && m <= v.base.bound
    ensures Capped(v).Valid() && (Capped(v).base.Drives(p, m, w, q, k) <==> v.base.DrivesLow(p, m, w, q, k))
    decreases |w|
  {
    var a, c := v.base, Capped(v).base;
    if w != [] {
      if c.Drives(p, m, w, q, k) {
        var r: nat, j: nat :| c.Step(p, m, w[0], r, j) && c.Drives(r, j, w[1..], q, k);
        CappedRuns(v, r, j, w[1..], q, k);
        assert a.Step(p, m, w[0], r, j) && a.Tame(m, w[0]);
      }
      if a.DrivesLow(p, m, w, q, k) {
        var r: nat, j: nat :| a.Step(p, m, w[0], r, j) && a.Tame(m, w[0]) && a.DrivesLow(r, j, w[1..], q, k);
        CappedRuns(v, r, j, w[1..], q, k);
        assert c.Step(p, m, w[0], r, j);
      }
    }
  }

  /** The capped automaton accepts the low words. */
  lemma CappedLow(v: Vca, w: Word)
    requires v.Valid()
    ensures Capped(v).Valid() && (Capped(v).Accepts(w) <==> v.Accepts(w) && Within(v.base.dir, 0, w, v.base.bound))
  {
    CappedRuns(v, v.init, 0, [], v.init, 0);
    forall q
      ensures Capped(v).base.Drives(v.init, 0, w, q, 0)
              <==> v.base.Drives(v.init, 0, w, q, 0) && Within(v.base.dir, 0, w, v.base.bound)
    {
      CappedRuns(v, v.init, 0, w, q, 0);
      WithinTame(v.base, v.init, 0, w, q, 0);
    }
  }

  /** The answer about low words is right for all words. */
  ghost predicate AnswerRight(v: Vca, u: Vca)
    requires v.Valid() && u.Valid()
  {
    IncludedLow(v, u) <==> Included(v, u)
  }

  /** The answer is right for every automaton with no larger bound exactly if all accepted words are low. */
  lemma RightExact(v: Vca)
    requires v.Valid() && Deterministic(v.base)
    ensures Low(v) <==> forall u :: Comparable(v, u) && u.base.bound <= v.base.bound ==> AnswerRight(v, u)
  {
    if Low(v) {
      forall u | Comparable(v, u) && u.base.bound <= v.base.bound
        ensures AnswerRight(v, u)
      {
        LowIncluded(v, u);
      }
    } else {
      var w :| v.Accepts(w) && !Within(v.base.dir, 0, w, v.base.bound);
      var u := Capped(v);
      CappedLow(v, w);
      assert Comparable(v, u);
      forall x: Word
        ensures u.Accepts(x) <==> v.Accepts(x) && Within(v.base.dir, 0, x, v.base.bound)
      {
        CappedLow(v, x);
      }
      assert IncludedLow(v, u) && !Included(v, u);
    }
  }

  // ---- a sink that is left ----

  /** The bound is 0; the only rule counts down from 0 to 1, so it cannot be used at the counter 0. */
  ghost function Leaky(): Vca {
    Vca(Mvca(2, 2, 0, [1, -1], {(0, 0, 1, 1)}), 0, {1})
  }

  /** State 0 is taken for a sink, and completion makes the automaton accept a word. */
  lemma SinkLeft(u: Vca)
    requires Leaky().Valid() && Completion(Leaky(), u, 0) && u.Valid()
    ensures IsSink(Leaky(), 0) && (forall w :: !Leaky().Accepts(w)) && u.Accepts([0, 1])
  {
    var v := Leaky();
    forall w: Word
      ensures !v.Accepts(w)
    {
      LeakyStuck(w);
    }
    assert Covered(v, u.base.delta, 0, 0, 0);
    assert !HasRule(v.base.delta, 0, 0, 0);
    assert (0, 0, 0, 0) in u.base.delta && (0, 0, 1, 1) in u.base.delta;
    var none: Word := [];
    var one: Word := [1];
    var both: Word := [0, 1];
    assert u.base.Drives(1, 0, none, 1, 0);
    assert one[1..] == none && u.base.Step(0, 1, 1, 1, 0);
    assert u.base.Drives(0, 1, one, 1, 0);
    assert both[1..] == one && u.base.Step(0, 0, 0, 0, 1);
    assert u.base.Drives(0, 0, both, 1, 0);
  }

  lemma LeakyStuck(w: Word)
    requires Leaky().Valid()
    ensures !Leaky().Accepts(w)
  {
  }
}
