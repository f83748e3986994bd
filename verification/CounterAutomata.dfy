/** Automata with one counter, and pushdown systems that imitate them. */
module CounterAutomata {
  import opened Automata

  /** The level, the state, the letter and the next state. */
  type Rule = (nat, nat, nat, nat)

  /** Letters 0..letters-1 count up (1), down (-1) or stay (0); (l, p, a, q) in delta says that a leads from p to q
      at level l, and the level bound stands for all counter values from bound on. */
  datatype Mvca = Mvca(states: nat, letters: nat, bound: nat, dir: seq<int>, delta: set<Rule>)
  {
    ghost predicate Valid() {
      && |dir| == letters && (forall a :: 0 <= a < letters ==> -1 <= dir[a] <= 1)
      && (forall l, p, a, q :: (l, p, a, q) in delta ==> l <= bound && p < states && a < letters && q < states)
    }

    function Level(m: nat): nat {
      if m <= bound then m else bound
    }

    ghost predicate Step(q: nat, m: nat, a: nat, q': nat, m': nat)
      requires Valid()
    {
      a < letters && (Level(m), q, a, q') in delta && m' == m + dir[a]
    }

    /** The word w drives q with counter m to q' with counter m'. */
    ghost predicate Drives(q: nat, m: nat, w: Word, q': nat, m': nat)
      requires Valid()
      decreases |w|
    {
      if w == [] then q == q' && m == m'
      else exists r, k :: Step(q, m, w[0], r, k) && Drives(r, k, w[1..], q', m')
    }

    /** Counting up from a value below the bound, counting down with a bound that is not 0, or staying. */
    ghost predicate Tame(m: nat, a: nat)
      requires Valid() && a < letters
    {
      (dir[a] == 1 ==> m < bound) && (dir[a] == -1 ==> bound > 0)
    }

    /** The same with tame steps only. */
    ghost predicate DrivesLow(q: nat, m: nat, w: Word, q': nat, m': nat)
      requires Valid()
      decreases |w|
    {
      if w == [] then q == q' && m == m'
      else exists r, k :: Step(q, m, w[0], r, k) && Tame(m, w[0]) && DrivesLow(r, k, w[1..], q', m')
    }
  }

  lemma {:induction false} LowDrives(a: Mvca, q: nat, m: nat, w: Word, q': nat, m': nat)
    requires a.Valid() && a.DrivesLow(q, m, w, q', m')
    ensures a.Drives(q, m, w, q', m')
    decreases |w|
  {
    if w != [] {
      var r: nat, k: nat :| a.Step(q, m, w[0], r, k) && a.DrivesLow(r, k, w[1..], q', m');
      LowDrives(a, r, k, w[1..], q', m');
    }
  }

  // ---- when all runs are tame ----

  /** No rule of the level bound counts up, and none of level 0 counts at all if 0 is the bound. */
  ghost predicate NeverClimbs(a: Mvca)
    requires a.Valid()
  {
    forall p, x, q :: (a.bound, p, x, q) in a.delta ==> a.dir[x] != 1 && (a.bound == 0 ==> a.dir[x] == 0)
  }

  ghost predicate CanDrive(a: Mvca, q: nat, m: nat, q': nat, m': nat)
    requires a.Valid()
  {
    exists w :: a.Drives(q, m, w, q', m')
  }

  ghost predicate CanDriveLow(a: Mvca, q: nat, m: nat, q': nat, m': nat)
    requires a.Valid()
  {
    exists w :: a.DrivesLow(q, m, w, q', m')
  }

  lemma {:induction false} DrivesTame(a: Mvca, q: nat, m: nat, w: Word, q': nat, m': nat)
    requires a.Valid() && NeverClimbs(a) && a.Drives(q, m, w, q', m')
    ensures a.DrivesLow(q, m, w, q', m')
    decreases |w|
  {
    if w != [] {
      var r: nat, k: nat :| a.Step(q, m, w[0], r, k) && a.Drives(r, k, w[1..], q', m');
      DrivesTame(a, r, k, w[1..], q', m');
      assert a.Tame(m, w[0]);
    }
  }

  /** A tame run does not climb over the bound, and does not move if the bound is 0. */
  lemma {:induction false} LowStays(a: Mvca, q: nat, m: nat, w: Word, q': nat, m': nat)
    requires a.Valid() && a.DrivesLow(q, m, w, q', m')
    ensures m' <= m || m' <= a.bound
    ensures a.bound == 0 ==> m' == m
    decreases |w|
  {
    if w != [] {
      var r: nat, k: nat :| a.Step(q, m, w[0], r, k) && a.Tame(m, w[0]) && a.DrivesLow(r, k, w[1..], q', m');
      LowStays(a, r, k, w[1..], q', m');
    }
  }

  /** A rule of the level bound that moves the counter is a step that no tame run replaces. */
  lemma ClimbMissed(a: Mvca, p: nat, x: nat, q: nat, m: nat)
    requires a.Valid() && (a.bound, p, x, q) in a.delta && m >= a.bound && m + a.dir[x] >= 0
    requires (a.dir[x] == 1 && m == a.bound) || (a.bound == 0 && a.dir[x] != 0)
    ensures CanDrive(a, p, m, q, m + a.dir[x]) && !CanDriveLow(a, p, m, q, m + a.dir[x])
  {
    var k := m + a.dir[x];
    var w: Word := [x];
    assert w[1..] == [] && a.Step(p, m, w[0], q, k) && a.Drives(q, k, w[1..], q, k);
    assert a.Drives(p, m, w, q, k);
    if v :| a.DrivesLow(p, m, v, q, k) {
      LowStays(a, p, m, v, q, k);
    }
  }

  /** Tame runs are enough between all configurations exactly if the automaton never climbs. */
  lemma LowEnough(a: Mvca)
    requires a.Valid()
    ensures NeverClimbs(a) <==>
              forall q, m, q', m' :: CanDrive(a, q, m, q', m') ==> CanDriveLow(a, q, m, q', m')
  {
    if NeverClimbs(a) {
      forall q, m, q', m' | CanDrive(a, q, m, q', m')
        ensures CanDriveLow(a, q, m, q', m')
      {
        var w :| a.Drives(q, m, w, q', m');
        DrivesTame(a, q, m, w, q', m');
      }
    } else {
      var p, x, q :| (a.bound, p, x, q) in a.delta && (a.dir[x] == 1 || (a.bound == 0 && a.dir[x] != 0));
      ClimbMissed(a, p, x, q, if a.dir[x] == 1 then a.bound else 1);
    }
  }

  // ---- stacks ----

  type Stack = seq<int>

  /** The stack that stands for the counter value m. */
  function Config(bound: nat, m: int): (s: Stack)
    ensures |s| > 0
    decreases m - bound + 1
  {
    if m >= bound then [bound] + Config(bound, m - 1)
    else if m > 0 then [m, 0]
    else [0]
  }

  /** What replaces the symbol on top of the stack when the counter goes in the direction d. */
  function StackTop(top: int, bound: nat, d: int): Stack {
    var next := top + d;
    if top == 0 && next == 1 then [next, 0]
    else if top == 1 && next == 0 then []
    else if top == bound - 1 && next == bound then [next, bound - 1]
    else if top == bound && next == bound - 1 then []
    else if top == bound && next == bound + 1 then [next, bound]
    else [next]
  }

  lemma StackTopSymbols(top: nat, bound: nat, d: int)
    requires top + d >= 0
    ensures forall i :: 0 <= i < |StackTop(top, bound, d)| ==> StackTop(top, bound, d)[i] >= 0
  {
  }

  lemma {:induction false} ConfigTop(bound: nat, m: nat)
    ensures Config(bound, m)[0] == if m <= bound then m else bound
    ensures forall i :: 0 <= i < |Config(bound, m)| ==> 0 <= Config(bound, m)[i] <= bound
    decreases m
  {
    if m >= bound && m > 0 {
      ConfigTop(bound, m - 1);
    }
  }

  /** A tame step of the counter is a step of the stack. */
  lemma ConfigStep(bound: nat, m: nat, d: int)
    requires -1 <= d <= 1 && 0 <= m + d && (d == 1 ==> m < bound) && (d == -1 ==> bound > 0)
    ensures StackTop(if m <= bound then m else bound, bound, d) + Config(bound, m)[1..] == Config(bound, m + d)
  {
  }

  lemma ConfigUp(bound: nat, m: nat)
    requires m >= bound
    ensures StackTop(bound, bound, 1) != [] && StackTop(bound, bound, 1)[0] == bound + 1
  {
  }

  lemma {:induction false} ConfigLength(m: nat)
    ensures |Config(0, m)| == m + 2
  {
    if m > 0 {
      ConfigLength(m - 1);
    }
  }

  lemma {:induction false} ConfigInjective(bound: nat, m: nat, k: nat)
    requires Config(bound, m) == Config(bound, k)
    ensures m == k
    decreases m
  {
    ConfigTop(bound, m);
    ConfigTop(bound, k);
    if bound == 0 {
      ConfigLength(m);
      ConfigLength(k);
    } else if m >= bound && k >= bound {
      assert Config(bound, m)[1..] == Config(bound, m - 1) && Config(bound, k)[1..] == Config(bound, k - 1);
      ConfigInjective(bound, m - 1, k - 1);
    }
  }

  /** The pushdown system: the rule of the automaton at the level on top of the stack replaces the top. */
  ghost predicate PushStep(a: Mvca, q: nat, s: Stack, x: nat, q': nat, s': Stack)
    requires a.Valid()
  {
    && s != [] && s[0] >= 0 && x < a.letters && (s[0], q, x, q') in a.delta && s[0] + a.dir[x] >= 0
    && s' == StackTop(s[0], a.bound, a.dir[x]) + s[1..]
  }

  ghost predicate Derives(a: Mvca, q: nat, s: Stack, w: Word, q': nat, s': Stack)
    requires a.Valid()
    decreases |w|
  {
    if w == [] then q == q' && s == s'
    else exists r, t :: PushStep(a, q, s, w[0], r, t) && Derives(a, r, t, w[1..], q', s')
  }

  lemma {:induction false} DerivesConcat(a: Mvca, q: nat, s: Stack, u: Word, r: nat, t: Stack, v: Word, q': nat,
                                         s': Stack)
    requires a.Valid() && Derives(a, q, s, u, r, t) && Derives(a, r, t, v, q', s')
    ensures Derives(a, q, s, u + v, q', s')
    decreases |u|
  {
    if u == [] {
      assert u + v == v;
    } else {
      var p: nat, x: Stack :| PushStep(a, q, s, u[0], p, x) && Derives(a, p, x, u[1..], r, t);
      DerivesConcat(a, p, x, u[1..], r, t, v, q', s');
      assert (u + v)[0] == u[0] && (u + v)[1..] == u[1..] + v;
    }
  }

  /** What lies below stays below. */
  lemma {:induction false} DerivesBelow(a: Mvca, q: nat, s: Stack, w: Word, q': nat, s': Stack, below: Stack)
    requires a.Valid() && Derives(a, q, s, w, q', s')
    ensures Derives(a, q, s + below, w, q', s' + below)
    decreases |w|
  {
    if w != [] {
      var r: nat, t: Stack :| PushStep(a, q, s, w[0], r, t) && Derives(a, r, t, w[1..], q', s');
      DerivesBelow(a, r, t, w[1..], q', s', below);
      assert (s + below)[1..] == s[1..] + below;
      assert StackTop(s[0], a.bound, a.dir[w[0]]) + (s[1..] + below) == t + below;
      assert PushStep(a, q, s + below, w[0], r, t + below);
    }
  }

  /** A derivation between stacks of counter values is a run of the counter automaton with tame steps: behind a
      step that counts up from the bound the pushdown system is stuck. */
  lemma {:induction false} DerivesLow(a: Mvca, q: nat, m: nat, w: Word, q': nat, m': nat)
    requires a.Valid() && Derives(a, q, Config(a.bound, m), w, q', Config(a.bound, m'))
    ensures a.DrivesLow(q, m, w, q', m')
    decreases |w|
  {
    hide Config, StackTop;
    if w == [] {
      ConfigInjective(a.bound, m, m');
    } else {
      var s := Config(a.bound, m);
      var r: nat, t: Stack :| PushStep(a, q, s, w[0], r, t) && Derives(a, r, t, w[1..], q', Config(a.bound, m'));
      ConfigTop(a.bound, m);
      var d := a.dir[w[0]];
      if d == 1 && m >= a.bound {
        ConfigUp(a.bound, m);
        Stuck(a, r, t, w[1..], q', m');
      } else {
        ConfigStep(a.bound, m, d);
        DerivesLow(a, r, m + d, w[1..], q', m');
        assert a.Step(q, m, w[0], r, m + d);
      }
    }
  }

  lemma Stuck(a: Mvca, q: nat, s: Stack, w: Word, q': nat, m: nat)
    requires a.Valid() && s != [] && s[0] > a.bound
    ensures !Derives(a, q, s, w, q', Config(a.bound, m))
  {
    ConfigTop(a.bound, m);
  }
}
