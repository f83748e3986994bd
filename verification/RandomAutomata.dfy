/** Random complete automata whose states can all be reached, each as likely as any other. */
module RandomAutomata {
  import opened Automata
  import opened RandomDraws
  import opened RandomSequences
  import opened DepthFirst

  // ---- sequences and targets ----

  /** The new states a, .., b - 1 one after the other. */
  ghost function Fresh(a: nat, b: nat): (s: seq<nat>)
    ensures |s| == if a <= b then b - a else 0
  {
    if a <= b then seq(b - a, i requires 0 <= i < b - a => a + i) else []
  }

  ghost function Last(k: seq<nat>): nat {
    if k == [] then 1 else k[|k| - 1]
  }

  /** Leaf number i comes when k[i] states are known, and s[i] is its target. */
  ghost function Targets(k: seq<nat>, s: seq<nat>): seq<nat>
    requires |s| == |k|
  {
    if k == [] then []
    else
      var n := |k| - 1;
      Targets(k[..n], s[..n]) + Fresh(Last(k[..n]), k[n]) + [s[n]]
  }

  /** Every leaf but the last leaves a transition open. */
  ghost predicate Rising(m: nat, k: seq<nat>)
    requires m >= 1
  {
    && (forall i :: 0 <= i < |k| ==> k[i] >= 1)
    && (forall i, j :: 0 <= i < j < |k| ==> k[i] <= k[j] && k[i] * (m - 1) >= i + 1)
  }

  /** The state of affairs after leaf number i. */
  ghost predicate Leaves(m: nat, x: seq<nat>, i: nat) {
    Walk(m, x) && |x| + 1 == i + Current(x)
  }

  lemma FreshStep(a: nat, b: nat)
    requires a < b
    ensures Fresh(a, b) == Fresh(a, b - 1) + [b - 1]
  {
  }

  lemma FreshNone(a: nat)
    ensures Fresh(a, a) == []
  {
  }

  lemma RoomLeft(m: nat, i: nat, a: nat, b: nat)
    requires m >= 1 && a <= b && i <= a * (m - 1)
    ensures i + b <= m * b
  {
    Times(a, b, m - 1);
    assert m * b == b * (m - 1) + b;
  }

  lemma {:induction false} FreshWalk(m: nat, x: seq<nat>, i: nat, a: nat, b: nat)
    requires m >= 1 && Leaves(m, x, i) && i <= a * (m - 1) && a == Current(x) <= b
    ensures Leaves(m, x + Fresh(a, b), i) && Current(x + Fresh(a, b)) == b
    decreases b
  {
    hide Walk;
    hide Open;
    hide Current;
    hide After;
    if a == b {
      assert x + Fresh(a, b) == x;
    } else {
      FreshWalk(m, x, i, a, b - 1);
      var y := x + Fresh(a, b - 1);
      RoomLeft(m, i, a, b - 1);
      OpenExact(m, y);
      WalkStep(m, y, b - 1);
      assert x + Fresh(a, b) == y + [b - 1];
    }
  }

  lemma LeafWalk(m: nat, x: seq<nat>, i: nat, q: nat)
    requires m >= 1 && Leaves(m, x, i) && i <= Current(x) * (m - 1) && q < Current(x)
    ensures Leaves(m, x + [q], i + 1) && Current(x + [q]) == Current(x)
  {
    RoomLeft(m, i, Current(x), Current(x));
    OpenExact(m, x);
    WalkStep(m, x, q);
  }

  /** The sequence without its last number. */
  lemma RisingFront(m: nat, k: seq<nat>)
    requires m >= 1 && Rising(m, k) && k != []
    ensures var n := |k| - 1;
      && Rising(m, k[..n]) && Last(k[..n]) <= k[n] && n <= Last(k[..n]) * (m - 1) <= k[n] * (m - 1)
  {
    var n := |k| - 1;
    if n > 0 {
      assert k[n - 1] <= k[n] && k[n - 1] * (m - 1) >= n;
    }
    Times(Last(k[..n]), k[n], m - 1);
  }

  lemma LeavesStart(m: nat)
    ensures Leaves(m, [], 0) && Current([]) == 1
  {
  }

  lemma {:induction false} TargetsWalk(m: nat, k: seq<nat>, s: seq<nat>)
    requires m >= 1 && Rising(m, k) && Below(s, k)
    ensures Leaves(m, Targets(k, s), |k|) && Current(Targets(k, s)) == Last(k)
    decreases |k|
  {
    hide Leaves;
    hide Current;
    hide Rising;
    hide Fresh;
    if k == [] {
      LeavesStart(m);
    } else {
      var n := |k| - 1;
      RisingFront(m, k);
      TargetsWalk(m, k[..n], s[..n]);
      var x := Targets(k[..n], s[..n]);
      var a := Last(k[..n]);
      FreshWalk(m, x, n, a, k[n]);
      LeafWalk(m, x + Fresh(a, k[n]), n, s[n]);
    }
  }

  // ---- and back ----

  /** How many states are known at every leaf. */
  ghost function Sizes(x: seq<nat>): seq<nat> {
    if x == [] then []
    else
      var u := x[..|x| - 1];
      if x[|u|] < Current(u) then Sizes(u) + [Current(u)] else Sizes(u)
  }

  /** The targets at the leaves. */
  ghost function Ends(x: seq<nat>): (s: seq<nat>)
    ensures |s| == |Sizes(x)|
  {
    if x == [] then []
    else
      var u := x[..|x| - 1];
      if x[|u|] < Current(u) then Ends(u) + [x[|u|]] else Ends(u)
  }

  lemma SizesStep(x: seq<nat>, q: nat)
    ensures Sizes(x + [q]) == if q < Current(x) then Sizes(x) + [Current(x)] else Sizes(x)
    ensures Ends(x + [q]) == if q < Current(x) then Ends(x) + [q] else Ends(x)
    ensures Current(x + [q]) == if q == Current(x) then Current(x) + 1 else Current(x)
  {
    assert (x + [q])[..|x|] == x;
  }

  lemma {:induction false} FreshSizes(x: seq<nat>, a: nat, b: nat)
    requires a == Current(x) <= b
    ensures Sizes(x + Fresh(a, b)) == Sizes(x) && Ends(x + Fresh(a, b)) == Ends(x) && Current(x + Fresh(a, b)) == b
    decreases b
  {
    hide *;
    if a == b {
      FreshNone(a);
      assert x + Fresh(a, b) == x;
    } else {
      FreshSizes(x, a, b - 1);
      FreshStep(a, b);
      SizesStep(x + Fresh(a, b - 1), b - 1);
      assert x + Fresh(a, b) == x + Fresh(a, b - 1) + [b - 1];
    }
  }

  lemma SizesStart()
    ensures Sizes([]) == [] && Ends([]) == [] && Current([]) == 1
  {
  }

  /** The targets tell the sequence and the ends. */
  lemma {:induction false} SizesOfTargets(m: nat, k: seq<nat>, s: seq<nat>)
    requires m >= 1 && Rising(m, k) && Below(s, k)
    ensures Sizes(Targets(k, s)) == k && Ends(Targets(k, s)) == s && Current(Targets(k, s)) == Last(k)
    decreases |k|
  {
    hide Sizes;
    hide Ends;
    hide Current;
    hide Fresh;
    hide Rising;
    if k == [] {
      SizesStart();
    } else {
      var n := |k| - 1;
      RisingFront(m, k);
      SizesOfTargets(m, k[..n], s[..n]);
      var x := Targets(k[..n], s[..n]);
      FreshSizes(x, Last(k[..n]), k[n]);
      SizesStep(x + Fresh(Last(k[..n]), k[n]), s[n]);
      assert k == k[..n] + [k[n]] && s == s[..n] + [s[n]];
    }
  }

  lemma TargetsLeaf(k: seq<nat>, s: seq<nat>, c: nat, q: nat)
    requires |k| == |s|
    ensures Targets(k + [c], s + [q]) == Targets(k, s) + Fresh(Last(k), c) + [q]
    ensures Fresh(Last(k + [c]), c) == []
  {
    assert (k + [c])[..|k|] == k && (s + [q])[..|s|] == s;
  }

  /** The sequence and the ends tell the targets. */
  lemma {:induction false} TargetsOfSizes(m: nat, x: seq<nat>)
    requires m >= 1 && Walk(m, x)
    ensures Last(Sizes(x)) <= Current(x) && Below(Ends(x), Sizes(x))
    ensures Targets(Sizes(x), Ends(x)) + Fresh(Last(Sizes(x)), Current(x)) == x
    decreases |x|
  {
    hide *;
    if x == [] {
      TargetsStart();
    } else {
      var u := x[..|x| - 1];
      var q := x[|u|];
      WalkSplit(m, x);
      TargetsOfSizes(m, u);
      assert x == u + [q];
      SizesStep(u, q);
      TargetsJoin(u, q);
    }
  }

  lemma TargetsStart()
    ensures Sizes([]) == [] && Ends([]) == [] && Current([]) == 1 && Last([]) == 1 && Below([], [])
    ensures Targets([], []) + Fresh(1, 1) == []
  {
  }

  lemma TargetsJoin(u: seq<nat>, q: nat)
    requires q <= Current(u) && Last(Sizes(u)) <= Current(u) && Below(Ends(u), Sizes(u))
    requires Targets(Sizes(u), Ends(u)) + Fresh(Last(Sizes(u)), Current(u)) == u
    ensures var x := u + [q];
      && Last(Sizes(x)) <= Current(x) && Below(Ends(x), Sizes(x))
      && Targets(Sizes(x), Ends(x)) + Fresh(Last(Sizes(x)), Current(x)) == x
  {
    hide Sizes;
    hide Ends;
    hide Current;
    hide Fresh;
    hide Targets;
    SizesStep(u, q);
    if q < Current(u) {
      TargetsLeaf(Sizes(u), Ends(u), Current(u), q);
    } else {
      FreshStep(Last(Sizes(u)), q + 1);
    }
  }

  lemma RoomUsed(m: nat, i: nat, c: nat)
    requires m >= 1 && i + c < m * c
    ensures i < c * (m - 1)
  {
    assert m * c == c * (m - 1) + c;
  }

  /** While transitions are open the sequence is one of those that are drawn. */
  lemma {:induction false} SizesRise(m: nat, x: seq<nat>)
    requires m >= 1 && Walk(m, x)
    ensures |x| + 1 == |Sizes(x)| + Current(x)
    ensures forall i :: 0 <= i < |Sizes(x)| ==> 1 <= Sizes(x)[i] <= Current(x)
    ensures forall i, j :: 0 <= i < j < |Sizes(x)| ==> Sizes(x)[i] <= Sizes(x)[j]
    ensures Open(m, x) != [] ==> forall i :: 0 <= i < |Sizes(x)| ==> Sizes(x)[i] * (m - 1) >= i + 1
    decreases |x|
  {
    hide Open;
    hide Walk;
    hide Sizes;
    hide Current;
    if x == [] {
      SizesStart();
    } else {
      var u := x[..|x| - 1];
      WalkSplit(m, x);
      SizesRise(m, u);
      OpenExact(m, x);
      assert x == u + [x[|u|]];
      SizesStep(u, x[|u|]);
      if Open(m, x) != [] && x[|u|] < Current(u) {
        RoomUsed(m, |Sizes(u)|, Current(u));
      }
    }
  }

  /** The sequence of n states and their leaves, the last leaf added. */
  ghost predicate Drawn(m: nat, n: nat, k: seq<nat>, s: seq<nat>)
    requires m >= 2
  {
    IsK(m, n * (m - 1), n, k) && Below(s, k + [n])
  }

  lemma FullLength(m: nat, n: nat)
    requires m >= 1
    ensures n * (m - 1) + n == m * n
  {
  }

  lemma DrawnRises(m: nat, n: nat, k: seq<nat>)
    requires m >= 2 && IsK(m, n * (m - 1), n, k)
    ensures Rising(m, k + [n]) || n == 0
  {
  }

  /** What is drawn is a complete automaton with n states. */
  lemma DrawnComplete(m: nat, n: nat, k: seq<nat>, s: seq<nat>)
    requires m >= 2 && n >= 1 && Drawn(m, n, k, s)
    ensures Complete(m, Targets(k + [n], s)) && Current(Targets(k + [n], s)) == n
  {
    DrawnRises(m, n, k);
    TargetsWalk(m, k + [n], s);
    FullLength(m, n);
    OpenExact(m, Targets(k + [n], s));
  }

  lemma LastIsLeaf(m: nat, x: seq<nat>)
    requires m >= 1 && Complete(m, x)
    ensures x != [] && x[|x| - 1] < Current(x[..|x| - 1])
  {
  }

  /** Every complete automaton with n states is drawn. */
  lemma CompleteDrawn(m: nat, n: nat, x: seq<nat>) returns (k: seq<nat>, s: seq<nat>)
    requires m >= 2 && Complete(m, x) && Current(x) == n
    ensures Drawn(m, n, k, s) && Targets(k + [n], s) == x
  {
    hide *;
    LastIsLeaf(m, x);
    CompleteLength(m, x);
    WalkSplit(m, x);
    var u := x[..|x| - 1];
    var q := x[|u|];
    SizesRise(m, u);
    TargetsOfSizes(m, x);
    assert x == u + [q];
    SizesStep(u, q);
    k, s := Sizes(u), Ends(x);
    FullLength(m, n);
    FreshNone(n);
    LastJoin(k, n);
    assert Targets(k + [n], s) + [] == Targets(k + [n], s);
    DrawnJoin(m, n, k, s);
  }

  lemma DrawnJoin(m: nat, n: nat, k: seq<nat>, s: seq<nat>)
    requires m >= 2 && |k| == n * (m - 1) && Below(s, k + [n])
    requires forall i :: 0 <= i < |k| ==> 1 <= k[i] <= n && k[i] * (m - 1) >= i + 1
    requires forall i, j :: 0 <= i < j < |k| ==> k[i] <= k[j]
    ensures Drawn(m, n, k, s)
  {
  }

  lemma CompleteLength(m: nat, x: seq<nat>)
    requires m >= 1 && Complete(m, x)
    ensures Walk(m, x) && |x| == m * Current(x)
  {
    OpenExact(m, x);
  }

  lemma LastJoin(k: seq<nat>, n: nat)
    ensures Last(k + [n]) == n
  {
  }

  // ---- the outcomes ----

  ghost function Twos(n: nat): (s: seq<nat>)
    ensures |s| == n && forall i :: 0 <= i < n ==> s[i] == 2
  {
    seq(n, i => 2)
  }

  ghost function PowerOfTwo(n: nat): nat {
    if n == 0 then 1 else PowerOfTwo(n - 1) * 2
  }

  /** Below which numbers the targets of the leaves and the marks of the final states are drawn. */
  ghost function Limits(k: seq<nat>, n: nat): (s: seq<nat>)
    ensures |s| == |k| + 1 + n
  {
    k + [n] + Twos(n)
  }

  /** A sequence, the targets of the leaves, and a bit for every state. */
  ghost predicate Outcome(m: nat, n: nat, k: seq<nat>, r: seq<nat>)
    requires m >= 2
  {
    IsK(m, n * (m - 1), n, k) && Below(r, Limits(k, n))
  }

  ghost function Finals(r: seq<nat>): (s: seq<bool>)
    ensures |s| == |r| && forall q :: 0 <= q < |r| ==> s[q] == (r[q] != 0)
  {
    seq(|r|, q requires 0 <= q < |r| => r[q] != 0)
  }

  lemma OutcomeSplit(m: nat, n: nat, k: seq<nat>, r: seq<nat>)
    requires m >= 2 && Outcome(m, n, k, r)
    ensures |r| == |k| + 1 + n && Drawn(m, n, k, r[..|k| + 1])
    ensures forall q :: |k| + 1 <= q < |r| ==> r[q] < 2
  {
    var l := Limits(k, n);
    assert forall i :: 0 <= i < |k| + 1 ==> l[i] == (k + [n])[i];
    assert forall q :: |k| + 1 <= q < |r| ==> l[q] == Twos(n)[q - |k| - 1];
  }

  /** The automaton of the outcome. */
  ghost function Built(m: nat, n: nat, k: seq<nat>, r: seq<nat>): Dfa
    requires m >= 2 && n >= 1 && Outcome(m, n, k, r)
  {
    OutcomeSplit(m, n, k, r);
    DrawnComplete(m, n, k, r[..|k| + 1]);
    Auto(m, Targets(k + [n], r[..|k| + 1]), Finals(r[|k| + 1..]))
  }

  /** Whatever is drawn, the automaton is complete, has n states, and all of them can be reached. */
  lemma BuiltReachable(m: nat, n: nat, k: seq<nat>, r: seq<nat>)
    requires m >= 2 && n >= 1 && Outcome(m, n, k, r)
    ensures var d := Built(m, n, k, r); d.Valid() && d.AllReachable() && d.states == n && d.letters == m && d.init == 0
  {
    OutcomeSplit(m, n, k, r);
    DrawnComplete(m, n, k, r[..|k| + 1]);
    AutoReachable(m, Targets(k + [n], r[..|k| + 1]), Finals(r[|k| + 1..]));
    AutoStates(m, Targets(k + [n], r[..|k| + 1]), Finals(r[|k| + 1..]));
  }

  /** The automaton of the outcome is d up to the names of the states. */
  ghost predicate Describes(d: Dfa, k: seq<nat>, r: seq<nat>)
    requires d.Valid() && d.letters >= 2
  {
    && Outcome(d.letters, d.states, k, r) && Built(d.letters, d.states, k, r).Valid()
    && exists f :: Renames(f, Built(d.letters, d.states, k, r), d)
  }

  /** Every complete automaton whose states can all be reached is an outcome, up to the names of its states. */
  lemma EveryAutomaton(d: Dfa) returns (k: seq<nat>, r: seq<nat>, f: seq<nat>)
    requires d.Valid() && d.letters >= 2 && d.AllReachable()
    ensures Outcome(d.letters, d.states, k, r) && Built(d.letters, d.states, k, r).Valid()
    ensures Renames(f, Built(d.letters, d.states, k, r), d)
  {
    var m, n := d.letters, d.states;
    var x, final, g := Written(d);
    var l, s := CompleteDrawn(m, n, x);
    k, f := l, g;
    var bits := seq(n, q requires 0 <= q < n => if final[q] then 1 else 0);
    r := s + bits;
    assert r[..|k| + 1] == s && r[|k| + 1..] == bits;
    assert Finals(bits) == final;
    OutcomeJoin(m, n, k, s, bits);
  }

  lemma OutcomeJoin(m: nat, n: nat, k: seq<nat>, s: seq<nat>, bits: seq<nat>)
    requires m >= 2 && Drawn(m, n, k, s) && |bits| == n && forall q :: 0 <= q < n ==> bits[q] < 2
    ensures Outcome(m, n, k, s + bits)
  {
    var l := Limits(k, n);
    forall i | 0 <= i < |l|
      ensures (s + bits)[i] < l[i]
    {
      if i < |k| + 1 {
        assert l[i] == (k + [n])[i];
      } else {
        assert l[i] == Twos(n)[i - |k| - 1];
      }
    }
  }

  lemma TargetsTold(m: nat, n: nat, k: seq<nat>, s: seq<nat>)
    requires m >= 2 && n >= 1 && Drawn(m, n, k, s)
    ensures Complete(m, Targets(k + [n], s)) && Current(Targets(k + [n], s)) == n
    ensures Sizes(Targets(k + [n], s)) == k + [n] && Ends(Targets(k + [n], s)) == s
  {
    DrawnComplete(m, n, k, s);
    DrawnRises(m, n, k);
    hide Rising, IsK, Targets, Complete, Sizes, Ends;
    SizesOfTargets(m, k + [n], s);
  }

  lemma BuiltIs(m: nat, n: nat, k: seq<nat>, r: seq<nat>)
    requires m >= 2 && n >= 1 && Outcome(m, n, k, r) && |r| >= |k| + 1
    requires Complete(m, Targets(k + [n], r[..|k| + 1]))
    ensures Built(m, n, k, r) == Auto(m, Targets(k + [n], r[..|k| + 1]), Finals(r[|k| + 1..]))
  {
    hide Outcome, Targets, Auto, Finals;
  }

  /** What the automaton tells about its outcome. */
  lemma OutcomeTold(m: nat, n: nat, k: seq<nat>, r: seq<nat>) returns (x: seq<nat>, b: seq<nat>)
    requires m >= 2 && n >= 1 && Outcome(m, n, k, r)
    ensures Complete(m, x) && Current(x) == n == |b| && Built(m, n, k, r) == Auto(m, x, Finals(b))
    ensures Sizes(x) == k + [n] && r == Ends(x) + b && forall q :: 0 <= q < |b| ==> b[q] < 2
  {
    hide *;
    OutcomeSplit(m, n, k, r);
    var s := r[..|k| + 1];
    x, b := Targets(k + [n], s), r[|k| + 1..];
    TargetsTold(m, n, k, s);
    BuiltIs(m, n, k, r);
    assert r == s + b;
  }

  /** Different outcomes are different automata, even up to the names of their states. */
  lemma OnlyOnce(m: nat, n: nat, k: seq<nat>, r: seq<nat>, k': seq<nat>, r': seq<nat>, f: seq<nat>)
    requires m >= 2 && n >= 1 && Outcome(m, n, k, r) && Outcome(m, n, k', r')
    requires Built(m, n, k, r).Valid() && Built(m, n, k', r').Valid()
    requires Renames(f, Built(m, n, k, r), Built(m, n, k', r'))
    ensures k == k' && r == r'
  {
    hide *;
    var x, b := OutcomeTold(m, n, k, r);
    var x', b' := OutcomeTold(m, n, k', r');
    Unique(m, x, Finals(b), x', Finals(b'), f);
    assert k == (k + [n])[..|k|] && k' == (k' + [n])[..|k'|];
    SameBits(b, b');
  }

  /** Every complete automaton with reachable states belongs to exactly one outcome. */
  lemma ExactlyOnce(d: Dfa) returns (k: seq<nat>, r: seq<nat>)
    requires d.Valid() && d.letters >= 2 && d.AllReachable()
    ensures Describes(d, k, r)
    ensures forall k', r' :: Describes(d, k', r') ==> k' == k && r' == r
  {
    var l, s, f := EveryAutomaton(d);
    k, r := l, s;
    forall k', r' | Describes(d, k', r')
      ensures k' == k && r' == r
    {
      var g :| Renames(g, Built(d.letters, d.states, k', r'), d);
      var h := Renamed(g, Built(d.letters, d.states, k', r'), f, Built(d.letters, d.states, k, r), d);
      OnlyOnce(d.letters, d.states, k', r', k, r, h);
    }
  }

  lemma SameBits(b: seq<nat>, c: seq<nat>)
    requires Finals(b) == Finals(c)
    requires (forall q :: 0 <= q < |b| ==> b[q] < 2) && (forall q :: 0 <= q < |c| ==> c[q] < 2)
    ensures b == c
  {
    forall q | 0 <= q < |b|
      ensures b[q] == c[q]
    {
      assert Finals(b)[q] == Finals(c)[q];
    }
  }

  // ---- every outcome is equally likely ----

  ghost function Pair(k: seq<nat>): seq<nat> -> (seq<nat>, seq<nat>) {
    r => (k, r)
  }

  ghost function Rest(n: nat): seq<nat> -> Draws<(seq<nat>, seq<nat>)> {
    k => Map(Picks(Limits(k, n)), Pair(k))
  }

  lemma LengthPositive(m: nat, n: nat)
    requires m >= 2 && n >= 1
    ensures n * (m - 1) >= 1
  {
    Times(1, n, m - 1);
  }

  /** All that is drawn: the sequence, the targets of the leaves and the final states. */
  ghost function Generation(m: nat, n: nat): Draws<(seq<nat>, seq<nat>)>
    requires m >= 2 && n >= 1
  {
    LengthPositive(m, n);
    Then(Choices(m, n * (m - 1), n), Rest(n))
  }

  lemma {:induction false} TwosWeight(n: nat)
    ensures Weight(Twos(n)) == PowerOfTwo(n)
  {
    if n > 0 {
      TwosWeight(n - 1);
      assert Twos(n)[..n - 1] == Twos(n - 1);
    }
  }

  lemma LimitsWeight(k: seq<nat>, n: nat)
    ensures Weight(Limits(k, n)) == Weight(k) * (n * PowerOfTwo(n))
  {
    TwosWeight(n);
    WeightOne(n);
    WeightConcat([n], Twos(n));
    WeightConcat(k, [n] + Twos(n));
    assert Limits(k, n) == k + ([n] + Twos(n));
  }

  lemma RestChance(n: nat, k: seq<nat>, r: seq<nat>, u: seq<nat>)
    ensures Chance(Rest(n)(u), (k, r)) == if u == k then Chance(Picks(Limits(k, n)), r) else 0.0
  {
    if u == k {
      assert Pair(k)(r) == (k, r);
      MapChance(Picks(Limits(k, n)), Pair(k), r);
    } else {
      MapMissed(Picks(Limits(u, n)), Pair(u), r, (k, r));
    }
  }

  lemma Chances(c: nat, l: nat, w: nat, v: nat, n: nat, a: real, b: real, p: real)
    requires Copies(c, a) == w as real && Copies(v, b) == 1.0 && v == w * l && n == c * l && p == a * b
    ensures Copies(n, p) == 1.0
  {
    calc {
      Copies(n, p);
    ==
      ((c as real) * (l as real)) * (a * b);
    ==
      ((c as real) * a) * ((l as real) * b);
    ==
      (w as real) * ((l as real) * b);
    ==
      ((w * l) as real) * b;
    ==
      1.0;
    }
  }

  lemma GenerationChance(m: nat, n: nat, k: seq<nat>, r: seq<nat>) returns (a: real, b: real)
    requires m >= 2 && n >= 1 && n * (m - 1) >= 1
    ensures a == Chance(Choices(m, n * (m - 1), n), k) && b == Chance(Picks(Limits(k, n)), r)
    ensures Chance(Generation(m, n), (k, r)) == a * b
  {
    hide *;
    a, b := Chance(Choices(m, n * (m - 1), n), k), Chance(Picks(Limits(k, n)), r);
    forall u | u != k
      ensures Chance(Rest(n)(u), (k, r)) == 0.0
    {
      RestChance(n, k, r, u);
    }
    RestChance(n, k, r, k);
    ThenChance(Choices(m, n * (m - 1), n), Rest(n), k, (k, r));
    GenerationIs(m, n);
  }

  lemma GenerationIs(m: nat, n: nat)
    requires m >= 2 && n >= 1 && n * (m - 1) >= 1
    ensures Generation(m, n) == Then(Choices(m, n * (m - 1), n), Rest(n))
  {
  }

  /** The number of outcomes. */
  ghost function Outcomes(m: nat, n: nat): nat
    requires m >= 2 && n >= 1
  {
    LengthPositive(m, n);
    C(m, n * (m - 1), n) * (n * PowerOfTwo(n))
  }

  lemma OutcomeShare(m: nat, n: nat, k: seq<nat>, r: seq<nat>)
    requires m >= 2 && n >= 1 && Outcome(m, n, k, r)
    ensures n * (m - 1) >= 1 && Share(m, n * (m - 1), n, k) == Weight(k) && Below(r, Limits(k, n))
    ensures Outcomes(m, n) == C(m, n * (m - 1), n) * (n * PowerOfTwo(n))
  {
    LengthPositive(m, n);
  }

  /** Every outcome has the same chance: one in the number of all outcomes. */
  lemma EquallyLikely(m: nat, n: nat, k: seq<nat>, r: seq<nat>)
    requires m >= 2 && n >= 1 && Outcome(m, n, k, r)
    ensures Copies(Outcomes(m, n), Chance(Generation(m, n), (k, r))) == 1.0
  {
    hide *;
    OutcomeShare(m, n, k, r);
    ChanceExact(m, n * (m - 1), n, k);
    PicksChance(Limits(k, n), r);
    LimitsWeight(k, n);
    var a, b := GenerationChance(m, n, k, r);
    Chances(C(m, n * (m - 1), n), n * PowerOfTwo(n), Weight(k), Weight(Limits(k, n)), Outcomes(m, n), a, b,
            Chance(Generation(m, n), (k, r)));
  }
}
