/** The generator: it keeps the tables, draws a sequence and builds the automaton along it with a stack. */
module RandomGenerator {
  import opened Automata
  import opened RandomDraws
  import opened RandomSequences
  import opened DepthFirst
  import opened RandomAutomata
  import opened Visits

  /** The two stacks as one. */
  ghost function Zip(states: seq<nat>, labels: seq<nat>): (s: Stack)
    requires |states| == |labels|
    ensures |s| == |states| && forall i :: 0 <= i < |s| ==> s[i] == (states[i], labels[i])
  {
    seq(|states|, i requires 0 <= i < |states| => (states[i], labels[i]))
  }

  /** The transitions as triples of state, label and target. */
  ghost predicate Graph(edges: set<(nat, nat, nat)>, e: Edges) {
    forall q: nat, a: nat, t: nat :: (q, a, t) in edges <==> (q, a) in e && e[(q, a)] == t
  }

  lemma GraphStep(edges: set<(nat, nat, nat)>, e: Edges, k: (nat, nat), t: nat)
    requires Graph(edges, e) && k !in e
    ensures Graph(edges + {(k.0, k.1, t)}, e[k := t])
  {
  }

  /** The stacks and the transitions after the targets x. */
  ghost predicate At(m: nat, x: seq<nat>, states: seq<nat>, labels: seq<nat>, current: nat,
                     edges: set<(nat, nat, nat)>)
  {
    && m >= 2 && Walk(m, x) && |states| == |labels| && current == Current(x)
    && Popped(m, Zip(states, labels)) == Open(m, x)
    && Graph(edges, Known(m, x))
  }

  lemma StepKnown(m: nat, x: seq<nat>, q: nat)
    requires m >= 1 && Walk(m, x) && Open(m, x) != [] && q <= Current(x)
    ensures Walk(m, x + [q]) && Open(m, x + [q]) == After(m, Open(m, x), Current(x), q)
    ensures Current(x + [q]) == if q == Current(x) then Current(x) + 1 else Current(x)
    ensures Known(m, x + [q]) == Known(m, x)[Slot(m, x) := q] && Slot(m, x) !in Known(m, x)
  {
    WalkSound(m, x);
    SoundStep(m, x, q);
    WalkStep(m, x, q);
  }

  /** Children of the state on top that are done: go back. */
  method PopDone(m: nat, internal: seq<nat>, currentLabel: seq<nat>) returns (states: seq<nat>, labels: seq<nat>)
    requires |internal| == |currentLabel| && Popped(m, Zip(internal, currentLabel)) != []
    ensures |states| == |labels| && Zip(states, labels) == Popped(m, Zip(internal, currentLabel))
    ensures labels != [] && labels[|labels| - 1] < m
  {
    states, labels := internal, currentLabel;
    while labels[|labels| - 1] >= m
      invariant |states| == |labels| && Popped(m, Zip(states, labels)) == Popped(m, Zip(internal, currentLabel))
      invariant Zip(states, labels) != []
      decreases |labels|
    {
      var n := |labels| - 1;
      assert Zip(states, labels)[..n] == Zip(states[..n], labels[..n]);
      states, labels := states[..n], labels[..n];
    }
  }

  /** A transition of the state on top to a known state. */
  method AddLeaf(m: nat, ghost x: seq<nat>, internal: seq<nat>, currentLabel: seq<nat>, current: nat,
                 transitions: set<(nat, nat, nat)>, target: nat)
    returns (states: seq<nat>, labels: seq<nat>, edges: set<(nat, nat, nat)>)
    requires At(m, x, internal, currentLabel, current, transitions) && Open(m, x) != [] && target < current
    ensures At(m, x + [target], states, labels, current, edges)
  {
    states, labels := PopDone(m, internal, currentLabel);
    var n := |labels| - 1;
    edges := transitions + {(states[n], labels[n], target)};
    ghost var s := Zip(states, labels);
    labels := labels[n := labels[n] + 1];
    assert Zip(states, labels) == Advanced(s);
    StepKnown(m, x, target);
    hide Walk, Open, Known, Current, Graph;
    GraphStep(transitions, Known(m, x), Slot(m, x), target);
  }

  /** A transition of the state on top to a new state, which is worked on next. */
  method AddState(m: nat, ghost x: seq<nat>, internal: seq<nat>, currentLabel: seq<nat>, current: nat,
                  transitions: set<(nat, nat, nat)>)
    returns (states: seq<nat>, labels: seq<nat>, edges: set<(nat, nat, nat)>)
    requires At(m, x, internal, currentLabel, current, transitions)
    requires Open(m, x) != [] && currentLabel != [] && currentLabel[|currentLabel| - 1] < m
    ensures At(m, x + [current], states, labels, current + 1, edges)
    ensures labels != [] && labels[|labels| - 1] < m
  {
    states, labels := internal, currentLabel;
    var n := |labels| - 1;
    edges := transitions + {(states[n], labels[n], current)};
    ghost var s := Zip(states, labels);
    labels := labels[n := labels[n] + 1];
    assert Zip(states, labels) == Advanced(s);
    states, labels := states + [current], labels + [0];
    assert Zip(states, labels) == Advanced(s) + [(current, 0)];
    StepKnown(m, x, current);
    hide Walk, Open, Known, Current, Graph;
    GraphStep(transitions, Known(m, x), Slot(m, x), current);
  }

  /** New states until there are b of them. */
  method AddStates(m: nat, ghost x: seq<nat>, ghost i: nat, internal: seq<nat>, currentLabel: seq<nat>, current: nat,
                   transitions: set<(nat, nat, nat)>, b: nat)
    returns (states: seq<nat>, labels: seq<nat>, internalDone: nat, edges: set<(nat, nat, nat)>)
    requires At(m, x, internal, currentLabel, current, transitions) && Leaves(m, x, i) && i <= current * (m - 1)
    requires currentLabel != [] && currentLabel[|currentLabel| - 1] < m && current <= b
    ensures At(m, x + Fresh(current, b), states, labels, b, edges) && internalDone == b
  {
    states, labels, internalDone, edges := internal, currentLabel, current, transitions;
    FreshNone(current);
    assert x + [] == x;
    hide At;
    hide Fresh;
    hide Leaves;
    while b > internalDone
      invariant current <= internalDone <= b
      invariant At(m, x + Fresh(current, internalDone), states, labels, internalDone, edges)
      invariant labels != [] && labels[|labels| - 1] < m
    {
      ghost var y := x + Fresh(current, internalDone);
      AtCurrent(m, x, internal, currentLabel, current, transitions);
      FreshWalk(m, x, i, current, internalDone);
      LeafOpen(m, y, i, current);
      states, labels, edges := AddState(m, y, states, labels, internalDone, edges);
      internalDone := internalDone + 1;
      FreshStep(current, internalDone);
      assert x + Fresh(current, internalDone) == y + [internalDone - 1];
    }
  }

  lemma AtCurrent(m: nat, x: seq<nat>, states: seq<nat>, labels: seq<nat>, current: nat,
                  edges: set<(nat, nat, nat)>)
    requires At(m, x, states, labels, current, edges)
    ensures current == Current(x) && m >= 2 && Walk(m, x)
  {
  }

  lemma LeafOpen(m: nat, x: seq<nat>, i: nat, a: nat)
    requires m >= 1 && Leaves(m, x, i) && i <= a * (m - 1) && a <= Current(x)
    ensures Open(m, x) != []
  {
    RoomLeft(m, i, a, Current(x));
    OpenExact(m, x);
  }

  lemma RisingPrefix(m: nat, k: seq<nat>, n: nat)
    requires m >= 1 && Rising(m, k) && n <= |k|
    ensures Rising(m, k[..n])
  {
  }

  /** What holds before leaf number n. */
  lemma Ready(m: nat, k: seq<nat>, s: seq<nat>, n: nat)
    requires m >= 2 && Rising(m, k) && Below(s, k) && n < |k|
    ensures var x := Targets(k[..n], s[..n]);
      var c := Last(k[..n]);
      var y := x + Fresh(c, k[n]);
      && Leaves(m, x, n) && Current(x) == c <= k[n] && n <= c * (m - 1) && Open(m, x) != []
      && Walk(m, y) && Current(y) == k[n] && Open(m, y) != []
      && Targets(k[..n + 1], s[..n + 1]) == y + [s[n]] && s[n] < k[n] && Last(k[..n + 1]) == k[n]
  {
    RisingPrefix(m, k, n);
    RisingPrefix(m, k, n + 1);
    assert k[..n + 1][..n] == k[..n] && s[..n + 1][..n] == s[..n];
    RisingFront(m, k[..n + 1]);
    hide Rising;
    TargetsWalk(m, k[..n], s[..n]);
    var x := Targets(k[..n], s[..n]);
    var c := Last(k[..n]);
    LeafOpen(m, x, n, c);
    FreshWalk(m, x, n, c, k[n]);
    LeafOpen(m, x + Fresh(c, k[n]), n, c);
  }

  /** The transitions and final states are those of the automaton. */
  ghost predicate Matches(d: Dfa, final: set<nat>, transitions: set<(nat, nat, nat)>)
    requires d.Valid()
  {
    && (forall q: nat, a: nat, t: nat :: (q, a, t) in transitions <==>
          q < d.states && a < d.letters && d.delta[a + 1][q] == t)
    && (forall q: nat :: q in final <==> q < d.states && d.final[q])
  }

  lemma GraphMatches(m: nat, x: seq<nat>, bits: seq<bool>, final: set<nat>, transitions: set<(nat, nat, nat)>)
    requires m >= 2 && Complete(m, x) && |bits| == Current(x) && Graph(transitions, Known(m, x))
    requires forall q: nat :: q in final <==> q < |bits| && bits[q]
    ensures Auto(m, x, bits).Valid() && Matches(Auto(m, x, bits), final, transitions)
  {
    AutoEdge(m, x, bits, 0, 0);
    AutoStates(m, x, bits);
    WalkSound(m, x);
    var d := Auto(m, x, bits);
    forall q: nat, a: nat, t: nat
      ensures (q, a, t) in transitions <==> q < d.states && a < d.letters && d.delta[a + 1][q] == t
    {
      if q < d.states && a < d.letters {
        AutoEdge(m, x, bits, q, a);
      }
    }
  }

  lemma BuildStart(m: nat, n: nat, ret: seq<nat>, random: seq<nat>)
    requires m >= 2 && n >= 1 && IsK(m, n * (m - 1), n, ret) && |random| >= |ret| + 1
    requires Below(random[..|ret| + 1], ret + [n])
    ensures Drawn(m, n, ret, random[..|ret| + 1]) && Complete(m, Targets(ret + [n], random[..|ret| + 1]))
    ensures Rising(m, ret + [n])
  {
    DrawnRises(m, n, ret);
    DrawnComplete(m, n, ret, random[..|ret| + 1]);
  }

  lemma LastSize(m: nat, n: nat, i: nat, c: nat)
    requires m >= 2 && i == n * (m - 1) <= c * (m - 1) && c <= n
    ensures c == n
  {
    if c < n {
      Times(c + 1, n, m - 1);
    }
  }

  lemma AtStart(m: nat)
    requires m >= 2
    ensures At(m, Targets([], []), [0], [0], 1, {}) && Last([]) == 1
  {
    assert Zip([0], [0]) == [(0, 0)];
  }

  lemma AtGraph(m: nat, x: seq<nat>, states: seq<nat>, labels: seq<nat>, current: nat, edges: set<(nat, nat, nat)>)
    requires At(m, x, states, labels, current, edges)
    ensures Walk(m, x) && Graph(edges, Known(m, x))
  {
  }

  method Pop(m: nat, ghost x: seq<nat>, internal: seq<nat>, currentLabel: seq<nat>, ghost current: nat,
             ghost transitions: set<(nat, nat, nat)>)
    returns (states: seq<nat>, labels: seq<nat>)
    requires At(m, x, internal, currentLabel, current, transitions) && Open(m, x) != []
    ensures At(m, x, states, labels, current, transitions)
    ensures labels != [] && labels[|labels| - 1] < m
  {
    states, labels := PopDone(m, internal, currentLabel);
    assert Zip(states, labels)[|labels| - 1] == (states[|labels| - 1], labels[|labels| - 1]);
  }

  /** New states as the sequence says, and one more leaf; the last leaf is not part of the sequence. */
  method NextLeaf(m: nat, n: nat, ret: seq<nat>, random: seq<nat>, ni: nat, internal: seq<nat>,
                  currentLabel: seq<nat>, currentState: nat, transitions: set<(nat, nat, nat)>)
    returns (states: seq<nat>, labels: seq<nat>, internalDone: nat, edges: set<(nat, nat, nat)>, implicitDone: bool)
    requires m >= 2 && IsK(m, n * (m - 1), n, ret) && Rising(m, ret + [n])
    requires |random| >= |ret| + 1 && Below(random[..|ret| + 1], ret + [n]) && ni <= |ret|
    requires currentState == Last((ret + [n])[..ni])
    requires At(m, Targets((ret + [n])[..ni], random[..ni]), internal, currentLabel, currentState, transitions)
    ensures implicitDone <==> ni == |ret|
    ensures internalDone == Last((ret + [n])[..ni + 1])
    ensures At(m, Targets((ret + [n])[..ni + 1], random[..ni + 1]), states, labels, internalDone, edges)
  {
    hide *;
    ghost var k := ret + [n];
    ghost var x := Targets(k[..ni], random[..ni]);
    ghost var y := x + Fresh(currentState, k[ni]);
    ReadyRandom(m, k, random, ni);
    states, labels, internalDone, edges, implicitDone := internal, currentLabel, currentState, transitions, false;
    if ni < |ret| {
      states, labels := Pop(m, x, internal, currentLabel, currentState, transitions);
      states, labels, internalDone, edges :=
        AddStates(m, x, ni, states, labels, currentState, transitions, ret[ni]);
    } else {
      implicitDone := true;
      LastLeaf(m, n, ret, ni, currentState);
      assert y == x;
    }
    states, labels, edges := AddLeaf(m, y, states, labels, internalDone, edges, random[ni]);
  }

  /** The same for numbers of which there are more. */
  lemma ReadyRandom(m: nat, k: seq<nat>, random: seq<nat>, n: nat)
    requires m >= 2 && Rising(m, k) && n < |k| <= |random| && Below(random[..|k|], k)
    ensures var x := Targets(k[..n], random[..n]);
      var c := Last(k[..n]);
      var y := x + Fresh(c, k[n]);
      && Leaves(m, x, n) && Current(x) == c <= k[n] && n <= c * (m - 1) && Open(m, x) != []
      && Walk(m, y) && Current(y) == k[n] && Open(m, y) != []
      && Targets(k[..n + 1], random[..n + 1]) == y + [random[n]] && random[n] < k[n] && Last(k[..n + 1]) == k[n]
  {
    hide *;
    var s := random[..|k|];
    assert s[..n] == random[..n] && s[..n + 1] == random[..n + 1];
    Ready(m, k, s, n);
  }

  /** At the last leaf all states are there. */
  lemma LastLeaf(m: nat, n: nat, ret: seq<nat>, i: nat, c: nat)
    requires m >= 2 && IsK(m, n * (m - 1), n, ret) && i == |ret| <= c * (m - 1) && c <= n
    ensures c == n && Fresh(c, n) == []
  {
    LengthIs(m, n, ret);
    LastSize(m, n, i, c);
    FreshNone(n);
  }

  lemma LengthIs(m: nat, n: nat, k: seq<nat>)
    requires m >= 2 && IsK(m, n * (m - 1), n, k)
    ensures |k| == n * (m - 1)
  {
  }

  /** The automaton along the sequence. */
  method Build(m: nat, n: nat, ret: seq<nat>, random: seq<nat>) returns (transitions: set<(nat, nat, nat)>)
    requires m >= 2 && n >= 1 && IsK(m, n * (m - 1), n, ret) && |random| >= |ret| + 1
    requires Below(random[..|ret| + 1], ret + [n])
    ensures Drawn(m, n, ret, random[..|ret| + 1]) && Complete(m, Targets(ret + [n], random[..|ret| + 1]))
    ensures Graph(transitions, Known(m, Targets(ret + [n], random[..|ret| + 1])))
  {
    hide *;
    ghost var k := ret + [n];
    BuildStart(m, n, ret, random);
    AtStart(m);
    var internal, currentLabel, currentState, implicitDone := [0], [0], 1, false;
    transitions := {};
    var ni := 0;
    while !implicitDone || ni == |ret|
      invariant ni <= |ret| + 1 && (implicitDone <==> ni == |ret| + 1)
      invariant currentState == Last(k[..ni])
      invariant At(m, Targets(k[..ni], random[..ni]), internal, currentLabel, currentState, transitions)
      decreases |ret| + 1 - ni
    {
      internal, currentLabel, currentState, transitions, implicitDone :=
        NextLeaf(m, n, ret, random, ni, internal, currentLabel, currentState, transitions);
      ni := ni + 1;
    }
    assert k[..ni] == k && k[..0] == [] && random[..0] == [];
    AtGraph(m, Targets(k, random[..ni]), internal, currentLabel, currentState, transitions);
  }

  ghost predicate Accepted(alphabetSize: int, stateCount: int) {
    alphabetSize >= 2 && stateCount >= 1
  }

  /** The sequence that is drawn with the numbers in r. */
  ghost function Sequence(m: nat, n: nat, r: seq<nat>): seq<nat>
    requires Accepted(m, n) && SequenceAnswered(m, n, r)
  {
    LengthPositive(m, n);
    Follow(Choices(m, n * (m - 1), n), r)
  }

  ghost predicate SequenceAnswered(m: nat, n: nat, r: seq<nat>)
    requires Accepted(m, n)
  {
    LengthPositive(m, n);
    Answers(Choices(m, n * (m - 1), n), r)
  }

  /** Every number drawn is below its limit. */
  ghost predicate Answered(m: nat, n: nat, r: seq<nat>, random: seq<nat>)
    requires Accepted(m, n)
  {
    SequenceAnswered(m, n, r) && Below(random, Limits(Sequence(m, n, r), n))
  }

  /** The numbers of both sources together lead to the outcome that the automaton is built for. */
  lemma OutcomeDrawn(m: nat, n: nat, r: seq<nat>, random: seq<nat>)
    requires Accepted(m, n) && Answered(m, n, r, random)
    ensures Answers(Generation(m, n), r + random)
    ensures Follow(Generation(m, n), r + random) == (Sequence(m, n, r), random)
  {
    LengthPositive(m, n);
    var k := Sequence(m, n, r);
    PicksFollow(Limits(k, n), random);
    MapFollow(Picks(Limits(k, n)), Pair(k), random);
    ThenFollow(Choices(m, n * (m - 1), n), Rest(n), r, random);
  }

  /** A state is final if its bit is set. */
  method MarkFinal(n: nat, bits: seq<nat>) returns (final: set<nat>)
    requires |bits| == n
    ensures forall q: nat :: q in final <==> q < n && Finals(bits)[q]
  {
    final := {};
    for q := 0 to n
      invariant forall p: nat :: p in final <==> p < q && Finals(bits)[p]
    {
      if bits[q] != 0 {
        final := final + {q};
      }
    }
  }

  lemma BuiltMatches(m: nat, n: nat, k: seq<nat>, r: seq<nat>, final: set<nat>, transitions: set<(nat, nat, nat)>)
    requires m >= 2 && n >= 1 && Outcome(m, n, k, r) && |r| == |k| + 1 + n
    requires forall q: nat :: q in final <==> q < n && Finals(r[|k| + 1..])[q]
    requires Drawn(m, n, k, r[..|k| + 1]) && Complete(m, Targets(k + [n], r[..|k| + 1]))
    requires Graph(transitions, Known(m, Targets(k + [n], r[..|k| + 1])))
    ensures Built(m, n, k, r).Valid() && Matches(Built(m, n, k, r), final, transitions)
  {
    DrawnComplete(m, n, k, r[..|k| + 1]);
    GraphMatches(m, Targets(k + [n], r[..|k| + 1]), Finals(r[|k| + 1..]), final, transitions);
  }

  class Generator {
    var tables: map<nat, Table>

    ghost predicate Valid()
      reads this, tables.Values
    {
      forall m :: m in tables ==> tables[m].m == m && tables[m].Valid()
    }

    constructor ()
      ensures Valid() && tables == map[]
    {
      tables := map[];
    }

    /** The table for m, a new one when there is none. */
    method FindTable(m: nat) returns (table: Table)
      requires Valid() && m >= 2
      modifies this
      ensures Valid() && m in tables && tables[m] == table
      ensures forall t :: t in tables.Values ==> t in old(tables.Values) || fresh(t)
    {
      if m !in tables {
        table := new Table(m);
        tables := tables[m := table];
      }
      table := tables[m];
    }

    /** A random automaton, for the numbers that the two random sources give. */
    method Generate(alphabetSize: int, stateCount: int, r: seq<nat>, random: seq<nat>)
      returns (good: bool, final: set<nat>, transitions: set<(nat, nat, nat)>)
      requires Valid()
      requires Accepted(alphabetSize, stateCount) ==> Answered(alphabetSize, stateCount, r, random)
      modifies this, tables.Values
      ensures Valid()
      ensures good <==> Accepted(alphabetSize, stateCount)
      ensures !good ==> final == {} && transitions == {}
      ensures good ==> var k := Sequence(alphabetSize, stateCount, r);
                Outcome(alphabetSize, stateCount, k, random)
                && Built(alphabetSize, stateCount, k, random).Valid()
                && Matches(Built(alphabetSize, stateCount, k, random), final, transitions)
                && VisitedInOrder(Built(alphabetSize, stateCount, k, random), random[..|k| + 1], k + [stateCount])
      ensures good ==> var k := Sequence(alphabetSize, stateCount, r);
                forall q: nat :: q in final <==> q < stateCount && random[|k| + 1 + q] != 0
    {
      good, final, transitions := false, {}, {};
      if alphabetSize < 2 {
        return;
      }
      if stateCount < 1 {
        return;
      }
      var m: nat, n: nat := alphabetSize, stateCount;
      LengthPositive(m, n);
      var table := FindTable(m);
      var k := RandomElementOfK(table, n * (m - 1), n, r);
      FollowIsK(m, n * (m - 1), n, r);
      OutcomeSplit(m, n, k, random);
      transitions := Build(m, n, k, random);
      final := MarkFinal(n, random[|k| + 1..]);
      BuiltMatches(m, n, k, random, final, transitions);
      BuiltVisited(m, n, k, random);
      good := true;
    }
  }
}
