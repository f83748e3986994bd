/** Complete automata written down as the targets of their transitions in depth-first order: every automaton whose
    states can all be reached is written down in exactly one way, up to the names of its states. */
module DepthFirst {
  import opened Automata

  /** States with the number of their transitions that are known, the state worked on last. */
  type Stack = seq<(nat, nat)>

  type Edges = map<(nat, nat), nat>

  /** The transition with label a of state q is still to come. */
  ghost predicate Waits(s: Stack, q: nat, a: nat) {
    exists i :: 0 <= i < |s| && s[i].0 == q && s[i].1 <= a
  }

  ghost predicate HasParent(e: Edges, q: nat) {
    exists p: nat, a: nat :: p < q && (p, a) in e && e[(p, a)] == q
  }

  /** The stack holds different known states. */
  ghost predicate Placed(m: nat, s: Stack, c: nat) {
    && (forall i :: 0 <= i < |s| ==> s[i].0 < c && s[i].1 <= m)
    && (forall i, j :: 0 <= i < j < |s| ==> s[i].0 != s[j].0)
  }

  /** An edge of a known state is known or to come, never both. */
  ghost predicate Covers(m: nat, s: Stack, c: nat, e: Edges) {
    forall q: nat, a: nat :: (q, a) in e <==> q < c && a < m && !Waits(s, q, a)
  }

  ghost predicate Inside(c: nat, e: Edges) {
    forall k :: k in e ==> e[k] < c
  }

  ghost predicate Parents(c: nat, e: Edges) {
    forall q: nat :: 0 < q < c ==> HasParent(e, q)
  }

  /** The stack belongs to the edges that are known between c states. */
  ghost predicate Fits(m: nat, s: Stack, c: nat, e: Edges) {
    Placed(m, s, c) && Covers(m, s, c, e) && Inside(c, e) && Parents(c, e)
  }

  /** How many transitions are to come for the states on the stack. */
  ghost function Left(m: nat, s: Stack): int {
    if s == [] then 0 else Left(m, s[..|s| - 1]) + m - s[|s| - 1].1
  }

  /** Without the states on top that are done. */
  ghost function Popped(m: nat, s: Stack): Stack {
    if s != [] && s[|s| - 1].1 >= m then Popped(m, s[..|s| - 1]) else s
  }

  ghost function Advanced(s: Stack): Stack
    requires s != []
  {
    s[..|s| - 1] + [(s[|s| - 1].0, s[|s| - 1].1 + 1)]
  }

  /** The stack after a transition to state q where c states are known. */
  ghost function After(m: nat, s: Stack, c: nat, q: nat): Stack
    requires s != []
  {
    if q == c then Advanced(s) + [(c, 0)] else Popped(m, Advanced(s))
  }

  lemma WaitsBelow(m: nat, s: Stack, q: nat, a: nat)
    requires s != [] && s[|s| - 1].1 >= m && a < m
    ensures Waits(s, q, a) <==> Waits(s[..|s| - 1], q, a)
  {
    var r := s[..|s| - 1];
    if Waits(s, q, a) {
      var i :| 0 <= i < |s| && s[i].0 == q && s[i].1 <= a;
      assert r[i] == s[i];
    }
    if Waits(r, q, a) {
      var i :| 0 <= i < |r| && r[i].0 == q && r[i].1 <= a;
      assert s[i] == r[i];
    }
  }

  lemma {:induction false} PoppedFits(m: nat, s: Stack, c: nat, e: Edges)
    requires Placed(m, s, c) && Covers(m, s, c, e)
    ensures Placed(m, Popped(m, s), c) && Covers(m, Popped(m, s), c, e)
    ensures Left(m, Popped(m, s)) == Left(m, s)
    ensures var r := Popped(m, s); r != [] ==> r[|r| - 1].1 < m
    decreases |s|
  {
    if s != [] && s[|s| - 1].1 >= m {
      var r := s[..|s| - 1];
      assert Covers(m, r, c, e) by {
        forall q: nat, a: nat
          ensures (q, a) in e <==> q < c && a < m && !Waits(r, q, a)
        {
          if a < m {
            WaitsBelow(m, s, q, a);
          }
        }
      }
      PoppedFits(m, r, c, e);
    }
  }

  lemma WaitsAdvanced(s: Stack, q: nat, a: nat)
    requires s != [] && forall i, j :: 0 <= i < j < |s| ==> s[i].0 != s[j].0
    ensures Waits(Advanced(s), q, a) <==> Waits(s, q, a) && (q, a) != s[|s| - 1]
    ensures Waits(s, s[|s| - 1].0, s[|s| - 1].1)
  {
    var r := Advanced(s);
    if Waits(s, q, a) && (q, a) != s[|s| - 1] {
      var i :| 0 <= i < |s| && s[i].0 == q && s[i].1 <= a;
      assert r[i].0 == q && r[i].1 <= a;
    }
    if Waits(r, q, a) {
      var i :| 0 <= i < |r| && r[i].0 == q && r[i].1 <= a;
      assert s[i].0 == q && s[i].1 <= a;
    }
  }

  lemma AdvancedFits(m: nat, s: Stack, c: nat, e: Edges, t: nat)
    requires Placed(m, s, c) && Covers(m, s, c, e) && s != [] && s[|s| - 1].1 < m
    ensures s[|s| - 1] !in e
    ensures Placed(m, Advanced(s), c) && Covers(m, Advanced(s), c, e[s[|s| - 1] := t])
    ensures Left(m, Advanced(s)) == Left(m, s) - 1
  {
    var n := |s| - 1;
    WaitsAdvanced(s, s[n].0, s[n].1);
    assert Covers(m, Advanced(s), c, e[s[n] := t]) by {
      forall q: nat, a: nat
        ensures (q, a) in e[s[n] := t] <==> q < c && a < m && !Waits(Advanced(s), q, a)
      {
        WaitsAdvanced(s, q, a);
        hide Waits;
      }
    }
    assert Advanced(s)[..n] == s[..n];
  }

  lemma EdgeAdded(c: nat, e: Edges, k: (nat, nat), t: nat)
    requires Inside(c, e) && Parents(c, e) && k !in e && k.0 < c && t <= c
    ensures var d := if t == c then c + 1 else c; Inside(d, e[k := t]) && Parents(d, e[k := t])
  {
    var f := e[k := t];
    forall q: nat | 0 < q < (if t == c then c + 1 else c)
      ensures HasParent(f, q)
    {
      if q == c {
        assert (k.0, k.1) in f && f[(k.0, k.1)] == q;
      } else {
        assert HasParent(e, q);
        var p: nat, a: nat :| p < q && (p, a) in e && e[(p, a)] == q;
        assert (p, a) in f && f[(p, a)] == q;
      }
    }
  }

  lemma WaitsPushed(s: Stack, c: nat, q: nat, a: nat)
    ensures Waits(s + [(c, 0)], q, a) <==> Waits(s, q, a) || q == c
  {
    var r := s + [(c, 0)];
    if Waits(s, q, a) {
      var i :| 0 <= i < |s| && s[i].0 == q && s[i].1 <= a;
      assert r[i] == s[i];
    }
    if q == c {
      assert r[|s|] == (c, 0);
    }
    if Waits(r, q, a) && q != c {
      var i :| 0 <= i < |r| && r[i].0 == q && r[i].1 <= a;
      assert s[i] == r[i];
    }
  }

  /** A state seen for the first time is worked on next. */
  lemma PushedFits(m: nat, s: Stack, c: nat, e: Edges)
    requires Placed(m, s, c) && Covers(m, s, c, e)
    ensures Placed(m, s + [(c, 0)], c + 1) && Covers(m, s + [(c, 0)], c + 1, e)
    ensures Left(m, s + [(c, 0)]) == Left(m, s) + m
  {
    assert Covers(m, s + [(c, 0)], c + 1, e) by {
      forall q: nat, a: nat
        ensures (q, a) in e <==> q < c + 1 && a < m && !Waits(s + [(c, 0)], q, a)
      {
        WaitsPushed(s, c, q, a);
        hide Waits;
      }
    }
    assert (s + [(c, 0)])[..|s|] == s;
  }

  /** One more transition, from the state on top to state t. */
  lemma AfterFits(m: nat, s: Stack, c: nat, e: Edges, t: nat)
    requires m >= 1 && Fits(m, s, c, e) && s != [] && s[|s| - 1].1 < m && t <= c
    ensures s[|s| - 1] !in e
    ensures Fits(m, After(m, s, c, t), if t == c then c + 1 else c, e[s[|s| - 1] := t])
    ensures var r := After(m, s, c, t);
      && (r != [] ==> r[|r| - 1].1 < m)
      && Left(m, r) == Left(m, s) - 1 + if t == c then m else 0
  {
    hide Covers;
    hide Parents;
    hide Inside;
    hide Left;
    AdvancedFits(m, s, c, e, t);
    EdgeAdded(c, e, s[|s| - 1], t);
    if t == c {
      PushedFits(m, Advanced(s), c, e[s[|s| - 1] := t]);
    } else {
      PoppedFits(m, Advanced(s), c, e[s[|s| - 1] := t]);
    }
  }

  // ---- the targets of the transitions, in depth-first order ----

  /** How many states are known. */
  ghost function Current(x: seq<nat>): (c: nat)
    ensures c >= 1
  {
    if x == [] then 1
    else
      var c := Current(x[..|x| - 1]);
      if x[|x| - 1] == c then c + 1 else c
  }

  ghost function Open(m: nat, x: seq<nat>): Stack {
    if x == [] then [(0, 0)]
    else
      var s := Open(m, x[..|x| - 1]);
      if s == [] then [] else After(m, s, Current(x[..|x| - 1]), x[|x| - 1])
  }

  /** Every target is known or the next new state, and there is a transition for it. */
  ghost predicate Walk(m: nat, x: seq<nat>) {
    x != [] ==>
      && Walk(m, x[..|x| - 1])
      && Open(m, x[..|x| - 1]) != []
      && x[|x| - 1] <= Current(x[..|x| - 1])
  }

  /** All transitions are there. */
  ghost predicate Complete(m: nat, x: seq<nat>) {
    Walk(m, x) && Open(m, x) == []
  }

  /** The transition that comes next. */
  ghost function Slot(m: nat, x: seq<nat>): (nat, nat)
    requires Open(m, x) != []
  {
    Open(m, x)[|Open(m, x)| - 1]
  }

  ghost function Known(m: nat, x: seq<nat>): Edges
    requires Walk(m, x)
  {
    if x == [] then map[] else Known(m, x[..|x| - 1])[Slot(m, x[..|x| - 1]) := x[|x| - 1]]
  }

  /** What is known after the targets x. */
  ghost predicate Sound(m: nat, x: seq<nat>)
    requires Walk(m, x)
  {
    && Fits(m, Open(m, x), Current(x), Known(m, x))
    && (Open(m, x) != [] ==> Slot(m, x).1 < m)
    && Left(m, Open(m, x)) == m * Current(x) - |x|
  }

  lemma SoundStart(m: nat)
    requires m >= 1
    ensures Walk(m, []) && Sound(m, [])
  {
    assert [(0, 0)][..0] == [];
    forall a: nat | a < m
      ensures Waits([(0, 0)], 0, a)
    {
      assert [(0, 0)][0] == (0, 0);
    }
  }

  lemma WalkStep(m: nat, x: seq<nat>, q: nat)
    requires Walk(m, x) && Open(m, x) != [] && q <= Current(x)
    ensures Walk(m, x + [q])
    ensures Current(x + [q]) == if q == Current(x) then Current(x) + 1 else Current(x)
    ensures Open(m, x + [q]) == After(m, Open(m, x), Current(x), q)
    ensures Known(m, x + [q]) == Known(m, x)[Slot(m, x) := q]
  {
    assert (x + [q])[..|x + [q]| - 1] == x;
  }

  lemma OneMore(m: nat, c: nat)
    ensures m * (c + 1) == m * c + m
  {
  }

  lemma SoundStep(m: nat, x: seq<nat>, q: nat)
    requires m >= 1 && Walk(m, x) && Sound(m, x) && Open(m, x) != [] && q <= Current(x)
    ensures Walk(m, x + [q]) && Slot(m, x) !in Known(m, x) && Sound(m, x + [q])
  {
    hide Fits;
    hide Left;
    hide Walk;
    hide Open;
    hide Known;
    hide Current;
    hide After;
    WalkStep(m, x, q);
    AfterFits(m, Open(m, x), Current(x), Known(m, x), q);
    OneMore(m, Current(x));
  }

  lemma {:induction false} WalkSound(m: nat, x: seq<nat>)
    requires m >= 1 && Walk(m, x)
    ensures Sound(m, x)
  {
    if x == [] {
      SoundStart(m);
    } else {
      WalkSound(m, x[..|x| - 1]);
      SoundStep(m, x[..|x| - 1], x[|x| - 1]);
      assert x == x[..|x| - 1] + [x[|x| - 1]];
    }
  }

  lemma {:induction false} LeftPositive(m: nat, s: Stack)
    requires forall i :: 0 <= i < |s| ==> s[i].1 <= m
    ensures Left(m, s) >= 0
    ensures s != [] && s[|s| - 1].1 < m ==> Left(m, s) > 0
  {
    if s != [] {
      LeftPositive(m, s[..|s| - 1]);
    }
  }

  /** Transitions are to come exactly as long as the targets are fewer than the transitions of the known states. */
  lemma OpenExact(m: nat, x: seq<nat>)
    requires m >= 1 && Walk(m, x)
    ensures |x| <= m * Current(x)
    ensures Open(m, x) != [] <==> |x| < m * Current(x)
  {
    WalkSound(m, x);
    LeftPositive(m, Open(m, x));
  }

  lemma WalkSplit(m: nat, x: seq<nat>)
    requires m >= 1 && Walk(m, x) && x != []
    ensures var u := x[..|x| - 1];
      && Walk(m, u) && Open(m, u) != [] && x[|u|] <= Current(u)
      && Known(m, x) == Known(m, u)[Slot(m, u) := x[|u|]] && Slot(m, u) !in Known(m, u)
  {
    var u := x[..|x| - 1];
    WalkSound(m, u);
    SoundStep(m, u, x[|u|]);
  }

  lemma {:induction false} WalkPrefix(m: nat, x: seq<nat>, j: nat)
    requires m >= 1 && Walk(m, x) && j < |x|
    ensures Walk(m, x[..j]) && Open(m, x[..j]) != [] && x[j] <= Current(x[..j])
    ensures Slot(m, x[..j]) in Known(m, x) && Known(m, x)[Slot(m, x[..j])] == x[j]
    decreases |x|
  {
    hide Walk;
    hide Open;
    hide Known;
    hide Current;
    hide Slot;
    WalkSplit(m, x);
    var u := x[..|x| - 1];
    if j < |u| {
      assert u[..j] == x[..j];
      WalkPrefix(m, u, j);
    }
  }

  // ---- the automaton ----

  ghost function Target(e: Edges, q: nat, a: nat): nat {
    if (q, a) in e then e[(q, a)] else 0
  }

  /** The targets of c states for letter b. */
  ghost function Row(c: nat, e: Edges, b: nat): (r: seq<nat>)
    ensures |r| == c && forall q :: 0 <= q < c && b >= 1 ==> r[q] == Target(e, q, b - 1)
  {
    seq(c, q requires 0 <= q < c => if b >= 1 then Target(e, q, b - 1) else 0)
  }

  /** The automaton with these targets; labels start at 0 and letters at 1. */
  ghost function Auto(m: nat, x: seq<nat>, final: seq<bool>): Dfa
    requires Walk(m, x)
  {
    Dfa(Current(x), m, 0, final, seq(m + 1, b requires 0 <= b <= m => Row(Current(x), Known(m, x), b)))
  }

  lemma AutoStates(m: nat, x: seq<nat>, final: seq<bool>)
    requires Walk(m, x)
    ensures Auto(m, x, final).states == Current(x) && Auto(m, x, final).init == 0
    ensures Auto(m, x, final).final == final && Auto(m, x, final).letters == m
  {
  }

  lemma AutoEdge(m: nat, x: seq<nat>, final: seq<bool>, q: nat, a: nat)
    requires m >= 1 && Complete(m, x) && |final| == Current(x) && q < Current(x) && a < m
    ensures Auto(m, x, final).Valid()
    ensures (q, a) in Known(m, x) && Auto(m, x, final).delta[a + 1][q] == Known(m, x)[(q, a)]
  {
    WalkSound(m, x);
    var e := Known(m, x);
    assert forall p: nat, b: nat :: Target(e, p, b) < Current(x);
  }

  lemma ParentEdge(m: nat, x: seq<nat>, q: nat) returns (p: nat, a: nat)
    requires m >= 1 && Complete(m, x) && 0 < q < Current(x)
    ensures p < q && a < m && (p, a) in Known(m, x) && Known(m, x)[(p, a)] == q
  {
    WalkSound(m, x);
    assert HasParent(Known(m, x), q);
    p, a :| p < q && (p, a) in Known(m, x) && Known(m, x)[(p, a)] == q;
  }

  lemma {:induction false} StateReached(m: nat, x: seq<nat>, final: seq<bool>, q: nat)
    requires m >= 1 && Complete(m, x) && |final| == Current(x) && q < Current(x)
    ensures Auto(m, x, final).Valid() && Auto(m, x, final).Reachable(q)
    decreases q
  {
    AutoEdge(m, x, final, q, 0);
    AutoStates(m, x, final);
    hide Walk;
    hide Open;
    hide Known;
    hide Auto;
    var d := Auto(m, x, final);
    if q == 0 {
      assert d.Run(d.init, []) == 0;
    } else {
      var p, a := ParentEdge(m, x, q);
      StateReached(m, x, final, p);
      AutoEdge(m, x, final, p, a);
      ReachableStep(d, p, a + 1);
    }
  }

  /** The automaton is complete and all its states can be reached. */
  lemma AutoReachable(m: nat, x: seq<nat>, final: seq<bool>)
    requires m >= 1 && Complete(m, x) && |final| == Current(x)
    ensures Auto(m, x, final).Valid() && Auto(m, x, final).AllReachable()
  {
    AutoEdge(m, x, final, 0, 0);
    forall q | 0 <= q < Current(x)
      ensures Auto(m, x, final).Reachable(q)
    {
      StateReached(m, x, final, q);
    }
  }

  // ---- up to the names of the states ----

  /** State q of d is called f[q] in e. */
  ghost predicate Renames(f: seq<nat>, d: Dfa, e: Dfa)
    requires d.Valid() && e.Valid()
  {
    && |f| == d.states == e.states && d.letters == e.letters
    && Distinct(f) && (forall q :: 0 <= q < |f| ==> f[q] < e.states)
    && f[d.init] == e.init
    && (forall q :: 0 <= q < |f| ==> e.final[f[q]] == d.final[q])
    && (forall a, q :: 1 <= a <= d.letters && 0 <= q < |f| ==> e.delta[a][f[q]] == f[d.delta[a][q]])
  }

  lemma SlotKnown(m: nat, x: seq<nat>)
    requires m >= 1 && Walk(m, x) && Open(m, x) != []
    ensures Slot(m, x).0 < Current(x) && Slot(m, x).1 < m
  {
    WalkSound(m, x);
  }

  lemma {:induction false} CurrentGrows(x: seq<nat>, j: nat)
    requires j <= |x|
    ensures Current(x[..j]) <= Current(x)
    decreases |x|
  {
    if j == |x| {
      assert x[..j] == x;
    } else {
      assert x[..|x| - 1][..j] == x[..j];
      CurrentGrows(x[..|x| - 1], j);
    }
  }

  /** A known state has its name, and so has the next new one. */
  lemma SameTarget(f: seq<nat>, c: nat, s: nat, t: nat)
    requires Distinct(f) && c <= |f| && forall q :: 0 <= q < c ==> f[q] == q
    requires s <= c && t <= c && s < |f| && f[s] == t
    ensures s == t
  {
    if t < c {
      assert f[t] == t;
    }
  }

  lemma SameEdge(m: nat, x: seq<nat>, final: seq<bool>, y: seq<nat>, final': seq<bool>, f: seq<nat>, i: nat)
    requires m >= 1 && Complete(m, x) && |final| == Current(x) && Complete(m, y) && |final'| == Current(y)
    requires Auto(m, x, final).Valid() && Auto(m, y, final').Valid()
    requires Renames(f, Auto(m, x, final), Auto(m, y, final'))
    requires i < |x| && i < |y| && x[..i] == y[..i] && Current(x[..i]) <= |f|
    requires forall q :: 0 <= q < Current(x[..i]) ==> f[q] == q
    ensures x[i] <= Current(x[..i]) && x[i] < |f| && f[x[i]] == y[i] <= Current(x[..i])
  {
    WalkPrefix(m, x, i);
    WalkPrefix(m, y, i);
    var (q, a) := Slot(m, x[..i]);
    SlotKnown(m, x[..i]);
    CurrentGrows(x, i);
    CurrentGrows(y, i);
    AutoEdge(m, x, final, q, a);
    AutoEdge(m, y, final', q, a);
    WalkSound(m, x);
  }

  lemma LongEnough(m: nat, x: seq<nat>, y: seq<nat>)
    requires m >= 1 && Walk(m, x) && Complete(m, y) && |y| < |x|
    ensures x[..|y|] != y
  {
    WalkPrefix(m, x, |y|);
  }

  /** The names agree from the first target on. */
  lemma {:induction false} SamePrefix(m: nat, x: seq<nat>, final: seq<bool>, y: seq<nat>, final': seq<bool>,
                                      f: seq<nat>, j: nat)
    requires m >= 1 && Complete(m, x) && |final| == Current(x) && Complete(m, y) && |final'| == Current(y)
    requires Auto(m, x, final).Valid() && Auto(m, y, final').Valid()
    requires Renames(f, Auto(m, x, final), Auto(m, y, final')) && j <= |x|
    ensures j <= |y| && x[..j] == y[..j] && Current(x[..j]) <= |f|
    ensures forall q :: 0 <= q < Current(x[..j]) ==> f[q] == q
    decreases j
  {
    hide Walk;
    hide Open;
    hide Auto;
    CurrentGrows(x, j);
    AutoStates(m, x, final);
    AutoStates(m, y, final');
    if j > 0 {
      var i := j - 1;
      SamePrefix(m, x, final, y, final', f, i);
      if i == |y| {
        assert y[..i] == y;
        LongEnough(m, x, y);
      }
      SameEdge(m, x, final, y, final', f, i);
      SameTarget(f, Current(x[..i]), x[i], y[i]);
      assert x[..j] == x[..i] + [x[i]] && y[..j] == y[..i] + [y[i]];
      assert x[..j][..|x[..j]| - 1] == x[..i];
    }
  }

  /** Different targets or final states give automata that differ by more than the names of their states. */
  lemma Unique(m: nat, x: seq<nat>, final: seq<bool>, y: seq<nat>, final': seq<bool>, f: seq<nat>)
    requires m >= 1 && Complete(m, x) && |final| == Current(x) && Complete(m, y) && |final'| == Current(y)
    requires Auto(m, x, final).Valid() && Auto(m, y, final').Valid()
    requires Renames(f, Auto(m, x, final), Auto(m, y, final'))
    ensures x == y && final == final'
  {
    SamePrefix(m, x, final, y, final', f, |x|);
    assert x[..|x|] == x;
    if |x| < |y| {
      LongEnough(m, y, x);
    }
    assert y[..|y|] == y;
    forall q | 0 <= q < |final|
      ensures final[q] == final'[q]
    {
      assert f[q] == q;
    }
  }

  // ---- every automaton is written down ----

  /** The edges between the named states are edges of d. */
  ghost predicate Follows(d: Dfa, e: Edges, f: seq<nat>)
    requires d.Valid()
  {
    && (forall q :: 0 <= q < |f| ==> f[q] < d.states)
    && forall q: nat, a: nat :: (q, a) in e ==>
         q < |f| && a < d.letters && e[(q, a)] < |f| && d.delta[a + 1][f[q]] == f[e[(q, a)]]
  }

  /** f names the states that are known, and the known edges are edges of d. */
  ghost predicate Traced(d: Dfa, x: seq<nat>, f: seq<nat>)
    requires d.Valid()
  {
    && Walk(d.letters, x) && |f| == Current(x)
    && Distinct(f) && f[0] == d.init
    && Follows(d, Known(d.letters, x), f)
  }

  lemma TraceStart(d: Dfa)
    requires d.Valid()
    ensures Traced(d, [], [d.init])
  {
  }

  lemma FollowsStep(d: Dfa, e: Edges, f: seq<nat>, g: seq<nat>, k: (nat, nat), q: nat)
    requires d.Valid() && Follows(d, e, f) && k.0 < |f| && k.1 < d.letters
    requires f <= g && (forall r :: 0 <= r < |g| ==> g[r] < d.states)
    requires q < |g| && d.delta[k.1 + 1][f[k.0]] == g[q]
    ensures Follows(d, e[k := q], g)
  {
    forall p: nat, a: nat | (p, a) in e
      ensures g[p] == f[p] && g[e[(p, a)]] == f[e[(p, a)]]
    {
    }
  }

  lemma TraceStep(d: Dfa, x: seq<nat>, f: seq<nat>) returns (q: nat, g: seq<nat>)
    requires d.Valid() && d.letters >= 1 && Traced(d, x, f) && Open(d.letters, x) != []
    ensures Traced(d, x + [q], g)
  {
    var m := d.letters;
    SlotKnown(m, x);
    hide Walk;
    hide Open;
    hide After;
    hide Slot;
    var k := Slot(m, x);
    var t := d.delta[k.1 + 1][f[k.0]];
    if t in f {
      q := Place(f, t);
      g := f;
    } else {
      q := |f|;
      g := f + [t];
    }
    assert Distinct(g);
    FollowsStep(d, Known(m, x), f, g, k, q);
    hide Follows;
    WalkStep(m, x, q);
  }

  lemma {:induction false} Trace(d: Dfa, x: seq<nat>, f: seq<nat>) returns (y: seq<nat>, g: seq<nat>)
    requires d.Valid() && d.letters >= 1 && Traced(d, x, f)
    ensures Traced(d, y, g) && Complete(d.letters, y)
    decreases d.letters * d.states - |x|
  {
    if Open(d.letters, x) == [] {
      y, g := x, f;
    } else {
      var q, h := TraceStep(d, x, f);
      Pigeonhole(h, d.states);
      OpenExact(d.letters, x + [q]);
      Times(|h|, d.states, d.letters);
      y, g := Trace(d, x + [q], h);
    }
  }

  /** The named states are all that can be reached. */
  lemma {:induction false} RunNamed(d: Dfa, x: seq<nat>, f: seq<nat>, q: nat, w: Word) returns (r: nat)
    requires d.Valid() && d.letters >= 1 && Traced(d, x, f) && Complete(d.letters, x)
    requires q < |f| && IsWord(w, d.letters)
    ensures r < |f| && f[r] == d.Run(f[q], w)
    decreases |w|
  {
    if w == [] {
      r := q;
    } else {
      var final := seq(Current(x), i => false);
      AutoEdge(d.letters, x, final, q, w[0] - 1);
      r := RunNamed(d, x, f, Known(d.letters, x)[(q, w[0] - 1)], w[1..]);
    }
  }

  ghost function Place(f: seq<nat>, t: nat): (q: nat)
    requires t in f
    ensures q < |f| && f[q] == t
  {
    var q :| 0 <= q < |f| && f[q] == t;
    q
  }

  lemma AllNamed(d: Dfa, x: seq<nat>, f: seq<nat>)
    requires d.Valid() && d.letters >= 1 && d.AllReachable() && Traced(d, x, f) && Complete(d.letters, x)
    ensures |f| == d.states
  {
    Pigeonhole(f, d.states);
    forall q | 0 <= q < d.states
      ensures q in f
    {
      assert d.Reachable(q);
      var w :| IsWord(w, d.letters) && d.Run(d.init, w) == q;
      var r := RunNamed(d, x, f, 0, w);
    }
    var back := seq(d.states, q requires 0 <= q < d.states => Place(f, q));
    forall i, j | 0 <= i < j < |back|
      ensures back[i] != back[j]
    {
      assert f[back[i]] == i && f[back[j]] == j;
    }
    Pigeonhole(back, |f|);
  }

  /** Every complete automaton with reachable states is written down by targets. */
  lemma Written(d: Dfa) returns (x: seq<nat>, final: seq<bool>, f: seq<nat>)
    requires d.Valid() && d.letters >= 1 && d.AllReachable()
    ensures Complete(d.letters, x) && |final| == Current(x) == d.states
    ensures Auto(d.letters, x, final).Valid() && Renames(f, Auto(d.letters, x, final), d)
  {
    TraceStart(d);
    x, f := Trace(d, [], [d.init]);
    AllNamed(d, x, f);
    WalkSound(d.letters, x);
    hide Walk;
    hide Open;
    hide Auto;
    hide Known;
    hide Fits;
    final := seq(Current(x), q requires 0 <= q < Current(x) => d.final[f[q]]);
    AutoEdge(d.letters, x, final, 0, 0);
    AutoStates(d.letters, x, final);
    forall a, q | 1 <= a <= d.letters && 0 <= q < |f|
      ensures d.delta[a][f[q]] == f[Auto(d.letters, x, final).delta[a][q]]
    {
      AutoEdge(d.letters, x, final, q, a - 1);
    }
  }

  /** Distinct names below n are all of them if there are n. */
  lemma AllNames(g: seq<nat>, n: nat, t: nat)
    requires Distinct(g) && |g| == n && t < n && forall q :: 0 <= q < n ==> g[q] < n
    ensures t in g
  {
    if t !in g {
      Pigeonhole(g + [t], n);
    }
  }

  /** Two automata with the same renaming differ by names only. */
  lemma Renamed(f: seq<nat>, d: Dfa, g: seq<nat>, c: Dfa, e: Dfa) returns (h: seq<nat>)
    requires d.Valid() && c.Valid() && e.Valid() && Renames(f, d, e) && Renames(g, c, e)
    ensures Renames(h, d, c)
  {
    forall q | 0 <= q < d.states
      ensures f[q] in g
    {
      AllNames(g, e.states, f[q]);
    }
    h := seq(d.states, q requires 0 <= q < d.states => Place(g, f[q]));
    assert forall q :: 0 <= q < d.states ==> h[q] < |g| && g[h[q]] == f[q];
    forall i, j | 0 <= i < j < |h|
      ensures h[i] != h[j]
    {
      assert g[h[i]] == f[i] && g[h[j]] == f[j];
    }
    SameName(g, h[d.init], c.init);
    forall a, q | 1 <= a <= d.letters && 0 <= q < |h|
      ensures c.delta[a][h[q]] == h[d.delta[a][q]]
    {
      SameName(g, c.delta[a][h[q]], h[d.delta[a][q]]);
    }
  }

  lemma SameName(g: seq<nat>, i: nat, j: nat)
    requires Distinct(g) && i < |g| && j < |g| && g[i] == g[j]
    ensures i == j
  {
  }
}
