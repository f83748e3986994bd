/** The depth-first visit of a finished automaton: what it meets, and the transitions to states met before. */
module Visits {
  import opened Automata
  import opened DepthFirst
  import opened RandomSequences
  import opened RandomAutomata

  /** The states met so far, the targets of the transitions to states met before, and how many states were met then. */
  datatype Tour = Tour(met: seq<nat>, ends: seq<nat>, sizes: seq<nat>)

  ghost function Unmet(d: Dfa, met: seq<nat>): set<nat> {
    set q | q in UpTo(d.states) && q !in met
  }

  /** Follow the transitions of q with the letters from a on; enter a state exactly when it is new. */
  ghost function Visit(d: Dfa, q: nat, a: nat, t: Tour): (r: Tour)
    requires d.Valid() && q < d.states && a >= 1
    ensures t.met <= r.met
    decreases Unmet(d, t.met), d.letters + 1 - a
  {
    if a > d.letters then t
    else
      var p := d.delta[a][q];
      if p in t.met then Visit(d, q, a + 1, t.(ends := t.ends + [p], sizes := t.sizes + [|t.met|]))
      else
        var more := t.met + [p];
        assert p in Unmet(d, t.met) && p !in Unmet(d, more) && Unmet(d, more) <= Unmet(d, t.met);
        var r := Visit(d, p, 1, t.(met := more));
        assert p == r.met[|t.met|];
        assert p !in Unmet(d, r.met) && Unmet(d, r.met) <= Unmet(d, t.met);
        Visit(d, q, a + 1, r)
  }

  /** The numbers below n in order. */
  ghost function Numbers(n: nat): (s: seq<nat>)
    ensures |s| == n && forall i :: 0 <= i < n ==> s[i] == i
  {
    seq(n, i requires 0 <= i < n => i)
  }

  /** The visit from the initial state meets the states in the order of their numbers; the other transitions lead to
      ends, in the order of the visit, when as many states have been met as sizes says. */
  ghost predicate VisitedInOrder(d: Dfa, ends: seq<nat>, sizes: seq<nat>)
    requires d.Valid()
  {
    Visit(d, d.init, 1, Tour([d.init], [], [])) == Tour(Numbers(d.states), ends, sizes)
  }

  // ---- the visit goes on as the stack says ----

  ghost predicate Inside(s: Stack, n: nat) {
    forall i :: 0 <= i < |s| ==> s[i].0 < n
  }

  /** Finish the visit of the states on the stack. */
  ghost function Finish(d: Dfa, s: Stack, t: Tour): Tour
    requires d.Valid() && Inside(s, d.states)
    decreases |s|
  {
    if s == [] then t
    else Finish(d, s[..|s| - 1], Visit(d, s[|s| - 1].0, s[|s| - 1].1 + 1, t))
  }

  lemma {:induction false} FinishPopped(d: Dfa, s: Stack, t: Tour)
    requires d.Valid() && Inside(s, d.states)
    ensures Inside(Popped(d.letters, s), d.states)
    ensures Finish(d, Popped(d.letters, s), t) == Finish(d, s, t)
    decreases |s|
  {
    if s != [] && s[|s| - 1].1 >= d.letters {
      FinishPopped(d, s[..|s| - 1], t);
    }
  }

  ghost function Ended(t: Tour, p: nat): Tour {
    t.(ends := t.ends + [p], sizes := t.sizes + [|t.met|])
  }

  ghost function Entered(t: Tour, p: nat): Tour {
    t.(met := t.met + [p])
  }

  lemma VisitOld(d: Dfa, q: nat, a: nat, t: Tour)
    requires d.Valid() && q < d.states && 1 <= a <= d.letters && d.delta[a][q] in t.met
    ensures Visit(d, q, a, t) == Visit(d, q, a + 1, Ended(t, d.delta[a][q]))
  {
  }

  lemma VisitNew(d: Dfa, q: nat, a: nat, t: Tour)
    requires d.Valid() && q < d.states && 1 <= a <= d.letters && d.delta[a][q] !in t.met
    ensures Visit(d, q, a, t) == Visit(d, q, a + 1, Visit(d, d.delta[a][q], 1, Entered(t, d.delta[a][q])))
  {
  }

  lemma FinishTop(d: Dfa, s: Stack, q: nat, l: nat, t: Tour)
    requires d.Valid() && Inside(s, d.states) && q < d.states
    ensures Inside(s + [(q, l)], d.states) && Finish(d, s + [(q, l)], t) == Finish(d, s, Visit(d, q, l + 1, t))
  {
    hide Visit;
    assert (s + [(q, l)])[..|s|] == s;
  }

  /** A transition to a state met before. */
  lemma FinishOld(d: Dfa, s: Stack, q: nat, l: nat, p: nat, t: Tour)
    requires d.Valid() && Inside(s, d.states) && q < d.states && l < d.letters && p == d.delta[l + 1][q] && p in t.met
    ensures Inside(s + [(q, l)], d.states) && Inside(s + [(q, l + 1)], d.states)
    ensures Finish(d, s + [(q, l)], t) == Finish(d, s + [(q, l + 1)], Ended(t, p))
  {
    hide Visit, Ended, Finish, Inside;
    VisitOld(d, q, l + 1, t);
    FinishTop(d, s, q, l, t);
    FinishTop(d, s, q, l + 1, Ended(t, p));
  }

  /** A transition to a new state. */
  lemma FinishNew(d: Dfa, s: Stack, q: nat, l: nat, p: nat, t: Tour)
    requires d.Valid() && Inside(s, d.states) && q < d.states && l < d.letters && p == d.delta[l + 1][q] && p !in t.met
    ensures Inside(s + [(q, l)], d.states) && Inside(s + [(q, l + 1)] + [(p, 0)], d.states)
    ensures Finish(d, s + [(q, l)], t) == Finish(d, s + [(q, l + 1)] + [(p, 0)], Entered(t, p))
  {
    hide Visit, Entered, Finish, Inside;
    var r := Visit(d, p, 1, Entered(t, p));
    VisitNew(d, q, l + 1, t);
    FinishTop(d, s, q, l, t);
    FinishTop(d, s, q, l + 1, r);
    FinishTop(d, s + [(q, l + 1)], p, 0, Entered(t, p));
  }

  /** How far the visit has come after the targets x. */
  ghost function TourOf(x: seq<nat>): Tour {
    Tour(Numbers(Current(x)), Ends(x), Sizes(x))
  }

  lemma StackInside(m: nat, x: seq<nat>, j: nat)
    requires m >= 1 && Walk(m, x) && j <= |x|
    ensures Walk(m, x[..j]) && Inside(Open(m, x[..j]), Current(x))
  {
    CurrentGrows(x, j);
    if j < |x| {
      WalkPrefix(m, x, j);
    } else {
      assert x[..j] == x;
    }
    WalkSound(m, x[..j]);
  }

  lemma NumbersMore(n: nat)
    ensures Numbers(n + 1) == Numbers(n) + [n]
    ensures forall q: nat :: q in Numbers(n) <==> q < n
  {
    forall q: nat
      ensures q in Numbers(n) <==> q < n
    {
      if q < n {
        assert Numbers(n)[q] == q;
      }
    }
  }

  lemma TourStep(x: seq<nat>, p: nat)
    requires p <= Current(x)
    ensures p == Current(x) <==> p !in TourOf(x).met
    ensures TourOf(x + [p]) == if p == Current(x) then Entered(TourOf(x), p) else Ended(TourOf(x), p)
  {
    SizesStep(x, p);
    NumbersMore(Current(x));
  }

  lemma KnownEdge(m: nat, x: seq<nat>, final: seq<bool>, j: nat)
    requires m >= 1 && Complete(m, x) && |final| == Current(x) && j < |x|
    ensures Auto(m, x, final).Valid() && Walk(m, x[..j]) && Open(m, x[..j]) != [] && x[j] <= Current(x[..j])
    ensures var (q, a) := Slot(m, x[..j]);
      q < Current(x) && a < m && Auto(m, x, final).delta[a + 1][q] == x[j]
  {
    assert Walk(m, x);
    hide Walk, Open, Known, Auto, Current, Complete;
    WalkPrefix(m, x, j);
    SlotKnown(m, x[..j]);
    CurrentGrows(x, j);
    AutoEdge(m, x, final, Slot(m, x[..j]).0, Slot(m, x[..j]).1);
  }

  /** One target more: the rest of the visit stays the same. */
  lemma AfterVisit(d: Dfa, m: nat, s: Stack, c: nat, p: nat, t: Tour, r: Tour)
    requires d.Valid() && d.letters == m && s != [] && Inside(s, d.states) && Inside(After(m, s, c, p), d.states)
    requires s[|s| - 1].1 < m && p == d.delta[s[|s| - 1].1 + 1][s[|s| - 1].0]
    requires p == c <==> p !in t.met
    requires r == if p == c then Entered(t, p) else Ended(t, p)
    ensures Finish(d, After(m, s, c, p), r) == Finish(d, s, t)
  {
    var n := |s| - 1;
    var below, q, l := s[..n], s[n].0, s[n].1;
    assert s == below + [(q, l)] && Advanced(s) == below + [(q, l + 1)];
    assert Inside(below, d.states) && q < d.states;
    hide Finish, Visit, Entered, Ended, Inside, Advanced;
    if p == c {
      FinishNew(d, below, q, l, p, t);
    } else {
      FinishOld(d, below, q, l, p, t);
      FinishPopped(d, Advanced(s), r);
    }
  }

  lemma VisitNext(d: Dfa, y: seq<nat>, p: nat)
    requires d.Valid() && Walk(d.letters, y) && Open(d.letters, y) != [] && p <= Current(y)
    requires Inside(Open(d.letters, y), d.states) && Inside(Open(d.letters, y + [p]), d.states)
    requires Slot(d.letters, y).1 < d.letters && p == d.delta[Slot(d.letters, y).1 + 1][Slot(d.letters, y).0]
    ensures Finish(d, Open(d.letters, y + [p]), TourOf(y + [p])) == Finish(d, Open(d.letters, y), TourOf(y))
  {
    hide Walk, Known, Current, TourOf, Finish, Visit, Open, Inside, After;
    WalkStep(d.letters, y, p);
    TourStep(y, p);
    AfterVisit(d, d.letters, Open(d.letters, y), Current(y), p, TourOf(y), TourOf(y + [p]));
  }

  lemma Inner(m: nat, x: seq<nat>, final: seq<bool>, j: nat)
    requires m >= 1 && Complete(m, x) && |final| == Current(x) && j <= |x|
    ensures Walk(m, x) && Walk(m, x[..j]) && Inside(Open(m, x[..j]), Current(x))
    ensures Auto(m, x, final).Valid() && Auto(m, x, final).states == Current(x) && Auto(m, x, final).letters == m
  {
    StackInside(m, x, j);
    AutoStates(m, x, final);
    AutoEdge(m, x, final, 0, 0);
  }

  /** The result of the visit as it goes on after j targets. */
  ghost function GoOn(m: nat, x: seq<nat>, final: seq<bool>, j: nat): Tour
    requires m >= 1 && Complete(m, x) && |final| == Current(x) && j <= |x|
  {
    Inner(m, x, final, j);
    Finish(Auto(m, x, final), Open(m, x[..j]), TourOf(x[..j]))
  }

  lemma VisitStep(m: nat, x: seq<nat>, final: seq<bool>, j: nat)
    requires m >= 1 && Complete(m, x) && |final| == Current(x) && j < |x|
    ensures GoOn(m, x, final, j + 1) == GoOn(m, x, final, j)
  {
    hide Complete, Auto, Walk, Open, TourOf, Finish, Inside, Current;
    Inner(m, x, final, j);
    Inner(m, x, final, j + 1);
    KnownEdge(m, x, final, j);
    assert x[..j + 1] == x[..j] + [x[j]];
    VisitNext(Auto(m, x, final), x[..j], x[j]);
  }

  lemma {:induction false} VisitUpTo(m: nat, x: seq<nat>, final: seq<bool>, j: nat)
    requires m >= 1 && Complete(m, x) && |final| == Current(x) && j <= |x|
    ensures Auto(m, x, final).Valid()
    ensures GoOn(m, x, final, j) == Visit(Auto(m, x, final), 0, 1, Tour([0], [], []))
    decreases j
  {
    Inner(m, x, final, j);
    if j == 0 {
      StartTour(Auto(m, x, final));
      assert x[..0] == [];
    } else {
      VisitUpTo(m, x, final, j - 1);
      VisitStep(m, x, final, j - 1);
    }
  }

  lemma StartTour(d: Dfa)
    requires d.Valid()
    ensures TourOf([]) == Tour([0], [], []) && Finish(d, [(0, 0)], TourOf([])) == Visit(d, 0, 1, Tour([0], [], []))
  {
    assert Numbers(1) == [0];
    assert [(0, 0)][..0] == [];
  }

  /** The automaton with the targets x is visited in the order of its states. */
  lemma AutoVisited(m: nat, x: seq<nat>, final: seq<bool>)
    requires m >= 1 && Complete(m, x) && |final| == Current(x)
    ensures Auto(m, x, final).Valid() && VisitedInOrder(Auto(m, x, final), Ends(x), Sizes(x))
  {
    VisitUpTo(m, x, final, |x|);
    AutoStates(m, x, final);
    assert x[..|x|] == x;
    assert Finish(Auto(m, x, final), [], TourOf(x)) == TourOf(x);
  }

  /** The automaton of an outcome is the one whose depth-first visit meets the states in order; the other transitions
      lead to the first numbers of r, each when as many states have been met as the sequence says. */
  lemma BuiltVisited(m: nat, n: nat, k: seq<nat>, r: seq<nat>)
    requires m >= 2 && n >= 1 && Outcome(m, n, k, r)
    ensures Built(m, n, k, r).Valid() && |r| == |k| + 1 + n
    ensures VisitedInOrder(Built(m, n, k, r), r[..|k| + 1], k + [n])
    ensures forall q :: 0 <= q < n ==> Built(m, n, k, r).final[q] == (r[|k| + 1 + q] != 0)
  {
    OutcomeSplit(m, n, k, r);
    TargetsTold(m, n, k, r[..|k| + 1]);
    BuiltIs(m, n, k, r);
    AutoStates(m, Targets(k + [n], r[..|k| + 1]), Finals(r[|k| + 1..]));
    AutoVisited(m, Targets(k + [n], r[..|k| + 1]), Finals(r[|k| + 1..]));
  }
}
