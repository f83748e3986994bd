/** Deleting the states that are not reachable. */
module Reachability {
  import opened Automata
  import opened CircularLists

  /** The states of list, numbered in this order, with the letters between them. */
  ghost predicate Restriction(d: Dfa, list: seq<nat>, e: Dfa)
    requires d.Valid()
  {
    && e.Valid() && e.letters == d.letters && e.states == |list|
    && (forall i :: 0 <= i < |list| ==> list[i] < d.states && e.final[i] == d.final[list[i]])
    && list[e.init] == d.init
    && (forall a, i :: 1 <= a <= d.letters && 0 <= i < |list| ==> list[e.delta[a][i]] == d.delta[a][list[i]])
  }

  lemma {:induction false} RestrictionRun(d: Dfa, list: seq<nat>, e: Dfa, i: nat, w: Word)
    requires d.Valid() && Restriction(d, list, e) && i < |list| && IsWord(w, d.letters)
    ensures list[e.Run(i, w)] == d.Run(list[i], w)
    decreases |w|
  {
    if w != [] {
      RestrictionRun(d, list, e, e.delta[w[0]][i], w[1..]);
    }
  }

  lemma RestrictionIsExact(d: Dfa, list: seq<nat>, e: Dfa)
    requires d.Valid() && Restriction(d, list, e) && Distinct(list)
    requires forall s :: s in list ==> d.Reachable(s)
    ensures SameLanguage(d, e) && e.AllReachable()
  {
    forall w | IsWord(w, d.letters)
      ensures d.Accepts(w) == e.Accepts(w)
    {
      RestrictionRun(d, list, e, e.init, w);
    }
    forall i | 0 <= i < e.states
      ensures e.Reachable(i)
    {
      assert list[i] in list;
      var w :| IsWord(w, d.letters) && d.Run(d.init, w) == list[i];
      RestrictionRun(d, list, e, e.init, w);
      assert list[e.Run(e.init, w)] == list[i];
    }
  }

  /** The states reached so far: marked, listed once each, and all letters of the first `next` ones followed. */
  ghost predicate Searching(d: Dfa, mark: seq<bool>, list: seq<nat>, next: nat)
    requires d.Valid()
  {
    && |mark| == d.states && next <= |list| <= d.states
    && Distinct(list) && d.init in list
    && (forall s :: s in list ==> s < d.states && d.Reachable(s))
    && (forall s :: 0 <= s < d.states ==> (mark[s] <==> s in list))
    && AllFollowed(d, list, next)
  }

  /** The letters 1..k lead from s into the list. */
  ghost predicate Followed(d: Dfa, list: seq<nat>, s: nat, k: nat)
    requires d.Valid() && k <= d.letters
  {
    s < d.states && forall a :: 1 <= a <= k ==> d.delta[a][s] in list
  }

  ghost predicate AllFollowed(d: Dfa, list: seq<nat>, next: nat)
    requires d.Valid() && next <= |list|
  {
    forall i {:trigger Followed(d, list, list[i], d.letters)} ::
      0 <= i < next ==> Followed(d, list, list[i], d.letters)
  }

  lemma Found(d: Dfa, mark: seq<bool>, list: seq<nat>, next: nat, s: nat, a: nat)
    requires d.Valid() && Searching(d, mark, list, next) && s in list && s < d.states && 1 <= a <= d.letters
    requires !mark[d.delta[a][s]]
    ensures var t := d.delta[a][s]; Searching(d, mark[t := true], list + [t], next) && |list| < d.states
  {
    var t := d.delta[a][s];
    ReachableStep(d, s, a);
    assert forall i :: 0 <= i < |list| ==> list[i] in list;
    Pigeonhole(list + [t], d.states);
    forall i | 0 <= i < next
      ensures Followed(d, list + [t], (list + [t])[i], d.letters)
    {
      assert Followed(d, list, list[i], d.letters);
    }
  }

  lemma FollowOne(d: Dfa, list: seq<nat>, s: nat, a: nat)
    requires d.Valid() && 1 <= a <= d.letters && Followed(d, list, s, a - 1)
    ensures d.delta[a][s] in list ==> Followed(d, list, s, a)
    ensures Followed(d, list + [d.delta[a][s]], s, a)
  {
  }

  lemma NextDone(d: Dfa, mark: seq<bool>, list: seq<nat>, next: nat)
    requires d.Valid() && Searching(d, mark, list, next) && next < |list|
    requires Followed(d, list, list[next], d.letters)
    ensures Searching(d, mark, list, next + 1)
  {
  }

  /** Follow the letters of the state at position next and put new states behind the others. */
  method Expand(d: Dfa, mark: array<bool>, stack: array<nat>, next: nat, high0: nat) returns (high: nat)
    requires d.Valid() && next < high0 <= stack.Length == d.states && Searching(d, mark[..], stack[..high0], next)
    modifies mark, stack
    ensures high0 <= high <= stack.Length && stack[..high0] == old(stack[..high0])
    ensures Searching(d, mark[..], stack[..high], next + 1)
  {
    high := high0;
    var state := stack[next];
    ghost var list := stack[..high];
    assert state == list[next] && state in list && state < d.states;
    hide Followed, AllFollowed;
    for letter := 1 to d.letters + 1
      invariant high0 <= high <= stack.Length && list == stack[..high] && list[..high0] == old(stack[..high0])
      invariant state == list[next] && state in list && Searching(d, mark[..], list, next)
      invariant Followed(d, list, state, letter - 1)
    {
      var state2 := d.delta[letter][state];
      FollowOne(d, list, state, letter);
      if !mark[state2] {
        Found(d, mark[..], list, next, state, letter);
        stack[high] := state2;
        high := high + 1;
        mark[state2] := true;
        list := list + [state2];
      }
    }
    NextDone(d, mark[..], list, next);
  }

  /** A breadth-first search from the initial state: the reachable states in the order of their discovery. */
  method Search(d: Dfa) returns (stack: array<nat>, high: nat)
    requires d.Valid()
    ensures 0 < high <= stack.Length && fresh(stack)
    ensures exists mark :: Searching(d, mark, stack[..high], high)
  {
    var mark := new bool[d.states](_ => false);
    mark[d.init] := true;
    stack := new nat[d.states](_ => 0);
    stack[0] := d.init;
    high := 1;
    var next := 0;
    assert d.Run(d.init, []) == d.init && IsWord([], d.letters);
    assert stack[..1] == [d.init];
    while high != next
      invariant 0 < high && next <= high <= stack.Length == d.states && fresh(stack) && fresh(mark)
      invariant Searching(d, mark[..], stack[..high], next)
      decreases d.states - next
    {
      high := Expand(d, mark, stack, next, high);
      next := next + 1;
    }
  }

  /** The first k entries of the new row of a letter. */
  ghost predicate RowDone(row: seq<nat>, delta: seq<nat>, list: seq<nat>, number: seq<nat>, k: nat) {
    && |row| == |list| && k <= |list|
    && (forall i :: 0 <= i < k ==> list[i] < |delta| && delta[list[i]] < |number| && row[i] == number[delta[list[i]]])
  }

  /** number is the position of every listed state. */
  ghost predicate Numbered(list: seq<nat>, number: seq<nat>) {
    forall s :: s in list ==> s < |number| && number[s] < |list| && list[number[s]] == s
  }

  method Number(stack: array<nat>, high: nat, n: nat) returns (number: array<nat>)
    requires high <= stack.Length && Distinct(stack[..high]) && forall s :: s in stack[..high] ==> s < n
    ensures number.Length == n && Numbered(stack[..high], number[..])
  {
    number := new nat[n](_ => 0);
    ghost var list := stack[..high];
    for state := 0 to high
      invariant forall i :: 0 <= i < state ==> list[i] < n && number[list[i]] == i
    {
      assert list[state] in list;
      number[stack[state]] := state;
    }
  }

  /** The restriction to the listed states, which the table number numbers. */
  method Restrict(d: Dfa, stack: array<nat>, high: nat, number: array<nat>) returns (outdfa: Dfa)
    requires d.Valid() && 0 < high <= stack.Length && number.Length == d.states
    requires AllFollowed(d, stack[..high], high)
    requires Numbered(stack[..high], number[..]) && d.init in stack[..high]
    ensures Restriction(d, stack[..high], outdfa)
  {
    ghost var list, map0 := stack[..high], number[..];
    var ffinal: seq<bool> := seq(high, _ => false);
    var fdelta: seq<seq<nat>> := seq(d.letters + 1, _ => seq(high, _ => 0));
    for state := 0 to high
      invariant |ffinal| == high && |fdelta| == d.letters + 1
      invariant forall i :: 0 <= i < state ==> list[i] < d.states && ffinal[i] == d.final[list[i]]
      invariant forall a :: 1 <= a <= d.letters ==> RowDone(fdelta[a], d.delta[a], list, map0, state)
    {
      assert Followed(d, list, list[state], d.letters);
      ffinal := ffinal[state := d.final[stack[state]]];
      fdelta := CopyLetters(d, fdelta, list, number, state, stack[state]);
    }
    outdfa := Dfa(high, d.letters, number[d.init], ffinal, fdelta);
    RestrictionFromRows(d, list, map0, outdfa);
  }

  /** The entries of one state, for all letters. */
  method CopyLetters(d: Dfa, rows: seq<seq<nat>>, ghost list: seq<nat>, number: array<nat>, state: nat, was: nat)
    returns (fdelta: seq<seq<nat>>)
    requires d.Valid() && number.Length == d.states && state < |list| && was == list[state] < d.states
    requires |rows| == d.letters + 1
    requires forall a :: 1 <= a <= d.letters ==> RowDone(rows[a], d.delta[a], list, number[..], state)
    ensures |fdelta| == d.letters + 1
    ensures forall a :: 1 <= a <= d.letters ==> RowDone(fdelta[a], d.delta[a], list, number[..], state + 1)
  {
    fdelta := rows;
    for letter := 1 to d.letters + 1
      invariant |fdelta| == d.letters + 1
      invariant forall a :: 1 <= a < letter ==> RowDone(fdelta[a], d.delta[a], list, number[..], state + 1)
      invariant forall a :: letter <= a <= d.letters ==> RowDone(fdelta[a], d.delta[a], list, number[..], state)
    {
      assert RowDone(fdelta[letter], d.delta[letter], list, number[..], state);
      var row := fdelta[letter][state := number[d.delta[letter][was]]];
      assert RowDone(row, d.delta[letter], list, number[..], state + 1);
      fdelta := fdelta[letter := row];
    }
  }

  lemma RestrictionFromRows(d: Dfa, list: seq<nat>, number: seq<nat>, e: Dfa)
    requires d.Valid() && Numbered(list, number) && |number| == d.states && d.init in list
    requires AllFollowed(d, list, |list|)
    requires e.states == |list| == |e.final| && e.letters == d.letters && |e.delta| == d.letters + 1
    requires e.init == number[d.init]
    requires forall i :: 0 <= i < |list| ==> list[i] < d.states && e.final[i] == d.final[list[i]]
    requires forall a :: 1 <= a <= d.letters ==> RowDone(e.delta[a], d.delta[a], list, number, |list|)
    ensures Restriction(d, list, e)
  {
    forall a | 1 <= a <= d.letters
      ensures |e.delta[a]| == |list|
      ensures forall i :: 0 <= i < |list| ==> e.delta[a][i] < |list| && list[e.delta[a][i]] == d.delta[a][list[i]]
    {
      assert RowDone(e.delta[a], d.delta[a], list, number, |list|);
      assert forall i :: 0 <= i < |list| ==> Followed(d, list, list[i], d.letters);
    }
  }

  /** list holds exactly the reachable states, each once. */
  ghost predicate ReachableStates(d: Dfa, list: seq<nat>)
    requires d.Valid()
  {
    Distinct(list) && forall s: nat :: s in list <==> s < d.states && d.Reachable(s)
  }

  lemma {:induction false} RunInside(d: Dfa, list: seq<nat>, s: nat, w: Word)
    requires d.Valid() && AllFollowed(d, list, |list|) && s in list && s < d.states && IsWord(w, d.letters)
    ensures d.Run(s, w) in list
    decreases |w|
  {
    if w != [] {
      var i :| 0 <= i < |list| && list[i] == s;
      assert Followed(d, list, list[i], d.letters);
      RunInside(d, list, d.delta[w[0]][s], w[1..]);
    }
  }

  /** A finished search has found all reachable states. */
  lemma AllFound(d: Dfa, mark: seq<bool>, list: seq<nat>)
    requires d.Valid() && Searching(d, mark, list, |list|)
    ensures ReachableStates(d, list)
  {
    forall s: nat | s < d.states && d.Reachable(s)
      ensures s in list
    {
      var w :| IsWord(w, d.letters) && d.Run(d.init, w) == s;
      RunInside(d, list, d.init, w);
    }
  }

  /** The automaton over the reachable states only; the automaton itself if all states are reachable. */
  method DelStates(d: Dfa) returns (outdfa: Dfa)
    requires d.Valid()
    ensures outdfa.Valid() && outdfa.letters == d.letters && SameLanguage(d, outdfa) && outdfa.AllReachable()
    ensures exists list :: ReachableStates(d, list) && Restriction(d, list, outdfa)
    ensures d.AllReachable() ==> outdfa == d
  {
    var stack, high := Search(d);
    ghost var list := stack[..high];
    ghost var mark :| Searching(d, mark, list, high);
    AllFound(d, mark, list);
    if high != d.states {
      var number := Number(stack, high, d.states);
      outdfa := Restrict(d, stack, high, number);
      RestrictionIsExact(d, list, outdfa);
      SomeMissing(d, list);
    } else {
      FullList(d, mark, list);
      WholeRestriction(d);
      outdfa := d;
    }
  }

  lemma SomeMissing(d: Dfa, list: seq<nat>)
    requires d.Valid() && ReachableStates(d, list) && |list| < d.states
    ensures !d.AllReachable()
  {
    if d.AllReachable() {
      var all := seq(d.states, s requires 0 <= s < d.states => s);
      assert forall s :: s in all ==> s in list;
      SubsetLength(all, list);
    }
  }

  lemma WholeRestriction(d: Dfa)
    requires d.Valid() && d.AllReachable()
    ensures exists list :: ReachableStates(d, list) && Restriction(d, list, d)
  {
    var all: seq<nat> := seq(d.states, s requires 0 <= s < d.states => s);
    forall s: nat
      ensures s in all <==> s < d.states
    {
      assert s < d.states ==> all[s] == s;
    }
    assert ReachableStates(d, all) && Restriction(d, all, d);
  }

  /** If as many states were found as there are, all states are reachable. */
  lemma FullList(d: Dfa, mark: seq<bool>, list: seq<nat>)
    requires d.Valid() && Searching(d, mark, list, |list|) && |list| == d.states
    ensures d.AllReachable()
  {
    forall s | 0 <= s < d.states
      ensures d.Reachable(s)
    {
      assert forall i :: 0 <= i < |list| ==> list[i] in list;
      if s !in list {
        Pigeonhole(list + [s], d.states);
      }
    }
  }
}
