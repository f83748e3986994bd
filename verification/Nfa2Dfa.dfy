/** The powerset construction with a height-balanced tree as index. */
module Nfa2Dfa {
  import opened Automata
  import opened Subsets
  import opened BalancedTrees
  import opened SearchTrees

  // ---- what has been found so far ----

  /** The sets found, whether they are final, and their rows of transitions; the sets in open are still on the stack. */
  datatype Found = Found(sets: seq<StateSet>, final: seq<bool>, rows: seq<seq<nat>>, open: seq<nat>)

  /** The transitions of set i with the letters below a are known. */
  ghost predicate RowDone(na: Nfa, x: Found, i: nat, a: nat)
    requires i < |x.sets| == |x.rows| && |x.rows[i]| == na.letters + 1 && a <= na.letters + 1
  {
    forall b :: 1 <= b < a ==> x.rows[i][b] < |x.sets| && x.sets[x.rows[i][b]] == Successors(na, x.sets[i], b)
  }

  ghost predicate Sound(na: Nfa, x: Found)
    requires na.Valid()
  {
    && 0 < |x.sets| == |x.final| == |x.rows| && x.sets[0] == na.init && Distinct(x.sets)
    && (forall i :: 0 <= i < |x.sets| ==> |x.sets[i]| == na.states && IsReached(na, x.sets[i]))
    && (forall i :: 0 <= i < |x.sets| ==> x.final[i] == Meets(x.sets[i], na.final) && |x.rows[i]| == na.letters + 1)
    && (forall j :: 0 <= j < |x.open| ==> x.open[j] < |x.sets|)
    && (forall j, k :: 0 <= j < k < |x.open| ==> x.open[j] != x.open[k])
  }

  /** All rows are known, except for the open sets, and for set i only up to the letter a. */
  ghost predicate Explored(na: Nfa, x: Found, i: nat, a: nat)
    requires na.Valid() && Sound(na, x) && a <= na.letters + 1
  {
    && i !in x.open
    && forall j :: 0 <= j < |x.sets| && j !in x.open ==> RowDone(na, x, j, if j == i then a else na.letters + 1)
  }

  /** One more set. */
  ghost function Extended(x: Found, s: StateSet, final: bool, row: seq<nat>): Found {
    Found(x.sets + [s], x.final + [final], x.rows + [row], x.open + [|x.sets|])
  }

  lemma ExtendedSound(na: Nfa, x: Found, i: nat, a: nat, s: StateSet, final: bool, row: seq<nat>)
    requires na.Valid() && Sound(na, x) && i < |x.sets| && 1 <= a <= na.letters && Explored(na, x, i, a)
    requires s == Successors(na, x.sets[i], a) && s !in x.sets && final == Meets(s, na.final) && |row| == na.letters + 1
    ensures Sound(na, Extended(x, s, final, row)) && Explored(na, Extended(x, s, final, row), i, a)
  {
    ReachedStep(na, x.sets[i], a);
    var y := Extended(x, s, final, row);
    forall j | 0 <= j < |y.sets| && j !in y.open
      ensures RowDone(na, y, j, if j == i then a else na.letters + 1)
    {
      assert y.open[|x.open|] == |x.sets|;
      assert j !in x.open;
      assert RowDone(na, x, j, if j == i then a else na.letters + 1);
    }
  }

  /** One more transition. */
  ghost function Filled(x: Found, i: nat, a: nat, k: nat): Found
    requires i < |x.rows| && a < |x.rows[i]|
  {
    var row: seq<nat> := x.rows[i][a := k];
    x.(rows := x.rows[i := row])
  }

  lemma FilledSound(na: Nfa, x: Found, i: nat, a: nat, k: nat)
    requires na.Valid() && Sound(na, x) && i < |x.sets| && 1 <= a <= na.letters && Explored(na, x, i, a)
    requires k < |x.sets| && x.sets[k] == Successors(na, x.sets[i], a)
    ensures Sound(na, Filled(x, i, a, k)) && Explored(na, Filled(x, i, a, k), i, a + 1)
  {
    var y := Filled(x, i, a, k);
    forall j | 0 <= j < |y.sets| && j !in y.open
      ensures RowDone(na, y, j, if j == i then a + 1 else na.letters + 1)
    {
      assert RowDone(na, x, j, if j == i then a else na.letters + 1);
    }
  }

  /** Take the set on top of the stack. */
  lemma PoppedSound(na: Nfa, x: Found, i: nat)
    requires na.Valid() && Sound(na, x) && Explored(na, x, |x.sets|, 0) && x.open != [] && i == x.open[|x.open| - 1]
    ensures var y := x.(open := x.open[..|x.open| - 1]); Sound(na, y) && Explored(na, y, i, 1)
  {
    var n := |x.open| - 1;
    var y := x.(open := x.open[..n]);
    forall j | 0 <= j < |y.sets| && j !in y.open
      ensures RowDone(na, y, j, if j == i then 1 else na.letters + 1)
    {
      if j != i {
        assert x.open == y.open + [i];
        assert j !in x.open;
        assert RowDone(na, x, j, na.letters + 1);
      }
    }
  }

  lemma RowClosed(na: Nfa, x: Found, i: nat)
    requires na.Valid() && Sound(na, x) && i < |x.sets| && Explored(na, x, i, na.letters + 1)
    ensures Explored(na, x, |x.sets|, 0)
  {
    forall j | 0 <= j < |x.sets| && j !in x.open
      ensures RowDone(na, x, j, na.letters + 1)
    {
      assert RowDone(na, x, j, if j == i then na.letters + 1 else na.letters + 1);
    }
    assert |x.sets| !in x.open;
  }

  // ---- there are only finitely many sets ----

  ghost function Pow2(n: nat): nat {
    if n == 0 then 1 else 2 * Pow2(n - 1)
  }

  lemma {:induction false} ValueBound(s: StateSet)
    ensures Value(s) < Pow2(|s|)
    decreases |s|
  {
    if s != [] {
      ValueBound(s[..|s| - 1]);
    }
  }

  lemma SetsBound(sets: seq<StateSet>, n: nat)
    requires Distinct(sets) && forall i :: 0 <= i < |sets| ==> |sets[i]| == n
    ensures |sets| <= Pow2(n)
  {
    var f: seq<nat> := seq(|sets|, i requires 0 <= i < |sets| => Value(sets[i]));
    forall i | 0 <= i < |f|
      ensures f[i] < Pow2(n)
    {
      ValueBound(sets[i]);
    }
    forall i, j | 0 <= i < j < |f|
      ensures f[i] != f[j]
    {
      if f[i] == f[j] {
        ValueInjective(sets[i], sets[j]);
      }
    }
    Pigeonhole(f, Pow2(n));
  }

  /** The keys of the tree are the values of the sets. */
  ghost predicate KeysOf(t: Tree, sets: seq<StateSet>) {
    && (forall i :: 0 <= i < |sets| ==> Value(sets[i]) in Inorder(t))
    && (forall k :: k in Inorder(t) ==> exists i :: 0 <= i < |sets| && Value(sets[i]) == k)
  }

  lemma KeysMore(t: Tree, t': Tree, sets: seq<StateSet>, s: StateSet)
    requires KeysOf(t, sets) && Value(s) !in Inorder(t)
    requires forall k :: k in Inorder(t') <==> k in Inorder(t) || k == Value(s)
    ensures KeysOf(t', sets + [s]) && s !in sets
  {
    var more := sets + [s];
    assert more[|sets|] == s;
    forall k | k in Inorder(t')
      ensures exists i :: 0 <= i < |more| && Value(more[i]) == k
    {
      if k != Value(s) {
        var i :| 0 <= i < |sets| && Value(sets[i]) == k;
        assert more[i] == sets[i];
      }
    }
  }

  lemma OneKey(t: Tree, s: StateSet)
    requires Inorder(t) == [Value(s)]
    ensures KeysOf(t, [s])
  {
    assert [s][0] == s;
  }

  // ---- the construction ----

  class Builder {
    const na: Nfa
    const tree: SearchTree
    var stack: seq<TreeNode>
    var nodstates: nat
    var nxtq: TreeNode
    ghost var list: seq<TreeNode>   // the records, in the order of their numbers
    ghost var x: Found

    /** The records hold what x says. */
    ghost predicate Mirror()
      reads this, list`number, list`dfastate, list`final, list`delta
    {
      && Records()
      && |stack| == |x.open| && (forall j :: 0 <= j < |stack| ==> x.open[j] < |list| && stack[j] == list[x.open[j]])
    }

    /** The records without the stack. */
    ghost predicate Records()
      reads `list, `x, `nodstates, list`number, list`dfastate, list`final, list`delta
    {
      && |list| == |x.sets| == |x.final| == |x.rows| == nodstates + 1
      && (forall i, j :: 0 <= i < j < |list| ==> list[i] != list[j])
      && (forall i :: 0 <= i < |list| ==> list[i].number == i && list[i].dfastate == x.sets[i])
      && (forall i :: 0 <= i < |list| ==> list[i].final == x.final[i] && list[i].delta == x.rows[i])
    }

    /** The tree holds exactly the records l with the given sets. */
    ghost predicate Indexed(l: seq<TreeNode>, sets: seq<StateSet>)
      reads tree, tree.h.Keys`dfastate, tree.h.Keys`bal, tree.h.Keys`tl, tree.h.Keys`tr
    {
      && tree.Valid() && tree.n == na.states && tree.t.Node? && Refs(tree.t) == (set r | r in l)
      && KeysOf(tree.t, sets)
    }

    /** The record for the next set is clean and not in the tree. */
    ghost predicate Clean()
      reads `nxtq, `list, nxtq`dfastate, nxtq`delta, nxtq`final, tree`h
    {
      && nxtq !in tree.h && nxtq !in list
      && nxtq.dfastate == seq(na.states, _ => false) && nxtq.delta == seq(na.letters + 1, _ => 0) && !nxtq.final
    }

    ghost predicate Valid()
      reads this, list`number, list`dfastate, list`final, list`delta
      reads tree, tree.h.Keys`dfastate, tree.h.Keys`bal, tree.h.Keys`tl, tree.h.Keys`tr
    {
      na.Valid() && Mirror() && Indexed(list, x.sets) && Sound(na, x)
    }

    constructor (na: Nfa)
      requires na.Valid()
      ensures this.na == na && tree.Valid() && tree.t == Leaf && tree.n == na.states && fresh(tree)
      ensures fresh(tree.h.Keys)
      ensures stack == [] && nodstates == 0 && list == [] && Clean() && fresh(nxtq)
    {
      this.na := na;
      tree := new SearchTree(na.states, na.letters);
      stack, nodstates, list, x := [], 0, [], Found([], [], [], []);
      nxtq := new TreeNode(na.states, na.letters);
    }

    /** Collect the initial states in a record. */
    method Initial(q: TreeNode)
      requires na.Valid() && q.dfastate == seq(na.states, _ => false) && !q.final
      modifies q`dfastate, q`final
      ensures q.dfastate == na.init && q.final == Meets(na.init, na.final)
    {
      for p := 0 to na.states
        invariant |q.dfastate| == na.states
        invariant forall r :: 0 <= r < na.states ==> q.dfastate[r] == (r < p && na.init[r])
        invariant q.final == exists r :: 0 <= r < p && na.init[r] && na.final[r]
      {
        if na.init[p] {
          q.dfastate := q.dfastate[p := true];
          if na.final[p] {
            q.final := true;
          }
        }
      }
    }

    /** Collect the states that the letter a leads to from the states in actq. */
    method Successor(actq: TreeNode, a: nat)
      requires na.Valid() && |actq.dfastate| == na.states && actq != nxtq
      requires nxtq.dfastate == seq(na.states, _ => false) && !nxtq.final
      modifies nxtq`dfastate, nxtq`final
      ensures nxtq.dfastate == Successors(na, actq.dfastate, a)
      ensures nxtq.final == Meets(nxtq.dfastate, na.final)
    {
      ghost var s := actq.dfastate;
      for q := 0 to na.states
        invariant |nxtq.dfastate| == na.states && actq.dfastate == s
        invariant forall p :: 0 <= p < na.states ==> (nxtq.dfastate[p] <==> LeadsBelow(s, a, p, q))
        invariant nxtq.final == Meets(nxtq.dfastate, na.final)
      {
        if actq.dfastate[q] {
          Spread(s, a, q);
        }
      }
    }

    ghost predicate LeadsBelow(s: StateSet, a: nat, p: nat, n: nat) {
      exists q :: 0 <= q < n && q < |s| && s[q] && (a, q, p) in na.delta
    }

    /** Add the states that the letter a leads to from q. */
    method Spread(ghost s: StateSet, a: nat, q: nat)
      requires na.Valid() && q < |s| == na.states == |nxtq.dfastate| && s[q]
      requires forall p :: 0 <= p < na.states ==> (nxtq.dfastate[p] <==> LeadsBelow(s, a, p, q))
      requires nxtq.final == Meets(nxtq.dfastate, na.final)
      modifies nxtq`dfastate, nxtq`final
      ensures |nxtq.dfastate| == na.states
      ensures forall p :: 0 <= p < na.states ==> (nxtq.dfastate[p] <==> LeadsBelow(s, a, p, q + 1))
      ensures nxtq.final == Meets(nxtq.dfastate, na.final)
    {
      hide LeadsBelow;
      ghost var old0 := nxtq.dfastate;
      for p := 0 to na.states
        invariant |nxtq.dfastate| == na.states
        invariant forall r :: 0 <= r < na.states ==>
          (nxtq.dfastate[r] <==> old0[r] || (r < p && (a, q, r) in na.delta))
        invariant nxtq.final == Meets(nxtq.dfastate, na.final)
      {
        if (a, q, p) in na.delta {
          MeetsMore(nxtq.dfastate, p, na.final);
          nxtq.dfastate := nxtq.dfastate[p := true];
          if na.final[p] {
            nxtq.final := true;
          }
        }
      }
      forall p | 0 <= p < na.states
        ensures LeadsBelow(s, a, p, q + 1) <==> LeadsBelow(s, a, p, q) || (a, q, p) in na.delta
      {
        LeadsStep(s, a, p, q);
      }
    }

    lemma LeadsStep(s: StateSet, a: nat, p: nat, q: nat)
      requires q < |s| && s[q]
      ensures LeadsBelow(s, a, p, q + 1) <==> LeadsBelow(s, a, p, q) || (a, q, p) in na.delta
    {
    }

    lemma MeetsMore(s: StateSet, p: nat, f: StateSet)
      requires p < |s| == |f|
      ensures Meets(s[p := true], f) <==> Meets(s, f) || f[p]
    {
      var r := s[p := true];
      if Meets(s, f) {
        var q :| 0 <= q < |s| && q < |f| && s[q] && f[q];
        assert r[q] && f[q];
      }
      if f[p] {
        assert r[p] && f[p];
      }
      if Meets(r, f) {
        var q :| 0 <= q < |r| && q < |f| && r[q] && f[q];
        assert q != p ==> s[q];
      }
    }

    /** A new record for the next set. */
    method NewState()
      requires Valid()
      modifies this`nxtq
      ensures Valid() && Clean() && fresh(nxtq)
    {
      hide SearchTree.Valid, Sound, Refs, Inorder;
      nxtq := new TreeNode(na.states, na.letters);
    }

    /** The record of the initial states becomes the root of the tree and goes on the stack. */
    method Root(actq: TreeNode)
      requires na.Valid() && tree.Valid() && tree.t == Leaf && tree.n == na.states && actq !in tree.h
      requires stack == [] && nodstates == 0 && list == []
      requires actq.bal == 0 && actq.tl == null && actq.tr == null && actq.number == 0
      requires actq.dfastate == na.init && actq.final == Meets(na.init, na.final) && |actq.delta| == na.letters + 1
      modifies this`stack, this`list, this`x, tree`h, tree`t, tree.baltree`tr
      ensures Valid() && Explored(na, x, |x.sets|, 0) && list == [actq] && stack == [actq]
      ensures tree.h.Keys == old(tree.h.Keys) + {actq}
    {
      hide SearchTree.Valid, Sound, Explored, Refs, Inorder, Meets, KeysOf;
      stack := [actq];
      tree.First(actq);
      list := [actq];
      x := Found([na.init], [actq.final], [actq.delta], [0]);
      StartSound(actq.final, actq.delta);
      OneKey(tree.t, na.init);
    }

    /** The set of initial states gets the number 0. */
    method Start()
      requires na.Valid() && tree.Valid() && tree.t == Leaf && tree.n == na.states
      requires stack == [] && nodstates == 0 && list == []
      modifies this, tree, tree.baltree
      ensures Valid() && Clean() && Explored(na, x, |x.sets|, 0) && stack != []
      ensures fresh(tree.h.Keys + {nxtq} - old(tree.h.Keys))
    {
      hide SearchTree.Valid, Sound, Explored, Refs, Inorder, Meets, Valid;
      var actq := new TreeNode(na.states, na.letters);
      Initial(actq);
      Root(actq);
      NewState();
    }

    lemma StartSound(final: bool, row: seq<nat>)
      requires na.Valid() && final == Meets(na.init, na.final) && |row| == na.letters + 1
      ensures var x := Found([na.init], [final], [row], [0]); Sound(na, x) && Explored(na, x, 1, 0)
    {
      var none: Word := [];
      assert After(na, na.init, none) == na.init && IsWord(none, na.letters);
    }

    /** The next set has been collected from set i with the letter a. */
    ghost predicate Collected(i: nat, a: nat)
      reads this, nxtq`dfastate, nxtq`delta, nxtq`final
    {
      && na.Valid() && i < |x.sets| && 1 <= a <= na.letters
      && nxtq.dfastate == Successors(na, x.sets[i], a) && nxtq.final == Meets(nxtq.dfastate, na.final)
      && nxtq.delta == seq(na.letters + 1, _ => 0)
    }

    /** A set that is new gets the next number and goes on the stack. */
    method Add(ghost i: nat, ghost a: nat)
      requires Mirror() && Collected(i, a) && Sound(na, x) && Explored(na, x, i, a)
      requires nxtq !in list && nxtq.dfastate !in x.sets
      modifies this`nodstates, this`stack, this`list, this`x, nxtq`number
      ensures Mirror() && Sound(na, x) && Explored(na, x, i, a)
      ensures list == old(list) + [nxtq] && x == Extended(old(x), nxtq.dfastate, nxtq.final, nxtq.delta)
      ensures nxtq.number == |list| - 1
    {
      hide Sound, Explored, Meets;
      ExtendedSound(na, x, i, a, nxtq.dfastate, nxtq.final, nxtq.delta);
      hide Records;
      NumberRecord();
      stack := stack + [nxtq];
    }

    /** The record at hand gets the next number. */
    method NumberRecord()
      requires Records() && nxtq !in list
      modifies this`nodstates, this`list, this`x, nxtq`number
      ensures Records() && nxtq.number == |list| - 1
      ensures list == old(list) + [nxtq] && x == Extended(old(x), nxtq.dfastate, nxtq.final, nxtq.delta)
    {
      nodstates := nodstates + 1;
      nxtq.number := nodstates;
      list := list + [nxtq];
      x := Extended(x, nxtq.dfastate, nxtq.final, nxtq.delta);
    }

    /** A set that is known is wiped out. */
    method Clear()
      modifies nxtq`dfastate, nxtq`delta, nxtq`final
      ensures nxtq.dfastate == seq(na.states, _ => false) && nxtq.delta == seq(na.letters + 1, _ => 0) && !nxtq.final
    {
      nxtq.dfastate := seq(na.states, _ => false);
      nxtq.delta := seq(na.letters + 1, _ => 0);
      nxtq.final := false;
    }

    /** Write one entry of the row of record i. */
    method FillRecord(actq: TreeNode, ghost i: nat, a: nat, k: nat)
      requires Records() && i < |list| && actq == list[i] && a < |x.rows[i]|
      modifies this`x, actq`delta
      ensures Records() && x == Filled(old(x), i, a, k)
    {
      actq.delta := actq.delta[a := k];
      x := Filled(x, i, a, k);
    }

    /** Enter the transition of set i with the letter a to set k. */
    method Fill(actq: TreeNode, ghost i: nat, a: nat, k: nat)
      requires Mirror() && na.Valid() && Sound(na, x) && i < |x.sets| && 1 <= a <= na.letters && Explored(na, x, i, a)
      requires actq == list[i] && k < |x.sets| && x.sets[k] == Successors(na, x.sets[i], a)
      modifies this`x, actq`delta
      ensures Mirror() && Sound(na, x) && Explored(na, x, i, a + 1) && x == Filled(old(x), i, a, k)
    {
      assert |x.rows[i]| == na.letters + 1;
      FilledSound(na, x, i, a, k);
      hide Sound, Explored, Records;
      FillRecord(actq, i, a, k);
    }

    /** Look the collected set up in the tree. */
    method Find(ghost i: nat, ghost a: nat) returns (found: bool)
      requires Valid() && Collected(i, a) && nxtq !in tree.h
      modifies tree`h, tree`t, tree`knownelem, nxtq`tl, nxtq`tr, nxtq`bal, tree.h.Keys`tl, tree.h.Keys`tr
      modifies tree.h.Keys`bal
      ensures found ==> Indexed(list, x.sets) && tree.h == old(tree.h)
      ensures found ==> tree.knownelem in list && tree.knownelem.dfastate == nxtq.dfastate
      ensures !found ==> Indexed(list + [nxtq], x.sets + [nxtq.dfastate]) && tree.h.Keys == old(tree.h.Keys) + {nxtq}
      ensures !found ==> tree.knownelem == nxtq && nxtq.dfastate !in x.sets
    {
      hide SearchTree.Valid, Sound, Refs, Inorder, KeysOf, Mirror;
      ghost var t := tree.t;
      found := tree.Search(nxtq);
      if !found {
        KeysMore(t, tree.t, x.sets, nxtq.dfastate);
      }
    }

    /** Look the collected set up; it is numbered if it is new. */
    method LookUp(ghost i: nat, ghost a: nat) returns (k: nat)
      requires Valid() && Collected(i, a) && Explored(na, x, i, a) && nxtq !in tree.h && nxtq !in list
      modifies this`nodstates, this`stack, this`list, this`x, this`nxtq, tree`h, tree`t, tree`knownelem, nxtq
      modifies tree.h.Keys`tl, tree.h.Keys`tr, tree.h.Keys`bal
      ensures Valid() && Clean() && Explored(na, x, i, a) && (nxtq == old(nxtq) || fresh(nxtq))
      ensures old(x.sets) <= x.sets && old(list) <= list && old(x.open) <= x.open
      ensures tree.h.Keys <= old(tree.h.Keys) + {old(nxtq)}
      ensures |x.open| - |old(x.open)| == |x.sets| - |old(x.sets)|
      ensures k < |x.sets| && x.sets[k] == Successors(na, x.sets[i], a)
    {
      hide SearchTree.Valid, Sound, Refs, Inorder, KeysOf, Explored, Meets;
      var found := Find(i, a);
      if !found {
        Add(i, a);
        k := tree.knownelem.number;
        NewState();
      } else {
        k := tree.knownelem.number;
        Clear();
      }
    }

    /** What is known about the record of set i. */
    lemma RecordFacts(i: nat)
      requires Valid() && i < |x.sets|
      ensures na.Valid() && Sound(na, x) && |list| == |x.sets| && list[i] in tree.h && list[i].dfastate == x.sets[i]
      ensures |x.sets[i]| == na.states
    {
      assert list[i] in list;
    }

    /** One transition of set i: collect, look up, enter. */
    method Transition(actq: TreeNode, ghost i: nat, a: nat)
      requires Valid() && Clean() && i < |x.sets| == |list| && actq == list[i] && 1 <= a <= na.letters
      requires Explored(na, x, i, a)
      modifies this`nodstates, this`stack, this`list, this`x, this`nxtq, tree`h, tree`t, tree`knownelem, nxtq
      modifies tree.h.Keys`tl, tree.h.Keys`tr, tree.h.Keys`bal, actq`delta
      ensures Valid() && Clean() && Explored(na, x, i, a + 1) && (nxtq == old(nxtq) || fresh(nxtq))
      ensures old(x.sets) <= x.sets && old(list) <= list && tree.h.Keys <= old(tree.h.Keys) + {old(nxtq)}
      ensures |x.open| - |old(x.open)| == |x.sets| - |old(x.sets)|
    {
      hide SearchTree.Valid, Sound, Refs, Inorder, KeysOf, Explored, Meets;
      RecordFacts(i);
      assert list[i] in list;
      Successor(actq, a);
      var k := LookUp(i, a);
      Fill(actq, i, a, k);
    }

    /** Take a set from the stack. */
    method Pop() returns (actq: TreeNode, ghost i: nat)
      requires Valid() && Explored(na, x, |x.sets|, 0) && stack != []
      modifies this`stack, this`x
      ensures na.Valid() && Valid() && Sound(na, x) && i < |x.sets| == |list| && actq == list[i]
      ensures Explored(na, x, i, 1)
      ensures x == old(x).(open := x.open) && |x.open| == |old(x.open)| - 1
    {
      hide SearchTree.Valid, Sound, Refs, Inorder, KeysOf, Explored;
      actq := stack[|stack| - 1];
      i := x.open[|x.open| - 1];
      PoppedSound(na, x, i);
      stack := stack[..|stack| - 1];
      x := x.(open := x.open[..|x.open| - 1]);
    }

    /** Take a set from the stack and compute its transitions. */
    method Step()
      requires Valid() && Clean() && Explored(na, x, |x.sets|, 0) && stack != []
      modifies this`nodstates, this`stack, this`list, this`x, this`nxtq, tree`h, tree`t, tree`knownelem, nxtq
      modifies tree.h.Keys
      ensures Valid() && Clean() && Explored(na, x, |x.sets|, 0)
      ensures fresh(tree.h.Keys + {nxtq} - old(tree.h.Keys + {nxtq}))
      ensures |x.sets| > |old(x.sets)| || (|x.sets| == |old(x.sets)| && |x.open| < |old(x.open)|)
    {
      hide SearchTree.Valid, Explored, Valid, Clean, Mirror, Indexed;
      var actq;
      ghost var i;
      actq, i := Pop();
      ghost var x0 := x;
      for a := 1 to na.letters + 1
        invariant Valid() && Clean() && na.Valid() && Sound(na, x) && Explored(na, x, i, a)
        invariant i < |x.sets| == |list| && actq == list[i]
        invariant |x.sets| >= |x0.sets| && |x.open| - |x0.open| == |x.sets| - |x0.sets|
        invariant fresh(tree.h.Keys + {nxtq} - old(tree.h.Keys + {nxtq}))
      {
        RecordFacts(i);
        Transition(actq, i, a);
        RecordFacts(i);
      }
      RowClosed(na, x, i);
    }

    lemma FewSets()
      requires Valid()
      ensures na.Valid() && Sound(na, x) && |x.sets| <= Pow2(na.states) && |x.open| == |stack|
    {
      SetsBound(x.sets, na.states);
    }

    /** Take sets from the stack until it is empty. */
    method Exhaust()
      requires Valid() && Clean() && Explored(na, x, |x.sets|, 0) && stack != []
      modifies this, tree, tree.h.Keys, nxtq
      ensures Valid() && Explored(na, x, |x.sets|, 0) && x.open == []
    {
      hide SearchTree.Valid, Explored, Valid, Clean, Mirror, Indexed, Sound, Pow2;
      Step();
      FewSets();
      while stack != []
        invariant na.Valid() && Sound(na, x) && Valid() && Clean() && Explored(na, x, |x.sets|, 0)
        invariant fresh(tree.h.Keys + {nxtq} - old(tree.h.Keys + {nxtq}))
        invariant |x.sets| <= Pow2(na.states) && |x.open| == |stack|
        decreases Pow2(na.states) - |x.sets|, |x.open|
      {
        Step();
        FewSets();
      }
    }

    /** Compute all sets that are reached, and their transitions. */
    method CompNewStates()
      requires na.Valid() && tree.Valid() && tree.t == Leaf && tree.n == na.states
      requires stack == [] && nodstates == 0 && list == []
      modifies this, tree, tree.h.Keys, nxtq
      ensures Valid() && Explored(na, x, |x.sets|, 0) && x.open == []
    {
      assert tree.baltree in tree.h;
      hide SearchTree.Valid, Explored, Valid, Clean, Mirror, Indexed;
      Start();
      Exhaust();
    }

    // ---- copying the tree ----

    /** The tables have the entries of the records visited. */
    ghost predicate Copied(final: seq<bool>, delta: seq<seq<nat>>, visited: seq<TreeNode>)
      requires Records()
      reads `list, `x, `nodstates, list`number, list`dfastate, list`final, list`delta
    {
      && |final| == nodstates + 1 && |delta| == na.letters + 1
      && (forall a :: 0 <= a <= na.letters ==> |delta[a]| == nodstates + 1)
      && (forall i :: 0 <= i < |list| ==> |x.rows[i]| == na.letters + 1)
      && (forall i :: 0 <= i < |list| && list[i] in visited ==> final[i] == x.final[i])
      && (forall i, a :: 0 <= i < |list| && list[i] in visited && 1 <= a <= na.letters ==> delta[a][i] == x.rows[i][a])
    }

    /** Copy one record into the tables. */
    method Visit(actq: TreeNode, final: seq<bool>, delta: seq<seq<nat>>, ghost visited: seq<TreeNode>)
      returns (final': seq<bool>, delta': seq<seq<nat>>)
      requires Records() && Copied(final, delta, visited) && actq in list
      ensures Copied(final', delta', visited + [actq])
    {
      ghost var k :| 0 <= k < |list| && list[k] == actq;
      final' := final[actq.number := actq.final];
      delta' := delta;
      for a := 1 to na.letters + 1
        invariant |delta'| == na.letters + 1 && (forall b :: 0 <= b <= na.letters ==> |delta'[b]| == nodstates + 1)
        invariant forall b, i :: 1 <= b <= na.letters && 0 <= i < |list| ==>
          delta'[b][i] == if i == k && b < a then x.rows[k][b] else delta[b][i]
      {
        var row: seq<nat> := delta'[a][actq.number := actq.delta[a]];
        delta' := delta'[a := row];
      }
      forall i | 0 <= i < |list| && list[i] in visited + [actq]
        ensures i == k || list[i] in visited
      {
      }
    }

    /** The traversal stands before the subtree cur; the trees p are on the stack. */
    ghost predicate Walking(cur: Tree, p: seq<Tree>, visited: seq<TreeNode>)
      reads this, tree
    {
      && RefOrder(tree.t) == visited + (RefOrder(cur) + Pending(p)) && Linked(tree.h, cur)
      && |stack| == |p|
      && forall j :: 0 <= j < |p| ==> p[j].Node? && stack[j] == p[j].ref && Linked(tree.h, p[j])
    }

    lemma NodeLinks(cur: Tree)
      requires tree.Valid() && Linked(tree.h, cur) && cur.Node?
      ensures cur.ref.tl == RefOf(cur.left) && cur.ref.tr == RefOf(cur.right)
      ensures Linked(tree.h, cur.left) && Linked(tree.h, cur.right)
    {
    }

    /** Go to the leftmost node below actq and push the nodes on the way. */
    method GoLeft(actq0: TreeNode?, ghost cur0: Tree, ghost p0: seq<Tree>, ghost visited: seq<TreeNode>)
      returns (ghost p: seq<Tree>)
      requires tree.Valid() && Walking(cur0, p0, visited) && actq0 == RefOf(cur0)
      modifies this`stack
      ensures Walking(Leaf, p, visited)
    {
      hide SearchTree.Valid, Linked, RefOrder, Pending;
      var actq := actq0;
      p := p0;
      ghost var cur := cur0;
      while actq != null
        invariant Walking(cur, p, visited) && actq == RefOf(cur)
        decreases cur
      {
        NodeLinks(cur);
        PushPending(cur, p);
        stack := stack + [actq];
        p := p + [cur];
        actq := actq.tl;
        cur := cur.left;
      }
    }

    /** Take the next node from the stack. */
    method Next(ghost p: seq<Tree>, ghost visited: seq<TreeNode>)
      returns (actq: TreeNode, ghost p': seq<Tree>, ghost right: Tree)
      requires tree.Valid() && Walking(Leaf, p, visited) && stack != []
      modifies this`stack
      ensures Walking(right, p', visited + [actq]) && actq in Refs(tree.t) && actq.tr == RefOf(right)
    {
      hide SearchTree.Valid, Linked, Refs, RefOrder, Pending;
      var n := |stack| - 1;
      actq := stack[n];
      ghost var c := p[n];
      p', right := p[..n], c.right;
      NodeLinks(c);
      PopPending(p, visited);
      VisitedNext(visited, actq, RefOrder(right) + Pending(p'));
      stack := stack[..n];
    }

    lemma VisitedNext(visited: seq<TreeNode>, actq: TreeNode, rest: seq<TreeNode>)
      requires RefOrder(tree.t) == (visited + [actq]) + rest
      ensures actq in Refs(tree.t)
    {
      RefsInOrder(tree.t);
      assert RefOrder(tree.t)[|visited|] == actq;
    }

    /** Take the next node from the stack and copy its record. */
    method VisitNext(final: seq<bool>, delta: seq<seq<nat>>, ghost p: seq<Tree>, ghost visited: seq<TreeNode>)
      returns (actq: TreeNode?, final': seq<bool>, delta': seq<seq<nat>>, ghost p': seq<Tree>, ghost right: Tree,
               ghost visited': seq<TreeNode>)
      requires tree.Valid() && Walking(Leaf, p, visited) && stack != [] && Refs(tree.t) == (set r | r in list)
      requires Records() && Copied(final, delta, visited)
      modifies this`stack
      ensures Walking(right, p', visited') && actq == RefOf(right) && Copied(final', delta', visited')
      ensures |visited'| == |visited| + 1
    {
      hide SearchTree.Valid, Linked, Refs, RefOrder, Pending, Copied, Walking;
      var node;
      node, p', right := Next(p, visited);
      final', delta' := Visit(node, final, delta, visited);
      visited' := visited + [node];
      actq := node.tr;
    }

    /** Traverse the tree in order and copy every record once. */
    method CpInfo() returns (final: seq<bool>, delta: seq<seq<nat>>, ghost visited: seq<TreeNode>)
      requires Valid() && x.open == []
      modifies this`stack
      ensures Records() && visited == RefOrder(tree.t) && Copied(final, delta, visited)
      ensures Refs(tree.t) == (set r | r in list)
    {
      hide SearchTree.Valid, Linked, Refs, RefOrder, Pending, Copied, Walking, Valid, Mirror, Records;
      var n := nodstates + 1;
      final := seq(n, _ => false);
      delta := seq(na.letters + 1, _ => seq(n, _ => 0));
      visited := [];
      var actq := tree.baltree.tr;
      ghost var cur := tree.t;
      ghost var p: seq<Tree> := [];
      StartWalk(final, delta);
      while true
        invariant tree.Valid() && Records() && Refs(tree.t) == (set r | r in list)
        invariant Walking(cur, p, visited) && actq == RefOf(cur) && Copied(final, delta, visited)
        decreases |RefOrder(tree.t)| - |visited|
      {
        p := GoLeft(actq, cur, p, visited);
        WalkLeft(Leaf, p, visited);
        if stack == [] {
          WalkDone(p, visited);
          return;
        }
        actq, final, delta, p, cur, visited := VisitNext(final, delta, p, visited);
        WalkLeft(cur, p, visited);
      }
    }

    lemma WalkLeft(cur: Tree, p: seq<Tree>, visited: seq<TreeNode>)
      requires Walking(cur, p, visited)
      ensures |RefOrder(tree.t)| >= |visited|
    {
    }

    lemma WalkDone(p: seq<Tree>, visited: seq<TreeNode>)
      requires Walking(Leaf, p, visited) && stack == []
      ensures visited == RefOrder(tree.t)
    {
      assert p == [] && RefOrder(Leaf) == [] && Pending(p) == [];
    }

    lemma StartWalk(final: seq<bool>, delta: seq<seq<nat>>)
      requires Valid() && x.open == []
      requires |final| == nodstates + 1 && |delta| == na.letters + 1
      requires forall a :: 0 <= a <= na.letters ==> |delta[a]| == nodstates + 1
      ensures tree.Valid() && Records() && Refs(tree.t) == (set r | r in list) && Walking(tree.t, [], [])
      ensures Copied(final, delta, []) && tree.baltree.tr == RefOf(tree.t)
    {
      var none: seq<Tree> := [];
      assert Pending(none) == [];
      assert RefOrder(tree.t) == [] + (RefOrder(tree.t) + Pending(none));
    }
  }

  // ---- the whole translation ----

  /** Without initial states one state that is not final and leads to itself is enough. */
  lemma NoInitialState(na: Nfa, da: Dfa)
    requires na.Valid() && forall q :: 0 <= q < na.states ==> !na.init[q]
    requires da == Dfa(1, na.letters, 0, [false], seq(na.letters + 1, _ => [0]))
    ensures IsSubsetDfa(da, na, [na.init])
  {
    var none: Word := [];
    assert After(na, na.init, none) == na.init && IsWord(none, na.letters);
    forall a | 1 <= a <= na.letters
      ensures Successors(na, na.init, a) == na.init
    {
      var s := Successors(na, na.init, a);
      assert forall p :: 0 <= p < |s| ==> s[p] == na.init[p];
    }
  }

  lemma TablesSubsetDfa(na: Nfa, x: Found, da: Dfa)
    requires na.Valid() && Sound(na, x) && Explored(na, x, |x.sets|, 0) && x.open == []
    requires da.states == |x.sets| && da.letters == na.letters && da.init == 0
    requires |da.final| == |x.sets| && |da.delta| == na.letters + 1
    requires forall a :: 0 <= a <= na.letters ==> |da.delta[a]| == |x.sets|
    requires forall i :: 0 <= i < |x.sets| ==> da.final[i] == x.final[i]
    requires forall i, a :: 0 <= i < |x.sets| && 1 <= a <= na.letters ==> da.delta[a][i] == x.rows[i][a]
    ensures IsSubsetDfa(da, na, x.sets)
  {
    forall a, i | 1 <= a <= na.letters && 0 <= i < |x.sets|
      ensures da.delta[a][i] < |x.sets| && x.sets[da.delta[a][i]] == Successors(na, x.sets[i], a)
    {
      assert i !in x.open && RowDone(na, x, i, na.letters + 1);
      assert da.delta[a][i] == x.rows[i][a];
    }
  }

  /** The tables cover all records. */
  lemma AllCopied(b: Builder, final: seq<bool>, delta: seq<seq<nat>>, visited: seq<TreeNode>)
    requires b.Records() && b.Copied(final, delta, visited) && Refs(b.tree.t) == (set r | r in b.list)
    requires visited == RefOrder(b.tree.t)
    ensures |final| == |b.x.sets| && |delta| == b.na.letters + 1
    ensures forall a :: 0 <= a <= b.na.letters ==> |delta[a]| == |b.x.sets|
    ensures forall i :: 0 <= i < |b.x.sets| ==> |b.x.rows[i]| == b.na.letters + 1 && final[i] == b.x.final[i]
    ensures forall i, a :: 0 <= i < |b.x.sets| && 1 <= a <= b.na.letters ==> delta[a][i] == b.x.rows[i][a]
  {
    RefsInOrder(b.tree.t);
    forall i | 0 <= i < |b.list|
      ensures b.list[i] in visited
    {
      assert b.list[i] in b.list;
    }
  }

  /** The states of the automaton stand for exactly the sets of states that words reach. */
  method Nfa2Dfa(na: Nfa) returns (da: Dfa, ghost sets: seq<StateSet>)
    requires na.Valid()
    ensures IsSubsetDfa(da, na, sets)
    ensures forall w :: IsWord(w, na.letters) ==> (da.Accepts(w) <==> na.Accepts(w))
    ensures da.AllReachable()
  {
    var empty, q := true, 0;
    while q < na.states && empty
      invariant q <= na.states && empty == forall p :: 0 <= p < q ==> !na.init[p]
    {
      if na.init[q] {
        empty := false;
      }
      q := q + 1;
    }
    if empty {
      da := Dfa(1, na.letters, 0, [false], seq(na.letters + 1, _ => [0]));
      sets := [na.init];
      NoInitialState(na, da);
    } else {
      da, sets := Powerset(na);
    }
    SubsetDfaExact(da, na, sets);
  }

  method Powerset(na: Nfa) returns (da: Dfa, ghost sets: seq<StateSet>)
    requires na.Valid()
    ensures IsSubsetDfa(da, na, sets)
  {
    hide SearchTree.Valid, Sound, Explored, KeysOf, Refs, RefOrder, Builder.Copied, IsSubsetDfa, Builder.Clean;
    var b := new Builder(na);
    b.CompNewStates();
    var final, delta;
    ghost var visited;
    final, delta, visited := b.CpInfo();
    AllCopied(b, final, delta, visited);
    sets := b.x.sets;
    da := Dfa(b.nodstates + 1, na.letters, 0, final, delta);
    TablesSubsetDfa(na, b.x, da);
  }
}
