/** Circular doubly linked lists kept in two tables: next[s] and prev[s] are the neighbours of s. */
module CircularLists {
  import opened Automata

  function After(i: nat, n: nat): nat {
    if i + 1 < n then i + 1 else 0
  }

  /** The elements of list are linked to a ring in this order. */
  ghost predicate Circular(list: seq<nat>, next: seq<nat>, prev: seq<nat>) {
    && Distinct(list)
    && (forall i :: 0 <= i < |list| ==> list[i] < |next| && list[i] < |prev|)
    && (forall i :: 0 <= i < |list| ==> next[list[i]] == list[After(i, |list|)])
    && (forall i :: 0 <= i < |list| ==> prev[list[After(i, |list|)]] == list[i])
  }

  /** The elements of list are linked one after the other; the ends are open. */
  ghost predicate Chained(list: seq<nat>, next: seq<nat>, prev: seq<nat>) {
    && (forall i :: 0 <= i < |list| ==> list[i] < |next| && list[i] < |prev|)
    && (forall i :: 0 <= i < |list| - 1 ==> next[list[i]] == list[i + 1])
    && (forall i :: 0 <= i < |list| - 1 ==> prev[list[i + 1]] == list[i])
  }

  function Without(list: seq<nat>, p: nat): seq<nat>
    requires p < |list|
  {
    list[..p] + list[p + 1..]
  }

  lemma WithoutElements(list: seq<nat>, p: nat)
    requires p < |list| && Distinct(list)
    ensures Distinct(Without(list, p)) && |Without(list, p)| == |list| - 1
    ensures forall x :: x in Without(list, p) <==> x in list && x != list[p]
  {
    var rest := Without(list, p);
    forall x | x in list && x != list[p]
      ensures x in rest
    {
      var i :| 0 <= i < |list| && list[i] == x;
      assert x == rest[if i < p then i else i - 1];
    }
  }

  /** Distinct elements taken from a list are no more than the list has, and all of it if as many. */
  lemma {:induction false} SubsetLength(x: seq<nat>, list: seq<nat>)
    requires Distinct(x) && Distinct(list) && (forall s :: s in x ==> s in list)
    ensures |x| <= |list|
    ensures |x| == |list| ==> forall s :: s in list ==> s in x
    decreases |x|
  {
    if |x| > 0 {
      assert x[0] in list;
      var p: nat :| p < |list| && list[p] == x[0];
      WithoutElements(list, p);
      assert forall s :: s in x[1..] ==> s in x && s != x[0];
      SubsetLength(x[1..], Without(list, p));
      forall s | |x| == |list| && s in list
        ensures s in x
      {
        if s != x[0] {
          assert s in Without(list, p);
          assert s in x[1..];
        }
      }
    }
  }

  ghost predicate Unlinked(list: seq<nat>, p: nat, next: seq<nat>, prev: seq<nat>, next': seq<nat>, prev': seq<nat>)
    requires p < |list|
  {
    var x := list[p];
    && x < |next| && x < |prev| && prev[x] < |next| && next[x] < |prev|
    && next' == next[prev[x] := next[x]] && prev' == prev[next[x] := prev[x]]
  }

  lemma UnlinkNext(list: seq<nat>, p: nat, next: seq<nat>, prev: seq<nat>, next': seq<nat>, prev': seq<nat>, k: nat)
    requires Circular(list, next, prev) && p < |list| && |list| >= 2
    requires Unlinked(list, p, next, prev, next', prev')
    requires k < |list| && k != p
    ensures var m := if After(k, |list|) == p then After(p, |list|) else After(k, |list|);
      next'[list[k]] == list[m] && prev'[list[m]] == list[k]
  {
    var n := |list|;
    var before := if p == 0 then n - 1 else p - 1;
    assert After(before, n) == p;
    assert prev[list[p]] == list[before] && next[list[p]] == list[After(p, n)];
    assert next[list[k]] == list[After(k, n)] && prev[list[After(k, n)]] == list[k];
    if k != before {
      assert After(k, n) != After(p, n);
    }
  }

  /** Taking one element out of a ring by joining its neighbours. */
  lemma Unlink(list: seq<nat>, p: nat, next: seq<nat>, prev: seq<nat>, next': seq<nat>, prev': seq<nat>)
    requires Circular(list, next, prev) && p < |list| && |list| >= 2
    requires Unlinked(list, p, next, prev, next', prev')
    ensures Circular(Without(list, p), next', prev')
    ensures Without(list, p)[0] == (if p == 0 then next[list[p]] else list[0])
  {
    var rest := Without(list, p);
    WithoutElements(list, p);
    forall i | 0 <= i < |rest|
      ensures next'[rest[i]] == rest[After(i, |rest|)] && prev'[rest[After(i, |rest|)]] == rest[i]
    {
      UnlinkNext(list, p, next, prev, next', prev', if i < p then i else i + 1);
    }
    assert next[list[p]] == list[After(p, |list|)];
    assert forall i :: 0 <= i < |rest| ==> rest[i] in list;
  }

  lemma NeighboursInside(list: seq<nat>, p: nat, next: seq<nat>, prev: seq<nat>)
    requires Circular(list, next, prev) && p < |list|
    ensures next[list[p]] in list && next[list[p]] < |prev|
    ensures prev[list[p]] in list && prev[list[p]] < |next|
    ensures |list| > 1 ==> next[list[p]] != list[p] && prev[list[p]] != list[p]
  {
    var before := if p == 0 then |list| - 1 else p - 1;
    assert After(before, |list|) == p;
    assert next[list[p]] == list[After(p, |list|)] && prev[list[After(before, |list|)]] == list[before];
  }

  /** Links outside a ring may change. */
  lemma CircularFrame(list: seq<nat>, next: seq<nat>, prev: seq<nat>, next': seq<nat>, prev': seq<nat>)
    requires Circular(list, next, prev) && |next'| == |next| && |prev'| == |prev|
    requires forall x :: x in list ==> next'[x] == next[x] && prev'[x] == prev[x]
    ensures Circular(list, next', prev')
  {
  }

  lemma ChainedFrame(list: seq<nat>, next: seq<nat>, prev: seq<nat>, next': seq<nat>, prev': seq<nat>)
    requires Chained(list, next, prev) && |next'| == |next| && |prev'| == |prev|
    requires forall x :: x in list ==> next'[x] == next[x] && prev'[x] == prev[x]
    ensures Chained(list, next', prev')
  {
  }

  /** An element linked behind the last one of a chain. */
  lemma ChainedExtend(list: seq<nat>, x: nat, next: seq<nat>, prev: seq<nat>)
    requires Chained(list, next, prev) && Distinct(list) && x !in list && |list| > 0
    requires x < |next| && x < |prev|
    ensures Chained(list + [x], next[list[|list| - 1] := x], prev[x := list[|list| - 1]])
  {
  }

  /** Joining the ends of a chain. */
  lemma ChainedClose(list: seq<nat>, next: seq<nat>, prev: seq<nat>)
    requires Chained(list, next, prev) && Distinct(list) && |list| > 0
    ensures Circular(list, next[list[|list| - 1] := list[0]], prev[list[0] := list[|list| - 1]])
  {
  }
}
