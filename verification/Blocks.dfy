/** The partition of Hopcroft's algorithm: every block is a circular doubly linked list over tables. */
module Blocks {
  import opened Automata
  import opened CircularLists

  /** The contents of the tables. */
  datatype Tables = Tables(inblock: seq<nat>, size: seq<nat>, start: seq<nat>, next: seq<nat>, prev: seq<nat>)
  {
    ghost predicate Shape(n: nat) {
      |inblock| == |size| == |start| == |next| == |prev| == n
    }
  }

  /** list enumerates block b in the order of its links. */
  ghost predicate BlockOk(list: seq<nat>, b: nat, n: nat, was: seq<nat>, t: Tables)
    requires t.Shape(n) && |was| == n && b < n
  {
    && Circular(list, t.next, t.prev)
    && |list| == t.size[b] > 0
    && list[0] == t.start[b]
    && (forall s :: s in list ==> s < n && was[s] == b)
  }

  /** The tables describe exactly the partition of 0..n-1 into the blocks lists[0], lists[1], ... */
  ghost predicate Partition(lists: seq<seq<nat>>, n: nat, t: Tables) {
    && t.Shape(n) && |lists| <= n
    && (forall b :: 0 <= b < |lists| ==> BlockOk(lists[b], b, n, t.inblock, t))
    && (forall s :: 0 <= s < n ==> t.inblock[s] < |lists| && s in lists[t.inblock[s]])
  }

  /** There is room for one more block when some block has two members. */
  lemma RoomForSplit(lists: seq<seq<nat>>, n: nat, t: Tables, bl: nat)
    requires Partition(lists, n, t) && bl < |lists| && |lists[bl]| >= 2
    ensures |lists| < n
  {
    var heads := seq(|lists|, b requires 0 <= b < |lists| && |lists[b]| > 0 => lists[b][0]);
    var f := heads + [lists[bl][1]];
    forall b | 0 <= b < |lists|
      ensures heads[b] < n && t.inblock[heads[b]] == b
    {
      assert lists[b][0] in lists[b];
    }
    assert lists[bl][1] in lists[bl] && lists[bl][0] != lists[bl][1];
    forall i, j | 0 <= i < j < |f|
      ensures f[i] != f[j]
    {
      assert f[i] == heads[i];
      assert j < |heads| ==> f[j] == heads[j];
    }
    Pigeonhole(f, n);
  }

  /** The removal of x[0], x[1], ... from block bl into the new block nb, after i steps: `rest` is what is
      left of the ring, and x[..i] hang together as an open chain. */
  ghost predicate Moving(lists: seq<seq<nat>>, n: nat, was: seq<nat>, bl: nat, nb: nat, x: seq<nat>,
                         i: nat, rest: seq<nat>, t: Tables)
  {
    && t.Shape(n) && |was| == n && bl < |lists| == nb < n && i <= |x| && 0 < |x| < |lists[bl]|
    && Distinct(x) && (forall s :: s in x ==> s in lists[bl])
    && (forall s :: s in lists[bl] ==> s < n && was[s] == bl)
    && Circular(rest, t.next, t.prev) && |rest| == |lists[bl]| - i
    && rest[0] == t.start[bl] && t.start[nb] == x[0]
    && (forall s :: s in rest <==> s in lists[bl] && s !in x[..i])
    && Chained(x[..i], t.next, t.prev)
    && (forall b :: 0 <= b < nb && b != bl ==> BlockOk(lists[b], b, n, was, t))
    && (forall s :: 0 <= s < n ==> t.inblock[s] == if s in x[..i] then nb else was[s])
  }

  /** What one step of the loop does to the tables. */
  ghost predicate Moved(n: nat, bl: nat, nb: nat, state: nat, last: nat, t: Tables, t': Tables)
  {
    && t.Shape(n) && t'.Shape(n) && bl < n && nb < n && state < n && last < n
    && t.prev[state] < n && t.next[state] < n
    && t'.inblock == t.inblock[state := nb]
    && t'.size == t.size
    && t'.start == (if state == t.start[bl] then t.start[bl := t.next[state]] else t.start)
    && t'.next == t.next[t.prev[state] := t.next[state]][last := state]
    && t'.prev == t.prev[t.next[state] := t.prev[state]][state := last]
  }

  /** The links alone: the ring without its member at p, and the chain with it. */
  lemma MoveLinks(rest: seq<nat>, p: nat, chain: seq<nat>, last: nat,
                  next: seq<nat>, prev: seq<nat>, next': seq<nat>, prev': seq<nat>)
    requires Circular(rest, next, prev) && |rest| > 1 && p < |rest| && |next| == |prev|
    requires Chained(chain, next, prev) && Distinct(chain) && (forall s :: s in chain ==> s !in rest)
    requires last == (if |chain| == 0 then rest[p] else chain[|chain| - 1]) && last < |next|
    requires next[rest[p]] < |next| && prev[rest[p]] < |next|
    requires var x := rest[p];
      && next' == next[prev[x] := next[x]][last := x]
      && prev' == prev[next[x] := prev[x]][x := last]
    ensures Circular(Without(rest, p), next', prev')
    ensures Chained(chain + [rest[p]], next', prev')
  {
    var x := rest[p];
    var next1, prev1 := next[prev[x] := next[x]], prev[next[x] := prev[x]];
    assert prev[x] in rest && next[x] in rest by {
      NeighboursInside(rest, p, next, prev);
    }
    assert Circular(Without(rest, p), next', prev') by {
      Unlink(rest, p, next, prev, next1, prev1);
      WithoutElements(rest, p);
      CircularFrame(Without(rest, p), next1, prev1, next', prev');
    }
    if |chain| > 0 {
      assert Chained(chain + [rest[p]], next', prev') by {
        ChainedFrame(chain, next, prev, next1, prev1);
        ChainedExtend(chain, x, next1, prev1);
      }
    }
  }

  lemma MoveOne(lists: seq<seq<nat>>, n: nat, was: seq<nat>, bl: nat, nb: nat, x: seq<nat>,
                i: nat, rest: seq<nat>, t: Tables, p: nat, t': Tables)
    requires Moving(lists, n, was, bl, nb, x, i, rest, t) && i < |x|
    requires p < |rest| && rest[p] == x[i]
    requires Moved(n, bl, nb, x[i], if i == 0 then x[0] else x[i - 1], t, t')
    ensures Moving(lists, n, was, bl, nb, x, i + 1, Without(rest, p), t')
  {
    var state := x[i];
    var last := if i == 0 then x[0] else x[i - 1];
    assert x[..i] + [state] == x[..i + 1];
    MoveLinks(rest, p, x[..i], last, t.next, t.prev, t'.next, t'.prev);
    Unlink(rest, p, t.next, t.prev, t.next[t.prev[state] := t.next[state]], t.prev[t.next[state] := t.prev[state]]);
    WithoutElements(rest, p);
    forall s
      ensures s in Without(rest, p) <==> s in lists[bl] && s !in x[..i + 1]
    {
      assert s in x[..i + 1] <==> s in x[..i] || s == state;
    }
    MoveOthers(lists, n, was, bl, nb, x, i, rest, t, p, t');
  }

  lemma MoveOthers(lists: seq<seq<nat>>, n: nat, was: seq<nat>, bl: nat, nb: nat, x: seq<nat>,
                   i: nat, rest: seq<nat>, t: Tables, p: nat, t': Tables)
    requires Moving(lists, n, was, bl, nb, x, i, rest, t) && i < |x|
    requires p < |rest| && rest[p] == x[i]
    requires Moved(n, bl, nb, x[i], if i == 0 then x[0] else x[i - 1], t, t')
    ensures forall b :: 0 <= b < nb && b != bl ==> BlockOk(lists[b], b, n, was, t')
  {
    NeighboursInside(rest, p, t.next, t.prev);
    assert x[i] in x && x[if i == 0 then 0 else i - 1] in x;
    forall b | 0 <= b < nb && b != bl
      ensures BlockOk(lists[b], b, n, was, t')
    {
      assert BlockOk(lists[b], b, n, was, t);
      CircularFrame(lists[b], t.next, t.prev, t'.next, t'.prev);
    }
  }

  lemma MovingEnd(lists: seq<seq<nat>>, n: nat, was: seq<nat>, bl: nat, nb: nat, x: seq<nat>, rest: seq<nat>, t: Tables)
    requires Moving(lists, n, was, bl, nb, x, |x|, rest, t) && 0 < |x|
    ensures t.Shape(n) && nb < n && t.start[nb] == x[0]
    ensures forall s :: s in rest <==> s in lists[bl] && s !in x
    ensures forall s :: 0 <= s < n ==> t.inblock[s] == if s in x then nb else was[s]
  {
    assert x[..|x|] == x;
  }

  /** The place in the ring of the next member to move, whose neighbours are states. */
  lemma MovingNext(lists: seq<seq<nat>>, n: nat, was: seq<nat>, bl: nat, nb: nat, x: seq<nat>, i: nat, rest: seq<nat>,
                   t: Tables)
    returns (p: nat)
    requires Moving(lists, n, was, bl, nb, x, i, rest, t) && i < |x|
    ensures p < |rest| && rest[p] == x[i] < n && bl < n && nb < n && t.Shape(n)
    ensures (if i == 0 then x[0] else x[i - 1]) < n && t.next[x[i]] < n && t.prev[x[i]] < n
  {
    assert x[i] in x && x[if i == 0 then 0 else i - 1] in x && x[i] in rest;
    p :| p < |rest| && rest[p] == x[i];
    NeighboursInside(rest, p, t.next, t.prev);
  }

  /** The chain is closed to the ring of block nb. */
  lemma CloseChain(lists: seq<seq<nat>>, n: nat, was: seq<nat>, bl: nat, nb: nat, x: seq<nat>,
                   rest: seq<nat>, t: Tables, t': Tables)
    requires Moving(lists, n, was, bl, nb, x, |x|, rest, t) && |x| > 0
    requires t.size[bl] == |lists[bl]| && (forall s :: 0 <= s < n ==> was[s] < nb && s in lists[was[s]])
    requires x[0] < n && x[|x| - 1] < n
    requires t' == t.(size := t.size[nb := |x|][bl := |lists[bl]| - |x|],
                      next := t.next[x[|x| - 1] := x[0]], prev := t.prev[x[0] := x[|x| - 1]])
    ensures Partition(lists[bl := rest] + [x], n, t')
  {
    var lists' := lists[bl := rest] + [x];
    assert x[..|x|] == x && x[0] in x && x[|x| - 1] in x;
    ChainedClose(x, t.next, t.prev);
    CircularFrame(rest, t.next, t.prev, t'.next, t'.prev);
    forall b | 0 <= b < |lists'|
      ensures BlockOk(lists'[b], b, n, t'.inblock, t')
    {
      if b < nb && b != bl {
        assert BlockOk(lists[b], b, n, was, t);
        CircularFrame(lists[b], t.next, t.prev, t'.next, t'.prev);
      }
    }
  }

  class Table {
    const n: nat
    const inblock: array<nat>
    const blocksize: array<nat>
    const startblock: array<nat>
    const nextinblock: array<nat>
    const previnblock: array<nat>
    ghost var lists: seq<seq<nat>>   // the members of every block in the order of their links
    ghost var cls: seq<nat>          // the block of every state
    ghost var Repr: set<object>

    ghost predicate Shape()
      reads this
    {
      && Repr == {this, inblock, blocksize, startblock, nextinblock, previnblock}
      && inblock.Length == blocksize.Length == startblock.Length == nextinblock.Length == previnblock.Length == n
      && inblock != blocksize && inblock != startblock && inblock != nextinblock && inblock != previnblock
      && blocksize != startblock && blocksize != nextinblock && blocksize != previnblock
      && startblock != nextinblock && startblock != previnblock && nextinblock != previnblock
    }

    ghost function View(): Tables
      reads inblock, blocksize, startblock, nextinblock, previnblock
    {
      Tables(inblock[..], blocksize[..], startblock[..], nextinblock[..], previnblock[..])
    }

    ghost predicate Valid()
      reads this, Repr
      ensures Valid() ==> this in Repr
    {
      Shape() && Partition(lists, n, View()) && cls == inblock[..]
    }

    constructor (n: nat)
      ensures this.n == n && Shape() && fresh(Repr)
      ensures forall i :: 0 <= i < n ==> blocksize[i] == 0
    {
      this.n := n;
      inblock := new nat[n](_ => 0);
      blocksize := new nat[n](_ => 0);
      startblock := new nat[n](_ => 0);
      nextinblock := new nat[n](_ => 0);
      previnblock := new nat[n](_ => 0);
      lists, cls := [], [];
      Repr := {this, inblock, blocksize, startblock, nextinblock, previnblock};
    }

    /** Block 0 takes the final states and block 1 the others; simple if one of them stays empty. */
    method InitBlocks(final: seq<bool>) returns (simple: bool)
      requires Shape() && |final| == n >= 2 && (forall i :: 0 <= i < n ==> blocksize[i] == 0)
      modifies Repr
      ensures Shape() && Repr == old(Repr)
      ensures simple <==> (forall s, t :: 0 <= s < t < n ==> final[s] == final[t])
      ensures !simple ==> Valid() && |lists| == 2
      ensures !simple ==> forall s :: 0 <= s < n ==> cls[s] == if final[s] then 0 else 1
    {
      var last := new nat[2](_ => 0);
      lists := [[], []];
      assert Filling(lists, n, final, 0, last[..], View());
      hide Filling, Partition;
      for state := 0 to n
        invariant Shape() && Repr == old(Repr)
        invariant Filling(lists, n, final, state, last[..], View())
      {
        FillState(final, state, last);
      }
      FillingEnd(lists, n, final, last[..], View());
      if blocksize[0] == 0 || blocksize[1] == 0 {
        return true;
      }
      CloseRings(final, last);
      cls := inblock[..];
      return false;
    }

    method FillState(final: seq<bool>, state: nat, last: array<nat>)
      requires Shape() && state < n && last.Length == 2 && Filling(lists, n, final, state, last[..], View())
      requires last !in Repr
      modifies this`lists, inblock, blocksize, startblock, nextinblock, previnblock, last
      ensures Filling(lists, n, final, state + 1, last[..], View())
    {
      ghost var t, was := View(), last[..];
      var bno := if final[state] then 0 else 1;
      assert lists[bno] != [] ==> last[bno] in lists[bno];
      inblock[state] := bno;
      blocksize[bno] := blocksize[bno] + 1;
      if blocksize[bno] > 1 {
        nextinblock[last[bno]] := state;
        previnblock[state] := last[bno];
      } else {
        startblock[bno] := state;
      }
      last[bno] := state;
      Fill(lists, n, final, state, was, t, bno, View());
      lists := lists[bno := lists[bno] + [state]];
      assert last[..] == was[bno := state];
    }

    method CloseRings(final: seq<bool>, last: array<nat>)
      requires Shape() && last.Length == 2 && Filling(lists, n, final, n, last[..], View())
      requires last !in Repr
      requires lists[0] != [] && lists[1] != []
      modifies nextinblock, previnblock
      ensures Partition(lists, n, View())
    {
      ghost var t := View();
      assert last[0] in lists[0] && last[1] in lists[1] && startblock[0] in lists[0] && startblock[1] in lists[1];
      for bno := 0 to 2
        invariant bno == 0 ==> View() == t
        invariant bno == 1 ==>
          View() == t.(next := t.next[last[0] := t.start[0]], prev := t.prev[t.start[0] := last[0]])
        invariant bno == 2 ==> View() == t.(next := t.next[last[0] := t.start[0]][last[1] := t.start[1]],
                                            prev := t.prev[t.start[0] := last[0]][t.start[1] := last[1]])
      {
        nextinblock[last[bno]] := startblock[bno];
        previnblock[startblock[bno]] := last[bno];
      }
      CloseBoth(lists, n, final, last[..], t, View());
    }

    /** Move the members x of block bl, which hang together through nextintersection, into block nb. */
    method Split(bl: nat, nb: nat, start: nat, size: nat, nextintersection: array<nat>, ghost x: seq<nat>)
      requires Valid() && bl < |lists| == nb < n
      requires nextintersection.Length == n
      requires nextintersection !in Repr
      requires Distinct(x) && 0 < |x| < |lists[bl]|
      requires forall s :: s in x ==> s in lists[bl]
      requires size == |x| && start == x[0]
      requires forall i :: 0 <= i < |x| ==> x[i] < n
      requires forall i :: 0 <= i < |x| - 1 ==> nextintersection[x[i]] == x[i + 1]
      modifies Repr
      ensures Valid() && Repr == old(Repr) && |cls| == n
      ensures |lists| == |old(lists)| + 1 && lists[nb] == x
      ensures forall b :: 0 <= b < |old(lists)| && b != bl ==> lists[b] == old(lists[b])
      ensures forall s :: s in lists[bl] <==> s in old(lists[bl]) && s !in x
      ensures forall s :: 0 <= s < n ==> cls[s] == if s in x then nb else old(cls[s])
    {
      assert BlockOk(lists[bl], bl, n, inblock[..], View());
      ghost var was, before := inblock[..], View();
      hide Partition, BlockOk, Moving;
      startblock[nb] := start;
      StartMoving(lists, n, bl, nb, x, before, View());
      var last, rest := MoveAll(bl, nb, start, size, nextintersection, x, was);
      CloseSplit(bl, nb, size, last, x, rest, was);
    }

    /** The loop over the members of x. */
    method MoveAll(bl: nat, nb: nat, start: nat, size: nat, nextintersection: array<nat>, ghost x: seq<nat>,
                   ghost was: seq<nat>)
      returns (last: nat, ghost rest: seq<nat>)
      requires Shape() && bl < |lists| && Moving(lists, n, was, bl, nb, x, 0, lists[bl], View())
      requires nextintersection.Length == n && nextintersection !in Repr && size == |x| > 0 && start == x[0]
      requires forall i :: 0 <= i < |x| ==> x[i] < n
      requires forall i :: 0 <= i < |x| - 1 ==> nextintersection[x[i]] == x[i + 1]
      modifies inblock, startblock, nextinblock, previnblock
      ensures Moving(lists, n, was, bl, nb, x, |x|, rest, View()) && last == x[|x| - 1]
    {
      hide Moving;
      last, rest := start, lists[bl];
      var state, i := last, 0;
      while i < size
        invariant 0 <= i <= |x| && Moving(lists, n, was, bl, nb, x, i, rest, View())
        invariant i < |x| ==> state == x[i]
        invariant last == (if i == 0 then x[0] else x[i - 1])
      {
        ghost var p := MoveState(bl, nb, state, last, x, i, rest, was);
        rest := Without(rest, p);
        last := state;
        state := nextintersection[state];
        i := i + 1;
      }
    }

    /** Close the chain and write the sizes. */
    method CloseSplit(bl: nat, nb: nat, size: nat, last: nat, ghost x: seq<nat>, ghost rest: seq<nat>,
                      ghost was: seq<nat>)
      requires Shape() && bl < |lists| == nb < n && Moving(lists, n, was, bl, nb, x, |x|, rest, View())
      requires 0 < |x| == size && last == x[|x| - 1] < n && x[0] < n && size <= blocksize[bl] == |lists[bl]|
      requires forall s :: 0 <= s < n ==> was[s] < nb && s in lists[was[s]]
      modifies this`lists, this`cls, nextinblock, previnblock, blocksize
      ensures Valid() && |cls| == n && lists == old(lists)[bl := rest] + [x]
      ensures forall s :: s in rest <==> s in old(lists[bl]) && s !in x
      ensures forall s :: 0 <= s < n ==> cls[s] == if s in x then nb else was[s]
    {
      ghost var t := View();
      MovingEnd(lists, n, was, bl, nb, x, rest, t);
      hide Partition, Moving;
      nextinblock[last] := startblock[nb];
      previnblock[startblock[nb]] := last;
      blocksize[nb] := size;
      blocksize[bl] := blocksize[bl] - size;
      CloseChain(lists, n, was, bl, nb, x, rest, t, View());
      lists := lists[bl := rest] + [x];
      cls := inblock[..];
    }

    /** One member leaves the ring of block bl and goes behind the open chain that becomes block nb. */
    method MoveState(bl: nat, nb: nat, state: nat, last: nat,
                     ghost x: seq<nat>, ghost i: nat, ghost rest: seq<nat>, ghost was: seq<nat>)
      returns (ghost p: nat)
      requires Shape() && Moving(lists, n, was, bl, nb, x, i, rest, View())
      requires i < |x| && state == x[i] && last == (if i == 0 then x[0] else x[i - 1])
      modifies inblock, startblock, nextinblock, previnblock
      ensures p < |rest|
      ensures Moving(lists, n, was, bl, nb, x, i + 1, Without(rest, p), View())
    {
      ghost var t := View();
      p := MovingNext(lists, n, was, bl, nb, x, i, rest, t);
      hide Moving;
      if state == startblock[bl] {
        startblock[bl] := nextinblock[state];
      }
      nextinblock[previnblock[state]] := nextinblock[state];
      previnblock[nextinblock[state]] := previnblock[state];
      nextinblock[last] := state;
      previnblock[state] := last;
      inblock[state] := nb;
      MoveOne(lists, n, was, bl, nb, x, i, rest, t, p, View());
    }
  }

  /** The first k states are put into block 0 if final and into block 1 otherwise; the rings are open. */
  ghost predicate Filling(lists: seq<seq<nat>>, n: nat, final: seq<bool>, k: nat, last: seq<nat>, t: Tables) {
    && t.Shape(n) && |final| == n >= 2 && k <= n && |lists| == |last| == 2
    && FillingBlock(lists[0], 0, n, last[0], t) && FillingBlock(lists[1], 1, n, last[1], t)
    && (forall s: nat :: s in lists[0] <==> s < k && final[s])
    && (forall s: nat :: s in lists[1] <==> s < k && !final[s])
    && (forall s :: 0 <= s < k ==> t.inblock[s] == if final[s] then 0 else 1)
  }

  ghost predicate FillingBlock(list: seq<nat>, b: nat, n: nat, last: nat, t: Tables)
    requires t.Shape(n) && b < n
  {
    && Chained(list, t.next, t.prev) && Distinct(list) && t.size[b] == |list|
    && (|list| > 0 ==> t.start[b] == list[0] && last == list[|list| - 1])
  }

  /** State k is put into block b. */
  ghost predicate Filled(n: nat, k: nat, b: nat, last: nat, t: Tables, t': Tables) {
    && t.Shape(n) && t'.Shape(n) && k < n && b < n
    && t'.inblock == t.inblock[k := b]
    && t'.size == t.size[b := t.size[b] + 1]
    && (if t.size[b] > 0 then
          last < n && t'.start == t.start && t'.next == t.next[last := k] && t'.prev == t.prev[k := last]
        else
          t'.start == t.start[b := k] && t'.next == t.next && t'.prev == t.prev)
  }

  lemma FillingEnd(lists: seq<seq<nat>>, n: nat, final: seq<bool>, last: seq<nat>, t: Tables)
    requires Filling(lists, n, final, n, last, t)
    ensures |lists| == 2 && (lists[0] == [] <==> t.size[0] == 0) && (lists[1] == [] <==> t.size[1] == 0)
    ensures (lists[0] == [] || lists[1] == []) <==> forall p, q :: 0 <= p < q < n ==> final[p] == final[q]
    ensures forall p :: 0 <= p < n ==> t.inblock[p] == if final[p] then 0 else 1
  {
    assert forall p :: 0 <= p < n ==> if final[p] then p in lists[0] else p in lists[1];
    if lists[0] != [] && lists[1] != [] {
      var p, q := lists[0][0], lists[1][0];
      assert p in lists[0] && q in lists[1];
      assert final[p] != final[q];
    }
  }

  lemma FillOne(list: seq<nat>, n: nat, k: nat, b: nat, last: nat, t: Tables, t': Tables)
    requires t.Shape(n) && b < n && FillingBlock(list, b, n, last, t) && k !in list
    requires Filled(n, k, b, last, t, t')
    ensures FillingBlock(list + [k], b, n, k, t')
  {
    if |list| > 0 {
      ChainedExtend(list, k, t.next, t.prev);
    }
  }

  lemma FillOther(list: seq<nat>, n: nat, k: nat, b: nat, c: nat, last: nat, other: nat, t: Tables, t': Tables)
    requires t.Shape(n) && b < n && c < n && b != c && FillingBlock(list, c, n, other, t) && k !in list
    requires t.size[b] > 0 ==> last !in list
    requires Filled(n, k, b, last, t, t')
    ensures FillingBlock(list, c, n, other, t')
  {
    ChainedFrame(list, t.next, t.prev, t'.next, t'.prev);
  }

  lemma Fill(lists: seq<seq<nat>>, n: nat, final: seq<bool>, k: nat, last: seq<nat>, t: Tables, b: nat, t': Tables)
    requires Filling(lists, n, final, k, last, t) && k < n && b == (if final[k] then 0 else 1)
    requires Filled(n, k, b, last[b], t, t')
    ensures Filling(lists[b := lists[b] + [k]], n, final, k + 1, last[b := k], t')
  {
    var c := 1 - b;
    assert last[b] in lists[b] || lists[b] == [];
    FillOne(lists[b], n, k, b, last[b], t, t');
    FillOther(lists[c], n, k, b, c, last[b], last[c], t, t');
  }

  /** Closing the chain from first to last leaves other chains and rings alone. */
  lemma CloseOther(list: seq<nat>, next: seq<nat>, prev: seq<nat>, first: nat, last: nat)
    requires Circular(list, next, prev) || Chained(list, next, prev)
    requires first !in list && last !in list && first < |prev| && last < |next|
    ensures Circular(list, next, prev) ==> Circular(list, next[last := first], prev[first := last])
    ensures Chained(list, next, prev) ==> Chained(list, next[last := first], prev[first := last])
  {
  }

  /** Both rings are closed. */
  lemma CloseBoth(lists: seq<seq<nat>>, n: nat, final: seq<bool>, last: seq<nat>, t: Tables, t': Tables)
    requires Filling(lists, n, final, n, last, t) && lists[0] != [] && lists[1] != []
    requires last[0] < n && last[1] < n && t.start[0] < n && t.start[1] < n
    requires t' == t.(next := t.next[last[0] := t.start[0]][last[1] := t.start[1]],
                      prev := t.prev[t.start[0] := last[0]][t.start[1] := last[1]])
    ensures Partition(lists, n, t')
  {
    var next1, prev1 := t.next[last[0] := t.start[0]], t.prev[t.start[0] := last[0]];
    assert last[0] in lists[0] && last[1] in lists[1] && t.start[0] in lists[0] && t.start[1] in lists[1];
    assert Circular(lists[0], t'.next, t'.prev) by {
      ChainedClose(lists[0], t.next, t.prev);
      CloseOther(lists[0], next1, prev1, t.start[1], last[1]);
    }
    assert Circular(lists[1], t'.next, t'.prev) by {
      CloseOther(lists[1], t.next, t.prev, t.start[0], last[0]);
      ChainedClose(lists[1], next1, prev1);
    }
    assert BlockOk(lists[0], 0, n, t'.inblock, t') && BlockOk(lists[1], 1, n, t'.inblock, t');
  }

  lemma StartMoving(lists: seq<seq<nat>>, n: nat, bl: nat, nb: nat, x: seq<nat>, t: Tables, t': Tables)
    requires Partition(lists, n, t) && bl < |lists| == nb < n
    requires Distinct(x) && 0 < |x| < |lists[bl]| && (forall s :: s in x ==> s in lists[bl])
    requires t' == t.(start := t.start[nb := x[0]])
    ensures Moving(lists, n, t.inblock, bl, nb, x, 0, lists[bl], t')
  {
    forall b | 0 <= b < nb
      ensures BlockOk(lists[b], b, n, t.inblock, t')
    {
      assert BlockOk(lists[b], b, n, t.inblock, t);
    }
  }
}
