/** For every block the list of its members that the letter at hand leads into the block at hand, and the
    list of the blocks for which this list is not empty. */
module Intersections {
  import opened Automata

  ghost predicate Lists(members: seq<seq<nat>>, n: nat, size: seq<nat>, start: seq<nat>, next: seq<nat>) {
    && |members| == |size| == |start| == |next| == n
    && (forall b :: 0 <= b < n ==> MemberOk(members[b], n, size[b], start[b], next))
    && (forall b, c, s :: 0 <= b < n && 0 <= c < n && s in members[b] && s in members[c] ==> b == c)
  }

  ghost predicate MemberOk(list: seq<nat>, n: nat, size: nat, start: nat, next: seq<nat>)
    requires |next| == n
  {
    && Distinct(list) && |list| == size
    && (forall i :: 0 <= i < |list| ==> list[i] < n)
    && (|list| > 0 ==> start == list[0])
    && (forall i :: 0 <= i < |list| - 1 ==> next[list[i]] == list[i + 1])
  }

  /** The lists hold exactly the states of hit, each in the list of its block. */
  ghost predicate CutBy(members: seq<seq<nat>>, n: nat, inblock: seq<nat>, hit: set<nat>) {
    && |members| == |inblock| == n
    && (forall s :: 0 <= s < n ==> inblock[s] < n)
    && (forall b, s :: 0 <= b < n && s in members[b] ==> s in hit && s < n && inblock[s] == b)
    && (forall s :: s in hit ==> s < n && s in members[inblock[s]])
  }

  lemma CutOneMore(members: seq<seq<nat>>, n: nat, inblock: seq<nat>, hit: set<nat>, s: nat)
    requires CutBy(members, n, inblock, hit) && s < n
    ensures CutBy(members[inblock[s] := [s] + members[inblock[s]]], n, inblock, hit + {s})
    ensures s !in hit ==> forall c :: 0 <= c < n ==> s !in members[c]
  {
    var b0 := inblock[s];
    var members' := members[b0 := [s] + members[b0]];
    assert forall x :: x in members'[b0] <==> x == s || x in members[b0];
    forall b, x | 0 <= b < n && x in members'[b]
      ensures x in hit + {s} && x < n && inblock[x] == b
    {
      if b != b0 {
        assert x in members[b];
      }
    }
    forall x | x in hit + {s}
      ensures x < n && x in members'[inblock[x]]
    {
      if x != s {
        assert x in members[inblock[x]];
      }
    }
  }

  /** The blocks in todo are still to be cut along hit: their hit members are at hand, and no other block is cut. */
  ghost predicate Cutting(members: seq<seq<nat>>, n: nat, todo: seq<nat>, inblock: seq<nat>, hit: set<nat>) {
    && |members| == |inblock| == n
    && Distinct(todo) && (forall c :: c in todo ==> c < n)
    && (forall c :: 0 <= c < n && c !in todo ==> members[c] == [])
    && (forall c, s: nat :: c in todo ==> (s in members[c] <==> s in hit && s < n && inblock[s] == c))
    && (forall p: nat, q: nat :: p < n && q < n && inblock[p] == inblock[q] && p in hit && q !in hit ==>
          inblock[p] in todo)
  }

  lemma StartCutting(members: seq<seq<nat>>, n: nat, todo: seq<nat>, inblock: seq<nat>, hit: set<nat>)
    requires CutBy(members, n, inblock, hit) && Distinct(todo)
    requires forall c: nat :: c in todo <==> c < n && members[c] != []
    ensures Cutting(members, n, todo, inblock, hit)
  {
  }

  /** The first block lies inside hit as a whole. */
  lemma CutWhole(members: seq<seq<nat>>, n: nat, todo: seq<nat>, inblock: seq<nat>, hit: set<nat>)
    requires Cutting(members, n, todo, inblock, hit) && todo != [] && todo[0] < n
    requires forall s :: 0 <= s < n && inblock[s] == todo[0] ==> s in members[todo[0]]
    ensures Cutting(members[todo[0] := []], n, todo[1..], inblock, hit)
  {
    var bl, rest := todo[0], todo[1..];
    assert forall c :: c in todo <==> c == bl || c in rest;
    assert bl in todo && bl !in rest;
    assert forall q :: 0 <= q < n && inblock[q] == bl ==> q in hit;
    forall p: nat, q: nat | p < n && q < n && inblock[p] == inblock[q] && p in hit && q !in hit
      ensures inblock[p] in rest
    {
      assert inblock[p] in todo && inblock[q] != bl;
    }
  }

  /** The hit members of the first block have moved to the block nb. */
  lemma CutApart(members: seq<seq<nat>>, n: nat, todo: seq<nat>, inblock: seq<nat>, hit: set<nat>, nb: nat,
                 inblock': seq<nat>)
    requires Cutting(members, n, todo, inblock, hit) && todo != [] && todo[0] < n
    requires |inblock'| == n && nb < n && nb !in todo && (forall s :: 0 <= s < n ==> inblock[s] != nb)
    requires forall s :: 0 <= s < n ==> inblock'[s] == if s in members[todo[0]] then nb else inblock[s]
    ensures Cutting(members[todo[0] := []], n, todo[1..], inblock', hit)
  {
    assert forall c :: c in todo <==> c == todo[0] || c in todo[1..];
    assert todo[0] in todo && todo[0] !in todo[1..];
  }

  lemma NothingToCut(members: seq<seq<nat>>, n: nat, todo: seq<nat>, inblock: seq<nat>, hit: set<nat>)
    requires Cutting(members, n, todo, inblock, hit) && todo == []
    ensures members == seq(n, _ => [])
    ensures forall p, q :: 0 <= p < n && 0 <= q < n && inblock[p] == inblock[q] ==> (p in hit <==> q in hit)
  {
  }

  lemma PushFront(members: seq<seq<nat>>, n: nat, size: seq<nat>, start: seq<nat>, next: seq<nat>,
                  b: nat, s: nat, next': seq<nat>)
    requires Lists(members, n, size, start, next) && b < n && s < n
    requires forall c :: 0 <= c < n ==> s !in members[c]
    requires next' == if |members[b]| > 0 then next[s := start[b]] else next
    ensures Lists(members[b := [s] + members[b]], n, size[b := size[b] + 1], start[b := s], next')
  {
    var members' := members[b := [s] + members[b]];
    forall c | 0 <= c < n
      ensures MemberOk(members'[c], n, size[b := size[b] + 1][c], start[b := s][c], next')
    {
      assert MemberOk(members[c], n, size[c], start[c], next);
    }
  }

  class Intersection {
    const n: nat
    const sizeofintersection: array<nat>
    const startintersection: array<nat>
    const nextintersection: array<nat>
    const jlist: array<nat>
    var sizeofjlist: nat
    ghost var members: seq<seq<nat>>   // for every block its hit members in the order of their links
    ghost var Repr: set<object>

    ghost predicate Shape()
      reads this
    {
      && Repr == {this, sizeofintersection, startintersection, nextintersection, jlist}
      && sizeofintersection.Length == startintersection.Length == nextintersection.Length == jlist.Length == n
      && sizeofintersection != startintersection && sizeofintersection != nextintersection
      && sizeofintersection != jlist && startintersection != nextintersection && startintersection != jlist
      && nextintersection != jlist
    }

    ghost predicate Valid()
      reads this, Repr
      ensures Valid() ==> this in Repr
    {
      && Shape()
      && Lists(members, n, sizeofintersection[..], startintersection[..], nextintersection[..])
      && sizeofjlist <= n && Distinct(jlist[..sizeofjlist])
      && (forall b :: b in jlist[..sizeofjlist] ==> b < n)
      && (forall b :: 0 <= b < n && members[b] != [] ==> b in jlist[..sizeofjlist])
    }

    /** Every block of jlist is cut. */
    ghost predicate Listed()
      reads this, jlist
    {
      sizeofjlist <= jlist.Length && forall c :: c in jlist[..sizeofjlist] ==> c < |members| && members[c] != []
    }

    constructor (n: nat)
      ensures this.n == n && Valid() && sizeofjlist == 0 && members == seq(n, _ => [])
      ensures fresh(Repr)
    {
      this.n := n;
      sizeofintersection := new nat[n](_ => 0);
      startintersection := new nat[n](_ => 0);
      nextintersection := new nat[n](_ => 0);
      jlist := new nat[n](_ => 0);
      sizeofjlist := 0;
      members := seq(n, _ => []);
      Repr := {this, sizeofintersection, startintersection, nextintersection, jlist};
    }

    ghost function Todo(j: nat): seq<nat>
      requires j <= sizeofjlist <= jlist.Length
      reads this, jlist
    {
      jlist[j..sizeofjlist]
    }

    /** State s of block b is hit. */
    method Add(b: nat, s: nat)
      requires Valid() && b < n && s < n && (forall c :: 0 <= c < n ==> s !in members[c])
      requires Listed()
      modifies Repr
      ensures Valid() && Repr == old(Repr) && members == old(members)[b := [s] + old(members)[b]]
      ensures Listed()
    {
      PushFront(members, n, sizeofintersection[..], startintersection[..], nextintersection[..], b, s,
        if |members[b]| > 0 then nextintersection[..][s := startintersection[b]] else nextintersection[..]);
      assert MemberOk(members[b], n, sizeofintersection[b], startintersection[b], nextintersection[..]);
      assert |members[b]| == sizeofintersection[b];
      hide Lists, MemberOk, Distinct;
      if sizeofintersection[b] > 0 {
        sizeofintersection[b] := sizeofintersection[b] + 1;
        nextintersection[s] := startintersection[b];
        startintersection[b] := s;
      } else {
        ListBlock(b);
        sizeofintersection[b] := sizeofintersection[b] + 1;
        startintersection[b] := s;
      }
      members := members[b := [s] + members[b]];
    }

    /** Block b is met for the first time. */
    method ListBlock(b: nat)
      requires Valid() && Listed() && b < n && members[b] == []
      modifies jlist, this`sizeofjlist
      ensures sizeofjlist == old(sizeofjlist) + 1 <= n && jlist[..sizeofjlist] == old(jlist[..sizeofjlist]) + [b]
      ensures Distinct(jlist[..sizeofjlist])
    {
      ghost var before := jlist[..sizeofjlist];
      assert forall i :: 0 <= i < |before| ==> before[i] in before;
      Pigeonhole(before + [b], n);
      jlist[sizeofjlist] := b;
      sizeofjlist := sizeofjlist + 1;
      assert jlist[..sizeofjlist] == before + [b];
    }

    /** Block b is done. */
    method Clear(b: nat)
      requires Valid() && b < n
      modifies this`members, sizeofintersection
      ensures Valid() && Repr == old(Repr) && members == old(members)[b := []]
    {
      sizeofintersection[b] := 0;
      members := members[b := []];
      forall c | 0 <= c < n
        ensures MemberOk(members[c], n, sizeofintersection[c], startintersection[c], nextintersection[..])
      {
        assert MemberOk(old(members)[c], n, old(sizeofintersection[..])[c], startintersection[..][c],
                        nextintersection[..]);
      }
    }
  }
}
