/** Hopcroft's minimisation of a complete automaton with reachable states. */
module Hopcroft {
  import opened Automata
  import opened WaitingRing
  import opened WaitingList
  import opened CircularLists
  import opened Blocks
  import opened Intersections
  import opened PartitionRefinement
  import opened Reachability

  /** The part of one row of the inverse that lists the states below k. */
  ghost predicate InverseRow(row: seq<seq<nat>>, delta: seq<nat>, k: nat)
    requires k <= |delta|
  {
    && |row| == |delta|
    && (forall t :: 0 <= t < |row| ==> Distinct(row[t]))
    && (forall t, s: nat :: 0 <= t < |row| ==> (s in row[t] <==> s < k && delta[s] == t))
  }

  /** inverse[a][t] lists the states that letter a leads to t. */
  ghost predicate IsInverse(d: Dfa, inverse: seq<seq<seq<nat>>>)
    requires d.Valid()
  {
    && |inverse| == d.letters + 1
    && (forall a :: 1 <= a <= d.letters ==> InverseRow(inverse[a], d.delta[a], d.states))
  }

  method BuildInverse(d: Dfa) returns (inverse: seq<seq<seq<nat>>>)
    requires d.Valid()
    ensures IsInverse(d, inverse)
  {
    inverse := seq(d.letters + 1, _ => seq(d.states, _ => []));
    for letter := 1 to d.letters + 1
      invariant |inverse| == d.letters + 1
      invariant forall a :: letter <= a <= d.letters ==> inverse[a] == seq(d.states, _ => [])
      invariant forall a :: 1 <= a < letter ==> InverseRow(inverse[a], d.delta[a], d.states)
    {
      for state := 0 to d.states
        invariant |inverse| == d.letters + 1
        invariant forall a :: letter < a <= d.letters ==> inverse[a] == seq(d.states, _ => [])
        invariant forall a :: 1 <= a < letter ==> InverseRow(inverse[a], d.delta[a], d.states)
        invariant InverseRow(inverse[letter], d.delta[letter], state)
      {
        var state2 := d.delta[letter][state];
        inverse := inverse[letter := inverse[letter][state2 := inverse[letter][state2] + [state]]];
      }
    }
  }

  /** Some member of the block is not hit. */
  ghost predicate Splits(cls: seq<nat>, bl: nat, hit: set<nat>) {
    exists s: nat :: s < |cls| && cls[s] == bl && s !in hit
  }

  /** The hit members of block bl have moved to block nb, and nothing else has moved. */
  ghost predicate CutOff(cls: seq<nat>, cls': seq<nat>, bl: nat, nb: nat, hit: set<nat>) {
    |cls'| == |cls| && forall s: nat :: s < |cls| ==> cls'[s] == if cls[s] == bl && s in hit then nb else cls[s]
  }

  /** What is known about the first block of those to be cut. */
  lemma BlockFacts(lists: seq<seq<nat>>, n: nat, t: Tables, members: seq<seq<nat>>, size: seq<nat>, start: seq<nat>,
                   next: seq<nat>, todo: seq<nat>, hit: set<nat>)
    requires Partition(lists, n, t) && Lists(members, n, size, start, next)
    requires Cutting(members, n, todo, t.inblock, hit) && todo != []
    requires forall c :: c in todo ==> members[c] != []
    ensures var bl := todo[0];
      && bl < |lists| && bl < n && |lists[bl]| == t.size[bl]
      && MemberOk(members[bl], n, size[bl], start[bl], next)
      && 0 < |members[bl]| <= |lists[bl]|
      && (forall s :: s in members[bl] ==> s in lists[bl])
      && (forall s :: 0 <= s < n ==> (s in members[bl] <==> s in hit && t.inblock[s] == bl))
      && (|members[bl]| < |lists[bl]| ==> |lists| < n)
      && (|members[bl]| < |lists[bl]| <==> Splits(t.inblock, bl, hit))
      && (|members[bl]| == |lists[bl]| ==> forall s :: 0 <= s < n && t.inblock[s] == bl ==> s in members[bl])
    ensures forall c :: c in todo ==> c < |lists|
  {
    var bl := todo[0];
    forall c | c in todo
      ensures c < |lists|
    {
      assert members[c][0] in members[c];
      assert t.inblock[members[c][0]] == c;
    }
    assert bl in todo && members[bl] != [];
    forall s | s in members[bl]
      ensures s in lists[bl]
    {
      assert s < n && t.inblock[s] == bl;
    }
    assert MemberOk(members[bl], n, size[bl], start[bl], next) && BlockOk(lists[bl], bl, n, t.inblock, t);
    SubsetLength(members[bl], lists[bl]);
    if |members[bl]| < |lists[bl]| {
      RoomForSplit(lists, n, t, bl);
      if forall s :: s in lists[bl] ==> s in members[bl] {
        SubsetLength(lists[bl], members[bl]);
      }
    }
  }

  /** The invariant of the refinement survives the split of one block. */
  lemma RefineStep(d: Dfa, cls: seq<nat>, cls': seq<nat>, waiting: set<Item>, waiting': set<Item>,
                   a: nat, hit: set<nat>, bl: nat, nb: nat, larger: bool)
    requires Classes(d, cls) && Coarse(d, cls) && FinalPure(d, cls) && Covered(d, cls, waiting, a, hit)
    requires SplitInto(d, cls, cls', bl, nb, hit)
    requires waiting' == waiting + Halves(waiting, d.letters, bl, nb, larger)
    requires Respected(d, hit)
    ensures Coarse(d, cls') && FinalPure(d, cls') && Covered(d, cls', waiting', a, hit)
  {
    SplitKeepsCoarse(d, cls, cls', bl, nb, hit);
    forall b | 1 <= b <= d.letters
      ensures Item(b, bl) in waiting ==> Item(b, nb) in waiting'
      ensures Item(b, bl) in waiting' || Item(b, nb) in waiting'
    {
      assert Half(waiting, b, bl, nb, larger) in Halves(waiting, d.letters, bl, nb, larger);
    }
    SplitKeepsCovered(d, cls, cls', waiting, waiting', a, hit, bl, nb);
  }

  lemma HalvesBlocks(waiting: set<Item>, letters: nat, bl: nat, nb: nat, larger: bool)
    ensures forall x :: x in Halves(waiting, letters, bl, nb, larger) ==>
      1 <= x.letter <= letters && (x.bno == bl || x.bno == nb)
  {
  }

  lemma HitOneMore(members: seq<seq<nat>>, n: nat, inblock: seq<nat>, hit: set<nat>, more: set<nat>, s: nat)
    requires CutBy(members, n, inblock, hit + more) && s < n && s !in hit + more
    ensures inblock[s] < n && forall c :: 0 <= c < n ==> s !in members[c]
    ensures CutBy(members[inblock[s] := [s] + members[inblock[s]]], n, inblock, hit + (more + {s}))
  {
    CutOneMore(members, n, inblock, hit + more, s);
    assert hit + more + {s} == hit + (more + {s});
  }

  class Minimizer {
    const d: Dfa
    const table: Table
    const cut: Intersection
    const agenda: Agenda
    var inverse: seq<seq<seq<nat>>>
    var numberofblocks: nat

    /** The three parts share nothing. */
    ghost predicate Apart()
      reads this, table, cut, agenda
    {
      && d.Valid() && table.n == cut.n == d.states && agenda.letters == d.letters
      && table.Repr !! cut.Repr && table.Repr !! agenda.Repr && cut.Repr !! agenda.Repr
      && this !in table.Repr && this !in cut.Repr && this !in agenda.Repr
      && table in table.Repr && cut in cut.Repr && agenda in agenda.Repr
    }

    /** What every step keeps: the tables describe one partition, the waiting list mirrors inwaiting,
        equivalent states are together, blocks are pure, and every cut still to be made is covered. */
    ghost predicate Inv(a: nat, hit: set<nat>)
      reads this, table, cut, agenda, table.Repr, agenda.Repr
    {
      && Apart() && table.Valid() && agenda.Valid()
      && |table.lists| == numberofblocks + 1 == agenda.blocks && agenda.inwaiting.Length == d.states
      && (forall x :: x in agenda.items ==> 1 <= x.letter <= d.letters && x.bno <= numberofblocks)
      && Classes(d, table.cls) && Coarse(d, table.cls) && FinalPure(d, table.cls)
      && Covered(d, table.cls, agenda.items, a, hit)
    }

    /** The blocks from position j on in jlist are still to be cut along hit. */
    ghost predicate CutsOk(j: nat, hit: set<nat>)
      reads this, table, cut, cut.Repr
    {
      && cut.Valid() && j <= cut.sizeofjlist
      && Cutting(cut.members, d.states, cut.Todo(j), table.cls, hit)
      && (forall c :: c in cut.Todo(j) ==> c < d.states && c < |cut.members| && cut.members[c] != [])
    }

    constructor (d: Dfa)
      requires d.Valid() && d.states >= 2
      ensures this.d == d && Apart() && fresh(table.Repr) && fresh(cut.Repr) && fresh(agenda.Repr)
      ensures table.Shape() && forall i :: 0 <= i < d.states ==> table.blocksize[i] == 0
      ensures agenda.Valid() && agenda.blocks == 2 && agenda.inwaiting.Length == d.states
      ensures forall x :: x in agenda.items <==> 1 <= x.letter <= d.letters && x.bno < 2
      ensures cut.Valid() && cut.members == seq(d.states, _ => [])
    {
      this.d := d;
      table := new Table(d.states);
      cut := new Intersection(d.states);
      agenda := new Agenda(d.states, d.letters);
      inverse := [];
      numberofblocks := 0;
    }

    lemma BlockAt(bno: nat)
      requires Apart() && table.Valid() && bno < |table.lists|
      ensures bno < d.states == table.inblock.Length == |table.cls| && table.cls == table.inblock[..]
      ensures forall s :: 0 <= s < d.states ==> table.inblock[s] < d.states
      ensures forall s :: 0 <= s < d.states ==> (table.inblock[s] == bno <==> s in table.lists[bno])
      ensures var list := table.lists[bno];
              Distinct(list) && |list| == table.blocksize[bno] > 0 && list[0] == table.startblock[bno]
      ensures var list := table.lists[bno];
              forall k :: 0 <= k < |list| ==> list[k] < d.states && table.nextinblock[list[k]] == list[After(k, |list|)]
    {
      assert BlockOk(table.lists[bno], bno, d.states, table.cls, table.View());
    }

    /** Compute, for every block, its members that letter leads into block bno. */
    method ComputeInverse(bno: nat, letter: nat)
      requires Apart() && table.Valid() && cut.Valid() && IsInverse(d, inverse)
      requires bno < |table.lists| && 1 <= letter <= d.letters
      requires forall b :: 0 <= b < d.states ==> cut.members[b] == []
      modifies cut.Repr
      ensures cut.Valid() && cut.Repr == old(cut.Repr) && cut.Listed()
      ensures CutBy(cut.members, d.states, table.cls, Hit(d, table.cls, letter, bno))
    {
      ghost var list := table.lists[bno];
      ghost var hit: set<nat> := {};
      cut.sizeofjlist := 0;
      BlockAt(bno);
      var state := table.startblock[bno];
      var i := 0;
      assert CutBy(cut.members, d.states, table.cls, hit);
      assert cut.Valid();
      hide Lists, CutBy, Table.Valid, Intersection.Valid, IsInverse;
      while i < table.blocksize[bno]
        invariant 0 <= i <= |list|
        invariant i < |list| ==> state == list[i]
        invariant cut.Valid() && cut.Repr == old(cut.Repr) && cut.Listed()
        invariant CutBy(cut.members, d.states, table.cls, hit)
        invariant hit == set s: nat | s < d.states && d.delta[letter][s] in list[..i]
      {
        assert state !in list[..i];
        ghost var more := AddInverse(letter, state, hit);
        assert list[..i + 1] == list[..i] + [state];
        hit := hit + more;
        state := table.nextinblock[state];
        i := i + 1;
      }
      assert list[..i] == list;
      assert hit == Hit(d, table.cls, letter, bno);
    }

    lemma InverseAt(letter: nat, state: nat)
      requires d.Valid() && IsInverse(d, inverse) && 1 <= letter <= d.letters && state < d.states
      ensures letter < |inverse| && state < |inverse[letter]| && Distinct(inverse[letter][state])
      ensures forall s: nat :: s in inverse[letter][state] <==> s < d.states && d.delta[letter][s] == state
    {
      var row, delta := inverse[letter], d.delta[letter];
      assert InverseRow(row, delta, d.states);
      assert forall s: nat :: s in row[state] <==> s < d.states && delta[s] == state;
    }

    lemma BlocksInRange()
      requires Apart() && table.Valid()
      ensures table.inblock in table.Repr && |table.cls| == d.states == table.inblock.Length
      ensures table.inblock[..] == table.cls
      ensures forall s :: 0 <= s < d.states ==> table.cls[s] < d.states
    {
    }

    /** All states that letter leads to `state` are hit. */
    method AddInverse(letter: nat, state: nat, ghost hit: set<nat>) returns (ghost more: set<nat>)
      requires Apart() && table.Valid() && cut.Valid() && cut.Listed() && IsInverse(d, inverse)
      requires 1 <= letter <= d.letters && state < d.states && CutBy(cut.members, d.states, table.cls, hit)
      requires forall s :: s in hit ==> s < d.states && d.delta[letter][s] != state
      modifies cut.Repr
      ensures cut.Valid() && cut.Repr == old(cut.Repr) && cut.Listed()
      ensures CutBy(cut.members, d.states, table.cls, hit + more)
      ensures more == set s: nat | s < d.states && d.delta[letter][s] == state
    {
      hide CutBy, Table.Valid, Intersection.Valid, IsInverse;
      InverseAt(letter, state);
      BlocksInRange();
      ghost var list := inverse[letter][state];
      more := {};
      assert hit + more == hit;
      for j := 0 to |inverse[letter][state]|
        invariant cut.Valid() && cut.Repr == old(cut.Repr) && cut.Listed()
        invariant CutBy(cut.members, d.states, table.cls, hit + more)
        invariant more == set s | s in list[..j]
      {
        var state2 := inverse[letter][state][j];
        assert list[j] in list && state2 !in hit + more;
        HitOneMore(cut.members, d.states, table.cls, hit, more, state2);
        cut.Add(table.inblock[state2], state2);
        more := more + {state2};
        assert list[..j + 1] == list[..j] + [state2];
      }
      assert list[..|list|] == list;
    }

    /** Block bl gives its hit members x, which are linked in the cut, to a new block. */
    method SplitBlock(bl: nat, ghost a: nat, ghost hit: set<nat>, ghost x: seq<nat>)
      requires Inv(a, hit) && bl <= numberofblocks && numberofblocks + 1 < d.states
      requires Respected(d, hit) && cut.Shape() && table.blocksize.Length == |table.cls| == d.states
      requires forall s :: 0 <= s < d.states ==> table.cls[s] < |table.lists|
      requires MemberOk(x, d.states, cut.sizeofintersection[bl], cut.startintersection[bl], cut.nextintersection[..])
      requires 0 < |x| < |table.lists[bl]|
      requires forall s :: s in x ==> s in table.lists[bl]
      requires forall s :: 0 <= s < d.states ==> (s in x <==> s in hit && table.cls[s] == bl)
      modifies this`numberofblocks, table.Repr, agenda.Repr
      ensures Inv(a, hit) && numberofblocks == old(numberofblocks) + 1
      ensures fresh(agenda.Repr - old(agenda.Repr)) && table.Repr == old(table.Repr)
      ensures |table.cls| == d.states
      ensures forall s :: 0 <= s < d.states ==> table.cls[s] == if s in x then numberofblocks else old(table.cls[s])
    {
      hide Coarse, FinalPure, Covered, Table.Valid, Agenda.Valid, Respected;
      ghost var cls, was := table.cls, agenda.items;
      numberofblocks := numberofblocks + 1;
      table.Split(bl, numberofblocks, cut.startintersection[bl], cut.sizeofintersection[bl], cut.nextintersection, x);
      agenda.NewBlock(numberofblocks);
      ghost var larger := table.blocksize[bl] >= table.blocksize[numberofblocks];
      agenda.PutHalves(bl, numberofblocks, table.blocksize[bl], table.blocksize[numberofblocks]);
      RefineStep(d, cls, table.cls, was, agenda.items, a, hit, bl, numberofblocks, larger);
      HalvesBlocks(was, d.letters, bl, numberofblocks, larger);
    }

    /** Cut block bl, the j-th of jlist, along hit. */
    method CutBlock(bl: nat, ghost a: nat, ghost hit: set<nat>, ghost j: nat)
      requires Inv(a, hit) && CutsOk(j, hit) && j < cut.sizeofjlist && bl == cut.jlist[j] && Respected(d, hit)
      modifies this`numberofblocks, table.Repr, cut.Repr, agenda.Repr
      ensures Inv(a, hit) && CutsOk(j + 1, hit)
      ensures cut.sizeofjlist == old(cut.sizeofjlist) && fresh(agenda.Repr - old(agenda.Repr))
      ensures table.Repr == old(table.Repr) && cut.Repr == old(cut.Repr)
      ensures if Splits(old(table.cls), bl, hit)
        then numberofblocks == old(numberofblocks) + 1 && CutOff(old(table.cls), table.cls, bl, numberofblocks, hit)
        else numberofblocks == old(numberofblocks) && table.cls == old(table.cls) && agenda.items == old(agenda.items)
    {
      hide Lists, Table.Valid, Cutting, Coarse, FinalPure, Covered, Agenda.Valid, Respected;
      ghost var todo, cls, members := cut.Todo(j), table.cls, cut.members;
      ghost var nb := |table.lists|;
      FirstBlock(a, hit, j);
      assert nb !in todo && forall s :: 0 <= s < d.states ==> cls[s] != nb;
      if cut.sizeofintersection[bl] != table.blocksize[bl] {
        SplitBlock(bl, a, hit, members[bl]);
        CutApart(members, d.states, todo, cls, hit, nb, table.cls);
      } else {
        CutWhole(members, d.states, todo, cls, hit);
      }
      cut.Clear(bl);
    }

    lemma FirstBlock(a: nat, hit: set<nat>, j: nat)
      requires Inv(a, hit) && CutsOk(j, hit) && j < cut.sizeofjlist
      ensures var bl, todo := cut.jlist[j], cut.Todo(j);
        && todo != [] && todo[0] == bl && todo[1..] == cut.Todo(j + 1)
        && bl < d.states == table.blocksize.Length == |table.cls| && bl < |table.lists| <= d.states
        && (forall c :: c in todo ==> c < |table.lists|)
        && (forall c :: c in todo[1..] ==> c in todo && c != bl)
        && var x := cut.members[bl];
        && MemberOk(x, d.states, cut.sizeofintersection[bl], cut.startintersection[bl], cut.nextintersection[..])
        && 0 < |x| <= |table.lists[bl]| == table.blocksize[bl]
        && (forall s :: s in x ==> s in table.lists[bl])
        && (forall s :: 0 <= s < d.states ==> (s in x <==> s in hit && table.cls[s] == bl))
        && (|x| < |table.lists[bl]| ==> |table.lists| < d.states)
        && (|x| < |table.lists[bl]| <==> Splits(table.cls, bl, hit))
        && (|x| == |table.lists[bl]| ==> forall s :: 0 <= s < d.states && table.cls[s] == bl ==> s in x)
      ensures forall s :: 0 <= s < d.states ==> table.cls[s] < |table.lists|
    {
      hide Coarse, FinalPure, Covered, Agenda.Valid;
      var bl, todo := cut.jlist[j], cut.Todo(j);
      assert todo[0] == bl && bl in todo && todo[1..] == cut.Todo(j + 1);
      BlockFacts(table.lists, d.states, table.View(), cut.members, cut.sizeofintersection[..],
        cut.startintersection[..], cut.nextintersection[..], todo, hit);
    }

    /** No block is cut: the state between two entries of the waiting list. */
    ghost predicate Between()
      reads this, table, cut, agenda, table.Repr, agenda.Repr, cut.Repr
    {
      Inv(0, {}) && cut.Valid() && cut.members == seq(d.states, _ => []) && IsInverse(d, inverse)
    }

    /** Cut the blocks of jlist one after the other. */
    method CutBlocks(ghost a: nat, ghost hit: set<nat>)
      requires Inv(a, hit) && CutsOk(0, hit) && Respected(d, hit) && 1 <= a <= d.letters && IsInverse(d, inverse)
      modifies this`numberofblocks, table.Repr, cut.Repr, agenda.Repr
      ensures Between() && fresh(agenda.Repr - old(agenda.Repr))
      ensures table.Repr == old(table.Repr) && cut.Repr == old(cut.Repr)
      ensures numberofblocks > old(numberofblocks) ||
        (numberofblocks == old(numberofblocks) && agenda.items == old(agenda.items))
    {
      hide Lists, Table.Valid, Cutting, Coarse, FinalPure, Covered, Agenda.Valid, Respected, IsInverse;
      ghost var size := cut.sizeofjlist;
      for j := 0 to cut.sizeofjlist
        invariant Inv(a, hit) && CutsOk(j, hit) && cut.sizeofjlist == size
        invariant fresh(agenda.Repr - old(agenda.Repr))
        invariant table.Repr == old(table.Repr) && cut.Repr == old(cut.Repr)
        invariant numberofblocks > old(numberofblocks) ||
          (numberofblocks == old(numberofblocks) && agenda.items == old(agenda.items))
      {
        CutBlock(cut.jlist[j], a, hit, j);
      }
      NothingToCut(cut.members, d.states, cut.Todo(size), table.cls, hit);
      StepDone(d, table.cls, agenda.items, a, hit);
    }

    /** Take one entry from the waiting list and cut every block along the states it hits. */
    method ProcessEntry()
      requires Between() && agenda.items != {}
      modifies this`numberofblocks, table.Repr, cut.Repr, agenda.Repr
      ensures Between() && fresh(agenda.Repr - old(agenda.Repr))
      ensures table.Repr == old(table.Repr) && cut.Repr == old(cut.Repr)
      ensures numberofblocks > old(numberofblocks) ||
        (numberofblocks == old(numberofblocks) && agenda.items < old(agenda.items))
    {
      hide Lists, Table.Valid, Cutting, Coarse, FinalPure, Covered, Agenda.Valid, Respected, IsInverse;
      ghost var was := agenda.items;
      var letter, bno := agenda.Take();
      TakeKeepsCovered(d, table.cls, was, letter, bno);
      HitRespectsEquivalence(d, table.cls, letter, bno);
      ghost var hit := Hit(d, table.cls, letter, bno);
      ComputeInverse(bno, letter);
      StartCutting(cut.members, d.states, cut.Todo(0), table.cls, hit);
      CutBlocks(letter, hit);
    }

    /** The first partition: block 0 the final states, block 1 the others; simple if one of them is empty. */
    method InitStatic() returns (simple: bool)
      requires Apart() && d.states >= 2 && table.Shape() && forall i :: 0 <= i < d.states ==> table.blocksize[i] == 0
      requires agenda.Valid() && agenda.blocks == 2 && agenda.inwaiting.Length == d.states
      requires forall x :: x in agenda.items <==> 1 <= x.letter <= d.letters && x.bno < 2
      requires cut.Valid() && cut.members == seq(d.states, _ => [])
      modifies this, table.Repr
      ensures simple <==> (forall s, t :: 0 <= s < t < d.states ==> d.final[s] == d.final[t])
      ensures !simple ==> Between() && table.Repr == old(table.Repr)
    {
      hide Lists, Partition, Coarse, FinalPure, Covered, Agenda.Valid, Intersection.Valid, IsInverse;
      simple := table.InitBlocks(d.final);
      if !simple {
        inverse := BuildInverse(d);
        numberofblocks := 1;
        FirstPartition(d, table.cls, agenda.items);
      }
    }

    lemma BlocksBounded()
      requires Between()
      ensures numberofblocks < d.states
    {
    }

    /** Process the waiting list until it is empty. */
    method Refine()
      requires Between()
      modifies this, table.Repr, cut.Repr, agenda.Repr
      ensures Between() && agenda.items == {}
    {
      hide Minimizer.Between;
      BetweenAgenda();
      var empty := agenda.IsEmpty();
      while !empty
        invariant Between() && empty == (agenda.items == {})
        invariant table.Repr == old(table.Repr) && cut.Repr == old(cut.Repr) && fresh(agenda.Repr - old(agenda.Repr))
        decreases d.states - numberofblocks, agenda.items
      {
        ProcessEntry();
        BlocksBounded();
        BetweenAgenda();
        empty := agenda.IsEmpty();
      }
    }

    lemma BetweenAgenda()
      requires Between()
      ensures agenda.Valid()
    {
    }

    /** With nothing waiting, the blocks are the classes of equivalent states. */
    lemma Refined()
      requires Between() && agenda.items == {}
      ensures Classes(d, table.cls) && Stable(d, table.cls)
      ensures forall p, q :: 0 <= p < d.states && 0 <= q < d.states ==>
        (table.cls[p] == table.cls[q] <==> d.Equivalent(p, q))
    {
      NothingWaiting(d, table.cls);
      BlocksAreClasses(d, table.cls);
    }

    /** The automaton over the blocks, each represented by the first member of its list. */
    method ReadBlocks() returns (outdfa: Dfa)
      requires Between() && agenda.items == {}
      ensures Quotient(d, table.cls, table.startblock[..numberofblocks + 1], outdfa)
    {
      BlockHeads(table.lists, d.states, table.View());
      hide Lists, Partition, Cutting, Coarse, FinalPure, Covered, Agenda.Valid, IsInverse, Intersection.Valid;
      var blocks := numberofblocks + 1;
      ghost var rep, cls := table.startblock[..blocks], table.cls;
      var final: seq<bool> := seq(blocks, _ => false);
      var delta: seq<seq<nat>> := seq(d.letters + 1, _ => seq(blocks, _ => 0));
      for state := 0 to blocks
        invariant |final| == blocks && |delta| == d.letters + 1
        invariant forall b :: 0 <= b < state ==> final[b] == d.final[rep[b]]
        invariant forall a :: 1 <= a <= d.letters ==> RowDone(delta[a], d.delta[a], rep, cls, state)
      {
        var state2 := table.startblock[state];
        final := final[state := d.final[state2]];
        delta := CopyLetters(d, delta, rep, table.inblock, state, state2);
      }
      outdfa := Dfa(blocks, d.letters, table.inblock[d.init], final, delta);
      QuotientFromRows(d, cls, rep, outdfa);
    }

    /** The reduced automaton: the automaton itself if every block has one state only. */
    method MakeNewAutomaton() returns (outdfa: Dfa)
      requires Between() && agenda.items == {} && d.AllReachable()
      ensures outdfa.Valid() && outdfa.letters == d.letters
      ensures SameLanguage(d, outdfa) && outdfa.AllReachable() && outdfa.Reduced()
    {
      Refined();
      if numberofblocks + 1 == d.states {
        SingleStates(d, table.lists, table.View());
        outdfa := d;
      } else {
        outdfa := ReadBlocks();
        QuotientIsMinimal(d, table.cls, table.startblock[..numberofblocks + 1], outdfa);
      }
    }
  }

  /** Every block is represented by the head of its list. */
  lemma BlockHeads(lists: seq<seq<nat>>, n: nat, t: Tables)
    requires Partition(lists, n, t)
    ensures forall b :: 0 <= b < |lists| ==> t.start[b] < n && t.inblock[t.start[b]] == b
    ensures forall s :: 0 <= s < n ==> t.inblock[s] < |lists|
  {
    forall b | 0 <= b < |lists|
      ensures t.start[b] < n && t.inblock[t.start[b]] == b
    {
      assert BlockOk(lists[b], b, n, t.inblock, t);
      assert lists[b][0] in lists[b];
    }
  }

  lemma QuotientFromRows(d: Dfa, cls: seq<nat>, rep: seq<nat>, e: Dfa)
    requires Classes(d, cls) && e.states == |rep| == |e.final| > 0 && e.letters == d.letters
    requires |e.delta| == d.letters + 1 && e.init == cls[d.init]
    requires forall s :: 0 <= s < |cls| ==> cls[s] < |rep|
    requires forall b :: 0 <= b < |rep| ==> rep[b] < d.states && cls[rep[b]] == b && e.final[b] == d.final[rep[b]]
    requires forall a :: 1 <= a <= d.letters ==> RowDone(e.delta[a], d.delta[a], rep, cls, |rep|)
    ensures Quotient(d, cls, rep, e)
  {
    forall a | 1 <= a <= d.letters
      ensures |e.delta[a]| == |rep|
      ensures forall b :: 0 <= b < |rep| ==> e.delta[a][b] == cls[d.delta[a][rep[b]]] < |rep|
    {
      assert RowDone(e.delta[a], d.delta[a], rep, cls, |rep|);
    }
  }

  /** As many blocks as states: no two states are equivalent. */
  lemma SingleStates(d: Dfa, lists: seq<seq<nat>>, t: Tables)
    requires d.Valid() && Partition(lists, d.states, t) && |lists| == d.states
    requires forall p, q :: 0 <= p < d.states && 0 <= q < d.states && d.Equivalent(p, q) ==>
      t.inblock[p] == t.inblock[q]
    ensures d.Reduced()
  {
    forall p, q | 0 <= p < d.states && 0 <= q < d.states && d.Equivalent(p, q)
      ensures p == q
    {
      var b := t.inblock[p];
      assert BlockOk(lists[b], b, d.states, t.inblock, t);
      assert p in lists[b] && q in lists[b];
      if |lists[b]| >= 2 {
        RoomForSplit(lists, d.states, t, b);
      }
    }
  }
}
