/** The waiting list together with the table inwaiting, which tells at once whether a pair is waiting. */
module WaitingList {
  import opened WaitingRing

  /** The half of a split block that is put on the list with a letter: the new block if the old one is waiting
      already or is not the smaller one. */
  function Half(waiting: set<Item>, letter: nat, bl: nat, nb: nat, larger: bool): Item {
    Item(letter, if Item(letter, bl) in waiting || larger then nb else bl)
  }

  ghost function Halves(waiting: set<Item>, letters: nat, bl: nat, nb: nat, larger: bool): set<Item> {
    set letter: nat | 1 <= letter <= letters :: Half(waiting, letter, bl, nb, larger)
  }

  lemma HalvesGrow(waiting: set<Item>, letter: nat, bl: nat, nb: nat, larger: bool)
    requires letter >= 1
    ensures Halves(waiting, letter, bl, nb, larger) ==
      Halves(waiting, letter - 1, bl, nb, larger) + {Half(waiting, letter, bl, nb, larger)}
    ensures forall x :: x in Halves(waiting, letter - 1, bl, nb, larger) ==> x.letter < letter
  {
  }

  /** The queue holds every item once. */
  ghost predicate Listed(items: set<Item>, queue: seq<Item>) {
    && (forall i, j :: 0 <= i < j < |queue| ==> queue[i] != queue[j])
    && (forall x :: x in items <==> x in queue)
  }

  /** rows[b][a] tells whether letter a is waiting with block b. */
  ghost predicate Mirrored(items: set<Item>, rows: seq<seq<bool>>, letters: nat) {
    && (forall x :: x in items ==> 1 <= x.letter <= letters && x.bno < |rows|)
    && (forall b :: 0 <= b < |rows| ==> |rows[b]| == letters + 1)
    && (forall a, b :: 1 <= a <= letters && 0 <= b < |rows| ==> (rows[b][a] <==> Item(a, b) in items))
  }

  lemma MirrorPut(items: set<Item>, rows: seq<seq<bool>>, letters: nat, a: nat, b: nat)
    requires Mirrored(items, rows, letters) && 1 <= a <= letters && b < |rows|
    ensures Mirrored(items + {Item(a, b)}, rows[b := rows[b][a := true]], letters)
    ensures Mirrored(items - {Item(a, b)}, rows[b := rows[b][a := false]], letters)
  {
  }

  /** The first two blocks wait with every letter. */
  lemma FirstMirror(items: set<Item>, rows: seq<seq<bool>>, letters: nat)
    requires forall x :: x in items <==> 1 <= x.letter <= letters && x.bno < 2
    requires |rows| == 2 && |rows[0]| == |rows[1]| == letters + 1
    requires forall a :: 1 <= a <= letters ==> rows[0][a] && rows[1][a]
    ensures Mirrored(items, rows, letters)
  {
  }

  lemma TakeListed(items: set<Item>, queue: seq<Item>)
    requires Listed(items, queue) && |queue| > 0
    ensures queue[0] in items && Listed(items - {queue[0]}, queue[1..])
  {
    assert queue == [queue[0]] + queue[1..];
  }

  class Agenda {
    const letters: nat
    const ring: Ring
    const inwaiting: array<seq<bool>>
    ghost var items: set<Item>   // the waiting pairs
    ghost var blocks: nat        // block numbers 0..blocks-1 are in use
    ghost var Repr: set<object>

    ghost predicate Valid()
      reads this, Repr
      ensures Valid() ==> this in Repr
    {
      && this in Repr && ring in Repr && inwaiting in Repr && ring.Repr <= Repr
      && ring.Valid() && blocks <= inwaiting.Length
      && (letters > 0 ==> |ring.cells| > 0)
      && Listed(items, ring.queue)
      && Mirrored(items, inwaiting[..blocks], letters)
    }

    /** Two blocks, both waiting with every letter. */
    constructor (n: nat, letters: nat)
      requires n >= 2
      ensures Valid() && fresh(Repr) && blocks == 2 && this.letters == letters && inwaiting.Length == n
      ensures forall x :: x in items <==> 1 <= x.letter <= letters && x.bno < 2
    {
      this.letters := letters;
      ring := new Ring(letters);
      inwaiting := new seq<bool>[n](_ => []);
      items, blocks, Repr := {}, 0, {};
      new;
      Prepare();
    }

    method Prepare()
      requires ring.Valid() && ring.queue == AllItems(letters) && |ring.cells| == 2 * letters && inwaiting.Length >= 2
      modifies this`items, this`Repr, this`blocks, inwaiting
      ensures Valid() && blocks == 2 && Repr == {this, ring, inwaiting} + ring.Repr
      ensures forall x :: x in items <==> 1 <= x.letter <= letters && x.bno < 2
    {
      hide Ring.Valid, Mirrored, Listed, AllItems;
      items := set x | x in ring.queue;
      Repr := {this, ring, inwaiting} + ring.Repr;
      FirstBlocks();
    }

    /** Both of the first blocks are marked as waiting with every letter. */
    method FirstBlocks()
      requires inwaiting.Length >= 2
      requires forall x :: x in items <==> x in AllItems(letters)
      modifies this`blocks, inwaiting
      ensures blocks == 2 && Mirrored(items, inwaiting[..2], letters)
      ensures Listed(items, AllItems(letters))
      ensures forall x :: x in items <==> 1 <= x.letter <= letters && x.bno < 2
    {
      AllItemsExact(letters);
      inwaiting[0] := seq(letters + 1, _ => true);
      inwaiting[1] := seq(letters + 1, _ => true);
      FirstMirror(items, inwaiting[..2], letters);
      blocks := 2;
    }

    /** Take the pair that has been waiting longest. */
    method Take() returns (letter: nat, bno: nat)
      requires Valid() && items != {}
      modifies Repr
      ensures Valid() && Repr == old(Repr) && blocks == old(blocks)
      ensures Item(letter, bno) in old(items) && items == old(items) - {Item(letter, bno)}
    {
      ghost var rows, first := inwaiting[..blocks], ring.queue[0];
      TakeListed(items, ring.queue);
      MirrorPut(items, rows, letters, first.letter, first.bno);
      assert |inwaiting[first.bno]| == letters + 1;
      hide Mirrored, Ring.Valid, Listed;
      letter, bno := ring.Take();
      inwaiting[bno] := inwaiting[bno][letter := false];
      items := items - {Item(letter, bno)};
      assert inwaiting[..blocks] == rows[bno := rows[bno][letter := false]];
    }

    method IsEmpty() returns (empty: bool)
      requires Valid()
      ensures empty == (items == {})
    {
      empty := ring.sizeofwaiting == 0;
    }

    method IsWaiting(letter: nat, bno: nat) returns (waiting: bool)
      requires Valid() && 1 <= letter <= letters && bno < blocks
      ensures waiting == (Item(letter, bno) in items)
    {
      waiting := inwaiting[bno][letter];
    }

    /** A pair that is not waiting yet. */
    method Put(letter: nat, bno: nat)
      requires Valid() && 1 <= letter <= letters && bno < blocks && Item(letter, bno) !in items
      modifies Repr
      ensures Valid() && fresh(Repr - old(Repr)) && blocks == old(blocks)
      ensures items == old(items) + {Item(letter, bno)}
    {
      ghost var was, rows := ring.queue, inwaiting[..blocks];
      MirrorPut(items, rows, letters, letter, bno);
      assert |inwaiting[bno]| == letters + 1;
      hide Mirrored, Ring.Valid;
      ring.Put(letter, bno);
      inwaiting[bno] := inwaiting[bno][letter := true];
      items := items + {Item(letter, bno)};
      assert inwaiting[..blocks] == rows[bno := rows[bno][letter := true]];
      Repr := Repr + ring.Repr;
    }

    /** One more block, with which nothing is waiting yet. */
    method NewBlock(bno: nat)
      requires Valid() && bno == blocks < inwaiting.Length
      modifies Repr
      ensures Valid() && fresh(Repr - old(Repr)) && blocks == old(blocks) + 1 && items == old(items)
    {
      inwaiting[bno] := seq(letters + 1, _ => false);
      blocks := blocks + 1;
    }

    /** Of the halves bl and nb of a split block, put the one that is due with this letter. */
    method PutHalf(letter: nat, bl: nat, nb: nat, sizebl: nat, sizenb: nat)
      requires Valid() && 1 <= letter <= letters && bl < nb && nb + 1 == blocks && Item(letter, nb) !in items
      modifies Repr
      ensures Valid() && fresh(Repr - old(Repr)) && blocks == old(blocks)
      ensures items == old(items) + {Half(old(items), letter, bl, nb, sizebl >= sizenb)}
    {
      var waiting := IsWaiting(letter, bl);
      if waiting {
        Put(letter, nb);
      } else if sizebl >= sizenb {
        Put(letter, nb);
      } else {
        Put(letter, bl);
      }
    }

    /** After block bl has given members to the new block nb: for every letter, both are waiting if bl was
        waiting, and otherwise the smaller one is added. */
    method PutHalves(bl: nat, nb: nat, sizebl: nat, sizenb: nat)
      requires Valid() && bl < nb && nb + 1 == blocks && (forall x :: x in items ==> x.bno != nb)
      modifies Repr
      ensures Valid() && fresh(Repr - old(Repr)) && blocks == old(blocks)
      ensures items == old(items) + Halves(old(items), letters, bl, nb, sizebl >= sizenb)
    {
      ghost var was := items;
      assert Halves(was, 0, bl, nb, sizebl >= sizenb) == {};
      hide Agenda.Valid, Halves;
      for letter := 1 to letters + 1
        invariant Valid() && fresh(Repr - old(Repr)) && blocks == old(blocks)
        invariant items == was + Halves(was, letter - 1, bl, nb, sizebl >= sizenb)
      {
        HalvesGrow(was, letter, bl, nb, sizebl >= sizenb);
        PutHalf(letter, bl, nb, sizebl, sizenb);
      }
    }
  }
}
