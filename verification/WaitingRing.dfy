/** The waiting list of Hopcroft's algorithm: a circular singly linked list whose cells are used again.

    The cells from `waiting` up to `wlast` are in use, the cells behind `wlast` are spare; a cell is
    allocated only when no spare cell is left. */
module WaitingRing {

  /** A pair (letter, block) that still has to be processed. */
  datatype Item = Item(letter: nat, bno: nat)

  class Cell {
    var letter: nat
    var bno: nat
    var next: Cell?

    constructor ()
      ensures letter == 0 && bno == 0 && next == null
    {
      letter, bno, next := 0, 0, null;
    }
  }

  class Ring {
    var waiting: Cell?
    var wlast: Cell?
    var sizeofwaiting: nat
    ghost var cells: seq<Cell>   // all cells in the order of their links, from `waiting` on
    ghost var queue: seq<Item>   // the contents, oldest first
    ghost var Repr: set<Cell>    // the cells as a set

    ghost predicate Linked()
      reads this, Repr
      requires forall c :: c in cells ==> c in Repr
    {
      && (forall i, j :: 0 <= i < j < |cells| ==> cells[i] != cells[j])
      && (forall i, j :: 0 <= i < |cells| && 0 <= j < |cells| && j == (if i + 1 < |cells| then i + 1 else 0) ==>
            cells[i].next == cells[j])
      && (if |cells| == 0 then waiting == null else waiting == cells[0])
    }

    ghost predicate Valid()
      reads this, Repr
    {
      && (forall c :: c in cells ==> c in Repr)
      && Linked()
      && |queue| == sizeofwaiting <= |cells|
      && (0 < sizeofwaiting ==> wlast == cells[sizeofwaiting - 1])
      && (forall i :: 0 <= i < sizeofwaiting ==> queue[i] == Item(cells[i].letter, cells[i].bno))
    }

    /** While the list is built it hangs, not yet closed, behind a dummy cell. */
    ghost predicate Building(dummy: Cell)
      reads this, cells, dummy
    {
      && dummy !in cells
      && (forall i, j :: 0 <= i < j < |cells| ==> cells[i] != cells[j])
      && waiting == dummy
      && wlast == (if |cells| == 0 then dummy else cells[|cells| - 1])
      && wlast.next == null
      && (|cells| > 0 ==> dummy.next == cells[0])
      && (forall i, j :: 0 <= i < j < |cells| && j == i + 1 ==> cells[i].next == cells[j])
      && |queue| == |cells|
      && (forall i :: 0 <= i < |cells| ==> queue[i] == Item(cells[i].letter, cells[i].bno))
    }

    /** The list of the first two blocks with every letter. */
    constructor (letters: nat)
      ensures Valid() && fresh(Repr)
      ensures queue == AllItems(letters)
      ensures |cells| == 2 * letters
    {
      var dummy := new Cell();
      waiting, wlast, cells, queue, sizeofwaiting, Repr := dummy, dummy, [], [], 0, {};
      new;
      Fill(letters, dummy);
      Close(letters, dummy);
    }

    method Fill(letters: nat, ghost dummy: Cell)
      requires Building(dummy) && queue == []
      modifies this`wlast, this`cells, this`queue, cells, dummy
      ensures Building(dummy) && queue == AllItems(letters) && fresh(set c | c in cells && c !in old(cells))
    {
      for letter := 1 to letters + 1
        invariant Building(dummy) && queue == AllItems(letter - 1) && fresh(set c | c in cells && c !in old(cells))
      {
        Append(letter, 0, dummy);
        Append(letter, 1, dummy);
      }
    }

    method Close(letters: nat, ghost dummy: Cell)
      requires Building(dummy) && queue == AllItems(letters)
      modifies this, cells, dummy
      ensures Valid() && queue == old(queue) && |cells| == 2 * letters && cells == old(cells)
      ensures forall c :: c in Repr ==> c in cells
    {
      AllItemsLength(letters);
      waiting := waiting.next;
      wlast.next := waiting;
      sizeofwaiting := letters * 2;
      Repr := set c | c in cells;
    }

    /** One more cell at the open end. */
    method Append(letter: nat, bno: nat, ghost dummy: Cell)
      requires Building(dummy)
      modifies this`wlast, this`cells, this`queue, cells, dummy
      ensures Building(dummy)
      ensures |cells| == |old(cells)| + 1 && cells[..|old(cells)|] == old(cells) && fresh(cells[|old(cells)|])
      ensures queue == old(queue) + [Item(letter, bno)]
    {
      var cell := new Cell();
      wlast.next := cell;
      wlast := cell;
      wlast.bno := bno;
      wlast.letter := letter;
      cells := cells + [cell];
      queue := queue + [Item(letter, bno)];
    }

    /** Take the oldest entry off the list; its cell becomes a spare one. */
    method Take() returns (letter: nat, bno: nat)
      requires Valid() && sizeofwaiting > 0
      modifies this
      ensures Valid() && |cells| == |old(cells)| && Repr == old(Repr)
      ensures Item(letter, bno) == old(queue[0])
      ensures queue == old(queue[1..])
    {
      bno, letter := waiting.bno, waiting.letter;
      waiting := waiting.next;
      sizeofwaiting := sizeofwaiting - 1;
      cells := cells[1..] + [cells[0]];
      queue := queue[1..];
    }

    /** Add an entry behind the youngest one. */
    method Put(letter: nat, bno: nat)
      requires Valid() && |cells| > 0
      modifies this, Repr
      ensures Valid() && |cells| >= old(|cells|) && fresh(Repr - old(Repr))
      ensures queue == old(queue) + [Item(letter, bno)]
    {
      if sizeofwaiting == 0 {
        waiting.letter := letter;
        waiting.bno := bno;
        wlast := waiting;
      } else if wlast.next == waiting {
        assert wlast.next == cells[if sizeofwaiting < |cells| then sizeofwaiting else 0];
        var cell := new Cell();
        cell.letter := letter;
        cell.bno := bno;
        cell.next := waiting;
        wlast.next := cell;
        wlast := cell;
        cells := cells + [cell];
        Repr := Repr + {cell};
      } else {
        assert wlast.next == cells[if sizeofwaiting < |cells| then sizeofwaiting else 0];
        wlast := wlast.next;
        wlast.letter := letter;
        wlast.bno := bno;
      }
      queue := queue + [Item(letter, bno)];
      sizeofwaiting := sizeofwaiting + 1;
    }
  }

  /** Both of the first two blocks with the letters 1..k, letter by letter. */
  ghost function AllItems(k: nat): seq<Item> {
    if k == 0 then [] else AllItems(k - 1) + [Item(k, 0), Item(k, 1)]
  }

  lemma {:induction false} AllItemsLength(k: nat)
    ensures |AllItems(k)| == 2 * k
  {
    if k > 0 {
      AllItemsLength(k - 1);
    }
  }

  lemma {:induction false} AllItemsExact(k: nat)
    ensures forall x :: x in AllItems(k) <==> 1 <= x.letter <= k && x.bno <= 1
    ensures forall i, j :: 0 <= i < j < |AllItems(k)| ==> AllItems(k)[i] != AllItems(k)[j]
  {
    if k > 0 {
      AllItemsExact(k - 1);
      var a := AllItems(k - 1);
      forall x: Item | 1 <= x.letter <= k && x.bno <= 1
        ensures x in AllItems(k)
      {
        if x.letter == k {
          assert x == AllItems(k)[|a| + x.bno];
        }
      }
      forall i | 0 <= i < |a|
        ensures a[i].letter < k
      {
        assert a[i] in a;
      }
    }
  }
}
