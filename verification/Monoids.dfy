/** The monoid as it is stored: multiplication, and the rest of the tables from the products alone. */
module Monoids {
  import opened Automata
  import opened TransitionMonoids
  import opened MonoidLaws

  /** The tables as elements; column 0 of the table of successors holds the predecessors. */
  ghost function Stored(generator: seq<nat>, no2trans: seq<Map>, lastletter: seq<nat>,
                        gensucc: seq<seq<nat>>): Elements {
    var pred := seq(|gensucc|, k requires 0 <= k < |gensucc| => if gensucc[k] == [] then 0 else gensucc[k][0]);
    Elements(generator, no2trans, pred, lastletter, gensucc)
  }

  /** The identity has no predecessor and no last generator, and predecessors are kept in column 0. */
  ghost predicate Rooted(e: Elements) {
    && 0 < |e.pred| == |e.last| == |e.succ| && e.pred[0] == 0 == e.last[0]
    && forall k :: 0 <= k < |e.succ| ==> |e.succ[k]| > 0 && e.succ[k][0] == e.pred[k]
  }

  lemma StoredExact(e: Elements)
    requires Rooted(e)
    ensures Stored(e.gens, e.trans, e.last, e.succ) == e
  {
    assert Stored(e.gens, e.trans, e.last, e.succ).pred == e.pred;
  }

  ghost predicate Lengths(d: Dfa, e: Elements, no2length: seq<nat>)
    requires d.Valid() && Complete(d, e)
  {
    |no2length| == |e.trans| && forall k :: 0 <= k < |e.trans| ==> no2length[k] == |Rep(d, e, k)|
  }

  /** The last element has a longest representative. */
  lemma RepLongest(d: Dfa, e: Elements, k: nat)
    requires d.Valid() && Complete(d, e) && k < |e.trans|
    ensures |Rep(d, e, k)| <= |Rep(d, e, |e.trans| - 1)|
  {
    if k < |e.trans| - 1 {
      RepOrder(d, e, k, |e.trans| - 1);
    }
  }

  // ---- which elements come from which places of the table ----

  /** The elements before run are those that come from places before (a, g). */
  ghost predicate FoundUpTo(e: Elements, run: nat, a: nat, g: nat)
    requires |e.trans| == |e.pred| == |e.last|
  {
    forall k :: 1 <= k < |e.trans| ==> (k < run <==> Earlier(e.pred[k], e.last[k], a, g))
  }

  lemma FoundNone(d: Dfa, e: Elements)
    requires d.Valid() && Complete(d, e)
    ensures FoundUpTo(e, 1, 0, 1)
  {
    forall k | 1 <= k < |e.trans|
      ensures !Earlier(e.pred[k], e.last[k], 0, 1)
    {
      assert Derived(d, e, k);
    }
  }

  /** The next element comes from the first place that holds its number. */
  lemma FoundHere(d: Dfa, e: Elements, run: nat, a: nat, g: nat)
    requires d.Valid() && Complete(d, e) && 1 <= run && a < |e.trans| && 1 <= g < |e.gens| && FoundUpTo(e, run, a, g)
    requires g < |e.succ[a]| && e.succ[a][g] == run
    ensures run < |e.trans| && e.pred[run] == a && e.last[run] == g && FoundUpTo(e, run + 1, a, g + 1)
  {
    TableEntry(d, e, a, g);
    assert !Earlier(e.pred[run], e.last[run], a, g);
    forall k | 1 <= k < |e.trans|
      ensures k < run + 1 <==> Earlier(e.pred[k], e.last[k], a, g + 1)
    {
      if run < k {
        assert Earlier(e.pred[run], e.last[run], e.pred[k], e.last[k]);
      }
    }
  }

  lemma FoundNotHere(d: Dfa, e: Elements, run: nat, a: nat, g: nat)
    requires d.Valid() && Complete(d, e) && 1 <= run && a < |e.trans| && 1 <= g < |e.gens| && FoundUpTo(e, run, a, g)
    requires g < |e.succ[a]| && e.succ[a][g] != run
    ensures FoundUpTo(e, run, a, g + 1)
  {
    if run < |e.trans| {
      assert !Earlier(e.pred[run], e.last[run], a, g);
    }
    forall k | 1 <= k < |e.trans|
      ensures k < run <==> Earlier(e.pred[k], e.last[k], a, g + 1)
    {
      OriginEntry(d, e, k);
      assert run < k ==> Earlier(e.pred[run], e.last[run], e.pred[k], e.last[k]);
    }
  }

  lemma FoundNextRow(d: Dfa, e: Elements, run: nat, a: nat)
    requires d.Valid() && Complete(d, e) && FoundUpTo(e, run, a, |e.gens|)
    ensures FoundUpTo(e, run, a + 1, 1)
  {
    forall k | 1 <= k < |e.trans|
      ensures k < run <==> Earlier(e.pred[k], e.last[k], a + 1, 1)
    {
      assert Derived(d, e, k);
    }
  }

  /** First tr, then dd, state by state. */
  method Apply(tr: Map, dd: Map) returns (r: Map)
    requires IsMap(tr, |dd|) && IsMap(dd, |dd|)
    ensures r == Compose(tr, dd)
  {
    r := [];
    for state := 0 to |dd|
      invariant |r| == state && forall q :: 0 <= q < state ==> r[q] == dd[tr[q]]
    {
      r := r + [dd[tr[state]]];
    }
  }

  class Monoid {
    var generator: seq<nat>
    var let2gen: seq<nat>
    var no2trans: seq<Map>
    var gensucc: seq<seq<nat>>
    var lastletter: seq<nat>
    var no2length: seq<nat>
    var zero: nat
    var mequals: bool
    var word: array<nat>

    ghost function Elems(): Elements
      reads this`generator, this`no2trans, this`gensucc, this`lastletter
    {
      Stored(generator, no2trans, lastletter, gensucc)
    }

    /** The tables are a complete enumeration, and the buffer has room for every representative. */
    ghost predicate Valid(d: Dfa)
      reads this`generator, this`no2trans, this`gensucc, this`lastletter, this`no2length, this`word
    {
      && d.Valid() && Complete(d, Elems()) && Rooted(Elems()) && Lengths(d, Elems(), no2length)
      && word.Length == no2length[|no2length| - 1]
    }

    constructor (generator: seq<nat>, let2gen: seq<nat>, no2trans: seq<Map>, gensucc: seq<seq<nat>>,
                 lastletter: seq<nat>, no2length: seq<nat>, mequals: bool)
      requires |no2length| > 0
      ensures this.generator == generator && this.let2gen == let2gen && this.no2trans == no2trans
      ensures this.gensucc == gensucc && this.lastletter == lastletter && this.no2length == no2length
      ensures this.mequals == mequals && fresh(word) && word.Length == no2length[|no2length| - 1]
    {
      this.generator, this.let2gen, this.no2trans, this.gensucc := generator, let2gen, no2trans, gensucc;
      this.lastletter, this.no2length, this.mequals := lastletter, no2length, mequals;
      this.zero, this.word := 0, new nat[no2length[|no2length| - 1]];
    }

    lemma Sizes(d: Dfa)
      requires Valid(d)
      ensures d.Valid() && Complete(d, Elems()) && Elems().gens == generator && Elems().succ == gensucc
      ensures |Elems().trans| == |no2trans| == |gensucc| == |lastletter| == |no2length| > 0
      ensures forall k :: 0 <= k < |gensucc| ==> |Rep(d, Elems(), k)| == no2length[k] <= word.Length
    {
      forall k | 0 <= k < |gensucc|
        ensures |Rep(d, Elems(), k)| == no2length[k] <= word.Length
      {
        RepLongest(d, Elems(), k);
      }
    }

    /** One step back from an element. */
    lemma OneBack(d: Dfa, k: nat)
      requires Valid(d) && k < |Elems().trans| && |Rep(d, Elems(), k)| > 0
      ensures k < |gensucc| == |lastletter| && gensucc[k] != [] && gensucc[k][0] < k
      ensures Rep(d, Elems(), k) == Rep(d, Elems(), gensucc[k][0]) + [lastletter[k]]
    {
      assert Derived(d, Elems(), k);
    }

    /** Write the representative of an element into the buffer, back over the predecessors. */
    method CompWord(no: nat, ghost d: Dfa)
      requires Valid(d) && no < |gensucc|
      modifies word
      ensures no2length[no] <= word.Length && word[..no2length[no]] == Rep(d, Elems(), no)
    {
      hide Monoid.Valid, Complete, Stored, Rep;
      Sizes(d);
      ghost var e := Elems();
      var elem: nat, letter: nat := no, no2length[no];
      while letter != 0
        invariant elem < |gensucc| && letter == |Rep(d, e, elem)| && letter <= no2length[no] <= word.Length
        invariant Rep(d, e, elem) + word[letter..no2length[no]] == Rep(d, e, no)
      {
        OneBack(d, elem);
        ghost var rest := word[letter..no2length[no]];
        letter := letter - 1;
        word[letter] := lastletter[elem];
        assert word[letter..no2length[no]] == [lastletter[elem]] + rest;
        elem := gensucc[elem][0];
      }
    }

    /** One step on from an element. */
    lemma OneOn(d: Dfa, a: nat, v: Word, i: nat)
      requires Valid(d) && a < |Elems().trans| && IsGenWord(Elems(), v) && i < |v|
      ensures var h := Eval(d, Elems(), a, v[..i]);
              h < |gensucc| && v[i] < |gensucc[h]| && gensucc[h][v[i]] == Eval(d, Elems(), a, v[..i + 1])
    {
      TableEntry(d, Elems(), Eval(d, Elems(), a, v[..i]), v[i]);
      assert v[..i + 1][..i] == v[..i];
    }

    /** Multiply: from a over the representative of b. */
    method Mult(a: nat, b: nat, ghost d: Dfa) returns (help: nat)
      requires Valid(d) && a < |gensucc| && b < |gensucc|
      modifies word
      ensures help == Product(d, Elems(), a, b)
    {
      hide Monoid.Valid, Complete, Stored, Rep;
      Sizes(d);
      ghost var e, v := Elems(), Rep(d, Elems(), b);
      RepExact(d, e, b);
      CompWord(b, d);
      help := a;
      for i := 0 to no2length[b]
        invariant help == Eval(d, e, a, v[..i]) && word[..no2length[b]] == v
      {
        OneOn(d, a, v, i);
        assert word[..no2length[b]][i] == v[i];
        help := gensucc[help][word[i]];
      }
      assert v[..|v|] == v;
    }

    // ---- the rest of the tables ----

    /** The elements before run are rebuilt, and all products are there. */
    ghost predicate Rebuilt(d: Dfa, e: Elements, run: nat)
      requires d.Valid() && Complete(d, e)
      reads this`no2trans, this`gensucc, this`lastletter, this`no2length, this`generator
    {
      && generator == e.gens && 1 <= run <= |e.trans| == |no2trans| == |gensucc| == |lastletter| == |no2length|
      && (forall k :: 0 <= k < |e.trans| ==> |gensucc[k]| == |e.gens|)
      && (forall k, g :: 0 <= k < |e.trans| && 1 <= g < |e.gens| ==> gensucc[k][g] == e.succ[k][g])
      && (forall k :: 0 <= k < run ==> no2trans[k] == e.trans[k] && lastletter[k] == e.last[k])
      && (forall k :: 0 <= k < run ==> gensucc[k][0] == e.pred[k] && no2length[k] == |Rep(d, e, k)|)
    }

    /** Element run is element elem followed by generator gen. */
    method Rebuild(run: nat, elem: nat, gen: nat, dd: Map, ghost d: Dfa, ghost e: Elements)
      requires d.Valid() && Complete(d, e) && Rebuilt(d, e, run) && run < |e.trans|
      requires Derived(d, e, run) && e.pred[run] == elem && e.last[run] == gen && dd == d.delta[e.gens[gen]]
      modifies this`no2trans, this`gensucc, this`lastletter, this`no2length
      ensures Rebuilt(d, e, run + 1)
    {
      var row: seq<nat> := gensucc[run][0 := elem];
      gensucc := gensucc[run := row];
      lastletter := lastletter[run := gen];
      var r := Apply(no2trans[elem], dd);
      no2trans := no2trans[run := r];
      no2length := no2length[run := no2length[elem] + 1];
    }

    /** The products are those of e. */
    ghost predicate ProductsOf(e: Elements)
      requires |e.trans| == |e.succ| && forall k :: 0 <= k < |e.succ| ==> |e.succ[k]| == |e.gens|
      reads this`no2trans, this`gensucc, this`generator
    {
      && generator == e.gens && |no2trans| == |gensucc| == |e.trans|
      && (forall k :: 0 <= k < |e.trans| ==> |gensucc[k]| == |e.gens|)
      && (forall k, g :: 0 <= k < |e.trans| && 1 <= g < |e.gens| ==> gensucc[k][g] == e.succ[k][g])
    }

    /** Create the identity. */
    method RebuildIdentity(d: Dfa, ghost e: Elements)
      requires d.Valid() && Complete(d, e) && Rooted(e) && ProductsOf(e)
      modifies this`no2trans, this`gensucc, this`lastletter, this`no2length
      ensures Rebuilt(d, e, 1) && |gensucc| == |e.trans|
    {
      var row: seq<nat> := gensucc[0][0 := 0];
      gensucc := gensucc[0 := row];
      no2length := seq(|gensucc|, _ => 0);
      lastletter := seq(|gensucc|, _ => 0);
      var identity := Identity(d.states);
      no2trans := no2trans[0 := identity];
    }

    lemma AllRebuilt(d: Dfa, e: Elements, run: nat)
      requires d.Valid() && Complete(d, e) && Rooted(e) && Rebuilt(d, e, run) && FoundUpTo(e, run, |e.trans|, 1)
      ensures run == |e.trans| && Elems() == e && Lengths(d, e, no2length)
    {
      assert run < |e.trans| ==> Derived(d, e, run);
      assert no2trans == e.trans && lastletter == e.last;
      forall k | 0 <= k < |e.trans|
        ensures gensucc[k] == e.succ[k]
      {
        assert forall g :: 0 <= g < |e.gens| ==> gensucc[k][g] == e.succ[k][g];
      }
      assert gensucc == e.succ;
      StoredExact(e);
    }

    /** Find the elements that come from one row of the table. */
    method RebuildRow(start: nat, elem: nat, d: Dfa, ghost e: Elements) returns (run: nat)
      requires d.Valid() && Complete(d, e) && Rebuilt(d, e, start) && FoundUpTo(e, start, elem, 1) && elem < |e.trans|
      modifies this`no2trans, this`gensucc, this`lastletter, this`no2length
      ensures Rebuilt(d, e, run) && FoundUpTo(e, run, elem + 1, 1)
    {
      run := start;
      for gen := 1 to |generator|
        invariant Rebuilt(d, e, run) && FoundUpTo(e, run, elem, gen)
      {
        if gensucc[elem][gen] == run {
          FoundHere(d, e, run, elem, gen);
          Rebuild(run, elem, gen, d.delta[generator[gen]], d, e);
          run := run + 1;
        } else {
          FoundNotHere(d, e, run, elem, gen);
        }
      }
      FoundNextRow(d, e, run, elem);
    }

    /** Get the buffer for representatives. */
    method MakeWord(ghost d: Dfa)
      requires d.Valid() && Complete(d, Elems()) && Rooted(Elems()) && Lengths(d, Elems(), no2length)
      modifies this`word
      ensures Valid(d)
    {
      assert |no2length| > 0;
      hide Complete, Rooted, Stored;
      word := new nat[no2length[|no2length| - 1]];
    }

    /** Compute predecessors, last generators, transformations and lengths from the products alone. */
    method CompRestOfMon(d: Dfa, ghost e: Elements)
      requires d.Valid() && Complete(d, e) && Rooted(e) && ProductsOf(e)
      modifies this`no2trans, this`gensucc, this`lastletter, this`no2length, this`word
      ensures Valid(d) && Elems() == e
    {
      FoundNone(d, e);
      hide Monoid.Valid, Complete, Rooted, FoundUpTo, Rebuilt, Stored;
      RebuildIdentity(d, e);
      var mno, run := |gensucc|, 1;
      for elem := 0 to mno
        invariant Rebuilt(d, e, run) && FoundUpTo(e, run, elem, 1)
      {
        run := RebuildRow(run, elem, d, e);
      }
      AllRebuilt(d, e, run);
      MakeWord(d);
    }
  }
}
