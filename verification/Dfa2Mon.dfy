/** The transition monoid of a deterministic automaton: elements in the order in which they are found, an index over
    their transformations, and the search for a zero. */
module Dfa2Mon {
  import opened Automata
  import opened TransitionMonoids
  import opened MonoidLaws
  import opened MonoidIndex
  import opened Monoids

  // ---- generators ----

  /** The letters before j are read: generator g is the first letter with its transformation. */
  ghost predicate Generated(d: Dfa, trans: seq<Map>, gens: seq<nat>, let2gen: seq<nat>, j: nat)
    requires d.Valid()
  {
    && 0 < |gens| == |trans| && gens[0] == 0 && trans[0] == Identity(d.states)
    && |let2gen| == d.letters + 1 && 1 <= j <= d.letters + 1
    && (forall g :: 1 <= g < |gens| ==> 1 <= gens[g] < j && trans[g] == d.delta[gens[g]])
    && (forall g, h :: 1 <= g < h < |gens| ==> gens[g] < gens[h])
    && (forall a :: 1 <= a < j ==> let2gen[a] < |gens| && d.delta[a] == trans[let2gen[a]] && gens[let2gen[a]] <= a)
  }

  ghost predicate SomeIdentity(let2gen: seq<nat>, j: nat)
    requires j <= |let2gen|
  {
    exists a :: 1 <= a < j && let2gen[a] == 0
  }

  lemma GeneratorKnown(d: Dfa, trans: seq<Map>, gens: seq<nat>, let2gen: seq<nat>, j: nat, number: nat)
    requires d.Valid() && Generated(d, trans, gens, let2gen, j) && j <= d.letters
    requires number < |trans| && trans[number] == d.delta[j]
    ensures Generated(d, trans, gens, let2gen[j := number], j + 1)
    ensures SomeIdentity(let2gen[j := number], j + 1) <==> SomeIdentity(let2gen, j) || number == 0
  {
    var after := let2gen[j := number];
    assert forall a :: 1 <= a < j ==> after[a] == let2gen[a];
    assert after[j] == number;
  }

  lemma GeneratorNew(d: Dfa, trans: seq<Map>, gens: seq<nat>, let2gen: seq<nat>, j: nat)
    requires d.Valid() && Generated(d, trans, gens, let2gen, j) && j <= d.letters
    ensures Generated(d, trans + [d.delta[j]], gens + [j], let2gen[j := |gens|], j + 1)
    ensures SomeIdentity(let2gen[j := |gens|], j + 1) <==> SomeIdentity(let2gen, j)
  {
    var after := let2gen[j := |gens|];
    assert forall a :: 1 <= a < j ==> after[a] == let2gen[a];
    assert after[j] == |gens|;
  }

  method FindGenerators(d: Dfa, ix: Index) returns (gens: seq<nat>, let2gen: seq<nat>, mequals: bool)
    requires d.Valid() && ix.Valid() && ix.n == d.states && ix.trans == [Identity(d.states)]
    modifies ix
    ensures ix.Valid() && Generated(d, ix.trans, gens, let2gen, d.letters + 1)
    ensures mequals <==> SomeIdentity(let2gen, d.letters + 1)
  {
    gens, let2gen, mequals := [0], seq(d.letters + 1, _ => 0), false;
    assert Generated(d, ix.trans, gens, let2gen, 1);
    hide Indexed, SomeIdentity, Distinct;
    for gen := 1 to d.letters + 1
      invariant ix.Valid() && Generated(d, ix.trans, gens, let2gen, gen)
      invariant mequals <==> SomeIdentity(let2gen, gen)
    {
      var number := ix.SearchTrans(d.delta[gen]);
      if number == |gens| {
        GeneratorNew(d, ix.trans, gens, let2gen, gen);
        gens := gens + [gen];
        ix.Store(d.delta[gen]);
      } else {
        GeneratorKnown(d, ix.trans, gens, let2gen, gen, number);
        if number == 0 {
          mequals := true;
        }
      }
      let2gen := let2gen[gen := number];
    }
  }

  // ---- all elements ----

  /** The real tables hold the elements. */
  ghost predicate Held(e: Elements, ix: Index, gens: seq<nat>, gensucc: seq<seq<nat>>, lastletter: seq<nat>)
    reads ix`trans
  {
    e.gens == gens && e.trans == ix.trans && e.succ == gensucc && e.last == lastletter && Rooted(e)
  }

  /** A fresh row; its first column is the predecessor. */
  function FreshRow(size: nat, pred: nat): (row: seq<nat>)
    requires size > 0
    ensures |row| == size && row[0] == pred
  {
    seq(size, i => if i == 0 then pred else 0)
  }

  /** The successors of the identity are the generators. */
  function FirstRows(m: nat): (rows: seq<seq<nat>>)
    requires m > 0
    ensures |rows| == m && rows[0] == Identity(m) && forall k :: 1 <= k < m ==> rows[k] == FreshRow(m, 0)
  {
    seq(m, k requires 0 <= k < m => if k == 0 then Identity(m) else FreshRow(m, 0))
  }

  /** The tables after the generators: they come from the identity. */
  ghost function FirstElements(trans: seq<Map>, gens: seq<nat>): Elements
    requires |gens| > 0
  {
    Elements(gens, trans, seq(|gens|, _ => 0), Identity(|gens|), FirstRows(|gens|))
  }

  lemma FirstShape(d: Dfa, trans: seq<Map>, gens: seq<nat>, let2gen: seq<nat>)
    requires d.Valid() && Generated(d, trans, gens, let2gen, d.letters + 1)
    ensures var e := FirstElements(trans, gens); Shape(d, e) && GeneratorsFirst(d, e) && Rooted(e)
  {
    forall k | 1 <= k < |trans|
      ensures IsMap(trans[k], d.states)
    {
      assert trans[k] == d.delta[gens[k]];
    }
  }

  lemma FirstElementsExact(d: Dfa, trans: seq<Map>, gens: seq<nat>, let2gen: seq<nat>)
    requires d.Valid() && Generated(d, trans, gens, let2gen, d.letters + 1) && Distinct(trans)
    ensures var e := FirstElements(trans, gens); Enumerating(d, e, 1, 1) && GeneratorsFirst(d, e) && Rooted(e)
  {
    var e := FirstElements(trans, gens);
    FirstShape(d, trans, gens, let2gen);
    forall k | 1 <= k < |e.trans|
      ensures Derived(d, e, k)
    {
      ComposeIdentity(d.delta[gens[k]]);
    }
    forall b, h | 0 <= b < |e.trans| && 1 <= h < |e.gens| && Earlier(b, h, 1, 1)
      ensures FilledAt(d, e, b, h)
    {
      assert b == 0 && Derived(d, e, h);
    }
  }

  /** e1 is e with the place (a, g) written and perhaps new elements. */
  ghost predicate WrittenAt(e: Elements, e1: Elements, a: nat, g: nat) {
    && e1.gens == e.gens && e.trans <= e1.trans && |e.succ| <= |e1.succ|
    && (forall b :: 0 <= b < |e.succ| ==> |e1.succ[b]| == |e.succ[b]|)
    && (forall b, h :: 0 <= b < |e.succ| && 0 <= h < |e.succ[b]| && !(b == a && h == g) ==>
          e1.succ[b][h] == e.succ[b][h])
  }

  lemma SuccessorKnown(d: Dfa, e: Elements, a: nat, g: nat, k: nat)
    requires d.Valid() && Enumerating(d, e, a, g) && a < |e.trans| && 1 <= g < |e.gens| && k < |e.trans|
    requires e.trans[k] == Compose(e.trans[a], d.delta[e.gens[g]]) && Rooted(e)
    ensures var e1 := WithSuccessor(e, a, g, k);
            Enumerating(d, e1, a, g + 1) && WrittenAt(e, e1, a, g) && Rooted(e1) && e1.succ[a][g] == k
  {
    KnownSuccessor(d, e, a, g, k);
  }

  lemma SuccessorNew(d: Dfa, e: Elements, a: nat, g: nat, f: Map)
    requires d.Valid() && Enumerating(d, e, a, g) && a < |e.trans| && 1 <= g < |e.gens| && Rooted(e)
    requires f == Compose(e.trans[a], d.delta[e.gens[g]]) && f !in e.trans
    ensures var e1 := WithSuccessor(WithElement(e, a, g, f, FreshRow(|e.gens|, a)), a, g, |e.trans|);
            Enumerating(d, e1, a, g + 1) && WrittenAt(e, e1, a, g) && Rooted(e1) && e1.succ[a][g] == |e.trans|
  {
    NewElement(d, e, a, g, f, FreshRow(|e.gens|, a));
  }

  /** Compute one successor; the index gets a new record if the transformation is new. */
  method AddSuccessor(d: Dfa, ix: Index, a: nat, g: nat, gens: seq<nat>, gensucc: seq<seq<nat>>, lastletter: seq<nat>,
                      ghost e: Elements)
    returns (gensucc1: seq<seq<nat>>, lastletter1: seq<nat>, number: nat, ghost e1: Elements)
    requires d.Valid() && ix.Valid() && ix.n == d.states && Held(e, ix, gens, gensucc, lastletter)
    requires Enumerating(d, e, a, g) && a < |e.trans| && 1 <= g < |e.gens|
    modifies ix
    ensures ix.Valid() && Held(e1, ix, gens, gensucc1, lastletter1)
    ensures Enumerating(d, e1, a, g + 1) && WrittenAt(e, e1, a, g) && a < |e1.trans| && e1.succ[a][g] == number
  {
    hide Indexed, Distinct, Grown, Filled, FoundBefore, WrittenAt, Rooted;
    assert Shape(d, e);
    var f := Apply(ix.trans[a], d.delta[gens[g]]);
    number := ix.SearchTrans(f);
    var row: seq<nat> := gensucc[a][g := number];
    gensucc1, lastletter1 := gensucc[a := row], lastletter;
    if number == |gensucc| {
      SuccessorNew(d, e, a, g, f);
      e1 := WithSuccessor(WithElement(e, a, g, f, FreshRow(|gens|, a)), a, g, number);
      ix.Store(f);
      gensucc1, lastletter1 := gensucc1 + [FreshRow(|gens|, a)], lastletter1 + [g];
    } else {
      SuccessorKnown(d, e, a, g, number);
      e1 := WithSuccessor(e, a, g, number);
    }
  }

  // ---- meeting the identity again ----

  /** The identity is a successor at a place before (a, g). */
  ghost predicate SeenBack(e: Elements, a: nat, g: nat) {
    exists k, h :: BackAt(e, k, h) && Earlier(k, h, a, g)
  }

  lemma SeenOneMore(e: Elements, e1: Elements, a: nat, g: nat)
    requires 1 <= a < |e.succ| && 1 <= g < |e.succ[a]| && WrittenAt(e, e1, a, g)
    ensures SeenBack(e1, a, g + 1) <==> SeenBack(e, a, g) || e1.succ[a][g] == 0
  {
    if k, h :| BackAt(e, k, h) && Earlier(k, h, a, g) {
      assert BackAt(e1, k, h) && Earlier(k, h, a, g + 1);
    }
    if e1.succ[a][g] == 0 {
      assert BackAt(e1, a, g) && Earlier(a, g, a, g + 1);
    }
    if k, h :| BackAt(e1, k, h) && Earlier(k, h, a, g + 1) {
      assert (k == a && h == g) || (BackAt(e, k, h) && Earlier(k, h, a, g));
    }
  }

  lemma SeenRow(e: Elements, a: nat)
    requires a < |e.succ| && |e.succ[a]| == |e.gens|
    ensures SeenBack(e, a, |e.gens|) == SeenBack(e, a + 1, 1)
  {
    if k, h :| BackAt(e, k, h) && Earlier(k, h, a, |e.gens|) {
      assert Earlier(k, h, a + 1, 1);
    }
    if k, h :| BackAt(e, k, h) && Earlier(k, h, a + 1, 1) {
      assert Earlier(k, h, a, |e.gens|);
    }
  }

  /** Compute the successors of element a. */
  method FillRow(d: Dfa, ix: Index, a: nat, gens: seq<nat>, gensucc: seq<seq<nat>>, lastletter: seq<nat>, again: bool,
                 ghost e: Elements)
    returns (gensucc1: seq<seq<nat>>, lastletter1: seq<nat>, again1: bool, ghost e1: Elements)
    requires d.Valid() && ix.Valid() && ix.n == d.states && Held(e, ix, gens, gensucc, lastletter)
    requires Enumerating(d, e, a, 1) && 1 <= a < |e.trans| && (again <==> SeenBack(e, a, 1))
    modifies ix
    ensures ix.Valid() && Held(e1, ix, gens, gensucc1, lastletter1)
    ensures Enumerating(d, e1, a + 1, 1) && e.trans <= e1.trans && (again1 <==> SeenBack(e1, a + 1, 1))
  {
    hide Indexed, Distinct, Grown, Filled, FoundBefore, Rooted, SeenBack;
    gensucc1, lastletter1, again1, e1 := gensucc, lastletter, again, e;
    for gen := 1 to |gens|
      invariant ix.Valid() && Held(e1, ix, gens, gensucc1, lastletter1)
      invariant Enumerating(d, e1, a, gen) && e.trans <= e1.trans && (again1 <==> SeenBack(e1, a, gen))
    {
      ghost var e0 := e1;
      var number;
      gensucc1, lastletter1, number, e1 := AddSuccessor(d, ix, a, gen, gens, gensucc1, lastletter1, e0);
      SeenOneMore(e0, e1, a, gen);
      if number == 0 {
        again1 := true;
      }
    }
    NextRow(d, e1, a);
    SeenRow(e1, a);
  }

  lemma AllSeen(d: Dfa, e: Elements)
    requires d.Valid() && Enumerating(d, e, |e.trans|, 1)
    ensures Complete(d, e) && (SeenBack(e, |e.trans|, 1) <==> exists k, g :: BackAt(e, k, g))
  {
    assert forall k, g :: BackAt(e, k, g) ==> Earlier(k, g, |e.trans|, 1);
  }

  /** Compute the successors of all elements, also of those that are found on the way. */
  method Construct(d: Dfa, ix: Index, gens: seq<nat>, ghost let2gen: seq<nat>)
    returns (gensucc: seq<seq<nat>>, lastletter: seq<nat>, again: bool, ghost e: Elements)
    requires d.Valid() && ix.Valid() && ix.n == d.states && Generated(d, ix.trans, gens, let2gen, d.letters + 1)
    modifies ix
    ensures ix.Valid() && Held(e, ix, gens, gensucc, lastletter) && old(ix.trans) <= ix.trans
    ensures Complete(d, e) && (again <==> exists k, g :: BackAt(e, k, g))
  {
    e := FirstElements(ix.trans, gens);
    FirstElementsExact(d, ix.trans, gens, let2gen);
    gensucc, lastletter, again := FirstRows(|gens|), Identity(|gens|), false;
    assert !SeenBack(e, 1, 1);
    hide Distinct, Grown, Filled, FoundBefore, Rooted, SeenBack, Generated, FirstElements, FirstRows, Linked, Ordered;
    var actuel := 1;
    while actuel < |gensucc|
      invariant ix.Valid() && Held(e, ix, gens, gensucc, lastletter) && old(ix.trans) <= ix.trans
      invariant 1 <= actuel <= |gensucc| && Enumerating(d, e, actuel, 1) && (again <==> SeenBack(e, actuel, 1))
      decreases Power(d.states, d.states) - actuel
    {
      MapsBound(ix.trans, ix.n);
      gensucc, lastletter, again, e := FillRow(d, ix, actuel, gens, gensucc, lastletter, again, e);
      actuel := actuel + 1;
    }
    AllSeen(d, e);
  }

  lemma RepLength(d: Dfa, e: Elements, k: nat)
    requires d.Valid() && Complete(d, e) && Rooted(e) && 1 <= k < |e.trans|
    ensures e.succ[k] != [] && e.succ[k][0] < k && |Rep(d, e, k)| == |Rep(d, e, e.succ[k][0])| + 1
  {
    assert Derived(d, e, k);
  }

  lemma RootLength(d: Dfa, e: Elements)
    requires d.Valid() && Complete(d, e)
    ensures 0 < |e.trans| == |e.succ| && Rep(d, e, 0) == []
  {
  }

  /** The lengths of the representatives, each from that of the predecessor. */
  method ComputeLengths(gensucc: seq<seq<nat>>, ghost d: Dfa, ghost e: Elements) returns (no2length: seq<nat>)
    requires d.Valid() && Complete(d, e) && Rooted(e) && gensucc == e.succ
    ensures Lengths(d, e, no2length)
  {
    hide Complete, Rooted, Rep;
    RootLength(d, e);
    no2length := [0];
    for state := 1 to |gensucc|
      invariant |no2length| == state && forall k :: 0 <= k < state ==> no2length[k] == |Rep(d, e, k)|
    {
      RepLength(d, e, state);
      no2length := no2length + [no2length[gensucc[state][0]] + 1];
    }
  }

  // ---- zero ----

  /** Does the element absorb the generators on both sides? */
  method TestZero(m: Monoid, z: nat, ghost d: Dfa) returns (test: bool)
    requires m.Valid(d) && z < |m.gensucc| && |m.generator| <= |m.gensucc|
    modifies m.word
    ensures test <==> AbsorbsGenerators(d, m.Elems(), z)
  {
    m.Sizes(d);
    assert forall k :: 0 <= k < |m.gensucc| ==> |m.gensucc[k]| == |m.generator|;
    hide Monoid.Valid, Complete, Stored, Product;
    test := true;
    var gen := 1;
    while gen < |m.generator| && test
      invariant 1 <= gen
      invariant test ==> forall g :: 1 <= g < gen && g < |m.generator| ==> m.gensucc[z][g] == z
      invariant !test ==> exists g :: 1 <= g < |m.generator| && m.gensucc[z][g] != z
    {
      if m.gensucc[z][gen] != z {
        test := false;
      }
      gen := gen + 1;
    }
    gen := 1;
    while gen < |m.generator| && test
      invariant 1 <= gen
      invariant test ==> forall g :: 1 <= g < |m.generator| ==> m.gensucc[z][g] == z
      invariant test ==> forall g :: 1 <= g < gen && g < |m.generator| ==> Product(d, m.Elems(), g, z) == z
      invariant !test ==> !AbsorbsGenerators(d, m.Elems(), z)
    {
      var r := m.Mult(gen, z, d);
      if r != z {
        test := false;
      }
      gen := gen + 1;
    }
  }

  /** zero is the zero, or none of the elements before size is one. */
  ghost predicate ZeroFound(d: Dfa, e: Elements, zero: nat, size: nat)
    requires d.Valid() && Complete(d, e)
  {
    if zero < size then IsZero(d, e, zero) else zero == size && forall z :: 0 <= z < size ==> !IsZero(d, e, z)
  }

  lemma ZeroNext(d: Dfa, e: Elements, size: nat)
    requires d.Valid() && Complete(d, e) && GeneratorsFirst(d, e) && ZeroFound(d, e, size, size)
    ensures if AbsorbsGenerators(d, e, size) then IsZero(d, e, size) else ZeroFound(d, e, size + 1, size + 1)
  {
    ZeroByGenerators(d, e, size);
  }

  method FindZero(m: Monoid, ghost d: Dfa)
    requires m.Valid(d) && GeneratorsFirst(d, m.Elems())
    modifies m`zero, m.word
    ensures ZeroFound(d, m.Elems(), m.zero, |m.gensucc|)
  {
    ghost var e := m.Elems();
    m.Sizes(d);
    assert |m.generator| <= |m.gensucc|;
    hide Monoid.Valid, Monoid.Elems, Complete, IsZero, AbsorbsGenerators, GeneratorsFirst;
    var nozero, state := true, 0;
    while state < |m.gensucc| && nozero
      invariant state <= |m.gensucc|
      invariant nozero ==> ZeroFound(d, e, state, state)
      invariant !nozero ==> m.zero < |m.gensucc| && IsZero(d, e, m.zero)
    {
      var test := TestZero(m, state, d);
      ZeroNext(d, e, state);
      if test {
        nozero := false;
      }
      m.zero := state;
      state := state + 1;
    }
    if nozero {
      m.zero := |m.gensucc|;
    }
  }

  /** The number kept is that of the zero, which is unique, or the number of elements exactly if there is none. */
  lemma ZeroExact(d: Dfa, e: Elements, zero: nat)
    requires d.Valid() && Complete(d, e) && ZeroFound(d, e, zero, |e.trans|)
    ensures forall z :: IsZero(d, e, z) <==> z == zero < |e.trans|
  {
    forall z | IsZero(d, e, z)
      ensures z == zero < |e.trans|
    {
      if zero < |e.trans| {
        ZeroUnique(d, e, z, zero);
      }
    }
  }

  lemma Results(d: Dfa, e: Elements, trans: seq<Map>, let2gen: seq<nat>, some: bool, again: bool)
    requires d.Valid() && Complete(d, e) && Generated(d, trans, e.gens, let2gen, d.letters + 1) && trans <= e.trans
    requires some <==> SomeIdentity(let2gen, d.letters + 1)
    requires again <==> exists k, g :: BackAt(e, k, g)
    ensures FirstLetters(d, e, let2gen) && GeneratorsFirst(d, e)
    ensures some || again <==> exists w :: w != [] && ActsAsIdentity(d, w)
  {
    CoveredByGenerators(d, e, trans, let2gen);
    IdentityAgainExact(d, e, let2gen);
  }

  lemma CoveredByGenerators(d: Dfa, e: Elements, trans: seq<Map>, let2gen: seq<nat>)
    requires d.Valid() && Complete(d, e) && Generated(d, trans, e.gens, let2gen, d.letters + 1) && trans <= e.trans
    ensures LettersCovered(d, e, let2gen) && GeneratorsFirst(d, e)
  {
    assert forall g :: 1 <= g < |e.gens| ==> e.trans[g] == trans[g];
  }

  /** Store the results in arrays. */
  method StoreResults(d: Dfa, generator: seq<nat>, let2gen: seq<nat>, no2trans: seq<Map>, gensucc: seq<seq<nat>>,
                      lastletter: seq<nat>, mequals: bool, ghost e: Elements)
    returns (m: Monoid)
    requires d.Valid() && Complete(d, e) && Rooted(e)
    requires e.gens == generator && e.trans == no2trans && e.succ == gensucc && e.last == lastletter
    ensures fresh(m) && fresh(m.word) && m.Valid(d) && m.Elems() == e
    ensures m.generator == generator && m.gensucc == gensucc && m.let2gen == let2gen && m.mequals == mequals
  {
    var no2length := ComputeLengths(gensucc, d, e);
    hide Grown, Filled, Distinct, Rooted;
    StoredExact(e);
    m := new Monoid(generator, let2gen, no2trans, gensucc, lastletter, no2length, mequals);
  }

  /** The elements and how letters act on them. */
  method Enumerate(d: Dfa)
    returns (generator: seq<nat>, let2gen: seq<nat>, no2trans: seq<Map>, gensucc: seq<seq<nat>>, lastletter: seq<nat>,
             mequals: bool, ghost e: Elements)
    requires d.Valid()
    ensures Complete(d, e) && Rooted(e) && FirstLetters(d, e, let2gen) && GeneratorsFirst(d, e)
    ensures e.gens == generator && e.trans == no2trans && e.succ == gensucc && e.last == lastletter
    ensures mequals <==> exists w :: w != [] && ActsAsIdentity(d, w)
  {
    hide ActsAsIdentity, Grown, Filled, Distinct, Indexed, FirstLetters, GeneratorsFirst;
    var identity := Identity(d.states);
    var ix := new Index(d.states, identity);
    var some, again;
    generator, let2gen, some := FindGenerators(d, ix);
    ghost var trans := ix.trans;
    gensucc, lastletter, again, e := Construct(d, ix, generator, let2gen);
    no2trans, mequals := ix.trans, some || again;
    Results(d, e, trans, let2gen, some, again);
  }

  /** The transition monoid: its elements are exactly the transformations of words, each of them once. */
  method Dfa2Mon(d: Dfa) returns (m: Monoid)
    requires d.Valid()
    ensures fresh(m) && fresh(m.word) && m.Valid(d)
    ensures FirstLetters(d, m.Elems(), m.let2gen) && GeneratorsFirst(d, m.Elems())
    ensures m.mequals <==> exists w :: w != [] && ActsAsIdentity(d, w)
    ensures ZeroFound(d, m.Elems(), m.zero, |m.gensucc|)
  {
    hide Complete, Rooted, ZeroFound, FirstLetters, GeneratorsFirst, ActsAsIdentity, Monoid.Valid, Monoid.Elems;
    var generator, let2gen, no2trans, gensucc, lastletter, mequals, e := Enumerate(d);
    m := StoreResults(d, generator, let2gen, no2trans, gensucc, lastletter, mequals, e);
    FindZero(m, d);
  }
}
