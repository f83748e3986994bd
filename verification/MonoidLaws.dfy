/** A complete enumeration is the transition monoid: its elements are the transformations of words, multiplication is
    composition, and the stored representatives are the shortlex-least words of generators. */
module MonoidLaws {
  import opened Automata
  import opened TransitionMonoids

  // ---- words of generators ----

  ghost predicate IsGenWord(e: Elements, v: Word) {
    forall i :: 0 <= i < |v| ==> 1 <= v[i] < |e.gens|
  }

  ghost function Letters(e: Elements, v: Word): (w: Word)
    requires IsGenWord(e, v)
    ensures |w| == |v| && forall i :: 0 <= i < |v| ==> w[i] == e.gens[v[i]]
  {
    seq(|v|, i requires 0 <= i < |v| => e.gens[v[i]])
  }

  lemma LettersAreWord(d: Dfa, e: Elements, v: Word)
    requires d.Valid() && Shape(d, e) && IsGenWord(e, v)
    ensures IsWord(Letters(e, v), d.letters)
  {
  }

  /** The element reached from k over the successors of v. */
  ghost function Eval(d: Dfa, e: Elements, k: nat, v: Word): (r: nat)
    requires d.Valid() && Complete(d, e) && k < |e.trans| && IsGenWord(e, v)
    ensures r < |e.trans|
    decreases |v|
  {
    if v == [] then k
    else
      var a, g := Eval(d, e, k, v[..|v| - 1]), v[|v| - 1];
      TableEntry(d, e, a, g);
      e.succ[a][g]
  }

  lemma TableEntry(d: Dfa, e: Elements, a: nat, g: nat)
    requires d.Valid() && Complete(d, e) && a < |e.trans| && 1 <= g < |e.gens|
    ensures g < |e.succ[a]| && FilledAt(d, e, a, g)
  {
    assert Earlier(a, g, |e.trans|, 0);
  }

  lemma {:induction false} EvalExact(d: Dfa, e: Elements, k: nat, v: Word)
    requires d.Valid() && Complete(d, e) && k < |e.trans| && IsGenWord(e, v)
    ensures IsWord(Letters(e, v), d.letters)
    ensures e.trans[Eval(d, e, k, v)] == Compose(e.trans[k], WordMap(d, Letters(e, v)))
    decreases |v|
  {
    LettersAreWord(d, e, v);
    if v == [] {
      ComposeIdentity(e.trans[k]);
    } else {
      var m := |v| - 1;
      var u, w := v[..m], Letters(e, v);
      EvalExact(d, e, k, u);
      TableEntry(d, e, Eval(d, e, k, u), v[m]);
      assert w[..m] == Letters(e, u) && w[m] == e.gens[v[m]];
      ComposeAssociative(e.trans[k], WordMap(d, Letters(e, u)), d.delta[w[m]]);
    }
  }

  /** The transformation of a word of generators. */
  lemma EvalFromIdentity(d: Dfa, e: Elements, v: Word)
    requires d.Valid() && Complete(d, e) && IsGenWord(e, v)
    ensures IsWord(Letters(e, v), d.letters) && e.trans[Eval(d, e, 0, v)] == WordMap(d, Letters(e, v))
  {
    EvalExact(d, e, 0, v);
    ComposeIdentity(WordMap(d, Letters(e, v)));
  }

  // ---- representatives ----

  /** The word of generators that is stored for element k: back over the predecessors. */
  ghost function Rep(d: Dfa, e: Elements, k: nat): Word
    requires d.Valid() && Complete(d, e) && k < |e.trans|
  {
    if k == 0 then [] else assert Derived(d, e, k); Rep(d, e, e.pred[k]) + [e.last[k]]
  }

  lemma SameElement(e: Elements, k: nat, l: nat)
    requires Distinct(e.trans) && k < |e.trans| && l < |e.trans| && e.trans[k] == e.trans[l]
    ensures k == l
  {
  }

  lemma OriginEntry(d: Dfa, e: Elements, k: nat)
    requires d.Valid() && Complete(d, e) && 1 <= k < |e.trans|
    ensures Derived(d, e, k) && e.last[k] < |e.succ[e.pred[k]]| && e.succ[e.pred[k]][e.last[k]] == k
  {
    assert Derived(d, e, k);
    TableEntry(d, e, e.pred[k], e.last[k]);
    SameElement(e, e.succ[e.pred[k]][e.last[k]], k);
  }

  lemma {:induction false} RepExact(d: Dfa, e: Elements, k: nat)
    requires d.Valid() && Complete(d, e) && k < |e.trans|
    ensures IsGenWord(e, Rep(d, e, k)) && Eval(d, e, 0, Rep(d, e, k)) == k
  {
    if k > 0 {
      OriginEntry(d, e, k);
      RepExact(d, e, e.pred[k]);
      var v := Rep(d, e, k);
      assert v[..|v| - 1] == Rep(d, e, e.pred[k]);
    }
  }

  /** The order of words by length, and among words of the same length by the first difference. */
  ghost predicate Shortlex(u: Word, v: Word) {
    |u| < |v| || (|u| == |v| && exists i :: 0 <= i < |u| && u[..i] == v[..i] && u[i] < v[i])
  }

  lemma ShortlexLonger(u: Word, g: nat, v: Word, h: nat)
    requires Shortlex(u, v) || (u == v && g < h)
    ensures Shortlex(u + [g], v + [h])
  {
    var x, y := u + [g], v + [h];
    if |u| == |v| {
      if u == v {
        assert x[..|u|] == y[..|u|] && x[|u|] < y[|u|];
      } else {
        var i :| 0 <= i < |u| && u[..i] == v[..i] && u[i] < v[i];
        assert x[..i] == u[..i] && y[..i] == v[..i] && x[i] < y[i];
      }
    }
  }

  lemma ShortlexTransitive(u: Word, v: Word, w: Word)
    requires Shortlex(u, v) && Shortlex(v, w)
    ensures Shortlex(u, w)
  {
    if |u| == |v| == |w| {
      var i :| 0 <= i < |u| && u[..i] == v[..i] && u[i] < v[i];
      var j :| 0 <= j < |v| && v[..j] == w[..j] && v[j] < w[j];
      var k := if i < j then i else j;
      assert u[..k] == u[..i][..k] == v[..i][..k] == v[..j][..k] == w[..j][..k] == w[..k];
      if i < j {
        assert v[i] == v[..j][i] == w[..j][i] == w[i];
      } else if j < i {
        assert u[j] == u[..i][j] == v[..i][j] == v[j];
      }
      assert u[k] < w[k];
    }
  }

  /** Later elements have later representatives. */
  lemma {:induction false} RepOrder(d: Dfa, e: Elements, k: nat, l: nat)
    requires d.Valid() && Complete(d, e) && k < l < |e.trans|
    ensures Shortlex(Rep(d, e, k), Rep(d, e, l))
    decreases l
  {
    assert Derived(d, e, l);
    if k > 0 {
      assert Derived(d, e, k);
      var a, b := e.pred[k], e.pred[l];
      assert Earlier(a, e.last[k], b, e.last[l]);
      if a < b {
        RepOrder(d, e, a, b);
      }
      ShortlexLonger(Rep(d, e, a), e.last[k], Rep(d, e, b), e.last[l]);
    }
  }

  lemma RootRep(d: Dfa, e: Elements)
    requires d.Valid() && Complete(d, e)
    ensures Rep(d, e, 0) == []
  {
  }

  /** The stored word is the shortlex-least word of generators with its transformation. */
  lemma {:induction false} RepLeast(d: Dfa, e: Elements, v: Word)
    requires d.Valid() && Complete(d, e) && IsGenWord(e, v)
    ensures var r := Rep(d, e, Eval(d, e, 0, v)); r == v || Shortlex(r, v)
    decreases |v|
  {
    hide Grown, Filled, Distinct, Rep;
    if v == [] {
      RootRep(d, e);
    } else {
      var m := |v| - 1;
      var u, g := v[..m], v[m];
      RepLeast(d, e, u);
      var a := Eval(d, e, 0, u);
      TableEntry(d, e, a, g);
      var k := e.succ[a][g];
      var x, r := Rep(d, e, a), Rep(d, e, k);
      assert v == u + [g];
      if k == 0 {
        RootRep(d, e);
      } else {
        RepFromTable(d, e, a, g, k);
        if x != u {
          ShortlexLonger(x, g, u, g);
          if r != x + [g] {
            ShortlexTransitive(r, x + [g], v);
          }
        }
      }
    }
  }

  /** The representative of a successor is not after the representative followed by the generator. */
  lemma RepFromTable(d: Dfa, e: Elements, a: nat, g: nat, k: nat)
    requires d.Valid() && Complete(d, e) && a < |e.trans| && 1 <= g < |e.gens| && 0 < k < |e.trans|
    requires g < |e.succ[a]| && e.succ[a][g] == k
    ensures Rep(d, e, k) == Rep(d, e, a) + [g] || Shortlex(Rep(d, e, k), Rep(d, e, a) + [g])
  {
    TableEntry(d, e, a, g);
    assert Derived(d, e, k);
    var b, h := e.pred[k], e.last[k];
    if !(b == a && h == g) {
      assert Earlier(b, h, a, g);
      if b < a {
        RepOrder(d, e, b, a);
      }
      ShortlexLonger(Rep(d, e, b), h, Rep(d, e, a), g);
    }
  }

  // ---- the monoid ----

  /** Multiplication, as the table computes it: from a over the representative of b. */
  ghost function Product(d: Dfa, e: Elements, a: nat, b: nat): (r: nat)
    requires d.Valid() && Complete(d, e) && a < |e.trans| && b < |e.trans|
    ensures r < |e.trans|
  {
    RepExact(d, e, b);
    Eval(d, e, a, Rep(d, e, b))
  }

  lemma ProductExact(d: Dfa, e: Elements, a: nat, b: nat)
    requires d.Valid() && Complete(d, e) && a < |e.trans| && b < |e.trans|
    ensures e.trans[Product(d, e, a, b)] == Compose(e.trans[a], e.trans[b])
  {
    RepExact(d, e, b);
    EvalExact(d, e, a, Rep(d, e, b));
    EvalFromIdentity(d, e, Rep(d, e, b));
  }

  /** A monoid: associative, with element 0 as identity. */
  lemma ProductMonoid(d: Dfa, e: Elements, a: nat, b: nat, c: nat)
    requires d.Valid() && Complete(d, e) && a < |e.trans| && b < |e.trans| && c < |e.trans|
    ensures Product(d, e, Product(d, e, a, b), c) == Product(d, e, a, Product(d, e, b, c))
    ensures Product(d, e, 0, a) == a && Product(d, e, a, 0) == a
  {
    var ab, bc := Product(d, e, a, b), Product(d, e, b, c);
    ProductExact(d, e, a, b);
    ProductExact(d, e, b, c);
    ProductExact(d, e, ab, c);
    ProductExact(d, e, a, bc);
    ComposeAssociative(e.trans[a], e.trans[b], e.trans[c]);
    SameElement(e, Product(d, e, ab, c), Product(d, e, a, bc));
    ProductExact(d, e, 0, a);
    ProductExact(d, e, a, 0);
    ComposeIdentity(e.trans[a]);
    SameElement(e, Product(d, e, 0, a), a);
    SameElement(e, Product(d, e, a, 0), a);
  }

  /** Every letter acts as a generator or as the identity. */
  ghost predicate LettersCovered(d: Dfa, e: Elements, let2gen: seq<nat>)
    requires d.Valid() && Shape(d, e)
  {
    && |let2gen| == d.letters + 1
    && forall a :: 1 <= a <= d.letters ==>
      let2gen[a] < |e.gens| && d.delta[a] == if let2gen[a] == 0 then Identity(d.states) else d.delta[e.gens[let2gen[a]]]
  }

  /** The word of generators that stands for a word of letters. */
  ghost function Generators(d: Dfa, e: Elements, let2gen: seq<nat>, w: Word): (v: Word)
    requires d.Valid() && Shape(d, e) && LettersCovered(d, e, let2gen) && IsWord(w, d.letters)
    ensures IsGenWord(e, v) && |v| <= |w|
    decreases |w|
  {
    if w == [] then []
    else
      var u, g := Generators(d, e, let2gen, w[..|w| - 1]), let2gen[w[|w| - 1]];
      if g == 0 then u else u + [g]
  }

  lemma LettersMore(d: Dfa, e: Elements, u: Word, g: nat)
    requires d.Valid() && Shape(d, e) && IsGenWord(e, u) && 1 <= g < |e.gens|
    ensures IsGenWord(e, u + [g]) && IsWord(Letters(e, u), d.letters) && IsWord(Letters(e, u + [g]), d.letters)
    ensures WordMap(d, Letters(e, u + [g])) == Compose(WordMap(d, Letters(e, u)), d.delta[e.gens[g]])
  {
    LettersAreWord(d, e, u);
    LettersAreWord(d, e, u + [g]);
    var x := Letters(e, u + [g]);
    assert x[..|u|] == Letters(e, u) && x[|u|] == e.gens[g];
  }

  lemma {:induction false} GeneratorsExact(d: Dfa, e: Elements, let2gen: seq<nat>, w: Word)
    requires d.Valid() && Shape(d, e) && LettersCovered(d, e, let2gen) && IsWord(w, d.letters)
    ensures var v := Generators(d, e, let2gen, w);
            IsWord(Letters(e, v), d.letters) && WordMap(d, Letters(e, v)) == WordMap(d, w)
    decreases |w|
  {
    if w != [] {
      var m := |w| - 1;
      var u, g := Generators(d, e, let2gen, w[..m]), let2gen[w[m]];
      GeneratorsExact(d, e, let2gen, w[..m]);
      if g == 0 {
        ComposeIdentity(WordMap(d, w[..m]));
      } else {
        LettersMore(d, e, u, g);
      }
    }
  }

  /** Every generator is the first letter with its transformation, and generators are in the order of letters. */
  ghost predicate FirstLetters(d: Dfa, e: Elements, let2gen: seq<nat>)
    requires d.Valid() && Shape(d, e)
  {
    && LettersCovered(d, e, let2gen)
    && (forall a :: 1 <= a <= d.letters ==> e.gens[let2gen[a]] <= a)
    && (forall g, h :: 1 <= g < h < |e.gens| ==> e.gens[g] < e.gens[h])
  }

  lemma ShortlexLetters(d: Dfa, e: Elements, u: Word, v: Word)
    requires d.Valid() && Shape(d, e) && IsGenWord(e, u) && IsGenWord(e, v) && Shortlex(u, v)
    requires forall g, h :: 1 <= g < h < |e.gens| ==> e.gens[g] < e.gens[h]
    ensures Shortlex(Letters(e, u), Letters(e, v))
  {
    if |u| == |v| {
      var i :| 0 <= i < |u| && u[..i] == v[..i] && u[i] < v[i];
      var x, y := Letters(e, u), Letters(e, v);
      assert x[..i] == y[..i] by {
        assert forall j :: 0 <= j < i ==> u[j] == u[..i][j] == v[..i][j] == v[j];
      }
      assert x[i] < y[i];
    }
  }

  lemma LettersEmpty(e: Elements)
    ensures Letters(e, []) == []
  {
  }

  lemma LettersAppend(e: Elements, u: Word, g: nat)
    requires IsGenWord(e, u) && 1 <= g < |e.gens|
    ensures IsGenWord(e, u + [g]) && Letters(e, u + [g]) == Letters(e, u) + [e.gens[g]]
  {
  }

  lemma ShortlexNotAfter(u: Word, g: nat, v: Word, h: nat)
    requires (u == v || Shortlex(u, v)) && g <= h
    ensures Shortlex(u, v + [h])
    ensures u + [g] == v + [h] || Shortlex(u + [g], v + [h])
  {
    if u != v || g < h {
      ShortlexLonger(u, g, v, h);
    }
  }

  /** Replacing letters by the first ones with the same transformation does not go up. */
  lemma {:induction false} GeneratorsLower(d: Dfa, e: Elements, let2gen: seq<nat>, w: Word)
    requires d.Valid() && Shape(d, e) && FirstLetters(d, e, let2gen) && IsWord(w, d.letters)
    ensures var x := Letters(e, Generators(d, e, let2gen, w)); x == w || Shortlex(x, w)
    decreases |w|
  {
    hide Shortlex, Letters, Identity, Shape, Dfa.Valid;
    if w == [] {
      LettersEmpty(e);
    } else {
      var p, a := w[..|w| - 1], w[|w| - 1];
      assert w == p + [a];
      GeneratorsLower(d, e, let2gen, p);
      LastLetter(d, e, let2gen, p, a);
      var u, g := Generators(d, e, let2gen, p), let2gen[a];
      ShortlexNotAfter(Letters(e, u), e.gens[g], p, a);
      if g > 0 {
        LettersAppend(e, u, g);
      }
    }
  }

  lemma LastLetter(d: Dfa, e: Elements, let2gen: seq<nat>, p: Word, a: nat)
    requires d.Valid() && Shape(d, e) && FirstLetters(d, e, let2gen) && IsWord(p, d.letters) && 1 <= a <= d.letters
    ensures IsWord(p + [a], d.letters) && let2gen[a] < |e.gens| && e.gens[let2gen[a]] <= a
    ensures var u := Generators(d, e, let2gen, p);
            Generators(d, e, let2gen, p + [a]) == if let2gen[a] == 0 then u else u + [let2gen[a]]
  {
    assert (p + [a])[..|p|] == p;
  }

  /** The stored word, written in letters, is the shortlex-least of all words with its transformation. */
  lemma RepLeastWord(d: Dfa, e: Elements, let2gen: seq<nat>, k: nat, w: Word)
    requires d.Valid() && Complete(d, e) && FirstLetters(d, e, let2gen) && k < |e.trans|
    requires IsWord(w, d.letters) && WordMap(d, w) == e.trans[k]
    ensures IsGenWord(e, Rep(d, e, k))
    ensures var x := Letters(e, Rep(d, e, k));
            IsWord(x, d.letters) && WordMap(d, x) == e.trans[k] && (x == w || Shortlex(x, w))
  {
    var r, v := Rep(d, e, k), Generators(d, e, let2gen, w);
    RepExact(d, e, k);
    EvalFromIdentity(d, e, r);
    GeneratorsExact(d, e, let2gen, w);
    EvalFromIdentity(d, e, v);
    SameElement(e, Eval(d, e, 0, v), k);
    RepLeast(d, e, v);
    GeneratorsLower(d, e, let2gen, w);
    if r != v {
      ShortlexLetters(d, e, r, v);
      if Letters(e, v) != w {
        ShortlexTransitive(Letters(e, r), Letters(e, v), w);
      }
    }
  }

  /** The elements are exactly the transformations of words, each of them once. */
  lemma ElementsAreWordMaps(d: Dfa, e: Elements, let2gen: seq<nat>)
    requires d.Valid() && Complete(d, e) && LettersCovered(d, e, let2gen)
    ensures forall w :: IsWord(w, d.letters) ==> WordMap(d, w) in e.trans
    ensures forall k :: 0 <= k < |e.trans| ==> exists w :: IsWord(w, d.letters) && WordMap(d, w) == e.trans[k]
  {
    forall w | IsWord(w, d.letters)
      ensures WordMap(d, w) in e.trans
    {
      GeneratorsExact(d, e, let2gen, w);
      EvalFromIdentity(d, e, Generators(d, e, let2gen, w));
    }
    forall k | 0 <= k < |e.trans|
      ensures exists w :: IsWord(w, d.letters) && WordMap(d, w) == e.trans[k]
    {
      RepExact(d, e, k);
      EvalFromIdentity(d, e, Rep(d, e, k));
    }
  }

  /** Some letter acts as the identity, or some product of an element with a generator is the identity. */
  ghost predicate IdentityAgain(d: Dfa, e: Elements, let2gen: seq<nat>)
    requires d.Valid() && |let2gen| == d.letters + 1
  {
    || (exists a :: 1 <= a <= d.letters && let2gen[a] == 0)
    || (exists k, g :: BackAt(e, k, g))
  }

  ghost predicate BackAt(e: Elements, k: nat, g: nat) {
    1 <= k < |e.succ| && 1 <= g < |e.succ[k]| && e.succ[k][g] == 0
  }

  ghost predicate ActsAsIdentity(d: Dfa, w: Word)
    requires d.Valid()
  {
    IsWord(w, d.letters) && WordMap(d, w) == Identity(d.states)
  }

  lemma {:induction false} NoLetterLost(d: Dfa, e: Elements, let2gen: seq<nat>, w: Word)
    requires d.Valid() && Shape(d, e) && LettersCovered(d, e, let2gen) && IsWord(w, d.letters)
    requires forall a :: 1 <= a <= d.letters ==> let2gen[a] != 0
    ensures |Generators(d, e, let2gen, w)| == |w|
    decreases |w|
  {
    if w != [] {
      NoLetterLost(d, e, let2gen, w[..|w| - 1]);
    }
  }

  lemma BackIsIdentity(d: Dfa, e: Elements, k: nat, g: nat)
    requires d.Valid() && Complete(d, e) && BackAt(e, k, g)
    ensures exists w :: w != [] && ActsAsIdentity(d, w)
  {
    var u := Rep(d, e, k);
    RepExact(d, e, k);
    EvalFromIdentity(d, e, u);
    TableEntry(d, e, k, g);
    LettersMore(d, e, u, g);
    var w := Letters(e, u + [g]);
    assert w != [] && ActsAsIdentity(d, w);
  }

  lemma GeneratorStep(d: Dfa, e: Elements, g: nat)
    requires d.Valid() && Complete(d, e) && GeneratorsFirst(d, e) && 1 <= g < |e.gens|
    ensures g < |e.succ[0]| && e.succ[0][g] == g
  {
    TableEntry(d, e, 0, g);
    ComposeIdentity(e.trans[g]);
    SameElement(e, e.succ[0][g], g);
  }

  lemma IdentityIsBack(d: Dfa, e: Elements, let2gen: seq<nat>, w: Word)
    requires d.Valid() && Complete(d, e) && GeneratorsFirst(d, e) && LettersCovered(d, e, let2gen)
    requires w != [] && ActsAsIdentity(d, w) && forall a :: 1 <= a <= d.letters ==> let2gen[a] != 0
    ensures exists k, g :: BackAt(e, k, g)
  {
    var v := Generators(d, e, let2gen, w);
    NoLetterLost(d, e, let2gen, w);
    GeneratorsExact(d, e, let2gen, w);
    EvalFromIdentity(d, e, v);
    SameElement(e, Eval(d, e, 0, v), 0);
    var k, g := Eval(d, e, 0, v[..|v| - 1]), v[|v| - 1];
    TableEntry(d, e, k, g);
    GeneratorStep(d, e, g);
    assert BackAt(e, k, g);
  }

  /** The identity is the transformation of a word that is not empty exactly if it is met again. */
  lemma IdentityAgainExact(d: Dfa, e: Elements, let2gen: seq<nat>)
    requires d.Valid() && Complete(d, e) && GeneratorsFirst(d, e) && LettersCovered(d, e, let2gen)
    ensures IdentityAgain(d, e, let2gen) <==> exists w :: w != [] && ActsAsIdentity(d, w)
  {
    if exists k, g :: BackAt(e, k, g) {
      var k, g :| BackAt(e, k, g);
      BackIsIdentity(d, e, k, g);
    } else if a :| 1 <= a <= d.letters && let2gen[a] == 0 {
      var w: Word := [a];
      assert w[..|w| - 1] == [] && IsWord(w, d.letters);
      ComposeIdentity(d.delta[a]);
      assert w != [] && ActsAsIdentity(d, w);
    } else if w :| w != [] && ActsAsIdentity(d, w) {
      IdentityIsBack(d, e, let2gen, w);
    }
  }

  // ---- zero ----

  ghost predicate IsZero(d: Dfa, e: Elements, z: nat)
    requires d.Valid() && Complete(d, e)
  {
    z < |e.trans| && forall k :: 0 <= k < |e.trans| ==> Product(d, e, z, k) == z && Product(d, e, k, z) == z
  }

  /** z absorbs the generators on both sides. */
  ghost predicate AbsorbsGenerators(d: Dfa, e: Elements, z: nat)
    requires d.Valid() && Complete(d, e)
  {
    && z < |e.trans| && |e.gens| <= |e.trans|
    && (forall g :: 1 <= g < |e.gens| ==> e.succ[z][g] == z)
    && (forall g :: 1 <= g < |e.gens| ==> Product(d, e, g, z) == z)
  }

  lemma {:induction false} AbsorbsWords(d: Dfa, e: Elements, z: nat, v: Word)
    requires d.Valid() && Complete(d, e) && z < |e.trans| && IsGenWord(e, v)
    requires forall g :: 1 <= g < |e.gens| ==> e.succ[z][g] == z
    ensures Eval(d, e, z, v) == z
    decreases |v|
  {
    if v != [] {
      AbsorbsWords(d, e, z, v[..|v| - 1]);
    }
  }

  /** Generator g is element g. */
  ghost predicate GeneratorsFirst(d: Dfa, e: Elements)
    requires d.Valid() && Shape(d, e)
  {
    |e.gens| <= |e.trans| && forall g :: 1 <= g < |e.gens| ==> e.trans[g] == d.delta[e.gens[g]]
  }

  lemma {:induction false} AbsorbsLeft(d: Dfa, e: Elements, z: nat, k: nat)
    requires d.Valid() && Complete(d, e) && GeneratorsFirst(d, e) && AbsorbsGenerators(d, e, z) && k < |e.trans|
    ensures Product(d, e, k, z) == z
  {
    if k == 0 {
      ProductMonoid(d, e, z, z, z);
    } else {
      assert Derived(d, e, k);
      var a, g := e.pred[k], e.last[k];
      AbsorbsLeft(d, e, z, a);
      ProductExact(d, e, a, g);
      SameElement(e, Product(d, e, a, g), k);
      ProductMonoid(d, e, a, g, z);
    }
  }

  /** An element is the zero exactly if it absorbs the generators on both sides. */
  lemma ZeroByGenerators(d: Dfa, e: Elements, z: nat)
    requires d.Valid() && Complete(d, e) && GeneratorsFirst(d, e)
    ensures IsZero(d, e, z) <==> AbsorbsGenerators(d, e, z)
  {
    if AbsorbsGenerators(d, e, z) {
      forall k | 0 <= k < |e.trans|
        ensures Product(d, e, z, k) == z && Product(d, e, k, z) == z
      {
        RepExact(d, e, k);
        AbsorbsWords(d, e, z, Rep(d, e, k));
        AbsorbsLeft(d, e, z, k);
      }
    }
    if IsZero(d, e, z) {
      forall g | 1 <= g < |e.gens|
        ensures e.succ[z][g] == z
      {
        ProductExact(d, e, z, g);
        TableEntry(d, e, z, g);
        SameElement(e, e.succ[z][g], Product(d, e, z, g));
      }
    }
  }

  lemma ZeroUnique(d: Dfa, e: Elements, y: nat, z: nat)
    requires d.Valid() && Complete(d, e) && IsZero(d, e, y) && IsZero(d, e, z)
    ensures y == z
  {
    assert Product(d, e, y, z) == y == z;
  }
}
