/** Transformations of the states of a deterministic automaton, and their enumeration in the order of the
    shortest words. */
module TransitionMonoids {
  import opened Automata

  type Map = seq<nat>

  predicate IsMap(f: Map, n: nat) {
    |f| == n && forall q :: 0 <= q < n ==> f[q] < n
  }

  /** First f, then h. */
  function Compose(f: Map, h: Map): (r: Map)
    requires IsMap(f, |h|) && IsMap(h, |h|)
    ensures IsMap(r, |h|) && forall q :: 0 <= q < |h| ==> r[q] == h[f[q]]
  {
    seq(|h|, q requires 0 <= q < |h| => h[f[q]])
  }

  function Identity(n: nat): (r: Map)
    ensures IsMap(r, n) && forall q :: 0 <= q < n ==> r[q] == q
  {
    seq(n, q requires 0 <= q < n => q)
  }

  lemma ComposeAssociative(f: Map, g: Map, h: Map)
    requires IsMap(f, |h|) && IsMap(g, |h|) && IsMap(h, |h|)
    ensures Compose(Compose(f, g), h) == Compose(f, Compose(g, h))
  {
  }

  lemma ComposeIdentity(f: Map)
    requires IsMap(f, |f|)
    ensures Compose(Identity(|f|), f) == f && Compose(f, Identity(|f|)) == f
  {
  }

  /** What the word w does to all states. */
  ghost function WordMap(d: Dfa, w: Word): (f: Map)
    requires d.Valid() && IsWord(w, d.letters)
    ensures IsMap(f, d.states)
    decreases |w|
  {
    if w == [] then Identity(d.states)
    else Compose(WordMap(d, w[..|w| - 1]), d.delta[w[|w| - 1]])
  }

  lemma {:induction false} WordMapRun(d: Dfa, w: Word, q: nat)
    requires d.Valid() && IsWord(w, d.letters) && q < d.states
    ensures WordMap(d, w)[q] == d.Run(q, w)
    decreases |w|
  {
    if w != [] {
      var m := |w| - 1;
      var u, x: Word := w[..m], [w[m]];
      WordMapRun(d, u, q);
      RunConcat(d, q, u, x);
      assert u + x == w && x[1..] == [];
      assert d.Run(d.Run(q, u), x) == d.Run(d.delta[w[m]][d.Run(q, u)], x[1..]);
    }
  }

  lemma {:induction false} WordMapConcat(d: Dfa, u: Word, v: Word)
    requires d.Valid() && IsWord(u, d.letters) && IsWord(v, d.letters)
    ensures IsWord(u + v, d.letters) && WordMap(d, u + v) == Compose(WordMap(d, u), WordMap(d, v))
    decreases |v|
  {
    if v == [] {
      assert u + v == u;
      ComposeIdentity(WordMap(d, u));
    } else {
      var m := |v| - 1;
      var w := u + v;
      assert w[..|w| - 1] == u + v[..m] && w[|w| - 1] == v[m];
      WordMapConcat(d, u, v[..m]);
      ComposeAssociative(WordMap(d, u), WordMap(d, v[..m]), d.delta[v[m]]);
    }
  }

  // ---- the elements found so far ----

  /** Element k has the transformation trans[k]; for k > 0 it is element pred[k] followed by generator last[k];
      succ[k][g] is element k followed by generator g, and generator g is the letter gens[g]. */
  datatype Elements = Elements(gens: seq<nat>, trans: seq<Map>, pred: seq<nat>, last: seq<nat>, succ: seq<seq<nat>>)

  /** Position (a, g) of the table of successors comes before (b, h). */
  predicate Earlier(a: nat, g: nat, b: nat, h: nat) {
    a < b || (a == b && g < h)
  }

  ghost predicate Shape(d: Dfa, e: Elements)
    requires d.Valid()
  {
    && 0 < |e.trans| == |e.pred| == |e.last| == |e.succ| && |e.gens| > 0
    && (forall g :: 1 <= g < |e.gens| ==> 1 <= e.gens[g] <= d.letters)
    && (forall k :: 0 <= k < |e.trans| ==> IsMap(e.trans[k], d.states) && |e.succ[k]| == |e.gens|)
    && e.trans[0] == Identity(d.states)
  }

  /** Element k comes from an earlier one. */
  ghost predicate Derived(d: Dfa, e: Elements, k: nat)
    requires d.Valid() && Shape(d, e) && k < |e.trans|
  {
    && e.pred[k] < k && 1 <= e.last[k] < |e.gens|
    && e.trans[k] == Compose(e.trans[e.pred[k]], d.delta[e.gens[e.last[k]]])
  }

  /** Every element but the first comes from an earlier one, and the places where they come from are in order. */
  ghost predicate Grown(d: Dfa, e: Elements)
    requires d.Valid() && Shape(d, e)
  {
    && (forall k :: 1 <= k < |e.trans| ==> Derived(d, e, k))
    && (forall k, l :: 1 <= k < l < |e.trans| ==> Earlier(e.pred[k], e.last[k], e.pred[l], e.last[l]))
  }

  /** The table realises composition at (b, h), and names an element there only from the place on where it comes
      from. */
  ghost predicate FilledAt(d: Dfa, e: Elements, b: nat, h: nat)
    requires d.Valid() && Shape(d, e) && b < |e.trans| && 1 <= h < |e.gens|
  {
    var k := e.succ[b][h];
    && k < |e.trans| && e.trans[k] == Compose(e.trans[b], d.delta[e.gens[h]])
    && (k > 0 ==> (e.pred[k] == b && e.last[k] == h) || Earlier(e.pred[k], e.last[k], b, h))
  }

  /** The table is filled before (a, g). */
  ghost predicate Filled(d: Dfa, e: Elements, a: nat, g: nat)
    requires d.Valid() && Shape(d, e)
  {
    forall b, h :: 0 <= b < |e.trans| && 1 <= h < |e.gens| && Earlier(b, h, a, g) ==> FilledAt(d, e, b, h)
  }

  /** All elements come from places before (a, g). */
  ghost predicate FoundBefore(e: Elements, a: nat, g: nat)
    requires |e.trans| == |e.pred| == |e.last|
  {
    forall k :: 1 <= k < |e.trans| ==> Earlier(e.pred[k], e.last[k], a, g)
  }

  ghost predicate Enumerating(d: Dfa, e: Elements, a: nat, g: nat)
    requires d.Valid()
  {
    Shape(d, e) && Distinct(e.trans) && Grown(d, e) && Filled(d, e, a, g) && FoundBefore(e, a, g)
  }

  ghost predicate Complete(d: Dfa, e: Elements)
    requires d.Valid()
  {
    Shape(d, e) && Distinct(e.trans) && Grown(d, e) && Filled(d, e, |e.trans|, 0)
  }

  // ---- steps of the enumeration ----

  /** The successor at (a, g) is element k, which is known. */
  ghost function WithSuccessor(e: Elements, a: nat, g: nat, k: nat): Elements
    requires a < |e.succ| && g < |e.succ[a]|
  {
    var row: seq<nat> := e.succ[a][g := k];
    e.(succ := e.succ[a := row])
  }

  /** A new element, found at (a, g). */
  ghost function WithElement(e: Elements, a: nat, g: nat, f: Map, row: seq<nat>): Elements {
    Elements(e.gens, e.trans + [f], e.pred + [a], e.last + [g], e.succ + [row])
  }

  lemma KnownSuccessor(d: Dfa, e: Elements, a: nat, g: nat, k: nat)
    requires d.Valid() && Enumerating(d, e, a, g) && a < |e.trans| && 1 <= g < |e.gens| && k < |e.trans|
    requires e.trans[k] == Compose(e.trans[a], d.delta[e.gens[g]])
    ensures Enumerating(d, WithSuccessor(e, a, g, k), a, g + 1)
  {
    var e' := WithSuccessor(e, a, g, k);
    assert forall l :: 1 <= l < |e.trans| ==> Derived(d, e, l) && Derived(d, e', l);
    forall b, h | 0 <= b < |e'.trans| && 1 <= h < |e'.gens| && Earlier(b, h, a, g + 1)
      ensures FilledAt(d, e', b, h)
    {
      if b == a && h == g {
        assert k > 0 ==> Earlier(e.pred[k], e.last[k], a, g);
      } else {
        assert Earlier(b, h, a, g) && FilledAt(d, e, b, h);
      }
    }
  }

  lemma NewElement(d: Dfa, e: Elements, a: nat, g: nat, f: Map, row: seq<nat>)
    requires d.Valid() && Enumerating(d, e, a, g) && a < |e.trans| && 1 <= g < |e.gens| && |row| == |e.gens|
    requires f == Compose(e.trans[a], d.delta[e.gens[g]]) && f !in e.trans
    ensures Enumerating(d, WithSuccessor(WithElement(e, a, g, f, row), a, g, |e.trans|), a, g + 1)
  {
    var k := |e.trans|;
    var e1 := WithElement(e, a, g, f, row);
    var e' := WithSuccessor(e1, a, g, k);
    assert e'.trans[k] == f && e'.pred[k] == a && e'.last[k] == g;
    assert Shape(d, e');
    forall l | 1 <= l < |e'.trans|
      ensures Derived(d, e', l)
    {
      assert l < k ==> Derived(d, e, l);
    }
    forall b, h | 0 <= b < |e'.trans| && 1 <= h < |e'.gens| && Earlier(b, h, a, g + 1)
      ensures FilledAt(d, e', b, h)
    {
      if !(b == a && h == g) {
        assert Earlier(b, h, a, g) && FilledAt(d, e, b, h);
      }
    }
  }

  lemma NextRow(d: Dfa, e: Elements, a: nat)
    requires d.Valid() && Enumerating(d, e, a, |e.gens|) && a < |e.trans|
    ensures Enumerating(d, e, a + 1, 1)
  {
    forall b, h | 0 <= b < |e.trans| && 1 <= h < |e.gens| && Earlier(b, h, a + 1, 1)
      ensures FilledAt(d, e, b, h)
    {
      assert Earlier(b, h, a, |e.gens|);
    }
  }
}
