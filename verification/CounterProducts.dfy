/** Products of automata with one visible counter, and inclusion of their languages. */
module CounterProducts {
  import opened Automata
  import opened CounterAutomata
  import opened Saturation
  import opened SaturationOrders
  import opened PreStar
  import opened CounterLanguages

  function Larger(m: nat, n: nat): nat {
    if m < n then n else m
  }

  /** The rule of the product at level m for two rules with the same letter. */
  ghost predicate IsMove(a: Mvca, b: Mvca, m: nat, p: nat, q: nat, x: nat, r: nat, s: nat) {
    && m <= Larger(a.bound, b.bound) && (a.Level(m), p, x, r) in a.delta && (b.Level(m), q, x, s) in b.delta
  }

  function Move(n: nat, m: nat, p: nat, q: nat, x: nat, r: nat, s: nat): Rule {
    (m, Pair(p, q, n), x, Pair(r, s, n))
  }

  ghost predicate HasMove(a: Mvca, b: Mvca, t: Rule) {
    exists m: nat, p: nat, q: nat, x: nat, r: nat, s: nat ::
      IsMove(a, b, m, p, q, x, r, s) && t == Move(b.states, m, p, q, x, r, s)
  }

  ghost predicate OnlyMoves(a: Mvca, b: Mvca, delta: set<Rule>) {
    forall t :: t in delta ==> HasMove(a, b, t)
  }

  /** The rules at level m from the pair (p, q) with the letter x are there. */
  ghost predicate PairMoves(a: Mvca, b: Mvca, delta: set<Rule>, m: nat, p: nat, q: nat, x: nat) {
    forall r: nat, s: nat :: IsMove(a, b, m, p, q, x, r, s) ==> Move(b.states, m, p, q, x, r, s) in delta
  }

  lemma OneMove(a: Mvca, b: Mvca, delta: set<Rule>, m: nat, p: nat, q: nat, x: nat, r: nat, s: nat)
    requires OnlyMoves(a, b, delta) && IsMove(a, b, m, p, q, x, r, s)
    ensures OnlyMoves(a, b, delta + {Move(b.states, m, p, q, x, r, s)})
  {
    assert HasMove(a, b, Move(b.states, m, p, q, x, r, s));
  }

  lemma MovesKept(a: Mvca, b: Mvca, delta: set<Rule>, more: set<Rule>)
    requires delta <= more
    ensures forall m: nat, p: nat, q: nat, x: nat :: PairMoves(a, b, delta, m, p, q, x) ==>
      PairMoves(a, b, more, m, p, q, x)
  {
  }

  /** All targets of a pair of states. */
  method AddTargets(a: Mvca, b: Mvca, m: nat, tm: nat, om: nat, p: nat, q: nat, x: nat, delta: set<Rule>)
      returns (more: set<Rule>)
    requires a.Valid() && b.Valid() && OnlyMoves(a, b, delta)
    requires m <= Larger(a.bound, b.bound) && tm == a.Level(m) && om == b.Level(m)
    ensures delta <= more && OnlyMoves(a, b, more) && PairMoves(a, b, more, m, p, q, x)
  {
    hide OnlyMoves, Move;
    more := delta;
    for r: nat := 0 to a.states
      invariant delta <= more && OnlyMoves(a, b, more)
      invariant forall i: nat, s: nat :: i < r && IsMove(a, b, m, p, q, x, i, s) ==>
        Move(b.states, m, p, q, x, i, s) in more
    {
      for s: nat := 0 to b.states
        invariant delta <= more && OnlyMoves(a, b, more)
        invariant forall i: nat, j: nat :: (i < r || (i == r && j < s)) && IsMove(a, b, m, p, q, x, i, j) ==>
          Move(b.states, m, p, q, x, i, j) in more
      {
        if (tm, p, x, r) in a.delta && (om, q, x, s) in b.delta {
          OneMove(a, b, more, m, p, q, x, r, s);
          more := more + {Move(b.states, m, p, q, x, r, s)};
        }
      }
    }
  }

  /** All pairs of states at one level. */
  method AddPairs(a: Mvca, b: Mvca, m: nat, tm: nat, om: nat, delta: set<Rule>) returns (more: set<Rule>)
    requires a.Valid() && b.Valid() && OnlyMoves(a, b, delta) && a.letters == b.letters
    requires m <= Larger(a.bound, b.bound) && tm == a.Level(m) && om == b.Level(m)
    ensures delta <= more && OnlyMoves(a, b, more) && LevelMoves(a, b, more, m)
  {
    hide OnlyMoves, PairMoves;
    more := delta;
    for p: nat := 0 to a.states
      invariant delta <= more && OnlyMoves(a, b, more)
      invariant forall i: nat, j: nat, y: nat :: i < p && j < b.states && y < a.letters ==>
        PairMoves(a, b, more, m, i, j, y)
    {
      for q: nat := 0 to b.states
        invariant delta <= more && OnlyMoves(a, b, more)
        invariant forall i: nat, j: nat, y: nat :: (i < p || (i == p && j < q)) && j < b.states && y < a.letters ==>
          PairMoves(a, b, more, m, i, j, y)
      {
        for x: nat := 0 to a.letters
          invariant delta <= more && OnlyMoves(a, b, more)
          invariant forall i: nat, j: nat, y: nat ::
            (i < p || (i == p && j < q) || (i == p && j == q && y < x)) && j < b.states && y < a.letters ==>
              PairMoves(a, b, more, m, i, j, y)
        {
          ghost var before := more;
          more := AddTargets(a, b, m, tm, om, p, q, x, more);
          MovesKept(a, b, before, more);
        }
      }
    }
  }

  ghost predicate LevelMoves(a: Mvca, b: Mvca, delta: set<Rule>, m: nat) {
    forall p: nat, q: nat, x: nat :: p < a.states && q < b.states && x < a.letters ==>
      PairMoves(a, b, delta, m, p, q, x)
  }

  /** The rules of the product are exactly the pairs of rules with the same letter at the same counter. */
  ghost predicate IsProduct(a: Mvca, b: Mvca, c: Mvca) {
    && c.states == a.states * b.states && c.letters == a.letters && c.dir == a.dir
    && c.bound == Larger(a.bound, b.bound) && OnlyMoves(a, b, c.delta)
    && forall m: nat :: m <= c.bound ==> LevelMoves(a, b, c.delta, m)
  }

  lemma LevelKept(a: Mvca, b: Mvca, delta: set<Rule>, more: set<Rule>)
    requires delta <= more
    ensures forall m: nat :: LevelMoves(a, b, delta, m) ==> LevelMoves(a, b, more, m)
  {
    MovesKept(a, b, delta, more);
  }

  /** Both automata at once: the two levels grow with the counter until each has reached its bound. */
  method Crossproduct(a: Mvca, b: Mvca) returns (c: Mvca)
    requires a.Valid() && b.Valid() && a.letters == b.letters && a.dir == b.dir
    ensures IsProduct(a, b, c) && c.Valid()
  {
    hide OnlyMoves, LevelMoves;
    var delta: set<Rule> := {};
    NoMoves(a, b);
    var bound := Larger(a.bound, b.bound);
    var tm, om := 0, 0;
    for m: nat := 0 to bound + 1
      invariant OnlyMoves(a, b, delta) && forall i: nat :: i < m ==> LevelMoves(a, b, delta, i)
      invariant tm == a.Level(m) && om == b.Level(m)
    {
      ghost var before := delta;
      delta := AddPairs(a, b, m, tm, om, delta);
      LevelKept(a, b, before, delta);
      if tm < a.bound {
        tm := tm + 1;
      }
      if om < b.bound {
        om := om + 1;
      }
    }
    c := Mvca(a.states * b.states, a.letters, bound, a.dir, delta);
    ProductValid(a, b, c);
  }

  lemma NoMoves(a: Mvca, b: Mvca)
    ensures OnlyMoves(a, b, {})
  {
  }

  lemma ProductValid(a: Mvca, b: Mvca, c: Mvca)
    requires a.Valid() && b.Valid() && a.letters == b.letters && a.dir == b.dir && IsProduct(a, b, c)
    ensures c.Valid()
  {
    forall l: nat, o: nat, x: nat, t: nat | (l, o, x, t) in c.delta
      ensures l <= c.bound && o < c.states && x < c.letters && t < c.states
    {
      assert HasMove(a, b, (l, o, x, t));
      var m: nat, p: nat, q: nat, y: nat, r: nat, s: nat :|
        IsMove(a, b, m, p, q, y, r, s) && (l, o, x, t) == Move(b.states, m, p, q, y, r, s);
      PairBelow(p, q, a.states, b.states);
      PairBelow(r, s, a.states, b.states);
    }
  }

  // ---- the runs of the product ----

  lemma LevelAgain(a: Mvca, n: nat, m: nat)
    requires a.bound <= n
    ensures a.Level(if m <= n then m else n) == a.Level(m)
  {
  }

  lemma ProductStep(a: Mvca, b: Mvca, c: Mvca, p: nat, q: nat, m: nat, x: nat, o: nat, k: nat) returns (r: nat, s: nat)
    requires a.Valid() && b.Valid() && a.letters == b.letters && a.dir == b.dir && IsProduct(a, b, c) && c.Valid()
    requires p < a.states && q < b.states && c.Step(Pair(p, q, b.states), m, x, o, k)
    ensures a.Step(p, m, x, r, k) && b.Step(q, m, x, s, k) && o == Pair(r, s, b.states)
  {
    hide Pair;
    var t := (c.Level(m), Pair(p, q, b.states), x, o);
    assert HasMove(a, b, t);
    var m': nat, p': nat, q': nat, y: nat, r': nat, s': nat :|
      IsMove(a, b, m', p', q', y, r', s') && t == Move(b.states, m', p', q', y, r', s');
    PairInjective(p', q', p, q, b.states);
    LevelAgain(a, c.bound, m);
    LevelAgain(b, c.bound, m);
    r, s := r', s';
  }

  lemma StepProduct(a: Mvca, b: Mvca, c: Mvca, p: nat, q: nat, m: nat, x: nat, r: nat, s: nat, k: nat)
    requires a.Valid() && b.Valid() && a.letters == b.letters && a.dir == b.dir && IsProduct(a, b, c) && c.Valid()
    requires a.Step(p, m, x, r, k) && b.Step(q, m, x, s, k)
    ensures c.Step(Pair(p, q, b.states), m, x, Pair(r, s, b.states), k)
  {
    hide Pair;
    LevelAgain(a, c.bound, m);
    LevelAgain(b, c.bound, m);
    var l := c.Level(m);
    assert LevelMoves(a, b, c.delta, l);
    assert PairMoves(a, b, c.delta, l, p, q, x);
    assert IsMove(a, b, l, p, q, x, r, s);
    assert Move(b.states, l, p, q, x, r, s) in c.delta;
  }

  /** The product is driven by exactly the words that drive both. */
  lemma {:induction false} ProductDrives(a: Mvca, b: Mvca, c: Mvca, p: nat, q: nat, m: nat, w: Word, r: nat, s: nat,
                                         k: nat)
    requires a.Valid() && b.Valid() && a.letters == b.letters && a.dir == b.dir && IsProduct(a, b, c) && c.Valid()
    requires p < a.states && q < b.states && r < a.states && s < b.states
    ensures c.Drives(Pair(p, q, b.states), m, w, Pair(r, s, b.states), k)
            <==> a.Drives(p, m, w, r, k) && b.Drives(q, m, w, s, k)
    decreases |w|
  {
    hide Pair, IsProduct;
    var n := b.states;
    if w == [] {
      if Pair(p, q, n) == Pair(r, s, n) {
        PairInjective(p, q, r, s, n);
      }
    } else {
      if c.Drives(Pair(p, q, n), m, w, Pair(r, s, n), k) {
        var o: nat, j: nat :| c.Step(Pair(p, q, n), m, w[0], o, j) && c.Drives(o, j, w[1..], Pair(r, s, n), k);
        var r', s' := ProductStep(a, b, c, p, q, m, w[0], o, j);
        ProductDrives(a, b, c, r', s', j, w[1..], r, s, k);
      }
      if a.Drives(p, m, w, r, k) && b.Drives(q, m, w, s, k) {
        var r': nat, j: nat :| a.Step(p, m, w[0], r', j) && a.Drives(r', j, w[1..], r, k);
        var s': nat, i: nat :| b.Step(q, m, w[0], s', i) && b.Drives(s', i, w[1..], s, k);
        StepProduct(a, b, c, p, q, m, w[0], r', s', j);
        ProductDrives(a, b, c, r', s', j, w[1..], r, s, k);
      }
    }
  }

  /** The product of two automata with the same letters. */
  method LangIntersect(v: Vca, u: Vca) returns (x: Vca)
    requires v.Valid() && u.Valid() && v.base.letters == u.base.letters && v.base.dir == u.base.dir
    ensures x.Valid() && IsProduct(v.base, u.base, x.base)
    ensures forall w :: x.Accepts(w) <==> v.Accepts(w) && u.Accepts(w)
  {
    var c := Crossproduct(v.base, u.base);
    var n := u.base.states;
    var final := set p, q | p in v.final && q in u.final :: Pair(p, q, n);
    x := Vca(c, Pair(v.init, u.init, n), final);
    IntersectExact(v, u, x);
  }

  lemma IntersectExact(v: Vca, u: Vca, x: Vca)
    requires v.Valid() && u.Valid() && v.base.letters == u.base.letters && v.base.dir == u.base.dir
    requires IsProduct(v.base, u.base, x.base) && x.base.Valid() && x.init == Pair(v.init, u.init, u.base.states)
    requires forall t :: t in x.final <==> exists p, q :: p in v.final && q in u.final && t == Pair(p, q, u.base.states)
    ensures x.Valid() && forall w :: x.Accepts(w) <==> v.Accepts(w) && u.Accepts(w)
  {
    hide Pair, IsProduct;
    var n := u.base.states;
    assert x.Valid() by {
      PairBelow(v.init, u.init, v.base.states, n);
      ProductSize(v.base, u.base, x.base);
      forall t | t in x.final
        ensures t < x.base.states
      {
        var p: nat, q: nat :| p in v.final && q in u.final && t == Pair(p, q, n);
        PairBelow(p, q, v.base.states, n);
      }
    }
    forall w: Word
      ensures x.Accepts(w) <==> v.Accepts(w) && u.Accepts(w)
    {
      if x.Accepts(w) {
        var t: nat :| t in x.final && x.base.Drives(x.init, 0, w, t, 0);
        var p: nat, q: nat :| p in v.final && q in u.final && t == Pair(p, q, n);
        ProductDrives(v.base, u.base, x.base, v.init, u.init, 0, w, p, q, 0);
      }
      if v.Accepts(w) && u.Accepts(w) {
        var p: nat :| p in v.final && v.base.Drives(v.init, 0, w, p, 0);
        var q: nat :| q in u.final && u.base.Drives(u.init, 0, w, q, 0);
        ProductDrives(v.base, u.base, x.base, v.init, u.init, 0, w, p, q, 0);
        assert Pair(p, q, n) in x.final;
      }
    }
  }

  lemma ProductSize(a: Mvca, b: Mvca, c: Mvca)
    requires IsProduct(a, b, c)
    ensures c.states == a.states * b.states
  {
  }
}
