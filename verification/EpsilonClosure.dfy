/** Automata with epsilon moves, and the closure of these moves by two matrices in turn. */
module EpsilonClosure {
  import opened Automata

  /** Letter 0 of delta is the empty word. */
  datatype Enfa = Enfa(states: nat, letters: nat, init: seq<bool>, final: seq<bool>, delta: set<(nat, nat, nat)>)
  {
    ghost predicate Valid() {
      && 0 < states == |init| == |final|
      && (forall a, p, q :: (a, p, q) in delta ==> a <= letters && p < states && q < states)
    }

    /** k epsilon moves lead from p to q. */
    ghost predicate Moves(p: nat, q: nat, k: nat)
      decreases k
    {
      if k == 0 then p == q else exists r: nat :: (0, p, r) in delta && Moves(r, q, k - 1)
    }

    ghost predicate Eps(p: nat, q: nat) {
      exists k :: Moves(p, q, k)
    }

    /** Some run over w leads from q to one of the states f. */
    ghost predicate AcceptsFrom(q: nat, w: Word, f: seq<bool>)
      requires Valid() && |f| == states
      decreases |w|
    {
      if w == [] then exists t :: 0 <= t < states && Eps(q, t) && f[t]
      else exists p: nat, r: nat :: Eps(q, p) && (w[0], p, r) in delta && AcceptsFrom(r, w[1..], f)
    }

    ghost predicate Accepts(w: Word)
      requires Valid()
    {
      exists q :: 0 <= q < states && init[q] && AcceptsFrom(q, w, final)
    }
  }

  lemma {:induction false} MovesConcat(e: Enfa, p: nat, q: nat, r: nat, k: nat, l: nat)
    requires e.Moves(p, q, k) && e.Moves(q, r, l)
    ensures e.Moves(p, r, k + l)
    decreases k
  {
    if k > 0 {
      var x: nat :| (0, p, x) in e.delta && e.Moves(x, q, k - 1);
      MovesConcat(e, x, q, r, k - 1, l);
    }
  }

  lemma EpsTransitive(e: Enfa, p: nat, q: nat, r: nat)
    requires e.Eps(p, q) && e.Eps(q, r)
    ensures e.Eps(p, r)
  {
    var k :| e.Moves(p, q, k);
    var l :| e.Moves(q, r, l);
    MovesConcat(e, p, q, r, k, l);
  }

  lemma EpsReflexive(e: Enfa, p: nat)
    ensures e.Eps(p, p)
  {
    assert e.Moves(p, p, 0);
  }

  lemma EpsOne(e: Enfa, p: nat, q: nat)
    requires (0, p, q) in e.delta
    ensures e.Eps(p, q)
  {
    assert e.Moves(q, q, 0);
    assert e.Moves(p, q, 1);
  }

  lemma {:induction false} MovesInside(e: Enfa, p: nat, q: nat, k: nat)
    requires e.Valid() && e.Moves(p, q, k) && p < e.states
    ensures q < e.states
    decreases k
  {
    if k > 0 {
      var x: nat :| (0, p, x) in e.delta && e.Moves(x, q, k - 1);
      MovesInside(e, x, q, k - 1);
    }
  }

  lemma EpsFirst(e: Enfa, q: nat, p: nat, w: Word, f: seq<bool>)
    requires e.Valid() && |f| == e.states && e.Eps(q, p) && e.AcceptsFrom(p, w, f)
    ensures e.AcceptsFrom(q, w, f)
  {
    if w == [] {
      var t :| 0 <= t < e.states && e.Eps(p, t) && f[t];
      EpsTransitive(e, q, p, t);
    } else {
      var o: nat, r: nat :| e.Eps(p, o) && (w[0], o, r) in e.delta && e.AcceptsFrom(r, w[1..], f);
      EpsTransitive(e, q, p, o);
    }
  }

  // ---- the closure ----

  /** Epsilon moves from p to q with only states below m in between, put together at the largest one. */
  ghost predicate Via(e: Enfa, m: nat, p: nat, q: nat) {
    if m == 0 then p == q || (0, p, q) in e.delta
    else Via(e, m - 1, p, q) || (Via(e, m - 1, p, m - 1) && Via(e, m - 1, m - 1, q))
  }

  /** Ways are joined at every state below m. */
  lemma {:induction false} ViaJoin(e: Enfa, m: nat, p: nat, c: nat, q: nat)
    requires c < m && Via(e, m, p, c) && Via(e, m, c, q)
    ensures Via(e, m, p, q)
    decreases m
  {
    var x := m - 1;
    if c < x {
      if Via(e, x, p, c) && Via(e, x, c, q) {
        ViaJoin(e, x, p, c, q);
      } else if Via(e, x, p, c) {
        ViaJoin(e, x, p, c, x);
      } else if Via(e, x, c, q) {
        ViaJoin(e, x, x, c, q);
      }
    }
  }

  lemma {:induction false} ViaMore(e: Enfa, m: nat, p: nat, q: nat)
    requires p == q || (0, p, q) in e.delta
    ensures Via(e, m, p, q)
  {
    if m > 0 {
      ViaMore(e, m - 1, p, q);
    }
  }

  lemma {:induction false} ViaSound(e: Enfa, m: nat, p: nat, q: nat)
    requires Via(e, m, p, q)
    ensures e.Eps(p, q)
  {
    if m == 0 {
      if p == q {
        EpsReflexive(e, p);
      } else {
        EpsOne(e, p, q);
      }
    } else if Via(e, m - 1, p, q) {
      ViaSound(e, m - 1, p, q);
    } else {
      ViaSound(e, m - 1, p, m - 1);
      ViaSound(e, m - 1, m - 1, q);
      EpsTransitive(e, p, m - 1, q);
    }
  }

  lemma {:induction false} ViaComplete(e: Enfa, p: nat, q: nat, k: nat)
    requires e.Valid() && p < e.states && e.Moves(p, q, k)
    ensures Via(e, e.states, p, q)
    decreases k
  {
    if k == 0 {
      ViaMore(e, e.states, p, q);
    } else {
      var x: nat :| (0, p, x) in e.delta && e.Moves(x, q, k - 1);
      ViaComplete(e, x, q, k - 1);
      ViaMore(e, e.states, p, x);
      ViaJoin(e, e.states, p, x, q);
    }
  }

  /** With all states in between, exactly the epsilon moves are there. */
  lemma ViaExact(e: Enfa, p: nat, q: nat)
    requires e.Valid() && p < e.states
    ensures Via(e, e.states, p, q) <==> e.Eps(p, q)
  {
    if Via(e, e.states, p, q) {
      ViaSound(e, e.states, p, q);
    }
    if e.Eps(p, q) {
      var k :| e.Moves(p, q, k);
      ViaComplete(e, p, q, k);
    }
  }

  /** Plane f of the matrices holds the ways over states below m, for rows before j and the first k of row j. */
  ghost predicate Plane(mat: array3<bool>, f: nat, e: Enfa, m: nat, j: nat, k: nat)
    requires mat.Length0 == 2 && mat.Length1 == mat.Length2 == e.states && f < 2
    reads mat
  {
    forall p: nat, q: nat :: p < e.states && q < e.states && (p < j || (p == j && q < k)) ==>
      (mat[f, p, q] <==> Via(e, m, p, q))
  }

  /** Known epsilon moves and the trivial ones. */
  method KnownMoves(e: Enfa, mat: array3<bool>)
    requires mat.Length0 == 2 && mat.Length1 == mat.Length2 == e.states
    modifies mat
    ensures Plane(mat, 0, e, 0, e.states, 0)
  {
    for j := 0 to e.states
      invariant Plane(mat, 0, e, 0, j, 0)
    {
      for k := 0 to e.states
        invariant Plane(mat, 0, e, 0, j, 0)
        invariant forall q: nat :: q < k ==> (mat[0, j, q] <==> (0, j, q) in e.delta)
      {
        mat[0, j, k] := (0, j, k) in e.delta;
      }
      mat[0, j, j] := true;
    }
  }

  /** One more state in between: from the other plane into plane f. */
  method Round(e: Enfa, mat: array3<bool>, f: nat, i: nat)
    requires mat.Length0 == 2 && mat.Length1 == mat.Length2 == e.states && f < 2 && i < e.states
    requires Plane(mat, 1 - f, e, i, e.states, 0)
    modifies mat
    ensures Plane(mat, f, e, i + 1, e.states, 0)
  {
    for j := 0 to e.states
      invariant Plane(mat, 1 - f, e, i, e.states, 0) && Plane(mat, f, e, i + 1, j, 0)
    {
      for k := 0 to e.states
        invariant Plane(mat, 1 - f, e, i, e.states, 0) && Plane(mat, f, e, i + 1, j, k)
      {
        mat[f, j, k] := mat[1 - f, j, k] || (mat[1 - f, j, i] && mat[1 - f, i, k]);
      }
    }
  }

  /** The closure: plane matp tells which states epsilon moves lead to. */
  method EpsClosure(e: Enfa) returns (mat: array3<bool>, matp: nat)
    requires e.Valid()
    ensures fresh(mat) && mat.Length0 == 2 && mat.Length1 == mat.Length2 == e.states && matp < 2
    ensures forall p: nat, q: nat :: p < e.states && q < e.states ==> (mat[matp, p, q] <==> e.Eps(p, q))
  {
    mat := new bool[2, e.states, e.states];
    KnownMoves(e, mat);
    var rrobin := true;
    for i := 0 to e.states
      invariant Plane(mat, if rrobin then 0 else 1, e, i, e.states, 0)
    {
      Round(e, mat, if rrobin then 1 else 0, i);
      rrobin := !rrobin;
    }
    matp := if rrobin then 0 else 1;
    forall p: nat, q: nat | p < e.states && q < e.states
      ensures mat[matp, p, q] <==> e.Eps(p, q)
    {
      ViaExact(e, p, q);
    }
  }
}
