/** Random procedures as trees of draws: every inner node is one uniform draw, every leaf a result. The chance of a
    result is what the uniform draws give it. */
module RandomDraws {

  datatype Draws<R> = Result(value: R) | Draw(next: seq<Draws<R>>)

  /** The numbers drawn lead from the root to a result. */
  ghost predicate Answers<R>(d: Draws<R>, r: seq<nat>) {
    match d
    case Result(_) => r == []
    case Draw(next) => r != [] && r[0] < |next| && Answers(next[r[0]], r[1..])
  }

  ghost function Follow<R>(d: Draws<R>, r: seq<nat>): R
    requires Answers(d, r)
  {
    match d
    case Result(v) => v
    case Draw(next) => Follow(next[r[0]], r[1..])
  }

  ghost function Over(a: real, n: nat): real
    requires n > 0
  {
    a / (n as real)
  }

  ghost function Chance<R>(d: Draws<R>, v: R): real
    decreases d
  {
    match d
    case Result(w) => if v == w then 1.0 else 0.0
    case Draw(next) => if next == [] then 0.0 else Over(Total(next, v), |next|)
  }

  ghost function Total<R>(s: seq<Draws<R>>, v: R): real
    decreases s
  {
    if s == [] then 0.0 else Total(s[..|s| - 1], v) + Chance(s[|s| - 1], v)
  }

  /** n times the chance c. */
  ghost function Copies(n: nat, c: real): real {
    n as real * c
  }

  lemma ChanceOfDraw<R>(s: seq<Draws<R>>, v: R)
    requires s != []
    ensures Copies(|s|, Chance(Draw(s), v)) == Total(s, v)
  {
  }

  lemma {:induction false} TotalConcat<R>(s: seq<Draws<R>>, r: seq<Draws<R>>, v: R)
    ensures Total(s + r, v) == Total(s, v) + Total(r, v)
    decreases |r|
  {
    if r == [] {
      assert s + r == s;
    } else {
      assert (s + r)[..|s + r| - 1] == s + r[..|r| - 1];
      TotalConcat(s, r[..|r| - 1], v);
    }
  }

  lemma {:induction false} TotalRepeat<R>(s: seq<Draws<R>>, v: R, c: real)
    requires forall i :: 0 <= i < |s| ==> Chance(s[i], v) == c
    ensures Total(s, v) == Copies(|s|, c)
    decreases |s|
  {
    if s != [] {
      TotalRepeat(s[..|s| - 1], v, c);
    }
  }

  lemma TotalOne<R>(s: seq<Draws<R>>, v: R, i: nat)
    requires i < |s| && forall j :: 0 <= j < |s| && j != i ==> Chance(s[j], v) == 0.0
    ensures Total(s, v) == Chance(s[i], v)
  {
    TotalRepeat(s[..i], v, 0.0);
    TotalRepeat(s[i + 1..], v, 0.0);
    TotalRepeat([s[i]], v, Chance(s[i], v));
    assert s == s[..i] + [s[i]] + s[i + 1..];
    TotalConcat(s[..i], [s[i]], v);
    TotalConcat(s[..i] + [s[i]], s[i + 1..], v);
  }

  // ---- one procedure after the other ----

  ghost function Then<R, S>(d: Draws<R>, f: R -> Draws<S>): Draws<S> {
    match d
    case Result(v) => f(v)
    case Draw(next) => Draw(seq(|next|, i requires 0 <= i < |next| => Then(next[i], f)))
  }

  /** The numbers drawn by both, one after the other. */
  lemma {:induction false} ThenFollow<R, S>(d: Draws<R>, f: R -> Draws<S>, r: seq<nat>, q: seq<nat>)
    requires Answers(d, r) && Answers(f(Follow(d, r)), q)
    ensures Answers(Then(d, f), r + q) && Follow(Then(d, f), r + q) == Follow(f(Follow(d, r)), q)
  {
    if d.Result? {
      assert r + q == q;
    } else {
      ThenFollow(d.next[r[0]], f, r[1..], q);
      assert (r + q)[1..] == r[1..] + q;
    }
  }

  /** Where the final result shows the first one, the chances multiply. */
  lemma {:induction false} ThenChance<R(!new), S>(d: Draws<R>, f: R -> Draws<S>, v: R, w: S)
    requires forall u :: u != v ==> Chance(f(u), w) == 0.0
    ensures Chance(Then(d, f), w) == Chance(d, v) * Chance(f(v), w)
    decreases d, 0
  {
    hide Over;
    hide Total;
    match d
    case Result(u) =>
    case Draw(next) =>
      if next != [] {
        ThenTotal(next, Then(d, f).next, f, v, w);
        ThenDraw(next, Then(d, f).next, v, w, Chance(f(v), w));
      }
  }

  lemma ThenDraw<R, S>(t: seq<Draws<R>>, s: seq<Draws<S>>, v: R, w: S, c: real)
    requires |s| == |t| != 0 && Total(s, w) == Total(t, v) * c
    ensures Chance(Draw(s), w) == Chance(Draw(t), v) * c
  {
    hide Over;
    hide Total;
    Quotient(Total(t, v), c, |t|, Total(s, w));
  }

  lemma Quotient(a: real, b: real, n: nat, c: real)
    requires n != 0 && c == a * b
    ensures Over(c, n) == Over(a, n) * b
  {
  }

  lemma Distribute(a: real, b: real, c: real)
    ensures (a + b) * c == a * c + b * c
  {
  }

  lemma {:induction false} ThenTotal<R(!new), S>(t: seq<Draws<R>>, s: seq<Draws<S>>, f: R -> Draws<S>, v: R, w: S)
    requires forall u :: u != v ==> Chance(f(u), w) == 0.0
    requires |s| == |t| && forall i :: 0 <= i < |t| ==> s[i] == Then(t[i], f)
    ensures Total(s, w) == Total(t, v) * Chance(f(v), w)
    decreases t
  {
    hide Chance;
    hide Then;
    if t != [] {
      var n := |t| - 1;
      ThenTotal(t[..n], s[..n], f, v, w);
      ThenChance(t[n], f, v, w);
      Distribute(Total(t[..n], v), Chance(t[n], v), Chance(f(v), w));
    }
  }

  // ---- a result rewritten ----

  ghost function Rewrite<R, S>(g: R -> S): R -> Draws<S> {
    v => Result(g(v))
  }

  ghost function Map<R, S>(d: Draws<R>, g: R -> S): Draws<S> {
    Then(d, Rewrite(g))
  }

  lemma MapFollow<R, S>(d: Draws<R>, g: R -> S, r: seq<nat>)
    requires Answers(d, r)
    ensures Answers(Map(d, g), r) && Follow(Map(d, g), r) == g(Follow(d, r))
  {
    ThenFollow(d, Rewrite(g), r, []);
    assert r + [] == r;
  }

  lemma {:induction false} MapAnswers<R, S>(d: Draws<R>, g: R -> S, r: seq<nat>)
    requires Answers(Map(d, g), r)
    ensures Answers(d, r)
  {
    if d.Draw? {
      assert Map(d, g).next[r[0]] == Map(d.next[r[0]], g);
      MapAnswers(d.next[r[0]], g, r[1..]);
    }
  }

  lemma MapChance<R(!new), S>(d: Draws<R>, g: R -> S, v: R)
    requires forall u :: g(u) == g(v) ==> u == v
    ensures Chance(Map(d, g), g(v)) == Chance(d, v)
  {
    ThenChance(d, Rewrite(g), v, g(v));
  }

  lemma MapMissed<R(!new), S>(d: Draws<R>, g: R -> S, v: R, w: S)
    requires forall u :: g(u) != w
    ensures Chance(Map(d, g), w) == 0.0
  {
    ThenChance(d, Rewrite(g), v, w);
  }

  // ---- independent draws below given limits ----

  ghost predicate Below(s: seq<nat>, limits: seq<nat>) {
    |s| == |limits| && forall i :: 0 <= i < |s| ==> s[i] < limits[i]
  }

  /** The product of the entries. */
  ghost function Weight(k: seq<nat>): nat {
    if k == [] then 1 else Weight(k[..|k| - 1]) * k[|k| - 1]
  }

  lemma {:induction false} WeightConcat(k: seq<nat>, l: seq<nat>)
    ensures Weight(k + l) == Weight(k) * Weight(l)
    decreases |l|
  {
    if l == [] {
      assert k + l == k;
    } else {
      var n := |l| - 1;
      assert (k + l)[..|k + l| - 1] == k + l[..n];
      WeightConcat(k, l[..n]);
      Associative(Weight(k), Weight(l[..n]), l[n]);
    }
  }

  lemma Associative(a: nat, b: nat, c: nat)
    ensures (a * b) * c == a * (b * c)
  {
  }

  lemma WeightOne(p: nat)
    ensures Weight([p]) == p
  {
    assert [p][..0] == [];
  }

  ghost function Cons(i: nat): seq<nat> -> seq<nat> {
    s => [i] + s
  }

  ghost function Picks(limits: seq<nat>): Draws<seq<nat>> {
    if limits == [] then Result([]) else
    Draw(seq(limits[0], i requires 0 <= i < limits[0] => Map(Picks(limits[1..]), Cons(i))))
  }

  lemma {:induction false} PicksFollow(limits: seq<nat>, s: seq<nat>)
    requires Below(s, limits)
    ensures Answers(Picks(limits), s) && Follow(Picks(limits), s) == s
    decreases |s|
  {
    if s != [] {
      PicksFollow(limits[1..], s[1..]);
      MapFollow(Picks(limits[1..]), Cons(s[0]), s[1..]);
      assert s == [s[0]] + s[1..];
    }
  }

  lemma ConsChance(d: Draws<seq<nat>>, i: nat, s: seq<nat>)
    requires s != []
    ensures Chance(Map(d, Cons(i)), s) == if i == s[0] then Chance(d, s[1..]) else 0.0
  {
    if i == s[0] {
      assert s == Cons(i)(s[1..]);
      forall u | Cons(i)(u) == s
        ensures u == s[1..]
      {
        assert s[1..] == ([i] + u)[1..];
      }
      MapChance(d, Cons(i), s[1..]);
    } else {
      forall u
        ensures Cons(i)(u) != s
      {
        assert Cons(i)(u)[0] == i;
      }
      MapMissed(d, Cons(i), [], s);
    }
  }

  lemma PicksNext(limits: seq<nat>, s: seq<nat>, i: nat)
    requires s != [] && limits != [] && i < limits[0]
    ensures Picks(limits).Draw? && |Picks(limits).next| == limits[0]
    ensures Chance(Picks(limits).next[i], s) == if i == s[0] then Chance(Picks(limits[1..]), s[1..]) else 0.0
  {
    ConsChance(Picks(limits[1..]), i, s);
  }

  lemma PicksTotal(limits: seq<nat>, s: seq<nat>)
    requires Below(s, limits) && s != []
    ensures Copies(limits[0], Chance(Picks(limits), s)) == Chance(Picks(limits[1..]), s[1..])
  {
    hide Chance;
    hide Picks;
    PicksNext(limits, s, s[0]);
    var next := Picks(limits).next;
    forall i | 0 <= i < |next| && i != s[0]
      ensures Chance(next[i], s) == 0.0
    {
      PicksNext(limits, s, i);
    }
    TotalOne(next, s, s[0]);
    ChanceOfDraw(next, s);
  }

  lemma WeightFirst(k: seq<nat>)
    requires k != []
    ensures Weight(k) == k[0] * Weight(k[1..])
  {
    WeightConcat([k[0]], k[1..]);
    WeightOne(k[0]);
    assert k == [k[0]] + k[1..];
  }

  lemma PicksNone()
    ensures Copies(Weight([]), Chance(Picks([]), [])) == 1.0
  {
  }

  /** All results are equally likely. */
  lemma {:induction false} PicksChance(limits: seq<nat>, s: seq<nat>)
    requires Below(s, limits)
    ensures Copies(Weight(limits), Chance(Picks(limits), s)) == 1.0
    decreases |s|
  {
    hide Chance;
    hide Picks;
    hide Weight;
    if s == [] {
      PicksNone();
    } else {
      PicksTotal(limits, s);
      PicksChance(limits[1..], s[1..]);
      WeightFirst(limits);
      hide Copies;
      Multiply(Chance(Picks(limits), s), limits[0], Weight(limits[1..]), Weight(limits),
               Chance(Picks(limits[1..]), s[1..]));
    }
  }

  lemma Multiply(c: real, a: nat, b: nat, n: nat, d: real)
    requires Copies(a, c) == d && n == a * b
    ensures Copies(n, c) == Copies(b, d)
  {
    assert n as real == (a as real) * (b as real);
  }
}
