/** Transitions over the stacks of a one-counter automaton, what they mean, and how a rule adds to them. */
module Saturation {
  import opened Automata
  import opened CounterAutomata

  /** A transition from a state with a stack symbol to a state, and the word of the counter automaton behind it. */
  type Transitions = map<(nat, nat, nat), Word>

  ghost predicate Reads(keys: set<(nat, nat, nat)>, p: nat, s: Stack, r: nat)
    decreases |s|
  {
    if s == [] then p == r
    else s[0] >= 0 && exists q: nat :: (p, s[0], q) in keys && Reads(keys, q, s[1..], r)
  }

  /** The same along transitions whose words make up w. */
  ghost predicate ReadsWith(t: Transitions, p: nat, s: Stack, r: nat, w: Word)
    decreases |s|
  {
    if s == [] then p == r && w == []
    else s[0] >= 0 && exists q, v :: (p, s[0], q) in t && w == t[(p, s[0], q)] + v && ReadsWith(t, q, s[1..], r, v)
  }

  /** What was there is kept. */
  ghost predicate Extends(t: Transitions, u: Transitions) {
    forall k :: k in t ==> k in u && u[k] == t[k]
  }

  lemma {:induction false} ReadsForget(t: Transitions, p: nat, s: Stack, r: nat, w: Word)
    requires ReadsWith(t, p, s, r, w)
    ensures Reads(t.Keys, p, s, r)
    decreases |s|
  {
    if s != [] {
      var q: nat, v: Word :| (p, s[0], q) in t && w == t[(p, s[0], q)] + v && ReadsWith(t, q, s[1..], r, v);
      ReadsForget(t, q, s[1..], r, v);
    }
  }

  lemma {:induction false} ReadsMore(keys: set<(nat, nat, nat)>, more: set<(nat, nat, nat)>, p: nat, s: Stack, r: nat)
    requires Reads(keys, p, s, r) && keys <= more
    ensures Reads(more, p, s, r)
    decreases |s|
  {
    if s != [] {
      var q: nat :| (p, s[0], q) in keys && Reads(keys, q, s[1..], r);
      ReadsMore(keys, more, q, s[1..], r);
    }
  }

  /** One more symbol at the end. */
  lemma {:induction false} ReadsSnoc(t: Transitions, p: nat, s: Stack, q: nat, w: Word, x: nat, r: nat)
    requires ReadsWith(t, p, s, q, w) && (q, x, r) in t
    ensures ReadsWith(t, p, s + [x], r, w + t[(q, x, r)])
    decreases |s|
  {
    var u := s + [x];
    if s == [] {
      assert u[1..] == [] && t[(q, x, r)] + [] == w + t[(q, x, r)];
      assert ReadsWith(t, r, u[1..], r, []);
    } else {
      var o: nat, v: Word :| (p, s[0], o) in t && w == t[(p, s[0], o)] + v && ReadsWith(t, o, s[1..], q, v);
      ReadsSnoc(t, o, s[1..], q, v, x, r);
      assert u[0] == s[0] && u[1..] == s[1..] + [x];
      assert w + t[(q, x, r)] == t[(p, s[0], o)] + (v + t[(q, x, r)]);
    }
  }

  lemma {:induction false} ReadsUnsnoc(t: Transitions, p: nat, s: Stack, x: nat, r: nat, w: Word)
    requires ReadsWith(t, p, s + [x], r, w)
    ensures exists q: nat, u: Word :: ReadsWith(t, p, s, q, u) && (q, x, r) in t && w == u + t[(q, x, r)]
    decreases |s|
  {
    var y := s + [x];
    var q: nat, v: Word :| (p, y[0], q) in t && w == t[(p, y[0], q)] + v && ReadsWith(t, q, y[1..], r, v);
    var first := t[(p, y[0], q)];
    if s == [] {
      assert y[1..] == [] && w == [] + first;
      assert ReadsWith(t, p, s, p, []) && (p, x, r) in t;
    } else {
      assert y[0] == s[0] && y[1..] == s[1..] + [x];
      ReadsUnsnoc(t, q, s[1..], x, r, v);
      var o: nat, u: Word :| ReadsWith(t, q, s[1..], o, u) && (o, x, r) in t && v == u + t[(o, x, r)];
      assert w == (first + u) + t[(o, x, r)];
      ReadsWithStep(t, p, s, q, o, u);
    }
  }

  lemma ReadsWithStep(t: Transitions, p: nat, s: Stack, q: nat, r: nat, v: Word)
    requires s != [] && s[0] >= 0 && (p, s[0], q) in t && ReadsWith(t, q, s[1..], r, v)
    ensures ReadsWith(t, p, s, r, t[(p, s[0], q)] + v)
  {
  }

  lemma {:induction false} ReadsHasWord(t: Transitions, p: nat, s: Stack, r: nat)
    requires Reads(t.Keys, p, s, r)
    ensures exists w :: ReadsWith(t, p, s, r, w)
    decreases |s|
  {
    if s == [] {
      assert ReadsWith(t, p, s, r, []);
    } else {
      var q: nat :| (p, s[0], q) in t.Keys && Reads(t.Keys, q, s[1..], r);
      ReadsHasWord(t, q, s[1..], r);
      var v: Word :| ReadsWith(t, q, s[1..], r, v);
      ReadsWithStep(t, p, s, q, r, v);
    }
  }

  lemma {:induction false} ReadsSplit(keys: set<(nat, nat, nat)>, p: nat, s: Stack, u: Stack, r: nat)
    ensures Reads(keys, p, s + u, r) <==> exists q: nat :: Reads(keys, p, s, q) && Reads(keys, q, u, r)
    decreases |s|
  {
    var x := s + u;
    if s == [] {
      assert x == u;
      assert Reads(keys, p, s, p);
    } else {
      assert x[0] == s[0] && x[1..] == s[1..] + u;
      if Reads(keys, p, x, r) {
        var q: nat :| (p, s[0], q) in keys && Reads(keys, q, x[1..], r);
        ReadsSplit(keys, q, s[1..], u, r);
        var o: nat :| Reads(keys, q, s[1..], o) && Reads(keys, o, u, r);
        assert Reads(keys, p, s, o);
      }
      if o: nat :| Reads(keys, p, s, o) && Reads(keys, o, u, r) {
        var q: nat :| (p, s[0], q) in keys && Reads(keys, q, s[1..], o);
        ReadsSplit(keys, q, s[1..], u, r);
        assert Reads(keys, q, s[1..], o) && Reads(keys, o, u, r);
        assert Reads(keys, q, x[1..], r);
        assert s[0] >= 0;
        ReadsStep(keys, p, x, q, r);
      }
    }
  }

  lemma ReadsStep(keys: set<(nat, nat, nat)>, p: nat, s: Stack, q: nat, r: nat)
    requires s != [] && s[0] >= 0 && (p, s[0], q) in keys && Reads(keys, q, s[1..], r)
    ensures Reads(keys, p, s, r)
  {
  }

  // ---- what the transitions mean ----

  /** A state that has been made for an added configuration, and how many symbols of its stack lie behind it. */
  datatype Origin = Origin(state: nat, m: nat, i: nat)

  ghost predicate IsOrigin(a: Mvca, o: Origin) {
    o.state < a.states && 1 <= o.i <= |Config(a.bound, o.m)|
  }

  ghost predicate IsEnd(a: Mvca, o: Origin) {
    IsOrigin(a, o) && o.i == |Config(a.bound, o.m)|
  }

  /** A transition with the word w is a derivation: it takes a symbol away, or leads into the stack of an added
      configuration. */
  ghost predicate Means(a: Mvca, origin: map<nat, Origin>, p: nat, x: nat, r: nat, w: Word)
    requires a.Valid()
  {
    if p < a.states then
      if r < a.states then Derives(a, p, [x], w, r, [])
      else r in origin && IsOrigin(a, origin[r]) &&
           Derives(a, p, [x], w, origin[r].state, Config(a.bound, origin[r].m)[..origin[r].i])
    else
      && p in origin && r in origin && r >= a.states && IsOrigin(a, origin[p]) && IsOrigin(a, origin[r]) && w == []
      && origin[r] == origin[p].(i := origin[p].i + 1) && Config(a.bound, origin[p].m)[origin[p].i] == x
  }

  ghost predicate AllMean(a: Mvca, origin: map<nat, Origin>, t: Transitions)
    requires a.Valid()
  {
    forall p, x, r :: (p, x, r) in t ==> Means(a, origin, p, x, r, t[(p, x, r)])
  }

  /** Behind a made state only its own stack can be read. */
  lemma {:induction false} OwnStack(a: Mvca, origin: map<nat, Origin>, t: Transitions, p: nat, s: Stack, r: nat,
                                    w: Word)
    requires a.Valid() && AllMean(a, origin, t) && ReadsWith(t, p, s, r, w)
    requires p >= a.states && p in origin && IsOrigin(a, origin[p])
    ensures w == [] && r >= a.states && r in origin && IsOrigin(a, origin[r])
    ensures origin[r] == origin[p].(i := origin[p].i + |s|)
    ensures Config(a.bound, origin[p].m)[origin[p].i..origin[r].i] == s
    decreases |s|
  {
    if s != [] {
      var q: nat, v: Word :| (p, s[0], q) in t && w == t[(p, s[0], q)] + v && ReadsWith(t, q, s[1..], r, v);
      assert Means(a, origin, p, s[0], q, t[(p, s[0], q)]);
      OwnStack(a, origin, t, q, s[1..], r, v);
      var c, i, j := Config(a.bound, origin[p].m), origin[p].i, origin[r].i;
      assert c[i..j] == [c[i]] + c[i + 1..j];
    }
  }

  /** The word w takes s away from the stack, or leaves the read part of the stack of an added configuration. */
  ghost predicate PathMeaning(a: Mvca, origin: map<nat, Origin>, p: nat, s: Stack, r: nat, w: Word)
    requires a.Valid()
  {
    if r < a.states then Derives(a, p, s, w, r, [])
    else r in origin && IsOrigin(a, origin[r]) &&
         Derives(a, p, s, w, origin[r].state, Config(a.bound, origin[r].m)[..origin[r].i])
  }

  /** A symbol taken away, and the meaning of the rest. */
  lemma PopThenPath(a: Mvca, origin: map<nat, Origin>, p: nat, x: int, q: nat, u: Word, s: Stack, r: nat, v: Word)
    requires a.Valid() && Derives(a, p, [x], u, q, []) && PathMeaning(a, origin, q, s, r, v)
    ensures PathMeaning(a, origin, p, [x] + s, r, u + v)
  {
    var none: Stack := [];
    DerivesBelow(a, p, [x], u, q, none, s);
    assert none + s == s;
    if r < a.states {
      DerivesConcat(a, p, [x] + s, u, q, s, v, r, none);
    } else {
      DerivesConcat(a, p, [x] + s, u, q, s, v, origin[r].state, Config(a.bound, origin[r].m)[..origin[r].i]);
    }
  }

  /** A step into the stack of an added configuration, and more of that stack. */
  lemma IntoOwnStack(a: Mvca, origin: map<nat, Origin>, p: nat, x: int, q: nat, u: Word, s: Stack, r: nat)
    requires a.Valid() && q in origin && r in origin && IsOrigin(a, origin[q]) && IsOrigin(a, origin[r])
    requires r >= a.states
    requires Derives(a, p, [x], u, origin[q].state, Config(a.bound, origin[q].m)[..origin[q].i])
    requires origin[r] == origin[q].(i := origin[q].i + |s|)
    requires Config(a.bound, origin[q].m)[origin[q].i..origin[r].i] == s
    ensures PathMeaning(a, origin, p, [x] + s, r, u)
  {
    var c := Config(a.bound, origin[q].m);
    DerivesBelow(a, p, [x], u, origin[q].state, c[..origin[q].i], s);
    assert c[..origin[q].i] + c[origin[q].i..origin[r].i] == c[..origin[r].i];
  }

  /** Reading a stack from a state of the counter automaton is a derivation. */
  lemma {:induction false} PathMeans(a: Mvca, origin: map<nat, Origin>, t: Transitions, p: nat, s: Stack, r: nat,
                                     w: Word)
    requires a.Valid() && AllMean(a, origin, t) && ReadsWith(t, p, s, r, w) && p < a.states
    ensures PathMeaning(a, origin, p, s, r, w)
    decreases |s|
  {
    hide Derives;
    if s == [] {
      NoDerivation(a, p);
    } else {
      var q: nat, v: Word :| (p, s[0], q) in t && w == t[(p, s[0], q)] + v && ReadsWith(t, q, s[1..], r, v);
      var x, u := s[0], t[(p, s[0], q)];
      assert Means(a, origin, p, x, q, u) && s == [x] + s[1..];
      if q < a.states {
        PathMeans(a, origin, t, q, s[1..], r, v);
        PopThenPath(a, origin, p, x, q, u, s[1..], r, v);
      } else {
        OwnStack(a, origin, t, q, s[1..], r, v);
        IntoOwnStack(a, origin, p, x, q, u, s[1..], r);
        assert u + v == u;
      }
    }
  }

  lemma NoDerivation(a: Mvca, p: nat)
    requires a.Valid()
    ensures Derives(a, p, [], [], p, [])
  {
  }

  // ---- what saturation is for ----

  /** The rule at level l from p with the letter x to q adds nothing new. */
  ghost predicate RuleClosed(a: Mvca, keys: set<(nat, nat, nat)>, l: nat, p: nat, x: nat, q: nat)
    requires a.Valid() && (l, p, x, q) in a.delta
  {
    l + a.dir[x] >= 0 ==> forall r: nat :: Reads(keys, q, StackTop(l, a.bound, a.dir[x]), r) ==> (p, l, r) in keys
  }

  ghost predicate Closed(a: Mvca, keys: set<(nat, nat, nat)>)
    requires a.Valid()
  {
    forall l, p, x, q :: (l, p, x, q) in a.delta ==> RuleClosed(a, keys, l, p, x, q)
  }

  ghost predicate Accepted(keys: set<(nat, nat, nat)>, final: set<nat>, p: nat, s: Stack) {
    exists r: nat :: r in final && Reads(keys, p, s, r)
  }

  /** Some word drives q with counter m into an added configuration with tame steps. */
  ghost predicate CanReach(a: Mvca, added: set<(nat, nat)>, q: nat, m: nat)
    requires a.Valid()
  {
    exists w, f, k :: (f, k) in added && a.DrivesLow(q, m, w, f, k)
  }

  /** No tame run into an added configuration has fewer than n letters. */
  ghost predicate NoShorterRun(a: Mvca, added: set<(nat, nat)>, q: nat, m: nat, n: nat)
    requires a.Valid()
  {
    forall w, f, k :: (f, k) in added && a.DrivesLow(q, m, w, f, k) ==> n <= |w|
  }

  /** Every run into an added configuration is found by saturated transitions, if its steps are tame. */
  lemma {:induction false} LowRunFound(a: Mvca, keys: set<(nat, nat, nat)>, final: set<nat>, added: set<(nat, nat)>,
      q: nat, m: nat, w: Word, f: nat, k: nat)
    requires a.Valid() && Closed(a, keys) && a.DrivesLow(q, m, w, f, k) && (f, k) in added
    requires forall g, j :: (g, j) in added ==> Accepted(keys, final, g, Config(a.bound, j))
    ensures Accepted(keys, final, q, Config(a.bound, m))
    decreases |w|
  {
    if w != [] {
      var r: nat, j: nat :| a.Step(q, m, w[0], r, j) && a.Tame(m, w[0]) && a.DrivesLow(r, j, w[1..], f, k);
      LowRunFound(a, keys, final, added, r, j, w[1..], f, k);
      LowStepFound(a, keys, final, q, m, w[0], r, j);
    }
  }

  lemma LowStepFound(a: Mvca, keys: set<(nat, nat, nat)>, final: set<nat>, q: nat, m: nat, x: nat, r: nat, j: nat)
    requires a.Valid() && Closed(a, keys) && a.Step(q, m, x, r, j) && a.Tame(m, x)
    requires Accepted(keys, final, r, Config(a.bound, j))
    ensures Accepted(keys, final, q, Config(a.bound, m))
  {
    var l, d := a.Level(m), a.dir[x];
    var top, s := StackTop(l, a.bound, d), Config(a.bound, m);
    ConfigTop(a.bound, m);
    ConfigStep(a.bound, m, d);
    hide Config, StackTop;
    var e: nat :| e in final && Reads(keys, r, Config(a.bound, j), e);
    ReadsSplit(keys, r, top, s[1..], e);
    var o: nat :| Reads(keys, r, top, o) && Reads(keys, o, s[1..], e);
    assert RuleClosed(a, keys, l, q, x, r);
    ReadsStep(keys, q, s, o, e);
  }

  /** What is read up to a final state has a run of the counter automaton behind it. */
  lemma FoundRunLow(a: Mvca, origin: map<nat, Origin>, t: Transitions, q: nat, m: nat, r: nat, w: Word)
    requires a.Valid() && AllMean(a, origin, t) && q < a.states
    requires ReadsWith(t, q, Config(a.bound, m), r, w)
    requires r >= a.states && r in origin && IsEnd(a, origin[r])
    ensures a.DrivesLow(q, m, w, origin[r].state, origin[r].m)
  {
    PathMeans(a, origin, t, q, Config(a.bound, m), r, w);
    var c := Config(a.bound, origin[r].m);
    assert c[..origin[r].i] == c;
    DerivesLow(a, q, m, w, origin[r].state, origin[r].m);
  }

  /** The rule, followed by a path that reads what it leaves, is a derivation. */
  lemma RuleMeans(a: Mvca, origin: map<nat, Origin>, t: Transitions, l: nat, p: nat, x: nat, q: nat, r: nat, w: Word)
    requires a.Valid() && AllMean(a, origin, t) && (l, p, x, q) in a.delta && l + a.dir[x] >= 0
    requires ReadsWith(t, q, StackTop(l, a.bound, a.dir[x]), r, w)
    ensures Means(a, origin, p, l, r, [x] + w)
  {
    var s := StackTop(l, a.bound, a.dir[x]);
    PathMeans(a, origin, t, q, s, r, w);
    assert s + [l][1..] == s;
    assert PushStep(a, p, [l], x, q, s);
    assert ([x] + w)[0] == x && ([x] + w)[1..] == w;
  }

  lemma InsertMeans(a: Mvca, origin: map<nat, Origin>, t: Transitions, p: nat, x: nat, r: nat, w: Word)
    requires a.Valid() && AllMean(a, origin, t) && Means(a, origin, p, x, r, w)
    ensures AllMean(a, origin, t[(p, x, r) := w])
  {
    hide Means;
  }

  lemma FoundSomewhere(a: Mvca, keys: set<(nat, nat, nat)>, final: set<nat>, added: set<(nat, nat)>, q: nat, m: nat)
    requires a.Valid() && Closed(a, keys) && CanReach(a, added, q, m)
    requires forall g, j :: (g, j) in added ==> Accepted(keys, final, g, Config(a.bound, j))
    ensures Accepted(keys, final, q, Config(a.bound, m))
  {
    hide Closed, Accepted;
    var w: Word, f: nat, k: nat :| (f, k) in added && a.DrivesLow(q, m, w, f, k);
    LowRunFound(a, keys, final, added, q, m, w, f, k);
  }

  /** The stack is read from p to a final state without a letter. */
  ghost predicate AtOnce(t: Transitions, final: set<nat>, p: nat, s: Stack) {
    exists r: nat :: r in final && ReadsWith(t, p, s, r, [])
  }

  ghost predicate AllAccepted(a: Mvca, t: Transitions, final: set<nat>, added: set<(nat, nat)>) {
    forall f, k :: (f, k) in added ==> AtOnce(t, final, f, Config(a.bound, k))
  }

  lemma AcceptedMore(a: Mvca, t: Transitions, u: Transitions, final: set<nat>, final': set<nat>,
                     added: set<(nat, nat)>)
    requires AllAccepted(a, t, final, added) && Extends(t, u) && final <= final'
    ensures AllAccepted(a, u, final', added)
  {
    forall f, k | (f, k) in added
      ensures AtOnce(u, final', f, Config(a.bound, k))
    {
      var r: nat :| r in final && ReadsWith(t, f, Config(a.bound, k), r, []);
      ReadsKept(t, u, f, Config(a.bound, k), r, []);
    }
  }

  lemma AcceptedOne(a: Mvca, t: Transitions, final: set<nat>, added: set<(nat, nat)>, f: nat, k: nat, r: nat)
    requires AllAccepted(a, t, final, added) && r in final && ReadsWith(t, f, Config(a.bound, k), r, [])
    ensures AllAccepted(a, t, final, added + {(f, k)})
  {
    hide ReadsWith, Config;
    assert AtOnce(t, final, f, Config(a.bound, k));
    hide AtOnce;
  }

  lemma AcceptedAtOnce(a: Mvca, t: Transitions, final: set<nat>, added: set<(nat, nat)>)
    requires AllAccepted(a, t, final, added)
    ensures forall f, k :: (f, k) in added ==> Accepted(t.Keys, final, f, Config(a.bound, k))
  {
    forall f, k | (f, k) in added
      ensures Accepted(t.Keys, final, f, Config(a.bound, k))
    {
      var r: nat :| r in final && ReadsWith(t, f, Config(a.bound, k), r, []);
      ReadsForget(t, f, Config(a.bound, k), r, []);
    }
  }

  // ---- the transitions at the start ----

  ghost predicate Symbols(s: Stack) {
    forall i :: 0 <= i < |s| ==> s[i] >= 0
  }

  /** A path from p over the new states n, n + 1, .. that reads s. */
  ghost function PathTable(s: Stack, p: nat, n: nat): Transitions
    requires Symbols(s)
  {
    if s == [] then map[]
    else PathTable(s[..|s| - 1], p, n)[(if |s| == 1 then p else n + |s| - 2, s[|s| - 1], n + |s| - 1) := []]
  }

  /** u is t with the first i symbols of the path for s; the path has come to q, and there are count states. */
  ghost predicate BehindPath(t: Transitions, u: Transitions, s: Stack, p: nat, n: nat, i: nat, q: nat, count: nat) {
    && Symbols(s) && i <= |s| && count == n + i && q == (if i == 0 then p else n + i - 1)
    && u == t + PathTable(s[..i], p, n) && Extends(t, u)
  }

  lemma NoPath(t: Transitions, s: Stack, p: nat, n: nat)
    requires Symbols(s)
    ensures BehindPath(t, t, s, p, n, 0, p, n)
  {
    assert s[..0] == [];
    assert t + map[] == t;
  }

  lemma MorePath(t: Transitions, u: Transitions, s: Stack, p: nat, n: nat, i: nat, q: nat, count: nat)
    requires BehindPath(t, u, s, p, n, i, q, count) && i < |s|
    ensures s[i] >= 0
    ensures (q, s[i], count) !in u ==>
              BehindPath(t, u[(q, s[i], count) := []], s, p, n, i + 1, count, count + 1)
  {
    assert s[..i + 1][..i] == s[..i];
  }

  lemma WholePath(t: Transitions, u: Transitions, s: Stack, p: nat, n: nat, i: nat, q: nat, count: nat)
    requires BehindPath(t, u, s, p, n, i, q, count) && i == |s| > 0
    ensures u == t + PathTable(s, p, n) && Extends(t, u) && count == n + |s| && q == count - 1
  {
    assert s[..i] == s;
  }

  /** The number of states after the configurations of the states in to below n have been added. */
  ghost function StartCount(a: Mvca, to: set<nat>, k: nat, n: nat): (c: nat)
    ensures c >= a.states
  {
    if n == 0 then a.states
    else StartCount(a, to, k, n - 1) + if n - 1 in to then |Config(a.bound, k)| else 0
  }

  ghost function StartEnds(a: Mvca, to: set<nat>, k: nat, n: nat): set<nat> {
    if n == 0 then {}
    else StartEnds(a, to, k, n - 1) + if n - 1 in to then {StartCount(a, to, k, n) - 1} else {}
  }

  ghost function StartTable(a: Mvca, to: set<nat>, k: nat, n: nat): Transitions {
    if n == 0 then map[]
    else if n - 1 in to then
      ConfigTop(a.bound, k);
      StartTable(a, to, k, n - 1) + PathTable(Config(a.bound, k), n - 1, StartCount(a, to, k, n - 1))
    else StartTable(a, to, k, n - 1)
  }

  lemma {:induction false} PathTableEmpty(s: Stack, p: nat, n: nat)
    requires Symbols(s)
    ensures forall e :: e in PathTable(s, p, n) ==> PathTable(s, p, n)[e] == []
  {
    if s != [] {
      PathTableEmpty(s[..|s| - 1], p, n);
    }
  }

  lemma {:induction false} StartTableEmpty(a: Mvca, to: set<nat>, k: nat, n: nat)
    ensures forall e :: e in StartTable(a, to, k, n) ==> StartTable(a, to, k, n)[e] == []
  {
    if n > 0 {
      StartTableEmpty(a, to, k, n - 1);
      ConfigTop(a.bound, k);
      PathTableEmpty(Config(a.bound, k), n - 1, StartCount(a, to, k, n - 1));
    }
  }

  // ---- one application of a rule ----

  /** The letter x and a shortest word that reads s from q to r. */
  ghost predicate Yields(t: Transitions, x: nat, q: nat, s: Stack, r: nat, w: Word) {
    && w != [] && w[0] == x && ReadsWith(t, q, s, r, w[1..])
    && forall v :: ReadsWith(t, q, s, r, v) ==> |w| <= 1 + |v|
  }

  /** t1 is t with what the rule yields for the states below n; what was there is kept. */
  ghost predicate RuleApplied(a: Mvca, t: Transitions, t1: Transitions, l: nat, p: nat, x: nat, q: nat, n: nat)
    requires a.Valid() && (l, p, x, q) in a.delta && l + a.dir[x] >= 0
  {
    var s := StackTop(l, a.bound, a.dir[x]);
    && (forall k :: k in t ==> k in t1 && t1[k] == t[k])
    && (forall k :: k in t1 && k !in t ==> k.0 == p && k.1 == l && k.2 < n && Yields(t, x, q, s, k.2, t1[k]))
    && (forall r: nat :: r < n && Reads(t.Keys, q, s, r) ==> (p, l, r) in t1)
  }

  lemma NothingApplied(a: Mvca, t: Transitions, l: nat, p: nat, x: nat, q: nat)
    requires a.Valid() && (l, p, x, q) in a.delta && l + a.dir[x] >= 0
    ensures RuleApplied(a, t, t, l, p, x, q, 0)
  {
  }

  lemma AppliedKeeps(a: Mvca, t: Transitions, t1: Transitions, l: nat, p: nat, x: nat, q: nat, n: nat)
    requires a.Valid() && (l, p, x, q) in a.delta && l + a.dir[x] >= 0 && RuleApplied(a, t, t1, l, p, x, q, n)
    ensures t.Keys <= t1.Keys && forall k :: k in t ==> k in t1 && t1[k] == t[k]
  {
  }

  lemma OneApplied(a: Mvca, t: Transitions, t1: Transitions, l: nat, p: nat, x: nat, q: nat, n: nat, w: Word)
    requires a.Valid() && (l, p, x, q) in a.delta && l + a.dir[x] >= 0 && RuleApplied(a, t, t1, l, p, x, q, n)
    requires (p, l, n) !in t1 && Yields(t, x, q, StackTop(l, a.bound, a.dir[x]), n, w)
    ensures RuleApplied(a, t, t1[(p, l, n) := w], l, p, x, q, n + 1)
    ensures t1[(p, l, n) := w] != t
  {
    assert (p, l, n) in t1[(p, l, n) := w];
  }

  lemma NoneApplied(a: Mvca, t: Transitions, t1: Transitions, l: nat, p: nat, x: nat, q: nat, n: nat)
    requires a.Valid() && (l, p, x, q) in a.delta && l + a.dir[x] >= 0 && RuleApplied(a, t, t1, l, p, x, q, n)
    requires (p, l, n) in t1 || !Reads(t.Keys, q, StackTop(l, a.bound, a.dir[x]), n)
    ensures RuleApplied(a, t, t1, l, p, x, q, n + 1)
  {
  }

  lemma AllApplied(a: Mvca, t: Transitions, t1: Transitions, l: nat, p: nat, x: nat, q: nat, n: nat)
    requires a.Valid() && (l, p, x, q) in a.delta && l + a.dir[x] >= 0 && RuleApplied(a, t, t1, l, p, x, q, n)
    requires forall r: nat :: Reads(t.Keys, q, StackTop(l, a.bound, a.dir[x]), r) ==> r < n
    ensures t1 == t ==> RuleClosed(a, t.Keys, l, p, x, q)
    ensures t1 != t ==> t.Keys < t1.Keys
  {
    if t.Keys == t1.Keys {
      assert t == t1;
    }
  }

  // ---- all rules once ----

  /** The lexicographic order of level, state, letter and next state. */
  ghost predicate Before(r: Rule, s: Rule) {
    || r.0 < s.0
    || (r.0 == s.0 && r.1 < s.1)
    || (r.0 == s.0 && r.1 == s.1 && r.2 < s.2)
    || (r.0 == s.0 && r.1 == s.1 && r.2 == s.2 && r.3 < s.3)
  }

  ghost predicate InOrder(rules: seq<Rule>) {
    forall i, j :: 0 <= i < j < |rules| ==> Before(rules[i], rules[j])
  }

  /** A rule that does not count below 0. */
  ghost predicate Due(a: Mvca, r: Rule)
    requires a.Valid()
  {
    r in a.delta && r.0 + a.dir[r.2] >= 0
  }

  /** The rules are applied one after the other, with the tables before, between and behind them. */
  ghost predicate Applied(a: Mvca, rules: seq<Rule>, tables: seq<Transitions>, n: nat)
    requires a.Valid()
  {
    && |tables| == |rules| + 1
    && forall i :: 0 <= i < |rules| ==>
         Due(a, rules[i])
         && RuleApplied(a, tables[i], tables[i + 1], rules[i].0, rules[i].1, rules[i].2, rules[i].3, n)
  }

  ghost predicate Leads(a: Mvca, t: Transitions, u: Transitions, n: nat, rules: seq<Rule>, tables: seq<Transitions>)
    requires a.Valid()
  {
    Applied(a, rules, tables, n) && InOrder(rules) && tables[0] == t && tables[|rules|] == u
  }

  /** u is t after one pass: all rules, in lexicographic order, for transitions to the states below n. */
  ghost predicate PassDone(a: Mvca, t: Transitions, u: Transitions, n: nat)
    requires a.Valid()
  {
    exists rules, tables :: Leads(a, t, u, n, rules, tables) && forall r :: r in rules <==> Due(a, r)
  }

  /** The same for the rules before end. */
  ghost predicate RulesDone(a: Mvca, t: Transitions, u: Transitions, n: nat, end: Rule)
    requires a.Valid()
  {
    exists rules, tables ::
      Leads(a, t, u, n, rules, tables) && forall r :: r in rules <==> Due(a, r) && Before(r, end)
  }

  /** u is t after i passes over all rules. */
  ghost predicate Passes(a: Mvca, t: Transitions, u: Transitions, n: nat, i: nat)
    requires a.Valid()
    decreases i
  {
    if i == 0 then t == u
    else
      var j := i - 1;
      exists v :: Passes(a, t, v, n, j) && PassDone(a, v, u, n)
  }

  /** u is t after some passes, at least one. */
  ghost predicate Saturated(a: Mvca, t: Transitions, u: Transitions, n: nat)
    requires a.Valid()
  {
    exists i: nat :: i > 0 && Passes(a, t, u, n, i)
  }

  lemma NothingDone(a: Mvca, t: Transitions, n: nat)
    requires a.Valid()
    ensures RulesDone(a, t, t, n, (0, 0, 0, 0)) && Passes(a, t, t, n, 0)
  {
    assert Leads(a, t, t, n, [], [t]);
  }

  /** The next rule, if there is one at this place. */
  lemma RuleDone(a: Mvca, t: Transitions, v: Transitions, u: Transitions, n: nat, l: nat, p: nat, x: nat, q: nat)
    requires a.Valid() && RulesDone(a, t, v, n, (l, p, x, q)) && x < a.letters && l + a.dir[x] >= 0
    requires if (l, p, x, q) in a.delta then RuleApplied(a, v, u, l, p, x, q, n) else v == u
    ensures RulesDone(a, t, u, n, (l, p, x, q + 1))
  {
    var end: Rule := (l, p, x, q);
    var rules: seq<Rule>, tables: seq<Transitions> :|
      Leads(a, t, v, n, rules, tables) && forall r :: r in rules <==> Due(a, r) && Before(r, end);
    if end in a.delta {
      OneMoreRule(a, t, v, u, n, rules, tables, end);
      var more := rules + [end];
      forall r
        ensures r in more <==> Due(a, r) && Before(r, (l, p, x, q + 1))
      {
        assert r in more <==> r in rules || r == end;
      }
    } else {
      forall r
        ensures r in rules <==> Due(a, r) && Before(r, (l, p, x, q + 1))
      {
        assert r in rules <==> Due(a, r) && Before(r, end);
      }
    }
  }

  lemma OneMoreRule(a: Mvca, t: Transitions, v: Transitions, u: Transitions, n: nat, rules: seq<Rule>,
                    tables: seq<Transitions>, end: Rule)
    requires a.Valid() && Leads(a, t, v, n, rules, tables) && Due(a, end)
    requires RuleApplied(a, v, u, end.0, end.1, end.2, end.3, n)
    requires forall r :: r in rules ==> Before(r, end)
    ensures Leads(a, t, u, n, rules + [end], tables + [u])
  {
    hide RuleApplied;
    var more, after := rules + [end], tables + [u];
    forall i | 0 <= i < |more|
      ensures Due(a, more[i])
      ensures RuleApplied(a, after[i], after[i + 1], more[i].0, more[i].1, more[i].2, more[i].3, n)
    {
      if i < |rules| {
        assert more[i] == rules[i] && after[i] == tables[i] && after[i + 1] == tables[i + 1];
      }
    }
    forall i, j | 0 <= i < j < |more|
      ensures Before(more[i], more[j])
    {
      assert more[i] == rules[i] && rules[i] in rules;
    }
  }

  /** Between the two places there is no rule. */
  lemma NoRuleBetween(a: Mvca, t: Transitions, u: Transitions, n: nat, end: Rule, end': Rule)
    requires a.Valid() && RulesDone(a, t, u, n, end)
    requires forall r :: Due(a, r) ==> (Before(r, end) <==> Before(r, end'))
    ensures RulesDone(a, t, u, n, end')
  {
    var rules: seq<Rule>, tables: seq<Transitions> :|
      Leads(a, t, u, n, rules, tables) && forall r :: r in rules <==> Due(a, r) && Before(r, end);
    assert forall r :: r in rules <==> Due(a, r) && Before(r, end');
  }

  lemma LetterOver(a: Mvca, t: Transitions, u: Transitions, n: nat, l: nat, p: nat, x: nat)
    requires a.Valid() && x < a.letters
    requires RulesDone(a, t, u, n, (l, p, x, if l + a.dir[x] < 0 then 0 else a.states))
    ensures RulesDone(a, t, u, n, (l, p, x + 1, 0))
  {
    NoRuleBetween(a, t, u, n, (l, p, x, if l + a.dir[x] < 0 then 0 else a.states), (l, p, x + 1, 0));
  }

  lemma StateOver(a: Mvca, t: Transitions, u: Transitions, n: nat, l: nat, p: nat)
    requires a.Valid() && RulesDone(a, t, u, n, (l, p, a.letters, 0))
    ensures RulesDone(a, t, u, n, (l, p + 1, 0, 0))
  {
    NoRuleBetween(a, t, u, n, (l, p, a.letters, 0), (l, p + 1, 0, 0));
  }

  lemma LevelOver(a: Mvca, t: Transitions, u: Transitions, n: nat, l: nat)
    requires a.Valid() && RulesDone(a, t, u, n, (l, a.states, 0, 0))
    ensures RulesDone(a, t, u, n, (l + 1, 0, 0, 0))
  {
    NoRuleBetween(a, t, u, n, (l, a.states, 0, 0), (l + 1, 0, 0, 0));
  }

  lemma PassOver(a: Mvca, t: Transitions, u: Transitions, n: nat)
    requires a.Valid() && RulesDone(a, t, u, n, (a.bound + 1, 0, 0, 0))
    ensures PassDone(a, t, u, n)
  {
    var end: Rule := (a.bound + 1, 0, 0, 0);
    var rules: seq<Rule>, tables: seq<Transitions> :|
      Leads(a, t, u, n, rules, tables) && forall r :: r in rules <==> Due(a, r) && Before(r, end);
    assert forall r :: Due(a, r) ==> Before(r, end);
  }

  lemma PassesNext(a: Mvca, t: Transitions, v: Transitions, u: Transitions, n: nat, i: nat)
    requires a.Valid() && Passes(a, t, v, n, i) && PassDone(a, v, u, n)
    ensures Passes(a, t, u, n, i + 1)
  {
  }

  /** There is only one order. */
  lemma {:induction false} OneOrder(rules: seq<Rule>, other: seq<Rule>)
    requires InOrder(rules) && InOrder(other) && forall r :: r in rules <==> r in other
    ensures rules == other
    decreases |rules|
  {
    assert |other| > 0 ==> other[0] in rules;
    assert |rules| > 0 ==> rules[0] in other;
    if rules != [] {
      assert rules[0] in other;
      var i :| 0 <= i < |other| && other[i] == rules[0];
      assert other[0] in rules;
      var j :| 0 <= j < |rules| && rules[j] == other[0];
      assert rules[0] == other[0];
      forall r
        ensures r in rules[1..] <==> r in other[1..]
      {
        RestInOrder(rules, r);
        RestInOrder(other, r);
      }
      OneOrder(rules[1..], other[1..]);
      assert rules == [rules[0]] + rules[1..] && other == [other[0]] + other[1..];
    }
  }

  lemma RestInOrder(rules: seq<Rule>, r: Rule)
    requires InOrder(rules) && rules != []
    ensures r in rules[1..] <==> r in rules && r != rules[0]
  {
    if r in rules[1..] {
      var i :| 0 <= i < |rules| - 1 && rules[1..][i] == r;
      assert Before(rules[0], rules[i + 1]);
    }
    if r in rules && r != rules[0] {
      var i :| 0 <= i < |rules| && rules[i] == r;
      assert rules[1..][i - 1] == r;
    }
  }

  /** Every state in current is reached with its word. */
  ghost predicate WordsOk(t: Transitions, current: map<nat, Word>, from: nat, s: Stack) {
    forall p :: p in current ==> ReadsWith(t, from, s, p, current[p])
  }

  /** No path beats the words in current. */
  ghost predicate Least(t: Transitions, current: map<nat, Word>, from: nat, s: Stack) {
    forall p, w :: ReadsWith(t, from, s, p, w) ==> p in current && |current[p]| <= |w|
  }

  lemma LeastNext(t: Transitions, current: map<nat, Word>, next: map<nat, Word>, from: nat, s: Stack, x: nat)
    requires Least(t, current, from, s)
    requires forall q, r :: q in current && (q, x, r) in t ==> r in next && |next[r]| <= |current[q]| + |t[(q, x, r)]|
    ensures Least(t, next, from, s + [x])
  {
    forall r: nat, w: Word | ReadsWith(t, from, s + [x], r, w)
      ensures r in next && |next[r]| <= |w|
    {
      ReadsUnsnoc(t, from, s, x, r, w);
      var q: nat, u: Word :| ReadsWith(t, from, s, q, u) && (q, x, r) in t && w == u + t[(q, x, r)];
    }
  }

  lemma {:induction false} ReadsKept(t: Transitions, t': Transitions, p: nat, s: Stack, r: nat, w: Word)
    requires ReadsWith(t, p, s, r, w) && forall k :: k in t ==> k in t' && t'[k] == t[k]
    ensures ReadsWith(t', p, s, r, w)
    decreases |s|
  {
    if s != [] {
      var q: nat, v: Word :| (p, s[0], q) in t && w == t[(p, s[0], q)] + v && ReadsWith(t, q, s[1..], r, v);
      ReadsKept(t, t', q, s[1..], r, v);
    }
  }
}
