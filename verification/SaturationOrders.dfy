/** The order in which transitions are added: when the words that are kept are shortest whatever the order is.

    A transition that is there is never replaced, so the word it keeps is that of the first way it was found. The ways
    are trees of rules; one in which no transition is used on the way to itself is found in some order. */
module SaturationOrders {
  import opened Automata
  import opened CounterAutomata
  import opened Saturation

  type Key = (nat, nat, nat)

  /** A transition that is there from the start, or one that a rule adds over a path of transitions. */
  datatype Tree = Leaf(key: Key) | Node(key: Key, x: nat, q: nat, path: seq<Tree>)

  /** The number of letters of the word. */
  ghost function Size(t: Tree): nat
    decreases t
  {
    match t
    case Leaf(_) => 0
    case Node(_, _, _, path) => 1 + Sizes(path)
  }

  ghost function Sizes(path: seq<Tree>): nat
    decreases path
  {
    if path == [] then 0 else Size(path[0]) + Sizes(path[1..])
  }

  ghost function Keys(t: Tree): set<Key>
    decreases t
  {
    match t
    case Leaf(k) => {k}
    case Node(k, _, _, path) => {k} + KeysOf(path)
  }

  ghost function KeysOf(path: seq<Tree>): set<Key>
    decreases path
  {
    if path == [] then {} else Keys(path[0]) + KeysOf(path[1..])
  }

  /** The transitions at the roots read s from q to o. */
  ghost predicate Chain(path: seq<Tree>, q: nat, s: Stack, o: nat)
    decreases |s|
  {
    |path| == |s| &&
    if s == [] then q == o
    else path[0].key.0 == q && path[0].key.1 == s[0] && Chain(path[1..], path[0].key.2, s[1..], o)
  }

  ghost predicate IsTree(a: Mvca, start: set<Key>, t: Tree)
    requires a.Valid()
    decreases t
  {
    match t
    case Leaf(k) => k in start
    case Node(k, x, q, path) =>
      && k !in start && (k.1, k.0, x, q) in a.delta && k.1 + a.dir[x] >= 0
      && Chain(path, q, StackTop(k.1, a.bound, a.dir[x]), k.2) && AreTrees(a, start, path)
  }

  ghost predicate AreTrees(a: Mvca, start: set<Key>, path: seq<Tree>)
    requires a.Valid()
    decreases path
  {
    path == [] || (IsTree(a, start, path[0]) && AreTrees(a, start, path[1..]))
  }

  /** No transition is used on the way to itself. */
  ghost predicate Simple(t: Tree)
    decreases t
  {
    match t
    case Leaf(_) => true
    case Node(k, _, _, path) => k !in KeysOf(path) && AllSimple(path)
  }

  ghost predicate AllSimple(path: seq<Tree>)
    decreases path
  {
    path == [] || (Simple(path[0]) && AllSimple(path[1..]))
  }

  /** No way to the same transition is shorter. */
  ghost predicate Shortest(a: Mvca, start: set<Key>, d: Tree)
    requires a.Valid()
  {
    forall e :: IsTree(a, start, e) && e.key == d.key ==> Size(d) <= Size(e)
  }

  /** The condition on the rules and the transitions at the start. */
  ghost predicate SimpleShortest(a: Mvca, start: set<Key>)
    requires a.Valid()
  {
    forall d :: IsTree(a, start, d) && Simple(d) ==> Shortest(a, start, d)
  }

  // ---- orders ----

  /** A rule adds one transition that is not there, over some path that is there. */
  ghost predicate InsertedBy(a: Mvca, t: Transitions, u: Transitions, l: nat, p: nat, x: nat, q: nat, o: nat, w: Word)
    requires a.Valid()
  {
    && (l, p, x, q) in a.delta && l + a.dir[x] >= 0 && (p, l, o) !in t
    && ReadsWith(t, q, StackTop(l, a.bound, a.dir[x]), o, w) && u == t[(p, l, o) := [x] + w]
  }

  ghost predicate Inserted(a: Mvca, t: Transitions, u: Transitions)
    requires a.Valid()
  {
    exists l, p, x, q, o, w :: InsertedBy(a, t, u, l, p, x, q, o, w)
  }

  /** The transitions u are reached from t in some order, by n additions. */
  ghost predicate Reached(a: Mvca, t: Transitions, u: Transitions, n: nat)
    requires a.Valid()
    decreases n
  {
    if n == 0 then t == u else exists v :: Inserted(a, t, v) && Reached(a, v, u, n - 1)
  }

  lemma {:induction false} ReachedExtends(a: Mvca, t: Transitions, u: Transitions, n: nat)
    requires a.Valid() && Reached(a, t, u, n)
    ensures Extends(t, u)
    decreases n
  {
    if n > 0 {
      var v :| Inserted(a, t, v) && Reached(a, v, u, n - 1);
      ReachedExtends(a, v, u, n - 1);
    }
  }

  lemma {:induction false} ReachedJoin(a: Mvca, t: Transitions, u: Transitions, n: nat, v: Transitions, m: nat)
    requires a.Valid() && Reached(a, t, u, n) && Reached(a, u, v, m)
    ensures Reached(a, t, v, n + m)
    decreases n
  {
    hide Inserted;
    if n > 0 {
      var w :| Inserted(a, t, w) && Reached(a, w, u, n - 1);
      ReachedJoin(a, w, u, n - 1, v, m);
    }
  }

  lemma ReachedOne(a: Mvca, t: Transitions, u: Transitions, l: nat, p: nat, x: nat, q: nat, o: nat, w: Word)
    requires a.Valid() && InsertedBy(a, t, u, l, p, x, q, o, w)
    ensures Reached(a, t, u, 1)
  {
    assert Inserted(a, t, u) && Reached(a, u, u, 0);
  }

  /** Transitions that are there from the start have no word. */
  ghost predicate Starts(start: set<Key>, t: Transitions) {
    forall k :: k in start ==> k in t && t[k] == []
  }

  /** A simple tree of transitions that are there is behind the word of k. */
  ghost predicate TreeFor(a: Mvca, start: set<Key>, t: Transitions, k: Key, d: Tree)
    requires a.Valid() && k in t
  {
    IsTree(a, start, d) && Simple(d) && d.key == k && Size(d) == |t[k]| && Keys(d) <= t.Keys
  }

  ghost predicate Grounded(a: Mvca, start: set<Key>, t: Transitions)
    requires a.Valid()
  {
    Starts(start, t) && forall k :: k in t ==> exists d :: TreeFor(a, start, t, k, d)
  }

  lemma GroundedStart(a: Mvca, t: Transitions)
    requires a.Valid() && forall k :: k in t ==> t[k] == []
    ensures Grounded(a, t.Keys, t)
  {
    forall k | k in t
      ensures exists d :: TreeFor(a, t.Keys, t, k, d)
    {
      assert TreeFor(a, t.Keys, t, k, Leaf(k));
    }
  }

  /** The trees behind the transitions of a path. */
  lemma {:induction false} PathTrees(a: Mvca, start: set<Key>, t: Transitions, q: nat, s: Stack, o: nat, w: Word)
      returns (path: seq<Tree>)
    requires a.Valid() && Grounded(a, start, t) && ReadsWith(t, q, s, o, w)
    ensures Chain(path, q, s, o) && AreTrees(a, start, path) && AllSimple(path)
    ensures Sizes(path) == |w| && KeysOf(path) <= t.Keys
    decreases |s|
  {
    if s == [] {
      path := [];
    } else {
      var r: nat, v: Word :| (q, s[0], r) in t && w == t[(q, s[0], r)] + v && ReadsWith(t, r, s[1..], o, v);
      var rest := PathTrees(a, start, t, r, s[1..], o, v);
      var d :| TreeFor(a, start, t, (q, s[0], r), d);
      path := [d] + rest;
      assert path[0] == d && path[1..] == rest;
    }
  }

  lemma TreeKept(a: Mvca, start: set<Key>, t: Transitions, u: Transitions, k: Key)
    requires a.Valid() && Extends(t, u) && k in t && exists d :: TreeFor(a, start, t, k, d)
    ensures exists d :: TreeFor(a, start, u, k, d)
  {
    var d :| TreeFor(a, start, t, k, d);
    assert TreeFor(a, start, u, k, d);
  }

  lemma GroundedStep(a: Mvca, start: set<Key>, t: Transitions, u: Transitions)
    requires a.Valid() && Grounded(a, start, t) && Inserted(a, t, u)
    ensures Grounded(a, start, u)
  {
    hide TreeFor;
    var l, p, x, q, o, w :| InsertedBy(a, t, u, l, p, x, q, o, w);
    forall k | k in u
      ensures exists d :: TreeFor(a, start, u, k, d)
    {
      if k in t {
        TreeKept(a, start, t, u, k);
      } else {
        NewTree(a, start, t, u, l, p, x, q, o, w);
      }
    }
  }

  lemma NewTree(a: Mvca, start: set<Key>, t: Transitions, u: Transitions, l: nat, p: nat, x: nat, q: nat, o: nat,
                w: Word)
    requires a.Valid() && Grounded(a, start, t) && InsertedBy(a, t, u, l, p, x, q, o, w)
    ensures exists d :: TreeFor(a, start, u, (p, l, o), d)
  {
    var path := PathTrees(a, start, t, q, StackTop(l, a.bound, a.dir[x]), o, w);
    assert TreeFor(a, start, u, (p, l, o), Node((p, l, o), x, q, path));
  }

  lemma {:induction false} ReachedGrounded(a: Mvca, start: set<Key>, t: Transitions, u: Transitions, n: nat)
    requires a.Valid() && Grounded(a, start, t) && Reached(a, t, u, n)
    ensures Grounded(a, start, u)
    decreases n
  {
    hide Grounded;
    if n > 0 {
      var v :| Inserted(a, t, v) && Reached(a, v, u, n - 1);
      GroundedStep(a, start, t, v);
      ReachedGrounded(a, start, v, u, n - 1);
    }
  }

  // ---- the words that are kept ----

  /** No rule finds a shorter word for a transition that is there. */
  ghost predicate NeverShorter(a: Mvca, t: Transitions)
    requires a.Valid()
  {
    forall l: nat, p: nat, x: nat, q: nat, o: nat, v: Word ::
      Found(a, t, l, p, x, q, o, v) && (p, l, o) in t ==> |t[(p, l, o)]| <= 1 + |v|
  }

  /** The rule finds a way to o with the word v behind its letter. */
  ghost predicate Found(a: Mvca, t: Transitions, l: nat, p: nat, x: nat, q: nat, o: nat, v: Word)
    requires a.Valid()
  {
    (l, p, x, q) in a.delta && l + a.dir[x] >= 0 && ReadsWith(t, q, StackTop(l, a.bound, a.dir[x]), o, v)
  }

  /** Where no rule finds a shorter word the words are as short as any tree of transitions that are there. */
  lemma {:induction false} TreeLeast(a: Mvca, start: set<Key>, t: Transitions, d: Tree)
    requires a.Valid() && NeverShorter(a, t) && Starts(start, t) && IsTree(a, start, d) && Keys(d) <= t.Keys
    ensures d.key in t && |t[d.key]| <= Size(d)
    decreases d, 0
  {
    match d
    case Leaf(k) =>
    case Node(k, x, q, path) =>
      var v := PathLeast(a, start, t, path, q, StackTop(k.1, a.bound, a.dir[x]), k.2);
      assert Found(a, t, k.1, k.0, x, q, k.2, v);
  }

  lemma {:induction false} PathLeast(a: Mvca, start: set<Key>, t: Transitions, path: seq<Tree>, q: nat, s: Stack,
                                     o: nat) returns (w: Word)
    requires a.Valid() && NeverShorter(a, t) && Starts(start, t) && AreTrees(a, start, path) && KeysOf(path) <= t.Keys
    requires Chain(path, q, s, o)
    ensures ReadsWith(t, q, s, o, w) && |w| <= Sizes(path)
    decreases path
  {
    if path == [] {
      w := [];
    } else {
      TreeLeast(a, start, t, path[0]);
      var k := path[0].key;
      var v := PathLeast(a, start, t, path[1..], k.2, s[1..], o);
      ReadsWithStep(t, q, s, k.2, o, v);
      w := t[k] + v;
    }
  }

  /** Under the condition no order hides a shorter word. */
  lemma ConditionEnough(a: Mvca, start: set<Key>, t: Transitions)
    requires a.Valid() && SimpleShortest(a, start) && Grounded(a, start, t)
    ensures NeverShorter(a, t)
  {
    forall l: nat, p: nat, x: nat, q: nat, o: nat, v: Word | Found(a, t, l, p, x, q, o, v) && (p, l, o) in t
      ensures |t[(p, l, o)]| <= 1 + |v|
    {
      var k: Key := (p, l, o);
      var d :| TreeFor(a, start, t, k, d);
      if k !in start {
        var path := PathTrees(a, start, t, q, StackTop(l, a.bound, a.dir[x]), o, v);
        var e := Node(k, x, q, path);
        assert IsTree(a, start, e) && e.key == d.key;
        assert Shortest(a, start, d);
      }
    }
  }

  // ---- every simple tree is found in some order ----

  lemma {:induction false} ChainReads(t: Transitions, path: seq<Tree>, q: nat, s: Stack, o: nat) returns (w: Word)
    requires Chain(path, q, s, o) && KeysOf(path) <= t.Keys && forall i :: 0 <= i < |s| ==> s[i] >= 0
    ensures ReadsWith(t, q, s, o, w)
    decreases |s|
  {
    if s == [] {
      w := [];
    } else {
      var k := path[0].key;
      RootKey(path[0]);
      var v := ChainReads(t, path[1..], k.2, s[1..], o);
      ReadsWithStep(t, q, s, k.2, o, v);
      w := t[k] + v;
    }
  }

  lemma RootKey(d: Tree)
    ensures d.key in Keys(d)
  {
  }

  lemma NoneReached(a: Mvca, t: Transitions)
    requires a.Valid()
    ensures Reached(a, t, t, 0)
  {
  }

  lemma ExtendsJoin(t: Transitions, u: Transitions, v: Transitions)
    requires Extends(t, u) && Extends(u, v)
    ensures Extends(t, v)
  {
  }

  /** The transition at the root, added over its path. */
  lemma AddRoot(a: Mvca, start: set<Key>, t: Transitions, u: Transitions, n: nat, d: Tree, w: Word)
      returns (v: Transitions)
    requires a.Valid() && IsTree(a, start, d) && d.Node? && Reached(a, t, u, n) && Extends(t, u) && d.key !in u
    requires ReadsWith(u, d.q, StackTop(d.key.1, a.bound, a.dir[d.x]), d.key.2, w)
    ensures v == u[d.key := [d.x] + w] && Reached(a, t, v, n + 1) && Extends(t, v)
  {
    hide Reached, ReadsWith, StackTop, Chain, AreTrees;
    v := u[d.key := [d.x] + w];
    assert InsertedBy(a, u, v, d.key.1, d.key.0, d.x, d.q, d.key.2, w);
    ReachedOne(a, u, v, d.key.1, d.key.0, d.x, d.q, d.key.2, w);
    ReachedJoin(a, t, u, n, v, 1);
  }

  /** Add the transitions of a tree, those of its path first. */
  lemma {:induction false} Grow(a: Mvca, start: set<Key>, t: Transitions, d: Tree) returns (u: Transitions, n: nat)
    requires a.Valid() && Starts(start, t) && IsTree(a, start, d)
    ensures Reached(a, t, u, n) && Extends(t, u) && u.Keys == t.Keys + Keys(d)
    decreases d, 0
  {
    hide Reached, ReadsWith, StackTop, Chain;
    match d
    case Leaf(k) =>
      NoneReached(a, t);
      u, n := t, 0;
    case Node(k, x, q, path) =>
      u, n := GrowPath(a, start, t, path);
      if k !in u {
        StackTopSymbols(k.1, a.bound, a.dir[x]);
        var w := ChainReads(u, path, q, StackTop(k.1, a.bound, a.dir[x]), k.2);
        u := AddRoot(a, start, t, u, n, d, w);
        n := n + 1;
      }
  }

  lemma {:induction false} GrowPath(a: Mvca, start: set<Key>, t: Transitions, path: seq<Tree>)
      returns (u: Transitions, n: nat)
    requires a.Valid() && Starts(start, t) && AreTrees(a, start, path)
    ensures Reached(a, t, u, n) && Extends(t, u) && u.Keys == t.Keys + KeysOf(path)
    decreases path
  {
    hide Reached, IsTree, Keys;
    if path == [] {
      NoneReached(a, t);
      u, n := t, 0;
    } else {
      var v, i := Grow(a, start, t, path[0]);
      var w, j := GrowPath(a, start, v, path[1..]);
      ReachedJoin(a, t, v, i, w, j);
      ExtendsJoin(t, v, w);
      u, n := w, i + j;
    }
  }

  /** In no order a rule finds a shorter word for a transition that is there. */
  ghost predicate NeverInAnyOrder(a: Mvca, t: Transitions)
    requires a.Valid()
  {
    forall u, n :: Reached(a, t, u, n) ==> NeverShorter(a, u)
  }

  ghost predicate AllShortest(a: Mvca, start: set<Key>, path: seq<Tree>)
    requires a.Valid()
  {
    forall i :: 0 <= i < |path| ==> Shortest(a, start, path[i])
  }

  /** Words that are never too long are as long as the shortest trees. */
  lemma {:induction false} PathExact(a: Mvca, start: set<Key>, t: Transitions, path: seq<Tree>, q: nat, s: Stack,
                                     o: nat) returns (w: Word)
    requires a.Valid() && NeverShorter(a, t) && Grounded(a, start, t) && AreTrees(a, start, path)
    requires KeysOf(path) <= t.Keys && Chain(path, q, s, o) && AllShortest(a, start, path)
    ensures ReadsWith(t, q, s, o, w) && |w| == Sizes(path)
    decreases path
  {
    if path == [] {
      w := [];
    } else {
      TreeLeast(a, start, t, path[0]);
      var k := path[0].key;
      var d :| TreeFor(a, start, t, k, d);
      assert Shortest(a, start, path[0]);
      var v := PathExact(a, start, t, path[1..], k.2, s[1..], o);
      ReadsWithStep(t, q, s, k.2, o, v);
      w := t[k] + v;
    }
  }

  /** A transition that gets the word of the tree d is compared with all other trees. */
  lemma RootShortest(a: Mvca, t: Transitions, start: set<Key>, u: Transitions, n: nat, d: Tree, e: Tree)
    requires a.Valid() && NeverInAnyOrder(a, t) && Starts(start, t) && Reached(a, t, u, n)
    requires d.key in u && |u[d.key]| == Size(d) && IsTree(a, start, e) && e.key == d.key
    ensures Size(d) <= Size(e)
  {
    ReachedExtends(a, t, u, n);
    var v, m := Grow(a, start, u, e);
    ReachedJoin(a, t, u, n, v, m);
    TreeLeast(a, start, v, e);
  }

  lemma {:induction false} SimpleIsShortest(a: Mvca, t: Transitions, start: set<Key>, d: Tree)
    requires a.Valid() && NeverInAnyOrder(a, t) && Grounded(a, start, t) && start == t.Keys
    requires IsTree(a, start, d) && Simple(d)
    ensures Shortest(a, start, d)
    decreases d, 0
  {
    hide Reached, NeverInAnyOrder, Chain, TreeFor;
    match d
    case Leaf(k) =>
    case Node(k, x, q, path) =>
      PathShortest(a, t, start, path);
      var v, n := InsertSimple(a, t, start, d);
      forall e | IsTree(a, start, e) && e.key == k
        ensures Size(d) <= Size(e)
      {
        RootShortest(a, t, start, v, n, d, e);
      }
  }

  /** An order in which the transition gets a word as long as the tree. */
  lemma InsertSimple(a: Mvca, t: Transitions, start: set<Key>, d: Tree) returns (v: Transitions, n: nat)
    requires a.Valid() && NeverInAnyOrder(a, t) && Grounded(a, start, t) && start == t.Keys
    requires IsTree(a, start, d) && Simple(d) && d.Node? && AllShortest(a, start, d.path)
    ensures Reached(a, t, v, n) && d.key in v && |v[d.key]| == Size(d)
  {
    hide Reached, ReadsWith, StackTop, NeverShorter, AllShortest, TreeFor, NeverInAnyOrder, Extends;
    var u, i := GrowPath(a, start, t, d.path);
    hide Grounded, Starts;
    ReachedGrounded(a, start, t, u, i);
    NowNeverShorter(a, t, u, i);
    var w := PathExact(a, start, u, d.path, d.q, StackTop(d.key.1, a.bound, a.dir[d.x]), d.key.2);
    v := AddRoot(a, start, t, u, i, d, w);
    n := i + 1;
  }

  lemma NowNeverShorter(a: Mvca, t: Transitions, u: Transitions, n: nat)
    requires a.Valid() && NeverInAnyOrder(a, t) && Reached(a, t, u, n)
    ensures NeverShorter(a, u)
  {
  }

  lemma {:induction false} PathShortest(a: Mvca, t: Transitions, start: set<Key>, path: seq<Tree>)
    requires a.Valid() && NeverInAnyOrder(a, t) && Grounded(a, start, t) && start == t.Keys
    requires AreTrees(a, start, path) && AllSimple(path)
    ensures AllShortest(a, start, path)
    decreases path
  {
    if path != [] {
      SimpleIsShortest(a, t, start, path[0]);
      PathShortest(a, t, start, path[1..]);
      assert forall i :: 1 <= i < |path| ==> path[i] == path[1..][i - 1];
    }
  }

  /** The guard that keeps a transition never turns down a shorter word, in whatever order the rules are applied,
      exactly if every simple tree is a shortest one. */
  lemma OrdersExact(a: Mvca, t: Transitions)
    requires a.Valid() && forall k :: k in t ==> t[k] == []
    ensures SimpleShortest(a, t.Keys) <==> NeverInAnyOrder(a, t)
  {
    GroundedStart(a, t);
    if SimpleShortest(a, t.Keys) {
      forall u, n | Reached(a, t, u, n)
        ensures NeverShorter(a, u)
      {
        ReachedGrounded(a, t.Keys, t, u, n);
        ConditionEnough(a, t.Keys, u);
      }
    }
    if NeverInAnyOrder(a, t) {
      forall d | IsTree(a, t.Keys, d) && Simple(d)
        ensures Shortest(a, t.Keys, d)
      {
        SimpleIsShortest(a, t, t.Keys, d);
      }
    }
  }

  // ---- runs ----

  lemma {:induction false} ReadsWithSplit(t: Transitions, p: nat, s: Stack, u: Stack, r: nat, w: Word)
      returns (q: nat, v: Word, y: Word)
    requires ReadsWith(t, p, s + u, r, w)
    ensures ReadsWith(t, p, s, q, v) && ReadsWith(t, q, u, r, y) && w == v + y
    decreases |s|
  {
    var x := s + u;
    if s == [] {
      assert x == u;
      q, v, y := p, [], w;
    } else {
      var o: nat, z: Word :| (p, x[0], o) in t && w == t[(p, x[0], o)] + z && ReadsWith(t, o, x[1..], r, z);
      assert x[0] == s[0] && x[1..] == s[1..] + u;
      q, v, y := ReadsWithSplit(t, o, s[1..], u, r, z);
      ReadsWithStep(t, p, s, o, q, v);
      v := t[(p, s[0], o)] + v;
    }
  }

  /** A tame step in front of a way that is read. */
  lemma StepLeast(a: Mvca, t: Transitions, q: nat, m: nat, x: nat, r: nat, j: nat, e: nat, v: Word) returns (w: Word)
    requires a.Valid() && Closed(a, t.Keys) && NeverShorter(a, t) && a.Step(q, m, x, r, j) && a.Tame(m, x)
    requires ReadsWith(t, r, Config(a.bound, j), e, v)
    ensures ReadsWith(t, q, Config(a.bound, m), e, w) && |w| <= 1 + |v|
  {
    var l := a.Level(m);
    var top, s := StackTop(l, a.bound, a.dir[x]), Config(a.bound, m);
    ConfigTop(a.bound, m);
    ConfigStep(a.bound, m, a.dir[x]);
    hide Config, StackTop;
    var o, y, z := ReadsWithSplit(t, r, top, s[1..], e, v);
    ReadsForget(t, r, top, o, y);
    assert RuleClosed(a, t.Keys, l, q, x, r);
    assert Found(a, t, l, q, x, r, o, y);
    ReadsWithStep(t, q, s, o, e, z);
    w := t[(q, l, o)] + z;
  }

  /** Where no rule finds a shorter word, what is read is as short as any tame run into an added configuration. */
  lemma {:induction false} RunLeast(a: Mvca, t: Transitions, final: set<nat>, added: set<(nat, nat)>,
                                    q: nat, m: nat, w: Word, f: nat, k: nat) returns (e: nat, v: Word)
    requires a.Valid() && Closed(a, t.Keys) && NeverShorter(a, t) && AllAccepted(a, t, final, added)
    requires a.DrivesLow(q, m, w, f, k) && (f, k) in added
    ensures e in final && ReadsWith(t, q, Config(a.bound, m), e, v) && |v| <= |w|
    decreases |w|
  {
    hide Closed, NeverShorter, Config, ReadsWith;
    if w == [] {
      assert AtOnce(t, final, f, Config(a.bound, k));
      e :| e in final && ReadsWith(t, f, Config(a.bound, k), e, []);
      v := [];
    } else {
      var r: nat, j: nat :| a.Step(q, m, w[0], r, j) && a.Tame(m, w[0]) && a.DrivesLow(r, j, w[1..], f, k);
      e, v := RunLeast(a, t, final, added, r, j, w[1..], f, k);
      v := StepLeast(a, t, q, m, w[0], r, j, e, v);
    }
  }

  // ---- the order of the passes is one of the orders ----

  /** One rule, for the targets below n, adds its transitions one by one. */
  lemma {:induction false} AppliedReached(a: Mvca, t: Transitions, u: Transitions, l: nat, p: nat, x: nat, q: nat,
                                          n: nat) returns (i: nat)
    requires a.Valid() && (l, p, x, q) in a.delta && l + a.dir[x] >= 0 && RuleApplied(a, t, u, l, p, x, q, n)
    ensures Reached(a, t, u, i)
    decreases n
  {
    hide Reached, Reads, ReadsWith, StackTop;
    if n == 0 {
      assert t == u;
      NoneReached(a, t);
      i := 0;
    } else if (p, l, n - 1) !in u || (p, l, n - 1) in t {
      i := AppliedReached(a, t, u, l, p, x, q, n - 1);
    } else {
      var k: Key := (p, l, n - 1);
      var v := WithoutLast(a, t, u, l, p, x, q, n - 1);
      i := AppliedReached(a, t, v, l, p, x, q, n - 1);
      hide RuleApplied;
      LastInserted(a, t, v, u, l, p, x, q, n - 1);
      ReachedJoin(a, t, v, i, u, 1);
      i := i + 1;
    }
  }

  lemma WithoutLast(a: Mvca, t: Transitions, u: Transitions, l: nat, p: nat, x: nat, q: nat, o: nat)
      returns (v: Transitions)
    requires a.Valid() && (l, p, x, q) in a.delta && l + a.dir[x] >= 0 && RuleApplied(a, t, u, l, p, x, q, o + 1)
    requires (p, l, o) in u && (p, l, o) !in t
    ensures RuleApplied(a, t, v, l, p, x, q, o) && u == v[(p, l, o) := u[(p, l, o)]] && (p, l, o) !in v
    ensures Extends(t, v) && Yields(t, x, q, StackTop(l, a.bound, a.dir[x]), o, u[(p, l, o)])
  {
    hide Reads, ReadsWith, StackTop, Yields;
    v := u - {(p, l, o)};
    assert u == v[(p, l, o) := u[(p, l, o)]];
  }

  lemma LastInserted(a: Mvca, t: Transitions, v: Transitions, u: Transitions, l: nat, p: nat, x: nat, q: nat, o: nat)
    requires a.Valid() && (l, p, x, q) in a.delta && l + a.dir[x] >= 0 && Extends(t, v) && (p, l, o) !in v
    requires (p, l, o) in u && u == v[(p, l, o) := u[(p, l, o)]]
    requires Yields(t, x, q, StackTop(l, a.bound, a.dir[x]), o, u[(p, l, o)])
    ensures Reached(a, v, u, 1)
  {
    var w := u[(p, l, o)];
    ReadsKept(t, v, q, StackTop(l, a.bound, a.dir[x]), o, w[1..]);
    assert w == [x] + w[1..];
    ReachedOne(a, v, u, l, p, x, q, o, w[1..]);
  }

  lemma {:induction false} RulesReached(a: Mvca, rules: seq<Rule>, tables: seq<Transitions>, n: nat, c: nat)
      returns (i: nat)
    requires a.Valid() && Applied(a, rules, tables, n) && c <= |rules|
    ensures Reached(a, tables[0], tables[c], i)
    decreases c
  {
    hide Reached, RuleApplied;
    if c == 0 {
      NoneReached(a, tables[0]);
      i := 0;
    } else {
      var j := c - 1;
      var r := rules[j];
      assert tables[j + 1] == tables[c];
      i := RulesReached(a, rules, tables, n, j);
      var k := AppliedReached(a, tables[j], tables[c], r.0, r.1, r.2, r.3, n);
      ReachedJoin(a, tables[0], tables[j], i, tables[c], k);
      i := i + k;
    }
  }

  lemma PassReached(a: Mvca, t: Transitions, u: Transitions, n: nat) returns (i: nat)
    requires a.Valid() && PassDone(a, t, u, n)
    ensures Reached(a, t, u, i)
  {
    hide Reached;
    var rules: seq<Rule>, tables: seq<Transitions> :|
      Leads(a, t, u, n, rules, tables) && forall r :: r in rules <==> Due(a, r);
    i := RulesReached(a, rules, tables, n, |rules|);
  }

  lemma {:induction false} PassesReached(a: Mvca, t: Transitions, u: Transitions, n: nat, c: nat) returns (i: nat)
    requires a.Valid() && Passes(a, t, u, n, c)
    ensures Reached(a, t, u, i)
    decreases c
  {
    hide Reached, PassDone;
    NoneReached(a, t);
    if c == 0 {
      i := 0;
    } else {
      var k := c - 1;
      var v :| Passes(a, t, v, n, k) && PassDone(a, v, u, n);
      i := PassesReached(a, t, v, n, k);
      var j := PassReached(a, v, u, n);
      ReachedJoin(a, t, v, i, u, j);
      i := i + j;
    }
  }

  /** Saturated transitions never turn down a shorter word, under the condition. */
  lemma SaturatedNeverShorter(a: Mvca, t: Transitions, u: Transitions, n: nat)
    requires a.Valid() && (forall k :: k in t ==> t[k] == []) && SimpleShortest(a, t.Keys) && Saturated(a, t, u, n)
    ensures NeverShorter(a, u)
  {
    var c: nat :| c > 0 && Passes(a, t, u, n, c);
    var i := PassesReached(a, t, u, n, c);
    OrdersExact(a, t);
  }

  // ---- rules that go down in a ranking ----

  /** Every rule goes from a state to one that is one lower. */
  ghost predicate Ranked(a: Mvca, h: seq<int>)
    requires a.Valid()
  {
    |h| == a.states && forall l, p, x, q :: (l, p, x, q) in a.delta ==> h[p] == h[q] + 1
  }

  /** Heights of all states that the transitions at the start keep. */
  ghost predicate Even(start: set<Key>, g: seq<int>) {
    forall e :: e in start ==> e.0 < |g| && e.2 < |g| && g[e.0] == g[e.2]
  }

  lemma {:induction false} TreeHeight(a: Mvca, start: set<Key>, h: seq<int>, g: seq<int>, d: Tree)
    requires a.Valid() && Ranked(a, h) && h <= g && Even(start, g) && IsTree(a, start, d)
    ensures d.key.0 < |g| && d.key.2 < |g| && Size(d) == g[d.key.0] - g[d.key.2]
    decreases d, 0
  {
    match d
    case Leaf(k) =>
    case Node(k, x, q, path) =>
      PathHeight(a, start, h, g, path, q, StackTop(k.1, a.bound, a.dir[x]), k.2);
  }

  lemma {:induction false} PathHeight(a: Mvca, start: set<Key>, h: seq<int>, g: seq<int>, path: seq<Tree>, q: nat,
                                      s: Stack, o: nat)
    requires a.Valid() && Ranked(a, h) && h <= g && Even(start, g) && AreTrees(a, start, path)
    requires Chain(path, q, s, o) && q < |g|
    ensures o < |g| && Sizes(path) == g[q] - g[o]
    decreases path
  {
    if path != [] {
      TreeHeight(a, start, h, g, path[0]);
      PathHeight(a, start, h, g, path[1..], path[0].key.2, s[1..], o);
    }
  }

  lemma {:induction false} PathTableKeys(s: Stack, p: nat, c: nat)
    requires Symbols(s)
    ensures forall e :: e in PathTable(s, p, c) ==> (e.0 == p || c <= e.0 < c + |s|) && c <= e.2 < c + |s|
  {
    if s != [] {
      PathTableKeys(s[..|s| - 1], p, c);
    }
  }

  lemma PathHeights(start: set<Key>, g: seq<int>, s: Stack, p: nat, height: int) returns (g': seq<int>)
    requires Symbols(s) && Even(start, g) && p < |g| && g[p] == height
    ensures g <= g' && |g'| == |g| + |s| && Even(start + PathTable(s, p, |g|).Keys, g')
  {
    PathTableKeys(s, p, |g|);
    g' := g + seq(|s|, i => height);
  }

  /** A height for every state of the paths: that of the state where the path begins. */
  lemma {:induction false} StartHeights(a: Mvca, to: set<nat>, k: nat, n: nat, h: seq<int>) returns (g: seq<int>)
    requires |h| == a.states && n <= a.states
    ensures h <= g && |g| == StartCount(a, to, k, n) && Even(StartTable(a, to, k, n).Keys, g)
    decreases n
  {
    if n == 0 {
      g := h;
    } else {
      g := StartHeights(a, to, k, n - 1, h);
      if n - 1 in to {
        ConfigTop(a.bound, k);
        hide PathTable, Config, Even;
        var t, c := StartTable(a, to, k, n - 1), |g|;
        g := PathHeights(t.Keys, g, Config(a.bound, k), n - 1, h[n - 1]);
        assert (t + PathTable(Config(a.bound, k), n - 1, c)).Keys
            == t.Keys + PathTable(Config(a.bound, k), n - 1, c).Keys;
      }
    }
  }

  /** Rules that go down in a ranking meet the condition, whatever is asked for. */
  lemma RankedShortest(a: Mvca, to: set<nat>, k: nat, h: seq<int>)
    requires a.Valid() && Ranked(a, h)
    ensures SimpleShortest(a, StartTable(a, to, k, a.states).Keys)
  {
    var start := StartTable(a, to, k, a.states).Keys;
    var g := StartHeights(a, to, k, a.states, h);
    forall d, e | IsTree(a, start, d) && IsTree(a, start, e) && e.key == d.key
      ensures Size(d) <= Size(e)
    {
      TreeHeight(a, start, h, g, d);
      TreeHeight(a, start, h, g, e);
    }
  }
}
