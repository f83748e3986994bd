/** The search tree over transformations: unbalanced, its nodes are the numbers of the elements. */
module MonoidIndex {
  import opened Automata
  import opened TransitionMonoids

  // ---- the order of transformations ----

  /** A transformation as a number to the base n; the first states count most. */
  ghost function Code(f: Map, n: nat): nat {
    if f == [] then 0 else Code(f[..|f| - 1], n) * n + f[|f| - 1]
  }

  ghost predicate Digits(f: Map, n: nat) {
    forall q :: 0 <= q < |f| ==> f[q] < n
  }

  lemma StepUp(x: nat, y: nat, n: nat, c: nat, d: nat)
    requires x < y && c < n
    ensures x * n + c < y * n + d
  {
    var z := y - x - 1;
    assert y * n == x * n + n + z * n;
    assert z * n >= 0;
  }

  lemma {:induction false} CodeOrder(f: Map, g: Map, n: nat, i: nat)
    requires |f| == |g| && Digits(f, n) && Digits(g, n) && i < |f| && f[..i] == g[..i] && f[i] < g[i]
    ensures Code(f, n) < Code(g, n)
    decreases |f|
  {
    var m := |f| - 1;
    var x, y := f[..m], g[..m];
    if i == m {
      assert x == y;
    } else {
      assert x[..i] == f[..i] && y[..i] == g[..i];
      CodeOrder(x, y, n, i);
      StepUp(Code(x, n), Code(y, n), n, f[m], g[m]);
    }
  }

  lemma {:induction false} CodeBound(f: Map, n: nat)
    requires Digits(f, n)
    ensures Code(f, n) < Power(n, |f|)
    decreases |f|
  {
    if f != [] {
      var m := |f| - 1;
      CodeBound(f[..m], n);
      StepUp(Code(f[..m], n), Power(n, m), n, f[m], 0);
    }
  }

  ghost function Power(n: nat, k: nat): nat {
    if k == 0 then 1 else Power(n, k - 1) * n
  }

  const EQUAL := 0
  const LESS := 1
  const GREATER := 2

  /** Compare two transformations state by state. */
  method CompareMaps(f: Map, g: Map, ghost n: nat) returns (t: nat)
    requires IsMap(f, n) && IsMap(g, n)
    ensures t == if Code(f, n) < Code(g, n) then LESS else if Code(g, n) < Code(f, n) then GREATER else EQUAL
    ensures t == EQUAL <==> f == g
  {
    var j := 0;
    while j < |f| && f[j] == g[j]
      invariant j <= |f| && f[..j] == g[..j]
    {
      j := j + 1;
    }
    if j == |f| {
      assert f == g;
      return EQUAL;
    }
    if f[j] < g[j] {
      CodeOrder(f, g, n, j);
      return LESS;
    }
    CodeOrder(g, f, n, j);
    return GREATER;
  }

  /** There are only finitely many different transformations. */
  lemma MapsBound(trans: seq<Map>, n: nat)
    requires Distinct(trans) && forall k :: 0 <= k < |trans| ==> IsMap(trans[k], n)
    ensures |trans| <= Power(n, n)
  {
    var f: seq<nat> := seq(|trans|, k requires 0 <= k < |trans| => Code(trans[k], n));
    forall k | 0 <= k < |f|
      ensures f[k] < Power(n, n)
    {
      CodeBound(trans[k], n);
    }
    forall k, l | 0 <= k < l < |f|
      ensures f[k] != f[l]
    {
      CodeInjective(trans[k], trans[l], n);
    }
    Pigeonhole(f, Power(n, n));
  }

  lemma CodeInjective(f: Map, g: Map, n: nat)
    requires IsMap(f, n) && IsMap(g, n)
    ensures Code(f, n) == Code(g, n) ==> f == g
  {
    var i := 0;
    while i < n && f[i] == g[i]
      invariant i <= n && f[..i] == g[..i]
    {
      i := i + 1;
    }
    if i == n {
      assert f == f[..n] && g == g[..n];
    } else if f[i] < g[i] {
      CodeOrder(f, g, n, i);
    } else {
      CodeOrder(g, f, n, i);
    }
  }

  // ---- the tree ----

  datatype Tree = Leaf | Node(k: nat, left: Tree, right: Tree)

  /** 0 stands for no subtree; element 0 is the root and nowhere else. */
  ghost function Root(t: Tree): nat {
    if t.Leaf? then 0 else t.k
  }

  ghost function Nodes(t: Tree): set<nat> {
    if t.Leaf? then {} else {t.k} + Nodes(t.left) + Nodes(t.right)
  }

  /** The links hold the tree. */
  ghost predicate Linked(t: Tree, lsucc: seq<nat>, rsucc: seq<nat>) {
    t.Node? ==>
      t.k < |lsucc| == |rsucc| && lsucc[t.k] == Root(t.left) && rsucc[t.k] == Root(t.right)
      && (t.left.Node? ==> t.left.k > 0) && (t.right.Node? ==> t.right.k > 0)
      && Linked(t.left, lsucc, rsucc) && Linked(t.right, lsucc, rsucc)
  }

  /** The codes of the nodes are in search order between lo and hi. */
  ghost predicate Ordered(t: Tree, codes: seq<nat>, lo: int, hi: int) {
    t.Node? ==> t.k < |codes| && lo < codes[t.k] < hi
                && Ordered(t.left, codes, lo, codes[t.k]) && Ordered(t.right, codes, codes[t.k], hi)
  }

  lemma {:induction false} OrderedNodes(t: Tree, codes: seq<nat>, lo: int, hi: int)
    requires Ordered(t, codes, lo, hi)
    ensures forall k :: k in Nodes(t) ==> k < |codes| && lo < codes[k] < hi
  {
    if t.Node? {
      OrderedNodes(t.left, codes, lo, codes[t.k]);
      OrderedNodes(t.right, codes, codes[t.k], hi);
    }
  }

  /** Where the search for a code ends: at its node, or at the node below which it belongs. */
  datatype Spot = Hit(k: nat) | Gap(p: nat, left: bool)

  ghost function Find(t: Tree, codes: seq<nat>, c: nat): Spot
    requires t.Node? && InCodes(t, codes)
  {
    if codes[t.k] == c then Hit(t.k)
    else if c < codes[t.k] then if t.left.Leaf? then Gap(t.k, true) else Find(t.left, codes, c)
    else if t.right.Leaf? then Gap(t.k, false) else Find(t.right, codes, c)
  }

  ghost predicate InCodes(t: Tree, codes: seq<nat>) {
    t.Node? ==> t.k < |codes| && InCodes(t.left, codes) && InCodes(t.right, codes)
  }

  /** The tree with a new node k where the code c belongs. */
  ghost function Insert(t: Tree, codes: seq<nat>, c: nat, k: nat): (r: Tree)
    requires InCodes(t, codes)
    ensures r.Node?
  {
    if t.Leaf? then Node(k, Leaf, Leaf)
    else if c < codes[t.k] then Node(t.k, Insert(t.left, codes, c, k), t.right)
    else Node(t.k, t.left, Insert(t.right, codes, c, k))
  }

  lemma {:induction false} OrderedInCodes(t: Tree, codes: seq<nat>, lo: int, hi: int)
    requires Ordered(t, codes, lo, hi)
    ensures InCodes(t, codes)
  {
    if t.Node? {
      OrderedInCodes(t.left, codes, lo, codes[t.k]);
      OrderedInCodes(t.right, codes, codes[t.k], hi);
    }
  }

  /** The search finds a code exactly if some node holds it. */
  lemma {:induction false} FindExact(t: Tree, codes: seq<nat>, lo: int, hi: int, c: nat)
    requires t.Node? && Ordered(t, codes, lo, hi) && InCodes(t, codes)
    ensures forall k :: k in Nodes(t) ==> k < |codes|
    ensures Find(t, codes, c).Hit? <==> exists k :: k in Nodes(t) && codes[k] == c
    ensures var s := Find(t, codes, c); if s.Hit? then s.k in Nodes(t) && codes[s.k] == c else s.p in Nodes(t)
  {
    OrderedNodes(t, codes, lo, hi);
    OrderedNodes(t.left, codes, lo, codes[t.k]);
    OrderedNodes(t.right, codes, codes[t.k], hi);
    if c < codes[t.k] && t.left.Node? {
      FindExact(t.left, codes, lo, codes[t.k], c);
    }
    if codes[t.k] < c && t.right.Node? {
      FindExact(t.right, codes, codes[t.k], hi, c);
    }
  }

  lemma {:induction false} InsertNodes(t: Tree, codes: seq<nat>, c: nat, k: nat)
    requires InCodes(t, codes)
    ensures Nodes(Insert(t, codes, c, k)) == Nodes(t) + {k}
  {
    if t.Node? {
      InsertNodes(t.left, codes, c, k);
      InsertNodes(t.right, codes, c, k);
    }
  }

  lemma {:induction false} OrderedMore(t: Tree, codes: seq<nat>, lo: int, hi: int, c: nat)
    requires Ordered(t, codes, lo, hi)
    ensures Ordered(t, codes + [c], lo, hi)
  {
    if t.Node? {
      OrderedMore(t.left, codes, lo, codes[t.k], c);
      OrderedMore(t.right, codes, codes[t.k], hi, c);
    }
  }

  lemma {:induction false} InsertOrdered(t: Tree, codes: seq<nat>, lo: int, hi: int, c: nat)
    requires Ordered(t, codes, lo, hi) && InCodes(t, codes) && lo < c < hi
    requires t.Node? ==> Find(t, codes, c).Gap?
    ensures Ordered(Insert(t, codes, c, |codes|), codes + [c], lo, hi)
  {
    if t.Node? {
      OrderedMore(t.left, codes, lo, codes[t.k], c);
      OrderedMore(t.right, codes, codes[t.k], hi, c);
      if c < codes[t.k] {
        InsertOrdered(t.left, codes, lo, codes[t.k], c);
      } else {
        InsertOrdered(t.right, codes, codes[t.k], hi, c);
      }
    }
  }

  /** The links of a new node below s. */
  ghost function Attached(succ: seq<nat>, hit: bool, p: nat): seq<nat>
    requires p < |succ|
  {
    if hit then succ[p := |succ|] + [0] else succ + [0]
  }

  /** Links of other nodes do not matter. */
  lemma {:induction false} LinkedElsewhere(t: Tree, lsucc: seq<nat>, rsucc: seq<nat>, p: nat, left: bool)
    requires Linked(t, lsucc, rsucc) && p < |lsucc| == |rsucc| && p !in Nodes(t)
    ensures Linked(t, Attached(lsucc, left, p), Attached(rsucc, !left, p))
  {
    if t.Node? {
      LinkedElsewhere(t.left, lsucc, rsucc, p, left);
      LinkedElsewhere(t.right, lsucc, rsucc, p, left);
    }
  }

  lemma {:induction false} InsertLinked(t: Tree, codes: seq<nat>, lo: int, hi: int, c: nat,
                                        lsucc: seq<nat>, rsucc: seq<nat>)
    requires t.Node? && Ordered(t, codes, lo, hi) && InCodes(t, codes) && Linked(t, lsucc, rsucc)
    requires |codes| == |lsucc| == |rsucc| && Find(t, codes, c).Gap? && Find(t, codes, c).p < |codes|
    ensures var s := Find(t, codes, c);
            Linked(Insert(t, codes, c, |codes|), Attached(lsucc, s.left, s.p), Attached(rsucc, !s.left, s.p))
  {
    var s := Find(t, codes, c);
    var less, here := c < codes[t.k], codes[t.k];
    OrderedNodes(t.left, codes, lo, here);
    OrderedNodes(t.right, codes, here, hi);
    if less && t.left.Node? {
      FindExact(t.left, codes, lo, here, c);
      LinkedElsewhere(t.right, lsucc, rsucc, s.p, s.left);
      InsertLinked(t.left, codes, lo, here, c, lsucc, rsucc);
    } else if !less && t.right.Node? {
      FindExact(t.right, codes, here, hi, c);
      LinkedElsewhere(t.left, lsucc, rsucc, s.p, s.left);
      InsertLinked(t.right, codes, here, hi, c, lsucc, rsucc);
    } else {
      LinkedElsewhere(t.left, lsucc, rsucc, s.p, s.left);
      LinkedElsewhere(t.right, lsucc, rsucc, s.p, s.left);
    }
  }

  // ---- the index of a list of transformations ----

  ghost function Codes(trans: seq<Map>, n: nat): (c: seq<nat>)
    ensures |c| == |trans| && forall k :: 0 <= k < |trans| ==> c[k] == Code(trans[k], n)
  {
    seq(|trans|, k requires 0 <= k < |trans| => Code(trans[k], n))
  }

  /** The links hold a search tree with one node for each of the different transformations. */
  ghost predicate Indexed(t: Tree, trans: seq<Map>, lsucc: seq<nat>, rsucc: seq<nat>, n: nat) {
    && 0 < |trans| == |lsucc| == |rsucc| && Distinct(trans)
    && (forall k :: 0 <= k < |trans| ==> IsMap(trans[k], n))
    && t.Node? && t.k == 0 && (forall k: nat :: k in Nodes(t) <==> k < |trans|)
    && Linked(t, lsucc, rsucc) && Ordered(t, Codes(trans, n), -1, Power(n, n))
  }

  lemma IndexStart(n: nat)
    ensures Indexed(Node(0, Leaf, Leaf), [Identity(n)], [0], [0], n)
  {
    CodeBound(Identity(n), n);
  }

  lemma IndexFind(t: Tree, trans: seq<Map>, lsucc: seq<nat>, rsucc: seq<nat>, n: nat, f: Map)
    requires Indexed(t, trans, lsucc, rsucc, n) && IsMap(f, n)
    ensures InCodes(t, Codes(trans, n))
    ensures var s := Find(t, Codes(trans, n), Code(f, n));
            if s.Hit? then s.k < |trans| && trans[s.k] == f else s.p < |trans| && f !in trans
  {
    var codes, c := Codes(trans, n), Code(f, n);
    OrderedInCodes(t, codes, -1, Power(n, n));
    FindExact(t, codes, -1, Power(n, n), c);
    var s := Find(t, codes, c);
    if s.Hit? {
      CodeInjective(trans[s.k], f, n);
    }
    if s.Gap? {
      assert forall k: nat :: k < |trans| ==> k in Nodes(t) && codes[k] != c;
    }
  }

  lemma IndexInsert(t: Tree, trans: seq<Map>, lsucc: seq<nat>, rsucc: seq<nat>, n: nat, f: Map)
    requires Indexed(t, trans, lsucc, rsucc, n) && IsMap(f, n) && InCodes(t, Codes(trans, n))
    requires Find(t, Codes(trans, n), Code(f, n)).Gap?
    ensures var s := Find(t, Codes(trans, n), Code(f, n));
            s.p < |trans| && Indexed(Insert(t, Codes(trans, n), Code(f, n), |trans|), trans + [f],
                                     Attached(lsucc, s.left, s.p), Attached(rsucc, !s.left, s.p), n)
  {
    var codes, c, top := Codes(trans, n), Code(f, n), Power(n, n);
    IndexFind(t, trans, lsucc, rsucc, n, f);
    CodeBound(f, n);
    InsertNodes(t, codes, c, |trans|);
    InsertOrdered(t, codes, -1, top, c);
    InsertLinked(t, codes, -1, top, c, lsucc, rsucc);
    assert Codes(trans + [f], n) == codes + [c];
  }

  /** The tree of transformations with the records that it indexes; records are numbered in the order they are made. */
  class Index {
    const n: nat
    var trans: seq<Map>
    var lsucc: seq<nat>
    var rsucc: seq<nat>
    ghost var tree: Tree

    ghost predicate Valid()
      reads this
    {
      Indexed(tree, trans, lsucc, rsucc, n)
    }

    /** The tree has a new record that waits for its transformation. */
    ghost predicate Waiting(f: Map)
      reads this
    {
      IsMap(f, n) && f !in trans && Indexed(tree, trans + [f], lsucc, rsucc, n)
    }

    /** The identity is the root. */
    constructor (n: nat, identity: Map)
      requires identity == Identity(n)
      ensures Valid() && this.n == n && trans == [identity]
    {
      this.n := n;
      trans, lsucc, rsucc, tree := [identity], [0], [0], Node(0, Leaf, Leaf);
      IndexStart(n);
    }

    /** Go down from the root until the transformation is found or the next node is missing. */
    method Descend(f: Map, ghost codes: seq<nat>) returns (run: nat, test: nat)
      requires Valid() && IsMap(f, n) && codes == Codes(trans, n) && InCodes(tree, codes)
      ensures run < |trans|
      ensures test == EQUAL ==> trans[run] == f
      ensures test != EQUAL ==> Find(tree, codes, Code(f, n)) == Gap(run, test == LESS)
    {
      hide Ordered, Nodes, Distinct;
      ghost var c := Code(f, n);
      ghost var s := tree;
      run := 0;
      test := CompareMaps(f, trans[run], n);
      while test != EQUAL && (if test == LESS then lsucc[run] != 0 else rsucc[run] != 0)
        invariant s.Node? && s.k == run < |trans| && InCodes(s, codes) && Linked(s, lsucc, rsucc)
        invariant Find(s, codes, c) == Find(tree, codes, c)
        invariant test == if c < codes[run] then LESS else if codes[run] < c then GREATER else EQUAL
        invariant test == EQUAL <==> f == trans[run]
        decreases s
      {
        s := if test == LESS then s.left else s.right;
        run := if test == LESS then lsucc[run] else rsucc[run];
        test := CompareMaps(f, trans[run], n);
      }
    }

    /** Return the number of the record of a transformation, which is the next free number if there was none. */
    method SearchTrans(f: Map) returns (number: nat)
      requires Valid() && IsMap(f, n)
      modifies this`lsucc, this`rsucc, this`tree
      ensures number <= |trans|
      ensures if number < |trans| then trans[number] == f && Valid() else Waiting(f)
    {
      ghost var codes := Codes(trans, n);
      IndexFind(tree, trans, lsucc, rsucc, n, f);
      var run, test := Descend(f, codes);
      if test == EQUAL {
        return run;
      }
      IndexInsert(tree, trans, lsucc, rsucc, n, f);
      hide Indexed, Find, Insert;
      number := |trans|;
      tree := Insert(tree, codes, Code(f, n), number);
      if test == LESS {
        lsucc, rsucc := lsucc[run := number] + [0], rsucc + [0];
      } else {
        lsucc, rsucc := lsucc + [0], rsucc[run := number] + [0];
      }
    }

    /** Give the new record its transformation. */
    method Store(f: Map)
      requires Waiting(f)
      modifies this`trans
      ensures Valid() && trans == old(trans) + [f]
    {
      trans := trans + [f];
    }
  }
}
