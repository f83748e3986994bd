/** The iterative search-and-insert on a height-balanced tree of linked records. */
module SearchTrees {
  import opened BalancedTrees

  // ---- comparing sets of states ----

  /** A set of states as a number; the first states count most. */
  ghost function Value(s: seq<bool>): nat {
    if s == [] then 0 else 2 * Value(s[..|s| - 1]) + if s[|s| - 1] then 1 else 0
  }

  lemma {:induction false} ValueOrder(a: seq<bool>, b: seq<bool>, i: nat)
    requires |a| == |b| && i < |a| && a[..i] == b[..i] && !a[i] && b[i]
    ensures Value(a) < Value(b)
    decreases |a|
  {
    var n := |a| - 1;
    var x, y := a[..n], b[..n];
    if i == n {
      assert x == y;
    } else {
      assert x[..i] == a[..i] && y[..i] == b[..i];
      ValueOrder(x, y, i);
    }
  }

  lemma {:induction false} ValueInjective(a: seq<bool>, b: seq<bool>)
    requires |a| == |b| && Value(a) == Value(b)
    ensures a == b
  {
    if a != [] {
      var n := |a| - 1;
      ValueInjective(a[..n], b[..n]);
      assert a == a[..n] + [a[n]] && b == b[..n] + [b[n]];
    }
  }

  const EQUAL := 0
  const SMALL := 1
  const GREAT := 2

  /** Compare two sets of states element by element. */
  method Cmp(a: seq<bool>, b: seq<bool>) returns (t: nat)
    requires |a| == |b|
    ensures t == if Value(a) < Value(b) then SMALL else if Value(b) < Value(a) then GREAT else EQUAL
    ensures t == EQUAL <==> a == b
  {
    for i := 0 to |a|
      invariant a[..i] == b[..i]
    {
      if a[i] != b[i] {
        if a[i] {
          ValueOrder(b, a, i);
          return GREAT;
        } else {
          ValueOrder(a, b, i);
          return SMALL;
        }
      }
    }
    assert a == b;
    return EQUAL;
  }

  class SearchTree {
    const n: nat                // the number of states a set is taken from
    const baltree: TreeNode     // its right link is the root
    var knownelem: TreeNode     // where the last search has ended
    ghost var h: map<TreeNode, Cell>
    ghost var t: Tree

    /** The records hold what h says. */
    ghost predicate Mirror()
      reads this, h.Keys`dfastate, h.Keys`bal, h.Keys`tl, h.Keys`tr
    {
      && baltree in h
      && forall r :: r in h ==> |r.dfastate| == n && h[r] == Cell(Value(r.dfastate), r.bal, r.tl, r.tr)
    }

    ghost predicate Rooted(h: map<TreeNode, Cell>, t: Tree) {
      && baltree in h && baltree !in Refs(t) && Refs(t) <= h.Keys
      && h[baltree].tl == null && h[baltree].tr == RefOf(t)
    }

    ghost predicate Valid()
      reads this, h.Keys`dfastate, h.Keys`bal, h.Keys`tl, h.Keys`tr
    {
      && Mirror() && Rooted(h, t) && Linked(h, t) && h.Keys == Refs(t) + {baltree}
      && Balanced(t) && Unique(t) && Sorted(Inorder(t))
    }

    constructor (n: nat, letters: nat)
      ensures Valid() && this.n == n && t == Leaf && fresh(h.Keys)
    {
      this.n := n;
      var root := new TreeNode(n, letters);
      baltree := root;
      knownelem := root;
      t := Leaf;
      h := map[root := Cell(Value(root.dfastate), root.bal, root.tl, root.tr)];
    }

    method SetTl(r: TreeNode, p: TreeNode?)
      requires Mirror() && r in h
      modifies r`tl, this`h
      ensures Mirror() && h == old(h)[r := old(h)[r].(tl := p)]
    {
      r.tl := p;
      h := h[r := h[r].(tl := p)];
    }

    method SetTr(r: TreeNode, p: TreeNode?)
      requires Mirror() && r in h
      modifies r`tr, this`h
      ensures Mirror() && h == old(h)[r := old(h)[r].(tr := p)]
    {
      r.tr := p;
      h := h[r := h[r].(tr := p)];
    }

    method SetBal(r: TreeNode, b: nat)
      requires Mirror() && r in h
      modifies r`bal, this`h
      ensures Mirror() && h == old(h)[r := old(h)[r].(bal := b)]
    {
      r.bal := b;
      h := h[r := h[r].(bal := b)];
    }

    /** The way c leads to the place of the key; its node k is the last one that was not even. */
    ghost predicate IsWay(c: seq<Frame>, k: nat, key: nat, father: TreeNode, rebal: TreeNode) {
      && k < |c| && c[k].ref == rebal && father == (if k == 0 then baltree else c[k - 1].ref)
      && Between(c, key) && (forall i :: k < i < |c| ==> c[i].bal == 0) && (c[k].bal == 0 ==> k == 0)
    }

    /** The same, while the subtree s on the way is looked at. */
    ghost predicate OnWay(c: seq<Frame>, k: nat, s: Tree, key: nat, father: TreeNode, rebal: TreeNode) {
      && s.Node? && Between(c, key) && k <= |c| && father == (if k == 0 then baltree else c[k - 1].ref)
      && rebal == (if k < |c| then c[k].ref else s.ref)
      && (forall i :: k < i < |c| ==> c[i].bal == 0) && (k < |c| ==> s.bal == 0)
      && ((if k < |c| then c[k].bal else s.bal) == 0 ==> k == 0)
    }

    lemma StepPlug(c: seq<Frame>, s: Tree, left: bool)
      requires s.Node?
      ensures Plug(c + [Step(s, left)], if left then s.left else s.right) == Plug(c, s)
    {
      PlugOne(c, Step(s, left), if left then s.left else s.right);
    }

    lemma Down(c: seq<Frame>, k: nat, s: Tree, key: nat, father: TreeNode, rebal: TreeNode)
      requires OnWay(c, k, s, key, father, rebal) && Sorted(Inorder(Plug(c, s))) && key != s.key
      ensures var c', child := c + [Step(s, key < s.key)], if key < s.key then s.left else s.right;
        && Plug(c', child) == Plug(c, s)
        && (child.Leaf? ==> IsWay(c', k, key, father, rebal) && Between(c', key))
        && (child.Node? && child.bal == 0 ==> OnWay(c', k, child, key, father, rebal))
        && (child.Node? && child.bal != 0 ==> OnWay(c', |c'|, child, key, s.ref, child.ref))
    {
      hide Between, Plug, Sorted;
      BetweenStep(c, s, key);
      StepPlug(c, s, key < s.key);
    }

    lemma AtNode(h: map<TreeNode, Cell>, t: Tree, c: seq<Frame>, s: Tree)
      requires Linked(h, t) && t == Plug(c, s) && s.Node?
      ensures s.ref in h && h[s.ref] == Cell(s.key, s.bal, RefOf(s.left), RefOf(s.right)) && s.ref in Refs(t)
      ensures s.left.Node? ==> s.left.ref in h && h[s.left.ref].bal == s.left.bal
      ensures s.right.Node? ==> s.right.ref in h && h[s.right.ref].bal == s.right.bal
      ensures s.key in Inorder(t)
    {
      PlugLinked(h, c, s);
      PlugUnique(c, s);
      PlugInorder(c, s);
      var l, r := Inorder(s.left), Inorder(s.right);
      var all := KeysBefore(c) + (l + [s.key] + r) + KeysAfter(c);
      assert Inorder(t) == all && all[|KeysBefore(c)| + |l|] == s.key;
    }

    /** Link q to the last node of the way. */
    method Hang(act: TreeNode, q: TreeNode, left: bool, ghost c: seq<Frame>)
      requires Mirror() && Linked(h, t) && Unique(t) && Sorted(Inorder(t)) && Refs(t) <= h.Keys
      requires q in h && q !in Refs(t) && h[q] == Cell(Value(q.dfastate), 0, null, null)
      requires c != [] && t == Plug(c, Leaf) && Between(c, Value(q.dfastate))
      requires act == c[|c| - 1].ref && left == c[|c| - 1].onLeft
      modifies this`h, h.Keys`tl, h.Keys`tr
      ensures Mirror() && h.Keys == old(h.Keys) && Value(q.dfastate) !in Inorder(t)
      ensures var w := Plug(c, Node(q, Value(q.dfastate), 0, Leaf, Leaf));
        Linked(h, w) && Unique(w) && Refs(w) == Refs(t) + {q}
      ensures baltree !in Refs(t) ==> h[baltree] == old(h[baltree])
    {
      hide Between, Sorted, Linked, Unique, Plug, Inorder;
      SetChild(h, c, q, Value(q.dfastate));
      NotIn(c, Value(q.dfastate), t);
      LastRef(c, Leaf);
      if left {
        SetTl(act, q);
      } else {
        SetTr(act, q);
      }
    }

    lemma LastRef(c: seq<Frame>, s: Tree)
      requires c != []
      ensures c[|c| - 1].ref in Refs(Plug(c, s))
    {
      PlugUnique(c, s);
    }

    /** Look for the place of q and link q there. */
    method Descend(q: TreeNode)
      returns (found: bool, father: TreeNode, rebal: TreeNode, ghost c: seq<Frame>, ghost k: nat)
      requires Mirror() && Rooted(h, t) && Linked(h, t) && Unique(t) && Sorted(Inorder(t)) && t.Node?
      requires q in h && q != baltree && q !in Refs(t) && h[q] == Cell(Value(q.dfastate), 0, null, null)
      modifies this`h, this`knownelem, h.Keys`tl, h.Keys`tr
      ensures Mirror() && h.Keys == old(h.Keys)
      ensures found <==> Value(q.dfastate) in Inorder(t)
      ensures found ==> h == old(h) && knownelem in Refs(t) && knownelem.dfastate == q.dfastate
      ensures !found ==> knownelem == q && IsWay(c, k, Value(q.dfastate), father, rebal) && Plug(c, Leaf) == t
      ensures !found ==>
        c != [] && h[baltree] == old(h[baltree]) && var w := Plug(c, Node(q, Value(q.dfastate), 0, Leaf, Leaf));
        Linked(h, w) && Unique(w) && Refs(w) == Refs(t) + {q}
    {
      hide Between, Sorted, Linked, Unique, Plug, Inorder, Refs, OnWay, IsWay, Value;
      ghost var key := Value(q.dfastate);
      father := baltree;
      rebal := father.tr;
      var act := father.tr;
      knownelem := q;
      c, k := [], 0;
      ghost var s := t;
      EmptyWay(s, key);
      AtNode(h, t, c, s);
      found := false;
      while true
        invariant Mirror() && h == old(h) && knownelem == q && act in h
        invariant s.Node? && t == Plug(c, s) && OnWay(c, k, s, key, father, rebal) && s.ref == act
        invariant !found
        decreases s
      {
        AtNode(h, t, c, s);
        var b := Cmp(q.dfastate, act.dfastate);
        if b == EQUAL {
          knownelem := act;
          found := true;
          return;
        }
        Down(c, k, s, key, father, rebal);
        c := c + [Step(s, b == SMALL)];
        if b == SMALL {
          if act.tl != null {
            if act.tl.bal != 0 {
              father := act;
              rebal := act.tl;
              k := |c|;
            }
            s := s.left;
            act := act.tl;
          } else {
            Hang(act, q, true, c);
            return;
          }
        } else {
          if act.tr != null {
            if act.tr.bal != 0 {
              father := act;
              rebal := act.tr;
              k := |c|;
            }
            s := s.right;
            act := act.tr;
          } else {
            Hang(act, q, false, c);
            return;
          }
        }
      }
    }

    /** The way below its node k, tilted up to its node j. */
    ghost function PartlyTilted(c: seq<Frame>, k: nat, j: nat): seq<Frame>
      requires k < j <= |c|
    {
      c[..k + 1] + Tilted(c[k + 1..j]) + c[j..]
    }

    lemma TiltOne(c: seq<Frame>, k: nat, j: nat)
      requires k < j < |c|
      ensures var a, e := c[..k + 1] + Tilted(c[k + 1..j]), c[j + 1..];
        && PartlyTilted(c, k, j) == a + [c[j]] + e
        && PartlyTilted(c, k, j + 1) == a + [c[j].(bal := Lean(c[j]))] + e
    {
      assert c[j..] == [c[j]] + c[j + 1..];
      assert Tilted(c[k + 1..j + 1]) == Tilted(c[k + 1..j]) + [c[j].(bal := Lean(c[j]))];
    }

    lemma TiltEnds(c: seq<Frame>, k: nat)
      requires k < |c|
      ensures PartlyTilted(c, k, k + 1) == c
      ensures PartlyTilted(c, k, |c|) == c[..k] + [c[k]] + Tilted(c[k + 1..])
    {
      var none: seq<Frame> := [];
      assert Tilted(c[k + 1..k + 1]) == none && c[|c|..] == none;
      assert c[..k + 1] == c[..k] + [c[k]];
    }

    /** The way is tilted from its node k up to its node j. */
    ghost predicate Tilting(h: map<TreeNode, Cell>, c: seq<Frame>, k: nat, j: nat, s: Tree) {
      k < j <= |c| && var w := Plug(PartlyTilted(c, k, j), s); Linked(h, w) && Unique(w)
    }

    /** The node j of the way is q only at its end; its key tells. */
    lemma DifferentKeys(h: map<TreeNode, Cell>, c: seq<Frame>, k: nat, j: nat, s: Tree)
      requires k < j <= |c| && s.Node? && Tilting(h, c, k, j, s) && Between(c, s.key)
      ensures j < |c| ==> c[j].ref in h && h[c[j].ref].key != s.key
      ensures s.ref in h && h[s.ref].key == s.key
    {
      PlugLinked(h, PartlyTilted(c, k, j), s);
      if j < |c| {
        TiltOne(c, k, j);
        hide Plug, Linked, Between, PartlyTilted;
        FrameLinked(h, c[..k + 1] + Tilted(c[k + 1..j]), c[j], c[j + 1..], s);
        FrameSide(c, s.key, j);
      }
    }

    ghost predicate SameLinks(h: map<TreeNode, Cell>, h': map<TreeNode, Cell>) {
      h'.Keys == h.Keys && forall r :: r in h ==> h'[r].tl == h[r].tl && h'[r].tr == h[r].tr
    }

    lemma SameLinksChain(h0: map<TreeNode, Cell>, h1: map<TreeNode, Cell>, h2: map<TreeNode, Cell>)
      ensures SameLinks(h0, h0)
      ensures SameLinks(h0, h1) && SameLinks(h1, h2) ==> SameLinks(h0, h2)
    {
    }

    /** One record on the way leans to the side of the new key. */
    method AdjustOne(act: TreeNode, q: TreeNode, ghost c: seq<Frame>, ghost k: nat, ghost j: nat, ghost s: Tree)
      returns (next: TreeNode)
      requires Mirror() && k < j < |c| && Between(c, Value(q.dfastate)) && act == c[j].ref && |q.dfastate| == n
      requires s.Node? && s.ref == q && s.key == Value(q.dfastate)
      requires Tilting(h, c, k, j, s)
      modifies this`h, h.Keys`bal
      ensures Mirror() && h.Keys == old(h.Keys)
      ensures Tilting(h, c, k, j + 1, s)
      ensures SameLinks(old(h), h)
      ensures next in h && next == if j + 1 < |c| then c[j + 1].ref else q
    {
      hide Between, Linked, Unique, Plug, Refs, PartlyTilted;
      ghost var a, f, e := c[..k + 1] + Tilted(c[k + 1..j]), c[j], c[j + 1..];
      TiltOne(c, k, j);
      FrameLinked(h, a, f, e, s);
      FrameSide(c, Value(q.dfastate), j);
      SetBalance(h, a, f, e, s, Lean(f));
      var b := Cmp(act.dfastate, q.dfastate);
      if b == SMALL {
        SetBal(act, 1);
        next := act.tr;
      } else {
        SetBal(act, 2);
        next := act.tl;
      }
      DifferentKeys(h, c, k, j + 1, s);
    }

    lemma TiltingDone(h: map<TreeNode, Cell>, c: seq<Frame>, k: nat, s: Tree)
      requires Tilting(h, c, k, |c|, s)
      ensures Linked(h, Plug(c[..k] + [c[k]] + Tilted(c[k + 1..]), s))
    {
      TiltEnds(c, k);
    }

    /** The side of rebal on which q is, and the node there. */
    method Side(rebal: TreeNode, q: TreeNode, ghost c: seq<Frame>, ghost k: nat, ghost s: Tree)
      returns (mark: TreeNode, newbal: nat)
      requires Mirror() && k < |c| && c[k].ref == rebal && Between(c, Value(q.dfastate)) && q in h
      requires s.Node? && s.ref == q && Linked(h, Plug(c, s)) && Unique(Plug(c, s))
      ensures newbal == Lean(c[k]) && mark == if k + 1 < |c| then c[k + 1].ref else q
      ensures Tilting(h, c, k, k + 1, s)
    {
      hide Between, Linked, Unique, Plug, Refs, PartlyTilted;
      ghost var f, e := c[k], c[k + 1..];
      TiltEnds(c, k);
      assert c == c[..k] + [f] + e;
      FrameLinked(h, c[..k], f, e, s);
      FrameSide(c, Value(q.dfastate), k);
      var b := Cmp(q.dfastate, rebal.dfastate);
      if b == SMALL {
        mark, newbal := rebal.tl, 2;
      } else {
        mark, newbal := rebal.tr, 1;
      }
    }

    /** Adjust the balance factors between rebal and q. */
    method Adjust(rebal: TreeNode, q: TreeNode, ghost c: seq<Frame>, ghost k: nat, ghost s: Tree)
      returns (mark: TreeNode, newbal: nat)
      requires Mirror() && k < |c| && c[k].ref == rebal && Between(c, Value(q.dfastate)) && q in h
      requires s.Node? && s.ref == q && s.key == Value(q.dfastate) && Linked(h, Plug(c, s)) && Unique(Plug(c, s))
      modifies this`h, h.Keys`bal
      ensures Mirror() && h.Keys == old(h.Keys)
      ensures Linked(h, Plug(c[..k] + [c[k]] + Tilted(c[k + 1..]), s))
      ensures SameLinks(old(h), h)
      ensures newbal == Lean(c[k]) && mark == if k + 1 < |c| then c[k + 1].ref else q
    {
      hide Between, Linked, Unique, Plug, Refs, Tilting, SameLinks;
      SameLinksChain(h, h, h);
      ghost var h0 := h;
      mark, newbal := Side(rebal, q, c, k, s);
      var act := mark;
      ghost var j := k + 1;
      DifferentKeys(h, c, k, j, s);
      var b := Cmp(act.dfastate, q.dfastate);
      while b != EQUAL
        invariant k < j <= |c| && act in h && act == (if j < |c| then c[j].ref else q)
        invariant Mirror() && h.Keys == old(h.Keys) && SameLinks(h0, h)
        invariant Tilting(h, c, k, j, s)
        invariant b == EQUAL <==> j == |c|
        decreases |c| - j
      {
        ghost var h1 := h;
        act := AdjustOne(act, q, c, k, j, s);
        SameLinksChain(h0, h1, h);
        j := j + 1;
        DifferentKeys(h, c, k, j, s);
        b := Cmp(act.dfastate, q.dfastate);
      }
      TiltingDone(h, c, k, s);
    }

    lemma EmptyWay(s: Tree, key: nat)
      requires s.Node?
      ensures Plug([], s) == s && OnWay([], 0, s, key, baltree, s.ref)
    {
    }

    lemma NotIn(c: seq<Frame>, key: nat, t: Tree)
      requires t == Plug(c, Leaf) && Between(c, key) && Sorted(Inorder(t))
      ensures key !in Inorder(t)
    {
      PlugInorder(c, Leaf);
      var b, a := KeysBefore(c), KeysAfter(c);
      assert Inorder(t) == b + a;
    }

    // ---- restoring the balance ----

    lemma NodeLinked(h: map<TreeNode, Cell>, f: Frame, m: Tree)
      requires Linked(h, Fill(f, m)) && Unique(Fill(f, m)) && m.Node?
      ensures f.ref in h && h[f.ref] == FrameCell(f, m.ref) && m.ref in h && f.ref != m.ref
      ensures h[m.ref] == Cell(m.key, m.bal, RefOf(m.left), RefOf(m.right))
      ensures m.left.Node? ==>
        m.left.ref in h && f.ref != m.left.ref && m.left.ref != m.ref
        && h[m.left.ref] == Cell(m.left.key, m.left.bal, RefOf(m.left.left), RefOf(m.left.right))
      ensures m.right.Node? ==>
        m.right.ref in h && f.ref != m.right.ref && m.right.ref != m.ref
        && h[m.right.ref] == Cell(m.right.key, m.right.bal, RefOf(m.right.left), RefOf(m.right.right))
    {
      assert Linked(h, m) && Unique(m);
      assert Linked(h, m.left) && Linked(h, m.right);
      assert Refs(m) == {m.ref} + Refs(m.left) + Refs(m.right);
    }

    lemma SingleRoot(f: Frame, m: Tree)
      requires m.Node? && f.bal == Lean(f)
      ensures m.bal == f.bal ==> RefOf(Rebalanced(f, m)) == m.ref
      ensures m.bal != f.bal && f.onLeft && m.right.Node? ==> RefOf(Rebalanced(f, m)) == m.right.ref
      ensures m.bal != f.bal && !f.onLeft && m.left.Node? ==> RefOf(Rebalanced(f, m)) == m.left.ref
    {
    }

    /** The records after the links of a single rotation. */
    ghost predicate Turned(h: map<TreeNode, Cell>, h': map<TreeNode, Cell>, r: TreeNode, m: TreeNode, newbal: nat) {
      && r in h && m in h && r != m && SameOutside(h, h', {r, m})
      && (newbal == 1 ==> h'[r] == h[r].(tr := h[m].tl) && h'[m] == h[m].(tl := r))
      && (newbal != 1 ==> h'[r] == h[r].(tl := h[m].tr) && h'[m] == h[m].(tr := r))
    }

    /** The records after new balance factors. */
    ghost predicate Settled(h: map<TreeNode, Cell>, h': map<TreeNode, Cell>, r: TreeNode, b1: nat, m: TreeNode,
                            b2: nat) {
      && r in h && m in h && r != m && SameOutside(h, h', {r, m})
      && h'[r] == h[r].(bal := b1) && h'[m] == h[m].(bal := b2)
    }

    /** The links of a single rotation. */
    method SingleTurn(rebal: TreeNode, mark: TreeNode, newbal: nat)
      requires Mirror() && rebal in h && mark in h && rebal != mark
      modifies this`h, h.Keys`tl, h.Keys`tr
      ensures Mirror() && h.Keys == old(h.Keys) && Turned(old(h), h, rebal, mark, newbal)
    {
      if newbal == 1 {
        SetTr(rebal, mark.tl);
        SetTl(mark, rebal);
      } else {
        SetTl(rebal, mark.tr);
        SetTr(mark, rebal);
      }
    }

    /** The balance factors of the two nodes that move down in a double rotation. */
    method Settle(rebal: TreeNode, mark: TreeNode, act: TreeNode, newbal: nat)
      requires Mirror() && rebal in h && mark in h && act in h && rebal != mark && rebal != act && mark != act
      requires newbal == 1 || newbal == 2
      modifies this`h, h.Keys`bal
      ensures Mirror() && h.Keys == old(h.Keys)
      ensures Settled(old(h), h, rebal, if old(act.bal) == newbal then 3 - newbal else 0,
                      mark, if old(act.bal) == 3 - newbal then newbal else 0)
    {
      hide Settled;
      ghost var h0 := h;
      SetBal(rebal, 0);
      SetBal(mark, 0);
      SettledFirst(h0, h, rebal, mark);
      ghost var h1 := h;
      if act.bal == newbal {
        SetBal(rebal, 3 - newbal);
        SettledStep(h0, h1, rebal, mark, rebal, 3 - newbal);
      } else if act.bal == 3 - newbal {
        SetBal(mark, newbal);
        SettledStep(h0, h1, rebal, mark, mark, newbal);
      }
    }

    lemma SettledFirst(h: map<TreeNode, Cell>, h': map<TreeNode, Cell>, r: TreeNode, m: TreeNode)
      requires r in h && m in h && r != m
      requires h' == h[r := h[r].(bal := 0)][m := h[m].(bal := 0)]
      ensures h'.Keys == h.Keys && Settled(h, h', r, 0, m, 0)
    {
    }

    lemma SettledStep(h: map<TreeNode, Cell>, h': map<TreeNode, Cell>, r: TreeNode, m: TreeNode, x: TreeNode, b: nat)
      requires Settled(h, h', r, 0, m, 0) && (x == r || x == m)
      ensures x in h' && Settled(h, h'[x := h'[x].(bal := b)], r, if x == r then b else 0, m, if x == m then b else 0)
    {
    }

    /** Single rotation at rebal. */
    method Single(rebal: TreeNode, mark: TreeNode, newbal: nat, ghost f: Frame, ghost m: Tree)
      requires Mirror() && Linked(h, Fill(f, m)) && Unique(Fill(f, m)) && m.Node? && f.bal == Lean(f) == m.bal == newbal
      requires rebal == f.ref && mark == m.ref
      modifies this`h, h.Keys`bal, h.Keys`tl, h.Keys`tr
      ensures Mirror() && Linked(h, Rebalanced(f, m)) && SameOutside(old(h), h, {rebal, mark})
    {
      hide Unique, Rebalanced, Refs, Linked, Turned, Settled, SameOutside;
      ghost var h0 := h;
      NodeLinked(h, f, m);
      SingleTurn(rebal, mark, newbal);
      ghost var h1 := h;
      SetBal(rebal, 0);
      SetBal(mark, 0);
      AfterSingle(h0, h1, h, f, m);
    }

    lemma AfterSingle(h0: map<TreeNode, Cell>, h1: map<TreeNode, Cell>, h2: map<TreeNode, Cell>, f: Frame, m: Tree)
      requires Linked(h0, Fill(f, m)) && Unique(Fill(f, m)) && m.Node? && f.bal == Lean(f) == m.bal
      requires Turned(h0, h1, f.ref, m.ref, Lean(f)) && f.ref in h1 && m.ref in h1
      requires h2 == h1[f.ref := h1[f.ref].(bal := 0)][m.ref := h1[f.ref := h1[f.ref].(bal := 0)][m.ref].(bal := 0)]
      ensures Linked(h2, Rebalanced(f, m)) && SameOutside(h0, h2, {f.ref, m.ref})
    {
      hide Unique, Rebalanced, Refs, Linked;
      NodeLinked(h0, f, m);
      SingleLinked(h0, h2, f, m);
    }

    /** Double rotation at rebal: mark and the node act below it turn first. */
    method Double(rebal: TreeNode, mark: TreeNode, newbal: nat, ghost f: Frame, ghost m: Tree, ghost x: Tree)
      returns (act: TreeNode)
      requires Mirror() && Linked(h, Fill(f, m)) && Unique(Fill(f, m)) && m.Node? && f.bal == Lean(f) == newbal != m.bal
      requires x.Node? && x == (if f.onLeft then m.right else m.left) && x.bal <= 2
      requires rebal == f.ref && mark == m.ref
      modifies this`h, h.Keys`bal, h.Keys`tl, h.Keys`tr
      ensures Mirror() && Linked(h, Rebalanced(f, m)) && SameOutside(old(h), h, {rebal, mark, x.ref}) && act == x.ref
    {
      hide Unique, Rebalanced, Refs, Linked, Turned, Settled, SameOutside;
      ghost var h0 := h;
      NodeLinked(h, f, m);
      if newbal == 1 {
        act := mark.tl;
      } else {
        act := mark.tr;
      }
      SingleTurn(mark, act, 3 - newbal);
      ghost var h1 := h;
      SingleTurn(rebal, act, newbal);
      ghost var h2 := h;
      TurnedTwice(h0, h1, h2, f, m, x);
      Settle(rebal, mark, act, newbal);
      ghost var h3 := h;
      SetBal(act, 0);
      AfterDouble(h0, h1, h2, h3, f, m, x);
    }

    lemma TurnedTwice(h0: map<TreeNode, Cell>, h1: map<TreeNode, Cell>, h2: map<TreeNode, Cell>, f: Frame, m: Tree,
                      x: Tree)
      requires Linked(h0, Fill(f, m)) && Unique(Fill(f, m)) && m.Node?
      requires x.Node? && x == (if f.onLeft then m.right else m.left)
      requires Turned(h0, h1, m.ref, x.ref, 3 - Lean(f)) && Turned(h1, h2, f.ref, x.ref, Lean(f))
      ensures SameOutside(h0, h2, {f.ref, m.ref, x.ref}) && x.ref in h2 && f.ref in h2 && m.ref in h2
      ensures h2[x.ref] == Cell(x.key, x.bal, if f.onLeft then m.ref else f.ref, if f.onLeft then f.ref else m.ref)
      ensures h2[f.ref] == Cell(f.key, f.bal, RefOf(if f.onLeft then x.right else f.sibling),
                                RefOf(if f.onLeft then f.sibling else x.left))
      ensures h2[m.ref] == Cell(m.key, m.bal, RefOf(if f.onLeft then m.left else x.right),
                                RefOf(if f.onLeft then x.left else m.right))
    {
      hide Unique, Refs, Linked;
      NodeLinked(h0, f, m);
    }

    lemma AfterDouble(h0: map<TreeNode, Cell>, h1: map<TreeNode, Cell>, h2: map<TreeNode, Cell>,
                      h3: map<TreeNode, Cell>,
        f: Frame, m: Tree, x: Tree)
      requires Linked(h0, Fill(f, m)) && Unique(Fill(f, m)) && m.Node? && f.bal == Lean(f) != m.bal
      requires x.Node? && x == (if f.onLeft then m.right else m.left) && x.bal <= 2
      requires Turned(h0, h1, m.ref, x.ref, 3 - Lean(f)) && Turned(h1, h2, f.ref, x.ref, Lean(f))
      requires Settled(h2, h3, f.ref, if x.bal == Lean(f) then 3 - Lean(f) else 0,
                       m.ref, if x.bal == 3 - Lean(f) then Lean(f) else 0)
      requires x.ref in h3
      ensures var h4 := h3[x.ref := h3[x.ref].(bal := 0)];
        Linked(h4, Rebalanced(f, m)) && SameOutside(h0, h4, {f.ref, m.ref, x.ref})
    {
      hide Unique, Refs, Linked, Rebalanced;
      NodeLinked(h0, f, m);
      TurnedTwice(h0, h1, h2, f, m, x);
      hide Turned;
      var h4 := h3[x.ref := h3[x.ref].(bal := 0)];
      DoubleLinked(h0, h4, f, m, x);
    }

    /** The tree w, which need not be balanced, hangs at baltree. */
    ghost predicate Hanging(h: map<TreeNode, Cell>, w: Tree) {
      Rooted(h, w) && Linked(h, w) && Unique(w)
    }

    /** What is needed at rebal: the frame f of rebal with the grown subtree m of mark. */
    ghost predicate AtRebal(f: Frame, m: Tree, rebal: TreeNode, mark: TreeNode?, newbal: nat) {
      && rebal == f.ref && m.Node? && mark == m.ref && newbal == Lean(f)
      && (f.bal == newbal && m.bal != newbal ==>
          var x := if f.onLeft then m.right else m.left; x.Node? && x.bal <= 2)
    }

    ghost function FatherOf(c: seq<Frame>): TreeNode {
      if c == [] then baltree else c[|c| - 1].ref
    }

    /** Restore the balance at rebal. */
    method Balance(father: TreeNode, rebal: TreeNode, mark: TreeNode, newbal: nat, ghost c: seq<Frame>,
                   ghost f: Frame, ghost m: Tree)
      requires Mirror() && Hanging(h, Plug(c + [f], m)) && AtRebal(f, m, rebal, mark, newbal) && father == FatherOf(c)
      modifies this`h, h.Keys`bal, h.Keys`tl, h.Keys`tr
      ensures Mirror() && h.Keys == old(h.Keys) && Hanging(h, Plug(c, Rebalanced(f, m)))
    {
      hide Linked, Unique, Rooted, Plug, Rebalanced, Refs;
      var none: seq<Frame> := [];
      AtFrame(h, c, f, none, m);
      if rebal.bal == 0 {
        SetBal(rebal, newbal);
        EasyBalance(old(h), h, c, f, m, newbal);
      } else if rebal.bal != newbal {
        SetBal(rebal, 0);
        EasyBalance(old(h), h, c, f, m, 0);
      } else {
        Rotate(father, rebal, mark, newbal, c, f, m);
      }
    }

    lemma AtFrame(h: map<TreeNode, Cell>, c: seq<Frame>, f: Frame, e: seq<Frame>, m: Tree)
      requires Linked(h, Plug(c + [f], m)) && e == []
      ensures f.ref in h && h[f.ref] == FrameCell(f, RefOf(m))
    {
      assert c + [f] + e == c + [f];
      FrameLinked(h, c, f, e, m);
    }

    lemma EasyBalance(h: map<TreeNode, Cell>, h': map<TreeNode, Cell>, c: seq<Frame>, f: Frame, m: Tree, bal: nat)
      requires Hanging(h, Plug(c + [f], m)) && m.Node?
      requires (f.bal == 0 && bal == Lean(f)) || (f.bal != 0 && f.bal != Lean(f) && bal == 0)
      requires f.ref in h && h' == h[f.ref := h[f.ref].(bal := bal)]
      ensures Hanging(h', Plug(c, Rebalanced(f, m)))
    {
      var none: seq<Frame> := [];
      var f' := f.(bal := bal);
      assert c + [f] + none == c + [f] && c + [f'] + none == c + [f'];
      SetBalance(h, c, f, none, m, bal);
      PlugOne(c, f', m);
      RootOfPlug(c + [f], m);
      RootOfPlug(c + [f'], m);
      LastRef(c + [f], m);
    }

    /** Rotate at rebal and link the new root of the subtree to its father. */
    method Rotate(father: TreeNode, rebal: TreeNode, mark: TreeNode, newbal: nat, ghost c: seq<Frame>, ghost f: Frame,
                  ghost m: Tree)
      requires Mirror() && Hanging(h, Plug(c + [f], m)) && AtRebal(f, m, rebal, mark, newbal) && father == FatherOf(c)
      requires f.bal == newbal
      modifies this`h, h.Keys`bal, h.Keys`tl, h.Keys`tr
      ensures Mirror() && h.Keys == old(h.Keys) && Hanging(h, Plug(c, Rebalanced(f, m)))
    {
      hide Linked, Unique, Rooted, Plug, Rebalanced, Refs, SameOutside;
      ghost var h0 := h;
      Subtree(h, c, f, m);
      var act: TreeNode;
      if mark.bal == newbal {
        act := mark;
        Single(rebal, mark, newbal, f, m);
      } else {
        act := Double(rebal, mark, newbal, f, m, if f.onLeft then m.right else m.left);
      }
      SingleRoot(f, m);
      Rotated(h0, h, c, f, m);
      if father.tr == rebal {
        SetTr(father, act);
      } else {
        SetTl(father, act);
      }
    }

    /** The records of a rotated subtree, before and after the link from its father. */
    lemma Rotated(h0: map<TreeNode, Cell>, h1: map<TreeNode, Cell>, c: seq<Frame>, f: Frame, m: Tree)
      requires Hanging(h0, Plug(c, Fill(f, m))) && m.Node? && f.bal == Lean(f)
      requires m.bal != f.bal ==> if f.onLeft then m.right.Node? else m.left.Node?
      requires Linked(h1, Rebalanced(f, m)) && SameOutside(h0, h1, TurnedRefs(f, m))
      ensures h1.Keys == h0.Keys && FatherOf(c) in h1
      ensures var r, x := Rebalanced(f, m).ref, FatherOf(c);
        Hanging(h1[x := if h1[x].tr == f.ref then h1[x].(tr := r) else h1[x].(tl := r)], Plug(c, Rebalanced(f, m)))
    {
      TurnedInside(f, m);
      RebalancedSame(f, m);
      PlugUnique(c, Fill(f, m));
      PlugUnique(c, Rebalanced(f, m));
      PlugLinked(h0, c, Fill(f, m));
      RootOfPlug(c, Fill(f, m));
      RootOfPlug(c, Rebalanced(f, m));
      if c == [] {
        RotatedRoot(h0, h1, f, m);
      } else {
        RotatedBelow(h0, h1, c, f, m);
      }
    }

    ghost function TurnedRefs(f: Frame, m: Tree): set<TreeNode>
      requires m.Node?
    {
      var x := if f.onLeft then m.right else m.left;
      if m.bal != f.bal && x.Node? then {f.ref, m.ref, x.ref} else {f.ref, m.ref}
    }

    lemma TurnedInside(f: Frame, m: Tree)
      requires m.Node?
      ensures TurnedRefs(f, m) <= Refs(Fill(f, m))
    {
      assert m.left.Node? ==> m.left.ref in Refs(m.left);
      assert m.right.Node? ==> m.right.ref in Refs(m.right);
    }

    lemma RotatedRoot(h0: map<TreeNode, Cell>, h1: map<TreeNode, Cell>, f: Frame, m: Tree)
      requires Hanging(h0, Fill(f, m)) && m.Node? && Linked(h1, Rebalanced(f, m)) && Unique(Rebalanced(f, m))
      requires SameOutside(h0, h1, TurnedRefs(f, m)) && TurnedRefs(f, m) <= Refs(Fill(f, m))
      requires Refs(Rebalanced(f, m)) == Refs(Fill(f, m))
      ensures h1[baltree].tr == f.ref
      ensures Hanging(h1[baltree := h1[baltree].(tr := Rebalanced(f, m).ref)], Rebalanced(f, m))
    {
      hide Linked, Unique, Refs;
      LinkedFrame(h1, h1[baltree := h1[baltree].(tr := Rebalanced(f, m).ref)], Rebalanced(f, m));
    }

    lemma RotatedBelow(h0: map<TreeNode, Cell>, h1: map<TreeNode, Cell>, c: seq<Frame>, f: Frame, m: Tree)
      requires Hanging(h0, Plug(c, Fill(f, m))) && m.Node? && c != []
      requires Linked(h1, Rebalanced(f, m)) && SameOutside(h0, h1, TurnedRefs(f, m))
      requires TurnedRefs(f, m) <= Refs(Fill(f, m)) && Refs(Rebalanced(f, m)) == Refs(Fill(f, m))
      requires Unique(Plug(c, Rebalanced(f, m))) && Refs(Plug(c, Rebalanced(f, m))) == Refs(Plug(c, Fill(f, m)))
      requires RefOf(Plug(c, Rebalanced(f, m))) == RefOf(Plug(c, Fill(f, m)))
      ensures var r, x := Rebalanced(f, m).ref, c[|c| - 1].ref;
        && x in h1
        && Hanging(h1[x := if h1[x].tr == f.ref then h1[x].(tr := r) else h1[x].(tl := r)], Plug(c, Rebalanced(f, m)))
    {
      PlugUnique(c, Fill(f, m));
      PlugLinked(h0, c, Fill(f, m));
      HoleSide(h0, c, Fill(f, m));
      LastInside(c);
      hide Linked, Unique, Refs, Plug, Rebalanced, CtxRefs, CtxUnique, CtxLinked;
      SetHole(h0, h1, c, f.ref, Rebalanced(f, m));
    }

    lemma LastInside(c: seq<Frame>)
      requires c != []
      ensures c[|c| - 1].ref in CtxRefs(c)
    {
    }

    lemma Subtree(h: map<TreeNode, Cell>, c: seq<Frame>, f: Frame, m: Tree)
      requires Hanging(h, Plug(c + [f], m)) && m.Node?
      ensures Linked(h, Fill(f, m)) && Unique(Fill(f, m)) && m.ref in h && h[m.ref].bal == m.bal
      ensures Hanging(h, Plug(c, Fill(f, m)))
    {
      PlugOne(c, f, m);
      PlugLinked(h, c, Fill(f, m));
      PlugUnique(c, Fill(f, m));
    }

    // ---- the whole operation ----

    /** The tree after the insertion of the leaf s at the end of the way c. */
    ghost function Inserted(c: seq<Frame>, k: nat, s: Tree): Tree
      requires k < |c|
    {
      Plug(c[..k], Rebalanced(c[k], Plug(Tilted(c[k + 1..]), s)))
    }

    lemma WaySplit(c: seq<Frame>, k: nat, s: Tree)
      requires k < |c|
      ensures Plug(c, s) == Plug(c[..k], Fill(c[k], Plug(c[k + 1..], s)))
    {
      assert c == c[..k] + c[k..];
      PlugConcat(c[..k], c[k..], s);
      PlugRoot(c[k..], s);
      assert c[k..][1..] == c[k + 1..];
    }

    lemma InsertedBalanced(c: seq<Frame>, k: nat, s: Tree)
      requires k < |c| && Balanced(Plug(c, Leaf)) && Balanced(s) && Height(s) == 1
      requires (forall i :: k < i < |c| ==> c[i].bal == 0) && (c[k].bal == 0 ==> k == 0)
      ensures Balanced(Inserted(c, k, s))
      ensures AtRebal(c[k], Plug(Tilted(c[k + 1..]), s), c[k].ref, RefOf(Plug(Tilted(c[k + 1..]), s)), Lean(c[k]))
    {
      var f, d := c[k], c[k + 1..];
      var m, m' := Plug(d, Leaf), Plug(Tilted(d), s);
      WaySplit(c, k, Leaf);
      PlugBalanced(c[..k], Fill(f, m), Leaf);
      assert Even(d);
      RootOfPlug(Tilted(d), s);
      hide Plug, Tilted;
      assert Balanced(m);
      GrownSubtree(d, s);
      RebalancedBalanced(f, m, m');
      DoubleSide(f, m, m');
      PlugBalanced(c[..k], Fill(f, m), Rebalanced(f, m'));
      EmptyPlug(c[..k], Rebalanced(f, m'));
    }

    lemma EmptyPlug(c: seq<Frame>, s: Tree)
      ensures c == [] ==> Plug(c, s) == s
    {
    }

    /** The subtree below rebal grows, and leans to one side unless it is the new leaf alone. */
    lemma GrownSubtree(d: seq<Frame>, s: Tree)
      requires Even(d) && Balanced(Plug(d, Leaf)) && Balanced(s) && Height(s) == 1
      ensures var m, m' := Plug(d, Leaf), Plug(Tilted(d), s);
        Balanced(m') && Height(m') == Height(m) + 1 && m'.Node? && (m'.bal == 0 ==> m == Leaf)
    {
      TiltedGrows(d, Leaf, s);
      RootOfPlug(Tilted(d), s);
      EmptyPlug(d, Leaf);
    }

    /** A subtree that leans to the other side has a node there. */
    lemma DoubleSide(f: Frame, m: Tree, m': Tree)
      requires Balanced(Fill(f, m)) && Balanced(m') && m'.Node? && Height(m') == Height(m) + 1
      requires m'.bal == 0 ==> m == Leaf
      ensures AtRebal(f, m', f.ref, m'.ref, Lean(f))
    {
      NodeHeight(Fill(f, m));
      NodeHeight(m');
    }

    lemma InsertedKeys(c: seq<Frame>, k: nat, s: Tree, key: nat)
      requires k < |c| && Sorted(Inorder(Plug(c, Leaf))) && Unique(Plug(c, s)) && Between(c, key) && Inorder(s) == [key]
      ensures Inserted(c, k, s).Node?
      ensures Sorted(Inorder(Inserted(c, k, s))) && Refs(Inserted(c, k, s)) == Refs(Plug(c, s))
      ensures forall x :: x in Inorder(Inserted(c, k, s)) <==> x in Inorder(Plug(c, Leaf)) || x == key
      ensures Unique(Plug(c[..k] + [c[k]], Plug(Tilted(c[k + 1..]), s)))
      ensures Refs(Plug(c[..k] + [c[k]], Plug(Tilted(c[k + 1..]), s))) == Refs(Plug(c, s))
    {
      var f, d := c[k], c[k + 1..];
      var m, m' := Plug(d, s), Plug(Tilted(d), s);
      BetweenSorted(c, key, s);
      WaySplit(c, k, s);
      TiltedSame(d, s, s);
      PlugOne(c[..k], f, m');
      SameNode(f.ref, f.key, f.bal, f.bal, if f.onLeft then m else f.sibling, if f.onLeft then f.sibling else m,
               if f.onLeft then m' else f.sibling, if f.onLeft then f.sibling else m');
      RebalancedSame(f, m');
      var r := Rebalanced(f, m');
      assert Inorder(Leaf) == [];
      hide Inorder, Refs, Unique, Plug, Rebalanced, Tilted;
      PlugInorder(c[..k], Fill(f, m));
      PlugInorder(c[..k], r);
      PlugUnique(c[..k], Fill(f, m));
      PlugUnique(c[..k], Fill(f, m'));
      PlugUnique(c[..k], r);
    }

    /** Reset the links of q and take its record into account. */
    method Enter(q: TreeNode)
      requires Valid() && q !in h && |q.dfastate| == n
      modifies this`h, q`tl, q`tr, q`bal
      ensures Mirror() && h == old(h)[q := Cell(Value(q.dfastate), 0, null, null)]
      ensures Rooted(h, t) && Linked(h, t) && q != baltree && q !in Refs(t) && old(h).Keys == Refs(t) + {baltree}
      ensures Balanced(t) && Unique(t) && Sorted(Inorder(t)) && Rooted(old(h), t) && Linked(old(h), t)
    {
      q.tl := null;
      q.tr := null;
      q.bal := 0;
      h := h[q := Cell(Value(q.dfastate), 0, null, null)];
      LinkedFrame(old(h), h, t);
    }

    /** The first record becomes the root. */
    method First(q: TreeNode)
      requires Valid() && t == Leaf && q !in h && |q.dfastate| == n && q.bal == 0 && q.tl == null && q.tr == null
      modifies this`h, this`t, baltree`tr
      ensures Valid() && t.Node? && h.Keys == old(h.Keys) + {q}
      ensures Inorder(t) == [Value(q.dfastate)] && Refs(t) == {q}
    {
      ghost var s := Node(q, Value(q.dfastate), 0, Leaf, Leaf);
      LeafTree(s);
      hide Linked, Unique, Balanced, Inorder, Sorted, Value;
      h := h[q := Cell(Value(q.dfastate), q.bal, q.tl, q.tr)];
      SetTr(baltree, q);
      LeafLinked(h, s);
      t := s;
    }

    lemma LeafLinked(h: map<TreeNode, Cell>, s: Tree)
      requires s.Node? && s.left == Leaf == s.right && s.bal == 0
      requires s.ref in h && h[s.ref] == Cell(s.key, 0, null, null)
      ensures Linked(h, s)
    {
    }

    /** Insert q in the tree, unless its set of states is there. */
    method Search(q: TreeNode) returns (found: bool)
      requires Valid() && t.Node? && q !in h && |q.dfastate| == n
      modifies this`knownelem, this`h, this`t, q`tl, q`tr, q`bal, h.Keys`tl, h.Keys`tr, h.Keys`bal
      ensures Valid() && t.Node?
      ensures found <==> Value(q.dfastate) in old(Inorder(t))
      ensures found ==> h == old(h) && t == old(t) && knownelem in Refs(t) && knownelem.dfastate == q.dfastate
      ensures !found ==> knownelem == q && h.Keys == old(h.Keys) + {q} && Refs(t) == old(Refs(t)) + {q}
      ensures !found ==> forall k :: k in Inorder(t) <==> k in old(Inorder(t)) || k == Value(q.dfastate)
    {
      hide Linked, Unique, Rooted, Plug, Refs, Inorder, Balanced, Sorted, IsWay, Hanging, Valid, Mirror, Value;
      ghost var h0 := h;
      Enter(q);
      ghost var h1 := h;
      var father, rebal;
      ghost var c, k;
      found, father, rebal, c, k := Descend(q);
      if found {
        Leave(h0, q);
      } else {
        Insert(q, father, rebal, c, k, h1);
      }
    }

    method Insert(q: TreeNode, father: TreeNode, rebal: TreeNode, ghost c: seq<Frame>, ghost k: nat,
                  ghost h1: map<TreeNode, Cell>)
      requires Mirror() && IsWay(c, k, Value(q.dfastate), father, rebal) && t == Plug(c, Leaf) && c != []
      requires Balanced(t) && Sorted(Inorder(t)) && q in h && q != baltree && h.Keys == Refs(t) + {baltree, q}
      requires Rooted(h1, t) && h1.Keys == h.Keys && h[baltree] == h1[baltree]
      requires var w := Plug(c, Node(q, Value(q.dfastate), 0, Leaf, Leaf));
        Linked(h, w) && Unique(w) && Refs(w) == Refs(t) + {q}
      modifies this`h, this`t, h.Keys`tl, h.Keys`tr, h.Keys`bal
      ensures Valid() && t.Node? && h.Keys == old(h.Keys) && Refs(t) == old(Refs(t)) + {q}
      ensures forall x :: x in Inorder(t) <==> x in old(Inorder(t)) || x == Value(q.dfastate)
    {
      hide Linked, Unique, Rooted, Plug, Refs, Inorder, Balanced, Sorted, Hanging, IsWay;
      NewHanging(h1, h, c, q, Value(q.dfastate));
      Grow(q, father, rebal, c, k);
      Concluded();
    }

    /** Leave the record of q out of account again. */
    ghost method Leave(h0: map<TreeNode, Cell>, q: TreeNode)
      requires Mirror() && q !in h0 && q in h && h == h0[q := h[q]] && h0.Keys == Refs(t) + {baltree}
      requires Rooted(h0, t) && Linked(h0, t) && Balanced(t) && Unique(t) && Sorted(Inorder(t))
      modifies this`h
      ensures Valid() && h == h0
    {
      h := h0;
    }

    lemma Concluded()
      requires Mirror() && Hanging(h, t) && Balanced(t) && Sorted(Inorder(t)) && h.Keys == Refs(t) + {baltree}
      ensures Valid()
    {
    }

    lemma NewHanging(h: map<TreeNode, Cell>, h': map<TreeNode, Cell>, c: seq<Frame>, q: TreeNode, key: nat)
      requires var s := Node(q, key, 0, Leaf, Leaf);
        Rooted(h, Plug(c, Leaf)) && Linked(h', Plug(c, s)) && Unique(Plug(c, s))
        && Refs(Plug(c, s)) == Refs(Plug(c, Leaf)) + {q}
      requires h'.Keys == h.Keys && q in h && q != baltree && h'[baltree] == h[baltree] && c != []
      ensures Hanging(h', Plug(c, Node(q, key, 0, Leaf, Leaf)))
    {
      RootOfPlug(c, Leaf);
      RootOfPlug(c, Node(q, key, 0, Leaf, Leaf));
    }

    lemma TiltedHanging(h: map<TreeNode, Cell>, h': map<TreeNode, Cell>, c: seq<Frame>, k: nat, s: Tree)
      requires k < |c| && Hanging(h, Plug(c, s)) && SameLinks(h, h')
      requires Linked(h', Plug(c[..k] + [c[k]] + Tilted(c[k + 1..]), s))
      requires var w := Plug(c[..k] + [c[k]], Plug(Tilted(c[k + 1..]), s)); Unique(w) && Refs(w) == Refs(Plug(c, s))
      ensures Hanging(h', Plug(c[..k] + [c[k]], Plug(Tilted(c[k + 1..]), s)))
    {
      var a, d := c[..k] + [c[k]], Tilted(c[k + 1..]);
      PlugConcat(a, d, s);
      RootOfPlug(c, s);
      RootOfPlug(a, Plug(d, s));
    }

    lemma LeafTree(s: Tree)
      requires s.Node? && s.left == Leaf == s.right && s.bal == 0
      ensures Balanced(s) && Height(s) == 1 && Inorder(s) == [s.key]
      ensures Unique(s) && Refs(s) == {s.ref} && Sorted(Inorder(s))
    {
      assert Height(s.left) == 0 && Height(s.right) == 0 && Balanced(s.left) && Balanced(s.right);
      assert Inorder(s.left) == [] && Inorder(s.right) == [] && Refs(s.left) == {} == Refs(s.right);
      assert Unique(s.left) && Unique(s.right);
    }

    /** Adjust and rebalance the links. */
    method Relink(q: TreeNode, father: TreeNode, rebal: TreeNode, ghost c: seq<Frame>, ghost k: nat, ghost s: Tree)
      requires Mirror() && IsWay(c, k, Value(q.dfastate), father, rebal) && q in h
      requires s.Node? && s.ref == q && s.key == Value(q.dfastate) && Hanging(h, Plug(c, s))
      requires AtRebal(c[k], Plug(Tilted(c[k + 1..]), s), c[k].ref, RefOf(Plug(Tilted(c[k + 1..]), s)), Lean(c[k]))
      requires var w := Plug(c[..k] + [c[k]], Plug(Tilted(c[k + 1..]), s)); Unique(w) && Refs(w) == Refs(Plug(c, s))
      modifies this`h, h.Keys`tl, h.Keys`tr, h.Keys`bal
      ensures Mirror() && h.Keys == old(h.Keys) && Hanging(h, Inserted(c, k, s))
    {
      hide Linked, Unique, Rooted, Plug, Rebalanced, Refs, Inorder, Between, SameLinks, AtRebal;
      ghost var h0 := h;
      var mark, newbal := Adjust(rebal, q, c, k, s);
      TiltedHanging(h0, h, c, k, s);
      RootOfPlug(Tilted(c[k + 1..]), s);
      Balance(father, rebal, mark, newbal, c[..k], c[k], Plug(Tilted(c[k + 1..]), s));
    }

    /** Adjust and rebalance after q has been linked at the end of the way. */
    method Grow(q: TreeNode, father: TreeNode, rebal: TreeNode, ghost c: seq<Frame>, ghost k: nat)
      requires Mirror() && IsWay(c, k, Value(q.dfastate), father, rebal) && t == Plug(c, Leaf)
      requires Balanced(t) && Sorted(Inorder(t)) && q in h
      requires Hanging(h, Plug(c, Node(q, Value(q.dfastate), 0, Leaf, Leaf)))
      modifies this`h, this`t, h.Keys`tl, h.Keys`tr, h.Keys`bal
      ensures Mirror() && h.Keys == old(h.Keys) && Hanging(h, t) && Balanced(t) && Sorted(Inorder(t)) && t.Node?
      ensures Refs(t) == Refs(Plug(c, Node(q, Value(q.dfastate), 0, Leaf, Leaf)))
      ensures forall x :: x in Inorder(t) <==> x in old(Inorder(t)) || x == Value(q.dfastate)
    {
      hide Linked, Unique, Rooted, Plug, Refs, Inorder, Balanced, Sorted, Between, AtRebal, Inserted;
      ghost var key := Value(q.dfastate);
      ghost var s := Node(q, key, 0, Leaf, Leaf);
      LeafTree(s);
      InsertedBalanced(c, k, s);
      InsertedKeys(c, k, s, key);
      Relink(q, father, rebal, c, k, s);
      t := Inserted(c, k, s);
    }
  }
}
