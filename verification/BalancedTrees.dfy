/** Height-balanced search trees as values, trees with a hole, and the ways to restore the balance. */
module BalancedTrees {

  /** A record of the tree of nfa2dfa: a set of states, its number, its transitions and the links. */
  class TreeNode {
    var dfastate: seq<bool>
    var number: nat
    var delta: seq<nat>
    var final: bool
    var bal: nat          // 0: even, 1: the right side is higher, 2: the left side is higher
    var tl: TreeNode?
    var tr: TreeNode?

    constructor (states: nat, letters: nat)
      ensures dfastate == seq(states, _ => false) && number == 0 && delta == seq(letters + 1, _ => 0) && !final
      ensures bal == 0 && tl == null && tr == null
    {
      dfastate := seq(states, _ => false);
      number, delta, final, bal := 0, seq(letters + 1, _ => 0), false, 0;
      tl, tr := null, null;
    }
  }

  datatype Tree = Leaf | Node(ref: TreeNode, key: nat, bal: nat, left: Tree, right: Tree)

  ghost function RefOf(t: Tree): TreeNode? {
    if t.Leaf? then null else t.ref
  }

  ghost function Refs(t: Tree): set<TreeNode> {
    if t.Leaf? then {} else {t.ref} + Refs(t.left) + Refs(t.right)
  }

  ghost function Inorder(t: Tree): seq<nat> {
    if t.Leaf? then [] else Inorder(t.left) + [t.key] + Inorder(t.right)
  }

  ghost function Height(t: Tree): nat {
    if t.Leaf? then 0 else 1 + if Height(t.left) < Height(t.right) then Height(t.right) else Height(t.left)
  }

  ghost predicate Fits(bal: nat, l: nat, r: nat) {
    (bal == 0 && l == r) || (bal == 1 && r == l + 1) || (bal == 2 && l == r + 1)
  }

  /** The balance factors are the height differences, which are at most one. */
  ghost predicate Balanced(t: Tree) {
    t.Leaf? || (Balanced(t.left) && Balanced(t.right) && Fits(t.bal, Height(t.left), Height(t.right)))
  }

  /** No node occurs twice. */
  ghost predicate Unique(t: Tree) {
    t.Leaf? || (Unique(t.left) && Unique(t.right) && Refs(t.left) !! Refs(t.right)
                && t.ref !in Refs(t.left) && t.ref !in Refs(t.right))
  }

  ghost predicate Sorted(s: seq<nat>) {
    forall i, j :: 0 <= i < j < |s| ==> s[i] < s[j]
  }

  // ---- trees with a hole ----

  /** A node whose left (or right) subtree is missing. */
  datatype Frame = Frame(ref: TreeNode, key: nat, bal: nat, onLeft: bool, sibling: Tree)

  ghost function Fill(f: Frame, s: Tree): Tree {
    if f.onLeft then Node(f.ref, f.key, f.bal, s, f.sibling) else Node(f.ref, f.key, f.bal, f.sibling, s)
  }

  /** The frames from the root down to the hole, with the tree s in the hole. */
  ghost function Plug(c: seq<Frame>, s: Tree): Tree {
    if c == [] then s else Plug(c[..|c| - 1], Fill(c[|c| - 1], s))
  }

  ghost function CtxRefs(c: seq<Frame>): set<TreeNode> {
    if c == [] then {} else var f := c[|c| - 1]; CtxRefs(c[..|c| - 1]) + {f.ref} + Refs(f.sibling)
  }

  ghost predicate CtxUnique(c: seq<Frame>) {
    c == [] ||
    var f, d := c[|c| - 1], c[..|c| - 1];
      CtxUnique(d) && Unique(f.sibling) && f.ref !in Refs(f.sibling) && f.ref !in CtxRefs(d)
      && Refs(f.sibling) !! CtxRefs(d)
  }

  /** The keys in front of the hole. */
  ghost function KeysBefore(c: seq<Frame>): seq<nat> {
    if c == [] then []
    else var f := c[|c| - 1]; KeysBefore(c[..|c| - 1]) + if f.onLeft then [] else Inorder(f.sibling) + [f.key]
  }

  /** The keys behind the hole. */
  ghost function KeysAfter(c: seq<Frame>): seq<nat> {
    if c == [] then []
    else var f := c[|c| - 1]; (if f.onLeft then [f.key] + Inorder(f.sibling) else []) + KeysAfter(c[..|c| - 1])
  }

  lemma PlugOne(c: seq<Frame>, f: Frame, s: Tree)
    ensures Plug(c + [f], s) == Plug(c, Fill(f, s))
    ensures CtxRefs(c + [f]) == CtxRefs(c) + {f.ref} + Refs(f.sibling)
    ensures KeysBefore(c + [f]) == KeysBefore(c) + if f.onLeft then [] else Inorder(f.sibling) + [f.key]
    ensures KeysAfter(c + [f]) == (if f.onLeft then [f.key] + Inorder(f.sibling) else []) + KeysAfter(c)
  {
    assert (c + [f])[..|c|] == c;
  }

  lemma {:induction false} PlugConcat(c: seq<Frame>, d: seq<Frame>, s: Tree)
    ensures Plug(c + d, s) == Plug(c, Plug(d, s))
    decreases |d|
  {
    if d == [] {
      assert c + d == c;
    } else {
      var n := |d| - 1;
      assert c + d == (c + d[..n]) + [d[n]];
      PlugOne(c + d[..n], d[n], s);
      PlugConcat(c, d[..n], Fill(d[n], s));
    }
  }

  lemma {:induction false} PlugInorder(c: seq<Frame>, s: Tree)
    ensures Inorder(Plug(c, s)) == KeysBefore(c) + Inorder(s) + KeysAfter(c)
    decreases |c|
  {
    if c == [] {
      assert KeysBefore(c) + Inorder(s) + KeysAfter(c) == Inorder(s);
    } else {
      var n := |c| - 1;
      var f, d := c[n], c[..n];
      PlugInorder(d, Fill(f, s));
      FillKeys(KeysBefore(d), Inorder(s), f.key, Inorder(f.sibling), KeysAfter(d));
      assert KeysBefore(c) == KeysBefore(d) + if f.onLeft then [] else Inorder(f.sibling) + [f.key];
    }
  }

  lemma FillKeys(b: seq<nat>, s: seq<nat>, k: nat, t: seq<nat>, a: seq<nat>)
    ensures b + (s + [k] + t) + a == (b + []) + s + (([k] + t) + a)
    ensures b + (t + [k] + s) + a == (b + (t + [k])) + s + ([] + a)
  {
  }

  lemma {:induction false} PlugUnique(c: seq<Frame>, s: Tree)
    ensures Refs(Plug(c, s)) == CtxRefs(c) + Refs(s)
    ensures Unique(Plug(c, s)) <==> Unique(s) && CtxUnique(c) && Refs(s) !! CtxRefs(c)
    decreases |c|
  {
    if c != [] {
      PlugUnique(c[..|c| - 1], Fill(c[|c| - 1], s));
    }
  }

  /** A tree of the same height in the hole keeps the balance. */
  lemma {:induction false} PlugBalanced(c: seq<Frame>, s: Tree, s': Tree)
    requires Balanced(Plug(c, s))
    ensures Balanced(s)
    ensures Balanced(s') && Height(s') == Height(s) ==>
      Balanced(Plug(c, s')) && Height(Plug(c, s')) == Height(Plug(c, s))
    decreases |c|
  {
    if c != [] {
      var n := |c| - 1;
      PlugBalanced(c[..n], Fill(c[n], s), Fill(c[n], s'));
    }
  }

  // ---- a tree that grows in the hole ----

  /** Every node on the way to the hole leans towards it. */
  ghost function Tilted(c: seq<Frame>): (d: seq<Frame>)
    ensures |d| == |c| && forall i :: 0 <= i < |c| ==> d[i] == c[i].(bal := if c[i].onLeft then 2 else 1)
  {
    seq(|c|, i requires 0 <= i < |c| => c[i].(bal := if c[i].onLeft then 2 else 1))
  }

  ghost predicate Even(c: seq<Frame>) {
    forall i :: 0 <= i < |c| ==> c[i].bal == 0
  }

  /** A node that was even leans towards the side that has grown. */
  lemma OneGrows(f: Frame, s: Tree, s': Tree)
    requires f.bal == 0 && Balanced(Fill(f, s)) && Balanced(s') && Height(s') == Height(s) + 1
    ensures var g := f.(bal := if f.onLeft then 2 else 1);
            Balanced(Fill(g, s')) && Height(Fill(g, s')) == Height(Fill(f, s)) + 1
  {
  }

  lemma {:induction false} TiltedGrows(c: seq<Frame>, s: Tree, s': Tree)
    requires Even(c) && Balanced(Plug(c, s)) && Balanced(s') && Height(s') == Height(s) + 1
    ensures Balanced(Plug(Tilted(c), s')) && Height(Plug(Tilted(c), s')) == Height(Plug(c, s)) + 1
    decreases |c|
  {
    hide Balanced, Height, Fill;
    if c != [] {
      var n := |c| - 1;
      var f := c[n].(bal := if c[n].onLeft then 2 else 1);
      PlugBalanced(c[..n], Fill(c[n], s), Leaf);
      OneGrows(c[n], s, s');
      TiltedGrows(c[..n], Fill(c[n], s), Fill(f, s'));
      assert Tilted(c)[..n] == Tilted(c[..n]);
    }
  }

  /** Balance factors do not matter for the keys and the nodes. */
  lemma {:induction false} TiltedSame(c: seq<Frame>, s: Tree, s': Tree)
    requires Inorder(s') == Inorder(s) && Refs(s') == Refs(s) && (Unique(s') <==> Unique(s))
    ensures var t, t' := Plug(c, s), Plug(Tilted(c), s');
      Inorder(t') == Inorder(t) && Refs(t') == Refs(t) && (Unique(t') <==> Unique(t))
    decreases |c|
  {
    if c != [] {
      var n := |c| - 1;
      assert Tilted(c)[..n] == Tilted(c[..n]);
      TiltedSame(c[..n], Fill(c[n], s), Fill(Tilted(c)[n], s'));
    }
  }

  /** The node of the first frame is the root. */
  lemma PlugRoot(c: seq<Frame>, s: Tree)
    requires c != []
    ensures Plug(c, s) == Fill(c[0], Plug(c[1..], s))
  {
    assert c == [c[0]] + c[1..];
    PlugConcat([c[0]], c[1..], s);
    var none: seq<Frame> := [];
    PlugOne(none, c[0], Plug(c[1..], s));
    assert none + [c[0]] == [c[0]];
  }

  ghost function Lean(f: Frame): nat {
    if f.onLeft then 2 else 1
  }

  /** The node of the frame f with the grown subtree m, brought back into balance. */
  ghost function Rebalanced(f: Frame, m: Tree): Tree {
    if f.bal == 0 then Fill(f.(bal := Lean(f)), m)
    else if f.bal != Lean(f) then Fill(f.(bal := 0), m)
    else if m.Leaf? then Fill(f, m)
    else if m.bal == Lean(f) then
      if f.onLeft then Node(m.ref, m.key, 0, m.left, Node(f.ref, f.key, 0, m.right, f.sibling))
      else Node(m.ref, m.key, 0, Node(f.ref, f.key, 0, f.sibling, m.left), m.right)
    else if f.onLeft then
      var x := m.right;
      if x.Leaf? then Fill(f, m)
      else Node(x.ref, x.key, 0,
                Node(m.ref, m.key, if x.bal == 1 then 2 else 0, m.left, x.left),
                Node(f.ref, f.key, if x.bal == 2 then 1 else 0, x.right, f.sibling))
    else
      var x := m.left;
      if x.Leaf? then Fill(f, m)
      else Node(x.ref, x.key, 0,
                Node(f.ref, f.key, if x.bal == 1 then 2 else 0, f.sibling, x.left),
                Node(m.ref, m.key, if x.bal == 2 then 1 else 0, x.right, m.right))
  }

  lemma NodeHeight(t: Tree)
    requires t.Node? && Balanced(t)
    ensures Balanced(t.left) && Balanced(t.right) && Fits(t.bal, Height(t.left), Height(t.right))
    ensures Height(t) == 1 + if t.bal == 1 then Height(t.right) else Height(t.left)
  {
  }

  lemma EvenNode(r: TreeNode, k: nat, bal: nat, a: Tree, b: Tree)
    requires Balanced(a) && Balanced(b) && Fits(bal, Height(a), Height(b))
    ensures Balanced(Node(r, k, bal, a, b))
    ensures Height(Node(r, k, bal, a, b)) == 1 + if bal == 1 then Height(b) else Height(a)
  {
  }

  /** Restoring the balance undoes the growth, except in a node that was even. */
  lemma RebalancedBalanced(f: Frame, m: Tree, m': Tree)
    requires Balanced(Fill(f, m)) && Balanced(m') && Height(m') == Height(m) + 1
    requires m' != Leaf && (m'.bal == 0 ==> m == Leaf)
    ensures Balanced(Rebalanced(f, m'))
    ensures Height(Rebalanced(f, m')) == Height(Fill(f, m)) + if f.bal == 0 then 1 else 0
  {
    NodeHeight(Fill(f, m));
    NodeHeight(m');
    hide Balanced, Height;
    var s := f.sibling;
    if f.bal == 0 || f.bal != Lean(f) {
      EvenNode(f.ref, f.key, if f.bal == 0 then Lean(f) else 0, if f.onLeft then m' else s, if f.onLeft then s else m');
    } else if m'.bal == Lean(f) {
      if f.onLeft {
        EvenNode(f.ref, f.key, 0, m'.right, s);
        EvenNode(m'.ref, m'.key, 0, m'.left, Node(f.ref, f.key, 0, m'.right, s));
      } else {
        EvenNode(f.ref, f.key, 0, s, m'.left);
        EvenNode(m'.ref, m'.key, 0, Node(f.ref, f.key, 0, s, m'.left), m'.right);
      }
    } else {
      LeafHeight(m);
      LeafHeight(if f.onLeft then m'.right else m'.left);
      DoubleBalanced(f, m, m');
    }
  }

  lemma LeafHeight(t: Tree)
    ensures t == Leaf <==> Height(t) == 0
  {
  }

  lemma DoubleBalanced(f: Frame, m: Tree, m': Tree)
    requires Balanced(m') && m'.Node? && Balanced(f.sibling) && Height(f.sibling) + 2 == Height(m')
    requires if f.onLeft then m'.bal == 1 && m'.right.Node? else m'.bal == 2 && m'.left.Node?
    requires f.bal == Lean(f)
    ensures Balanced(Rebalanced(f, m')) && Height(Rebalanced(f, m')) == Height(m')
  {
    NodeHeight(m');
    var x, s := if f.onLeft then m'.right else m'.left, f.sibling;
    NodeHeight(x);
    hide Balanced, Height;
    if f.onLeft {
      var b1, b2 := if x.bal == 1 then 2 else 0, if x.bal == 2 then 1 else 0;
      EvenNode(m'.ref, m'.key, b1, m'.left, x.left);
      EvenNode(f.ref, f.key, b2, x.right, s);
      EvenNode(x.ref, x.key, 0, Node(m'.ref, m'.key, b1, m'.left, x.left), Node(f.ref, f.key, b2, x.right, s));
    } else {
      var b1, b2 := if x.bal == 1 then 2 else 0, if x.bal == 2 then 1 else 0;
      EvenNode(f.ref, f.key, b1, s, x.left);
      EvenNode(m'.ref, m'.key, b2, x.right, m'.right);
      EvenNode(x.ref, x.key, 0, Node(f.ref, f.key, b1, s, x.left), Node(m'.ref, m'.key, b2, x.right, m'.right));
    }
  }

  lemma NodeInorder(r: TreeNode, k: nat, bal: nat, a: Tree, b: Tree)
    ensures Inorder(Node(r, k, bal, a, b)) == Inorder(a) + [k] + Inorder(b)
    ensures Refs(Node(r, k, bal, a, b)) == {r} + Refs(a) + Refs(b)
    ensures Unique(Node(r, k, bal, a, b)) <==>
      Unique(a) && Unique(b) && Refs(a) !! Refs(b) && r !in Refs(a) && r !in Refs(b)
  {
  }

  /** Rotations keep the keys in order and the nodes. */
  lemma RotateRight(r: TreeNode, k: nat, bal: nat, m: Tree, s: Tree, b1: nat, b2: nat)
    requires m.Node?
    ensures var t, t' := Node(r, k, bal, m, s), Node(m.ref, m.key, b1, m.left, Node(r, k, b2, m.right, s));
      Inorder(t') == Inorder(t) && Refs(t') == Refs(t) && (Unique(t') <==> Unique(t))
  {
    NodeInorder(r, k, bal, m, s);
    NodeInorder(m.ref, m.key, m.bal, m.left, m.right);
    NodeInorder(r, k, b2, m.right, s);
    NodeInorder(m.ref, m.key, b1, m.left, Node(r, k, b2, m.right, s));
    hide Inorder, Refs, Unique;
    assert Inorder(m.left) + [m.key] + Inorder(m.right) + [k] + Inorder(s)
        == Inorder(m.left) + [m.key] + (Inorder(m.right) + [k] + Inorder(s));
  }

  lemma SameNode(r: TreeNode, k: nat, bal: nat, bal': nat, a: Tree, b: Tree, a': Tree, b': Tree)
    requires Inorder(a') == Inorder(a) && Refs(a') == Refs(a) && (Unique(a') <==> Unique(a))
    requires Inorder(b') == Inorder(b) && Refs(b') == Refs(b) && (Unique(b') <==> Unique(b))
    ensures var t, t' := Node(r, k, bal, a, b), Node(r, k, bal', a', b');
      Inorder(t') == Inorder(t) && Refs(t') == Refs(t) && (Unique(t') <==> Unique(t))
  {
  }

  lemma RebalancedSame(f: Frame, m: Tree)
    ensures Inorder(Rebalanced(f, m)) == Inorder(Fill(f, m))
    ensures Refs(Rebalanced(f, m)) == Refs(Fill(f, m))
    ensures Unique(Rebalanced(f, m)) <==> Unique(Fill(f, m))
  {
    hide Inorder, Refs, Unique;
    var s := f.sibling;
    var a, b := if f.onLeft then m else s, if f.onLeft then s else m;
    SameNode(f.ref, f.key, f.bal, 0, a, b, a, b);
    SameNode(f.ref, f.key, f.bal, Lean(f), a, b, a, b);
    if m.Leaf? || f.bal != Lean(f) {
    } else if m.bal == Lean(f) {
      if f.onLeft {
        RotateRight(f.ref, f.key, f.bal, m, s, 0, 0);
      } else {
        RotateRight(m.ref, m.key, 0, Node(f.ref, f.key, 0, s, m.left), m.right, f.bal, m.bal);
      }
    } else if f.onLeft && m.right.Node? {
      var x := m.right;
      var b1, b2 := if x.bal == 1 then 2 else 0, if x.bal == 2 then 1 else 0;
      var m2 := Node(x.ref, x.key, 0, Node(m.ref, m.key, b1, m.left, x.left), x.right);
      RotateRight(x.ref, x.key, 0, m2.left, x.right, m.bal, x.bal);
      SameNode(f.ref, f.key, f.bal, f.bal, m, s, m2, s);
      RotateRight(f.ref, f.key, f.bal, m2, s, 0, b2);
    } else if !f.onLeft && m.left.Node? {
      var x := m.left;
      var b1, b2 := if x.bal == 1 then 2 else 0, if x.bal == 2 then 1 else 0;
      var m2 := Node(x.ref, x.key, 0, x.left, Node(m.ref, m.key, b2, x.right, m.right));
      RotateRight(m.ref, m.key, m.bal, x, m.right, 0, b2);
      SameNode(f.ref, f.key, f.bal, f.bal, s, m, s, m2);
      RotateRight(x.ref, x.key, 0, Node(f.ref, f.key, b1, s, x.left), m2.right, f.bal, 0);
    }
  }

  // ---- links in memory ----

  /** What a record holds: its key, balance factor and links. */
  datatype Cell = Cell(key: nat, bal: nat, tl: TreeNode?, tr: TreeNode?)

  /** The records of t are linked as t says. */
  ghost predicate Linked(h: map<TreeNode, Cell>, t: Tree) {
    t.Node? ==>
      t.ref in h && h[t.ref] == Cell(t.key, t.bal, RefOf(t.left), RefOf(t.right))
      && Linked(h, t.left) && Linked(h, t.right)
  }

  ghost function FrameCell(f: Frame, hole: TreeNode?): Cell {
    if f.onLeft then Cell(f.key, f.bal, hole, RefOf(f.sibling)) else Cell(f.key, f.bal, RefOf(f.sibling), hole)
  }

  ghost predicate CtxLinked(h: map<TreeNode, Cell>, c: seq<Frame>, hole: TreeNode?) {
    c != [] ==>
      var f := c[|c| - 1];
      && f.ref in h && h[f.ref] == FrameCell(f, hole) && Linked(h, f.sibling)
      && CtxLinked(h, c[..|c| - 1], f.ref)
  }

  lemma {:induction false} PlugLinked(h: map<TreeNode, Cell>, c: seq<Frame>, s: Tree)
    ensures Linked(h, Plug(c, s)) <==> CtxLinked(h, c, RefOf(s)) && Linked(h, s)
    decreases |c|
  {
    if c != [] {
      PlugLinked(h, c[..|c| - 1], Fill(c[|c| - 1], s));
    }
  }

  /** Other records do not matter. */
  lemma {:induction false} LinkedFrame(h: map<TreeNode, Cell>, h': map<TreeNode, Cell>, t: Tree)
    requires Linked(h, t) && forall r :: r in Refs(t) && r in h ==> r in h' && h'[r] == h[r]
    ensures Linked(h', t)
  {
    if t.Node? {
      LinkedFrame(h, h', t.left);
      LinkedFrame(h, h', t.right);
    }
  }

  lemma {:induction false} CtxLinkedFrame(h: map<TreeNode, Cell>, h': map<TreeNode, Cell>, c: seq<Frame>,
                                          hole: TreeNode?)
    requires CtxLinked(h, c, hole) && forall r :: r in CtxRefs(c) && r in h ==> r in h' && h'[r] == h[r]
    ensures CtxLinked(h', c, hole)
    decreases |c|
  {
    if c != [] {
      CtxLinkedFrame(h, h', c[..|c| - 1], c[|c| - 1].ref);
      LinkedFrame(h, h', c[|c| - 1].sibling);
    }
  }

  /** A change of one balance factor on the way to the hole. */
  lemma SetBalance(h: map<TreeNode, Cell>, c: seq<Frame>, f: Frame, e: seq<Frame>, s: Tree, bal: nat)
    requires var t := Plug(c + [f] + e, s); Linked(h, t) && Unique(t)
    ensures f.ref in h && var f' := f.(bal := bal);
      Linked(h[f.ref := h[f.ref].(bal := bal)], Plug(c + [f'] + e, s))
    ensures var t, t' := Plug(c + [f] + e, s), Plug(c + [f.(bal := bal)] + e, s);
      Unique(t') && Refs(t') == Refs(t)
  {
    var u, f' := Plug(e, s), f.(bal := bal);
    PlugConcat(c + [f], e, s);
    PlugConcat(c + [f'], e, s);
    PlugOne(c, f, u);
    PlugOne(c, f', u);
    PlugLinked(h, c, Fill(f, u));
    PlugUnique(c, Fill(f, u));
    PlugUnique(c, Fill(f', u));
    var h' := h[f.ref := h[f.ref].(bal := bal)];
    LinkedFrame(h, h', u);
    LinkedFrame(h, h', f.sibling);
    CtxLinkedFrame(h, h', c, f.ref);
    PlugLinked(h', c, Fill(f', u));
  }

  /** Another tree in the hole, linked from the node above it. */
  lemma SetHole(h: map<TreeNode, Cell>, h': map<TreeNode, Cell>, c: seq<Frame>, hole: TreeNode?, s: Tree)
    requires CtxLinked(h, c, hole) && CtxUnique(c) && Linked(h', s) && Refs(s) !! CtxRefs(c)
    requires forall r :: r in CtxRefs(c) && r in h ==> r in h' && h'[r] == h[r]
    ensures c == [] ==> Linked(h', Plug(c, s))
    ensures c != [] ==>
      var f := c[|c| - 1];
      && f.ref in h'
      && Linked(h'[f.ref := if f.onLeft then h'[f.ref].(tl := RefOf(s)) else h'[f.ref].(tr := RefOf(s))], Plug(c, s))
  {
    if c != [] {
      var f, d := c[|c| - 1], c[..|c| - 1];
      var h2 := h'[f.ref := if f.onLeft then h'[f.ref].(tl := RefOf(s)) else h'[f.ref].(tr := RefOf(s))];
      CtxLinkedFrame(h, h2, d, f.ref);
      LinkedFrame(h, h2, f.sibling);
      LinkedFrame(h', h2, s);
      PlugLinked(h2, d, Fill(f, s));
    }
  }

  /** A new record in the hole. */
  lemma SetChild(h: map<TreeNode, Cell>, c: seq<Frame>, q: TreeNode, key: nat)
    requires Linked(h, Plug(c, Leaf)) && Unique(Plug(c, Leaf)) && q !in Refs(Plug(c, Leaf)) && c != []
    requires q in h && h[q] == Cell(key, 0, null, null)
    ensures var f, t := c[|c| - 1], Plug(c, Node(q, key, 0, Leaf, Leaf));
      && f.ref in h && Unique(t) && Refs(t) == Refs(Plug(c, Leaf)) + {q}
      && Linked(h[f.ref := if f.onLeft then h[f.ref].(tl := q) else h[f.ref].(tr := q)], t)
  {
    var leaf := Node(q, key, 0, Leaf, Leaf);
    assert Refs(leaf) == {q} && Unique(leaf) && Linked(h, leaf);
    PlugLinked(h, c, Leaf);
    PlugUnique(c, Leaf);
    PlugUnique(c, leaf);
    SetHole(h, h, c, null, leaf);
  }

  /** A child that is another node than its sibling. */
  lemma HoleSide(h: map<TreeNode, Cell>, c: seq<Frame>, s: Tree)
    requires c != [] && s.Node? && Linked(h, Plug(c, s)) && Unique(Plug(c, s))
    ensures var f := c[|c| - 1]; f.ref in h && (h[f.ref].tr == s.ref <==> !f.onLeft)
  {
    var f, d := c[|c| - 1], c[..|c| - 1];
    PlugLinked(h, d, Fill(f, s));
    PlugUnique(d, Fill(f, s));
  }

  // ---- rotations in memory ----

  /** The records outside d are unchanged. */
  ghost predicate SameOutside(h: map<TreeNode, Cell>, h': map<TreeNode, Cell>, d: set<TreeNode>) {
    h'.Keys == h.Keys && forall r :: r in h && r !in d ==> h'[r] == h[r]
  }

  lemma SingleLinked(h: map<TreeNode, Cell>, h': map<TreeNode, Cell>, f: Frame, m: Tree)
    requires Linked(h, Fill(f, m)) && Unique(Fill(f, m)) && m.Node? && f.bal == Lean(f) == m.bal
    requires SameOutside(h, h', {f.ref, m.ref}) && f.ref in h && m.ref in h
    requires if f.onLeft
      then h'[f.ref] == Cell(f.key, 0, RefOf(m.right), RefOf(f.sibling))
           && h'[m.ref] == Cell(m.key, 0, RefOf(m.left), f.ref)
      else h'[f.ref] == Cell(f.key, 0, RefOf(f.sibling), RefOf(m.left))
           && h'[m.ref] == Cell(m.key, 0, f.ref, RefOf(m.right))
    ensures Linked(h', Rebalanced(f, m))
  {
    LinkedFrame(h, h', f.sibling);
    LinkedFrame(h, h', m.left);
    LinkedFrame(h, h', m.right);
  }

  /** The records after a double rotation with the middle node x. */
  ghost predicate DoubleCells(h': map<TreeNode, Cell>, f: Frame, m: Tree, x: Tree)
    requires x.Node? && m.Node?
  {
    var b1, b2 := if x.bal == 1 then 2 else 0, if x.bal == 2 then 1 else 0;
    && f.ref in h' && m.ref in h' && x.ref in h'
    && h'[x.ref] == Cell(x.key, 0, if f.onLeft then m.ref else f.ref, if f.onLeft then f.ref else m.ref)
    && (f.onLeft ==> h'[m.ref] == Cell(m.key, b1, RefOf(m.left), RefOf(x.left)))
    && (f.onLeft ==> h'[f.ref] == Cell(f.key, b2, RefOf(x.right), RefOf(f.sibling)))
    && (!f.onLeft ==> h'[f.ref] == Cell(f.key, b1, RefOf(f.sibling), RefOf(x.left)))
    && (!f.onLeft ==> h'[m.ref] == Cell(m.key, b2, RefOf(x.right), RefOf(m.right)))
  }

  lemma DoubleLinked(h: map<TreeNode, Cell>, h': map<TreeNode, Cell>, f: Frame, m: Tree, x: Tree)
    requires Linked(h, Fill(f, m)) && Unique(Fill(f, m)) && m.Node? && f.bal == Lean(f) != m.bal
    requires x.Node? && x == if f.onLeft then m.right else m.left
    requires SameOutside(h, h', {f.ref, m.ref, x.ref}) && DoubleCells(h', f, m, x)
    ensures Linked(h', Rebalanced(f, m))
  {
    var y := if f.onLeft then m.left else m.right;
    assert Linked(h, m) && Linked(h, x) && Linked(h, y) && Linked(h, f.sibling);
    assert Linked(h, x.left) && Linked(h, x.right);
    DoubleUnique(f, m, x, y);
    LinkedFrame(h, h', f.sibling);
    LinkedFrame(h, h', y);
    LinkedFrame(h, h', x.left);
    LinkedFrame(h, h', x.right);
  }

  lemma DoubleUnique(f: Frame, m: Tree, x: Tree, y: Tree)
    requires Unique(Fill(f, m)) && m.Node? && x.Node?
    requires (x == m.right && y == m.left) || (x == m.left && y == m.right)
    ensures {f.ref, m.ref, x.ref} !! Refs(f.sibling) + Refs(y) + Refs(x.left) + Refs(x.right)
    ensures f.ref != m.ref && f.ref != x.ref && m.ref != x.ref
  {
    assert Unique(m) && Unique(x) && Refs(m) == {m.ref} + Refs(x) + Refs(y);
    assert Refs(x) == {x.ref} + Refs(x.left) + Refs(x.right);
  }

  // ---- the way to a key ----

  /** The key belongs into the hole. */
  ghost predicate Between(c: seq<Frame>, key: nat) {
    AllBelow(KeysBefore(c), key) && AllAbove(KeysAfter(c), key)
  }

  /** Every node on the way to the hole tells on which side the key belongs. */
  lemma {:induction false} FrameSide(c: seq<Frame>, key: nat, i: nat)
    requires Between(c, key) && i < |c|
    ensures if c[i].onLeft then key < c[i].key else c[i].key < key
    decreases |c|
  {
    var n := |c| - 1;
    var f, d := c[n], c[..n];
    var b, a := KeysBefore(c), KeysAfter(c);
    if i == n {
      if f.onLeft {
        assert a[0] == f.key;
      } else {
        assert b[|b| - 1] == f.key;
      }
    } else {
      var b', a' := KeysBefore(d), KeysAfter(d);
      assert forall j :: 0 <= j < |b'| ==> b'[j] == b[j];
      assert forall j :: 0 <= j < |a'| ==> a'[j] == a[|a| - |a'| + j];
      FrameSide(d, key, i);
    }
  }

  lemma SortedSplit(x: seq<nat>, k: nat, y: seq<nat>)
    requires Sorted(x + [k] + y)
    ensures AllBelow(x, k) && AllAbove(y, k)
  {
    var all := x + [k] + y;
    assert all[|x|] == k;
    assert forall i :: 0 <= i < |x| ==> all[i] == x[i];
    assert forall i :: 0 <= i < |y| ==> all[|x| + 1 + i] == y[i];
  }

  ghost function Step(s: Tree, left: bool): Frame
    requires s.Node?
  {
    Frame(s.ref, s.key, s.bal, left, if left then s.right else s.left)
  }

  ghost predicate AllBelow(s: seq<nat>, k: nat) {
    forall i :: 0 <= i < |s| ==> s[i] < k
  }

  ghost predicate AllAbove(s: seq<nat>, k: nat) {
    forall i :: 0 <= i < |s| ==> k < s[i]
  }

  lemma SortedSides(x: seq<nat>, k: nat, y: seq<nat>, key: nat)
    requires AllBelow(x, k) && AllAbove(y, k)
    ensures key > k ==> AllBelow(x + [k], key)
    ensures key < k ==> AllAbove([k] + y, key)
  {
  }

  lemma SideParts(x: seq<nat>, y: seq<nat>, k: nat)
    ensures AllBelow(x + y, k) <==> AllBelow(x, k) && AllBelow(y, k)
    ensures AllAbove(x + y, k) <==> AllAbove(x, k) && AllAbove(y, k)
  {
    assert forall i :: 0 <= i < |x| ==> (x + y)[i] == x[i];
    assert forall i :: 0 <= i < |y| ==> (x + y)[|x| + i] == y[i];
  }

  lemma SortedPieces(b: seq<nat>, l: seq<nat>, k: nat, r: seq<nat>, a: seq<nat>)
    requires Sorted(b + (l + [k] + r) + a)
    ensures AllBelow(l, k) && AllAbove(r, k)
  {
    assert b + (l + [k] + r) + a == (b + l) + [k] + (r + a);
    SortedSplit(b + l, k, r + a);
    SideParts(b, l, k);
    SideParts(r, a, k);
  }

  /** One step down: the key belongs into the subtree on its side. */
  lemma BetweenStep(c: seq<Frame>, s: Tree, key: nat)
    requires s.Node? && Sorted(Inorder(Plug(c, s))) && Between(c, key) && key != s.key
    ensures Between(c + [Step(s, key < s.key)], key)
  {
    PlugInorder(c, s);
    PlugOne(c, Step(s, key < s.key), Leaf);
    var l, r := Inorder(s.left), Inorder(s.right);
    SortedPieces(KeysBefore(c), l, s.key, r, KeysAfter(c));
    hide Inorder, KeysBefore, KeysAfter, Plug, AllBelow, AllAbove;
    SortedSides(l, s.key, r, key);
    if key < s.key {
      SideParts([s.key] + r, KeysAfter(c), key);
    } else {
      SideParts(KeysBefore(c), l + [s.key], key);
    }
  }

  lemma SortedInsert(b: seq<nat>, key: nat, a: seq<nat>)
    requires Sorted(b + a) && AllBelow(b, key) && AllAbove(a, key)
    ensures Sorted(b + [key] + a)
  {
    var u, v := b + a, b + [key] + a;
    forall i, j | 0 <= i < j < |v|
      ensures v[i] < v[j]
    {
      var n := |b|;
      if j < n {
        assert u[i] < u[j];
      } else if n < i {
        assert u[i - 1] < u[j - 1];
      } else if i < n < j {
        assert u[i] < u[j - 1];
      }
    }
  }

  /** A new key in the hole keeps the order. */
  lemma BetweenSorted(c: seq<Frame>, key: nat, t: Tree)
    requires Sorted(Inorder(Plug(c, Leaf))) && Between(c, key) && Inorder(t) == [key]
    ensures Sorted(Inorder(Plug(c, t))) && key !in Inorder(Plug(c, Leaf))
    ensures forall k :: k in Inorder(Plug(c, t)) <==> k in Inorder(Plug(c, Leaf)) || k == key
  {
    PlugInorder(c, Leaf);
    PlugInorder(c, t);
    var b, a := KeysBefore(c), KeysAfter(c);
    assert Inorder(Plug(c, Leaf)) == b + a;
    assert Inorder(Plug(c, t)) == b + [key] + a;
    SortedInsert(b, key, a);
  }

  /** The record of a node on the way, which points to the next node on the way. */
  lemma FrameLinked(h: map<TreeNode, Cell>, c: seq<Frame>, f: Frame, e: seq<Frame>, s: Tree)
    requires Linked(h, Plug(c + [f] + e, s))
    ensures f.ref in h && h[f.ref] == FrameCell(f, if e == [] then RefOf(s) else e[0].ref)
  {
    var u := Plug(e, s);
    RootOfPlug(e, s);
    PlugConcat(c + [f], e, s);
    PlugOne(c, f, u);
    PlugLinked(h, c, Fill(f, u));
    hide Plug;
    assert Linked(h, Fill(f, u));
  }

  lemma RootOfPlug(e: seq<Frame>, s: Tree)
    ensures RefOf(Plug(e, s)) == if e == [] then RefOf(s) else e[0].ref
    ensures e != [] ==> Plug(e, s).Node? && Plug(e, s).bal == e[0].bal
  {
    if e != [] {
      PlugRoot(e, s);
    }
  }

  // ---- traversal in order ----

  /** The nodes in the order of their keys. */
  ghost function RefOrder(t: Tree): seq<TreeNode> {
    if t.Leaf? then [] else RefOrder(t.left) + [t.ref] + RefOrder(t.right)
  }

  /** The nodes on the stack of a traversal, the last one first, each followed by its right subtree. */
  ghost function Pending(p: seq<Tree>): seq<TreeNode> {
    if p == [] then []
    else
      var t := p[|p| - 1];
      (if t.Leaf? then [] else [t.ref] + RefOrder(t.right)) + Pending(p[..|p| - 1])
  }

  lemma PushPending(t: Tree, p: seq<Tree>)
    requires t.Node?
    ensures RefOrder(t) + Pending(p) == RefOrder(t.left) + Pending(p + [t])
  {
    assert (p + [t])[..|p|] == p;
  }

  lemma PopPending(p: seq<Tree>, visited: seq<TreeNode>)
    requires p != [] && p[|p| - 1].Node?
    ensures var c := p[|p| - 1];
      visited + (RefOrder(Leaf) + Pending(p)) == (visited + [c.ref]) + (RefOrder(c.right) + Pending(p[..|p| - 1]))
  {
    var c := p[|p| - 1];
    assert RefOrder(Leaf) + Pending(p) == Pending(p) == [c.ref] + RefOrder(c.right) + Pending(p[..|p| - 1]);
    Shift(visited, c.ref, RefOrder(c.right), Pending(p[..|p| - 1]));
  }

  lemma Shift<T>(v: seq<T>, r: T, a: seq<T>, b: seq<T>)
    ensures v + ([r] + a + b) == (v + [r]) + (a + b)
  {
  }

  lemma {:induction false} RefsInOrder(t: Tree)
    ensures forall r :: r in Refs(t) <==> r in RefOrder(t)
  {
    if t.Node? {
      RefsInOrder(t.left);
      RefsInOrder(t.right);
    }
  }
}
