/**
 The AVL nodes in memory: `struct avl_node` with its links updated in place.

 A snapshot `Mem` gives the fields of every node.  `Spells` says that a
 snapshot spells out a tree value, `CtxSpells` the same for a tree with a hole.
 Every pointer-changing routine is proved to leave exactly the value that the
 corresponding function of `AvlShape` gives.
 */
module AvlHeap {
  import opened AvlShape

  /** `struct avl_node` in the layout with a separate balance factor; `key` stands for
      the enclosing record that the comparison function looks at. */
  class AvlNode<K> {
    const key: K
    var parent: AvlNode?<K>
    var left: AvlNode?<K>
    var right: AvlNode?<K>
    var bf: int

    constructor (key: K)
      ensures this.key == key
    {
      this.key := key;
      parent, left, right, bf := null, null, null, 0;
    }
  }

  datatype Fields<K> = Fields(parent: AvlNode?<K>, left: AvlNode?<K>, right: AvlNode?<K>, bf: int)

  type Mem<K> = map<AvlNode<K>, Fields<K>>

  ghost function Snapshot<K>(s: set<AvlNode<K>>): (m: Mem<K>)
    reads s
    ensures m.Keys == s
    ensures forall n <- s :: m[n] == Fields(n.parent, n.left, n.right, n.bf)
  {
    map n | n in s :: Fields(n.parent, n.left, n.right, n.bf)
  }

  /** The pointer to the root of `t`. */
  ghost function Ptr<K>(t: Tree<AvlNode<K>>): AvlNode?<K> {
    if t.Nil? then null else t.n
  }

  /** From pointer `p`, hanging below `par`, memory `m` spells out the tree `t`. */
  ghost predicate Spells<K>(m: Mem<K>, t: Tree<AvlNode<K>>, p: AvlNode?<K>, par: AvlNode?<K>)
    decreases t
  {
    match t
    case Nil => p == null
    case Node(l, n, bf, r) =>
      && p == n && n in m && m[n].parent == par && m[n].bf == bf
      && Spells(m, l, m[n].left, n) && Spells(m, r, m[n].right, n)
  }

  /** The parent of whatever fills the hole. */
  ghost function HoleParent<K>(c: Ctx<AvlNode<K>>, rp: AvlNode?<K>): AvlNode?<K> {
    if c.Top? then rp else c.n
  }

  /** Memory around a hole that holds pointer `p`, entered at pointer `root` below `rp`, spells out `c`. */
  ghost predicate CtxSpells<K>(m: Mem<K>, c: Ctx<AvlNode<K>>, p: AvlNode?<K>, root: AvlNode?<K>, rp: AvlNode?<K>)
    decreases c
  {
    match c
    case Top => p == root
    case InLeft(up, n, bf, right) =>
      && n in m && m[n].left == p && m[n].bf == bf && m[n].parent == HoleParent(up, rp)
      && Spells(m, right, m[n].right, n) && CtxSpells(m, up, n, root, rp)
    case InRight(left, n, bf, up) =>
      && n in m && m[n].right == p && m[n].bf == bf && m[n].parent == HoleParent(up, rp)
      && Spells(m, left, m[n].left, n) && CtxSpells(m, up, n, root, rp)
  }

  ghost predicate SameOn<K>(m: Mem<K>, m': Mem<K>, s: set<AvlNode<K>>) {
    forall n <- s :: n in m && n in m' && m[n] == m'[n]
  }

  lemma {:induction false} SpellsFrame<K>(m: Mem<K>, m': Mem<K>, t: Tree<AvlNode<K>>, p: AvlNode?<K>, par: AvlNode?<K>)
    requires Spells(m, t, p, par) && SameOn(m, m', Nodes(t))
    ensures Spells(m', t, p, par)
    decreases t
  {
    if t.Node? {
      SpellsFrame(m, m', t.left, m[t.n].left, t.n);
      SpellsFrame(m, m', t.right, m[t.n].right, t.n);
    }
  }

  lemma {:induction false} CtxFrame<K>(m: Mem<K>, m': Mem<K>, c: Ctx<AvlNode<K>>, p: AvlNode?<K>, root: AvlNode?<K>,
                                       rp: AvlNode?<K>)
    requires CtxSpells(m, c, p, root, rp) && SameOn(m, m', CtxNodes(c))
    ensures CtxSpells(m', c, p, root, rp)
    decreases c
  {
    match c
    case Top =>
    case InLeft(up, n, _, right) =>
      SpellsFrame(m, m', right, m[n].right, n);
      CtxFrame(m, m', up, n, root, rp);
    case InRight(left, n, _, up) =>
      SpellsFrame(m, m', left, m[n].left, n);
      CtxFrame(m, m', up, n, root, rp);
  }

  /** A tree in a hole is the hole's surroundings plus the subtree, seen in memory. */
  lemma {:induction false} PlugSpells<K>(m: Mem<K>, c: Ctx<AvlNode<K>>, t: Tree<AvlNode<K>>, root: AvlNode?<K>,
                                         rp: AvlNode?<K>)
    ensures Spells(m, Plug(c, t), root, rp) <==>
              CtxSpells(m, c, Ptr(t), root, rp) && Spells(m, t, Ptr(t), HoleParent(c, rp))
    decreases c
  {
    if !c.Top? {
      PlugSpells(m, c.up, Fill(c, t), root, rp);
    }
  }

  /** In subtree `t` only the root's parent changed, to `par`. */
  ghost predicate Handed<K>(m: Mem<K>, m': Mem<K>, t: Tree<AvlNode<K>>, par: AvlNode?<K>) {
    t.Node? ==>
      && t.n in m && t.n in m' && m'[t.n] == m[t.n].(parent := par)
      && SameOn(m, m', Nodes(t) - {t.n})
  }

  /** Handing a subtree to a new parent changes one field of its root. */
  lemma {:induction false} Reparent<K>(m: Mem<K>, m': Mem<K>, t: Tree<AvlNode<K>>, p: AvlNode?<K>, was: AvlNode?<K>,
                                       par: AvlNode?<K>)
    requires Spells(m, t, p, was) && Distinct(t)
    requires Handed(m, m', t, par)
    ensures Spells(m', t, p, par)
  {
    if t.Node? {
      SpellsFrame(m, m', t.left, m[t.n].left, t.n);
      SpellsFrame(m, m', t.right, m[t.n].right, t.n);
    }
  }

  // ----------------------------------------------------------------- rotations

  /** The writes of `_rotate_LL`: `f.childBf` is what is stored in the node that rises. */
  ghost predicate LiftedLeft<K>(m: Mem<K>, m': Mem<K>, t: Tree<AvlNode<K>>, f: Factors)
    requires t.Node? && t.left.Node?
  {
    var n, c, g := t.n, t.left.n, t.left.right;
    && n in m && c in m && n in m' && c in m'
    && m'[n] == Fields(c, m[c].right, m[n].right, f.parentBf)
    && m'[c] == Fields(m[n].parent, m[c].left, n, f.childBf)
    && (g.Node? ==> g.n in m && g.n in m' && m'[g.n] == m[g.n].(parent := n))
    && SameOn(m, m', Nodes(t) - {n, c, Ptr(g)})
  }

  lemma {:induction false} LiftLeftSpells<K>(m: Mem<K>, m': Mem<K>, t: Tree<AvlNode<K>>, f: Factors, par: AvlNode?<K>)
    requires t.Node? && t.left.Node? && Distinct(t) && Spells(m, t, t.n, par)
    requires LiftedLeft(m, m', t, f)
    ensures Spells(m', LiftLeft(t, f), t.left.n, par)
  {
    var n, c := t.n, t.left;
    assert Spells(m, c, c.n, n) && Distinct(c);
    assert Nodes(c) == Nodes(c.left) + {c.n} + Nodes(c.right);
    Reparent(m, m', c.right, m[c.n].right, c.n, n);
    SpellsFrame(m, m', c.left, m[c.n].left, c.n);
    SpellsFrame(m, m', t.right, m[n].right, n);
  }

  ghost predicate LiftedRight<K>(m: Mem<K>, m': Mem<K>, t: Tree<AvlNode<K>>, f: Factors)
    requires t.Node? && t.right.Node?
  {
    var n, c, g := t.n, t.right.n, t.right.left;
    && n in m && c in m && n in m' && c in m'
    && m'[n] == Fields(c, m[n].left, m[c].left, f.parentBf)
    && m'[c] == Fields(m[n].parent, n, m[c].right, f.childBf)
    && (g.Node? ==> g.n in m && g.n in m' && m'[g.n] == m[g.n].(parent := n))
    && SameOn(m, m', Nodes(t) - {n, c, Ptr(g)})
  }

  lemma {:induction false} LiftRightSpells<K>(m: Mem<K>, m': Mem<K>, t: Tree<AvlNode<K>>, f: Factors, par: AvlNode?<K>)
    requires t.Node? && t.right.Node? && Distinct(t) && Spells(m, t, t.n, par)
    requires LiftedRight(m, m', t, f)
    ensures Spells(m', LiftRight(t, f), t.right.n, par)
  {
    var n, c := t.n, t.right;
    assert Spells(m, c, c.n, n) && Distinct(c);
    assert Nodes(c) == Nodes(c.left) + {c.n} + Nodes(c.right);
    Reparent(m, m', c.left, m[c.n].left, c.n, n);
    SpellsFrame(m, m', c.right, m[c.n].right, c.n);
    SpellsFrame(m, m', t.left, m[n].left, n);
  }

  /** The memory of the nodes of `t` spells out `t`. */
  ghost predicate Linked<K>(t: Tree<AvlNode<K>>, p: AvlNode?<K>, par: AvlNode?<K>)
    reads Nodes(t)
  {
    Spells(Snapshot(Nodes(t)), t, p, par)
  }

  /** The pointer writes of `_rotate_LL`. */
  method RelinkLL<K>(parent: AvlNode<K>, child: AvlNode<K>, bf: int)
    requires parent != child && child.right != parent && child.right != child
    modifies parent, child, if child.right == null then {} else {child.right}
    ensures parent.parent == child && parent.left == old(child.right)
    ensures parent.right == old(parent.right) && parent.bf == bf
    ensures child.parent == old(parent.parent) && child.left == old(child.left)
    ensures child.right == parent && child.bf == old(child.bf)
    ensures var g := old(child.right);
            g != null ==> g.parent == parent && g.left == old(g.left) && g.right == old(g.right) && g.bf == old(g.bf)
  {
    parent.bf := bf;
    parent.left := child.right;
    if child.right != null {
      child.right.parent := parent;
    }
    child.right := parent;
    child.parent := parent.parent;
    parent.parent := child;
  }

  method RelinkRR<K>(parent: AvlNode<K>, child: AvlNode<K>, bf: int)
    requires parent != child && child.left != parent && child.left != child
    modifies parent, child, if child.left == null then {} else {child.left}
    ensures parent.parent == child && parent.right == old(child.left)
    ensures parent.left == old(parent.left) && parent.bf == bf
    ensures child.parent == old(parent.parent) && child.right == old(child.right)
    ensures child.left == parent && child.bf == old(child.bf)
    ensures var g := old(child.left);
            g != null ==> g.parent == parent && g.left == old(g.left) && g.right == old(g.right) && g.bf == old(g.bf)
  {
    parent.bf := bf;
    parent.right := child.left;
    if child.left != null {
      child.left.parent := parent;
    }
    child.left := parent;
    child.parent := parent.parent;
    parent.parent := child;
  }

  /** Where memory spells out a tree, the root's children are the roots of its subtrees. */
  lemma {:induction false} Children<K>(m: Mem<K>, t: Tree<AvlNode<K>>, par: AvlNode?<K>)
    requires t.Node? && Spells(m, t, t.n, par)
    ensures m[t.n].left == Ptr(t.left) && m[t.n].right == Ptr(t.right)
    ensures Spells(m, t.left, Ptr(t.left), t.n) && Spells(m, t.right, Ptr(t.right), t.n)
    ensures Nodes(t) == Nodes(t.left) + {t.n} + Nodes(t.right)
    ensures t.left.Node? ==> t.left.n in Nodes(t.left)
    ensures t.right.Node? ==> t.right.n in Nodes(t.right)
  {
  }

  /** `_rotate_LL`.  The caller still has to store `newBf` in the node that rises. */
  method RotateLLInPlace<K>(parent: AvlNode<K>, parentBf: int, childBf: int,
                            ghost t: Tree<AvlNode<K>>, ghost par: AvlNode?<K>)
    returns (child: AvlNode<K>, newBf: int, delta: int)
    requires t.Node? && t.left.Node? && Distinct(t) && Linked(t, parent, par)
    modifies Nodes(t)
    ensures var f := LLOf(t, parentBf, childBf);
            && newBf == f.childBf && delta == f.delta
            && Linked(LiftLeft(t, f.(childBf := t.left.bf)), child, par)
  {
    ghost var m := Snapshot(Nodes(t));
    assert parent.left == t.left.n && Spells(m, t.left, t.left.n, parent) by {
      Children(m, t, par);
    }
    child := parent.left;
    assert child.left == Ptr(t.left.left) && child.right == Ptr(t.left.right) by {
      Children(m, t.left, parent);
    }
    assert Nodes(t.left) == Nodes(t.left.left) + {child} + Nodes(t.left.right);
    var f := FactorsLL(child.left != null, child.right != null, parentBf, childBf);
    newBf, delta := f.childBf, f.delta;
    RelinkLL(parent, child, f.parentBf);
    ghost var f' := f.(childBf := t.left.bf);
    ghost var m' := Snapshot(Nodes(t));
    assert LiftedLeft(m, m', t, f');
    LiftLeftKeepsNodes(t, f');
    LiftLeftSpells(m, m', t, f', par);
  }

  /** `_rotate_RR`. */
  method RotateRRInPlace<K>(parent: AvlNode<K>, parentBf: int, childBf: int,
                            ghost t: Tree<AvlNode<K>>, ghost par: AvlNode?<K>)
    returns (child: AvlNode<K>, newBf: int, delta: int)
    requires t.Node? && t.right.Node? && Distinct(t) && Linked(t, parent, par)
    modifies Nodes(t)
    ensures var f := RROf(t, parentBf, childBf);
            && newBf == f.childBf && delta == f.delta
            && Linked(LiftRight(t, f.(childBf := t.right.bf)), child, par)
  {
    ghost var m := Snapshot(Nodes(t));
    assert parent.right == t.right.n && Spells(m, t.right, t.right.n, parent) by {
      Children(m, t, par);
    }
    child := parent.right;
    assert child.left == Ptr(t.right.left) && child.right == Ptr(t.right.right) by {
      Children(m, t.right, parent);
    }
    assert Nodes(t.right) == Nodes(t.right.left) + {child} + Nodes(t.right.right);
    var f := FactorsRR(child.left != null, child.right != null, parentBf, childBf);
    newBf, delta := f.childBf, f.delta;
    RelinkRR(parent, child, f.parentBf);
    ghost var f' := f.(childBf := t.right.bf);
    ghost var m' := Snapshot(Nodes(t));
    assert LiftedRight(m, m', t, f');
    LiftRightSpells(m, m', t, f', par);
    LiftRightKeepsNodes(t, f');
  }

  /** `avl_set_bf` on the root of a subtree. */
  method SetBf<K>(p: AvlNode<K>, bf: int, ghost t: Tree<AvlNode<K>>, ghost par: AvlNode?<K>)
    requires t.Node? && Distinct(t) && Linked(t, p, par)
    modifies p`bf
    ensures Linked(t.(bf := bf), p, par)
  {
    ghost var m := Snapshot(Nodes(t));
    p.bf := bf;
    ghost var m' := Snapshot(Nodes(t));
    SpellsFrame(m, m', t.left, p.left, p);
    SpellsFrame(m, m', t.right, p.right, p);
    assert Nodes(t.(bf := bf)) == Nodes(t);
  }

  /** A child subtree was replaced, and the child pointer redirected. */
  lemma {:induction false} LeftReplaced<K>(m: Mem<K>, mid: Mem<K>, m': Mem<K>, t: Tree<AvlNode<K>>,
                                           l: Tree<AvlNode<K>>, p: AvlNode?<K>, par: AvlNode?<K>)
    requires t.Node? && Distinct(t) && Spells(m, t, t.n, par) && Nodes(l) == Nodes(t.left)
    requires t.n in m' && m'[t.n] == m[t.n].(left := p)
    requires SameOn(m, m', Nodes(t.right)) && SameOn(mid, m', Nodes(l)) && Spells(mid, l, p, t.n)
    ensures Spells(m', t.(left := l), t.n, par)
  {
    SpellsFrame(m, m', t.right, m[t.n].right, t.n);
    SpellsFrame(mid, m', l, p, t.n);
  }

  lemma {:induction false} RightReplaced<K>(m: Mem<K>, mid: Mem<K>, m': Mem<K>, t: Tree<AvlNode<K>>,
                                            r: Tree<AvlNode<K>>, p: AvlNode?<K>, par: AvlNode?<K>)
    requires t.Node? && Distinct(t) && Spells(m, t, t.n, par) && Nodes(r) == Nodes(t.right)
    requires t.n in m' && m'[t.n] == m[t.n].(right := p)
    requires SameOn(m, m', Nodes(t.left)) && SameOn(mid, m', Nodes(r)) && Spells(mid, r, p, t.n)
    ensures Spells(m', t.(right := r), t.n, par)
  {
    SpellsFrame(m, m', t.left, m[t.n].left, t.n);
    SpellsFrame(mid, m', r, p, t.n);
  }

  lemma {:induction false} SubtreesLinked<K>(t: Tree<AvlNode<K>>, par: AvlNode?<K>)
    requires t.Node? && Linked(t, t.n, par)
    ensures t.n.parent == par && t.n.bf == t.bf
    ensures t.n.left == Ptr(t.left) && Linked(t.left, t.n.left, t.n)
    ensures t.n.right == Ptr(t.right) && Linked(t.right, t.n.right, t.n)
    ensures t.left.Node? ==> t.n.left.bf == t.left.bf && t.left.n in Nodes(t.left)
    ensures t.right.Node? ==> t.n.right.bf == t.right.bf && t.right.n in Nodes(t.right)
  {
    var m := Snapshot(Nodes(t));
    Children(m, t, par);
    SpellsFrame(m, Snapshot(Nodes(t.left)), t.left, t.n.left, t.n);
    SpellsFrame(m, Snapshot(Nodes(t.right)), t.right, t.n.right, t.n);
  }

  /** Pointing `parent` at the new root of its left subtree. */
  method RedirectLeft<K>(parent: AvlNode<K>, r: AvlNode?<K>, ghost m: Mem<K>,
                         ghost t: Tree<AvlNode<K>>, ghost l: Tree<AvlNode<K>>, ghost par: AvlNode?<K>)
    requires t.Node? && parent == t.n && Distinct(t) && Spells(m, t, parent, par)
    requires Nodes(l) == Nodes(t.left) && Distinct(l) && Linked(l, r, parent)
    requires SameOn(m, Snapshot(Nodes(t)), {parent} + Nodes(t.right))
    modifies parent`left
    ensures var t' := t.(left := l); Nodes(t') == Nodes(t) && Distinct(t') && Linked(t', parent, par)
  {
    ghost var mid := Snapshot(Nodes(l));
    parent.left := r;
    ghost var m' := Snapshot(Nodes(t));
    assert SameOn(mid, m', Nodes(l));
    LeftReplaced(m, mid, m', t, l, r, par);
  }

  method RedirectRight<K>(parent: AvlNode<K>, r: AvlNode?<K>, ghost m: Mem<K>,
                          ghost t: Tree<AvlNode<K>>, ghost l: Tree<AvlNode<K>>, ghost par: AvlNode?<K>)
    requires t.Node? && parent == t.n && Distinct(t) && Spells(m, t, parent, par)
    requires Nodes(l) == Nodes(t.right) && Distinct(l) && Linked(l, r, parent)
    requires SameOn(m, Snapshot(Nodes(t)), {parent} + Nodes(t.left))
    modifies parent`right
    ensures var t' := t.(right := l); Nodes(t') == Nodes(t) && Distinct(t') && Linked(t', parent, par)
  {
    ghost var mid := Snapshot(Nodes(l));
    parent.right := r;
    ghost var m' := Snapshot(Nodes(t));
    assert SameOn(mid, m', Nodes(l));
    RightReplaced(m, mid, m', t, l, r, par);
  }

  /** The inner half of `_rotate_LR`. */
  method RaiseLeftRight<K>(parent: AvlNode<K>, ghost t: Tree<AvlNode<K>>, ghost par: AvlNode?<K>)
    returns (childBf: int, delta: int, ghost t': Tree<AvlNode<K>>)
    requires t.Node? && t.left.Node? && t.left.right.Node? && Distinct(t) && Linked(t, parent, par)
    modifies Nodes(t)
    ensures var f := RROf(t.left, t.left.bf, t.left.right.bf);
            && childBf == f.childBf && delta == f.delta
            && t' == t.(left := LiftRight(t.left, f.(childBf := t.left.right.bf)))
            && Nodes(t') == Nodes(t) && Distinct(t') && Linked(t', parent, par)
  {
    assert parent.left == t.left.n && Linked(t.left, t.left.n, parent) by {
      SubtreesLinked(t, par);
    }
    var child := parent.left;
    assert child.bf == t.left.bf && child.right == t.left.right.n && child.right.bf == t.left.right.bf by {
      SubtreesLinked(t.left, parent);
    }
    childBf := child.right.bf;
    ghost var f := RROf(t.left, t.left.bf, t.left.right.bf).(childBf := t.left.right.bf);
    ghost var l := LiftRight(t.left, f);
    ghost var m := Snapshot(Nodes(t));
    LiftRightKeepsNodes(t.left, f);
    var r;
    r, childBf, delta := RotateRRInPlace(child, child.bf, childBf, t.left, parent);
    RedirectLeft(parent, r, m, t, l, par);
    t' := t.(left := l);
  }

  /** The inner half of `_rotate_RL`. */
  method RaiseRightLeft<K>(parent: AvlNode<K>, ghost t: Tree<AvlNode<K>>, ghost par: AvlNode?<K>)
    returns (childBf: int, delta: int, ghost t': Tree<AvlNode<K>>)
    requires t.Node? && t.right.Node? && t.right.left.Node? && Distinct(t) && Linked(t, parent, par)
    modifies Nodes(t)
    ensures var f := LLOf(t.right, t.right.bf, t.right.left.bf);
            && childBf == f.childBf && delta == f.delta
            && t' == t.(right := LiftLeft(t.right, f.(childBf := t.right.left.bf)))
            && Nodes(t') == Nodes(t) && Distinct(t') && Linked(t', parent, par)
  {
    assert parent.right == t.right.n && Linked(t.right, t.right.n, parent) by {
      SubtreesLinked(t, par);
    }
    var child := parent.right;
    assert child.bf == t.right.bf && child.left == t.right.left.n && child.left.bf == t.right.left.bf by {
      SubtreesLinked(t.right, parent);
    }
    childBf := child.left.bf;
    ghost var f := LLOf(t.right, t.right.bf, t.right.left.bf).(childBf := t.right.left.bf);
    ghost var l := LiftLeft(t.right, f);
    ghost var m := Snapshot(Nodes(t));
    LiftLeftKeepsNodes(t.right, f);
    var r;
    r, childBf, delta := RotateLLInPlace(child, child.bf, childBf, t.right, parent);
    RedirectRight(parent, r, m, t, l, par);
    t' := t.(right := l);
  }

  /** A rotation followed by `avl_set_bf` of the node that rose. */
  method FinishLL<K>(parent: AvlNode<K>, parentBf: int, childBf: int, ghost t: Tree<AvlNode<K>>, ghost par: AvlNode?<K>)
    returns (r: AvlNode<K>)
    requires t.Node? && t.left.Node? && Distinct(t) && Linked(t, parent, par)
    modifies Nodes(t)
    ensures Linked(RotateLL(t, parentBf, childBf), r, par)
  {
    var bf, d;
    r, bf, d := RotateLLInPlace(parent, parentBf, childBf, t, par);
    ghost var f := LLOf(t, parentBf, childBf).(childBf := t.left.bf);
    LiftLeftKeepsNodes(t, f);
    SetBf(r, bf, LiftLeft(t, f), par);
  }

  method FinishRR<K>(parent: AvlNode<K>, parentBf: int, childBf: int, ghost t: Tree<AvlNode<K>>, ghost par: AvlNode?<K>)
    returns (r: AvlNode<K>)
    requires t.Node? && t.right.Node? && Distinct(t) && Linked(t, parent, par)
    modifies Nodes(t)
    ensures Linked(RotateRR(t, parentBf, childBf), r, par)
  {
    var bf, d;
    r, bf, d := RotateRRInPlace(parent, parentBf, childBf, t, par);
    ghost var f := RROf(t, parentBf, childBf).(childBf := t.right.bf);
    LiftRightKeepsNodes(t, f);
    SetBf(r, bf, LiftRight(t, f), par);
  }

  /** The factor the inner rotation leaves in the risen node does not matter to the outer one. */
  lemma RaisedLR<N>(t: Tree<N>, parentBf: int)
    requires t.Node? && t.left.Node? && t.left.right.Node?
    ensures var f := RROf(t.left, t.left.bf, t.left.right.bf);
            RotateLL(t.(left := LiftRight(t.left, f.(childBf := t.left.right.bf))), parentBf - f.delta, f.childBf)
            == RotateLR(t, parentBf)
  {
  }

  lemma RaisedRL<N>(t: Tree<N>, parentBf: int)
    requires t.Node? && t.right.Node? && t.right.left.Node?
    ensures var f := LLOf(t.right, t.right.bf, t.right.left.bf);
            RotateRR(t.(right := LiftLeft(t.right, f.(childBf := t.right.left.bf))), parentBf + f.delta, f.childBf)
            == RotateRL(t, parentBf)
  {
  }

  /** `_rotate_LR`. */
  method RotateLRInPlace<K>(parent: AvlNode<K>, parentBf: int, ghost t: Tree<AvlNode<K>>, ghost par: AvlNode?<K>)
    returns (r: AvlNode<K>)
    requires t.Node? && t.left.Node? && Distinct(t) && Linked(t, parent, par)
    modifies Nodes(t)
    ensures Linked(RotateLR(t, parentBf), r, par)
  {
    assert parent.left == t.left.n && parent.left.bf == t.left.bf && parent.left.right == Ptr(t.left.right) by {
      SubtreesLinked(t, par);
      SubtreesLinked(t.left, parent);
    }
    var childBf, delta := parent.left.bf, 0;
    ghost var t', goal := t, RotateLR(t, parentBf);
    if parent.left.right != null {
      childBf, delta, t' := RaiseLeftRight(parent, t, par);
      assert RotateLL(t', parentBf - delta, childBf) == goal by { RaisedLR(t, parentBf); }
    }
    r := FinishLL(parent, parentBf - delta, childBf, t', par);
  }

  /** `_rotate_RL`. */
  method RotateRLInPlace<K>(parent: AvlNode<K>, parentBf: int, ghost t: Tree<AvlNode<K>>, ghost par: AvlNode?<K>)
    returns (r: AvlNode<K>)
    requires t.Node? && t.right.Node? && Distinct(t) && Linked(t, parent, par)
    modifies Nodes(t)
    ensures Linked(RotateRL(t, parentBf), r, par)
  {
    assert parent.right == t.right.n && parent.right.bf == t.right.bf && parent.right.left == Ptr(t.right.left) by {
      SubtreesLinked(t, par);
      SubtreesLinked(t.right, parent);
    }
    var childBf, delta := parent.right.bf, 0;
    ghost var t', goal := t, RotateRL(t, parentBf);
    if parent.right.left != null {
      childBf, delta, t' := RaiseRightLeft(parent, t, par);
      assert RotateRR(t', parentBf + delta, childBf) == goal by { RaisedRL(t, parentBf); }
    }
    r := FinishRR(parent, parentBf + delta, childBf, t', par);
  }

  /** `_balance_tree`. */
  method BalanceInPlace<K>(node: AvlNode<K>, d: int, ghost t: Tree<AvlNode<K>>, ghost par: AvlNode?<K>)
    returns (r: AvlNode<K>)
    requires t.Node? && Distinct(t) && Linked(t, node, par)
    modifies Nodes(t)
    ensures Linked(Balance(t, d), r, par)
  {
    assert node.bf == t.bf && node.left == Ptr(t.left) && node.right == Ptr(t.right)
           && (t.left.Node? ==> node.left.bf == t.left.bf) && (t.right.Node? ==> node.right.bf == t.right.bf) by {
      SubtreesLinked(t, par);
    }
    var diff := node.bf + d;
    if diff < -1 && node.left != null {
      if node.left.bf <= 0 {
        r := FinishLL(node, diff, node.left.bf, t, par);
      } else {
        r := RotateLRInPlace(node, diff, t, par);
      }
    } else if diff > 1 && node.right != null {
      if node.right.bf >= 0 {
        r := FinishRR(node, diff, node.right.bf, t, par);
      } else {
        r := RotateRLInPlace(node, diff, t, par);
      }
    } else {
      SetBf(node, node.bf + d, t, par);
      r := node;
    }
  }
}
