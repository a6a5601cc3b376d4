/**
 The AVL tree object: `avl_insert`, `avl_remove`, searching and walking.
 */
module AvlTrees {
  import opened AvlShape
  import opened AvlHeap

  // ------------------------------------------------------------------- ordering

  /** The promise of an `avl_cmp_func`: the sign of `cmp` is a total order on keys. */
  ghost predicate TotalOrder<K(!new)>(cmp: (K, K) -> int) {
    && (forall a, b :: Antisymmetric(cmp, a, b))
    && (forall a, b, c :: Transitive(cmp, a, b, c))
  }

  ghost predicate Antisymmetric<K>(cmp: (K, K) -> int, a: K, b: K) {
    cmp(a, b) < 0 <==> cmp(b, a) > 0
  }

  ghost predicate Transitive<K>(cmp: (K, K) -> int, a: K, b: K, c: K) {
    cmp(a, b) <= 0 && cmp(b, c) <= 0 ==>
      cmp(a, c) <= 0 && (cmp(a, b) < 0 || cmp(b, c) < 0 ==> cmp(a, c) < 0)
  }

  ghost predicate Sorted<K>(cmp: (K, K) -> int, s: seq<AvlNode<K>>) {
    forall i, j :: 0 <= i < j < |s| ==> cmp(s[i].key, s[j].key) < 0
  }

  ghost predicate HasKey<K>(cmp: (K, K) -> int, s: seq<AvlNode<K>>, k: K) {
    exists i :: 0 <= i < |s| && cmp(s[i].key, k) == 0
  }

  /** How the descent for key `k` is steered. */
  ghost function Probe<K>(cmp: (K, K) -> int, k: K): AvlNode<K> -> int {
    (n: AvlNode<K>) => cmp(n.key, k)
  }

  lemma {:induction false} SortedSteers<K(!new)>(cmp: (K, K) -> int, k: K, s: seq<AvlNode<K>>)
    requires TotalOrder(cmp) && Sorted(cmp, s)
    ensures Steers(Probe(cmp, k), s)
  {
    var probe := Probe(cmp, k);
    forall i, j | 0 <= i < j < |s| && probe(s[i]) >= 0
      ensures probe(s[j]) > 0
    {
      assert Antisymmetric(cmp, s[i].key, k) && Antisymmetric(cmp, k, s[j].key);
      assert Transitive(cmp, k, s[i].key, s[j].key);
    }
  }

  lemma {:induction false} ZeroSplits<N>(probe: N -> int, s: seq<N>, i: nat)
    requires Steers(probe, s) && i < |s| && probe(s[i]) == 0
    ensures AllBelow(probe, s[..i]) && AllAbove(probe, s[i + 1..])
  {
  }

  /** Putting a new key between everything below it and everything above it keeps the order. */
  lemma {:induction false} SortedInsert<K(!new)>(cmp: (K, K) -> int, a: seq<AvlNode<K>>, n: AvlNode<K>,
                                                 b: seq<AvlNode<K>>)
    requires TotalOrder(cmp) && Sorted(cmp, a + b)
    requires AllBelow(Probe(cmp, n.key), a) && AllAbove(Probe(cmp, n.key), b)
    ensures Sorted(cmp, a + [n] + b)
  {
    var s, w := a + [n] + b, a + b;
    assert forall i :: 0 <= i < |a| ==> s[i] == a[i] && w[i] == a[i];
    assert forall i :: |a| < i < |s| ==> s[i] == b[i - |a| - 1] && w[i - 1] == b[i - |a| - 1];
    forall i, j | 0 <= i < j < |s|
      ensures cmp(s[i].key, s[j].key) < 0
    {
      if j < |a| {
        assert cmp(w[i].key, w[j].key) < 0;
      } else if j == |a| {
        assert Probe(cmp, n.key)(a[i]) < 0;
      } else if i < |a| {
        assert cmp(w[i].key, w[j - 1].key) < 0;
      } else if i == |a| {
        assert Probe(cmp, n.key)(b[j - |a| - 1]) > 0 && Antisymmetric(cmp, n.key, s[j].key);
      } else {
        assert cmp(w[i - 1].key, w[j - 1].key) < 0;
      }
    }
  }

  /** What a tree in memory says about the surroundings of the subtree `t` in the hole `c`. */
  lemma {:induction false} AroundHole<K>(c: Ctx<AvlNode<K>>, t: Tree<AvlNode<K>>, root: AvlNode?<K>)
    requires t.Node? && Distinct(Plug(c, t)) && Linked(Plug(c, t), root, null)
    ensures t.n.parent == HoleParent(c, null) && t.n.bf == t.bf
    ensures t.n.left == Ptr(t.left) && t.n.right == Ptr(t.right)
    ensures c.Top? ==> root == t.n
    ensures !c.Top? ==> (c.n.left == t.n <==> c.InLeft?) && (c.n.right == t.n <==> c.InRight?)
    ensures Nodes(Plug(c, t)) == CtxNodes(c) + Nodes(t)
  {
    var m := Snapshot(Nodes(Plug(c, t)));
    PlugSpells(m, c, t, root, null);
    PlugNodes(c, t);
    PlugDistinct(c, t);
    Children(m, t, HoleParent(c, null));
    match c
    case Top =>
    case InLeft(_, n, _, right) => assert Spells(m, right, m[n].right, n) && n in CtxNodes(c);
    case InRight(left, n, _, _) => assert Spells(m, left, m[n].left, n) && n in CtxNodes(c);
  }

  /** `_balance_tree` below a parent, and the parent's child pointer redirected. */
  method BalanceChild<K>(p: AvlNode<K>, node: AvlNode<K>, d: int,
                         ghost c: Ctx<AvlNode<K>>, ghost t: Tree<AvlNode<K>>, ghost root: AvlNode?<K>)
    returns (r: AvlNode<K>)
    requires !c.Top? && p == c.n && t.Node? && node == t.n
    requires Distinct(Plug(c, t)) && Linked(Plug(c, t), root, null)
    modifies Nodes(Plug(c, t))
    ensures r == Balance(t, d).n
    ensures Distinct(Plug(c, Balance(t, d))) && Linked(Plug(c, Balance(t, d)), root, null)
  {
    var wasRight := p.right == node;
    assert wasRight == c.InRight? by { AroundHole(c, t, root); }
    ghost var m, s := Snapshot(Nodes(Plug(c, t))), Balance(t, d);
    OpenHole(m, c, t, root);
    r := BalanceInPlace(node, d, t, p);
    BalanceKeepsNodes(t, d);
    Redirect(p, wasRight, r, m, c, t, s, root);
  }

  /** Storing a child pointer. */
  method SetChild<K>(p: AvlNode<K>, goLeft: bool, child: AvlNode?<K>)
    modifies p
    ensures p.left == (if goLeft then child else old(p.left))
    ensures p.right == (if goLeft then old(p.right) else child)
    ensures p.parent == old(p.parent) && p.bf == old(p.bf)
  {
    if goLeft {
      p.left := child;
    } else {
      p.right := child;
    }
  }

  method InitLeaf<K>(node: AvlNode<K>, p: AvlNode?<K>)
    modifies node
    ensures node.parent == p && node.left == null && node.right == null && node.bf == 0
  {
    node.parent := p;
    node.bf := 0;
    node.left := null;
    node.right := null;
  }

  /** Pointing the hole's parent at the subtree `s` that now fills the hole. */
  method Redirect<K>(p: AvlNode<K>, isRight: bool, r: AvlNode?<K>,
                     ghost m: Mem<K>, ghost c: Ctx<AvlNode<K>>, ghost t: Tree<AvlNode<K>>,
                     ghost s: Tree<AvlNode<K>>, ghost root: AvlNode?<K>)
    requires !c.Top? && p == c.n && isRight == c.InRight?
    requires m.Keys == CtxNodes(c) + Nodes(t) && CtxDistinct(c) && CtxNodes(c) !! Nodes(t)
    requires CtxSpells(m, c, Ptr(t), root, null) && SameOn(m, Snapshot(CtxNodes(c)), CtxNodes(c))
    requires Nodes(s) == Nodes(t) && Distinct(s) && Linked(s, r, p)
    modifies p
    ensures Distinct(Plug(c, s)) && Linked(Plug(c, s), root, null)
  {
    ghost var was := Snapshot(Nodes(s));
    SetChild(p, !isRight, r);
    PlugNodes(c, s);
    PlugDistinct(c, s);
    ghost var m' := Snapshot(CtxNodes(c) + Nodes(s));
    assert Spells(m', s, r, p) by {
      assert SameOn(was, m', Nodes(s));
      SpellsFrame(was, m', s, r, p);
    }
    assert HoleNowHolds(m, m', c, r);
    CloseHole(m, m', c, Ptr(t), s, root, root);
  }

  /** The subtree in a hole stands on its own in memory. */
  lemma {:induction false} OpenHole<K>(m: Mem<K>, c: Ctx<AvlNode<K>>, t: Tree<AvlNode<K>>, root: AvlNode?<K>)
    requires m == Snapshot(Nodes(Plug(c, t)))
    requires Distinct(Plug(c, t)) && Linked(Plug(c, t), root, null)
    ensures Nodes(Plug(c, t)) == CtxNodes(c) + Nodes(t) && CtxNodes(c) !! Nodes(t)
    ensures Distinct(t) && CtxDistinct(c)
    ensures Linked(t, Ptr(t), HoleParent(c, null)) && CtxSpells(m, c, Ptr(t), root, null)
  {
    PlugSpells(m, c, t, root, null);
    PlugNodes(c, t);
    PlugDistinct(c, t);
    SpellsFrame(m, Snapshot(Nodes(t)), t, Ptr(t), HoleParent(c, null));
  }

  /** Around the hole only the pointer into it changed, to `p`. */
  ghost predicate HoleNowHolds<K>(m: Mem<K>, m': Mem<K>, c: Ctx<AvlNode<K>>, p: AvlNode?<K>) {
    c.Top? || (
      && SameOn(m, m', CtxNodes(c) - {c.n})
      && c.n in m && c.n in m'
      && m'[c.n] == if c.InLeft? then m[c.n].(left := p) else m[c.n].(right := p))
  }

  /** The hole `c` now holds `s`. */
  lemma {:induction false} CloseHole<K>(m: Mem<K>, m': Mem<K>, c: Ctx<AvlNode<K>>, was: AvlNode?<K>,
                                        s: Tree<AvlNode<K>>,
                                        root: AvlNode?<K>, root': AvlNode?<K>)
    requires CtxDistinct(c) && CtxSpells(m, c, was, root, null)
    requires HoleNowHolds(m, m', c, Ptr(s)) && Spells(m', s, Ptr(s), HoleParent(c, null))
    requires root' == if c.Top? then Ptr(s) else root
    ensures Spells(m', Plug(c, s), root', null)
  {
    PlugSpells(m', c, s, root', null);
    match c
    case Top =>
    case InLeft(up, n, _, right) =>
      CtxFrame(m, m', up, n, root, null);
      SpellsFrame(m, m', right, m[n].right, n);
    case InRight(left, n, _, up) =>
      CtxFrame(m, m', up, n, root, null);
      SpellsFrame(m, m', left, m[n].left, n);
  }

  /** The hole `c` now holds a fresh leaf. */
  lemma {:induction false} LeafHung<K>(m: Mem<K>, m': Mem<K>, c: Ctx<AvlNode<K>>, n: AvlNode<K>, root: AvlNode?<K>,
                                       root': AvlNode?<K>)
    requires CtxDistinct(c) && CtxSpells(m, c, null, root, null) && n !in CtxNodes(c)
    requires HoleNowHolds(m, m', c, n) && n in m' && m'[n] == Fields(HoleParent(c, null), null, null, 0)
    requires root' == if c.Top? then n else root
    ensures var t := Plug(c, Node(Nil, n, 0, Nil));
            Spells(m', t, root', null) && Distinct(t) && Nodes(t) == CtxNodes(c) + {n}
  {
    var t := Node(Nil, n, 0, Nil);
    PlugNodes(c, t);
    PlugDistinct(c, t);
    assert Nodes(t) == {n} && Distinct(t);
    assert Spells(m', t, n, HoleParent(c, null));
    CloseHole(m, m', c, null, t, root, root');
  }

  // ------------------------------------------------------------- taking nodes out

  /** Objects that may be null, as a frame. */
  ghost function Some<K>(p: AvlNode?<K>): set<AvlNode<K>> {
    if p == null then {} else {p}
  }

  ghost predicate Apart<K>(p: AvlNode?<K>, q: AvlNode?<K>) {
    p == null || p != q
  }

  /** `t` in the hole `c` gives way to `s`, its only subtree. */
  method Bypass<K>(p: AvlNode?<K>, goLeft: bool, child: AvlNode?<K>, ghost c: Ctx<AvlNode<K>>,
                   ghost t: Tree<AvlNode<K>>, ghost s: Tree<AvlNode<K>>, ghost root: AvlNode?<K>)
    requires t.Node? && s in {t.left, t.right} && child == Ptr(s)
    requires p == HoleParent(c, null) && (p != null ==> goLeft == c.InLeft?)
    requires Distinct(Plug(c, t)) && Linked(Plug(c, t), root, null)
    modifies if p == null then {} else {p}, Nodes(s)
    ensures Distinct(Plug(c, s)) && Linked(Plug(c, s), if c.Top? then child else root, null)
    ensures Nodes(Plug(c, s)) == CtxNodes(c) + Nodes(s)
  {
    ghost var m := Snapshot(Nodes(Plug(c, t)));
    BypassFacts(m, c, t, s, root);
    if p != null {
      SetChild(p, goLeft, child);
    }
    if child != null {
      child.parent := p;
    }
    ghost var m' := Snapshot(CtxNodes(c) + Nodes(s));
    assert HoleNowHolds(m, m', c, Ptr(s));
    assert Handed(m, m', s, p);
    Bypassed(m, m', c, t, s, root);
  }

  lemma {:induction false} BypassFacts<K>(m: Mem<K>, c: Ctx<AvlNode<K>>, t: Tree<AvlNode<K>>, s: Tree<AvlNode<K>>,
                                          root: AvlNode?<K>)
    requires t.Node? && s in {t.left, t.right} && Distinct(Plug(c, t)) && Spells(m, Plug(c, t), root, null)
    ensures CtxDistinct(c) && Distinct(t) && Distinct(s) && CtxNodes(c) !! Nodes(s) && Nodes(s) <= Nodes(t)
    ensures Nodes(Plug(c, t)) == CtxNodes(c) + Nodes(t) && CtxNodes(c) !! Nodes(t)
    ensures CtxSpells(m, c, t.n, root, null) && Spells(m, s, Ptr(s), t.n)
    ensures s.Node? ==> s.n in Nodes(s)
    ensures !c.Top? ==> c.n in CtxNodes(c)
  {
    PlugSpells(m, c, t, root, null);
    PlugNodes(c, t);
    PlugDistinct(c, t);
    Children(m, t, HoleParent(c, null));
  }

  lemma {:induction false} Bypassed<K>(m: Mem<K>, m': Mem<K>, c: Ctx<AvlNode<K>>, t: Tree<AvlNode<K>>,
                                       s: Tree<AvlNode<K>>, root: AvlNode?<K>)
    requires t.Node? && s in {t.left, t.right} && Distinct(Plug(c, t)) && Spells(m, Plug(c, t), root, null)
    requires HoleNowHolds(m, m', c, Ptr(s))
    requires Handed(m, m', s, HoleParent(c, null))
    ensures Distinct(Plug(c, s)) && Spells(m', Plug(c, s), if c.Top? then Ptr(s) else root, null)
    ensures Nodes(Plug(c, s)) == CtxNodes(c) + Nodes(s)
  {
    BypassFacts(m, c, t, s, root);
    PlugNodes(c, s);
    PlugDistinct(c, s);
    Reparent(m, m', s, Ptr(s), t.n, HoleParent(c, null));
    CloseHole(m, m', c, t.n, s, root, if c.Top? then Ptr(s) else root);
  }

  /** In the hole `c`, `next` took the place of `node`, above the left subtree `l` and some right subtree `r`. */
  lemma {:induction false} Replaced<K>(m: Mem<K>, m': Mem<K>, c: Ctx<AvlNode<K>>, node: AvlNode<K>, next: AvlNode<K>,
                                       l: Tree<AvlNode<K>>, bf: int, r: Tree<AvlNode<K>>, root: AvlNode?<K>)
    requires CtxDistinct(c) && CtxSpells(m, c, node, root, null) && HoleNowHolds(m, m', c, next)
    requires Distinct(l) && Spells(m, l, Ptr(l), node)
    requires Handed(m, m', l, next)
    requires next in m' && m'[next] == Fields(HoleParent(c, null), Ptr(l), Ptr(r), bf)
    requires Spells(m', r, Ptr(r), next)
    ensures Spells(m', Plug(c, Node(l, next, bf, r)), if c.Top? then next else root, null)
  {
    Reparent(m, m', l, Ptr(l), node, next);
    var s := Node(l, next, bf, r);
    assert Spells(m', s, next, HoleParent(c, null));
    CloseHole(m, m', c, node, s, root, if c.Top? then next else root);
  }

  lemma {:induction false} PlaceFacts<K>(m: Mem<K>, c: Ctx<AvlNode<K>>, t: Tree<AvlNode<K>>, root: AvlNode?<K>)
    requires t.Node? && Distinct(Plug(c, t)) && Spells(m, Plug(c, t), root, null)
    ensures CtxDistinct(c) && Distinct(t) && CtxNodes(c) !! Nodes(t)
    ensures Nodes(Plug(c, t)) == CtxNodes(c) + Nodes(t) && Nodes(t) == Nodes(t.left) + {t.n} + Nodes(t.right)
    ensures CtxSpells(m, c, t.n, root, null)
    ensures t.n in m && m[t.n] == Fields(HoleParent(c, null), Ptr(t.left), Ptr(t.right), t.bf)
    ensures Spells(m, t.left, Ptr(t.left), t.n) && Spells(m, t.right, Ptr(t.right), t.n)
    ensures t.left.Node? ==> t.left.n in Nodes(t.left)
    ensures t.right.Node? ==> t.right.n in Nodes(t.right)
    ensures !c.Top? ==> c.n in CtxNodes(c)
  {
    PlugSpells(m, c, t, root, null);
    PlugNodes(c, t);
    PlugDistinct(c, t);
    Children(m, t, HoleParent(c, null));
  }

  lemma {:induction false} PlaceSets<K>(c: Ctx<AvlNode<K>>, t: Tree<AvlNode<K>>)
    requires t.Node? && Distinct(Plug(c, t))
    ensures Nodes(Plug(c, t)) == CtxNodes(c) + Nodes(t.left) + {t.n} + Nodes(t.right)
    ensures t.n !in CtxNodes(c) && t.n !in Nodes(t.left) && t.n !in Nodes(t.right)
    ensures CtxNodes(c) !! Nodes(t.left) && CtxNodes(c) !! Nodes(t.right) && Nodes(t.left) !! Nodes(t.right)
    ensures t.left.Node? ==> t.left.n in Nodes(t.left)
    ensures t.right.Node? ==> t.right.n in Nodes(t.right)
    ensures !c.Top? ==> c.n in CtxNodes(c)
  {
    PlugNodes(c, t);
    PlugDistinct(c, t);
  }

  /** In memory, `next` now has the links of the root of `t`, and its neighbours point to `next`. */
  ghost predicate LinksTaken<K>(m: Mem<K>, m': Mem<K>, c: Ctx<AvlNode<K>>, t: Tree<AvlNode<K>>, next: AvlNode<K>)
    requires t.Node?
  {
    && m.Keys == Nodes(Plug(c, t)) && m'.Keys == Nodes(Plug(c, t)) - {t.n} + {next}
    && SameOn(m, m', Nodes(Plug(c, t)) - {t.n} - Some(HoleParent(c, null)) - Some(Ptr(t.left)) - Some(Ptr(t.right)))
    && (!c.Top? ==>
          && c.n in m && c.n in m'
          && m'[c.n] == if c.InLeft? then m[c.n].(left := next) else m[c.n].(right := next))
    && (t.left.Node? ==> t.left.n in m && t.left.n in m' && m'[t.left.n] == m[t.left.n].(parent := next))
    && (t.right.Node? ==> t.right.n in m && t.right.n in m' && m'[t.right.n] == m[t.right.n].(parent := next))
    && m'[next] == Fields(HoleParent(c, null), Ptr(t.left), Ptr(t.right), t.bf)
  }

  lemma {:induction false} TakenParts<K>(m: Mem<K>, m': Mem<K>, c: Ctx<AvlNode<K>>, t: Tree<AvlNode<K>>,
                                         next: AvlNode<K>)
    requires t.Node? && Distinct(Plug(c, t)) && next !in Nodes(Plug(c, t)) && LinksTaken(m, m', c, t, next)
    ensures HoleNowHolds(m, m', c, next) && Handed(m, m', t.left, next) && Handed(m, m', t.right, next)
  {
    PlaceSets(c, t);
  }

  lemma {:induction false} RenamedNodes<K>(c: Ctx<AvlNode<K>>, t: Tree<AvlNode<K>>, next: AvlNode<K>)
    requires t.Node? && Distinct(Plug(c, t)) && next !in Nodes(Plug(c, t))
    ensures var s := t.(n := next); Distinct(Plug(c, s)) && Nodes(Plug(c, s)) == Nodes(Plug(c, t)) - {t.n} + {next}
  {
    var s := t.(n := next);
    PlaceSets(c, t);
    PlugDistinct(c, t);
    PlugNodes(c, s);
    PlugDistinct(c, s);
  }

  lemma {:induction false} PlaceTaken<K>(m: Mem<K>, m': Mem<K>, c: Ctx<AvlNode<K>>, t: Tree<AvlNode<K>>,
                                         next: AvlNode<K>, root: AvlNode?<K>)
    requires t.Node? && Distinct(Plug(c, t)) && Spells(m, Plug(c, t), root, null) && next !in Nodes(Plug(c, t))
    requires LinksTaken(m, m', c, t, next)
    ensures Spells(m', Plug(c, t.(n := next)), if c.Top? then next else root, null)
  {
    TakenParts(m, m', c, t, next);
    PlaceFacts(m, c, t, root);
    Reparent(m, m', t.right, Ptr(t.right), t.n, next);
    Replaced(m, m', c, t.n, next, t.left, t.bf, t.right, root);
  }

  /** The links of `node` that `next` takes over; its right link only if `withRight`. */
  method TakeLinks<K>(node: AvlNode<K>, next: AvlNode<K>, withRight: bool)
    requires node != next && Apart(node.parent, node) && Apart(node.left, node) && Apart(node.right, node)
    requires Apart(node.parent, next) && Apart(node.left, next) && (withRight ==> Apart(node.right, next))
    requires Apart(node.parent, node.left) && Apart(node.parent, node.right) && Apart(node.left, node.right)
    modifies next, Some(node.parent), Some(node.left), if withRight then Some(node.right) else {}
    ensures next.parent == node.parent && next.left == node.left && next.bf == node.bf
    ensures next.right == if withRight then node.right else old(next.right)
    ensures var p := node.parent; p != null ==>
              && p.left == (if old(p.left) == node then next else old(p.left))
              && p.right == (if old(p.left) == node then old(p.right) else next)
              && p.parent == old(p.parent) && p.bf == old(p.bf)
    ensures var g := node.left; g != null ==>
              g.parent == next && g.left == old(g.left) && g.right == old(g.right) && g.bf == old(g.bf)
    ensures var g := node.right; withRight && g != null ==>
              g.parent == next && g.left == old(g.left) && g.right == old(g.right) && g.bf == old(g.bf)
  {
    if node.parent != null {
      if node.parent.left == node {
        node.parent.left := next;
      } else {
        node.parent.right := next;
      }
    }
    if withRight {
      next.right := node.right;
      if node.right != null {
        node.right.parent := next;
      }
    }
    next.left := node.left;
    if node.left != null {
      node.left.parent := next;
    }
    next.parent := node.parent;
    next.bf := node.bf;
  }

  /** Taking the deep successor out from below its parent. */
  method TakeOutFirst<K>(node: AvlNode<K>, next: AvlNode<K>, ghost c: Ctx<AvlNode<K>>, ghost t: Tree<AvlNode<K>>,
                         ghost root: AvlNode?<K>)
    returns (cur: AvlNode<K>)
    requires t.Node? && node == t.n && t.right.Node? && t.right.left.Node? && next == First(t.right).n
    requires Distinct(Plug(c, t)) && Linked(Plug(c, t), root, null)
    modifies Nodes(Plug(c, t))
    ensures var c1, t1 := FirstCtx(InRight(t.left, node, t.bf, c), t.right), t.(right := DropFirst(t.right));
            c1.InLeft? && cur == c1.n && Distinct(Plug(c, t1)) && Linked(Plug(c, t1), root, null)
  {
    ghost var c1, f := FirstCtx(InRight(t.left, node, t.bf, c), t.right), First(t.right);
    assert && Plug(c1, f) == Plug(c, t) && c1.InLeft?
           && Nodes(f.right) <= Nodes(f) && CtxNodes(c1) + Nodes(f) == Nodes(Plug(c, t)) by {
      DeepFacts(c, t, node);
    }
    assert next.parent == c1.n && next.right == Ptr(f.right) by { AroundHole(c1, f, root); }
    cur := next.parent;
    Bypass(cur, true, next.right, c1, f, f.right, root);
    assert Plug(c1, f.right) == Plug(c, t.(right := DropFirst(t.right))) by {
      DeepFacts(c, t, node);
    }
  }

  /** The remaining writes of `avl_remove` when the successor was not the right child:
      it takes over both subtrees, the parent and the balance factor. */
  method TakePlace<K>(node: AvlNode<K>, next: AvlNode<K>, ghost c: Ctx<AvlNode<K>>, ghost t: Tree<AvlNode<K>>,
                      ghost root: AvlNode?<K>)
    requires t.Node? && node == t.n && Distinct(Plug(c, t)) && Linked(Plug(c, t), root, null)
    requires next !in Nodes(Plug(c, t))
    modifies Nodes(Plug(c, t)), next
    ensures var s := t.(n := next);
            && Distinct(Plug(c, s)) && Linked(Plug(c, s), if c.Top? then next else root, null)
            && Nodes(Plug(c, s)) == Nodes(Plug(c, t)) - {node} + {next}
  {
    ghost var m := Snapshot(Nodes(Plug(c, t)));
    assert && node.parent == HoleParent(c, null) && node.bf == t.bf
           && node.left == Ptr(t.left) && node.right == Ptr(t.right) by {
      AroundHole(c, t, root);
    }
    assert node.parent != null ==> (node.parent.left == node <==> c.InLeft?) by { AroundHole(c, t, root); }
    PlaceSets(c, t);
    TakeLinks(node, next, true);
    ghost var m' := Snapshot(Nodes(Plug(c, t)) - {node} + {next});
    assert SameOn(m, m', Nodes(Plug(c, t)) - {node} - Some(node.parent) - Some(node.left) - Some(node.right));
    PlaceTaken(m, m', c, t, next, root);
    RenamedNodes(c, t, next);
  }

  lemma {:induction false} ChildTookPlace<K>(m: Mem<K>, m': Mem<K>, c: Ctx<AvlNode<K>>, t: Tree<AvlNode<K>>,
                                             root: AvlNode?<K>)
    requires t.Node? && t.right.Node? && t.right.left.Nil? && Distinct(Plug(c, t)) && Spells(m, Plug(c, t), root, null)
    requires m.Keys == Nodes(Plug(c, t)) && m'.Keys == Nodes(Plug(c, t)) - {t.n}
    requires SameOn(m, m', Nodes(Plug(c, t)) - {t.n, t.right.n} - Some(HoleParent(c, null)) - Some(Ptr(t.left)))
    requires !c.Top? ==>
               && c.n in m && c.n in m'
               && m'[c.n] == if c.InLeft? then m[c.n].(left := t.right.n) else m[c.n].(right := t.right.n)
    requires t.left.Node? ==> t.left.n in m && t.left.n in m' && m'[t.left.n] == m[t.left.n].(parent := t.right.n)
    requires t.right.n in m' && m'[t.right.n] == Fields(HoleParent(c, null), Ptr(t.left), Ptr(t.right.right), t.bf)
    ensures var s := Node(t.left, t.right.n, t.bf, t.right.right);
            && Distinct(Plug(c, s)) && Spells(m', Plug(c, s), if c.Top? then t.right.n else root, null)
            && Nodes(Plug(c, s)) == Nodes(Plug(c, t)) - {t.n}
  {
    var f := t.right;
    var s := Node(t.left, f.n, t.bf, f.right);
    PlaceSets(c, t);
    assert Nodes(f) == {f.n} + Nodes(f.right);
    assert Distinct(f) by { PlugDistinct(c, t); }
    assert HoleNowHolds(m, m', c, f.n);
    assert Handed(m, m', t.left, f.n);
    assert SameOn(m, m', Nodes(f.right));
    assert Distinct(Plug(c, s)) && Nodes(Plug(c, s)) == Nodes(Plug(c, t)) - {t.n} by {
      PlugDistinct(c, t);
      PlugNodes(c, s);
      PlugDistinct(c, s);
    }
    PlaceFacts(m, c, t, root);
    Children(m, f, t.n);
    SpellsFrame(m, m', f.right, Ptr(f.right), f.n);
    Replaced(m, m', c, t.n, f.n, t.left, t.bf, f.right, root);
  }

  /** What the links of the node to be removed and of its right child say before the writes. */
  lemma {:induction false} ChildLinks<K>(c: Ctx<AvlNode<K>>, t: Tree<AvlNode<K>>, root: AvlNode?<K>)
    requires t.Node? && Distinct(Plug(c, t)) && Linked(Plug(c, t), root, null)
    requires t.right.Node? && t.right.left.Nil?
    ensures t.n.parent == HoleParent(c, null) && t.n.left == Ptr(t.left) && t.n.right == t.right.n && t.n.bf == t.bf
    ensures t.n.parent != null ==> (t.n.parent.left == t.n <==> c.InLeft?)
    ensures t.right.n.right == Ptr(t.right.right)
  {
    AroundHole(c, t, root);
    assert t.right.n.right == Ptr(t.right.right) by {
      var m := Snapshot(Nodes(Plug(c, t)));
      PlaceSets(c, t);
      PlaceFacts(m, c, t, root);
      Children(m, t.right, t.n);
    }
  }

  /** The writes of `avl_remove` when the successor is the right child: it keeps its own right subtree. */
  method ChildTakesPlace<K>(node: AvlNode<K>, next: AvlNode<K>,
                            ghost c: Ctx<AvlNode<K>>, ghost t: Tree<AvlNode<K>>, ghost root: AvlNode?<K>)
    requires t.Node? && node == t.n && Distinct(Plug(c, t)) && Linked(Plug(c, t), root, null)
    requires t.right.Node? && t.right.left.Nil? && next == t.right.n
    modifies Nodes(Plug(c, t))
    ensures var s := Node(t.left, next, t.bf, t.right.right);
            && Distinct(Plug(c, s)) && Linked(Plug(c, s), if c.Top? then next else root, null)
            && Nodes(Plug(c, s)) == Nodes(Plug(c, t)) - {node}
  {
    ghost var all := Nodes(Plug(c, t));
    ghost var m := Snapshot(all);
    ChildLinks(c, t, root);
    PlaceSets(c, t);
    TakeLinks(node, next, false);
    ghost var m' := Snapshot(all - {node});
    assert SameOn(m, m', all - {node, next} - Some(node.parent) - Some(node.left));
    ChildTookPlace(m, m', c, t, root);
  }

  /** The insertion loop's reading of what to hand to the parent `p` of the rebalanced node `r`. */
  function GrowthFromLinks<K>(p: AvlNode<K>, r: AvlNode<K>, bfOld: int): int
    reads p, r
  {
    if (r.left == null && r.right == null) || Abs(bfOld) < Abs(r.bf) then
      if p.left == r then -1 else 1
    else
      0
  }

  lemma {:induction false} LinksTellGrowth<K>(c: Ctx<AvlNode<K>>, s: Tree<AvlNode<K>>, bfOld: int, root: AvlNode?<K>)
    requires !c.Top? && s.Node? && Distinct(Plug(c, s)) && Linked(Plug(c, s), root, null)
    ensures GrowthFromLinks(c.n, s.n, bfOld) == if IsLeaf(s) || Abs(bfOld) < Abs(s.bf) then Side(c) else 0
  {
    AroundHole(c, s, root);
  }

  /** One round of the insertion loop below a parent: rebalance, redirect, and the parent's pending change. */
  method InsertStep<K>(p: AvlNode<K>, node: AvlNode<K>, d: int,
                       ghost c: Ctx<AvlNode<K>>, ghost t: Tree<AvlNode<K>>, ghost root: AvlNode?<K>)
    returns (r: AvlNode<K>, bf: int, ghost s: Tree<AvlNode<K>>)
    requires !c.Top? && p == c.n && t.Node? && node == t.n
    requires Distinct(Plug(c, t)) && Linked(Plug(c, t), root, null)
    modifies Nodes(Plug(c, t))
    ensures s.Node? && r == s.n && r in Nodes(Plug(c, t)) && p in Nodes(Plug(c, t))
    ensures Fill(c, s).Node? && Fill(c, s).n == p && Plug(c.up, Fill(c, s)) == Plug(c, s)
    ensures FixInsert(c, t, d) == if bf == 0 then Plug(c, s) else FixInsert(c.up, Fill(c, s), bf)
    ensures InsertEnd(c, t, d) == if bf == 0 then r else InsertEnd(c.up, Fill(c, s), bf)
    ensures Distinct(Plug(c, s)) && Linked(Plug(c, s), root, null) && Nodes(Plug(c, s)) == Nodes(Plug(c, t))
  {
    var bfOld := node.bf;
    assert bfOld == t.bf by { AroundHole(c, t, root); }
    r := BalanceChild(p, node, d, c, t, root);
    s := Balance(t, d);
    assert Nodes(Plug(c, s)) == Nodes(Plug(c, t)) by {
      BalanceKeepsNodes(t, d);
      PlugSameNodes(c, t, s);
    }
    assert r in Nodes(Plug(c, s)) && p in Nodes(Plug(c, s)) by { PlugNodes(c, s); }
    bf := GrowthFromLinks(p, r, bfOld);
    assert bf == GrowthUp(c, t, s) by { LinksTellGrowth(c, s, bfOld, root); }
  }

  /** The removal loop's reading of what to hand to the parent `p` of the rebalanced node `r`. */
  function ShrinkFromLinks<K>(p: AvlNode<K>, r: AvlNode<K>, bfOld: int): int
    reads p, r
  {
    if (r.left == null && r.right == null) || Abs(bfOld) > Abs(r.bf) then
      if p.left == r then 1 else -1
    else
      0
  }

  lemma {:induction false} LinksTellShrink<K>(c: Ctx<AvlNode<K>>, s: Tree<AvlNode<K>>, bfOld: int, root: AvlNode?<K>)
    requires !c.Top? && s.Node? && Distinct(Plug(c, s)) && Linked(Plug(c, s), root, null)
    ensures ShrinkFromLinks(c.n, s.n, bfOld) == if IsLeaf(s) || Abs(bfOld) > Abs(s.bf) then -Side(c) else 0
  {
    AroundHole(c, s, root);
  }

  /** One round of the removal loop below a parent. */
  method RemoveStep<K>(p: AvlNode<K>, node: AvlNode<K>, d: int,
                       ghost c: Ctx<AvlNode<K>>, ghost t: Tree<AvlNode<K>>, ghost root: AvlNode?<K>)
    returns (r: AvlNode<K>, bf: int, ghost s: Tree<AvlNode<K>>)
    requires !c.Top? && p == c.n && t.Node? && node == t.n
    requires Distinct(Plug(c, t)) && Linked(Plug(c, t), root, null)
    modifies Nodes(Plug(c, t))
    ensures s.Node? && r == s.n
    ensures Fill(c, s).Node? && Fill(c, s).n == p && Plug(c.up, Fill(c, s)) == Plug(c, s)
    ensures FixRemove(c, t, d) == if bf == 0 then Plug(c, s) else FixRemove(c.up, Fill(c, s), bf)
    ensures Distinct(Plug(c, s)) && Linked(Plug(c, s), root, null) && Nodes(Plug(c, s)) == Nodes(Plug(c, t))
  {
    var bfOld := node.bf;
    assert bfOld == t.bf by { AroundHole(c, t, root); }
    r := BalanceChild(p, node, d, c, t, root);
    s := Balance(t, d);
    assert Nodes(Plug(c, s)) == Nodes(Plug(c, t)) by {
      BalanceKeepsNodes(t, d);
      PlugSameNodes(c, t, s);
    }
    bf := ShrinkFromLinks(p, r, bfOld);
    assert bf == ShrinkUp(c, t, s) by { LinksTellShrink(c, s, bfOld, root); }
  }

  /** `avl_first` of a subtree. */
  method FirstBelow<K>(top: AvlNode?<K>, ghost t: Tree<AvlNode<K>>, ghost par: AvlNode?<K>) returns (p: AvlNode?<K>)
    requires Linked(t, top, par)
    ensures p == if t.Nil? then null else First(t).n
  {
    p := null;
    var node := top;
    ghost var s, q := t, par;
    while node != null
      invariant Linked(s, node, q)
      invariant t.Node? ==> if s.Nil? then p == First(t).n else First(s) == First(t)
      invariant t.Nil? ==> p == null && s.Nil?
      decreases s
    {
      SubtreesLinked(s, q);
      p := node;
      s, q := s.left, node;
      node := node.left;
    }
  }

  /** `avl_last` of a subtree. */
  method LastBelow<K>(top: AvlNode?<K>, ghost t: Tree<AvlNode<K>>, ghost par: AvlNode?<K>) returns (p: AvlNode?<K>)
    requires Linked(t, top, par)
    ensures p == if t.Nil? then null else LastOf(t).n
  {
    p := null;
    var node := top;
    ghost var s, q := t, par;
    while node != null
      invariant Linked(s, node, q)
      invariant t.Node? ==> if s.Nil? then p == LastOf(t).n else LastOf(s) == LastOf(t)
      invariant t.Nil? ==> p == null && s.Nil?
      decreases s
    {
      SubtreesLinked(s, q);
      p := node;
      s, q := s.right, node;
      node := node.right;
    }
  }

  /** `_balance_tree` of the whole tree, the last round of both loops. */
  method BalanceRoot<K>(node: AvlNode<K>, d: int, ghost t: Tree<AvlNode<K>>)
    returns (r: AvlNode<K>)
    requires t.Node? && Distinct(t) && Linked(t, node, null)
    modifies Nodes(t)
    ensures Linked(FixInsert(Top, t, d), r, null) && Linked(FixRemove(Top, t, d), r, null)
  {
    r := BalanceInPlace(node, d, t, null);
  }

  /** The element after, and before, position `i`; null past either end. */
  ghost function NextIn<K>(s: seq<AvlNode<K>>, i: nat): AvlNode?<K> {
    if i + 1 < |s| then s[i + 1] else null
  }

  ghost function PrevIn<K>(s: seq<AvlNode<K>>, i: nat): AvlNode?<K> {
    if 0 < i <= |s| then s[i - 1] else null
  }

  /** `struct avl_tree`; `shape` is the tree value that memory spells out. */
  class AvlTree<K(!new)> {
    var root: AvlNode?<K>
    ghost var shape: Tree<AvlNode<K>>
    ghost var nodes: set<AvlNode<K>>

    /** Proper links, no node twice, every stored balance factor true and in -1..1. */
    ghost predicate Valid()
      reads this, nodes
    {
      nodes == Nodes(shape) && Distinct(shape) && Avl(shape) && Linked(shape, root, null)
    }

    /** The nodes in order. */
    ghost function Items(): seq<AvlNode<K>>
      reads this
    {
      InOrder(shape)
    }

    /** `avl_init`. */
    constructor ()
      ensures Valid() && Items() == []
    {
      root, shape, nodes := null, Nil, {};
    }

    /** One round of the rebalancing loop of `avl_insert`; `more` unless it ends the loop. */
    method InsertRound(node: AvlNode<K>, d: int, ghost c: Ctx<AvlNode<K>>, ghost t: Tree<AvlNode<K>>)
      returns (cur: AvlNode<K>, bf: int, more: bool, ghost up: Tree<AvlNode<K>>)
      requires t.Node? && node == t.n && node in Nodes(Plug(c, t))
      requires Distinct(Plug(c, t)) && Linked(Plug(c, t), root, null)
      modifies this`root, Nodes(Plug(c, t))
      ensures cur in Nodes(Plug(c, t))
      ensures !more ==> Linked(FixInsert(c, t, d), root, null) && cur == InsertEnd(c, t, d)
      ensures more ==> !c.Top? && up.Node? && cur == up.n && FixInsert(c.up, up, bf) == FixInsert(c, t, d)
      ensures more ==> InsertEnd(c.up, up, bf) == InsertEnd(c, t, d)
      ensures more ==> && Distinct(Plug(c.up, up)) && Linked(Plug(c.up, up), root, null)
                       && Nodes(Plug(c.up, up)) == Nodes(Plug(c, t))
    {
      assert node.parent == HoleParent(c, null) by { AroundHole(c, t, root); }
      var p := node.parent;
      cur, bf, more, up := node, d, false, t;
      if p != null {
        ghost var r;
        cur, bf, r := InsertStep(p, node, d, c, t, root);
        if bf != 0 {
          cur, more, up := p, true, Fill(c, r);
        }
      } else {
        root := BalanceRoot(node, d, t);
      }
    }

    /** The rebalancing loop of `avl_insert`. */
    method RebalanceAfterInsert(start: AvlNode<K>, ghost c0: Ctx<AvlNode<K>>, ghost t0: Tree<AvlNode<K>>)
      returns (last: AvlNode<K>)
      requires t0.Node? && start == t0.n
      requires Distinct(Plug(c0, t0)) && Linked(Plug(c0, t0), root, null)
      modifies this`root, Nodes(Plug(c0, t0))
      ensures Linked(FixInsert(c0, t0, 0), root, null)
      ensures last in Nodes(Plug(c0, t0)) && last == InsertEnd(c0, t0, 0)
    {
      ghost var goal, end, all := FixInsert(c0, t0, 0), InsertEnd(c0, t0, 0), Nodes(Plug(c0, t0));
      ghost var c, t := c0, t0;
      var node, bf, more := start, 0, true;
      assert node in all by { PlugNodes(c, t); }
      while more
        invariant node in all
        invariant !more ==> Linked(goal, root, null) && node == end
        invariant more ==> t.Node? && node == t.n && FixInsert(c, t, bf) == goal && InsertEnd(c, t, bf) == end
        invariant more ==> Distinct(Plug(c, t)) && Nodes(Plug(c, t)) == all && Linked(Plug(c, t), root, null)
        decreases more, c
      {
        ghost var up;
        node, bf, more, up := InsertRound(node, bf, c, t);
        if more {
          c, t := c.up, up;
        }
      }
      last := node;
    }

    /** The descent has gone down to `t` in the hole `c` and compared `looks` times. */
    ghost predicate OnTheWay(probe: AvlNode<K> -> int, c: Ctx<AvlNode<K>>, t: Tree<AvlNode<K>>, looks: nat)
      reads this
    {
      && Plug(c, t) == shape && Seek(probe, t) == Seek(probe, shape)
      && SeekCtx(probe, c, t) == SeekCtx(probe, Top, shape)
      && looks + SeekSteps(probe, t) == SeekSteps(probe, shape)
    }

    lemma {:induction false} WayDown(probe: AvlNode<K> -> int, c: Ctx<AvlNode<K>>, t: Tree<AvlNode<K>>, looks: nat)
      requires OnTheWay(probe, c, t, looks) && t.Node?
      ensures probe(t.n) > 0 ==> OnTheWay(probe, InLeft(c, t.n, t.bf, t.right), t.left, looks + 1)
      ensures probe(t.n) < 0 ==> OnTheWay(probe, InRight(t.left, t.n, t.bf, c), t.right, looks + 1)
      ensures probe(t.n) == 0 ==>
                t == Seek(probe, shape) && c == SeekCtx(probe, Top, shape)
                && looks + 1 == SeekSteps(probe, shape)
    {
    }

    lemma {:induction false} WayEnds(probe: AvlNode<K> -> int, c: Ctx<AvlNode<K>>, t: Tree<AvlNode<K>>, looks: nat)
      requires OnTheWay(probe, c, t, looks) && Ptr(t) == null
      ensures Seek(probe, shape) == Nil && c == SeekCtx(probe, Top, shape) && looks == SeekSteps(probe, shape)
    {
    }

    /** The descent loop shared by `avl_search`, `avl_search_greater`, `avl_search_smaller` and
        `avl_insert`: where it stops, the node it looked at last before, and how often `cmp` was called. */
    method Descend(cmp: (K, K) -> int, k: K) returns (cur: AvlNode?<K>, last: AvlNode?<K>, ghost looks: nat)
      requires Valid()
      ensures cur == Ptr(Seek(Probe(cmp, k), shape))
      ensures last == HoleParent(SeekCtx(Probe(cmp, k), Top, shape), null)
      ensures looks <= Height(shape)
    {
      ghost var c, t, probe := Top, shape, Probe(cmp, k);
      cur, last, looks := root, null, 0;
      SeekWithinHeight(probe, shape);
      while cur != null
        invariant cur == Ptr(t) && last == HoleParent(c, null) && OnTheWay(probe, c, t, looks)
        decreases t
      {
        assert cur.left == Ptr(t.left) && cur.right == Ptr(t.right) by { AroundHole(c, t, root); }
        var sign := cmp(cur.key, k);
        WayDown(probe, c, t, looks);
        looks := looks + 1;
        if sign > 0 {
          last := cur;
          c, t := InLeft(c, t.n, t.bf, t.right), t.left;
          cur := cur.left;
        } else if sign < 0 {
          last := cur;
          c, t := InRight(t.left, t.n, t.bf, c), t.right;
          cur := cur.right;
        } else {
          return;
        }
      }
      WayEnds(probe, c, t, looks);
    }

    /** Hanging the fresh node below `p`: the writes of `avl_insert` before rebalancing. */
    method HangLeaf(node: AvlNode<K>, p: AvlNode?<K>, goLeft: bool, ghost c: Ctx<AvlNode<K>>)
      requires CtxDistinct(c) && CtxSpells(Snapshot(CtxNodes(c)), c, null, root, null)
      requires p == HoleParent(c, null) && (p != null ==> goLeft == c.InLeft?)
      requires node !in CtxNodes(c)
      modifies this`root, node, if p == null then {} else {p}
      ensures var t := Node(Nil, node, 0, Nil);
              Distinct(Plug(c, t)) && Linked(Plug(c, t), root, null) && Nodes(Plug(c, t)) == CtxNodes(c) + {node}
    {
      ghost var m, was := Snapshot(CtxNodes(c)), root;
      InitLeaf(node, p);
      if p != null {
        SetChild(p, goLeft, node);
      } else {
        root := node;
      }
      ghost var m' := Snapshot(CtxNodes(c) + {node});
      assert HoleNowHolds(m, m', c, node);
      LeafHung(m, m', c, node, was, root);
    }

    /**
     `avl_insert`.  A key that is already there changes nothing and the node
     holding it is returned; a fresh key is added in its place.
     */
    method Insert(node: AvlNode<K>, cmp: (K, K) -> int) returns (r: AvlNode<K>, ghost pos: nat)
      requires Valid() && TotalOrder(cmp) && Sorted(cmp, Items())
      modifies this, nodes, node
      ensures Valid() && Sorted(cmp, Items())
      ensures HasKey(cmp, old(Items()), node.key) ==>
                && r in Items() && cmp(r.key, node.key) == 0
                && unchanged(this) && unchanged(node)
                && unchanged(nodes)
      ensures !HasKey(cmp, old(Items()), node.key) ==>
                && r in Items() && nodes == old(nodes) + {node}
                && r == InsertEnd(SeekCtx(Probe(cmp, node.key), Top, old(shape)), Node(Nil, node, 0, Nil), 0)
                && pos <= |old(Items())| && Items() == old(Items())[..pos] + [node] + old(Items())[pos..]
    {
      var cur, last, looks := Descend(cmp, node.key);
      pos := 0;
      r := node;
      if cur != null {
        assert HasKey(cmp, Items(), node.key) && cur in Items() && cmp(cur.key, node.key) == 0 by {
          Located(cmp, node.key, shape);
        }
        r := cur;
      } else {
        ghost var c := SeekCtx(Probe(cmp, node.key), Top, shape);
        ghost var before := Items();
        HoleFor(cmp, node.key);
        NewKeyNewNode(cmp, node);
        var goLeft := last != null && cmp(last.key, node.key) > 0;
        r := InsertFresh(node, last, goLeft, c, cmp);
        pos := |Before(c)|;
        assert before[..pos] == Before(c) && before[pos..] == After(c);
      }
    }

    /** A node whose key is not in the tree is not in the tree. */
    lemma {:induction false} NewKeyNewNode(cmp: (K, K) -> int, node: AvlNode<K>)
      requires Valid() && TotalOrder(cmp) && !HasKey(cmp, Items(), node.key)
      ensures node !in nodes
    {
      NodesAreInOrder(shape);
      assert Antisymmetric(cmp, node.key, node.key);
    }

    /** Where a fresh key belongs. */
    lemma {:induction false} HoleFor(cmp: (K, K) -> int, k: K)
      requires Valid() && TotalOrder(cmp) && Sorted(cmp, Items())
      requires Seek(Probe(cmp, k), shape).Nil?
      ensures var c := SeekCtx(Probe(cmp, k), Top, shape);
              && Avl(Plug(c, Nil)) && CtxDistinct(c) && CtxSpells(Snapshot(CtxNodes(c)), c, null, root, null)
              && Before(c) + After(c) == Items() && CtxNodes(c) == Nodes(shape)
              && AllBelow(Probe(cmp, k), Before(c)) && AllAbove(Probe(cmp, k), After(c))
              && (!c.Top? ==> (cmp(c.n.key, k) > 0 <==> c.InLeft?))
      ensures !HasKey(cmp, Items(), k)
    {
      var c := SeekCtx(Probe(cmp, k), Top, shape);
      Located(cmp, k, shape);
      SeekSide(Probe(cmp, k), Top, shape);
      OpenHole(Snapshot(Nodes(shape)), c, Nil, root);
      assert CtxNodes(c) == Nodes(shape);
    }

    /** The part of `avl_insert` after the descent: hang the leaf, rebalance upwards. */
    method InsertFresh(node: AvlNode<K>, p: AvlNode?<K>, goLeft: bool, ghost c: Ctx<AvlNode<K>>,
                       ghost cmp: (K, K) -> int)
      returns (r: AvlNode<K>)
      requires Avl(Plug(c, Nil)) && CtxDistinct(c) && CtxSpells(Snapshot(CtxNodes(c)), c, null, root, null)
      requires TotalOrder(cmp) && Sorted(cmp, Before(c) + After(c))
      requires AllBelow(Probe(cmp, node.key), Before(c)) && AllAbove(Probe(cmp, node.key), After(c))
      requires p == HoleParent(c, null) && (p != null ==> goLeft == c.InLeft?)
      requires node !in CtxNodes(c)
      modifies this, CtxNodes(c), node
      ensures Valid() && Sorted(cmp, Items()) && Items() == Before(c) + [node] + After(c)
      ensures nodes == CtxNodes(c) + {node}
      ensures r in Items() && r == InsertEnd(c, Node(Nil, node, 0, Nil), 0)
    {
      HangLeaf(node, p, goLeft, c);
      ghost var t := InsertAt(c, node);
      r := RebalanceAfterInsert(node, c, Node(Nil, node, 0, Nil));
      Inserted(cmp, c, node);
      assert r in InOrder(t) by { NodesAreInOrder(t); }
      Adopt(t);
    }

    /** Recording the tree value that memory now spells out. */
    ghost method Adopt(t: Tree<AvlNode<K>>)
      requires Distinct(t) && Avl(t) && Linked(t, root, null)
      modifies this`shape, this`nodes
      ensures shape == t && nodes == Nodes(t) && Valid()
    {
      shape, nodes := t, Nodes(t);
    }

    /** One round of the rebalancing loop of `avl_remove`; `more` unless it ends the loop. */
    method RemoveRound(node: AvlNode<K>, d: int, ghost c: Ctx<AvlNode<K>>, ghost t: Tree<AvlNode<K>>)
      returns (cur: AvlNode<K>, bf: int, more: bool, ghost up: Tree<AvlNode<K>>)
      requires t.Node? && node == t.n
      requires Distinct(Plug(c, t)) && Linked(Plug(c, t), root, null)
      modifies this`root, Nodes(Plug(c, t))
      ensures !more ==> Linked(FixRemove(c, t, d), root, null)
      ensures more ==> !c.Top? && up.Node? && cur == up.n && FixRemove(c.up, up, bf) == FixRemove(c, t, d)
      ensures more ==> && Distinct(Plug(c.up, up)) && Linked(Plug(c.up, up), root, null)
                       && Nodes(Plug(c.up, up)) == Nodes(Plug(c, t))
    {
      assert node.parent == HoleParent(c, null) by { AroundHole(c, t, root); }
      var p := node.parent;
      cur, bf, more, up := node, d, false, t;
      if p != null {
        ghost var r;
        cur, bf, r := RemoveStep(p, node, d, c, t, root);
        if bf != 0 {
          cur, more, up := p, true, Fill(c, r);
        }
      } else {
        root := BalanceRoot(node, d, t);
      }
    }

    /** The rebalancing loop of `avl_remove`. */
    method RebalanceAfterRemove(start: AvlNode<K>, d: int, ghost c0: Ctx<AvlNode<K>>, ghost t0: Tree<AvlNode<K>>)
      requires t0.Node? && start == t0.n
      requires Distinct(Plug(c0, t0)) && Linked(Plug(c0, t0), root, null)
      modifies this`root, Nodes(Plug(c0, t0))
      ensures Linked(FixRemove(c0, t0, d), root, null)
    {
      ghost var goal, all := FixRemove(c0, t0, d), Nodes(Plug(c0, t0));
      ghost var c, t := c0, t0;
      var cur, bf, more := start, d, true;
      while more
        invariant !more ==> Linked(goal, root, null)
        invariant more ==> t.Node? && cur == t.n && FixRemove(c, t, bf) == goal
        invariant more ==> Distinct(Plug(c, t)) && Nodes(Plug(c, t)) == all && Linked(Plug(c, t), root, null)
        decreases more, c
      {
        ghost var up;
        cur, bf, more, up := RemoveRound(cur, bf, c, t);
        if more {
          c, t := c.up, up;
        }
      }
    }

    /** Case 2 of `avl_remove`: no right subtree, the left one moves up. */
    method UnlinkLast(node: AvlNode<K>, ghost c: Ctx<AvlNode<K>>, ghost t: Tree<AvlNode<K>>)
      returns (cur: AvlNode?<K>, bf: int)
      requires t.Node? && node == t.n && t.right.Nil?
      requires Distinct(Plug(c, t)) && Linked(Plug(c, t), root, null)
      modifies this`root, Nodes(Plug(c, t))
      ensures cur == HoleParent(c, null) && (cur != null ==> bf == -Side(c))
      ensures var x := t.left;
              Distinct(Plug(c, x)) && Linked(Plug(c, x), root, null) && Nodes(Plug(c, x)) == Nodes(Plug(c, t)) - {node}
    {
      AroundHole(c, t, root);
      PlaceSets(c, t);
      assert root == node <==> c.Top? by { RootOnTop(c, t, root); }
      cur := node.parent;
      var goLeft := cur != null && cur.left == node;
      bf := if goLeft then 1 else -1;
      var child := node.left;
      Bypass(cur, goLeft, child, c, t, t.left, root);
      if root == node {
        root := child;
      }
    }

    /** Case 1 of `avl_remove`, the successor being the right child. */
    method UnlinkChild(node: AvlNode<K>, next: AvlNode<K>, ghost c: Ctx<AvlNode<K>>, ghost t: Tree<AvlNode<K>>)
      requires t.Node? && node == t.n && t.right.Node? && t.right.left.Nil? && next == t.right.n
      requires Distinct(Plug(c, t)) && Linked(Plug(c, t), root, null)
      modifies this`root, Nodes(Plug(c, t))
      ensures var s := Plug(InRight(t.left, next, t.bf, c), t.right.right);
              Distinct(s) && Linked(s, root, null) && Nodes(s) == Nodes(Plug(c, t)) - {node}
    {
      assert root == node <==> c.Top? by { RootOnTop(c, t, root); }
      ChildTakesPlace(node, next, c, t, root);
      if root == node {
        root := next;
      }
    }

    /** Case 1 of `avl_remove`, the successor lying deeper: it is taken out first. */
    method UnlinkDeep(node: AvlNode<K>, next: AvlNode<K>, ghost c: Ctx<AvlNode<K>>, ghost t: Tree<AvlNode<K>>)
      returns (cur: AvlNode?<K>)
      requires t.Node? && node == t.n && t.right.Node? && t.right.left.Node? && next == First(t.right).n
      requires Distinct(Plug(c, t)) && Linked(Plug(c, t), root, null)
      modifies this`root, Nodes(Plug(c, t))
      ensures var cc, x := FirstCtx(InRight(t.left, next, t.bf, c), t.right), First(t.right).right;
              && cc.InLeft? && cur == cc.n
              && Distinct(Plug(cc, x)) && Linked(Plug(cc, x), root, null)
              && Nodes(Plug(cc, x)) == Nodes(Plug(c, t)) - {node}
    {
      assert root == node <==> c.Top? by { RootOnTop(c, t, root); }
      cur := TakeOutFirst(node, next, c, t, root);
      ghost var t1 := t.(right := DropFirst(t.right));
      assert next !in Nodes(Plug(c, t1)) && Nodes(Plug(c, t1)) <= Nodes(Plug(c, t)) && next in Nodes(Plug(c, t)) by {
        DeepFacts(c, t, node);
      }
      TakePlace(node, next, c, t1, root);
      if root == node {
        root := next;
      }
      DeepResult(c, t, next);
    }

    /**
     `avl_remove`.  Afterwards the tree is a valid AVL tree again and its
     in-order sequence misses exactly the removed node; NULL is ignored.
     */
    method Remove(node: AvlNode?<K>) returns (ghost pos: nat)
      requires Valid() && (node != null ==> node in nodes)
      modifies this, nodes
      ensures Valid()
      ensures node == null ==> unchanged(this) && unchanged(nodes)
      ensures node != null ==>
                && nodes == old(nodes) - {node}
                && pos < |old(Items())| && old(Items())[pos] == node
                && Items() == old(Items())[..pos] + old(Items())[pos + 1..]
    {
      pos := 0;
      if node != null {
        ghost var c, t := CtxOf(Top, shape, node), SubtreeOf(shape, node);
        CtxOfPlug(Top, shape, node);
        ghost var s := RemoveAt(c, t);
        assert node.right == Ptr(t.right) && Linked(t.right, node.right, node) by { RightLinked(c, t, root); }
        var next := FirstBelow(node.right, t.right, node);
        Excise(node, next, c, t);
        Removed(c, t);
        RemovedOrder(c, t);
        Adopt(s);
        pos := |Before(c)| + |InOrder(t.left)|;
      }
    }

    /** All of `avl_remove` after the successor has been found. */
    method Excise(node: AvlNode<K>, next: AvlNode?<K>, ghost c: Ctx<AvlNode<K>>, ghost t: Tree<AvlNode<K>>)
      requires t.Node? && node == t.n && Distinct(Plug(c, t)) && Linked(Plug(c, t), root, null)
      requires next == if t.right.Nil? then null else First(t.right).n
      modifies this`root, Nodes(Plug(c, t))
      ensures Linked(RemoveAt(c, t), root, null)
    {
      var cur: AvlNode?<K>, bf;
      ghost var cc, x;
      if next != null {
        ghost var c0 := InRight(t.left, next, t.bf, c);
        x, cc := First(t.right).right, FirstCtx(c0, t.right);
        var deep := node.right != next;
        assert deep <==> t.right.left.Node? by { SuccessorIsChild(c, t, root); }
        if deep {
          cur := UnlinkDeep(node, next, c, t);
          bf := 1;
        } else {
          UnlinkChild(node, next, c, t);
          cur, bf := next, -1;
        }
      } else {
        x, cc := t.left, c;
        cur, bf := UnlinkLast(node, c, t);
      }
      assert RemoveAt(c, t) == ShrinkAt(cc, x);
      if cur != null {
        RebalanceAfterRemove(cur, bf, cc.up, Fill(cc, x));
      }
    }

    /** `avl_first`. */
    method GetFirst() returns (p: AvlNode?<K>)
      requires Valid()
      ensures p == if Items() == [] then null else Items()[0]
    {
      p := FirstBelow(root, shape, null);
      if shape.Node? {
        FirstFacts(Top, shape);
      }
    }

    /** `avl_last`. */
    method GetLast() returns (p: AvlNode?<K>)
      requires Valid()
      ensures p == if Items() == [] then null else Items()[|Items()| - 1]
    {
      p := LastBelow(root, shape, null);
      if shape.Node? {
        LastFacts(shape);
      }
    }

    /** `avl_next`: the in-order successor, found with the parent links alone. */
    method Next(node: AvlNode?<K>) returns (r: AvlNode?<K>)
      requires Valid() && (node != null ==> node in nodes)
      ensures node == null ==> r == null
      ensures node != null ==> forall i :: 0 <= i < |Items()| && Items()[i] == node ==>
                r == NextIn(Items(), i)
    {
      if node == null {
        return null;
      }
      ghost var c, t := CtxOf(Top, shape, node), SubtreeOf(shape, node);
      CtxOfPlug(Top, shape, node);
      assert node.right == Ptr(t.right) && Linked(t.right, node.right, node) by { RightLinked(c, t, root); }
      if node.right != null {
        r := FirstBelow(node.right, t.right, node);
        FirstFacts(Top, t.right);
      } else {
        r := ClimbRight(node, c, t);
      }
      Successor(c, t, r);
    }

    /** The upward walk of `avl_next`: the nearest ancestor entered from its left. */
    method ClimbRight(node: AvlNode<K>, ghost c0: Ctx<AvlNode<K>>, ghost t0: Tree<AvlNode<K>>) returns (r: AvlNode?<K>)
      requires t0.Node? && node == t0.n && Distinct(Plug(c0, t0)) && Linked(Plug(c0, t0), root, null)
      ensures r == if After(c0) == [] then null else After(c0)[0]
    {
      ghost var c, t := c0, t0;
      AroundHole(c, t, root);
      var p := node;
      r := node.parent;
      while r != null
        invariant t.Node? && p == t.n && r == HoleParent(c, null) && Plug(c, t) == Plug(c0, t0)
        invariant After(c) == After(c0)
        decreases c
      {
        assert r.left == p <==> c.InLeft? by { AroundHole(c, t, root); }
        if r.left == p {
          return;
        }
        c, t := c.up, Fill(c, t);
        assert r.parent == HoleParent(c, null) by { AroundHole(c, t, root); }
        p := r;
        r := r.parent;
      }
    }

    /** `avl_prev`. */
    method Prev(node: AvlNode?<K>) returns (r: AvlNode?<K>)
      requires Valid() && (node != null ==> node in nodes)
      ensures node == null ==> r == null
      ensures node != null ==> forall i :: 0 <= i < |Items()| && Items()[i] == node ==>
                r == PrevIn(Items(), i)
    {
      if node == null {
        return null;
      }
      ghost var c, t := CtxOf(Top, shape, node), SubtreeOf(shape, node);
      CtxOfPlug(Top, shape, node);
      assert node.left == Ptr(t.left) && Linked(t.left, node.left, node) by { RightLinked(c, t, root); }
      if node.left != null {
        LastFacts(t.left);
        r := LastBelow(node.left, t.left, node);
      } else {
        r := ClimbLeft(node, c, t);
      }
      Predecessor(c, t, r);
    }

    method ClimbLeft(node: AvlNode<K>, ghost c0: Ctx<AvlNode<K>>, ghost t0: Tree<AvlNode<K>>) returns (r: AvlNode?<K>)
      requires t0.Node? && node == t0.n && Distinct(Plug(c0, t0)) && Linked(Plug(c0, t0), root, null)
      ensures r == if Before(c0) == [] then null else Before(c0)[|Before(c0)| - 1]
    {
      ghost var c, t := c0, t0;
      AroundHole(c, t, root);
      var p := node;
      r := node.parent;
      while r != null
        invariant t.Node? && p == t.n && r == HoleParent(c, null) && Plug(c, t) == Plug(c0, t0)
        invariant Before(c) == Before(c0)
        decreases c
      {
        assert r.right == p <==> c.InRight? by { AroundHole(c, t, root); }
        if r.right == p {
          return;
        }
        c, t := c.up, Fill(c, t);
        assert r.parent == HoleParent(c, null) by { AroundHole(c, t, root); }
        p := r;
        r := r.parent;
      }
    }

    /** The neighbours of the root of `t` in the hole `c`. */
    lemma {:induction false} Neighbours(c: Ctx<AvlNode<K>>, t: Tree<AvlNode<K>>)
      requires Valid() && t.Node? && Plug(c, t) == shape
      ensures forall i :: 0 <= i < |Items()| && Items()[i] == t.n ==>
                && i == |Before(c) + InOrder(t.left)|
                && Items()[..i] == Before(c) + InOrder(t.left)
                && Items()[i + 1..] == InOrder(t.right) + After(c)
    {
      var k := |Before(c)| + |InOrder(t.left)|;
      PlugInOrder(c, t);
      Without(Before(c), InOrder(t.left), t.n, InOrder(t.right), After(c));
      forall i | 0 <= i < |Items()| && Items()[i] == t.n
        ensures i == k
      {
        if i < k {
          InOrderInjective(shape, i, k);
        } else if i > k {
          InOrderInjective(shape, k, i);
        }
      }
    }

    lemma {:induction false} Successor(c: Ctx<AvlNode<K>>, t: Tree<AvlNode<K>>, r: AvlNode?<K>)
      requires Valid() && t.Node? && Plug(c, t) == shape
      requires var s := InOrder(t.right) + After(c); r == if s == [] then null else s[0]
      ensures forall i :: 0 <= i < |Items()| && Items()[i] == t.n ==>
                r == NextIn(Items(), i)
    {
      Neighbours(c, t);
      forall i | 0 <= i < |Items()| && Items()[i] == t.n
        ensures r == NextIn(Items(), i)
      {
        assert |Items()[i + 1..]| == |Items()| - i - 1;
        assert i + 1 < |Items()| ==> Items()[i + 1..][0] == Items()[i + 1];
      }
    }

    lemma {:induction false} Predecessor(c: Ctx<AvlNode<K>>, t: Tree<AvlNode<K>>, r: AvlNode?<K>)
      requires Valid() && t.Node? && Plug(c, t) == shape
      requires var s := Before(c) + InOrder(t.left); r == if s == [] then null else s[|s| - 1]
      ensures forall i :: 0 <= i < |Items()| && Items()[i] == t.n ==>
                r == PrevIn(Items(), i)
    {
      Neighbours(c, t);
      forall i | 0 <= i < |Items()| && Items()[i] == t.n
        ensures r == PrevIn(Items(), i)
      {
        assert |Items()[..i]| == i;
        assert i > 0 ==> Items()[..i][i - 1] == Items()[i - 1];
      }
    }

    /** `avl_search`: the node with key `k`, or NULL. */
    method Search(cmp: (K, K) -> int, k: K) returns (r: AvlNode?<K>, ghost looks: nat)
      requires Valid() && TotalOrder(cmp) && Sorted(cmp, Items())
      ensures r != null <==> HasKey(cmp, Items(), k)
      ensures r != null ==> r in nodes && r in Items() && cmp(r.key, k) == 0
      ensures looks <= Height(shape)
    {
      var last;
      r, last, looks := Descend(cmp, k);
      Located(cmp, k, shape);
      NodesAreInOrder(shape);
    }

    /** `avl_search_greater`: the exact match, or else the nearest node above. */
    method SearchGreater(cmp: (K, K) -> int, k: K) returns (r: AvlNode?<K>)
      requires Valid() && TotalOrder(cmp) && Sorted(cmp, Items())
      ensures r == null ==> AllBelow(Probe(cmp, k), Items())
      ensures r != null ==>
                exists i :: && 0 <= i < |Items()| && Items()[i] == r
                            && cmp(r.key, k) >= 0 && AllBelow(Probe(cmp, k), Items()[..i])
    {
      var last;
      ghost var looks;
      r, last, looks := Descend(cmp, k);
      ghost var c, f := SeekCtx(Probe(cmp, k), Top, shape), Seek(Probe(cmp, k), shape);
      Located(cmp, k, shape);
      if r != null {
        MatchAt(cmp, k);
        return;
      }
      assert last != null ==> (cmp(last.key, k) > 0 <==> c.InLeft?) by { SeekSide(Probe(cmp, k), Top, shape); }
      if last != null {
        LastLookedAt(c);
        if cmp(last.key, k) > 0 {
          r := last;
        } else {
          r := Next(last);
        }
      }
      assert r == if After(c) == [] then null else After(c)[0];
      NearestAbove(cmp, k, r);
    }

    /** `avl_search_smaller`: the exact match, or else the nearest node below. */
    method SearchSmaller(cmp: (K, K) -> int, k: K) returns (r: AvlNode?<K>)
      requires Valid() && TotalOrder(cmp) && Sorted(cmp, Items())
      ensures r == null ==> AllAbove(Probe(cmp, k), Items())
      ensures r != null ==>
                exists i :: && 0 <= i < |Items()| && Items()[i] == r
                            && cmp(r.key, k) <= 0 && AllAbove(Probe(cmp, k), Items()[i + 1..])
    {
      var last;
      ghost var looks;
      r, last, looks := Descend(cmp, k);
      ghost var c, f := SeekCtx(Probe(cmp, k), Top, shape), Seek(Probe(cmp, k), shape);
      Located(cmp, k, shape);
      if r != null {
        MatchAt(cmp, k);
        return;
      }
      assert last != null ==> (cmp(last.key, k) > 0 <==> c.InLeft?) by { SeekSide(Probe(cmp, k), Top, shape); }
      if last != null {
        LastLookedAt(c);
        if cmp(last.key, k) < 0 {
          r := last;
        } else {
          r := Prev(last);
        }
      }
      assert r == if Before(c) == [] then null else Before(c)[|Before(c)| - 1];
      NearestBelow(cmp, k, r);
    }

    /** The exact match splits the sequence. */
    lemma {:induction false} MatchAt(cmp: (K, K) -> int, k: K)
      requires Valid() && TotalOrder(cmp) && Sorted(cmp, Items()) && Seek(Probe(cmp, k), shape).Node?
      ensures var f := Seek(Probe(cmp, k), shape);
              exists i :: 0 <= i < |Items()| && Items()[i] == f.n && cmp(f.n.key, k) == 0
                && AllBelow(Probe(cmp, k), Items()[..i]) && AllAbove(Probe(cmp, k), Items()[i + 1..])
    {
      var f := Seek(Probe(cmp, k), shape);
      Located(cmp, k, shape);
      SortedSteers(cmp, k, Items());
      var i :| 0 <= i < |Items()| && Items()[i] == f.n;
      ZeroSplits(Probe(cmp, k), Items(), i);
    }

    /** Where the node looked at last before the hole `c` lies in the sequence. */
    lemma {:induction false} LastLookedAt(c: Ctx<AvlNode<K>>)
      requires Valid() && Plug(c, Nil) == shape && !c.Top?
      ensures c.n in nodes && Items() == Before(c) + After(c)
      ensures c.InLeft? ==> After(c) != [] && After(c)[0] == c.n
      ensures c.InRight? ==> Before(c) != [] && Before(c)[|Before(c)| - 1] == c.n
      ensures c.InLeft? ==> |Before(c)| < |Items()| && Items()[|Before(c)|] == c.n
      ensures c.InRight? ==> |Before(c)| <= |Items()| && Items()[|Before(c)| - 1] == c.n
    {
      PlugInOrder(c, Nil);
      PlugNodes(c, Nil);
    }

    lemma {:induction false} NearestAbove(cmp: (K, K) -> int, k: K, r: AvlNode?<K>)
      requires Valid() && TotalOrder(cmp) && Sorted(cmp, Items()) && Seek(Probe(cmp, k), shape).Nil?
      requires var c := SeekCtx(Probe(cmp, k), Top, shape); r == if After(c) == [] then null else After(c)[0]
      ensures r == null ==> AllBelow(Probe(cmp, k), Items())
      ensures r != null ==>
                exists i :: && 0 <= i < |Items()| && Items()[i] == r
                            && cmp(r.key, k) >= 0 && AllBelow(Probe(cmp, k), Items()[..i])
    {
      var c := SeekCtx(Probe(cmp, k), Top, shape);
      Located(cmp, k, shape);
      assert Items() == Before(c) + After(c);
      assert Items()[..|Before(c)|] == Before(c);
      if After(c) != [] {
        assert Items()[|Before(c)|] == r && Probe(cmp, k)(r) > 0;
      } else {
        assert Items() == Before(c);
      }
    }

    lemma {:induction false} NearestBelow(cmp: (K, K) -> int, k: K, r: AvlNode?<K>)
      requires Valid() && TotalOrder(cmp) && Sorted(cmp, Items()) && Seek(Probe(cmp, k), shape).Nil?
      requires var c := SeekCtx(Probe(cmp, k), Top, shape);
               r == if Before(c) == [] then null else Before(c)[|Before(c)| - 1]
      ensures r == null ==> AllAbove(Probe(cmp, k), Items())
      ensures r != null ==>
                exists i :: && 0 <= i < |Items()| && Items()[i] == r
                            && cmp(r.key, k) <= 0 && AllAbove(Probe(cmp, k), Items()[i + 1..])
    {
      var c := SeekCtx(Probe(cmp, k), Top, shape);
      Located(cmp, k, shape);
      assert Items() == Before(c) + After(c);
      assert Items()[|Before(c)|..] == After(c);
      if Before(c) != [] {
        var i := |Before(c)| - 1;
        assert Items()[i] == r && Probe(cmp, k)(r) < 0 && Items()[i + 1..] == After(c);
      } else {
        assert Items() == After(c);
      }
    }
  }

  lemma {:induction false} RightLinked<K>(c: Ctx<AvlNode<K>>, t: Tree<AvlNode<K>>, root: AvlNode?<K>)
    requires t.Node? && Distinct(Plug(c, t)) && Linked(Plug(c, t), root, null)
    ensures t.n.right == Ptr(t.right) && Linked(t.right, t.n.right, t.n)
    ensures t.n.left == Ptr(t.left) && Linked(t.left, t.n.left, t.n)
  {
    OpenHole(Snapshot(Nodes(Plug(c, t))), c, t, root);
    SubtreesLinked(t, HoleParent(c, null));
  }

  lemma {:induction false} SuccessorIsChild<K>(c: Ctx<AvlNode<K>>, t: Tree<AvlNode<K>>, root: AvlNode?<K>)
    requires t.Node? && t.right.Node? && Distinct(Plug(c, t)) && Linked(Plug(c, t), root, null)
    ensures t.n.right == First(t.right).n <==> t.right.left.Nil?
  {
    AroundHole(c, t, root);
    PlugDistinct(c, t);
    if t.right.left.Node? {
      DropFirstNodes(t.right.left);
    }
  }

  /** What `avl_remove` leaves. */
  lemma {:induction false} Removed<K>(c: Ctx<AvlNode<K>>, t: Tree<AvlNode<K>>)
    requires t.Node? && Distinct(Plug(c, t)) && Avl(Plug(c, t))
    ensures var s := RemoveAt(c, t);
            Avl(s) && Distinct(s) && Nodes(s) == Nodes(Plug(c, t)) - {t.n}
  {
    RemoveAtNodes(c, t);
    PlugAvl(c, t);
    RemoveAtIsAvl(c, t);
  }

  lemma {:induction false} RemovedOrder<K>(c: Ctx<AvlNode<K>>, t: Tree<AvlNode<K>>)
    requires t.Node? && Avl(Plug(c, t))
    ensures var w, i := InOrder(Plug(c, t)), |Before(c)| + |InOrder(t.left)|;
            i < |w| && w[i] == t.n && InOrder(RemoveAt(c, t)) == w[..i] + w[i + 1..]
  {
    assert InOrder(RemoveAt(c, t)) == Before(c) + InOrder(t.left) + InOrder(t.right) + After(c) by {
      PlugAvl(c, t);
      RemoveAtIsAvl(c, t);
    }
    PlugInOrder(c, t);
    Without(Before(c), InOrder(t.left), t.n, InOrder(t.right), After(c));
  }

  lemma {:induction false} Without<N>(b: seq<N>, l: seq<N>, n: N, r: seq<N>, a: seq<N>)
    ensures var w, i := b + (l + [n] + r) + a, |b| + |l|;
            && i < |w| && w[i] == n && w[..i] == b + l && w[i + 1..] == r + a
            && w[..i] + w[i + 1..] == b + l + r + a
  {
    var w, i := b + (l + [n] + r) + a, |b| + |l|;
    assert w == (b + l) + [n] + (r + a);
    assert w[..i] == b + l && w[i + 1..] == r + a;
  }

  lemma {:induction false} RemoveAtNodes<K>(c: Ctx<AvlNode<K>>, t: Tree<AvlNode<K>>)
    requires t.Node? && Distinct(Plug(c, t))
    ensures Distinct(RemoveAt(c, t)) && Nodes(RemoveAt(c, t)) == Nodes(Plug(c, t)) - {t.n}
  {
    PlaceSets(c, t);
    PlugDistinct(c, t);
    if t.right.Nil? {
      PlugDistinct(c, t.left);
      PlugNodes(c, t.left);
      ShrinkAtNodes(c, t.left);
    } else {
      RemoveInnerNodes(c, t);
    }
  }

  lemma {:induction false} RemoveInnerNodes<K>(c: Ctx<AvlNode<K>>, t: Tree<AvlNode<K>>)
    requires t.Node? && t.right.Node? && Distinct(Plug(c, t))
    ensures Distinct(RemoveAt(c, t)) && Nodes(RemoveAt(c, t)) == Nodes(Plug(c, t)) - {t.n}
  {
    var f, drop := First(t.right), DropFirst(t.right);
    var s := Node(t.left, f.n, t.bf, drop);
    PlaceSets(c, t);
    assert Distinct(s) && CtxDistinct(c) && Nodes(s) == Nodes(t.left) + Nodes(t.right) by {
      PlugDistinct(c, t);
      DropFirstNodes(t.right);
    }
    assert Distinct(Plug(c, s)) && Nodes(Plug(c, s)) == Nodes(Plug(c, t)) - {t.n} by {
      PlugDistinct(c, s);
      PlugNodes(c, s);
    }
    var c0 := InRight(t.left, f.n, t.bf, c);
    assert Plug(FirstCtx(c0, t.right), f.right) == Plug(c, s) by { DropFirstPlug(c0, t.right); }
    ShrinkAtNodes(FirstCtx(c0, t.right), f.right);
  }

  lemma {:induction false} ShrinkAtNodes<K>(c: Ctx<AvlNode<K>>, x: Tree<AvlNode<K>>)
    requires Distinct(Plug(c, x))
    ensures Distinct(ShrinkAt(c, x)) && Nodes(ShrinkAt(c, x)) == Nodes(Plug(c, x))
  {
    if !c.Top? {
      FixRemoveKeepsNodes(c.up, Fill(c, x), -Side(c));
    }
  }

  /** The root pointer is the removed node exactly when nothing is above it. */
  lemma {:induction false} RootOnTop<K>(c: Ctx<AvlNode<K>>, t: Tree<AvlNode<K>>, root: AvlNode?<K>)
    requires t.Node? && Distinct(Plug(c, t)) && Linked(Plug(c, t), root, null)
    ensures root == t.n <==> c.Top?
  {
    PlaceSets(c, t);
    if !c.Top? {
      PlugRoot(c, t);
    }
  }

  lemma {:induction false} DeepResult<K>(c: Ctx<AvlNode<K>>, t: Tree<AvlNode<K>>, next: AvlNode<K>)
    requires t.Node? && t.right.Node? && t.right.left.Node? && Distinct(Plug(c, t)) && next == First(t.right).n
    ensures var t1 := t.(right := DropFirst(t.right));
            var cc, x := FirstCtx(InRight(t.left, next, t.bf, c), t.right), First(t.right).right;
            && cc.InLeft? && FirstCtx(InRight(t.left, t.n, t.bf, c), t.right).InLeft?
            && cc.n == FirstCtx(InRight(t.left, t.n, t.bf, c), t.right).n
            && Plug(cc, x) == Plug(c, t1.(n := next))
            && Nodes(Plug(c, t1)) - {t.n} + {next} == Nodes(Plug(c, t)) - {t.n}
  {
    DeepFacts(c, t, next);
    PlaceSets(c, t);
  }

  /** The surroundings of the successor of `t`'s root, with `m` in the root's place. */
  lemma {:induction false} DeepFacts<K>(c: Ctx<AvlNode<K>>, t: Tree<AvlNode<K>>, m: AvlNode<K>)
    requires t.Node? && t.right.Node? && t.right.left.Node? && Distinct(Plug(c, t))
    ensures var c0 := InRight(t.left, m, t.bf, c);
            var c1, f, drop := FirstCtx(c0, t.right), First(t.right), DropFirst(t.right);
            && c1.InLeft? && FirstCtx(InRight(t.left, t.n, t.bf, c), t.right).InLeft?
            && c1.n == FirstCtx(InRight(t.left, t.n, t.bf, c), t.right).n
            && (m == t.n ==> Plug(c1, f) == Plug(c, t))
            && Plug(c1, f.right) == Plug(c, Node(t.left, m, t.bf, drop))
            && f.n in Nodes(t.right) && f.n != t.n
            && Nodes(Plug(c, t.(right := drop))) == Nodes(Plug(c, t)) - {f.n}
            && CtxNodes(FirstCtx(InRight(t.left, t.n, t.bf, c), t.right)) + Nodes(f) == Nodes(Plug(c, t))
  {
    var c0, own := InRight(t.left, m, t.bf, c), InRight(t.left, t.n, t.bf, c);
    FirstParent(c0, own, t.right);
    FirstFacts(c0, t.right);
    FirstFacts(own, t.right);
    DropFirstPlug(c0, t.right);
    PlaceSets(c, t);
    PlugDistinct(c, t);
    DropFirstNodes(t.right);
    PlugNodes(c, t.(right := DropFirst(t.right)));
    PlugNodes(FirstCtx(own, t.right), First(t.right));
  }

  /** The descent for `k` ends at the node with that key, or in the hole where it belongs. */
  lemma {:induction false} Located<K(!new)>(cmp: (K, K) -> int, k: K, t: Tree<AvlNode<K>>)
    requires TotalOrder(cmp) && Sorted(cmp, InOrder(t))
    ensures var c, f := SeekCtx(Probe(cmp, k), Top, t), Seek(Probe(cmp, k), t);
            && Plug(c, f) == t && InOrder(t) == Before(c) + InOrder(f) + After(c)
            && AllBelow(Probe(cmp, k), Before(c)) && AllAbove(Probe(cmp, k), After(c))
            && (f.Node? <==> HasKey(cmp, InOrder(t), k))
            && (f.Node? ==> f.n in InOrder(t) && cmp(f.n.key, k) == 0)
  {
    var probe := Probe(cmp, k);
    SortedSteers(cmp, k, InOrder(t));
    SeekSplits(probe, Top, t);
    var c, f := SeekCtx(probe, Top, t), Seek(probe, t);
    PlugInOrder(c, f);
    if f.Node? {
      var i := |Before(c)| + |InOrder(f.left)|;
      assert InOrder(t)[i] == f.n && probe(f.n) == 0;
    } else {
      forall i | 0 <= i < |InOrder(t)|
        ensures cmp(InOrder(t)[i].key, k) != 0
      {
        if i < |Before(c)| {
          assert probe(Before(c)[i]) < 0;
        } else {
          assert probe(After(c)[i - |Before(c)|]) > 0;
        }
      }
    }
  }

  /** What `avl_insert` of a fresh key leaves. */
  lemma {:induction false} Inserted<K(!new)>(cmp: (K, K) -> int, c: Ctx<AvlNode<K>>, n: AvlNode<K>)
    requires TotalOrder(cmp) && Avl(Plug(c, Nil)) && Distinct(Plug(c, Node(Nil, n, 0, Nil)))
    requires Sorted(cmp, Before(c) + After(c))
    requires AllBelow(Probe(cmp, n.key), Before(c)) && AllAbove(Probe(cmp, n.key), After(c))
    ensures var t := InsertAt(c, n);
            && Avl(t) && Distinct(t) && Nodes(t) == CtxNodes(c) + {n}
            && InOrder(t) == Before(c) + [n] + After(c) && Sorted(cmp, InOrder(t))
  {
    var leaf := Node(Nil, n, 0, Nil);
    PlugAvl(c, Nil);
    InsertAtIsAvl(c, n);
    FixInsertKeepsNodes(c, leaf, 0);
    PlugNodes(c, leaf);
    assert Nodes(leaf) == {n};
    SortedInsert(cmp, Before(c), n, After(c));
  }
}
