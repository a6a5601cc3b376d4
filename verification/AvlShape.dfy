/**
 The AVL tree as a value.

 `Tree` records the links of a tree together with the balance factor stored in
 every node; `Ctx` is such a tree with one subtree cut out, read from the hole
 upwards, which is how the rebalancing loops walk.  Rotations compute their new
 balance factors from relative heights only, exactly as the C code does, and
 the lemmas here prove that those equal the true height differences.
 */
module AvlShape {

  datatype Tree<N> = Nil | Node(left: Tree<N>, n: N, bf: int, right: Tree<N>)

  /** A tree with a hole: the hole is the left (right) child of `n`. */
  datatype Ctx<N> =
    | Top
    | InLeft(up: Ctx<N>, n: N, bf: int, right: Tree<N>)
    | InRight(left: Tree<N>, n: N, bf: int, up: Ctx<N>)

  function Max(a: int, b: int): int {
    if a > b then a else b
  }

  function Abs(a: int): int {
    if a < 0 then -a else a
  }

  function Height<N>(t: Tree<N>): nat {
    match t
    case Nil => 0
    case Node(l, _, _, r) => 1 + Max(Height(l), Height(r))
  }

  function Size<N>(t: Tree<N>): nat {
    match t
    case Nil => 0
    case Node(l, _, _, r) => 1 + Size(l) + Size(r)
  }

  function InOrder<N>(t: Tree<N>): seq<N> {
    match t
    case Nil => []
    case Node(l, n, _, r) => InOrder(l) + [n] + InOrder(r)
  }

  function Nodes<N>(t: Tree<N>): set<N> {
    match t
    case Nil => {}
    case Node(l, n, _, r) => Nodes(l) + {n} + Nodes(r)
  }

  /** No node occurs twice. */
  predicate Distinct<N(==)>(t: Tree<N>) {
    match t
    case Nil => true
    case Node(l, n, _, r) =>
      && Distinct(l) && Distinct(r)
      && n !in Nodes(l) && n !in Nodes(r) && Nodes(l) !! Nodes(r)
  }

  /** Every stored balance factor is the true height difference, and lies in -1..1. */
  predicate Avl<N>(t: Tree<N>) {
    match t
    case Nil => true
    case Node(l, _, bf, r) =>
      && Avl(l) && Avl(r)
      && bf == Height(r) - Height(l)
      && -1 <= bf <= 1
  }

  predicate IsLeaf<N>(t: Tree<N>) {
    t.Node? && t.left.Nil? && t.right.Nil?
  }

  // ---------------------------------------------------------------- contexts

  /** The subtree of the hole's parent once `t` fills the hole. */
  function Fill<N>(c: Ctx<N>, t: Tree<N>): (r: Tree<N>)
    requires !c.Top?
  {
    match c
    case InLeft(_, n, bf, right) => Node(t, n, bf, right)
    case InRight(left, n, bf, _) => Node(left, n, bf, t)
  }

  function Plug<N>(c: Ctx<N>, t: Tree<N>): Tree<N>
    decreases c
  {
    match c
    case Top => t
    case InLeft(up, _, _, _) => Plug(up, Fill(c, t))
    case InRight(_, _, _, up) => Plug(up, Fill(c, t))
  }

  /** The nodes that precede, and follow, the hole in order. */
  function Before<N>(c: Ctx<N>): seq<N> {
    match c
    case Top => []
    case InLeft(up, _, _, _) => Before(up)
    case InRight(left, n, _, up) => Before(up) + InOrder(left) + [n]
  }

  function After<N>(c: Ctx<N>): seq<N> {
    match c
    case Top => []
    case InLeft(up, n, _, right) => [n] + InOrder(right) + After(up)
    case InRight(_, _, _, up) => After(up)
  }

  function CtxNodes<N>(c: Ctx<N>): set<N> {
    match c
    case Top => {}
    case InLeft(up, n, _, right) => CtxNodes(up) + {n} + Nodes(right)
    case InRight(left, n, _, up) => CtxNodes(up) + {n} + Nodes(left)
  }

  predicate CtxDistinct<N(==)>(c: Ctx<N>) {
    match c
    case Top => true
    case InLeft(up, n, _, t) =>
      && CtxDistinct(up) && Distinct(t)
      && n !in CtxNodes(up) && n !in Nodes(t) && Nodes(t) !! CtxNodes(up)
    case InRight(t, n, _, up) =>
      && CtxDistinct(up) && Distinct(t)
      && n !in CtxNodes(up) && n !in Nodes(t) && Nodes(t) !! CtxNodes(up)
  }

  /** The context is AVL around a hole of height `h`. */
  predicate CtxAvl<N>(c: Ctx<N>, h: int)
    decreases c
  {
    match c
    case Top => true
    case InLeft(up, _, bf, right) =>
      Avl(right) && -1 <= bf <= 1 && bf == Height(right) - h && CtxAvl(up, 1 + Max(h, Height(right)))
    case InRight(left, _, bf, up) =>
      Avl(left) && -1 <= bf <= 1 && bf == h - Height(left) && CtxAvl(up, 1 + Max(Height(left), h))
  }

  lemma {:induction false} PlugInOrder<N>(c: Ctx<N>, t: Tree<N>)
    ensures InOrder(Plug(c, t)) == Before(c) + InOrder(t) + After(c)
    decreases c
  {
    if !c.Top? {
      PlugInOrder(c.up, Fill(c, t));
    }
  }

  lemma {:induction false} PlugNodes<N>(c: Ctx<N>, t: Tree<N>)
    ensures Nodes(Plug(c, t)) == CtxNodes(c) + Nodes(t)
    decreases c
  {
    if !c.Top? {
      PlugNodes(c.up, Fill(c, t));
    }
  }

  lemma {:induction false} PlugDistinct<N>(c: Ctx<N>, t: Tree<N>)
    ensures Distinct(Plug(c, t)) <==> CtxDistinct(c) && Distinct(t) && CtxNodes(c) !! Nodes(t)
    decreases c
  {
    if !c.Top? {
      PlugDistinct(c.up, Fill(c, t));
    }
  }

  lemma {:induction false} PlugRoot<N>(c: Ctx<N>, t: Tree<N>)
    requires !c.Top?
    ensures Plug(c, t).Node? && Plug(c, t).n in CtxNodes(c)
    decreases c
  {
    if !c.up.Top? {
      PlugRoot(c.up, Fill(c, t));
    }
  }

  lemma {:induction false} PlugAvl<N>(c: Ctx<N>, t: Tree<N>)
    ensures Avl(Plug(c, t)) <==> CtxAvl(c, Height(t)) && Avl(t)
    decreases c
  {
    if !c.Top? {
      PlugAvl(c.up, Fill(c, t));
    }
  }

  lemma {:induction false} NodesAreInOrder<N>(t: Tree<N>)
    ensures forall x :: x in InOrder(t) ==> x in Nodes(t)
    ensures forall x :: x in Nodes(t) ==> x in InOrder(t)
    ensures |InOrder(t)| == Size(t)
  {
    if t.Node? {
      NodesAreInOrder(t.left);
      NodesAreInOrder(t.right);
    }
  }

  /** A tree without repeated nodes has an in-order sequence without repetitions. */
  lemma {:induction false} InOrderInjective<N>(t: Tree<N>, i: nat, j: nat)
    requires Distinct(t) && i < j < |InOrder(t)|
    ensures InOrder(t)[i] != InOrder(t)[j]
    decreases t
  {
    var l, r := InOrder(t.left), InOrder(t.right);
    NodesAreInOrder(t.left);
    NodesAreInOrder(t.right);
    var x, y := (l + [t.n] + r)[i], (l + [t.n] + r)[j];
    if j < |l| {
      InOrderInjective(t.left, i, j);
    } else if i > |l| {
      InOrderInjective(t.right, i - |l| - 1, j - |l| - 1);
    } else {
      assert if i < |l| then x == l[i] && x in l && x in Nodes(t.left) else x == t.n;
      assert if j == |l| then y == t.n else y == r[j - |l| - 1] && y in r && y in Nodes(t.right);
    }
  }

  function LastOf<N>(t: Tree<N>): (r: Tree<N>)
    requires t.Node?
    ensures r.Node? && r.right.Nil?
  {
    if t.right.Nil? then t else LastOf(t.right)
  }

  lemma {:induction false} LastFacts<N>(t: Tree<N>)
    requires t.Node?
    ensures InOrder(t) != [] && InOrder(t)[|InOrder(t)| - 1] == LastOf(t).n
  {
    if t.right.Node? {
      LastFacts(t.right);
    }
  }

  // --------------------------------------------------------------- rotations

  /** What `_rotate_LL` and `_rotate_RR` compute: the new balance factor of the node
      that sinks, of the child that rises, and the change of height. */
  datatype Factors = Factors(parentBf: int, childBf: int, delta: int)

  /** The arithmetic of `_rotate_LL`.  Of the child's subtrees only their presence is looked at. */
  function FactorsLL(hasLeft: bool, hasRight: bool, parentBf: int, childBf: int): Factors {
    var cl := if hasLeft then 1 else 0;
    var cr := if hasRight then 1 else 0;
    if childBf < 0 then
      var cLeft := cr - childBf;
      var pRight := cLeft + 1 + parentBf;
      Factors(pRight - cr, (Max(cr, pRight) + 1) - cLeft,
              Max(cLeft, Max(cr, pRight) + 1) - (cLeft + 1))
    else
      var cRight := cl + childBf;
      var pRight := cRight + 1 + parentBf;
      Factors(pRight - cRight, (Max(cRight, pRight) + 1) - cl,
              Max(cl, Max(cRight, pRight) + 1) - (cRight + 1))
  }

  /** The arithmetic of `_rotate_RR`. */
  function FactorsRR(hasLeft: bool, hasRight: bool, parentBf: int, childBf: int): Factors {
    var cl := if hasLeft then 1 else 0;
    var cr := if hasRight then 1 else 0;
    if childBf < 0 then
      var cLeft := cr - childBf;
      var pLeft := cLeft + 1 - parentBf;
      Factors(cLeft - pLeft, cr - (Max(cLeft, pLeft) + 1),
              Max(cr, Max(cLeft, pLeft) + 1) - (cLeft + 1))
    else
      var cRight := cl + childBf;
      var pLeft := cRight + 1 - parentBf;
      Factors(cl - pLeft, cRight - (Max(cl, pLeft) + 1),
              Max(cRight, Max(cl, pLeft) + 1) - (cRight + 1))
  }

  /** The left child rises, with the given new balance factors. */
  function LiftLeft<N>(t: Tree<N>, f: Factors): (r: Tree<N>)
    requires t.Node? && t.left.Node?
  {
    Node(t.left.left, t.left.n, f.childBf, Node(t.left.right, t.n, f.parentBf, t.right))
  }

  function LiftRight<N>(t: Tree<N>, f: Factors): (r: Tree<N>)
    requires t.Node? && t.right.Node?
  {
    Node(Node(t.left, t.n, f.parentBf, t.right.left), t.right.n, f.childBf, t.right.right)
  }

  function LLOf<N>(t: Tree<N>, parentBf: int, childBf: int): Factors
    requires t.Node? && t.left.Node?
  {
    FactorsLL(t.left.left.Node?, t.left.right.Node?, parentBf, childBf)
  }

  function RROf<N>(t: Tree<N>, parentBf: int, childBf: int): Factors
    requires t.Node? && t.right.Node?
  {
    FactorsRR(t.right.left.Node?, t.right.right.Node?, parentBf, childBf)
  }

  function RotateLL<N>(t: Tree<N>, parentBf: int, childBf: int): (r: Tree<N>)
    requires t.Node? && t.left.Node?
  {
    LiftLeft(t, LLOf(t, parentBf, childBf))
  }

  function RotateRR<N>(t: Tree<N>, parentBf: int, childBf: int): (r: Tree<N>)
    requires t.Node? && t.right.Node?
  {
    LiftRight(t, RROf(t, parentBf, childBf))
  }

  /** `_rotate_LR`: the left child's right child rises twice. */
  function RotateLR<N>(t: Tree<N>, parentBf: int): (r: Tree<N>)
    requires t.Node? && t.left.Node?
  {
    if t.left.right.Node? then
      var f := RROf(t.left, t.left.bf, t.left.right.bf);
      RotateLL(t.(left := LiftRight(t.left, f)), parentBf - f.delta, f.childBf)
    else
      RotateLL(t, parentBf, t.left.bf)
  }

  /** `_rotate_RL`: the right child's left child rises twice. */
  function RotateRL<N>(t: Tree<N>, parentBf: int): (r: Tree<N>)
    requires t.Node? && t.right.Node?
  {
    if t.right.left.Node? then
      var f := LLOf(t.right, t.right.bf, t.right.left.bf);
      RotateRR(t.(right := LiftLeft(t.right, f)), parentBf + f.delta, f.childBf)
    else
      RotateRR(t, parentBf, t.right.bf)
  }

  /** `_balance_tree` on a node whose true height difference is the stored one plus `d`. */
  function Balance<N>(t: Tree<N>, d: int): (r: Tree<N>)
    requires t.Node?
  {
    var diff := t.bf + d;
    if diff < -1 && t.left.Node? then
      if t.left.bf <= 0 then RotateLL(t, diff, t.left.bf) else RotateLR(t, diff)
    else if diff > 1 && t.right.Node? then
      if t.right.bf >= 0 then RotateRR(t, diff, t.right.bf) else RotateRL(t, diff)
    else
      t.(bf := diff)
  }

  /** Factors that are the true ones for a left child of subtree heights `a` and `b` and a right height `r`. */
  predicate TrueLL(f: Factors, a: int, b: int, r: int) {
    && f.parentBf == r - b
    && f.childBf == 1 + Max(b, r) - a
    && f.delta == Max(a, 1 + Max(b, r)) - (1 + Max(a, b))
  }

  predicate TrueRR(f: Factors, l: int, a: int, b: int) {
    && f.parentBf == a - l
    && f.childBf == b - (1 + Max(l, a))
    && f.delta == Max(1 + Max(l, a), b) - (1 + Max(a, b))
  }

  lemma {:induction false} FactorsLLTrue(a: nat, b: nat, r: nat)
    ensures TrueLL(FactorsLL(a > 0, b > 0, r - (1 + Max(a, b)), b - a), a, b, r)
  {
  }

  lemma {:induction false} FactorsRRTrue(l: nat, a: nat, b: nat)
    ensures TrueRR(FactorsRR(a > 0, b > 0, (1 + Max(a, b)) - l, b - a), l, a, b)
  {
  }

  lemma {:induction false} Regroup<N>(a: seq<N>, x: N, b: seq<N>, y: N, c: seq<N>)
    ensures (a + [x] + b) + [y] + c == a + [x] + (b + [y] + c)
  {
  }

  lemma {:induction false} LiftLeftKeepsOrder<N>(t: Tree<N>, f: Factors)
    requires t.Node? && t.left.Node?
    ensures InOrder(LiftLeft(t, f)) == InOrder(t)
  {
    var a, b, c := InOrder(t.left.left), InOrder(t.left.right), InOrder(t.right);
    assert InOrder(t.left) == a + [t.left.n] + b;
    Regroup(a, t.left.n, b, t.n, c);
  }

  lemma {:induction false} LiftRightKeepsOrder<N>(t: Tree<N>, f: Factors)
    requires t.Node? && t.right.Node?
    ensures InOrder(LiftRight(t, f)) == InOrder(t)
  {
    var a, b, c := InOrder(t.left), InOrder(t.right.left), InOrder(t.right.right);
    assert InOrder(t.right) == b + [t.right.n] + c;
    Regroup(a, t.n, b, t.right.n, c);
  }

  lemma {:induction false} LiftKeepsNodes<N>(t: Tree<N>, f: Factors)
    ensures t.Node? && t.left.Node? ==>
              Nodes(LiftLeft(t, f)) == Nodes(t) && (Distinct(t) ==> Distinct(LiftLeft(t, f)))
    ensures t.Node? && t.right.Node? ==>
              Nodes(LiftRight(t, f)) == Nodes(t) && (Distinct(t) ==> Distinct(LiftRight(t, f)))
  {
    if t.Node? && t.left.Node? {
      LiftLeftKeepsNodes(t, f);
    }
    if t.Node? && t.right.Node? {
      LiftRightKeepsNodes(t, f);
    }
  }

  lemma {:induction false} LiftLeftKeepsNodes<N>(t: Tree<N>, f: Factors)
    requires t.Node? && t.left.Node?
    ensures Nodes(LiftLeft(t, f)) == Nodes(t) && (Distinct(t) ==> Distinct(LiftLeft(t, f)))
  {
    var low := LiftLeft(t, f).right;
    assert Nodes(low) == Nodes(t.left.right) + {t.n} + Nodes(t.right);
    assert Nodes(t.left) == Nodes(t.left.left) + {t.left.n} + Nodes(t.left.right);
    if Distinct(t) {
      assert Distinct(t.left);
      assert Distinct(low);
    }
  }

  lemma {:induction false} LiftRightKeepsNodes<N>(t: Tree<N>, f: Factors)
    requires t.Node? && t.right.Node?
    ensures Nodes(LiftRight(t, f)) == Nodes(t) && (Distinct(t) ==> Distinct(LiftRight(t, f)))
  {
    var low := LiftRight(t, f).left;
    assert Nodes(low) == Nodes(t.left) + {t.n} + Nodes(t.right.left);
    assert Nodes(t.right) == Nodes(t.right.left) + {t.right.n} + Nodes(t.right.right);
    if Distinct(t) {
      assert Distinct(t.right);
      assert Distinct(low);
    }
  }

  lemma {:induction false} BalanceKeepsNodes<N>(t: Tree<N>, d: int)
    requires t.Node?
    ensures Nodes(Balance(t, d)) == Nodes(t)
    ensures Distinct(t) ==> Distinct(Balance(t, d))
  {
    var diff := t.bf + d;
    if diff < -1 && t.left.Node? {
      if t.left.bf > 0 && t.left.right.Node? {
        var f := RROf(t.left, t.left.bf, t.left.right.bf);
        LiftKeepsNodes(t.left, f);
        var t' := t.(left := LiftRight(t.left, f));
        assert Nodes(t') == Nodes(t) && (Distinct(t) ==> Distinct(t'));
        LiftKeepsNodes(t', LLOf(t', diff - f.delta, f.childBf));
      } else {
        LiftKeepsNodes(t, LLOf(t, diff, t.left.bf));
      }
    } else if diff > 1 && t.right.Node? {
      if t.right.bf < 0 && t.right.left.Node? {
        var f := LLOf(t.right, t.right.bf, t.right.left.bf);
        LiftKeepsNodes(t.right, f);
        var t' := t.(right := LiftLeft(t.right, f));
        assert Nodes(t') == Nodes(t) && (Distinct(t) ==> Distinct(t'));
        LiftKeepsNodes(t', RROf(t', diff + f.delta, f.childBf));
      } else {
        LiftKeepsNodes(t, RROf(t, diff, t.right.bf));
      }
    }
  }

  /** The stored balance factor of the root is the true one. */
  predicate ExactRoot<N>(t: Tree<N>) {
    t.Node? ==> t.bf == Height(t.right) - Height(t.left)
  }

  /**
   For all subtrees, of any shape: given the true balance factors of the two
   nodes involved, `_rotate_LL` computes the true balance factors of both nodes
   and, exactly for a node that does not lean right, the true change of height.
   */
  lemma {:induction false} RotateLLExact<N>(t: Tree<N>, parentBf: int, childBf: int)
    requires t.Node? && t.left.Node?
    requires parentBf == Height(t.right) - Height(t.left)
    requires childBf == Height(t.left.right) - Height(t.left.left)
    ensures var r := RotateLL(t, parentBf, childBf);
            && ExactRoot(r) && ExactRoot(r.right)
            && (parentBf <= 0 <==> LLOf(t, parentBf, childBf).delta == Height(r) - Height(t))
  {
    var a, b, h := Height(t.left.left), Height(t.left.right), Height(t.right);
    assert Height(t.left) == 1 + Max(a, b);
    FactorsLLTrue(a, b, h);
    assert Height(RotateLL(t, parentBf, childBf).right) == 1 + Max(b, h);
  }

  lemma {:induction false} RotateRRExact<N>(t: Tree<N>, parentBf: int, childBf: int)
    requires t.Node? && t.right.Node?
    requires parentBf == Height(t.right) - Height(t.left)
    requires childBf == Height(t.right.right) - Height(t.right.left)
    ensures var r := RotateRR(t, parentBf, childBf);
            && ExactRoot(r) && ExactRoot(r.left)
            && (parentBf >= 0 <==> RROf(t, parentBf, childBf).delta == Height(r) - Height(t))
  {
    var h, a, b := Height(t.left), Height(t.right.left), Height(t.right.right);
    assert Height(t.right) == 1 + Max(a, b);
    FactorsRRTrue(h, a, b);
    assert Height(RotateRR(t, parentBf, childBf).left) == 1 + Max(h, a);
  }

  /** A node whose subtrees are AVL and whose stored balance factor is off by `d`. */
  predicate Pending<N>(t: Tree<N>, d: int) {
    && t.Node? && Avl(t.left) && Avl(t.right)
    && -1 <= t.bf <= 1 && -1 <= d <= 1
    && Height(t.right) - Height(t.left) == t.bf + d
  }

  /** `_balance_tree` keeps the in-order sequence of any subtree. */
  lemma {:induction false} BalanceKeepsOrder<N>(t: Tree<N>, d: int)
    requires t.Node?
    ensures InOrder(Balance(t, d)) == InOrder(t)
  {
    var diff := t.bf + d;
    if diff < -1 && t.left.Node? {
      if t.left.bf > 0 && t.left.right.Node? {
        var f := RROf(t.left, t.left.bf, t.left.right.bf);
        LiftRightKeepsOrder(t.left, f);
        var t' := t.(left := LiftRight(t.left, f));
        assert InOrder(t') == InOrder(t);
        LiftLeftKeepsOrder(t', LLOf(t', diff - f.delta, f.childBf));
      } else {
        LiftLeftKeepsOrder(t, LLOf(t, diff, t.left.bf));
      }
    } else if diff > 1 && t.right.Node? {
      if t.right.bf < 0 && t.right.left.Node? {
        var f := LLOf(t.right, t.right.bf, t.right.left.bf);
        LiftLeftKeepsOrder(t.right, f);
        var t' := t.(right := LiftLeft(t.right, f));
        assert InOrder(t') == InOrder(t);
        LiftRightKeepsOrder(t', RROf(t', diff + f.delta, f.childBf));
      } else {
        LiftRightKeepsOrder(t, RROf(t, diff, t.right.bf));
      }
    }
  }

  // Rotations of a node that leans by two.

  lemma {:induction false} SingleLL<N>(t: Tree<N>)
    requires t.Node? && Avl(t.left) && Avl(t.right)
    requires Height(t.right) - Height(t.left) == -2 && t.left.bf <= 0
    ensures var r := RotateLL(t, -2, t.left.bf);
            && Avl(r)
            && Height(r) == Height(t) + t.left.bf
            && r.bf == t.left.bf + 1
  {
    RotateLLExact(t, -2, t.left.bf);
  }

  lemma {:induction false} SingleRR<N>(t: Tree<N>)
    requires t.Node? && Avl(t.left) && Avl(t.right)
    requires Height(t.right) - Height(t.left) == 2 && t.right.bf >= 0
    ensures var r := RotateRR(t, 2, t.right.bf);
            && Avl(r)
            && Height(r) == Height(t) - t.right.bf
            && r.bf == t.right.bf - 1
  {
    RotateRRExact(t, 2, t.right.bf);
  }

  /** The factors of both steps of a double rotation around subtrees of heights h, a, b, h. */
  lemma {:induction false} DoubleFactors(h: nat, a: nat, b: nat)
    requires Max(a, b) == h
    ensures FactorsRR(a > 0, b > 0, 1, b - a) == Factors(a - h, b - (h + 1), 0)
    ensures FactorsLL(true, b > 0, -2, b - (h + 1)) == Factors(h - b, 0, -1)
    ensures FactorsLL(a > 0, b > 0, -1, b - a) == Factors(h - b, h + 1 - a, 0)
    ensures FactorsRR(a > 0, true, 2, h + 1 - a) == Factors(a - h, 0, -1)
  {
  }

  lemma {:induction false} DoubleLRForm<N>(t: Tree<N>, h: nat, a: nat, b: nat)
    requires t.Node? && t.left.Node? && t.left.bf == 1
    requires var g := t.left.right; g.Node? && g.bf == b - a && (g.left.Node? <==> a > 0) && (g.right.Node? <==> b > 0)
    requires Max(a, b) == h
    ensures var g := t.left.right;
            RotateLR(t, -2) ==
              Node(Node(t.left.left, t.left.n, a - h, g.left), g.n, 0, Node(g.right, t.n, h - b, t.right))
  {
    DoubleFactors(h, a, b);
  }

  lemma {:induction false} DoubleRLForm<N>(t: Tree<N>, h: nat, a: nat, b: nat)
    requires t.Node? && t.right.Node? && t.right.bf == -1
    requires var g := t.right.left; g.Node? && g.bf == b - a && (g.left.Node? <==> a > 0) && (g.right.Node? <==> b > 0)
    requires Max(a, b) == h
    ensures var g := t.right.left;
            RotateRL(t, 2) ==
              Node(Node(t.left, t.n, a - h, g.left), g.n, 0, Node(g.right, t.right.n, h - b, t.right.right))
  {
    DoubleFactors(h, a, b);
  }

  lemma {:induction false} DoubleLR<N>(t: Tree<N>)
    requires t.Node? && Avl(t.left) && Avl(t.right)
    requires Height(t.right) - Height(t.left) == -2 && t.left.bf == 1
    ensures var r := RotateLR(t, -2);
            && Avl(r)
            && Height(r) == Height(t) - 1 && r.bf == 0
  {
    var h := Height(t.right);
    var g := t.left.right;
    assert Avl(g) && Height(t.left.left) == h && Height(g) == h + 1;
    DoubleLRForm(t, h, Height(g.left), Height(g.right));
  }

  lemma {:induction false} DoubleRL<N>(t: Tree<N>)
    requires t.Node? && Avl(t.left) && Avl(t.right)
    requires Height(t.right) - Height(t.left) == 2 && t.right.bf == -1
    ensures var r := RotateRL(t, 2);
            && Avl(r)
            && Height(r) == Height(t) - 1 && r.bf == 0
  {
    var h := Height(t.left);
    var g := t.right.left;
    assert Avl(g) && Height(t.right.right) == h && Height(g) == h + 1;
    DoubleRLForm(t, h, Height(g.left), Height(g.right));
  }

  /** The subtree leans by two and the heavy child does not lean at all. */
  predicate EvenHeavyChild<N>(t: Tree<N>, d: int)
    requires t.Node?
  {
    || (t.bf + d == -2 && t.left.Node? && t.left.bf == 0)
    || (t.bf + d == 2 && t.right.Node? && t.right.bf == 0)
  }

  /** `_balance_tree` yields an AVL subtree; its height and root factor. */
  lemma {:induction false} BalanceIsAvl<N>(t: Tree<N>, d: int)
    requires Pending(t, d)
    ensures var r := Balance(t, d);
            && Avl(r)
            && (Abs(t.bf + d) <= 1 ==> Height(r) == Height(t) && r.bf == t.bf + d)
            && (Abs(t.bf + d) == 2 ==>
                  if EvenHeavyChild(t, d) then Height(r) == Height(t) && Abs(r.bf) == 1
                  else Height(r) == Height(t) - 1 && r.bf == 0)
  {
    if t.bf + d == -2 {
      if t.left.bf <= 0 { SingleLL(t); } else { DoubleLR(t); }
    } else if t.bf + d == 2 {
      if t.right.bf >= 0 { SingleRR(t); } else { DoubleRL(t); }
    }
  }

  // ------------------------------------------------------ rebalancing upwards

  /** The side of its parent on which the hole lies: -1 left, +1 right. */
  function Side<N>(c: Ctx<N>): int {
    if c.InLeft? then -1 else 1
  }

  /** What the insertion loop hands to the parent after `t` became `r`. */
  function GrowthUp<N>(c: Ctx<N>, t: Tree<N>, r: Tree<N>): int
    requires t.Node? && r.Node?
  {
    if IsLeaf(r) || Abs(t.bf) < Abs(r.bf) then Side(c) else 0
  }

  /** The rebalancing loop of `avl_insert`, started at subtree `t` with pending change `d`. */
  function FixInsert<N>(c: Ctx<N>, t: Tree<N>, d: int): Tree<N>
    requires t.Node?
    decreases c
  {
    var r := Balance(t, d);
    if c.Top? then r
    else if GrowthUp(c, t, r) == 0 then Plug(c, r)
    else FixInsert(c.up, Fill(c, r), GrowthUp(c, t, r))
  }

  /** The node the insertion loop is at when it stops, which `avl_insert` returns. */
  function InsertEnd<N>(c: Ctx<N>, t: Tree<N>, d: int): N
    requires t.Node?
    decreases c
  {
    var r := Balance(t, d);
    if c.Top? then t.n
    else if GrowthUp(c, t, r) == 0 then r.n
    else InsertEnd(c.up, Fill(c, r), GrowthUp(c, t, r))
  }

  /** `rest` is `c` or a part of the path above it. */
  predicate Upper<N(==)>(rest: Ctx<N>, c: Ctx<N>)
    decreases c
  {
    rest == c || (!c.Top? && Upper(rest, c.up))
  }

  /**
   Where the loop stops: above the subtree `last` it rebalanced last everything is
   as it was.  Below a parent it is at the root of what that left; at the top of the
   tree it is still at the node it handed to `_balance_tree`.
   */
  lemma {:induction false} InsertEndsAt<N>(c: Ctx<N>, t: Tree<N>, d: int)
    returns (rest: Ctx<N>, last: Tree<N>, dd: int)
    requires t.Node?
    ensures last.Node? && Upper(rest, c) && FixInsert(c, t, d) == Plug(rest, Balance(last, dd))
    ensures InsertEnd(c, t, d) == if rest.Top? then last.n else Balance(last, dd).n
    ensures !rest.Top? ==> GrowthUp(rest, last, Balance(last, dd)) == 0
    decreases c
  {
    var r := Balance(t, d);
    if c.Top? || GrowthUp(c, t, r) == 0 {
      rest, last, dd := c, t, d;
    } else {
      rest, last, dd := InsertEndsAt(c.up, Fill(c, r), GrowthUp(c, t, r));
    }
  }

  /** What the removal loop hands to the parent after `t` became `r`. */
  function ShrinkUp<N>(c: Ctx<N>, t: Tree<N>, r: Tree<N>): int
    requires t.Node? && r.Node?
  {
    if IsLeaf(r) || Abs(t.bf) > Abs(r.bf) then -Side(c) else 0
  }

  /** The rebalancing loop of `avl_remove`. */
  function FixRemove<N>(c: Ctx<N>, t: Tree<N>, d: int): Tree<N>
    requires t.Node?
    decreases c
  {
    var r := Balance(t, d);
    if c.Top? then r
    else if ShrinkUp(c, t, r) == 0 then Plug(c, r)
    else FixRemove(c.up, Fill(c, r), ShrinkUp(c, t, r))
  }

  /** The height of `t` before the subtree on side `d` grew by one. */
  function HeightBeforeGrowth<N>(t: Tree<N>, d: int): int
    requires t.Node?
  {
    1 + Max(Height(t.left) - (if d == -1 then 1 else 0), Height(t.right) - (if d == 1 then 1 else 0))
  }

  /** The height of `t` before the subtree on side `-d` shrank by one. */
  function HeightBeforeShrink<N>(t: Tree<N>, d: int): int
    requires t.Node?
  {
    1 + Max(Height(t.left) + (if d == 1 then 1 else 0), Height(t.right) + (if d == -1 then 1 else 0))
  }

  /** The subtree on the grown side is a leaf or leans: what the early stop of insertion rests on. */
  predicate GrownLeans<N>(t: Tree<N>, d: int)
    requires t.Node?
  {
    && (d == -1 ==> t.left.Node? && (IsLeaf(t.left) || t.left.bf != 0))
    && (d == 1 ==> t.right.Node? && (IsLeaf(t.right) || t.right.bf != 0))
  }

  /**
   The insertion loop's early stop is sound: it hands on 0 exactly when the
   rebalanced subtree has the height it had before the insertion, and
   otherwise the subtree is one higher.
   */
  lemma {:induction false} InsertStopsExactly<N>(c: Ctx<N>, t: Tree<N>, d: int)
    requires Pending(t, d) && d != 0 && GrownLeans(t, d)
    ensures var r := Balance(t, d);
            && (GrowthUp(c, t, r) == 0 <==> Height(r) == HeightBeforeGrowth(t, d))
            && (GrowthUp(c, t, r) != 0 <==> Height(r) == HeightBeforeGrowth(t, d) + 1)
            && (GrowthUp(c, t, r) != 0 ==> IsLeaf(r) || r.bf != 0)
  {
    BalanceIsAvl(t, d);
  }

  /** The removal loop's early stop is sound. */
  lemma {:induction false} RemoveStopsExactly<N>(c: Ctx<N>, t: Tree<N>, d: int)
    requires Pending(t, d) && d != 0
    ensures var r := Balance(t, d);
            && (ShrinkUp(c, t, r) == 0 <==> Height(r) == HeightBeforeShrink(t, d))
            && (ShrinkUp(c, t, r) != 0 <==> Height(r) == HeightBeforeShrink(t, d) - 1)
  {
    BalanceIsAvl(t, d);
  }

  /** A hole of height `h` filled by a subtree one higher leaves the parent pending on that side. */
  lemma {:induction false} GrowthStep<N>(c: Ctx<N>, h: int, r: Tree<N>)
    requires !c.Top? && CtxAvl(c, h) && r.Node? && Avl(r) && Height(r) == h + 1
    requires IsLeaf(r) || r.bf != 0
    ensures var t := Fill(c, r);
            && Pending(t, Side(c)) && GrownLeans(t, Side(c))
            && CtxAvl(c.up, HeightBeforeGrowth(t, Side(c)))
  {
    if c.InLeft? {
      GrowthStepLeft(c, h, r);
    } else {
      GrowthStepRight(c, h, r);
    }
  }

  lemma {:induction false} GrowthStepLeft<N>(c: Ctx<N>, h: int, r: Tree<N>)
    requires c.InLeft? && CtxAvl(c, h) && r.Node? && Avl(r) && Height(r) == h + 1
    requires IsLeaf(r) || r.bf != 0
    ensures var t := Fill(c, r);
            Pending(t, -1) && GrownLeans(t, -1) && CtxAvl(c.up, HeightBeforeGrowth(t, -1))
  {
  }

  lemma {:induction false} GrowthStepRight<N>(c: Ctx<N>, h: int, r: Tree<N>)
    requires c.InRight? && CtxAvl(c, h) && r.Node? && Avl(r) && Height(r) == h + 1
    requires IsLeaf(r) || r.bf != 0
    ensures var t := Fill(c, r);
            Pending(t, 1) && GrownLeans(t, 1) && CtxAvl(c.up, HeightBeforeGrowth(t, 1))
  {
  }

  /** A hole of height `h` filled by a subtree one lower leaves the parent pending on the other side. */
  lemma {:induction false} ShrinkStep<N>(c: Ctx<N>, h: int, r: Tree<N>)
    requires !c.Top? && CtxAvl(c, h) && Avl(r) && Height(r) == h - 1
    ensures var t := Fill(c, r);
            && Pending(t, -Side(c))
            && CtxAvl(c.up, HeightBeforeShrink(t, -Side(c)))
  {
  }

  /** The insertion loop, from any pending subtree, rebuilds an AVL tree. */
  lemma {:induction false} FixInsertIsAvl<N>(c: Ctx<N>, t: Tree<N>, d: int)
    requires Pending(t, d) && d != 0 && GrownLeans(t, d)
    requires CtxAvl(c, HeightBeforeGrowth(t, d))
    ensures Avl(FixInsert(c, t, d))
    decreases c
  {
    var r := Balance(t, d);
    BalanceIsAvl(t, d);
    InsertStopsExactly(c, t, d);
    if c.Top? {
    } else if GrowthUp(c, t, r) == 0 {
      PlugAvl(c, r);
    } else {
      GrowthStep(c, HeightBeforeGrowth(t, d), r);
      FixInsertIsAvl(c.up, Fill(c, r), Side(c));
    }
  }

  lemma {:induction false} FixRemoveIsAvl<N>(c: Ctx<N>, t: Tree<N>, d: int)
    requires Pending(t, d) && d != 0
    requires CtxAvl(c, HeightBeforeShrink(t, d))
    ensures Avl(FixRemove(c, t, d))
    decreases c
  {
    var r := Balance(t, d);
    BalanceIsAvl(t, d);
    RemoveStopsExactly(c, t, d);
    if c.Top? {
    } else if ShrinkUp(c, t, r) == 0 {
      PlugAvl(c, r);
    } else {
      ShrinkStep(c, HeightBeforeShrink(t, d), r);
      FixRemoveIsAvl(c.up, Fill(c, r), -Side(c));
    }
  }

  /** Replacing the subtree in the hole by one with the same in-order sequence. */
  lemma {:induction false} PlugSameOrder<N>(c: Ctx<N>, t: Tree<N>, r: Tree<N>)
    requires InOrder(t) == InOrder(r)
    ensures InOrder(Plug(c, t)) == InOrder(Plug(c, r))
  {
    PlugInOrder(c, t);
    PlugInOrder(c, r);
  }

  lemma {:induction false} FixInsertKeepsOrder<N>(c: Ctx<N>, t: Tree<N>, d: int)
    requires t.Node?
    ensures InOrder(FixInsert(c, t, d)) == InOrder(Plug(c, t))
    decreases c
  {
    var r := Balance(t, d);
    BalanceKeepsOrder(t, d);
    PlugSameOrder(c, t, r);
    if !c.Top? && GrowthUp(c, t, r) != 0 {
      FixInsertKeepsOrder(c.up, Fill(c, r), GrowthUp(c, t, r));
    }
  }

  lemma {:induction false} FixRemoveKeepsOrder<N>(c: Ctx<N>, t: Tree<N>, d: int)
    requires t.Node?
    ensures InOrder(FixRemove(c, t, d)) == InOrder(Plug(c, t))
    decreases c
  {
    var r := Balance(t, d);
    BalanceKeepsOrder(t, d);
    PlugSameOrder(c, t, r);
    if !c.Top? && ShrinkUp(c, t, r) != 0 {
      FixRemoveKeepsOrder(c.up, Fill(c, r), ShrinkUp(c, t, r));
    }
  }

  lemma {:induction false} PlugSameNodes<N>(c: Ctx<N>, t: Tree<N>, r: Tree<N>)
    requires Nodes(t) == Nodes(r) && (Distinct(t) ==> Distinct(r))
    ensures Nodes(Plug(c, t)) == Nodes(Plug(c, r))
    ensures Distinct(Plug(c, t)) ==> Distinct(Plug(c, r))
  {
    PlugNodes(c, t);
    PlugNodes(c, r);
    PlugDistinct(c, t);
    PlugDistinct(c, r);
  }

  lemma {:induction false} FixInsertKeepsNodes<N>(c: Ctx<N>, t: Tree<N>, d: int)
    requires t.Node?
    ensures Nodes(FixInsert(c, t, d)) == Nodes(Plug(c, t))
    ensures Distinct(Plug(c, t)) ==> Distinct(FixInsert(c, t, d))
    decreases c
  {
    var r := Balance(t, d);
    BalanceKeepsNodes(t, d);
    PlugSameNodes(c, t, r);
    if !c.Top? && GrowthUp(c, t, r) != 0 {
      FixInsertKeepsNodes(c.up, Fill(c, r), GrowthUp(c, t, r));
    }
  }

  lemma {:induction false} FixRemoveKeepsNodes<N>(c: Ctx<N>, t: Tree<N>, d: int)
    requires t.Node?
    ensures Nodes(FixRemove(c, t, d)) == Nodes(Plug(c, t))
    ensures Distinct(Plug(c, t)) ==> Distinct(FixRemove(c, t, d))
    decreases c
  {
    var r := Balance(t, d);
    BalanceKeepsNodes(t, d);
    PlugSameNodes(c, t, r);
    if !c.Top? && ShrinkUp(c, t, r) != 0 {
      FixRemoveKeepsNodes(c.up, Fill(c, r), ShrinkUp(c, t, r));
    }
  }

  // -------------------------------------------------------------- whole operations

  /** Hanging the fresh leaf `n` in the hole `c` and rebalancing. */
  function InsertAt<N>(c: Ctx<N>, n: N): Tree<N> {
    FixInsert(c, Node(Nil, n, 0, Nil), 0)
  }

  lemma {:induction false} InsertAtIsAvl<N>(c: Ctx<N>, n: N)
    requires CtxAvl(c, 0)
    ensures Avl(InsertAt(c, n))
    ensures InOrder(InsertAt(c, n)) == Before(c) + [n] + After(c)
  {
    var leaf := Node(Nil, n, 0, Nil);
    assert InOrder(InsertAt(c, n)) == Before(c) + [n] + After(c) by {
      FixInsertKeepsOrder(c, leaf, 0);
      PlugInOrder(c, leaf);
    }
    if !c.Top? {
      GrowthStep(c, 0, leaf);
      FixInsertIsAvl(c.up, Fill(c, leaf), Side(c));
    }
  }

  /** The hole `c` lost one level and now holds `x`: what `avl_remove` does from there. */
  function ShrinkAt<N>(c: Ctx<N>, x: Tree<N>): Tree<N> {
    if c.Top? then x else FixRemove(c.up, Fill(c, x), -Side(c))
  }

  lemma {:induction false} ShrinkAtIsAvl<N>(c: Ctx<N>, h: int, x: Tree<N>)
    requires CtxAvl(c, h) && Avl(x) && Height(x) == h - 1
    ensures Avl(ShrinkAt(c, x))
    ensures InOrder(ShrinkAt(c, x)) == Before(c) + InOrder(x) + After(c)
  {
    PlugInOrder(c, x);
    if !c.Top? {
      ShrinkStep(c, h, x);
      FixRemoveIsAvl(c.up, Fill(c, x), -Side(c));
      FixRemoveKeepsOrder(c.up, Fill(c, x), -Side(c));
    }
  }

  /** Following left children from the root of `t` in the hole `c`. */
  function FirstCtx<N>(c: Ctx<N>, t: Tree<N>): Ctx<N>
    requires t.Node?
    decreases t
  {
    if t.left.Nil? then c else FirstCtx(InLeft(c, t.n, t.bf, t.right), t.left)
  }

  function First<N>(t: Tree<N>): (r: Tree<N>)
    requires t.Node?
    ensures r.Node? && r.left.Nil?
  {
    if t.left.Nil? then t else First(t.left)
  }

  lemma {:induction false} FirstFacts<N>(c: Ctx<N>, t: Tree<N>)
    requires t.Node?
    ensures var cc, f := FirstCtx(c, t), First(t);
            && Plug(cc, f) == Plug(c, t)
            && Before(cc) == Before(c)
            && InOrder(t) != [] && InOrder(t)[0] == f.n
            && (Avl(t) && CtxAvl(c, Height(t)) ==> Avl(f) && CtxAvl(cc, Height(f)))
    decreases t
  {
    if t.left.Node? {
      FirstFacts(InLeft(c, t.n, t.bf, t.right), t.left);
    }
  }

  /** `t` without its first node, before any rebalancing. */
  function DropFirst<N>(t: Tree<N>): Tree<N>
    requires t.Node?
  {
    if t.left.Nil? then t.right else t.(left := DropFirst(t.left))
  }

  lemma {:induction false} DropFirstPlug<N>(c: Ctx<N>, t: Tree<N>)
    requires t.Node?
    ensures Plug(FirstCtx(c, t), First(t).right) == Plug(c, DropFirst(t))
    decreases t
  {
    if t.left.Node? {
      DropFirstPlug(InLeft(c, t.n, t.bf, t.right), t.left);
    }
  }

  /** Unless the first node is the root, its parent does not depend on what surrounds `t`. */
  lemma {:induction false} FirstParent<N>(c: Ctx<N>, c': Ctx<N>, t: Tree<N>)
    requires t.Node? && t.left.Node?
    ensures FirstCtx(c, t).InLeft? && FirstCtx(c', t).InLeft? && FirstCtx(c, t).n == FirstCtx(c', t).n
    decreases t
  {
    var d, d' := InLeft(c, t.n, t.bf, t.right), InLeft(c', t.n, t.bf, t.right);
    if t.left.left.Node? {
      FirstParent(d, d', t.left);
    }
  }

  lemma {:induction false} DropFirstNodes<N>(t: Tree<N>)
    requires t.Node? && Distinct(t)
    ensures First(t).n in Nodes(t)
    ensures Distinct(DropFirst(t)) && Nodes(DropFirst(t)) == Nodes(t) - {First(t).n}
  {
    if t.left.Node? {
      DropFirstNodes(t.left);
    }
  }

  /** Where node `n` sits in the tree `t`. */
  function CtxOf<N(==)>(c: Ctx<N>, t: Tree<N>, n: N): Ctx<N>
    requires n in Nodes(t)
    decreases t
  {
    if n == t.n then c
    else if n in Nodes(t.left) then CtxOf(InLeft(c, t.n, t.bf, t.right), t.left, n)
    else CtxOf(InRight(t.left, t.n, t.bf, c), t.right, n)
  }

  function SubtreeOf<N(==)>(t: Tree<N>, n: N): (r: Tree<N>)
    requires n in Nodes(t)
    ensures r.Node? && r.n == n
  {
    if n == t.n then t else if n in Nodes(t.left) then SubtreeOf(t.left, n) else SubtreeOf(t.right, n)
  }

  lemma {:induction false} CtxOfPlug<N>(c: Ctx<N>, t: Tree<N>, n: N)
    requires n in Nodes(t)
    ensures Plug(CtxOf(c, t, n), SubtreeOf(t, n)) == Plug(c, t)
    decreases t
  {
    if n == t.n {
    } else if n in Nodes(t.left) {
      CtxOfPlug(InLeft(c, t.n, t.bf, t.right), t.left, n);
    } else {
      CtxOfPlug(InRight(t.left, t.n, t.bf, c), t.right, n);
    }
  }

  /** `avl_remove` of the root of subtree `t` sitting in the hole `c`. */
  function RemoveAt<N>(c: Ctx<N>, t: Tree<N>): Tree<N>
    requires t.Node?
  {
    if t.right.Nil? then
      ShrinkAt(c, t.left)
    else
      var next := First(t.right);
      ShrinkAt(FirstCtx(InRight(t.left, next.n, t.bf, c), t.right), next.right)
  }

  /** Removal leaves an AVL tree whose in-order sequence misses exactly the removed node. */
  lemma {:induction false} RemoveAtIsAvl<N>(c: Ctx<N>, t: Tree<N>)
    requires t.Node? && Avl(t) && CtxAvl(c, Height(t))
    ensures Avl(RemoveAt(c, t))
    ensures InOrder(RemoveAt(c, t)) == Before(c) + InOrder(t.left) + InOrder(t.right) + After(c)
  {
    if t.right.Nil? {
      ShrinkAtIsAvl(c, Height(t), t.left);
    } else {
      var next := First(t.right);
      var c0 := InRight(t.left, next.n, t.bf, c);
      var cc := FirstCtx(c0, t.right);
      FirstFacts(c0, t.right);
      ShrinkAtIsAvl(cc, Height(next), next.right);
      RemoveOrder(c, t);
    }
  }

  lemma {:induction false} RemoveOrder<N>(c: Ctx<N>, t: Tree<N>)
    requires t.Node? && t.right.Node?
    ensures var next := First(t.right);
            var cc := FirstCtx(InRight(t.left, next.n, t.bf, c), t.right);
            Before(cc) + InOrder(next.right) + After(cc) == Before(c) + InOrder(t.left) + InOrder(t.right) + After(c)
  {
    var next := First(t.right);
    var c0 := InRight(t.left, next.n, t.bf, c);
    var cc := FirstCtx(c0, t.right);
    FirstFacts(c0, t.right);
    FirstOrder(c0, t.right);
    var pre := Before(c) + InOrder(t.left);
    assert (pre + [next.n]) + InOrder(next.right) + After(cc) == pre + ([next.n] + InOrder(next.right) + After(cc));
    assert pre + (InOrder(t.right) + After(c)) == pre + InOrder(t.right) + After(c);
  }

  lemma {:induction false} FirstOrder<N>(c: Ctx<N>, t: Tree<N>)
    requires t.Node?
    ensures [First(t).n] + InOrder(First(t).right) + After(FirstCtx(c, t)) == InOrder(t) + After(c)
    decreases t
  {
    if t.left.Node? {
      FirstOrder(InLeft(c, t.n, t.bf, t.right), t.left);
      var a, b := InOrder(t.left), InOrder(t.right);
      assert a + ([t.n] + b + After(c)) == (a + [t.n] + b) + After(c);
    }
  }

  // ------------------------------------------------------------------ searching

  /** Where the descent steered by `probe` ends: positive goes left, negative right, zero stops. */
  function SeekCtx<N>(probe: N -> int, c: Ctx<N>, t: Tree<N>): Ctx<N>
    decreases t
  {
    if t.Nil? || probe(t.n) == 0 then c
    else if probe(t.n) > 0 then SeekCtx(probe, InLeft(c, t.n, t.bf, t.right), t.left)
    else SeekCtx(probe, InRight(t.left, t.n, t.bf, c), t.right)
  }

  function Seek<N>(probe: N -> int, t: Tree<N>): Tree<N> {
    if t.Nil? || probe(t.n) == 0 then t
    else if probe(t.n) > 0 then Seek(probe, t.left)
    else Seek(probe, t.right)
  }

  /** The number of nodes the descent compares with. */
  function SeekSteps<N>(probe: N -> int, t: Tree<N>): nat {
    if t.Nil? then 0
    else if probe(t.n) == 0 then 1
    else if probe(t.n) > 0 then 1 + SeekSteps(probe, t.left)
    else 1 + SeekSteps(probe, t.right)
  }

  /** Along `s` the probe is first negative, then zero at most once, then positive. */
  predicate Steers<N>(probe: N -> int, s: seq<N>) {
    forall i, j :: 0 <= i < j < |s| ==> (probe(s[i]) >= 0 ==> probe(s[j]) > 0)
  }

  predicate AllBelow<N>(probe: N -> int, s: seq<N>) {
    forall i :: 0 <= i < |s| ==> probe(s[i]) < 0
  }

  predicate AllAbove<N>(probe: N -> int, s: seq<N>) {
    forall i :: 0 <= i < |s| ==> probe(s[i]) > 0
  }

  lemma {:induction false} SteersParts<N>(probe: N -> int, a: seq<N>, n: N, b: seq<N>)
    requires Steers(probe, a + [n] + b)
    ensures Steers(probe, a) && Steers(probe, b)
    ensures probe(n) <= 0 ==> AllBelow(probe, a)
    ensures probe(n) >= 0 ==> AllAbove(probe, b)
  {
    var s := a + [n] + b;
    assert s[|a|] == n;
    assert forall i :: 0 <= i < |a| ==> s[i] == a[i];
    assert forall i :: 0 <= i < |b| ==> s[|a| + 1 + i] == b[i];
  }

  lemma BelowJoin<N>(probe: N -> int, a: seq<N>, b: seq<N>, n: N)
    requires AllBelow(probe, a) && AllBelow(probe, b) && probe(n) < 0
    ensures AllBelow(probe, a + b + [n])
  {
  }

  lemma AboveJoin<N>(probe: N -> int, n: N, a: seq<N>, b: seq<N>)
    requires AllAbove(probe, a) && AllAbove(probe, b) && probe(n) > 0
    ensures AllAbove(probe, [n] + a + b)
  {
  }

  lemma {:induction false} SeekPlugs<N>(probe: N -> int, c: Ctx<N>, t: Tree<N>)
    ensures Plug(SeekCtx(probe, c, t), Seek(probe, t)) == Plug(c, t)
    decreases t
  {
    if t.Node? && probe(t.n) > 0 {
      SeekPlugs(probe, InLeft(c, t.n, t.bf, t.right), t.left);
    } else if t.Node? && probe(t.n) < 0 {
      SeekPlugs(probe, InRight(t.left, t.n, t.bf, c), t.right);
    }
  }

  lemma {:induction false} SeekNarrows<N>(probe: N -> int, c: Ctx<N>, t: Tree<N>)
    requires Steers(probe, InOrder(t)) && AllBelow(probe, Before(c)) && AllAbove(probe, After(c))
    ensures var cc, f := SeekCtx(probe, c, t), Seek(probe, t);
            && AllBelow(probe, Before(cc)) && AllAbove(probe, After(cc))
            && (f.Node? ==> probe(f.n) == 0 && AllBelow(probe, InOrder(f.left)) && AllAbove(probe, InOrder(f.right)))
    decreases t
  {
    if t.Node? {
      SteersParts(probe, InOrder(t.left), t.n, InOrder(t.right));
      if probe(t.n) > 0 {
        assert AllAbove(probe, [t.n] + InOrder(t.right) + After(c)) by {
          AboveJoin(probe, t.n, InOrder(t.right), After(c));
        }
        SeekNarrows(probe, InLeft(c, t.n, t.bf, t.right), t.left);
      } else if probe(t.n) < 0 {
        assert AllBelow(probe, Before(c) + InOrder(t.left) + [t.n]) by {
          BelowJoin(probe, Before(c), InOrder(t.left), t.n);
        }
        SeekNarrows(probe, InRight(t.left, t.n, t.bf, c), t.right);
      }
    }
  }

  /** The descent splits the sequence: everything before the end is below the probe, everything after above. */
  lemma SeekSplits<N>(probe: N -> int, c: Ctx<N>, t: Tree<N>)
    requires Steers(probe, InOrder(t)) && AllBelow(probe, Before(c)) && AllAbove(probe, After(c))
    ensures var cc, f := SeekCtx(probe, c, t), Seek(probe, t);
            && Plug(cc, f) == Plug(c, t)
            && AllBelow(probe, Before(cc)) && AllAbove(probe, After(cc))
            && (f.Node? ==> probe(f.n) == 0 && AllBelow(probe, InOrder(f.left)) && AllAbove(probe, InOrder(f.right)))
  {
    SeekPlugs(probe, c, t);
    SeekNarrows(probe, c, t);
  }

  /** The last comparison tells on which side of its parent the descent ended. */
  lemma {:induction false} SeekSide<N>(probe: N -> int, c: Ctx<N>, t: Tree<N>)
    requires !c.Top? ==> (probe(c.n) > 0 <==> c.InLeft?)
    ensures var cc := SeekCtx(probe, c, t); !cc.Top? ==> (probe(cc.n) > 0 <==> cc.InLeft?)
    decreases t
  {
    if t.Node? && probe(t.n) > 0 {
      SeekSide(probe, InLeft(c, t.n, t.bf, t.right), t.left);
    } else if t.Node? && probe(t.n) < 0 {
      SeekSide(probe, InRight(t.left, t.n, t.bf, c), t.right);
    }
  }

  lemma {:induction false} SeekWithinHeight<N>(probe: N -> int, t: Tree<N>)
    ensures SeekSteps(probe, t) <= Height(t)
  {
    if t.Node? {
      SeekWithinHeight(probe, t.left);
      SeekWithinHeight(probe, t.right);
    }
  }

  function Fib(n: nat): nat {
    if n < 2 then n else Fib(n - 1) + Fib(n - 2)
  }

  lemma {:induction false} FibMonotone(a: nat, b: nat)
    requires a <= b
    ensures Fib(a) <= Fib(b)
    decreases b
  {
    if a < b {
      FibMonotone(a, b - 1);
    }
  }

  lemma {:induction false} FibStep(hi: nat, lo: nat, a: nat, b: nat)
    requires hi <= lo + 1 && a >= Fib(hi + 2) - 1 && b >= Fib(lo + 2) - 1
    ensures 1 + a + b >= Fib(hi + 3) - 1
  {
    FibMonotone(hi + 1, lo + 2);
  }

  /** An AVL tree of height h has at least fib(h + 2) - 1 nodes. */
  lemma {:induction false} AvlSizeBound<N>(t: Tree<N>)
    requires Avl(t)
    ensures Size(t) >= Fib(Height(t) + 2) - 1
  {
    if t.Node? {
      AvlSizeBound(t.left);
      AvlSizeBound(t.right);
      if t.bf < 0 {
        FibStep(Height(t.left), Height(t.right), Size(t.left), Size(t.right));
      } else {
        FibStep(Height(t.right), Height(t.left), Size(t.right), Size(t.left));
      }
    }
  }
}
