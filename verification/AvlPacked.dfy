/**
 The factors `avltree.cc` hands to `avl_set_bf`, call by call.  The program
 packs a factor into two bits of the parent pointer; here every factor that
 inserting into or removing from an AVL tree stores is shown to fit them, so
 that reasoning with separate fields is reasoning about the packed word.
 */
module AvlPacked {
  import opened AvlShape
  import TaggedPointer

  /** A factor as the 64-bit word the macros see. */
  function Word(bf: int): TaggedPointer.Word
    requires -1 <= bf <= 1
  {
    if bf < 0 then 0xffff_ffff_ffff_ffff else if bf == 0 then 0 else 1
  }

  predicate Storable(bf: int) {
    -1 <= bf <= 1 && TaggedPointer.Fits(Word(bf))
  }

  predicate AllStorable(s: seq<int>) {
    forall bf <- s :: Storable(bf)
  }

  lemma SmallIsStorable(bf: int)
    ensures Storable(bf) <==> -1 <= bf <= 1
  {
  }

  function LLStores<N>(t: Tree<N>, parentBf: int, childBf: int): seq<int>
    requires t.Node? && t.left.Node?
  {
    var f := LLOf(t, parentBf, childBf);
    [f.parentBf, f.childBf]
  }

  function RRStores<N>(t: Tree<N>, parentBf: int, childBf: int): seq<int>
    requires t.Node? && t.right.Node?
  {
    var f := RROf(t, parentBf, childBf);
    [f.parentBf, f.childBf]
  }

  function LRStores<N>(t: Tree<N>, parentBf: int): seq<int>
    requires t.Node? && t.left.Node?
  {
    if t.left.right.Node? then
      var f := RROf(t.left, t.left.bf, t.left.right.bf);
      [f.parentBf] + LLStores(t.(left := LiftRight(t.left, f)), parentBf - f.delta, f.childBf)
    else
      LLStores(t, parentBf, t.left.bf)
  }

  function RLStores<N>(t: Tree<N>, parentBf: int): seq<int>
    requires t.Node? && t.right.Node?
  {
    if t.right.left.Node? then
      var f := LLOf(t.right, t.right.bf, t.right.left.bf);
      [f.parentBf] + RRStores(t.(right := LiftLeft(t.right, f)), parentBf + f.delta, f.childBf)
    else
      RRStores(t, parentBf, t.right.bf)
  }

  /** The factors one `_balance_tree` stores, in order. */
  function BalanceStores<N>(t: Tree<N>, d: int): seq<int>
    requires t.Node?
  {
    var diff := t.bf + d;
    if diff < -1 && t.left.Node? then
      if t.left.bf <= 0 then LLStores(t, diff, t.left.bf) else LRStores(t, diff)
    else if diff > 1 && t.right.Node? then
      if t.right.bf >= 0 then RRStores(t, diff, t.right.bf) else RLStores(t, diff)
    else
      [diff]
  }

  lemma {:induction false} BalanceFits<N>(t: Tree<N>, d: int)
    requires Pending(t, d)
    ensures AllStorable(BalanceStores(t, d))
  {
    BalanceIsAvl(t, d);
  }

  /** The factors the insertion loop stores. */
  function InsertLoopStores<N>(c: Ctx<N>, t: Tree<N>, d: int): seq<int>
    requires t.Node?
    decreases c
  {
    var r := Balance(t, d);
    if c.Top? || GrowthUp(c, t, r) == 0 then BalanceStores(t, d)
    else BalanceStores(t, d) + InsertLoopStores(c.up, Fill(c, r), GrowthUp(c, t, r))
  }

  lemma {:induction false} InsertLoopFits<N>(c: Ctx<N>, t: Tree<N>, d: int)
    requires Pending(t, d) && d != 0 && GrownLeans(t, d)
    requires CtxAvl(c, HeightBeforeGrowth(t, d))
    ensures AllStorable(InsertLoopStores(c, t, d))
    decreases c
  {
    var r := Balance(t, d);
    BalanceFits(t, d);
    BalanceIsAvl(t, d);
    InsertStopsExactly(c, t, d);
    if !c.Top? && GrowthUp(c, t, r) != 0 {
      GrowthStep(c, HeightBeforeGrowth(t, d), r);
      InsertLoopFits(c.up, Fill(c, r), Side(c));
    }
  }

  /** The factors `avl_insert` stores when it hangs the leaf `n` in the hole `c`. */
  function InsertStores<N>(c: Ctx<N>, n: N): seq<int> {
    [0] + InsertLoopStores(c, Node(Nil, n, 0, Nil), 0)
  }

  /** The factors the removal loop stores. */
  function RemoveLoopStores<N>(c: Ctx<N>, t: Tree<N>, d: int): seq<int>
    requires t.Node?
    decreases c
  {
    var r := Balance(t, d);
    if c.Top? || ShrinkUp(c, t, r) == 0 then BalanceStores(t, d)
    else BalanceStores(t, d) + RemoveLoopStores(c.up, Fill(c, r), ShrinkUp(c, t, r))
  }

  lemma {:induction false} RemoveLoopFits<N>(c: Ctx<N>, t: Tree<N>, d: int)
    requires Pending(t, d) && d != 0
    requires CtxAvl(c, HeightBeforeShrink(t, d))
    ensures AllStorable(RemoveLoopStores(c, t, d))
    decreases c
  {
    var r := Balance(t, d);
    BalanceFits(t, d);
    BalanceIsAvl(t, d);
    RemoveStopsExactly(c, t, d);
    if !c.Top? && ShrinkUp(c, t, r) != 0 {
      ShrinkStep(c, HeightBeforeShrink(t, d), r);
      RemoveLoopFits(c.up, Fill(c, r), -Side(c));
    }
  }

  function ShrinkStores<N>(c: Ctx<N>, x: Tree<N>): seq<int> {
    if c.Top? then [] else RemoveLoopStores(c.up, Fill(c, x), -Side(c))
  }

  /** The factors `avl_remove` of the root of `t` in the hole `c` stores: the successor inherits one first. */
  function RemoveStores<N>(c: Ctx<N>, t: Tree<N>): seq<int>
    requires t.Node?
  {
    if t.right.Nil? then
      ShrinkStores(c, t.left)
    else
      var next := First(t.right);
      [t.bf] + ShrinkStores(FirstCtx(InRight(t.left, next.n, t.bf, c), t.right), next.right)
  }

  lemma {:induction false} ShrinkFits<N>(c: Ctx<N>, h: int, x: Tree<N>)
    requires CtxAvl(c, h) && Avl(x) && Height(x) == h - 1
    ensures AllStorable(ShrinkStores(c, x))
  {
    if !c.Top? {
      ShrinkStep(c, h, x);
      RemoveLoopFits(c.up, Fill(c, x), -Side(c));
    }
  }

  /** Inserting into an AVL tree stores only factors that two bits hold. */
  lemma {:induction false} InsertFits<N>(c: Ctx<N>, n: N)
    requires CtxAvl(c, 0)
    ensures AllStorable(InsertStores(c, n))
  {
    var leaf := Node(Nil, n, 0, Nil);
    assert BalanceStores(leaf, 0) == [0] && Balance(leaf, 0) == leaf;
    if !c.Top? {
      GrowthStep(c, 0, leaf);
      InsertLoopFits(c.up, Fill(c, leaf), Side(c));
    }
  }

  /** Removing from an AVL tree stores only factors that two bits hold. */
  lemma {:induction false} RemoveFits<N>(c: Ctx<N>, t: Tree<N>)
    requires t.Node? && Avl(t) && CtxAvl(c, Height(t))
    ensures AllStorable(RemoveStores(c, t))
  {
    if t.right.Nil? {
      ShrinkFits(c, Height(t), t.left);
    } else {
      var next := First(t.right);
      var c0 := InRight(t.left, next.n, t.bf, c);
      FirstFacts(c0, t.right);
      ShrinkFits(FirstCtx(c0, t.right), Height(next), next.right);
    }
  }

  // ------------------------------------------------- no factor is stored otherwise

  /** The nodes of `t` with the factors they carry. */
  function Tags<N(==)>(t: Tree<N>): set<(N, int)> {
    if t.Nil? then {} else Tags(t.left) + {(t.n, t.bf)} + Tags(t.right)
  }

  function CtxTags<N(==)>(c: Ctx<N>): set<(N, int)>
    decreases c
  {
    match c
    case Top => {}
    case InLeft(up, n, bf, right) => CtxTags(up) + {(n, bf)} + Tags(right)
    case InRight(left, n, bf, up) => CtxTags(up) + {(n, bf)} + Tags(left)
  }

  lemma {:induction false} PlugTags<N>(c: Ctx<N>, t: Tree<N>)
    ensures Tags(Plug(c, t)) == CtxTags(c) + Tags(t)
    decreases c
  {
    if !c.Top? {
      PlugTags(c.up, Fill(c, t));
    }
  }

  /** Each tag of `now` is an old one or carries one of the stored factors. */
  predicate Covered<N(==)>(now: set<(N, int)>, was: set<(N, int)>, stores: seq<int>) {
    forall x <- now :: x in was || x.1 in stores
  }

  lemma {:induction false} BalanceCovered<N>(t: Tree<N>, d: int)
    requires t.Node?
    ensures Covered(Tags(Balance(t, d)), Tags(t), BalanceStores(t, d))
  {
    var diff := t.bf + d;
    if diff < -1 && t.left.Node? {
      if t.left.bf > 0 && t.left.right.Node? {
        LRCovered(t, diff);
      }
    } else if diff > 1 && t.right.Node? {
      if t.right.bf < 0 && t.right.left.Node? {
        RLCovered(t, diff);
      }
    }
  }

  lemma {:induction false} LRCovered<N>(t: Tree<N>, diff: int)
    requires t.Node? && t.left.Node? && t.left.right.Node?
    ensures Covered(Tags(RotateLR(t, diff)), Tags(t), LRStores(t, diff))
  {
    var l, r := t.left, RotateLR(t, diff);
    assert Tags(l.right) <= Tags(l) <= Tags(t);
    assert Tags(r) == Tags(r.left) + {(r.n, r.bf)} + Tags(r.right);
    assert Tags(r.left) == Tags(l.left) + {(l.n, r.left.bf)} + Tags(l.right.left);
    assert Tags(r.right) == Tags(l.right.right) + {(t.n, r.right.bf)} + Tags(t.right);
    assert LRStores(t, diff) == [r.left.bf, r.right.bf, r.bf];
  }

  lemma {:induction false} RLCovered<N>(t: Tree<N>, diff: int)
    requires t.Node? && t.right.Node? && t.right.left.Node?
    ensures Covered(Tags(RotateRL(t, diff)), Tags(t), RLStores(t, diff))
  {
    var l, r := t.right, RotateRL(t, diff);
    assert Tags(l.left) <= Tags(l) <= Tags(t);
    assert Tags(r) == Tags(r.left) + {(r.n, r.bf)} + Tags(r.right);
    assert Tags(r.left) == Tags(t.left) + {(t.n, r.left.bf)} + Tags(l.left.left);
    assert Tags(r.right) == Tags(l.left.right) + {(l.n, r.right.bf)} + Tags(l.right);
    assert RLStores(t, diff) == [r.right.bf, r.left.bf, r.bf];
  }

  /** After the insertion loop a node carries its old factor or a stored one. */
  lemma {:induction false} InsertLoopCovered<N>(c: Ctx<N>, t: Tree<N>, d: int)
    requires t.Node?
    ensures Covered(Tags(FixInsert(c, t, d)), CtxTags(c) + Tags(t), InsertLoopStores(c, t, d))
    decreases c
  {
    var r := Balance(t, d);
    BalanceCovered(t, d);
    PlugTags(c, r);
    if !c.Top? && GrowthUp(c, t, r) != 0 {
      InsertLoopCovered(c.up, Fill(c, r), GrowthUp(c, t, r));
    }
  }

  /** After the removal loop a node carries its old factor or a stored one. */
  lemma {:induction false} RemoveLoopCovered<N>(c: Ctx<N>, t: Tree<N>, d: int)
    requires t.Node?
    ensures Covered(Tags(FixRemove(c, t, d)), CtxTags(c) + Tags(t), RemoveLoopStores(c, t, d))
    decreases c
  {
    var r := Balance(t, d);
    BalanceCovered(t, d);
    PlugTags(c, r);
    if !c.Top? && ShrinkUp(c, t, r) != 0 {
      RemoveLoopCovered(c.up, Fill(c, r), ShrinkUp(c, t, r));
    }
  }

  /** What `avl_insert` changes about factors is in the list of its stores. */
  lemma {:induction false} InsertCovered<N>(c: Ctx<N>, n: N)
    ensures Covered(Tags(InsertAt(c, n)), Tags(Plug(c, Nil)), InsertStores(c, n))
  {
    InsertLoopCovered(c, Node(Nil, n, 0, Nil), 0);
    PlugTags(c, Nil);
  }

  lemma {:induction false} ShrinkCovered<N>(c: Ctx<N>, x: Tree<N>)
    ensures Covered(Tags(ShrinkAt(c, x)), Tags(Plug(c, x)), ShrinkStores(c, x))
  {
    PlugTags(c, x);
    if !c.Top? {
      RemoveLoopCovered(c.up, Fill(c, x), -Side(c));
    }
  }

  lemma {:induction false} FirstTags<N>(c: Ctx<N>, t: Tree<N>)
    requires t.Node?
    ensures CtxTags(FirstCtx(c, t)) + Tags(First(t).right) <= CtxTags(c) + Tags(t)
    decreases t
  {
    if t.left.Node? {
      FirstTags(InLeft(c, t.n, t.bf, t.right), t.left);
    }
  }

  /** What `avl_remove` changes about factors is in the list of its stores. */
  lemma {:induction false} RemoveCovered<N>(c: Ctx<N>, t: Tree<N>)
    requires t.Node?
    ensures Covered(Tags(RemoveAt(c, t)), Tags(Plug(c, t)), RemoveStores(c, t))
  {
    PlugTags(c, t);
    if t.right.Nil? {
      ShrinkCovered(c, t.left);
      PlugTags(c, t.left);
    } else {
      var next := First(t.right);
      var c0 := InRight(t.left, next.n, t.bf, c);
      var cc := FirstCtx(c0, t.right);
      ShrinkCovered(cc, next.right);
      PlugTags(cc, next.right);
      FirstTags(c0, t.right);
    }
  }
}
