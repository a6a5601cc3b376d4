/**
 The allocation tracker of `memleak.cc`: an AVL tree of live allocations keyed
 by address, kept up to date by the allocation wrappers and drained at the end.
 */
module MemLeak {
  import opened AvlShape
  import opened AvlHeap
  import opened AvlTrees

  /** `struct memleak_item`. */
  datatype Item = Item(addr: nat, size: nat, file: string, line: nat)

  /** `memleak_cmp`. */
  function ByAddress(a: Item, b: Item): int {
    if a.addr < b.addr then -1 else if a.addr > b.addr then 1 else 0
  }

  lemma ByAddressIsTotal()
    ensures TotalOrder(ByAddress)
  {
  }

  ghost function KeysOf(s: seq<AvlNode<Item>>): (r: seq<Item>)
    ensures |r| == |s| && forall i :: 0 <= i < |s| ==> r[i] == s[i].key
  {
    seq(|s|, i requires 0 <= i < |s| => s[i].key)
  }

  lemma KeysOfInserted(s: seq<AvlNode<Item>>, pos: nat, n: AvlNode<Item>)
    requires pos <= |s|
    ensures KeysOf(s[..pos] + [n] + s[pos..]) == KeysOf(s)[..pos] + [n.key] + KeysOf(s)[pos..]
    ensures multiset(KeysOf(s)[..pos] + [n.key] + KeysOf(s)[pos..]) == multiset(KeysOf(s)) + multiset{n.key}
  {
    assert KeysOf(s) == KeysOf(s)[..pos] + KeysOf(s)[pos..];
  }

  lemma KeysOfRemoved(s: seq<AvlNode<Item>>, pos: nat)
    requires pos < |s|
    ensures KeysOf(s[..pos] + s[pos + 1..]) == KeysOf(s)[..pos] + KeysOf(s)[pos + 1..]
  {
  }

  /** Some tracked allocation starts at `addr`. */
  ghost predicate Tracks(s: seq<Item>, addr: nat) {
    exists i :: 0 <= i < |s| && s[i].addr == addr
  }

  lemma TracksIsHasKey(s: seq<AvlNode<Item>>, item: Item)
    ensures Tracks(KeysOf(s), item.addr) <==> HasKey(ByAddress, s, item)
  {
    if Tracks(KeysOf(s), item.addr) {
      var i :| 0 <= i < |s| && KeysOf(s)[i].addr == item.addr;
      assert ByAddress(s[i].key, item) == 0;
    }
    if HasKey(ByAddress, s, item) {
      var i :| 0 <= i < |s| && ByAddress(s[i].key, item) == 0;
      assert KeysOf(s)[i].addr == item.addr;
    }
  }

  /** The state the wrappers share: the index and the on/off switch. */
  class Tracker {
    const index: AvlTree<Item>
    var on: bool

    ghost predicate Valid()
      reads this, index, index.nodes
    {
      index.Valid() && Sorted(ByAddress, index.Items())
    }

    /** The tracked allocations, in address order. */
    ghost function Tracked(): seq<Item>
      reads index
    {
      KeysOf(index.Items())
    }

    /** `memleak_start`. */
    constructor ()
      ensures Valid() && on && Tracked() == [] && fresh(index)
    {
      index := new AvlTree<Item>();
      on := true;
    }

    /** `_memleak_add_to_index`.  An address that is tracked already keeps its old entry. */
    method Add(item: Item) returns (ghost pos: nat)
      requires Valid()
      modifies index, index.nodes
      ensures Valid() && fresh(index.nodes - old(index.nodes))
      ensures Tracks(old(Tracked()), item.addr) ==> Tracked() == old(Tracked())
      ensures !Tracks(old(Tracked()), item.addr) ==>
                && pos <= |old(Tracked())| && Tracked() == old(Tracked())[..pos] + [item] + old(Tracked())[pos..]
                && multiset(Tracked()) == multiset(old(Tracked())) + multiset{item}
    {
      ghost var before := index.Items();
      assert TotalOrder(ByAddress) by { ByAddressIsTotal(); }
      assert Tracks(Tracked(), item.addr) <==> HasKey(ByAddress, before, item) by { TracksIsHasKey(before, item); }
      var node := new AvlNode<Item>(item);
      var r;
      r, pos := index.Insert(node, ByAddress);
      if !Tracks(old(Tracked()), item.addr) {
        KeysOfInserted(before, pos, node);
      }
    }

    /** The lookup all wrappers start with. */
    method Find(addr: nat) returns (r: AvlNode?<Item>)
      requires Valid()
      ensures r != null <==> Tracks(Tracked(), addr)
      ensures r != null ==> r in index.nodes && r.key.addr == addr && r.key in Tracked()
    {
      var query := Item(addr, 0, "", 0);
      ByAddressIsTotal();
      ghost var looks;
      r, looks := index.Search(ByAddress, query);
      TracksIsHasKey(index.Items(), query);
      if r != null {
        ghost var i :| 0 <= i < |index.Items()| && index.Items()[i] == r;
        assert Tracked()[i] == r.key;
      }
    }

    /** Taking a tracked node out of the index. */
    method Drop(a: AvlNode<Item>) returns (ghost pos: nat)
      requires Valid() && a in index.nodes
      modifies index, index.nodes
      ensures Valid() && index.nodes == old(index.nodes) - {a}
      ensures pos < |old(index.Items())| && old(index.Items())[pos] == a
      ensures index.Items() == old(index.Items())[..pos] + old(index.Items())[pos + 1..]
      ensures Tracked() == old(Tracked())[..pos] + old(Tracked())[pos + 1..]
      ensures old(Tracked())[pos] == a.key && multiset(Tracked()) == multiset(old(Tracked())) - multiset{a.key}
      ensures forall x: nat :: Tracks(Tracked(), x) <==> Tracks(old(Tracked()), x) && x != a.key.addr
    {
      ghost var before := index.Items();
      pos := index.Remove(a);
      KeysOfRemoved(before, pos);
      SortedRemoved(before, pos);
      NoLongerTracked(before, pos);
      ghost var k := KeysOf(before);
      assert k == k[..pos] + [a.key] + k[pos + 1..];
    }

    /** `memleak_alloc`, given what the allocator returned (0 is NULL). */
    method Alloc(addr: nat, size: nat, file: string, line: nat)
      requires Valid()
      modifies index, index.nodes
      ensures Valid() && fresh(index.nodes - old(index.nodes))
      ensures addr == 0 || !on || Tracks(old(Tracked()), addr) ==> Tracked() == old(Tracked())
      ensures addr != 0 && on && !Tracks(old(Tracked()), addr) ==>
                multiset(Tracked()) == multiset(old(Tracked())) + multiset{Item(addr, size, file, line)}
    {
      if addr != 0 && on {
        ghost var pos := Add(Item(addr, size, file, line));
      }
    }

    /** `memleak_free`: a tracked address leaves the index, anything else is ignored. */
    method Free(addr: nat)
      requires Valid()
      modifies index, index.nodes
      ensures Valid() && index.nodes <= old(index.nodes)
      ensures !on || !Tracks(old(Tracked()), addr) ==> Tracked() == old(Tracked())
      ensures on ==> !Tracks(Tracked(), addr)
      ensures on && Tracks(old(Tracked()), addr) ==>
                exists x :: x in old(Tracked()) && x.addr == addr &&
                  multiset(Tracked()) == multiset(old(Tracked())) - multiset{x}
    {
      if on {
        var a := Find(addr);
        if a != null {
          ghost var pos := Drop(a);
        }
      }
    }

    /** `memleak_realloc`, given what the allocator returned: the entry moves to the new address
        with the new size and keeps its file and line.  An entry that another allocation already
        has at the new address stays, and then the moved one is lost. */
    method Realloc(ptr: nat, addr: nat, size: nat)
      requires Valid()
      modifies index, index.nodes
      ensures Valid() && fresh(index.nodes - old(index.nodes))
      ensures addr == 0 || !on || !Tracks(old(Tracked()), ptr) ==> Tracked() == old(Tracked())
      ensures addr != 0 && on && Tracks(old(Tracked()), ptr) && (addr == ptr || !Tracks(old(Tracked()), addr)) ==>
                exists x :: x in old(Tracked()) && x.addr == ptr &&
                  multiset(Tracked()) ==
                    multiset(old(Tracked())) - multiset{x} + multiset{Item(addr, size, x.file, x.line)}
      ensures addr != 0 && on && Tracks(old(Tracked()), ptr) && addr != ptr && Tracks(old(Tracked()), addr) ==>
                exists x :: x in old(Tracked()) && x.addr == ptr &&
                  multiset(Tracked()) == multiset(old(Tracked())) - multiset{x}
    {
      if addr != 0 && on {
        var a := Find(ptr);
        if a != null {
          var x := a.key;
          ghost var pos := Drop(a);
          ghost var at := Add(Item(addr, size, x.file, x.line));
        }
      }
    }

    /**
     `memleak_end`: the loop fetches the successor before it removes the
     current node.  It reports every tracked allocation exactly once, in
     address order, and leaves the index empty and the tracker off.
     */
    method End() returns (report: seq<Item>)
      requires Valid()
      modifies this, index, index.nodes
      ensures Valid() && !on
      ensures report == old(Tracked()) && Tracked() == []
    {
      on := false;
      report := [];
      ghost var all := index.nodes;
      var a := index.GetFirst();
      while a != null
        invariant Valid() && !on && index.nodes <= all
        invariant a == if index.Items() == [] then null else index.Items()[0]
        invariant report + Tracked() == old(Tracked())
        decreases |index.Items()|
      {
        MoveOne(report, Tracked());
        report := report + [a.key];
        a := DrainOne(a);
      }
    }

    /** One round of the draining loop. */
    method DrainOne(item: AvlNode<Item>) returns (a: AvlNode?<Item>)
      requires Valid() && index.Items() != [] && item == index.Items()[0]
      modifies index, index.nodes
      ensures Valid() && index.nodes <= old(index.nodes)
      ensures index.Items() == old(index.Items())[1..]
      ensures Tracked() == old(Tracked())[1..] && old(Tracked())[0] == item.key
      ensures a == if index.Items() == [] then null else index.Items()[0]
    {
      assert item in index.nodes by { NodesAreInOrder(index.shape); }
      ghost var items := index.Items();
      a := index.Next(item);
      assert index.Items()[0] == item && index.Items() == items;
      assert a == NextIn(items, 0);
      ghost var pos := Drop(item);
      assert pos == 0 by { OnlyFirst(items, pos); }
    }
  }

  lemma MoveOne(done: seq<Item>, rest: seq<Item>)
    ensures rest != [] ==> (done + [rest[0]]) + rest[1..] == done + rest
  {
  }

  /** In an address-sorted sequence the first entry occurs only once. */
  lemma OnlyFirst(s: seq<AvlNode<Item>>, pos: nat)
    requires Sorted(ByAddress, s) && pos < |s| && s[pos] == s[0]
    ensures pos == 0
  {
    assert pos > 0 ==> ByAddress(s[0].key, s[pos].key) < 0;
  }

  lemma StillTracked(k: seq<Item>, pos: nat, x: nat)
    requires pos < |k| && Tracks(k, x) && x != k[pos].addr
    ensures Tracks(k[..pos] + k[pos + 1..], x)
  {
    var j :| 0 <= j < |k| && k[j].addr == x;
    assert (k[..pos] + k[pos + 1..])[if j < pos then j else j - 1] == k[j];
  }

  lemma NoLongerTracked(s: seq<AvlNode<Item>>, pos: nat)
    requires pos < |s| && Sorted(ByAddress, s)
    ensures forall x: nat :: Tracks(KeysOf(s)[..pos] + KeysOf(s)[pos + 1..], x) <==>
                               Tracks(KeysOf(s), x) && x != s[pos].key.addr
  {
    var k := KeysOf(s);
    var w := k[..pos] + k[pos + 1..];
    forall i | 0 <= i < |w|
      ensures w[i].addr != s[pos].key.addr && Tracks(k, w[i].addr)
    {
      var j := if i < pos then i else i + 1;
      assert w[i] == k[j] && ByAddress(s[if i < pos then i else pos].key, s[if i < pos then pos else j].key) < 0;
    }
    forall x: nat | Tracks(k, x) && x != s[pos].key.addr
      ensures Tracks(w, x)
    {
      StillTracked(k, pos, x);
    }
  }

  lemma SortedRemoved(s: seq<AvlNode<Item>>, pos: nat)
    requires pos < |s| && Sorted(ByAddress, s)
    ensures Sorted(ByAddress, s[..pos] + s[pos + 1..])
  {
  }
}
