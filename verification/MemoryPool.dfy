/**
 The fixed-block pool of `memory.cc`.

 Free blocks form a chain whose links live inside the blocks themselves, in
 their first four bytes; blocks that were never handed out are linked up one at
 a time, on demand.  Clients write what they like into the blocks they hold.
 */
module MemoryPool {
  import opened Bytes
  import opened Division
  import opened Sums

  // --------------------------------------------------------------- 32-bit words in memory

  function LoadWord(m: seq<Byte>, at: nat): (v: nat)
    requires at + 4 <= |m|
    ensures v < WORD
  {
    (m[at] as int) + 0x100 * (m[at + 1] as int) + 0x1_0000 * (m[at + 2] as int) + 0x100_0000 * (m[at + 3] as int)
  }

  function ByteOf(v: nat, k: nat): Byte {
    if k == 0 then v % 0x100
    else if k == 1 then v / 0x100 % 0x100
    else if k == 2 then v / 0x1_0000 % 0x100
    else v / 0x100_0000 % 0x100
  }

  lemma BytesOfWord(v: nat)
    requires v < WORD
    ensures ByteOf(v, 0) + 0x100 * ByteOf(v, 1) + 0x1_0000 * ByteOf(v, 2) + 0x100_0000 * ByteOf(v, 3) == v
  {
    assert v / 0x1_0000 == v / 0x100 / 0x100;
    assert v / 0x100_0000 == v / 0x1_0000 / 0x100;
  }

  /** Storing a word, byte by byte. */
  function StoreWord(m: seq<Byte>, at: nat, v: nat): (m': seq<Byte>)
    requires at + 4 <= |m|
    ensures |m'| == |m|
  {
    m[at := ByteOf(v, 0)][at + 1 := ByteOf(v, 1)][at + 2 := ByteOf(v, 2)][at + 3 := ByteOf(v, 3)]
  }

  lemma StoredWord(m: seq<Byte>, at: nat, v: nat)
    requires at + 4 <= |m| && v < WORD
    ensures LoadWord(StoreWord(m, at, v), at) == v
  {
    var m' := StoreWord(m, at, v);
    assert m'[at] == ByteOf(v, 0) && m'[at + 1] == ByteOf(v, 1);
    assert m'[at + 2] == ByteOf(v, 2) && m'[at + 3] == ByteOf(v, 3);
    BytesOfWord(v);
  }

  // ---------------------------------------------------------------- index and address

  /** `AddrFromIndex`, relative to the base: the product is computed in 32 bits. */
  function AddrFromIndex(i: nat, blockSize: nat): (a: nat) {
    i * blockSize % WORD
  }

  /** `IndexFromAddr`, relative to the base. */
  function IndexFromAddr(a: nat, blockSize: nat): (i: nat)
    requires blockSize > 0
  {
    a % WORD / blockSize
  }

  predicate InverseAt(i: nat, blockSize: nat)
    requires blockSize > 0
  {
    IndexFromAddr(AddrFromIndex(i, blockSize), blockSize) == i
  }

  lemma InverseWithin(i: nat, last: nat, blockSize: nat)
    requires blockSize > 0 && i <= last && last * blockSize < WORD
    ensures AddrFromIndex(i, blockSize) == i * blockSize && InverseAt(i, blockSize)
  {
    if i < last {
      Multiples(i, last, blockSize);
    }
    DivMultiple(i, blockSize);
  }

  lemma NotInverseBeyond(last: nat, blockSize: nat)
    requires blockSize > 0 && last * blockSize >= WORD
    ensures !InverseAt(last, blockSize)
  {
    var a := AddrFromIndex(last, blockSize);
    QuotientParts(a, blockSize);
    assert a < WORD && IndexFromAddr(a, blockSize) == a / blockSize;
  }

  /**
   Index and address are inverse on a whole pool exactly when the last block
   starts within 32 bits.
   */
  lemma AddressesRoundTrip(numBlocks: nat, blockSize: nat)
    requires numBlocks > 0 && blockSize > 0
    ensures (numBlocks - 1) * blockSize < WORD <==> forall i: nat :: i < numBlocks ==> InverseAt(i, blockSize)
  {
    var last: nat := numBlocks - 1;
    if last * blockSize < WORD {
      forall i: nat | i < numBlocks
        ensures InverseAt(i, blockSize)
      {
        InverseWithin(i, last, blockSize);
      }
    } else {
      NotInverseBeyond(last, blockSize);
    }
  }

  // ------------------------------------------------------- allocating, whatever the size

  /** The changing fields of `mempool_t` and the memory, by value. */
  datatype Raw = Raw(mem: seq<Byte>, numFree: nat, numInit: nat, next: int)

  /** The words `Allocate` reads and writes lie in the memory. */
  predicate Reaches(s: Raw, blockSize: nat, numBlocks: nat) {
    && (s.numInit < numBlocks ==> AddrFromIndex(s.numInit, blockSize) + 4 <= |s.mem|)
    && (s.numFree > 0 ==> 0 <= s.next && s.next + 4 <= |s.mem|)
  }

  /** Linking up a block that was never initialised. */
  function LinkRaw(s: Raw, blockSize: nat, numBlocks: nat): (s': Raw)
    requires Reaches(s, blockSize, numBlocks)
    ensures |s'.mem| == |s.mem|
  {
    if s.numInit < numBlocks then
      s.(mem := StoreWord(s.mem, AddrFromIndex(s.numInit, blockSize), s.numInit + 1), numInit := s.numInit + 1)
    else
      s
  }

  /** Taking the first free block. */
  function TakeRaw(s: Raw, blockSize: nat): (Raw, int)
    requires s.numFree > 0 ==> 0 <= s.next && s.next + 4 <= |s.mem|
  {
    if s.numFree == 0 then (s, -1)
    else
      var next := if s.numFree == 1 then -1 else AddrFromIndex(LoadWord(s.mem, s.next), blockSize);
      (s.(numFree := s.numFree - 1, next := next), s.next)
  }

  /** `Allocate`, with no assumption about how large the pool is. */
  function AllocateRaw(s: Raw, blockSize: nat, numBlocks: nat): (Raw, int)
    requires Reaches(s, blockSize, numBlocks)
  {
    TakeRaw(LinkRaw(s, blockSize, numBlocks), blockSize)
  }

  /** A pool as `initialize` gets it: 32-bit sizes and memory for all blocks. */
  predicate Provided(m: seq<Byte>, blockSize: nat, numBlocks: nat) {
    4 <= blockSize < WORD && numBlocks < WORD && |m| == Times(numBlocks, blockSize)
  }

  lemma AddressReaches(m: seq<Byte>, blockSize: nat, numBlocks: nat, n: nat)
    requires Provided(m, blockSize, numBlocks) && n < numBlocks
    ensures AddrFromIndex(n, blockSize) + 4 <= |m|
  {
    TimesApart(n, numBlocks, blockSize);
    TimesIsProduct(n, blockSize);
    assert n * blockSize % WORD <= n * blockSize;
  }

  /** In step: the blocks linked up so far are gone, and the next one is first. */
  predicate InStep(s: Raw, size: nat, blockSize: nat, numBlocks: nat, n: nat) {
    && |s.mem| == size && s.numInit == n && s.numFree == numBlocks - n
    && (n < numBlocks ==> s.next == AddrFromIndex(n, blockSize))
  }

  lemma StaysInStep(s: Raw, size: nat, blockSize: nat, numBlocks: nat, n: nat, at: nat)
    requires n < numBlocks < WORD && InStep(s, size, blockSize, numBlocks, n)
    requires at == AddrFromIndex(n, blockSize) && at + 4 <= size
    ensures Reaches(s, blockSize, numBlocks)
    ensures InStep(AllocateRaw(s, blockSize, numBlocks).0, size, blockSize, numBlocks, n + 1)
    ensures AllocateRaw(s, blockSize, numBlocks).1 == at
    ensures LoadWord(AllocateRaw(s, blockSize, numBlocks).0.mem, at) == n + 1
  {
    var l := LinkRaw(s, blockSize, numBlocks);
    assert l.mem == StoreWord(s.mem, at, n + 1) && l.numFree == s.numFree && l.next == at && l.numInit == n + 1;
    StoredWord(s.mem, at, n + 1);
  }

  /** The pool after `n` allocations and nothing else. */
  function Allocated(m: seq<Byte>, blockSize: nat, numBlocks: nat, n: nat): (s: Raw)
    requires Provided(m, blockSize, numBlocks) && n <= numBlocks
    ensures InStep(s, |m|, blockSize, numBlocks, n)
  {
    if n == 0 then
      Raw(m, numBlocks, 0, 0)
    else
      var s := Allocated(m, blockSize, numBlocks, n - 1);
      AddressReaches(m, blockSize, numBlocks, n - 1);
      StaysInStep(s, |m|, blockSize, numBlocks, n - 1, AddrFromIndex(n - 1, blockSize));
      AllocateRaw(s, blockSize, numBlocks).0
  }

  /** The n-th allocation hands out the block at the n-th address and leaves its link there. */
  lemma HandedOut(m: seq<Byte>, blockSize: nat, numBlocks: nat, n: nat)
    requires Provided(m, blockSize, numBlocks) && n < numBlocks
    ensures var s := Allocated(m, blockSize, numBlocks, n);
            && Reaches(s, blockSize, numBlocks)
            && AllocateRaw(s, blockSize, numBlocks).1 == AddrFromIndex(n, blockSize)
            && LoadWord(AllocateRaw(s, blockSize, numBlocks).0.mem, AddrFromIndex(n, blockSize)) == n + 1
  {
    AddressReaches(m, blockSize, numBlocks, n);
    StaysInStep(Allocated(m, blockSize, numBlocks, n), |m|, blockSize, numBlocks, n, AddrFromIndex(n, blockSize));
  }

  /** The link that allocation n stores lies, in part at least, in the block handed out as the i-th. */
  predicate LinkInBlock(n: nat, i: nat, blockSize: nat) {
    var w, b := AddrFromIndex(n, blockSize), AddrFromIndex(i, blockSize);
    w < b + blockSize && b < w + 4
  }

  /** The first index whose product leaves 32 bits. */
  lemma {:induction false} FirstBeyond(last: nat, blockSize: nat) returns (n: nat)
    requires last * blockSize >= WORD
    ensures 0 < n <= last && n * blockSize >= WORD && (n - 1) * blockSize < WORD
    decreases last
  {
    if (last - 1) * blockSize < WORD {
      n := last;
    } else {
      n := FirstBeyond(last - 1, blockSize);
    }
  }

  lemma WrapsIntoFirst(n: nat, blockSize: nat)
    requires n > 0 && blockSize < WORD && n * blockSize >= WORD && (n - 1) * blockSize < WORD
    ensures LinkInBlock(n, 0, blockSize)
  {
    assert n * blockSize == (n - 1) * blockSize + blockSize;
    assert n * blockSize % WORD == n * blockSize - WORD;
  }

  lemma NoLinkWithin(n: nat, i: nat, last: nat, blockSize: nat)
    requires 4 <= blockSize && i < n <= last && last * blockSize < WORD
    ensures !LinkInBlock(n, i, blockSize)
  {
    InverseWithin(n, last, blockSize);
    InverseWithin(i, last, blockSize);
    Multiples(i, n, blockSize);
  }

  /**
   A pool that only allocates stores no link in a block it has handed out
   exactly when its last block starts within 32 bits; in a larger pool the
   first address that wraps around lies in the first block.
   */
  lemma AllocationsApartExactly(m: seq<Byte>, blockSize: nat, numBlocks: nat)
    requires Provided(m, blockSize, numBlocks) && numBlocks > 0
    ensures (forall n: nat, i: nat :: i < n < numBlocks ==> !LinkInBlock(n, i, blockSize))
            <==> (numBlocks - 1) * blockSize < WORD
  {
    var last: nat := numBlocks - 1;
    if last * blockSize < WORD {
      forall n: nat, i: nat | i < n < numBlocks
        ensures !LinkInBlock(n, i, blockSize)
      {
        NoLinkWithin(n, i, last, blockSize);
      }
    } else {
      var n := FirstBeyond(last, blockSize);
      WrapsIntoFirst(n, blockSize);
    }
  }

  // ------------------------------------------------------------------ the free chain

  /** The link stored in block i. */
  ghost function Link(m: seq<Byte>, blockSize: nat, i: nat): nat
    requires Times(i, blockSize) + 4 <= |m|
  {
    LoadWord(m, Times(i, blockSize))
  }

  ghost predicate NoRepeats(s: seq<nat>) {
    forall i, j :: 0 <= i < j < |s| ==> s[i] != s[j]
  }

  /** Every block lies in memory and its start fits in 32 bits. */
  ghost predicate Sized(m: seq<Byte>, blockSize: nat, numBlocks: nat) {
    && 4 <= blockSize && numBlocks < WORD
    && |m| == Times(numBlocks, blockSize)
    && (numBlocks > 0 ==> Times(numBlocks - 1, blockSize) < WORD)
  }

  /** `free` ends with the blocks that were never initialised; all before them were. */
  ghost predicate Lazy(numBlocks: nat, numInit: nat, free: seq<nat>) {
    && numInit <= numBlocks && numBlocks - numInit <= |free|
    && (forall i :: |free| - (numBlocks - numInit) <= i < |free| ==> free[i] == numBlocks - |free| + i)
    && (forall i :: 0 <= i < |free| - (numBlocks - numInit) ==> free[i] < numInit)
  }

  /** The i-th free block, if it was initialised, holds the index of the next one. */
  ghost predicate LeadsOn(m: seq<Byte>, blockSize: nat, numInit: nat, free: seq<nat>, i: nat)
    requires i + 1 < |free|
  {
    free[i] < numInit ==> Times(free[i], blockSize) + 4 <= |m| && Link(m, blockSize, free[i]) == free[i + 1]
  }

  /** Each initialised free block holds the index of its successor in `free`. */
  ghost predicate Linked(m: seq<Byte>, blockSize: nat, numInit: nat, free: seq<nat>) {
    forall i: nat :: i + 1 < |free| ==> LeadsOn(m, blockSize, numInit, free, i)
  }

  lemma BlockInside(m: seq<Byte>, blockSize: nat, numBlocks: nat, i: nat)
    requires Sized(m, blockSize, numBlocks) && i < numBlocks
    ensures Times(i, blockSize) + blockSize <= |m| && Times(i, blockSize) < WORD
    ensures AddrFromIndex(i, blockSize) == Times(i, blockSize) && InverseAt(i, blockSize)
  {
    TimesApart(i, numBlocks, blockSize);
    TimesIsProduct(i, blockSize);
    TimesIsProduct(numBlocks - 1, blockSize);
    InverseWithin(i, numBlocks - 1, blockSize);
  }

  /** The byte at `a` lies in block i. */
  ghost predicate Within(a: int, blockSize: nat, i: nat) {
    Times(i, blockSize) <= a < Times(i, blockSize) + blockSize
  }

  /** Outside block b nothing changed. */
  ghost predicate OnlyBlock(m: seq<Byte>, m': seq<Byte>, blockSize: nat, b: nat) {
    |m| == |m'| && forall a :: 0 <= a < |m| && !Within(a, blockSize, b) ==> m[a] == m'[a]
  }

  /** The contents of block i. */
  ghost function BlockOf(m: seq<Byte>, blockSize: nat, i: nat): seq<Byte> {
    if Times(i, blockSize) + blockSize <= |m| then m[Times(i, blockSize)..Times(i, blockSize) + blockSize] else []
  }

  lemma BlockKept(m: seq<Byte>, m': seq<Byte>, blockSize: nat, b: nat, i: nat)
    requires OnlyBlock(m, m', blockSize, b) && i != b
    ensures BlockOf(m', blockSize, i) == BlockOf(m, blockSize, i)
  {
    if i < b {
      TimesApart(i, b, blockSize);
    } else {
      TimesApart(b, i, blockSize);
    }
    assert forall a :: Times(i, blockSize) <= a < Times(i, blockSize) + blockSize ==> !Within(a, blockSize, b);
  }

  /** Writing block b keeps every block of `live`, if b is not among them. */
  lemma OthersKept(m: seq<Byte>, m': seq<Byte>, blockSize: nat, b: nat, live: set<nat>)
    requires OnlyBlock(m, m', blockSize, b) && b !in live
    ensures forall i :: i in live ==> BlockOf(m', blockSize, i) == BlockOf(m, blockSize, i)
  {
    forall i | i in live
      ensures BlockOf(m', blockSize, i) == BlockOf(m, blockSize, i)
    {
      BlockKept(m, m', blockSize, b, i);
    }
  }

  lemma LinkKept(m: seq<Byte>, m': seq<Byte>, blockSize: nat, numBlocks: nat, b: nat, i: nat)
    requires Sized(m, blockSize, numBlocks) && OnlyBlock(m, m', blockSize, b)
    requires i != b && i < numBlocks
    ensures Times(i, blockSize) + 4 <= |m| && Link(m', blockSize, i) == Link(m, blockSize, i)
  {
    BlockInside(m, blockSize, numBlocks, i);
    if i < b {
      TimesApart(i, b, blockSize);
    } else {
      TimesApart(b, i, blockSize);
    }
    var at := Times(i, blockSize);
    assert !Within(at, blockSize, b) && !Within(at + 1, blockSize, b);
    assert !Within(at + 2, blockSize, b) && !Within(at + 3, blockSize, b);
  }

  /** The fields of the pool and its memory agree with the free chain and the live blocks. */
  ghost predicate Consistent(m: seq<Byte>, blockSize: nat, numBlocks: nat, numFree: nat, numInit: nat, next: int,
                             free: seq<nat>, live: set<nat>)
  {
    && Sized(m, blockSize, numBlocks)
    && NoRepeats(free) && |free| == numFree
    && (forall i :: 0 <= i < |free| ==> free[i] < numBlocks)
    && (forall i: nat :: i in live <==> i < numBlocks && i !in free)
    && Lazy(numBlocks, numInit, free)
    && Linked(m, blockSize, numInit, free)
    && (numBlocks > 0 ==> next == if free == [] then -1 else Times(free[0], blockSize))
  }

  lemma LazyNext(numBlocks: nat, numInit: nat, free: seq<nat>)
    requires Lazy(numBlocks, numInit, free) && numInit < numBlocks
    ensures Lazy(numBlocks, numInit + 1, free)
    ensures free[0] < numInit + 1
    ensures var k := |free| - (numBlocks - numInit);
            free[k] == numInit && (k + 1 < |free| ==> free[k + 1] == numInit + 1)
  {
    assert free[|free| - (numBlocks - numInit)] == numInit;
  }

  lemma UninitialisedIsFree(m: seq<Byte>, blockSize: nat, numBlocks: nat, numFree: nat, numInit: nat, next: int,
                            free: seq<nat>, live: set<nat>)
    requires Consistent(m, blockSize, numBlocks, numFree, numInit, next, free, live)
    ensures numInit !in live
  {
    if numInit < numBlocks {
      LazyNext(numBlocks, numInit, free);
    }
  }

  lemma TailIsFree(numBlocks: nat, numInit: nat, free: seq<nat>, b: nat)
    requires Lazy(numBlocks, numInit, free) && numInit <= b < numBlocks
    ensures b in free
  {
    assert free[|free| - numBlocks + b] == b;
  }

  /** Linking up the first block that was never initialised. */
  lemma LinkedUp(m: seq<Byte>, m': seq<Byte>, blockSize: nat, numBlocks: nat, numFree: nat, numInit: nat, next: int,
                 free: seq<nat>, live: set<nat>)
    requires Consistent(m, blockSize, numBlocks, numFree, numInit, next, free, live) && numInit < numBlocks
    requires OnlyBlock(m, m', blockSize, numInit)
    requires Times(numInit, blockSize) + 4 <= |m'| && Link(m', blockSize, numInit) == numInit + 1
    ensures Consistent(m', blockSize, numBlocks, numFree, numInit + 1, next, free, live)
    ensures free != [] && free[0] < numInit + 1
    ensures forall i :: i in live ==> BlockOf(m', blockSize, i) == BlockOf(m, blockSize, i)
  {
    UninitialisedIsFree(m, blockSize, numBlocks, numFree, numInit, next, free, live);
    OthersKept(m, m', blockSize, numInit, live);
    LazyNext(numBlocks, numInit, free);
    var k := |free| - (numBlocks - numInit);
    var numInit' := numInit + 1;
    forall i: nat | i + 1 < |free|
      ensures LeadsOn(m', blockSize, numInit', free, i)
    {
      assert LeadsOn(m, blockSize, numInit, free, i);
      if free[i] != numInit {
        LinkKept(m, m', blockSize, numBlocks, numInit, free[i]);
      } else {
        assert i == k;
      }
    }
  }

  /** Taking the first block off the chain; its link leads to the new first block. */
  lemma Popped(m: seq<Byte>, blockSize: nat, numBlocks: nat, numFree: nat, numInit: nat, next: int,
               free: seq<nat>, live: set<nat>)
    requires Consistent(m, blockSize, numBlocks, numFree, numInit, next, free, live)
    requires free != [] && free[0] < numInit
    ensures 0 <= next && next + 4 <= |m| && next == Times(free[0], blockSize) && free[0] !in live
    ensures var next' := if numFree == 1 then -1 else AddrFromIndex(LoadWord(m, next), blockSize);
            Consistent(m, blockSize, numBlocks, numFree - 1, numInit, next', free[1..], live + {free[0]})
  {
    BlockInside(m, blockSize, numBlocks, free[0]);
    if numFree > 1 {
      assert LeadsOn(m, blockSize, numInit, free, 0);
      BlockInside(m, blockSize, numBlocks, free[1]);
    }
    PoppedChain(m, blockSize, numBlocks, numInit, free);
  }

  lemma PoppedChain(m: seq<Byte>, blockSize: nat, numBlocks: nat, numInit: nat, free: seq<nat>)
    requires Sized(m, blockSize, numBlocks) && NoRepeats(free) && Lazy(numBlocks, numInit, free) && free != []
    requires Linked(m, blockSize, numInit, free) && free[0] < numInit
    ensures NoRepeats(free[1..]) && free[0] !in free[1..]
    ensures Lazy(numBlocks, numInit, free[1..]) && Linked(m, blockSize, numInit, free[1..])
    ensures forall x :: x in free <==> x == free[0] || x in free[1..]
  {
    assert free == [free[0]] + free[1..];
    forall i: nat | i + 1 < |free[1..]|
      ensures LeadsOn(m, blockSize, numInit, free[1..], i)
    {
      assert LeadsOn(m, blockSize, numInit, free, i + 1);
    }
  }

  /** Putting block b in front of the chain, its link leading to the old first block. */
  lemma Pushed(m: seq<Byte>, m': seq<Byte>, blockSize: nat, numBlocks: nat, numFree: nat, numInit: nat, next: int,
               free: seq<nat>, live: set<nat>, b: nat)
    requires Consistent(m, blockSize, numBlocks, numFree, numInit, next, free, live) && b in live
    requires OnlyBlock(m, m', blockSize, b) && Times(b, blockSize) + 4 <= |m'|
    requires Link(m', blockSize, b) == if free == [] then numBlocks else free[0]
    ensures Consistent(m', blockSize, numBlocks, numFree + 1, numInit, Times(b, blockSize), [b] + free, live - {b})
  {
    var free' := [b] + free;
    assert b < numInit by {
      if numInit <= b {
        TailIsFree(numBlocks, numInit, free, b);
      }
    }
    forall i: nat | i + 1 < |free'|
      ensures LeadsOn(m', blockSize, numInit, free', i)
    {
      if i > 0 {
        assert LeadsOn(m, blockSize, numInit, free, i - 1);
        assert free'[i] == free[i - 1] && free'[i + 1] == free[i];
        LinkKept(m, m', blockSize, numBlocks, b, free[i - 1]);
      }
    }
  }

  /** A client writing into a block it holds. */
  lemma Scribbled(m: seq<Byte>, m': seq<Byte>, blockSize: nat, numBlocks: nat, numFree: nat, numInit: nat, next: int,
                  free: seq<nat>, live: set<nat>, b: nat)
    requires Consistent(m, blockSize, numBlocks, numFree, numInit, next, free, live) && b in live
    requires OnlyBlock(m, m', blockSize, b)
    ensures Consistent(m', blockSize, numBlocks, numFree, numInit, next, free, live)
  {
    forall i: nat | i + 1 < |free|
      ensures LeadsOn(m', blockSize, numInit, free, i)
    {
      assert LeadsOn(m, blockSize, numInit, free, i);
      LinkKept(m, m', blockSize, numBlocks, b, free[i]);
    }
  }

  /** The pool: `mempool_t` and the memory it manages. */
  class Pool {
    const mem: array<Byte>
    const blockSize: nat
    const numBlocks: nat
    var numFree: nat
    var numInit: nat
    var next: int        // offset of `nextfreeblock` from the base, -1 for NULL
    ghost var free: seq<nat>
    ghost var live: set<nat>

    ghost predicate Valid()
      reads this, mem
    {
      Consistent(mem[..], blockSize, numBlocks, numFree, numInit, next, free, live)
    }

    /** What `Allocate` reads and changes. */
    ghost function State(): Raw
      reads this, mem
    {
      Raw(mem[..], numFree, numInit, next)
    }

    /** `initialize`. */
    constructor (mem: array<Byte>, blockSize: nat, numBlocks: nat)
      requires Sized(mem[..], blockSize, numBlocks)
      ensures Valid() && live == {} && free == Upto(numBlocks)
      ensures this.mem == mem && this.blockSize == blockSize && this.numBlocks == numBlocks
    {
      this.mem, this.blockSize, this.numBlocks := mem, blockSize, numBlocks;
      numFree := numBlocks;
      numInit := 0;
      next := 0;
      free, live := Upto(numBlocks), {};
      UptoMembers(numBlocks);
    }

    /** Storing a 32-bit link at the start of block i. */
    method StoreLink(at: nat, ghost i: nat, v: nat)
      requires Sized(mem[..], blockSize, numBlocks) && i < numBlocks && v < WORD
      requires at == Times(i, blockSize)
      modifies mem
      ensures OnlyBlock(old(mem[..]), mem[..], blockSize, i)
      ensures Times(i, blockSize) + 4 <= mem.Length && Link(mem[..], blockSize, i) == v
      ensures mem[..] == StoreWord(old(mem[..]), at, v)
    {
      BlockInside(mem[..], blockSize, numBlocks, i);
      BytesOfWord(v);
      mem[at] := ByteOf(v, 0);
      mem[at + 1] := ByteOf(v, 1);
      mem[at + 2] := ByteOf(v, 2);
      mem[at + 3] := ByteOf(v, 3);
    }

    /**
     `Allocate`: the first block of the free chain, or NULL (-1) exactly when
     every block is live.  No live block is handed out or written.
     */
    method Allocate() returns (r: int)
      requires Valid()
      modifies this, mem
      ensures Valid()
      ensures r == -1 <==> forall i: nat :: i < numBlocks ==> i in old(live)
      ensures r == -1 ==> free == old(free) && live == old(live)
      ensures r != -1 ==>
                && old(free) != [] && r == Times(old(free)[0], blockSize) && old(free)[0] !in old(live)
                && free == old(free)[1..] && live == old(live) + {old(free)[0]}
      ensures forall i :: i in old(live) ==> BlockOf(mem[..], blockSize, i) == BlockOf(old(mem[..]), blockSize, i)
      ensures Reaches(old(State()), blockSize, numBlocks)
      ensures (State(), r) == AllocateRaw(old(State()), blockSize, numBlocks)
    {
      StateReaches();
      if numInit < numBlocks {
        LinkNext();
      } else {
        assert free != [] ==> free[0] < numInit;
      }
      r := -1;
      if numFree > 0 {
        r := TakeFirst();
      } else {
        assert free == [];
      }
    }

    lemma StateReaches()
      requires Valid()
      ensures Reaches(State(), blockSize, numBlocks)
    {
      if numInit < numBlocks {
        BlockInside(mem[..], blockSize, numBlocks, numInit);
      }
      if numFree > 0 {
        BlockInside(mem[..], blockSize, numBlocks, free[0]);
      }
    }

    /** The second step of `Allocate`: the first block leaves the chain its link leads on. */
    method TakeFirst() returns (r: int)
      requires Valid() && free != [] && free[0] < numInit
      modifies this
      ensures Valid() && r == Times(old(free)[0], blockSize) && r >= 0
      ensures old(free)[0] !in old(live) && free == old(free)[1..] && live == old(live) + {old(free)[0]}
      ensures 0 <= old(next) && old(next) + 4 <= mem.Length && (State(), r) == TakeRaw(old(State()), blockSize)
    {
      ghost var m := mem[..];
      Popped(m, blockSize, numBlocks, numFree, numInit, next, free, live);
      r := next;
      numFree := numFree - 1;
      if numFree != 0 {
        next := AddrFromIndex(LoadWord(mem[..], next), blockSize);
      } else {
        next := -1;
      }
      free, live := free[1..], live + {free[0]};
      assert mem[..] == m;
    }

    /** The lazy step of `Allocate`. */
    method LinkNext()
      requires Valid() && numInit < numBlocks
      modifies this`numInit, mem
      ensures Valid() && numInit == old(numInit) + 1 && free != [] && free[0] < numInit
      ensures Reaches(old(State()), blockSize, numBlocks)
      ensures State() == LinkRaw(old(State()), blockSize, numBlocks)
      ensures forall i :: i in live ==> BlockOf(mem[..], blockSize, i) == BlockOf(old(mem[..]), blockSize, i)
    {
      StateReaches();
      ghost var m, b := mem[..], numInit;
      var at := AddrFromIndex(numInit, blockSize);
      assert at == Times(b, blockSize) by {
        BlockInside(m, blockSize, numBlocks, b);
      }
      StoreLink(at, b, numInit + 1);
      numInit := numInit + 1;
      LinkedUp(m, mem[..], blockSize, numBlocks, numFree, b, next, free, live);
    }

    /** What `DeAllocate` stores in a block: the index of the block it goes in front of. */
    method FirstFree() returns (link: nat)
      requires Valid() && numBlocks > 0
      ensures link == (if free == [] then numBlocks else free[0]) && link < WORD
    {
      if next != -1 {
        BlockInside(mem[..], blockSize, numBlocks, free[0]);
        link := IndexFromAddr(next, blockSize);
      } else {
        link := numBlocks;
      }
    }

    /** `DeAllocate`: the block goes to the front of the chain; NULL is ignored. */
    method DeAllocate(p: int, ghost b: nat)
      requires Valid()
      requires p != -1 ==> b in live && p == Times(b, blockSize)
      modifies this, mem
      ensures Valid()
      ensures p == -1 ==> free == old(free) && live == old(live)
      ensures p != -1 ==> free == [b] + old(free) && live == old(live) - {b}
      ensures forall i :: i in live ==> BlockOf(mem[..], blockSize, i) == BlockOf(old(mem[..]), blockSize, i)
    {
      if p == -1 {
        return;
      }
      ghost var m, free0, live0 := mem[..], free, live;
      var link := FirstFree();
      ghost var next0, numFree0 := next, numFree;
      StoreLink(p, b, link);
      next := p;
      numFree := numFree + 1;
      free, live := [b] + free, live - {b};
      Pushed(m, mem[..], blockSize, numBlocks, numFree0, numInit, next0, free0, live0, b);
      assert forall i :: i in live ==> BlockOf(mem[..], blockSize, i) == BlockOf(m, blockSize, i) by {
        OthersKept(m, mem[..], blockSize, b, live);
      }
    }

    /** What a client may do: write any byte of a block it holds. */
    method ClientWrite(b: nat, k: nat, v: Byte)
      requires Valid() && b in live && k < blockSize
      modifies mem
      ensures Valid() && OnlyBlock(old(mem[..]), mem[..], blockSize, b)
    {
      ghost var m := mem[..];
      BlockInside(mem[..], blockSize, numBlocks, b);
      mem[Times(b, blockSize) + k] := v;
      Scribbled(m, mem[..], blockSize, numBlocks, numFree, numInit, next, free, live, b);
    }
  }
}
