/**
 The packed layout of `avltree.h`: a node's parent pointer and its balance
 factor share one 64-bit word.  Nodes are at least 4-byte aligned, so the two
 low bits of the pointer are free and hold the factor plus one.  A factor is
 taken as its 64-bit two's complement, as the conversions in the macros do.
 */
module TaggedPointer {

  type Word = bv64

  const TAG: Word := 3

  predicate Aligned(p: Word) {
    p & TAG == 0
  }

  /** The factors -1, 0, 1 and 2: those whose value plus one has two bits. */
  predicate Fits(bf: Word) {
    bf + 1 <= 3
  }

  /** `avl_parent`. */
  function Parent(w: Word): Word {
    w & !TAG
  }

  /** `avl_bf`. */
  function Bf(w: Word): Word {
    (w & TAG) - 1
  }

  /** `avl_set_parent`. */
  function SetParent(w: Word, p: Word): Word {
    p | (w & TAG)
  }

  /** `avl_set_bf`. */
  function SetBf(w: Word, bf: Word): Word {
    Parent(w) | (bf + 1)
  }

  /** Storing an aligned parent keeps the factor and the parent reads back, and only an aligned one does. */
  lemma ParentRoundTrip(w: Word, p: Word)
    ensures Aligned(p) <==> Parent(SetParent(w, p)) == p
    ensures Aligned(p) ==> Bf(SetParent(w, p)) == Bf(w)
  {
    assert Parent(SetParent(w, p)) == p & !TAG;
    assert p & TAG == 0 ==> (p | (w & TAG)) & TAG == w & TAG;
  }

  /** What `avl_bf` reads after `avl_set_bf`: the two low bits of the factor plus one. */
  lemma BfAfterSet(w: Word, bf: Word)
    ensures Bf(SetBf(w, bf)) == ((bf + 1) & TAG) - 1
  {
    calc {
      Bf(SetBf(w, bf));
      Bf((w & !TAG) | (bf + 1));
      ((((w & !TAG) | (bf + 1)) & TAG) - 1);
      { LowBits(w, bf + 1); }
      ((bf + 1) & TAG) - 1;
    }
  }

  lemma LowBits(w: Word, t: Word)
    ensures ((w & !TAG) | t) & TAG == t & TAG
  {
  }

  lemma TwoBits(t: Word)
    ensures t & TAG <= 3 && (t & TAG == t <==> t <= 3)
  {
  }

  lemma HighBits(w: Word, t: Word)
    requires t <= 3
    ensures ((w & !TAG) | t) & !TAG == w & !TAG
  {
  }

  lemma MinusOne(a: Word, bf: Word)
    ensures a - 1 == bf <==> a == bf + 1
  {
  }

  lemma FitsRead(a: Word)
    requires a <= 3
    ensures (a - 1) + 1 <= 3
  {
  }

  lemma BfReadsBack(w: Word, bf: Word)
    ensures Fits(bf) <==> Bf(SetBf(w, bf)) == bf
  {
    BfAfterSet(w, bf);
    TwoBits(bf + 1);
    MinusOne((bf + 1) & TAG, bf);
  }

  lemma ParentKept(w: Word, bf: Word)
    requires Fits(bf)
    ensures Parent(SetBf(w, bf)) == Parent(w)
  {
    calc {
      Parent(SetBf(w, bf));
      Parent((w & !TAG) | (bf + 1));
      ((w & !TAG) | (bf + 1)) & !TAG;
      { HighBits(w, bf + 1); }
      w & !TAG;
      Parent(w);
    }
  }

  /** A factor reads back exactly when it is one of -1, 0, 1, 2, and then the parent is kept. */
  lemma BfRoundTrip(w: Word, bf: Word)
    ensures Fits(bf) <==> Bf(SetBf(w, bf)) == bf
    ensures Fits(bf) ==> Parent(SetBf(w, bf)) == Parent(w)
    ensures Fits(Bf(w))
  {
    BfReadsBack(w, bf);
    if Fits(bf) {
      ParentKept(w, bf);
    }
    TwoBits(w);
    FitsRead(w & TAG);
  }

  // ------------------------------------------------- one word for two fields

  /** A node's two fields where they are kept apart. */
  datatype Fields = Fields(parent: Word, bf: Word)

  /** A call of `avl_set_parent` or of `avl_set_bf`. */
  datatype Store = StoreParent(p: Word) | StoreBf(bf: Word)

  function Packed(w: Word, x: Store): Word {
    match x
    case StoreParent(p) => SetParent(w, p)
    case StoreBf(bf) => SetBf(w, bf)
  }

  function Separate(f: Fields, x: Store): Fields {
    match x
    case StoreParent(p) => f.(parent := p)
    case StoreBf(bf) => f.(bf := bf)
  }

  /** The macros read from the word what the fields hold. */
  predicate Reads(w: Word, f: Fields) {
    Parent(w) == f.parent && Bf(w) == f.bf
  }

  /** They do so now and after each of the stores. */
  predicate KeepsReading(w: Word, f: Fields, stores: seq<Store>)
    decreases |stores|
  {
    && Reads(w, f)
    && (stores != [] ==> KeepsReading(Packed(w, stores[0]), Separate(f, stores[0]), stores[1..]))
  }

  /** An aligned parent, or a factor of two bits. */
  predicate Storable(x: Store) {
    match x
    case StoreParent(p) => Aligned(p)
    case StoreBf(bf) => Fits(bf)
  }

  lemma ParentReads(w: Word, f: Fields, p: Word)
    requires Reads(w, f) && Aligned(p)
    ensures Reads(SetParent(w, p), f.(parent := p))
  {
    ParentRoundTrip(w, p);
  }

  lemma ParentMisread(w: Word, f: Fields, p: Word)
    requires Reads(SetParent(w, p), f.(parent := p))
    ensures Aligned(p)
  {
    ParentRoundTrip(w, p);
  }

  lemma BfReads(w: Word, f: Fields, bf: Word)
    requires Reads(w, f) && Fits(bf)
    ensures Reads(SetBf(w, bf), f.(bf := bf))
  {
    BfRoundTrip(w, bf);
  }

  lemma BfMisread(w: Word, f: Fields, bf: Word)
    requires Reads(SetBf(w, bf), f.(bf := bf))
    ensures Fits(bf)
  {
    BfRoundTrip(w, bf);
  }

  lemma ParentExactly(w: Word, f: Fields, p: Word)
    requires Reads(w, f)
    ensures Reads(SetParent(w, p), f.(parent := p)) <==> Aligned(p)
  {
    if Aligned(p) {
      ParentReads(w, f, p);
    } else if Reads(SetParent(w, p), f.(parent := p)) {
      ParentMisread(w, f, p);
    }
  }

  lemma BfExactly(w: Word, f: Fields, bf: Word)
    requires Reads(w, f)
    ensures Reads(SetBf(w, bf), f.(bf := bf)) <==> Fits(bf)
  {
    if Fits(bf) {
      BfReads(w, f, bf);
    } else if Reads(SetBf(w, bf), f.(bf := bf)) {
      BfMisread(w, f, bf);
    }
  }

  lemma StoreReads(w: Word, f: Fields, x: Store)
    requires Reads(w, f)
    ensures Reads(Packed(w, x), Separate(f, x)) <==> Storable(x)
  {
    if x.StoreParent? {
      ParentExactly(w, f, x.p);
    } else {
      BfExactly(w, f, x.bf);
    }
  }

  predicate AllStorable(stores: seq<Store>) {
    forall x <- stores :: Storable(x)
  }

  lemma AllOfFirstAndRest(stores: seq<Store>)
    requires stores != []
    ensures AllStorable(stores) <==> Storable(stores[0]) && AllStorable(stores[1..])
  {
    assert stores == [stores[0]] + stores[1..];
  }

  /** The packed word stands for the two fields through any run of stores exactly when each of them is storable. */
  lemma {:induction false} PackedExactly(w: Word, f: Fields, stores: seq<Store>)
    requires Reads(w, f)
    ensures KeepsReading(w, f, stores) <==> AllStorable(stores)
    decreases |stores|
  {
    if stores != [] {
      StoreReads(w, f, stores[0]);
      AllOfFirstAndRest(stores);
      if Storable(stores[0]) {
        PackedExactly(Packed(w, stores[0]), Separate(f, stores[0]), stores[1..]);
      }
    }
  }

  /** Whatever a fresh node's word holds, the first two stores of `avl_insert` make it read as the two fields. */
  lemma FreshReads(w: Word, p: Word)
    requires Aligned(p)
    ensures Reads(SetBf(SetParent(w, p), 0), Fields(p, 0))
  {
    ParentRoundTrip(w, p);
    BfRoundTrip(SetParent(w, p), 0);
  }
}
