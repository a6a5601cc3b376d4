/** `MurmurHash64A` of `keygen.cc` and the generator of `adv_random.h`, on 64-bit words. */
module Mixing {

  type Word = bv64

  ghost predicate Undoes<T(!new)>(g: T -> T, f: T -> T) {
    forall x :: g(f(x)) == x
  }

  ghost predicate Injective<T(!new)>(f: T -> T) {
    forall x, y :: f(x) == f(y) ==> x == y
  }

  lemma UndoneIsInjective<T(!new)>(g: T -> T, f: T -> T)
    requires Undoes(g, f)
    ensures Injective(f)
  {
    forall x, y | f(x) == f(y)
      ensures x == y
    {
      assert g(f(x)) == g(f(y));
    }
  }

  // ------------------------------------------------------------------ one-word steps

  /** Multiplication by the constant m of the hash, and by its inverse modulo 2^64. */
  function Times(k: Word): Word { k * 0xc6a4_a793_5bd1_e995 }
  function Over(k: Word): Word { k * 0x5f7a_0ea7_e59b_19bd }

  /** Folding by the constant r of the hash. */
  function Fold(k: Word): Word { k ^ (k >> 47) }

  function Xor(a: Word, b: Word): Word { a ^ b }

  // ------------------------------------------------------------------------ the hash

  /** The operations the hash is made of, on words T and bytes B. */
  datatype Ops<!T, !B> = Ops(times: T -> T, fold: T -> T, xor: (T, T) -> T, place: (B, nat) -> T)

  ghost predicate Cancels<T(!new)>(xor: (T, T) -> T) {
    && (forall a, b :: xor(xor(a, b), b) == a)
    && (forall a, b :: xor(b, xor(b, a)) == a)
  }

  /** Each operation loses nothing of one operand while the other is fixed. */
  ghost predicate Lossless<T(!new), B>(ops: Ops<T, B>) {
    Injective(ops.times) && Injective(ops.fold) && Cancels(ops.xor)
  }

  function Absorb<T, B>(ops: Ops<T, B>, h: T, k: T): T {
    ops.times(ops.xor(h, ops.times(ops.fold(ops.times(k)))))
  }

  function Rounds<T, B>(ops: Ops<T, B>, h: T, ks: seq<T>): T {
    if ks == [] then h else Absorb(ops, Rounds(ops, h, ks[..|ks| - 1]), ks[|ks| - 1])
  }

  /** The fall-through cases: the bytes from the last down to the first. */
  function XorTail<T, B>(ops: Ops<T, B>, h: T, tail: seq<B>): T
    decreases |tail|
  {
    if tail == [] then h
    else XorTail(ops, ops.xor(h, ops.place(tail[|tail| - 1], |tail| - 1)), tail[..|tail| - 1])
  }

  function TailStep<T, B>(ops: Ops<T, B>, h: T, tail: seq<B>): T {
    if tail == [] then h else ops.times(XorTail(ops, h, tail))
  }

  function Finish<T, B>(ops: Ops<T, B>, h: T): T {
    ops.fold(ops.times(ops.fold(h)))
  }

  /** The hash from the initial value on. */
  function Hash<T, B>(ops: Ops<T, B>, h: T, words: seq<T>, tail: seq<B>): T {
    Finish(ops, TailStep(ops, Rounds(ops, h, words), tail))
  }

  lemma AbsorbInjective<T(!new), B>(ops: Ops<T, B>, a: T, b: T, k: T)
    requires Lossless(ops) && Absorb(ops, a, k) == Absorb(ops, b, k)
    ensures a == b
  {
    var s := ops.times(ops.fold(ops.times(k)));
    assert ops.xor(ops.xor(a, s), s) == ops.xor(ops.xor(b, s), s);
  }

  lemma AbsorbedInjective<T(!new), B>(ops: Ops<T, B>, h: T, j: T, k: T)
    requires Lossless(ops) && Absorb(ops, h, j) == Absorb(ops, h, k)
    ensures j == k
  {
    var s, t := ops.times(ops.fold(ops.times(j))), ops.times(ops.fold(ops.times(k)));
    assert ops.xor(h, ops.xor(h, s)) == ops.xor(h, ops.xor(h, t));
  }

  lemma {:induction false} RoundsInjective<T(!new), B>(ops: Ops<T, B>, h: T, ks: seq<T>, i: nat, x: T, y: T)
    requires Lossless(ops) && i < |ks| && Rounds(ops, h, ks[i := x]) == Rounds(ops, h, ks[i := y])
    ensures x == y
    decreases |ks|
  {
    var n := |ks| - 1;
    var init := ks[..n];
    if i < n {
      assert ks[i := x][..n] == init[i := x] && ks[i := y][..n] == init[i := y];
      AbsorbInjective(ops, Rounds(ops, h, init[i := x]), Rounds(ops, h, init[i := y]), ks[n]);
      RoundsInjective(ops, h, init, i, x, y);
    } else {
      assert ks[i := x][..n] == init && ks[i := y][..n] == init;
      AbsorbedInjective(ops, Rounds(ops, h, init), x, y);
    }
  }

  lemma {:induction false} XorTailInjective<T(!new), B>(ops: Ops<T, B>, a: T, b: T, tail: seq<B>)
    requires Lossless(ops) && XorTail(ops, a, tail) == XorTail(ops, b, tail)
    ensures a == b
    decreases |tail|
  {
    if tail != [] {
      var n := |tail| - 1;
      var s := ops.place(tail[n], n);
      XorTailInjective(ops, ops.xor(a, s), ops.xor(b, s), tail[..n]);
      assert ops.xor(ops.xor(a, s), s) == ops.xor(ops.xor(b, s), s);
    }
  }

  lemma {:induction false} HashInjective<T(!new), B>(ops: Ops<T, B>, h: T, words: seq<T>, i: nat, x: T, y: T,
                                                     tail: seq<B>)
    requires Lossless(ops) && i < |words|
    requires Hash(ops, h, words[i := x], tail) == Hash(ops, h, words[i := y], tail)
    ensures x == y
  {
    var a, b := Rounds(ops, h, words[i := x]), Rounds(ops, h, words[i := y]);
    if tail != [] {
      XorTailInjective(ops, a, b, tail);
    }
    RoundsInjective(ops, h, words, i, x, y);
  }

  /** The bytes at a place of the tail can be told apart there. */
  ghost predicate PlacesApart<T, B(!new)>(ops: Ops<T, B>, j: nat) {
    forall x, y :: ops.place(x, j) == ops.place(y, j) ==> x == y
  }

  lemma {:induction false} TailByteInjective<T(!new), B(!new)>(ops: Ops<T, B>, h: T, tail: seq<B>, i: nat, x: B, y: B)
    requires Lossless(ops) && i < |tail| && PlacesApart(ops, i)
    requires XorTail(ops, h, tail[i := x]) == XorTail(ops, h, tail[i := y])
    ensures x == y
    decreases |tail|
  {
    var n := |tail| - 1;
    var front := tail[..n];
    if i < n {
      assert tail[i := x][..n] == front[i := x] && tail[i := y][..n] == front[i := y];
      TailByteInjective(ops, ops.xor(h, ops.place(tail[n], n)), front, i, x, y);
    } else {
      assert tail[i := x][..n] == front && tail[i := y][..n] == front;
      var a, b := ops.place(x, n), ops.place(y, n);
      XorTailInjective(ops, ops.xor(h, a), ops.xor(h, b), front);
      assert ops.xor(h, ops.xor(h, a)) == ops.xor(h, ops.xor(h, b));
    }
  }

  lemma {:induction false} RoundsFromInjective<T(!new), B>(ops: Ops<T, B>, a: T, b: T, ks: seq<T>)
    requires Lossless(ops) && Rounds(ops, a, ks) == Rounds(ops, b, ks)
    ensures a == b
    decreases |ks|
  {
    if ks != [] {
      var n := |ks| - 1;
      AbsorbInjective(ops, Rounds(ops, a, ks[..n]), Rounds(ops, b, ks[..n]), ks[n]);
      RoundsFromInjective(ops, a, b, ks[..n]);
    }
  }

  /** With words and tail fixed, the hash is injective in the initial value. */
  lemma {:induction false} HashBeginInjective<T(!new), B>(ops: Ops<T, B>, a: T, b: T, words: seq<T>, tail: seq<B>)
    requires Lossless(ops) && Hash(ops, a, words, tail) == Hash(ops, b, words, tail)
    ensures a == b
  {
    if tail != [] {
      XorTailInjective(ops, Rounds(ops, a, words), Rounds(ops, b, words), tail);
    }
    RoundsFromInjective(ops, a, b, words);
  }

  /** With words and the other tail bytes fixed, the hash is injective in each tail byte. */
  lemma HashTailInjective<T(!new), B(!new)>(ops: Ops<T, B>, h: T, words: seq<T>, tail: seq<B>, i: nat, x: B, y: B)
    requires Lossless(ops) && i < |tail| && PlacesApart(ops, i)
    requires Hash(ops, h, words, tail[i := x]) == Hash(ops, h, words, tail[i := y])
    ensures x == y
  {
    TailByteInjective(ops, Rounds(ops, h, words), tail, i, x, y);
  }

  /** The hash of a key of whole words followed by fewer than eight bytes; `begin` depends on its length. */
  function HashFrom<T, B>(ops: Ops<T, B>, begin: nat -> T, words: seq<T>, tail: seq<B>): T {
    Hash(ops, begin(8 * |words| + |tail|), words, tail)
  }

  lemma HashFromInjective<T(!new), B>(ops: Ops<T, B>, begin: nat -> T, words: seq<T>, i: nat, x: T, y: T, tail: seq<B>)
    requires Lossless(ops) && i < |words|
    requires HashFrom(ops, begin, words[i := x], tail) == HashFrom(ops, begin, words[i := y], tail)
    ensures x == y
  {
    HashInjective(ops, begin(8 * |words| + |tail|), words, i, x, y, tail);
  }

  lemma HashFromTailInjective<T(!new), B(!new)>(ops: Ops<T, B>, begin: nat -> T, words: seq<T>, tail: seq<B>, i: nat,
                                                x: B, y: B)
    requires Lossless(ops) && i < |tail| && PlacesApart(ops, i)
    requires HashFrom(ops, begin, words, tail[i := x]) == HashFrom(ops, begin, words, tail[i := y])
    ensures x == y
  {
    HashTailInjective(ops, begin(8 * |words| + |tail|), words, tail, i, x, y);
  }

  lemma HashFromBeginInjective<T(!new), B>(ops: Ops<T, B>, begin: nat -> T, other: nat -> T, words: seq<T>,
                                           tail: seq<B>)
    requires Lossless(ops) && HashFrom(ops, begin, words, tail) == HashFrom(ops, other, words, tail)
    ensures var len := 8 * |words| + |tail|; begin(len) == other(len)
  {
    var len := 8 * |words| + |tail|;
    HashBeginInjective(ops, begin(len), other(len), words, tail);
  }

  lemma OneWordInjective<T(!new), B>(ops: Ops<T, B>, begin: nat -> T, x: T, y: T)
    requires Lossless(ops) && HashFrom(ops, begin, [x], []) == HashFrom(ops, begin, [y], [])
    ensures x == y
  {
    assert [x][0 := y] == [y] && [x][0 := x] == [x];
    HashFromInjective(ops, begin, [x], 0, x, y, []);
  }

  /** The first n bytes, or all. */
  function Front<B>(tail: seq<B>, n: nat): seq<B> {
    if n <= |tail| then tail[..n] else tail
  }

  /** One case of the switch over the number of tail bytes, falling through to the next. */
  method XorCase<T, B>(ops: Ops<T, B>, h0: T, tail: seq<B>, n: nat) returns (h: T)
    ensures XorTail(ops, h, Front(tail, n)) == XorTail(ops, h0, Front(tail, n + 1))
  {
    h := h0;
    if |tail| > n {
      h := ops.xor(h, ops.place(tail[n], n));
      assert tail[..n + 1][..n] == tail[..n];
    } else {
      assert Front(tail, n) == tail && Front(tail, n + 1) == tail;
    }
  }

  /** The body of `MurmurHash64A` after the initial value: the loop over the words, the switch, the final mix. */
  method HashKey<T, B>(ops: Ops<T, B>, h0: T, words: seq<T>, tail: seq<B>) returns (h: T)
    requires |tail| < 8
    ensures h == Hash(ops, h0, words, tail)
  {
    h := h0;
    var i := 0;
    while i != |words|
      invariant i <= |words| && h == Rounds(ops, h0, words[..i])
    {
      var k := words[i];
      i := i + 1;
      k := ops.times(k);
      k := ops.fold(k);
      k := ops.times(k);
      h := ops.xor(h, k);
      h := ops.times(h);
      assert words[..i][..i - 1] == words[..i - 1];
    }
    assert words[..i] == words;
    if |tail| > 0 {
      assert Front(tail, 7) == tail && Front(tail, 0) == [];
      h := XorCase(ops, h, tail, 6);
      h := XorCase(ops, h, tail, 5);
      h := XorCase(ops, h, tail, 4);
      h := XorCase(ops, h, tail, 3);
      h := XorCase(ops, h, tail, 2);
      h := XorCase(ops, h, tail, 1);
      h := XorCase(ops, h, tail, 0);
      h := ops.times(h);
    }
    h := ops.fold(h);
    h := ops.times(h);
    h := ops.fold(h);
  }

  function Wide(b: bv8): Word { b as bv64 }

  /** A tail byte at its place, case by case as the switch has them. */
  function Shifted(b: bv8, j: nat): Word {
    if j == 0 then Wide(b)
    else if j == 1 then Wide(b) << 8
    else if j == 2 then Wide(b) << 16
    else if j == 3 then Wide(b) << 24
    else if j == 4 then Wide(b) << 32
    else if j == 5 then Wide(b) << 40
    else Wide(b) << 48
  }

  lemma ShiftApart(x: bv8, y: bv8)
    ensures Wide(x) == Wide(y) ==> x == y
    ensures Wide(x) << 8 == Wide(y) << 8 ==> x == y
    ensures Wide(x) << 16 == Wide(y) << 16 ==> x == y
    ensures Wide(x) << 24 == Wide(y) << 24 ==> x == y
    ensures Wide(x) << 32 == Wide(y) << 32 ==> x == y
    ensures Wide(x) << 40 == Wide(y) << 40 ==> x == y
    ensures Wide(x) << 48 == Wide(y) << 48 ==> x == y
  {
  }

  lemma ShiftedApart(x: bv8, y: bv8, j: nat)
    requires Shifted(x, j) == Shifted(y, j)
    ensures x == y
  {
    ShiftApart(x, y);
  }

  lemma MurmurPlaces(j: nat)
    ensures PlacesApart(Murmur(), j)
  {
    forall x: bv8, y: bv8 | Murmur().place(x, j) == Murmur().place(y, j)
      ensures x == y
    {
      assert Murmur().place == Shifted;
      ShiftedApart(x, y, j);
    }
  }

  function Murmur(): Ops<Word, bv8> {
    Ops(Times, Fold, Xor, Shifted)
  }

  /** The initial value: the length times m, mixed with the seed. */
  function BeginAt(seed: bv32, len: nat): Word {
    Xor(seed as bv64, Times(Length(len)))
  }

  /** The length in 64 bits. */
  function Length(len: nat): Word {
    (len % 0x1_0000_0000_0000_0000) as bv64
  }

  lemma LengthEight()
    ensures Length(8) == 8
  {
    assert 8 % 0x1_0000_0000_0000_0000 == 8;
    assert (8 as int) as bv64 == 8;
  }

  function Begin(seed: bv32): nat -> Word {
    (len: nat) => BeginAt(seed, len)
  }

  lemma OneWordHash(begin: nat -> Word, k: Word)
    ensures HashFrom(Murmur(), begin, [k], [])
         == Fold(Times(Fold(Times(Xor(begin(8), Times(Fold(Times(k))))))))
  {
    assert [k][..0] == [];
    assert Rounds(Murmur(), begin(8), []) == begin(8);
    assert Rounds(Murmur(), begin(8), [k]) == Absorb(Murmur(), begin(8), k);
  }

  lemma Mixed(k: Word, a: Word, b: Word, c: Word)
    requires Times(k) == a && Fold(a) == b && Times(b) == c
    ensures Times(Fold(Times(k))) == c
  {
  }

  lemma Finished(h: Word, a: Word, b: Word, c: Word)
    requires Fold(h) == a && Times(a) == b && Fold(b) == c
    ensures Fold(Times(Fold(h))) == c
  {
  }

  lemma BeginEight()
    ensures Begin(0)(8) == 0x3525_3c9a_de8f_4ca8
  {
    LengthEight();
    assert (0 as bv32) as bv64 == 0;
    assert Xor(0, Times(8)) == 0x3525_3c9a_de8f_4ca8;
  }

  /** The hash of the 8-byte word 0. */
  lemma HashOfZero()
    ensures HashFrom(Murmur(), Begin(0), [0], []) == 0x7208_f7fa_198a_2d81
  {
    BeginEight();
    OneWordHash(Begin(0), 0);
    Mixed(0x0000_0000_0000_0000, 0x0000_0000_0000_0000, 0x0000_0000_0000_0000, 0x0000_0000_0000_0000);
    Finished(0xad4c_7a69_4354_85c8, 0xad4c_7a69_4355_df50, 0x7208_f7fa_198a_c990, 0x7208_f7fa_198a_2d81);
    assert Xor(0x3525_3c9a_de8f_4ca8, 0x0000_0000_0000_0000) == 0x3525_3c9a_de8f_4ca8;
    assert Times(0x3525_3c9a_de8f_4ca8) == 0xad4c_7a69_4354_85c8;
  }

  /** The hash of the 8-byte word 1. */
  lemma HashOfOne()
    ensures HashFrom(Murmur(), Begin(0), [1], []) == 0x8fbb_8d81_5c9e_092e
  {
    BeginEight();
    OneWordHash(Begin(0), 1);
    Mixed(0x0000_0000_0000_0001, 0xc6a4_a793_5bd1_e995, 0xc6a4_a793_5bd0_64dc, 0x1ab1_1ea5_a7b2_f00c);
    Finished(0x9fe0_efec_0f84_0f74, 0x9fe0_efec_0f85_30b5, 0x8fbb_8d81_5c9f_1659, 0x8fbb_8d81_5c9e_092e);
    assert Xor(0x3525_3c9a_de8f_4ca8, 0x1ab1_1ea5_a7b2_f00c) == 0x2f94_223f_793d_bca4;
    assert Times(0x2f94_223f_793d_bca4) == 0x9fe0_efec_0f84_0f74;
  }

  /** The switch case of byte j. */
  lemma ByteCase(h: Word, tail: seq<bv8>, j: nat, next: Word)
    requires j < |tail| && Xor(h, Shifted(tail[j], j)) == next
    ensures XorTail(Murmur(), h, tail[..j + 1]) == XorTail(Murmur(), next, tail[..j])
  {
    assert tail[..j + 1][..j] == tail[..j];
  }

  lemma LengthSeven()
    ensures Length(7) == 7
  {
    assert 7 % 0x1_0000_0000_0000_0000 == 7;
    assert (7 as int) as bv64 == 7;
  }

  lemma BeginSeven()
    ensures Begin(0x1234_5678)(7) == 0x6e80_9507_9089_356b
  {
    LengthSeven();
    assert (0x1234_5678 as bv32) as bv64 == 0x1234_5678;
    assert Xor(0x1234_5678, Times(7)) == 0x6e80_9507_9089_356b;
  }

  /** The seven cases of the switch on the bytes 1 to 7. */
  lemma SevenBytes(tail: seq<bv8>)
    requires tail == [1, 2, 3, 4, 5, 6, 7]
    ensures XorTail(Murmur(), 0x6e80_9507_9089_356b, tail) == 0x6e87_9302_948a_376a
  {
    ByteCase(0x6e80_9507_9089_356b, tail, 6, 0x6e87_9507_9089_356b);
    ByteCase(0x6e87_9507_9089_356b, tail, 5, 0x6e87_9307_9089_356b);
    ByteCase(0x6e87_9307_9089_356b, tail, 4, 0x6e87_9302_9089_356b);
    ByteCase(0x6e87_9302_9089_356b, tail, 3, 0x6e87_9302_9489_356b);
    ByteCase(0x6e87_9302_9489_356b, tail, 2, 0x6e87_9302_948a_356b);
    ByteCase(0x6e87_9302_948a_356b, tail, 1, 0x6e87_9302_948a_376b);
    ByteCase(0x6e87_9302_948a_376b, tail, 0, 0x6e87_9302_948a_376a);
    assert tail[..7] == tail && tail[..0] == [];
  }

  /** The hash of the bytes 1 to 7. */
  lemma HashOfBytes()
    ensures HashFrom(Murmur(), Begin(0x1234_5678), [], [1, 2, 3, 4, 5, 6, 7]) == 0x450a_f9f6_a98c_788b
  {
    BeginSeven();
    SevenBytes([1, 2, 3, 4, 5, 6, 7]);
    assert Times(0x6e87_9302_948a_376a) == 0x9b0a_481a_2c6b_bab2;
    Finished(0x9b0a_481a_2c6b_bab2, 0x9b0a_481a_2c6a_8ca6, 0x450a_f9f6_a98c_f29e, 0x450a_f9f6_a98c_788b);
  }

  /** `MurmurHash64A`. */
  method MurmurHash64A(words: seq<Word>, tail: seq<bv8>, seed: bv32) returns (h: Word)
    requires |tail| < 8
    ensures h == HashFrom(Murmur(), Begin(seed), words, tail)
    ensures words == [0] && tail == [] && seed == 0 ==> h == 0x7208_f7fa_198a_2d81
    ensures words == [1] && tail == [] && seed == 0 ==> h == 0x8fbb_8d81_5c9e_092e
    ensures words == [] && tail == [1, 2, 3, 4, 5, 6, 7] && seed == 0x1234_5678 ==> h == 0x450a_f9f6_a98c_788b
  {
    HashOfZero();
    HashOfOne();
    HashOfBytes();
    h := HashKey(Murmur(), Begin(seed)(8 * |words| + |tail|), words, tail);
  }

  lemma TimesInjective()
    ensures Injective(Times)
  {
    forall x
      ensures Over(Times(x)) == x
    {
      calc {
        Over(Times(x));
        Over(x * 0xc6a4_a793_5bd1_e995);
        x * 0xc6a4_a793_5bd1_e995 * 0x5f7a_0ea7_e59b_19bd;
        x;
      }
    }
    UndoneIsInjective(Over, Times);
  }

  lemma FoldInjective()
    ensures Injective(Fold)
  {
    forall x
      ensures Fold(Fold(x)) == x
    {
      calc {
        Fold(Fold(x));
        Fold(x ^ (x >> 47));
        (x ^ (x >> 47)) ^ ((x ^ (x >> 47)) >> 47);
        x;
      }
    }
    UndoneIsInjective(Fold, Fold);
  }

  lemma XorCancels()
    ensures Cancels(Xor)
  {
    forall a, b
      ensures Xor(Xor(a, b), b) == a
    {
      calc {
        Xor(Xor(a, b), b);
        Xor(a ^ b, b);
        (a ^ b) ^ b;
        a;
      }
    }
    forall a, b
      ensures Xor(b, Xor(b, a)) == a
    {
      calc {
        Xor(b, Xor(b, a));
        Xor(b, b ^ a);
        b ^ (b ^ a);
        a;
      }
    }
  }

  lemma MurmurLossless()
    ensures Lossless(Murmur())
  {
    TimesInjective();
    FoldInjective();
    XorCancels();
  }

  /** With everything else fixed, the hash is injective in each word. */
  lemma InjectiveInEachWord(words: seq<Word>, i: nat, x: Word, y: Word, tail: seq<bv8>, seed: bv32)
    requires i < |words| && |tail| < 8
    requires HashFrom(Murmur(), Begin(seed), words[i := x], tail) ==
             HashFrom(Murmur(), Begin(seed), words[i := y], tail)
    ensures x == y
  {
    MurmurLossless();
    HashFromInjective(Murmur(), Begin(seed), words, i, x, y, tail);
  }

  lemma SeedBegins(seed: bv32, other: bv32, len: nat)
    requires BeginAt(seed, len) == BeginAt(other, len)
    ensures seed == other
  {
    var t := Times(Length(len));
    XorCancels();
    assert Xor(Xor(seed as bv64, t), t) == Xor(Xor(other as bv64, t), t);
  }

  /** With the key fixed, the hash is injective in the seed. */
  lemma InjectiveInSeed(words: seq<Word>, tail: seq<bv8>, seed: bv32, other: bv32)
    requires |tail| < 8
    requires HashFrom(Murmur(), Begin(seed), words, tail) == HashFrom(Murmur(), Begin(other), words, tail)
    ensures seed == other
  {
    MurmurLossless();
    HashFromBeginInjective(Murmur(), Begin(seed), Begin(other), words, tail);
    SeedBegins(seed, other, 8 * |words| + |tail|);
  }

  /** With everything else fixed, the hash is injective in each byte of the tail. */
  lemma InjectiveInEachTailByte(words: seq<Word>, tail: seq<bv8>, i: nat, x: bv8, y: bv8, seed: bv32)
    requires i < |tail| < 8
    requires HashFrom(Murmur(), Begin(seed), words, tail[i := x]) ==
             HashFrom(Murmur(), Begin(seed), words, tail[i := y])
    ensures x == y
  {
    MurmurLossless();
    MurmurPlaces(i);
    HashFromTailInjective(Murmur(), Begin(seed), words, tail, i, x, y);
  }

  /** The seed of the key of a document: the hash of its index. */
  function Seed(idx: Word): Word {
    HashFrom(Murmur(), Begin(0), [idx], [])
  }

  /** Distinct document indices give distinct seeds for their keys. */
  lemma SeedsDistinct(idx: Word, other: Word)
    requires Seed(idx) == Seed(other)
    ensures idx == other
  {
    MurmurLossless();
    OneWordInjective(Murmur(), Begin(0), idx, other);
  }
}
