/** The random number generator of `adv_random.h`: a xorshift step on three 64-bit words. */
module Xorshift {
  import opened Mixing

  // ------------------------------------------------------------- functions that double up

  function ApplyAll<T>(fs: seq<T -> T>, x: T): T {
    if fs == [] then x else ApplyAll(fs[1..], fs[0](x))
  }

  /** Each function is the one before it applied twice, and the last applied twice does nothing. */
  ghost predicate Doubling<T(!new)>(fs: seq<T -> T>) {
    && fs != []
    && if |fs| == 1 then forall x :: fs[0](fs[0](x)) == x
       else (forall x :: fs[0](fs[0](x)) == fs[1](x)) && Doubling(fs[1..])
  }

  /** Applying all of them undoes the first. */
  lemma {:induction false} AllUndoFirst<T(!new)>(fs: seq<T -> T>, x: T)
    requires Doubling(fs)
    ensures ApplyAll(fs, fs[0](x)) == x
    decreases |fs|
  {
    if |fs| > 1 {
      AllUndoFirst(fs[1..], x);
    } else {
      assert fs[1..] == [];
    }
  }

  lemma {:induction false} AllCommute<T(!new)>(fs: seq<T -> T>, f: T -> T, x: T)
    requires Doubling(fs) && forall y :: fs[0](f(y)) == f(fs[0](y))
    ensures ApplyAll(fs, f(x)) == f(ApplyAll(fs, x))
    decreases |fs|
  {
    if |fs| > 1 {
      forall y
        ensures fs[1](f(y)) == f(fs[1](y))
      {
        assert fs[0](fs[0](f(y))) == fs[1](f(y)) && fs[0](fs[0](y)) == fs[1](y);
      }
      AllCommute(fs[1..], f, fs[0](x));
    } else {
      assert fs[1..] == [];
    }
  }

  /** And the first undoes them. */
  lemma FirstUndoesAll<T(!new)>(fs: seq<T -> T>, x: T)
    requires Doubling(fs)
    ensures fs[0](ApplyAll(fs, x)) == x
  {
    AllCommute(fs, fs[0], x);
    AllUndoFirst(fs, x);
  }

  // ----------------------------------------------------------------------- shifts

  function Left1(x: Word): Word { x ^ (x << 1) }
  function Left2(x: Word): Word { x ^ (x << 2) }
  function Left4(x: Word): Word { x ^ (x << 4) }
  function Left8(x: Word): Word { x ^ (x << 8) }
  function Left16(x: Word): Word { x ^ (x << 16) }
  function Left32(x: Word): Word { x ^ (x << 32) }

  function Right5(x: Word): Word { x ^ (x >> 5) }
  function Right10(x: Word): Word { x ^ (x >> 10) }
  function Right20(x: Word): Word { x ^ (x >> 20) }
  function Right40(x: Word): Word { x ^ (x >> 40) }

  lemma DoublingCons<T(!new)>(f: T -> T, fs: seq<T -> T>)
    requires Doubling(fs) && forall x :: f(f(x)) == fs[0](x)
    ensures Doubling([f] + fs) && ([f] + fs)[0] == f
  {
    assert ([f] + fs)[1..] == fs;
  }

  lemma DoublingOne<T(!new)>(f: T -> T)
    requires forall x :: f(f(x)) == x
    ensures Doubling([f])
  {
  }

  ghost function Lefts16(): (fs: seq<Word -> Word>)
    ensures Doubling(fs) && fs[0] == Left16
  {
    assert forall x :: Left32(Left32(x)) == x by {
      forall x
        ensures Left32(Left32(x)) == x
      {
        calc { Left32(Left32(x)); Left32(x ^ (x << 32)); (x ^ (x << 32)) ^ ((x ^ (x << 32)) << 32); x; }
      }
    }
    assert forall x :: Left16(Left16(x)) == Left32(x) by {
      forall x
        ensures Left16(Left16(x)) == Left32(x)
      {
        calc {
          Left16(Left16(x));
          Left16(x ^ (x << 16));
          (x ^ (x << 16)) ^ ((x ^ (x << 16)) << 16);
          x ^ (x << 32);
          Left32(x);
        }
      }
    }
    DoublingOne(Left32);
    DoublingCons(Left16, [Left32]);
    [Left16] + [Left32]
  }

  ghost function Lefts4(): (fs: seq<Word -> Word>)
    ensures Doubling(fs) && fs[0] == Left4
  {
    assert forall x :: Left8(Left8(x)) == Left16(x) by {
      forall x
        ensures Left8(Left8(x)) == Left16(x)
      {
        calc { Left8(Left8(x)); Left8(x ^ (x << 8)); (x ^ (x << 8)) ^ ((x ^ (x << 8)) << 8); x ^ (x << 16); Left16(x); }
      }
    }
    assert forall x :: Left4(Left4(x)) == Left8(x) by {
      forall x
        ensures Left4(Left4(x)) == Left8(x)
      {
        calc { Left4(Left4(x)); Left4(x ^ (x << 4)); (x ^ (x << 4)) ^ ((x ^ (x << 4)) << 4); x ^ (x << 8); Left8(x); }
      }
    }
    DoublingCons(Left8, Lefts16());
    DoublingCons(Left4, [Left8] + Lefts16());
    [Left4] + ([Left8] + Lefts16())
  }

  ghost function Lefts1(): (fs: seq<Word -> Word>)
    ensures Doubling(fs) && fs[0] == Left1
  {
    assert forall x :: Left2(Left2(x)) == Left4(x) by {
      forall x
        ensures Left2(Left2(x)) == Left4(x)
      {
        calc { Left2(Left2(x)); Left2(x ^ (x << 2)); (x ^ (x << 2)) ^ ((x ^ (x << 2)) << 2); x ^ (x << 4); Left4(x); }
      }
    }
    assert forall x :: Left1(Left1(x)) == Left2(x) by {
      forall x
        ensures Left1(Left1(x)) == Left2(x)
      {
        calc { Left1(Left1(x)); Left1(x ^ (x << 1)); (x ^ (x << 1)) ^ ((x ^ (x << 1)) << 1); x ^ (x << 2); Left2(x); }
      }
    }
    DoublingCons(Left2, Lefts4());
    DoublingCons(Left1, [Left2] + Lefts4());
    [Left1] + ([Left2] + Lefts4())
  }

  ghost function Rights20(): (fs: seq<Word -> Word>)
    ensures Doubling(fs) && fs[0] == Right20
  {
    assert forall x :: Right40(Right40(x)) == x by {
      forall x
        ensures Right40(Right40(x)) == x
      {
        calc { Right40(Right40(x)); Right40(x ^ (x >> 40)); (x ^ (x >> 40)) ^ ((x ^ (x >> 40)) >> 40); x; }
      }
    }
    assert forall x :: Right20(Right20(x)) == Right40(x) by {
      forall x
        ensures Right20(Right20(x)) == Right40(x)
      {
        calc {
          Right20(Right20(x));
          Right20(x ^ (x >> 20));
          (x ^ (x >> 20)) ^ ((x ^ (x >> 20)) >> 20);
          x ^ (x >> 40);
          Right40(x);
        }
      }
    }
    DoublingOne(Right40);
    DoublingCons(Right20, [Right40]);
    [Right20] + [Right40]
  }

  ghost function Rights5(): (fs: seq<Word -> Word>)
    ensures Doubling(fs) && fs[0] == Right5
  {
    assert forall x :: Right10(Right10(x)) == Right20(x) by {
      forall x
        ensures Right10(Right10(x)) == Right20(x)
      {
        calc {
          Right10(Right10(x));
          Right10(x ^ (x >> 10));
          (x ^ (x >> 10)) ^ ((x ^ (x >> 10)) >> 10);
          x ^ (x >> 20);
          Right20(x);
        }
      }
    }
    assert forall x :: Right5(Right5(x)) == Right10(x) by {
      forall x
        ensures Right5(Right5(x)) == Right10(x)
      {
        calc {
          Right5(Right5(x));
          Right5(x ^ (x >> 5));
          (x ^ (x >> 5)) ^ ((x ^ (x >> 5)) >> 5);
          x ^ (x >> 10);
          Right10(x);
        }
      }
    }
    DoublingCons(Right10, Rights20());
    DoublingCons(Right5, [Right10] + Rights20());
    [Right5] + ([Right10] + Rights20())
  }

  // ---------------------------------------------------------------- the generator

  datatype Rng<T> = Rng(x: T, y: T, z: T)

  /** `BDR_RNG_NEXT`, for any way of shaking and combining words, and the step back. */
  function Next<T>(shake: T -> T, xor: (T, T) -> T, s: Rng<T>): Rng<T> {
    Rng(s.y, s.z, xor(xor(shake(s.x), s.y), s.z))
  }

  function Prev<T>(unshake: T -> T, xor: (T, T) -> T, s: Rng<T>): Rng<T> {
    Rng(unshake(xor(xor(s.z, s.y), s.x)), s.x, s.y)
  }

  lemma BackAndForth<T(!new)>(shake: T -> T, unshake: T -> T, xor: (T, T) -> T, s: Rng<T>)
    requires Undoes(unshake, shake) && Undoes(shake, unshake) && Cancels(xor)
    ensures Prev(unshake, xor, Next(shake, xor, s)) == s
    ensures Next(shake, xor, Prev(unshake, xor, s)) == s
  {
  }

  /** The three shifts applied to one word. */
  function Shake(x: Word): Word {
    Left1(Right5(Left16(x)))
  }

  ghost function Unshake(x: Word): Word {
    ApplyAll(Lefts16(), ApplyAll(Rights5(), ApplyAll(Lefts1(), x)))
  }

  lemma ThreeUndone<T(!new)>(f: T -> T, fs: seq<T -> T>, g: T -> T, gs: seq<T -> T>, h: T -> T, hs: seq<T -> T>, x: T)
    requires Doubling(fs) && Doubling(gs) && Doubling(hs) && fs[0] == f && gs[0] == g && hs[0] == h
    ensures ApplyAll(fs, ApplyAll(gs, ApplyAll(hs, h(g(f(x)))))) == x
    ensures h(g(f(ApplyAll(fs, ApplyAll(gs, ApplyAll(hs, x)))))) == x
  {
    AllUndoFirst(hs, g(f(x)));
    AllUndoFirst(gs, f(x));
    AllUndoFirst(fs, x);
    FirstUndoesAll(fs, ApplyAll(gs, ApplyAll(hs, x)));
    FirstUndoesAll(gs, ApplyAll(hs, x));
    FirstUndoesAll(hs, x);
  }

  lemma ShakeUnshake(x: Word)
    ensures Unshake(Shake(x)) == x && Shake(Unshake(x)) == x
  {
    ThreeUndone(Left16, Lefts16(), Right5, Rights5(), Left1, Lefts1(), x);
  }

  lemma ShakeInvertible()
    ensures Undoes(Unshake, Shake) && Undoes(Shake, Unshake)
  {
    forall x
      ensures Unshake(Shake(x)) == x && Shake(Unshake(x)) == x
    {
      ShakeUnshake(x);
    }
  }

  /** One step from given words, the last two those `BDR_RNG_VARS` starts with. */
  lemma GivenStep()
    ensures Next(Shake, Xor, Rng(0x1234_5678_9abc_def0, 362436069, 521288629))
         == Rng(362436069, 521288629, 0xcab3_ffe6_a03b_a659)
  {
    assert Left16(0x1234_5678_9abc_def0) == 0x444c_ccc4_444c_def0;
    assert Right5(0x444c_ccc4_444c_def0) == 0x466e_aaa2_666e_b807;
    assert Left1(0x466e_aaa2_666e_b807) == 0xcab3_ffe6_aab3_c809;
    assert Xor(0xcab3_ffe6_aab3_c809, 362436069) == 0xcab3_ffe6_bf29_9dec;
    assert Xor(0xcab3_ffe6_bf29_9dec, 521288629) == 0xcab3_ffe6_a03b_a659;
  }

  /** `BDR_RNG_NEXT` is a bijection on the 192 bits of the generator's state. */
  lemma NextIsBijection(s: Rng<Word>)
    ensures Prev(Unshake, Xor, Next(Shake, Xor, s)) == s
    ensures Next(Shake, Xor, Prev(Unshake, Xor, s)) == s
  {
    ShakeInvertible();
    XorCancels();
    BackAndForth(Shake, Unshake, Xor, s);
  }

  function After<T>(shake: T -> T, xor: (T, T) -> T, s: Rng<T>, n: nat): Rng<T> {
    if n == 0 then s else Next(shake, xor, After(shake, xor, s, n - 1))
  }

  /** `BDR_RNG_VARS_SET`. */
  function Seeded<T>(shake: T -> T, seed: T): Rng<T> {
    Rng(seed, shake(seed), shake(shake(seed)))
  }

  /** Seeding from a given word. */
  lemma GivenSeed()
    ensures Seeded(Shake, 0x1234_5678_9abc_def0)
         == Rng(0x1234_5678_9abc_def0, 0xcab3_ffe6_aab3_c809, 0x5d00_0000_5af1_22db)
  {
    assert Left16(0x1234_5678_9abc_def0) == 0x444c_ccc4_444c_def0;
    assert Right5(0x444c_ccc4_444c_def0) == 0x466e_aaa2_666e_b807;
    assert Left1(0x466e_aaa2_666e_b807) == 0xcab3_ffe6_aab3_c809;
    assert Left16(0xcab3_ffe6_aab3_c809) == 0x3555_5555_62ba_c809;
    assert Right5(0x3555_5555_62ba_c809) == 0x34ff_ffff_c9af_1e49;
    assert Left1(0x34ff_ffff_c9af_1e49) == 0x5d00_0000_5af1_22db;
  }

  lemma {:induction false} AfterInjective<T(!new)>(shake: T -> T, unshake: T -> T, xor: (T, T) -> T, a: Rng<T>,
                                                   b: Rng<T>, n: nat)
    requires Undoes(unshake, shake) && Undoes(shake, unshake) && Cancels(xor)
    requires After(shake, xor, a, n) == After(shake, xor, b, n)
    ensures a == b
    decreases n
  {
    if n > 0 {
      BackAndForth(shake, unshake, xor, After(shake, xor, a, n - 1));
      BackAndForth(shake, unshake, xor, After(shake, xor, b, n - 1));
      AfterInjective(shake, unshake, xor, a, b, n - 1);
    }
  }

  /** Generators started from the seeds of different documents are never in the same state together. */
  lemma DocumentsNeverMeet(idx: Word, other: Word, n: nat)
    requires idx != other
    ensures After(Shake, Xor, Seeded(Shake, Seed(idx)), n) != After(Shake, Xor, Seeded(Shake, Seed(other)), n)
  {
    if After(Shake, Xor, Seeded(Shake, Seed(idx)), n) == After(Shake, Xor, Seeded(Shake, Seed(other)), n) {
      ShakeInvertible();
      XorCancels();
      AfterInjective(Shake, Unshake, Xor, Seeded(Shake, Seed(idx)), Seeded(Shake, Seed(other)), n);
      SeedsDistinct(idx, other);
    }
  }

  /** The variables the macros declare. */
  class Variables {
    var x: Word
    var y: Word
    var z: Word

    function State(): Rng<Word>
      reads this
    {
      Rng(x, y, z)
    }

    /** `BDR_RNG_VARS_SET`. */
    constructor (seed: Word)
      ensures State() == Seeded(Shake, seed)
      ensures seed == 0x1234_5678_9abc_def0 ==> y == 0xcab3_ffe6_aab3_c809 && z == 0x5d00_0000_5af1_22db
    {
      x := seed;
      new;
      y := x;
      y := Left16(y);
      y := Right5(y);
      y := Left1(y);
      z := y;
      z := Left16(z);
      z := Right5(z);
      z := Left1(z);
      if seed == 0x1234_5678_9abc_def0 {
        GivenSeed();
      }
    }

    /** `BDR_RNG_NEXT`. */
    method Step()
      modifies this
      ensures State() == Next(Shake, Xor, old(State()))
      ensures old(State()) == Rng(0x1234_5678_9abc_def0, 362436069, 521288629) ==> z == 0xcab3_ffe6_a03b_a659
    {
      GivenStep();
      x := Left16(x);
      x := Right5(x);
      x := Left1(x);
      var t := x;
      x := y;
      y := z;
      z := Xor(Xor(t, x), y);
    }

    /** `BDR_RNG_NEXTPAIR`: two steps, the first new word kept. */
    method StepTwice() returns (z2: Word)
      modifies this
      ensures State() == After(Shake, Xor, old(State()), 2) && z2 == Next(Shake, Xor, old(State())).z
    {
      ghost var s := State();
      Step();
      z2 := z;
      Step();
      assert After(Shake, Xor, s, 1) == Next(Shake, Xor, s);
    }
  }
}
