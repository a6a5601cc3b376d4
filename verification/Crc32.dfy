/**
 CRC-32 as in `crc32.cc`: bit at a time (section 8 of RFC 1952), byte at a time
 through a 256-entry table, and slicing-by-8 through eight such tables.

 The tables are defined by their generator.  The slicing argument only needs two
 facts about the eight bit steps that a byte takes, linearity and the plain
 shift of a register with a clear low byte, so it is carried out for any such
 function and then applied to the generator's.
 */
module Crc32 {

  const POLYNOMIAL: bv32 := 0xEDB88320

  function Xor(a: bv32, b: bv32): bv32 {
    a ^ b
  }

  // ----------------------------------------------------------- repeated functions

  function Iter<T>(f: T -> T, x: T, n: nat): T
    decreases n
  {
    if n == 0 then x else Iter(f, f(x), n - 1)
  }

  predicate LinearAt<T(==)>(f: T -> T, op: (T, T) -> T, a: T, b: T) {
    f(op(a, b)) == op(f(a), f(b))
  }

  ghost predicate Linear<T(!new)>(f: T -> T, op: (T, T) -> T) {
    forall a, b :: LinearAt(f, op, a, b)
  }

  lemma {:induction false} IterLinear<T(!new)>(f: T -> T, op: (T, T) -> T, a: T, b: T, n: nat)
    requires Linear(f, op)
    ensures Iter(f, op(a, b), n) == op(Iter(f, a, n), Iter(f, b, n))
    decreases n
  {
    if n > 0 {
      assert LinearAt(f, op, a, b);
      IterLinear(f, op, f(a), f(b), n - 1);
    }
  }

  lemma {:induction false} IterMore<T>(f: T -> T, x: T, m: nat, n: nat)
    ensures Iter(f, Iter(f, x, m), n) == Iter(f, x, m + n)
    decreases m
  {
    if m > 0 {
      IterMore(f, f(x), m - 1, n);
    }
  }

  lemma IterNext<T>(f: T -> T, x: T, n: nat)
    ensures Iter(f, x, n + 1) == f(Iter(f, x, n))
  {
    IterMore(f, x, n, 1);
  }

  // ------------------------------------------------------------------- one bit

  function Half(x: bv32): bv32 { x >> 1 }

  predicate Odd(x: bv32) { x & 1 == 1 }

  /** One bit of section 8 of RFC 1952. */
  function BitStep(crc: bv32): bv32 {
    if Odd(crc) then Xor(Half(crc), POLYNOMIAL) else Half(crc)
  }

  /** One bit as the table generator writes it. */
  function GeneratorStep(crc: bv32): bv32 {
    (crc >> 1) ^ ((crc & 1) * POLYNOMIAL)
  }

  lemma LowBit(a: bv32)
    ensures a & 1 == 0 || a & 1 == 1
  {
  }

  lemma GeneratorStepIsBitStep(a: bv32)
    ensures GeneratorStep(a) == BitStep(a)
  {
    LowBit(a);
    if a & 1 == 0 {
      calc { GeneratorStep(a); (a >> 1) ^ ((a & 1) * POLYNOMIAL); (a >> 1) ^ (0 * POLYNOMIAL); a >> 1; BitStep(a); }
    } else {
      calc { GeneratorStep(a); (a >> 1) ^ ((a & 1) * POLYNOMIAL); (a >> 1) ^ (1 * POLYNOMIAL); BitStep(a); }
    }
  }

  lemma {:induction false} IterSame(x: bv32, n: nat)
    ensures Iter(GeneratorStep, x, n) == Iter(BitStep, x, n)
    decreases n
  {
    if n > 0 {
      GeneratorStepIsBitStep(x);
      IterSame(BitStep(x), n - 1);
    }
  }

  // A bit step for any halving, parity and addition, so that its linearity needs no bits.

  function StepOf<T>(half: T -> T, odd: T -> bool, op: (T, T) -> T, p: T, x: T): T {
    if odd(x) then op(half(x), p) else half(x)
  }

  /** What linearity needs of the operations at a and b. */
  predicate Halving<T(==)>(half: T -> T, odd: T -> bool, op: (T, T) -> T, a: T, b: T) {
    half(op(a, b)) == op(half(a), half(b)) && (odd(op(a, b)) <==> odd(a) != odd(b))
  }

  predicate Moves<T(==)>(op: (T, T) -> T, x: T, y: T, p: T) {
    op(op(x, p), y) == op(op(x, y), p) && op(x, op(y, p)) == op(op(x, y), p) && op(op(x, p), op(y, p)) == op(x, y)
  }

  lemma StepOfLinear<T(!new)>(half: T -> T, odd: T -> bool, op: (T, T) -> T, p: T, a: T, b: T)
    requires Halving(half, odd, op, a, b) && Moves(op, half(a), half(b), p)
    ensures StepOf(half, odd, op, p, op(a, b)) == op(StepOf(half, odd, op, p, a), StepOf(half, odd, op, p, b))
  {
  }

  lemma BitStepIs(x: bv32)
    ensures BitStep(x) == StepOf(Half, Odd, Xor, POLYNOMIAL, x)
  {
  }

  lemma XorHalves(a: bv32, b: bv32)
    ensures Halving(Half, Odd, Xor, a, b)
  {
    calc {
      Half(Xor(a, b));
      Half(a ^ b);
      (a ^ b) >> 1;
      (a >> 1) ^ (b >> 1);
      Xor(a >> 1, b >> 1);
      Xor(Half(a), Half(b));
    }
    LowBit(a);
    LowBit(b);
    assert (a ^ b) & 1 == (a & 1) ^ (b & 1);
  }

  predicate Adding<T(==)>(op: (T, T) -> T, a: T, b: T, c: T) {
    op(op(a, b), c) == op(a, op(b, c)) && op(a, b) == op(b, a) && op(op(a, b), b) == a
  }

  lemma AddingMoves<T(!new)>(op: (T, T) -> T, x: T, y: T, p: T)
    requires forall a, b, c :: Adding(op, a, b, c)
    ensures Moves(op, x, y, p)
  {
    assert Adding(op, x, y, p) && Adding(op, x, p, y) && Adding(op, p, y, y) && Adding(op, y, p, p);
    assert Adding(op, x, p, op(y, p)) && Adding(op, p, op(y, p), p) && Adding(op, y, p, y);
    calc {
      op(op(x, p), op(y, p));
      op(x, op(p, op(y, p)));
      op(x, op(op(y, p), p));
      op(x, y);
    }
  }

  lemma XorTwice(r: bv32, w: bv32)
    ensures (r ^ w) ^ w == r && (r ^ w) ^ r == w
  {
  }

  lemma XorAdds(a: bv32, b: bv32, c: bv32)
    ensures Adding(Xor, a, b, c)
  {
    XorThrice(a, b, c);
    XorCommutes(a, b);
    XorTwice(a, b);
  }

  lemma XorMoves(x: bv32, y: bv32, p: bv32)
    ensures Moves(Xor, x, y, p)
  {
    forall a, b, c
      ensures Adding(Xor, a, b, c)
    {
      XorAdds(a, b, c);
    }
    AddingMoves(Xor, x, y, p);
  }

  lemma BitStepLinearAt(a: bv32, b: bv32)
    ensures LinearAt(BitStep, Xor, a, b)
  {
    XorHalves(a, b);
    XorMoves(Half(a), Half(b), POLYNOMIAL);
    StepOfLinear(Half, Odd, Xor, POLYNOMIAL, a, b);
    BitStepIs(a);
    BitStepIs(b);
    BitStepIs(Xor(a, b));
  }

  lemma BitStepLinear()
    ensures Linear(BitStep, Xor)
  {
    forall a, b
      ensures LinearAt(BitStep, Xor, a, b)
    {
      BitStepLinearAt(a, b);
    }
  }

  predicate HalvesAt(g: bv32 -> bv32, z: bv32) {
    z & 0x8000_0000 == 0 ==> g(z << 1) == z
  }

  /** An even register is only shifted by a bit. */
  ghost predicate Halves(g: bv32 -> bv32) {
    forall z :: HalvesAt(g, z)
  }

  lemma BitStepHalves()
    ensures Halves(BitStep)
  {
  }

  // ------------------------------------------------------------------ one byte

  /** What one byte of eight steps `g` does to the register. */
  function Eight(g: bv32 -> bv32): bv32 -> bv32 {
    (x: bv32) => Iter(g, x, 8)
  }

  // The register split into its low byte and the 24 bits above.

  function Lo(x: bv32): bv32 {
    x & 0xFF
  }

  function Hi(x: bv32): bv32 {
    x >> 8
  }

  function Up(x: bv32): bv32 {
    x << 8
  }

  predicate Is24(x: bv32) {
    x & 0xFF00_0000 == 0
  }

  predicate IsByte(x: bv32) {
    x & 0xFFFF_FF00 == 0
  }

  lemma LoIsByte(x: bv32)
    ensures IsByte(Lo(x))
  {
  }

  lemma LoHi(x: bv32)
    ensures Lo(x) ^ Up(Hi(x)) == x && Is24(Hi(x)) && IsByte(Lo(x))
  {
  }

  lemma ByteXor(x: bv32, b: bv32)
    requires IsByte(b)
    ensures Hi(x ^ b) == Hi(x) && Lo(x ^ b) == Lo(x) ^ b
  {
  }

  predicate ShiftsAt(f: bv32 -> bv32, y: bv32) {
    Is24(y) ==> f(Up(y)) == y
  }

  /** A register with a clear low byte is only shifted by a byte. */
  ghost predicate Shifts(f: bv32 -> bv32) {
    forall y :: ShiftsAt(f, y)
  }

  /** The two facts that the table methods rest on. */
  ghost predicate ByteLike(f: bv32 -> bv32) {
    Linear(f, Xor) && Shifts(f)
  }

  lemma HalvesOnce(g: bv32 -> bv32, z: bv32, w: bv32)
    requires Halves(g) && z & 0x8000_0000 == 0 && w == z << 1
    ensures g(w) == z
  {
    assert HalvesAt(g, z);
  }

  lemma TwoShifts(g: bv32 -> bv32, z: bv32, w: bv32)
    requires Halves(g) && z & 0xC000_0000 == 0 && w == z << 2
    ensures Iter(g, w, 2) == z
  {
    var v := z << 1;
    HalvesOnce(g, v, w);
    HalvesOnce(g, z, v);
  }

  lemma FourShifts(g: bv32 -> bv32, z: bv32, w: bv32)
    requires Halves(g) && z & 0xF000_0000 == 0 && w == z << 4
    ensures Iter(g, w, 4) == z
  {
    var v := z << 2;
    TwoShifts(g, v, w);
    TwoShifts(g, z, v);
    IterMore(g, w, 2, 2);
  }

  lemma EightShifts(g: bv32 -> bv32, z: bv32, w: bv32)
    requires Halves(g) && Is24(z) && w == Up(z)
    ensures Eight(g)(w) == z
  {
    var v := z << 4;
    FourShifts(g, v, w);
    FourShifts(g, z, v);
    IterMore(g, w, 4, 4);
  }

  lemma EightIsByteLike(g: bv32 -> bv32)
    requires Linear(g, Xor) && Halves(g)
    ensures ByteLike(Eight(g))
  {
    forall a, b
      ensures LinearAt(Eight(g), Xor, a, b)
    {
      IterLinear(g, Xor, a, b, 8);
    }
    forall y
      ensures ShiftsAt(Eight(g), y)
    {
      if Is24(y) {
        EightShifts(g, y, Up(y));
      }
    }
  }

  /** The algebra of a register: `lo` and `hi` take x apart, `up` puts the upper part back, and a
      step of `f` is linear and takes the upper part down. */
  ghost predicate SplitsAt<T>(f: T -> T, op: (T, T) -> T, lo: T -> T, hi: T -> T, up: T -> T, x: T) {
    op(lo(x), up(hi(x))) == x && f(up(hi(x))) == hi(x)
  }

  predicate AssociativeAt<T(==)>(op: (T, T) -> T, a: T, b: T, c: T) {
    op(op(a, b), c) == op(a, op(b, c))
  }

  ghost predicate Register<T(!new)>(f: T -> T, op: (T, T) -> T, lo: T -> T, hi: T -> T, up: T -> T) {
    && Linear(f, op)
    && (forall a, b, c :: AssociativeAt(op, a, b, c))
    && (forall x :: SplitsAt(f, op, lo, hi, up, x))
  }

  lemma ByteSplits(f: bv32 -> bv32, x: bv32)
    requires Shifts(f)
    ensures SplitsAt(f, Xor, Lo, Hi, Up, x)
  {
    LoHi(x);
    assert ShiftsAt(f, Hi(x));
  }

  lemma XorThrice(a: bv32, b: bv32, c: bv32)
    ensures Xor(Xor(a, b), c) == Xor(a, Xor(b, c))
  {
    calc {
      Xor(Xor(a, b), c);
      Xor(a ^ b, c);
      (a ^ b) ^ c;
      a ^ (b ^ c);
      Xor(a, b ^ c);
      Xor(a, Xor(b, c));
    }
  }

  lemma XorAssociative(a: bv32, b: bv32, c: bv32)
    ensures AssociativeAt(Xor, a, b, c)
  {
    XorThrice(a, b, c);
  }

  lemma ByteLikeIsRegister(f: bv32 -> bv32)
    requires ByteLike(f)
    ensures Register(f, Xor, Lo, Hi, Up)
  {
    forall x
      ensures SplitsAt(f, Xor, Lo, Hi, Up, x)
    {
      ByteSplits(f, x);
    }
    forall a, b, c
      ensures AssociativeAt(Xor, a, b, c)
    {
      XorAssociative(a, b, c);
    }
  }

  /** Looking up the low part and adding the rest is one step of the whole register. */
  lemma Lookup<T(!new)>(f: T -> T, op: (T, T) -> T, lo: T -> T, hi: T -> T, up: T -> T, x: T)
    requires Register(f, op, lo, hi, up)
    ensures f(x) == op(f(lo(x)), hi(x))
  {
    assert SplitsAt(f, op, lo, hi, up, x);
    assert LinearAt(f, op, lo(x), up(hi(x)));
  }

  /** Splitting off the low part of a register that still has n + 1 steps to go. */
  lemma SplitSteps<T(!new)>(f: T -> T, op: (T, T) -> T, lo: T -> T, hi: T -> T, up: T -> T, x: T, n: nat)
    requires Register(f, op, lo, hi, up)
    ensures Iter(f, x, n + 1) == op(Iter(f, lo(x), n + 1), Iter(f, hi(x), n))
  {
    assert SplitsAt(f, op, lo, hi, up, x);
    IterLinear(f, op, lo(x), up(hi(x)), n + 1);
  }

  /** A register with n + 4 steps to go, split into its four parts. */
  lemma FourParts<T(!new)>(f: T -> T, op: (T, T) -> T, lo: T -> T, hi: T -> T, up: T -> T, x: T, n: nat)
    requires Register(f, op, lo, hi, up)
    ensures var y, z := hi(x), hi(hi(x));
            Iter(f, x, n + 4) ==
            op(Iter(f, lo(x), n + 4), op(Iter(f, lo(y), n + 3), op(Iter(f, lo(z), n + 2), Iter(f, hi(z), n + 1))))
  {
    SplitSteps(f, op, lo, hi, up, x, n + 3);
    SplitSteps(f, op, lo, hi, up, hi(x), n + 2);
    SplitSteps(f, op, lo, hi, up, hi(hi(x)), n + 1);
  }

  /** Adding a whole word and stepping is adding its low part, stepping, and adding the rest. */
  lemma Consume<T(!new)>(f: T -> T, op: (T, T) -> T, lo: T -> T, hi: T -> T, up: T -> T, s: T, w: T, n: nat)
    requires Register(f, op, lo, hi, up)
    ensures Iter(f, op(s, w), n + 1) == Iter(f, op(f(op(s, lo(w))), hi(w)), n)
  {
    assert SplitsAt(f, op, lo, hi, up, w);
    assert AssociativeAt(op, s, lo(w), up(hi(w)));
    assert LinearAt(f, op, op(s, lo(w)), up(hi(w)));
  }

  /** Four single-part updates are one word added and four steps. */
  lemma FourUpdates<T(!new)>(f: T -> T, op: (T, T) -> T, lo: T -> T, hi: T -> T, up: T -> T, s: T, w: T)
    requires Register(f, op, lo, hi, up)
    ensures var s1 := f(op(s, lo(w)));
            var s2 := f(op(s1, lo(hi(w))));
            var s3 := f(op(s2, lo(hi(hi(w)))));
            f(op(s3, hi(hi(hi(w))))) == Iter(f, op(s, w), 4)
  {
    var s1 := f(op(s, lo(w)));
    var s2 := f(op(s1, lo(hi(w))));
    var s3 := f(op(s2, lo(hi(hi(w)))));
    Consume(f, op, lo, hi, up, s, w, 3);
    Consume(f, op, lo, hi, up, s1, hi(w), 2);
    Consume(f, op, lo, hi, up, s2, hi(hi(w)), 1);
  }

  /** Two words in a row. */
  lemma TwoWords<T(!new)>(f: T -> T, op: (T, T) -> T, lo: T -> T, hi: T -> T, up: T -> T, one: T, two: T)
    requires Register(f, op, lo, hi, up)
    ensures Iter(f, op(Iter(f, one, 4), two), 4) == op(Iter(f, one, 8), Iter(f, two, 4))
  {
    IterLinear(f, op, Iter(f, one, 4), two, 4);
    IterMore(f, one, 4, 4);
  }

  lemma XorCommutes(a: bv32, b: bv32)
    ensures Xor(a, b) == Xor(b, a)
  {
  }

  // -------------------------------------------------------------------- the tables

  /** `crc_lookup[k][i]`. */
  type Lookups = (nat, bv32) -> bv32

  /** Entry i of the first slice, and of each further one, is what the generator stores. */
  predicate FirstAt(t: Lookups, i: bv32) {
    t(0, i) == Iter(GeneratorStep, i, 8)
  }

  predicate FurtherAt(t: Lookups, k: nat, i: bv32) {
    t(k + 1, i) == Xor(Hi(t(k, i)), t(0, Lo(t(k, i))))
  }

  /** The 256 entries of each table are what the generator fills in. */
  ghost predicate Generated(t: Lookups) {
    && (forall i :: IsByte(i) ==> FirstAt(t, i))
    && (forall k: nat, i :: k < 7 && IsByte(i) ==> FurtherAt(t, k, i))
  }

  predicate EntryAt(t: Lookups, f: bv32 -> bv32, k: nat, i: bv32) {
    t(k, i) == Iter(f, i, k + 1)
  }

  /** Entry i of slice k is index i followed by k + 1 byte steps. */
  ghost predicate Slices(t: Lookups, f: bv32 -> bv32) {
    forall k: nat, i :: k < 8 && IsByte(i) ==> EntryAt(t, f, k, i)
  }

  lemma {:induction false} SliceEntry(t: Lookups, f: bv32 -> bv32, k: nat, i: bv32)
    requires Register(f, Xor, Lo, Hi, Up) && k < 8 && IsByte(i)
    requires forall j :: IsByte(j) ==> EntryAt(t, f, 0, j)
    requires forall k: nat, i :: k < 7 && IsByte(i) ==> FurtherAt(t, k, i)
    ensures EntryAt(t, f, k, i)
  {
    if k == 0 {
      assert EntryAt(t, f, 0, i);
    } else {
      SliceEntry(t, f, k - 1, i);
      var e := t(k - 1, i);
      assert FurtherAt(t, k - 1, i);
      LoIsByte(e);
      assert EntryAt(t, f, 0, Lo(e));
      Lookup(f, Xor, Lo, Hi, Up, e);
      XorCommutes(Hi(e), f(Lo(e)));
      IterNext(f, i, k);
    }
  }

  /** The byte step of the generated tables. */
  const STEP: bv32 -> bv32 := Eight(BitStep)

  lemma StepIsRegister()
    ensures Register(STEP, Xor, Lo, Hi, Up)
  {
    BitStepLinear();
    BitStepHalves();
    EightIsByteLike(BitStep);
    ByteLikeIsRegister(STEP);
  }

  lemma FirstEntry(t: Lookups, i: bv32)
    requires FirstAt(t, i)
    ensures EntryAt(t, STEP, 0, i)
  {
    IterSame(i, 8);
  }

  /** The generated tables are the iterated byte steps. */
  lemma GeneratedSlices(t: Lookups)
    requires Generated(t)
    ensures Slices(t, STEP)
  {
    StepIsRegister();
    forall i | IsByte(i)
      ensures EntryAt(t, STEP, 0, i)
    {
      assert FirstAt(t, i);
      FirstEntry(t, i);
    }
    forall k: nat, i | k < 8 && IsByte(i)
      ensures EntryAt(t, STEP, k, i)
    {
      SliceEntry(t, STEP, k, i);
    }
  }

  // ------------------------------------------------------------------ specification

  function Wide(b: bv8): bv32 {
    b as bv32
  }

  function Not(x: bv32): bv32 {
    !x
  }

  /** Section 8 of RFC 1952: one byte. */
  function RfcByte(crc: bv32, b: bv8): bv32 {
    Iter(BitStep, Xor(crc, Wide(b)), 8)
  }

  function RfcFold(crc: bv32, data: seq<bv8>): bv32
    decreases |data|
  {
    if data == [] then crc else RfcFold(RfcByte(crc, data[0]), data[1..])
  }

  /** The checksum of `data` continued from a previous one. */
  function Rfc(data: seq<bv8>, prev: bv32): bv32 {
    Not(RfcFold(Not(prev), data))
  }

  /** The same register run with any byte step. */
  function Fold(f: bv32 -> bv32, crc: bv32, data: seq<bv8>): bv32
    decreases |data|
  {
    if data == [] then crc else Fold(f, f(Xor(crc, Wide(data[0]))), data[1..])
  }

  lemma {:induction false} FoldIsRfc(crc: bv32, data: seq<bv8>)
    ensures Fold(STEP, crc, data) == RfcFold(crc, data)
    decreases |data|
  {
    if data != [] {
      FoldIsRfc(RfcByte(crc, data[0]), data[1..]);
    }
  }

  lemma {:induction false} FoldConcat(f: bv32 -> bv32, crc: bv32, a: seq<bv8>, b: seq<bv8>)
    ensures Fold(f, crc, a + b) == Fold(f, Fold(f, crc, a), b)
    decreases |a|
  {
    if a == [] {
      assert a + b == b;
    } else {
      assert (a + b)[1..] == a[1..] + b;
      FoldConcat(f, f(Xor(crc, Wide(a[0]))), a[1..], b);
    }
  }

  lemma FoldSnoc(f: bv32 -> bv32, crc: bv32, a: seq<bv8>, b: bv8)
    ensures Fold(f, crc, a + [b]) == f(Xor(Fold(f, crc, a), Wide(b)))
  {
    FoldConcat(f, crc, a, [b]);
    var c := Fold(f, crc, a);
    assert Fold(f, c, [b]) == Fold(f, f(Xor(c, Wide(b))), [b][1..]);
  }

  lemma NotNot(x: bv32)
    ensures Not(Not(x)) == x
  {
  }

  /** Checksums chain: that of `a + b` is that of `b` continued from that of `a`. */
  lemma RfcChains(a: seq<bv8>, b: seq<bv8>, prev: bv32)
    ensures Rfc(a + b, prev) == Rfc(b, Rfc(a, prev))
  {
    FoldIsRfc(Not(prev), a + b);
    FoldIsRfc(Not(prev), a);
    FoldIsRfc(RfcFold(Not(prev), a), b);
    FoldConcat(STEP, Not(prev), a, b);
    NotNot(RfcFold(Not(prev), a));
  }

  // ------------------------------------------------------------------- known values

  /** The low byte. */
  function Narrow(x: bv32): bv8 {
    (x & 0xFF) as bv8
  }

  /** A checksum as it is stored, lowest byte first. */
  function LittleEndian(x: bv32): seq<bv8> {
    [Narrow(x), Narrow(x >> 8), Narrow(x >> 16), Narrow(x >> 24)]
  }

  lemma LoadStored(x: bv32)
    ensures LoadLE(Narrow(x), Narrow(x >> 8), Narrow(x >> 16), Narrow(x >> 24)) == x
  {
  }

  lemma StoreLoaded(b0: bv8, b1: bv8, b2: bv8, b3: bv8)
    ensures LittleEndian(LoadLE(b0, b1, b2, b3)) == [b0, b1, b2, b3]
  {
  }

  lemma BitStepInjective(a: bv32, b: bv32)
    requires BitStep(a) == BitStep(b)
    ensures a == b
  {
  }

  lemma {:induction false} IterInjective(a: bv32, b: bv32, n: nat)
    requires Iter(BitStep, a, n) == Iter(BitStep, b, n)
    ensures a == b
    decreases n
  {
    if n > 0 {
      IterInjective(BitStep(a), BitStep(b), n - 1);
      BitStepInjective(a, b);
    }
  }

  /** Four byte steps are 32 bit steps. */
  lemma FourStepsAreBits(x: bv32)
    ensures Iter(STEP, x, 4) == Iter(BitStep, x, 32)
  {
    IterMore(BitStep, x, 8, 8);
    IterMore(BitStep, x, 16, 8);
    IterMore(BitStep, x, 24, 8);
    calc {
      Iter(STEP, x, 4);
      Iter(STEP, STEP(x), 3);
      Iter(STEP, STEP(STEP(x)), 2);
      Iter(STEP, STEP(STEP(STEP(x))), 1);
      STEP(STEP(STEP(STEP(x))));
    }
  }

  /** Eight bit steps, number by number. */
  lemma EightSteps(x0: bv32, x1: bv32, x2: bv32, x3: bv32, x4: bv32, x5: bv32, x6: bv32, x7: bv32, x8: bv32)
    requires BitStep(x0) == x1 && BitStep(x1) == x2 && BitStep(x2) == x3 && BitStep(x3) == x4
    requires BitStep(x4) == x5 && BitStep(x5) == x6 && BitStep(x6) == x7 && BitStep(x7) == x8
    ensures Iter(BitStep, x0, 8) == x8
  {
    assert Iter(BitStep, x0, 4) == x4;
    assert Iter(BitStep, x4, 4) == x8;
    IterMore(BitStep, x0, 4, 4);
  }

  lemma OnesStepped()
    ensures Iter(BitStep, 0xFFFF_FFFF, 32) == 0xDEBB_20E3
  {
    EightSteps(0xFFFFFFFF, 0x92477CDF, 0xA49B3D4F, 0xBFF51D87, 0xB2420DE3,
               0xB49985D1, 0xB7F441C8, 0x5BFA20E4, 0x2DFD1072);
    EightSteps(0x2DFD1072, 0x16FE8839, 0xE6C7C73C, 0x7363E39E, 0x39B1F1CF,
               0xF1607BC7, 0x9508BEC3, 0xA73CDC41, 0xBE26ED00);
    EightSteps(0xBE26ED00, 0x5F137680, 0x2F89BB40, 0x17C4DDA0, 0x0BE26ED0,
               0x05F13768, 0x02F89BB4, 0x017C4DDA, 0x00BE26ED);
    EightSteps(0x00BE26ED, 0xEDE79056, 0x76F3C82B, 0xD6C16735, 0x86D830BA,
               0x436C185D, 0xCC0E8F0E, 0x66074787, 0xDEBB20E3);
    IterMore(BitStep, 0xFFFF_FFFF, 8, 8);
    IterMore(BitStep, 0xFFFF_FFFF, 16, 8);
    IterMore(BitStep, 0xFFFF_FFFF, 24, 8);
  }

  /** The last four bytes are the checksum of what comes before them. */
  predicate Sealed(data: seq<bv8>, prev: bv32) {
    |data| >= 4 && data[|data| - 4..] == LittleEndian(Rfc(data[..|data| - 4], prev))
  }

  lemma XorOnes(r: bv32)
    ensures 0xFFFF_FFFF ^ r == !r && r ^ !r == 0xFFFF_FFFF
  {
  }

  lemma OnesAfter(r: bv32, w: bv32)
    requires r ^ w == 0xFFFF_FFFF
    ensures w == !r
  {
    XorTwice(r, w);
    XorOnes(r);
  }

  lemma OnesExactly(r: bv32, w: bv32)
    ensures Xor(r, w) == 0xFFFF_FFFF <==> w == Not(r)
  {
    if Xor(r, w) == 0xFFFF_FFFF {
      OnesAfter(r, w);
    } else {
      XorOnes(r);
    }
  }

  lemma ResidueRegister(crc: bv32)
    ensures Not(crc) == 0x2144_DF1C <==> crc == 0xDEBB_20E3
  {
  }

  /** The register after data whose last four bytes, as a word, are `w`. */
  lemma RegisterAfter(head: seq<bv8>, tail: seq<bv8>, first: bv32)
    requires |tail| == 4
    ensures RfcFold(first, head + tail)
         == Iter(BitStep, Xor(RfcFold(first, head), LoadLE(tail[0], tail[1], tail[2], tail[3])), 32)
  {
    var r, w := RfcFold(first, head), LoadLE(tail[0], tail[1], tail[2], tail[3]);
    StepIsRegister();
    FoldConcat(STEP, first, head, tail);
    FoldIsRfc(first, head + tail);
    FoldIsRfc(first, head);
    FourBytes(STEP, r, tail);
    FourStepsAreBits(Xor(r, w));
  }

  lemma SteppedExactly(x: bv32)
    ensures Iter(BitStep, x, 32) == 0xDEBB_20E3 <==> x == 0xFFFF_FFFF
  {
    OnesStepped();
    if Iter(BitStep, x, 32) == 0xDEBB_20E3 {
      IterInjective(x, 0xFFFF_FFFF, 32);
    }
  }

  lemma StoredExactly(tail: seq<bv8>, x: bv32)
    requires |tail| == 4
    ensures tail == LittleEndian(x) <==> LoadLE(tail[0], tail[1], tail[2], tail[3]) == x
  {
    StoreLoaded(tail[0], tail[1], tail[2], tail[3]);
    assert tail == [tail[0], tail[1], tail[2], tail[3]];
    LoadStored(x);
  }

  /** Data that ends with its own checksum has the residue 0x2144DF1C, and no other data has. */
  lemma ResidueExactly(data: seq<bv8>, prev: bv32)
    requires |data| >= 4
    ensures Rfc(data, prev) == 0x2144_DF1C <==> Sealed(data, prev)
  {
    var head, tail := data[..|data| - 4], data[|data| - 4..];
    var r := RfcFold(Not(prev), head);
    var w := LoadLE(tail[0], tail[1], tail[2], tail[3]);
    assert data == head + tail;
    RegisterAfter(head, tail, Not(prev));
    ResidueRegister(RfcFold(Not(prev), data));
    SteppedExactly(Xor(r, w));
    OnesExactly(r, w);
    StoredExactly(tail, Not(r));
  }

  /** The digits 1 to 9 in ASCII, whose checksum is the check value of the algorithm. */
  const DIGITS: seq<bv8> := [0x31, 0x32, 0x33, 0x34, 0x35, 0x36, 0x37, 0x38, 0x39]

  lemma RfcCons(crc: bv32, b: bv8, rest: seq<bv8>)
    ensures RfcFold(crc, [b] + rest) == RfcFold(RfcByte(crc, b), rest)
  {
    assert ([b] + rest)[1..] == rest;
  }

  lemma ByteThen(crc: bv32, b: bv8, rest: seq<bv8>, x: bv32, next: bv32)
    requires Xor(crc, Wide(b)) == x && Iter(BitStep, x, 8) == next
    ensures RfcFold(crc, [b] + rest) == RfcFold(next, rest)
  {
    RfcCons(crc, b, rest);
  }

  lemma FirstDigits(rest: seq<bv8>)
    ensures RfcFold(0xFFFFFFFF, [0x31, 0x32, 0x33] + rest) == RfcFold(0x77B79C2D, rest)
  {
    EightSteps(0xFFFFFFCE, 0x7FFFFFE7, 0xD2477CD3, 0x849B3D49, 0xAFF51D84,
               0x57FA8EC2, 0x2BFD4761, 0xF8462090, 0x7C231048);
    EightSteps(0x7C23107A, 0x3E11883D, 0xF2B0473E, 0x7958239F, 0xD11492EF,
               0x8532CA57, 0xAF21E60B, 0xBA287025, 0xB0ACBB32);
    EightSteps(0xB0ACBB01, 0xB5EEDEA0, 0x5AF76F50, 0x2D7BB7A8, 0x16BDDBD4,
               0x0B5EEDEA, 0x05AF76F5, 0xEF6F385A, 0x77B79C2D);
    ByteThen(0xFFFFFFFF, 0x31, [0x32, 0x33] + rest, 0xFFFFFFCE, 0x7C231048);
    ByteThen(0x7C231048, 0x32, [0x33] + rest, 0x7C23107A, 0xB0ACBB32);
    ByteThen(0xB0ACBB32, 0x33, rest, 0xB0ACBB01, 0x77B79C2D);
    assert [0x31, 0x32, 0x33] + rest == [0x31] + ([0x32, 0x33] + rest);
    assert [0x32, 0x33] + rest == [0x32] + ([0x33] + rest);
  }

  lemma MiddleDigits(rest: seq<bv8>)
    ensures RfcFold(0x77B79C2D, [0x34, 0x35, 0x36] + rest) == RfcFold(0xF68D2C9E, rest)
  {
    EightSteps(0x77B79C19, 0xD6634D2C, 0x6B31A696, 0x3598D34B, 0xF774EA85,
               0x9602F662, 0x4B017B31, 0xC8383EB8, 0x641C1F5C);
    EightSteps(0x641C1F69, 0xDFB68C94, 0x6FDB464A, 0x37EDA325, 0xF64E52B2,
               0x7B272959, 0xD02B178C, 0x68158BC6, 0x340AC5E3);
    EightSteps(0x340AC5D5, 0xF7BDE1CA, 0x7BDEF0E5, 0xD057FB52, 0x682BFDA9,
               0xD9AD7DF4, 0x6CD6BEFA, 0x366B5F7D, 0xF68D2C9E);
    ByteThen(0x77B79C2D, 0x34, [0x35, 0x36] + rest, 0x77B79C19, 0x641C1F5C);
    ByteThen(0x641C1F5C, 0x35, [0x36] + rest, 0x641C1F69, 0x340AC5E3);
    ByteThen(0x340AC5E3, 0x36, rest, 0x340AC5D5, 0xF68D2C9E);
    assert [0x34, 0x35, 0x36] + rest == [0x34] + ([0x35, 0x36] + rest);
    assert [0x35, 0x36] + rest == [0x35] + ([0x36] + rest);
  }

  lemma LastDigits(rest: seq<bv8>)
    ensures RfcFold(0xF68D2C9E, [0x37, 0x38, 0x39] + rest) == RfcFold(0x340BC6D9, rest)
  {
    EightSteps(0xF68D2CA9, 0x96FE1574, 0x4B7F0ABA, 0x25BF855D, 0xFF67418E,
               0x7FB3A0C7, 0xD2615343, 0x84882A81, 0xAFFC9660);
    EightSteps(0xAFFC9658, 0x57FE4B2C, 0x2BFF2596, 0x15FF92CB, 0xE7474A45,
               0x9E1B2602, 0x4F0D9301, 0xCA3E4AA0, 0x651F2550);
    EightSteps(0x651F2569, 0xDF371194, 0x6F9B88CA, 0x37CDC465, 0xF65E6112,
               0x7B2F3089, 0xD02F1B64, 0x68178DB2, 0x340BC6D9);
    ByteThen(0xF68D2C9E, 0x37, [0x38, 0x39] + rest, 0xF68D2CA9, 0xAFFC9660);
    ByteThen(0xAFFC9660, 0x38, [0x39] + rest, 0xAFFC9658, 0x651F2550);
    ByteThen(0x651F2550, 0x39, rest, 0x651F2569, 0x340BC6D9);
    assert [0x37, 0x38, 0x39] + rest == [0x37] + ([0x38, 0x39] + rest);
    assert [0x38, 0x39] + rest == [0x38] + ([0x39] + rest);
  }

  lemma DigitsRegister(middle: seq<bv8>, last: seq<bv8>)
    requires middle == [0x34, 0x35, 0x36] && last == [0x37, 0x38, 0x39]
    ensures RfcFold(0xFFFF_FFFF, [0x31, 0x32, 0x33] + (middle + last)) == 0x340B_C6D9
  {
    FirstDigits(middle + last);
    MiddleDigits(last);
    LastDigits([]);
    assert last + [] == last;
  }

  /** The check value. */
  lemma CheckValue()
    ensures Rfc(DIGITS, 0) == 0xCBF4_3926
  {
    var middle, last := [0x34, 0x35, 0x36], [0x37, 0x38, 0x39];
    DigitsRegister(middle, last);
    assert DIGITS == [0x31, 0x32, 0x33] + (middle + last);
  }

  /** What a checksum that is right has to give. */
  lemma KnownValues(data: seq<bv8>, prev: bv32)
    ensures |data| >= 4 ==> (Rfc(data, prev) == 0x2144_DF1C <==> Sealed(data, prev))
    ensures data == DIGITS && prev == 0 ==> Rfc(data, prev) == 0xCBF4_3926
  {
    if |data| >= 4 {
      ResidueExactly(data, prev);
    }
    CheckValue();
  }

  // ------------------------------------------------------------------- byte at a time

  /** The loop body of `crc32_1`. */
  function Update(t: Lookups, crc: bv32, b: bv8): bv32 {
    Xor(Hi(crc), t(0, Xor(Lo(crc), Wide(b))))
  }

  lemma WideIsByte(b: bv8)
    ensures IsByte(Wide(b))
  {
  }

  lemma UpdateIsStep(t: Lookups, f: bv32 -> bv32, crc: bv32, b: bv8)
    requires Register(f, Xor, Lo, Hi, Up) && Slices(t, f)
    ensures Update(t, crc, b) == f(Xor(crc, Wide(b)))
  {
    var x := Xor(crc, Wide(b));
    assert Hi(x) == Hi(crc) && Lo(x) == Xor(Lo(crc), Wide(b)) by {
      WideIsByte(b);
      ByteXor(crc, Wide(b));
    }
    TableStep(t, f, x);
  }

  /** A lookup of the low byte, with the rest added, is a step of the whole register. */
  lemma TableStep(t: Lookups, f: bv32 -> bv32, x: bv32)
    requires Register(f, Xor, Lo, Hi, Up) && Slices(t, f)
    ensures Xor(Hi(x), t(0, Lo(x))) == f(x)
  {
    LoIsByte(x);
    assert EntryAt(t, f, 0, Lo(x));
    assert t(0, Lo(x)) == f(Lo(x));
    Lookup(f, Xor, Lo, Hi, Up, x);
    XorCommutes(f(Lo(x)), Hi(x));
  }

  /** The byte loop of `crc32_1`, which also finishes `crc32_8`. */
  method BytewiseLoop(t: Lookups, ghost f: bv32 -> bv32, data: seq<bv8>, start: nat, ghost first: bv32, crc0: bv32)
    returns (crc: bv32)
    requires Register(f, Xor, Lo, Hi, Up) && Slices(t, f)
    requires start <= |data| && crc0 == Fold(f, first, data[..start])
    ensures crc == Fold(f, first, data)
  {
    crc := crc0;
    var i := start;
    while i < |data|
      invariant start <= i <= |data|
      invariant crc == Fold(f, first, data[..i])
    {
      assert data[..i + 1] == data[..i] + [data[i]];
      FoldSnoc(f, first, data[..i], data[i]);
      UpdateIsStep(t, f, crc, data[i]);
      crc := Update(t, crc, data[i]);
      i := i + 1;
    }
    assert data[..i] == data;
  }

  /** `crc32_1`. */
  method Crc32Bytewise(t: Lookups, data: seq<bv8>, prev: bv32) returns (r: bv32)
    requires Generated(t)
    ensures r == Rfc(data, prev)
    ensures |data| >= 4 ==> (r == 0x2144_DF1C <==> Sealed(data, prev))
    ensures data == DIGITS && prev == 0 ==> r == 0xCBF4_3926
  {
    KnownValues(data, prev);
    StepIsRegister();
    GeneratedSlices(t);
    FoldIsRfc(Not(prev), data);
    var crc := BytewiseLoop(t, STEP, data, 0, Not(prev), Not(prev));
    r := Not(crc);
  }

  // ------------------------------------------------------------------- eight at a time

  // The four bytes of a word, lowest first.

  function B0(x: bv32): bv32 {
    x & 0xFF
  }

  function B1(x: bv32): bv32 {
    (x >> 8) & 0xFF
  }

  function B2(x: bv32): bv32 {
    (x >> 16) & 0xFF
  }

  function B3(x: bv32): bv32 {
    (x >> 24) & 0xFF
  }

  lemma BytesOf(x: bv32)
    ensures B0(x) == Lo(x) && B1(x) == Lo(Hi(x))
    ensures B2(x) == Lo(Hi(Hi(x))) && B3(x) == Hi(Hi(Hi(x)))
  {
  }

  lemma BytesAreBytes(x: bv32)
    ensures IsByte(B0(x)) && IsByte(B1(x)) && IsByte(B2(x)) && IsByte(B3(x))
  {
  }

  function Xor4(a: bv32, b: bv32, c: bv32, d: bv32): bv32 {
    Xor(Xor(Xor(a, b), c), d)
  }

  lemma Xor4Nested(a: bv32, b: bv32, c: bv32, d: bv32)
    ensures Xor4(a, b, c, d) == Xor(a, Xor(b, Xor(c, d)))
  {
    XorThrice(Xor(a, b), c, d);
    XorThrice(a, b, Xor(c, d));
  }

  lemma RegroupFour(h: bv32, a: bv32, b: bv32, c: bv32, d: bv32)
    ensures Xor(Xor(Xor(Xor(h, a), b), c), d) == Xor(h, Xor4(a, b, c, d))
  {
    XorThrice(Xor(Xor(h, a), b), c, d);
    XorThrice(Xor(h, a), b, Xor(c, d));
    XorThrice(h, a, Xor(b, Xor(c, d)));
    Xor4Nested(a, b, c, d);
  }

  lemma FourEntries(t: Lookups, f: bv32 -> bv32, b0: bv32, b1: bv32, b2: bv32, b3: bv32, n: nat)
    requires Slices(t, f) && n < 5 && IsByte(b0) && IsByte(b1) && IsByte(b2) && IsByte(b3)
    ensures t(n + 3, b0) == Iter(f, b0, n + 4) && t(n + 2, b1) == Iter(f, b1, n + 3)
    ensures t(n + 1, b2) == Iter(f, b2, n + 2) && t(n, b3) == Iter(f, b3, n + 1)
  {
    assert EntryAt(t, f, n + 3, b0) && EntryAt(t, f, n + 2, b1);
    assert EntryAt(t, f, n + 1, b2) && EntryAt(t, f, n, b3);
  }

  /** Four lookups in neighbouring slices are all the byte steps of a whole word. */
  lemma FourLookups(t: Lookups, f: bv32 -> bv32, x: bv32, n: nat)
    requires Register(f, Xor, Lo, Hi, Up) && Slices(t, f) && n < 5
    ensures Xor4(t(n + 3, B0(x)), t(n + 2, B1(x)), t(n + 1, B2(x)), t(n, B3(x))) == Iter(f, x, n + 4)
  {
    var b0, b1, b2, b3 := B0(x), B1(x), B2(x), B3(x);
    BytesOf(x);
    BytesAreBytes(x);
    FourEntries(t, f, b0, b1, b2, b3, n);
    FourParts(f, Xor, Lo, Hi, Up, x, n);
    Xor4Nested(Iter(f, b0, n + 4), Iter(f, b1, n + 3), Iter(f, b2, n + 2), Iter(f, b3, n + 1));
  }

  /** The loop body of `crc32_8`, given the eight index bytes in the order of the input. */
  function Slice8(t: Lookups, i0: bv32, i1: bv32, i2: bv32, i3: bv32, i4: bv32, i5: bv32, i6: bv32, i7: bv32): bv32 {
    Xor(Xor(Xor(Xor(Xor4(t(7, i0), t(6, i1), t(5, i2), t(4, i3)), t(3, i4)), t(2, i5)), t(1, i6)), t(0, i7))
  }

  /** Eight lookups are four byte steps of the first word, the second word added, and four more. */
  lemma Slice8IsSteps(t: Lookups, f: bv32 -> bv32, one: bv32, two: bv32)
    requires Register(f, Xor, Lo, Hi, Up) && Slices(t, f)
    ensures Slice8(t, B0(one), B1(one), B2(one), B3(one), B0(two), B1(two), B2(two), B3(two))
            == Iter(f, Xor(Iter(f, one, 4), two), 4)
  {
    FourLookups(t, f, one, 4);
    FourLookups(t, f, two, 0);
    RegroupFour(Iter(f, one, 8), t(3, B0(two)), t(2, B1(two)), t(1, B2(two)), t(0, B3(two)));
    TwoWords(f, Xor, Lo, Hi, Up, one, two);
  }

  /** A 32-bit load on a little-endian machine. */
  function LoadLE(b0: bv8, b1: bv8, b2: bv8, b3: bv8): bv32 {
    Wide(b0) | (Wide(b1) << 8) | (Wide(b2) << 16) | (Wide(b3) << 24)
  }

  /** A 32-bit load on a big-endian machine. */
  function LoadBE(b0: bv8, b1: bv8, b2: bv8, b3: bv8): bv32 {
    (Wide(b0) << 24) | (Wide(b1) << 16) | (Wide(b2) << 8) | Wide(b3)
  }

  lemma LoadedBytes(b0: bv8, b1: bv8, b2: bv8, b3: bv8)
    ensures var w := LoadLE(b0, b1, b2, b3);
            && Lo(w) == Wide(b0) && Lo(Hi(w)) == Wide(b1)
            && Lo(Hi(Hi(w))) == Wide(b2) && Hi(Hi(Hi(w))) == Wide(b3)
  {
  }

  lemma Fold4(f: bv32 -> bv32, crc: bv32, d: seq<bv8>)
    requires |d| == 4
    ensures var s1 := f(Xor(crc, Wide(d[0])));
            var s2 := f(Xor(s1, Wide(d[1])));
            var s3 := f(Xor(s2, Wide(d[2])));
            Fold(f, crc, d) == f(Xor(s3, Wide(d[3])))
  {
    assert d == [d[0]] + [d[1]] + [d[2]] + [d[3]];
    FoldSnoc(f, crc, [d[0]] + [d[1]] + [d[2]], d[3]);
    FoldSnoc(f, crc, [d[0]] + [d[1]], d[2]);
    FoldSnoc(f, crc, [d[0]], d[1]);
    FoldSnoc(f, crc, [], d[0]);
    assert [] + [d[0]] == [d[0]];
  }

  /** Four bytes are one loaded word and four byte steps. */
  lemma FourBytes(f: bv32 -> bv32, crc: bv32, d: seq<bv8>)
    requires Register(f, Xor, Lo, Hi, Up) && |d| == 4
    ensures Fold(f, crc, d) == Iter(f, Xor(crc, LoadLE(d[0], d[1], d[2], d[3])), 4)
  {
    Fold4(f, crc, d);
    LoadedBytes(d[0], d[1], d[2], d[3]);
    FourUpdates(f, Xor, Lo, Hi, Up, crc, LoadLE(d[0], d[1], d[2], d[3]));
  }

  /** The loop body of `crc32_8` on a little-endian machine. */
  function BlockLE(t: Lookups, crc: bv32, d: seq<bv8>): bv32
    requires |d| == 8
  {
    var one := Xor(LoadLE(d[0], d[1], d[2], d[3]), crc);
    var two := LoadLE(d[4], d[5], d[6], d[7]);
    Slice8(t, B0(one), B1(one), B2(one), B3(one), B0(two), B1(two), B2(two), B3(two))
  }

  /** One slicing-by-8 round is eight byte steps. */
  lemma BlockLEIsFold(t: Lookups, f: bv32 -> bv32, crc: bv32, d: seq<bv8>)
    requires Register(f, Xor, Lo, Hi, Up) && Slices(t, f) && |d| == 8
    ensures BlockLE(t, crc, d) == Fold(f, crc, d)
  {
    var w := LoadLE(d[0], d[1], d[2], d[3]);
    var two := LoadLE(d[4], d[5], d[6], d[7]);
    XorCommutes(w, crc);
    Slice8IsSteps(t, f, Xor(w, crc), two);
    FourBytes(f, crc, d[..4]);
    FourBytes(f, Fold(f, crc, d[..4]), d[4..]);
    FoldConcat(f, crc, d[..4], d[4..]);
    assert d == d[..4] + d[4..];
  }

  /** `bitswap32`. */
  function Swap(v: bv32): bv32 {
    ((v & 0xFF00_0000) >> 24) | ((v & 0x00FF_0000) >> 8) | ((v & 0x0000_FF00) << 8) | ((v & 0x0000_00FF) << 24)
  }

  lemma SwappedBytes(x: bv32)
    ensures B3(Swap(x)) == B0(x) && B2(Swap(x)) == B1(x) && B1(Swap(x)) == B2(x) && B0(Swap(x)) == B3(x)
  {
  }

  lemma LoadsSwapped(b0: bv8, b1: bv8, b2: bv8, b3: bv8, crc: bv32)
    ensures LoadBE(b0, b1, b2, b3) == Swap(LoadLE(b0, b1, b2, b3))
    ensures Xor(LoadBE(b0, b1, b2, b3), Swap(crc)) == Swap(Xor(LoadLE(b0, b1, b2, b3), crc))
  {
  }

  /** The loop body of `crc32_8` on a big-endian machine. */
  function BlockBE(t: Lookups, crc: bv32, d: seq<bv8>): bv32
    requires |d| == 8
  {
    var one := Xor(LoadBE(d[0], d[1], d[2], d[3]), Swap(crc));
    var two := LoadBE(d[4], d[5], d[6], d[7]);
    Slice8(t, B3(one), B2(one), B1(one), B0(one), B3(two), B2(two), B1(two), B0(two))
  }

  /** Both machines compute the same round. */
  lemma BlockBEIsBlockLE(t: Lookups, crc: bv32, d: seq<bv8>)
    requires |d| == 8
    ensures BlockBE(t, crc, d) == BlockLE(t, crc, d)
  {
    LoadsSwapped(d[0], d[1], d[2], d[3], crc);
    LoadsSwapped(d[4], d[5], d[6], d[7], crc);
    SwappedBytes(Xor(LoadLE(d[0], d[1], d[2], d[3]), crc));
    SwappedBytes(LoadLE(d[4], d[5], d[6], d[7]));
  }

  /** The first loop of `crc32_8`: whole blocks of eight. */
  method BlockLoop(t: Lookups, ghost f: bv32 -> bv32, data: seq<bv8>, first: bv32, bigEndian: bool)
    returns (crc: bv32, i: nat)
    requires Register(f, Xor, Lo, Hi, Up) && Slices(t, f)
    ensures |data| - 8 < i <= |data| && crc == Fold(f, first, data[..i])
  {
    crc, i := first, 0;
    while |data| - i >= 8
      invariant i <= |data|
      invariant crc == Fold(f, first, data[..i])
    {
      ghost var d := data[i..i + 8];
      assert data[..i + 8] == data[..i] + d;
      FoldConcat(f, first, data[..i], d);
      BlockLEIsFold(t, f, crc, d);
      BlockBEIsBlockLE(t, crc, d);
      crc := if bigEndian then BlockBE(t, crc, data[i..i + 8]) else BlockLE(t, crc, data[i..i + 8]);
      i := i + 8;
    }
  }

  /** `crc32_8`, on either kind of machine. */
  method Crc32Slicing8(t: Lookups, data: seq<bv8>, prev: bv32, bigEndian: bool) returns (r: bv32)
    requires Generated(t)
    ensures r == Rfc(data, prev)
    ensures |data| >= 4 ==> (r == 0x2144_DF1C <==> Sealed(data, prev))
    ensures data == DIGITS && prev == 0 ==> r == 0xCBF4_3926
  {
    KnownValues(data, prev);
    StepIsRegister();
    GeneratedSlices(t);
    FoldIsRfc(Not(prev), data);
    var crc, i := BlockLoop(t, STEP, data, Not(prev), bigEndian);
    crc := BytewiseLoop(t, STEP, data, i, Not(prev), crc);
    r := Not(crc);
  }

  /** `crc32_8_last8`: the checksum of the last eight bytes, or of all if there are fewer. */
  method Crc32Last8(t: Lookups, data: seq<bv8>, prev: bv32, bigEndian: bool) returns (r: bv32)
    requires Generated(t)
    ensures r == Rfc(if |data| < 8 then data else data[|data| - 8..], prev)
  {
    var min := if |data| < 8 then |data| else 8;
    r := Crc32Slicing8(t, data[|data| - min..], prev, bigEndian);
    assert |data| < 8 ==> data[|data| - min..] == data;
  }

  /** The generator's two loops: the first slice, and each slice from the one before. */
  function GeneratedFirst(i: bv32): bv32 {
    Iter(GeneratorStep, i, 8)
  }

  function GeneratedNext(x: bv32): bv32 {
    Xor(Hi(x), GeneratedFirst(Lo(x)))
  }

  function GeneratedEntry(k: nat, i: bv32): bv32 {
    Iter(GeneratedNext, GeneratedFirst(i), k)
  }

  /** Running the generator gives tables of the kind the checksums rest on. */
  lemma GeneratorFillsTables()
    ensures Generated(GeneratedEntry)
  {
    forall i | IsByte(i)
      ensures FirstAt(GeneratedEntry, i)
    {
    }
    forall k: nat, i | k < 7 && IsByte(i)
      ensures FurtherAt(GeneratedEntry, k, i)
    {
      FurtherEntry(k, i);
    }
  }

  lemma FurtherEntry(k: nat, i: bv32)
    ensures GeneratedEntry(k + 1, i) == Xor(Hi(GeneratedEntry(k, i)), GeneratedFirst(Lo(GeneratedEntry(k, i))))
  {
    IterNext(GeneratedNext, GeneratedFirst(i), k);
  }
}
