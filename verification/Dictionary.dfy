/** The blackboard dictionary of `iniparser.cc`: parallel slots, scanned linearly, told apart by hash and key. */
module Dictionary {
  import opened Sums
  import Mixing

  datatype Option<+T> = None | Some(value: T)

  /** What a lookup gives: a stored value, the default, or a comparison with a missing string. */
  datatype Lookup<+V> = Found(value: Option<V>) | Default | Undefined

  const DICTMINSZ: nat := 128

  function Occupied<K>(k: Option<K>): nat {
    if k.Some? then 1 else 0
  }

  /** Every occupied slot carries the hash of its key, every empty one no value and hash zero; keys are unique. */
  ghost predicate Slots<K(!new), V, H>(h: K -> H, zero: H, key: seq<Option<K>>, val: seq<Option<V>>, hash: seq<H>) {
    && |val| == |key| && |hash| == |key|
    && (forall i :: 0 <= i < |key| && key[i].Some? ==> hash[i] == h(key[i].value))
    && (forall i :: 0 <= i < |key| && key[i].None? ==> hash[i] == zero && val[i].None?)
    && (forall i, j :: 0 <= i < j < |key| && key[i].Some? ==> key[i] != key[j])
  }

  /** The slots hold exactly the pairs of the map. */
  ghost predicate Represents<K(!new), V>(key: seq<Option<K>>, val: seq<Option<V>>, contents: map<K, Option<V>>) {
    && |val| == |key|
    && (forall i :: 0 <= i < |key| && key[i].Some? ==> key[i].value in contents && contents[key[i].value] == val[i])
    && (forall k :: k in contents ==> Some(k) in key)
  }

  lemma {:induction false} OccupiedBounded<K>(key: seq<Option<K>>)
    ensures Total(key, Occupied) <= |key|
    ensures Total(key, Occupied) < |key| ==> None in key
    decreases |key|
  {
    if key != [] {
      OccupiedBounded(key[1..]);
    }
  }

  lemma NoneOccupied<K>(key: seq<Option<K>>)
    requires forall i :: 0 <= i < |key| ==> key[i].None?
    ensures Total(key, Occupied) == 0
  {
    TotalZero(key, Occupied);
  }

  lemma Extended<K(!new), V, H>(h: K -> H, zero: H, key: seq<Option<K>>, val: seq<Option<V>>, hash: seq<H>,
                                contents: map<K, Option<V>>,
                                keys: seq<Option<K>>, vals: seq<Option<V>>, hashes: seq<H>)
    requires Slots(h, zero, key, val, hash) && Represents(key, val, contents) && |keys| == |vals| == |hashes|
    requires forall i :: 0 <= i < |keys| ==> keys[i].None? && vals[i].None? && hashes[i] == zero
    ensures Slots(h, zero, key + keys, val + vals, hash + hashes) && Represents(key + keys, val + vals, contents)
    ensures Total(key + keys, Occupied) == Total(key, Occupied)
  {
    NoneOccupied(keys);
    TotalConcat(key, keys, Occupied);
    assert forall k :: Some(k) in key ==> Some(k) in key + keys;
  }

  lemma Placed<K(!new), V, H>(h: K -> H, zero: H, key: seq<Option<K>>, val: seq<Option<V>>, hash: seq<H>,
                              contents: map<K, Option<V>>,
                              i: nat, k: K, v: Option<V>)
    requires Slots(h, zero, key, val, hash) && Represents(key, val, contents)
    requires i < |key| && key[i].None? && k !in contents
    ensures Slots(h, zero, key[i := Some(k)], val[i := v], hash[i := h(k)])
    ensures Represents(key[i := Some(k)], val[i := v], contents[k := v])
    ensures Total(key[i := Some(k)], Occupied) == Total(key, Occupied) + 1
  {
    TotalUpdate(key, Occupied, i, Some(k));
    forall x | x in contents[k := v]
      ensures Some(x) in key[i := Some(k)]
    {
      if x != k {
        var j :| 0 <= j < |key| && key[j] == Some(x);
        assert key[i := Some(k)][j] == Some(x);
      } else {
        assert key[i := Some(k)][i] == Some(x);
      }
    }
  }

  lemma Removed<K(!new), V, H>(h: K -> H, zero: H, key: seq<Option<K>>, val: seq<Option<V>>, hash: seq<H>,
                               contents: map<K, Option<V>>,
                               i: nat)
    requires Slots(h, zero, key, val, hash) && Represents(key, val, contents)
    requires i < |key| && key[i].Some?
    ensures Slots(h, zero, key[i := None], val[i := None], hash[i := zero])
    ensures Represents(key[i := None], val[i := None], contents - {key[i].value})
    ensures Total(key[i := None], Occupied) + 1 == Total(key, Occupied)
  {
    TotalUpdate(key, Occupied, i, None);
    forall x | x in contents - {key[i].value}
      ensures Some(x) in key[i := None]
    {
      var j :| 0 <= j < |key| && key[j] == Some(x);
      assert key[i := None][j] == Some(x);
    }
  }

  class Dict<K(!new, ==), V, H(==)> {
    const h: K -> H
    const zero: H
    var n: nat
    var size: nat
    var key: seq<Option<K>>
    var val: seq<Option<V>>
    var hash: seq<H>
    ghost var contents: map<K, Option<V>>

    ghost predicate Valid()
      reads this
    {
      && size == |key| && size >= DICTMINSZ
      && Slots(h, zero, key, val, hash)
      && n == Total(key, Occupied)
      && Represents(key, val, contents)
    }

    /** `dictionary_new`. */
    constructor (h: K -> H, zero: H, size: int)
      ensures Valid() && contents == map[] && this.h == h && this.zero == zero
    {
      this.h, this.zero := h, zero;
      var m: nat := if size < DICTMINSZ then DICTMINSZ else size;
      this.size, n := m, 0;
      key, val, hash := seq(m, i => None), seq(m, i => None), seq(m, i => zero);
      contents := map[];
      new;
      NoneOccupied(key);
    }

    /**
     `dictionary_get`: the value stored for the key, or the default; it compares
     with a missing string exactly when the key hashes to zero and an empty slot
     comes before the key's own.
     */
    method Get(k: K) returns (r: Lookup<V>)
      requires Valid()
      ensures r.Undefined? <==> h(k) == zero && exists i :: 0 <= i < size && key[i].None? && Some(k) !in key[..i]
      ensures !r.Undefined? ==> r == if k in contents then Found(contents[k]) else Default
    {
      var hk := h(k);
      var i := 0;
      while i < size
        invariant i <= size && Some(k) !in key[..i]
        invariant hk == zero ==> None !in key[..i]
      {
        if hk == hash[i] {
          if key[i].None? {
            return Undefined;
          }
          if key[i].value == k {
            assert forall j :: 0 <= j < size && key[j].None? && hk == zero ==> i < j && key[..j][i] == Some(k);
            return Found(val[i]);
          }
        }
        assert key[..i + 1] == key[..i] + [key[i]];
        i := i + 1;
      }
      assert key[..size] == key;
      return Default;
    }

    /** The slot of a key, or `size`: the scan `dictionary_set` and `dictionary_unset` share. */
    method Find(k: K) returns (i: nat)
      requires Valid()
      ensures i <= size && (i < size ==> key[i] == Some(k)) && (i == size <==> k !in contents)
    {
      var hk := h(k);
      i := 0;
      while i < size
        invariant i <= size && Some(k) !in key[..i]
      {
        if key[i].Some? && hk == hash[i] && key[i].value == k {
          return;
        }
        assert key[..i + 1] == key[..i] + [key[i]];
        i := i + 1;
      }
      assert key[..size] == key;
    }

    /** `dictionary_set`; a missing key changes nothing. */
    method Set(k: Option<K>, v: Option<V>)
      requires Valid()
      modifies this
      ensures Valid()
      ensures contents == if k.Some? then old(contents)[k.value := v] else old(contents)
    {
      if k.None? {
        return;
      }
      if n > 0 {
        var i := Find(k.value);
        if i < size {
          val := val[i := v];
          contents := contents[k.value := v];
          return;
        }
      }
      assert k.value !in contents by {
        if n == 0 {
          TotalZero(key, Occupied);
        }
      }
      OccupiedBounded(key);
      if n == size {
        Grow();
      }
      Add(k.value, v);
    }

    /** Doubling the blackboard when it is full. */
    method Grow()
      requires Valid() && n == size
      modifies this
      ensures Valid() && n == old(n) && n < size && contents == old(contents)
    {
      var moreKeys: seq<Option<K>> := seq(size, i => None);
      var moreVals: seq<Option<V>> := seq(size, i => None);
      var moreHashes := seq(size, i => zero);
      Extended(h, zero, key, val, hash, contents, moreKeys, moreVals, moreHashes);
      key, val, hash := key + moreKeys, val + moreVals, hash + moreHashes;
      size := 2 * size;
    }

    /** Putting a new key in the first empty slot. */
    method Add(k: K, v: Option<V>)
      requires Valid() && n < size && k !in contents
      modifies this
      ensures Valid() && contents == old(contents)[k := v]
    {
      OccupiedBounded(key);
      var i := 0;
      while i < size && key[i].Some?
        invariant i <= size && None !in key[..i]
      {
        assert key[..i + 1] == key[..i] + [key[i]];
        i := i + 1;
      }
      assert i < size by {
        assert key[..size] == key;
      }
      Placed(h, zero, key, val, hash, contents, i, k, v);
      key := key[i := Some(k)];
      val := val[i := v];
      hash := hash[i := h(k)];
      n := n + 1;
      contents := contents[k := v];
    }

    /** `dictionary_unset`. */
    method Unset(k: K)
      requires Valid()
      modifies this
      ensures Valid() && contents == old(contents) - {k}
    {
      var i := Find(k);
      if i >= size {
        assert contents - {k} == contents;
        return;
      }
      Removed(h, zero, key, val, hash, contents, i);
      key := key[i := None];
      val := val[i := None];
      hash := hash[i := zero];
      n := n - 1;
      contents := contents - {k};
    }
  }

  // -------------------------------------------------------------------- the hash

  /** A `char`, signed, widened to `unsigned`. */
  function Widened(c: bv8): bv32 {
    if c < 128 then c as bv32 else (c as bv32) | 0xffff_ff00
  }

  function Plus(a: bv32, b: bv32): bv32 { a + b }
  function Up10(a: bv32): bv32 { a + (a << 10) }
  function Up3(a: bv32): bv32 { a + (a << 3) }
  function Up15(a: bv32): bv32 { a + (a << 15) }
  function Down6(a: bv32): bv32 { a ^ (a >> 6) }
  function Down11(a: bv32): bv32 { a ^ (a >> 11) }

  function MixChar(hash: bv32, c: bv8): bv32 {
    Down6(Up10(Plus(hash, Widened(c))))
  }

  function Mixed(key: seq<bv8>): bv32 {
    if key == [] then 0 else MixChar(Mixed(key[..|key| - 1]), key[|key| - 1])
  }

  function LastMix(hash: bv32): bv32 {
    Up15(Down11(Up3(hash)))
  }

  /** What `dictionary_hash` is to return: every byte mixed in, in order, and a last mix. */
  function Hash(key: seq<bv8>): bv32 {
    LastMix(Mixed(key))
  }

  /** `dictionary_hash`. */
  method HashOf(key: seq<bv8>) returns (hash: bv32)
    ensures hash == Hash(key)
    ensures key == [] ==> hash == 0
    ensures key == [0x61, 0xe9] ==> hash == 0x2e23_6ee7
  {
    hash := 0;
    var i := 0;
    while i < |key|
      invariant i <= |key| && hash == Mixed(key[..i])
    {
      assert key[..i + 1][..i] == key[..i];
      hash := MixChar(hash, key[i]);
      i := i + 1;
    }
    assert key[..i] == key;
    hash := LastMix(hash);
    if key == [0x61, 0xe9] {
      HashOfTwo(key);
    }
  }

  // Each shift-and-add is a multiplication by an odd number, so it can be undone.

  function Undo10(a: bv32): bv32 { a * 0xc00f_fc01 }
  function Undo3(a: bv32): bv32 { a * 0x38e3_8e39 }
  function Undo15(a: bv32): bv32 { a * 0x3fff_8001 }

  lemma UpsUndone(a: bv32)
    ensures Undo10(Up10(a)) == a && Undo3(Up3(a)) == a && Undo15(Up15(a)) == a
  {
    calc { Undo10(Up10(a)); Undo10(a + (a << 10)); (a + (a << 10)) * 0xc00f_fc01; a; }
    calc { Undo3(Up3(a)); Undo3(a + (a << 3)); (a + (a << 3)) * 0x38e3_8e39; a; }
    calc { Undo15(Up15(a)); Undo15(a + (a << 15)); (a + (a << 15)) * 0x3fff_8001; a; }
  }

  lemma UpsInjective()
    ensures Mixing.Injective(Up10) && Mixing.Injective(Up3) && Mixing.Injective(Up15)
  {
    forall a
      ensures Undo10(Up10(a)) == a && Undo3(Up3(a)) == a && Undo15(Up15(a)) == a
    {
      UpsUndone(a);
    }
    Mixing.UndoneIsInjective(Undo10, Up10);
    Mixing.UndoneIsInjective(Undo3, Up3);
    Mixing.UndoneIsInjective(Undo15, Up15);
  }

  // Each shift-and-xor is undone by the same with the same, twice, four times the distance.

  function Down12(a: bv32): bv32 { a ^ (a >> 12) }
  function Down22(a: bv32): bv32 { a ^ (a >> 22) }
  function Down24(a: bv32): bv32 { a ^ (a >> 24) }

  lemma DownTwice(a: bv32)
    ensures Down6(Down6(a)) == Down12(a) && Down12(Down12(a)) == Down24(a) && Down24(Down24(a)) == a
    ensures Down11(Down11(a)) == Down22(a) && Down22(Down22(a)) == a
  {
    calc { Down6(Down6(a)); Down6(a ^ (a >> 6)); (a ^ (a >> 6)) ^ ((a ^ (a >> 6)) >> 6); a ^ (a >> 12); }
    calc { Down12(Down12(a)); Down12(a ^ (a >> 12)); (a ^ (a >> 12)) ^ ((a ^ (a >> 12)) >> 12); a ^ (a >> 24); }
    calc { Down24(Down24(a)); Down24(a ^ (a >> 24)); (a ^ (a >> 24)) ^ ((a ^ (a >> 24)) >> 24); a; }
    calc { Down11(Down11(a)); Down11(a ^ (a >> 11)); (a ^ (a >> 11)) ^ ((a ^ (a >> 11)) >> 11); a ^ (a >> 22); }
    calc { Down22(Down22(a)); Down22(a ^ (a >> 22)); (a ^ (a >> 22)) ^ ((a ^ (a >> 22)) >> 22); a; }
  }

  /** A function is injective if it and its doubles end with one that undoes itself. */
  lemma DoublesInjective<T(!new)>(f: T -> T, g: T -> T, h: T -> T)
    requires (forall x :: f(f(x)) == g(x)) && (forall x :: g(g(x)) == h(x)) && (forall x :: h(h(x)) == x)
    ensures Mixing.Injective(f) && Mixing.Injective(g)
  {
    Mixing.UndoneIsInjective(h, h);
    forall x, y | g(x) == g(y)
      ensures x == y
    {
      assert h(x) == h(y);
    }
    forall x, y | f(x) == f(y)
      ensures x == y
    {
      assert g(x) == g(y);
    }
  }

  function Same(a: bv32): bv32 { a }

  lemma DownsInjective()
    ensures Mixing.Injective(Down6) && Mixing.Injective(Down11)
  {
    forall a
      ensures Down6(Down6(a)) == Down12(a) && Down12(Down12(a)) == Down24(a) && Down24(Down24(a)) == a
      ensures Down11(Down11(a)) == Down22(a) && Down22(Down22(a)) == Same(a)
    {
      DownTwice(a);
    }
    DoublesInjective(Down6, Down12, Down24);
    DoublesInjective(Down11, Down22, Same);
  }

  lemma BothInjective<T(!new)>(f: T -> T, g: T -> T, a: T, b: T)
    requires Mixing.Injective(f) && Mixing.Injective(g) && f(g(a)) == f(g(b))
    ensures a == b
  {
  }

  lemma WidenedInjective(c: bv8, d: bv8)
    requires Widened(c) == Widened(d)
    ensures c == d
  {
  }

  function Minus(a: bv32, b: bv32): bv32 { a - b }

  lemma PlusMinus(g: bv32, a: bv32)
    ensures Minus(Plus(g, a), a) == g
  {
    calc { Minus(Plus(g, a), a); Minus(g + a, a); (g + a) - a; g; }
  }

  lemma PlusCommutes(g: bv32, a: bv32)
    ensures Plus(g, a) == Plus(a, g)
  {
  }

  ghost predicate Cancelling<T(!new)>(plus: (T, T) -> T, minus: (T, T) -> T) {
    forall g, a :: minus(plus(g, a), a) == g && plus(a, g) == plus(g, a)
  }

  lemma Cancelled<T(!new)>(plus: (T, T) -> T, minus: (T, T) -> T, g: T, h: T, a: T)
    requires Cancelling(plus, minus) && (plus(g, a) == plus(h, a) || plus(a, g) == plus(a, h))
    ensures g == h
  {
    assert minus(plus(g, a), a) == minus(plus(h, a), a);
  }

  lemma PlusInjective(g: bv32, h: bv32, a: bv32)
    requires Plus(g, a) == Plus(h, a) || Plus(a, g) == Plus(a, h)
    ensures g == h
  {
    forall g, a
      ensures Minus(Plus(g, a), a) == g && Plus(a, g) == Plus(g, a)
    {
      PlusMinus(g, a);
      PlusCommutes(a, g);
    }
    Cancelled(Plus, Minus, g, h, a);
  }

  lemma SpreadInjective(a: bv32, b: bv32)
    requires Down6(Up10(a)) == Down6(Up10(b))
    ensures a == b
  {
    UpsInjective();
    DownsInjective();
    BothInjective(Down6, Up10, a, b);
  }

  /** Mixing in a byte does not lose the hash so far. */
  lemma MixKeepsHash(g: bv32, h: bv32, c: bv8)
    requires MixChar(g, c) == MixChar(h, c)
    ensures g == h
  {
    var w := Widened(c);
    SpreadInjective(Plus(g, w), Plus(h, w));
    PlusInjective(g, h, w);
  }

  /** Mixing in a byte does not lose the byte. */
  lemma MixKeepsByte(h: bv32, c: bv8, d: bv8)
    requires MixChar(h, c) == MixChar(h, d)
    ensures c == d
  {
    SpreadInjective(Plus(h, Widened(c)), Plus(h, Widened(d)));
    PlusInjective(Widened(c), Widened(d), h);
    WidenedInjective(c, d);
  }

  lemma LastMixInjective(g: bv32, h: bv32)
    requires LastMix(g) == LastMix(h)
    ensures g == h
  {
    UpsInjective();
    DownsInjective();
    BothInjective(Up15, Down11, Up3(g), Up3(h));
  }

  /** With the other bytes fixed, the hash of a key is injective in each of its bytes. */
  lemma {:induction false} MixedInjective(key: seq<bv8>, i: nat, c: bv8, d: bv8)
    requires i < |key| && Mixed(key[i := c]) == Mixed(key[i := d])
    ensures c == d
    decreases |key|
  {
    var n := |key| - 1;
    var front := key[..n];
    if i < n {
      assert key[i := c][..n] == front[i := c] && key[i := d][..n] == front[i := d];
      MixKeepsHash(Mixed(front[i := c]), Mixed(front[i := d]), key[n]);
      MixedInjective(front, i, c, d);
    } else {
      assert key[i := c][..n] == front && key[i := d][..n] == front;
      MixKeepsByte(Mixed(front), c, d);
    }
  }

  lemma HashInjectiveInByte(key: seq<bv8>, i: nat, c: bv8, d: bv8)
    requires i < |key| && Hash(key[i := c]) == Hash(key[i := d])
    ensures c == d
  {
    LastMixInjective(Mixed(key[i := c]), Mixed(key[i := d]));
    MixedInjective(key, i, c, d);
  }

  /** The hash of a key of two characters, the second negative as a signed one. */
  lemma HashOfTwo(key: seq<bv8>)
    requires key == [0x61, 0xe9]
    ensures Hash(key) == 0x2e23_6ee7
  {
    assert key[..1] == [0x61] && key[..1][..0] == [];
    assert Widened(0x61) == 0x61 && Widened(0xe9) == 0xffff_ffe9;
    assert Up10(0x61) == 0x1_8461 && Down6(0x1_8461) == 0x1_8270;
    assert Mixed(key[..1]) == 0x1_8270;
    assert Up10(0x1_8259) == 0x60a_e659 && Down6(0x60a_e659) == 0x612_cdc0;
    assert Mixed(key) == 0x612_cdc0;
    assert Up3(0x612_cdc0) == 0x36a9_3bc0;
    assert Down11(0x36a9_3bc0) == 0x36af_eee7 && Up15(0x36af_eee7) == 0x2e23_6ee7;
  }

  /**
   In a new dictionary a lookup compares with a missing string exactly when the
   key's hash is zero, as the empty key's is; any other key is found missing.
   */
  method LookupInNew(k: seq<bv8>) returns (r: Lookup<string>)
    ensures r.Undefined? <==> Hash(k) == 0
    ensures r.Default? <==> Hash(k) != 0
    ensures k == [] ==> r.Undefined?
  {
    var d := new Dict<seq<bv8>, string, bv32>(Hash, 0, 0);
    assert None in d.key by {
      assert d.key[0].None?;
    }
    r := d.Get(k);
    EmptyHash();
  }

  lemma EmptyHash()
    ensures Hash([]) == 0
  {
    assert Mixed([]) == 0;
  }
}
