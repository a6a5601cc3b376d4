/** The zipfian tables of `zipfian_random.cc`, with probabilities as exact reals. */
module Zipf {
  import opened Sums

  /** The probability that one of the first i ranks is drawn. */
  function Cumulative(zeta: seq<real>, i: nat): real
    requires i <= |zeta|
  {
    if i == 0 then 0.0 else Cumulative(zeta, i - 1) + zeta[i - 1]
  }

  /** Positive probabilities of all ranks, adding up to one. */
  ghost predicate Distribution(zeta: seq<real>) {
    (forall i :: 0 <= i < |zeta| ==> zeta[i] > 0.0) && Cumulative(zeta, |zeta|) == 1.0
  }

  /** The first draw that the map gives to rank i. */
  function First(zeta: seq<real>, i: nat, resolution: nat): int
    requires i <= |zeta|
  {
    Draw(Cumulative(zeta, i), resolution)
  }

  /** The share x of the draws, rounded down. */
  function Draw(x: real, resolution: nat): int {
    (x * (resolution as real)).Floor
  }

  lemma {:induction false} CumulativeGrows(zeta: seq<real>, i: nat, k: nat)
    requires i < k <= |zeta| && forall i :: 0 <= i < |zeta| ==> zeta[i] > 0.0
    ensures 0.0 <= Cumulative(zeta, i) < Cumulative(zeta, k)
    decreases k
  {
    if i + 1 < k {
      CumulativeGrows(zeta, i, k - 1);
    } else if i > 0 {
      CumulativeGrows(zeta, i - 1, i);
    }
  }

  lemma Scaled(x: real, y: real, r: real)
    requires x < y && r > 0.0
    ensures x * r < y * r
  {
  }

  lemma ScaledNonNegative(x: real, r: real)
    requires x >= 0.0 && r > 0.0
    ensures x * r >= 0.0
  {
  }

  lemma FirstGrows(zeta: seq<real>, i: nat, k: nat, resolution: nat)
    requires Distribution(zeta) && i < k <= |zeta| && resolution > 0
    ensures 0 <= First(zeta, i, resolution) <= First(zeta, k, resolution)
  {
    CumulativeGrows(zeta, i, k);
    DrawGrows(Cumulative(zeta, i), Cumulative(zeta, k), resolution);
  }

  lemma DrawGrows(x: real, y: real, n: nat)
    requires 0.0 <= x < y && n > 0
    ensures 0 <= Draw(x, n) <= Draw(y, n)
  {
    var r := n as real;
    Scaled(x, y, r);
    ScaledNonNegative(x, r);
    FloorMonotone(x * r, y * r);
  }

  lemma FloorMonotone(a: real, b: real)
    requires 0.0 <= a < b
    ensures 0 <= a.Floor <= b.Floor
  {
  }

  lemma FirstBounds(zeta: seq<real>, i: nat, resolution: nat)
    requires Distribution(zeta) && i < |zeta| && resolution > 0
    ensures 0 <= First(zeta, i, resolution) < resolution
  {
    CumulativeGrows(zeta, i, |zeta|);
    Within(Cumulative(zeta, i), resolution);
  }

  lemma Within(x: real, n: nat)
    requires 0.0 <= x < 1.0 && n > 0
    ensures 0 <= Draw(x, n) < n
  {
    Scaled(x, 1.0, n as real);
    ScaledNonNegative(x, n as real);
    FloorBelow(x * (n as real), n);
  }

  lemma FloorBelow(y: real, n: nat)
    requires y < n as real
    ensures y.Floor < n
  {
    assert y.Floor as real <= y;
  }

  lemma LastFirst(zeta: seq<real>, resolution: nat)
    requires Distribution(zeta)
    ensures First(zeta, |zeta|, resolution) == resolution
  {
    assert 1.0 * (resolution as real) == resolution as real;
  }

  /** The last draw that the loop gives to rank i. */
  function LastDraw(zeta: seq<real>, i: nat, resolution: nat): int
    requires i < |zeta|
  {
    var b := First(zeta, i + 1, resolution);
    if b >= resolution then resolution - 1 else b
  }

  /** The ranges of successive ranks meet. */
  lemma DrawsMeet(zeta: seq<real>, i: nat, resolution: nat)
    requires Distribution(zeta) && i < |zeta| && resolution > 0
    ensures 0 <= First(zeta, i, resolution) <= LastDraw(zeta, i, resolution) < resolution
    ensures i > 0 ==> LastDraw(zeta, i - 1, resolution) == First(zeta, i, resolution)
  {
    FirstBounds(zeta, i, resolution);
    FirstGrows(zeta, i, i + 1, resolution);
  }

  /** Rank m is the last of the first n whose draws begin at j or before. */
  ghost predicate LastAt(zeta: seq<real>, resolution: nat, n: nat, j: int, m: nat)
    requires n <= |zeta|
  {
    m < n && First(zeta, m, resolution) <= j && forall i :: m < i < n ==> j < First(zeta, i, resolution)
  }

  /** The map is right for the first n ranks, up to and including draw `limit`. */
  ghost predicate Mapped(zeta: seq<real>, resolution: nat, n: nat, map0: seq<nat>, limit: int)
    requires n <= |zeta|
  {
    limit < |map0| && forall j :: 0 <= j <= limit ==> LastAt(zeta, resolution, n, j, map0[j])
  }

  /** Giving draws First(i) up to b to rank i. */
  lemma RankMapped(zeta: seq<real>, resolution: nat, i: nat, before: seq<nat>, after: seq<nat>, b: int)
    requires Distribution(zeta) && i < |zeta| && resolution > 0 && |before| == |after| == resolution
    requires var a := First(zeta, i, resolution);
             && (i > 0 ==> Mapped(zeta, resolution, i, before, a)) && a <= b < resolution
             && forall j :: 0 <= j < resolution ==> after[j] == if a <= j <= b then i else before[j]
    ensures Mapped(zeta, resolution, i + 1, after, b)
  {
    FirstBounds(zeta, i, resolution);
    forall j | 0 <= j <= b
      ensures LastAt(zeta, resolution, i + 1, j, after[j])
    {
      if j < First(zeta, i, resolution) {
        assert LastAt(zeta, resolution, i, j, before[j]);
      }
    }
  }

  class ZipfRnd {
    const n: nat
    const resolution: nat
    const table: array<nat>
    const draws: array<nat>        // `map`
    var turn: nat
    ghost const zeta: seq<real>

    ghost predicate Valid()
      reads this, table, draws
    {
      && n > 0 && resolution > 0 && |zeta| == n && Distribution(zeta)
      && table.Length == n && multiset(table[..]) == multiset(Upto(n))
      && draws.Length == resolution && Mapped(zeta, resolution, n, draws[..], resolution - 1)
      && turn < n
    }

    /** `zipf_rnd_init`; `rnd` are the pairs drawn for the shuffle. */
    constructor (zeta: seq<real>, resolution: nat, rnd: seq<(nat, nat)>)
      requires zeta != [] && Distribution(zeta) && resolution > 0 && |rnd| == |zeta|
      ensures Valid() && this.zeta == zeta && this.n == |zeta| && this.resolution == resolution && turn == 0
      ensures fresh(table) && fresh(draws)
      ensures forall k :: 0 <= k < n ==> table[k] == Origin(n, rnd, n, k)
    {
      var t := Shuffled(|zeta|, rnd);
      var d := DrawMap(zeta, resolution);
      n, this.resolution, table, draws, turn := |zeta|, resolution, t, d, 0;
      this.zeta := zeta;
    }

    /** `zipf_rnd_get`: the table entry of the drawn rank, turned; always below n. */
    method Get(r: nat) returns (v: nat)
      requires Valid()
      ensures v < n && v == table[(draws[r % resolution] + turn) % n]
    {
      assert LastAt(zeta, resolution, n, r % resolution, draws[..][r % resolution]);
      var idx := (draws[r % resolution] + turn) % n;
      v := table[idx];
      assert v in multiset(table[..]);
      assert v in Upto(n);
    }

    /** `zipf_rnd_shift`. */
    method Shift(shift: nat)
      requires Valid()
      modifies this`turn
      ensures Valid() && turn == (old(turn) + shift) % n
    {
      turn := turn + shift;
      turn := turn % n;
    }
  }

  /** Where position k was before positions a and b were exchanged. */
  function Exchanged(a: nat, b: nat, k: nat): nat {
    if k == a then b else if k == b then a else k
  }

  /** Position k sent back through the first i exchanges of the shuffle, from the last to the first. */
  function Origin(n: nat, rnd: seq<(nat, nat)>, i: nat, k: nat): nat
    requires n > 0 && i <= |rnd|
  {
    if i == 0 then k else Origin(n, rnd, i - 1, Exchanged(rnd[i - 1].0 % n, rnd[i - 1].1 % n, k))
  }

  /** One swap of the shuffle. */
  method Exchange(table: array<nat>, a: nat, b: nat)
    requires a < table.Length && b < table.Length
    modifies table
    ensures forall k :: 0 <= k < table.Length ==> table[k] == old(table[Exchanged(a, b, k)])
    ensures multiset(table[..]) == multiset(old(table[..]))
  {
    var temp := table[a];
    table[a] := table[b];
    table[b] := temp;
  }

  /** The table after the swaps of the shuffle: a permutation of the ranks, each where the swaps took it. */
  method Shuffled(n: nat, rnd: seq<(nat, nat)>) returns (table: array<nat>)
    requires |rnd| == n
    ensures fresh(table) && table.Length == n && multiset(table[..]) == multiset(Upto(n))
    ensures forall k :: 0 <= k < n ==> table[k] == Origin(n, rnd, n, k)
  {
    table := new nat[n];
    for i := 0 to n
      invariant forall k :: 0 <= k < i ==> table[k] == k
    {
      table[i] := i;
    }
    assert table[..] == Upto(n);
    for i := 0 to n
      invariant multiset(table[..]) == multiset(Upto(n))
      invariant forall k :: 0 <= k < n ==> table[k] == Origin(n, rnd, i, k)
    {
      Exchange(table, rnd[i].0 % n, rnd[i].1 % n);
    }
  }

  /** The map table: each draw goes to the last rank that begins at or before it. */
  method DrawMap(zeta: seq<real>, resolution: nat) returns (draws: array<nat>)
    requires zeta != [] && Distribution(zeta) && resolution > 0
    ensures fresh(draws) && draws.Length == resolution
    ensures Mapped(zeta, resolution, |zeta|, draws[..], resolution - 1)
  {
    draws := new nat[resolution](_ => 0);
    var cum := 0.0;
    for i := 0 to |zeta|
      invariant cum == Cumulative(zeta, i)
      invariant i > 0 ==> Mapped(zeta, resolution, i, draws[..], LastDraw(zeta, i - 1, resolution))
    {
      MapRank(draws, zeta, i, cum, resolution);
      cum := cum + zeta[i];
    }
    LastFirst(zeta, resolution);
  }

  /** The draws of one rank: from the cumulated probability before it to the one after. */
  method RankDraws(zeta: seq<real>, i: nat, cum: real, resolution: nat) returns (a: nat, b: nat)
    requires Distribution(zeta) && i < |zeta| && resolution > 0 && cum == Cumulative(zeta, i)
    ensures a == First(zeta, i, resolution) && b == LastDraw(zeta, i, resolution) && a <= b < resolution
  {
    DrawsMeet(zeta, i, resolution);
    a := (cum * (resolution as real)).Floor;
    b := ((cum + zeta[i]) * (resolution as real)).Floor;
    if b >= resolution {
      b := resolution - 1;
    }
  }

  /** One round of the outer loop. */
  method MapRank(draws: array<nat>, zeta: seq<real>, i: nat, cum: real, resolution: nat)
    requires Distribution(zeta) && i < |zeta| && resolution == draws.Length > 0 && cum == Cumulative(zeta, i)
    requires i > 0 ==> Mapped(zeta, resolution, i, draws[..], LastDraw(zeta, i - 1, resolution))
    modifies draws
    ensures Mapped(zeta, resolution, i + 1, draws[..], LastDraw(zeta, i, resolution))
  {
    ghost var before := draws[..];
    var a, b := RankDraws(zeta, i, cum, resolution);
    GiveDraws(draws, a, b, i);
    assert i > 0 ==> LastDraw(zeta, i - 1, resolution) == a by {
      DrawsMeet(zeta, i, resolution);
    }
    RankMapped(zeta, resolution, i, before, draws[..], b);
  }

  /** The inner loop. */
  method GiveDraws(draws: array<nat>, a: nat, b: nat, i: nat)
    requires a <= b < draws.Length
    modifies draws
    ensures forall k :: 0 <= k < draws.Length ==> draws[k] == if a <= k <= b then i else old(draws[k])
  {
    for j := a to b + 1
      invariant forall k :: 0 <= k < draws.Length ==> draws[k] == if a <= k < j then i else old(draws[k])
    {
      draws[j] := i;
    }
  }
}
