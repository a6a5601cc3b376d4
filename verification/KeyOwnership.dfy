/**
 Which keys the mixed workers of `bench_thread` touch when only existing keys
 are to be used (`key_existing`, mode 0): worker w of T owns the residue class
 of w modulo T and keeps its live keys a prefix of it.
 */
module KeyOwnership {
  import opened Division

  datatype Kind = Update | Insert | Read | Delete

  /** Shares, in percent, of reads, updates and inserts; the rest are deletes. */
  datatype Ratio = Ratio(read: nat, update: nat, insert: nat)

  function KindAt(ratio: Ratio, opIdx: nat): Kind {
    var p := opIdx % 100;
    if p < ratio.update + ratio.insert then (if p < ratio.update then Update else Insert)
    else if p < ratio.read + ratio.update + ratio.insert then Read
    else Delete
  }

  /** The kinds of n operations from index `from` on. */
  function Kinds(ratio: Ratio, from: nat, n: nat): (ks: seq<Kind>)
    ensures |ks| == n && forall i :: 0 <= i < n ==> ks[i] == KindAt(ratio, from + i)
  {
    seq(n, i requires 0 <= i => KindAt(ratio, from + i))
  }

  /** n times the same kind. */
  function Same(kind: Kind, n: nat): (ks: seq<Kind>)
    ensures |ks| == n && forall i :: 0 <= i < n ==> ks[i] == kind
  {
    seq(n, i => kind)
  }

  predicate Shares(ratio: Ratio) {
    ratio.read + ratio.update + ratio.insert <= 100
  }

  /** A hundred operations as the shares ask for them: updates, inserts, reads, deletes. */
  function Hundred(ratio: Ratio): (ks: seq<Kind>)
    requires Shares(ratio)
    ensures |ks| == 100
  {
    Same(Update, ratio.update) + Same(Insert, ratio.insert) + Same(Read, ratio.read)
    + Same(Delete, 100 - ratio.read - ratio.update - ratio.insert)
  }

  lemma HundredAt(ratio: Ratio, h: nat, i: nat)
    requires Shares(ratio) && i < 100
    ensures KindAt(ratio, 100 * h + i) == Hundred(ratio)[i]
  {
    PartsUnique(h, i, 100);
    assert (100 * h + i) % 100 == i;
  }

  /** Each hundred, counted from the first operation, has its kinds in that order. */
  lemma HundredsInOrder(ratio: Ratio, h: nat)
    requires Shares(ratio)
    ensures Kinds(ratio, 100 * h, 100) == Hundred(ratio)
  {
    forall i: nat | i < 100
      ensures Kinds(ratio, 100 * h, 100)[i] == Hundred(ratio)[i]
    {
      HundredAt(ratio, h, i);
    }
  }

  lemma {:induction false} SameCount(kind: Kind, n: nat, k: Kind)
    ensures multiset(Same(kind, n))[k] == if k == kind then n else 0
    decreases n
  {
    if n > 0 {
      SameCount(kind, n - 1, k);
      assert Same(kind, n) == Same(kind, n - 1) + [kind];
    }
  }

  lemma HundredCounts(ratio: Ratio, k: Kind)
    requires Shares(ratio)
    ensures multiset(Hundred(ratio))[k] == match k
                                           case Update => ratio.update
                                           case Insert => ratio.insert
                                           case Read => ratio.read
                                           case Delete => 100 - ratio.read - ratio.update - ratio.insert
  {
    SameCount(Update, ratio.update, k);
    SameCount(Insert, ratio.insert, k);
    SameCount(Read, ratio.read, k);
    SameCount(Delete, 100 - ratio.read - ratio.update - ratio.insert, k);
  }

  /** A window of a hundred is the end of one hundred and the beginning of the next. */
  lemma WindowIsRotation(ratio: Ratio, from: nat)
    requires Shares(ratio)
    ensures var m := from % 100;
            Kinds(ratio, from, 100) == Hundred(ratio)[m..] + Hundred(ratio)[..m]
  {
    var h, m := from / 100, from % 100;
    forall i: nat | i < 100
      ensures Kinds(ratio, from, 100)[i] == (Hundred(ratio)[m..] + Hundred(ratio)[..m])[i]
    {
      if m + i < 100 {
        HundredAt(ratio, h, m + i);
      } else {
        HundredAt(ratio, h + 1, m + i - 100);
      }
    }
  }

  /** Any hundred operations in a row have exactly the shares asked for. */
  lemma MixExact(ratio: Ratio, from: nat)
    requires Shares(ratio)
    ensures var ks := multiset(Kinds(ratio, from, 100));
            && ks[Update] == ratio.update && ks[Insert] == ratio.insert && ks[Read] == ratio.read
            && ks[Delete] == 100 - ratio.read - ratio.update - ratio.insert
  {
    WindowIsRotation(ratio, from);
    var hundred, m := Hundred(ratio), from % 100;
    assert hundred == hundred[..m] + hundred[m..];
    assert multiset(hundred[m..] + hundred[..m]) == multiset(hundred);
    HundredCounts(ratio, Update);
    HundredCounts(ratio, Insert);
    HundredCounts(ratio, Read);
    HundredCounts(ratio, Delete);
  }

  /** The j-th key of worker w. */
  function Key(j: nat, T: nat, w: nat): nat {
    j * T + w
  }

  /** The number of documents below `ndocs` that worker w starts out with. */
  function InitialCount(ndocs: nat, T: nat, w: nat): nat
    requires T > 0
  {
    if ndocs % T > w then ndocs / T + 1 else ndocs / T
  }

  /** The initial count is the size of the residue class: the keys counted are those below `ndocs`. */
  lemma InitialCountExact(ndocs: nat, T: nat, w: nat, j: nat)
    requires w < T
    ensures j < InitialCount(ndocs, T, w) <==> Key(j, T, w) < ndocs
  {
    var q := ndocs / T;
    Parts(ndocs, T);
    if j < q {
      Multiples(j, q, T);
    } else if q < j {
      Multiples(q, j, T);
    }
  }

  /** The key an operation uses, and the worker's key count after it. */
  function Choose(kind: Kind, max: nat, T: nat, w: nat, r: nat): (nat, nat) {
    match kind
    case Update => if max != 0 then (Key(r % max, T, w), max) else (Key(max, T, w), max + 1)
    case Insert => (Key(max, T, w), max + 1)
    case Read => (if max != 0 then Key(r % max, T, w) else r, max)
    case Delete => if max != 0 then (Key(max - 1, T, w), max - 1) else (r, max)
  }

  /** A worker's own variables. */
  class Worker {
    const T: nat
    const offset: nat
    var maxKeyIndex: nat
    var curOpIdx: nat

    /** The beginning of `bench_thread`: the counted keys are exactly the documents of the residue class. */
    constructor (id: nat, T: nat, ndocs: nat)
      requires T > 0
      ensures this.T == T && offset == id % T && curOpIdx == 0
      ensures forall j: nat :: j < maxKeyIndex <==> Key(j, T, offset) < ndocs
    {
      this.T, offset, curOpIdx := T, id % T, 0;
      if ndocs % T > id % T {
        maxKeyIndex := ndocs / T + 1;
      } else {
        maxKeyIndex := ndocs / T;
      }
      forall j: nat
        ensures j < InitialCount(ndocs, T, id % T) <==> Key(j, T, id % T) < ndocs
      {
        InitialCountExact(ndocs, T, id % T, j);
      }
    }

    /** One operation of the loop, up to the choice of its key. */
    method Next(ratio: Ratio, random: nat) returns (kind: Kind, key: nat)
      modifies this
      ensures curOpIdx == old(curOpIdx) + 1 && kind == KindAt(ratio, old(curOpIdx))
      ensures (key, maxKeyIndex) == Choose(kind, old(maxKeyIndex), T, offset, random)
      ensures (kind.Read? || kind.Update?) && old(maxKeyIndex) > 0 ==>
                key == random % old(maxKeyIndex) * T + offset && maxKeyIndex == old(maxKeyIndex)
      ensures kind.Insert? || (kind.Update? && old(maxKeyIndex) == 0) ==>
                key == old(maxKeyIndex) * T + offset && maxKeyIndex == old(maxKeyIndex) + 1
      ensures kind.Delete? && old(maxKeyIndex) > 0 ==>
                key == (old(maxKeyIndex) - 1) * T + offset && maxKeyIndex == old(maxKeyIndex) - 1
      ensures (kind.Read? || kind.Delete?) && old(maxKeyIndex) == 0 ==> key == random && maxKeyIndex == 0
    {
      var p := curOpIdx % 100;
      if p < ratio.update + ratio.insert {
        kind := if p < ratio.update then Update else Insert;
      } else if p < ratio.read + ratio.update + ratio.insert {
        kind := Read;
      } else {
        kind := Delete;
      }
      curOpIdx := curOpIdx + 1;
      var r := random;
      if kind.Update? || kind.Insert? {
        if kind.Update? && maxKeyIndex != 0 {
          r := r % maxKeyIndex;
        } else {
          r := maxKeyIndex;
          maxKeyIndex := maxKeyIndex + 1;
        }
        r := r * T + offset;
      } else if kind.Read? {
        if maxKeyIndex != 0 {
          r := r % maxKeyIndex;
          r := r * T + offset;
        }
      } else if maxKeyIndex != 0 {
        maxKeyIndex := maxKeyIndex - 1;
        r := maxKeyIndex;
        r := r * T + offset;
      }
      key := r;
    }
  }

  // --------------------------------------------------------- all workers and the store

  /** The workers' key counts, and the keys present in the store. */
  datatype State = State(max: seq<nat>, store: set<nat>)

  datatype Step = Step(w: nat, kind: Kind, r: nat)

  predicate Live(s: State, k: nat)
    requires s.max != []
  {
    k / |s.max| < s.max[k % |s.max|]
  }

  /** Every worker's live keys are the first ones of its residue class, and nothing else is stored. */
  ghost predicate Owned(s: State) {
    s.max != [] && forall k: nat :: k in s.store <==> Live(s, k)
  }

  function KeyFor(s: State, step: Step): nat
    requires step.w < |s.max|
  {
    Choose(step.kind, s.max[step.w], |s.max|, step.w, step.r).0
  }

  function Apply(s: State, step: Step): State
    requires step.w < |s.max|
  {
    var (key, max) := Choose(step.kind, s.max[step.w], |s.max|, step.w, step.r);
    var store := match step.kind
                 case Read => s.store
                 case Delete => s.store - {key}
                 case _ => s.store + {key};
    State(s.max[step.w := max], store)
  }

  /** The operation has no key of its own to use. */
  predicate Unmapped(s: State, step: Step)
    requires step.w < |s.max|
  {
    (step.kind.Read? || step.kind.Delete?) && s.max[step.w] == 0
  }

  predicate Inserts(s: State, step: Step)
    requires step.w < |s.max|
  {
    step.kind.Insert? || (step.kind.Update? && s.max[step.w] == 0)
  }

  lemma KeyParts(j: nat, T: nat, w: nat)
    requires w < T
    ensures Key(j, T, w) / T == j && Key(j, T, w) % T == w
  {
    PartsUnique(j, w, T);
  }

  /**
   An insert uses a key of the worker's class that is not stored; any other
   operation uses a stored key of its own worker exactly when it has one.
   */
  lemma UsesOwnKey(s: State, step: Step)
    requires Owned(s) && step.w < |s.max|
    ensures Inserts(s, step) ==> KeyFor(s, step) % |s.max| == step.w && KeyFor(s, step) !in s.store
    ensures !Inserts(s, step) ==>
              (KeyFor(s, step) % |s.max| == step.w && KeyFor(s, step) in s.store <==> !Unmapped(s, step))
    ensures !Unmapped(s, step) ==>
              KeyFor(s, step) / |s.max| == if Inserts(s, step) then s.max[step.w]
                                           else if step.kind.Delete? then s.max[step.w] - 1
                                           else step.r % s.max[step.w]
  {
    var max := s.max[step.w];
    var j := if Inserts(s, step) then max
             else if step.kind.Delete? then max - 1
             else if max != 0 then step.r % max
             else 0;
    if !Unmapped(s, step) {
      KeyParts(j, |s.max|, step.w);
      assert KeyFor(s, step) == Key(j, |s.max|, step.w);
    } else {
      assert KeyFor(s, step) == step.r;
    }
  }

  lemma SameKey(k: nat, T: nat, j: nat)
    requires T > 0
    ensures k == Key(j, T, k % T) <==> k / T == j
  {
    Parts(k, T);
    KeyParts(j, T, k % T);
  }

  /** What a mapped operation does to the live keys of its worker. */
  lemma MappedKeepsOwned(s: State, step: Step)
    requires Owned(s) && step.w < |s.max| && !Unmapped(s, step)
    ensures Owned(Apply(s, step))
  {
    UsesOwnKey(s, step);
    var t := Apply(s, step);
    forall k: nat
      ensures k in t.store <==> Live(t, k)
    {
      if k % |s.max| == step.w {
        SameKey(k, |s.max|, s.max[step.w]);
        if s.max[step.w] > 0 {
          SameKey(k, |s.max|, s.max[step.w] - 1);
        }
      } else {
        assert k != KeyFor(s, step);
      }
    }
  }

  /** A delete by a worker without keys that hits another worker's key. */
  predicate Strays(s: State, step: Step)
    requires step.w < |s.max|
  {
    step.kind.Delete? && s.max[step.w] == 0 && step.r in s.store
  }

  /** An operation keeps the discipline unless it is an unmapped delete that hits another worker's key. */
  lemma OwnedExactly(s: State, step: Step)
    requires Owned(s) && step.w < |s.max|
    ensures Owned(Apply(s, step)) <==> !Strays(s, step)
  {
    var t := Apply(s, step);
    if Unmapped(s, step) {
      assert t.max == s.max;
      if Strays(s, step) {
        assert step.r !in t.store && Live(t, step.r);
      } else {
        assert t.store == s.store;
      }
    } else {
      MappedKeepsOwned(s, step);
    }
  }

  /** Worker 1 of 2 starts with no key of the single document, and deletes worker 0's. */
  lemma DeletesAnothersKey()
    ensures var s := State([1, 0], {0});
            Owned(s) && InitialCount(1, 2, 0) == 1 && InitialCount(1, 2, 1) == 0
            && Apply(s, Step(1, Delete, 0)).store == {} && Live(Apply(s, Step(1, Delete, 0)), 0)
  {
    var s := State([1, 0], {0});
    forall k: nat
      ensures k in s.store <==> Live(s, k)
    {
      Parts(k, 2);
    }
  }

  function Documents(n: nat): (ks: set<nat>)
    ensures forall k: nat :: k in ks <==> k < n
  {
    if n == 0 then {} else Documents(n - 1) + {n - 1}
  }

  /** The start: documents 0 to ndocs - 1 are stored. */
  function Start(ndocs: nat, T: nat): State
    requires T > 0
  {
    State(seq(T, w requires 0 <= w => InitialCount(ndocs, T, w)), Documents(ndocs))
  }

  lemma StartOwned(ndocs: nat, T: nat)
    requires T > 0
    ensures Owned(Start(ndocs, T))
  {
    var s := Start(ndocs, T);
    forall k: nat
      ensures k in s.store <==> Live(s, k)
    {
      Parts(k, T);
      InitialCountExact(ndocs, T, k % T, k / T);
    }
  }

  /** Every operation is one of the workers'. */
  predicate ForWorkers(s: State, steps: seq<Step>) {
    forall x <- steps :: x.w < |s.max|
  }

  /** The discipline holds before and after each operation of the run. */
  ghost predicate AlwaysOwned(s: State, steps: seq<Step>)
    requires ForWorkers(s, steps)
    decreases |steps|
  {
    Owned(s) && (steps != [] ==> AlwaysOwned(Apply(s, steps[0]), steps[1..]))
  }

  predicate NeverStrays(s: State, steps: seq<Step>)
    requires ForWorkers(s, steps)
    decreases |steps|
  {
    steps != [] ==> !Strays(s, steps[0]) && NeverStrays(Apply(s, steps[0]), steps[1..])
  }

  /**
   Each operation uses a key of its own worker, stored unless it inserts,
   exactly when it is not a read or a delete of a worker without keys.
   */
  ghost predicate AllOwn(s: State, steps: seq<Step>)
    requires ForWorkers(s, steps)
    decreases |steps|
  {
    steps != [] ==>
      && (KeyFor(s, steps[0]) % |s.max| == steps[0].w && (KeyFor(s, steps[0]) in s.store <==> !Inserts(s, steps[0]))
          <==> !Unmapped(s, steps[0]))
      && AllOwn(Apply(s, steps[0]), steps[1..])
  }

  lemma {:induction false} RunOwnedExactly(s: State, steps: seq<Step>)
    requires Owned(s) && ForWorkers(s, steps)
    ensures AlwaysOwned(s, steps) <==> NeverStrays(s, steps)
    ensures NeverStrays(s, steps) ==> AllOwn(s, steps)
    decreases |steps|
  {
    if steps != [] {
      UsesOwnKey(s, steps[0]);
      OwnedExactly(s, steps[0]);
      if !Strays(s, steps[0]) {
        RunOwnedExactly(Apply(s, steps[0]), steps[1..]);
      }
    }
  }

  /**
   From the populated store, in every run, each worker's live keys stay its own
   prefix exactly when no worker without keys deletes another worker's key, and
   then every operation uses a key of its own worker if that has one.
   */
  lemma RunsStayOwnedExactly(ndocs: nat, T: nat, steps: seq<Step>)
    requires T > 0 && ForWorkers(Start(ndocs, T), steps)
    ensures AlwaysOwned(Start(ndocs, T), steps) <==> NeverStrays(Start(ndocs, T), steps)
    ensures NeverStrays(Start(ndocs, T), steps) ==> AllOwn(Start(ndocs, T), steps)
  {
    StartOwned(ndocs, T);
    RunOwnedExactly(Start(ndocs, T), steps);
  }
}
