/**
 The ledger of asynchronous population: who holds which block, descriptor and
 context, each operation carrying them by value.  `AsyncIo` is the protocol of
 the source, in which they travel through shared cells; it is proved to follow
 this ledger step by step, so what is conserved here is conserved there.
 */
module IoLedger {
  import opened Sums
  import opened Completions
  import opened Division

  /** How many contexts, key descriptors and value descriptors `open_db` makes. */
  const POOL: nat := 36000

  const MAX_QUEUE_DEPTH: nat := 256

  datatype Config = Config(threads: nat, depth: nat, keys: nat, values: nat, docs: nat, batch: nat)

  /** The checks on the configuration in asynchronous mode. */
  predicate Accepted(cfg: Config) {
    0 < cfg.depth <= MAX_QUEUE_DEPTH && cfg.depth <= cfg.keys && cfg.depth <= cfg.values
  }

  /**
   An operation on its way from creation to the release of its context: the
   submitting thread, the blocks, the key and value descriptors and the context
   it holds (-1 for none), and whether its blocks were given back.
   */
  datatype Entry = Entry(tid: nat, key: Block, value: Block, kd: int, vd: int, ctx: int, spent: bool)

  function ByTid(tid: nat): Entry -> bool {
    (e: Entry) => e.tid == tid
  }

  datatype Pc =
    | Filling                                  // at the head of the submission loop
    | Created(e: Entry)                        // has its blocks
    | Submitting(e: Entry)                     // has its descriptors too
    | Submitted                                // about to count the operation
    | Notifying(got: seq<Entry>, j: nat)       // giving back the blocks of got[j..]
    | Releasing(got: seq<Entry>, nr: nat)      // giving back the contexts of got
    | Finished

  /** A thread: document counter `c`, `cur_qdepth`, and the free chains of its two pools. */
  datatype Thread = Thread(pc: Pc, c: nat, q: int, keyFree: seq<Block>, valueFree: seq<Block>)

  datatype State = State(
    threads: seq<Thread>,
    flights: seq<Entry>,      // at the device or in a callback
    done: seq<Entry>,         // iodone
    ctxs: seq<nat>,           // iocontexts
    kds: seq<nat>,            // kvs_key_pool
    vds: seq<nat>,            // kvs_value_pool
    broken: bool)             // a pool or queue was popped while empty

  datatype Step =
    | Create(t: nat) | Take(t: nat) | Submit(t: nat) | Bump(t: nat)
    | Harvest(t: nat) | Notify(t: nat) | Release(t: nat) | Settle(t: nat) | Finish(t: nat)
    | Pick(i: nat) | Return(i: nat) | Event(i: nat)

  function Blocks(owner: nat, n: nat): seq<Block> {
    seq(n, i requires 0 <= i => Block(owner, i))
  }

  function Ids(n: nat): seq<nat> {
    seq(n, i requires 0 <= i => i)
  }

  function Init(cfg: Config): State {
    State(seq(cfg.threads, t requires 0 <= t =>
                Thread(Filling, t * cfg.batch, 0, Blocks(t, cfg.keys), Blocks(t, cfg.values))),
          [], [], Ids(POOL), Ids(POOL), Ids(POOL), false)
  }

  // ------------------------------------------------------------------------ steps

  predicate WantsMore(cfg: Config, th: Thread) {
    th.q < cfg.depth && th.c < cfg.docs
  }

  predicate ThreadEnabled(cfg: Config, th: Thread, step: Step) {
    match step
    case Create(_) => th.pc.Filling? && WantsMore(cfg, th)
    case Take(_) => th.pc.Created?
    case Submit(_) => th.pc.Submitting?
    case Bump(_) => th.pc.Submitted?
    case Harvest(_) => th.pc.Filling? && !WantsMore(cfg, th) && th.q > 0
    case Notify(_) => th.pc.Notifying?
    case Release(_) => th.pc.Releasing? && th.pc.got != []
    case Settle(_) => th.pc.Releasing? && th.pc.got == []
    case Finish(_) => th.pc.Filling? && !WantsMore(cfg, th) && th.q <= 0
    case _ => false
  }

  predicate Callback(step: Step) {
    step.Pick? || step.Return? || step.Event?
  }

  predicate Enabled(cfg: Config, s: State, step: Step) {
    !s.broken &&
    match step
    case Pick(i) => i < |s.flights| && s.flights[i].ctx == -1
    case Return(i) => i < |s.flights| && s.flights[i].ctx != -1 && s.flights[i].kd != -1
    case Event(i) => i < |s.flights| && s.flights[i].ctx != -1 && s.flights[i].kd == -1
    case _ => step.t < |s.threads| && ThreadEnabled(cfg, s.threads[step.t], step)
  }

  /** `_create_doc`: both allocations, which fail only on an empty chain. */
  function CreateDoc(s: State, t: nat): State
    requires t < |s.threads|
  {
    var th := s.threads[t];
    if th.keyFree == [] || th.valueFree == [] then s.(broken := true) else
    var e := Entry(t, th.keyFree[0], th.valueFree[0], -1, -1, -1, false);
    s.(threads := s.threads[t := th.(pc := Created(e), keyFree := th.keyFree[1..], valueFree := th.valueFree[1..])])
  }

  /** The descriptors `kvs_store_async` takes. */
  function TakeDescriptors(s: State, t: nat): State
    requires t < |s.threads| && s.threads[t].pc.Created?
  {
    if s.kds == [] || s.vds == [] then s.(broken := true) else
    var th := s.threads[t];
    s.(threads := s.threads[t := th.(pc := Submitting(th.pc.e.(kd := s.kds[0], vd := s.vds[0])))],
       kds := s.kds[1..], vds := s.vds[1..])
  }

  /** `notify` for one context, or the end of the loop that calls it. */
  function NotifyNext(th: Thread): Thread
    requires th.pc.Notifying?
  {
    var got, j := th.pc.got, th.pc.j;
    if j < |got| then
      th.(pc := Notifying(got[j := got[j].(spent := true)], j + 1),
          keyFree := [got[j].key] + th.keyFree, valueFree := [got[j].value] + th.valueFree)
    else
      th.(pc := Releasing(got, |got|))
  }

  function PutBack(pool: seq<nat>, id: int): seq<nat> {
    if id >= 0 then pool + [id] else pool
  }

  /** `on_io_complete`: taking a context. */
  function TakeContext(s: State, i: nat): State
    requires i < |s.flights|
  {
    if s.ctxs == [] then s.(broken := true) else
    s.(flights := s.flights[i := s.flights[i].(ctx := s.ctxs[0])], ctxs := s.ctxs[1..])
  }

  /** `on_io_complete`: `release_kvskeyvalue`. */
  function ReturnDescriptors(s: State, i: nat): State
    requires i < |s.flights|
  {
    var e := s.flights[i];
    s.(flights := s.flights[i := e.(kd := -1, vd := -1)], kds := PutBack(s.kds, e.kd), vds := PutBack(s.vds, e.vd))
  }

  function ApplyThread(cfg: Config, s: State, step: Step): State
    requires !Callback(step) && step.t < |s.threads| && ThreadEnabled(cfg, s.threads[step.t], step)
  {
    var t, th := step.t, s.threads[step.t];
    match step
    case Create(_) => CreateDoc(s, t)
    case Take(_) => TakeDescriptors(s, t)
    case Submit(_) => s.(threads := s.threads[t := th.(pc := Submitted)], flights := s.flights + [th.pc.e])
    case Bump(_) =>
      s.(threads := s.threads[t := th.(pc := Filling, q := th.q + 1, c := th.c + cfg.threads * cfg.batch)])
    case Harvest(_) =>
      s.(threads := s.threads[t := th.(pc := Notifying(Harvested(s.done, th.q, ByTid(t)), 0))],
         done := Left(s.done, th.q, ByTid(t)))
    case Notify(_) => s.(threads := s.threads[t := NotifyNext(th)])
    case Release(_) =>
      s.(threads := s.threads[t := th.(pc := Releasing(th.pc.got[1..], th.pc.nr))],
         ctxs := PutBack(s.ctxs, th.pc.got[0].ctx))
    case Settle(_) => s.(threads := s.threads[t := th.(pc := Filling, q := th.q - th.pc.nr)])
    case Finish(_) => s.(threads := s.threads[t := th.(pc := Finished)])
  }

  function Apply(cfg: Config, s: State, step: Step): State
    requires Enabled(cfg, s, step)
  {
    match step
    case Pick(i) => TakeContext(s, i)
    case Return(i) => ReturnDescriptors(s, i)
    case Event(i) => s.(flights := s.flights[..i] + s.flights[i + 1..], done := s.done + [s.flights[i]])
    case _ => ApplyThread(cfg, s, step)
  }

  // -------------------------------------------------------- where the entries are

  /** What an entry may hold, at each place it can be. */
  predicate Flying(cfg: Config, e: Entry) {
    && e.tid < cfg.threads && !e.spent && e.ctx >= -1
    && ((e.kd >= 0 && e.vd >= 0) || (e.kd == -1 && e.vd == -1 && e.ctx >= 0))
  }

  predicate Complete(cfg: Config, e: Entry) {
    e.tid < cfg.threads && e.ctx >= 0 && e.kd == -1 && e.vd == -1
  }

  predicate Carrying(cfg: Config, t: nat, pc: Pc) {
    match pc
    case Created(e) => e.tid == t && !e.spent && e.kd == -1 && e.vd == -1 && e.ctx == -1
    case Submitting(e) => e.tid == t && !e.spent && e.kd >= 0 && e.vd >= 0 && e.ctx == -1
    case Notifying(got, j) =>
      j <= |got| && forall i :: 0 <= i < |got| ==> got[i].tid == t && Complete(cfg, got[i]) && (got[i].spent <==> i < j)
    case Releasing(got, nr) =>
      |got| <= nr && forall i :: 0 <= i < |got| ==> got[i].tid == t && Complete(cfg, got[i]) && got[i].spent
    case _ => true
  }

  predicate Shaped(cfg: Config, s: State) {
    && |s.threads| == cfg.threads
    && (forall i :: 0 <= i < |s.flights| ==> Flying(cfg, s.flights[i]))
    && (forall i :: 0 <= i < |s.done| ==> Complete(cfg, s.done[i]) && !s.done[i].spent)
    && (forall t :: 0 <= t < |s.threads| ==> Carrying(cfg, t, s.threads[t].pc))
  }

  lemma HarvestShapes(cfg: Config, s: State, t: nat)
    requires Shaped(cfg, s) && Enabled(cfg, s, Harvest(t))
    ensures Shaped(cfg, Apply(cfg, s, Harvest(t)))
  {
    var q := s.threads[t].q;
    var n := Looked(s.done, q, ByTid(t));
    var got, left := Harvested(s.done, q, ByTid(t)), Left(s.done, q, ByTid(t));
    OwnIsOwn(s.done[..n], ByTid(t));
    forall i | 0 <= i < |left|
      ensures Complete(cfg, left[i]) && !left[i].spent
    {
      assert left[i] in s.done[..n] || left[i] in s.done[n..];
    }
    forall i | 0 <= i < |got|
      ensures got[i].tid == t && Complete(cfg, got[i]) && !got[i].spent
    {
      assert got[i] in s.done[..n];
    }
  }

  lemma CallbackShapes(cfg: Config, s: State, step: Step)
    requires Shaped(cfg, s) && Enabled(cfg, s, step) && Callback(step)
    ensures Shaped(cfg, Apply(cfg, s, step))
  {
  }

  lemma KeepsShaped(cfg: Config, s: State, step: Step)
    requires Shaped(cfg, s) && Enabled(cfg, s, step)
    ensures Shaped(cfg, Apply(cfg, s, step))
  {
    if step.Harvest? {
      HarvestShapes(cfg, s, step.t);
    } else if Callback(step) {
      CallbackShapes(cfg, s, step);
    }
  }

  // ------------------------------------------------------------------ conservation

  function Carries(pc: Pc): seq<Entry> {
    match pc
    case Created(e) => [e]
    case Submitting(e) => [e]
    case Notifying(got, _) => got
    case Releasing(got, _) => got
    case _ => []
  }

  function Of(f: Entry -> nat): Thread -> nat {
    (th: Thread) => Total(Carries(th.pc), f)
  }

  /** What all entries, wherever they are, contribute. */
  function Everywhere(s: State, f: Entry -> nat): nat {
    Total(s.flights, f) + Total(s.done, f) + Total(s.threads, Of(f))
  }

  /** The entry a step replaces, and what it replaces it by. */
  function Out(s: State, step: Step): seq<Entry> {
    match step
    case Take(t) => if t < |s.threads| && s.threads[t].pc.Created? then [s.threads[t].pc.e] else []
    case Notify(t) =>
      if t < |s.threads| && s.threads[t].pc.Notifying? && s.threads[t].pc.j < |s.threads[t].pc.got|
      then [s.threads[t].pc.got[s.threads[t].pc.j]] else []
    case Release(t) =>
      if t < |s.threads| && s.threads[t].pc.Releasing? && s.threads[t].pc.got != [] then [s.threads[t].pc.got[0]]
      else []
    case Pick(i) => if i < |s.flights| then [s.flights[i]] else []
    case Return(i) => if i < |s.flights| then [s.flights[i]] else []
    case _ => []
  }

  function In(s: State, step: Step): seq<Entry> {
    match step
    case Create(t) =>
      if t < |s.threads| && s.threads[t].keyFree != [] && s.threads[t].valueFree != []
      then [Entry(t, s.threads[t].keyFree[0], s.threads[t].valueFree[0], -1, -1, -1, false)] else []
    case Take(_) =>
      if Out(s, step) != [] && s.kds != [] && s.vds != []
      then [Out(s, step)[0].(kd := s.kds[0], vd := s.vds[0])] else Out(s, step)
    case Notify(_) => if Out(s, step) != [] then [Out(s, step)[0].(spent := true)] else []
    case Pick(_) => if Out(s, step) != [] && s.ctxs != [] then [Out(s, step)[0].(ctx := s.ctxs[0])] else Out(s, step)
    case Return(_) => if Out(s, step) != [] then [Out(s, step)[0].(kd := -1, vd := -1)] else []
    case _ => []
  }

  lemma ThreadMoves(s: State, t: nat, th: Thread, f: Entry -> nat)
    requires t < |s.threads|
    ensures Everywhere(s.(threads := s.threads[t := th]), f) + Total(Carries(s.threads[t].pc), f)
         == Everywhere(s, f) + Total(Carries(th.pc), f)
  {
    TotalUpdate(s.threads, Of(f), t, th);
  }

  lemma CallbackMoves(cfg: Config, s: State, step: Step, f: Entry -> nat)
    requires Shaped(cfg, s) && Enabled(cfg, s, step) && Callback(step)
    ensures Everywhere(Apply(cfg, s, step), f) + Total(Out(s, step), f) == Everywhere(s, f) + Total(In(s, step), f)
  {
    var t := Apply(cfg, s, step);
    var i := step.i;
    TotalOne(s.flights[i], f);
    if step.Event? {
      TotalRemove(s.flights, f, i);
      TotalAppend(s.done, s.flights[i], f);
    } else {
      TotalUpdate(s.flights, f, i, t.flights[i]);
      TotalOne(t.flights[i], f);
    }
  }

  lemma SubmitMoves(cfg: Config, s: State, t: nat, f: Entry -> nat)
    requires Shaped(cfg, s) && Enabled(cfg, s, Submit(t))
    ensures Everywhere(Apply(cfg, s, Submit(t)), f) == Everywhere(s, f)
  {
    var th := s.threads[t];
    ThreadMoves(s, t, th.(pc := Submitted), f);
    TotalAppend(s.flights, th.pc.e, f);
    TotalOne(th.pc.e, f);
  }

  lemma HarvestMoves(cfg: Config, s: State, t: nat, f: Entry -> nat)
    requires Shaped(cfg, s) && Enabled(cfg, s, Harvest(t))
    ensures Everywhere(Apply(cfg, s, Harvest(t)), f) == Everywhere(s, f)
  {
    var th := s.threads[t];
    ThreadMoves(s, t, th.(pc := Notifying(Harvested(s.done, th.q, ByTid(t)), 0)), f);
    HarvestConserves(s.done, th.q, ByTid(t), f);
  }

  lemma NotifyMoves(cfg: Config, s: State, t: nat, f: Entry -> nat)
    requires Shaped(cfg, s) && Enabled(cfg, s, Notify(t))
    ensures Everywhere(Apply(cfg, s, Notify(t)), f) + Total(Out(s, Notify(t)), f)
         == Everywhere(s, f) + Total(In(s, Notify(t)), f)
  {
    var th := s.threads[t];
    ThreadMoves(s, t, NotifyNext(th), f);
    var got, j := th.pc.got, th.pc.j;
    if j < |got| {
      TotalUpdate(got, f, j, got[j].(spent := true));
      TotalOne(got[j], f);
      TotalOne(got[j].(spent := true), f);
    }
  }

  lemma OtherMoves(cfg: Config, s: State, step: Step, f: Entry -> nat)
    requires Shaped(cfg, s) && Enabled(cfg, s, step) && !Callback(step)
    requires !step.Submit? && !step.Harvest? && !step.Notify?
    ensures Everywhere(Apply(cfg, s, step), f) + Total(Out(s, step), f) == Everywhere(s, f) + Total(In(s, step), f)
  {
    var u := Apply(cfg, s, step);
    ThreadMoves(s, step.t, u.threads[step.t], f);
    if u.broken {
      assert u.threads[step.t] == s.threads[step.t];
    } else if step.Release? {
      TotalOne(s.threads[step.t].pc.got[0], f);
    }
  }

  /** Entries only move, except for the one each step replaces. */
  lemma Moves(cfg: Config, s: State, step: Step, f: Entry -> nat)
    requires Shaped(cfg, s) && Enabled(cfg, s, step)
    ensures Everywhere(Apply(cfg, s, step), f) + Total(Out(s, step), f) == Everywhere(s, f) + Total(In(s, step), f)
  {
    if Callback(step) {
      CallbackMoves(cfg, s, step, f);
    } else if step.Submit? {
      SubmitMoves(cfg, s, step.t, f);
    } else if step.Harvest? {
      HarvestMoves(cfg, s, step.t, f);
    } else if step.Notify? {
      NotifyMoves(cfg, s, step.t, f);
    } else {
      OtherMoves(cfg, s, step, f);
    }
  }

  /**
   Conservation of one pool: each of `all` is in the pool or held by an entry,
   once as often as it is listed there.
   */
  ghost predicate Kept<T(!new)>(s: State, pool: seq<T>, all: seq<T>, holds: T -> Entry -> nat, any: Entry -> nat) {
    && (forall x: T :: multiset(pool)[x] + Everywhere(s, holds(x)) == multiset(all)[x])
    && |pool| + Everywhere(s, any) == |all|
  }

  /** The pool gains what the replaced entry held and loses what its replacement holds. */
  ghost predicate Exchanged<T(!new)>(before: seq<T>, after: seq<T>, exit: seq<Entry>, enter: seq<Entry>,
                                     holds: T -> Entry -> nat, any: Entry -> nat)
  {
    && (forall x: T :: multiset(after)[x] + Total(enter, holds(x)) == multiset(before)[x] + Total(exit, holds(x)))
    && |after| + Total(enter, any) == |before| + Total(exit, any)
  }

  lemma StepKeeps<T(!new)>(cfg: Config, s: State, step: Step, before: seq<T>, after: seq<T>, all: seq<T>,
                           holds: T -> Entry -> nat, any: Entry -> nat)
    requires Shaped(cfg, s) && Enabled(cfg, s, step)
    requires Kept(s, before, all, holds, any)
    requires Exchanged(before, after, Out(s, step), In(s, step), holds, any)
    ensures Kept(Apply(cfg, s, step), after, all, holds, any)
  {
    forall x: T
      ensures multiset(after)[x] + Everywhere(Apply(cfg, s, step), holds(x)) == multiset(all)[x]
    {
      Moves(cfg, s, step, holds(x));
    }
    Moves(cfg, s, step, any);
  }

  function First(es: seq<Entry>, f: Entry -> nat): nat {
    if es == [] then 0 else f(es[0])
  }

  lemma FirstIsTotal(es: seq<Entry>, f: Entry -> nat)
    requires |es| <= 1
    ensures Total(es, f) == First(es, f)
  {
    if es != [] {
      assert es == [es[0]];
      TotalOne(es[0], f);
    }
  }

  /** Nothing exchanged: the replaced entry and its replacement hold the same. */
  lemma NothingExchanged<T(!new)>(pool: seq<T>, exit: seq<Entry>, enter: seq<Entry>,
                                  holds: T -> Entry -> nat, any: Entry -> nat)
    requires |exit| <= 1 && |enter| <= 1 && First(exit, any) == First(enter, any)
    requires forall x: T :: First(exit, holds(x)) == First(enter, holds(x))
    ensures Exchanged(pool, pool, exit, enter, holds, any)
  {
    FirstIsTotal(exit, any);
    FirstIsTotal(enter, any);
    forall x: T
      ensures Total(enter, holds(x)) == Total(exit, holds(x))
    {
      FirstIsTotal(exit, holds(x));
      FirstIsTotal(enter, holds(x));
    }
  }

  lemma TakenExchanged<T(!new)>(pool: seq<T>, exit: seq<Entry>, enter: seq<Entry>, holds: T -> Entry -> nat,
                                any: Entry -> nat)
    requires pool != [] && |exit| <= 1 && |enter| == 1
    requires First(exit, any) == 0 && forall x: T :: First(exit, holds(x)) == 0
    requires any(enter[0]) == 1 && forall x: T :: holds(x)(enter[0]) == if x == pool[0] then 1 else 0
    ensures Exchanged(pool, pool[1..], exit, enter, holds, any)
  {
    assert pool == [pool[0]] + pool[1..];
    FirstIsTotal(exit, any);
    FirstIsTotal(enter, any);
    forall x: T
      ensures multiset(pool[1..])[x] + Total(enter, holds(x)) == multiset(pool)[x] + Total(exit, holds(x))
    {
      FirstIsTotal(exit, holds(x));
      FirstIsTotal(enter, holds(x));
    }
  }

  lemma GivenExchanged<T(!new)>(pool: seq<T>, after: seq<T>, y: T, exit: seq<Entry>, enter: seq<Entry>,
                                holds: T -> Entry -> nat, any: Entry -> nat)
    requires after == [y] + pool || after == pool + [y]
    requires |exit| == 1 && |enter| <= 1
    requires First(enter, any) == 0 && forall x: T :: First(enter, holds(x)) == 0
    requires any(exit[0]) == 1 && forall x: T :: holds(x)(exit[0]) == if x == y then 1 else 0
    ensures Exchanged(pool, after, exit, enter, holds, any)
  {
    FirstIsTotal(exit, any);
    FirstIsTotal(enter, any);
    forall x: T
      ensures multiset(after)[x] + Total(enter, holds(x)) == multiset(pool)[x] + Total(exit, holds(x))
    {
      FirstIsTotal(exit, holds(x));
      FirstIsTotal(enter, holds(x));
    }
  }

  // ------------------------------------------------------------ contexts and descriptors

  function KdOf(e: Entry): int { e.kd }
  function VdOf(e: Entry): int { e.vd }
  function CtxOf(e: Entry): int { e.ctx }

  function HasId(g: Entry -> int): nat -> Entry -> nat {
    (k: nat) => (e: Entry) => if g(e) == k then 1 else 0
  }

  function AnyId(g: Entry -> int): Entry -> nat {
    (e: Entry) => if g(e) >= 0 then 1 else 0
  }

  function Slot(es: seq<Entry>, g: Entry -> int): int {
    if es == [] then -1 else g(es[0])
  }

  /** What a step does to one pool of descriptors or contexts: take the first, return one, or nothing. */
  ghost predicate IdTrade(g: Entry -> int, before: seq<nat>, after: seq<nat>, exit: seq<Entry>, enter: seq<Entry>) {
    && |exit| <= 1 && |enter| <= 1
    && var x, y := Slot(exit, g), Slot(enter, g);
    || (x == -1 && before != [] && enter != [] && y == before[0] && after == before[1..])
    || (x >= 0 && exit != [] && y == -1 && after == before + [x])
    || (x == y && after == before)
  }

  lemma IdsExchanged(g: Entry -> int, before: seq<nat>, after: seq<nat>, exit: seq<Entry>, enter: seq<Entry>)
    requires IdTrade(g, before, after, exit, enter)
    ensures Exchanged(before, after, exit, enter, HasId(g), AnyId(g))
  {
    var x, y := Slot(exit, g), Slot(enter, g);
    if x == y && after == before {
      NothingExchanged(before, exit, enter, HasId(g), AnyId(g));
    } else if x == -1 {
      TakenExchanged(before, exit, enter, HasId(g), AnyId(g));
    } else {
      GivenExchanged(before, after, x as nat, exit, enter, HasId(g), AnyId(g));
    }
  }

  ghost predicate IdsKept(s: State, g: Entry -> int, pool: seq<nat>) {
    Kept(s, pool, Ids(POOL), HasId(g), AnyId(g))
  }

  lemma KeepsIds(cfg: Config, s: State, step: Step, g: Entry -> int, before: seq<nat>, after: seq<nat>)
    requires Shaped(cfg, s) && Enabled(cfg, s, step) && IdsKept(s, g, before)
    requires IdTrade(g, before, after, Out(s, step), In(s, step))
    ensures IdsKept(Apply(cfg, s, step), g, after)
  {
    IdsExchanged(g, before, after, Out(s, step), In(s, step));
    StepKeeps(cfg, s, step, before, after, Ids(POOL), HasId(g), AnyId(g));
  }

  lemma DescriptorTrades(cfg: Config, s: State, step: Step)
    requires Shaped(cfg, s) && Enabled(cfg, s, step)
    ensures IdTrade(KdOf, s.kds, Apply(cfg, s, step).kds, Out(s, step), In(s, step))
    ensures IdTrade(VdOf, s.vds, Apply(cfg, s, step).vds, Out(s, step), In(s, step))
  {
  }

  lemma ContextTrades(cfg: Config, s: State, step: Step)
    requires Shaped(cfg, s) && Enabled(cfg, s, step)
    ensures IdTrade(CtxOf, s.ctxs, Apply(cfg, s, step).ctxs, Out(s, step), In(s, step))
  {
  }

  // ------------------------------------------------------------------------- blocks

  function KeyOf(e: Entry): Block { e.key }
  function ValueOf(e: Entry): Block { e.value }

  function HasBlock(t: nat, g: Entry -> Block): Block -> Entry -> nat {
    (b: Block) => (e: Entry) => if e.tid == t && !e.spent && g(e) == b then 1 else 0
  }

  function Unspent(t: nat): Entry -> nat {
    (e: Entry) => if e.tid == t && !e.spent then 1 else 0
  }

  function Holding(es: seq<Entry>, t: nat, g: Entry -> Block): set<Block> {
    if es != [] && es[0].tid == t && !es[0].spent then {g(es[0])} else {}
  }

  /** What a step does to a pool of thread t: allocate the first block, give one back, or nothing. */
  ghost predicate BlockTrade(t: nat, g: Entry -> Block, before: seq<Block>, after: seq<Block>, exit: seq<Entry>,
                             enter: seq<Entry>)
  {
    && |exit| <= 1 && |enter| <= 1
    && var x, y := Holding(exit, t, g), Holding(enter, t, g);
    || (x == {} && before != [] && y == {before[0]} && after == before[1..])
    || (x != {} && y == {} && after == [g(exit[0])] + before)
    || (x == y && after == before)
  }

  lemma BlocksExchanged(t: nat, g: Entry -> Block, before: seq<Block>, after: seq<Block>, exit: seq<Entry>,
                        enter: seq<Entry>)
    requires BlockTrade(t, g, before, after, exit, enter)
    ensures Exchanged(before, after, exit, enter, HasBlock(t, g), Unspent(t))
  {
    var x, y := Holding(exit, t, g), Holding(enter, t, g);
    if x == y && after == before {
      NothingExchanged(before, exit, enter, HasBlock(t, g), Unspent(t));
    } else if x == {} {
      TakenExchanged(before, exit, enter, HasBlock(t, g), Unspent(t));
    } else {
      GivenExchanged(before, after, g(exit[0]), exit, enter, HasBlock(t, g), Unspent(t));
    }
  }

  ghost predicate BlocksKept(s: State, t: nat, g: Entry -> Block, pool: seq<Block>, n: nat) {
    Kept(s, pool, Blocks(t, n), HasBlock(t, g), Unspent(t))
  }

  lemma KeepsBlocks(cfg: Config, s: State, step: Step, t: nat, g: Entry -> Block, before: seq<Block>,
                    after: seq<Block>, n: nat)
    requires Shaped(cfg, s) && Enabled(cfg, s, step) && BlocksKept(s, t, g, before, n)
    requires BlockTrade(t, g, before, after, Out(s, step), In(s, step))
    ensures BlocksKept(Apply(cfg, s, step), t, g, after, n)
  {
    BlocksExchanged(t, g, before, after, Out(s, step), In(s, step));
    StepKeeps(cfg, s, step, before, after, Blocks(t, n), HasBlock(t, g), Unspent(t));
  }

  lemma PoolTrades(cfg: Config, s: State, step: Step, t: nat)
    requires Shaped(cfg, s) && Enabled(cfg, s, step) && t < |s.threads|
    ensures var u := Apply(cfg, s, step); |u.threads| == |s.threads|
    ensures var u := Apply(cfg, s, step);
            BlockTrade(t, KeyOf, s.threads[t].keyFree, u.threads[t].keyFree, Out(s, step), In(s, step))
    ensures var u := Apply(cfg, s, step);
            BlockTrade(t, ValueOf, s.threads[t].valueFree, u.threads[t].valueFree, Out(s, step), In(s, step))
  {
  }

  // -------------------------------------------------------------------- queue depth

  function IsOf(t: nat): Entry -> nat {
    (e: Entry) => if e.tid == t then 1 else 0
  }

  /** The operation under way that `cur_qdepth` does not count yet. */
  function Starting(pc: Pc): int {
    if pc.Created? || pc.Submitting? || pc.Submitted? then 1 else 0
  }

  /** The contexts released that `cur_qdepth` still counts. */
  function Gone(pc: Pc): int {
    if pc.Releasing? then pc.nr - |pc.got| else 0
  }

  function Level(th: Thread): int {
    th.q + Starting(th.pc) - Gone(th.pc)
  }

  /** `cur_qdepth` stays within the queue depth, and covers what is being harvested. */
  predicate DepthBounded(cfg: Config, th: Thread) {
    && 0 <= th.q && th.q + Starting(th.pc) <= cfg.depth
    && (th.pc.Notifying? ==> |th.pc.got| <= th.q)
    && (th.pc.Releasing? ==> th.pc.nr <= th.q)
    && (th.pc.Finished? ==> th.q == 0)
  }

  /** `cur_qdepth` counts the entries of its thread. */
  ghost predicate Counted(cfg: Config, s: State, t: nat)
    requires t < |s.threads|
  {
    Everywhere(s, IsOf(t)) == Level(s.threads[t]) && DepthBounded(cfg, s.threads[t])
  }

  lemma KeepsDepth(cfg: Config, s: State, step: Step, t: nat)
    requires Shaped(cfg, s) && Enabled(cfg, s, step) && t < |s.threads| && DepthBounded(cfg, s.threads[t])
    requires !Apply(cfg, s, step).broken
    ensures |Apply(cfg, s, step).threads| == |s.threads| && DepthBounded(cfg, Apply(cfg, s, step).threads[t])
  {
    if step == Harvest(t) {
      HarvestBounded(s.done, s.threads[t].q, ByTid(t));
    }
  }

  lemma DepthTrade(cfg: Config, s: State, step: Step, t: nat)
    requires Shaped(cfg, s) && Enabled(cfg, s, step) && t < |s.threads| && !Apply(cfg, s, step).broken
    ensures |Apply(cfg, s, step).threads| == |s.threads|
    ensures |Out(s, step)| <= 1 && |In(s, step)| <= 1
    ensures First(Out(s, step), IsOf(t)) + Level(Apply(cfg, s, step).threads[t])
         == First(In(s, step), IsOf(t)) + Level(s.threads[t])
  {
  }

  lemma KeepsCounted(cfg: Config, s: State, step: Step, t: nat)
    requires Shaped(cfg, s) && Enabled(cfg, s, step) && t < |s.threads| && Counted(cfg, s, t)
    requires !Apply(cfg, s, step).broken
    ensures t < |Apply(cfg, s, step).threads| && Counted(cfg, Apply(cfg, s, step), t)
  {
    KeepsDepth(cfg, s, step, t);
    DepthTrade(cfg, s, step, t);
    Moves(cfg, s, step, IsOf(t));
    FirstIsTotal(Out(s, step), IsOf(t));
    FirstIsTotal(In(s, step), IsOf(t));
  }

  // ---------------------------------------------------------------------- documents

  /** The document counter of thread t after n documents. */
  function Counter(cfg: Config, t: nat, n: nat): nat {
    t * cfg.batch + Times(n, cfg.threads * cfg.batch)
  }

  /** How many of its first k documents thread t gets to: those below `docs`. */
  function Room(cfg: Config, t: nat, k: nat): nat {
    if k == 0 then 0 else if Counter(cfg, t, k - 1) < cfg.docs then k else Room(cfg, t, k - 1)
  }

  lemma {:induction false} RoomExact(cfg: Config, t: nat, k: nat, j: nat)
    requires j < k
    ensures Room(cfg, t, k) <= k && (j < Room(cfg, t, k) <==> Counter(cfg, t, j) < cfg.docs)
    decreases k
  {
    TimesMonotone(j, k - 1, cfg.threads * cfg.batch);
    if Counter(cfg, t, k - 1) >= cfg.docs {
      if j < k - 1 {
        RoomExact(cfg, t, k - 1, j);
      } else if k > 1 {
        RoomExact(cfg, t, k - 1, 0);
      }
    }
  }

  /** Of the numbers t * batch, t * batch + threads * batch, ..., the first `Room` are below `docs`. */
  lemma RoomCounts(cfg: Config, t: nat, k: nat, j: nat)
    requires j < k
    ensures Room(cfg, t, k) <= k
    ensures j < Room(cfg, t, k) <==> t * cfg.batch + j * (cfg.threads * cfg.batch) < cfg.docs
  {
    RoomExact(cfg, t, k, j);
    TimesIsProduct(j, cfg.threads * cfg.batch);
  }

  /** n documents were submitted; the last one begun is below `docs`. */
  predicate MadeBy(cfg: Config, t: nat, th: Thread, n: nat) {
    && th.c == Counter(cfg, t, n) && th.q <= n
    && (n + Starting(th.pc) > 0 ==> Counter(cfg, t, n + Starting(th.pc) - 1) < cfg.docs)
  }

  ghost predicate Made(cfg: Config, t: nat, th: Thread) {
    exists n: nat :: MadeBy(cfg, t, th, n)
  }

  lemma KeepsMade(cfg: Config, s: State, step: Step, t: nat)
    requires Shaped(cfg, s) && Enabled(cfg, s, step) && t < |s.threads| && !Apply(cfg, s, step).broken
    requires DepthBounded(cfg, s.threads[t]) && Made(cfg, t, s.threads[t])
    ensures t < |Apply(cfg, s, step).threads| && Made(cfg, t, Apply(cfg, s, step).threads[t])
  {
    var n: nat :| MadeBy(cfg, t, s.threads[t], n);
    assert MadeBy(cfg, t, Apply(cfg, s, step).threads[t], if step == Bump(t) then n + 1 else n);
  }

  /** A thread never has more operations under way than it has documents and queue slots. */
  lemma LevelFits(cfg: Config, t: nat, th: Thread)
    requires DepthBounded(cfg, th) && Made(cfg, t, th) && (th.pc.Releasing? ==> |th.pc.got| <= th.pc.nr)
    ensures Level(th) <= Room(cfg, t, cfg.depth)
  {
    var n: nat :| MadeBy(cfg, t, th, n);
    if Level(th) > 0 {
      TimesMonotone(Level(th) - 1, n + Starting(th.pc) - 1, cfg.threads * cfg.batch);
      RoomExact(cfg, t, cfg.depth, Level(th) - 1);
    }
  }

  ghost predicate ThreadKept(cfg: Config, s: State, t: nat)
    requires t < |s.threads|
  {
    && Counted(cfg, s, t) && Made(cfg, t, s.threads[t])
    && BlocksKept(s, t, KeyOf, s.threads[t].keyFree, cfg.keys)
    && BlocksKept(s, t, ValueOf, s.threads[t].valueFree, cfg.values)
  }

  ghost predicate SharedKept(s: State) {
    IdsKept(s, KdOf, s.kds) && IdsKept(s, VdOf, s.vds) && IdsKept(s, CtxOf, s.ctxs)
  }

  ghost predicate Inv(cfg: Config, s: State) {
    Shaped(cfg, s) && SharedKept(s) && forall t: nat :: t < |s.threads| ==> ThreadKept(cfg, s, t)
  }

  lemma KeepsShared(cfg: Config, s: State, step: Step)
    requires Shaped(cfg, s) && Enabled(cfg, s, step) && SharedKept(s)
    ensures SharedKept(Apply(cfg, s, step))
  {
    var u := Apply(cfg, s, step);
    DescriptorTrades(cfg, s, step);
    ContextTrades(cfg, s, step);
    KeepsIds(cfg, s, step, KdOf, s.kds, u.kds);
    KeepsIds(cfg, s, step, VdOf, s.vds, u.vds);
    KeepsIds(cfg, s, step, CtxOf, s.ctxs, u.ctxs);
  }

  lemma KeepsThread(cfg: Config, s: State, step: Step, t: nat)
    requires Shaped(cfg, s) && Enabled(cfg, s, step) && t < |s.threads| && ThreadKept(cfg, s, t)
    requires !Apply(cfg, s, step).broken
    ensures t < |Apply(cfg, s, step).threads| && ThreadKept(cfg, Apply(cfg, s, step), t)
  {
    var u := Apply(cfg, s, step);
    PoolTrades(cfg, s, step, t);
    KeepsBlocks(cfg, s, step, t, KeyOf, s.threads[t].keyFree, u.threads[t].keyFree, cfg.keys);
    KeepsBlocks(cfg, s, step, t, ValueOf, s.threads[t].valueFree, u.threads[t].valueFree, cfg.values);
    KeepsCounted(cfg, s, step, t);
    KeepsMade(cfg, s, step, t);
  }

  lemma KeepsInv(cfg: Config, s: State, step: Step)
    requires Inv(cfg, s) && Enabled(cfg, s, step) && !Apply(cfg, s, step).broken
    ensures Inv(cfg, Apply(cfg, s, step))
  {
    KeepsShaped(cfg, s, step);
    KeepsShared(cfg, s, step);
    var u := Apply(cfg, s, step);
    forall t: nat | t < |u.threads|
      ensures ThreadKept(cfg, u, t)
    {
      KeepsThread(cfg, s, step, t);
    }
  }

  lemma InitNothing(cfg: Config, f: Entry -> nat)
    ensures Everywhere(Init(cfg), f) == 0
  {
    TotalZero(Init(cfg).threads, Of(f));
  }

  lemma InitKept<T(!new)>(cfg: Config, all: seq<T>, holds: T -> Entry -> nat, any: Entry -> nat)
    ensures Kept(Init(cfg), all, all, holds, any)
  {
    forall x: T
      ensures Everywhere(Init(cfg), holds(x)) == 0
    {
      InitNothing(cfg, holds(x));
    }
    InitNothing(cfg, any);
  }

  lemma InitShared(cfg: Config)
    ensures SharedKept(Init(cfg))
  {
    InitKept(cfg, Ids(POOL), HasId(KdOf), AnyId(KdOf));
    InitKept(cfg, Ids(POOL), HasId(VdOf), AnyId(VdOf));
    InitKept(cfg, Ids(POOL), HasId(CtxOf), AnyId(CtxOf));
  }

  lemma InitThread(cfg: Config, t: nat)
    requires t < cfg.threads
    ensures ThreadKept(cfg, Init(cfg), t)
  {
    InitNothing(cfg, IsOf(t));
    assert MadeBy(cfg, t, Init(cfg).threads[t], 0);
    InitKept(cfg, Blocks(t, cfg.keys), HasBlock(t, KeyOf), Unspent(t));
    InitKept(cfg, Blocks(t, cfg.values), HasBlock(t, ValueOf), Unspent(t));
  }

  lemma InitInv(cfg: Config)
    ensures Inv(cfg, Init(cfg))
  {
    InitShared(cfg);
    forall t: nat | t < |Init(cfg).threads|
      ensures ThreadKept(cfg, Init(cfg), t)
    {
      InitThread(cfg, t);
    }
  }

  // ------------------------------------------------------------ what follows from it

  /** Two counts that agree on every entry there is agree everywhere. */
  lemma EverywhereSame(s: State, f: Entry -> nat, g: Entry -> nat)
    requires forall i :: 0 <= i < |s.flights| ==> f(s.flights[i]) == g(s.flights[i])
    requires forall i :: 0 <= i < |s.done| ==> f(s.done[i]) == g(s.done[i])
    requires forall u :: 0 <= u < |s.threads| ==> Of(f)(s.threads[u]) == Of(g)(s.threads[u])
    ensures Everywhere(s, f) == Everywhere(s, g)
  {
    TotalSame(s.flights, f, g);
    TotalSame(s.done, f, g);
    TotalSame(s.threads, Of(f), Of(g));
  }

  lemma CarriesSame(cfg: Config, u: nat, th: Thread, t: nat)
    requires Carrying(cfg, u, th.pc) && (u == t ==> !th.pc.Notifying? && !th.pc.Releasing?)
    ensures Of(Unspent(t))(th) == Of(IsOf(t))(th)
  {
    TotalSame(Carries(th.pc), Unspent(t), IsOf(t));
  }

  /** Unless it is handing blocks back, a thread's entries all hold their blocks. */
  lemma AllUnspent(cfg: Config, s: State, t: nat)
    requires Shaped(cfg, s) && t < |s.threads| && !s.threads[t].pc.Notifying? && !s.threads[t].pc.Releasing?
    ensures Everywhere(s, Unspent(t)) == Everywhere(s, IsOf(t))
  {
    forall u | 0 <= u < |s.threads|
      ensures Of(Unspent(t))(s.threads[u]) == Of(IsOf(t))(s.threads[u])
    {
      CarriesSame(cfg, u, s.threads[u], t);
    }
    EverywhereSame(s, Unspent(t), IsOf(t));
  }

  /** At the head of its loop a thread has exactly `cur_qdepth` blocks of each pool out, at most the queue depth. */
  lemma DepthAtLoopHead(cfg: Config, s: State, t: nat)
    requires Inv(cfg, s) && t < |s.threads| && s.threads[t].pc.Filling?
    ensures 0 <= s.threads[t].q <= cfg.depth
    ensures cfg.keys - |s.threads[t].keyFree| == s.threads[t].q
    ensures cfg.values - |s.threads[t].valueFree| == s.threads[t].q
  {
    assert ThreadKept(cfg, s, t);
    AllUnspent(cfg, s, t);
  }

  // ------------------------------------------------------------- blocks go home once

  lemma {:induction false} BlocksOnce(owner: nat, n: nat, b: Block)
    ensures multiset(Blocks(owner, n))[b] == if b.owner == owner && b.index < n then 1 else 0
    decreases n
  {
    if n > 0 {
      BlocksOnce(owner, n - 1, b);
      assert Blocks(owner, n) == Blocks(owner, n - 1) + [Block(owner, n - 1)];
    }
  }

  lemma HeldIsOwn(s: State, t: nat, g: Entry -> Block, pool: seq<Block>, n: nat, j: nat)
    requires t < |s.threads| && s.threads[t].pc.Notifying? && j < |s.threads[t].pc.got|
    requires BlocksKept(s, t, g, pool, n)
    requires var e := s.threads[t].pc.got[j]; e.tid == t && !e.spent
    ensures var b := g(s.threads[t].pc.got[j]); b.owner == t && b.index < n && b !in pool
  {
    var got := s.threads[t].pc.got;
    var b := g(got[j]);
    BlocksOnce(t, n, b);
    TotalAtLeast(got, HasBlock(t, g)(b), j);
    TotalAtLeast(s.threads, Of(HasBlock(t, g)(b)), t);
    assert multiset(pool)[b] + Everywhere(s, HasBlock(t, g)(b)) == multiset(Blocks(t, n))[b];
    assert HasBlock(t, g)(b)(got[j]) == 1;
    assert b in pool ==> multiset(pool)[b] >= 1;
  }

  /**
   The blocks a thread is about to deallocate were allocated from its own pools
   and are not in them already.
   */
  lemma BlocksGoHome(cfg: Config, s: State, t: nat)
    requires Inv(cfg, s) && t < |s.threads|
    requires s.threads[t].pc.Notifying? && s.threads[t].pc.j < |s.threads[t].pc.got|
    ensures var e := s.threads[t].pc.got[s.threads[t].pc.j];
            && e.tid == t
            && e.key.owner == t && e.key.index < cfg.keys && e.key !in s.threads[t].keyFree
            && e.value.owner == t && e.value.index < cfg.values && e.value !in s.threads[t].valueFree
  {
    assert ThreadKept(cfg, s, t) && Carrying(cfg, t, s.threads[t].pc);
    HeldIsOwn(s, t, KeyOf, s.threads[t].keyFree, cfg.keys, s.threads[t].pc.j);
    HeldIsOwn(s, t, ValueOf, s.threads[t].valueFree, cfg.values, s.threads[t].pc.j);
  }

  lemma NothingOut(s: State, t: nat, g: Entry -> Block, pool: seq<Block>, n: nat)
    requires BlocksKept(s, t, g, pool, n) && Everywhere(s, Unspent(t)) == 0
    ensures multiset(pool) == multiset(Blocks(t, n))
  {
    forall b: Block
      ensures multiset(pool)[b] == multiset(Blocks(t, n))[b]
    {
      var f := HasBlock(t, g)(b);
      TotalAtMost(s.flights, f, Unspent(t));
      TotalAtMost(s.done, f, Unspent(t));
      forall u | 0 <= u < |s.threads|
        ensures Of(f)(s.threads[u]) <= Of(Unspent(t))(s.threads[u])
      {
        TotalAtMost(Carries(s.threads[u].pc), f, Unspent(t));
      }
      TotalAtMost(s.threads, Of(f), Of(Unspent(t)));
      assert multiset(pool)[b] + Everywhere(s, f) == multiset(Blocks(t, n))[b];
    }
  }

  /** A finished thread has every block of both its pools back. */
  lemma DrainReturnsAll(cfg: Config, s: State, t: nat)
    requires Inv(cfg, s) && t < |s.threads| && s.threads[t].pc.Finished?
    ensures multiset(s.threads[t].keyFree) == multiset(Blocks(t, cfg.keys))
    ensures multiset(s.threads[t].valueFree) == multiset(Blocks(t, cfg.values))
  {
    assert ThreadKept(cfg, s, t);
    AllUnspent(cfg, s, t);
    NothingOut(s, t, KeyOf, s.threads[t].keyFree, cfg.keys);
    NothingOut(s, t, ValueOf, s.threads[t].valueFree, cfg.values);
  }

  // --------------------------------------------------------------- no pool runs dry

  function Below(n: nat): Entry -> nat {
    (e: Entry) => if e.tid < n then 1 else 0
  }

  lemma EverywhereSplit(s: State, f: Entry -> nat, g: Entry -> nat, h: Entry -> nat)
    requires forall e: Entry :: f(e) == g(e) + h(e)
    ensures Everywhere(s, f) == Everywhere(s, g) + Everywhere(s, h)
  {
    TotalSplit(s.flights, f, g, h);
    TotalSplit(s.done, f, g, h);
    forall u | 0 <= u < |s.threads|
      ensures Of(f)(s.threads[u]) == Of(g)(s.threads[u]) + Of(h)(s.threads[u])
    {
      TotalSplit(Carries(s.threads[u].pc), f, g, h);
    }
    TotalSplit(s.threads, Of(f), Of(g), Of(h));
  }

  lemma EverywhereNone(s: State, f: Entry -> nat)
    requires forall e: Entry :: f(e) == 0
    ensures Everywhere(s, f) == 0
  {
    TotalZero(s.flights, f);
    TotalZero(s.done, f);
    forall u | 0 <= u < |s.threads|
      ensures Of(f)(s.threads[u]) == 0
    {
      TotalZero(Carries(s.threads[u].pc), f);
    }
    TotalZero(s.threads, Of(f));
  }

  /** The operations thread t can have out at once, for the first n threads together. */
  function Capacity(cfg: Config, n: nat): nat {
    if n == 0 then 0 else Capacity(cfg, n - 1) + Room(cfg, n - 1, cfg.depth)
  }

  lemma {:induction false} EntriesBounded(cfg: Config, s: State, n: nat)
    requires forall t: nat :: t < n ==> Everywhere(s, IsOf(t)) <= Room(cfg, t, cfg.depth)
    ensures Everywhere(s, Below(n)) <= Capacity(cfg, n)
    decreases n
  {
    if n == 0 {
      EverywhereNone(s, Below(0));
    } else {
      var m: nat := n - 1;
      EntriesBounded(cfg, s, m);
      EverywhereSplit(s, Below(n), Below(m), IsOf(m));
    }
  }

  /** Every entry belongs to some thread, so it counts. */
  lemma CountsAtMostOne(cfg: Config, u: nat, th: Thread, g: Entry -> int)
    requires Carrying(cfg, u, th.pc) && u < cfg.threads
    ensures Of(AnyId(g))(th) <= Of(Below(cfg.threads))(th)
  {
    TotalAtMost(Carries(th.pc), AnyId(g), Below(cfg.threads));
  }

  lemma FewerThanEntries(cfg: Config, s: State, g: Entry -> int)
    requires Shaped(cfg, s)
    ensures Total(s.flights, AnyId(g)) <= Total(s.flights, Below(cfg.threads))
    ensures Total(s.done, AnyId(g)) <= Total(s.done, Below(cfg.threads))
    ensures forall u: nat :: u < |s.threads| ==> Of(AnyId(g))(s.threads[u]) <= Of(Below(cfg.threads))(s.threads[u])
    ensures Total(s.threads, Of(AnyId(g))) <= Total(s.threads, Of(Below(cfg.threads)))
  {
    TotalAtMost(s.flights, AnyId(g), Below(cfg.threads));
    TotalAtMost(s.done, AnyId(g), Below(cfg.threads));
    forall u: nat | u < |s.threads|
      ensures Of(AnyId(g))(s.threads[u]) <= Of(Below(cfg.threads))(s.threads[u])
    {
      CountsAtMostOne(cfg, u, s.threads[u], g);
    }
    TotalAtMost(s.threads, Of(AnyId(g)), Of(Below(cfg.threads)));
  }

  /** A descriptor is left for an operation about to take one. */
  lemma DescriptorLeft(cfg: Config, s: State, t: nat, g: Entry -> int, pool: seq<nat>)
    requires Inv(cfg, s) && Everywhere(s, Below(cfg.threads)) <= POOL && IdsKept(s, g, pool)
    requires t < |s.threads| && s.threads[t].pc.Created? && g(s.threads[t].pc.e) < 0
    ensures pool != []
  {
    FewerThanEntries(cfg, s, g);
    var e := s.threads[t].pc.e;
    TotalOne(e, AnyId(g));
    TotalOne(e, Below(cfg.threads));
    TotalLess(s.threads, Of(AnyId(g)), Of(Below(cfg.threads)), t);
  }

  /** A context is left for an operation about to take one. */
  lemma ContextLeft(cfg: Config, s: State, i: nat)
    requires Inv(cfg, s) && Everywhere(s, Below(cfg.threads)) <= POOL && i < |s.flights| && s.flights[i].ctx == -1
    ensures s.ctxs != []
  {
    FewerThanEntries(cfg, s, CtxOf);
    TotalLess(s.flights, AnyId(CtxOf), Below(cfg.threads), i);
  }

  /** The operations under way never exceed what the threads can have out. */
  lemma EntriesFit(cfg: Config, s: State)
    requires Inv(cfg, s)
    ensures Everywhere(s, Below(cfg.threads)) <= Capacity(cfg, cfg.threads)
  {
    forall t: nat | t < cfg.threads
      ensures Everywhere(s, IsOf(t)) <= Room(cfg, t, cfg.depth)
    {
      assert ThreadKept(cfg, s, t) && Carrying(cfg, t, s.threads[t].pc);
      LevelFits(cfg, t, s.threads[t]);
    }
    EntriesBounded(cfg, s, cfg.threads);
  }

  /** While at most as many operations are under way as there are descriptors, no step pops an empty pool. */
  lemma StepSafe(cfg: Config, s: State, step: Step)
    requires Inv(cfg, s) && Accepted(cfg) && Everywhere(s, Below(cfg.threads)) <= POOL && Enabled(cfg, s, step)
    ensures !Apply(cfg, s, step).broken
  {
    match step
    case Create(t) =>
      assert ThreadKept(cfg, s, t);
      AllUnspent(cfg, s, t);
    case Take(t) =>
      DescriptorLeft(cfg, s, t, KdOf, s.kds);
      DescriptorLeft(cfg, s, t, VdOf, s.vds);
    case Pick(i) => ContextLeft(cfg, s, i);
    case _ =>
  }

  /** The shared queues run dry exactly when all their elements are held by operations under way. */
  lemma DryExactly(cfg: Config, s: State)
    requires Inv(cfg, s)
    ensures s.kds == [] <==> Everywhere(s, AnyId(KdOf)) == POOL
    ensures s.vds == [] <==> Everywhere(s, AnyId(VdOf)) == POOL
    ensures s.ctxs == [] <==> Everywhere(s, AnyId(CtxOf)) == POOL
  {
  }

  lemma HasContext(e: Entry)
    ensures AnyId(CtxOf)(e) == if e.ctx >= 0 then 1 else 0
  {
    assert CtxOf(e) == e.ctx;
  }

  /** Idle, in callbacks, completed and harvested contexts always make up the whole pool. */
  lemma ContextsConserved(cfg: Config, s: State)
    requires Inv(cfg, s)
    ensures |s.ctxs| + Total(s.flights, AnyId(CtxOf)) + |s.done| + Total(s.threads, Of(AnyId(CtxOf))) == POOL
    ensures forall k: nat ::
              multiset(s.ctxs)[k] + Everywhere(s, HasId(CtxOf)(k)) == if k < POOL then 1 else 0
  {
    forall i | 0 <= i < |s.done|
      ensures AnyId(CtxOf)(s.done[i]) == 1
    {
      assert Complete(cfg, s.done[i]);
      HasContext(s.done[i]);
    }
    AllCount(s.done, AnyId(CtxOf));
    forall k: nat
      ensures multiset(s.ctxs)[k] + Everywhere(s, HasId(CtxOf)(k)) == if k < POOL then 1 else 0
    {
      IdsOnce(POOL, k);
      assert multiset(s.ctxs)[k] + Everywhere(s, HasId(CtxOf)(k)) == multiset(Ids(POOL))[k];
    }
  }

  lemma {:induction false} AllCount(es: seq<Entry>, f: Entry -> nat)
    requires forall i :: 0 <= i < |es| ==> f(es[i]) == 1
    ensures Total(es, f) == |es|
    decreases |es|
  {
    if es != [] {
      AllCount(es[1..], f);
    }
  }

  lemma {:induction false} IdsOnce(n: nat, k: nat)
    ensures multiset(Ids(n))[k] == if k < n then 1 else 0
    decreases n
  {
    if n > 0 {
      IdsOnce(n - 1, k);
      assert Ids(n) == Ids(n - 1) + [n - 1];
    }
  }

  // ------------------------------------------------------------------- who holds what

  /** Nobody holds k, except perhaps the flight at i and thread t. */
  ghost predicate Spares(s: State, g: Entry -> int, k: nat, i: int, t: int) {
    && (forall j :: 0 <= j < |s.flights| && j != i ==> g(s.flights[j]) != k)
    && (forall j :: 0 <= j < |s.done| ==> g(s.done[j]) != k)
    && (forall u, j :: 0 <= u < |s.threads| && u != t && 0 <= j < |Carries(s.threads[u].pc)| ==>
          g(Carries(s.threads[u].pc)[j]) != k)
  }

  lemma CountsOnce(s: State, g: Entry -> int, pool: seq<nat>, k: nat)
    requires IdsKept(s, g, pool)
    ensures multiset(pool)[k] + Everywhere(s, HasId(g)(k)) == if k < POOL then 1 else 0
  {
    IdsOnce(POOL, k);
    assert multiset(pool)[k] + Everywhere(s, HasId(g)(k)) == multiset(Ids(POOL))[k];
  }

  lemma NoneOfThese(es: seq<Entry>, g: Entry -> int, k: nat)
    requires Total(es, HasId(g)(k)) == 0
    ensures forall j :: 0 <= j < |es| ==> g(es[j]) != k
  {
    TotalZero(es, HasId(g)(k));
    forall j | 0 <= j < |es|
      ensures g(es[j]) != k
    {
      assert HasId(g)(k)(es[j]) == 0;
    }
  }

  lemma NoneOfTheThreads(s: State, g: Entry -> int, k: nat, t: int)
    requires forall u :: 0 <= u < |s.threads| && u != t ==> Of(HasId(g)(k))(s.threads[u]) == 0
    ensures forall u, j :: 0 <= u < |s.threads| && u != t && 0 <= j < |Carries(s.threads[u].pc)| ==>
              g(Carries(s.threads[u].pc)[j]) != k
  {
    forall u, j | 0 <= u < |s.threads| && u != t && 0 <= j < |Carries(s.threads[u].pc)|
      ensures g(Carries(s.threads[u].pc)[j]) != k
    {
      assert Of(HasId(g)(k))(s.threads[u]) == Total(Carries(s.threads[u].pc), HasId(g)(k));
      NoneOfThese(Carries(s.threads[u].pc), g, k);
    }
  }

  /** What is in the pool is held by nobody. */
  lemma PooledIsSpare(s: State, g: Entry -> int, pool: seq<nat>, k: nat)
    requires IdsKept(s, g, pool) && k in pool
    ensures k < POOL && Spares(s, g, k, -1, -1)
  {
    CountsOnce(s, g, pool, k);
    assert multiset(pool)[k] >= 1;
    NoneOfThese(s.flights, g, k);
    NoneOfThese(s.done, g, k);
    TotalZero(s.threads, Of(HasId(g)(k)));
    NoneOfTheThreads(s, g, k, -1);
  }

  /** What a flight holds nobody else does. */
  lemma FlightHolds(s: State, g: Entry -> int, pool: seq<nat>, k: nat, i: nat)
    requires IdsKept(s, g, pool) && i < |s.flights| && g(s.flights[i]) == k
    ensures k < POOL && Spares(s, g, k, i, -1)
  {
    var f := HasId(g)(k);
    CountsOnce(s, g, pool, k);
    assert f(s.flights[i]) == 1;
    TotalAtLeast(s.flights, f, i);
    OnlyOne(s.flights, f, i);
    forall j | 0 <= j < |s.flights| && j != i
      ensures g(s.flights[j]) != k
    {
      assert f(s.flights[j]) == 0;
    }
    NoneOfThese(s.done, g, k);
    TotalZero(s.threads, Of(f));
    NoneOfTheThreads(s, g, k, -1);
  }

  /** What a thread holds nobody else does. */
  lemma ThreadHolds(s: State, g: Entry -> int, pool: seq<nat>, k: nat, t: nat)
    requires IdsKept(s, g, pool) && t < |s.threads|
    requires |Carries(s.threads[t].pc)| > 0 && g(Carries(s.threads[t].pc)[0]) == k
    ensures k < POOL && Spares(s, g, k, -1, t)
  {
    var f := HasId(g)(k);
    CountsOnce(s, g, pool, k);
    assert f(Carries(s.threads[t].pc)[0]) == 1;
    TotalAtLeast(Carries(s.threads[t].pc), f, 0);
    TotalAtLeast(s.threads, Of(f), t);
    assert Of(f)(s.threads[t]) == 1;
    OnlyOne(s.threads, Of(f), t);
    NoneOfTheThreads(s, g, k, t);
    NoneOfThese(s.flights, g, k);
    NoneOfThese(s.done, g, k);
  }

  lemma DoneHolds(s: State, g: Entry -> int, pool: seq<nat>, k: nat, i: nat)
    requires IdsKept(s, g, pool) && i < |s.done| && g(s.done[i]) == k
    ensures k < POOL
  {
    CountsOnce(s, g, pool, k);
    assert HasId(g)(k)(s.done[i]) == 1;
    TotalAtLeast(s.done, HasId(g)(k), i);
  }
}
