/**
 Asynchronous population: the threads of `pop_thread` sharing one `Db`, and the
 completion callbacks, as interleaved steps (`couch_bench.cc`, `couch_kv.cc`).

 Each thread owns a key pool and a value pool, used without a lock.  Contexts and
 descriptors are shared cells: a thread writes its blocks into the descriptors it
 took, the callback copies them from there into the context it took, and the
 thread that harvests the context reads them from it.  Every access to a shared
 queue under `lock_k` is one step, every run of unlocked accesses to cells too.
 The device is the environment: it calls back for submitted operations in any
 order, at any time.
 */
module AsyncIo {
  import opened Completions
  import opened Division
  import opened Sums
  import L = IoLedger

  type Config = L.Config

  /** The cells: `kvs_key`, `kvs_value` and `IoContext` objects. */
  datatype Cells = Cells(key: seq<Block>, value: seq<Block>, ctx: seq<Context>)

  /** A submitted operation: the `kv_bench_data` tid, and which cells it holds (-1 for none). */
  datatype Flight = Flight(tid: nat, kd: int, vd: int, ctx: int, copied: bool)

  datatype Pc =
    | Filling                                            // at the head of the submission loop
    | Created(key: Block, value: Block)                  // has its blocks
    | Taken(kd: nat, vd: nat, key: Block, value: Block)  // has its descriptors too
    | Submitting(kd: nat, vd: nat)                       // has written the blocks into them
    | Submitted                                          // about to count the operation
    | Notifying(got: seq<nat>, j: nat)                   // giving back the blocks of contexts got[j..]
    | Releasing(got: seq<nat>, nr: nat)                  // giving back the contexts got
    | Finished

  /** A thread: document counter `c`, `cur_qdepth`, the free chains of its two pools, and the
      numbers of the documents it has created so far. */
  datatype Thread = Thread(pc: Pc, c: nat, q: int, keyFree: seq<Block>, valueFree: seq<Block>, taken: seq<nat>)

  datatype State = State(
    threads: seq<Thread>,
    flights: seq<Flight>,     // at the device or in a callback
    done: seq<nat>,           // iodone
    ctxs: seq<nat>,           // iocontexts
    kds: seq<nat>,            // kvs_key_pool
    vds: seq<nat>,            // kvs_value_pool
    cells: Cells,
    broken: bool)             // a pool or queue was popped while empty

  datatype Step =
    | Create(t: nat) | Take(t: nat) | Write(t: nat) | Submit(t: nat) | Bump(t: nat)
    | Harvest(t: nat) | Notify(t: nat) | Release(t: nat) | Settle(t: nat) | Finish(t: nat)
    | Pick(i: nat) | Copy(i: nat) | Return(i: nat) | Event(i: nat)

  // ------------------------------------------------------------------------ cells

  function Get<T>(s: seq<T>, k: int, otherwise: T): T {
    if 0 <= k < |s| then s[k] else otherwise
  }

  function Put<T>(s: seq<T>, k: int, x: T): seq<T> {
    if 0 <= k < |s| then s[k := x] else s
  }

  function KeyAt(cells: Cells, k: int): Block {
    Get(cells.key, k, Block(0, 0))
  }

  function ValueAt(cells: Cells, k: int): Block {
    Get(cells.value, k, Block(0, 0))
  }

  function CtxAt(cells: Cells, k: int): Context {
    Get(cells.ctx, k, Context(0, Block(0, 0), Block(0, 0)))
  }

  /** The cells as `open_db` leaves them, with whatever contents. */
  predicate Sized(cells: Cells) {
    |cells.key| == L.POOL && |cells.value| == L.POOL && |cells.ctx| == L.POOL
  }

  function Init(cfg: Config, cells: Cells): State {
    State(seq(cfg.threads, t requires 0 <= t =>
            Thread(Filling, t * cfg.batch, 0, L.Blocks(t, cfg.keys), L.Blocks(t, cfg.values), [])),
          [], [], L.Ids(L.POOL), L.Ids(L.POOL), L.Ids(L.POOL), cells, false)
  }

  // ------------------------------------------------------------------------ steps

  predicate WantsMore(cfg: Config, th: Thread) {
    th.q < cfg.depth && th.c < cfg.docs
  }

  predicate ThreadEnabled(cfg: Config, th: Thread, step: Step) {
    match step
    case Create(_) => th.pc.Filling? && WantsMore(cfg, th)
    case Take(_) => th.pc.Created?
    case Write(_) => th.pc.Taken?
    case Submit(_) => th.pc.Submitting?
    case Bump(_) => th.pc.Submitted?
    case Harvest(_) => th.pc.Filling? && !WantsMore(cfg, th) && th.q > 0
    case Notify(_) => th.pc.Notifying?
    case Release(_) => th.pc.Releasing? && th.pc.got != []
    case Settle(_) => th.pc.Releasing? && th.pc.got == []
    case Finish(_) => th.pc.Filling? && !WantsMore(cfg, th) && th.q <= 0
    case _ => false
  }

  predicate Callback(step: Step) {
    step.Pick? || step.Copy? || step.Return? || step.Event?
  }

  predicate Enabled(cfg: Config, s: State, step: Step) {
    !s.broken &&
    match step
    case Pick(i) => i < |s.flights| && s.flights[i].ctx == -1
    case Copy(i) => i < |s.flights| && s.flights[i].ctx != -1 && !s.flights[i].copied
    case Return(i) => i < |s.flights| && s.flights[i].copied && s.flights[i].kd != -1
    case Event(i) => i < |s.flights| && s.flights[i].copied && s.flights[i].kd == -1
    case _ => step.t < |s.threads| && ThreadEnabled(cfg, s.threads[step.t], step)
  }

  /** `_create_doc` for document `c`: both allocations, which fail only on an empty chain. */
  function CreateDoc(s: State, t: nat): State
    requires t < |s.threads|
  {
    var th := s.threads[t];
    if th.keyFree == [] || th.valueFree == [] then s.(broken := true) else
    s.(threads := s.threads[t := th.(pc := Created(th.keyFree[0], th.valueFree[0]),
                                     keyFree := th.keyFree[1..], valueFree := th.valueFree[1..],
                                     taken := th.taken + [th.c])])
  }

  /** `kvs_store_async`: popping the descriptors. */
  function TakeDescriptors(s: State, t: nat): State
    requires t < |s.threads| && s.threads[t].pc.Created?
  {
    if s.kds == [] || s.vds == [] then s.(broken := true) else
    var th := s.threads[t];
    s.(threads := s.threads[t := th.(pc := Taken(s.kds[0], s.vds[0], th.pc.key, th.pc.value))],
       kds := s.kds[1..], vds := s.vds[1..])
  }

  /** `kvs_store_async`: writing the buffers into the descriptors. */
  function WriteDescriptors(s: State, t: nat): State
    requires t < |s.threads| && s.threads[t].pc.Taken?
  {
    var pc := s.threads[t].pc;
    s.(threads := s.threads[t := s.threads[t].(pc := Submitting(pc.kd, pc.vd))],
       cells := s.cells.(key := Put(s.cells.key, pc.kd, pc.key), value := Put(s.cells.value, pc.vd, pc.value)))
  }

  /** `kvs_store_async`: handing the descriptors and a new `kv_bench_data` to the device. */
  function SubmitToDevice(s: State, t: nat): State
    requires t < |s.threads| && s.threads[t].pc.Submitting?
  {
    var pc := s.threads[t].pc;
    s.(threads := s.threads[t := s.threads[t].(pc := Submitted)],
       flights := s.flights + [Flight(t, pc.kd, pc.vd, -1, false)])
  }

  /** `notify` for one context, or the end of the loop that calls it. */
  function NotifyNext(cells: Cells, th: Thread): Thread
    requires th.pc.Notifying?
  {
    var got, j := th.pc.got, th.pc.j;
    if j < |got| then
      var x := CtxAt(cells, got[j]);
      th.(pc := Notifying(got, j + 1), keyFree := [x.key] + th.keyFree, valueFree := [x.value] + th.valueFree)
    else
      th.(pc := Releasing(got, |got|))
  }

  /** `on_io_complete`: popping a context and writing the tid into it. */
  function TakeContext(s: State, i: nat): State
    requires i < |s.flights|
  {
    if s.ctxs == [] then s.(broken := true) else
    var f, c := s.flights[i], s.ctxs[0];
    s.(flights := s.flights[i := f.(ctx := c)], ctxs := s.ctxs[1..],
       cells := s.cells.(ctx := Put(s.cells.ctx, c, CtxAt(s.cells, c).(tid := f.tid))))
  }

  /** `on_io_complete`: copying the buffers from the descriptors into the context. */
  function CopyBlocks(s: State, i: nat): State
    requires i < |s.flights|
  {
    var f := s.flights[i];
    var x := CtxAt(s.cells, f.ctx).(key := KeyAt(s.cells, f.kd), value := ValueAt(s.cells, f.vd));
    s.(flights := s.flights[i := f.(copied := true)], cells := s.cells.(ctx := Put(s.cells.ctx, f.ctx, x)))
  }

  /** `on_io_complete`: `release_kvskeyvalue`. */
  function ReturnDescriptors(s: State, i: nat): State
    requires i < |s.flights|
  {
    var f := s.flights[i];
    s.(flights := s.flights[i := f.(kd := -1, vd := -1)],
       kds := L.PutBack(s.kds, f.kd), vds := L.PutBack(s.vds, f.vd))
  }

  /** `on_io_complete`: `add_event`. */
  function AddEvent(s: State, i: nat): State
    requires i < |s.flights|
  {
    s.(flights := s.flights[..i] + s.flights[i + 1..],
       done := if s.flights[i].ctx >= 0 then s.done + [s.flights[i].ctx] else s.done)
  }

  function ApplyThread(cfg: Config, s: State, step: Step): State
    requires !Callback(step) && step.t < |s.threads| && ThreadEnabled(cfg, s.threads[step.t], step)
  {
    var t, th := step.t, s.threads[step.t];
    match step
    case Create(_) => CreateDoc(s, t)
    case Take(_) => TakeDescriptors(s, t)
    case Write(_) => WriteDescriptors(s, t)
    case Submit(_) => SubmitToDevice(s, t)
    case Bump(_) =>
      s.(threads := s.threads[t := th.(pc := Filling, q := th.q + 1, c := th.c + cfg.threads * cfg.batch)])
    case Harvest(_) =>
      var mine := TidIs(s.cells.ctx, t);
      s.(threads := s.threads[t := th.(pc := Notifying(Harvested(s.done, th.q, mine), 0))],
         done := Left(s.done, th.q, mine))
    case Notify(_) => s.(threads := s.threads[t := NotifyNext(s.cells, th)])
    case Release(_) =>
      s.(threads := s.threads[t := th.(pc := Releasing(th.pc.got[1..], th.pc.nr))], ctxs := s.ctxs + [th.pc.got[0]])
    case Settle(_) => s.(threads := s.threads[t := th.(pc := Filling, q := th.q - th.pc.nr)])
    case Finish(_) => s.(threads := s.threads[t := th.(pc := Finished)])
  }

  function Apply(cfg: Config, s: State, step: Step): State
    requires Enabled(cfg, s, step)
  {
    match step
    case Pick(i) => TakeContext(s, i)
    case Copy(i) => CopyBlocks(s, i)
    case Return(i) => ReturnDescriptors(s, i)
    case Event(i) => AddEvent(s, i)
    case _ => ApplyThread(cfg, s, step)
  }

  // ----------------------------------------------------------- the ledger behind the cells

  /** A context as an entry of the ledger. */
  function CtxEntry(cells: Cells, c: nat, spent: bool): L.Entry {
    var x := CtxAt(cells, c);
    L.Entry(x.tid, x.key, x.value, -1, -1, c, spent)
  }

  /** An operation at the device or in its callback: where its tid and blocks are to be read. */
  function FlightEntry(cells: Cells, f: Flight): L.Entry {
    var x := CtxAt(cells, f.ctx);
    var tid := if f.ctx >= 0 then x.tid else f.tid;
    if f.copied then L.Entry(tid, x.key, x.value, f.kd, f.vd, f.ctx, false)
    else L.Entry(tid, KeyAt(cells, f.kd), ValueAt(cells, f.vd), f.kd, f.vd, f.ctx, false)
  }

  function GotView(cells: Cells, got: seq<nat>, j: nat): (r: seq<L.Entry>)
    ensures |r| == |got| && forall i :: 0 <= i < |got| ==> r[i] == CtxEntry(cells, got[i], i < j)
  {
    seq(|got|, i requires 0 <= i < |got| => CtxEntry(cells, got[i], i < j))
  }

  function PcView(cells: Cells, t: nat, pc: Pc): L.Pc {
    match pc
    case Filling => L.Filling
    case Created(key, value) => L.Created(L.Entry(t, key, value, -1, -1, -1, false))
    case Taken(kd, vd, key, value) => L.Submitting(L.Entry(t, key, value, kd, vd, -1, false))
    case Submitting(kd, vd) =>
      L.Submitting(L.Entry(t, KeyAt(cells, kd), ValueAt(cells, vd), kd, vd, -1, false))
    case Submitted => L.Submitted
    case Notifying(got, j) => L.Notifying(GotView(cells, got, j), j)
    case Releasing(got, nr) => L.Releasing(GotView(cells, got, |got|), nr)
    case Finished => L.Finished
  }

  function ThreadView(cells: Cells, t: nat, th: Thread): L.Thread {
    L.Thread(PcView(cells, t, th.pc), th.c, th.q, th.keyFree, th.valueFree)
  }

  function ThreadsView(cells: Cells, threads: seq<Thread>): (r: seq<L.Thread>)
    ensures |r| == |threads| && forall t :: 0 <= t < |threads| ==> r[t] == ThreadView(cells, t, threads[t])
  {
    seq(|threads|, t requires 0 <= t < |threads| => ThreadView(cells, t, threads[t]))
  }

  function FlightView(cells: Cells): Flight -> L.Entry {
    (f: Flight) => FlightEntry(cells, f)
  }

  function DoneView(cells: Cells): nat -> L.Entry {
    (c: nat) => CtxEntry(cells, c, false)
  }

  function View(s: State): L.State {
    L.State(ThreadsView(s.cells, s.threads), Seen(s.flights, FlightView(s.cells)), Seen(s.done, DoneView(s.cells)),
            s.ctxs, s.kds, s.vds, s.broken)
  }

  /** The ledger's step for a step; copying between cells is none. */
  predicate Silent(step: Step) {
    step.Write? || step.Copy?
  }

  function LedgerStep(step: Step): L.Step
    requires !Silent(step)
  {
    match step
    case Create(t) => L.Create(t)
    case Take(t) => L.Take(t)
    case Submit(t) => L.Submit(t)
    case Bump(t) => L.Bump(t)
    case Harvest(t) => L.Harvest(t)
    case Notify(t) => L.Notify(t)
    case Release(t) => L.Release(t)
    case Settle(t) => L.Settle(t)
    case Finish(t) => L.Finish(t)
    case Pick(i) => L.Pick(i)
    case Return(i) => L.Return(i)
    case Event(i) => L.Event(i)
  }

  /** The cells are there, and a flight has copied its blocks before it gives its descriptors back. */
  predicate Formed(s: State) {
    && Sized(s.cells)
    && (forall i :: 0 <= i < |s.flights| ==> FlightFormed(s.flights[i]))
  }

  predicate FlightFormed(f: Flight) {
    (f.copied ==> f.ctx >= 0) && (!f.copied ==> f.kd >= 0 && f.vd >= 0) && f.ctx >= -1 && f.kd >= -1
  }

  ghost predicate Inv(cfg: Config, s: State) {
    Formed(s) && L.Inv(cfg, View(s))
  }

  // --------------------------------------------------------------- steps without cell writes

  lemma KeepsFormed(cfg: Config, s: State, step: Step)
    requires Formed(s) && Enabled(cfg, s, step)
    ensures Formed(Apply(cfg, s, step))
  {
  }

  /** The ledger follows a step. */
  ghost predicate Follows(cfg: Config, s: State, step: Step)
    requires Enabled(cfg, s, step) && !Silent(step)
  {
    && L.Enabled(cfg, View(s), LedgerStep(step))
    && View(Apply(cfg, s, step)) == L.Apply(cfg, View(s), LedgerStep(step))
  }

  lemma OneThread(cells: Cells, threads: seq<Thread>, t: nat, th: Thread)
    requires t < |threads|
    ensures ThreadsView(cells, threads[t := th]) == ThreadsView(cells, threads)[t := ThreadView(cells, t, th)]
  {
  }

  lemma LocalFollows(cfg: Config, s: State, step: Step)
    requires Enabled(cfg, s, step)
    requires step.Create? || step.Take? || step.Bump? || step.Settle? || step.Finish?
    ensures Follows(cfg, s, step)
  {
    var u := Apply(cfg, s, step);
    if !u.broken {
      OneThread(s.cells, s.threads, step.t, u.threads[step.t]);
    }
  }

  lemma SubmitFollows(cfg: Config, s: State, t: nat)
    requires Enabled(cfg, s, Submit(t))
    ensures Follows(cfg, s, Submit(t))
  {
    var u := Apply(cfg, s, Submit(t));
    OneThread(s.cells, s.threads, t, u.threads[t]);
    var pc := s.threads[t].pc;
    assert FlightEntry(s.cells, Flight(t, pc.kd, pc.vd, -1, false)) == PcView(s.cells, t, pc).e;
    assert View(u).flights == View(s).flights + [PcView(s.cells, t, pc).e];
  }

  lemma NotifyFollows(cfg: Config, s: State, t: nat)
    requires Enabled(cfg, s, Notify(t))
    ensures Follows(cfg, s, Notify(t))
  {
    var u := Apply(cfg, s, Notify(t));
    OneThread(s.cells, s.threads, t, u.threads[t]);
    var got, j := s.threads[t].pc.got, s.threads[t].pc.j;
    if j < |got| {
      var es := GotView(s.cells, got, j);
      assert GotView(s.cells, got, j + 1) == es[j := es[j].(spent := true)];
    } else {
      assert GotView(s.cells, got, j) == GotView(s.cells, got, |got|);
    }
  }

  lemma ReleaseFollows(cfg: Config, s: State, t: nat)
    requires Enabled(cfg, s, Release(t))
    ensures Follows(cfg, s, Release(t))
  {
    var u := Apply(cfg, s, Release(t));
    OneThread(s.cells, s.threads, t, u.threads[t]);
    var got := s.threads[t].pc.got;
    assert GotView(s.cells, got[1..], |got| - 1) == GotView(s.cells, got, |got|)[1..];
  }

  /** The ledger harvests what the code does, since both go by the tid in the context. */
  lemma HarvestFollows(cfg: Config, s: State, t: nat)
    requires Inv(cfg, s) && Enabled(cfg, s, Harvest(t))
    ensures Follows(cfg, s, Harvest(t))
  {
    var u := Apply(cfg, s, Harvest(t));
    var q, mine := s.threads[t].q, TidIs(s.cells.ctx, t);
    forall i | 0 <= i < |s.done|
      ensures mine(s.done[i]) == L.ByTid(t)(DoneView(s.cells)(s.done[i]))
    {
      DoneInRange(cfg, s, i);
    }
    HarvestSeen(s.done, q, DoneView(s.cells), mine, L.ByTid(t));
    OneThread(s.cells, s.threads, t, u.threads[t]);
    var got := Harvested(s.done, q, mine);
    assert GotView(s.cells, got, 0) == Seen(got, DoneView(s.cells));
  }

  lemma DoneInRange(cfg: Config, s: State, i: nat)
    requires Inv(cfg, s) && i < |s.done|
    ensures s.done[i] < L.POOL
  {
    var v := View(s);
    assert v.done[i] == CtxEntry(s.cells, s.done[i], false);
    L.DoneHolds(v, L.CtxOf, v.ctxs, s.done[i], i);
  }

  lemma ReturnFollows(cfg: Config, s: State, i: nat)
    requires Formed(s) && Enabled(cfg, s, Return(i))
    ensures Follows(cfg, s, Return(i))
  {
    var u := Apply(cfg, s, Return(i));
    var e := FlightEntry(s.cells, s.flights[i]);
    assert FlightFormed(s.flights[i]);
    assert View(s).flights[i] == e;
    assert View(u).flights == View(s).flights[i := e.(kd := -1, vd := -1)];
  }

  lemma EventFollows(cfg: Config, s: State, i: nat)
    requires Formed(s) && L.Shaped(cfg, View(s)) && Enabled(cfg, s, Event(i))
    ensures Follows(cfg, s, Event(i))
  {
    var u, v := Apply(cfg, s, Event(i)), View(s);
    var f := s.flights[i];
    assert FlightFormed(f);
    assert v.flights[i] == FlightEntry(s.cells, f) && L.Flying(cfg, v.flights[i]);
    assert CtxEntry(s.cells, f.ctx, false) == FlightEntry(s.cells, f);
    assert View(u).done == v.done + [v.flights[i]];
    assert View(u).flights == v.flights[..i] + v.flights[i + 1..];
  }

  // ------------------------------------------------------------------ steps that write cells

  /** With other cells every flight but i, every completion and every thread but t reads as before. */
  ghost predicate Unseen(s: State, cells: Cells, i: int, t: int) {
    && (forall j :: 0 <= j < |s.flights| && j != i ==>
          FlightEntry(cells, s.flights[j]) == FlightEntry(s.cells, s.flights[j]))
    && (forall j :: 0 <= j < |s.done| ==> CtxEntry(cells, s.done[j], false) == CtxEntry(s.cells, s.done[j], false))
    && (forall u :: 0 <= u < |s.threads| && u != t ==>
          PcView(cells, u, s.threads[u].pc) == PcView(s.cells, u, s.threads[u].pc))
  }

  lemma PcUnseen(cells: Cells, cells': Cells, u: nat, pc: Pc, c: nat)
    requires cells' == cells.(ctx := cells'.ctx) && |cells'.ctx| == |cells.ctx|
    requires forall k :: 0 <= k < |cells.ctx| && k != c ==> cells'.ctx[k] == cells.ctx[k]
    requires forall j :: 0 <= j < |L.Carries(PcView(cells, u, pc))| ==> L.CtxOf(L.Carries(PcView(cells, u, pc))[j]) != c
    ensures PcView(cells', u, pc) == PcView(cells, u, pc)
  {
    if pc.Notifying? || pc.Releasing? {
      var j := if pc.Notifying? then pc.j else |pc.got|;
      forall i | 0 <= i < |pc.got|
        ensures CtxEntry(cells', pc.got[i], i < j) == CtxEntry(cells, pc.got[i], i < j)
      {
        assert L.Carries(PcView(cells, u, pc))[i] == CtxEntry(cells, pc.got[i], i < j);
      }
      assert GotView(cells', pc.got, j) == GotView(cells, pc.got, j);
    }
  }

  /** A context nobody else holds may be written. */
  lemma ContextUnseen(s: State, c: nat, x: Context, i: int)
    requires L.Spares(View(s), L.CtxOf, c, i, -1)
    ensures Unseen(s, s.cells.(ctx := Put(s.cells.ctx, c, x)), i, -1)
  {
    var v, cells' := View(s), s.cells.(ctx := Put(s.cells.ctx, c, x));
    forall j | 0 <= j < |s.flights| && j != i
      ensures FlightEntry(cells', s.flights[j]) == FlightEntry(s.cells, s.flights[j])
    {
      assert v.flights[j] == FlightEntry(s.cells, s.flights[j]) && L.CtxOf(v.flights[j]) != c;
    }
    forall j | 0 <= j < |s.done|
      ensures CtxEntry(cells', s.done[j], false) == CtxEntry(s.cells, s.done[j], false)
    {
      assert v.done[j] == CtxEntry(s.cells, s.done[j], false) && L.CtxOf(v.done[j]) != c;
    }
    forall u | 0 <= u < |s.threads|
      ensures PcView(cells', u, s.threads[u].pc) == PcView(s.cells, u, s.threads[u].pc)
    {
      assert v.threads[u].pc == PcView(s.cells, u, s.threads[u].pc);
      PcUnseen(s.cells, cells', u, s.threads[u].pc, c);
    }
  }

  /** Descriptors nobody else holds may be written. */
  lemma DescriptorsUnseen(s: State, kd: nat, vd: nat, key: Block, value: Block, t: nat)
    requires L.Spares(View(s), L.KdOf, kd, -1, t) && L.Spares(View(s), L.VdOf, vd, -1, t)
    ensures Unseen(s, s.cells.(key := Put(s.cells.key, kd, key), value := Put(s.cells.value, vd, value)), -1, t)
  {
    var v := View(s);
    var cells' := s.cells.(key := Put(s.cells.key, kd, key), value := Put(s.cells.value, vd, value));
    forall j | 0 <= j < |s.flights|
      ensures FlightEntry(cells', s.flights[j]) == FlightEntry(s.cells, s.flights[j])
    {
      assert v.flights[j] == FlightEntry(s.cells, s.flights[j]);
      assert L.KdOf(v.flights[j]) != kd && L.VdOf(v.flights[j]) != vd;
    }
    forall u | 0 <= u < |s.threads| && u != t
      ensures PcView(cells', u, s.threads[u].pc) == PcView(s.cells, u, s.threads[u].pc)
    {
      var pc := s.threads[u].pc;
      assert v.threads[u].pc == PcView(s.cells, u, pc);
      if pc.Submitting? {
        assert L.KdOf(L.Carries(v.threads[u].pc)[0]) != kd && L.VdOf(L.Carries(v.threads[u].pc)[0]) != vd;
      } else if pc.Notifying? || pc.Releasing? {
        var j := if pc.Notifying? then pc.j else |pc.got|;
        assert GotView(cells', pc.got, j) == GotView(s.cells, pc.got, j);
      }
    }
  }

  lemma ContextFollows(cfg: Config, s: State, i: nat)
    requires Inv(cfg, s) && Enabled(cfg, s, Pick(i))
    ensures Follows(cfg, s, Pick(i))
  {
    if s.ctxs != [] {
      var u, f, c := Apply(cfg, s, Pick(i)), s.flights[i], s.ctxs[0];
      assert FlightFormed(f);
      L.PooledIsSpare(View(s), L.CtxOf, s.ctxs, c);
      ContextUnseen(s, c, CtxAt(s.cells, c).(tid := f.tid), -1);
      assert FlightEntry(u.cells, u.flights[i]) == FlightEntry(s.cells, f).(ctx := c);
      assert View(u).flights == View(s).flights[i := View(s).flights[i].(ctx := c)];
      assert View(u).done == View(s).done;
      assert View(u).threads == View(s).threads;
    }
  }

  lemma CopySilent(cfg: Config, s: State, i: nat)
    requires Inv(cfg, s) && Enabled(cfg, s, Copy(i))
    ensures View(Apply(cfg, s, Copy(i))) == View(s)
  {
    var u, f := Apply(cfg, s, Copy(i)), s.flights[i];
    assert FlightFormed(f);
    assert View(s).flights[i] == FlightEntry(s.cells, f);
    assert L.CtxOf(View(s).flights[i]) == f.ctx;
    L.FlightHolds(View(s), L.CtxOf, s.ctxs, f.ctx, i);
    ContextUnseen(s, f.ctx, u.cells.ctx[f.ctx], i);
    assert FlightEntry(u.cells, u.flights[i]) == FlightEntry(s.cells, f);
    assert View(u).flights == View(s).flights;
    assert View(u).done == View(s).done;
    assert View(u).threads == View(s).threads;
  }

  lemma WriteSilent(cfg: Config, s: State, t: nat)
    requires Inv(cfg, s) && Enabled(cfg, s, Write(t))
    ensures View(Apply(cfg, s, Write(t))) == View(s)
  {
    var u, pc := Apply(cfg, s, Write(t)), s.threads[t].pc;
    var v := View(s);
    assert L.Carries(v.threads[t].pc) == [L.Entry(t, pc.key, pc.value, pc.kd, pc.vd, -1, false)];
    assert L.KdOf(L.Carries(v.threads[t].pc)[0]) == pc.kd && L.VdOf(L.Carries(v.threads[t].pc)[0]) == pc.vd;
    L.ThreadHolds(v, L.KdOf, s.kds, pc.kd, t);
    L.ThreadHolds(v, L.VdOf, s.vds, pc.vd, t);
    DescriptorsUnseen(s, pc.kd, pc.vd, pc.key, pc.value, t);
    assert ThreadView(u.cells, t, u.threads[t]) == v.threads[t];
    assert View(u).threads == v.threads;
    assert View(u).flights == v.flights;
    assert View(u).done == v.done;
  }

  // --------------------------------------------------------------------- every run

  /**
   Every step of the protocol is the ledger's, or none: what the threads and the
   callbacks read from the shared cells is what belongs to the operation, because
   no cell is held twice.
   */
  lemma Refines(cfg: Config, s: State, step: Step)
    requires Inv(cfg, s) && Enabled(cfg, s, step)
    ensures if Silent(step) then View(Apply(cfg, s, step)) == View(s) else Follows(cfg, s, step)
  {
    if step.Write? {
      WriteSilent(cfg, s, step.t);
    } else if step.Copy? {
      CopySilent(cfg, s, step.i);
    } else if Callback(step) {
      CallbackFollows(cfg, s, step);
    } else {
      ThreadFollows(cfg, s, step);
    }
  }

  lemma CallbackFollows(cfg: Config, s: State, step: Step)
    requires Inv(cfg, s) && Enabled(cfg, s, step) && Callback(step) && !step.Copy?
    ensures Follows(cfg, s, step)
  {
    if step.Pick? {
      ContextFollows(cfg, s, step.i);
    } else if step.Return? {
      ReturnFollows(cfg, s, step.i);
    } else {
      EventFollows(cfg, s, step.i);
    }
  }

  lemma ThreadFollows(cfg: Config, s: State, step: Step)
    requires Inv(cfg, s) && Enabled(cfg, s, step) && !Callback(step) && !step.Write?
    ensures Follows(cfg, s, step)
  {
    if step.Submit? {
      SubmitFollows(cfg, s, step.t);
    } else if step.Harvest? {
      HarvestFollows(cfg, s, step.t);
    } else if step.Notify? {
      NotifyFollows(cfg, s, step.t);
    } else if step.Release? {
      ReleaseFollows(cfg, s, step.t);
    } else {
      LocalFollows(cfg, s, step);
    }
  }

  lemma KeepsInv(cfg: Config, s: State, step: Step)
    requires Inv(cfg, s) && Enabled(cfg, s, step) && !Apply(cfg, s, step).broken
    ensures Inv(cfg, Apply(cfg, s, step))
  {
    KeepsFormed(cfg, s, step);
    Refines(cfg, s, step);
    if !Silent(step) {
      L.KeepsInv(cfg, View(s), LedgerStep(step));
    }
  }

  lemma InitInv(cfg: Config, cells: Cells)
    requires Sized(cells)
    ensures Inv(cfg, Init(cfg, cells))
  {
    L.InitInv(cfg);
    assert View(Init(cfg, cells)).threads == L.Init(cfg).threads;
    assert View(Init(cfg, cells)) == L.Init(cfg);
  }

  predicate Leads(cfg: Config, s: State, steps: seq<Step>, t: State)
    decreases |steps|
  {
    if steps == [] then s == t else Enabled(cfg, s, steps[0]) && Leads(cfg, Apply(cfg, s, steps[0]), steps[1..], t)
  }

  ghost predicate Reachable(cfg: Config, s: State) {
    exists cells, steps :: Sized(cells) && Leads(cfg, Init(cfg, cells), steps, s)
  }

  lemma {:induction false} RunKeepsInv(cfg: Config, s: State, steps: seq<Step>, t: State)
    requires Inv(cfg, s) && Leads(cfg, s, steps, t)
    ensures t.broken || Inv(cfg, t)
    decreases |steps|
  {
    if steps != [] {
      var u := Apply(cfg, s, steps[0]);
      if !u.broken {
        KeepsInv(cfg, s, steps[0]);
        RunKeepsInv(cfg, u, steps[1..], t);
      } else {
        BrokenStops(cfg, u, steps[1..], t);
      }
    }
  }

  lemma BrokenStops(cfg: Config, s: State, steps: seq<Step>, t: State)
    requires s.broken && Leads(cfg, s, steps, t)
    ensures t == s
  {
  }

  lemma ReachableInv(cfg: Config, s: State)
    requires Reachable(cfg, s) && !s.broken
    ensures Inv(cfg, s)
  {
    var cells, steps :| Sized(cells) && Leads(cfg, Init(cfg, cells), steps, s);
    InitInv(cfg, cells);
    RunKeepsInv(cfg, Init(cfg, cells), steps, s);
  }

  /** At the head of its loop a thread has exactly `cur_qdepth` blocks of each pool out, at most the queue depth. */
  lemma DepthAtLoopHead(cfg: Config, s: State, t: nat)
    requires Reachable(cfg, s) && !s.broken && t < |s.threads| && s.threads[t].pc.Filling?
    ensures 0 <= s.threads[t].q <= cfg.depth
    ensures cfg.keys - |s.threads[t].keyFree| == s.threads[t].q
    ensures cfg.values - |s.threads[t].valueFree| == s.threads[t].q
  {
    ReachableInv(cfg, s);
    L.DepthAtLoopHead(cfg, View(s), t);
  }

  /** With pools no smaller than the queue depth no allocation fails. */
  lemma AllocateSucceeds(cfg: Config, s: State, t: nat)
    requires Reachable(cfg, s) && L.Accepted(cfg) && Enabled(cfg, s, Create(t))
    ensures s.threads[t].keyFree != [] && s.threads[t].valueFree != []
  {
    DepthAtLoopHead(cfg, s, t);
  }

  /**
   What a thread about to deallocate reads from the context are blocks of its
   own pools that are not in them already.
   */
  lemma BlocksGoHome(cfg: Config, s: State, t: nat)
    requires Reachable(cfg, s) && !s.broken && t < |s.threads|
    requires s.threads[t].pc.Notifying? && s.threads[t].pc.j < |s.threads[t].pc.got|
    ensures var x := CtxAt(s.cells, s.threads[t].pc.got[s.threads[t].pc.j]);
            && x.tid == t
            && x.key.owner == t && x.key.index < cfg.keys && x.key !in s.threads[t].keyFree
            && x.value.owner == t && x.value.index < cfg.values && x.value !in s.threads[t].valueFree
  {
    ReachableInv(cfg, s);
    var v, pc := View(s), s.threads[t].pc;
    assert v.threads[t] == ThreadView(s.cells, t, s.threads[t]);
    assert v.threads[t].pc.got[pc.j] == CtxEntry(s.cells, pc.got[pc.j], false);
    L.BlocksGoHome(cfg, v, t);
  }

  /** A finished thread has every block of both its pools back. */
  lemma DrainReturnsAll(cfg: Config, s: State, t: nat)
    requires Reachable(cfg, s) && !s.broken && t < |s.threads| && s.threads[t].pc.Finished?
    ensures multiset(s.threads[t].keyFree) == multiset(L.Blocks(t, cfg.keys))
    ensures multiset(s.threads[t].valueFree) == multiset(L.Blocks(t, cfg.values))
  {
    ReachableInv(cfg, s);
    assert View(s).threads[t] == ThreadView(s.cells, t, s.threads[t]);
    L.DrainReturnsAll(cfg, View(s), t);
  }

  // ------------------------------------------------------------------- shared pools

  function InHand(th: Thread): nat {
    match th.pc
    case Created(_, _) => 1
    case Taken(_, _, _, _) => 1
    case Submitting(_, _) => 1
    case Notifying(got, _) => |got|
    case Releasing(got, _) => |got|
    case _ => 0
  }

  /** The operations begun and not yet released. */
  function UnderWay(s: State): nat {
    |s.flights| + |s.done| + Total(s.threads, InHand)
  }

  function PickedOne(f: Flight): nat {
    if f.ctx >= 0 then 1 else 0
  }

  function Contexts(th: Thread): nat {
    if th.pc.Notifying? || th.pc.Releasing? then InHand(th) else 0
  }

  function KeyInFlight(f: Flight): nat {
    if f.kd >= 0 then 1 else 0
  }

  function ValueInFlight(f: Flight): nat {
    if f.vd >= 0 then 1 else 0
  }

  function Descriptors(th: Thread): nat {
    if th.pc.Taken? || th.pc.Submitting? then 1 else 0
  }

  /** What the ledger counts, counted on the state itself. */
  lemma CountedHere(s: State, f: L.Entry -> nat, inFlight: Flight -> nat, done: nat, inThread: Thread -> nat)
    requires forall i :: 0 <= i < |s.flights| ==> f(FlightEntry(s.cells, s.flights[i])) == inFlight(s.flights[i])
    requires done <= 1 && forall i :: 0 <= i < |s.done| ==> f(CtxEntry(s.cells, s.done[i], false)) == done
    requires forall t :: 0 <= t < |s.threads| ==>
               L.Of(f)(ThreadView(s.cells, t, s.threads[t])) == inThread(s.threads[t])
    ensures L.Everywhere(View(s), f)
         == Total(s.flights, inFlight) + (if done == 1 then |s.done| else 0) + Total(s.threads, inThread)
  {
    TotalSeen(s.flights, FlightView(s.cells), f, inFlight);
    if done == 1 {
      AllOnes(Seen(s.done, DoneView(s.cells)), f);
    } else {
      TotalZero(Seen(s.done, DoneView(s.cells)), f);
    }
    ThreadsCounted(s.cells, s.threads, f, inThread);
  }

  lemma AllOnes(es: seq<L.Entry>, f: L.Entry -> nat)
    requires forall i :: 0 <= i < |es| ==> f(es[i]) == 1
    ensures Total(es, f) == |es|
  {
    L.AllCount(es, f);
  }

  lemma ThreadsCounted(cells: Cells, threads: seq<Thread>, f: L.Entry -> nat, inThread: Thread -> nat)
    requires forall t :: 0 <= t < |threads| ==> L.Of(f)(ThreadView(cells, t, threads[t])) == inThread(threads[t])
    ensures Total(ThreadsView(cells, threads), L.Of(f)) == Total(threads, inThread)
  {
    TotalPairs(ThreadsView(cells, threads), L.Of(f), threads, inThread);
  }

  lemma UnderWayCounted(cfg: Config, s: State)
    requires Inv(cfg, s)
    ensures L.Everywhere(View(s), L.Below(cfg.threads)) == UnderWay(s)
  {
    var v, f := View(s), L.Below(cfg.threads);
    forall i | 0 <= i < |s.flights|
      ensures f(FlightEntry(s.cells, s.flights[i])) == One(s.flights[i])
    {
      assert L.Flying(cfg, v.flights[i]);
    }
    forall i | 0 <= i < |s.done|
      ensures f(CtxEntry(s.cells, s.done[i], false)) == 1
    {
      assert L.Complete(cfg, v.done[i]);
    }
    forall t | 0 <= t < |s.threads|
      ensures L.Of(f)(ThreadView(s.cells, t, s.threads[t])) == InHand(s.threads[t])
    {
      assert L.Carrying(cfg, t, v.threads[t].pc);
      L.AllCount(L.Carries(v.threads[t].pc), f);
    }
    CountedHere(s, f, One, 1, InHand);
    AllFlights(s.flights);
  }

  function One(f: Flight): nat {
    1
  }

  lemma {:induction false} AllFlights(fs: seq<Flight>)
    ensures Total(fs, One) == |fs|
    decreases |fs|
  {
    if fs != [] {
      AllFlights(fs[1..]);
    }
  }

  /** While at most 36000 operations are under way, no step pops an empty pool. */
  lemma StepSafe(cfg: Config, s: State, step: Step)
    requires Reachable(cfg, s) && L.Accepted(cfg) && UnderWay(s) <= L.POOL && Enabled(cfg, s, step)
    ensures !Apply(cfg, s, step).broken
  {
    ReachableInv(cfg, s);
    UnderWayCounted(cfg, s);
    Refines(cfg, s, step);
    if !Silent(step) {
      L.StepSafe(cfg, View(s), LedgerStep(step));
    }
  }

  /** The operations the threads can have out at once: each its queue depth, or its documents if fewer. */
  function Capacity(cfg: Config): nat {
    L.Capacity(cfg, cfg.threads)
  }

  lemma {:induction false} RunSafe(cfg: Config, s: State, steps: seq<Step>, t: State)
    requires Reachable(cfg, s) && !s.broken && L.Accepted(cfg) && Capacity(cfg) <= L.POOL && Leads(cfg, s, steps, t)
    ensures !t.broken
    decreases |steps|
  {
    if steps != [] {
      ReachableInv(cfg, s);
      UnderWayCounted(cfg, s);
      L.EntriesFit(cfg, View(s));
      StepSafe(cfg, s, steps[0]);
      ReachableNext(cfg, s, steps[0]);
      RunSafe(cfg, Apply(cfg, s, steps[0]), steps[1..], t);
    }
  }

  lemma ReachableNext(cfg: Config, s: State, step: Step)
    requires Reachable(cfg, s) && Enabled(cfg, s, step)
    ensures Reachable(cfg, Apply(cfg, s, step))
  {
    var cells, steps :| Sized(cells) && Leads(cfg, Init(cfg, cells), steps, s);
    LeadsOne(cfg, Init(cfg, cells), steps, s, step);
  }

  lemma {:induction false} LeadsOne(cfg: Config, s: State, steps: seq<Step>, t: State, step: Step)
    requires Leads(cfg, s, steps, t) && Enabled(cfg, t, step)
    ensures Leads(cfg, s, steps + [step], Apply(cfg, t, step))
    decreases |steps|
  {
    if steps == [] {
      assert (steps + [step])[1..] == [];
    } else {
      LeadsOne(cfg, Apply(cfg, s, steps[0]), steps[1..], t, step);
      assert (steps + [step])[1..] == steps[1..] + [step];
    }
  }

  lemma NothingRunsDry(cfg: Config, s: State)
    requires L.Accepted(cfg) && Capacity(cfg) <= L.POOL && Reachable(cfg, s)
    ensures !s.broken
  {
    var cells, steps :| Sized(cells) && Leads(cfg, Init(cfg, cells), steps, s);
    assert Leads(cfg, Init(cfg, cells), [], Init(cfg, cells));
    RunSafe(cfg, Init(cfg, cells), steps, s);
  }

  // ------------------------------------------------------- when the shared pools are too small

  /** One operation submitted by thread t, and nothing else. */
  ghost predicate OneMoreOut(cfg: Config, s: State, t: nat, u: State)
    requires t < |s.threads|
  {
    && |u.threads| == |s.threads|
    && u.threads[t].pc.Filling? && u.threads[t].q == s.threads[t].q + 1
    && u.threads[t].c == s.threads[t].c + cfg.threads * cfg.batch
    && u.threads == s.threads[t := u.threads[t]]
    && |u.kds| + 1 == |s.kds| && |u.vds| + 1 == |s.vds| && !u.broken
  }

  lemma SubmitsOne(cfg: Config, s: State, t: nat) returns (u: State)
    requires Reachable(cfg, s) && Enabled(cfg, s, Create(t))
    requires s.threads[t].keyFree != [] && s.threads[t].valueFree != [] && s.kds != [] && s.vds != []
    ensures Reachable(cfg, u) && OneMoreOut(cfg, s, t, u)
  {
    ReachableNext(cfg, s, Create(t));
    var a := Apply(cfg, s, Create(t));
    ReachableNext(cfg, a, Take(t));
    var b := Apply(cfg, a, Take(t));
    ReachableNext(cfg, b, Write(t));
    var c := Apply(cfg, b, Write(t));
    ReachableNext(cfg, c, Submit(t));
    var d := Apply(cfg, c, Submit(t));
    ReachableNext(cfg, d, Bump(t));
    u := Apply(cfg, d, Bump(t));
  }

  function Depth(th: Thread): nat {
    if th.q >= 0 then th.q else 0
  }

  /** The thread is at its loop head with q operations out and none come back. */
  predicate HasOut(cfg: Config, t: nat, th: Thread) {
    th.pc.Filling? && 0 <= th.q <= L.Room(cfg, t, cfg.depth) && th.c == L.Counter(cfg, t, th.q)
  }

  /** n operations are out and none has come back. */
  ghost predicate Filled(cfg: Config, s: State, n: nat) {
    && Reachable(cfg, s) && !s.broken && |s.threads| == cfg.threads && Total(s.threads, Depth) == n
    && |s.kds| + n == L.POOL && |s.vds| + n == L.POOL
    && forall t: nat :: t < |s.threads| ==> HasOut(cfg, t, s.threads[t])
  }

  /** If fewer operations are out than possible, some thread has room. */
  lemma {:induction false} SomeRoom(cfg: Config, threads: seq<Thread>, m: nat) returns (t: nat)
    requires m <= |threads| && Total(threads[..m], Depth) < L.Capacity(cfg, m)
    ensures t < m && Depth(threads[t]) < L.Room(cfg, t, cfg.depth)
    decreases m
  {
    var k: nat := m - 1;
    assert threads[..m] == threads[..k] + [threads[k]];
    TotalAppend(threads[..k], threads[k], Depth);
    if Depth(threads[k]) < L.Room(cfg, k, cfg.depth) {
      t := k;
    } else {
      t := SomeRoom(cfg, threads, k);
    }
  }

  lemma RoomEnables(cfg: Config, s: State, t: nat)
    requires !s.broken && t < |s.threads| && HasOut(cfg, t, s.threads[t])
    requires s.threads[t].q < L.Room(cfg, t, cfg.depth)
    ensures Enabled(cfg, s, Create(t))
  {
    if cfg.depth > 0 {
      L.RoomExact(cfg, t, cfg.depth, 0);
      L.RoomExact(cfg, t, cfg.depth, s.threads[t].q);
    }
  }

  /** A thread with room can submit. */
  lemma CanCreate(cfg: Config, s: State, n: nat) returns (t: nat)
    requires L.Accepted(cfg) && Filled(cfg, s, n) && n < Capacity(cfg)
    ensures t < |s.threads| && Enabled(cfg, s, Create(t)) && s.threads[t].q < L.Room(cfg, t, cfg.depth)
    ensures s.threads[t].keyFree != [] && s.threads[t].valueFree != []
  {
    assert s.threads[..cfg.threads] == s.threads;
    t := SomeRoom(cfg, s.threads, cfg.threads);
    assert HasOut(cfg, t, s.threads[t]);
    RoomEnables(cfg, s, t);
    AllocateSucceeds(cfg, s, t);
  }

  lemma FillsOne(cfg: Config, s: State, n: nat, t: nat, u: State)
    requires Filled(cfg, s, n) && t < |s.threads| && s.threads[t].q < L.Room(cfg, t, cfg.depth)
    requires Reachable(cfg, u) && OneMoreOut(cfg, s, t, u)
    ensures Filled(cfg, u, n + 1)
  {
    TotalUpdate(s.threads, Depth, t, u.threads[t]);
    forall i: nat | i < |u.threads|
      ensures HasOut(cfg, i, u.threads[i])
    {
      assert HasOut(cfg, i, s.threads[i]);
    }
  }

  lemma {:induction false} Fills(cfg: Config, n: nat) returns (s: State)
    requires L.Accepted(cfg) && n <= L.POOL && n <= Capacity(cfg)
    ensures Filled(cfg, s, n)
    decreases n
  {
    if n == 0 {
      var block := Block(0, 0);
      var cells := Cells(seq(L.POOL, i => block), seq(L.POOL, i => block), seq(L.POOL, i => Context(0, block, block)));
      s := Init(cfg, cells);
      assert Leads(cfg, s, [], s);
      TotalZero(s.threads, Depth);
    } else {
      var r := Fills(cfg, n - 1);
      var t := CanCreate(cfg, r, n - 1);
      s := SubmitsOne(cfg, r, t);
      FillsOne(cfg, r, n - 1, t, s);
    }
  }

  /** More operations than descriptors: the one too many pops an empty queue. */
  lemma Overcommitted(cfg: Config) returns (s: State)
    requires L.Accepted(cfg) && Capacity(cfg) > L.POOL
    ensures Reachable(cfg, s) && s.broken
  {
    var r := Fills(cfg, L.POOL);
    var t := CanCreate(cfg, r, L.POOL);
    ReachableNext(cfg, r, Create(t));
    var a := Apply(cfg, r, Create(t));
    ReachableNext(cfg, a, Take(t));
    s := Apply(cfg, a, Take(t));
  }

  /**
   An accepted configuration never pops an empty pool exactly when the
   operations its threads can have out at once are within the shared pools.
   */
  lemma RunsDryExactly(cfg: Config)
    requires L.Accepted(cfg)
    ensures (forall s :: Reachable(cfg, s) ==> !s.broken) <==> Capacity(cfg) <= L.POOL
  {
    if Capacity(cfg) <= L.POOL {
      forall s | Reachable(cfg, s)
        ensures !s.broken
      {
        NothingRunsDry(cfg, s);
      }
    } else {
      var s := Overcommitted(cfg);
    }
  }

  // ------------------------------------------------------------ descriptors and contexts

  /** The shared queues run dry exactly when all their elements are held by operations under way. */
  lemma DryExactly(cfg: Config, s: State)
    requires Reachable(cfg, s) && !s.broken
    ensures s.kds == [] <==> Total(s.flights, KeyInFlight) + Total(s.threads, Descriptors) == L.POOL
    ensures s.vds == [] <==> Total(s.flights, ValueInFlight) + Total(s.threads, Descriptors) == L.POOL
    ensures s.ctxs == [] <==> Total(s.flights, PickedOne) + |s.done| + Total(s.threads, Contexts) == L.POOL
  {
    ReachableInv(cfg, s);
    L.DryExactly(cfg, View(s));
    KeysCounted(s);
    ValuesCounted(s);
    ContextsCounted(s);
  }

  lemma InFlightCounted(cells: Cells, f: Flight)
    ensures L.AnyId(L.KdOf)(FlightEntry(cells, f)) == KeyInFlight(f)
    ensures L.AnyId(L.VdOf)(FlightEntry(cells, f)) == ValueInFlight(f)
    ensures L.AnyId(L.CtxOf)(FlightEntry(cells, f)) == PickedOne(f)
  {
    var e := FlightEntry(cells, f);
    assert L.KdOf(e) == f.kd && L.VdOf(e) == f.vd && L.CtxOf(e) == f.ctx;
  }

  lemma InDoneCounted(cells: Cells, c: nat)
    ensures L.AnyId(L.KdOf)(CtxEntry(cells, c, false)) == 0
    ensures L.AnyId(L.VdOf)(CtxEntry(cells, c, false)) == 0
    ensures L.AnyId(L.CtxOf)(CtxEntry(cells, c, false)) == 1
  {
    var e := CtxEntry(cells, c, false);
    assert L.KdOf(e) == -1 && L.VdOf(e) == -1 && L.CtxOf(e) == c;
  }

  lemma DescriptorsInThread(cells: Cells, t: nat, th: Thread)
    ensures L.Of(L.AnyId(L.KdOf))(ThreadView(cells, t, th)) == Descriptors(th)
    ensures L.Of(L.AnyId(L.VdOf))(ThreadView(cells, t, th)) == Descriptors(th)
  {
    var es := L.Carries(PcView(cells, t, th.pc));
    CountHeld(es, L.KdOf, Descriptors(th));
    CountHeld(es, L.VdOf, Descriptors(th));
  }

  lemma ContextsInThread(cells: Cells, t: nat, th: Thread)
    ensures L.Of(L.AnyId(L.CtxOf))(ThreadView(cells, t, th)) == Contexts(th)
  {
    CountHeld(L.Carries(PcView(cells, t, th.pc)), L.CtxOf, Contexts(th));
  }

  lemma KeysCounted(s: State)
    ensures L.Everywhere(View(s), L.AnyId(L.KdOf)) == Total(s.flights, KeyInFlight) + Total(s.threads, Descriptors)
  {
    forall i | 0 <= i < |s.flights| { InFlightCounted(s.cells, s.flights[i]); }
    forall i | 0 <= i < |s.done| { InDoneCounted(s.cells, s.done[i]); }
    forall t | 0 <= t < |s.threads| { DescriptorsInThread(s.cells, t, s.threads[t]); }
    CountedHere(s, L.AnyId(L.KdOf), KeyInFlight, 0, Descriptors);
  }

  lemma ValuesCounted(s: State)
    ensures L.Everywhere(View(s), L.AnyId(L.VdOf)) == Total(s.flights, ValueInFlight) + Total(s.threads, Descriptors)
  {
    forall i | 0 <= i < |s.flights| { InFlightCounted(s.cells, s.flights[i]); }
    forall i | 0 <= i < |s.done| { InDoneCounted(s.cells, s.done[i]); }
    forall t | 0 <= t < |s.threads| { DescriptorsInThread(s.cells, t, s.threads[t]); }
    CountedHere(s, L.AnyId(L.VdOf), ValueInFlight, 0, Descriptors);
  }

  lemma ContextsCounted(s: State)
    ensures L.Everywhere(View(s), L.AnyId(L.CtxOf))
         == Total(s.flights, PickedOne) + |s.done| + Total(s.threads, Contexts)
  {
    forall i | 0 <= i < |s.flights| { InFlightCounted(s.cells, s.flights[i]); }
    forall i | 0 <= i < |s.done| { InDoneCounted(s.cells, s.done[i]); }
    forall t | 0 <= t < |s.threads| { ContextsInThread(s.cells, t, s.threads[t]); }
    CountedHere(s, L.AnyId(L.CtxOf), PickedOne, 1, Contexts);
  }

  /** Entries of which all or none hold one. */
  lemma CountHeld(es: seq<L.Entry>, g: L.Entry -> int, n: nat)
    requires (n == |es| && forall i :: 0 <= i < |es| ==> g(es[i]) >= 0)
          || (n == 0 && forall i :: 0 <= i < |es| ==> g(es[i]) < 0)
    ensures Total(es, L.AnyId(g)) == n
  {
    if n == |es| && forall i :: 0 <= i < |es| ==> g(es[i]) >= 0 {
      L.AllCount(es, L.AnyId(g));
    } else {
      TotalZero(es, L.AnyId(g));
    }
  }

  /** Idle, in callbacks, completed and harvested contexts always make up the whole pool, each in one place. */
  lemma ContextsConserved(cfg: Config, s: State)
    requires Reachable(cfg, s) && !s.broken
    ensures |s.ctxs| + Total(s.flights, PickedOne) + |s.done| + Total(s.threads, Contexts) == L.POOL
    ensures forall k: nat ::
              multiset(s.ctxs)[k] + L.Everywhere(View(s), L.HasId(L.CtxOf)(k)) == if k < L.POOL then 1 else 0
  {
    ReachableInv(cfg, s);
    L.ContextsConserved(cfg, View(s));
    ContextsCounted(s);
  }
}
