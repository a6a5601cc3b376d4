/**
 What whole runs of asynchronous population achieve: which documents are
 stored, and that the threads can always finish, every operation harvested.
 */
module AsyncRuns {
  import opened AsyncIo
  import opened Completions
  import opened Division
  import opened Sums
  import L = IoLedger

  // -------------------------------------------------------------------- documents

  predicate Starting(pc: Pc) {
    pc.Created? || pc.Taken? || pc.Submitting? || pc.Submitted?
  }

  /** The documents taken: `first`, `first + stride` and so on, all below `docs`. */
  predicate Strided(taken: seq<nat>, first: nat, stride: nat, docs: nat) {
    forall i :: 0 <= i < |taken| ==> taken[i] == first + i * stride && taken[i] < docs
  }

  /** A thread has taken the first documents of its stride, and goes on with the next. */
  predicate OnStride(th: Thread, first: nat, stride: nat, docs: nat) {
    var n := if Starting(th.pc) then |th.taken| - 1 else |th.taken|;
    && 0 <= n && th.c == first + n * stride
    && Strided(th.taken, first, stride, docs)
    && (th.pc.Finished? ==> th.c >= docs)
  }

  predicate AllOnStride(cfg: Config, s: State) {
    |s.threads| == cfg.threads &&
    forall t :: 0 <= t < |s.threads| ==> OnStride(s.threads[t], t * cfg.batch, cfg.threads * cfg.batch, cfg.docs)
  }

  /** One more step of the stride. */
  lemma NextProduct(n: nat, k: nat)
    ensures (n + 1) * k == n * k + k
  {
  }

  lemma ThreadStaysOnStride(cfg: Config, s: State, step: Step)
    requires L.Accepted(cfg) && AllOnStride(cfg, s) && Enabled(cfg, s, step) && !Callback(step)
    requires !Apply(cfg, s, step).broken
    ensures |Apply(cfg, s, step).threads| == |s.threads|
    ensures OnStride(Apply(cfg, s, step).threads[step.t], step.t * cfg.batch, cfg.threads * cfg.batch, cfg.docs)
  {
    var th := s.threads[step.t];
    var first, stride := step.t * cfg.batch, cfg.threads * cfg.batch;
    assert OnStride(th, first, stride, cfg.docs);
    if step.Bump? {
      NextProduct(|th.taken| - 1, stride);
    }
  }

  lemma StaysOnStride(cfg: Config, s: State, step: Step)
    requires L.Accepted(cfg) && AllOnStride(cfg, s) && Enabled(cfg, s, step) && !Apply(cfg, s, step).broken
    ensures AllOnStride(cfg, Apply(cfg, s, step))
  {
    if !Callback(step) {
      ThreadStaysOnStride(cfg, s, step);
    }
  }

  lemma {:induction false} RunStaysOnStride(cfg: Config, s: State, steps: seq<Step>, u: State)
    requires L.Accepted(cfg) && AllOnStride(cfg, s) && Leads(cfg, s, steps, u)
    ensures u.broken || AllOnStride(cfg, u)
    decreases |steps|
  {
    if steps != [] {
      var v := Apply(cfg, s, steps[0]);
      if !v.broken {
        StaysOnStride(cfg, s, steps[0]);
        RunStaysOnStride(cfg, v, steps[1..], u);
      } else {
        BrokenStops(cfg, v, steps[1..], u);
      }
    }
  }

  lemma ReachableOnStride(cfg: Config, s: State)
    requires Reachable(cfg, s) && !s.broken && L.Accepted(cfg)
    ensures AllOnStride(cfg, s)
  {
    var cells, steps :| Sized(cells) && Leads(cfg, Init(cfg, cells), steps, s);
    InitOnStride(cfg, cells);
    RunStaysOnStride(cfg, Init(cfg, cells), steps, s);
  }

  lemma InitOnStride(cfg: Config, cells: Cells)
    ensures AllOnStride(cfg, Init(cfg, cells))
  {
  }

  /**
   In every run, what thread t has taken are the first of the documents
   t * batch, t * batch + threads * batch, ..., each once and in order; a
   finished thread has taken all of them below `docs`.
   */
  lemma TakesItsDocuments(cfg: Config, s: State, t: nat)
    requires Reachable(cfg, s) && !s.broken && L.Accepted(cfg) && t < |s.threads|
    ensures forall i :: 0 <= i < |s.threads[t].taken| ==>
              s.threads[t].taken[i] == t * cfg.batch + i * (cfg.threads * cfg.batch) && s.threads[t].taken[i] < cfg.docs
    ensures s.threads[t].pc.Finished? ==>
              t * cfg.batch + |s.threads[t].taken| * (cfg.threads * cfg.batch) >= cfg.docs
  {
    ReachableOnStride(cfg, s);
    assert OnStride(s.threads[t], t * cfg.batch, cfg.threads * cfg.batch, cfg.docs);
  }

  /** Document d is the i-th that thread t took. */
  predicate Took(s: State, t: nat, i: nat, d: nat) {
    t < |s.threads| && i < |s.threads[t].taken| && s.threads[t].taken[i] == d
  }

  predicate AllFinished(s: State) {
    forall t :: 0 <= t < |s.threads| ==> s.threads[t].pc.Finished?
  }

  lemma SplitNumber(t: nat, i: nat, T: nat, batch: nat, d: nat)
    requires t < T && batch > 0
    ensures d == t * batch + i * (T * batch) <==> d % batch == 0 && t == d / batch % T && i == d / batch / T
  {
    var m := i * T + t;
    assert t * batch + i * (T * batch) == m * batch + 0;
    PartsUnique(m, 0, batch);
    PartsUnique(i, t, T);
    Parts(d, batch);
    Parts(d / batch, T);
  }

  lemma Before(i: nat, n: nat, k: nat)
    requires i * k < n * k
    ensures i < n
  {
    if n < i {
      Multiples(n, i, k);
    }
  }

  /** The documents of a stride that goes beyond `docs`: of the batches, every T-th from the t-th on. */
  lemma StrideHolds(taken: seq<nat>, t: nat, T: nat, batch: nat, docs: nat, i: nat, d: nat)
    requires t < T && batch > 0 && d < docs
    requires Strided(taken, t * batch, T * batch, docs) && t * batch + |taken| * (T * batch) >= docs
    ensures i < |taken| && taken[i] == d <==> OfBatch(t, i, T, batch, d)
  {
    SplitNumber(t, i, T, batch, d);
    if d == t * batch + i * (T * batch) {
      Before(i, |taken|, T * batch);
    }
  }

  /** Document d is the first of its batch, and batch d / batch is the i-th of thread t of T. */
  predicate OfBatch(t: nat, i: nat, T: nat, batch: nat, d: nat)
    requires T > 0 && batch > 0
  {
    d % batch == 0 && t == d / batch % T && i == d / batch / T
  }

  lemma OfThread(t: nat, i: nat, T: nat, batch: nat, d: nat)
    requires T > 0 && batch > 0 && OfBatch(t, i, T, batch, d)
    ensures t < T
  {
    Parts(d / batch, T);
  }

  lemma OfBatchOfOne(t: nat, i: nat, T: nat, batch: nat, d: nat)
    requires T > 0 && batch == 1
    ensures OfBatch(t, i, T, batch, d) <==> t == d % T && i == d / T
  {
    assert d / 1 == d && d % 1 == 0;
  }

  lemma SomeBatch(T: nat, batch: nat, d: nat) returns (t: nat, i: nat)
    requires T > 0 && batch > 0
    ensures OfBatch(t, i, T, batch, d) <==> d % batch == 0
  {
    t, i := d / batch % T, d / batch / T;
  }

  /**
   When all threads have finished, a document was stored exactly when the batch
   size divides its number, and then once, by one thread: batch d / batch goes to
   the threads in turn.
   */
  lemma StoredExactly(cfg: Config, s: State, t: nat, i: nat, d: nat)
    requires Reachable(cfg, s) && !s.broken && L.Accepted(cfg) && cfg.threads > 0 && cfg.batch > 0
    requires AllFinished(s) && d < cfg.docs
    ensures Took(s, t, i, d) <==> OfBatch(t, i, cfg.threads, cfg.batch, d)
  {
    ReachableThreads(cfg, s);
    if t < cfg.threads {
      TakesItsDocuments(cfg, s, t);
      StrideHolds(s.threads[t].taken, t, cfg.threads, cfg.batch, cfg.docs, i, d);
    } else if OfBatch(t, i, cfg.threads, cfg.batch, d) {
      OfThread(t, i, cfg.threads, cfg.batch, d);
    }
  }

  lemma ReachableThreads(cfg: Config, s: State)
    requires Reachable(cfg, s) && !s.broken
    ensures |s.threads| == cfg.threads
  {
    ReachableInv(cfg, s);
    assert |View(s).threads| == |s.threads|;
  }

  /** With batches of one every document is stored, once, by exactly one thread: the threads take turns. */
  lemma EveryDocumentOnce(cfg: Config, s: State, t: nat, i: nat, d: nat)
    requires Reachable(cfg, s) && !s.broken && L.Accepted(cfg) && cfg.threads > 0 && cfg.batch == 1
    requires AllFinished(s) && d < cfg.docs
    ensures Took(s, t, i, d) <==> t == d % cfg.threads && i == d / cfg.threads
  {
    StoredExactly(cfg, s, t, i, d);
    OfBatchOfOne(t, i, cfg.threads, cfg.batch, d);
  }

  ghost predicate Stored(s: State, d: nat) {
    exists t: nat, i: nat :: Took(s, t, i, d)
  }

  lemma StoredOrNot(cfg: Config, s: State, d: nat)
    requires Reachable(cfg, s) && !s.broken && L.Accepted(cfg) && cfg.threads > 0 && cfg.batch > 0
    requires AllFinished(s) && d < cfg.docs
    ensures Stored(s, d) <==> d % cfg.batch == 0
  {
    forall t: nat, i: nat
      ensures Took(s, t, i, d) ==> d % cfg.batch == 0
    {
      StoredExactly(cfg, s, t, i, d);
    }
    var t, i := SomeBatch(cfg.threads, cfg.batch, d);
    StoredExactly(cfg, s, t, i, d);
  }

  lemma FirstOrOne(d: nat, batch: nat)
    requires batch > 0
    ensures d == 0 || batch == 1 ==> d % batch == 0
    ensures d == 1 && batch > 1 ==> d % batch == 1
  {
  }

  /** Every document is stored exactly when batches have one document: with larger ones document 1 is left out. */
  lemma AllStoredExactly(cfg: Config, s: State)
    requires Reachable(cfg, s) && !s.broken && L.Accepted(cfg) && cfg.threads > 0 && cfg.batch > 0 && AllFinished(s)
    ensures (forall d: nat :: d < cfg.docs ==> Stored(s, d)) <==> cfg.batch == 1 || cfg.docs <= 1
  {
    if cfg.batch == 1 || cfg.docs <= 1 {
      forall d: nat | d < cfg.docs
        ensures Stored(s, d)
      {
        StoredOrNot(cfg, s, d);
        FirstOrOne(d, cfg.batch);
      }
    } else {
      StoredOrNot(cfg, s, 1);
      FirstOrOne(1, cfg.batch);
    }
  }

  // -------------------------------------------------------------------- harvesting

  /** Thread t's completions in the queue. */
  function Waiting(s: State, t: nat): nat {
    |Own(s.done, TidIs(s.cells.ctx, t))|
  }

  function Min(a: nat, b: nat): nat {
    if a < b then a else b
  }

  /** `getevents` hands out as many of the caller's completions as it may and as there are. */
  lemma HarvestCount<T>(done: seq<T>, max: nat, mine: T -> bool)
    ensures |Harvested(done, max, mine)| == Min(max, |Own(done, mine)|)
  {
    HarvestBounded(done, max, mine);
    var n := Looked(done, max, mine);
    assert done == done[..n] + done[n..];
    OwnConcat(done[..n], done[n..], mine);
    if n == |done| {
      assert done[n..] == [];
    }
  }

  lemma {:induction false} OwnConcat<T>(a: seq<T>, b: seq<T>, mine: T -> bool)
    ensures Own(a + b, mine) == Own(a, mine) + Own(b, mine)
    decreases |a|
  {
    if a == [] {
      assert a + b == b;
    } else {
      assert (a + b)[1..] == a[1..] + b;
      OwnConcat(a[1..], b, mine);
    }
  }

  /** Thread t is handling n harvested completions; its depth still counts them. */
  predicate InRound(s: State, t: nat, q: int, n: nat) {
    && t < |s.threads| && s.threads[t].q == q
    && match s.threads[t].pc
       case Notifying(got, _) => |got| == n
       case Releasing(_, nr) => nr == n
       case _ => false
  }

  lemma RoundGoesOn(cfg: Config, s: State, step: Step, t: nat, q: int, n: nat)
    requires InRound(s, t, q, n) && Enabled(cfg, s, step) && step != Settle(t)
    ensures InRound(Apply(cfg, s, step), t, q, n)
  {
  }

  lemma {:induction false} RoundLasts(cfg: Config, s: State, steps: seq<Step>, u: State, t: nat, q: int, n: nat)
    requires InRound(s, t, q, n) && Leads(cfg, s, steps, u) && Settle(t) !in steps
    ensures InRound(u, t, q, n)
    decreases |steps|
  {
    if steps != [] {
      RoundGoesOn(cfg, s, steps[0], t, q, n);
      RoundLasts(cfg, Apply(cfg, s, steps[0]), steps[1..], u, t, q, n);
    }
  }

  /**
   From a harvest of thread t to its settling, whatever the others do meanwhile,
   `cur_qdepth` falls by the completions of t that were in the queue, or to zero.
   */
  lemma HarvestRound(cfg: Config, s: State, t: nat, steps: seq<Step>, u: State)
    requires Enabled(cfg, s, Harvest(t)) && Leads(cfg, Apply(cfg, s, Harvest(t)), steps, u)
    requires Settle(t) !in steps && Enabled(cfg, u, Settle(t))
    ensures Apply(cfg, u, Settle(t)).threads[t].q == s.threads[t].q - Min(s.threads[t].q, Waiting(s, t))
  {
    var q := s.threads[t].q;
    HarvestCount(s.done, q, TidIs(s.cells.ctx, t));
    RoundLasts(cfg, Apply(cfg, s, Harvest(t)), steps, u, t, q, Min(q, Waiting(s, t)));
  }

  // ---------------------------------------------------------------------- progress

  /** The documents from number c on, stride by stride. */
  function Remaining(c: nat, stride: nat, docs: nat): nat
    decreases docs - c
  {
    if c >= docs || stride == 0 then 0 else 1 + Remaining(c + stride, stride, docs)
  }

  /** What a thread still has to do before it is back at its loop head or finished. */
  function StageRank(pc: Pc): nat {
    match pc
    case Filling => 1
    case Created(_, _) => 16
    case Taken(_, _, _, _) => 15
    case Submitting(_, _) => 14
    case Submitted => 4
    case Notifying(got, j) => |got| + 3 + if j <= |got| then |got| - j else 0
    case Releasing(got, _) => |got| + 2
    case Finished => 0
  }

  function ThreadRank(cfg: Config, th: Thread): nat {
    var stride := cfg.threads * cfg.batch;
    16 * Remaining(if Starting(th.pc) then th.c + stride else th.c, stride, cfg.docs) + StageRank(th.pc)
  }

  function Ranks(cfg: Config): Thread -> nat {
    (th: Thread) => ThreadRank(cfg, th)
  }

  function FlightRank(f: Flight): nat {
    if f.ctx == -1 then 9 else if !f.copied then 8 else if f.kd != -1 then 7 else 6
  }

  /** A bound on the steps left, but for harvests that find nothing. */
  function Rank(cfg: Config, s: State): nat {
    Total(s.threads, Ranks(cfg)) + Total(s.flights, FlightRank) + 5 * |s.done|
  }

  /** Any step but a harvest that finds nothing. */
  predicate Busy(s: State, step: Step) {
    step.Harvest? ==> Waiting(s, step.t) > 0
  }

  lemma CallbackDescends(cfg: Config, s: State, step: Step)
    requires Formed(s) && Enabled(cfg, s, step) && Callback(step) && !Apply(cfg, s, step).broken
    ensures Rank(cfg, Apply(cfg, s, step)) < Rank(cfg, s)
  {
    var u := Apply(cfg, s, step);
    assert FlightFormed(s.flights[step.i]);
    if step.Event? {
      TotalRemove(s.flights, FlightRank, step.i);
    } else {
      TotalUpdate(s.flights, FlightRank, step.i, u.flights[step.i]);
    }
  }

  lemma PositiveStride(cfg: Config, t: nat)
    requires t < cfg.threads && cfg.batch > 0
    ensures cfg.threads * cfg.batch > 0
  {
  }

  /** The thread's own part falls by more than what its step adds elsewhere. */
  lemma OwnPartFalls(cfg: Config, s: State, step: Step)
    requires Enabled(cfg, s, step) && !Callback(step) && !step.Harvest? && !Apply(cfg, s, step).broken
    requires |s.threads| == cfg.threads && cfg.batch > 0
    ensures var u := Apply(cfg, s, step);
            && u.threads == s.threads[step.t := u.threads[step.t]]
            && ThreadRank(cfg, u.threads[step.t]) + (if step.Submit? then 9 else 0) < ThreadRank(cfg, s.threads[step.t])
  {
    PositiveStride(cfg, step.t);
  }

  lemma ThreadDescends(cfg: Config, s: State, step: Step)
    requires Enabled(cfg, s, step) && !Callback(step) && !step.Harvest? && !Apply(cfg, s, step).broken
    requires |s.threads| == cfg.threads && cfg.batch > 0
    ensures Rank(cfg, Apply(cfg, s, step)) < Rank(cfg, s)
  {
    var u := Apply(cfg, s, step);
    OwnPartFalls(cfg, s, step);
    TotalUpdate(s.threads, Ranks(cfg), step.t, u.threads[step.t]);
    if step.Submit? {
      TotalAppend(s.flights, u.flights[|s.flights|], FlightRank);
    }
  }

  lemma HarvestDescends(cfg: Config, s: State, t: nat)
    requires Enabled(cfg, s, Harvest(t)) && Waiting(s, t) > 0
    ensures Rank(cfg, Apply(cfg, s, Harvest(t))) < Rank(cfg, s)
  {
    var u := Apply(cfg, s, Harvest(t));
    var q, mine := s.threads[t].q, TidIs(s.cells.ctx, t);
    HarvestCount(s.done, q, mine);
    HarvestLength(s.done, q, mine);
    TotalUpdate(s.threads, Ranks(cfg), t, u.threads[t]);
  }

  lemma HarvestLength<T>(done: seq<T>, max: nat, mine: T -> bool)
    ensures |Harvested(done, max, mine)| + |Left(done, max, mine)| == |done|
  {
    OwnLengths(done[..Looked(done, max, mine)], mine);
  }

  lemma {:induction false} OwnLengths<T>(s: seq<T>, mine: T -> bool)
    ensures |Own(s, mine)| + |Foreign(s, mine)| == |s|
    decreases |s|
  {
    if s != [] {
      OwnLengths(s[1..], mine);
    }
  }

  lemma BusyDescends(cfg: Config, s: State, step: Step)
    requires Formed(s) && Enabled(cfg, s, step) && Busy(s, step) && !Apply(cfg, s, step).broken
    requires |s.threads| == cfg.threads && cfg.batch > 0
    ensures Rank(cfg, Apply(cfg, s, step)) < Rank(cfg, s)
  {
    if Callback(step) {
      CallbackDescends(cfg, s, step);
    } else if step.Harvest? {
      HarvestDescends(cfg, s, step.t);
    } else {
      ThreadDescends(cfg, s, step);
    }
  }

  /** Every thread has finished and no operation is left anywhere. */
  predicate AllHome(s: State) {
    AllFinished(s) && s.flights == [] && s.done == []
  }

  /** The entries of thread t are in flight, completed, or carried by t itself. */
  lemma OthersCarryNone(cfg: Config, v: L.State, t: nat)
    requires L.Shaped(cfg, v) && t < |v.threads| && L.Carries(v.threads[t].pc) == []
    ensures L.Everywhere(v, L.IsOf(t)) == Total(v.flights, L.IsOf(t)) + Total(v.done, L.IsOf(t))
  {
    forall u | 0 <= u < |v.threads|
      ensures L.Of(L.IsOf(t))(v.threads[u]) == 0
    {
      assert L.Carrying(cfg, u, v.threads[u].pc);
      TotalZero(L.Carries(v.threads[u].pc), L.IsOf(t));
    }
    TotalZero(v.threads, L.Of(L.IsOf(t)));
  }

  /** With nothing in flight, what a thread at its loop head has out waits in the queue. */
  lemma OutIsWaiting(cfg: Config, s: State, t: nat)
    requires Inv(cfg, s) && s.flights == [] && t < |s.threads| && s.threads[t].pc.Filling? && s.threads[t].q > 0
    ensures Waiting(s, t) > 0
  {
    var v := View(s);
    assert v.threads[t] == ThreadView(s.cells, t, s.threads[t]) && L.ThreadKept(cfg, v, t);
    OthersCarryNone(cfg, v, t);
    TotalZero(v.done, L.IsOf(t));
    var i :| 0 <= i < |v.done| && L.IsOf(t)(v.done[i]) != 0;
    DoneInRange(cfg, s, i);
    OneOwn(s.done, TidIs(s.cells.ctx, t), i);
  }

  lemma {:induction false} OneOwn<T>(s: seq<T>, mine: T -> bool, i: nat)
    requires i < |s| && mine(s[i])
    ensures |Own(s, mine)| > 0
    decreases |s|
  {
    if i > 0 {
      OneOwn(s[1..], mine, i - 1);
    }
  }

  /** Once all threads have finished and nothing is in flight, nothing is left in the queue. */
  lemma NoneLeft(cfg: Config, s: State)
    requires Inv(cfg, s) && s.flights == [] && AllFinished(s)
    ensures s.done == []
  {
    var v := View(s);
    if s.done != [] {
      var t := v.done[0].tid;
      assert L.Complete(cfg, v.done[0]);
      assert v.threads[t] == ThreadView(s.cells, t, s.threads[t]) && L.ThreadKept(cfg, v, t);
      TotalAtLeast(v.done, L.IsOf(t), 0);
    }
  }

  lemma FlightGoesOn(cfg: Config, s: State) returns (step: Step)
    requires !s.broken && s.flights != []
    ensures Enabled(cfg, s, step) && Busy(s, step)
  {
    var f := s.flights[0];
    step := if f.ctx == -1 then Pick(0) else if !f.copied then Copy(0) else if f.kd != -1 then Return(0) else Event(0);
  }

  lemma ThreadGoesOn(cfg: Config, s: State, t: nat) returns (step: Step)
    requires !s.broken && t < |s.threads| && !s.threads[t].pc.Finished?
    requires s.threads[t].pc.Filling? && s.threads[t].q > 0 ==> Waiting(s, t) > 0
    ensures Enabled(cfg, s, step) && Busy(s, step)
  {
    var th := s.threads[t];
    match th.pc
    case Filling =>
      step := if WantsMore(cfg, th) then Create(t) else if th.q > 0 then Harvest(t) else Finish(t);
    case Created(_, _) => step := Take(t);
    case Taken(_, _, _, _) => step := Write(t);
    case Submitting(_, _) => step := Submit(t);
    case Submitted => step := Bump(t);
    case Notifying(_, _) => step := Notify(t);
    case Releasing(got, _) => step := if got != [] then Release(t) else Settle(t);
  }

  /** Short of the end there is always a step that is not an empty harvest. */
  lemma SomethingBusy(cfg: Config, s: State) returns (step: Step)
    requires Inv(cfg, s) && !s.broken && !AllHome(s)
    ensures Enabled(cfg, s, step) && Busy(s, step)
  {
    if s.flights != [] {
      step := FlightGoesOn(cfg, s);
    } else {
      if AllFinished(s) {
        NoneLeft(cfg, s);
      }
      var t :| 0 <= t < |s.threads| && !s.threads[t].pc.Finished?;
      if s.threads[t].pc.Filling? && s.threads[t].q > 0 {
        OutIsWaiting(cfg, s, t);
      }
      step := ThreadGoesOn(cfg, s, t);
    }
  }

  /** Every step of the run is something other than a harvest that finds nothing. */
  predicate AllBusy(cfg: Config, s: State, steps: seq<Step>)
    decreases |steps|
  {
    steps == [] ||
    (Busy(s, steps[0]) && (Enabled(cfg, s, steps[0]) ==> AllBusy(cfg, Apply(cfg, s, steps[0]), steps[1..])))
  }

  /** Such a run has at most `Rank` steps. */
  lemma {:induction false} BusyRunsEnd(cfg: Config, s: State, steps: seq<Step>, u: State)
    requires Reachable(cfg, s) && !s.broken && L.Accepted(cfg) && cfg.batch > 0 && Capacity(cfg) <= L.POOL
    requires Leads(cfg, s, steps, u) && AllBusy(cfg, s, steps)
    ensures |steps| <= Rank(cfg, s)
    decreases |steps|
  {
    if steps != [] {
      ReachableNext(cfg, s, steps[0]);
      NothingRunsDry(cfg, Apply(cfg, s, steps[0]));
      ReachableThreads(cfg, s);
      ReachableInv(cfg, s);
      BusyDescends(cfg, s, steps[0]);
      BusyRunsEnd(cfg, Apply(cfg, s, steps[0]), steps[1..], u);
    }
  }

  /**
   From every state of every run population can be completed: all threads
   finish, and every operation they began has been harvested.
   */
  lemma {:induction false} PopulationEnds(cfg: Config, s: State) returns (steps: seq<Step>, u: State)
    requires Reachable(cfg, s) && L.Accepted(cfg) && cfg.batch > 0 && Capacity(cfg) <= L.POOL
    ensures Leads(cfg, s, steps, u) && AllHome(u) && AllBusy(cfg, s, steps) && |steps| <= Rank(cfg, s)
    ensures Reachable(cfg, u) && !u.broken
    decreases Rank(cfg, s)
  {
    NothingRunsDry(cfg, s);
    if AllHome(s) {
      steps, u := [], s;
    } else {
      ReachableInv(cfg, s);
      ReachableThreads(cfg, s);
      var step := SomethingBusy(cfg, s);
      ReachableNext(cfg, s, step);
      NothingRunsDry(cfg, Apply(cfg, s, step));
      BusyDescends(cfg, s, step);
      var rest;
      rest, u := PopulationEnds(cfg, Apply(cfg, s, step));
      steps := [step] + rest;
      assert steps[1..] == rest;
    }
  }
}
