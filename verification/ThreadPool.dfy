/**
 The thread pool of `thpool.cc` as interleaved steps: workers looping on a
 binary semaphore, one job queue under `rwmutex`, and threads in `thpool_wait`.

 A step is what one thread does between two points where another can interfere.
 A section under the semaphore's own mutex is one step; `rwmutex` is held from
 changing the queue until the post that follows; `thcount_lock` is held by a
 waiter from acquiring it until it returns or goes to sleep.
 */
module ThreadPool {
  import opened Sums

  /** `Running(-1)` is a worker that pulled from an empty queue. */
  datatype Worker =
    | AtLoop                  // about to test the semaphore
    | Asleep                  // in the semaphore's condition variable
    | Took                    // took the token
    | Counted                 // incremented num_threads_working
    | Posting(job: int)       // pulled a job, more remain: about to post
    | Running(job: int)
    | Ran                     // about to decrement num_threads_working

  /**
   A thread using `thpool_wait`: `since` is the number of jobs pushed when it
   called, `before` the number pushed when it last read the queue's length.
   */
  datatype Waiter =
    | Idle
    | AtLock(since: nat)
    | AtLen(since: nat)
    | AtWorking(since: nat, before: nat)
    | Deciding(since: nat)    // found work to wait for, still holds the lock
    | Sleeping(since: nat)
    | Returned(since: nat, before: nat)

  /** Who holds `rwmutex`. */
  datatype Holder = Free | Pushing | Pulling(worker: nat)

  datatype State = State(
    workers: seq<Worker>,
    waiters: seq<Waiter>,
    queue: seq<int>,          // jobs are numbered in the order they are pushed
    pushed: nat,
    ran: seq<int>,            // jobs that were run to completion, in that order
    working: int,             // num_threads_working
    v: bool,                  // the semaphore
    rw: Holder,
    lock: int)                // the waiter holding thcount_lock, -1 if free

  datatype Step =
    | Push | PushPost(wake: nat)
    | Check(i: nat) | Count(i: nat) | Pull(i: nat) | PullPost(i: nat, wake: nat) | Run(i: nat) | Done(i: nat, wake: nat)
    | Call(w: nat) | Lock(w: nat) | ReadLen(w: nat) | ReadWorking(w: nat) | Sleep(w: nat)
    | SpuriousWorker(i: nat) | SpuriousWaiter(w: nat)

  function Init(workers: nat, waiters: nat): State {
    State(seq(workers, i => AtLoop), seq(waiters, i => Idle), [], 0, [], 0, false, Free, -1)
  }

  // ------------------------------------------------------------------------ steps

  /** A signal wakes one sleeper, whichever, and is lost only if there is none. */
  predicate WakesWorker(workers: seq<Worker>, k: nat) {
    if k < |workers| then workers[k].Asleep? else k == |workers| && Asleep !in workers
  }

  function WakeWorker(workers: seq<Worker>, k: nat): seq<Worker> {
    if k < |workers| then workers[k := AtLoop] else workers
  }

  predicate WakesWaiter(waiters: seq<Waiter>, k: nat) {
    if k < |waiters| then waiters[k].Sleeping? else k == |waiters| && forall x :: x in waiters ==> !x.Sleeping?
  }

  function WakeWaiter(waiters: seq<Waiter>, k: nat): seq<Waiter> {
    if k < |waiters| && waiters[k].Sleeping? then waiters[k := AtLock(waiters[k].since)] else waiters
  }

  predicate Enabled(s: State, step: Step) {
    match step
    case Push => s.rw.Free?
    case PushPost(wake) => s.rw.Pushing? && WakesWorker(s.workers, wake)
    case Check(i) => i < |s.workers| && s.workers[i].AtLoop?
    case Count(i) => i < |s.workers| && s.workers[i].Took? && s.lock == -1
    case Pull(i) => i < |s.workers| && s.workers[i].Counted? && s.rw.Free?
    case PullPost(i, wake) => i < |s.workers| && s.workers[i].Posting? && WakesWorker(s.workers, wake)
    case Run(i) => i < |s.workers| && s.workers[i].Running?
    case Done(i, wake) =>
      i < |s.workers| && s.workers[i].Ran? && s.lock == -1 && (s.working == 1 ==> WakesWaiter(s.waiters, wake))
    case Call(w) => w < |s.waiters| && (s.waiters[w].Idle? || s.waiters[w].Returned?)
    case Lock(w) => w < |s.waiters| && s.waiters[w].AtLock? && s.lock == -1
    case ReadLen(w) => w < |s.waiters| && s.waiters[w].AtLen?
    case ReadWorking(w) => w < |s.waiters| && s.waiters[w].AtWorking?
    case Sleep(w) => w < |s.waiters| && s.waiters[w].Deciding?
    case SpuriousWorker(i) => i < |s.workers| && s.workers[i].Asleep?
    case SpuriousWaiter(w) => w < |s.waiters| && s.waiters[w].Sleeping?
  }

  /** `jobqueue_pull` up to its post. */
  function Pulled(s: State, i: nat): State
    requires i < |s.workers|
  {
    if s.queue == [] then
      s.(workers := s.workers[i := Running(-1)])
    else if |s.queue| == 1 then
      s.(workers := s.workers[i := Running(s.queue[0])], queue := [])
    else
      s.(workers := s.workers[i := Posting(s.queue[0])], queue := s.queue[1..], rw := Pulling(i))
  }

  /** The end of a worker's round: the last one out signals `threads_all_idle`. */
  function Finished(s: State, i: nat, wake: nat): State
    requires i < |s.workers|
  {
    s.(workers := s.workers[i := AtLoop], working := s.working - 1,
       waiters := if s.working == 1 then WakeWaiter(s.waiters, wake) else s.waiters)
  }

  function Apply(s: State, step: Step): State
    requires Enabled(s, step)
  {
    match step
    case Push => s.(queue := s.queue + [s.pushed], pushed := s.pushed + 1, rw := Pushing)
    case PushPost(wake) => s.(v := true, workers := WakeWorker(s.workers, wake), rw := Free)
    case Check(i) =>
      if s.v then s.(v := false, workers := s.workers[i := Took]) else s.(workers := s.workers[i := Asleep])
    case Count(i) => s.(workers := s.workers[i := Counted], working := s.working + 1)
    case Pull(i) => Pulled(s, i)
    case PullPost(i, wake) =>
      s.(v := true, workers := WakeWorker(s.workers, wake)[i := Running(s.workers[i].job)], rw := Free)
    case Run(i) =>
      var job := s.workers[i].job;
      s.(workers := s.workers[i := Ran], ran := if job == -1 then s.ran else s.ran + [job])
    case Done(i, wake) => Finished(s, i, wake)
    case Call(w) => s.(waiters := s.waiters[w := AtLock(s.pushed)])
    case Lock(w) => s.(waiters := s.waiters[w := AtLen(s.waiters[w].since)], lock := w)
    case ReadLen(w) =>
      var since := s.waiters[w].since;
      s.(waiters := s.waiters[w := if |s.queue| != 0 then Deciding(since) else AtWorking(since, s.pushed)])
    case ReadWorking(w) =>
      var x := s.waiters[w];
      if s.working != 0 then s.(waiters := s.waiters[w := Deciding(x.since)])
      else s.(waiters := s.waiters[w := Returned(x.since, x.before)], lock := -1)
    case Sleep(w) => s.(waiters := s.waiters[w := Sleeping(s.waiters[w].since)], lock := -1)
    case SpuriousWorker(i) => s.(workers := s.workers[i := AtLoop])
    case SpuriousWaiter(w) => s.(waiters := s.waiters[w := AtLock(s.waiters[w].since)])
  }

  /** The steps are each enabled in turn and lead from s to t. */
  predicate Leads(s: State, steps: seq<Step>, t: State)
    decreases |steps|
  {
    if steps == [] then s == t else Enabled(s, steps[0]) && Leads(Apply(s, steps[0]), steps[1..], t)
  }

  ghost predicate Reachable(workers: nat, waiters: nat, s: State) {
    exists steps :: Leads(Init(workers, waiters), steps, s)
  }

  // ------------------------------------------------------------------ invariants

  function Busy(x: Worker): nat {
    if x.Counted? || x.Posting? || x.Running? || x.Ran? then 1 else 0
  }

  predicate Holds(x: Worker) {
    x.Posting? || (x.Running? && x.job != -1)
  }

  predicate InLock(x: Waiter) {
    x.AtLen? || x.AtWorking? || x.Deciding?
  }

  /** The number of jobs pulled so far. */
  function Taken(s: State): int {
    s.pushed - |s.queue|
  }

  ghost predicate Counts(s: State) {
    s.working == Total(s.workers, Busy)
  }

  /** The queue holds exactly the jobs not pulled yet, oldest first. */
  ghost predicate Fifo(s: State) {
    Taken(s) >= 0 && forall k :: 0 <= k < |s.queue| ==> s.queue[k] == Taken(s) + k
  }

  ghost predicate HeldBy(s: State, i: int, j: int) {
    0 <= i < |s.workers| && Holds(s.workers[i]) && s.workers[i].job == j
  }

  ghost predicate Held(s: State, j: int) {
    exists i :: HeldBy(s, i, j)
  }

  /** Every pulled job is held by exactly one worker, or was run exactly once. */
  ghost predicate Once(s: State) {
    && (forall a, b :: 0 <= a < b < |s.ran| ==> s.ran[a] != s.ran[b])
    && (forall j :: j in s.ran ==> 0 <= j < Taken(s))
    && (forall i, j :: HeldBy(s, i, j) ==> 0 <= j < Taken(s) && j !in s.ran)
    && (forall i, k, j :: HeldBy(s, i, j) && HeldBy(s, k, j) ==> i == k)
    && (forall j :: 0 <= j < Taken(s) ==> j in s.ran || Held(s, j))
  }

  /** `rwmutex` is held by the worker whose state says so. */
  ghost predicate OnePulls(s: State) {
    && (forall i :: 0 <= i < |s.workers| ==> (s.workers[i].Posting? <==> s.rw == Pulling(i)))
    && (s.rw.Pulling? ==> s.rw.worker < |s.workers|)
  }

  /** `thcount_lock` is held by the waiter whose state says so. */
  ghost predicate OneInLock(s: State) {
    && (forall w :: 0 <= w < |s.waiters| ==> (InLock(s.waiters[w]) <==> s.lock == w))
    && -1 <= s.lock < |s.waiters|
  }

  ghost predicate Exclusive(s: State) {
    OnePulls(s) && OneInLock(s)
  }

  /** Worker i took the token and has not pulled yet. */
  predicate HasToken(s: State, i: int) {
    0 <= i < |s.workers| && (s.workers[i].Took? || s.workers[i].Counted?)
  }

  /** No lost wakeup, on the side of the token. */
  ghost predicate Token(s: State) {
    s.queue != [] ==> s.v || !s.rw.Free? || exists i :: HasToken(s, i)
  }

  predicate SomeAwake(workers: seq<Worker>) {
    exists i :: 0 <= i < |workers| && !workers[i].Asleep?
  }

  /** No lost wakeup, on the side of the sleepers. */
  ghost predicate Awake(s: State) {
    s.v && s.workers != [] ==> SomeAwake(s.workers)
  }

  /** What a thread in `thpool_wait` knows. */
  ghost predicate Informed(s: State, x: Waiter) {
    match x
    case AtWorking(since, before) => since <= before <= Taken(s)
    case Returned(since, before) => since <= before && forall j :: 0 <= j < before ==> j in s.ran
    case Idle => true
    case _ => x.since <= s.pushed
  }

  ghost predicate Waits(s: State) {
    forall w :: 0 <= w < |s.waiters| ==> Informed(s, s.waiters[w])
  }

  /** Something is still to happen for which the sleeper will be signalled. */
  predicate Pending(s: State) {
    s.queue != [] || s.working > 0
  }

  ghost predicate Slept(s: State) {
    forall w :: 0 <= w < |s.waiters| && (s.waiters[w].Deciding? || s.waiters[w].Sleeping?) ==> Pending(s)
  }

  ghost predicate Inv(s: State) {
    Counts(s) && Fifo(s) && Once(s) && Exclusive(s) && Token(s) && Awake(s) && Waits(s)
  }

  lemma {:induction false} InitInv(workers: nat, waiters: nat)
    ensures Inv(Init(workers, waiters)) && Slept(Init(workers, waiters))
  {
    TotalZero(Init(workers, waiters).workers, Busy);
  }

  lemma WakeIsIdle(workers: seq<Worker>, k: nat)
    requires WakesWorker(workers, k)
    ensures Total(WakeWorker(workers, k), Busy) == Total(workers, Busy)
  {
    if k < |workers| {
      TotalUpdate(workers, Busy, k, AtLoop);
    }
  }

  lemma KeepsCounts(s: State, step: Step)
    requires Counts(s) && Enabled(s, step)
    ensures Counts(Apply(s, step))
  {
    var t := Apply(s, step);
    if step.PushPost? {
      WakeIsIdle(s.workers, step.wake);
    } else if step.PullPost? {
      WakeIsIdle(s.workers, step.wake);
      TotalUpdate(WakeWorker(s.workers, step.wake), Busy, step.i, t.workers[step.i]);
    } else if step.Check? || step.Count? || step.Pull? || step.Run? || step.Done? || step.SpuriousWorker? {
      TotalUpdate(s.workers, Busy, step.i, t.workers[step.i]);
    }
  }

  lemma KeepsFifo(s: State, step: Step)
    requires Fifo(s) && Enabled(s, step)
    ensures Fifo(Apply(s, step))
  {
  }

  /** Once is kept while nobody starts or stops holding a job. */
  lemma SameHolders(s: State, t: State)
    requires Once(s) && t.ran == s.ran && Taken(t) == Taken(s)
    requires forall i, j :: HeldBy(s, i, j) <==> HeldBy(t, i, j)
    ensures Once(t)
  {
    forall j | 0 <= j < Taken(t)
      ensures j in t.ran || Held(t, j)
    {
      if j !in s.ran {
        var i :| HeldBy(s, i, j);
        assert HeldBy(t, i, j);
      }
    }
  }

  lemma KeepsOncePull(s: State, i: nat)
    requires Fifo(s) && Once(s) && Enabled(s, Pull(i))
    ensures Once(Apply(s, Pull(i)))
  {
    var t := Apply(s, Pull(i));
    assert forall k, j :: HeldBy(t, k, j) <==> if k == i then s.queue != [] && j == Taken(s) else HeldBy(s, k, j);
    if s.queue == [] {
      SameHolders(s, t);
    } else {
      forall j | 0 <= j < Taken(t)
        ensures j in t.ran || Held(t, j)
      {
        if j == Taken(s) {
          assert HeldBy(t, i, j);
        } else if j !in s.ran {
          var k :| HeldBy(s, k, j);
          assert HeldBy(t, k, j);
        }
      }
    }
  }

  lemma KeepsOnceRun(s: State, i: nat)
    requires Once(s) && Enabled(s, Run(i))
    ensures Once(Apply(s, Run(i)))
  {
    var t := Apply(s, Run(i));
    var job := s.workers[i].job;
    assert forall k, j :: HeldBy(t, k, j) <==> k != i && HeldBy(s, k, j);
    if job == -1 {
      SameHolders(s, t);
    } else {
      assert HeldBy(s, i, job);
      forall j | 0 <= j < Taken(t)
        ensures j in t.ran || Held(t, j)
      {
        if j != job && j !in s.ran {
          var k :| HeldBy(s, k, j);
          assert HeldBy(t, k, j);
        }
      }
    }
  }

  lemma KeepsOnce(s: State, step: Step)
    requires Fifo(s) && Once(s) && Enabled(s, step)
    ensures Once(Apply(s, step))
  {
    match step
    case Pull(i) => KeepsOncePull(s, i);
    case Run(i) => KeepsOnceRun(s, i);
    case _ => SameHolders(s, Apply(s, step));
  }

  lemma KeepsOnePulls(s: State, step: Step)
    requires OnePulls(s) && Enabled(s, step)
    ensures OnePulls(Apply(s, step))
  {
  }

  lemma KeepsOneInLock(s: State, step: Step)
    requires OneInLock(s) && Enabled(s, step)
    ensures OneInLock(Apply(s, step))
  {
  }

  lemma KeepsToken(s: State, step: Step)
    requires Token(s) && Enabled(s, step)
    ensures Token(Apply(s, step))
  {
    var t := Apply(s, step);
    if !step.Pull? && exists i :: HasToken(s, i) {
      var i :| HasToken(s, i);
      assert t.v || HasToken(t, i);
    } else if step.Check? && s.v {
      assert HasToken(t, step.i);
    }
  }

  lemma KeepsAwake(s: State, step: Step)
    requires Awake(s) && Enabled(s, step)
    ensures Awake(Apply(s, step))
  {
    var t := Apply(s, step);
    if t.v && t.workers != [] {
      if step.PushPost? {
        assert !t.workers[if step.wake < |t.workers| then step.wake else 0].Asleep?;
      } else if step.PullPost? {
        assert !t.workers[step.i].Asleep?;
      } else {
        var i :| 0 <= i < |s.workers| && !s.workers[i].Asleep?;
        assert !t.workers[i].Asleep?;
      }
    }
  }

  lemma KeepsWaits(s: State, step: Step)
    requires Counts(s) && Fifo(s) && Once(s) && Waits(s) && Enabled(s, step)
    ensures Waits(Apply(s, step))
  {
    var t := Apply(s, step);
    if step.ReadWorking? && s.working == 0 {
      NobodyWorking(s);
    }
    forall w | 0 <= w < |t.waiters|
      ensures Informed(t, t.waiters[w])
    {
      assert Informed(s, s.waiters[w]);
    }
  }

  /** With no worker counted, every pulled job has been run. */
  lemma NobodyWorking(s: State)
    requires Counts(s) && Once(s) && s.working == 0
    ensures forall j :: 0 <= j < Taken(s) ==> j in s.ran
  {
    TotalZero(s.workers, Busy);
    forall j | 0 <= j < Taken(s)
      ensures j in s.ran
    {
      assert forall i :: HeldBy(s, i, j) ==> Busy(s.workers[i]) == 1;
    }
  }

  lemma KeepsSlept(s: State, step: Step)
    requires Counts(s) && Exclusive(s) && Slept(s) && Enabled(s, step) && (|s.waiters| <= 1 || s.workers == [])
    ensures Slept(Apply(s, step))
  {
    var t := Apply(s, step);
    if step.Pull? {
      TotalZero(s.workers, Busy);
      assert Busy(s.workers[step.i]) == 1;
    }
    forall w | 0 <= w < |t.waiters| && (t.waiters[w].Deciding? || t.waiters[w].Sleeping?)
      ensures Pending(t)
    {
    }
  }

  // ---------------------------------------------------------------- every run

  lemma KeepsInv(s: State, step: Step)
    requires Inv(s) && Enabled(s, step)
    ensures Inv(Apply(s, step))
  {
    KeepsCounts(s, step);
    KeepsFifo(s, step);
    KeepsOnce(s, step);
    KeepsOnePulls(s, step);
    KeepsOneInLock(s, step);
    KeepsToken(s, step);
    KeepsAwake(s, step);
    KeepsWaits(s, step);
  }

  lemma KeepsThreads(s: State, step: Step)
    requires Enabled(s, step)
    ensures |Apply(s, step).workers| == |s.workers| && |Apply(s, step).waiters| == |s.waiters|
  {
  }

  lemma {:induction false} RunKeepsInv(s: State, steps: seq<Step>, t: State)
    requires Inv(s) && Leads(s, steps, t)
    ensures Inv(t) && |t.workers| == |s.workers| && |t.waiters| == |s.waiters|
    ensures Slept(s) && (|s.waiters| <= 1 || s.workers == []) ==> Slept(t)
    decreases |steps|
  {
    if steps != [] {
      KeepsInv(s, steps[0]);
      KeepsThreads(s, steps[0]);
      if Slept(s) && (|s.waiters| <= 1 || s.workers == []) {
        KeepsSlept(s, steps[0]);
      }
      RunKeepsInv(Apply(s, steps[0]), steps[1..], t);
    }
  }

  lemma ReachableInv(workers: nat, waiters: nat, s: State)
    requires Reachable(workers, waiters, s)
    ensures Inv(s) && |s.workers| == workers && |s.waiters| == waiters
    ensures waiters <= 1 || workers == 0 ==> Slept(s)
  {
    var steps :| Leads(Init(workers, waiters), steps, s);
    InitInv(workers, waiters);
    RunKeepsInv(Init(workers, waiters), steps, s);
  }

  /**
   No lost wakeup: while jobs are queued, the semaphore is up, or a post is
   about to happen, or a worker holds the token; and while the semaphore is up
   some worker is awake to find it so.
   */
  lemma NoLostWakeup(workers: nat, waiters: nat, s: State)
    requires Reachable(workers, waiters, s)
    ensures s.queue != [] ==>
              || s.v || s.rw.Pushing?
              || (s.rw.Pulling? && s.rw.worker < |s.workers| && s.workers[s.rw.worker].Posting?)
              || exists i :: HasToken(s, i)
    ensures s.v && workers > 0 ==> SomeAwake(s.workers)
  {
    ReachableInv(workers, waiters, s);
  }

  /**
   Jobs are pulled in the order they were pushed; each pulled job is held by
   exactly one worker until it has run, and runs once.
   */
  lemma EachJobOnce(workers: nat, waiters: nat, s: State, j: int)
    requires Reachable(workers, waiters, s) && 0 <= j < s.pushed
    ensures j in s.queue <==> Taken(s) <= j
    ensures j < Taken(s) ==> (j in s.ran <==> !Held(s, j))
    ensures multiset(s.ran)[j] <= 1
    ensures forall i, k :: HeldBy(s, i, j) && HeldBy(s, k, j) ==> i == k
  {
    ReachableInv(workers, waiters, s);
    if Taken(s) <= j {
      assert s.queue[j - Taken(s)] == j;
    }
    AtMostOnce(s.ran, j);
  }

  lemma {:induction false} AtMostOnce(r: seq<int>, j: int)
    requires forall a, b :: 0 <= a < b < |r| ==> r[a] != r[b]
    ensures multiset(r)[j] <= 1
  {
    if r != [] {
      AtMostOnce(r[1..], j);
      assert r == [r[0]] + r[1..];
      assert r[0] !in r[1..];
    }
  }

  /** When `thpool_wait` returns, every job pushed before its last look at the queue has run. */
  lemma WaitReturnsAfterJobs(workers: nat, waiters: nat, s: State, w: nat)
    requires Reachable(workers, waiters, s) && w < waiters && |s.waiters| == waiters
    requires s.waiters[w].Returned?
    ensures s.waiters[w].since <= s.waiters[w].before
    ensures forall j :: 0 <= j < s.waiters[w].before ==> j in s.ran
  {
    ReachableInv(workers, waiters, s);
    assert Informed(s, s.waiters[w]);
  }

  // ------------------------------------------------------------------ progress

  /** The steps the pool and its waiters take of themselves. */
  predicate Internal(step: Step) {
    !step.Push? && !step.Call? && !step.SpuriousWorker? && !step.SpuriousWaiter?
  }

  function WorkerRank(x: Worker): nat {
    match x
    case Asleep => 0
    case AtLoop => 1
    case Ran => 6
    case Running(_) => 7
    case Counted => 8
    case Took => 9
    case Posting(_) => 18
  }

  function WaiterRank(x: Waiter): nat {
    match x
    case AtLock(_) => 4
    case AtLen(_) => 3
    case AtWorking(_, _) => 2
    case Deciding(_) => 1
    case _ => 0
  }

  /** How many internal steps are left at most. */
  function Rank(s: State): nat {
    Total(s.workers, WorkerRank) + Total(s.waiters, WaiterRank) + 11 * |s.queue|
    + (if s.v then 9 else 0) + (if s.rw.Pushing? then 11 else 0)
  }

  lemma WakeAddsOne(workers: seq<Worker>, k: nat)
    requires WakesWorker(workers, k)
    ensures Total(WakeWorker(workers, k), WorkerRank) <= Total(workers, WorkerRank) + 1
  {
    if k < |workers| {
      TotalUpdate(workers, WorkerRank, k, AtLoop);
    }
  }

  lemma PostsDescend(s: State, step: Step)
    requires Enabled(s, step) && (step.PushPost? || step.PullPost?)
    ensures Rank(Apply(s, step)) < Rank(s)
  {
    WakeAddsOne(s.workers, step.wake);
    if step.PullPost? {
      TotalUpdate(WakeWorker(s.workers, step.wake), WorkerRank, step.i, Running(s.workers[step.i].job));
    }
  }

  lemma DoneDescends(s: State, i: nat, wake: nat)
    requires Enabled(s, Done(i, wake))
    ensures Rank(Apply(s, Done(i, wake))) < Rank(s)
  {
    TotalUpdate(s.workers, WorkerRank, i, AtLoop);
    if wake < |s.waiters| && s.waiters[wake].Sleeping? {
      TotalUpdate(s.waiters, WaiterRank, wake, AtLock(s.waiters[wake].since));
    }
  }

  lemma WorkerDescends(s: State, step: Step)
    requires Enabled(s, step) && (step.Check? || step.Count? || step.Pull? || step.Run?)
    ensures Rank(Apply(s, step)) < Rank(s)
  {
    TotalUpdate(s.workers, WorkerRank, step.i, Apply(s, step).workers[step.i]);
  }

  lemma WaiterDescends(s: State, step: Step)
    requires Enabled(s, step) && (step.Lock? || step.ReadLen? || step.ReadWorking? || step.Sleep?)
    ensures Rank(Apply(s, step)) < Rank(s)
  {
    TotalUpdate(s.waiters, WaiterRank, step.w, Apply(s, step).waiters[step.w]);
  }

  lemma StepsDescend(s: State, step: Step)
    requires Enabled(s, step) && Internal(step)
    ensures Rank(Apply(s, step)) < Rank(s)
  {
    if step.PushPost? || step.PullPost? {
      PostsDescend(s, step);
    } else if step.Done? {
      DoneDescends(s, step.i, step.wake);
    } else if step.Check? || step.Count? || step.Pull? || step.Run? {
      WorkerDescends(s, step);
    } else {
      WaiterDescends(s, step);
    }
  }

  /** Without new pushes, calls and spurious wakeups the pool comes to rest. */
  lemma {:induction false} RunsEnd(s: State, steps: seq<Step>, t: State)
    requires Leads(s, steps, t) && forall k :: 0 <= k < |steps| ==> Internal(steps[k])
    ensures |steps| + Rank(t) <= Rank(s)
    decreases |steps|
  {
    if steps != [] {
      StepsDescend(s, steps[0]);
      RunsEnd(Apply(s, steps[0]), steps[1..], t);
    }
  }

  ghost predicate AtRest(s: State) {
    forall step :: Internal(step) ==> !Enabled(s, step)
  }

  lemma SomeWorkerToWake(workers: seq<Worker>) returns (k: nat)
    ensures WakesWorker(workers, k)
  {
    if Asleep in workers {
      k :| k < |workers| && workers[k] == Asleep;
    } else {
      k := |workers|;
    }
  }

  lemma SomeWaiterToWake(waiters: seq<Waiter>) returns (k: nat)
    ensures WakesWaiter(waiters, k)
  {
    if k0: nat :| k0 < |waiters| && waiters[k0].Sleeping? {
      k := k0;
    } else {
      k := |waiters|;
    }
  }

  /** Whoever holds a lock can go on. */
  lemma HolderCanStep(s: State) returns (step: Step)
    requires Exclusive(s) && !(s.rw.Free? && s.lock == -1)
    ensures Internal(step) && Enabled(s, step)
  {
    var k := SomeWorkerToWake(s.workers);
    if s.rw.Pushing? {
      step := PushPost(k);
    } else if s.rw.Pulling? {
      step := PullPost(s.rw.worker, k);
    } else {
      assert InLock(s.waiters[s.lock]);
      match s.waiters[s.lock]
      case AtLen(_) => step := ReadLen(s.lock);
      case AtWorking(_, _) => step := ReadWorking(s.lock);
      case Deciding(_) => step := Sleep(s.lock);
    }
  }

  lemma LocksFreeAtRest(s: State)
    requires Inv(s) && AtRest(s)
    ensures s.rw.Free? && s.lock == -1
  {
    if !(s.rw.Free? && s.lock == -1) {
      var step := HolderCanStep(s);
    }
  }

  lemma WorkersSleepAtRest(s: State, i: nat)
    requires Inv(s) && AtRest(s) && i < |s.workers|
    ensures s.workers[i].Asleep?
  {
    LocksFreeAtRest(s);
    var w := SomeWaiterToWake(s.waiters);
    assert !Enabled(s, Check(i)) && !Enabled(s, Count(i)) && !Enabled(s, Pull(i));
    assert !Enabled(s, Run(i)) && !Enabled(s, Done(i, w));
  }

  /** At rest, every job pushed has run. */
  lemma AtRestAllRan(s: State)
    requires Inv(s) && AtRest(s) && s.workers != []
    ensures s.queue == [] && s.working == 0 && forall j :: 0 <= j < s.pushed ==> j in s.ran
  {
    forall i: nat | i < |s.workers|
      ensures s.workers[i].Asleep?
    {
      WorkersSleepAtRest(s, i);
    }
    LocksFreeAtRest(s);
    TotalZero(s.workers, Busy);
    NobodyWorking(s);
  }

  lemma WaitersAtRest(s: State, w: nat)
    requires Inv(s) && AtRest(s) && w < |s.waiters|
    ensures s.waiters[w].Idle? || s.waiters[w].Returned? || s.waiters[w].Sleeping?
  {
    LocksFreeAtRest(s);
    assert !Enabled(s, Lock(w)) && !InLock(s.waiters[w]);
  }

  /**
   From any reachable state the pool, left alone, stops within Rank steps with
   every job run; a single waiter has then returned.
   */
  lemma PoolDrains(workers: nat, waiters: nat, s: State, steps: seq<Step>, t: State)
    requires Reachable(workers, waiters, s) && workers > 0 && Leads(s, steps, t)
    requires forall k :: 0 <= k < |steps| ==> Internal(steps[k])
    ensures |steps| <= Rank(s)
    ensures AtRest(t) ==> t.queue == [] && t.working == 0 && forall j :: 0 <= j < t.pushed ==> j in t.ran
    ensures AtRest(t) && waiters == 1 ==> |t.waiters| == 1 && (t.waiters[0].Idle? || t.waiters[0].Returned?)
  {
    RunsEnd(s, steps, t);
    ReachableInv(workers, waiters, s);
    RunKeepsInv(s, steps, t);
    if AtRest(t) {
      AtRestAllRan(t);
      if waiters == 1 {
        WaitersAtRest(t, 0);
      }
    }
  }

  /** The pool can always be left alone until it rests, so the bound above is not empty. */
  lemma {:induction false} PoolComesToRest(s: State) returns (steps: seq<Step>, t: State)
    ensures Leads(s, steps, t) && AtRest(t) && forall k :: 0 <= k < |steps| ==> Internal(steps[k])
    decreases Rank(s)
  {
    if AtRest(s) {
      steps, t := [], s;
    } else {
      var step :| Internal(step) && Enabled(s, step);
      StepsDescend(s, step);
      var rest;
      rest, t := PoolComesToRest(Apply(s, step));
      steps := [step] + rest;
      assert steps[1..] == rest;
    }
  }

  // ------------------------------------------------------------------- stranding

  /** A waiter asleep although nothing is queued and nobody is working. */
  ghost predicate Stranded(s: State) {
    exists w :: 0 <= w < |s.waiters| && s.waiters[w].Sleeping? && !Pending(s)
  }

  ghost predicate NeverStranded(workers: nat, waiters: nat) {
    forall s :: Reachable(workers, waiters, s) ==> !Stranded(s)
  }

  lemma {:induction false} LeadsOn(s: State, steps: seq<Step>, t: State, more: seq<Step>, u: State)
    requires Leads(s, steps, t) && Leads(t, more, u)
    ensures Leads(s, steps + more, u)
    decreases |steps|
  {
    if steps == [] {
      assert steps + more == more;
    } else {
      LeadsOn(Apply(s, steps[0]), steps[1..], t, more, u);
      assert (steps + more)[1..] == steps[1..] + more;
    }
  }

  lemma OneStep(s: State, step: Step)
    requires Enabled(s, step)
    ensures Leads(s, [step], Apply(s, step))
  {
  }

  lemma ReachableNext(workers: nat, waiters: nat, s: State, step: Step)
    requires Reachable(workers, waiters, s) && Enabled(s, step)
    ensures Reachable(workers, waiters, Apply(s, step))
  {
    var steps :| Leads(Init(workers, waiters), steps, s);
    OneStep(s, step);
    LeadsOn(Init(workers, waiters), steps, s, [step], Apply(s, step));
  }

  /** A waiter that calls while a job is queued goes to sleep. */
  lemma GoesToSleep(workers: nat, waiters: nat, s: State, w: nat)
    requires Reachable(workers, waiters, s) && s.lock == -1 && s.queue != []
    requires w < |s.waiters| && s.waiters[w].Idle?
    ensures Reachable(workers, waiters, s.(waiters := s.waiters[w := Sleeping(s.pushed)]))
  {
    ReachableNext(workers, waiters, s, Call(w));
    var a := Apply(s, Call(w));
    ReachableNext(workers, waiters, a, Lock(w));
    var b := Apply(a, Lock(w));
    ReachableNext(workers, waiters, b, ReadLen(w));
    var c := Apply(b, ReadLen(w));
    ReachableNext(workers, waiters, c, Sleep(w));
    assert Apply(c, Sleep(w)) == s.(waiters := s.waiters[w := Sleeping(s.pushed)]);
  }

  /** Worker 0 runs the only job and wakes waiter 0. */
  lemma ServesTheJob(workers: nat, waiters: nat, s: State)
    requires Reachable(workers, waiters, s) && s.v && |s.queue| == 1 && s.queue[0] != -1
    requires s.working == 0 && s.lock == -1 && s.rw.Free?
    requires |s.workers| > 0 && s.workers[0].AtLoop? && |s.waiters| > 0 && s.waiters[0].Sleeping?
    ensures Reachable(workers, waiters, s.(v := false, queue := [], ran := s.ran + s.queue,
                                           waiters := s.waiters[0 := AtLock(s.waiters[0].since)]))
  {
    ReachableNext(workers, waiters, s, Check(0));
    var a := Apply(s, Check(0));
    ReachableNext(workers, waiters, a, Count(0));
    var b := Apply(a, Count(0));
    ReachableNext(workers, waiters, b, Pull(0));
    var c := Apply(b, Pull(0));
    ReachableNext(workers, waiters, c, Run(0));
    var d := Apply(c, Run(0));
    ReachableNext(workers, waiters, d, Done(0, 0));
    var e := Apply(d, Done(0, 0));
    assert e.workers == s.workers;
    assert e.ran == s.ran + s.queue;
  }

  /** With two waiters the one signal for the last job leaves one of them asleep. */
  lemma TwoWaitersStrand(workers: nat, waiters: nat) returns (s: State)
    requires workers > 0 && waiters >= 2
    ensures Reachable(workers, waiters, s) && Stranded(s)
  {
    var init := Init(workers, waiters);
    assert Leads(init, [], init);
    ReachableNext(workers, waiters, init, Push);
    var a := Apply(init, Push);
    ReachableNext(workers, waiters, a, PushPost(workers));
    var b := Apply(a, PushPost(workers));
    GoesToSleep(workers, waiters, b, 0);
    var c := b.(waiters := b.waiters[0 := Sleeping(b.pushed)]);
    GoesToSleep(workers, waiters, c, 1);
    var d := c.(waiters := c.waiters[1 := Sleeping(c.pushed)]);
    ServesTheJob(workers, waiters, d);
    s := d.(v := false, queue := [], ran := d.ran + d.queue, waiters := d.waiters[0 := AtLock(d.waiters[0].since)]);
    assert s.waiters[1].Sleeping?;
  }

  /** No waiter is ever stranded exactly when at most one thread waits, or nobody works. */
  lemma StrandingExactly(workers: nat, waiters: nat)
    ensures NeverStranded(workers, waiters) <==> waiters <= 1 || workers == 0
  {
    if waiters <= 1 || workers == 0 {
      forall s | Reachable(workers, waiters, s)
        ensures !Stranded(s)
      {
        ReachableInv(workers, waiters, s);
      }
    } else {
      var s := TwoWaitersStrand(workers, waiters);
    }
  }
}
