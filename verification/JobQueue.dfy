/**
 The job queue of `thpool.cc`: a singly linked list from the oldest job to the
 newest, each job's `prev` leading to the job pushed after it.
 */
module JobQueue {

  class Job {
    var prev: Job?

    constructor ()
      ensures prev == null
    {
      prev := null;
    }
  }

  /** The i-th job leads to the one pushed after it, the newest to none. */
  ghost predicate LeadsToNext(jobs: seq<Job>, i: nat)
    requires i < |jobs|
    reads jobs
  {
    jobs[i].prev == if i + 1 < |jobs| then jobs[i + 1] else null
  }

  class Queue {
    var front: Job?
    var rear: Job?
    var len: nat
    ghost var jobs: seq<Job>

    ghost predicate Valid()
      reads this, jobs
    {
      && len == |jobs|
      && front == (if jobs == [] then null else jobs[0])
      && rear == (if jobs == [] then null else jobs[|jobs| - 1])
      && (forall i, k :: 0 <= i < k < |jobs| ==> jobs[i] != jobs[k])
      && (forall i: nat :: i < |jobs| ==> LeadsToNext(jobs, i))
    }

    /** `jobqueue_init`. */
    constructor ()
      ensures Valid() && jobs == []
    {
      front, rear, len, jobs := null, null, 0, [];
    }

    /** `jobqueue_push` up to its post: the job goes to the end. */
    method Push(newjob: Job)
      requires Valid() && newjob !in jobs
      modifies this, newjob, jobs
      ensures Valid() && jobs == old(jobs) + [newjob]
    {
      newjob.prev := null;
      if len == 0 {
        front := newjob;
        rear := newjob;
      } else {
        rear.prev := newjob;
        rear := newjob;
      }
      len := len + 1;
      jobs := jobs + [newjob];
      forall i: nat | i < |jobs|
        ensures LeadsToNext(jobs, i)
      {
        assert i < |old(jobs)| ==> old(LeadsToNext(jobs, i));
      }
    }

    /** `jobqueue_pull`: the oldest job, or none; it posts exactly when jobs remain. */
    method Pull() returns (job: Job?, posts: bool)
      requires Valid()
      modifies this
      ensures Valid()
      ensures old(jobs) == [] ==> job == null && !posts && jobs == []
      ensures old(jobs) != [] ==> job == old(jobs)[0] && jobs == old(jobs)[1..] && (posts <==> jobs != [])
    {
      job := front;
      posts := false;
      if len == 0 {
        return;
      }
      assert LeadsToNext(jobs, 0);
      if len == 1 {
        front, rear, len := null, null, 0;
      } else {
        front := job.prev;
        len := len - 1;
        posts := true;
      }
      jobs := jobs[1..];
      forall i: nat | i < |jobs|
        ensures LeadsToNext(jobs, i)
      {
        assert old(LeadsToNext(jobs, i + 1));
      }
    }
  }
}
