/**
 The completion queue through which I/O callbacks hand finished operations to
 the threads that share a `Db` (`couch_kv.cc`).
 */
module Completions {
  import opened Sums

  /** A block of the key or value pool of thread `owner`. */
  datatype Block = Block(owner: nat, index: nat)

  /** What an `IoContext` holds. */
  datatype Context = Context(tid: nat, key: Block, value: Block)

  /** The elements that are the caller's, and those that are not, in order. */
  function Own<T>(s: seq<T>, mine: T -> bool): seq<T> {
    if s == [] then [] else if mine(s[0]) then [s[0]] + Own(s[1..], mine) else Own(s[1..], mine)
  }

  function Foreign<T>(s: seq<T>, mine: T -> bool): seq<T> {
    if s == [] then [] else if mine(s[0]) then Foreign(s[1..], mine) else [s[0]] + Foreign(s[1..], mine)
  }

  lemma {:induction false} OwnSnoc<T>(s: seq<T>, e: T, mine: T -> bool)
    ensures Own(s + [e], mine) == if mine(e) then Own(s, mine) + [e] else Own(s, mine)
    ensures Foreign(s + [e], mine) == if mine(e) then Foreign(s, mine) else Foreign(s, mine) + [e]
    decreases |s|
  {
    if s == [] {
      assert s + [e] == [e] && [e][1..] == [];
    } else {
      assert (s + [e])[1..] == s[1..] + [e];
      OwnSnoc(s[1..], e, mine);
    }
  }

  lemma {:induction false} OwnIsOwn<T>(s: seq<T>, mine: T -> bool)
    ensures forall i :: 0 <= i < |Own(s, mine)| ==> mine(Own(s, mine)[i]) && Own(s, mine)[i] in s
    ensures forall i :: 0 <= i < |Foreign(s, mine)| ==> !mine(Foreign(s, mine)[i]) && Foreign(s, mine)[i] in s
    decreases |s|
  {
    if s != [] {
      OwnIsOwn(s[1..], mine);
    }
  }

  /** Own and foreign elements together contribute what the whole does. */
  lemma {:induction false} OwnAndForeign<T>(s: seq<T>, mine: T -> bool, f: T -> nat)
    ensures Total(s, f) == Total(Own(s, mine), f) + Total(Foreign(s, mine), f)
    decreases |s|
  {
    if s != [] {
      OwnAndForeign(s[1..], mine, f);
      TotalOne(s[0], f);
      if mine(s[0]) {
        TotalConcat([s[0]], Own(s[1..], mine), f);
      } else {
        TotalConcat([s[0]], Foreign(s[1..], mine), f);
      }
    }
  }

  /** How many completions `getevents` looks at: up to `max` of the caller's own. */
  function Looked<T>(done: seq<T>, max: nat, mine: T -> bool): (n: nat)
    ensures n <= |done|
  {
    if done == [] || max == 0 then 0
    else 1 + Looked(done[1..], if mine(done[0]) then max - 1 else max, mine)
  }

  /** The queue after looking at n completions. */
  function Rotated<T>(done: seq<T>, mine: T -> bool, n: nat): seq<T>
    requires n <= |done|
  {
    done[n..] + Foreign(done[..n], mine)
  }

  /** What `getevents` hands out, and the queue it leaves. */
  function Harvested<T>(done: seq<T>, max: nat, mine: T -> bool): seq<T> {
    Own(done[..Looked(done, max, mine)], mine)
  }

  function Left<T>(done: seq<T>, max: nat, mine: T -> bool): seq<T> {
    Rotated(done, mine, Looked(done, max, mine))
  }

  lemma {:induction false} HarvestBounded<T>(done: seq<T>, max: nat, mine: T -> bool)
    ensures |Harvested(done, max, mine)| <= max
    ensures |Harvested(done, max, mine)| < max ==> Looked(done, max, mine) == |done|
    decreases |done|
  {
    if done != [] && max > 0 {
      var max' := if mine(done[0]) then max - 1 else max;
      HarvestBounded(done[1..], max', mine);
      var n := Looked(done[1..], max', mine);
      assert done[..n + 1][1..] == done[1..][..n];
    }
  }

  /**
   `getevents` hands out only the caller's completions, never more than asked
   for and all of them if fewer; nothing is lost or invented: what the queue and
   the result contribute to any count is what the queue contributed before.
   */
  lemma HarvestConserves<T>(done: seq<T>, max: nat, mine: T -> bool, f: T -> nat)
    ensures Total(done, f) == Total(Harvested(done, max, mine), f) + Total(Left(done, max, mine), f)
    ensures forall i :: 0 <= i < |Harvested(done, max, mine)| ==> mine(Harvested(done, max, mine)[i])
    ensures |Harvested(done, max, mine)| < max ==> Own(Left(done, max, mine), mine) == []
  {
    var n := Looked(done, max, mine);
    assert done == done[..n] + done[n..];
    TotalConcat(done[..n], done[n..], f);
    OwnAndForeign(done[..n], mine, f);
    TotalConcat(done[n..], Foreign(done[..n], mine), f);
    OwnIsOwn(done[..n], mine);
    HarvestBounded(done, max, mine);
    if n == |done| {
      assert Left(done, max, mine) == Foreign(done[..n], mine);
      NoneOwn(Foreign(done[..n], mine), mine);
    }
  }

  lemma {:induction false} NoneOwn<T>(s: seq<T>, mine: T -> bool)
    requires forall i :: 0 <= i < |s| ==> !mine(s[i])
    ensures Own(s, mine) == [] && Foreign(s, mine) == s
    decreases |s|
  {
    if s != [] {
      NoneOwn(s[1..], mine);
    }
  }

  // ------------------------------------------------------------- seen through a view

  /** The same elements, looked at through `view`. */
  function Seen<S, T>(s: seq<S>, view: S -> T): (r: seq<T>)
    ensures |r| == |s| && forall i :: 0 <= i < |s| ==> r[i] == view(s[i])
  {
    seq(|s|, i requires 0 <= i < |s| => view(s[i]))
  }

  lemma {:induction false} TotalSeen<S, T>(s: seq<S>, view: S -> T, f: T -> nat, g: S -> nat)
    requires forall i :: 0 <= i < |s| ==> f(view(s[i])) == g(s[i])
    ensures Total(Seen(s, view), f) == Total(s, g)
    decreases |s|
  {
    if s != [] {
      assert Seen(s, view)[1..] == Seen(s[1..], view);
      TotalSeen(s[1..], view, f, g);
    }
  }

  lemma SeenCons<S, T>(x: S, s: seq<S>, view: S -> T)
    ensures Seen([x] + s, view) == [view(x)] + Seen(s, view)
  {
  }

  lemma {:induction false} OwnSeen<S, T>(s: seq<S>, view: S -> T, mine: S -> bool, yours: T -> bool)
    requires forall i :: 0 <= i < |s| ==> mine(s[i]) == yours(view(s[i]))
    ensures Own(Seen(s, view), yours) == Seen(Own(s, mine), view)
    decreases |s|
  {
    if s != [] {
      assert Seen(s, view)[1..] == Seen(s[1..], view);
      OwnSeen(s[1..], view, mine, yours);
      SeenCons(s[0], Own(s[1..], mine), view);
    }
  }

  lemma {:induction false} ForeignSeen<S, T>(s: seq<S>, view: S -> T, mine: S -> bool, yours: T -> bool)
    requires forall i :: 0 <= i < |s| ==> mine(s[i]) == yours(view(s[i]))
    ensures Foreign(Seen(s, view), yours) == Seen(Foreign(s, mine), view)
    decreases |s|
  {
    if s != [] {
      assert Seen(s, view)[1..] == Seen(s[1..], view);
      ForeignSeen(s[1..], view, mine, yours);
      SeenCons(s[0], Foreign(s[1..], mine), view);
    }
  }

  lemma {:induction false} LookedSeen<S, T>(s: seq<S>, max: nat, view: S -> T, mine: S -> bool, yours: T -> bool)
    requires forall i :: 0 <= i < |s| ==> mine(s[i]) == yours(view(s[i]))
    ensures Looked(Seen(s, view), max, yours) == Looked(s, max, mine)
    decreases |s|
  {
    if s != [] && max > 0 {
      assert Seen(s, view)[1..] == Seen(s[1..], view);
      LookedSeen(s[1..], if mine(s[0]) then max - 1 else max, view, mine, yours);
    }
  }

  /** Harvesting and looking through a view commute. */
  lemma HarvestSeen<S, T>(s: seq<S>, max: nat, view: S -> T, mine: S -> bool, yours: T -> bool)
    requires forall i :: 0 <= i < |s| ==> mine(s[i]) == yours(view(s[i]))
    ensures Harvested(Seen(s, view), max, yours) == Seen(Harvested(s, max, mine), view)
    ensures Left(Seen(s, view), max, yours) == Seen(Left(s, max, mine), view)
  {
    var n := Looked(s, max, mine);
    LookedSeen(s, max, view, mine, yours);
    assert Seen(s, view)[..n] == Seen(s[..n], view);
    assert Seen(s, view)[n..] == Seen(s[n..], view);
    OwnSeen(s[..n], view, mine, yours);
    ForeignSeen(s[..n], view, mine, yours);
  }

  // -------------------------------------------------------------------- the queue

  lemma {:induction false} LookedNext<T>(done: seq<T>, max: nat, mine: T -> bool, n: nat)
    requires n <= Looked(done, max, mine) && |Own(done[..n], mine)| <= max
    ensures Looked(done, max, mine) == n + Looked(done[n..], max - |Own(done[..n], mine)|, mine)
    decreases n
  {
    if n == 0 {
      assert done[n..] == done;
    } else {
      var max' := if mine(done[0]) then max - 1 else max;
      assert done[..n][1..] == done[1..][..n - 1];
      assert done[1..][n - 1..] == done[n..];
      LookedNext(done[1..], max', mine, n - 1);
    }
  }

  lemma QueueNext<T>(done: seq<T>, mine: T -> bool, n: nat)
    requires n < |done|
    ensures Rotated(done, mine, n) != [] && Rotated(done, mine, n)[0] == done[n]
    ensures Rotated(done, mine, n + 1)
         == if mine(done[n]) then Rotated(done, mine, n)[1..] else Rotated(done, mine, n)[1..] + [done[n]]
    ensures Own(done[..n + 1], mine) == Own(done[..n], mine) + if mine(done[n]) then [done[n]] else []
  {
    assert done[..n + 1] == done[..n] + [done[n]];
    OwnSnoc(done[..n], done[n], mine);
    var rest, seen := done[n + 1..], Foreign(done[..n], mine);
    assert done[n..] == [done[n]] + rest;
    assert ([done[n]] + rest + seen)[1..] == rest + seen;
    Associative(rest, seen, [done[n]]);
  }

  lemma Associative<T>(a: seq<T>, b: seq<T>, c: seq<T>)
    ensures a + b + c == a + (b + c)
  {
  }

  /** The context carries the thread's id. */
  function TidIs(contexts: seq<Context>, tid: nat): nat -> bool {
    (c: nat) => c < |contexts| && contexts[c].tid == tid
  }

  /** The part of `struct _db` that the callbacks and the threads share under `lock_k`. */
  class Db {
    var contexts: seq<Context>     // the `IoContext` objects
    var iodone: seq<nat>           // which of them have completed

    ghost predicate Valid()
      reads this
    {
      forall i :: 0 <= i < |iodone| ==> iodone[i] < |contexts|
    }

    constructor (contexts: seq<Context>)
      ensures Valid() && this.contexts == contexts && iodone == []
    {
      this.contexts, iodone := contexts, [];
    }

    /** `add_event`: the completion becomes the last of its own thread's, and no other thread sees a change. */
    method AddEvent(c: nat)
      requires Valid() && c < |contexts|
      modifies this`iodone
      ensures Valid() && iodone == old(iodone) + [c]
      ensures forall tid: nat :: Own(iodone, TidIs(contexts, tid))
                             == Own(old(iodone), TidIs(contexts, tid)) + if contexts[c].tid == tid then [c] else []
    {
      forall tid: nat
        ensures Own(iodone + [c], TidIs(contexts, tid))
             == Own(iodone, TidIs(contexts, tid)) + if contexts[c].tid == tid then [c] else []
      {
        OwnSnoc(iodone, c, TidIs(contexts, tid));
      }
      iodone := iodone + [c];
    }

    /** `getevents`: the loop that rotates the queue past other threads' completions. */
    method GetEvents(max: nat, tid: nat) returns (got: seq<nat>)
      requires Valid()
      modifies this`iodone
      ensures got == Harvested(old(iodone), max, TidIs(contexts, tid))
      ensures iodone == Left(old(iodone), max, TidIs(contexts, tid))
    {
      ghost var done, n, mine := iodone, 0, TidIs(contexts, tid);
      got := [];
      var queueSize := |iodone|;
      while queueSize > 0 && |got| < max
        invariant n + queueSize == |done| && n <= Looked(done, max, mine) && |got| <= max
        invariant got == Own(done[..n], mine)
        invariant iodone == Rotated(done, mine, n)
      {
        assert n < Looked(done, max, mine) by {
          LookedNext(done, max, mine, n);
        }
        QueueNext(done, mine, n);
        var c := iodone[0];
        iodone := iodone[1..];
        if contexts[c].tid != tid {
          iodone := iodone + [c];
        } else {
          got := got + [c];
        }
        n := n + 1;
        queueSize := queueSize - 1;
      }
      assert n == Looked(done, max, mine) by {
        LookedNext(done, max, mine, n);
      }
    }
  }
}
