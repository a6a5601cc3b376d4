/** How population splits documents and files among threads (`couch_bench.cc`). */
module WorkSplit {
  import opened Division

  // -------------------------------------------------------------- strided batches

  /** The documents of thread n of T: every T-th batch, starting with the n-th. */
  predicate BelongsTo(i: nat, n: nat, T: nat, batch: nat)
    requires T > 0 && batch > 0
  {
    i / batch % T == n
  }

  lemma QuotientIs(i: nat, b: nat, batch: nat)
    requires batch > 0 && b * batch <= i < b * batch + batch
    ensures i / batch == b
  {
    PartsUnique(b, i - b * batch, batch);
  }

  /** The batch of a round belongs to the thread. */
  lemma OwnBatch(i: nat, n: nat, k: nat, T: nat, batch: nat)
    requires batch > 0 && n < T && (k * T + n) * batch <= i < (k * T + n) * batch + batch
    ensures BelongsTo(i, n, T, batch)
  {
    QuotientIs(i, k * T + n, batch);
    PartsUnique(k, n, T);
  }

  /** No document between the batches of two rounds does. */
  lemma OtherBatches(i: nat, n: nat, k: nat, T: nat, batch: nat)
    requires batch > 0 && n < T && (k * T + n) * batch + batch <= i < (k * T + n) * batch + T * batch
    ensures !BelongsTo(i, n, T, batch)
  {
    var b := k * T + n;
    var q := i / batch;
    Distribute(b, 1, batch);
    Distribute(b, T, batch);
    QuotientBelow(i, b + 1, batch);
    QuotientBelow(i, b + T, batch);
    assert b < q < b + T;
    var d := q - k * T;
    if d < T {
      PartsUnique(k, d, T);
    } else {
      assert q == (k + 1) * T + (d - T) by {
        Distribute(k, 1, T);
      }
      PartsUnique(k + 1, d - T, T);
    }
  }

  lemma Distribute(a: nat, b: nat, c: nat)
    ensures (a + b) * c == a * c + b * c
  {
  }

  /** No document before the first batch does. */
  lemma BeforeFirst(i: nat, n: nat, T: nat, batch: nat)
    requires batch > 0 && n < T && i < n * batch
    ensures !BelongsTo(i, n, T, batch)
  {
    QuotientBelow(i, n, batch);
    PartsUnique(0, i / batch, T);
  }

  ghost predicate Ascending(docs: seq<nat>) {
    forall a, b :: 0 <= a < b < |docs| ==> docs[a] < docs[b]
  }

  /** The documents below `limit` written so far are exactly the thread's own. */
  ghost predicate WrittenUpTo(docs: seq<nat>, limit: nat, n: nat, T: nat, batch: nat, ndocs: nat)
    requires T > 0 && batch > 0
  {
    && Ascending(docs)
    && (forall i: nat :: i in docs <==> i < limit && i < ndocs && BelongsTo(i, n, T, batch))
  }

  lemma RoundDone(docs: seq<nat>, limit: nat, n: nat, k: nat, T: nat, batch: nat, ndocs: nat)
    requires batch > 0 && n < T
    requires var first := (k * T + n) * batch;
             limit == first + batch || (limit == ndocs && first <= ndocs <= first + batch)
    requires WrittenUpTo(docs, limit, n, T, batch, ndocs)
    ensures WrittenUpTo(docs, (k * T + n) * batch + T * batch, n, T, batch, ndocs)
  {
    var c := (k * T + n) * batch;
    Multiples(0, T, batch);
    forall i: nat | limit <= i < c + T * batch && i < ndocs
      ensures !BelongsTo(i, n, T, batch)
    {
      OtherBatches(i, n, k, T, batch);
    }
  }

  lemma Appended(docs: seq<nat>, i: nat, n: nat, k: nat, T: nat, batch: nat, ndocs: nat)
    requires batch > 0 && n < T && (k * T + n) * batch <= i < (k * T + n) * batch + batch && i < ndocs
    requires WrittenUpTo(docs, i, n, T, batch, ndocs)
    ensures WrittenUpTo(docs + [i], i + 1, n, T, batch, ndocs)
  {
    assert BelongsTo(i, n, T, batch) by {
      OwnBatch(i, n, k, T, batch);
    }
    assert forall a :: 0 <= a < |docs| ==> docs[a] in docs;
    assert forall j: nat :: j in docs + [i] <==> j in docs || j == i;
  }

  lemma NextRound(n: nat, k: nat, T: nat, batch: nat)
    ensures (k * T + n) * batch + T * batch == ((k + 1) * T + n) * batch
  {
    Distribute(k * T + n, T, batch);
    Distribute(k, 1, T);
  }

  /** The synchronous loop of `pop_thread` writes the thread's documents, each once, in order. */
  method PopulateSync(n: nat, T: nat, batch: nat, ndocs: nat) returns (docs: seq<nat>)
    requires n < T && batch > 0
    ensures WrittenUpTo(docs, ndocs, n, T, batch, ndocs)
  {
    docs := [];
    var c := n * batch;
    ghost var k := 0;
    assert WrittenUpTo(docs, c, n, T, batch, ndocs) by {
      forall i: nat | i < c
        ensures !BelongsTo(i, n, T, batch)
      {
        BeforeFirst(i, n, T, batch);
      }
    }
    while c < ndocs
      invariant c == (k * T + n) * batch
      invariant WrittenUpTo(docs, c, n, T, batch, ndocs)
      decreases ndocs - c
    {
      var i := c;
      while i < c + batch && i < ndocs
        invariant c <= i <= c + batch && i <= ndocs
        invariant WrittenUpTo(docs, i, n, T, batch, ndocs)
      {
        Appended(docs, i, n, k, T, batch, ndocs);
        docs := docs + [i];
        i := i + 1;
      }
      RoundDone(docs, i, n, k, T, batch, ndocs);
      NextRound(n, k, T, batch);
      assert T * batch > 0 by {
        Multiples(0, T, batch);
      }
      c := c + T * batch;
      k := k + 1;
    }
  }

  /** The threads' documents partition all documents: each belongs to exactly one thread. */
  lemma DocumentsPartitioned(i: nat, T: nat, batch: nat)
    requires T > 0 && batch > 0
    ensures exists n: nat :: n < T && BelongsTo(i, n, T, batch)
    ensures forall n: nat, m: nat :: BelongsTo(i, n, T, batch) && BelongsTo(i, m, T, batch) ==> n == m
  {
    Parts(i / batch, T);
    assert BelongsTo(i, i / batch % T, T, batch);
  }

  // ------------------------------------------------------------------- file ranges

  /** `_get_file_range`: the first and last file of a thread; an empty range ends before it begins. */
  function FileRange(t: nat, threads: nat, files: nat): (int, int)
    requires threads > 0
  {
    var quotient := files / threads;
    var remainder := files - quotient * threads;
    if remainder != 0 then
      if t < remainder then
        var begin := (quotient + 1) * t;
        (begin, begin + quotient)
      else
        var begin := (quotient + 1) * remainder + quotient * (t - remainder);
        (begin, begin + quotient - 1)
    else
      (quotient * t, quotient * t + quotient - 1)
  }

  /** The number of files thread t gets: the remainder goes to the first threads, one each. */
  function Share(t: nat, threads: nat, files: nat): nat
    requires threads > 0
  {
    files / threads + if t < files % threads then 1 else 0
  }

  lemma RangeFacts(t: nat, threads: nat, files: nat)
    requires t < threads
    ensures var (b, e) := FileRange(t, threads, files);
            && b == files / threads * t + (if t < files % threads then t else files % threads)
            && e == b + Share(t, threads, files) - 1
  {
    var q, m := files / threads, files % threads;
    Parts(files, threads);
    if m != 0 {
      if t < m {
        Distribute(q, 1, t);
      } else {
        Distribute(q, 1, m);
        assert q * m + q * (t - m) == q * t;
      }
    }
  }

  /** The ranges are contiguous from the first file to the last, and their sizes differ by one at most. */
  lemma RangesContiguous(t: nat, threads: nat, files: nat)
    requires t < threads
    ensures var (b, e) := FileRange(t, threads, files);
            && (t == 0 ==> b == 0)
            && (t + 1 < threads ==> FileRange(t + 1, threads, files).0 == e + 1)
            && (t + 1 == threads ==> e + 1 == files)
            && e + 1 - b == Share(t, threads, files)
  {
    var q := files / threads;
    RangeFacts(t, threads, files);
    Parts(files, threads);
    assert q * (t + 1) == q * t + q;
    if t + 1 < threads {
      RangeFacts(t + 1, threads, files);
    }
  }

  predicate InRange(f: int, t: nat, threads: nat, files: nat)
    requires threads > 0
  {
    FileRange(t, threads, files).0 <= f <= FileRange(t, threads, files).1
  }

  lemma {:induction false} RangesOrdered(t: nat, u: nat, threads: nat, files: nat)
    requires t < u < threads
    ensures FileRange(t, threads, files).1 < FileRange(u, threads, files).0
    decreases u
  {
    if t + 1 < u {
      RangesOrdered(t, u - 1, threads, files);
      RangesContiguous(u - 1, threads, files);
    } else {
      RangesContiguous(t, threads, files);
    }
  }

  lemma {:induction false} SomeRange(f: nat, t: nat, threads: nat, files: nat) returns (u: nat)
    requires t < threads && f <= FileRange(t, threads, files).1
    ensures u < threads && InRange(f, u, threads, files)
    decreases t
  {
    RangesContiguous(t, threads, files);
    if FileRange(t, threads, files).0 <= f {
      u := t;
    } else {
      RangesContiguous(t - 1, threads, files);
      u := SomeRange(f, t - 1, threads, files);
    }
  }

  /** Every file is in the range of exactly one thread, and nothing else is in any. */
  lemma FilesPartitioned(f: int, threads: nat, files: nat)
    requires threads > 0
    ensures 0 <= f < files <==> exists t: nat :: t < threads && InRange(f, t, threads, files)
    ensures forall t: nat, u: nat | t < threads && u < threads ::
              InRange(f, t, threads, files) && InRange(f, u, threads, files) ==> t == u
  {
    RangesContiguous(0, threads, files);
    RangesContiguous(threads - 1, threads, files);
    if 0 <= f < files {
      var t := SomeRange(f, threads - 1, threads, files);
    }
    forall t: nat | t < threads && InRange(f, t, threads, files)
      ensures 0 <= f < files
    {
      if t > 0 {
        RangesOrdered(0, t, threads, files);
      }
      if t < threads - 1 {
        RangesOrdered(t, threads - 1, threads, files);
      }
    }
    forall t: nat, u: nat | t < u < threads && InRange(f, t, threads, files)
      ensures !InRange(f, u, threads, files)
    {
      RangesOrdered(t, u, threads, files);
    }
  }
}
