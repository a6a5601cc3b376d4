/** The key file scanner of `keyloader.cc`: keys are the maximal runs of bytes other than CR and LF. */
module KeyLoader {
  import opened Bytes

  datatype Run = Run(begin: nat, end: nat)

  /** `struct keyloader_array`; the length has 32 bits. */
  datatype Entry = Entry(offset: nat, len: nat)

  predicate Break(c: Byte) {
    c == 0x0d || c == 0x0a
  }

  /** No break from b up to e, and one right before b unless the file begins there. */
  ghost predicate Open(file: seq<Byte>, b: nat, e: nat) {
    && b < e <= |file|
    && (forall j :: b <= j < e ==> !Break(file[j]))
    && (b == 0 || Break(file[b - 1]))
  }

  ghost predicate Maximal(file: seq<Byte>, r: Run) {
    Open(file, r.begin, r.end) && (r.end == |file| || Break(file[r.end]))
  }

  ghost predicate Ascending(runs: seq<Run>) {
    forall a, b :: 0 <= a < b < |runs| ==> runs[a].end < runs[b].begin
  }

  ghost predicate ListedBefore(file: seq<Byte>, runs: seq<Run>, i: int, r: Run) {
    r in runs <==> Maximal(file, r) && r.end < i
  }

  /** `runs` lists, in order, exactly the maximal runs that end before i. */
  ghost predicate RunsBefore(file: seq<Byte>, runs: seq<Run>, i: int) {
    Ascending(runs) && forall r :: ListedBefore(file, runs, i, r)
  }

  /** `runs` lists, in order, the maximal runs of the file, or the first `max` of them. */
  ghost predicate FirstRuns(file: seq<Byte>, runs: seq<Run>, max: nat) {
    && Ascending(runs)
    && (forall r :: r in runs ==> Maximal(file, r))
    && (max != 0 ==> |runs| <= max)
    && (forall r :: Maximal(file, r) && r !in runs ==>
          max != 0 && |runs| == max && forall x :: x in runs ==> x.end < r.begin)
  }

  /** Two runs that end at the same place, or overlap, begin at the same place. */
  lemma SameRun(file: seq<Byte>, b: nat, c: nat, e: nat)
    requires Open(file, b, e) && Open(file, c, e)
    ensures b == c
  {
  }

  lemma EarlierRun(file: seq<Byte>, r: Run, b: nat, e: nat)
    requires Maximal(file, r) && Open(file, b, e) && r.end < e
    ensures r.end < b
  {
    assert Break(file[r.end]);
  }

  /** A break that ends an open run. */
  lemma RunEnds(file: seq<Byte>, runs: seq<Run>, begin: nat, i: nat)
    requires RunsBefore(file, runs, i) && Open(file, begin, i) && (i == |file| || Break(file[i]))
    ensures RunsBefore(file, runs + [Run(begin, i)], i + 1)
  {
    var runs' := runs + [Run(begin, i)];
    forall k | 0 <= k < |runs|
      ensures runs[k].end < begin
    {
      assert ListedBefore(file, runs, i, runs[k]);
      EarlierRun(file, runs[k], begin, i);
    }
    var next: nat := i + 1;
    forall r
      ensures ListedBefore(file, runs', next, r)
    {
      assert ListedBefore(file, runs, i, r);
      if Maximal(file, r) && r.end == i {
        SameRun(file, r.begin, begin, i);
      }
      assert r in runs' <==> r in runs || r == Run(begin, i);
    }
  }

  /** Any other byte, or a break after a break. */
  lemma NoRunEnds(file: seq<Byte>, runs: seq<Run>, i: nat)
    requires RunsBefore(file, runs, i) && i <= |file|
    requires (i < |file| && !Break(file[i])) || i == 0 || Break(file[i - 1])
    ensures RunsBefore(file, runs, i + 1)
  {
    var next: nat := i + 1;
    forall r
      ensures ListedBefore(file, runs, next, r)
    {
      assert ListedBefore(file, runs, i, r);
    }
  }

  /** At the end of the file all runs have ended. */
  lemma AllRuns(file: seq<Byte>, runs: seq<Run>, max: nat)
    requires RunsBefore(file, runs, |file| + 1) && (max != 0 ==> |runs| <= max)
    ensures FirstRuns(file, runs, max)
  {
    var end: nat := |file| + 1;
    forall r
      ensures r in runs <==> Maximal(file, r)
    {
      assert ListedBefore(file, runs, end, r);
    }
  }

  /** Stopping at the limit leaves only later runs out. */
  lemma EnoughRuns(file: seq<Byte>, runs: seq<Run>, max: nat, i: nat)
    requires RunsBefore(file, runs, i + 1) && |runs| == max != 0
    ensures FirstRuns(file, runs, max)
  {
    var next: nat := i + 1;
    forall r | r in runs
      ensures Maximal(file, r)
    {
      assert ListedBefore(file, runs, next, r);
    }
    forall r, x | Maximal(file, r) && r !in runs && x in runs
      ensures x.end < r.begin
    {
      assert ListedBefore(file, runs, next, r) && ListedBefore(file, runs, next, x);
      EarlierRun(file, x, r.begin, r.end);
    }
  }

  /** What the scan's variables say about the part of the file before i. */
  ghost predicate Scanned(file: seq<Byte>, i: nat, rFlag: bool, found: bool, begin: nat, last: nat)
    requires i <= |file|
  {
    && (rFlag ==> i > 0 && Break(file[i - 1]))
    && (!rFlag && i > 0 ==> Open(file, begin, i) && found && last == i - 1)
    && (i == 0 ==> !rFlag && !found)
  }

  class Loader {
    var file: seq<Byte>
    var arr: seq<Entry>
    var nkeys: nat
    ghost var runs: seq<Run>

    /** The recorded keys are the runs, their lengths truncated to 32 bits. */
    ghost predicate Valid()
      reads this
    {
      && nkeys == |runs| <= |arr|
      && (forall r :: r in runs ==> r.begin <= r.end <= |file|)
      && (forall k :: 0 <= k < nkeys ==> arr[k] == Entry(runs[k].begin, (runs[k].end - runs[k].begin) % WORD))
    }

    constructor ()
      ensures Valid() && runs == []
    {
      file, arr, nkeys, runs := [], [], 0, [];
    }

    /** Recording the length of the key whose offset was noted before. */
    method EndKey(begin: nat, last: nat)
      requires Valid() && nkeys < |arr| && arr[nkeys].offset == begin <= last < |file|
      modifies this
      ensures Valid() && file == old(file) && runs == old(runs) + [Run(begin, last + 1)] && |arr| == |old(arr)|
    {
      arr := arr[nkeys := arr[nkeys].(len := (last - begin + 1) % WORD)];
      nkeys := nkeys + 1;
      runs := runs + [Run(begin, last + 1)];
    }

    /** Noting where the next key begins. */
    method StartKey(k: nat, i: nat)
      requires Valid() && k == nkeys < |arr|
      modifies this`arr
      ensures Valid() && |arr| == |old(arr)| && arr[nkeys].offset == i
    {
      arr := arr[k := arr[k].(offset := i)];
    }

    method Resize(segsize: nat)
      requires Valid() && |arr| <= segsize
      modifies this`arr
      ensures Valid() && |arr| == segsize && old(arr) <= arr
    {
      arr := arr + seq(segsize - |arr|, i => Entry(0, 0));
    }

    method Reset(contents: seq<Byte>)
      modifies this
      ensures Valid() && file == contents && runs == [] && arr == []
    {
      file, nkeys, runs, arr := contents, 0, [], [];
    }

    /** The end of a key in the scan: it is recorded, and the scan stops if it was the last one wanted. */
    method KeyEnds(begin: nat, last: nat, max: nat, segsize: nat, ghost i: nat) returns (full: bool, segsize': nat)
      requires Valid() && nkeys < |arr| == segsize && arr[nkeys].offset == begin && (max != 0 ==> nkeys < max)
      requires RunsBefore(file, runs, i) && Open(file, begin, i) && last == i - 1 && i < |file| && Break(file[i])
      modifies this
      ensures Valid() && file == old(file) && RunsBefore(file, runs, i + 1)
      ensures full ==> FirstRuns(file, runs, max)
      ensures !full ==> nkeys < |arr| == segsize' && (max != 0 ==> nkeys < max)
    {
      ghost var before := runs;
      EndKey(begin, last);
      RunEnds(file, before, begin, i);
      segsize' := segsize;
      full := max != 0 && nkeys >= max;
      if full {
        EnoughRuns(file, runs, max, i);
      } else if nkeys >= segsize {
        segsize' := segsize * 2;
        Resize(segsize');
      }
    }

    /**
     `keyloader_init`, given the contents of the file: -2 if it is empty and
     cannot be mapped, otherwise all its keys, or the first `max`.
     */
    method Init(contents: seq<Byte>, max: nat) returns (rc: int)
      modifies this
      ensures Valid() && file == contents
      ensures rc == (if contents == [] then -2 else 0)
      ensures rc == 0 ==> FirstRuns(file, runs, max)
      ensures rc != 0 ==> runs == []
    {
      var segsize := 256;
      Reset(contents);
      if |contents| == 0 {
        return -2;
      }
      Resize(segsize);
      assert RunsBefore(file, runs, 0);
      var rFlag, found, begin, last, i := false, false, 0, 0, 0;
      while i < |contents|
        invariant file == contents && Valid() && nkeys < |arr| == segsize && (max != 0 ==> nkeys < max)
        invariant i <= |contents| && RunsBefore(file, runs, i) && Scanned(file, i, rFlag, found, begin, last)
        invariant !found ==> nkeys == 0
        invariant !rFlag && i > 0 ==> arr[nkeys].offset == begin
      {
        if Break(contents[i]) {
          if !rFlag && found {
            var full;
            full, segsize := KeyEnds(begin, last, max, segsize, i);
            if full {
              return 0;
            }
          } else {
            NoRunEnds(file, runs, i);
          }
          rFlag := true;
        } else {
          NoRunEnds(file, runs, i);
          if !found {
            StartKey(0, i);
            begin := i;
            found := true;
          } else if rFlag {
            StartKey(nkeys, i);
            begin := i;
          }
          last := i;
          rFlag := false;
        }
        i := i + 1;
      }
      if !rFlag {
        RunEnds(file, runs, begin, i);
        EndKey(begin, last);
      } else {
        NoRunEnds(file, runs, i);
      }
      AllRuns(file, runs, max);
      return 0;
    }

    /** `keyloader_get_key`: nothing beyond the last key; the whole key exactly when its length fits 32 bits. */
    method GetKey(idx: nat) returns (key: seq<Byte>)
      requires Valid()
      ensures idx >= nkeys ==> key == []
      ensures idx < nkeys ==> runs[idx].begin <= runs[idx].end <= |file|
      ensures idx < nkeys ==> (key == file[runs[idx].begin..runs[idx].end] <==> runs[idx].end - runs[idx].begin < WORD)
    {
      if idx >= nkeys {
        return [];
      }
      var len := arr[idx].len;
      assert runs[idx] in runs;
      key := file[arr[idx].offset..arr[idx].offset + len];
    }
  }
}
