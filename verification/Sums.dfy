/** Sums over sequences, and the sequence of the first natural numbers. */
module Sums {

  /** 0, 1, ..., n - 1. */
  function Upto(n: nat): (s: seq<nat>)
    ensures |s| == n && forall i :: 0 <= i < n ==> s[i] == i
  {
    seq(n, i requires 0 <= i => i)
  }

  lemma UptoMembers(n: nat)
    ensures forall i: nat :: i in Upto(n) <==> i < n
  {
    forall i: nat | i < n
      ensures i in Upto(n)
    {
      assert Upto(n)[i] == i;
    }
  }

  function Total<T>(s: seq<T>, f: T -> nat): nat {
    if s == [] then 0 else f(s[0]) + Total(s[1..], f)
  }

  lemma {:induction false} TotalUpdate<T>(s: seq<T>, f: T -> nat, i: nat, x: T)
    requires i < |s|
    ensures Total(s[i := x], f) + f(s[i]) == Total(s, f) + f(x)
    decreases |s|
  {
    if i > 0 {
      assert s[i := x][1..] == s[1..][i - 1 := x];
      TotalUpdate(s[1..], f, i - 1, x);
    } else {
      assert s[i := x][1..] == s[1..];
    }
  }

  lemma {:induction false} TotalZero<T>(s: seq<T>, f: T -> nat)
    ensures Total(s, f) == 0 <==> forall i :: 0 <= i < |s| ==> f(s[i]) == 0
    decreases |s|
  {
    if s != [] {
      TotalZero(s[1..], f);
      assert forall i :: 0 < i < |s| ==> s[i] == s[1..][i - 1];
    }
  }

  lemma {:induction false} TotalConcat<T>(a: seq<T>, b: seq<T>, f: T -> nat)
    ensures Total(a + b, f) == Total(a, f) + Total(b, f)
    decreases |a|
  {
    if a == [] {
      assert a + b == b;
    } else {
      assert (a + b)[1..] == a[1..] + b;
      TotalConcat(a[1..], b, f);
    }
  }

  lemma TotalOne<T>(x: T, f: T -> nat)
    ensures Total([x], f) == f(x)
  {
    assert Total([x][1..], f) == 0;
  }

  lemma TotalAppend<T>(s: seq<T>, x: T, f: T -> nat)
    ensures Total(s + [x], f) == Total(s, f) + f(x)
  {
    TotalConcat(s, [x], f);
    TotalOne(x, f);
  }

  lemma TotalRemove<T>(s: seq<T>, f: T -> nat, i: nat)
    requires i < |s|
    ensures Total(s[..i] + s[i + 1..], f) + f(s[i]) == Total(s, f)
  {
    assert s == s[..i] + s[i..] && s[i..][1..] == s[i + 1..];
    TotalConcat(s[..i], s[i..], f);
    TotalConcat(s[..i], s[i + 1..], f);
  }

  lemma {:induction false} TotalSame<T>(s: seq<T>, f: T -> nat, g: T -> nat)
    requires forall i :: 0 <= i < |s| ==> f(s[i]) == g(s[i])
    ensures Total(s, f) == Total(s, g)
    decreases |s|
  {
    if s != [] {
      assert forall i :: 0 <= i < |s[1..]| ==> s[1..][i] == s[i + 1];
      TotalSame(s[1..], f, g);
    }
  }

  lemma {:induction false} TotalSplit<T>(s: seq<T>, f: T -> nat, g: T -> nat, h: T -> nat)
    requires forall i :: 0 <= i < |s| ==> f(s[i]) == g(s[i]) + h(s[i])
    ensures Total(s, f) == Total(s, g) + Total(s, h)
    decreases |s|
  {
    if s != [] {
      assert forall i :: 0 <= i < |s[1..]| ==> s[1..][i] == s[i + 1];
      TotalSplit(s[1..], f, g, h);
    }
  }

  lemma {:induction false} TotalAtMost<T>(s: seq<T>, f: T -> nat, g: T -> nat)
    requires forall i :: 0 <= i < |s| ==> f(s[i]) <= g(s[i])
    ensures Total(s, f) <= Total(s, g)
    decreases |s|
  {
    if s != [] {
      assert forall i :: 0 <= i < |s[1..]| ==> s[1..][i] == s[i + 1];
      TotalAtMost(s[1..], f, g);
    }
  }

  /** Less in one place and nowhere more is less as a whole. */
  lemma TotalLess<T>(s: seq<T>, f: T -> nat, g: T -> nat, i: nat)
    requires forall k :: 0 <= k < |s| ==> f(s[k]) <= g(s[k])
    requires i < |s| && f(s[i]) < g(s[i])
    ensures Total(s, f) < Total(s, g)
  {
    var r := s[..i] + s[i + 1..];
    TotalRemove(s, f, i);
    TotalRemove(s, g, i);
    assert forall k :: 0 <= k < |r| ==> r[k] == s[if k < i then k else k + 1];
    TotalAtMost(r, f, g);
  }

  lemma {:induction false} TotalAtLeast<T>(s: seq<T>, f: T -> nat, i: nat)
    requires i < |s|
    ensures Total(s, f) >= f(s[i])
    decreases |s|
  {
    if i > 0 {
      TotalAtLeast(s[1..], f, i - 1);
    }
  }

  /** What is all of the sum leaves nothing for the others. */
  lemma OnlyOne<T>(s: seq<T>, f: T -> nat, i: nat)
    requires i < |s| && Total(s, f) == f(s[i])
    ensures forall j :: 0 <= j < |s| && j != i ==> f(s[j]) == 0
  {
    var r := s[..i] + s[i + 1..];
    TotalRemove(s, f, i);
    TotalZero(r, f);
    assert forall j :: 0 <= j < |s| && j != i ==> s[j] == r[if j < i then j else j - 1];
  }

  /** Two sequences that contribute the same place by place have the same sum. */
  lemma {:induction false} TotalPairs<S, T>(a: seq<S>, f: S -> nat, b: seq<T>, g: T -> nat)
    requires |a| == |b| && forall i :: 0 <= i < |a| ==> f(a[i]) == g(b[i])
    ensures Total(a, f) == Total(b, g)
    decreases |a|
  {
    if a != [] {
      assert forall i :: 0 <= i < |a[1..]| ==> a[1..][i] == a[i + 1] && b[1..][i] == b[i + 1];
      TotalPairs(a[1..], f, b[1..], g);
    }
  }
}
