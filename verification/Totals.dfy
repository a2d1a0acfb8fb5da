/** Sums over the program counters of a set of threads. */
module Totals {

  function Total<T>(s: seq<T>, w: T -> int): int {
    if s == [] then 0 else Total(s[..|s| - 1], w) + w(s[|s| - 1])
  }

  /** One thread moves: the sum changes by what it weighs. */
  lemma {:induction false} TotalUpdate<T>(s: seq<T>, i: nat, v: T, w: T -> int)
    requires i < |s|
    ensures Total(s[i := v], w) == Total(s, w) - w(s[i]) + w(v)
  {
    if i == |s| - 1 {
      assert s[i := v][..|s| - 1] == s[..|s| - 1];
    } else {
      assert s[i := v][..|s| - 1] == s[..|s| - 1][i := v];
      TotalUpdate(s[..|s| - 1], i, v, w);
    }
  }

  lemma TotalUpdateTwo<T>(s: seq<T>, i: nat, v: T, k: nat, u: T, w: T -> int)
    requires i < |s| && k < |s| && i != k
    ensures Total(s[i := v][k := u], w) == Total(s, w) - w(s[i]) + w(v) - w(s[k]) + w(u)
  {
    TotalUpdate(s, i, v, w);
    TotalUpdate(s[i := v], k, u, w);
  }

  /** With no negative weight, a thread weighs no more than all of them. */
  lemma {:induction false} TotalAtLeast<T>(s: seq<T>, i: nat, w: T -> int)
    requires forall j :: 0 <= j < |s| ==> w(s[j]) >= 0
    requires i < |s|
    ensures Total(s, w) >= w(s[i])
  {
    TotalNonNegative(s[..|s| - 1], w);
    if i < |s| - 1 {
      TotalAtLeast(s[..|s| - 1], i, w);
    }
  }

  lemma {:induction false} TotalNonNegative<T>(s: seq<T>, w: T -> int)
    requires forall j :: 0 <= j < |s| ==> w(s[j]) >= 0
    ensures Total(s, w) >= 0
  {
    if s != [] {
      TotalNonNegative(s[..|s| - 1], w);
    }
  }

  lemma {:induction false} TotalAtMost<T>(s: seq<T>, w: T -> int)
    requires forall j :: 0 <= j < |s| ==> w(s[j]) <= 1
    ensures Total(s, w) <= |s|
  {
    if s != [] {
      TotalAtMost(s[..|s| - 1], w);
    }
  }

  lemma {:induction false} TotalBelow<T>(s: seq<T>, c: nat, w: T -> int)
    requires forall j :: 0 <= j < |s| ==> w(s[j]) <= c
    ensures Total(s, w) <= |s| * c
  {
    if s != [] {
      TotalBelow(s[..|s| - 1], c, w);
    }
  }

  /** Two threads weigh no more than all of them. */
  lemma {:induction false} TotalAtLeastTwo<T>(s: seq<T>, i: nat, k: nat, w: T -> int)
    requires forall j :: 0 <= j < |s| ==> w(s[j]) >= 0
    requires i < k < |s|
    ensures Total(s, w) >= w(s[i]) + w(s[k])
  {
    if k == |s| - 1 {
      TotalAtLeast(s[..k], i, w);
    } else {
      TotalNonNegative(s[..|s| - 1], w);
      TotalAtLeastTwo(s[..|s| - 1], i, k, w);
    }
  }

  /** A positive sum has a thread that contributes to it. */
  lemma {:induction false} TotalPositive<T>(s: seq<T>, w: T -> int) returns (i: nat)
    requires Total(s, w) > 0
    ensures i < |s| && w(s[i]) > 0
  {
    i := |s| - 1;
    if w(s[i]) <= 0 {
      i := TotalPositive(s[..|s| - 1], w);
    }
  }

  /** If every thread weighs the same. */
  lemma {:induction false} TotalConstant<T>(s: seq<T>, c: int, w: T -> int)
    requires forall j :: 0 <= j < |s| ==> w(s[j]) == c
    ensures Total(s, w) == |s| * c
  {
    if s != [] {
      TotalConstant(s[..|s| - 1], c, w);
    }
  }

  lemma {:induction false} TotalSame<T>(s: seq<T>, r: seq<T>, w: T -> int)
    requires |s| == |r| && forall j :: 0 <= j < |s| ==> w(s[j]) == w(r[j])
    ensures Total(s, w) == Total(r, w)
  {
    if s != [] {
      TotalSame(s[..|s| - 1], r[..|r| - 1], w);
    }
  }
}
