/** Sums over sequences of integers. */
module Sums {
  function Sum(s: seq<int>): int {
    if s == [] then 0 else Sum(s[..|s| - 1]) + s[|s| - 1]
  }

  lemma SumSnoc(s: seq<int>, x: int)
    ensures Sum(s + [x]) == Sum(s) + x
  {
    assert (s + [x])[..|s|] == s;
  }

  lemma {:induction false} SumConcat(a: seq<int>, b: seq<int>)
    ensures Sum(a + b) == Sum(a) + Sum(b)
  {
    if b == [] {
      assert a + b == a;
    } else {
      var n := |b| - 1;
      SumConcat(a, b[..n]);
      assert a + b == (a + b[..n]) + [b[n]] && b == b[..n] + [b[n]];
      SumSnoc(a + b[..n], b[n]);
    }
  }

  lemma {:induction false} SumUpdate(s: seq<int>, i: nat, x: int)
    requires i < |s|
    ensures Sum(s[i := x]) == Sum(s) - s[i] + x
  {
    var n := |s| - 1;
    if i < n {
      SumUpdate(s[..n], i, x);
      assert s[i := x][..n] == s[..n][i := x];
    } else {
      assert s[i := x][..n] == s[..n];
    }
  }

  lemma {:induction false} SumMonotone(a: seq<int>, b: seq<int>)
    requires |a| == |b| && forall i :: 0 <= i < |a| ==> a[i] <= b[i]
    ensures Sum(a) <= Sum(b)
  {
    if a != [] {
      SumMonotone(a[..|a| - 1], b[..|b| - 1]);
    }
  }

  lemma {:induction false} SumPointwise(a: seq<int>, b: seq<int>, c: seq<int>)
    requires |a| == |b| == |c| && forall i :: 0 <= i < |a| ==> c[i] == a[i] + b[i]
    ensures Sum(c) == Sum(a) + Sum(b)
  {
    if a != [] {
      var n := |a| - 1;
      SumPointwise(a[..n], b[..n], c[..n]);
    }
  }

  lemma {:induction false} SumZeros(a: seq<int>)
    requires forall i :: 0 <= i < |a| ==> a[i] == 0
    ensures Sum(a) == 0
  {
    if a != [] {
      SumZeros(a[..|a| - 1]);
    }
  }

  // ----- the same numbers in another order -----

  /** Lists every index below `n` once. */
  ghost predicate IsPermutation(order: seq<nat>, n: nat) {
    && |order| == n
    && (forall k :: 0 <= k < |order| ==> order[k] < n)
    && (forall j, k :: 0 <= j < k < |order| ==> order[j] != order[k])
    && (forall i: nat :: i < n ==> i in order)
  }

  function Pick(w: seq<int>, order: seq<nat>): (r: seq<int>)
    requires forall k :: 0 <= k < |order| ==> order[k] < |w|
    ensures |r| == |order| && forall k :: 0 <= k < |r| ==> r[k] == w[order[k]]
  {
    seq(|order|, k requires 0 <= k < |order| => w[order[k]])
  }

  lemma SumInsert(a: seq<int>, x: int, b: seq<int>)
    ensures Sum(a + [x] + b) == Sum(a + b) + x
  {
    SumConcat(a + [x], b);
    SumSnoc(a, x);
    SumConcat(a, b);
  }

  predicate AllBelow(order: seq<nat>, n: nat) {
    forall k :: 0 <= k < |order| ==> order[k] < n
  }

  lemma SumPickSplit(w: seq<int>, front: seq<nat>, n: nat, back: seq<nat>)
    requires |w| == n + 1 && AllBelow(front, n) && AllBelow(back, n)
    ensures AllBelow(front + [n] + back, n + 1) && AllBelow(front + back, n)
    ensures Sum(Pick(w, front + [n] + back)) == Sum(Pick(w[..n], front + back)) + w[n]
  {
    var a, b := Pick(w, front), Pick(w, back);
    assert Pick(w, front + [n] + back) == a + [w[n]] + b;
    assert Pick(w[..n], front + back) == a + b;
    SumInsert(a, w[n], b);
  }

  lemma PermutationSplit(order: seq<nat>, n: nat) returns (front: seq<nat>, back: seq<nat>)
    requires IsPermutation(order, n + 1)
    ensures order == front + [n] + back && IsPermutation(front + back, n)
    ensures AllBelow(front, n) && AllBelow(back, n)
  {
    hide IsPermutation, AllBelow;
    PermutationHas(order, n + 1, n);
    var p :| 0 <= p < |order| && order[p] == n;
    front, back := order[..p], order[p + 1..];
    RestIsPermutation(order, p, n);
  }

  lemma PermutationHas(order: seq<nat>, n: nat, i: nat)
    requires IsPermutation(order, n) && i < n
    ensures i in order
  {
  }

  /** Summing in any order gives the same sum. */
  lemma {:induction false} SumPick(w: seq<int>, order: seq<nat>)
    requires IsPermutation(order, |w|)
    ensures Sum(Pick(w, order)) == Sum(w)
    decreases |w|
  {
    if w == [] {
      assert order == [];
    } else {
      hide IsPermutation, Pick;
      var n: nat := |w| - 1;
      var front, back := PermutationSplit(order, n);
      SumPickSplit(w, front, n, back);
      SumPick(w[..n], front + back);
    }
  }

  lemma RestIsPermutation(order: seq<nat>, p: nat, n: nat)
    requires IsPermutation(order, n + 1) && p < |order| && order[p] == n
    ensures IsPermutation(order[..p] + order[p + 1..], n)
    ensures AllBelow(order[..p], n) && AllBelow(order[p + 1..], n)
  {
    var rest := order[..p] + order[p + 1..];
    assert forall k :: 0 <= k < |rest| ==> rest[k] == if k < p then order[k] else order[k + 1];
    forall i: nat | i < n
      ensures i in rest
    {
      assert i in order;
      var k :| 0 <= k < |order| && order[k] == i;
      assert rest[if k < p then k else k - 1] == i;
    }
  }
}
