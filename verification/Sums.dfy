/** Sums of lists of numbers, and what moving amounts between entries does to them. */
module Sums {
  function Sum(cs: seq<nat>): nat {
    if cs == [] then 0 else Sum(cs[..|cs| - 1]) + cs[|cs| - 1]
  }

  lemma {:induction false} SumAppend(a: seq<nat>, b: seq<nat>)
    ensures Sum(a + b) == Sum(a) + Sum(b)
  {
    if b == [] {
      assert a + b == a;
    } else {
      var n := |b| - 1;
      SumAppend(a, b[..n]);
      assert (a + b)[..|a + b| - 1] == a + b[..n];
    }
  }

  lemma {:induction false} SumOfNothing(cs: seq<nat>)
    requires forall k | 0 <= k < |cs| :: cs[k] == 0
    ensures Sum(cs) == 0
  {
    if cs != [] {
      SumOfNothing(cs[..|cs| - 1]);
    }
  }

  lemma {:induction false} SumUpdate(cs: seq<nat>, i: nat, x: nat)
    requires i < |cs|
    ensures Sum(cs[i := x]) + cs[i] == Sum(cs) + x
  {
    var n := |cs| - 1;
    if i == n {
      assert cs[i := x][..n] == cs[..n];
    } else {
      SumUpdate(cs[..n], i, x);
      assert cs[i := x][..n] == cs[..n][i := x];
    }
  }

  lemma SumInThree(cs: seq<nat>, first: nat, last: nat)
    requires first <= last <= |cs|
    ensures Sum(cs) == Sum(cs[..first]) + Sum(cs[first..last]) + Sum(cs[last..])
  {
    SumAppend(cs[..first], cs[first..last]);
    assert cs[..last] == cs[..first] + cs[first..last];
    SumAppend(cs[..last], cs[last..]);
    assert cs == cs[..last] + cs[last..];
  }

  /** Moving what a block of later entries holds into one earlier entry changes no total. */
  lemma SumBlock(cs: seq<nat>, ds: seq<nat>, i: nat, first: nat, last: nat)
    requires |cs| == |ds| && i < first <= last <= |cs|
    requires ds[i] == cs[i] + Sum(cs[first..last])
    requires forall k | first <= k < last :: ds[k] == 0
    requires forall k | 0 <= k < |cs| && k != i && !(first <= k < last) :: ds[k] == cs[k]
    ensures Sum(ds) == Sum(cs)
  {
    SumInThree(cs, first, last);
    SumInThree(ds, first, last);
    SumOfNothing(ds[first..last]);
    SumUpdate(cs[..first], i, ds[i]);
    assert ds[..first] == cs[..first][i := ds[i]];
    assert ds[last..] == cs[last..];
  }

  lemma ClaimSums(before: seq<nat>, after: seq<nat>, i: nat, mine: nat)
    requires i < |before| <= |after|
    requires forall k | 0 <= k < |before| :: after[k] == if k == i then mine else before[k]
    requires forall k | |before| <= k < |after| :: after[k] == 0
    ensures Sum(after) + before[i] == Sum(before) + mine
  {
    var n := |before|;
    assert after == before[i := mine] + after[n..];
    SumAppend(before[i := mine], after[n..]);
    SumOfNothing(after[n..]);
    SumUpdate(before, i, mine);
  }

  lemma MovedIntoOne(before: seq<nat>, after: seq<nat>, i: nat, first: nat, last: nat)
    requires |before| == |after| && i < first <= last <= |before|
    requires forall k | 0 <= k < |before| && k != i :: after[k] == if first <= k < last then 0 else before[k]
    requires after[i] == before[i] + Sum(before[first..last])
    ensures Sum(after) == Sum(before)
  {
    SumBlock(before, after, i, first, last);
  }

  lemma FirstAndBlock(cs: seq<nat>, first: nat, last: nat)
    requires 0 < first <= last <= |cs|
    requires forall k | 0 < k < |cs| && !(first <= k < last) :: cs[k] == 0
    ensures Sum(cs) == cs[0] + Sum(cs[first..last])
  {
    SumInThree(cs, first, last);
    SumOfNothing(cs[last..]);
    SumUpdate(cs[..first], 0, 0);
    SumOfNothing(cs[..first][0 := 0]);
  }

  lemma SumPart(cs: seq<nat>, i: nat, first: nat, last: nat)
    requires i < first <= last <= |cs|
    ensures cs[i] + Sum(cs[first..last]) <= Sum(cs)
  {
    SumInThree(cs, first, last);
    SumUpdate(cs[..first], i, 0);
  }
}
