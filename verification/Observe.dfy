/** internal/alert/observe.go: counters and latency percentiles. Latencies are whole milliseconds. */
module Observe {
  import opened Common
  import Slices

  predicate Sorted(s: seq<int>) {
    forall i, j :: 0 <= i < j < |s| ==> s[i] <= s[j]
  }

  /** Sorted except that the element at j may be too small for its place. */
  predicate SortedBut(s: seq<int>, j: nat) {
    forall a, b :: 0 <= a < b < |s| && b != j ==> s[a] <= s[b]
  }

  /** sortFloat64s: the in-place insertion sort. */
  method Sort(s: array<int>)
    modifies s
    ensures Sorted(s[..]) && multiset(s[..]) == multiset(old(s[..]))
  {
    var i := 1;
    while i < s.Length
      invariant 1 <= i
      invariant Sorted(s[..if i < s.Length then i else s.Length])
      invariant multiset(s[..]) == multiset(old(s[..]))
    {
      Sink(s, i);
      i := i + 1;
    }
    assert s[..s.Length] == s[..];
  }

  /** The inner loop: the element at i is swapped down to its place among the sorted ones before it. */
  method Sink(s: array<int>, i: nat)
    requires 1 <= i < s.Length && Sorted(s[..i])
    modifies s
    ensures Sorted(s[..i + 1]) && multiset(s[..]) == multiset(old(s[..]))
  {
    var j := i;
    while j > 0 && s[j] < s[j - 1]
      invariant j <= i
      invariant SortedBut(s[..i + 1], j)
      invariant forall b :: j < b <= i ==> s[j] < s[b]
      invariant multiset(s[..]) == multiset(old(s[..]))
    {
      Swap(s, j);
      j := j - 1;
    }
  }

  method Swap(s: array<int>, j: nat)
    requires 0 < j < s.Length
    modifies s
    ensures s[..] == old(s[..])[j := old(s[j - 1])][j - 1 := old(s[j])]
    ensures multiset(s[..]) == multiset(old(s[..]))
  {
    s[j], s[j - 1] := s[j - 1], s[j];
  }

  /** The index that percentile reads, for p between 0 and 100. */
  function Rank(n: nat, p: int): int {
    (n - 1) * p / 100
  }

  lemma RankInRange(n: nat, p: int)
    requires n > 0 && 0 <= p <= 100
    ensures 0 <= Rank(n, p) < n
  {
    MulMono(0, p, n - 1);
    MulMono(p, 100, n - 1);
    DivideBetween((n - 1) * p, n - 1);
  }

  lemma DivideBetween(x: int, m: int)
    requires 0 <= x <= m * 100
    ensures 0 <= x / 100 <= m
  {
  }

  lemma RankMonotone(n: nat, p: int, q: int)
    requires n > 0 && 0 <= p <= q <= 100
    ensures Rank(n, p) <= Rank(n, q)
  {
    MulMono(p, q, n - 1);
    DivideMonotone((n - 1) * p, (n - 1) * q);
  }

  lemma DivideMonotone(x: int, y: int)
    requires x <= y
    ensures x / 100 <= y / 100
  {
  }

  function Percentile(sorted: seq<int>, p: int): int
    requires 0 <= p <= 100
  {
    if sorted == [] then 0 else
    RankInRange(|sorted|, p);
    sorted[Rank(|sorted|, p)]
  }

  /** How many samples are at most v. */
  function AtMost(s: seq<int>, v: int): nat {
    if s == [] then 0 else (if s[0] <= v then 1 else 0) + AtMost(s[1..], v)
  }

  function AtLeast(s: seq<int>, v: int): nat {
    if s == [] then 0 else (if s[0] >= v then 1 else 0) + AtLeast(s[1..], v)
  }

  lemma {:induction false} SortedAtMost(s: seq<int>, k: nat)
    requires Sorted(s) && k < |s|
    ensures AtMost(s, s[k]) >= k + 1
    ensures AtLeast(s, s[k]) >= |s| - k
  {
    if k > 0 {
      SortedAtMost(s[1..], k - 1);
    } else {
      AllAtLeast(s, s[0]);
    }
  }

  lemma {:induction false} AllAtLeast(s: seq<int>, v: int)
    requires forall i :: 0 <= i < |s| ==> s[i] >= v
    ensures AtLeast(s, v) == |s|
  {
    if s != [] {
      AllAtLeast(s[1..], v);
    }
  }

  lemma {:induction false} AtMostRemove(s: seq<int>, i: nat, v: int)
    requires i < |s|
    ensures AtMost(s, v) == AtMost(s[..i] + s[i + 1..], v) + (if s[i] <= v then 1 else 0)
    ensures AtLeast(s, v) == AtLeast(s[..i] + s[i + 1..], v) + (if s[i] >= v then 1 else 0)
  {
    if i == 0 {
      assert s[..0] + s[1..] == s[1..];
    } else {
      AtMostRemove(s[1..], i - 1, v);
      assert (s[..i] + s[i + 1..])[1..] == s[1..][..i - 1] + s[1..][i..];
      assert (s[..i] + s[i + 1..])[0] == s[0];
    }
  }

  lemma RemoveFromBag(t: seq<int>, x: int) returns (i: nat)
    requires x in multiset(t)
    ensures i < |t| && t[i] == x && multiset(t[..i] + t[i + 1..]) == multiset(t) - multiset{x}
  {
    i :| 0 <= i < |t| && t[i] == x;
    assert t == t[..i] + [x] + t[i + 1..];
    assert multiset(t) == multiset(t[..i]) + multiset{x} + multiset(t[i + 1..]);
  }

  /** Counting does not depend on the order. */
  lemma {:induction false} PermutationCounts(s: seq<int>, t: seq<int>, v: int)
    requires multiset(s) == multiset(t)
    ensures AtMost(s, v) == AtMost(t, v) && AtLeast(s, v) == AtLeast(t, v)
    decreases |s|
  {
    if s == [] {
      assert |multiset(t)| == 0 == |t|;
    } else {
      assert s[0] in multiset(s);
      HeadBag(s);
      assert multiset(s[1..]) == multiset(s) - multiset{s[0]};
      var i := RemoveFromBag(t, s[0]);
      PermutationCounts(s[1..], t[..i] + t[i + 1..], v);
      AtMostRemove(t, i, v);
    }
  }

  datatype Snapshot = Snapshot(total: int, errors: int, dropped: int, p50: int, p99: int)

  /** v is a p-th percentile of n samples: one of them, with more than p hundredths of n - 1 samples at or
      below it, and no more than that strictly below it. */
  ghost predicate IsPercentile(samples: seq<int>, p: int, v: int) {
    if samples == [] then v == 0
    else
      && v in samples
      && 100 * AtMost(samples, v) > (|samples| - 1) * p
      && 100 * (|samples| - AtLeast(samples, v)) <= (|samples| - 1) * p
  }

  /** Rank is the last index that is at most p hundredths of n - 1. */
  lemma RankExactly(n: nat, p: int, k: int)
    requires n > 0 && 0 <= p <= 100
    ensures k <= Rank(n, p) <==> 100 * k <= (n - 1) * p
  {
    FloorExactly((n - 1) * p, k);
  }

  lemma FloorExactly(x: int, k: int)
    ensures k <= x / 100 <==> 100 * k <= x
  {
  }

  lemma PercentileOfSorted(samples: seq<int>, sorted: seq<int>, p: int)
    requires 0 <= p <= 100 && Sorted(sorted) && multiset(sorted) == multiset(samples)
    ensures IsPercentile(samples, p, Percentile(sorted, p))
  {
    assert |multiset(sorted)| == |sorted| && |multiset(samples)| == |samples|;
    if samples != [] {
      RankInRange(|sorted|, p);
      var v := sorted[Rank(|sorted|, p)];
      SortedAtMost(sorted, Rank(|sorted|, p));
      PermutationCounts(sorted, samples, v);
      RankExactly(|sorted|, p, AtMost(sorted, v));
      RankExactly(|sorted|, p, |sorted| - AtLeast(sorted, v));
      assert v in multiset(sorted) && v in multiset(samples);
    }
  }

  /** A percentile is fixed by its ranks, however the samples are ordered, so the definition above
      leaves no choice. */
  lemma PercentileUnique(samples: seq<int>, sorted: seq<int>, p: int, v: int)
    requires 0 <= p <= 100 && Sorted(sorted) && multiset(sorted) == multiset(samples)
    requires IsPercentile(samples, p, v)
    ensures v == Percentile(sorted, p)
  {
    assert |multiset(sorted)| == |sorted| && |multiset(samples)| == |samples|;
    if samples != [] {
      RankInRange(|sorted|, p);
      var k := Rank(|sorted|, p);
      PermutationCounts(sorted, samples, v);
      RankExactly(|sorted|, p, AtMost(sorted, v));
      RankExactly(|sorted|, p, |sorted| - AtLeast(sorted, v));
      if v < sorted[k] {
        FewAtMost(sorted, k, v);
      } else if v > sorted[k] {
        FewAtLeast(sorted, k, v);
      }
    }
  }

  lemma {:induction false} FewAtMost(s: seq<int>, k: nat, v: int)
    requires Sorted(s) && k < |s| && v < s[k]
    ensures AtMost(s, v) <= k
  {
    if k > 0 {
      FewAtMost(s[1..], k - 1, v);
    } else {
      NoneAtMost(s, v);
    }
  }

  lemma {:induction false} NoneAtMost(s: seq<int>, v: int)
    requires forall i :: 0 <= i < |s| ==> s[i] > v
    ensures AtMost(s, v) == 0
  {
    if s != [] {
      NoneAtMost(s[1..], v);
    }
  }

  lemma {:induction false} FewAtLeast(s: seq<int>, k: nat, v: int)
    requires Sorted(s) && k < |s| && v > s[k]
    ensures AtLeast(s, v) <= |s| - k - 1
    decreases k
  {
    AtLeastLength(s[1..], v);
    if k > 0 {
      assert s[0] <= s[k];
      FewAtLeast(s[1..], k - 1, v);
    }
  }

  lemma {:induction false} AtLeastLength(s: seq<int>, v: int)
    ensures AtLeast(s, v) <= |s|
  {
    if s != [] {
      AtLeastLength(s[1..], v);
    }
  }

  class Observer {
    var total: int
    var errors: int
    var dropped: int
    /** samples[..len] is the Go slice. */
    var samples: array<int>
    var len: nat

    /** Since the last Reset, every call was dropped or sampled, and errors are among the sampled. */
    ghost predicate Valid()
      reads this, samples
    {
      len <= samples.Length && total == dropped + len && 0 <= errors <= len && 0 <= dropped
    }

    constructor ()
      ensures Valid() && total == 0 && len == 0 && fresh(samples)
    {
      total, errors, dropped, len := 0, 0, 0, 0;
      samples := new int[0];
    }

    method Record(failed: bool, latency: int, drop: bool)
      requires Valid()
      modifies this, samples
      ensures Valid() && (samples == old(samples) || fresh(samples))
      ensures total == old(total) + 1 && dropped == old(dropped) + (if drop then 1 else 0)
      ensures errors == old(errors) + (if failed && !drop then 1 else 0)
      ensures samples[..len] == old(samples[..len]) + (if drop then [] else [latency])
    {
      total := total + 1;
      if drop {
        dropped := dropped + 1;
        return;
      }
      if failed {
        errors := errors + 1;
      }
      samples := Slices.Append(samples, len, latency);
      len := len + 1;
    }

    /** Sorts a copy: the stored samples keep their order, and P50 <= P99. */
    method Snap() returns (snap: Snapshot)
      requires Valid()
      ensures unchanged(this) && unchanged(samples)
      ensures snap.total == total && snap.errors == errors && snap.dropped == dropped
      ensures IsPercentile(samples[..len], 50, snap.p50) && IsPercentile(samples[..len], 99, snap.p99)
      ensures snap.p50 <= snap.p99
    {
      snap := Snapshot(total, errors, dropped, 0, 0);
      if len > 0 {
        var sorted := Slices.Copy(samples, len, len);
        assert sorted[..] == samples[..len];
        Sort(sorted);
        PercentileOfSorted(samples[..len], sorted[..], 50);
        PercentileOfSorted(samples[..len], sorted[..], 99);
        RankMonotone(len, 50, 99);
        RankInRange(len, 50);
        RankInRange(len, 99);
        snap := snap.(p50 := Percentile(sorted[..], 50), p99 := Percentile(sorted[..], 99));
      }
    }

    method Reset()
      requires Valid()
      modifies this
      ensures Valid() && total == 0 && len == 0 && samples == old(samples)
    {
      total, errors, dropped, len := 0, 0, 0, 0;
    }
  }
}
