/** The stabilising pass of `makePntsUnique`: the sort that put identical
    points next to each other is not stable, so inside every interval of
    identical points the permutation vector is bubble-sorted by original
    index. */
module Stabilize {
  import opened Permutations
  import opened Runs

  /** Entries `lo..hi-1` of `p` are in ascending order. */
  predicate SortedRange(p: seq<nat>, lo: nat, hi: nat)
    requires lo <= hi <= |p|
  {
    forall a, b :: lo <= a < b < hi ==> p[a] <= p[b]
  }

  /** No entry of `lo..mid-1` exceeds an entry of `mid..hi-1`. */
  predicate Partitioned(p: seq<nat>, lo: nat, mid: nat, hi: nat)
    requires lo <= mid <= hi <= |p|
  {
    forall a, b :: lo <= a < mid <= b < hi ==> p[a] <= p[b]
  }

  /** `q` agrees with `p` outside `lo..hi-1` and holds the same entries, in
      some order, inside. */
  predicate Reordered(p: seq<nat>, q: seq<nat>, lo: nat, hi: nat)
    requires lo <= hi <= |p|
  {
    && |q| == |p|
    && (forall i :: 0 <= i < |p| && !(lo <= i < hi) ==> q[i] == p[i])
    && multiset(q[lo..hi]) == multiset(p[lo..hi])
  }

  lemma ReorderedTrans(p: seq<nat>, q: seq<nat>, r: seq<nat>, lo: nat, hi: nat)
    requires lo <= hi <= |p|
    requires Reordered(p, q, lo, hi) && Reordered(q, r, lo, hi)
    ensures Reordered(p, r, lo, hi)
  {
  }

  /** Swapping a pair of neighbours inside the range reorders it. */
  lemma SwapReorders(q: seq<nat>, k: nat, lo: nat, hi: nat)
    requires lo <= k && k + 1 < hi <= |q|
    ensures Reordered(q, Swap(q, k, k + 1), lo, hi)
  {
    SwapMultiset(q, k, lo, hi);
  }

  /** What the inner loop knows before it compares `k` and `k + 1`: the
      range has only been reordered, `k` holds the largest entry seen so
      far, the suffix from `last` is still sorted and above the prefix, and
      once `k` has passed `last - 1` that position holds the prefix maximum. */
  predicate PassState(p: seq<nat>, q: seq<nat>, beg: nat, end: nat, last: nat, k: nat)
    requires beg <= k < end <= |p| && beg < last <= end
  {
    && Reordered(p, q, beg, end)
    && (forall i :: beg <= i <= k ==> q[i] <= q[k])
    && SortedRange(q, last, end) && Partitioned(q, beg, last, end)
    && (last - 1 <= k ==> forall i :: beg <= i < last ==> q[i] <= q[last - 1])
  }

  /** In the sorted suffix, and where the prefix meets it, neighbours are
      already in order, so the compare-and-swap changes nothing there. */
  lemma NoSwapInSuffix(p: seq<nat>, q: seq<nat>, beg: nat, end: nat, last: nat, k: nat)
    requires beg <= k && k + 1 < end <= |p| && beg < last <= end && last <= k + 1
    requires PassState(p, q, beg, end, last, k)
    ensures q[k] <= q[k + 1]
  {
    if k + 1 == last {
      assert q[k] <= q[k + 1];
    } else {
      assert q[k] <= q[k + 1];
    }
  }

  /** A swap inside the unsorted prefix keeps the pass state. */
  lemma SwapInPrefix(p: seq<nat>, q: seq<nat>, beg: nat, end: nat, last: nat, k: nat)
    requires beg <= k && k + 1 < last <= end <= |p|
    requires PassState(p, q, beg, end, last, k) && q[k] > q[k + 1]
    ensures PassState(p, Swap(q, k, k + 1), beg, end, last, k + 1)
  {
    var r := Swap(q, k, k + 1);
    SwapReorders(q, k, beg, end);
    ReorderedTrans(p, q, r, beg, end);
    forall i | beg <= i <= k + 1
      ensures r[i] <= r[k + 1]
    {
      if i < k {
        assert r[i] == q[i];
      }
    }
    forall a, b | beg <= a < last <= b < end
      ensures r[a] <= r[b]
    {
      assert r[b] == q[b];
      if a == k {
        assert r[a] == q[k + 1];
      } else if a == k + 1 {
        assert r[a] == q[k];
      } else {
        assert r[a] == q[a];
      }
    }
    assert SortedRange(r, last, end);
  }

  /** The compare-and-swap at `k` keeps the pass state: the swap when the
      neighbours are out of order, doing nothing otherwise. */
  lemma PassStep(p: seq<nat>, q: seq<nat>, beg: nat, end: nat, last: nat, k: nat)
    requires beg <= k && k + 1 < end <= |p| && beg < last <= end
    requires PassState(p, q, beg, end, last, k)
    ensures q[k] > q[k + 1] ==> PassState(p, Swap(q, k, k + 1), beg, end, last, k + 1)
    ensures q[k] <= q[k + 1] ==> PassState(p, q, beg, end, last, k + 1)
  {
    if last <= k + 1 {
      NoSwapInSuffix(p, q, beg, end, last, k);
    } else if q[k] > q[k + 1] {
      SwapInPrefix(p, q, beg, end, last, k);
    }
  }

  /** If `q` is a permutation whenever `p` is, so is `q` after a swap. */
  lemma SwapKeepsPermutation(p: seq<nat>, q: seq<nat>, a: nat, b: nat)
    requires |q| == |p| && a < |p| && b < |p|
    requires IsPermutation(p, |p|) ==> IsPermutation(q, |p|)
    ensures IsPermutation(p, |p|) ==> IsPermutation(Swap(q, a, b), |p|)
  {
    if IsPermutation(p, |p|) {
      SwapPermutation(q, |p|, a, b);
    }
  }

  /** The compare-and-swap of the inner loop at `k`. */
  method CompareAndSwap(p: seq<nat>, q: seq<nat>, beg: nat, end: nat, last: nat, k: nat)
    returns (q': seq<nat>)
    requires beg <= k && k + 1 < end <= |p| && beg < last <= end
    requires PassState(p, q, beg, end, last, k)
    requires IsPermutation(p, |p|) ==> IsPermutation(q, |p|)
    ensures PassState(p, q', beg, end, last, k + 1)
    ensures IsPermutation(p, |p|) ==> IsPermutation(q', |p|)
  {
    PassStep(p, q, beg, end, last, k);
    if q[k] > q[k + 1] {
      SwapKeepsPermutation(p, q, k, k + 1);
      q' := Swap(q, k, k + 1);
    } else {
      q' := q;
    }
  }

  /** One pass of the inner bubble loop over `beg..end-1`: it carries the
      largest entry of the unsorted prefix `beg..last-1` to position
      `last - 1`, which extends the sorted suffix by one. */
  method BubblePass(p: seq<nat>, beg: nat, end: nat, last: nat) returns (q: seq<nat>)
    requires beg < last <= end <= |p|
    requires SortedRange(p, last, end) && Partitioned(p, beg, last, end)
    ensures Reordered(p, q, beg, end)
    ensures IsPermutation(p, |p|) ==> IsPermutation(q, |p|)
    ensures SortedRange(q, last - 1, end) && Partitioned(q, beg, last - 1, end)
  {
    q := p;
    var k := beg;
    while k < end - 1
      invariant beg <= k <= end - 1
      invariant PassState(p, q, beg, end, last, k)
      invariant IsPermutation(p, |p|) ==> IsPermutation(q, |p|)
    {
      // the comparison of neighbours `k`, `k + 1` and the swap are in CompareAndSwap
      q := CompareAndSwap(p, q, beg, end, last, k);
      k := k + 1;
    }
  }

  /** The two nested loops of the stabilising pass on one interval: after
      `end - beg` passes the range `beg..end-1` is sorted. */
  method BubbleSortRange(p: seq<nat>, beg: nat, end: nat) returns (q: seq<nat>)
    requires beg < end <= |p|
    ensures Reordered(p, q, beg, end)
    ensures IsPermutation(p, |p|) ==> IsPermutation(q, |p|)
    ensures SortedRange(q, beg, end)
  {
    q := p;
    var j := beg;
    while j < end
      invariant beg <= j <= end
      invariant Reordered(p, q, beg, end)
      invariant IsPermutation(p, |p|) ==> IsPermutation(q, |p|)
      invariant SortedRange(q, end - (j - beg), end)
      invariant Partitioned(q, beg, end - (j - beg), end)
    {
      var q' := BubblePass(q, beg, end, end - (j - beg));
      ReorderedTrans(p, q, q', beg, end);
      q := q';
      j := j + 1;
    }
  }

  /** Every interval is non-empty and lies inside `0..n-1`. */
  predicate Bounded(ivs: seq<Interval>, n: nat)
  {
    forall h :: 0 <= h < |ivs| ==> ivs[h].beg < ivs[h].end <= n
  }

  /** After the first `i` intervals have been stabilised: each of them is
      sorted and holds the entries it held in `perm`, and every position
      outside them still holds its entry of `perm`. */
  predicate StabilizedUpTo(perm: seq<nat>, p: seq<nat>, ivs: seq<Interval>, i: nat)
    requires Bounded(ivs, |perm|) && i <= |ivs|
  {
    && |p| == |perm|
    && (forall h :: 0 <= h < i ==> SortedRange(p, ivs[h].beg, ivs[h].end))
    && (forall h :: 0 <= h < i ==>
          multiset(p[ivs[h].beg..ivs[h].end]) == multiset(perm[ivs[h].beg..ivs[h].end]))
    && (forall k :: 0 <= k < |p| && !Covered(ivs[..i], k) ==> p[k] == perm[k])
  }

  /** The intervals before `i` end before `i` begins. */
  lemma EarlierApart(ivs: seq<Interval>, n: nat, i: nat)
    requires Bounded(ivs, n) && Ascending(ivs) && i < |ivs|
    ensures forall h :: 0 <= h < i ==> ivs[h].end <= ivs[i].beg
  {
    forall h | 0 <= h < i
      ensures ivs[h].end <= ivs[i].beg
    {
      AscendingApart(ivs, h, i);
    }
  }

  /** A position covered by one of the first `i` intervals lies before
      interval `i`. */
  lemma CoveredEarlier(ivs: seq<Interval>, i: nat, k: nat)
    requires i < |ivs| && Covered(ivs[..i], k)
    requires forall h :: 0 <= h < i ==> ivs[h].end <= ivs[i].beg
    ensures k < ivs[i].beg
  {
    var h :| 0 <= h < i && ivs[..i][h].beg <= k < ivs[..i][h].end;
    assert ivs[..i][h] == ivs[h];
  }

  /** A position not covered by the first `i + 1` intervals is covered
      neither by the first `i` nor by interval `i`. */
  lemma UncoveredSplit(ivs: seq<Interval>, i: nat, k: nat)
    requires i < |ivs| && !Covered(ivs[..i + 1], k)
    ensures !Covered(ivs[..i], k) && !(ivs[i].beg <= k < ivs[i].end)
  {
    assert ivs[..i + 1][i] == ivs[i];
  }

  /** Stabilising interval `i` after the ones before it. */
  lemma StabilizeStep(perm: seq<nat>, p: seq<nat>, p': seq<nat>, ivs: seq<Interval>, i: nat)
    requires Bounded(ivs, |perm|) && Ascending(ivs) && i < |ivs|
    requires StabilizedUpTo(perm, p, ivs, i)
    requires Reordered(p, p', ivs[i].beg, ivs[i].end) && SortedRange(p', ivs[i].beg, ivs[i].end)
    ensures StabilizedUpTo(perm, p', ivs, i + 1)
  {
    var iv := ivs[i];
    EarlierApart(ivs, |perm|, i);
    forall h | 0 <= h < i + 1
      ensures SortedRange(p', ivs[h].beg, ivs[h].end)
      ensures multiset(p'[ivs[h].beg..ivs[h].end]) == multiset(perm[ivs[h].beg..ivs[h].end])
    {
      if h < i {
        assert p'[ivs[h].beg..ivs[h].end] == p[ivs[h].beg..ivs[h].end];
      } else {
        forall k | iv.beg <= k < iv.end
          ensures p[k] == perm[k]
        {
          if Covered(ivs[..i], k) {
            CoveredEarlier(ivs, i, k);
          }
        }
        assert p[iv.beg..iv.end] == perm[iv.beg..iv.end];
      }
    }
    forall k | 0 <= k < |p'| && !Covered(ivs[..i + 1], k)
      ensures p'[k] == perm[k]
    {
      UncoveredSplit(ivs, i, k);
    }
  }

  /** Bubble-sorts interval `i` of the flat bounds vector `b`. */
  method StabilizeInterval(perm: seq<nat>, p: seq<nat>, b: seq<nat>, i: nat) returns (p': seq<nat>)
    requires |b| % 2 == 0 && Bounded(Pairs(b), |perm|) && Ascending(Pairs(b)) && i < |b| / 2
    requires StabilizedUpTo(perm, p, Pairs(b), i)
    requires IsPermutation(perm, |perm|) ==> IsPermutation(p, |perm|)
    ensures StabilizedUpTo(perm, p', Pairs(b), i + 1)
    ensures IsPermutation(perm, |perm|) ==> IsPermutation(p', |perm|)
  {
    var beg := b[2 * i];
    var end := b[2 * i + 1];
    assert Pairs(b)[i] == Interval(beg, end);
    p' := BubbleSortRange(p, beg, end);
    StabilizeStep(perm, p, p', Pairs(b), i);
  }

  /** The stabilising pass: every interval `Pairs(b)[i]` of the permutation
      vector is bubble-sorted, in turn. The intervals are those found by the
      scan, so they are non-empty and ascending. */
  method StabilizeRuns(perm: seq<nat>, b: seq<nat>) returns (p: seq<nat>)
    requires |b| % 2 == 0 && Bounded(Pairs(b), |perm|) && Ascending(Pairs(b))
    ensures StabilizedUpTo(perm, p, Pairs(b), |b| / 2)
    ensures IsPermutation(perm, |perm|) ==> IsPermutation(p, |perm|)
  {
    p := perm;
    var i := 0;
    while i < |b| / 2
      invariant 0 <= i <= |b| / 2
      invariant StabilizedUpTo(perm, p, Pairs(b), i)
      invariant IsPermutation(perm, |perm|) ==> IsPermutation(p, |perm|)
    {
      p := StabilizeInterval(perm, p, b, i);
      i := i + 1;
    }
  }

  /** The run list of the scan satisfies what the stabilising pass needs. */
  lemma RunListBounded<P>(s: seq<P>, near: (P, P) -> bool, ivs: seq<Interval>)
    requires RunList(s, near, ivs)
    ensures Bounded(ivs, |s|) && Ascending(ivs)
  {
    RunListShape(s, near, ivs);
  }

  /** Along every run of `s` the entries of `p` ascend. */
  predicate AscendingRuns<P>(s: seq<P>, near: (P, P) -> bool, p: seq<nat>)
    requires |p| == |s|
  {
    forall x, y :: 0 <= x <= y < |s| && RunStart(s, near, y) <= x ==> p[x] <= p[y]
  }

  /** `p` holds the entry `v` at some position of the run of `k`. */
  predicate HeldInRun<P>(s: seq<P>, near: (P, P) -> bool, p: seq<nat>, k: nat, v: nat)
    requires |p| == |s| && k < |s|
  {
    exists j :: 0 <= j < |s| && RunStart(s, near, j) == RunStart(s, near, k) && p[j] == v
  }

  /** Two positions of one run, the later one not a run start, lie in the
      same interval, which the pass has sorted. */
  lemma StableOrderAt<P>(s: seq<P>, near: (P, P) -> bool, perm: seq<nat>, p: seq<nat>,
                         ivs: seq<Interval>, x: nat, y: nat)
    requires RunsOf(s, near, ivs) && |perm| == |s| && Bounded(ivs, |perm|)
    requires StabilizedUpTo(perm, p, ivs, |ivs|)
    requires x <= y < |s| && RunStart(s, near, y) <= x
    ensures p[x] <= p[y]
  {
    if x == y {
      return;
    }
    assert Covered(ivs, y);
    var h :| 0 <= h < |ivs| && ivs[h].beg <= y < ivs[h].end;
    assert IsRun(s, near, ivs[h]);
    assert SortedRange(p, ivs[h].beg, ivs[h].end);
  }

  /** Inside a whole run whose entries were only reordered, the entry
      `perm[k]` is found at some position of the run. */
  lemma FoundInRun<P>(s: seq<P>, near: (P, P) -> bool, perm: seq<nat>, p: seq<nat>,
                      iv: Interval, k: nat)
    requires IsRun(s, near, iv) && |perm| == |s| && |p| == |s| && iv.beg <= k < iv.end
    requires multiset(p[iv.beg..iv.end]) == multiset(perm[iv.beg..iv.end])
    ensures HeldInRun(s, near, p, k, perm[k])
  {
    assert perm[iv.beg..iv.end][k - iv.beg] == perm[k];
    assert perm[k] in multiset(p[iv.beg..iv.end]);
    var t :| 0 <= t < iv.end - iv.beg && p[iv.beg..iv.end][t] == perm[k];
    assert RunStart(s, near, iv.beg + t) == RunStart(s, near, k);
  }

  /** The entry `perm[k]` is found in `p` at a position of the run of `k`. */
  lemma StaysInRunAt<P>(s: seq<P>, near: (P, P) -> bool, perm: seq<nat>, p: seq<nat>,
                        ivs: seq<Interval>, k: nat)
    requires RunsOf(s, near, ivs) && |perm| == |s| && Bounded(ivs, |perm|)
    requires StabilizedUpTo(perm, p, ivs, |ivs|)
    requires k < |s|
    ensures HeldInRun(s, near, p, k, perm[k])
  {
    if Covered(ivs, k) {
      var h :| 0 <= h < |ivs| && ivs[h].beg <= k < ivs[h].end;
      FoundInRun(s, near, perm, p, ivs[h], k);
    } else {
      assert ivs[..|ivs|] == ivs;
      assert p[k] == perm[k];
    }
  }

  /** Stabilising the run list of `s` leaves the permutation vector
      ascending along every run. */
  lemma StableRunsAscend<P>(s: seq<P>, near: (P, P) -> bool, perm: seq<nat>, p: seq<nat>,
                            ivs: seq<Interval>)
    requires RunsOf(s, near, ivs) && |perm| == |s| && Bounded(ivs, |perm|)
    requires StabilizedUpTo(perm, p, ivs, |ivs|)
    ensures AscendingRuns(s, near, p)
  {
    forall x, y | 0 <= x <= y < |s| && RunStart(s, near, y) <= x
      ensures p[x] <= p[y]
    {
      StableOrderAt(s, near, perm, p, ivs, x, y);
    }
  }

  /** Stabilising the run list of `s` only moves entries within their run:
      every entry of `perm` is found in `p` at a position of the same run. */
  lemma StableRunsStay<P>(s: seq<P>, near: (P, P) -> bool, perm: seq<nat>, p: seq<nat>,
                          ivs: seq<Interval>)
    requires RunsOf(s, near, ivs) && |perm| == |s| && Bounded(ivs, |perm|)
    requires StabilizedUpTo(perm, p, ivs, |ivs|)
    ensures |p| == |s|
    ensures forall k :: 0 <= k < |s| ==> HeldInRun(s, near, p, k, perm[k])
  {
    forall k | 0 <= k < |s|
      ensures HeldInRun(s, near, p, k, perm[k])
    {
      StaysInRunAt(s, near, perm, p, ivs, k);
    }
  }
}
