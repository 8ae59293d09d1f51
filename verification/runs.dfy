/** Runs of tolerance-equal neighbours in the sorted point vector, and the
    scan of `makePntsUnique` that records them as a flat vector of interval
    bounds `[beg0, end0, beg1, end1, ...]`. */
module Runs {
  /** Sorted positions `k` and `k + 1` hold points that count as the same
      point. The registry instantiates `near` with the max-norm tolerance
      test; nothing here depends on what it is. */
  predicate Linked<P>(s: seq<P>, near: (P, P) -> bool, k: nat)
    requires k + 1 < |s|
  {
    near(s[k + 1], s[k])
  }

  /** The first position of the maximal run of linked neighbours that ends
      at (or passes through) position `k`. */
  function RunStart<P>(s: seq<P>, near: (P, P) -> bool, k: nat): (r: nat)
    requires k < |s|
    ensures r <= k
    ensures forall j :: r <= j < k ==> Linked(s, near, j)
    ensures r > 0 ==> !Linked(s, near, r - 1)
  {
    if k == 0 then 0
    else if Linked(s, near, k - 1) then RunStart(s, near, k - 1)
    else k
  }

  /** The run start is determined by the two conditions in its contract. */
  lemma {:induction false} RunStartUnique<P>(s: seq<P>, near: (P, P) -> bool, b: nat, k: nat)
    requires b <= k < |s|
    requires forall j :: b <= j < k ==> Linked(s, near, j)
    requires b > 0 ==> !Linked(s, near, b - 1)
    ensures RunStart(s, near, k) == b
    decreases k
  {
    if k > b {
      RunStartUnique(s, near, b, k - 1);
    }
  }

  /** Runs are contiguous: every position between a run's start and one of
      its members belongs to the same run. */
  lemma RunContiguous<P>(s: seq<P>, near: (P, P) -> bool, x: nat, y: nat)
    requires y < |s| && RunStart(s, near, y) <= x <= y
    ensures RunStart(s, near, x) == RunStart(s, near, y)
  {
    RunStartUnique(s, near, RunStart(s, near, y), x);
  }

  /** One `[beg, end)` interval of sorted positions. */
  datatype Interval = Interval(beg: nat, end: nat)

  /** Reads a flat bounds vector `[beg0, end0, beg1, end1, ...]` as the
      intervals it lists, the way the bubble pass indexes it. */
  function Pairs(b: seq<nat>): (r: seq<Interval>)
    requires |b| % 2 == 0
    ensures |r| == |b| / 2
    ensures forall h :: 0 <= h < |r| ==> r[h] == Interval(b[2 * h], b[2 * h + 1])
  {
    seq(|b| / 2, h requires 0 <= h < |b| / 2 => Interval(b[2 * h], b[2 * h + 1]))
  }

  /** The flat bounds vector that lists `ivs`. */
  function Flat(ivs: seq<Interval>): (b: seq<nat>)
    ensures |b| == 2 * |ivs|
  {
    if |ivs| == 0 then []
    else Flat(ivs[..|ivs| - 1]) + [ivs[|ivs| - 1].beg, ivs[|ivs| - 1].end]
  }

  /** Reading the flat vector back gives the intervals that were pushed. */
  lemma {:induction false} PairsOfFlat(ivs: seq<Interval>)
    ensures Pairs(Flat(ivs)) == ivs
  {
    if |ivs| > 0 {
      var pre := ivs[..|ivs| - 1];
      PairsOfFlat(pre);
      var b := Flat(ivs);
      assert b == Flat(pre) + [ivs[|ivs| - 1].beg, ivs[|ivs| - 1].end];
      forall h | 0 <= h < |ivs|
        ensures Pairs(b)[h] == ivs[h]
      {
        if h < |pre| {
          assert b[2 * h] == Flat(pre)[2 * h];
          assert b[2 * h + 1] == Flat(pre)[2 * h + 1];
          assert Pairs(Flat(pre))[h] == pre[h];
        }
      }
    }
  }

  /** Position `k` lies inside one of the intervals. */
  predicate Covered(ivs: seq<Interval>, k: nat)
  {
    exists h :: 0 <= h < |ivs| && ivs[h].beg <= k < ivs[h].end
  }

  /** `iv` is one whole run of at least two of the positions of `s`: it
      starts its run, all its positions belong to that run, and the position
      after it starts another. */
  predicate IsRun<P>(s: seq<P>, near: (P, P) -> bool, iv: Interval)
  {
    && iv.beg + 2 <= iv.end <= |s|
    && (forall j :: iv.beg <= j < iv.end ==> RunStart(s, near, j) == iv.beg)
    && (iv.end < |s| ==> RunStart(s, near, iv.end) == iv.end)
  }

  /** Each interval ends no later than the next one begins. */
  predicate Ascending(ivs: seq<Interval>)
  {
    forall h :: 0 < h < |ivs| ==> ivs[h - 1].end <= ivs[h].beg
  }

  /** The intervals are whole runs, in ascending order. */
  predicate RunList<P>(s: seq<P>, near: (P, P) -> bool, ivs: seq<Interval>)
  {
    && Ascending(ivs)
    && (forall h :: 0 <= h < |ivs| ==> IsRun(s, near, ivs[h]))
  }

  /** Every position that is not the start of its run is covered. */
  predicate CoversRuns<P>(s: seq<P>, near: (P, P) -> bool, ivs: seq<Interval>)
  {
    forall k :: 0 <= k < |s| && RunStart(s, near, k) < k ==> Covered(ivs, k)
  }

  /** `ivs` lists exactly the runs of `s` that have two or more points, in
      order. */
  predicate RunsOf<P>(s: seq<P>, near: (P, P) -> bool, ivs: seq<Interval>)
  {
    RunList(s, near, ivs) && CoversRuns(s, near, ivs)
  }

  /** Ascending intervals that are not empty are pairwise disjoint and
      ordered. */
  lemma {:induction false} AscendingApart(ivs: seq<Interval>, h: nat, g: nat)
    requires Ascending(ivs)
    requires forall i :: 0 <= i < |ivs| ==> ivs[i].beg <= ivs[i].end
    requires h < g < |ivs|
    ensures ivs[h].end <= ivs[g].beg
    decreases g
  {
    if h < g - 1 {
      AscendingApart(ivs, h, g - 1);
    }
  }

  /** The shape facts about a run list: every interval holds at least two
      positions inside `s`, and the intervals are disjoint and ascending. */
  lemma RunListShape<P>(s: seq<P>, near: (P, P) -> bool, ivs: seq<Interval>)
    requires RunList(s, near, ivs)
    ensures forall h :: 0 <= h < |ivs| ==> ivs[h].beg + 2 <= ivs[h].end <= |s|
    ensures forall h, g :: 0 <= h < g < |ivs| ==> ivs[h].end <= ivs[g].beg
  {
    assert forall i :: 0 <= i < |ivs| ==> IsRun(s, near, ivs[i]);
    forall h, g | 0 <= h < g < |ivs|
      ensures ivs[h].end <= ivs[g].beg
    {
      AscendingApart(ivs, h, g);
    }
  }

  /** The run list stated in terms of neighbouring pairs alone: inside an
      interval every neighbouring pair is near, the pairs that straddle its
      two ends are not, and every near pair lies inside one. */
  lemma IntervalsAreRuns<P>(s: seq<P>, near: (P, P) -> bool, ivs: seq<Interval>)
    requires RunsOf(s, near, ivs)
    ensures forall h, k :: 0 <= h < |ivs| && ivs[h].beg <= k && k + 1 < ivs[h].end ==>
              Linked(s, near, k)
    ensures forall h :: 0 <= h < |ivs| && ivs[h].beg > 0 ==>
              !Linked(s, near, ivs[h].beg - 1)
    ensures forall h :: 0 <= h < |ivs| && ivs[h].end < |s| ==>
              !Linked(s, near, ivs[h].end - 1)
    ensures forall k :: 0 <= k < |s| - 1 && Linked(s, near, k) ==>
              exists h :: 0 <= h < |ivs| && ivs[h].beg <= k && k + 1 < ivs[h].end
  {
    forall h, k | 0 <= h < |ivs| && ivs[h].beg <= k && k + 1 < ivs[h].end
      ensures Linked(s, near, k)
    {
      assert IsRun(s, near, ivs[h]);
      assert RunStart(s, near, k + 1) == ivs[h].beg;
    }
    forall h | 0 <= h < |ivs| && ivs[h].beg > 0
      ensures !Linked(s, near, ivs[h].beg - 1)
    {
      assert IsRun(s, near, ivs[h]);
      assert RunStart(s, near, ivs[h].beg) == ivs[h].beg;
    }
    forall h | 0 <= h < |ivs| && ivs[h].end < |s|
      ensures !Linked(s, near, ivs[h].end - 1)
    {
      assert IsRun(s, near, ivs[h]);
      assert RunStart(s, near, ivs[h].end - 1) == ivs[h].beg;
      assert RunStart(s, near, ivs[h].end) == ivs[h].end;
    }
    forall k | 0 <= k < |s| - 1 && Linked(s, near, k)
      ensures exists h :: 0 <= h < |ivs| && ivs[h].beg <= k && k + 1 < ivs[h].end
    {
      assert RunStart(s, near, k + 1) == RunStart(s, near, k);
      assert Covered(ivs, k + 1);
      var h :| 0 <= h < |ivs| && ivs[h].beg <= k + 1 < ivs[h].end;
      assert IsRun(s, near, ivs[h]);
      assert ivs[h].beg == RunStart(s, near, k + 1);
    }
  }

  lemma CoveredGrows(ivs: seq<Interval>, iv: Interval, k: nat)
    requires Covered(ivs, k)
    ensures Covered(ivs + [iv], k)
  {
    var h :| 0 <= h < |ivs| && ivs[h].beg <= k < ivs[h].end;
    assert (ivs + [iv])[h] == ivs[h];
  }

  /** Appending a whole run that lies after the last interval keeps the
      list a run list. */
  lemma PushRun<P>(s: seq<P>, near: (P, P) -> bool, ivs: seq<Interval>, iv: Interval)
    requires RunList(s, near, ivs) && IsRun(s, near, iv)
    requires |ivs| > 0 ==> ivs[|ivs| - 1].end <= iv.beg
    ensures RunList(s, near, ivs + [iv])
  {
    var ivs' := ivs + [iv];
    forall h | 0 <= h < |ivs'|
      ensures IsRun(s, near, ivs'[h])
    {
      if h < |ivs| {
        assert ivs'[h] == ivs[h];
      }
    }
    forall h | 0 < h < |ivs'|
      ensures ivs'[h - 1].end <= ivs'[h].beg
    {
      assert ivs'[h - 1] == ivs[h - 1];
      if h < |ivs| {
        assert ivs'[h] == ivs[h];
      }
    }
  }

  /** The positions up to `k` already have their final interval: every one
      that is not a run start is covered by a closed interval or, when
      `identical`, lies in the interval open from `open`. */
  predicate CoveredUpTo<P>(s: seq<P>, near: (P, P) -> bool, ivs: seq<Interval>, k: nat,
                           identical: bool, open: nat)
    requires k < |s|
  {
    forall j :: 0 <= j <= k && RunStart(s, near, j) < j ==>
      Covered(ivs, j) || (identical && open <= j)
  }

  /** What the scan of `IdenticalIntervals` knows after it has looked at the
      neighbour pairs before position `k`: the flat vector `b` lists the
      intervals `ivs` closed so far, followed by `open` when `identical`;
      `identical` says whether `k` continues a run, and then `open` is the
      start of that run; the closed intervals are whole runs that end before
      the open one, or by `k`. */
  predicate ScanState<P>(s: seq<P>, near: (P, P) -> bool, b: seq<nat>, ivs: seq<Interval>,
                         k: nat, identical: bool, open: nat)
    requires k < |s|
  {
    && b == Flat(ivs) + (if identical then [open] else [])
    && (identical <==> RunStart(s, near, k) < k)
    && (identical ==> RunStart(s, near, k) == open)
    && (|ivs| > 0 ==> ivs[|ivs| - 1].end <= (if identical then open else k))
    && RunList(s, near, ivs)
    && CoveredUpTo(s, near, ivs, k, identical, open)
  }

  /** A linked pair after a run start opens an interval at `k`. */
  lemma ScanOpen<P>(s: seq<P>, near: (P, P) -> bool, b: seq<nat>, ivs: seq<Interval>, k: nat, open: nat)
    requires k + 1 < |s| && ScanState(s, near, b, ivs, k, false, open) && Linked(s, near, k)
    ensures ScanState(s, near, b + [k], ivs, k + 1, true, k)
  {
  }

  /** A linked pair inside an open interval extends it. */
  lemma ScanExtend<P>(s: seq<P>, near: (P, P) -> bool, b: seq<nat>, ivs: seq<Interval>, k: nat, open: nat)
    requires k + 1 < |s| && ScanState(s, near, b, ivs, k, true, open) && Linked(s, near, k)
    ensures ScanState(s, near, b, ivs, k + 1, true, open)
  {
  }

  /** An unlinked pair outside any interval changes nothing. */
  lemma ScanSkip<P>(s: seq<P>, near: (P, P) -> bool, b: seq<nat>, ivs: seq<Interval>, k: nat, open: nat)
    requires k + 1 < |s| && ScanState(s, near, b, ivs, k, false, open) && !Linked(s, near, k)
    ensures ScanState(s, near, b, ivs, k + 1, false, open)
  {
  }

  /** Closing the open interval at `k + 1`: the interval is a whole run and
      every position up to `k` that is not a run start is now covered. */
  lemma CloseRun<P>(s: seq<P>, near: (P, P) -> bool, b: seq<nat>, ivs: seq<Interval>, k: nat, open: nat)
    requires k < |s| && ScanState(s, near, b, ivs, k, true, open)
    requires k + 1 < |s| ==> !Linked(s, near, k)
    ensures RunList(s, near, ivs + [Interval(open, k + 1)])
    ensures forall j :: 0 <= j <= k && RunStart(s, near, j) < j ==>
              Covered(ivs + [Interval(open, k + 1)], j)
  {
    var iv := Interval(open, k + 1);
    forall j | open <= j <= k
      ensures RunStart(s, near, j) == open
    {
      RunContiguous(s, near, j, k);
    }
    assert IsRun(s, near, iv);
    PushRun(s, near, ivs, iv);
    forall j | 0 <= j <= k && RunStart(s, near, j) < j
      ensures Covered(ivs + [iv], j)
    {
      if Covered(ivs, j) {
        CoveredGrows(ivs, iv, j);
      } else {
        assert (ivs + [iv])[|ivs|] == iv;
      }
    }
  }

  /** An unlinked pair after an open interval closes it at `k + 1`. */
  lemma ScanClose<P>(s: seq<P>, near: (P, P) -> bool, b: seq<nat>, ivs: seq<Interval>, k: nat, open: nat)
    requires k + 1 < |s| && ScanState(s, near, b, ivs, k, true, open) && !Linked(s, near, k)
    ensures ScanState(s, near, b + [k + 1], ivs + [Interval(open, k + 1)], k + 1, false, open)
  {
    var ivs' := ivs + [Interval(open, k + 1)];
    FlatPush(ivs, Interval(open, k + 1));
    CloseRun(s, near, b, ivs, k, open);
    assert CoveredUpTo(s, near, ivs', k + 1, false, open);
  }

  lemma FlatPush(ivs: seq<Interval>, iv: Interval)
    ensures Flat(ivs + [iv]) == Flat(ivs) + [iv.beg] + [iv.end]
  {
    assert (ivs + [iv])[..|ivs|] == ivs;
    assert Flat(ivs) + [iv.beg, iv.end] == Flat(ivs) + [iv.beg] + [iv.end];
  }

  /** The flat vector of a run list reads back as that list. */
  lemma FlatRuns<P>(s: seq<P>, near: (P, P) -> bool, ivs: seq<Interval>, b: seq<nat>)
    requires RunsOf(s, near, ivs) && b == Flat(ivs)
    ensures |b| % 2 == 0 && RunsOf(s, near, Pairs(b))
  {
    PairsOfFlat(ivs);
  }

  /** The run still open at the end of the scan closes at `|s|`. */
  lemma CloseAtEnd<P>(s: seq<P>, near: (P, P) -> bool, b: seq<nat>, ivs: seq<Interval>, open: nat)
    requires |s| >= 1 && ScanState(s, near, b, ivs, |s| - 1, true, open)
    ensures RunsOf(s, near, ivs + [Interval(open, |s|)])
  {
    CloseRun(s, near, b, ivs, |s| - 1, open);
  }

  /** Closing the open run at the end appends its end to the flat vector. */
  lemma CloseAtEndFlat(b: seq<nat>, ivs: seq<Interval>, open: nat, n: nat)
    requires b == Flat(ivs) + [open]
    ensures b + [n] == Flat(ivs + [Interval(open, n)])
  {
    FlatPush(ivs, Interval(open, n));
  }

  /** At the end of the scan a run still open is closed at `|s|`, and the
      intervals are then exactly the runs. */
  lemma ScanDoneOpen<P>(s: seq<P>, near: (P, P) -> bool, b: seq<nat>, ivs: seq<Interval>, open: nat)
    requires |s| >= 1 && ScanState(s, near, b, ivs, |s| - 1, true, open)
    ensures |b + [|s|]| % 2 == 0 && RunsOf(s, near, Pairs(b + [|s|]))
  {
    CloseAtEnd(s, near, b, ivs, open);
    CloseAtEndFlat(b, ivs, open, |s|);
    FlatRuns(s, near, ivs + [Interval(open, |s|)], b + [|s|]);
  }

  /** With no run open at the end, the closed intervals are exactly the
      runs. */
  lemma ScanDoneClosed<P>(s: seq<P>, near: (P, P) -> bool, b: seq<nat>, ivs: seq<Interval>, open: nat)
    requires |s| >= 1 && ScanState(s, near, b, ivs, |s| - 1, false, open)
    ensures |b| % 2 == 0 && RunsOf(s, near, Pairs(b))
  {
    assert b == Flat(ivs);
    FlatRuns(s, near, ivs, b);
  }

  /** A step on a linked pair opens an interval at `k` or extends the open one. */
  method LinkedStep<P>(s: seq<P>, near: (P, P) -> bool, b: seq<nat>, ghost ivs: seq<Interval>,
                       k: nat, identical: bool, ghost open: nat)
    returns (b': seq<nat>, ghost open': nat)
    requires k + 1 < |s| && ScanState(s, near, b, ivs, k, identical, open) && Linked(s, near, k)
    ensures ScanState(s, near, b', ivs, k + 1, true, open')
  {
    if !identical {
      ScanOpen(s, near, b, ivs, k, open);
      b', open' := b + [k], k;
    } else {
      ScanExtend(s, near, b, ivs, k, open);
      b', open' := b, open;
    }
  }

  /** A step on an unlinked pair closes the open interval at `k + 1`, if any. */
  method UnlinkedStep<P>(s: seq<P>, near: (P, P) -> bool, b: seq<nat>, ghost ivs: seq<Interval>,
                         k: nat, identical: bool, ghost open: nat)
    returns (b': seq<nat>, ghost ivs': seq<Interval>)
    requires k + 1 < |s| && ScanState(s, near, b, ivs, k, identical, open) && !Linked(s, near, k)
    ensures ScanState(s, near, b', ivs', k + 1, false, open)
  {
    if identical {
      ScanClose(s, near, b, ivs, k, open);
      b', ivs' := b + [k + 1], ivs + [Interval(open, k + 1)];
    } else {
      ScanSkip(s, near, b, ivs, k, open);
      b', ivs' := b, ivs;
    }
  }

  /** One step of the scan, on the neighbour pair `k, k + 1`. */
  method ScanStep<P>(s: seq<P>, near: (P, P) -> bool, b: seq<nat>, ghost ivs: seq<Interval>,
                     k: nat, identical: bool, ghost open: nat)
    returns (b': seq<nat>, ghost ivs': seq<Interval>, identical': bool, ghost open': nat)
    requires k + 1 < |s| && ScanState(s, near, b, ivs, k, identical, open)
    ensures ScanState(s, near, b', ivs', k + 1, identical', open')
  {
    if Linked(s, near, k) {
      b', open' := LinkedStep(s, near, b, ivs, k, identical, open);
      ivs', identical' := ivs, true;
    } else {
      b', ivs' := UnlinkedStep(s, near, b, ivs, k, identical, open);
      open', identical' := open, false;
    }
  }

  /** The scan that finds the intervals of identical points in the sorted
      vector `s`: an interval is opened at the first position of a linked
      neighbour pair and closed one past its last position. The result is
      the flat bounds vector; `Pairs` reads it as intervals. */
  method IdenticalIntervals<P>(s: seq<P>, near: (P, P) -> bool) returns (b: seq<nat>)
    requires |s| >= 1
    ensures |b| % 2 == 0
    ensures RunsOf(s, near, Pairs(b))
  {
    b := [];
    ghost var ivs: seq<Interval> := [];
    ghost var open: nat := 0;
    var identical := false;
    var k := 0;
    while k < |s| - 1
      invariant 0 <= k <= |s| - 1
      invariant ScanState(s, near, b, ivs, k, identical, open)
    {
      // the test of neighbours `k`, `k + 1` and the push of a bound are in ScanStep
      b, ivs, identical, open := ScanStep(s, near, b, ivs, k, identical, open);
      k := k + 1;
    }
    if identical {
      ScanDoneOpen(s, near, b, ivs, open);
      b := b + [|s|];
    } else {
      ScanDoneClosed(s, near, b, ivs, open);
    }
  }
}
