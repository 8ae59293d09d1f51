/** `makePntsUnique` as a whole: the points are sorted, runs of identical
    neighbours found and stabilised, every original index mapped to the
    least index of its group, the sort undone, the duplicates removed and
    the id map renumbered. */
module MakeUnique {
  import opened Permutations
  import opened Runs
  import opened Stabilize
  import opened IdMap
  import opened Compaction

  /** The points in the order the sort leaves them: sorted position `k`
      holds the input point `sigma[k]`. */
  function Sorted<P>(pts: seq<P>, sigma: seq<nat>): (s: seq<P>)
    requires IsPermutation(sigma, |pts|)
    ensures |s| == |pts|
    ensures forall k :: 0 <= k < |pts| ==> s[k] == pts[sigma[k]]
    ensures multiset(s) == multiset(pts)
  {
    var s := seq(|pts|, k requires 0 <= k < |pts| => pts[sigma[k]]);
    PermutedMultiset(pts, sigma, s);
    s
  }

  /** Every index is mapped to the least index of its group. */
  predicate LeastMap<P>(s: seq<P>, near: (P, P) -> bool, sigma: seq<nat>, m: seq<nat>)
    requires IsPermutation(sigma, |s|)
  {
    |m| == |s| && forall i :: 0 <= i < |s| ==> LeastOfGroup(s, near, sigma, m[i], i)
  }

  /** The least index of a group is at most every member and is its own
      least index. */
  lemma LeastFacts<P>(s: seq<P>, near: (P, P) -> bool, sigma: seq<nat>, m: seq<nat>, i: nat)
    requires IsPermutation(sigma, |s|) && LeastMap(s, near, sigma, m) && i < |s|
    ensures m[i] <= i && m[m[i]] == m[i]
  {
    assert LeastOfGroup(s, near, sigma, m[i], i);
    assert LeastOfGroup(s, near, sigma, m[m[i]], m[i]);
  }

  /** Two indices share their least index exactly when they share a group. */
  lemma LeastSame<P>(s: seq<P>, near: (P, P) -> bool, sigma: seq<nat>, m: seq<nat>, i: nat, j: nat)
    requires IsPermutation(sigma, |s|) && LeastMap(s, near, sigma, m) && i < |s| && j < |s|
    ensures m[i] == m[j] <==> Group(s, near, sigma, i) == Group(s, near, sigma, j)
  {
    assert LeastOfGroup(s, near, sigma, m[i], i);
    assert LeastOfGroup(s, near, sigma, m[j], j);
  }

  /** Each group has exactly one index that the id map leaves in place:
      the least index of the group. */
  lemma OneFixedPointPerGroup<P>(s: seq<P>, near: (P, P) -> bool, sigma: seq<nat>, m: seq<nat>, i: nat)
    requires IsPermutation(sigma, |s|) && LeastMap(s, near, sigma, m) && i < |s|
    ensures m[i] < |s| && m[m[i]] == m[i] && Group(s, near, sigma, m[i]) == Group(s, near, sigma, i)
    ensures forall j :: 0 <= j < |s| && m[j] == j && Group(s, near, sigma, j) == Group(s, near, sigma, i) ==>
              j == m[i]
  {
    LeastFacts(s, near, sigma, m, i);
    forall j | 0 <= j < |s| && m[j] == j && Group(s, near, sigma, j) == Group(s, near, sigma, i)
      ensures j == m[i]
    {
      assert LeastOfGroup(s, near, sigma, m[j], j);
      assert LeastOfGroup(s, near, sigma, m[i], i);
    }
  }

  /** Every index maps to an index at or before it that maps to itself. */
  predicate Canonical(m: seq<nat>)
  {
    forall i :: 0 <= i < |m| ==> m[i] <= i && m[m[i]] == m[i]
  }

  /** What the renumbering loop leaves in `ids`. */
  predicate RenumberedBy(m: seq<nat>, ids: seq<nat>)
  {
    && |ids| == |m|
    && (forall k :: 0 <= k < |m| && m[k] == k ==> ids[k] == CountKept(m, k))
    && (forall k :: 0 <= k < |m| && m[k] != k ==> m[k] < |m| && ids[k] == ids[m[k]])
  }

  /** The new id of every index is the count of survivors before the index
      its entry maps to, and that index survives. */
  lemma IdIsCount(m: seq<nat>, ids: seq<nat>, i: nat)
    requires Canonical(m) && RenumberedBy(m, ids) && i < |m|
    ensures ids[i] == CountKept(m, m[i]) && Kept(m, m[i])
  {
  }

  /** Two indices get the same new id exactly when their entries agree. */
  lemma IdsAgree(m: seq<nat>, ids: seq<nat>, i: nat, j: nat)
    requires Canonical(m) && RenumberedBy(m, ids) && i < |m| && j < |m|
    ensures ids[i] == ids[j] <==> m[i] == m[j]
  {
    IdIsCount(m, ids, i);
    IdIsCount(m, ids, j);
    if m[i] < m[j] {
      CountKeptStrict(m, m[i], m[j]);
    } else if m[j] < m[i] {
      CountKeptStrict(m, m[j], m[i]);
    }
  }

  /** Every new id below the number of survivors is given to some index. */
  lemma IdsOnto(m: seq<nat>, ids: seq<nat>, d: nat)
    requires Canonical(m) && RenumberedBy(m, ids) && d < CountKept(m, |m|)
    ensures d in ids
  {
    CountKeptOnto(m, |m|, d);
    var j :| 0 <= j < |m| && Kept(m, j) && CountKept(m, j) == d;
    assert ids[j] == d;
  }

  /** An index whose new id no earlier index has gets a new id above all
      earlier ones: new ids are handed out in order of first appearance. */
  lemma IdsInFirstAppearance(m: seq<nat>, ids: seq<nat>, i: nat, j: nat)
    requires Canonical(m) && RenumberedBy(m, ids) && j < i < |m| && FirstAt(ids, i)
    ensures ids[j] < ids[i]
  {
    assert m[i] == i;
    IdIsCount(m, ids, j);
    CountKeptStrict(m, m[j], i);
  }

  /** No index before `i` carries the id of `i`. */
  predicate FirstAt(ids: seq<nat>, i: nat)
    requires i < |ids|
  {
    forall j :: 0 <= j < i ==> ids[j] != ids[i]
  }

  /** Ids are handed out in order of first appearance: an id that first
      appears at `i` is larger than every id before `i`. */
  predicate InFirstAppearanceOrder(ids: seq<nat>)
  {
    forall i, j :: 0 <= j < i < |ids| && FirstAt(ids, i) ==> ids[j] < ids[i]
  }

  /** Removes the duplicates from `pts`. The sort is the permutation `sigma`
      (sorted position `k` holds `pts[sigma[k]]`); two sorted neighbours are
      the same point when `near` holds. Returns the points that remain and,
      for every input index, the index of its point among them. */
  method MakePntsUnique<P>(pts: seq<P>, sigma: seq<nat>, near: (P, P) -> bool)
    returns (out: seq<P>, ids: seq<nat>)
    requires |pts| >= 1 && IsPermutation(sigma, |pts|)
    ensures |ids| == |pts| && 1 <= |out| <= |pts|
    ensures forall i :: 0 <= i < |pts| ==> ids[i] < |out|
    ensures forall i, j :: 0 <= i < |pts| && 0 <= j < |pts| ==>
              (ids[i] == ids[j] <==> Group(Sorted(pts, sigma), near, sigma, i) == Group(Sorted(pts, sigma), near, sigma, j))
    ensures forall i :: 0 <= i < |pts| ==> out[ids[i]] == Sorted(pts, sigma)[Group(Sorted(pts, sigma), near, sigma, i)]
    ensures forall d :: 0 <= d < |out| ==> d in ids
    ensures InFirstAppearanceOrder(ids)
  {
    out, ids := RemoveAndRenumber(Sorted(pts, sigma), sigma, near);
  }

  /** `makePntsUnique` once the points are sorted: `s` is the sorted
      vector and `sigma` the permutation the sort produced. */
  method RemoveAndRenumber<P>(s: seq<P>, sigma: seq<nat>, near: (P, P) -> bool)
    returns (out: seq<P>, ids: seq<nat>)
    requires |s| >= 1 && IsPermutation(sigma, |s|)
    ensures |ids| == |s| && 1 <= |out| <= |s|
    ensures forall i :: 0 <= i < |s| ==> ids[i] < |out|
    ensures forall i, j :: 0 <= i < |s| && 0 <= j < |s| ==>
              (ids[i] == ids[j] <==> Group(s, near, sigma, i) == Group(s, near, sigma, j))
    ensures forall i :: 0 <= i < |s| ==> out[ids[i]] == s[Group(s, near, sigma, i)]
    ensures forall d :: 0 <= d < |out| ==> d in ids
    ensures InFirstAppearanceOrder(ids)
  {
    var p, m := LeastIdMap(s, sigma, near);
    var r := Unpermute(s, p);
    out := RemoveDuplicates(r, m);
    LeastMapCanonical(s, near, sigma, m);
    ids := Renumber(m);
    Assemble(s, sigma, near, p, m, r, out, ids);
  }

  /** Puts the contracts of the steps of `makePntsUnique` together. */
  lemma Assemble<P>(s: seq<P>, sigma: seq<nat>, near: (P, P) -> bool, p: seq<nat>, m: seq<nat>,
                    r: seq<P>, out: seq<P>, ids: seq<nat>)
    requires |s| >= 1 && IsPermutation(sigma, |s|)
    requires IsPermutation(p, |s|) && StaysInRun(s, near, sigma, p)
    requires LeastMap(s, near, sigma, m) && Canonical(m)
    requires forall k :: 0 <= k < |s| ==> m[p[k]] == p[RunStart(s, near, k)]
    requires |r| == |s| && forall k :: 0 <= k < |s| ==> r[p[k]] == s[k]
    requires |out| == CountKept(m, |s|)
    requires forall k :: 0 <= k < |s| && Kept(m, k) ==>
               CountKept(m, k) < |out| && out[CountKept(m, k)] == r[k]
    requires |ids| == |m|
    requires forall k :: 0 <= k < |m| && m[k] == k ==> ids[k] == CountKept(m, k)
    requires forall k :: 0 <= k < |m| && m[k] != k ==> ids[k] == ids[m[k]]
    ensures |ids| == |s| && 1 <= |out| <= |s|
    ensures forall i :: 0 <= i < |s| ==> ids[i] < |out|
    ensures forall i, j :: 0 <= i < |s| && 0 <= j < |s| ==>
              (ids[i] == ids[j] <==> Group(s, near, sigma, i) == Group(s, near, sigma, j))
    ensures forall i :: 0 <= i < |s| ==> out[ids[i]] == s[Group(s, near, sigma, i)]
    ensures forall d :: 0 <= d < |out| ==> d in ids
    ensures InFirstAppearanceOrder(ids)
  {
    NewIds(m, ids, |out|);
    OutputOfIds(m, ids, r, out);
    GroupsOfLeast(s, near, sigma, p, m, r);
  }

  /** The first half of `makePntsUnique`: finds the runs of identical
      sorted neighbours, stabilises the permutation along them and maps
      every index to the least index of its group. */
  method LeastIdMap<P>(s: seq<P>, sigma: seq<nat>, near: (P, P) -> bool) returns (p: seq<nat>, m: seq<nat>)
    requires |s| >= 1 && IsPermutation(sigma, |s|)
    ensures IsPermutation(p, |s|) && StaysInRun(s, near, sigma, p)
    ensures LeastMap(s, near, sigma, m)
    ensures forall k :: 0 <= k < |s| ==> m[p[k]] == p[RunStart(s, near, k)]
  {
    var b := IdenticalIntervals(s, near);
    RunListBounded(s, near, Pairs(b));
    p := StabilizeRuns(sigma, b);
    Stabilized(s, near, sigma, p, b);
    m := Collapse(s, near, p);
    CollapsedLeast(s, near, sigma, p, m);
  }

  /** The new ids, in terms of the canonical id map alone: they are dense,
      they agree exactly where the id map agrees, and they are handed out in
      order of first appearance. */
  lemma NewIds(m: seq<nat>, ids: seq<nat>, count: nat)
    requires |m| >= 1 && Canonical(m) && RenumberedBy(m, ids) && count == CountKept(m, |m|)
    ensures 1 <= count <= |m|
    ensures forall i :: 0 <= i < |m| ==> ids[i] < count
    ensures forall i, j :: 0 <= i < |m| && 0 <= j < |m| ==> (ids[i] == ids[j] <==> m[i] == m[j])
    ensures forall d :: 0 <= d < count ==> d in ids
    ensures InFirstAppearanceOrder(ids)
  {
    assert Kept(m, 0);
    CountKeptStrict(m, 0, |m|);
    forall i | 0 <= i < |m|
      ensures ids[i] < count
    {
      IdIsCount(m, ids, i);
      if m[i] < |m| - 1 {
        CountKeptStrict(m, m[i], |m|);
      }
    }
    forall i, j | 0 <= i < |m| && 0 <= j < |m|
      ensures ids[i] == ids[j] <==> m[i] == m[j]
    {
      IdsAgree(m, ids, i, j);
    }
    forall d | 0 <= d < count
      ensures d in ids
    {
      IdsOnto(m, ids, d);
    }
    forall i, j | 0 <= j < i < |m| && FirstAt(ids, i)
      ensures ids[j] < ids[i]
    {
      IdsInFirstAppearance(m, ids, i, j);
    }
  }

  /** The point at new id `ids[i]` is the one the reverse permutation left at
      the index `m[i]`. */
  lemma OutputOfIds<P>(m: seq<nat>, ids: seq<nat>, r: seq<P>, out: seq<P>)
    requires Canonical(m) && RenumberedBy(m, ids) && |r| == |m|
    requires forall k :: 0 <= k < |r| && Kept(m, k) ==>
               CountKept(m, k) < |out| && out[CountKept(m, k)] == r[k]
    ensures forall i :: 0 <= i < |m| ==> m[i] < |m| && ids[i] < |out| && out[ids[i]] == r[m[i]]
  {
    forall i | 0 <= i < |m|
      ensures m[i] < |m| && ids[i] < |out| && out[ids[i]] == r[m[i]]
    {
      IdIsCount(m, ids, i);
    }
  }

  /** In terms of groups: two indices share an id map entry exactly when
      they share a group, and the entry holds the first sorted point of the
      group. */
  lemma GroupsOfLeast<P>(s: seq<P>, near: (P, P) -> bool, sigma: seq<nat>, p: seq<nat>,
                         m: seq<nat>, r: seq<P>)
    requires IsPermutation(sigma, |s|) && IsPermutation(p, |s|) && StaysInRun(s, near, sigma, p)
    requires LeastMap(s, near, sigma, m)
    requires forall k :: 0 <= k < |s| ==> m[p[k]] == p[RunStart(s, near, k)]
    requires |r| == |s| && forall k :: 0 <= k < |s| ==> r[p[k]] == s[k]
    ensures forall i, j :: 0 <= i < |s| && 0 <= j < |s| ==>
              (m[i] == m[j] <==> Group(s, near, sigma, i) == Group(s, near, sigma, j))
    ensures forall i :: 0 <= i < |s| ==> m[i] < |s| && r[m[i]] == s[Group(s, near, sigma, i)]
  {
    forall i, j | 0 <= i < |s| && 0 <= j < |s|
      ensures m[i] == m[j] <==> Group(s, near, sigma, i) == Group(s, near, sigma, j)
    {
      LeastSame(s, near, sigma, m, i, j);
    }
    forall i | 0 <= i < |s|
      ensures m[i] < |s| && r[m[i]] == s[Group(s, near, sigma, i)]
    {
      CanonicalPoint(s, near, sigma, p, m, r, i);
    }
  }

  /** The id map the collapse loop leaves is canonical. */
  lemma LeastMapCanonical<P>(s: seq<P>, near: (P, P) -> bool, sigma: seq<nat>, m: seq<nat>)
    requires IsPermutation(sigma, |s|) && LeastMap(s, near, sigma, m)
    ensures Canonical(m)
  {
    forall i | 0 <= i < |s|
      ensures m[i] <= i && m[m[i]] == m[i]
    {
      LeastFacts(s, near, sigma, m, i);
    }
  }

  /** The point the reverse permutation leaves at the least index of the
      group of `i` is the first sorted point of that group. */
  lemma CanonicalPoint<P>(s: seq<P>, near: (P, P) -> bool, sigma: seq<nat>, p: seq<nat>,
                          m: seq<nat>, r: seq<P>, i: nat)
    requires IsPermutation(sigma, |s|) && IsPermutation(p, |s|) && StaysInRun(s, near, sigma, p)
    requires |m| == |s| && forall k :: 0 <= k < |s| ==> m[p[k]] == p[RunStart(s, near, k)]
    requires |r| == |s| && forall k :: 0 <= k < |s| ==> r[p[k]] == s[k]
    requires i < |s|
    ensures m[i] < |s| && r[m[i]] == s[Group(s, near, sigma, i)]
  {
    var k := Inverse(p, |s|)[i];
    GroupOfEntry(s, near, sigma, p, k);
  }

  /** The stabilised permutation keeps every entry of `sigma` inside its
      run and ascends along every run. */
  lemma Stabilized<P>(s: seq<P>, near: (P, P) -> bool, sigma: seq<nat>, p: seq<nat>, b: seq<nat>)
    requires |b| % 2 == 0 && RunsOf(s, near, Pairs(b)) && IsPermutation(sigma, |s|)
    requires StabilizedUpTo(sigma, p, Pairs(b), |b| / 2)
    ensures |p| == |s| && StaysInRun(s, near, sigma, p) && AscendingRuns(s, near, p)
  {
    RunListBounded(s, near, Pairs(b));
    StableRunsAscend(s, near, sigma, p, Pairs(b));
    StableRunsStay(s, near, sigma, p, Pairs(b));
  }

  /** The collapse loop maps every index to the least index of its group. */
  lemma CollapsedLeast<P>(s: seq<P>, near: (P, P) -> bool, sigma: seq<nat>, p: seq<nat>, m: seq<nat>)
    requires IsPermutation(sigma, |s|) && IsPermutation(p, |s|)
    requires StaysInRun(s, near, sigma, p) && AscendingRuns(s, near, p)
    requires |m| == |s| && forall k :: 0 <= k < |s| ==> m[p[k]] == p[RunStart(s, near, k)]
    ensures LeastMap(s, near, sigma, m)
  {
    forall i | 0 <= i < |s|
      ensures LeastOfGroup(s, near, sigma, m[i], i)
    {
      CollapsedIsLeast(s, near, sigma, p, m, i);
    }
  }
}
