/** The id map of `makePntsUnique` before renumbering: every original
    index is mapped to the least original index of its group of identical
    points. */
module IdMap {
  import opened Permutations
  import opened Runs
  import opened Stabilize

  /** After the collapse loop has looked at the neighbour pairs before
      `k`: the original index at each sorted position up to `k` is mapped to
      the original index at the start of its run, and those after `k` are
      still mapped to themselves. */
  predicate CollapsedUpTo<P>(s: seq<P>, near: (P, P) -> bool, p: seq<nat>, m: seq<nat>, k: nat)
    requires IsPermutation(p, |s|)
  {
    && |m| == |s|
    && (forall j :: 0 <= j <= k && j < |s| ==> m[p[j]] == p[RunStart(s, near, j)])
    && (forall j :: k < j < |s| ==> m[p[j]] == p[j])
  }

  /** One step of the collapse loop keeps `CollapsedUpTo`. */
  lemma CollapseStep<P>(s: seq<P>, near: (P, P) -> bool, p: seq<nat>, m: seq<nat>, k: nat)
    requires IsPermutation(p, |s|) && k + 1 < |s| && CollapsedUpTo(s, near, p, m, k)
    ensures Linked(s, near, k) ==> CollapsedUpTo(s, near, p, m[p[k + 1] := m[p[k]]], k + 1)
    ensures !Linked(s, near, k) ==> CollapsedUpTo(s, near, p, m, k + 1)
  {
    if Linked(s, near, k) {
      var m' := m[p[k + 1] := m[p[k]]];
      forall j | 0 <= j <= k + 1
        ensures m'[p[j]] == p[RunStart(s, near, j)]
      {
        if j <= k {
          assert p[j] != p[k + 1];
        }
      }
      forall j | k + 1 < j < |s|
        ensures m'[p[j]] == p[j]
      {
        assert p[j] != p[k + 1];
      }
    }
  }

  /** The loop that walks the sorted vector once more and, for every linked
      neighbour pair, maps the original index of the second point to the
      entry of the first. */
  method Collapse<P>(s: seq<P>, near: (P, P) -> bool, p: seq<nat>) returns (m: seq<nat>)
    requires |s| >= 1 && IsPermutation(p, |s|)
    ensures |m| == |s|
    ensures forall k :: 0 <= k < |s| ==> m[p[k]] == p[RunStart(s, near, k)]
  {
    m := Iota(|s|);
    var k := 0;
    while k < |s| - 1
      invariant 0 <= k <= |s| - 1
      invariant CollapsedUpTo(s, near, p, m, k)
    {
      CollapseStep(s, near, p, m, k);
      if Linked(s, near, k) {
        m := m[p[k + 1] := m[p[k]]];
      }
      k := k + 1;
    }
  }

  /** The group of original index `i` once the points are sorted by
      `sigma`: the first sorted position of the run that holds it. */
  function Group<P>(s: seq<P>, near: (P, P) -> bool, sigma: seq<nat>, i: nat): (g: nat)
    requires IsPermutation(sigma, |s|) && i < |s|
    ensures g <= Inverse(sigma, |s|)[i] && sigma[Inverse(sigma, |s|)[i]] == i
  {
    RunStart(s, near, Inverse(sigma, |s|)[i])
  }

  /** `g` is the least original index in the group of `i`. */
  predicate LeastOfGroup<P>(s: seq<P>, near: (P, P) -> bool, sigma: seq<nat>, g: nat, i: nat)
    requires IsPermutation(sigma, |s|) && i < |s|
  {
    && g < |s| && Group(s, near, sigma, g) == Group(s, near, sigma, i)
    && (forall i' :: 0 <= i' < |s| && Group(s, near, sigma, i') == Group(s, near, sigma, i) ==> g <= i')
  }

  /** Each entry of `sigma` is held by `p` at a position of the same run. */
  predicate StaysInRun<P>(s: seq<P>, near: (P, P) -> bool, sigma: seq<nat>, p: seq<nat>)
    requires |sigma| == |s| && |p| == |s|
  {
    forall k :: 0 <= k < |s| ==> HeldInRun(s, near, p, k, sigma[k])
  }

  /** The entry at sorted position `j` of the stabilised vector belongs to
      the run of `j`. */
  lemma GroupOfEntry<P>(s: seq<P>, near: (P, P) -> bool, sigma: seq<nat>, p: seq<nat>, j: nat)
    requires IsPermutation(sigma, |s|) && IsPermutation(p, |s|)
    requires StaysInRun(s, near, sigma, p) && j < |s|
    ensures Group(s, near, sigma, p[j]) == RunStart(s, near, j)
  {
    var i := p[j];
    var k := Inverse(sigma, |s|)[i];
    assert sigma[k] == i;
    assert HeldInRun(s, near, p, k, sigma[k]);
    var j' :| 0 <= j' < |s| && RunStart(s, near, j') == RunStart(s, near, k) && p[j'] == sigma[k];
    assert p[j'] == p[j];
  }

  /** The id map after the collapse loop sends every original index to the
      least original index of its group. */
  lemma CollapsedIsLeast<P>(s: seq<P>, near: (P, P) -> bool, sigma: seq<nat>,
                            p: seq<nat>, m: seq<nat>, i: nat)
    requires IsPermutation(sigma, |s|) && IsPermutation(p, |s|)
    requires StaysInRun(s, near, sigma, p) && AscendingRuns(s, near, p)
    requires |m| == |s| && forall k :: 0 <= k < |s| ==> m[p[k]] == p[RunStart(s, near, k)]
    requires i < |s|
    ensures LeastOfGroup(s, near, sigma, m[i], i)
  {
    var k := Inverse(p, |s|)[i];
    var r := RunStart(s, near, k);
    assert m[i] == p[r];
    GroupOfEntry(s, near, sigma, p, k);
    GroupOfEntry(s, near, sigma, p, r);
    forall i' | 0 <= i' < |s| && Group(s, near, sigma, i') == Group(s, near, sigma, i)
      ensures m[i] <= i'
    {
      LeastInRun(s, near, sigma, p, k, i');
    }
  }

  /** The entry at the start of the run of `k` is at most every entry of
      the same group. */
  lemma LeastInRun<P>(s: seq<P>, near: (P, P) -> bool, sigma: seq<nat>, p: seq<nat>, k: nat, i': nat)
    requires IsPermutation(sigma, |s|) && IsPermutation(p, |s|)
    requires StaysInRun(s, near, sigma, p) && AscendingRuns(s, near, p)
    requires k < |s| && i' < |s| && Group(s, near, sigma, i') == RunStart(s, near, k)
    ensures p[RunStart(s, near, k)] <= i'
  {
    var r := RunStart(s, near, k);
    var k' := Inverse(p, |s|)[i'];
    GroupOfEntry(s, near, sigma, p, k');
    assert RunStart(s, near, k') == r;
  }
}
