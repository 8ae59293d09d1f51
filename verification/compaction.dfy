/** The last three steps of `makePntsUnique`: undoing the sort, removing
    every point whose id map entry points to an earlier index, and
    renumbering the id map densely. */
module Compaction {
  import opened Permutations

  /** The reverse permutation: sorting the permutation vector back into
      ascending order carries the point at sorted position `k` to position
      `p[k]`. */
  function Unpermute<P>(s: seq<P>, p: seq<nat>): (r: seq<P>)
    requires IsPermutation(p, |s|)
    ensures |r| == |s|
    ensures forall k :: 0 <= k < |s| ==> r[p[k]] == s[k]
  {
    var q := Inverse(p, |s|);
    seq(|s|, i requires 0 <= i < |s| => s[q[i]])
  }

  /** Index `k` survives the removal: its id map entry does not point to an
      earlier index. */
  predicate Kept(m: seq<nat>, k: nat)
    requires k < |m|
  {
    !(m[k] < k)
  }

  /** How many of the first `k` indices survive the removal. */
  function CountKept(m: seq<nat>, k: nat): (c: nat)
    requires k <= |m|
    ensures c <= k
  {
    if k == 0 then 0 else CountKept(m, k - 1) + (if Kept(m, k - 1) then 1 else 0)
  }

  /** Surviving indices are counted in order: a later survivor has a larger
      count, and every count below the total belongs to a survivor. */
  lemma {:induction false} CountKeptStrict(m: seq<nat>, a: nat, b: nat)
    requires a < b <= |m| && Kept(m, a)
    ensures CountKept(m, a) < CountKept(m, b)
    decreases b
  {
    if a < b - 1 {
      CountKeptStrict(m, a, b - 1);
    }
  }

  lemma {:induction false} CountKeptOnto(m: seq<nat>, k: nat, d: nat)
    requires k <= |m| && d < CountKept(m, k)
    ensures exists j :: 0 <= j < k && Kept(m, j) && CountKept(m, j) == d
    decreases k
  {
    if d < CountKept(m, k - 1) {
      CountKeptOnto(m, k - 1, d);
    } else {
      assert Kept(m, k - 1) && CountKept(m, k - 1) == d;
    }
  }

  /** Deleting every point whose id map entry points to an earlier index
      and closing the gaps: the survivors keep their relative order. */
  method RemoveDuplicates<P>(r: seq<P>, m: seq<nat>) returns (out: seq<P>)
    requires |m| == |r|
    ensures |out| == CountKept(m, |r|)
    ensures forall k :: 0 <= k < |r| && Kept(m, k) ==>
              CountKept(m, k) < |out| && out[CountKept(m, k)] == r[k]
  {
    out := [];
    var k := 0;
    while k < |r|
      invariant 0 <= k <= |r|
      invariant |out| == CountKept(m, k)
      invariant forall j :: 0 <= j < k && Kept(m, j) ==>
                  CountKept(m, j) < |out| && out[CountKept(m, j)] == r[j]
    {
      if Kept(m, k) {
        out := out + [r[k]];
      }
      k := k + 1;
    }
  }

  /** What the renumbering loop knows before index `k`: indices up to `k`
      that kept their own entry are numbered by how many such indices
      precede them, the others carry the new id of their entry, every new
      id is below `id`, and the indices from `k` on are still untouched. */
  predicate RenumberedUpTo(m: seq<nat>, ids: seq<nat>, k: nat, id: nat)
    requires k <= |m|
  {
    && |ids| == |m| && id == CountKept(m, k)
    && (forall j :: k <= j < |m| ==> ids[j] == m[j])
    && (forall j :: 0 <= j < k && m[j] == j ==> ids[j] == CountKept(m, j))
    && (forall j :: 0 <= j < k && m[j] != j ==> m[j] < j && ids[j] == ids[m[j]])
    && (forall j :: 0 <= j < k ==> ids[j] < id)
  }

  /** One step of the renumbering loop at `k`. */
  method RenumberStep(m: seq<nat>, ids: seq<nat>, k: nat, id: nat) returns (ids': seq<nat>, id': nat)
    requires forall j :: 0 <= j < |m| ==> m[j] <= j
    requires k < |m| && RenumberedUpTo(m, ids, k, id)
    ensures RenumberedUpTo(m, ids', k + 1, id')
  {
    if ids[k] == k {
      ids' := ids[k := id];
      id' := id + 1;
    } else {
      ids' := ids[k := ids[ids[k]]];
      id' := id;
    }
  }

  /** The renumbering loop, in place on the id map: an index that still
      maps to itself gets the next new id, any other index takes the new id
      already given to the index it maps to. */
  method Renumber(m: seq<nat>) returns (ids: seq<nat>)
    requires forall k :: 0 <= k < |m| ==> m[k] <= k
    ensures |ids| == |m|
    ensures forall k :: 0 <= k < |m| && m[k] == k ==> ids[k] == CountKept(m, k)
    ensures forall k :: 0 <= k < |m| && m[k] != k ==> ids[k] == ids[m[k]]
    ensures forall k :: 0 <= k < |m| ==> ids[k] < CountKept(m, |m|)
  {
    ids := m;
    var id := 0;
    var k := 0;
    while k < |m|
      invariant 0 <= k <= |m|
      invariant RenumberedUpTo(m, ids, k, id)
    {
      // the test whether `k` is a fixed point and both assignments are in RenumberStep
      ids, id := RenumberStep(m, ids, k, id);
      k := k + 1;
    }
  }
}
