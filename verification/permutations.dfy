/** Index vectors: the identity vector that `std::iota` fills in, permutations
    of `0..n-1`, and the adjacent swap the bubble pass performs. */
module Permutations {

  /** `0, 1, ..., n-1`. */
  function Iota(n: nat): (r: seq<nat>)
    ensures |r| == n
    ensures forall i :: 0 <= i < n ==> r[i] == i
  {
    seq(n, i requires 0 <= i => i as nat)
  }

  /** `p` lists every index `0..n-1` exactly once. */
  predicate IsPermutation(p: seq<nat>, n: nat)
  {
    && |p| == n
    && (forall k :: 0 <= k < n ==> p[k] < n)
    && (forall j, k :: 0 <= j < k < n ==> p[j] != p[k])
    && (forall i :: 0 <= i < n ==> i in p)
  }

  lemma IotaIsPermutation(n: nat)
    ensures IsPermutation(Iota(n), n)
  {
    var r := Iota(n);
    forall i | 0 <= i < n
      ensures i in r
    {
      assert r[i] == i;
    }
  }

  /** The index vector that `std::iota` fills in and the sort then
      rearranges together with the points is a permutation: whatever order
      the sort leaves, it lists every index `0..n-1` exactly once. */
  lemma {:induction false} RearrangedIota(sigma: seq<nat>, n: nat)
    requires multiset(sigma) == multiset(Iota(n))
    ensures IsPermutation(sigma, n)
  {
    assert |sigma| == |multiset(sigma)| == |Iota(n)| == n;
    IotaIsPermutation(n);
    forall k | 0 <= k < n
      ensures sigma[k] < n
    {
      assert sigma[k] in multiset(Iota(n));
    }
    forall i | 0 <= i < n
      ensures i in sigma
    {
      assert Iota(n)[i] == i;
      assert i in multiset(sigma);
    }
    DistinctCount(Iota(n));
    forall j, k | 0 <= j < k < n
      ensures sigma[j] != sigma[k]
    {
      if sigma[j] == sigma[k] {
        TwiceCounted(sigma, j, k);
        assert false;
      }
    }
  }

  /** In a sequence without repetitions every element occurs once. */
  lemma {:induction false} DistinctCount(s: seq<nat>)
    requires forall j, k :: 0 <= j < k < |s| ==> s[j] != s[k]
    ensures forall v :: multiset(s)[v] <= 1
  {
    if |s| > 0 {
      var t := s[..|s| - 1];
      DistinctCount(t);
      assert s == t + [s[|s| - 1]];
      assert s[|s| - 1] !in t;
    }
  }

  /** A value at two positions occurs at least twice. */
  lemma TwiceCounted(s: seq<nat>, j: nat, k: nat)
    requires j < k < |s| && s[j] == s[k]
    ensures multiset(s)[s[j]] >= 2
  {
    assert s == s[..k] + [s[k]] + s[k + 1..];
    assert s[j] in s[..k];
  }

  /** Exchanges the entries at positions `a` and `b`. */
  function Swap(p: seq<nat>, a: nat, b: nat): (r: seq<nat>)
    requires a < |p| && b < |p|
    ensures |r| == |p|
    ensures r[a] == p[b] && r[b] == p[a]
    ensures forall k :: 0 <= k < |p| && k != a && k != b ==> r[k] == p[k]
  {
    p[a := p[b]][b := p[a]]
  }

  /** A swap keeps a permutation a permutation. */
  lemma SwapPermutation(p: seq<nat>, n: nat, a: nat, b: nat)
    requires IsPermutation(p, n) && a < n && b < n
    ensures IsPermutation(Swap(p, a, b), n)
  {
    var r := Swap(p, a, b);
    forall i | 0 <= i < n
      ensures i in r
    {
      assert i in p;
      var k :| 0 <= k < |p| && p[k] == i;
      if k == a {
        assert r[b] == i;
      } else if k == b {
        assert r[a] == i;
      } else {
        assert r[k] == i;
      }
    }
  }

  /** Swapping two neighbours only reorders the entries of any range that
      holds both of them. */
  lemma SwapMultiset(p: seq<nat>, a: nat, lo: nat, hi: nat)
    requires lo <= a && a + 1 < hi <= |p|
    ensures multiset(Swap(p, a, a + 1)[lo..hi]) == multiset(p[lo..hi])
  {
    var w := p[lo..hi];
    assert Swap(p, a, a + 1)[lo..hi] == w[a - lo := w[a + 1 - lo]][a + 1 - lo := w[a - lo]];
    SwapKeepsMultiset(w, a - lo, a + 1 - lo);
  }

  /** Rearranging a sequence by a permutation keeps its multiset of
      elements: `s` holds at position `k` the element `pts[sigma[k]]`. */
  lemma {:induction false} PermutedMultiset<P>(pts: seq<P>, sigma: seq<nat>, s: seq<P>)
    requires IsPermutation(sigma, |pts|) && |s| == |pts|
    requires forall k :: 0 <= k < |s| ==> s[k] == pts[sigma[k]]
    ensures multiset(s) == multiset(pts)
  {
    if |pts| > 0 {
      var n := |pts| - 1;
      var head, front := MoveLast(pts, sigma, s);
      PermutedMultiset(pts[..n], head, front);
      assert pts == pts[..n] + [pts[n]];
    }
  }

  /** Swaps the position that holds the last index to the end: what is left
      in front is a rearrangement, by `head`, of all but the last element. */
  lemma MoveLast<P>(pts: seq<P>, sigma: seq<nat>, s: seq<P>) returns (head: seq<nat>, front: seq<P>)
    requires IsPermutation(sigma, |pts|) && |s| == |pts| && |pts| > 0
    requires forall k :: 0 <= k < |s| ==> s[k] == pts[sigma[k]]
    ensures IsPermutation(head, |pts| - 1) && |front| == |pts| - 1
    ensures forall k :: 0 <= k < |front| ==> front[k] == pts[..|pts| - 1][head[k]]
    ensures multiset(s) == multiset(front) + multiset{pts[|pts| - 1]}
  {
    var n := |pts| - 1;
    assert n in sigma;
    var j := IndexOf(sigma, n);
    var sigma' := Swap(sigma, j, n);
    SwapPermutation(sigma, n + 1, j, n);
    var s' := s[j := s[n]][n := s[j]];
    SwapKeepsMultiset(s, j, n);
    PermutationPrefix(sigma', n);
    head := sigma'[..n];
    front := s'[..n];
    forall k | 0 <= k < n
      ensures front[k] == pts[..n][head[k]]
    {
      assert s'[k] == pts[sigma'[k]];
    }
    assert s' == front + [pts[n]];
  }

  /** Exchanging two elements of a sequence keeps its multiset. */
  lemma SwapKeepsMultiset<P>(s: seq<P>, a: nat, b: nat)
    requires a < |s| && b < |s|
    ensures multiset(s[a := s[b]][b := s[a]]) == multiset(s)
  {
  }

  /** A permutation of `0..n` that fixes `n` is a permutation of `0..n-1`
      on its first `n` positions. */
  lemma PermutationPrefix(p: seq<nat>, n: nat)
    requires IsPermutation(p, n + 1) && p[n] == n
    ensures IsPermutation(p[..n], n)
  {
    var head := p[..n];
    forall i | 0 <= i < n
      ensures i in head
    {
      assert i in p;
      var k :| 0 <= k < |p| && p[k] == i;
      assert head[k] == i;
    }
  }

  /** The position at which `p` holds `i`. */
  function IndexOf(p: seq<nat>, i: nat): (k: nat)
    requires i in p
    ensures k < |p| && p[k] == i
    ensures forall j :: 0 <= j < k ==> p[j] != i
  {
    if p[0] == i then 0 else 1 + IndexOf(p[1..], i)
  }

  /** The inverse permutation: it maps each index to the position that holds
      it. */
  function Inverse(p: seq<nat>, n: nat): (q: seq<nat>)
    requires IsPermutation(p, n)
    ensures IsPermutation(q, n)
    ensures forall k :: 0 <= k < n ==> q[p[k]] == k
    ensures forall i :: 0 <= i < n ==> p[q[i]] == i
  {
    var q := seq(n, i requires 0 <= i < n => IndexOf(p, i));
    forall k | 0 <= k < n
      ensures q[p[k]] == k
    {
      assert p[q[p[k]]] == p[k];
    }
    forall k | 0 <= k < n
      ensures k in q
    {
      assert q[p[k]] == k;
    }
    q
  }
}
