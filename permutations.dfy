/** Index permutations as NumPy hands them out: `rng.permutation(n)` produces one,
    `np.argsort` inverts one. A permutation of length n is a sequence of n distinct
    integers in [0, n). */
module Permutations {

  /** `p` holds n distinct integers, each in [0, n). */
  predicate IsPermutation(p: seq<nat>, n: nat) {
    && |p| == n
    && (forall i :: 0 <= i < |p| ==> p[i] < n)
    && (forall i, j :: 0 <= i < j < |p| ==> p[i] != p[j])
  }

  /** `np.arange(n)`: the index array that selects every position in place. */
  function Identity(n: nat): (r: seq<nat>)
    ensures |r| == n
    ensures forall i :: 0 <= i < n ==> r[i] == i
  {
    seq(n, i => i)
  }

  /** `p[q]`: the index array `q` read through `p`. */
  function Compose(p: seq<nat>, q: seq<nat>): (r: seq<nat>)
    requires forall i :: 0 <= i < |q| ==> q[i] < |p|
    ensures |r| == |q|
    ensures forall i :: 0 <= i < |q| ==> r[i] == p[q[i]]
  {
    seq(|q|, i requires 0 <= i < |q| => p[q[i]])
  }

  /** The first position of `p` that holds `k`, or |p| when `k` does not occur. */
  function IndexOf(p: seq<nat>, k: nat): (r: nat)
    ensures r <= |p|
    ensures r < |p| ==> p[r] == k
    ensures forall i :: 0 <= i < r ==> p[i] != k
    ensures k in p <==> r < |p|
  {
    if p == [] then 0
    else if p[0] == k then 0
    else 1 + IndexOf(p[1..], k)
  }

  lemma {:induction false} ImageCardinality(p: seq<nat>, m: nat)
    requires m <= |p|
    requires forall i, j :: 0 <= i < j < m ==> p[i] != p[j]
    ensures |set i | 0 <= i < m :: p[i]| == m
  {
    if m > 0 {
      ImageCardinality(p, m - 1);
      var before := set i | 0 <= i < m - 1 :: p[i];
      assert (set i | 0 <= i < m :: p[i]) == before + {p[m - 1]};
      assert p[m - 1] !in before;
    }
  }

  /** Pigeonhole: n distinct values below n take every value below n. */
  lemma PermutationCoversRange(p: seq<nat>, n: nat)
    requires IsPermutation(p, n)
    ensures forall k :: 0 <= k < n ==> k in p
  {
    var id := Identity(n);
    var image := set i | 0 <= i < n :: p[i];
    var range := set i | 0 <= i < n :: id[i];
    ImageCardinality(p, n);
    ImageCardinality(id, n);
    forall v | v in image
      ensures v in range
    {
      var i :| 0 <= i < n && p[i] == v;
      assert id[p[i]] == v;
    }
    assert |range - image| == 0;
    forall k | 0 <= k < n
      ensures k in p
    {
      assert id[k] in range;
      assert k in image;
    }
  }

  lemma PermutationInjective(p: seq<nat>, n: nat, i: nat, j: nat)
    requires IsPermutation(p, n)
    requires i < n && j < n && p[i] == p[j]
    ensures i == j
  {
  }

  /** `np.argsort(p)` for a permutation `p`: the positions of 0, 1, ..., n-1 in `p`. */
  function ArgSort(p: seq<nat>): (inv: seq<nat>)
    requires IsPermutation(p, |p|)
    ensures IsPermutation(inv, |p|)
    ensures forall k :: 0 <= k < |p| ==> p[inv[k]] == k
    ensures forall i :: 0 <= i < |p| ==> inv[p[i]] == i
  {
    PermutationCoversRange(p, |p|);
    seq(|p|, k requires 0 <= k < |p| => IndexOf(p, k))
  }

  /** What `np.argsort` promises of any result `s`: `s` lists every position of `p`
      once, in an order that reads the values of `p` in ascending order. */
  predicate SortsAscending(s: seq<nat>, p: seq<nat>) {
    && IsPermutation(s, |p|)
    && forall a, b :: 0 <= a < b < |s| ==> p[s[a]] <= p[s[b]]
  }

  lemma {:induction false} AscendingLowerBound(q: seq<nat>, k: nat)
    requires forall a, b :: 0 <= a < b < |q| ==> q[a] < q[b]
    requires k < |q|
    ensures k <= q[k]
  {
    if k > 0 {
      AscendingLowerBound(q, k - 1);
    }
  }

  lemma {:induction false} AscendingUpperBound(q: seq<nat>, n: nat, k: nat)
    requires forall a, b :: 0 <= a < b < |q| ==> q[a] < q[b]
    requires forall a :: 0 <= a < |q| ==> q[a] < n
    requires k < |q|
    ensures q[k] + (|q| - 1 - k) < n
    decreases |q| - k
  {
    if k < |q| - 1 {
      AscendingUpperBound(q, n, k + 1);
    }
  }

  /** Any index array that sorts a permutation `p` is ArgSort(p). */
  lemma SortingOrderIsUnique(p: seq<nat>, s: seq<nat>)
    requires IsPermutation(p, |p|)
    requires SortsAscending(s, p)
    ensures s == ArgSort(p)
  {
    var inv := ArgSort(p);
    var q := Compose(p, s);
    forall a, b | 0 <= a < b < |q|
      ensures q[a] < q[b]
    {
      assert s[a] != s[b];
    }
    forall k | 0 <= k < |s|
      ensures s[k] == inv[k]
    {
      AscendingLowerBound(q, k);
      AscendingUpperBound(q, |p|, k);
      PermutationInjective(p, |p|, s[k], inv[k]);
    }
  }

  /** ArgSort is argsort: it sorts `p`, and it is the only index array that does,
      so the result does not depend on NumPy's choice of sorting algorithm. */
  lemma ArgSortIsTheSortingOrder(p: seq<nat>, s: seq<nat>)
    requires IsPermutation(p, |p|)
    ensures SortsAscending(ArgSort(p), p)
    ensures SortsAscending(s, p) <==> s == ArgSort(p)
  {
    if SortsAscending(s, p) {
      SortingOrderIsUnique(p, s);
    }
  }

  /** Argsort undoes itself: inverting the inverse gives back the permutation. */
  lemma ArgSortInvolution(p: seq<nat>)
    requires IsPermutation(p, |p|)
    ensures ArgSort(ArgSort(p)) == p
  {
  }

  /** Reading `p` through its argsort, or the argsort through `p`, selects every
      position in place. */
  lemma ComposeArgSort(p: seq<nat>)
    requires IsPermutation(p, |p|)
    ensures Compose(p, ArgSort(p)) == Identity(|p|)
    ensures Compose(ArgSort(p), p) == Identity(|p|)
  {
  }
}
