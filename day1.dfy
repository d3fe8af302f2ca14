/** Day 1: find entries of the expense report that sum to 2020
    (src/day1.rs). Both searches scan index tuples in lexicographic order
    with non-decreasing indices, so one entry may be used more than once,
    and return at the first hit. The message text is not modelled; the
    result carries the indices and the product the message reports. */
module Day1 {
  import opened Util

  const Target := 2020

  predicate PairAt(nums: seq<int>, i: int, j: int)
  {
    0 <= i <= j < |nums| && nums[i] + nums[j] == Target
  }

  predicate TripleAt(nums: seq<int>, i: int, j: int, k: int)
  {
    0 <= i <= j <= k < |nums| && nums[i] + nums[j] + nums[k] == Target
  }

  /** The pair search of `solve_1`: the first (i, j), i ≤ j, in
      lexicographic order whose entries sum to 2020, with their product;
      None ("Failed") exactly when there is no such pair. */
  method FindPair(nums: seq<int>) returns (r: Option<(nat, nat, int)>)
    ensures r.None? <==> forall i, j :: !PairAt(nums, i, j)
    ensures r.Some? ==> PairAt(nums, r.value.0, r.value.1) && r.value.2 == nums[r.value.0] * nums[r.value.1]
    ensures r.Some? ==> forall i, j :: PairAt(nums, i, j) ==> r.value.0 < i || (r.value.0 == i && r.value.1 <= j)
  {
    var i := 0;
    while i < |nums|
      invariant 0 <= i <= |nums|
      invariant forall i', j :: PairAt(nums, i', j) ==> i' >= i
    {
      var j := i;
      while j < |nums|
        invariant i <= j <= |nums|
        invariant forall j' :: i <= j' < j ==> !PairAt(nums, i, j')
      {
        if nums[i] + nums[j] == Target {
          assert PairAt(nums, i, j);
          return Some((i, j, nums[i] * nums[j]));
        }
        j := j + 1;
      }
      i := i + 1;
    }
    return None;
  }

  /** The triple search of `solve_2`: the first (i, j, k), i ≤ j ≤ k, in
      lexicographic order whose entries sum to 2020, with their product;
      None exactly when there is no such triple. */
  method FindTriple(nums: seq<int>) returns (r: Option<(nat, nat, nat, int)>)
    ensures r.None? <==> forall i, j, k :: !TripleAt(nums, i, j, k)
    ensures r.Some? ==> TripleAt(nums, r.value.0, r.value.1, r.value.2)
    ensures r.Some? ==> r.value.3 == nums[r.value.0] * nums[r.value.1] * nums[r.value.2]
    ensures r.Some? ==> forall i, j, k :: TripleAt(nums, i, j, k) ==>
      r.value.0 < i || (r.value.0 == i && (r.value.1 < j || (r.value.1 == j && r.value.2 <= k)))
  {
    var i := 0;
    while i < |nums|
      invariant 0 <= i <= |nums|
      invariant forall i', j, k :: TripleAt(nums, i', j, k) ==> i' >= i
    {
      var j := i;
      while j < |nums|
        invariant i <= j <= |nums|
        invariant forall j', k :: TripleAt(nums, i, j', k) ==> j' >= j
      {
        var k := j;
        while k < |nums|
          invariant j <= k <= |nums|
          invariant forall k' :: j <= k' < k ==> !TripleAt(nums, i, j, k')
        {
          if nums[i] + nums[j] + nums[k] == Target {
            assert TripleAt(nums, i, j, k);
            return Some((i, j, k, nums[i] * nums[j] * nums[k]));
          }
          k := k + 1;
        }
        j := j + 1;
      }
      i := i + 1;
    }
    return None;
  }
}
