/** Day 9: the XMAS cipher (src/day9.rs). A number is valid when two
    distinct entries of the window of the `preamble_length` numbers before
    it sum to it; `find_failing_xmas_num` returns the first invalid one. */
module Day9 {
  import opened Util

  predicate SumsTo(s: seq<int>, target: int, i: int, j: int)
  {
    0 <= i < j < |s| && s[i] + s[j] == target
  }

  ghost predicate HasPair(s: seq<int>, target: int)
  {
    exists i, j :: SumsTo(s, target, i, j)
  }

  /** `find_pair_sum`: the values of the first pair of positions i < j, in
      lexicographic order, whose entries sum to `target`; None exactly when
      no two distinct positions do. */
  method FindPairSum(prev: seq<int>, target: int) returns (r: Option<(int, int)>)
    ensures r.None? <==> !HasPair(prev, target)
    ensures r.Some? ==> exists i, j :: (SumsTo(prev, target, i, j) && r.value == (prev[i], prev[j]) &&
      forall i', j' :: SumsTo(prev, target, i', j') ==> i < i' || (i == i' && j <= j'))
  {
    var i := 0;
    while i < |prev|
      invariant 0 <= i <= |prev|
      invariant forall i', j :: SumsTo(prev, target, i', j) ==> i' >= i
    {
      var j := i + 1;
      while j < |prev|
        invariant i + 1 <= j <= |prev|
        invariant forall j' :: i < j' < j ==> !SumsTo(prev, target, i, j')
      {
        if prev[i] + prev[j] == target {
          assert SumsTo(prev, target, i, j);
          return Some((prev[i], prev[j]));
        }
        j := j + 1;
      }
      i := i + 1;
    }
    return None;
  }

  /** Position k fails when it comes after the preamble and no two of the
      `preambleLength` numbers before it sum to it. */
  ghost predicate Failing(nums: seq<int>, preambleLength: nat, k: int)
  {
    preambleLength <= k < |nums| && !HasPair(nums[k - preambleLength..k], nums[k])
  }

  /** `find_failing_xmas_num`: the window holds the numbers seen so far, at
      most `preambleLength` of them; once full, each new number is checked
      against it and the oldest entry dropped. The result is the number at
      the first failing position, or None when every position passes. */
  method FindFailingXmasNum(nums: seq<int>, preambleLength: nat) returns (r: Option<int>)
    ensures r.None? <==> forall k :: !Failing(nums, preambleLength, k)
    ensures r.Some? ==> exists k :: (Failing(nums, preambleLength, k) && r.value == nums[k] &&
      forall k' :: 0 <= k' < k ==> !Failing(nums, preambleLength, k'))
  {
    var window: seq<int> := [];
    var k := 0;
    while k < |nums|
      invariant 0 <= k <= |nums|
      invariant window == nums[(if k <= preambleLength then 0 else k - preambleLength)..k]
      invariant |window| <= preambleLength
      invariant forall k' :: 0 <= k' < k ==> !Failing(nums, preambleLength, k')
    {
      var num := nums[k];
      if |window| == preambleLength {
        assert window == nums[k - preambleLength..k];
        var pair := FindPairSum(window, num);
        match pair {
          case None =>
            assert Failing(nums, preambleLength, k);
            return Some(num);
          case Some(_) =>
            window := window[1..];
        }
      } else {
        assert k < preambleLength;
      }
      window := window + [num];
      k := k + 1;
    }
    return None;
  }
}
