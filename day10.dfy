/** Day 10: chaining joltage adapters (src/day10.rs). The adapters, the
    outlet (0) and the device (highest adapter + 3) are sorted into one
    chain; part 1 counts the gaps of 1 and of 3, part 2 the arrangements.
    The source's part 2 squares up the interior adapters that could be
    removed one at a time; the model shows that this overcounts and proves
    a corrected count against the recursive definition of arrangements. */
module Day10 {
  import opened Util

  ghost predicate Sorted(s: seq<int>)
  {
    forall i, j :: 0 <= i < j < |s| ==> s[i] <= s[j]
  }

  // ---------------------------------------------------------------------
  // Sorting (`Vec::sort`)

  function Insert(x: nat, s: seq<nat>): (r: seq<nat>)
    requires Sorted(s)
    ensures Sorted(r) && multiset(r) == multiset(s) + multiset{x} && |r| == |s| + 1
  {
    if s == [] then [x]
    else if x <= s[0] then [x] + s
    else
      var rest := Insert(x, s[1..]);
      InsertStep(x, s, rest);
      [s[0]] + rest
  }

  /** Putting the head of `s` before the insertion into its tail keeps the
      order and the elements. */
  lemma InsertStep(x: nat, s: seq<nat>, rest: seq<nat>)
    requires Sorted(s) && |s| > 0 && x > s[0]
    requires Sorted(rest) && multiset(rest) == multiset(s[1..]) + multiset{x}
    ensures Sorted([s[0]] + rest) && multiset([s[0]] + rest) == multiset(s) + multiset{x}
  {
    assert s == [s[0]] + s[1..];
    forall k | 0 <= k < |rest| ensures s[0] <= rest[k] {
      assert rest[k] in multiset(rest);
      assert rest[k] in multiset(s[1..]) + multiset{x};
    }
  }

  /** `nums.sort()`: an insertion sort, which yields the sorted
      permutation. */
  function SortNats(s: seq<nat>): (r: seq<nat>)
    ensures Sorted(r) && multiset(r) == multiset(s) && |r| == |s|
  {
    if s == [] then []
    else
      assert s == [s[0]] + s[1..];
      Insert(s[0], SortNats(s[1..]))
  }

  // ---------------------------------------------------------------------
  // The chain

  /** `make_joltage_vec` on the lines of the input: 0, the adapters
      sorted, then the highest plus 3. A line that is not a number panics. */
  method MakeJoltageVec(lines: seq<string>) returns (r: Result<seq<nat>>)
    ensures r.Panic? <==> ParseNats(lines).None?
    ensures r.Ok? ==>
      (&& |r.value| == |lines| + 2 && Sorted(r.value) && r.value[0] == 0
       && multiset(r.value[..|lines| + 1]) == multiset([0] + ParseNats(lines).value)
       && (forall k :: 0 <= k < |lines| + 1 ==> r.value[k] <= r.value[|lines|])
       && r.value[|lines| + 1] == r.value[|lines|] + 3)
  {
    var nums: seq<nat> := [0];
    var i := 0;
    while i < |lines|
      invariant 0 <= i <= |lines| && |nums| == i + 1 && nums[0] == 0
      invariant forall k :: 0 <= k < i ==> ParseNat(lines[k]).Some? && nums[k + 1] == ParseNat(lines[k]).value
    {
      match ParseNat(lines[i])
      case None =>
        return Panic;
      case Some(joltage) =>
        nums := nums + [joltage];
      i := i + 1;
    }
    ParsedChain(lines, nums);
    var parsed := ParseNats(lines).value;
    var sorted := SortNats(nums);
    var result := sorted + [sorted[|sorted| - 1] + 3];
    ChainFacts(parsed, sorted, result);
    return Ok(result);
  }

  /** The numbers read line by line after the 0 are the parsed lines. */
  lemma ParsedChain(lines: seq<string>, nums: seq<nat>)
    requires |nums| == |lines| + 1 && nums[0] == 0
    requires forall k :: 0 <= k < |lines| ==> ParseNat(lines[k]).Some? && nums[k + 1] == ParseNat(lines[k]).value
    ensures ParseNats(lines).Some? && nums == [0] + ParseNats(lines).value
  {
    var parsed := ParseNats(lines).value;
    assert forall k :: 0 <= k < |nums| ==> nums[k] == ([0] + parsed)[k];
  }

  /** The sorted numbers, with the outlet among them, start at 0; the
      device after them keeps the order. */
  lemma ChainFacts(parsed: seq<nat>, sorted: seq<nat>, result: seq<nat>)
    requires Sorted(sorted) && multiset(sorted) == multiset([0] + parsed) && |sorted| == |parsed| + 1
    requires result == sorted + [sorted[|sorted| - 1] + 3]
    ensures && |result| == |parsed| + 2 && Sorted(result) && result[0] == 0
      && multiset(result[..|parsed| + 1]) == multiset([0] + parsed)
      && (forall k :: 0 <= k < |parsed| + 1 ==> result[k] <= result[|parsed|])
      && result[|parsed| + 1] == result[|parsed|] + 3
  {
    assert 0 in multiset(sorted);
    assert sorted[0] == 0 by {
      var k :| 0 <= k < |sorted| && sorted[k] == 0;
      assert sorted[0] <= sorted[k];
    }
    assert result[..|parsed| + 1] == sorted;
  }

  /** The difference between neighbours `i` and `i + 1`. */
  function Gap(nums: seq<nat>, i: nat): int
    requires i + 1 < |nums|
  {
    nums[i + 1] as int - nums[i]
  }

  /** How many neighbouring pairs differ by `d`. */
  function CountGaps(nums: seq<nat>, d: int): nat
  {
    if |nums| < 2 then 0
    else CountGaps(nums[..|nums| - 1], d) + (if Gap(nums, |nums| - 2) == d then 1 else 0)
  }

  /** `CountGaps` counts the set of positions with that gap. */
  lemma {:induction false} CountGapsIsCardinality(nums: seq<nat>, d: int)
    ensures CountGaps(nums, d) == |set i | 0 <= i < |nums| - 1 && Gap(nums, i) == d|
  {
    if |nums| >= 2 {
      var init := nums[..|nums| - 1];
      CountGapsIsCardinality(init, d);
      var before := set i | 0 <= i < |init| - 1 && Gap(init, i) == d;
      var all := set i | 0 <= i < |nums| - 1 && Gap(nums, i) == d;
      assert forall i :: 0 <= i < |init| - 1 ==> Gap(init, i) == Gap(nums, i);
      if Gap(nums, |nums| - 2) == d {
        assert all == before + {|nums| - 2};
      } else {
        assert all == before;
      }
    }
  }

  /** A gap of 1 and a gap of 3 are different pairs: together they count
      at most the pairs, and a chain ending in a gap of 3 has one. */
  lemma {:induction false} CountGapsBound(nums: seq<nat>)
    ensures CountGaps(nums, 1) + CountGaps(nums, 3) <= if |nums| == 0 then 0 else |nums| - 1
    ensures |nums| >= 2 && Gap(nums, |nums| - 2) == 3 ==> CountGaps(nums, 3) >= 1
  {
    if |nums| >= 2 {
      CountGapsBound(nums[..|nums| - 1]);
    }
  }

  /** `count_jolt_jumps` on the chain: the number of gaps equal to 1 and to
      3. The chain is sorted, so no subtraction underflows; an empty chain
      would underflow `nums.len() - 1`. */
  method CountJoltJumps(nums: seq<nat>) returns (count1: nat, count3: nat)
    requires |nums| >= 1 && Sorted(nums)
    ensures count1 == CountGaps(nums, 1) && count3 == CountGaps(nums, 3)
  {
    count1, count3 := 0, 0;
    var i := 0;
    while i < |nums| - 1
      invariant 0 <= i <= |nums| - 1
      invariant count1 == CountGaps(nums[..i + 1], 1) && count3 == CountGaps(nums[..i + 1], 3)
    {
      var diff := nums[i + 1] - nums[i];
      assert nums[..i + 2][..i + 1] == nums[..i + 1];
      assert Gap(nums[..i + 2], i) == diff;
      if diff == 1 { count1 := count1 + 1; }
      if diff == 3 { count3 := count3 + 1; }
      i := i + 1;
    }
    assert nums[..|nums|] == nums;
  }

  /** `deletable(nums, i)`: an interior element whose neighbours are at
      most 3 apart, that is, that leaves a gap of at most 3 where it is
      removed. */
  function Deletable(nums: seq<nat>, i: nat): (d: bool)
    ensures d <==> 0 < i < |nums| - 1 && RemoveAt(nums, i)[i] as int - RemoveAt(nums, i)[i - 1] <= 3
  {
    i > 0 && i < |nums| - 1 && nums[i + 1] as int - nums[i - 1] <= 3
  }

  /** Every gap is at most 3: a valid chain of adapters. */
  predicate GapsAtMost3(nums: seq<nat>)
  {
    forall i :: 0 <= i < |nums| - 1 ==> nums[i + 1] as int - nums[i] <= 3
  }

  function RemoveAt(nums: seq<nat>, i: nat): seq<nat>
    requires i < |nums|
  {
    nums[..i] + nums[i + 1..]
  }

  /** In a valid chain, an interior element is deletable exactly when the
      chain stays valid without it. */
  lemma DeletableKeepsChain(nums: seq<nat>, i: nat)
    requires GapsAtMost3(nums) && 0 < i < |nums| - 1
    ensures Deletable(nums, i) <==> GapsAtMost3(RemoveAt(nums, i))
  {
    var r := RemoveAt(nums, i);
    assert forall k :: 0 <= k < i ==> r[k] == nums[k];
    assert forall k :: i <= k < |r| ==> r[k] == nums[k + 1];
    if GapsAtMost3(r) {
      assert r[i] as int - r[i - 1] <= 3;
    }
  }

  /** The interior positions below `k` that are deletable. */
  function NumDeletable(nums: seq<nat>, k: nat): nat
  {
    if k <= 1 then 0 else NumDeletable(nums, k - 1) + (if Deletable(nums, k - 1) then 1 else 0)
  }

  /** `count_arrangements` as written: 2 to the number of deletable
      interior positions. */
  method CountArrangements(nums: seq<nat>) returns (permutations: nat)
    requires |nums| >= 1
    ensures permutations == Pow2(NumDeletable(nums, |nums| - 1))
  {
    permutations := 1;
    var i := 1;
    while i < |nums| - 1
      invariant 1 <= i <= if |nums| >= 2 then |nums| - 1 else 1
      invariant permutations == Pow2(NumDeletable(nums, i))
    {
      if Deletable(nums, i) {
        permutations := permutations * 2;
      }
      i := i + 1;
    }
    if |nums| < 2 {
      assert NumDeletable(nums, |nums| - 1) == 0 == NumDeletable(nums, i);
    }
  }

  /** The expected answer of the second example, 19208 = 2³·7⁴, is no power
      of two, so `count_arrangements` cannot return it. */
  lemma {:induction false} Pow2IsNot19208(n: nat)
    ensures Pow2(n) != 19208
  {
    if n >= 4 {
      Pow2Multiple16(n);
    }
  }

  lemma {:induction false} Pow2Multiple16(n: nat)
    requires n >= 4
    ensures Pow2(n) % 16 == 0
  {
    if n > 4 {
      var m := n - 1;
      Pow2Multiple16(m);
      assert Pow2(n) == 2 * Pow2(m);
    }
  }

  // ---------------------------------------------------------------------
  // Arrangements, as intended

  /** The number of valid chains from position `i` to the last element:
      for the last element one, otherwise the sum over every later
      position within 3 of `nums[i]` of the chains from there. */
  function Arrangements(nums: seq<nat>, i: nat): nat
    requires i < |nums|
    decreases |nums| - i, 1
  {
    if i == |nums| - 1 then 1 else ChainsVia(nums, i, i + 1)
  }

  /** The chains from `i` whose next element is at position `j` or later. */
  function ChainsVia(nums: seq<nat>, i: nat, j: nat): nat
    requires i < j <= |nums|
    decreases |nums| - i, 0, |nums| - j
  {
    if j == |nums| then 0
    else (if nums[j] as int - nums[i] <= 3 then Arrangements(nums, j) else 0) + ChainsVia(nums, i, j + 1)
  }

  /** The corrected `count_arrangements`: count the chains from every
      position to the end, last position first. */
  method CountArrangementsCorrected(nums: seq<nat>) returns (count: nat)
    requires |nums| >= 1
    ensures count == Arrangements(nums, 0)
  {
    var n := |nums|;
    // ways[t] holds the chains from position i + t
    var ways: seq<nat> := [1];
    var i := n - 1;
    while i > 0
      invariant 0 <= i < n && |ways| == n - i
      invariant forall t :: 0 <= t < |ways| ==> ways[t] == Arrangements(nums, i + t)
    {
      i := i - 1;
      var sum := 0;
      var j := n;
      while j > i + 1
        invariant i + 1 <= j <= n && sum == ChainsVia(nums, i, j)
      {
        j := j - 1;
        if nums[j] as int - nums[i] <= 3 {
          sum := sum + ways[j - (i + 1)];
        }
      }
      ways := [sum] + ways;
    }
    count := ways[0];
  }

  /** The discrepancy: for the adapters 1, 2, 3, 4 the chain is
      0, 1, 2, 3, 4, 7. Every interior position but 4 is deletable, so the
      source answers 2³ = 8, but removing 1, 2 and 3 together leaves the gap
      0 → 4, and there are only 7 arrangements. */
  lemma ArrangementsOvercount()
    ensures NumDeletable([0, 1, 2, 3, 4, 7], 5) == 3 && Pow2(3) == 8
    ensures Arrangements([0, 1, 2, 3, 4, 7], 0) == 7
  {
    var nums: seq<nat> := [0, 1, 2, 3, 4, 7];
    assert Arrangements(nums, 5) == 1;
    assert ChainsVia(nums, 4, 5) == 1;
    assert Arrangements(nums, 4) == 1;
    assert ChainsVia(nums, 3, 4) == 1;
    assert Arrangements(nums, 3) == 1;
    assert ChainsVia(nums, 2, 3) == 2;
    assert Arrangements(nums, 2) == 2;
    assert ChainsVia(nums, 1, 2) == 4;
    assert Arrangements(nums, 1) == 4;
    assert ChainsVia(nums, 0, 4) == 0;
    assert ChainsVia(nums, 0, 3) == 1;
    assert ChainsVia(nums, 0, 2) == 3;
    assert ChainsVia(nums, 0, 1) == 7;
  }
}
