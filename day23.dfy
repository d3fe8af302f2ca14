/** Day 23: the crab's cup game (src/day23.rs). Nine cups with labels
    1 to 9 sit in a circle; a move picks up the three cups after the
    current one, finds the destination cup (the next lower label that was
    not picked up, wrapping round from the lowest label to the highest),
    puts the three cups back right after it and makes the next cup
    current. `CupRing` keeps the circle in a fixed array of nine. */
module Day23 {
  import opened Util

  /** `cups.len()`: the ring always has nine places. */
  const N: nat := 9

  /** `NUM_REMOVE`: a move picks up three cups. */
  const NumRemove: nat := 3

  // ---------------------------------------------------------------------
  // Index arithmetic on the ring

  /** `ind_add`: the place `b` steps clockwise from `a`. */
  function IndAdd(a: nat, b: nat): (r: nat)
    ensures r < N
  {
    (a + b) % N
  }

  /** `ind_sub`: the place `b` steps anticlockwise from `a`; the `usize`
      subtraction `len - b` panics for `b > len`. */
  function IndSub(a: nat, b: nat): (r: nat)
    requires b <= N
    ensures r < N
  {
    IndAdd(a, N - b)
  }

  /** `ind_add` is addition modulo nine. */
  lemma IndAddMod(a: nat, b: nat)
    ensures IndAdd(a, b) == ((a % N) + (b % N)) % N
    ensures IndAdd(a, b) < N
  {
  }

  /** `ind_sub` is subtraction modulo nine (never negative). */
  lemma IndSubMod(a: nat, b: nat)
    requires b <= N
    ensures IndSub(a, b) == (a - b) % N
  {
    assert a + (N - b) == (a - b) + N;
  }

  /** Going back `b` places and then forward `b` places returns. */
  lemma IndSubAdd(a: nat, b: nat)
    requires b <= N
    ensures IndAdd(IndSub(a, b), b) == a % N
  {
    IndSubMod(a, b);
  }

  // ---------------------------------------------------------------------
  // `IndIter`: the places of a half-open arc of a ring of `max` places

  /** How many places the arc from `n` to `d` passes strictly between
      them, going up and wrapping round; when `n == d` it goes all the way
      round. */
  function Gap(n: nat, d: nat, max: nat): (g: nat)
    requires n < max && d < max
    ensures g < max
  {
    if n < d then d - n - 1 else d + max - n - 1
  }

  /** The place `k` steps on from `n`, for `k` less than a full turn. */
  function Wrap(n: nat, k: nat, max: nat): (r: nat)
    ensures n < max && k < max ==> r < max
  {
    if n + k < max then n + k else n + k - max
  }

  /** The places an iterator whose next place is `n` and whose stop is
      `d` has still to yield: `n`, then each next place until the next
      one would be `d`. */
  function Arc(n: nat, d: nat, max: nat): (r: seq<nat>)
    requires n < max && d < max
    ensures |r| == Gap(n, d, max) + 1
    ensures forall i :: 0 <= i < |r| ==> r[i] == Wrap(n, i, max)
    ensures forall i :: 0 <= i < |r| ==> r[i] < max
    decreases Gap(n, d, max)
  {
    var u := if n + 1 < max then n + 1 else 0;
    if u == d then [n]
    else
      var t := Arc(u, d, max);
      assert forall i :: 1 <= i < |t| + 1 ==> Wrap(u, i - 1, max) == Wrap(n, i, max);
      [n] + t
  }

  /** What `IndIter::from(start, open_end, max)` yields: the places from
      `start` up to `open_end`, excluded, modulo `max`. */
  function IndSeq(start: nat, openEnd: nat, max: nat): (r: seq<nat>)
    requires max > 0
  {
    Arc(start % max, openEnd % max, max)
  }

  /** Less than a full turn on from `start` is `start + k` modulo `max`. */
  lemma WrapMod(start: nat, k: nat, max: nat)
    requires max > 0 && k < max
    ensures Wrap(start % max, k, max) == (start + k) % max
  {
    var q, s := start / max, start % max;
    assert start == q * max + s;
    if s + k < max {
      DivModUnique(start + k, max, q, s + k);
    } else {
      assert start + k == (q + 1) * max + (s + k - max);
      DivModUnique(start + k, max, q + 1, s + k - max);
    }
  }

  /** The arc is the half-open range from `start` round to `open_end`:
      its length is the distance between them modulo `max` and every place
      is `start` plus its position, modulo `max`. */
  lemma IndSeqRange(start: nat, openEnd: nat, max: nat)
    requires max > 0
    ensures var r := IndSeq(start, openEnd, max);
            start % max != openEnd % max ==> |r| == (openEnd - start) % max
    ensures var r := IndSeq(start, openEnd, max);
            forall i :: 0 <= i < |r| ==> r[i] == (start + i) % max
  {
    var r := IndSeq(start, openEnd, max);
    if start % max != openEnd % max {
      IndSeqLength(start, openEnd, max);
    }
    forall i | 0 <= i < |r|
      ensures r[i] == (start + i) % max
    {
      WrapMod(start, i, max);
    }
  }

  lemma IndSeqLength(start: nat, openEnd: nat, max: nat)
    requires max > 0 && start % max != openEnd % max
    ensures |IndSeq(start, openEnd, max)| == (openEnd - start) % max
  {
    var qs, s := start / max, start % max;
    var qe, e := openEnd / max, openEnd % max;
    assert start == qs * max + s && openEnd == qe * max + e;
    if s < e {
      assert openEnd - start == (qe - qs) * max + (e - s);
      DivModUnique(openEnd - start, max, qe - qs, e - s);
    } else {
      assert openEnd - start == (qe - qs - 1) * max + (e + max - s);
      DivModUnique(openEnd - start, max, qe - qs - 1, e + max - s);
    }
  }

  /** From a place back to itself the arc goes once all the way round:
      it yields every place exactly once. */
  lemma IndSeqFullCycle(start: nat, openEnd: nat, max: nat)
    requires max > 0 && start % max == openEnd % max
    ensures var r := IndSeq(start, openEnd, max);
            |r| == max &&
            (forall j :: 0 <= j < max ==> j in r) &&
            (forall i, k :: 0 <= i < k < |r| ==> r[i] != r[k])
  {
    var r := IndSeq(start, openEnd, max);
    var s := start % max;
    forall j | 0 <= j < max
      ensures j in r
    {
      var i := if s <= j then j - s else j + max - s;
      assert r[i] == Wrap(s, i, max) == j;
    }
  }

  /** `test_ind_iter`. */
  lemma IndIterExamples()
    ensures IndSeq(4, 8, 9) == [4, 5, 6, 7]
    ensures IndSeq(5, 0, 9) == [5, 6, 7, 8]
    ensures IndSeq(6, 1, 9) == [6, 7, 8, 0]
  {
    var a, b, c := IndSeq(4, 8, 9), IndSeq(5, 0, 9), IndSeq(6, 1, 9);
    assert |a| == 4 && a[0] == 4 && a[1] == 5 && a[2] == 6 && a[3] == 7;
    assert |b| == 4 && b[0] == 5 && b[1] == 6 && b[2] == 7 && b[3] == 8;
    assert |c| == 4 && c[0] == 6 && c[1] == 7 && c[2] == 8 && c[3] == 0;
  }

  /** `IndIter`: the next place to yield, if any, the place at which to
      stop, and the ring's size. */
  class IndIter {
    var next: Option<nat>
    var done: nat
    var max: nat

    predicate Valid()
      reads this
    {
      max > 0 && done < max && (next.Some? ==> next.value < max)
    }

    /** The places still to come. */
    function Remaining(): (r: seq<nat>)
      reads this
      requires Valid()
    {
      if next.None? then [] else Arc(next.value, done, max)
    }

    /** `IndIter::from`; `mod_floor` by zero panics, so `max > 0`. */
    constructor From(start: nat, openEnd: nat, max: nat)
      requires max > 0
      ensures Valid() && this.max == max
      ensures Remaining() == IndSeq(start, openEnd, max)
    {
      next := Some(start % max);
      done := openEnd % max;
      this.max := max;
    }

    /** `next`: yields the next place and moves on, or stops. */
    method Next() returns (r: Option<nat>)
      requires Valid()
      modifies this
      ensures Valid() && max == old(max)
      ensures old(Remaining()) == [] ==> r == None && Remaining() == []
      ensures old(Remaining()) != [] ==>
                r == Some(old(Remaining())[0]) && Remaining() == old(Remaining())[1..]
    {
      r := next;
      if r.Some? {
        var n := r.value;
        var update := (n + 1) % max;
        assert update == if n + 1 < max then n + 1 else 0;
        ArcStep(n, done, max);
        next := if update == done then None else Some(update);
      }
    }
  }

  /** One step along an arc: its first place is `n`, and the rest is the
      arc from the next place on, or nothing when that place is the stop. */
  lemma ArcStep(n: nat, d: nat, max: nat)
    requires n < max && d < max
    ensures var u := if n + 1 < max then n + 1 else 0;
            Arc(n, d, max)[0] == n &&
            Arc(n, d, max)[1..] == if u == d then [] else Arc(u, d, max)
  {
  }

  /** Moving the first of the places still to come to the ones seen. */
  lemma MoveFirst(seen: seq<nat>, rest: seq<nat>)
    requires rest != []
    ensures (seen + [rest[0]]) + rest[1..] == seen + rest
  {
  }

  /** `IndIter::from(start, open_end, max).collect()`. */
  method Collect(start: nat, openEnd: nat, max: nat) returns (r: seq<nat>)
    requires max > 0
    ensures r == IndSeq(start, openEnd, max)
  {
    var it := new IndIter.From(start, openEnd, max);
    r := [];
    while true
      invariant it.Valid() && r + it.Remaining() == IndSeq(start, openEnd, max)
      decreases |it.Remaining()|
    {
      ghost var before := it.Remaining();
      var x := it.Next();
      if x.None? {
        break;
      }
      MoveFirst(r, before);
      r := r + [x.value];
    }
  }

  // ---------------------------------------------------------------------
  // The cups as a sequence of nine labels, place by place

  /** The labels of the puzzle's cups. */
  const Labels: multiset<nat> := multiset{1, 2, 3, 4, 5, 6, 7, 8, 9}

  /** The nine places hold the labels 1 to 9, each once. */
  predicate Ring(c: seq<nat>)
  {
    |c| == N && multiset(c) == Labels
  }

  /** No cup of a ring is labelled 0. */
  lemma RingLabelled(c: seq<nat>)
    ensures Ring(c) ==> 0 !in c
  {
    if Ring(c) {
      RingFacts(c);
    }
  }

  /** A label is counted once for its place and once more for a later
      place holding it. */
  lemma Copies(c: seq<nat>, i: nat, j: nat)
    requires i < j < |c|
    ensures multiset(c)[c[i]] >= 1 + (if c[j] == c[i] then 1 else 0)
  {
    var v := c[i];
    assert c == c[..j] + c[j..];
    assert c[..j][i] == v && c[j..][0] == c[j];
    assert multiset(c)[v] == multiset(c[..j])[v] + multiset(c[j..])[v];
  }

  /** Nine places that hold every label from 1 to 9 form a ring: the
      labels take up all nine places, so none is held twice. */
  lemma HasEveryLabel(c: seq<nat>)
    requires |c| == N && forall l :: 1 <= l <= 9 ==> l in c
    ensures Ring(c)
  {
    var m := multiset(c);
    forall l | l in Labels
      ensures Labels[l] <= m[l]
    {
      assert l in c;
    }
    assert Labels <= m;
    LabelsSize();
    SameSizeSub(Labels, m);
  }

  lemma LabelsSize()
    ensures |Labels| == N
  {
  }

  /** A sub-multiset as large as the whole is the whole. */
  lemma SameSizeSub(a: multiset<nat>, b: multiset<nat>)
    requires a <= b && |a| == |b|
    ensures a == b
  {
    assert b == a + (b - a);
  }

  /** What a ring's labels are: 1 to 9, each at exactly one place. */
  lemma RingFacts(c: seq<nat>)
    requires Ring(c)
    ensures forall i :: 0 <= i < N ==> 1 <= c[i] <= 9
    ensures forall i, j :: 0 <= i < j < N ==> c[i] != c[j]
    ensures forall l :: 1 <= l <= 9 ==> l in c
  {
    forall i | 0 <= i < N
      ensures 1 <= c[i] <= 9
    {
      assert c[i] in multiset(c);
    }
    forall i, j | 0 <= i < j < N
      ensures c[i] != c[j]
    {
      Copies(c, i, j);
      assert c[i] in Labels;
    }
    forall l | 1 <= l <= 9
      ensures l in c
    {
      assert l in Labels;
      assert l in multiset(c);
    }
  }

  /** `cups.iter().min().unwrap()`. */
  function SeqMin(s: seq<nat>): (m: nat)
    requires |s| > 0
    ensures m in s && forall i :: 0 <= i < |s| ==> m <= s[i]
  {
    if |s| == 1 then s[0]
    else
      var m := SeqMin(s[1..]);
      assert forall i :: 1 <= i < |s| ==> s[i] == s[1..][i - 1];
      if s[0] <= m then s[0] else m
  }

  /** `cups.iter().max().unwrap()`. */
  function SeqMax(s: seq<nat>): (m: nat)
    requires |s| > 0
    ensures m in s && forall i :: 0 <= i < |s| ==> s[i] <= m
  {
    if |s| == 1 then s[0]
    else
      var m := SeqMax(s[1..]);
      assert forall i :: 1 <= i < |s| ==> s[i] == s[1..][i - 1];
      if s[0] >= m then s[0] else m
  }

  /** `destination_label_sub`: one label lower, or the highest label
      below the lowest. The `u8` subtraction `label - 1` panics at 0, so
      the label `lab` is at least 1. */
  function LabelSub(c: seq<nat>, lab: nat): (r: nat)
    requires |c| > 0 && lab >= 1
    ensures r >= SeqMin(c)
  {
    var lower := lab - 1;
    if lower < SeqMin(c) then SeqMax(c) else lower
  }

  /** On a ring, `destination_label_sub` counts down and wraps from 1 to 9. */
  lemma LabelSubRing(c: seq<nat>, lab: nat)
    requires Ring(c) && 1 <= lab <= 9
    ensures SeqMin(c) == 1 && SeqMax(c) == 9
    ensures LabelSub(c, lab) == if lab == 1 then 9 else lab - 1
  {
    RingFacts(c);
    assert SeqMin(c) == 1 by {
      assert 1 in c;
    }
    assert SeqMax(c) == 9 by {
      assert 9 in c;
    }
  }

  /** The label after `k` applications of `destination_label_sub`. */
  function Down(c: seq<nat>, lab: nat, k: nat): (r: nat)
    requires |c| > 0 && lab >= 1 && SeqMin(c) >= 1
    ensures r >= 1
    decreases k
  {
    if k == 0 then lab else Down(c, LabelSub(c, lab), k - 1)
  }

  /** The label `n` below `l` on the dial 1 to 9, for at most a full
      turn. */
  function Below(l: nat, n: nat): (r: int)
    ensures 1 <= l <= 9 && n <= 9 ==> 1 <= r <= 9
  {
    if n < l then l - n else l + 9 - n
  }

  /** When the least label is 1 and the greatest 9 (as on a ring),
      counting down `k` times from `lab`, for at most a full turn, gives
      the label `k` below it: every label is reached. */
  lemma {:induction false} DownRing(c: seq<nat>, lab: nat, k: nat)
    requires |c| > 0 && SeqMin(c) == 1 && SeqMax(c) == 9 && 1 <= lab <= 9 && k <= 9
    ensures Down(c, lab, k) == Below(lab, k)
    decreases k
  {
    if k > 0 {
      var lower := LabelSub(c, lab);
      assert lower == if lab == 1 then 9 else lab - 1;
      DownRing(c, lower, k - 1);
    }
  }


  /** `.find(|i| self.cups[*i] == destination_label)` over the places
      `ps`, with `lab` as the destination label. */
  function FindLabel(c: seq<nat>, ps: seq<nat>, lab: nat): (r: Option<nat>)
    requires forall i :: 0 <= i < |ps| ==> ps[i] < |c|
    ensures r.None? <==> forall i :: 0 <= i < |ps| ==> c[ps[i]] != lab
    ensures r.Some? ==> exists i :: 0 <= i < |ps| && ps[i] == r.value && c[ps[i]] == lab &&
                                    forall j :: 0 <= j < i ==> c[ps[j]] != lab
  {
    if ps == [] then None
    else if c[ps[0]] == lab then
      assert ps[0] == ps[0] && c[ps[0]] == lab;
      Some(ps[0])
    else
      var r := FindLabel(c, ps[1..], lab);
      assert forall i :: 1 <= i < |ps| ==> ps[i] == ps[1..][i - 1];
      if r.Some? then
        var i :| 0 <= i < |ps| - 1 && ps[1..][i] == r.value && c[ps[1..][i]] == lab &&
                  forall j :: 0 <= j < i ==> c[ps[1..][j]] != lab;
        assert ps[i + 1] == r.value && c[ps[i + 1]] == lab;
        r
      else r
  }

  /** The search of `find_destination_index`: try `lab`, then the labels
      `destination_label_sub` gives, until one is at a place in `ps`. The
      source loops for as long as it takes; `fuel` bounds the tries
      (`SearchEnds` shows how many suffice). The result is the place
      holding the first label found; lowering a label of 0 is the `u8`
      underflow that panics. */
  function Search(c: seq<nat>, ps: seq<nat>, lab: nat, fuel: nat): (r: Result<Option<nat>>)
    requires |c| > 0
    requires forall i :: 0 <= i < |ps| ==> ps[i] < |c|
    ensures r.Ok? && r.value.Some? ==> r.value.value in ps
    ensures SeqMin(c) <= lab && r.Panic? ==> SeqMin(c) == 0
    decreases fuel
  {
    if fuel == 0 then Ok(None)
    else
      match FindLabel(c, ps, lab)
      case Some(p) => Ok(Some(p))
      case None => if lab == 0 then Panic else Search(c, ps, LabelSub(c, lab), fuel - 1)
  }

  /** How many times `destination_label_sub` lowers `lab` before it is
      `t`: down to `t`, or down to the least label, round to the greatest
      and down to `t`. */
  function Dist(c: seq<nat>, lab: nat, t: nat): (d: nat)
    requires |c| > 0 && SeqMin(c) <= lab && SeqMin(c) <= t <= SeqMax(c)
    ensures d == 0 <==> lab == t
    ensures lab <= SeqMax(c) ==> d <= SeqMax(c) - SeqMin(c)
  {
    if lab >= t then lab - t else lab - SeqMin(c) + 1 + SeqMax(c) - t
  }

  /** Whatever the labels, the search stops within `SeqMax - SeqMin + 1`
      tries: the label at the first place searched is reached by then,
      unless a label of 0 panics first. */
  lemma {:induction false} SearchEnds(c: seq<nat>, ps: seq<nat>, lab: nat, fuel: nat)
    requires |c| > 0 && |ps| > 0 && forall i :: 0 <= i < |ps| ==> ps[i] < |c|
    requires SeqMin(c) <= lab <= SeqMax(c)
    requires Dist(c, lab, c[ps[0]]) < fuel
    ensures Search(c, ps, lab, fuel) != Ok(None)
    decreases fuel
  {
    if FindLabel(c, ps, lab).None? && lab > 0 {
      var t := c[ps[0]];
      var lower := LabelSub(c, lab);
      assert lab != t;
      assert Dist(c, lower, t) == Dist(c, lab, t) - 1;
      SearchEnds(c, ps, lower, fuel - 1);
    }
  }

  /** The search finds something when one of the first `fuel` labels is
      at one of the places. */
  lemma {:induction false} SearchFinds(c: seq<nat>, ps: seq<nat>, lab: nat, fuel: nat, k: nat)
    requires |c| > 0 && lab >= 1 && SeqMin(c) >= 1 && k < fuel
    requires forall i :: 0 <= i < |ps| ==> ps[i] < |c|
    requires FindLabel(c, ps, Down(c, lab, k)).Some?
    ensures Search(c, ps, lab, fuel).Ok? && Search(c, ps, lab, fuel).value.Some?
    decreases k
  {
    if k > 0 && FindLabel(c, ps, lab).None? {
      SearchFinds(c, ps, LabelSub(c, lab), fuel - 1, k - 1);
    }
  }

  /** What the search finds is the place of the first of the first `fuel`
      labels that is at one of the places. */
  lemma {:induction false} SearchFound(c: seq<nat>, ps: seq<nat>, lab: nat, fuel: nat) returns (k: nat)
    requires |c| > 0 && lab >= 1 && SeqMin(c) >= 1
    requires forall i :: 0 <= i < |ps| ==> ps[i] < |c|
    requires Search(c, ps, lab, fuel).Ok? && Search(c, ps, lab, fuel).value.Some?
    ensures k < fuel && Search(c, ps, lab, fuel) == Ok(FindLabel(c, ps, Down(c, lab, k)))
    ensures forall j :: 0 <= j < k ==> FindLabel(c, ps, Down(c, lab, j)).None?
    decreases fuel
  {
    if FindLabel(c, ps, lab).Some? {
      k := 0;
    } else {
      var lower := LabelSub(c, lab);
      var k' := SearchFound(c, ps, lower, fuel - 1);
      k := k' + 1;
      forall j | 0 <= j < k
        ensures FindLabel(c, ps, Down(c, lab, j)).None?
      {
        if j > 0 {
          assert Down(c, lab, j) == Down(c, lower, j - 1);
        }
      }
    }
  }

  /** `find_destination_index(retain_start)`: the place, from
      `retain_start` round to the current cup, of the first label found
      counting down from the current cup's label. It panics when the
      current label, or a label counted down to, is 0 and must be
      lowered; otherwise it finds a place. */
  function FindDestination(c: seq<nat>, current: nat, retainStart: nat): (r: Result<nat>)
    requires |c| == N && current < N
    ensures c[current] == 0 ==> r.Panic?
    ensures r.Panic? ==> 0 in c
    ensures r.Ok? ==> r.value in IndSeq(retainStart, current, N)
  {
    if c[current] == 0 then Panic
    else
      var ps := IndSeq(retainStart, current, N);
      var lab := LabelSub(c, c[current]);
      var fuel := SeqMax(c) - SeqMin(c) + 1;
      SearchEnds(c, ps, lab, fuel);
      match Search(c, ps, lab, fuel)
      case Panic => Panic
      case Ok(o) => Ok(o.value)
  }

  /** On a ring the search always succeeds within nine tries: counting
      down from any label reaches every label, and the places searched
      hold at least one. */
  lemma DestinationFound(c: seq<nat>, current: nat, retainStart: nat)
    requires Ring(c) && current < N
    ensures SeqMin(c) >= 1 && c[current] >= 1
    ensures var s := Search(c, IndSeq(retainStart, current, N), LabelSub(c, c[current]), N);
            s.Ok? && s.value.Some? && FindDestination(c, current, retainStart) == Ok(s.value.value)
  {
    RingFacts(c);
    var ps := IndSeq(retainStart, current, N);
    var t := c[ps[0]];
    var l0 := LabelSub(c, c[current]);
    LabelSubRing(c, c[current]);
    var k: nat := if l0 >= t then l0 - t else l0 + 9 - t;
    DownRing(c, l0, k);
    assert Down(c, l0, k) == t;
    assert FindLabel(c, ps, Down(c, l0, k)).Some?;
    SearchFinds(c, ps, l0, N, k);
  }

  // ---------------------------------------------------------------------
  // `remove_insert`

  /** The cups at the places `ps`, in order. */
  function Places(c: seq<nat>, ps: seq<nat>): (r: seq<nat>)
    requires forall i :: 0 <= i < |ps| ==> ps[i] < |c|
    ensures |r| == |ps| && forall i :: 0 <= i < |ps| ==> r[i] == c[ps[i]]
  {
    seq(|ps|, i requires 0 <= i < |ps| => c[ps[i]])
  }

  /** The first loop of `remove_insert`: each place of `ps` in turn
      takes the cup `k` places further on. */
  function ShiftLeft(c: seq<nat>, ps: seq<nat>, k: nat): (r: seq<nat>)
    requires |c| == N && forall i :: 0 <= i < |ps| ==> ps[i] < N
    ensures |r| == N
    decreases |ps|
  {
    if ps == [] then c
    else
      var d := ShiftLeft(c, ps[..|ps| - 1], k);
      var p := ps[|ps| - 1];
      d[p := d[IndAdd(p, k)]]
  }

  /** The second loop of `remove_insert`: the held cups `h` go, in order,
      to the places from `from` on. */
  function Place(c: seq<nat>, from: nat, h: seq<nat>): (r: seq<nat>)
    requires |c| == N
    ensures |r| == N
    decreases |h|
  {
    if h == [] then c
    else
      var d := Place(c, from, h[..|h| - 1]);
      d[IndAdd(from, |h| - 1) := h[|h| - 1]]
  }

  /** `remove_insert(remove_start, num_remove, insert_start)`: hold the
      `num_remove` cups from `remove_start` on, move each cup from
      `remove_start` up to `insert_start` back by `num_remove` places,
      and put the held cups down from `insert_start` on. */
  function RemoveInsertSeq(c: seq<nat>, removeStart: nat, numRemove: nat, insertStart: nat): (r: seq<nat>)
    requires |c| == N
    ensures |r| == N
  {
    var holding := Places(c, IndSeq(removeStart, removeStart + numRemove, N));
    Place(ShiftLeft(c, IndSeq(removeStart, insertStart, N), numRemove), insertStart, holding)
  }

  /** How many places `x` is on from `base`, going round. */
  function Off(base: nat, x: nat): (o: nat)
    requires base < N && x < N
    ensures o < N && Wrap(base, o, N) == x
  {
    if x >= base then x - base else x + N - base
  }

  /** After shifting the places of a run that starts at `base`, each place
      of the run holds the cup that was `k` places further on and every
      other place keeps its cup; the run and the `k` places after it must
      fit in the ring. */
  lemma {:induction false} ShiftEffect(c: seq<nat>, base: nat, ps: seq<nat>, k: nat)
    requires |c| == N && base < N && |ps| + k <= N
    requires forall t :: 0 <= t < |ps| ==> ps[t] == Wrap(base, t, N) && ps[t] < N
    ensures forall x :: 0 <= x < N ==>
              ShiftLeft(c, ps, k)[x] == if Off(base, x) < |ps| then c[IndAdd(x, k)] else c[x]
    decreases |ps|
  {
    if ps != [] {
      var m := |ps| - 1;
      var front := ps[..m];
      ShiftEffect(c, base, front, k);
      var p := ps[m];
      assert Off(base, p) == m;
      assert IndAdd(p, k) == Wrap(base, m + k, N);
      assert Off(base, IndAdd(p, k)) == m + k;
    }
  }

  /** After putting down `h` from `from` on, the `i`-th place on from
      `from` holds `h[i]` and every other place keeps its cup. */
  lemma {:induction false} PlaceEffect(c: seq<nat>, from: nat, h: seq<nat>)
    requires |c| == N && from < N && |h| <= N
    ensures forall x :: 0 <= x < N ==>
              Place(c, from, h)[x] == if Off(from, x) < |h| then h[Off(from, x)] else c[x]
    decreases |h|
  {
    if h != [] {
      var m := |h| - 1;
      PlaceEffect(c, from, h[..m]);
      assert Off(from, IndAdd(from, m)) == m;
    }
  }

  /** Where `remove_insert` takes each cup from, counted in places on
      from `remove_start`, when `insert_start` is `span` places on from
      it: the run before `insert_start` moves back three, the three held
      cups follow it, and the rest stay. */
  function Window(o: nat, span: nat): (r: nat)
    ensures o < N && span <= 6 ==> r < N
  {
    if o < span then o + 3 else if o < span + 3 then o - span else o
  }

  /** The places from `s` up to another place `e` of the ring: as many
      as `e` is on from `s`, each `s` plus its position. */
  lemma ArcOnRing(s: nat, e: nat)
    requires s < N && e < N && s != e
    ensures |IndSeq(s, e, N)| == Off(s, e)
    ensures forall t :: 0 <= t < Off(s, e) ==> IndSeq(s, e, N)[t] == Wrap(s, t, N)
  {
    assert s % N == s && e % N == e;
  }

  /** Less than a full turn on, `Wrap` is `ind_add`. */
  lemma WrapIndAdd(n: nat, k: nat)
    requires n < N && k < N
    ensures Wrap(n, k, N) == IndAdd(n, k)
  {
    if n + k >= N {
      DivModUnique(n + k, N, 1, n + k - N);
    }
  }

  /** The places of the three held cups: the three from `s` on. */
  lemma HeldPlaces(s: nat)
    requires s < N
    ensures |IndSeq(s, s + NumRemove, N)| == NumRemove
    ensures forall t :: 0 <= t < NumRemove ==> IndSeq(s, s + NumRemove, N)[t] == Wrap(s, t, N)
  {
    assert s % N == s;
    assert (s + NumRemove) % N == Wrap(s, NumRemove, N);
  }

  /** Where the cup at place `x` comes from after `remove_insert` with
      three cups: a held cup, the cup three places on, or its own. */
  lemma RemoveInsertAt(c: seq<nat>, removeStart: nat, insertStart: nat, x: nat)
    requires |c| == N && removeStart < N && insertStart < N && removeStart != insertStart
    requires Off(removeStart, insertStart) + NumRemove <= N && x < N
    ensures var r := RemoveInsertSeq(c, removeStart, NumRemove, insertStart);
            r[x] == if Off(insertStart, x) < NumRemove then c[Wrap(removeStart, Off(insertStart, x), N)]
                    else if Off(removeStart, x) < Off(removeStart, insertStart) then c[IndAdd(x, NumRemove)]
                    else c[x]
  {
    var ps := IndSeq(removeStart, insertStart, N);
    var hs := IndSeq(removeStart, removeStart + NumRemove, N);
    ArcOnRing(removeStart, insertStart);
    HeldPlaces(removeStart);
    var d := ShiftLeft(c, ps, NumRemove);
    var h := Places(c, hs);
    assert RemoveInsertSeq(c, removeStart, NumRemove, insertStart) == Place(d, insertStart, h);
    ShiftEffect(c, removeStart, ps, NumRemove);
    PlaceEffect(d, insertStart, h);
    var o := Off(insertStart, x);
    if o < NumRemove {
      assert h[o] == c[Wrap(removeStart, o, N)];
    }
  }

  /** `remove_insert` with three cups and an `insert_start` at most six
      places on from `remove_start` turns the stretch between them: each
      place takes its cup from where `Window` says. */
  lemma RemoveInsertWindow(c: seq<nat>, removeStart: nat, insertStart: nat)
    requires |c| == N && removeStart < N && insertStart < N && removeStart != insertStart
    requires Off(removeStart, insertStart) + NumRemove <= N
    ensures var r := RemoveInsertSeq(c, removeStart, NumRemove, insertStart);
            forall o :: 0 <= o < N ==>
              r[Wrap(removeStart, o, N)] == c[Wrap(removeStart, Window(o, Off(removeStart, insertStart)), N)]
  {
    var r := RemoveInsertSeq(c, removeStart, NumRemove, insertStart);
    forall o | 0 <= o < N
      ensures r[Wrap(removeStart, o, N)] == c[Wrap(removeStart, Window(o, Off(removeStart, insertStart)), N)]
    {
      WindowAt(c, removeStart, insertStart, o);
    }
  }

  lemma WindowAt(c: seq<nat>, removeStart: nat, insertStart: nat, o: nat)
    requires |c| == N && removeStart < N && insertStart < N && removeStart != insertStart
    requires Off(removeStart, insertStart) + NumRemove <= N && o < N
    ensures var r := RemoveInsertSeq(c, removeStart, NumRemove, insertStart);
            r[Wrap(removeStart, o, N)] == c[Wrap(removeStart, Window(o, Off(removeStart, insertStart)), N)]
  {
    var span := Off(removeStart, insertStart);
    var x := Wrap(removeStart, o, N);
    RemoveInsertAt(c, removeStart, insertStart, x);
    OffOn(removeStart, insertStart, o);
    if o < span {
      WrapIndAdd(x, NumRemove);
      assert IndAdd(x, NumRemove) == Wrap(removeStart, o + 3, N);
    }
  }

  /** `o` places on from `base`, counted from a place `span` on from
      it. */
  lemma OffOn(base: nat, y: nat, o: nat)
    requires base < N && y < N && o < N
    ensures Off(base, Wrap(base, o, N)) == o
    ensures var span := Off(base, y);
            Off(y, Wrap(base, o, N)) == if o >= span then o - span else o + N - span
  {
  }

  /** The three held cups land, in their order, from `insert_start` on. */
  lemma RemoveInsertHeld(c: seq<nat>, removeStart: nat, insertStart: nat)
    requires |c| == N && removeStart < N && insertStart < N && removeStart != insertStart
    requires Off(removeStart, insertStart) + NumRemove <= N
    ensures var r := RemoveInsertSeq(c, removeStart, NumRemove, insertStart);
            forall i :: 0 <= i < NumRemove ==> r[IndAdd(insertStart, i)] == c[IndAdd(removeStart, i)]
  {
    forall i | 0 <= i < NumRemove
      ensures RemoveInsertSeq(c, removeStart, NumRemove, insertStart)[IndAdd(insertStart, i)] == c[IndAdd(removeStart, i)]
    {
      HeldAt(c, removeStart, insertStart, i);
    }
  }

  lemma HeldAt(c: seq<nat>, removeStart: nat, insertStart: nat, i: nat)
    requires |c| == N && removeStart < N && insertStart < N && removeStart != insertStart
    requires Off(removeStart, insertStart) + NumRemove <= N && i < NumRemove
    ensures RemoveInsertSeq(c, removeStart, NumRemove, insertStart)[IndAdd(insertStart, i)] == c[IndAdd(removeStart, i)]
  {
    var span := Off(removeStart, insertStart);
    var r := RemoveInsertSeq(c, removeStart, NumRemove, insertStart);
    WindowAt(c, removeStart, insertStart, span + i);
    var p, q := Wrap(removeStart, span + i, N), Wrap(removeStart, i, N);
    assert Window(span + i, span) == i;
    assert r[p] == c[q];
    WrapIndAdd(removeStart, span + i);
    WrapIndAdd(insertStart, i);
    WrapIndAdd(removeStart, i);
  }

  /** The ring read from place `base` on. */
  function Turned(c: seq<nat>, base: nat): (r: seq<nat>)
    requires |c| == N && base < N
    ensures |r| == N && forall o :: 0 <= o < N ==> r[o] == c[Wrap(base, o, N)]
    ensures multiset(r) == multiset(c)
  {
    assert c == c[..base] + c[base..];
    c[base..] + c[..base]
  }

  /** A rearrangement by `Window` moves cups and neither makes nor loses
      any. */
  lemma WindowPermutes(c: seq<nat>, r: seq<nat>, base: nat, span: nat)
    requires |c| == N && |r| == N && base < N && span + 3 <= N
    requires forall o :: 0 <= o < N ==> r[Wrap(base, o, N)] == c[Wrap(base, Window(o, span), N)]
    ensures multiset(r) == multiset(c)
  {
    var tc, tr := Turned(c, base), Turned(r, base);
    var a, b, d := tc[..3], tc[3..span + 3], tc[span + 3..];
    forall o | 0 <= o < N
      ensures tr[o] == (b + a + d)[o]
    {
      assert tr[o] == tc[Window(o, span)];
    }
    assert tr == b + a + d;
    SplitThree(tc, 3, span + 3);
    SwapFront(a, b, d);
  }

  lemma SplitThree(t: seq<nat>, i: nat, j: nat)
    requires i <= j <= |t|
    ensures t == t[..i] + t[i..j] + t[j..]
  {
  }

  lemma SwapFront(a: seq<nat>, b: seq<nat>, d: seq<nat>)
    ensures multiset(b + a + d) == multiset(a + b + d)
  {
  }

  /** `test_remove_insert`. */
  lemma RemoveInsertExample()
    ensures RemoveInsertSeq([3, 8, 9, 1, 2, 5, 4, 6, 7], 1, 3, 2) == [3, 2, 8, 9, 1, 5, 4, 6, 7]
  {
    var c := [3, 8, 9, 1, 2, 5, 4, 6, 7];
    RemoveInsertWindow(c, 1, 2);
    var r := RemoveInsertSeq(c, 1, 3, 2);
    assert Off(1, 2) == 1;
    assert r[1] == c[4] && r[2] == c[1] && r[3] == c[2] && r[4] == c[3];
    assert r[5] == c[5] && r[6] == c[6] && r[7] == c[7] && r[8] == c[8] by {
      assert Wrap(1, 4, N) == 5 && Wrap(1, 5, N) == 6 && Wrap(1, 6, N) == 7 && Wrap(1, 7, N) == 8;
    }
    assert r[0] == c[0] by {
      assert Wrap(1, 8, N) == 0;
    }
  }

  // ---------------------------------------------------------------------
  // `move_once`

  /** On a ring, the destination found from the place after the three
      held cups is one of the five places from there round to the current
      cup: 3 to 7 places on from the first held cup. */
  lemma DestinationPlace(c: seq<nat>, current: nat)
    requires Ring(c) && current < N
    ensures SeqMin(c) >= 1
    ensures var removeStart := IndAdd(current, 1);
            var d := FindDestination(c, current, IndAdd(removeStart, NumRemove));
            d.Ok? && d.value < N && 3 <= Off(removeStart, d.value) < 8
  {
    var rs := IndAdd(current, 1);
    var retain := IndAdd(rs, NumRemove);
    DestinationFound(c, current, retain);
    var ps := IndSeq(retain, current, N);
    var d := FindDestination(c, current, retain).value;
    var k := SearchFound(c, ps, LabelSub(c, c[current]), N);
    var t :| 0 <= t < |ps| && ps[t] == d;
    RetainedPlaces(current, t);
  }

  /** The places searched for the destination: the five from the place
      after the held cups round to the current one, excluded. */
  lemma RetainedPlaces(current: nat, t: nat)
    requires current < N
    ensures var removeStart := IndAdd(current, 1);
            var ps := IndSeq(IndAdd(removeStart, NumRemove), current, N);
            |ps| == 5 && (t < 5 ==> ps[t] < N && Off(removeStart, ps[t]) == 3 + t)
  {
    var rs := IndAdd(current, 1);
    var retain := IndAdd(rs, NumRemove);
    WrapIndAdd(current, 1);
    WrapIndAdd(rs, NumRemove);
    ArcOnRing(retain, current);
    assert Off(retain, current) == 5;
    if t < 5 {
      var ps := IndSeq(retain, current, N);
      assert ps[t] == Wrap(retain, t, N) == Wrap(rs, 3 + t, N);
    }
  }

  /** The label at the destination: counting down from the current
      label, the labels tried before it are at none of the five places
      searched. */
  lemma DestinationLabel(c: seq<nat>, current: nat)
    requires Ring(c) && current < N
    ensures SeqMin(c) >= 1
    ensures var retainStart := IndAdd(IndAdd(current, 1), NumRemove);
            var ps := IndSeq(retainStart, current, N);
            var d := FindDestination(c, current, retainStart);
            d.Ok? &&
            exists k :: 0 <= k < N && c[d.value] == Down(c, LabelSub(c, c[current]), k) &&
                        forall j, t :: 0 <= j < k && 0 <= t < |ps| ==> c[ps[t]] != Down(c, LabelSub(c, c[current]), j)
  {
    var retain := IndAdd(IndAdd(current, 1), NumRemove);
    DestinationFound(c, current, retain);
    var ps := IndSeq(retain, current, N);
    var d := FindDestination(c, current, retain).value;
    var l0 := LabelSub(c, c[current]);
    var k := SearchFound(c, ps, l0, N);
    assert Some(d) == FindLabel(c, ps, Down(c, l0, k));
    assert c[d] == Down(c, l0, k);
  }

  /** Where `move_once` puts the held cups: when the destination is
      `3 + j` places on from the first held cup, they go from `j + 1`
      places on. */
  lemma MovePlaces(removeStart: nat, d: nat)
    requires removeStart < N && d < N && 3 <= Off(removeStart, d) < 8
    ensures var insertStart := IndSub(d + 1, NumRemove);
            insertStart < N && insertStart != removeStart &&
            Off(removeStart, insertStart) == Off(removeStart, d) - 2
  {
    var rs, j := removeStart, Off(removeStart, d) - 3;
    assert d == Wrap(rs, 3 + j, N);
    IndSubMod(d + 1, NumRemove);
    if rs + 3 + j < N {
      assert d + 1 - NumRemove == rs + j + 1;
    } else if rs + j + 1 < N {
      DivModUnique(d + 1 - NumRemove, N, -1, rs + j + 1);
    } else {
      assert d + 1 - NumRemove == rs + j + 1 - N;
    }
  }

  /** `move_once` on the cups as a sequence: the three cups after the
      current one are moved to right after the destination, and the next
      place becomes current. It panics when the destination search does,
      which needs a cup labelled 0; on a ring it never does. */
  function MoveOnceSeq(c: seq<nat>, current: nat): (r: Result<(seq<nat>, nat)>)
    requires |c| == N && current < N
    ensures c[current] == 0 ==> r.Panic?
    ensures r.Panic? ==> 0 in c
    ensures Ring(c) ==> r.Ok?
    ensures r.Ok? ==> |r.value.0| == N && r.value.1 == IndAdd(current, 1) && r.value.1 < N
  {
    var removeStart := IndAdd(current, 1);
    var retainStart := IndAdd(removeStart, NumRemove);
    RingLabelled(c);
    match FindDestination(c, current, retainStart)
    case Panic => Panic
    case Ok(destination) =>
      Ok((RemoveInsertSeq(c, removeStart, NumRemove, IndSub(destination + 1, NumRemove)), IndAdd(current, 1)))
  }

  /** A move keeps the ring's labels, leaves the current cup where it
      is, puts the destination cup right before the three held cups and
      the held cups, in their order, after it. */
  lemma MoveOnceEffect(c: seq<nat>, current: nat)
    requires Ring(c) && current < N
    ensures SeqMin(c) >= 1
    ensures FindDestination(c, current, IndAdd(IndAdd(current, 1), NumRemove)).Ok?
    ensures var c' := MoveOnceSeq(c, current).value.0;
            var removeStart := IndAdd(current, 1);
            var d := FindDestination(c, current, IndAdd(removeStart, NumRemove));
            var insertStart := IndSub(d.value + 1, NumRemove);
            Ring(c') && multiset(c') == multiset(c) &&
            c'[current] == c[current] &&
            c'[IndSub(insertStart, 1)] == c[d.value] &&
            forall i :: 0 <= i < NumRemove ==> c'[IndAdd(insertStart, i)] == c[IndAdd(removeStart, i)]
  {
    DestinationPlace(c, current);
    var rs := IndAdd(current, 1);
    var d := FindDestination(c, current, IndAdd(rs, NumRemove)).value;
    var ins := IndSub(d + 1, NumRemove);
    MoveOnceWith(c, current, d);
    var c' := RemoveInsertSeq(c, rs, NumRemove, ins);
    MoveSeqEffect(c, current, d);
    assert multiset(c') == multiset(c);
    assert Ring(c');
    assert c'[current] == c[current];
    assert c'[IndSub(ins, 1)] == c[d];
  }

  /** The move with the destination found at `d`. */
  lemma MoveOnceWith(c: seq<nat>, current: nat, d: nat)
    requires |c| == N && current < N
    requires FindDestination(c, current, IndAdd(IndAdd(current, 1), NumRemove)) == Ok(d)
    ensures MoveOnceSeq(c, current) ==
            Ok((RemoveInsertSeq(c, IndAdd(current, 1), NumRemove, IndSub(d + 1, NumRemove)), IndAdd(current, 1)))
  {
  }

  /** The move panics when its destination search does. */
  lemma MoveOncePanics(c: seq<nat>, current: nat)
    requires |c| == N && current < N
    requires FindDestination(c, current, IndAdd(IndAdd(current, 1), NumRemove)).Panic?
    ensures MoveOnceSeq(c, current) == Panic
  {
  }

  /** A move keeps the ring's labels. */
  lemma MoveKeepsRing(c: seq<nat>, current: nat)
    requires |c| == N && current < N
    ensures Ring(c) ==> MoveOnceSeq(c, current).Ok? && Ring(MoveOnceSeq(c, current).value.0)
  {
    if Ring(c) {
      MoveOnceEffect(c, current);
    }
  }

  /** The effect of `remove_insert` as `move_once` calls it, for a
      destination 3 to 7 places on from the first held cup. */
  lemma MoveSeqEffect(c: seq<nat>, current: nat, d: nat)
    requires |c| == N && current < N && d < N && 3 <= Off(IndAdd(current, 1), d) < 8
    ensures var removeStart := IndAdd(current, 1);
            var insertStart := IndSub(d + 1, NumRemove);
            var c' := RemoveInsertSeq(c, removeStart, NumRemove, insertStart);
            multiset(c') == multiset(c) && c'[current] == c[current] && c'[IndSub(insertStart, 1)] == c[d] &&
            forall i :: 0 <= i < NumRemove ==> c'[IndAdd(insertStart, i)] == c[IndAdd(removeStart, i)]
  {
    var rs := IndAdd(current, 1);
    var j := Off(rs, d) - 3;
    MovePlaces(rs, d);
    var ins := IndSub(d + 1, NumRemove);
    var c' := RemoveInsertSeq(c, rs, NumRemove, ins);
    RemoveInsertWindow(c, rs, ins);
    RemoveInsertHeld(c, rs, ins);
    WindowPermutes(c, c', rs, j + 1);
    CurrentStays(c, current, ins);
    DestinationBefore(c, rs, d, ins);
  }

  lemma CurrentStays(c: seq<nat>, current: nat, insertStart: nat)
    requires |c| == N && current < N && insertStart < N
    requires var rs := IndAdd(current, 1);
             insertStart != rs && 1 <= Off(rs, insertStart) <= 5
    ensures RemoveInsertSeq(c, IndAdd(current, 1), NumRemove, insertStart)[current] == c[current]
  {
    var rs := IndAdd(current, 1);
    WrapIndAdd(current, 1);
    assert Wrap(rs, 8, N) == current;
    WindowAt(c, rs, insertStart, 8);
  }

  lemma DestinationBefore(c: seq<nat>, rs: nat, d: nat, insertStart: nat)
    requires |c| == N && rs < N && d < N && insertStart < N && 3 <= Off(rs, d) < 8
    requires insertStart != rs && Off(rs, insertStart) == Off(rs, d) - 2
    ensures RemoveInsertSeq(c, rs, NumRemove, insertStart)[IndSub(insertStart, 1)] == c[d]
  {
    var j := Off(rs, d) - 3;
    WindowAt(c, rs, insertStart, j);
    assert Window(j, j + 1) == j + 3;
    assert insertStart == Wrap(rs, j + 1, N);
    StepBack(rs, j + 1);
  }

  /** One place back from `o` places on is `o - 1` places on. */
  lemma StepBack(base: nat, o: nat)
    requires base < N && 1 <= o < N
    ensures IndSub(Wrap(base, o, N), 1) == Wrap(base, o - 1, N)
  {
    var x := Wrap(base, o, N);
    WrapIndAdd(x, N - 1);
  }

  /** The search ends at the first label that is at one of the places. */
  lemma {:induction false} SearchAt(c: seq<nat>, ps: seq<nat>, lab: nat, fuel: nat, k: nat, p: nat)
    requires |c| > 0 && lab >= 1 && SeqMin(c) >= 1 && k < fuel
    requires forall i :: 0 <= i < |ps| ==> ps[i] < |c|
    requires forall j :: 0 <= j < k ==> FindLabel(c, ps, Down(c, lab, j)).None?
    requires FindLabel(c, ps, Down(c, lab, k)) == Some(p)
    ensures Search(c, ps, lab, fuel) == Ok(Some(p))
    decreases k
  {
    assert Down(c, lab, 0) == lab;
    if k > 0 {
      var lower := LabelSub(c, lab);
      assert forall j :: 0 <= j ==> Down(c, lower, j) == Down(c, lab, j + 1);
      SearchAt(c, ps, lower, fuel - 1, k - 1, p);
    }
  }

  /** On a ring, `j` steps of `destination_label_sub` after the first go
      `j + 1` labels below. */
  lemma DownBelow(c: seq<nat>, lab: nat, j: nat)
    requires Ring(c) && 1 <= lab <= 9 && j < 9
    ensures SeqMin(c) >= 1 && LabelSub(c, lab) >= 1
    ensures Down(c, LabelSub(c, lab), j) == Below(lab, j + 1)
  {
    LabelSubRing(c, lab);
    DownRing(c, LabelSub(c, lab), j);
  }

  /** One of the three cups after the current one has this label. */
  predicate Held(c: seq<nat>, current: nat, lab: int)
    requires |c| == N
  {
    lab == c[IndAdd(current, 1)] || lab == c[IndAdd(current, 2)] || lab == c[IndAdd(current, 3)]
  }

  /** On a ring, the destination is the place `p` searched whose label is
      `k + 1` below the current one, when the labels 1 to `k` below it are
      all held. */
  lemma DestinationIs(c: seq<nat>, current: nat, k: nat, p: nat)
    requires Ring(c) && current < N && p < N && k < N
    requires 3 <= Off(IndAdd(current, 1), p) < 8
    requires c[p] == Below(c[current], k + 1)
    requires forall j :: 1 <= j <= k ==> Held(c, current, Below(c[current], j))
    ensures SeqMin(c) >= 1
    ensures FindDestination(c, current, IndAdd(IndAdd(current, 1), NumRemove)) == Ok(p)
  {
    RingFacts(c);
    var rs := IndAdd(current, 1);
    DestinationFound(c, current, IndAdd(rs, NumRemove));
    var ps := IndSeq(IndAdd(rs, NumRemove), current, N);
    var l0 := LabelSub(c, c[current]);
    LabelSubRing(c, c[current]);
    RetainedPlaces(current, Off(rs, p) - 3);
    forall j | 0 <= j <= k
      ensures Down(c, l0, j) == Below(c[current], j + 1)
    {
      DownBelow(c, c[current], j);
    }
    forall j | 0 <= j < k
      ensures FindLabel(c, ps, Down(c, l0, j)).None?
    {
      HeldNotSearched(c, current, Down(c, l0, j));
    }
    FoundAt(c, current, p);
    SearchAt(c, ps, l0, N, k, p);
  }

  /** A held label is at none of the places searched. */
  lemma HeldNotSearched(c: seq<nat>, current: nat, lab: nat)
    requires Ring(c) && current < N && Held(c, current, lab)
    ensures FindLabel(c, IndSeq(IndAdd(IndAdd(current, 1), NumRemove), current, N), lab).None?
  {
    RingFacts(c);
    var ps := IndSeq(IndAdd(IndAdd(current, 1), NumRemove), current, N);
    HeldPlacesOff(current);
    forall t | 0 <= t < |ps|
      ensures c[ps[t]] != lab
    {
      RetainedPlaces(current, t);
    }
  }

  /** A label at a place searched is found there. */
  lemma FoundAt(c: seq<nat>, current: nat, p: nat)
    requires Ring(c) && current < N && p < N && 3 <= Off(IndAdd(current, 1), p) < 8
    ensures FindLabel(c, IndSeq(IndAdd(IndAdd(current, 1), NumRemove), current, N), c[p]) == Some(p)
  {
    RingFacts(c);
    var rs := IndAdd(current, 1);
    var ps := IndSeq(IndAdd(rs, NumRemove), current, N);
    var t := Off(rs, p) - 3;
    RetainedPlaces(current, t);
    assert ps[t] == p;
    var r := FindLabel(c, ps, c[p]);
    var i :| 0 <= i < |ps| && ps[i] == r.value && c[ps[i]] == c[p];
    RetainedPlaces(current, i);
  }

  /** The three held places are 0 to 2 places on from the first of them. */
  lemma HeldPlacesOff(current: nat)
    requires current < N
    ensures forall i :: 1 <= i <= 3 ==> IndAdd(current, i) < N && Off(IndAdd(current, 1), IndAdd(current, i)) == i - 1
  {
    forall i | 1 <= i <= 3
      ensures Off(IndAdd(current, 1), IndAdd(current, i)) == i - 1
    {
      WrapIndAdd(current, 1);
      WrapIndAdd(current, i);
    }
  }

  /** A move whose destination is the place `p`, found at the `k + 1`-th
      label below the current one: the ring turns the stretch from the
      first held cup to the destination as `Window` says. */
  lemma MoveOnceTo(c: seq<nat>, current: nat, k: nat, p: nat, span: nat)
    requires Ring(c) && current < N && p < N && k < N
    requires 1 <= span <= 5 && Off(IndAdd(current, 1), p) == span + 2
    requires c[p] == Below(c[current], k + 1)
    requires forall j :: 1 <= j <= k ==> Held(c, current, Below(c[current], j))
    ensures var removeStart := IndAdd(current, 1);
            forall o :: 0 <= o < N ==>
              MoveOnceSeq(c, current).value.0[Wrap(removeStart, o, N)] ==
              c[Wrap(removeStart, Window(o, span), N)]
  {
    DestinationIs(c, current, k, p);
    var rs := IndAdd(current, 1);
    MovePlaces(rs, p);
    var ins := IndSub(p + 1, NumRemove);
    MoveOnceWith(c, current, p);
    RemoveInsertWindow(c, rs, ins);
    var r := RemoveInsertSeq(c, rs, NumRemove, ins);
    assert Off(rs, ins) == span;
    forall o | 0 <= o < N
      ensures r[Wrap(rs, o, N)] == c[Wrap(rs, Window(o, span), N)]
    {
    }
  }

  // ---------------------------------------------------------------------
  // Many moves, and the labels after cup 1

  /** `n` moves from the cups `c` with the current place `current`; a
      move that panics ends them. From a ring every move succeeds and the
      cups stay a ring. */
  function Moves(c: seq<nat>, current: nat, n: nat): (r: Result<(seq<nat>, nat)>)
    requires |c| == N && current < N
    ensures r.Ok? ==> |r.value.0| == N && r.value.1 < N
    ensures Ring(c) ==> r.Ok? && Ring(r.value.0)
  {
    if n == 0 then Ok((c, current))
    else
      match Moves(c, current, n - 1)
      case Panic => Panic
      case Ok(p) =>
        MoveKeepsRing(p.0, p.1);
        MoveOnceSeq(p.0, p.1)
  }

  /** Once a move panics, so does every longer run of moves. */
  lemma {:induction false} MovesPanicStays(c: seq<nat>, current: nat, i: nat, n: nat)
    requires |c| == N && current < N && i <= n
    requires Moves(c, current, i).Panic?
    ensures Moves(c, current, n).Panic?
    decreases n - i
  {
    if i < n {
      MovesPanicStays(c, current, i + 1, n);
    }
  }

  /** `.iter().enumerate().find(|(_, c)| **c == 1)`: the first place
      holding `lab`. */
  function PlaceOf(c: seq<nat>, lab: nat): (r: Option<nat>)
    ensures r.None? <==> lab !in c
    ensures r.Some? ==> r.value < |c| && c[r.value] == lab && forall j :: 0 <= j < r.value ==> c[j] != lab
  {
    if c == [] then None
    else if c[0] == lab then Some(0)
    else
      match PlaceOf(c[1..], lab)
      case None => None
      case Some(i) => Some(i + 1)
  }

  /** `(cups[i] + '0' as u8) as char`: a `u8` addition, which panics past
      255. */
  predicate DigitFits(lab: nat)
  {
    lab + 48 < 256
  }

  /** The character with code `lab + 48`: the digit for a label below 10. */
  function Digit(lab: nat): (ch: char)
    requires DigitFits(lab)
    ensures ch as int == lab + 48
  {
    (lab + 48) as char
  }

  /** The characters for the labels at the places `ps`. */
  function Digits(c: seq<nat>, ps: seq<nat>): (s: string)
    requires forall i :: 0 <= i < |ps| ==> ps[i] < |c| && DigitFits(c[ps[i]])
    ensures |s| == |ps| && forall i :: 0 <= i < |ps| ==> s[i] == Digit(c[ps[i]])
  {
    seq(|ps|, i requires 0 <= i < |ps| => Digit(c[ps[i]]))
  }

  /** `num_string`: the labels clockwise after cup 1, as characters.
      Without a cup 1 the `unwrap` panics; so does a label whose character
      code overflows a byte. */
  function NumStringOf(c: seq<nat>): (r: Result<string>)
    requires |c| == N
  {
    match PlaceOf(c, 1)
    case None => Panic
    case Some(one) =>
      var ps := IndSeq(IndAdd(one, 1), one, N);
      if exists i :: 0 <= i < |ps| && !DigitFits(c[ps[i]]) then Panic
      else Ok(Digits(c, ps))
  }

  /** On a ring the labels after cup 1 are the eight others: the `i`-th
      character is the label `i + 1` places on from cup 1. */
  lemma NumStringRing(c: seq<nat>)
    requires Ring(c)
    ensures 1 in c && PlaceOf(c, 1).Some?
    ensures NumStringOf(c).Ok? && |NumStringOf(c).value| == N - 1
    ensures forall i :: 0 <= i < N - 1 ==>
              NumStringOf(c).value[i] as int == c[IndAdd(PlaceOf(c, 1).value, i + 1)] + 48
  {
    RingFacts(c);
    var one := PlaceOf(c, 1).value;
    var start := IndAdd(one, 1);
    var ps := IndSeq(start, one, N);
    WrapIndAdd(one, 1);
    ArcOnRing(start, one);
    assert |ps| == N - 1;
    forall i | 0 <= i < N - 1
      ensures ps[i] == IndAdd(one, i + 1) && DigitFits(c[ps[i]])
    {
      WrapIndAdd(start, i);
      WrapIndAdd(one, i + 1);
    }
    assert !exists i :: 0 <= i < |ps| && !DigitFits(c[ps[i]]);
    assert NumStringOf(c) == Ok(Digits(c, ps));
  }

  /** The missing cup: without a cup 1, `num_string` panics. */
  lemma NumStringNoOne(c: seq<nat>)
    requires |c| == N && 1 !in c
    ensures NumStringOf(c) == Panic
  {
  }

  // ---------------------------------------------------------------------
  // `CupRing`

  /** `CupRing`: the nine labels in a fixed array, and the current
      place. */
  class CupRing {
    var cups: array<nat>
    var current: nat

    predicate Valid()
      reads this, cups
    {
      cups.Length == N && current < N
    }

    /** `CupRing::new(ordering)`: the first cup is current. */
    constructor (ordering: seq<nat>)
      requires |ordering| == N
      ensures Valid() && fresh(cups) && cups[..] == ordering && current == 0
    {
      cups := new nat[N](i requires 0 <= i < N => ordering[i]);
      current := 0;
      new;
      assert cups[..] == ordering;
    }

    /** The `find` in `find_destination_index`: the first of the places
        from `retain_start` round to the current one that holds `lab`. */
    method FindIndex(retainStart: nat, lab: nat) returns (r: Option<nat>)
      requires Valid()
      ensures r == FindLabel(cups[..], IndSeq(retainStart, current, N), lab)
    {
      var it := new IndIter.From(retainStart, current, N);
      while true
        invariant it.Valid() && it.max == N
        invariant FindLabel(cups[..], it.Remaining(), lab) == FindLabel(cups[..], IndSeq(retainStart, current, N), lab)
        decreases |it.Remaining()|
      {
        var x := it.Next();
        if x.None? {
          return None;
        }
        if cups[x.value] == lab {
          return x;
        }
      }
    }

    /** `find_destination_index(retain_start)`: the place
        `FindDestination` names, or its panic. */
    method FindDestinationIndex(retainStart: nat) returns (r: Result<nat>)
      requires Valid()
      ensures r == FindDestination(cups[..], current, retainStart)
    {
      if cups[current] == 0 {
        return Panic;
      }
      ghost var c := cups[..];
      ghost var ps := IndSeq(retainStart, current, N);
      ghost var fuel := SeqMax(c) - SeqMin(c) + 1;
      var lab := LabelSub(cups[..], cups[current]);
      SearchEnds(c, ps, lab, fuel);
      ghost var k: nat := 0;
      while true
        invariant k <= fuel
        invariant Search(c, ps, lab, fuel - k) != Ok(None)
        invariant FindDestination(c, current, retainStart) ==
                  match Search(c, ps, lab, fuel - k)
                  case Panic => Panic
                  case Ok(o) => if o.Some? then Ok(o.value) else Panic
        decreases fuel - k
      {
        var found := FindIndex(retainStart, lab);
        if found.Some? {
          return Ok(found.value);
        }
        if lab == 0 {
          return Panic;
        }
        lab := LabelSub(cups[..], lab);
        k := k + 1;
      }
    }

    /** `remove_insert(remove_start, num_remove, insert_start)`: its
        three loops are `Hold`, `ShiftBack` and `PutDown`. */
    method RemoveInsert(removeStart: nat, numRemove: nat, insertStart: nat)
      requires Valid()
      modifies cups
      ensures Valid()
      ensures cups[..] == RemoveInsertSeq(old(cups[..]), removeStart, numRemove, insertStart)
    {
      var holding := Hold(removeStart, numRemove);
      ShiftBack(removeStart, numRemove, insertStart);
      PutDown(insertStart, holding);
    }

    /** The first loop of `remove_insert`: the `num_remove` cups from
        `remove_start` on, read along the places the iterator yields. */
    method Hold(removeStart: nat, numRemove: nat) returns (holding: seq<nat>)
      requires Valid()
      ensures holding == Places(cups[..], IndSeq(removeStart, removeStart + numRemove, N))
    {
      var ps := Collect(removeStart, removeStart + numRemove, N);
      holding := [];
      for i := 0 to |ps|
        invariant holding == Places(cups[..], ps[..i])
      {
        PlacesSnoc(cups[..], ps[..i], ps[i]);
        assert ps[..i + 1] == ps[..i] + [ps[i]];
        holding := holding + [cups[ps[i]]];
      }
      assert ps[..|ps|] == ps;
    }

    /** The second loop of `remove_insert`: each place from
        `remove_start` up to `insert_start`, in the order the iterator
        yields them, takes the cup `num_remove` places on. */
    method ShiftBack(removeStart: nat, numRemove: nat, insertStart: nat)
      requires Valid()
      modifies cups
      ensures Valid()
      ensures cups[..] == ShiftLeft(old(cups[..]), IndSeq(removeStart, insertStart, N), numRemove)
    {
      ghost var c := cups[..];
      var ps := Collect(removeStart, insertStart, N);
      for i := 0 to |ps|
        invariant cups[..] == ShiftLeft(c, ps[..i], numRemove)
      {
        var leftward := ps[i];
        ShiftPrefix(c, ps, i, numRemove);
        ghost var d := cups[..];
        cups[leftward] := cups[IndAdd(leftward, numRemove)];
        assert cups[..] == d[leftward := d[IndAdd(leftward, numRemove)]];
      }
      assert ps[..|ps|] == ps;
    }

    /** The third loop of `remove_insert`: the held cups go down, in
        order, from `insert_start` on. */
    method PutDown(insertStart: nat, holding: seq<nat>)
      requires Valid()
      modifies cups
      ensures Valid()
      ensures cups[..] == Place(old(cups[..]), insertStart, holding)
    {
      ghost var d := cups[..];
      for i := 0 to |holding|
        invariant cups[..] == Place(d, insertStart, holding[..i])
      {
        PlaceSnoc(d, insertStart, holding, i);
        var p := IndAdd(insertStart, i);
        ghost var before := cups[..];
        cups[p] := holding[i];
        assert cups[..] == before[p := holding[i]];
      }
      assert holding[..|holding|] == holding;
    }

    /** `move_once`: one move as `MoveOnceSeq` says; a panic in the
        destination search leaves the cups as they were. */
    method MoveOnce() returns (r: Result<()>)
      requires Valid()
      modifies this, cups
      ensures Valid() && cups == old(cups)
      ensures r.Panic? <==> MoveOnceSeq(old(cups[..]), old(current)).Panic?
      ensures r.Panic? ==> unchanged(this) && unchanged(cups)
      ensures r.Ok? ==> MoveOnceSeq(old(cups[..]), old(current)) == Ok((cups[..], current))
    {
      ghost var c, cur := cups[..], current;
      var retainStart := IndAdd(IndAdd(current, 1), NumRemove);
      var destination := FindDestinationIndex(retainStart);
      if destination.Panic? {
        MoveOncePanics(c, cur);
        return Panic;
      }
      MoveTo(destination.value);
      return Ok(());
    }

    /** The rest of `move_once` once the destination is found: move the
        three cups after the current one to just after the destination,
        and make the next cup current. */
    method MoveTo(destination: nat)
      requires Valid()
      requires FindDestination(cups[..], current, IndAdd(IndAdd(current, 1), NumRemove)) == Ok(destination)
      modifies this, cups
      ensures Valid() && cups == old(cups)
      ensures MoveOnceSeq(old(cups[..]), old(current)) == Ok((cups[..], current))
    {
      MoveOnceWith(cups[..], current, destination);
      RemoveInsert(IndAdd(current, 1), NumRemove, IndSub(destination + 1, NumRemove));
      current := IndAdd(current, 1);
    }

    /** `num_string`. */
    method NumString() returns (r: Result<string>)
      requires Valid()
      ensures r == NumStringOf(cups[..])
    {
      var one := 0;
      while one < N && cups[one] != 1
        invariant one <= N && forall j :: 0 <= j < one ==> cups[j] != 1
      {
        one := one + 1;
      }
      if one == N {
        return Panic;
      }
      ghost var c := cups[..];
      assert PlaceOf(c, 1) == Some(one) by {
        PlaceUnique(c, 1, one);
      }
      var ps := Collect(IndAdd(one, 1), one, N);
      var s: string := [];
      for i := 0 to |ps|
        invariant |s| == i
        invariant forall j :: 0 <= j < i ==> DigitFits(c[ps[j]]) && s[j] == Digit(c[ps[j]])
      {
        if !DigitFits(cups[ps[i]]) {
          return Panic;
        }
        s := s + [Digit(cups[ps[i]])];
      }
      assert !exists i :: 0 <= i < |ps| && !DigitFits(c[ps[i]]);
      assert s == Digits(c, ps);
      return Ok(s);
    }
  }

  /** One more place for `Places`, `ShiftLeft` and `Place`. */
  lemma PlacesSnoc(c: seq<nat>, ps: seq<nat>, x: nat)
    requires x < |c| && forall i :: 0 <= i < |ps| ==> ps[i] < |c|
    ensures Places(c, ps + [x]) == Places(c, ps) + [c[x]]
  {
  }

  lemma ShiftSnoc(c: seq<nat>, ps: seq<nat>, x: nat, k: nat)
    requires |c| == N && x < N && forall i :: 0 <= i < |ps| ==> ps[i] < N
    ensures var d := ShiftLeft(c, ps, k);
            ShiftLeft(c, ps + [x], k) == d[x := d[IndAdd(x, k)]]
  {
    assert (ps + [x])[..|ps|] == ps;
  }

  /** One more place of `ps` shifts one more cup. */
  lemma ShiftPrefix(c: seq<nat>, ps: seq<nat>, i: nat, k: nat)
    requires |c| == N && i < |ps| && forall j :: 0 <= j < |ps| ==> ps[j] < N
    ensures var d := ShiftLeft(c, ps[..i], k);
            ShiftLeft(c, ps[..i + 1], k) == d[ps[i] := d[IndAdd(ps[i], k)]]
  {
    assert ps[..i + 1] == ps[..i] + [ps[i]];
    ShiftSnoc(c, ps[..i], ps[i], k);
  }

  lemma PlaceSnoc(c: seq<nat>, from: nat, h: seq<nat>, i: nat)
    requires |c| == N && i < |h|
    ensures Place(c, from, h[..i + 1]) == Place(c, from, h[..i])[IndAdd(from, i) := h[i]]
  {
    assert h[..i + 1][..i] == h[..i];
  }

  /** The first place holding `lab` is `i` when `i` holds it and no place
      before does. */
  lemma PlaceUnique(c: seq<nat>, lab: nat, i: nat)
    requires i < |c| && c[i] == lab && forall j :: 0 <= j < i ==> c[j] != lab
    ensures PlaceOf(c, lab) == Some(i)
  {
  }

  /** The number of moves `solve_1` makes. */
  const Part1Moves: nat := 100

  /** `solve_1`: a hundred moves from the first cup, then the labels after
      cup 1. On a ring nothing panics. */
  method Solve1(ordering: seq<nat>) returns (r: Result<string>)
    requires |ordering| == N
    ensures r == match Moves(ordering, 0, Part1Moves)
                 case Panic => Panic
                 case Ok(m) => NumStringOf(m.0)
    ensures Ring(ordering) ==> r.Ok?
  {
    var ring := new CupRing(ordering);
    for i := 0 to Part1Moves
      invariant fresh(ring.cups) && ring.Valid()
      invariant Moves(ordering, 0, i) == Ok((ring.cups[..], ring.current))
    {
      var moved := ring.MoveOnce();
      if moved.Panic? {
        MovesPanicStays(ordering, 0, i + 1, Part1Moves);
        return Panic;
      }
    }
    r := ring.NumString();
    if Ring(ordering) {
      NumStringRing(ring.cups[..]);
    }
  }

  // ---------------------------------------------------------------------
  // The moves of `test_moves`

  /** `e` is `c` with the stretch from `base` rearranged as `Window`
      says. */
  predicate Rearranged(e: seq<nat>, c: seq<nat>, base: nat, span: nat)
    requires |e| == N && |c| == N && base < N && span <= 5
  {
    forall o :: 0 <= o < N ==> e[Wrap(base, o, N)] == c[Wrap(base, Window(o, span), N)]
  }

  /** The place `o` on from `base` is rearranged as `Window` says. */
  predicate AgreesAt(e: seq<nat>, c: seq<nat>, base: nat, span: nat, o: nat)
    requires |e| == N && |c| == N && base < N && span <= 5 && o < N
  {
    e[Wrap(base, o, N)] == c[Wrap(base, Window(o, span), N)]
  }

  /** `Rearranged`, place by place. */
  lemma RearrangedByPlaces(e: seq<nat>, c: seq<nat>, base: nat, span: nat)
    requires |e| == N && |c| == N && base < N && span <= 5
    requires AgreesAt(e, c, base, span, 0) && AgreesAt(e, c, base, span, 1) && AgreesAt(e, c, base, span, 2)
    requires AgreesAt(e, c, base, span, 3) && AgreesAt(e, c, base, span, 4) && AgreesAt(e, c, base, span, 5)
    requires AgreesAt(e, c, base, span, 6) && AgreesAt(e, c, base, span, 7) && AgreesAt(e, c, base, span, 8)
    ensures Rearranged(e, c, base, span)
  {
    forall o | 0 <= o < N
      ensures AgreesAt(e, c, base, span, o)
    {
    }
  }

  /** Two rearrangements of the same cups in the same way are equal. */
  lemma RearrangedUnique(e: seq<nat>, f: seq<nat>, c: seq<nat>, base: nat, span: nat)
    requires |e| == N && |f| == N && |c| == N && base < N && span <= 5
    requires Rearranged(e, c, base, span) && Rearranged(f, c, base, span)
    ensures e == f
  {
    forall x | 0 <= x < N
      ensures e[x] == f[x]
    {
      assert Wrap(base, Off(base, x), N) == x;
    }
  }

  /** What makes the move from `c` give `e`: the destination `p` holds
      the `k + 1`-th label below the current one, the labels above it are
      held, and `e` is `c` rearranged, place by place, as `Window` says
      for a destination `span + 2` places after the first held cup. */
  predicate MoveFacts(c: seq<nat>, e: seq<nat>, current: nat, k: nat, p: nat, span: nat)
    requires |c| == N && |e| == N && current < N && p < N
  {
    var b := IndAdd(current, 1);
    k < N && 1 <= span <= 5 && Off(b, p) == span + 2 &&
    c[p] == Below(c[current], k + 1) &&
    (forall j :: 1 <= j <= k ==> Held(c, current, Below(c[current], j))) &&
    AgreesAt(e, c, b, span, 0) && AgreesAt(e, c, b, span, 1) && AgreesAt(e, c, b, span, 2) &&
    AgreesAt(e, c, b, span, 3) && AgreesAt(e, c, b, span, 4) && AgreesAt(e, c, b, span, 5) &&
    AgreesAt(e, c, b, span, 6) && AgreesAt(e, c, b, span, 7) && AgreesAt(e, c, b, span, 8)
  }

  /** The move from a ring `c` with those facts gives `e`. */
  lemma MoveOnceGives(c: seq<nat>, current: nat, k: nat, p: nat, span: nat, e: seq<nat>)
    requires Ring(c) && |e| == N && current < N && p < N
    requires MoveFacts(c, e, current, k, p, span)
    ensures MoveOnceSeq(c, current).Ok? && MoveOnceSeq(c, current).value.0 == e
  {
    RearrangedByPlaces(e, c, IndAdd(current, 1), span);
    MoveOnceTo(c, current, k, p, span);
    RearrangedUnique(MoveOnceSeq(c, current).value.0, e, c, IndAdd(current, 1), span);
  }

  /** The places hold the labels `l0` to `l8`, in order. */
  predicate Labelled(c: seq<nat>, l0: nat, l1: nat, l2: nat, l3: nat, l4: nat, l5: nat, l6: nat, l7: nat, l8: nat)
  {
    |c| == N && c[0] == l0 && c[1] == l1 && c[2] == l2 && c[3] == l3 && c[4] == l4 &&
    c[5] == l5 && c[6] == l6 && c[7] == l7 && c[8] == l8
  }

  /** `Labelled` is the sequence of those labels. */
  lemma LabelledSeq(c: seq<nat>, l0: nat, l1: nat, l2: nat, l3: nat, l4: nat, l5: nat, l6: nat, l7: nat, l8: nat)
    requires Labelled(c, l0, l1, l2, l3, l4, l5, l6, l7, l8)
    ensures c == [l0, l1, l2, l3, l4, l5, l6, l7, l8]
  {
  }

  /** The starting cups of `test_moves` form a ring. */
  lemma ExampleRing(c: seq<nat>)
    requires Labelled(c, 3, 8, 9, 1, 2, 5, 4, 6, 7)
    ensures Ring(c)
  {
    assert c[3] == 1 && c[4] == 2 && c[0] == 3 && c[6] == 4 && c[5] == 5;
    assert c[7] == 6 && c[8] == 7 && c[1] == 8 && c[2] == 9;
    HasEveryLabel(c);
  }

  /** `test_find_destination`, first case: from 3 8 9 1 2 5 4 6 7 the
      destination of the first move is place 4, label 2. */
  lemma ExampleFindDestination1(c: seq<nat>)
    requires Ring(c) && Labelled(c, 3, 8, 9, 1, 2, 5, 4, 6, 7)
    ensures SeqMin(c) >= 1
    ensures FindDestination(c, 0, 4) == Ok(4)
  {
    DestinationIs(c, 0, 0, 4);
  }

  /** `test_find_destination`, second case: from 3 2 8 9 1 5 4 6 7,
      searching places 5 to 8, labels 2, 1, 9 and 8 are not there and 7
      is, at place 8. */
  lemma ExampleFindDestination2(c: seq<nat>)
    requires Ring(c) && Labelled(c, 3, 2, 8, 9, 1, 5, 4, 6, 7)
    ensures SeqMin(c) >= 1
    ensures FindDestination(c, 0, 5) == Ok(8)
  {
    var ps := IndSeq(5, 0, N);
    LabelSubRing(c, 3);
    var l0 := LabelSub(c, 3);
    ExampleSearched(c, ps);
    forall j | 0 <= j <= 4
      ensures Down(c, l0, j) == Below(2, j)
    {
      DownRing(c, l0, j);
    }
    SearchAt(c, ps, l0, N, 4, 8);
    DestinationFound(c, 0, 5);
  }

  /** The labels at places 5 to 8 of 3 2 8 9 1 5 4 6 7. */
  lemma ExampleSearched(c: seq<nat>, ps: seq<nat>)
    requires Labelled(c, 3, 2, 8, 9, 1, 5, 4, 6, 7) && ps == IndSeq(5, 0, N)
    ensures forall i :: 0 <= i < |ps| ==> ps[i] < |c|
    ensures forall j :: 0 <= j < 4 ==> FindLabel(c, ps, Below(2, j) as nat).None?
    ensures FindLabel(c, ps, Below(2, 4) as nat) == Some(8)
  {
    ArcOnRing(5, 0);
    assert ps == [5, 6, 7, 8];
    ExampleFindLabels(c, ps);
  }

  lemma ExampleFindLabels(c: seq<nat>, ps: seq<nat>)
    requires Labelled(c, 3, 2, 8, 9, 1, 5, 4, 6, 7) && ps == [5, 6, 7, 8]
    ensures forall j :: 0 <= j < 4 ==> FindLabel(c, ps, Below(2, j) as nat).None?
    ensures FindLabel(c, ps, Below(2, 4) as nat) == Some(8)
  {
    assert Below(2, 4) == 7 && c[8] == 7;
    assert ps[1..] == [6, 7, 8] && ps[1..][1..] == [7, 8] && ps[1..][1..][1..] == [8];
    assert FindLabel(c, [8], 7) == Some(8);
    assert FindLabel(c, [7, 8], 7) == Some(8);
    assert FindLabel(c, [6, 7, 8], 7) == Some(8);
  }

  /** Move 1 of `test_moves`: the current cup is at place 0; no held label is skipped; the
      destination is at place 4. */
  lemma ExampleMove1(c: seq<nat>)
    requires Ring(c) && Labelled(c, 3, 8, 9, 1, 2, 5, 4, 6, 7)
    ensures MoveOnceSeq(c, 0).Ok? && Labelled(MoveOnceSeq(c, 0).value.0, 3, 2, 8, 9, 1, 5, 4, 6, 7)
  {
    var e := [3, 2, 8, 9, 1, 5, 4, 6, 7];
    ExampleFacts1(c, e);
    MoveOnceGives(c, 0, 0, 4, 1, e);
  }

  lemma ExampleFacts1(c: seq<nat>, e: seq<nat>)
    requires Labelled(c, 3, 8, 9, 1, 2, 5, 4, 6, 7) && e == [3, 2, 8, 9, 1, 5, 4, 6, 7]
    ensures MoveFacts(c, e, 0, 0, 4, 1)
  {
  }

  /** Move 2 of `test_moves`: the current cup is at place 1; 3 held labels are skipped; the
      destination is at place 8. */
  lemma ExampleMove2(c: seq<nat>)
    requires Ring(c) && Labelled(c, 3, 2, 8, 9, 1, 5, 4, 6, 7)
    ensures MoveOnceSeq(c, 1).Ok? && Labelled(MoveOnceSeq(c, 1).value.0, 3, 2, 5, 4, 6, 7, 8, 9, 1)
  {
    var e := [3, 2, 5, 4, 6, 7, 8, 9, 1];
    ExampleFacts2(c, e);
    MoveOnceGives(c, 1, 3, 8, 4, e);
  }

  lemma ExampleFacts2(c: seq<nat>, e: seq<nat>)
    requires Labelled(c, 3, 2, 8, 9, 1, 5, 4, 6, 7) && e == [3, 2, 5, 4, 6, 7, 8, 9, 1]
    ensures MoveFacts(c, e, 1, 3, 8, 4)
  {
  }

  /** Move 3 of `test_moves`: the current cup is at place 2; 1 held label is skipped; the
      destination is at place 0. */
  lemma ExampleMove3(c: seq<nat>)
    requires Ring(c) && Labelled(c, 3, 2, 5, 4, 6, 7, 8, 9, 1)
    ensures MoveOnceSeq(c, 2).Ok? && Labelled(MoveOnceSeq(c, 2).value.0, 7, 2, 5, 8, 9, 1, 3, 4, 6)
  {
    var e := [7, 2, 5, 8, 9, 1, 3, 4, 6];
    ExampleFacts3(c, e);
    MoveOnceGives(c, 2, 1, 0, 4, e);
  }

  lemma ExampleFacts3(c: seq<nat>, e: seq<nat>)
    requires Labelled(c, 3, 2, 5, 4, 6, 7, 8, 9, 1) && e == [7, 2, 5, 8, 9, 1, 3, 4, 6]
    ensures MoveFacts(c, e, 2, 1, 0, 4)
  {
  }

  /** Move 4 of `test_moves`: the current cup is at place 3; no held label is skipped; the
      destination is at place 0. */
  lemma ExampleMove4(c: seq<nat>)
    requires Ring(c) && Labelled(c, 7, 2, 5, 8, 9, 1, 3, 4, 6)
    ensures MoveOnceSeq(c, 3).Ok? && Labelled(MoveOnceSeq(c, 3).value.0, 3, 2, 5, 8, 4, 6, 7, 9, 1)
  {
    var e := [3, 2, 5, 8, 4, 6, 7, 9, 1];
    ExampleFacts4(c, e);
    MoveOnceGives(c, 3, 0, 0, 3, e);
  }

  lemma ExampleFacts4(c: seq<nat>, e: seq<nat>)
    requires Labelled(c, 7, 2, 5, 8, 9, 1, 3, 4, 6) && e == [3, 2, 5, 8, 4, 6, 7, 9, 1]
    ensures MoveFacts(c, e, 3, 0, 0, 3)
  {
  }

  /** Move 5 of `test_moves`: the current cup is at place 4; no held label is skipped; the
      destination is at place 0. */
  lemma ExampleMove5(c: seq<nat>)
    requires Ring(c) && Labelled(c, 3, 2, 5, 8, 4, 6, 7, 9, 1)
    ensures MoveOnceSeq(c, 4).Ok? && Labelled(MoveOnceSeq(c, 4).value.0, 9, 2, 5, 8, 4, 1, 3, 6, 7)
  {
    var e := [9, 2, 5, 8, 4, 1, 3, 6, 7];
    ExampleFacts5(c, e);
    MoveOnceGives(c, 4, 0, 0, 2, e);
  }

  lemma ExampleFacts5(c: seq<nat>, e: seq<nat>)
    requires Labelled(c, 3, 2, 5, 8, 4, 6, 7, 9, 1) && e == [9, 2, 5, 8, 4, 1, 3, 6, 7]
    ensures MoveFacts(c, e, 4, 0, 0, 2)
  {
  }

  /** Move 6 of `test_moves`: the current cup is at place 5; no held label is skipped; the
      destination is at place 0. */
  lemma ExampleMove6(c: seq<nat>)
    requires Ring(c) && Labelled(c, 9, 2, 5, 8, 4, 1, 3, 6, 7)
    ensures MoveOnceSeq(c, 5).Ok? && Labelled(MoveOnceSeq(c, 5).value.0, 7, 2, 5, 8, 4, 1, 9, 3, 6)
  {
    var e := [7, 2, 5, 8, 4, 1, 9, 3, 6];
    ExampleFacts6(c, e);
    MoveOnceGives(c, 5, 0, 0, 1, e);
  }

  lemma ExampleFacts6(c: seq<nat>, e: seq<nat>)
    requires Labelled(c, 9, 2, 5, 8, 4, 1, 3, 6, 7) && e == [7, 2, 5, 8, 4, 1, 9, 3, 6]
    ensures MoveFacts(c, e, 5, 0, 0, 1)
  {
  }

  /** Move 7 of `test_moves`: the current cup is at place 6; no held label is skipped; the
      destination is at place 3. */
  lemma ExampleMove7(c: seq<nat>)
    requires Ring(c) && Labelled(c, 7, 2, 5, 8, 4, 1, 9, 3, 6)
    ensures MoveOnceSeq(c, 6).Ok? && Labelled(MoveOnceSeq(c, 6).value.0, 8, 3, 6, 7, 4, 1, 9, 2, 5)
  {
    var e := [8, 3, 6, 7, 4, 1, 9, 2, 5];
    ExampleFacts7(c, e);
    MoveOnceGives(c, 6, 0, 3, 3, e);
  }

  lemma ExampleFacts7(c: seq<nat>, e: seq<nat>)
    requires Labelled(c, 7, 2, 5, 8, 4, 1, 9, 3, 6) && e == [8, 3, 6, 7, 4, 1, 9, 2, 5]
    ensures MoveFacts(c, e, 6, 0, 3, 3)
  {
  }

  /** Move 8 of `test_moves`: the current cup is at place 7; no held label is skipped; the
      destination is at place 5. */
  lemma ExampleMove8(c: seq<nat>)
    requires Ring(c) && Labelled(c, 8, 3, 6, 7, 4, 1, 9, 2, 5)
    ensures MoveOnceSeq(c, 7).Ok? && Labelled(MoveOnceSeq(c, 7).value.0, 7, 4, 1, 5, 8, 3, 9, 2, 6)
  {
    var e := [7, 4, 1, 5, 8, 3, 9, 2, 6];
    ExampleFacts8(c, e);
    MoveOnceGives(c, 7, 0, 5, 4, e);
  }

  lemma ExampleFacts8(c: seq<nat>, e: seq<nat>)
    requires Labelled(c, 8, 3, 6, 7, 4, 1, 9, 2, 5) && e == [7, 4, 1, 5, 8, 3, 9, 2, 6]
    ensures MoveFacts(c, e, 7, 0, 5, 4)
  {
  }

  /** Move 9 of `test_moves`: the current cup is at place 8; no held label is skipped; the
      destination is at place 3. */
  lemma ExampleMove9(c: seq<nat>)
    requires Ring(c) && Labelled(c, 7, 4, 1, 5, 8, 3, 9, 2, 6)
    ensures MoveOnceSeq(c, 8).Ok? && Labelled(MoveOnceSeq(c, 8).value.0, 5, 7, 4, 1, 8, 3, 9, 2, 6)
  {
    var e := [5, 7, 4, 1, 8, 3, 9, 2, 6];
    ExampleFacts9(c, e);
    MoveOnceGives(c, 8, 0, 3, 1, e);
  }

  lemma ExampleFacts9(c: seq<nat>, e: seq<nat>)
    requires Labelled(c, 7, 4, 1, 5, 8, 3, 9, 2, 6) && e == [5, 7, 4, 1, 8, 3, 9, 2, 6]
    ensures MoveFacts(c, e, 8, 0, 3, 1)
  {
  }

  /** Move 10 of `test_moves`: the current cup is at place 0; 1 held label is skipped; the
      destination is at place 5. */
  lemma ExampleMove10(c: seq<nat>)
    requires Ring(c) && Labelled(c, 5, 7, 4, 1, 8, 3, 9, 2, 6)
    ensures MoveOnceSeq(c, 0).Ok? && Labelled(MoveOnceSeq(c, 0).value.0, 5, 8, 3, 7, 4, 1, 9, 2, 6)
  {
    var e := [5, 8, 3, 7, 4, 1, 9, 2, 6];
    ExampleFacts10(c, e);
    MoveOnceGives(c, 0, 1, 5, 2, e);
  }

  lemma ExampleFacts10(c: seq<nat>, e: seq<nat>)
    requires Labelled(c, 5, 7, 4, 1, 8, 3, 9, 2, 6) && e == [5, 8, 3, 7, 4, 1, 9, 2, 6]
    ensures MoveFacts(c, e, 0, 1, 5, 2)
  {
  }

  /** The labels after cup 1 once the ten moves of `test_moves` are
      made. */
  lemma ExampleNumString(c: seq<nat>)
    requires Ring(c) && Labelled(c, 5, 8, 3, 7, 4, 1, 9, 2, 6)
    ensures NumStringOf(c) == Ok("92658374")
  {
    PlaceUnique(c, 1, 5);
    NumStringRing(c);
    var s := NumStringOf(c).value;
    assert s[0] as int == c[6] + 48 && s[1] as int == c[7] + 48 && s[2] as int == c[8] + 48;
    assert s[3] as int == c[0] + 48 && s[4] as int == c[1] + 48 && s[5] as int == c[2] + 48;
    assert s[6] as int == c[3] + 48 && s[7] as int == c[4] + 48;
    ExampleDigits(s);
  }

  lemma ExampleDigits(s: string)
    requires |s| == 8 && s[0] as int == 57 && s[1] as int == 50 && s[2] as int == 54 && s[3] as int == 53
    requires s[4] as int == 56 && s[5] as int == 51 && s[6] as int == 55 && s[7] as int == 52
    ensures s == "92658374"
  {
  }

  /** `test_moves`: the cups after each of ten moves from
      3 8 9 1 2 5 4 6 7. */
  lemma ExampleMoves(c: seq<nat>)
    requires Labelled(c, 3, 8, 9, 1, 2, 5, 4, 6, 7)
    ensures Ring(c)
    ensures Labelled(Moves(c, 0, 1).value.0, 3, 2, 8, 9, 1, 5, 4, 6, 7)
    ensures Labelled(Moves(c, 0, 2).value.0, 3, 2, 5, 4, 6, 7, 8, 9, 1)
    ensures Labelled(Moves(c, 0, 3).value.0, 7, 2, 5, 8, 9, 1, 3, 4, 6)
    ensures Labelled(Moves(c, 0, 4).value.0, 3, 2, 5, 8, 4, 6, 7, 9, 1)
    ensures Labelled(Moves(c, 0, 5).value.0, 9, 2, 5, 8, 4, 1, 3, 6, 7)
    ensures Labelled(Moves(c, 0, 6).value.0, 7, 2, 5, 8, 4, 1, 9, 3, 6)
    ensures Labelled(Moves(c, 0, 7).value.0, 8, 3, 6, 7, 4, 1, 9, 2, 5)
    ensures Labelled(Moves(c, 0, 8).value.0, 7, 4, 1, 5, 8, 3, 9, 2, 6)
    ensures Labelled(Moves(c, 0, 9).value.0, 5, 7, 4, 1, 8, 3, 9, 2, 6)
    ensures Labelled(Moves(c, 0, 10).value.0, 5, 8, 3, 7, 4, 1, 9, 2, 6)
  {
    ExampleRing(c);
    var m := Moves(c, 0, 0).value;
    ExampleMove1(m.0);
    assert m.1 == 0;
    m := Moves(c, 0, 1).value;
    ExampleMove2(m.0);
    assert m.1 == 1;
    m := Moves(c, 0, 2).value;
    ExampleMove3(m.0);
    assert m.1 == 2;
    m := Moves(c, 0, 3).value;
    ExampleMove4(m.0);
    assert m.1 == 3;
    m := Moves(c, 0, 4).value;
    ExampleMove5(m.0);
    assert m.1 == 4;
    m := Moves(c, 0, 5).value;
    ExampleMove6(m.0);
    assert m.1 == 5;
    m := Moves(c, 0, 6).value;
    ExampleMove7(m.0);
    assert m.1 == 6;
    m := Moves(c, 0, 7).value;
    ExampleMove8(m.0);
    assert m.1 == 7;
    m := Moves(c, 0, 8).value;
    ExampleMove9(m.0);
    assert m.1 == 8;
    m := Moves(c, 0, 9).value;
    ExampleMove10(m.0);
    assert m.1 == 0;
    m := Moves(c, 0, 10).value;
  }

  /** The end of `test_moves`: after the ten moves `num_string` is
      "92658374". */
  lemma ExampleMovesNumString(c: seq<nat>)
    requires Labelled(c, 3, 8, 9, 1, 2, 5, 4, 6, 7)
    ensures Ring(c)
    ensures NumStringOf(Moves(c, 0, 10).value.0) == Ok("92658374")
  {
    ExampleMoves(c);
    ExampleNumString(Moves(c, 0, 10).value.0);
  }
}
