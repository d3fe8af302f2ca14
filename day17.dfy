/** Day 17: Conway cubes in any number of dimensions (src/day17.rs). A
    point is its list of coordinates; the boxes of points are walked by an
    odometer whose first coordinate turns fastest. */
module Day17 {
  import opened Util

  datatype State = Active | Inactive

  /** `State::from`: '#' is active, '.' inactive; anything else panics. */
  function StateFrom(c: char): (r: Result<State>)
    ensures r.Ok? <==> c == '#' || c == '.'
    ensures r == Ok(Active) <==> c == '#'
  {
    match c
    case '#' => Ok(Active)
    case '.' => Ok(Inactive)
    case _ => Panic
  }

  /** `new_cell_state`: the Conway rule. */
  function NewCellState(cell: State, numActiveNeighbors: nat): (r: State)
    ensures r == Active <==> numActiveNeighbors == 3 || (numActiveNeighbors == 2 && cell == Active)
  {
    if numActiveNeighbors == 3 || (numActiveNeighbors == 2 && cell == Active) then Active else Inactive
  }

  // ---------------------------------------------------------------------
  // Points

  type Point = seq<int>

  function Zeros(k: nat): (z: Point)
    ensures |z| == k && forall i :: 0 <= i < k ==> z[i] == 0
  {
    if k == 0 then [] else Zeros(k - 1) + [0]
  }

  /** `new_zero_pad`: the coordinates, then zeros up to `targetLen`. */
  method NewZeroPad(coords: Point, targetLen: nat) returns (result: Point)
    ensures result == coords + Zeros(if targetLen > |coords| then targetLen - |coords| else 0)
  {
    result := coords;
    var k := |coords|;
    assert coords + Zeros(0) == coords;
    while k < targetLen
      invariant k == |coords| || k <= targetLen
      invariant k >= |coords| && result == coords + Zeros(k - |coords|)
    {
      result := result + [0];
      k := k + 1;
    }
  }

  /** Padding keeps the coordinates as a prefix and adds only zeros. */
  lemma ZeroPadShape(coords: Point, targetLen: nat)
    ensures var p := coords + Zeros(if targetLen > |coords| then targetLen - |coords| else 0);
      |p| == (if targetLen > |coords| then targetLen else |coords|) && p[..|coords|] == coords &&
      forall i :: |coords| <= i < |p| ==> p[i] == 0
  {
  }

  function Shift(p: Point, d: int): (r: Point)
    ensures |r| == |p| && forall i :: 0 <= i < |p| ==> r[i] == p[i] + d
  {
    seq(|p|, i requires 0 <= i < |p| => p[i] + d)
  }

  /** `prev_corner`. */
  function PrevCorner(p: Point): Point { Shift(p, -1) }

  /** `next_corner`. */
  function NextCorner(p: Point): Point { Shift(p, 1) }

  /** Each coordinate of `start` is at most the one of `end`. */
  predicate Ordered(start: Point, end: Point)
  {
    |start| == |end| && forall i :: 0 <= i < |start| ==> start[i] <= end[i]
  }

  /** The largest value the odometer gives a coordinate that runs from
      `a` to `b`. */
  function Top(a: int, b: int): int { if b >= a then b else a }

  /** The points the odometer visits between `start` and `end`. */
  predicate InBox(p: Point, start: Point, end: Point)
  {
    |p| == |start| == |end| && forall i :: 0 <= i < |p| ==> start[i] <= p[i] <= Top(start[i], end[i])
  }

  /** The odometer step on values: add one to the first coordinate; if it
      passes the end, reset it to the start and carry into the rest. None
      once every coordinate has carried. */
  function NextPoint(p: Point, start: Point, end: Point): (r: Option<Point>)
    requires |start| == |p| && |end| == |p|
    ensures r.Some? ==> |r.value| == |p|
  {
    if p == [] then None
    else if p[0] + 1 > end[0] then
      match NextPoint(p[1..], start[1..], end[1..])
      case None => None
      case Some(q) => Some([start[0]] + q)
    else Some([p[0] + 1] + p[1..])
  }

  /** `PointND::next`: the carry loop on a copy of the point. */
  method Next(p: Point, start: Point, end: Point) returns (r: Option<Point>)
    requires |start| == |p| && |end| == |p|
    ensures r == NextPoint(p, start, end)
  {
    var next := p;
    var c := 0;
    LiftNothing(NextPoint(p, start, end));
    assert p[0..] == p && start[0..] == start && end[0..] == end;
    while c < |next|
      invariant 0 <= c <= |p| && |next| == |p|
      invariant next == start[..c] + p[c..]
      invariant NextPoint(p, start, end) == Lift(start[..c], NextPoint(p[c..], start[c..], end[c..]))
    {
      CarryStep(p, start, end, c);
      SetDigit(start, p, c, p[c] + 1);
      next := next[c := next[c] + 1];
      if next[c] > end[c] {
        SetDigit(start, p, c, start[c]);
        next := next[c := start[c]];
        c := c + 1;
      } else {
        return Some(next);
      }
    }
    assert p[c..] == [];
    return None;
  }

  lemma SetDigit(start: Point, p: Point, c: nat, v: int)
    requires |start| == |p| && c < |p|
    ensures (start[..c] + p[c..])[c := v] == start[..c] + ([v] + p[c + 1..])
    ensures v == start[c] ==> (start[..c] + p[c..])[c := v] == start[..c + 1] + p[c + 1..]
  {
    assert start[..c + 1] == start[..c] + [start[c]];
  }

  /** Put `prefix` in front of a point, if there is one. */
  function Lift(prefix: Point, r: Option<Point>): Option<Point>
  {
    match r
    case None => None
    case Some(q) => Some(prefix + q)
  }

  lemma LiftNothing(r: Option<Point>)
    ensures Lift([], r) == r
  {
    if r.Some? {
      assert [] + r.value == r.value;
    }
  }

  lemma CarryStep(p: Point, start: Point, end: Point, c: nat)
    requires |start| == |p| && |end| == |p| && c < |p|
    ensures var rest := NextPoint(p[c..], start[c..], end[c..]);
      if p[c] + 1 > end[c] then rest == Lift([start[c]], NextPoint(p[c + 1..], start[c + 1..], end[c + 1..]))
      else rest == Some([p[c] + 1] + p[c + 1..])
    ensures Lift(start[..c], Lift([start[c]], NextPoint(p[c + 1..], start[c + 1..], end[c + 1..]))) ==
      Lift(start[..c + 1], NextPoint(p[c + 1..], start[c + 1..], end[c + 1..]))
  {
    assert p[c..][1..] == p[c + 1..] && start[c..][1..] == start[c + 1..] && end[c..][1..] == end[c + 1..];
    assert start[..c] + [start[c]] == start[..c + 1];
    match NextPoint(p[c + 1..], start[c + 1..], end[c + 1..])
    case None =>
    case Some(q) =>
      assert start[..c] + ([start[c]] + q) == start[..c + 1] + q;
  }

  // ---------------------------------------------------------------------
  // Boxes

  /** How many values a coordinate takes between `a` and `b` in the
      odometer: one when `b < a`, since the coordinate then resets to `a`
      at every step. */
  function Width(a: int, b: int): (w: nat)
    ensures w > 0
  {
    if b >= a then b - a + 1 else 1
  }

  function Size(start: Point, end: Point): nat
    requires |start| == |end|
  {
    if start == [] then 1 else Width(start[0], end[0]) * Size(start[1..], end[1..])
  }

  /** Point number `i` of the box in odometer order: its first
      coordinate is `start[0] + i % w`, the rest is point `i / w` of the
      smaller box. */
  function BoxPoint(start: Point, end: Point, i: nat): (p: Point)
    requires |start| == |end| && i < Size(start, end)
    ensures |p| == |start|
  {
    if start == [] then []
    else
      var w := Width(start[0], end[0]);
      DivBelow(i, w, Size(start[1..], end[1..]));
      [start[0] + i % w] + BoxPoint(start[1..], end[1..], i / w)
  }

  /** The points of the box, in the order the odometer visits them. */
  function BoxPoints(start: Point, end: Point): (r: seq<Point>)
    requires |start| == |end|
    ensures |r| == Size(start, end)
  {
    seq(Size(start, end), i requires 0 <= i < Size(start, end) => BoxPoint(start, end, i))
  }

  lemma DivBelow(i: nat, w: nat, n: nat)
    requires i < w * n
    ensures w > 0 && i / w < n && i % w < w
  {
    assert w > 0;
    assert i == (i / w) * w + i % w;
    if i / w >= n {
      MulMono(n, i / w, w);
    }
  }

  lemma MulMono(a: nat, b: nat, w: nat)
    requires a <= b
    ensures a * w <= b * w
  {
    MulPos(b - a, w);
    assert b * w - a * w == (b - a) * w;
  }

  /** One step of a mixed-radix counter digit. */
  lemma DigitStep(i: nat, w: nat, n: nat)
    requires i < w * n
    ensures w > 0
    ensures i % w + 1 < w ==> (i + 1) / w == i / w && (i + 1) % w == i % w + 1 && i + 1 < w * n
    ensures i % w + 1 == w ==> (i + 1) % w == 0 && (i + 1) / w == i / w + 1
    ensures i % w + 1 == w && i / w + 1 < n ==> i + 1 < w * n
    ensures i % w + 1 == w && i / w + 1 == n ==> i + 1 == w * n
  {
    DivBelow(i, w, n);
    var q, x := i / w, i % w;
    assert i == q * w + x;
    if x + 1 < w {
      DivModUnique(i + 1, w, q, x + 1);
      MulMono(q + 1, n, w);
    } else {
      assert i + 1 == (q + 1) * w;
      DivModUnique(i + 1, w, q + 1, 0);
      if q + 1 < n {
        MulMono(q + 2, n, w);
      }
    }
  }

  /** Putting a digit in front of a counter value. */
  lemma DigitCompose(q: nat, x: nat, w: nat, n: nat)
    requires x < w && q < n
    ensures x + w * q < w * n && (x + w * q) % w == x && (x + w * q) / w == q
  {
    MulMono(q + 1, n, w);
    DivModUnique(x + w * q, w, q, x);
  }

  /** The odometer walks the box in order: the step after point `i` is
      point `i + 1`, and there is none after the last. */
  lemma {:induction false} NextPointIndex(start: Point, end: Point, i: nat)
    requires |start| == |end| && i < Size(start, end)
    ensures NextPoint(BoxPoint(start, end, i), start, end) ==
      if i + 1 < Size(start, end) then Some(BoxPoint(start, end, i + 1)) else None
  {
    if start != [] {
      BoxPointCons(start, end, i);
      var w := Width(start[0], end[0]);
      if i % w + 1 < w {
        NextPointNoCarry(start, end, i);
      } else {
        var q := i / w;
        NextPointIndex(start[1..], end[1..], q);
        NextPointCarry(start, end, i);
      }
    }
  }

  /** The step inside a row of the first coordinate. */
  lemma NextPointNoCarry(start: Point, end: Point, i: nat)
    requires |start| == |end| && start != [] && i < Size(start, end)
    requires Width(start[0], end[0]) > 0 && i % Width(start[0], end[0]) + 1 < Width(start[0], end[0])
    ensures NextPoint(BoxPoint(start, end, i), start, end) ==
      if i + 1 < Size(start, end) then Some(BoxPoint(start, end, i + 1)) else None
  {
    var w := Width(start[0], end[0]);
    var n := Size(start[1..], end[1..]);
    assert Size(start, end) == w * n;
    DigitStep(i, w, n);
    var q, x := i / w, i % w;
    assert i + 1 < w * n && (i + 1) / w == q && (i + 1) % w == x + 1;
    BoxPointCons(start, end, i);
    BoxPointCons(start, end, i + 1);
    var p := BoxPoint(start, end, i);
    var rest := BoxPoint(start[1..], end[1..], q);
    assert p == [start[0] + x] + rest;
    assert BoxPoint(start, end, i + 1) == [start[0] + x + 1] + rest;
    assert p[0] + 1 <= end[0];
  }

  /** The step at the end of a row carries into the rest. */
  lemma NextPointCarry(start: Point, end: Point, i: nat)
    requires |start| == |end| && start != [] && i < Size(start, end)
    requires Width(start[0], end[0]) > 0 && i % Width(start[0], end[0]) + 1 >= Width(start[0], end[0])
    requires var q := i / Width(start[0], end[0]);
      q < Size(start[1..], end[1..]) &&
      NextPoint(BoxPoint(start[1..], end[1..], q), start[1..], end[1..]) ==
        if q + 1 < Size(start[1..], end[1..]) then Some(BoxPoint(start[1..], end[1..], q + 1)) else None
    ensures NextPoint(BoxPoint(start, end, i), start, end) ==
      if i + 1 < Size(start, end) then Some(BoxPoint(start, end, i + 1)) else None
  {
    var w := Width(start[0], end[0]);
    var n := Size(start[1..], end[1..]);
    DigitStep(i, w, n);
    var q, x := i / w, i % w;
    BoxPointCons(start, end, i);
    var p := BoxPoint(start, end, i);
    var rest := BoxPoint(start[1..], end[1..], q);
    assert p[0] == start[0] + x && p[1..] == rest;
    assert NextPoint(p, start, end) == Lift([start[0]], NextPoint(rest, start[1..], end[1..]));
    if q + 1 < n {
      BoxPointCons(start, end, i + 1);
    }
  }

  lemma BoxPointCons(start: Point, end: Point, i: nat)
    requires |start| == |end| && start != [] && i < Size(start, end)
    ensures Width(start[0], end[0]) > 0
    ensures var w := Width(start[0], end[0]);
      i / w < Size(start[1..], end[1..]) &&
      BoxPoint(start, end, i) == [start[0] + i % w] + BoxPoint(start[1..], end[1..], i / w)
  {
    DivBelow(i, Width(start[0], end[0]), Size(start[1..], end[1..]));
  }

  /** The box starts at `start`. */
  lemma {:induction false} BoxFirst(start: Point, end: Point)
    requires |start| == |end|
    ensures Size(start, end) > 0 && BoxPoint(start, end, 0) == start
  {
    if start != [] {
      BoxFirst(start[1..], end[1..]);
      MulPos(Width(start[0], end[0]) - 1, Size(start[1..], end[1..]));
    }
  }

  /** The position of an in-box point in the odometer order. */
  function IndexOf(p: Point, start: Point, end: Point): nat
    requires InBox(p, start, end)
  {
    if p == [] then 0
    else
      assert InBox(p[1..], start[1..], end[1..]);
      (p[0] - start[0]) + Width(start[0], end[0]) * IndexOf(p[1..], start[1..], end[1..])
  }

  /** Every point of the box is listed, at position `IndexOf`. */
  lemma {:induction false} IndexOfBox(p: Point, start: Point, end: Point)
    requires InBox(p, start, end)
    ensures IndexOf(p, start, end) < Size(start, end)
    ensures BoxPoint(start, end, IndexOf(p, start, end)) == p
  {
    if p != [] {
      assert InBox(p[1..], start[1..], end[1..]);
      IndexOfBox(p[1..], start[1..], end[1..]);
      var w := Width(start[0], end[0]);
      var n := Size(start[1..], end[1..]);
      var q := IndexOf(p[1..], start[1..], end[1..]);
      var x := p[0] - start[0];
      DigitCompose(q, x, w, n);
      assert BoxPoint(start, end, x + w * q) == [start[0] + x] + BoxPoint(start[1..], end[1..], q);
    }
  }

  /** Every listed point is in the box, at its own position; so no point
      is listed twice. */
  lemma {:induction false} BoxInBox(start: Point, end: Point, i: nat)
    requires |start| == |end| && i < Size(start, end)
    ensures InBox(BoxPoint(start, end, i), start, end)
    ensures IndexOf(BoxPoint(start, end, i), start, end) == i
  {
    if start != [] {
      var w := Width(start[0], end[0]);
      var n := Size(start[1..], end[1..]);
      DivBelow(i, w, n);
      var q, x := i / w, i % w;
      DivModSplit(i, w);
      BoxInBox(start[1..], end[1..], q);
      var p := BoxPoint(start, end, i);
      var rest := BoxPoint(start[1..], end[1..], q);
      assert p == [start[0] + x] + rest;
      assert InBox(p, start, end) by {
        forall k | 0 <= k < |p|
          ensures start[k] <= p[k] <= Top(start[k], end[k])
        {
          if k > 0 {
            assert p[k] == rest[k - 1];
          }
        }
      }
      assert p[1..] == rest;
    }
  }

  lemma DivModSplit(i: nat, w: nat)
    requires w > 0
    ensures i == i % w + w * (i / w)
  {
  }

  lemma BoxDistinct(start: Point, end: Point, i: nat, j: nat)
    requires |start| == |end| && i < Size(start, end) && j < Size(start, end)
    requires BoxPoint(start, end, i) == BoxPoint(start, end, j)
    ensures i == j
  {
    BoxInBox(start, end, i);
    BoxInBox(start, end, j);
  }

  /** The points of the box as a set. */
  function BoxSet(start: Point, end: Point): set<Point>
    requires |start| == |end|
  {
    set i | 0 <= i < Size(start, end) :: BoxPoint(start, end, i)
  }

  /** The listed points are exactly the points of the box. */
  lemma BoxMembers(start: Point, end: Point, q: Point)
    requires |start| == |end|
    ensures q in BoxPoints(start, end) <==> InBox(q, start, end)
    ensures q in BoxSet(start, end) <==> InBox(q, start, end)
  {
    if InBox(q, start, end) {
      IndexOfBox(q, start, end);
      var i := IndexOf(q, start, end);
      assert BoxPoints(start, end)[i] == q;
    }
    if q in BoxPoints(start, end) {
      var i :| 0 <= i < |BoxPoints(start, end)| && BoxPoints(start, end)[i] == q;
      BoxInBox(start, end, i);
    }
    if q in BoxSet(start, end) {
      var i :| 0 <= i < Size(start, end) && BoxPoint(start, end, i) == q;
      BoxInBox(start, end, i);
    }
  }

  lemma BoxPointsLength(start: Point, end: Point)
    requires |start| == |end|
    ensures forall q :: q in BoxPoints(start, end) ==> |q| == |start|
  {
  }

  predicate Distinct(s: seq<Point>)
  {
    forall i, j :: 0 <= i < j < |s| ==> s[i] != s[j]
  }

  lemma BoxPointsDistinct(start: Point, end: Point)
    requires |start| == |end|
    ensures Distinct(BoxPoints(start, end))
  {
    var b := BoxPoints(start, end);
    forall i, j | 0 <= i < j < |b|
      ensures b[i] != b[j]
    {
      if b[i] == b[j] {
        BoxDistinct(start, end, i, j);
      }
    }
  }

  // ---------------------------------------------------------------------
  // The iterator

  /** `PointNDIterator`: the points from `start` to `end` in odometer
      order. `index` is how many points it has handed out. */
  class PointIterator {
    const start: Point
    const end: Point
    var next: Option<Point>
    ghost var index: nat

    ghost predicate Valid()
      reads this
    {
      |start| == |end| && index <= Size(start, end) &&
      next == if index < Size(start, end) then Some(BoxPoint(start, end, index)) else None
    }

    /** `PointNDIterator::new`: the first point is `start`. */
    constructor (start: Point, end: Point)
      requires |start| == |end|
      ensures Valid() && this.start == start && this.end == end
      ensures index == 0 && next == Some(start)
    {
      this.start := start;
      this.end := end;
      next := Some(start);
      index := 0;
      BoxFirst(start, end);
    }

    /** `Iterator::next`: hand out the stored point and step the odometer
        past it. */
    method NextItem() returns (r: Option<Point>)
      requires Valid()
      modifies this
      ensures Valid() && r == old(next)
      ensures next == (if old(next).None? then None else NextPoint(old(next).value, start, end))
      ensures index == if old(next).None? then old(index) else old(index) + 1
    {
      if next == None {
        return None;
      }
      r := next;
      var p := Next(next.value, start, end);
      NextPointIndex(start, end, index);
      next := p;
      index := index + 1;
    }
  }

  /** `PointNDIterator::new(start, end).collect()`: the odometer hands out
      exactly the points of the box, each once, in `BoxPoints` order. */
  method Collect(start: Point, end: Point) returns (points: seq<Point>)
    requires |start| == |end|
    ensures points == BoxPoints(start, end)
  {
    var it := new PointIterator(start, end);
    points := [];
    while it.next.Some?
      invariant it.Valid() && it.start == start && it.end == end
      invariant points == BoxPoints(start, end)[..it.index]
      decreases Size(start, end) - it.index
    {
      var item := it.NextItem();
      points := points + [item.value];
    }
  }

  /** The order `test_iterator` expects for the box from -1,-1,-1 to 1,1,1. */
  lemma IteratorExample()
    ensures BoxPoints([-1, -1, -1], [1, 1, 1]) == [
      [-1, -1, -1], [0, -1, -1], [1, -1, -1],
      [-1, 0, -1], [0, 0, -1], [1, 0, -1],
      [-1, 1, -1], [0, 1, -1], [1, 1, -1],
      [-1, -1, 0], [0, -1, 0], [1, -1, 0],
      [-1, 0, 0], [0, 0, 0], [1, 0, 0],
      [-1, 1, 0], [0, 1, 0], [1, 1, 0],
      [-1, -1, 1], [0, -1, 1], [1, -1, 1],
      [-1, 0, 1], [0, 0, 1], [1, 0, 1],
      [-1, 1, 1], [0, 1, 1], [1, 1, 1]]
  {
    var s, e := [-1, -1, -1], [1, 1, 1];
    assert Size(s, e) == 27;
    forall i | 0 <= i < 27
      ensures BoxPoint(s, e, i) == [-1 + i % 3, -1 + (i / 3) % 3, -1 + i / 9]
    {
      ExampleDigits(i);
    }
    var b := BoxPoints(s, e);
    assert b[0] == [-1, -1, -1];
    assert b[1] == [0, -1, -1];
    assert b[2] == [1, -1, -1];
    assert b[3] == [-1, 0, -1];
    assert b[4] == [0, 0, -1];
    assert b[5] == [1, 0, -1];
    assert b[6] == [-1, 1, -1];
    assert b[7] == [0, 1, -1];
    assert b[8] == [1, 1, -1];
    assert b[9] == [-1, -1, 0];
    assert b[10] == [0, -1, 0];
    assert b[11] == [1, -1, 0];
    assert b[12] == [-1, 0, 0];
    assert b[13] == [0, 0, 0];
    assert b[14] == [1, 0, 0];
    assert b[15] == [-1, 1, 0];
    assert b[16] == [0, 1, 0];
    assert b[17] == [1, 1, 0];
    assert b[18] == [-1, -1, 1];
    assert b[19] == [0, -1, 1];
    assert b[20] == [1, -1, 1];
    assert b[21] == [-1, 0, 1];
    assert b[22] == [0, 0, 1];
    assert b[23] == [1, 0, 1];
    assert b[24] == [-1, 1, 1];
    assert b[25] == [0, 1, 1];
    assert b[26] == [1, 1, 1];
  }

  lemma ExampleDigits(i: nat)
    requires i < 27
    ensures var s, e := [-1, -1, -1], [1, 1, 1];
      BoxPoint(s, e, i) == [-1 + i % 3, -1 + (i / 3) % 3, -1 + i / 9]
  {
    var s, e := [-1, -1, -1], [1, 1, 1];
    assert s[1..] == [-1, -1] && e[1..] == [1, 1];
    assert s[1..][1..] == [-1] && e[1..][1..] == [1];
    assert i / 3 / 3 == i / 9;
    var j := i / 9;
    assert BoxPoint([-1], [1], j) == [-1 + j];
    assert BoxPoint([-1, -1], [1, 1], i / 3) == [-1 + (i / 3) % 3] + BoxPoint([-1], [1], j);
  }

  // ---------------------------------------------------------------------
  // Neighbours

  /** The list without the occurrences of `x` (`filter(|n| n != &avoid)`). */
  function Without(s: seq<Point>, x: Point): (r: seq<Point>)
    ensures forall q :: q in r <==> q in s && q != x
  {
    if s == [] then []
    else (if s[0] == x then [] else [s[0]]) + Without(s[1..], x)
  }

  lemma {:induction false} WithoutAbsent(s: seq<Point>, x: Point)
    requires x !in s
    ensures Without(s, x) == s
  {
    if s != [] {
      WithoutAbsent(s[1..], x);
    }
  }

  lemma {:induction false} WithoutDistinct(s: seq<Point>, x: Point)
    requires Distinct(s)
    ensures Distinct(Without(s, x))
    ensures x in s ==> |Without(s, x)| == |s| - 1
  {
    if s != [] {
      assert Distinct(s[1..]);
      WithoutDistinct(s[1..], x);
      assert s[0] !in s[1..];
      if s[0] == x {
        WithoutAbsent(s[1..], x);
      }
    }
  }

  /** `PointND::neighbors`: the box one step around `p`, without `p`. */
  function Neighbors(p: Point): seq<Point>
  {
    Without(BoxPoints(PrevCorner(p), NextCorner(p)), p)
  }

  /** A point's neighbours are the points that differ from it by at most
      one in each coordinate, other than the point itself. */
  lemma NeighborsExact(p: Point, q: Point)
    ensures q in Neighbors(p) <==>
      q != p && |q| == |p| && forall i :: 0 <= i < |p| ==> p[i] - 1 <= q[i] <= p[i] + 1
  {
    BoxMembers(PrevCorner(p), NextCorner(p), q);
  }

  /** They are listed once each: 3^d - 1 of them in d dimensions. */
  lemma NeighborsCount(p: Point)
    ensures Distinct(Neighbors(p)) && |Neighbors(p)| == Pow(3, |p|) - 1
  {
    var b := BoxPoints(PrevCorner(p), NextCorner(p));
    BoxPointsDistinct(PrevCorner(p), NextCorner(p));
    BoxMembers(PrevCorner(p), NextCorner(p), p);
    WithoutDistinct(b, p);
    CornerSize(p);
  }

  lemma {:induction false} CornerSize(p: Point)
    ensures Size(PrevCorner(p), NextCorner(p)) == Pow(3, |p|)
  {
    if p != [] {
      assert PrevCorner(p)[1..] == PrevCorner(p[1..]);
      assert NextCorner(p)[1..] == NextCorner(p[1..]);
      CornerSize(p[1..]);
    }
  }

  // ---------------------------------------------------------------------
  // Lexicographic order (`#[derive(Ord)]` on the coordinate vector)

  predicate LexLe(a: Point, b: Point)
  {
    a == [] || (b != [] && (a[0] < b[0] || (a[0] == b[0] && LexLe(a[1..], b[1..]))))
  }

  lemma {:induction false} LexTotal(a: Point, b: Point)
    ensures LexLe(a, b) || LexLe(b, a)
  {
    if a != [] && b != [] && a[0] == b[0] {
      LexTotal(a[1..], b[1..]);
    }
  }

  lemma {:induction false} LexAntisymmetric(a: Point, b: Point)
    requires LexLe(a, b) && LexLe(b, a)
    ensures a == b
  {
    if a != [] {
      LexAntisymmetric(a[1..], b[1..]);
      assert a == [a[0]] + a[1..] && b == [b[0]] + b[1..];
    }
  }

  lemma {:induction false} LexTransitive(a: Point, b: Point, c: Point)
    requires LexLe(a, b) && LexLe(b, c)
    ensures LexLe(a, c)
  {
    if a != [] && a[0] == b[0] && b[0] == c[0] {
      LexTransitive(a[1..], b[1..], c[1..]);
    }
  }

  /** Coordinatewise below is lexicographically below. */
  lemma {:induction false} CoordinatewiseLex(a: Point, b: Point)
    requires |a| == |b| && forall i :: 0 <= i < |a| ==> a[i] <= b[i]
    ensures LexLe(a, b)
  {
    if a != [] && a[0] == b[0] {
      CoordinatewiseLex(a[1..], b[1..]);
    }
  }

  lemma AntisymmetricAll()
    ensures forall a, b :: LexLe(a, b) && LexLe(b, a) ==> a == b
  {
    forall a, b | LexLe(a, b) && LexLe(b, a)
      ensures a == b
    {
      LexAntisymmetric(a, b);
    }
  }

  /** A finite non-empty set of points has a least and a greatest element. */
  lemma {:induction false} LexExtremes(s: set<Point>)
    requires s != {}
    ensures exists k :: k in s && forall q :: q in s ==> LexLe(k, q)
    ensures exists k :: k in s && forall q :: q in s ==> LexLe(q, k)
    decreases |s|
  {
    var x :| x in s;
    LexTotal(x, x);
    if s == {x} {
      assert forall q :: q in s ==> LexLe(x, q) && LexLe(q, x);
    } else {
      var rest := s - {x};
      LexExtremes(rest);
      var lo :| lo in rest && forall q :: q in rest ==> LexLe(lo, q);
      var hi :| hi in rest && forall q :: q in rest ==> LexLe(q, hi);
      LexTotal(x, lo);
      LexTotal(x, hi);
      if LexLe(x, lo) {
        forall q | q in rest
          ensures LexLe(x, q)
        {
          LexTransitive(x, lo, q);
        }
        assert forall q :: q in s ==> LexLe(x, q);
      } else {
        assert forall q :: q in s ==> LexLe(lo, q);
      }
      if LexLe(hi, x) {
        forall q | q in rest
          ensures LexLe(q, x)
        {
          LexTransitive(q, hi, x);
        }
        assert forall q :: q in s ==> LexLe(q, x);
      } else {
        assert forall q :: q in s ==> LexLe(q, hi);
      }
    }
  }

  // ---------------------------------------------------------------------
  // The pocket dimension

  /** `ConwayCubes`: the state of the cubes it knows about. */
  datatype Cubes = Cubes(cubes: map<Point, State>)

  /** All points of the map have the same number of coordinates, as
      `ConwayCubes::from` makes them. */
  predicate SameLength(c: Cubes)
  {
    forall p, q :: p in c.cubes && q in c.cubes ==> |p| == |q|
  }

  /** `ConwayCubes::state`: a point the map does not hold is inactive. */
  function StateAt(c: Cubes, p: Point): (r: State)
    ensures p !in c.cubes ==> r == Inactive
    ensures p in c.cubes ==> r == c.cubes[p]
  {
    if p in c.cubes then c.cubes[p] else Inactive
  }

  /** `min_point`: the first key; panics on an empty map. */
  function MinPoint(c: Cubes): (r: Result<Point>)
    ensures r.Panic? <==> c.cubes == map[]
    ensures r.Ok? ==> r.value in c.cubes && forall q :: q in c.cubes ==> LexLe(r.value, q)
  {
    if c.cubes == map[] then Panic
    else
      LexExtremes(c.cubes.Keys);
      AntisymmetricAll();
      var k :| k in c.cubes && forall q :: q in c.cubes ==> LexLe(k, q);
      Ok(k)
  }

  /** `max_point`: the last key; panics on an empty map. */
  function MaxPoint(c: Cubes): (r: Result<Point>)
    ensures r.Panic? <==> c.cubes == map[]
    ensures r.Ok? ==> r.value in c.cubes && forall q :: q in c.cubes ==> LexLe(q, r.value)
  {
    if c.cubes == map[] then Panic
    else
      LexExtremes(c.cubes.Keys);
      AntisymmetricAll();
      var k :| k in c.cubes && forall q :: q in c.cubes ==> LexLe(q, k);
      Ok(k)
  }

  /** How many of the points are active. */
  function CountActive(c: Cubes, s: seq<Point>): (n: nat)
    ensures n <= |s|
  {
    if s == [] then 0 else (if StateAt(c, s[0]) == Active then 1 else 0) + CountActive(c, s[1..])
  }

  /** The active points among `s`, as a set. */
  function ActiveAmong(c: Cubes, s: seq<Point>): set<Point>
  {
    set q | q in s && StateAt(c, q) == Active
  }

  /** Counting a list with no repeats counts the set of its active points. */
  lemma {:induction false} CountActiveSet(c: Cubes, s: seq<Point>)
    requires Distinct(s)
    ensures CountActive(c, s) == |ActiveAmong(c, s)|
  {
    if s != [] {
      assert Distinct(s[1..]);
      CountActiveSet(c, s[1..]);
      assert s[0] !in s[1..];
      if StateAt(c, s[0]) == Active {
        assert ActiveAmong(c, s) == {s[0]} + ActiveAmong(c, s[1..]);
      } else {
        assert ActiveAmong(c, s) == ActiveAmong(c, s[1..]);
      }
    }
  }

  /** `num_active_neighbors`. */
  function NumActiveNeighbors(c: Cubes, p: Point): nat
  {
    CountActive(c, Neighbors(p))
  }

  /** The count is the number of active points around `p`, at most
      3^d - 1. */
  lemma NumActiveNeighborsMeaning(c: Cubes, p: Point)
    ensures NumActiveNeighbors(c, p) == |ActiveAmong(c, Neighbors(p))|
    ensures NumActiveNeighbors(c, p) <= Pow(3, |p|) - 1
  {
    NeighborsCount(p);
    CountActiveSet(c, Neighbors(p));
  }

  /** `num_active`: the number of active entries. */
  function NumActive(c: Cubes): (n: nat)
    ensures n <= |c.cubes|
  {
    var act := set p | p in c.cubes && c.cubes[p] == Active;
    assert act <= c.cubes.Keys;
    SubsetCard(act, c.cubes.Keys);
    |act|
  }

  /** `cycle`: every point of the box from one below the first key to one
      above the last gets the Conway rule's state. The odometer runs over
      the coordinates of the low corner and reads only as many of the high
      corner's; it panics when the high corner has fewer. Panics on an
      empty map. */
  function Cycle(c: Cubes): (r: Result<Cubes>)
    ensures c.cubes == map[] ==> r.Panic?
    ensures SameLength(c) && c.cubes != map[] ==> r.Ok?
  {
    match MinPoint(c)
    case Panic => Panic
    case Ok(lo) =>
      match MaxPoint(c)
      case Panic => Panic
      case Ok(hi) =>
        if |hi| < |lo| then Panic
        else Ok(Grown(c, PrevCorner(lo), NextCorner(hi)[..|lo|]))
  }

  /** The new state of each point of the box from `start` to `end`
      (`.map(...).collect()`; the box lists each point once). */
  function Grown(c: Cubes, start: Point, end: Point): (r: Cubes)
    requires |start| == |end|
  {
    var box := BoxPoints(start, end);
    Cubes(map q | q in box :: Rule(c, q))
  }

  /** The state `q` gets from `new_cell_state`. */
  function Rule(c: Cubes, q: Point): State
  {
    NewCellState(StateAt(c, q), NumActiveNeighbors(c, q))
  }

  /** A map whose keys fill a box grows by one in every direction, and each
      point of the grown box gets the Conway rule applied to its old state
      and its active neighbours. */
  lemma CycleBox(c: Cubes, lo: Point, hi: Point)
    requires Ordered(lo, hi) && c.cubes.Keys == BoxSet(lo, hi)
    ensures Cycle(c).Ok?
    ensures Cycle(c).value.cubes.Keys == BoxSet(PrevCorner(lo), NextCorner(hi))
    ensures forall q :: q in Cycle(c).value.cubes ==>
      Cycle(c).value.cubes[q] == Rule(c, q)
    ensures Ordered(PrevCorner(lo), NextCorner(hi))
  {
    CycleOfBox(c, lo, hi);
    GrownKeys(c, PrevCorner(lo), NextCorner(hi));
    GrownRule(c, PrevCorner(lo), NextCorner(hi));
  }

  lemma CycleOfBox(c: Cubes, lo: Point, hi: Point)
    requires Ordered(lo, hi) && c.cubes.Keys == BoxSet(lo, hi)
    ensures Cycle(c) == Ok(Grown(c, PrevCorner(lo), NextCorner(hi)))
    ensures Ordered(PrevCorner(lo), NextCorner(hi))
  {
    MinOfBox(c, lo, hi);
    MaxOfBox(c, lo, hi);
    assert NextCorner(hi)[..|lo|] == NextCorner(hi);
  }

  /** The keys of a box all have its number of coordinates. */
  lemma BoxSameLength(c: Cubes, lo: Point, hi: Point)
    requires |lo| == |hi| && c.cubes.Keys == BoxSet(lo, hi)
    ensures SameLength(c)
  {
    forall p, q | p in c.cubes && q in c.cubes
      ensures |p| == |q|
    {
      BoxMembers(lo, hi, p);
      BoxMembers(lo, hi, q);
    }
  }

  /** The first key of a box is its low corner. */
  lemma MinOfBox(c: Cubes, lo: Point, hi: Point)
    requires |lo| == |hi| && c.cubes.Keys == BoxSet(lo, hi)
    ensures MinPoint(c) == Ok(lo)
  {
    BoxFirst(lo, hi);
    assert lo in c.cubes;
    var m := MinPoint(c).value;
    BoxMembers(lo, hi, m);
    CoordinatewiseLex(lo, m);
    LexAntisymmetric(lo, m);
  }

  /** The last key of a box is its high corner. */
  lemma MaxOfBox(c: Cubes, lo: Point, hi: Point)
    requires Ordered(lo, hi) && c.cubes.Keys == BoxSet(lo, hi)
    ensures MaxPoint(c) == Ok(hi)
  {
    assert InBox(hi, lo, hi);
    BoxMembers(lo, hi, hi);
    var n := MaxPoint(c).value;
    BoxMembers(lo, hi, n);
    CoordinatewiseLex(n, hi);
    LexAntisymmetric(hi, n);
  }

  lemma GrownRule(c: Cubes, start: Point, end: Point)
    requires |start| == |end|
    ensures forall q :: q in Grown(c, start, end).cubes ==> Grown(c, start, end).cubes[q] == Rule(c, q)
  {
  }

  lemma GrownKeys(c: Cubes, start: Point, end: Point)
    requires |start| == |end|
    ensures Grown(c, start, end).cubes.Keys == BoxSet(start, end)
  {
    var g := Grown(c, start, end).cubes;
    forall q
      ensures q in g <==> q in BoxSet(start, end)
    {
      BoxMembers(start, end, q);
    }
  }

  /** `c` after `n` cycles. */
  function Cycles(c: Cubes, n: nat): Result<Cubes>
  {
    if n == 0 then Ok(c)
    else
      match Cycles(c, n - 1)
      case Panic => Panic
      case Ok(d) => Cycle(d)
  }

  /** `after_n_cycles`: run `n` cycles, then count the active cubes. */
  method AfterNCycles(start: Cubes, n: nat) returns (r: Result<nat>)
    ensures r == match Cycles(start, n) case Panic => Panic case Ok(c) => Ok(NumActive(c))
  {
    var cubes := start;
    var i := 0;
    while i < n
      invariant 0 <= i <= n && Cycles(start, i) == Ok(cubes)
    {
      var next := Cycle(cubes);
      if next.Panic? {
        PanicStays(start, i + 1, n);
        return Panic;
      }
      cubes := next.value;
      i := i + 1;
    }
    return Ok(NumActive(cubes));
  }

  lemma {:induction false} PanicStays(c: Cubes, i: nat, n: nat)
    requires Cycles(c, i) == Panic && i <= n
    ensures Cycles(c, n) == Panic
    decreases n - i
  {
    if i < n {
      PanicStays(c, i + 1, n);
    }
  }

  /** From a box of cubes, every cycle succeeds and keeps a full box, one
      larger each time. */
  lemma CyclesBox(c: Cubes, lo: Point, hi: Point, n: nat)
    requires Ordered(lo, hi) && c.cubes.Keys == BoxSet(lo, hi)
    ensures Cycles(c, n).Ok?
    ensures Cycles(c, n).value.cubes.Keys == BoxSet(Shift(lo, -(n as int)), Shift(hi, n))
  {
    assert Shift(lo, -(0 as int)) == lo && Shift(hi, 0) == hi;
    CyclesFrom(c, lo, hi, n);
  }

  lemma {:induction false} CyclesFrom(c: Cubes, lo: Point, hi: Point, n: nat)
    requires Ordered(lo, hi) && Cycles(c, 0).Ok?
    requires Cycles(c, 0).value.cubes.Keys == BoxSet(Shift(lo, -(0 as int)), Shift(hi, 0))
    ensures Cycles(c, n).Ok?
    ensures Cycles(c, n).value.cubes.Keys == BoxSet(Shift(lo, -(n as int)), Shift(hi, n))
  {
    if n == 0 {
    } else {
      var m := n - 1;
      CyclesFrom(c, lo, hi, m);
      CyclesStep(c, lo, hi, m, n);
    }
  }

  lemma CyclesStep(c: Cubes, lo: Point, hi: Point, m: nat, n: nat)
    requires n == m + 1
    requires Ordered(lo, hi) && Cycles(c, m).Ok?
    requires Cycles(c, m).value.cubes.Keys == BoxSet(Shift(lo, -(m as int)), Shift(hi, m))
    ensures Cycles(c, n).Ok?
    ensures Cycles(c, n).value.cubes.Keys == BoxSet(Shift(lo, -(n as int)), Shift(hi, n))
  {
    var d := Cycles(c, m).value;
    assert Cycles(c, n) == Cycle(d);
    var lo', hi' := Shift(lo, -(m as int)), Shift(hi, m);
    ShiftOrdered(lo, hi, m);
    ShiftShift(lo, -(m as int), -1, -(n as int));
    ShiftShift(hi, m, 1, n);
    CycleKeys(d, lo', hi');
  }

  lemma CycleKeys(c: Cubes, lo: Point, hi: Point)
    requires Ordered(lo, hi) && c.cubes.Keys == BoxSet(lo, hi)
    ensures Cycle(c).Ok? && Cycle(c).value.cubes.Keys == BoxSet(Shift(lo, -1), Shift(hi, 1))
  {
    CycleOfBox(c, lo, hi);
    GrownKeys(c, PrevCorner(lo), NextCorner(hi));
  }

  lemma ShiftOrdered(lo: Point, hi: Point, k: nat)
    requires Ordered(lo, hi)
    ensures Ordered(Shift(lo, -(k as int)), Shift(hi, k))
  {
  }

  lemma ShiftShift(p: Point, a: int, b: int, c: int)
    requires a + b == c
    ensures Shift(Shift(p, a), b) == Shift(p, c)
  {
  }

  // ---------------------------------------------------------------------
  // Reading the starting slice (`ConwayCubes::from`)

  /** The point of the character at column `x` of line `y`. */
  function GridPoint(x: int, y: int, dimension: nat): Point
  {
    [x, y] + Zeros(if dimension > 2 then dimension - 2 else 0)
  }

  /** Every character of the lines is '#' or '.'. */
  predicate AllStates(lines: seq<string>)
  {
    forall y, x :: 0 <= y < |lines| && 0 <= x < |lines[y]| ==> StateFrom(lines[y][x]).Ok?
  }

  /** Line `y`'s characters stored in `m`, left to right. */
  function RowInto(m: map<Point, State>, line: string, y: nat, dimension: nat): Result<map<Point, State>>
  {
    if line == [] then Ok(m)
    else
      match RowInto(m, line[..|line| - 1], y, dimension)
      case Panic => Panic
      case Ok(m') =>
        match StateFrom(line[|line| - 1])
        case Panic => Panic
        case Ok(st) => Ok(m'[GridPoint(|line| - 1, y, dimension) := st])
  }

  /** The lines stored top to bottom into an empty map. */
  function GridOf(lines: seq<string>, dimension: nat): Result<Cubes>
  {
    if lines == [] then Ok(Cubes(map[]))
    else
      match GridOf(lines[..|lines| - 1], dimension)
      case Panic => Panic
      case Ok(c) =>
        match RowInto(c.cubes, lines[|lines| - 1], |lines| - 1, dimension)
        case Panic => Panic
        case Ok(m) => Ok(Cubes(m))
  }

  /** `ConwayCubes::from` over the lines of the file: cell `(x, y)` goes to
      the point `x, y, 0, ...`; a character other than '#' or '.' panics. */
  method FromLines(lines: seq<string>, dimension: nat) returns (r: Result<Cubes>)
    ensures r == GridOf(lines, dimension)
  {
    var cubes: map<Point, State> := map[];
    var y := 0;
    while y < |lines|
      invariant 0 <= y <= |lines| && GridOf(lines[..y], dimension) == Ok(Cubes(cubes))
    {
      var line := lines[y];
      var before := cubes;
      var x := 0;
      while x < |line|
        invariant 0 <= x <= |line| && RowInto(before, line[..x], y, dimension) == Ok(cubes)
      {
        var p := NewZeroPad([x, y], dimension);
        var st := StateFrom(line[x]);
        assert line[..x + 1][..x] == line[..x];
        if st.Panic? {
          RowPanicStays(before, line, x + 1, y, dimension);
          assert line[..|line|] == line;
          GridRowPanic(lines, y + 1, dimension);
          return Panic;
        }
        cubes := cubes[p := st.value];
        x := x + 1;
      }
      assert line[..|line|] == line;
      assert lines[..y + 1][..y] == lines[..y];
      y := y + 1;
    }
    assert lines[..|lines|] == lines;
    return Ok(Cubes(cubes));
  }

  lemma {:induction false} RowPanicStays(m: map<Point, State>, line: string, k: nat, y: nat, dimension: nat)
    requires k <= |line| && RowInto(m, line[..k], y, dimension) == Panic
    ensures RowInto(m, line, y, dimension) == Panic
    decreases |line| - k
  {
    if k < |line| {
      assert line[..k + 1][..k] == line[..k];
      RowPanicStays(m, line, k + 1, y, dimension);
    } else {
      assert line[..k] == line;
    }
  }

  lemma {:induction false} GridRowPanic(lines: seq<string>, k: nat, dimension: nat)
    requires 0 < k <= |lines| && GridOf(lines[..k - 1], dimension).Ok?
    requires RowInto(GridOf(lines[..k - 1], dimension).value.cubes, lines[k - 1], k - 1, dimension) == Panic
    ensures GridOf(lines, dimension) == Panic
  {
    assert lines[..k][..k - 1] == lines[..k - 1];
    GridPanicStays(lines, k, dimension);
  }

  lemma {:induction false} GridPanicStays(lines: seq<string>, k: nat, dimension: nat)
    requires k <= |lines| && GridOf(lines[..k], dimension) == Panic
    ensures GridOf(lines, dimension) == Panic
    decreases |lines| - k
  {
    if k < |lines| {
      assert lines[..k + 1][..k] == lines[..k];
      GridPanicStays(lines, k + 1, dimension);
    } else {
      assert lines[..k] == lines;
    }
  }

  /** `p` is the point of some column before `w` of line `y`. */
  ghost predicate InRow(p: Point, w: nat, y: int, dimension: nat)
  {
    exists x :: 0 <= x < w && p == GridPoint(x, y, dimension)
  }

  /** `p` is the point of some character of the lines. */
  ghost predicate OnGrid(p: Point, lines: seq<string>, dimension: nat)
  {
    exists y :: 0 <= y < |lines| && InRow(p, |lines[y]|, y, dimension)
  }

  /** Storing a line: it succeeds iff every character is a state; then its
      cells hold their states, other keys keep theirs and no other key is
      added. */
  lemma {:induction false} RowMeaning(m: map<Point, State>, line: string, y: nat, dimension: nat)
    ensures RowInto(m, line, y, dimension).Ok? <==> forall x :: 0 <= x < |line| ==> StateFrom(line[x]).Ok?
    ensures RowInto(m, line, y, dimension).Ok? ==> var m' := RowInto(m, line, y, dimension).value;
      (forall x :: 0 <= x < |line| ==>
        GridPoint(x, y, dimension) in m' && m'[GridPoint(x, y, dimension)] == StateFrom(line[x]).value) &&
      (forall p :: p in m' <==> p in m || InRow(p, |line|, y, dimension)) &&
      (forall p :: p in m && !InRow(p, |line|, y, dimension) ==> m'[p] == m[p])
  {
    RowOkIff(m, line, y, dimension);
    RowCells(m, line, y, dimension);
    RowKeys(m, line, y, dimension);
  }

  lemma {:induction false} RowOkIff(m: map<Point, State>, line: string, y: nat, dimension: nat)
    ensures RowInto(m, line, y, dimension).Ok? <==> forall x :: 0 <= x < |line| ==> StateFrom(line[x]).Ok?
  {
    if line != [] {
      var k := |line| - 1;
      var front := line[..k];
      RowOkIff(m, front, y, dimension);
      assert forall x :: 0 <= x < k ==> front[x] == line[x];
    }
  }

  lemma {:induction false} RowCells(m: map<Point, State>, line: string, y: nat, dimension: nat)
    ensures RowInto(m, line, y, dimension).Ok? ==> var m' := RowInto(m, line, y, dimension).value;
      forall x :: 0 <= x < |line| ==>
        StateFrom(line[x]).Ok? && GridPoint(x, y, dimension) in m' &&
        m'[GridPoint(x, y, dimension)] == StateFrom(line[x]).value
  {
    if line != [] && RowInto(m, line, y, dimension).Ok? {
      var k := |line| - 1;
      var front := line[..k];
      RowCells(m, front, y, dimension);
      assert forall x :: 0 <= x < k ==> front[x] == line[x];
      forall x | 0 <= x < k
        ensures GridPoint(x, y, dimension) != GridPoint(k, y, dimension)
      {
        assert GridPoint(x, y, dimension)[0] == x;
      }
    }
  }

  lemma {:induction false} RowKeys(m: map<Point, State>, line: string, y: nat, dimension: nat)
    ensures RowInto(m, line, y, dimension).Ok? ==> var m' := RowInto(m, line, y, dimension).value;
      (forall p :: p in m' <==> p in m || InRow(p, |line|, y, dimension)) &&
      (forall p :: p in m && !InRow(p, |line|, y, dimension) ==> m'[p] == m[p])
  {
    if line != [] && RowInto(m, line, y, dimension).Ok? {
      var k := |line| - 1;
      var front := line[..k];
      RowKeys(m, front, y, dimension);
      forall p
        ensures InRow(p, |line|, y, dimension) <==> InRow(p, k, y, dimension) || p == GridPoint(k, y, dimension)
      {
        InRowSnoc(p, k, y, dimension);
      }
    }
  }

  lemma InRowSnoc(p: Point, k: nat, y: int, dimension: nat)
    ensures InRow(p, k + 1, y, dimension) <==> InRow(p, k, y, dimension) || p == GridPoint(k, y, dimension)
  {
    if InRow(p, k + 1, y, dimension) {
      var x :| 0 <= x < k + 1 && p == GridPoint(x, y, dimension);
      if x < k {
        assert InRow(p, k, y, dimension);
      }
    }
    if InRow(p, k, y, dimension) {
      var x :| 0 <= x < k && p == GridPoint(x, y, dimension);
      assert InRow(p, k + 1, y, dimension);
    }
  }

  /** Reading the lines: it succeeds iff every character is '#' or '.';
      then cell `(x, y)` holds the state of `lines[y][x]` and the map has no
      other key. */
  lemma {:induction false} GridMeaning(lines: seq<string>, dimension: nat)
    ensures GridOf(lines, dimension).Ok? <==> AllStates(lines)
    ensures GridOf(lines, dimension).Ok? ==> var m := GridOf(lines, dimension).value.cubes;
      (forall y, x :: 0 <= y < |lines| && 0 <= x < |lines[y]| ==>
        GridPoint(x, y, dimension) in m && m[GridPoint(x, y, dimension)] == StateFrom(lines[y][x]).value) &&
      (forall p :: p in m <==> OnGrid(p, lines, dimension))
  {
    if lines != [] {
      var k := |lines| - 1;
      var front := lines[..k];
      GridMeaning(front, dimension);
      assert forall y :: 0 <= y < k ==> front[y] == lines[y];
      RowMeaningAt(lines, dimension);
    }
  }

  lemma RowMeaningAt(lines: seq<string>, dimension: nat)
    requires lines != []
    requires var front := lines[..|lines| - 1];
      (GridOf(front, dimension).Ok? <==> AllStates(front)) &&
      (GridOf(front, dimension).Ok? ==> var m := GridOf(front, dimension).value.cubes;
        (forall y, x :: 0 <= y < |front| && 0 <= x < |front[y]| ==>
          GridPoint(x, y, dimension) in m && m[GridPoint(x, y, dimension)] == StateFrom(front[y][x]).value) &&
        (forall p :: p in m <==> OnGrid(p, front, dimension)))
    ensures GridOf(lines, dimension).Ok? <==> AllStates(lines)
    ensures GridOf(lines, dimension).Ok? ==> var m := GridOf(lines, dimension).value.cubes;
      (forall y, x :: 0 <= y < |lines| && 0 <= x < |lines[y]| ==>
        GridPoint(x, y, dimension) in m && m[GridPoint(x, y, dimension)] == StateFrom(lines[y][x]).value) &&
      (forall p :: p in m <==> OnGrid(p, lines, dimension))
  {
    var k := |lines| - 1;
    var front := lines[..k];
    assert forall y :: 0 <= y < k ==> front[y] == lines[y];
    match GridOf(front, dimension)
    case Panic =>
      assert !AllStates(front);
      assert !AllStates(lines);
    case Ok(c) =>
      RowMeaning(c.cubes, lines[k], k, dimension);
      match RowInto(c.cubes, lines[k], k, dimension)
      case Panic =>
        var x :| 0 <= x < |lines[k]| && !StateFrom(lines[k][x]).Ok?;
        assert !AllStates(lines);
      case Ok(m) =>
        assert AllStates(lines) by {
          forall y, x | 0 <= y < |lines| && 0 <= x < |lines[y]|
            ensures StateFrom(lines[y][x]).Ok?
          {
            if y < k {
              assert front[y][x] == lines[y][x];
            }
          }
        }
        forall y, x | 0 <= y < |lines| && 0 <= x < |lines[y]|
          ensures GridPoint(x, y, dimension) in m && m[GridPoint(x, y, dimension)] == StateFrom(lines[y][x]).value
        {
          if y < k {
            assert GridPoint(x, y, dimension) in c.cubes;
            NotInLaterRow(GridPoint(x, y, dimension), x, y, |lines[k]|, k, dimension);
          }
        }
        forall p
          ensures p in m <==> OnGrid(p, lines, dimension)
        {
          if OnGrid(p, lines, dimension) {
            var y :| 0 <= y < |lines| && InRow(p, |lines[y]|, y, dimension);
            if y < k {
              assert OnGrid(p, front, dimension);
            }
          }
          if OnGrid(p, front, dimension) {
            var y :| 0 <= y < |front| && InRow(p, |front[y]|, y, dimension);
            assert OnGrid(p, lines, dimension);
          }
        }
  }

  /** The point of a cell is in no other line's row. */
  lemma NotInLaterRow(p: Point, x: int, y: int, w: nat, y': int, dimension: nat)
    requires p == GridPoint(x, y, dimension) && y != y'
    ensures !InRow(p, w, y', dimension)
  {
    forall x' | 0 <= x' < w
      ensures p != GridPoint(x', y', dimension)
    {
      assert GridPoint(x', y', dimension)[1] == y';
    }
  }

  /** The lines all have `w` characters. */
  predicate Rectangle(lines: seq<string>, w: nat)
  {
    forall y :: 0 <= y < |lines| ==> |lines[y]| == w
  }

  /** A rectangle of h lines of w cells fills the box from 0,0,0,... to
      w-1,h-1,0,... */
  lemma GridBox(lines: seq<string>, w: nat, dimension: nat)
    requires |lines| > 0 && w > 0 && Rectangle(lines, w) && AllStates(lines)
    ensures var lo, hi := GridPoint(0, 0, dimension), GridPoint(w - 1, |lines| - 1, dimension);
      Ordered(lo, hi) && GridOf(lines, dimension).Ok? &&
      GridOf(lines, dimension).value.cubes.Keys == BoxSet(lo, hi)
  {
    var lo, hi := GridPoint(0, 0, dimension), GridPoint(w - 1, |lines| - 1, dimension);
    GridMeaning(lines, dimension);
    var m := GridOf(lines, dimension).value.cubes;
    forall p
      ensures p in m <==> p in BoxSet(lo, hi)
    {
      BoxMembers(lo, hi, p);
      OnGridInBox(lines, w, dimension, p);
    }
  }

  /** A point is on a rectangle of cells iff it is in its box. */
  lemma OnGridInBox(lines: seq<string>, w: nat, dimension: nat, p: Point)
    requires |lines| > 0 && w > 0 && Rectangle(lines, w)
    ensures OnGrid(p, lines, dimension) <==>
      InBox(p, GridPoint(0, 0, dimension), GridPoint(w - 1, |lines| - 1, dimension))
  {
    var lo, hi := GridPoint(0, 0, dimension), GridPoint(w - 1, |lines| - 1, dimension);
    if OnGrid(p, lines, dimension) {
      var y :| 0 <= y < |lines| && InRow(p, |lines[y]|, y, dimension);
      var x :| 0 <= x < |lines[y]| && p == GridPoint(x, y, dimension);
      GridPointInBox(x, y, w, |lines|, dimension);
    }
    if InBox(p, lo, hi) {
      BoxIsGridPoint(p, w, |lines|, dimension);
      var x, y := p[0], p[1];
      assert InRow(p, |lines[y]|, y, dimension);
    }
  }

  lemma GridPointInBox(x: int, y: int, w: nat, h: nat, dimension: nat)
    requires 0 <= x < w && 0 <= y < h
    ensures InBox(GridPoint(x, y, dimension), GridPoint(0, 0, dimension), GridPoint(w - 1, h - 1, dimension))
  {
  }

  lemma BoxIsGridPoint(p: Point, w: nat, h: nat, dimension: nat)
    requires w > 0 && h > 0
    requires InBox(p, GridPoint(0, 0, dimension), GridPoint(w - 1, h - 1, dimension))
    ensures 0 <= p[0] < w && 0 <= p[1] < h && p == GridPoint(p[0], p[1], dimension)
  {
    var lo, hi := GridPoint(0, 0, dimension), GridPoint(w - 1, h - 1, dimension);
    var q := GridPoint(p[0], p[1], dimension);
    forall i | 0 <= i < |p|
      ensures p[i] == q[i]
    {
      if i >= 2 {
        assert lo[i] == 0 && hi[i] == 0;
      }
    }
  }

  /** Read from a rectangle of cells, the cubes go through any number of
      cycles without a panic, the box growing by one in every direction
      each time. */
  lemma FromRectangleCycles(lines: seq<string>, w: nat, dimension: nat, n: nat)
    requires |lines| > 0 && w > 0 && Rectangle(lines, w) && AllStates(lines)
    ensures GridOf(lines, dimension).Ok?
    ensures var lo, hi := GridPoint(0, 0, dimension), GridPoint(w - 1, |lines| - 1, dimension);
      Cycles(GridOf(lines, dimension).value, n).Ok? &&
      Cycles(GridOf(lines, dimension).value, n).value.cubes.Keys == BoxSet(Shift(lo, -(n as int)), Shift(hi, n))
  {
    GridBox(lines, w, dimension);
    CyclesBox(GridOf(lines, dimension).value, GridPoint(0, 0, dimension), GridPoint(w - 1, |lines| - 1, dimension), n);
  }
}
