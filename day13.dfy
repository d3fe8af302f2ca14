/** Day 13: bus timetables (src/day13.rs). Bus `b` departs at every
    multiple of `b`; part 1 picks the first bus after a given time, part 2
    searches for the first timestamp at which every bus departs at its
    offset. */
module Day13 {
  import opened Util

  // ---------------------------------------------------------------------
  // Part 1

  /** `bus_departure`: the first multiple of `bus` strictly after `t` (so
      t + bus when `bus` divides `t`). */
  function BusDeparture(bus: nat, t: nat): (d: nat)
    requires bus > 0
    ensures d % bus == 0 && t < d <= t + bus
    ensures forall m: nat :: m % bus == 0 && m > t ==> m >= d
    ensures t % bus == 0 ==> d == t + bus
  {
    var d := t + bus - t % bus;
    assert d == (t / bus + 1) * bus;
    AddMultiple(0, t / bus + 1, bus);
    forall m: nat | m % bus == 0 && m > t
      ensures m >= d
    {
      assert m == (m / bus) * bus;
      if m / bus <= t / bus {
        MulMonotone(m / bus, t / bus, bus);
        assert false;
      }
      MulMonotone(t / bus + 1, m / bus, bus);
    }
    d
  }

  lemma MulMonotone(a: nat, b: nat, c: nat)
    requires a <= b
    ensures a * c <= b * c
  {
    assert b * c == a * c + (b - a) * c;
  }

  predicate PositiveBusses(busses: seq<nat>)
  {
    forall i :: 0 <= i < |busses| ==> busses[i] > 0
  }

  /** Tuple order on (departure, bus): an earlier departure, or an equal
      one on a smaller bus. */
  predicate Before(a: (nat, nat), b: (nat, nat))
  {
    a.0 < b.0 || (a.0 == b.0 && a.1 <= b.1)
  }

  /** `min` over the (departure, bus) tuples. */
  function MinDeparture(busses: seq<nat>, t: nat): (m: (nat, nat))
    requires |busses| > 0 && PositiveBusses(busses)
    ensures m.1 in busses && m.0 == BusDeparture(m.1, t)
    ensures forall i :: 0 <= i < |busses| ==> Before(m, (BusDeparture(busses[i], t), busses[i]))
  {
    var last := busses[|busses| - 1];
    var c := (BusDeparture(last, t), last);
    if |busses| == 1 then c
    else
      var m := MinDeparture(busses[..|busses| - 1], t);
      if c.0 < m.0 || (c.0 == m.0 && c.1 < m.1) then c else m
  }

  /** `best_bus_and_wait`: the bus leaving first (the smaller one on a
      tie) and how long it is after `t`. An empty list panics in `unwrap`,
      and a zero bus in `%`. */
  function BestBusAndWait(busses: seq<nat>, t: nat): (r: Result<(nat, nat)>)
    ensures r.Ok? <==> |busses| > 0 && PositiveBusses(busses)
    ensures r.Ok? ==> var (best, wait) := r.value;
      best in busses && best > 0 && 0 < wait <= best && (t + wait) % best == 0
    ensures r.Ok? ==> var (best, wait) := r.value;
      forall i :: 0 <= i < |busses| ==>
        t + wait < BusDeparture(busses[i], t) || (t + wait == BusDeparture(busses[i], t) && best <= busses[i])
  {
    if |busses| > 0 && PositiveBusses(busses) then
      var (departure, best) := MinDeparture(busses, t);
      Ok((best, departure - t))
    else Panic
  }

  /** The unit tests of part 1. */
  lemma DepartureExamples()
    ensures BusDeparture(7, 939) == 945 && BusDeparture(13, 939) == 949 && BusDeparture(59, 939) == 944
    ensures BusDeparture(31, 939) == 961 && BusDeparture(19, 939) == 950
    ensures BestBusAndWait([7, 13, 59, 31, 19], 939) == Ok((59, 5))
  {
    var busses: seq<nat> := [7, 13, 59, 31, 19];
    var m := MinDeparture(busses, 939);
    assert Before(m, (944, 59)) by { assert busses[2] == 59; }
    assert m.1 == 7 || m.1 == 13 || m.1 == 59 || m.1 == 31 || m.1 == 19;
  }

  // ---------------------------------------------------------------------
  // Part 2

  /** The (bus, index) pairs `puzzle_2_line` keeps from the pieces of a
      comma-separated line: one per piece that is not "x", in order. A
      piece that is neither "x" nor a number panics. */
  function BusOffsets(pieces: seq<string>): (r: Result<seq<(nat, nat)>>)
    ensures r.Ok? <==> forall i :: 0 <= i < |pieces| && pieces[i] != "x" ==> ParseNat(pieces[i]).Some?
  {
    if pieces == [] then Ok([])
    else
      var n := |pieces| - 1;
      assert forall i :: 0 <= i < n ==> pieces[..n][i] == pieces[i];
      match BusOffsets(pieces[..n])
      case Panic => Panic
      case Ok(offsets) =>
        if pieces[n] == "x" then Ok(offsets)
        else
          match ParseNat(pieces[n])
          case None => Panic
          case Some(bus) => Ok(offsets + [(bus, n)])
  }

  /** Every pair comes from a numeric piece at its index, the indices
      increase, and every piece that is not "x" gives a pair. */
  lemma {:induction false} BusOffsetsSpec(pieces: seq<string>)
    requires BusOffsets(pieces).Ok?
    ensures var r := BusOffsets(pieces).value;
      forall k :: 0 <= k < |r| ==> r[k].1 < |pieces| && pieces[r[k].1] != "x" && ParseNat(pieces[r[k].1]) == Some(r[k].0)
    ensures var r := BusOffsets(pieces).value;
      forall j, k :: 0 <= j < k < |r| ==> r[j].1 < r[k].1
    ensures var r := BusOffsets(pieces).value;
      forall i :: 0 <= i < |pieces| && pieces[i] != "x" ==> exists k :: 0 <= k < |r| && r[k].1 == i
  {
    if pieces != [] {
      var n := |pieces| - 1;
      var init := pieces[..n];
      assert forall i :: 0 <= i < n ==> init[i] == pieces[i];
      BusOffsetsSpec(init);
      var offsets := BusOffsets(init).value;
      var r := BusOffsets(pieces).value;
      if pieces[n] == "x" {
        assert r == offsets;
      } else {
        assert r == offsets + [(ParseNat(pieces[n]).value, n)];
      }
      forall i | 0 <= i < |pieces| && pieces[i] != "x"
        ensures exists k :: 0 <= k < |r| && r[k].1 == i
      {
        if i == n {
          assert r[|offsets|].1 == n;
        } else {
          assert init[i] != "x";
          var k :| 0 <= k < |offsets| && offsets[k].1 == i;
          assert r[k] == offsets[k];
        }
      }
    }
  }

  /** `puzzle_2_line`: the pieces between commas give one (bus, index)
      pair per piece that is not "x", in the order of the pieces; it panics
      exactly when such a piece is not a number. */
  function Puzzle2Line(line: string): (r: Result<seq<(nat, nat)>>)
    ensures var pieces := Split(line, ',');
            r.Ok? <==> forall i :: 0 <= i < |pieces| && pieces[i] != "x" ==> ParseNat(pieces[i]).Some?
    ensures var pieces := Split(line, ',');
            r.Ok? ==> forall k :: 0 <= k < |r.value| ==>
              r.value[k].1 < |pieces| && pieces[r.value[k].1] != "x" && ParseNat(pieces[r.value[k].1]) == Some(r.value[k].0)
    ensures r.Ok? ==> forall j, k :: 0 <= j < k < |r.value| ==> r.value[j].1 < r.value[k].1
    ensures var pieces := Split(line, ',');
            r.Ok? ==> forall i :: 0 <= i < |pieces| && pieces[i] != "x" ==> exists k :: 0 <= k < |r.value| && r.value[k].1 == i
  {
    var pieces := Split(line, ',');
    if BusOffsets(pieces).Ok? then
      BusOffsetsSpec(pieces);
      BusOffsets(pieces)
    else
      Panic
  }

  /** `timestamp_works`: every bus departs `offset` minutes after `t`. The
      check stops at the first bus that fails, so a zero bus panics only
      once every earlier pair has passed. */
  function TimestampWorks(t: nat, offsets: seq<(nat, nat)>): Result<bool>
  {
    if offsets == [] then Ok(true)
    else
      var (bus, offset) := offsets[0];
      if bus == 0 then Panic
      else if (t + offset) % bus != 0 then Ok(false)
      else TimestampWorks(t, offsets[1..])
  }

  /** A timestamp works exactly when every offset timestamp is divisible
      by its (nonzero) bus. */
  lemma {:induction false} TimestampWorksIff(t: nat, offsets: seq<(nat, nat)>)
    ensures TimestampWorks(t, offsets) == Ok(true) <==>
      forall i :: 0 <= i < |offsets| ==> offsets[i].0 > 0 && (t + offsets[i].1) % offsets[i].0 == 0
  {
    if offsets != [] {
      assert forall i :: 1 <= i < |offsets| ==> offsets[i] == offsets[1..][i - 1];
      TimestampWorksIff(t, offsets[1..]);
    }
  }

  /** Once some timestamp works no bus is zero, so no other timestamp
      panics. */
  lemma {:induction false} WorksNeverPanics(t: nat, u: nat, offsets: seq<(nat, nat)>)
    requires TimestampWorks(t, offsets) == Ok(true)
    ensures TimestampWorks(u, offsets).Ok?
  {
    if offsets != [] {
      assert forall i :: 1 <= i < |offsets| ==> offsets[i] == offsets[1..][i - 1];
      WorksNeverPanics(t, u, offsets[1..]);
    }
  }

  /** A check panics only on a zero bus. */
  lemma {:induction false} PanicHasZeroBus(t: nat, offsets: seq<(nat, nat)>)
    requires TimestampWorks(t, offsets) == Panic
    ensures exists i :: 0 <= i < |offsets| && offsets[i].0 == 0
  {
    if offsets[0].0 != 0 {
      PanicHasZeroBus(t, offsets[1..]);
      var i :| 0 <= i < |offsets[1..]| && offsets[1..][i].0 == 0;
      assert offsets[i + 1].0 == 0;
    }
  }

  /** The search stops: from 1 on, some timestamp works or its check
      panics on a zero bus. */
  ghost predicate SearchStops(offsets: seq<(nat, nat)>)
  {
    exists t: nat :: t >= 1 && TimestampWorks(t, offsets) != Ok(false)
  }

  /** `earliest_timestamp_brute_for`: counting up from 1 to the first
      timestamp that works. When a bus is zero the check of the first
      timestamp that passes the earlier busses panics instead. The loop
      runs forever when it never stops, so the model asks that it does. */
  method EarliestTimestampBrute(offsets: seq<(nat, nat)>) returns (r: Result<nat>)
    requires SearchStops(offsets)
    ensures r.Panic? <==> exists i :: 0 <= i < |offsets| && offsets[i].0 == 0
    ensures r.Ok? ==> r.value >= 1 && TimestampWorks(r.value, offsets) == Ok(true)
    ensures r.Ok? ==> forall t: nat :: 1 <= t < r.value ==> TimestampWorks(t, offsets) == Ok(false)
  {
    ghost var goal: nat :| goal >= 1 && TimestampWorks(goal, offsets) != Ok(false);
    var timestamp := 1;
    var works := TimestampWorks(timestamp, offsets);
    while works == Ok(false)
      invariant 1 <= timestamp <= goal
      invariant works == TimestampWorks(timestamp, offsets)
      invariant forall t: nat :: 1 <= t < timestamp ==> TimestampWorks(t, offsets) == Ok(false)
      decreases goal - timestamp
    {
      timestamp := timestamp + 1;
      works := TimestampWorks(timestamp, offsets);
    }
    TimestampWorksIff(timestamp, offsets);
    if works.Panic? {
      PanicHasZeroBus(timestamp, offsets);
      return Panic;
    }
    OkTrue(works);
    r := Ok(timestamp);
  }

  lemma OkFalse(r: Result<bool>)
    requires r.Ok? && r != Ok(true)
    ensures r == Ok(false)
  {
    var v: bool := r.value;
    assert r == Ok(v);
    assert v == false;
  }

  lemma OkTrue(r: Result<bool>)
    requires r.Ok? && r != Ok(false)
    ensures r == Ok(true)
  {
    var v: bool := r.value;
    assert r == Ok(v);
    assert v == true;
  }

  /** A number divisible by two coprime numbers (witnessed by Bézout
      coefficients) is divisible by their product. */
  lemma DivisibleByProduct(d: int, p: int, q: int, x: int, y: int)
    requires p > 0 && q > 0 && x * p + y * q == 1 && d % p == 0 && d % q == 0
    ensures d % (p * q) == 0
  {
    var a := d / p;
    var b := d / q;
    assert d == a * p && d == b * q;
    calc {
      d;
      d * (x * p + y * q);
      x * (d * p) + y * (d * q);
      x * (b * q * p) + y * (a * p * q);
      (x * b + y * a) * (p * q);
    }
    DivModUnique(d, p * q, x * b + y * a, 0);
  }

  lemma SplitExampleText()
    ensures "17" + [','] + ("x" + [','] + ("13" + [','] + "19")) == "17,x,13,19"
  {
  }

  /** Four pieces joined by a separator that none of them holds split
      back into those pieces. */
  lemma SplitFour(a: string, b: string, c: string, d: string, sep: char)
    requires sep !in a && sep !in b && sep !in c && sep !in d
    ensures Split(a + [sep] + (b + [sep] + (c + [sep] + d)), sep) == [a, b, c, d]
  {
    SplitNone(d, sep);
    SplitCons(c, sep, d);
    SplitCons(b, sep, c + [sep] + d);
    SplitCons(a, sep, b + [sep] + (c + [sep] + d));
  }

  lemma SplitExample()
    ensures Split("17,x,13,19", ',') == ["17", "x", "13", "19"]
  {
    SplitFour("17", "x", "13", "19", ',');
    SplitExampleText();
  }

  lemma BusOffsetsExample()
    ensures BusOffsets(["17", "x", "13", "19"]) == Ok([(17, 0), (13, 2), (19, 3)])
  {
    var pieces := ["17", "x", "13", "19"];
    ParseNatToString(17);
    assert NatToString(17) == "17";
    ParseNatToString(13);
    assert NatToString(13) == "13";
    ParseNatToString(19);
    assert NatToString(19) == "19";
    assert pieces[..3] == ["17", "x", "13"] && pieces[..3][..2] == ["17", "x"] && pieces[..3][..2][..1] == ["17"];
    assert ["17"][..0] == [];
    assert BusOffsets([]) == Ok([]);
    assert "17" != "x" && "13" != "x" && "19" != "x";
    assert [] + [(17, 0)] == [(17, 0)];
    assert BusOffsets(["17"]) == Ok([(17, 0)]);
    assert BusOffsets(["17", "x"]) == Ok([(17, 0)]);
    assert ["17", "x", "13"][..2] == ["17", "x"];
    assert [(17, 0)] + [(13, 2)] == [(17, 0), (13, 2)];
    assert BusOffsets(["17", "x", "13"]) == Ok([(17, 0), (13, 2)]);
    assert [(17, 0), (13, 2)] + [(19, 3)] == [(17, 0), (13, 2), (19, 3)];
  }

  /** `puzzle_2_line("17,x,13,19")`. */
  lemma Puzzle2LineExample()
    ensures Puzzle2Line("17,x,13,19") == Ok([(17, 0), (13, 2), (19, 3)])
  {
    SplitExample();
    BusOffsetsExample();
  }

  /** 3417 is the first timestamp that works for the offsets of
      "17,x,13,19": any solution differs from it by a multiple of
      17·13·19. */
  lemma EarliestExample()
    ensures TimestampWorks(3417, [(17, 0), (13, 2), (19, 3)]) == Ok(true)
    ensures forall t: nat :: 1 <= t < 3417 ==> TimestampWorks(t, [(17, 0), (13, 2), (19, 3)]) == Ok(false)
  {
    var offsets := [(17, 0), (13, 2), (19, 3)];
    forall t: nat | 1 <= t < 3417
      ensures TimestampWorks(t, offsets) == Ok(false)
    {
      WorksNeverPanics(3417, t, offsets);
      if TimestampWorks(t, offsets) != Ok(true) {
        OkFalse(TimestampWorks(t, offsets));
      } else {
        TimestampWorksIff(t, offsets);
        assert offsets[0] == (17, 0) && offsets[1] == (13, 2) && offsets[2] == (19, 3);
        CongruentTo3417(t);
        DivModUnique(3417 - t, 4199, 0, 3417 - t);
        assert false;
      }
    }
  }

  lemma CongruentTo3417(t: nat)
    requires t % 17 == 0 && (t + 2) % 13 == 0 && (t + 3) % 19 == 0
    ensures (3417 - t) % 4199 == 0
  {
    var d: int := 3417 - t as int;
    var a, b, c := t / 17, (t + 2) / 13, (t + 3) / 19;
    assert t == 17 * a && t + 2 == 13 * b && t + 3 == 19 * c;
    DivModUnique(d, 17, 201 - a, 0);
    DivModUnique(d, 13, 263 - b, 0);
    DivModUnique(d, 19, 180 - c, 0);
    DivisibleByProduct(d, 17, 13, -3, 4);
    DivisibleByProduct(d, 221, 19, 8, -93);
  }

  /** The other goals of the unit tests are the earliest timestamps from 1
      on that work for their lines' offsets. */
  lemma TimestampExamples()
    ensures TimestampWorks(754018, [(67, 0), (7, 1), (59, 2), (61, 3)]) == Ok(true)
    ensures forall t: nat :: 1 <= t < 754018 ==> TimestampWorks(t, [(67, 0), (7, 1), (59, 2), (61, 3)]) == Ok(false)
    ensures TimestampWorks(779210, [(67, 0), (7, 2), (59, 3), (61, 4)]) == Ok(true)
    ensures forall t: nat :: 1 <= t < 779210 ==> TimestampWorks(t, [(67, 0), (7, 2), (59, 3), (61, 4)]) == Ok(false)
    ensures TimestampWorks(1261476, [(67, 0), (7, 1), (59, 3), (61, 4)]) == Ok(true)
    ensures forall t: nat :: 1 <= t < 1261476 ==> TimestampWorks(t, [(67, 0), (7, 1), (59, 3), (61, 4)]) == Ok(false)
    ensures TimestampWorks(1202161486, [(1789, 0), (37, 1), (47, 2), (1889, 3)]) == Ok(true)
    ensures forall t: nat :: 1 <= t < 1202161486 ==> TimestampWorks(t, [(1789, 0), (37, 1), (47, 2), (1889, 3)]) == Ok(false)
  {
    EarliestOfFour(754018, [(67, 0), (7, 1), (59, 2), (61, 3)], 2, -19, -20, 159, -8, 3629);
    EarliestOfFour(779210, [(67, 0), (7, 2), (59, 3), (61, 4)], 2, -19, -20, 159, -8, 3629);
    EarliestOfFour(1261476, [(67, 0), (7, 1), (59, 3), (61, 4)], 2, -19, -20, 159, -8, 3629);
    EarliestOfFour(1202161486, [(1789, 0), (37, 1), (47, 2), (1889, 3)], -17, 822, -11, 15492, -253, 416676);
  }

  /** Two timestamps that both work for a bus differ by a multiple of it. */
  lemma SameRemainder(t0: nat, t: nat, bus: nat, offset: nat)
    requires bus > 0 && (t0 + offset) % bus == 0 && (t + offset) % bus == 0
    ensures (t0 - t) % bus == 0
  {
    var a, b := (t0 + offset) / bus, (t + offset) / bus;
    assert t0 + offset == a * bus && t + offset == b * bus;
    DivModUnique(t0 - t, bus, a - b, 0);
  }

  /** A timestamp that works for four busses, pairwise coprime as the
      Bezout coefficients show, and that lies below their product is the
      earliest timestamp from 1 on that works. */
  lemma EarliestOfFour(t0: nat, offsets: seq<(nat, nat)>, x1: int, y1: int, x2: int, y2: int, x3: int, y3: int)
    requires |offsets| == 4 && TimestampWorks(t0, offsets) == Ok(true)
    requires x1 * offsets[0].0 + y1 * offsets[1].0 == 1
    requires x2 * (offsets[0].0 * offsets[1].0) + y2 * offsets[2].0 == 1
    requires x3 * (offsets[0].0 * offsets[1].0 * offsets[2].0) + y3 * offsets[3].0 == 1
    requires t0 < offsets[0].0 * offsets[1].0 * offsets[2].0 * offsets[3].0
    ensures forall t: nat :: 1 <= t < t0 ==> TimestampWorks(t, offsets) == Ok(false)
  {
    var p, q, r, u := offsets[0].0, offsets[1].0, offsets[2].0, offsets[3].0;
    TimestampWorksIff(t0, offsets);
    assert p > 0 && q > 0 && r > 0 && u > 0;
    assert p * q > 0 && p * q * r > 0 && p * q * r * u > 0;
    forall t: nat | 1 <= t < t0
      ensures TimestampWorks(t, offsets) == Ok(false)
    {
      WorksNeverPanics(t0, t, offsets);
      if TimestampWorks(t, offsets) != Ok(true) {
        OkFalse(TimestampWorks(t, offsets));
      } else {
        TimestampWorksIff(t, offsets);
        var d := t0 - t;
        SameRemainder(t0, t, p, offsets[0].1);
        SameRemainder(t0, t, q, offsets[1].1);
        SameRemainder(t0, t, r, offsets[2].1);
        SameRemainder(t0, t, u, offsets[3].1);
        DivisibleByProduct(d, p, q, x1, y1);
        DivisibleByProduct(d, p * q, r, x2, y2);
        DivisibleByProduct(d, p * q * r, u, x3, y3);
        DivModUnique(d, p * q * r * u, 0, d);
        assert false;
      }
    }
  }
}
