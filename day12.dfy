/** Day 12: steering a ship by a waypoint (src/day12.rs). The waypoint is
    an offset from the ship; N/S/E/W move it, L/R turn it about the ship in
    quarter turns, and F moves the ship towards it `value` times. Positions
    are (col, row) with north at smaller rows. */
module Day12 {
  import opened Util

  /** `Position`, updated in place through `&mut`. */
  class Position {
    var col: int
    var row: int

    constructor (col: int, row: int)
      ensures this.col == col && this.row == row
    {
      this.col := col;
      this.row := row;
    }

    function Value(): (int, int)
      reads this
    {
      (col, row)
    }
  }

  /** |col| + |row|. */
  function Manhattan(p: (int, int)): nat
  {
    Abs(p.0) + Abs(p.1)
  }

  /** `manhattan_str`: the Manhattan distance from the origin, printed. */
  function ManhattanStr(p: (int, int)): (s: string)
    ensures ParseNat(s) == Some(Manhattan(p))
  {
    ParseNatToString(Manhattan(p));
    NatToString(Manhattan(p))
  }

  // ---------------------------------------------------------------------
  // Turning the waypoint

  /** One quarter turn to the right about the ship. */
  function QuarterTurn(p: (int, int)): (int, int)
  {
    (-p.1, p.0)
  }

  function Turned(p: (int, int), k: nat): (int, int)
  {
    if k == 0 then p else QuarterTurn(Turned(p, k - 1))
  }

  /** A quarter turn keeps the Manhattan distance, and four of them give
      the waypoint back. */
  lemma QuarterTurnProperties(p: (int, int))
    ensures Manhattan(QuarterTurn(p)) == Manhattan(p)
    ensures QuarterTurn(QuarterTurn(QuarterTurn(QuarterTurn(p)))) == p
  {
  }

  lemma {:induction false} TurnedManhattan(p: (int, int), k: nat)
    ensures Manhattan(Turned(p, k)) == Manhattan(p)
  {
    if k > 0 {
      TurnedManhattan(p, k - 1);
      QuarterTurnProperties(Turned(p, k - 1));
    }
  }

  /** Turns compose, so turning by k + 4 is turning by k. */
  lemma {:induction false} TurnedAdd(p: (int, int), a: nat, b: nat)
    ensures Turned(Turned(p, a), b) == Turned(p, a + b)
  {
    if b > 0 {
      TurnedAdd(p, a, b - 1);
    }
  }

  lemma TurnedPeriod(p: (int, int), k: nat)
    ensures Turned(p, k + 4) == Turned(p, k)
  {
    var q := Turned(p, k);
    TurnedAdd(p, k, 4);
    assert Turned(q, 1) == QuarterTurn(q);
    assert Turned(q, 2) == QuarterTurn(Turned(q, 1));
    assert Turned(q, 3) == QuarterTurn(Turned(q, 2));
    assert Turned(q, 4) == QuarterTurn(Turned(q, 3));
    QuarterTurnProperties(q);
  }

  /** `normalize_degrees` into [0, 360), then whole quarter turns. */
  function StepsRight(degrees: int): (k: nat)
    ensures k < 4
  {
    (degrees % 360) / 90
  }

  /** Turning left by d is turning right by 360 − d. */
  lemma LeftIsRight(degrees: int)
    ensures StepsRight(-degrees) == StepsRight(360 - degrees)
  {
    AddMultiple(-degrees, 1, 360);
  }

  /** `rotate_waypoint`: quarter turns, as many as the normalised degrees
      hold whole right angles. */
  method RotateWaypoint(p: Position, degrees: int)
    modifies p
    ensures p.Value() == Turned(old(p.Value()), StepsRight(degrees))
    ensures Manhattan(p.Value()) == Manhattan(old(p.Value()))
  {
    var stepsRight := StepsRight(degrees);
    var i := 0;
    while i < stepsRight
      invariant 0 <= i <= stepsRight && p.Value() == Turned(old(p.Value()), i)
    {
      p.col, p.row := -p.row, p.col;
      i := i + 1;
    }
    TurnedManhattan(old(p.Value()), stepsRight);
  }

  /** The `test_rotate_waypoint` turns. */
  lemma RotateExample()
    ensures StepsRight(90) == 1
    ensures Turned((10, -4), 1) == (4, 10) && Turned((4, 10), 1) == (-10, 4)
  {
  }

  // ---------------------------------------------------------------------
  // Instructions

  /** `decode_line`: the first character, and the rest parsed as a signed
      number. An empty line or an unparsable number panics. */
  function DecodeLine(line: string): (r: Result<(char, int)>)
    ensures r.Ok? <==> |line| > 0 && ParseInt(line[1..]).Some?
    ensures r.Ok? ==> r.value.0 == line[0] && Some(r.value.1) == ParseInt(line[1..])
  {
    if |line| == 0 then Panic
    else
      match ParseInt(line[1..])
      case None => Panic
      case Some(value) => Ok((line[0], value))
  }

  /** An instruction letter followed by a number decodes back. */
  lemma DecodeFormat(c: char, n: nat)
    ensures DecodeLine([c] + NatToString(n)) == Ok((c, n))
  {
    var line := [c] + NatToString(n);
    assert line[1..] == NatToString(n);
    ParseNatToString(n);
    assert NatToString(n)[0] != '-' by { assert IsDigit(NatToString(n)[0]); }
  }

  /** The unit `position_offset` of a compass letter. */
  function Offset(c: char): (int, int)
    requires c in {'N', 'S', 'E', 'W'}
  {
    match c
    case 'N' => (0, -1)
    case 'S' => (0, 1)
    case 'E' => (1, 0)
    case 'W' => (-1, 0)
  }

  /** `interpret_move_puzzle_2` on (ship, waypoint) values: None where the
      source panics. */
  function Move2(ship: (int, int), waypoint: (int, int), line: string): (r: Option<((int, int), (int, int))>)
    ensures r.Some? <==> DecodeLine(line).Ok? && DecodeLine(line).value.0 in {'N', 'S', 'E', 'W', 'F', 'L', 'R'}
  {
    match DecodeLine(line)
    case Panic => None
    case Ok((instruction, value)) =>
      if instruction in {'N', 'S', 'E', 'W'} then
        var o := Offset(instruction);
        Some((ship, (waypoint.0 + o.0 * value, waypoint.1 + o.1 * value)))
      else if instruction == 'F' then
        Some(((ship.0 + waypoint.0 * value, ship.1 + waypoint.1 * value), waypoint))
      else if instruction == 'L' then
        Some((ship, Turned(waypoint, StepsRight(-value))))
      else if instruction == 'R' then
        Some((ship, Turned(waypoint, StepsRight(value))))
      else None
  }

  /** What each instruction leaves alone: N/S/E/W and L/R never move the
      ship, F never moves the waypoint, and turns keep the waypoint's
      distance. */
  lemma Move2Frames(ship: (int, int), waypoint: (int, int), line: string)
    requires Move2(ship, waypoint, line).Some?
    ensures DecodeLine(line).value.0 != 'F' ==> Move2(ship, waypoint, line).value.0 == ship
    ensures DecodeLine(line).value.0 == 'F' ==> Move2(ship, waypoint, line).value.1 == waypoint
    ensures DecodeLine(line).value.0 in {'L', 'R'} ==>
      Manhattan(Move2(ship, waypoint, line).value.1) == Manhattan(waypoint)
  {
    var (instruction, value) := DecodeLine(line).value;
    TurnedManhattan(waypoint, StepsRight(value));
    TurnedManhattan(waypoint, StepsRight(-value));
  }

  /** `jump`: move a position by `dist` units in a compass direction. */
  method Jump(p: Position, c: char, dist: int)
    requires c in {'N', 'S', 'E', 'W'}
    modifies p
    ensures p.Value() == (old(p.col) + Offset(c).0 * dist, old(p.row) + Offset(c).1 * dist)
  {
    var o := Offset(c);
    p.col, p.row := p.col + o.0 * dist, p.row + o.1 * dist;
  }

  /** `interpret_move_puzzle_2` on the ship and the waypoint in place. A
      line the source panics on leaves both unchanged and answers Panic. */
  method InterpretMovePuzzle2(s: Position, w: Position, line: string) returns (r: Result<()>)
    requires s != w
    modifies s, w
    ensures r.Ok? <==> Move2(old(s.Value()), old(w.Value()), line).Some?
    ensures r.Ok? ==> (s.Value(), w.Value()) == Move2(old(s.Value()), old(w.Value()), line).value
    ensures r.Panic? ==> s.Value() == old(s.Value()) && w.Value() == old(w.Value())
  {
    match DecodeLine(line)
    case Panic =>
      return Panic;
    case Ok((instruction, value)) =>
      if instruction in {'N', 'S', 'E', 'W'} {
        Jump(w, instruction, value);
      } else if instruction == 'F' {
        s.col, s.row := s.col + w.col * value, s.row + w.row * value;
      } else if instruction == 'L' {
        RotateWaypoint(w, -value);
      } else if instruction == 'R' {
        RotateWaypoint(w, value);
      } else {
        return Panic;
      }
      return Ok(());
  }

  /** The ship and waypoint after every line, from the ship at the origin
      and the waypoint at (10, −1); None where a line panics. */
  function Run2(lines: seq<string>): Option<((int, int), (int, int))>
  {
    if lines == [] then Some(((0, 0), (10, -1)))
    else
      match Run2(lines[..|lines| - 1])
      case None => None
      case Some((ship, waypoint)) => Move2(ship, waypoint, lines[|lines| - 1])
  }

  /** `solve_2` on the lines: the ship's distance from the origin at the
      end. */
  method Solve2(lines: seq<string>) returns (r: Result<string>)
    ensures r.Ok? <==> Run2(lines).Some?
    ensures r.Ok? ==> ParseNat(r.value) == Some(Manhattan(Run2(lines).value.0))
  {
    var ship := new Position(0, 0);
    var waypoint := new Position(10, -1);
    var i := 0;
    while i < |lines|
      invariant 0 <= i <= |lines|
      invariant Run2(lines[..i]) == Some((ship.Value(), waypoint.Value()))
    {
      var step := InterpretMovePuzzle2(ship, waypoint, lines[i]);
      assert lines[..i + 1][..i] == lines[..i];
      if step.Panic? {
        assert Run2(lines[..i + 1]).None?;
        NoneStaysNone(lines, i + 1);
        return Panic;
      }
      i := i + 1;
    }
    assert lines[..|lines|] == lines;
    return Ok(ManhattanStr(ship.Value()));
  }

  lemma {:induction false} NoneStaysNone(lines: seq<string>, k: nat)
    requires k <= |lines| && Run2(lines[..k]).None?
    ensures Run2(lines).None?
    decreases |lines| - k
  {
    if k < |lines| {
      assert lines[..k + 1][..k] == lines[..k];
      NoneStaysNone(lines, k + 1);
    } else {
      assert lines[..k] == lines;
    }
  }

  /** The puzzle's example course F10, N3, F7, R90, F11 ends 286 from the
      origin. */
  lemma Run2Example()
    ensures Run2(["F10", "N3", "F7", "R90", "F11"]).Some?
    ensures Manhattan(Run2(["F10", "N3", "F7", "R90", "F11"]).value.0) == 286
  {
    var lines := ["F10", "N3", "F7", "R90", "F11"];
    ExampleDecodes();
    assert lines[..4] == ["F10", "N3", "F7", "R90"];
    assert lines[..4][..3] == ["F10", "N3", "F7"];
    assert lines[..4][..3][..2] == ["F10", "N3"];
    assert lines[..4][..3][..2][..1] == ["F10"];
    assert Run2(["F10"]) == Some(((100, -10), (10, -1)));
    assert Run2(["F10", "N3"]) == Some(((100, -10), (10, -4)));
    assert Run2(["F10", "N3", "F7"]) == Some(((170, -38), (10, -4)));
    assert Turned((10, -4), StepsRight(90)) == (4, 10);
    assert Run2(["F10", "N3", "F7", "R90"]) == Some(((170, -38), (4, 10)));
    assert Run2(lines) == Some(((214, 72), (4, 10)));
  }

  /** The lines of the example course decode to their instructions. */
  lemma ExampleDecodes()
    ensures DecodeLine("F10") == Ok(('F', 10)) && DecodeLine("N3") == Ok(('N', 3))
    ensures DecodeLine("F7") == Ok(('F', 7)) && DecodeLine("R90") == Ok(('R', 90))
    ensures DecodeLine("F11") == Ok(('F', 11))
  {
    DecodeFormat('F', 10);
    assert ['F'] + NatToString(10) == "F10";
    DecodeFormat('N', 3);
    assert ['N'] + NatToString(3) == "N3";
    DecodeFormat('F', 7);
    assert ['F'] + NatToString(7) == "F7";
    DecodeFormat('R', 90);
    assert ['R'] + NatToString(90) == "R90";
    DecodeFormat('F', 11);
    assert ['F'] + NatToString(11) == "F11";
  }
}
