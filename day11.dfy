/** Day 11: seating as a cellular automaton (src/day11.rs). Each round an
    empty seat with no occupied neighbour fills, an occupied seat with four
    or more occupied neighbours empties, and floor never changes; the
    iterator yields generations until one repeats. */
module Day11 {
  import opened Util

  datatype Seat = Empty | Occupied | Floor

  /** `Seat::from`: 'L', '.' and '#'; anything else is None. */
  function SeatFrom(c: char): (r: Option<Seat>)
    ensures r.Some? <==> c in {'L', '.', '#'}
  {
    match c
    case 'L' => Some(Empty)
    case '.' => Some(Floor)
    case '#' => Some(Occupied)
    case _ => None
  }

  /** `as_char`: the character `from` reads back as the same seat. */
  function AsChar(s: Seat): (c: char)
    ensures SeatFrom(c) == Some(s)
  {
    match s
    case Empty => 'L'
    case Floor => '.'
    case Occupied => '#'
  }

  /** `from` and `as_char` are inverse bijections between seats and the
      three characters. */
  lemma SeatCharRoundTrip(s: Seat, c: char)
    ensures SeatFrom(AsChar(s)) == Some(s)
    ensures SeatFrom(c) == Some(s) ==> AsChar(s) == c
  {
  }

  // ---------------------------------------------------------------------
  // Directions

  datatype Dir = N | Ne | E | Se | S | Sw | W | Nw

  /** `neighbor`: the cell one step away in that direction, as signed
      coordinates (the source's compass labels are mirrored, which does not
      matter since all eight are used). */
  function Neighbor(d: Dir, col: nat, row: nat): (r: (int, int))
    ensures r != (col as int, row as int)
    ensures -1 <= r.0 - col <= 1 && -1 <= r.1 - row <= 1
  {
    var (dCol, dRow) := match d
      case N => (0, -1)
      case Ne => (-1, -1)
      case E => (-1, 0)
      case Se => (-1, 1)
      case S => (0, 1)
      case Sw => (1, 1)
      case W => (1, 0)
      case Nw => (1, -1);
    (col + dCol, row + dRow)
  }

  /** Different directions lead to different cells: the eight neighbours
      are distinct. */
  lemma NeighborInjective(d1: Dir, d2: Dir, col: nat, row: nat)
    requires Neighbor(d1, col, row) == Neighbor(d2, col, row)
    ensures d1 == d2
  {
  }

  /** The order `DirIter` yields. */
  const AllDirs: seq<Dir> := [N, Ne, E, Se, S, Sw, W, Nw]

  /** The direction after `d`, None after the last. */
  function NextDir(d: Dir): (r: Option<Dir>)
    ensures r.None? <==> d == Nw
  {
    match d
    case N => Some(Ne)
    case Ne => Some(E)
    case E => Some(Se)
    case Se => Some(S)
    case S => Some(Sw)
    case Sw => Some(W)
    case W => Some(Nw)
    case Nw => None
  }

  /** `NextDir` steps through `AllDirs`. */
  lemma NextDirFollowsOrder(k: nat)
    requires k < |AllDirs|
    ensures NextDir(AllDirs[k]) == if k + 1 < |AllDirs| then Some(AllDirs[k + 1]) else None
  {
  }

  /** `DirIter`: the next direction to yield, None when exhausted. */
  class DirIter {
    var d: Option<Dir>

    constructor ()
      ensures d == Some(N)
    {
      d := Some(N);
    }

    /** `next`: yield the held direction and advance to its successor. */
    method Next() returns (r: Option<Dir>)
      modifies this
      ensures r == old(d)
      ensures d == if old(d).None? then None else NextDir(old(d).value)
    {
      match d
      case None =>
        r := None;
      case Some(cur) =>
        d := NextDir(cur);
        r := Some(cur);
    }
  }

  /** `DirIter::new().collect()`: exactly N, Ne, E, Se, S, Sw, W, Nw. */
  method CollectDirs() returns (ds: seq<Dir>)
    ensures ds == AllDirs
  {
    var it := new DirIter();
    ds := [];
    var x := it.Next();
    while x.Some?
      invariant |ds| < |AllDirs| ==> x == Some(AllDirs[|ds|])
      invariant |ds| == |AllDirs| ==> x.None?
      invariant |ds| <= |AllDirs| && ds == AllDirs[..|ds|]
      invariant it.d == if |ds| + 1 < |AllDirs| then Some(AllDirs[|ds| + 1]) else None
      decreases |AllDirs| - |ds|
    {
      ds := ds + [x.value];
      if |ds| < |AllDirs| {
        NextDirFollowsOrder(|ds|);
      }
      x := it.Next();
    }
  }

  /** The `test_dir` neighbours of (4, 4). */
  lemma NeighborExample()
    ensures seq(8, k requires 0 <= k < 8 => Neighbor(AllDirs[k], 4, 4))
      == [(4, 3), (3, 3), (3, 4), (3, 5), (4, 5), (5, 5), (5, 4), (5, 3)]
  {
  }

  // ---------------------------------------------------------------------
  // The grid

  type Grid = seq<seq<Seat>>

  /** Every row as long as the first. */
  predicate Rectangular(g: Grid)
  {
    forall r :: 0 <= r < |g| ==> |g[r]| == |g[0]|
  }

  /** No row shorter than the first. `width` reads row 0, so only such
      grids can be read everywhere inside the width. */
  predicate Covered(g: Grid)
  {
    forall r :: 0 <= r < |g| ==> |g[r]| >= |g[0]|
  }

  /** `in_bounds_i`: non-negative and below the width and height. `width`
      indexes row 0, so the grid must not be empty. */
  predicate InBounds(g: Grid, col: int, row: int)
    requires |g| > 0
  {
    col >= 0 && row >= 0 && col < |g[0]| && row < |g|
  }

  /** `seat_i`: the seat at a cell, Floor outside the grid. A cell inside
      the width of row 0 but past the end of its own, shorter, row is an
      index out of bounds, which panics. */
  function SeatAt(g: Grid, col: int, row: int): (s: Result<Seat>)
    requires |g| > 0
    ensures s.Panic? <==> InBounds(g, col, row) && col >= |g[row]|
    ensures s.Ok? ==> s.value == if InBounds(g, col, row) then g[row][col] else Floor
  {
    if InBounds(g, col, row) then
      if col < |g[row]| then Ok(g[row][col]) else Panic
    else Ok(Floor)
  }

  /** A grid can be read at every cell exactly when no row is shorter than
      the first. */
  lemma CoveredSeats(g: Grid)
    requires |g| > 0
    ensures Covered(g) <==> forall col: int, row: int :: SeatAt(g, col, row).Ok?
  {
    if !Covered(g) {
      var r :| 0 <= r < |g| && |g[r]| < |g[0]|;
      assert SeatAt(g, |g[r]|, r).Panic?;
    }
  }

  /** How many of the directions in `dirs` lead to an occupied seat; the
      first seat read that panics ends the count. */
  function CountOccupied(g: Grid, col: nat, row: nat, dirs: seq<Dir>): (n: Result<nat>)
    requires |g| > 0
    ensures n.Panic? <==> exists i :: 0 <= i < |dirs| &&
                                      SeatAt(g, Neighbor(dirs[i], col, row).0, Neighbor(dirs[i], col, row).1).Panic?
    ensures n.Ok? ==> n.value <= |dirs|
  {
    if dirs == [] then Ok(0)
    else
      var (c, r) := Neighbor(dirs[0], col, row);
      match (SeatAt(g, c, r), CountOccupied(g, col, row, dirs[1..]))
      case (Panic, _) => Panic
      case (Ok(s), Panic) =>
        assert forall i :: 1 <= i < |dirs| ==> dirs[1..][i - 1] == dirs[i];
        Panic
      case (Ok(s), Ok(k)) =>
        assert forall i :: 1 <= i < |dirs| ==> dirs[1..][i - 1] == dirs[i];
        Ok((if s == Occupied then 1 else 0) + k)
  }

  /** `num_adj_occupied`: None outside the grid, otherwise the number of the
      eight neighbours that are occupied, or the panic of reading one. */
  function NumAdjOccupied(g: Grid, col: nat, row: nat): (r: Result<Option<nat>>)
    requires |g| > 0
    ensures !InBounds(g, col, row) ==> r == Ok(None)
    ensures InBounds(g, col, row) ==> r.Panic? || r.value.Some?
    ensures r.Ok? && r.value.Some? ==> r.value.value <= 8
    ensures Covered(g) ==> r.Ok?
  {
    if InBounds(g, col, row) then
      CoveredSeats(g);
      match CountOccupied(g, col, row, AllDirs)
      case Panic => Panic
      case Ok(n) => Ok(Some(n))
    else Ok(None)
  }

  /** The neighbour in direction `d` is an occupied seat. */
  predicate OccupiedToward(g: Grid, col: nat, row: nat, d: Dir)
    requires |g| > 0
  {
    SeatAt(g, Neighbor(d, col, row).0, Neighbor(d, col, row).1) == Ok(Occupied)
  }

  /** The counted neighbours are exactly the occupied ones among the
      distinct directions `dirs`. */
  lemma {:induction false} CountOccupiedIsCardinality(g: Grid, col: nat, row: nat, dirs: seq<Dir>)
    requires |g| > 0 && CountOccupied(g, col, row, dirs).Ok?
    requires forall i, j :: 0 <= i < j < |dirs| ==> dirs[i] != dirs[j]
    ensures CountOccupied(g, col, row, dirs).value == |set d | d in dirs && OccupiedToward(g, col, row, d)|
  {
    if dirs != [] {
      var rest := dirs[1..];
      assert forall i, j :: 0 <= i < j < |rest| ==> rest[i] != rest[j] by {
        forall i, j | 0 <= i < j < |rest| ensures rest[i] != rest[j] {
          assert rest[i] == dirs[i + 1] && rest[j] == dirs[j + 1];
        }
      }
      CountOccupiedIsCardinality(g, col, row, rest);
      OccupiedSplit(g, col, row, dirs);
    }
  }

  /** The occupied directions of a list: those of its tail, and its head if
      that one is occupied, which is not among the tail's. */
  lemma OccupiedSplit(g: Grid, col: nat, row: nat, dirs: seq<Dir>)
    requires |g| > 0 && dirs != []
    requires forall i, j :: 0 <= i < j < |dirs| ==> dirs[i] != dirs[j]
    ensures var all := set d | d in dirs && OccupiedToward(g, col, row, d);
      var later := set d | d in dirs[1..] && OccupiedToward(g, col, row, d);
      dirs[0] !in later &&
      all == if OccupiedToward(g, col, row, dirs[0]) then later + {dirs[0]} else later
  {
    var rest := dirs[1..];
    assert dirs == [dirs[0]] + rest;
    assert dirs[0] !in rest by {
      forall k | 0 <= k < |rest| ensures rest[k] != dirs[0] {
        assert rest[k] == dirs[k + 1];
      }
    }
  }

  /** The rule applied to one seat with `adj` occupied neighbours. */
  function NewSeat(seat: Seat, adj: nat): (r: Seat)
    ensures seat == Floor ==> r == Floor
    ensures r != seat <==> (seat == Empty && adj == 0) || (seat == Occupied && adj >= 4)
  {
    if seat == Empty && adj == 0 then Occupied
    else if seat == Occupied && adj >= 4 then Empty
    else seat
  }

  /** The cells `iterate` reads with `seat(col, row)`: every row, up to the
      width of row 0. */
  predicate SeatReadPanics(g: Grid)
  {
    |g| > 0 && exists row, col :: 0 <= row < |g| && 0 <= col < |g[0]| && SeatAt(g, col, row).Panic?
  }

  /** `iterate`: every cell of the next generation by the rule, over the
      height and the width of row 0. Reading a cell of a shorter row
      panics; a longer row is cut to the width of row 0. */
  function Iterate(g: Grid): (next: Result<Grid>)
    ensures next.Panic? <==> !Covered(g)
    ensures next.Ok? ==> |next.value| == |g| && Rectangular(next.value)
    ensures next.Ok? && |g| > 0 ==> forall row :: 0 <= row < |g| ==> |next.value[row]| == |g[0]|
  {
    if |g| == 0 then Ok([])
    else if SeatReadPanics(g) then Panic
    else
      CoveredSeats(g);
      Ok(seq(|g|, row requires 0 <= row < |g| =>
        seq(|g[0]|, col requires 0 <= col < |g[0]| =>
          NewSeat(g[row][col], NumAdjOccupied(g, col, row).value.value))))
  }

  /** No seat within the width of row 0 wants to change. */
  ghost predicate Stable(g: Grid)
    requires |g| > 0 && Covered(g)
  {
    forall row, col :: 0 <= row < |g| && 0 <= col < |g[0]| ==>
      !(g[row][col] == Empty && NumAdjOccupied(g, col, row).value.value == 0)
      && !(g[row][col] == Occupied && NumAdjOccupied(g, col, row).value.value >= 4)
  }

  /** `iterate` gives the grid back exactly when it is rectangular and no
      seat wants to change, and it never turns floor into a seat. */
  lemma IterateFixpoint(g: Grid)
    requires |g| > 0
    ensures Iterate(g) == Ok(g) <==> Rectangular(g) && Stable(g)
    ensures Iterate(g).Ok? ==>
      forall row, col :: 0 <= row < |g| && 0 <= col < |g[0]| && g[row][col] == Floor ==>
        Iterate(g).value[row][col] == Floor
  {
    if Covered(g) {
      var next := Iterate(g).value;
      if Rectangular(g) && Stable(g) {
        forall row | 0 <= row < |g| ensures next[row] == g[row] {
          forall col | 0 <= col < |g[row]| ensures next[row][col] == g[row][col] {
            assert next[row][col] == NewSeat(g[row][col], NumAdjOccupied(g, col, row).value.value);
          }
        }
      }
      if next == g {
        forall row, col | 0 <= row < |g| && 0 <= col < |g[0]|
          ensures !(g[row][col] == Empty && NumAdjOccupied(g, col, row).value.value == 0)
          ensures !(g[row][col] == Occupied && NumAdjOccupied(g, col, row).value.value >= 4)
        {
          assert next[row][col] == NewSeat(g[row][col], NumAdjOccupied(g, col, row).value.value);
        }
      }
    }
  }

  lemma {:induction false} CountOccupiedNone(g: Grid, col: nat, row: nat, dirs: seq<Dir>)
    requires |g| > 0
    requires forall r, c :: 0 <= r < |g| && 0 <= c < |g[r]| ==> g[r][c] != Occupied
    ensures CountOccupied(g, col, row, dirs).Ok? ==> CountOccupied(g, col, row, dirs).value == 0
  {
    if dirs != [] {
      CountOccupiedNone(g, col, row, dirs[1..]);
    }
  }

  /** The first round of the example: with nobody seated, every empty seat
      fills and floor stays floor. */
  lemma IterateFromNobody(g: Grid)
    requires |g| > 0 && Covered(g)
    requires forall r, c :: 0 <= r < |g| && 0 <= c < |g[r]| ==> g[r][c] != Occupied
    ensures Iterate(g).Ok?
    ensures forall r, c :: 0 <= r < |g| && 0 <= c < |g[0]| ==>
      Iterate(g).value[r][c] == if g[r][c] == Empty then Occupied else Floor
  {
    forall r, c | 0 <= r < |g| && 0 <= c < |g[0]|
      ensures Iterate(g).value[r][c] == if g[r][c] == Empty then Occupied else Floor
    {
      CountOccupiedNone(g, c, r, AllDirs);
    }
  }

  // ---------------------------------------------------------------------
  // The generations

  /** What `GameOfSeatsIterator::next` does to the held generation: none
      once a round changes nothing, or the panic of that round. */
  function NextHeld(held: Option<Grid>): (r: Result<Option<Grid>>)
    ensures held.None? ==> r == Ok(None)
    ensures held.Some? ==> (r.Panic? <==> !Covered(held.value))
    ensures r.Ok? && r.value.Some? ==> Rectangular(r.value.value) && r.value != held
  {
    match held
    case None => Ok(None)
    case Some(gos) =>
      match Iterate(gos)
      case Panic => Panic
      case Ok(candidate) => if candidate == gos then Ok(None) else Ok(Some(candidate))
  }

  /** The held value after `k` calls of `next`, starting from `Some(g)`. */
  function HeldAfter(g: Grid, k: nat): (r: Result<Option<Grid>>)
    ensures k > 0 && r.Ok? && r.value.Some? ==> Rectangular(r.value.value)
  {
    if k == 0 then Ok(Some(g))
    else
      match HeldAfter(g, k - 1)
      case Panic => Panic
      case Ok(h) => NextHeld(h)
  }

  /** `iterate` where it does not panic, and nothing elsewhere. */
  function IterateAny(g: Grid): Grid
  {
    if Covered(g) then Iterate(g).value else g
  }

  /** From a grid with no row shorter than the first the iterator never
      panics, and its held value after `k` calls is that of an iterator
      that applies `iterate` and stops once a round changes nothing. */
  lemma {:induction false} HeldAfterIsHeld(g: Grid, k: nat)
    requires Covered(g)
    ensures HeldAfter(g, k) == Ok(Held(IterateAny, g, k))
    ensures Held(IterateAny, g, k).Some? ==> Covered(Held(IterateAny, g, k).value)
  {
    if k > 0 {
      HeldAfterIsHeld(g, k - 1);
    }
  }

  /** `x`, `f(x)`, `f(f(x))`, ... */
  function Orbit<T>(f: T -> T, x: T, k: nat): T
  {
    if k == 0 then x else f(Orbit(f, x, k - 1))
  }

  /** Held values of an iterator that applies `f` and stops at a fixed
      point. */
  function Held<T(==)>(f: T -> T, x: T, k: nat): Option<T>
  {
    if k == 0 then Some(x)
    else
      match Held(f, x, k - 1)
      case None => None
      case Some(h) => if f(h) == h then None else Some(f(h))
  }

  /** The held values are the orbit `x`, `f(x)`, ... up to and including
      the first value that `f` leaves unchanged, and none after it. */
  lemma {:induction false} HeldOrbit<T>(f: T -> T, x: T, k: nat)
    ensures Held(f, x, k).None? <==> exists j :: 0 <= j < k && Orbit(f, x, j + 1) == Orbit(f, x, j)
    ensures Held(f, x, k).Some? ==> Held(f, x, k).value == Orbit(f, x, k)
  {
    if k > 0 {
      var m := k - 1;
      HeldOrbit(f, x, m);
      assert Orbit(f, x, k) == f(Orbit(f, x, m));
      if Held(f, x, m).None? {
        var j :| 0 <= j < m && Orbit(f, x, j + 1) == Orbit(f, x, j);
        assert 0 <= j < k;
      } else if Orbit(f, x, k) == Orbit(f, x, m) {
        assert Held(f, x, k).None?;
      } else {
        if exists j :: 0 <= j < k && Orbit(f, x, j + 1) == Orbit(f, x, j) {
          var j :| 0 <= j < k && Orbit(f, x, j + 1) == Orbit(f, x, j);
          assert j < m;
        }
      }
    }
  }

  /** `GameOfSeatsIterator`: the generation to yield next, if any. */
  class GameOfSeatsIterator {
    var gos: Option<Grid>

    /** `GameOfSeats::iter`: start at `g`. */
    constructor (g: Grid)
      ensures gos == Some(g)
    {
      gos := Some(g);
    }

    /** `next`: yield the held generation and hold the next one, unless a
        round would change nothing; a round that panics ends the call. */
    method Next() returns (result: Result<Option<Grid>>)
      modifies this
      ensures result.Panic? <==> NextHeld(old(gos)).Panic?
      ensures result.Panic? ==> gos == old(gos)
      ensures result.Ok? ==> result.value == old(gos) && Ok(gos) == NextHeld(old(gos))
    {
      match gos
      case None =>
        result := Ok(None);
      case Some(g) =>
        var candidate := Iterate(g);
        if candidate.Panic? {
          return Panic;
        }
        result := Ok(gos);
        if candidate.value == g {
          gos := None;
        } else {
          gos := Some(candidate.value);
        }
    }
  }

  // ---------------------------------------------------------------------
  // Reading and printing

  /** `GameOfSeats::from` on the lines of a file: a character that is not a
      seat panics. */
  function GridFrom(lines: seq<string>): (r: Result<Grid>)
    ensures r.Ok? <==> forall k :: 0 <= k < |lines| ==> RowFrom(lines[k]).Ok?
    ensures r.Ok? ==> |r.value| == |lines| && forall k :: 0 <= k < |lines| ==> |r.value[k]| == |lines[k]|
    ensures r.Ok? ==> forall k :: 0 <= k < |lines| ==> RowFrom(lines[k]) == Ok(r.value[k])
  {
    if lines == [] then Ok([])
    else
      var init := lines[..|lines| - 1];
      assert forall k :: 0 <= k < |init| ==> init[k] == lines[k];
      match (RowFrom(lines[|lines| - 1]), GridFrom(init))
      case (Ok(row), Ok(rows)) => Ok(rows + [row])
      case (Panic, _) => Panic
      case (_, Panic) =>
        assert exists k :: 0 <= k < |init| && RowFrom(init[k]).Panic?;
        Panic
  }

  function RowFrom(line: string): (r: Result<seq<Seat>>)
    ensures r.Ok? <==> forall k :: 0 <= k < |line| ==> SeatFrom(line[k]).Some?
    ensures r.Ok? ==> |r.value| == |line| && forall k :: 0 <= k < |line| ==> SeatFrom(line[k]) == Some(r.value[k])
  {
    if line == [] then Ok([])
    else
      match (SeatFrom(line[|line| - 1]), RowFrom(line[..|line| - 1]))
      case (Some(s), Ok(init)) => Ok(init + [s])
      case (None, _) => Panic
      case (_, Panic) =>
        var init := line[..|line| - 1];
        assert exists k :: 0 <= k < |init| && SeatFrom(init[k]).None?;
        assert forall k :: 0 <= k < |init| ==> init[k] == line[k];
        Panic
  }

  /** A row as `Display` prints it (without the newline). */
  function RowString(row: seq<Seat>): (s: string)
    ensures |s| == |row| && forall k :: 0 <= k < |row| ==> s[k] == AsChar(row[k])
  {
    if row == [] then [] else RowString(row[..|row| - 1]) + [AsChar(row[|row| - 1])]
  }

  /** `Display`: each row followed by a newline. */
  function GridString(g: Grid): string
  {
    if g == [] then [] else RowString(g[0]) + "\n" + GridString(g[1..])
  }

  /** Reading the printed rows back gives the grid. */
  lemma {:induction false} GridFromRowStrings(g: Grid)
    ensures GridFrom(seq(|g|, k requires 0 <= k < |g| => RowString(g[k]))) == Ok(g)
  {
    if g != [] {
      var n := |g| - 1;
      var lines := seq(|g|, k requires 0 <= k < |g| => RowString(g[k]));
      var init := g[..n];
      GridFromRowStrings(init);
      assert lines[..n] == seq(|init|, k requires 0 <= k < |init| => RowString(init[k]));
      assert lines[n] == RowString(g[n]);
      RowFromRowString(g[n]);
      assert g == init + [g[n]];
    }
  }

  /** Reading a printed row back gives the row. */
  lemma RowFromRowString(row: seq<Seat>)
    ensures RowFrom(RowString(row)) == Ok(row)
  {
    forall k | 0 <= k < |row| ensures SeatFrom(RowString(row)[k]) == Some(row[k]) {
      SeatCharRoundTrip(row[k], RowString(row)[k]);
    }
    assert RowFrom(RowString(row)).value == row;
  }

  /** Splitting the printed grid at newlines gives the rows, then the empty
      piece after the final newline. */
  lemma {:induction false} GridStringLines(g: Grid)
    ensures Split(GridString(g), '\n') == seq(|g|, k requires 0 <= k < |g| => RowString(g[k])) + [[]]
  {
    if g == [] {
      SplitNone([], '\n');
    } else {
      var first := RowString(g[0]);
      assert '\n' !in first;
      GridStringLines(g[1..]);
      assert GridString(g) == first + ['\n'] + GridString(g[1..]);
      SplitCons(first, '\n', GridString(g[1..]));
      assert seq(|g|, k requires 0 <= k < |g| => RowString(g[k])) ==
        [first] + seq(|g[1..]|, k requires 0 <= k < |g[1..]| => RowString(g[1..][k]));
    }
  }
}
