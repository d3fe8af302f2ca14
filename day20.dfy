/** Day 20: jigsaw tiles (src/day20.rs). A tile is an id and a grid of
    pixel characters read from a block of lines; tiles can be turned by
    quarter turns, and the pieces are kept in a map by id. */
module Day20 {
  import opened Util

  type Pixels = seq<seq<char>>

  /** `Tile`. */
  datatype Tile = Tile(id: int, pixels: Pixels)

  datatype Rotation = R0 | R90 | R180 | R270

  /** The number of quarter turns of a rotation. */
  function Turns(r: Rotation): nat
  {
    match r
    case R0 => 0
    case R90 => 1
    case R180 => 2
    case R270 => 3
  }

  // ---------------------------------------------------------------------
  // Rotation

  /** One pass of the loop in `rotated`: row `y` of the new pixels is
      column `y` of the old ones read from the bottom, as many pixels as
      the old first row is wide (`new[y][x] = old[width - 1 - x][y]`).
      With no rows nothing is read; otherwise it panics when a row it
      reads is missing or too short. */
  function QuarterTurn(p: Pixels): (r: Result<Pixels>)
    ensures r.Ok? && p != [] ==> |r.value| == |p| && forall y :: 0 <= y < |p| ==> |r.value[y]| == |p[0]|
    ensures r.Ok? && p != [] ==> forall y, x :: 0 <= y < |p| && 0 <= x < |p[0]| ==>
              |p[0]| - 1 - x < |p| && y < |p[|p[0]| - 1 - x]| && r.value[y][x] == p[|p[0]| - 1 - x][y]
    ensures r.Panic? <==> p != [] && !Readable(p)
  {
    if p == [] then Ok([])
    else if !Readable(p) then Panic
    else
      var w := |p[0]|;
      Ok(seq(|p|, y requires 0 <= y < |p| => seq(w, x requires 0 <= x < w => p[w - 1 - x][y])))
  }

  /** Every row a quarter turn reads exists and is as long as the tile is
      high. */
  predicate Readable(p: Pixels)
    requires p != []
  {
    |p[0]| <= |p| && forall i :: 0 <= i < |p[0]| ==> |p[i]| >= |p|
  }

  /** `n` quarter turns in a row. */
  function TurnTimes(p: Pixels, n: nat): Result<Pixels>
  {
    if n == 0 then Ok(p)
    else
      match TurnTimes(p, n - 1)
      case Panic => Panic
      case Ok(q) => QuarterTurn(q)
  }

  /** `rotated`: a copy of the tile whose pixels are turned as many times
      as the rotation says. */
  method Rotated(tile: Tile, r: Rotation) returns (result: Result<Tile>)
    ensures result == match TurnTimes(tile.pixels, Turns(r))
                      case Panic => Panic
                      case Ok(p) => Ok(Tile(tile.id, p))
  {
    var current := tile;
    for i := 0 to Turns(r)
      invariant current.id == tile.id && TurnTimes(tile.pixels, i) == Ok(current.pixels)
    {
      var turned := QuarterTurn(current.pixels);
      if turned.Panic? {
        PanicStays(tile.pixels, i + 1, Turns(r));
        return Panic;
      }
      current := current.(pixels := turned.value);
    }
    return Ok(current);
  }

  lemma {:induction false} PanicStays(p: Pixels, i: nat, n: nat)
    requires i <= n && TurnTimes(p, i).Panic?
    ensures TurnTimes(p, n).Panic?
    decreases n - i
  {
    if i < n {
      PanicStays(p, i + 1, n);
    }
  }

  /** A square grid of side `n`. */
  predicate Square(p: Pixels, n: nat)
  {
    |p| == n && forall y :: 0 <= y < n ==> |p[y]| == n
  }

  /** A quarter turn of a square never panics, keeps it square, and moves
      the pixel at row `n - 1 - x`, column `y` to row `y`, column `x`. */
  lemma QuarterTurnSquare(p: Pixels, n: nat)
    requires Square(p, n)
    ensures QuarterTurn(p).Ok? && Square(QuarterTurn(p).value, n)
    ensures forall y, x :: 0 <= y < n && 0 <= x < n ==> QuarterTurn(p).value[y][x] == p[n - 1 - x][y]
  {
  }

  /** Four quarter turns restore a square tile. */
  lemma FourTurns(p: Pixels, n: nat)
    requires Square(p, n)
    ensures TurnTimes(p, 4) == Ok(p)
  {
    QuarterTurnSquare(p, n);
    var q1 := QuarterTurn(p).value;
    QuarterTurnSquare(q1, n);
    var q2 := QuarterTurn(q1).value;
    QuarterTurnSquare(q2, n);
    var q3 := QuarterTurn(q2).value;
    QuarterTurnSquare(q3, n);
    var q4 := QuarterTurn(q3).value;
    assert TurnTimes(p, 1) == Ok(q1);
    assert TurnTimes(p, 2) == Ok(q2);
    assert TurnTimes(p, 3) == Ok(q3);
    assert TurnTimes(p, 4) == Ok(q4);
    forall y, x | 0 <= y < n && 0 <= x < n
      ensures q4[y][x] == p[y][x]
    {
      assert q4[y][x] == q3[n - 1 - x][y] == q2[n - 1 - y][n - 1 - x] == q1[x][n - 1 - y] == p[y][x];
    }
    forall y | 0 <= y < n
      ensures q4[y] == p[y]
    {
      assert |q4[y]| == |p[y]| == n;
    }
    assert |q4| == |p|;
    assert q4 == p;
  }

  /** `rotated(R0)` is the tile itself; no rotation changes the id. */
  lemma RotatedR0(tile: Tile)
    ensures TurnTimes(tile.pixels, Turns(R0)) == Ok(tile.pixels)
  {
  }

  /** The quarter turn of a 3 by 3 grid, spelled out. */
  lemma QuarterTurn3(p: Pixels)
    requires Square(p, 3)
    ensures QuarterTurn(p) == Ok([[p[2][0], p[1][0], p[0][0]],
                                 [p[2][1], p[1][1], p[0][1]],
                                 [p[2][2], p[1][2], p[0][2]]])
  {
    QuarterTurnSquare(p, 3);
    var q := QuarterTurn(p).value;
    assert q[0] == [p[2][0], p[1][0], p[0][0]];
    assert q[1] == [p[2][1], p[1][1], p[0][1]];
    assert q[2] == [p[2][2], p[1][2], p[0][2]];
    assert q == [q[0], q[1], q[2]];
  }

  /** The rotation examples: `###/.../#.#` turned once, twice and three
      times. */
  lemma RotationExamples()
    ensures TurnTimes(["###", "...", "#.#"], Turns(R90)) == Ok(["#.#", "..#", "#.#"])
    ensures TurnTimes(["###", "...", "#.#"], Turns(R180)) == Ok(["#.#", "...", "###"])
    ensures TurnTimes(["###", "...", "#.#"], Turns(R270)) == Ok(["#.#", "#..", "#.#"])
  {
    var p := ["###", "...", "#.#"];
    var q1 := ["#.#", "..#", "#.#"];
    var q2 := ["#.#", "...", "###"];
    var q3 := ["#.#", "#..", "#.#"];
    assert Square(p, 3) && Square(q1, 3) && Square(q2, 3);
    QuarterTurn3(p);
    QuarterTurn3(q1);
    QuarterTurn3(q2);
    assert TurnTimes(p, 1) == Ok(q1);
    assert TurnTimes(p, 2) == Ok(q2);
    assert TurnTimes(p, 3) == Ok(q3);
  }

  // ---------------------------------------------------------------------
  // Reading tiles

  /** `Tile::from`: no line left gives None; otherwise the header's second
      whitespace-separated word, up to its first ':', is the id, and the
      rows up to the first empty line are the pixels. The empty line is
      consumed with them. It panics when the header has fewer than two
      words or the id is not a number. The lines not consumed come back
      with the tile. */
  function TileFrom(lines: seq<string>): (r: Result<Option<(Tile, seq<string>)>>)
    ensures r == Ok(None) <==> lines == []
    ensures r.Ok? && r.value.Some? ==>
              var (t, rest) := r.value.value;
              var h := |t.pixels|;
              1 + h <= |lines| && lines[1..1 + h] == t.pixels &&
              (forall y :: 0 <= y < h ==> t.pixels[y] != []) &&
              ((1 + h < |lines| && lines[1 + h] == [] && rest == lines[2 + h..]) ||
               (1 + h == |lines| && rest == []))
    ensures r.Panic? <==>
              lines != [] && (|SplitWhitespace(lines[0])| < 2 ||
                              ParseInt(Split(SplitWhitespace(lines[0])[1], ':')[0]).None?)
  {
    if lines == [] then Ok(None)
    else
      var words := SplitWhitespace(lines[0]);
      if |words| < 2 then Panic
      else
        match ParseInt(Split(words[1], ':')[0])
        case None => Panic
        case Some(id) =>
          var body := lines[1..];
          var h := FirstEmpty(body);
          var rest := if h < |body| then body[h + 1..] else [];
          Ok(Some((Tile(id, body[..h]), rest)))
  }

  /** An id as Rust prints an `i64`. */
  function IntText(id: int): string
  {
    if id < 0 then "-" + NatToString(-id) else NatToString(id)
  }

  /** The header line of a tile, as `Display` writes it. */
  function Header(id: int): string
  {
    "Tile " + IntText(id) + ":"
  }

  /** A tile as the lines of its block: the header, then one line per row. */
  function TileLines(t: Tile): seq<string>
  {
    [Header(t.id)] + t.pixels
  }

  /** A printed id parses back. */
  lemma ParseIntText(id: int)
    ensures ParseInt(IntText(id)) == Some(id)
    ensures NoWhitespace(IntText(id)) && ':' !in IntText(id)
  {
    var n := if id < 0 then -id else id;
    var digits := NatToString(n);
    DigitsNoWhitespace(digits);
    DigitsOfNatToString(n);
    ParseNatToString(n);
    if id < 0 {
      var s := IntText(id);
      assert s[1..] == digits;
      assert forall i :: 0 <= i < |s| ==> s[i] == '-' || s[i] == digits[i - 1];
    }
  }

  /** The header's words are "Tile" and the id followed by ':'. */
  lemma HeaderId(id: int)
    ensures |SplitWhitespace(Header(id))| >= 2
    ensures Split(SplitWhitespace(Header(id))[1], ':')[0] == IntText(id)
  {
    var x := IntText(id);
    ParseIntText(id);
    var word := x + ":";
    assert NoWhitespace(word) by {
      assert forall i :: 0 <= i < |word| ==> word[i] == ':' || word[i] == x[i];
    }
    assert Header(id) == "Tile" + ([' '] + word);
    SplitWhitespaceCons("Tile", [' '] + word);
    SplitWhitespaceSkip(' ', word);
    assert word + [] == word;
    SplitWhitespaceCons(word, []);
    assert SplitWhitespace(Header(id)) == ["Tile", word];
    assert word == x + [':'] + [];
    SplitCons(x, ':', []);
  }

  /** A tile block with no empty row reads back as the tile, whether an
      empty line or the end of the input follows it. */
  lemma TileFromLines(t: Tile, rest: seq<string>)
    requires forall y :: 0 <= y < |t.pixels| ==> t.pixels[y] != []
    ensures TileFrom(TileLines(t) + [""] + rest) == Ok(Some((t, rest)))
    ensures TileFrom(TileLines(t)) == Ok(Some((t, [])))
  {
    HeaderId(t.id);
    ParseIntText(t.id);
    var lines := TileLines(t) + [""] + rest;
    assert lines[0] == Header(t.id);
    var body := lines[1..];
    assert body == t.pixels + [""] + rest;
    assert body[|t.pixels|] == "";
    assert FirstEmpty(body) == |t.pixels|;
    assert body[..|t.pixels|] == t.pixels;
    assert body[|t.pixels| + 1..] == rest;
    var alone := TileLines(t);
    assert alone[1..] == t.pixels;
    assert FirstEmpty(alone[1..]) == |t.pixels|;
    assert alone[1..][..|t.pixels|] == t.pixels;
  }

  /** The header of the rotation test's tiles. */
  lemma HeaderExample()
    ensures Header(1101) == "Tile 1101:"
  {
    assert NatToString(1101) == "1101";
  }

  /** The rotation test: each of the four blocks reads as tile 1101, and
      the first one rotated by R0, R90, R180 and R270 gives the four. */
  lemma RotateTest()
    ensures var p0 := ["###", "...", "#.#"];
            forall pk, r | (pk, r) in {(p0, R0), (["#.#", "..#", "#.#"], R90),
                                       (["#.#", "...", "###"], R180), (["#.#", "#..", "#.#"], R270)} ::
              TileFrom(TileLines(Tile(1101, pk))) == Ok(Some((Tile(1101, pk), []))) &&
              TurnTimes(p0, Turns(r)) == Ok(pk)
  {
    var p0 := ["###", "...", "#.#"];
    var cases := {(p0, R0), (["#.#", "..#", "#.#"], R90),
                  (["#.#", "...", "###"], R180), (["#.#", "#..", "#.#"], R270)};
    RotationExamples();
    forall pk, r | (pk, r) in cases
      ensures TileFrom(TileLines(Tile(1101, pk))) == Ok(Some((Tile(1101, pk), [])))
    {
      assert |pk| == 3 && pk[0] != [] && pk[1] != [] && pk[2] != [];
      TileFromLines(Tile(1101, pk), []);
    }
  }

  // ---------------------------------------------------------------------
  // The pieces

  /** `PuzzlePieces`: the tiles by id. */
  datatype PuzzlePieces = PuzzlePieces(tiles: map<int, Tile>)

  /** Every tile `Tile::from` reads, in order, until it returns None. */
  function ReadTiles(lines: seq<string>): (r: Result<seq<Tile>>)
    decreases |lines|
  {
    match TileFrom(lines)
    case Panic => Panic
    case Ok(None) => Ok([])
    case Ok(Some((t, rest))) =>
      match ReadTiles(rest)
      case Panic => Panic
      case Ok(ts) => Ok([t] + ts)
  }

  /** The map after inserting the tiles in order: a later tile replaces an
      earlier one with the same id. */
  function Keyed(ts: seq<Tile>): (m: map<int, Tile>)
    ensures m.Keys == set i | 0 <= i < |ts| :: ts[i].id
    ensures forall id :: id in m ==> m[id].id == id
  {
    if ts == [] then map[]
    else
      var last := ts[|ts| - 1];
      var m := Keyed(ts[..|ts| - 1]);
      assert forall i :: 0 <= i < |ts| - 1 ==> ts[..|ts| - 1][i] == ts[i];
      m[last.id := last]
  }

  /** `ts` read before the lines that give `after`. */
  function Following(ts: seq<Tile>, after: Result<seq<Tile>>): Result<seq<Tile>>
  {
    match after
    case Panic => Panic
    case Ok(more) => Ok(ts + more)
  }

  /** `PuzzlePieces::from`: read tiles until none is left, inserting each
      by its id. A panic while reading a tile is a panic of the whole. */
  method FromLines(lines: seq<string>) returns (r: Result<PuzzlePieces>)
    ensures r == match ReadTiles(lines)
                 case Panic => Panic
                 case Ok(ts) => Ok(PuzzlePieces(Keyed(ts)))
  {
    var pp := PuzzlePieces(map[]);
    var rest := lines;
    ghost var read: seq<Tile> := [];
    FollowingNone(ReadTiles(lines));
    while true
      invariant pp.tiles == Keyed(read)
      invariant ReadTiles(lines) == Following(read, ReadTiles(rest))
      decreases |rest|
    {
      var next := TileFrom(rest);
      match next {
        case Panic =>
          return Panic;
        case Ok(None) =>
          assert read + [] == read;
          return Ok(pp);
        case Ok(Some((tile, more))) =>
          KeyedSnoc(read, tile);
          FollowingSnoc(read, tile, ReadTiles(more));
          pp := pp.(tiles := pp.tiles[tile.id := tile]);
          read := read + [tile];
          rest := more;
      }
    }
  }

  lemma FollowingNone(after: Result<seq<Tile>>)
    ensures Following([], after) == after
  {
    if after.Ok? {
      assert [] + after.value == after.value;
    }
  }

  lemma KeyedSnoc(ts: seq<Tile>, t: Tile)
    ensures Keyed(ts + [t]) == Keyed(ts)[t.id := t]
  {
    assert (ts + [t])[..|ts|] == ts;
  }

  lemma FollowingSnoc(ts: seq<Tile>, t: Tile, after: Result<seq<Tile>>)
    ensures Following(ts, Following([t], after)) == Following(ts + [t], after)
  {
    if after.Ok? {
      assert ts + ([t] + after.value) == (ts + [t]) + after.value;
    }
  }

  /** A tile keyed by `id` is the last one read with that id. */
  lemma {:induction false} KeyedLast(ts: seq<Tile>, id: int)
    requires id in Keyed(ts)
    ensures exists i :: 0 <= i < |ts| && Keyed(ts)[id] == ts[i] && LastWithId(ts, i)
  {
    var front := ts[..|ts| - 1];
    var last := ts[|ts| - 1];
    KeyedSnoc(front, last);
    assert front + [last] == ts;
    if last.id != id {
      assert id in Keyed(front);
      KeyedLast(front, id);
      var i :| 0 <= i < |front| && Keyed(front)[id] == front[i] && LastWithId(front, i);
      assert LastWithId(ts, i);
    } else {
      assert LastWithId(ts, |ts| - 1);
    }
  }

  /** No tile after the `i`-th shares its id. */
  predicate LastWithId(ts: seq<Tile>, i: nat)
    requires i < |ts|
  {
    forall j :: i < j < |ts| ==> ts[j].id != ts[i].id
  }

  /** Blocks of tiles one after another, each followed by an empty line. */
  function BlockLines(ts: seq<Tile>): seq<string>
  {
    if ts == [] then [] else TileLines(ts[0]) + [""] + BlockLines(ts[1..])
  }

  /** Printed blocks of tiles without empty rows read back as the tiles. */
  lemma {:induction false} ReadBlocks(ts: seq<Tile>)
    requires forall i, y :: 0 <= i < |ts| && 0 <= y < |ts[i].pixels| ==> ts[i].pixels[y] != []
    ensures ReadTiles(BlockLines(ts)) == Ok(ts)
  {
    if ts != [] {
      TileFromLines(ts[0], BlockLines(ts[1..]));
      ReadBlocks(ts[1..]);
      assert [ts[0]] + ts[1..] == ts;
    }
  }

  /** Tiles with distinct ids each get their own entry. */
  lemma {:induction false} KeyedDistinct(ts: seq<Tile>)
    requires forall i, j :: 0 <= i < j < |ts| ==> ts[i].id != ts[j].id
    ensures |Keyed(ts)| == |ts|
    ensures forall i :: 0 <= i < |ts| ==> Keyed(ts)[ts[i].id] == ts[i]
  {
    if ts != [] {
      var front := ts[..|ts| - 1];
      var last := ts[|ts| - 1];
      KeyedSnoc(front, last);
      assert front + [last] == ts;
      KeyedDistinct(front);
      assert last.id !in Keyed(front) by {
        assert Keyed(front).Keys == set i | 0 <= i < |front| :: front[i].id;
      }
      assert |Keyed(front)[last.id := last]| == |front| + 1;
      forall i | 0 <= i < |ts|
        ensures Keyed(ts)[ts[i].id] == ts[i]
      {
        if i < |front| {
          assert ts[i] == front[i];
        }
      }
    }
  }
}
