/** Day 24: a floor of hexagonal tiles (src/day24.rs). Each input line is a
    walk from a reference tile, spelled with the six directions e, se, sw,
    w, nw and ne; the tile the walk ends on is flipped (a tile never
    visited before becomes black). The answer is the number of black
    tiles. Tiles sit on a doubled-column grid: east and west move two
    columns, the diagonal directions one column and one row. */
module Day24 {
  import opened Util

  datatype TileColor = White | Black

  /** `TileColor::flip`: the other color. */
  function Flip(c: TileColor): (r: TileColor)
    ensures r != c
  {
    match c
    case Black => White
    case White => Black
  }

  /** Flipping twice gives the color back. */
  lemma FlipTwice(c: TileColor)
    ensures Flip(Flip(c)) == c
  {
  }

  datatype HexDir = E | Se | Sw | W | Nw | Ne

  /** How a direction is written in the input. */
  function Spelling(d: HexDir): (r: string)
    ensures 1 <= |r| <= 2 && r[|r| - 1] in {'e', 'w'}
    ensures |r| == 2 ==> r[0] in {'n', 's'}
  {
    match d
    case E => "e"
    case Se => "se"
    case Sw => "sw"
    case W => "w"
    case Nw => "nw"
    case Ne => "ne"
  }

  /** Different directions are written differently. */
  lemma SpellingInjective(d1: HexDir, d2: HexDir)
    requires Spelling(d1) == Spelling(d2)
    ensures d1 == d2
  {
    var s := Spelling(d1);
    assert s == Spelling(d2);
    if |s| == 1 {
      assert s[0] == Spelling(d1)[0] == Spelling(d2)[0];
    } else {
      assert s[0] == Spelling(d1)[0] == Spelling(d2)[0];
      assert s[1] == Spelling(d1)[1] == Spelling(d2)[1];
    }
  }

  /** `HexDir::from`: the direction from an optional `n`/`s` and an
      `e`/`w`; any other character panics. */
  function FromChars(first: Option<char>, second: char): (r: Result<HexDir>)
    ensures r.Ok? <==> (first.None? || first.value in {'n', 's'}) && second in {'e', 'w'}
    ensures r.Ok? ==> Spelling(r.value) == (if first.None? then [] else [first.value]) + [second]
  {
    match first
    case Some(c) =>
      if c == 'n' then
        (if second == 'e' then Ok(Ne) else if second == 'w' then Ok(Nw) else Panic)
      else if c == 's' then
        (if second == 'e' then Ok(Se) else if second == 'w' then Ok(Sw) else Panic)
      else Panic
    case None =>
      if second == 'e' then Ok(E) else if second == 'w' then Ok(W) else Panic
  }

  /** `FromChars` reads back every direction from its spelling. */
  lemma FromSpelling(d: HexDir)
    ensures var s := Spelling(d);
            FromChars(if |s| == 1 then None else Some(s[0]), s[|s| - 1]) == Ok(d)
  {
    var s := Spelling(d);
    var r := FromChars(if |s| == 1 then None else Some(s[0]), s[|s| - 1]);
    assert r.Ok?;
    SpellingInjective(r.value, d);
  }

  /** `Position`: a column and a row (rows grow southwards). */
  datatype Pos = Pos(col: int, row: int)

  /** `Position::new()`, the reference tile. */
  const Origin: Pos := Pos(0, 0)

  /** `HexDir::next`: the neighbouring tile in direction `d`. A step keeps
      the parity of `col + row`, and never stays on the same tile. */
  function Next(d: HexDir, p: Pos): (r: Pos)
    ensures (r.col + r.row) % 2 == (p.col + p.row) % 2
    ensures r != p
  {
    match d
    case E => Pos(p.col + 2, p.row)
    case Ne => Pos(p.col + 1, p.row - 1)
    case Se => Pos(p.col + 1, p.row + 1)
    case W => Pos(p.col - 2, p.row)
    case Nw => Pos(p.col - 1, p.row - 1)
    case Sw => Pos(p.col - 1, p.row + 1)
  }

  /** The direction pointing back. */
  function Opposite(d: HexDir): HexDir
  {
    match d
    case E => W
    case W => E
    case Ne => Sw
    case Sw => Ne
    case Se => Nw
    case Nw => Se
  }

  /** A step and a step back return to the same tile. */
  lemma NextOpposite(d: HexDir, p: Pos)
    ensures Next(Opposite(d), Next(d, p)) == p
  {
    match d
    case E =>
    case W =>
    case Ne =>
    case Sw =>
    case Se =>
    case Nw =>
  }

  /** The six neighbours of a tile are six different tiles. */
  lemma NeighboursDistinct(d1: HexDir, d2: HexDir, p: Pos)
    requires d1 != d2
    ensures Next(d1, p) != Next(d2, p)
  {
    match d1
    case E =>
    case W =>
    case Ne =>
    case Sw =>
    case Se =>
    case Nw =>
  }

  /** Two steps give the same tile in either order. */
  lemma NextCommutes(d1: HexDir, d2: HexDir, p: Pos)
    ensures Next(d2, Next(d1, p)) == Next(d1, Next(d2, p))
  {
    match d1
    case E =>
    case W =>
    case Ne =>
    case Sw =>
    case Se =>
    case Nw =>
  }

  // ---------------------------------------------------------------------
  // Walks

  /** `dirs.iter().fold(p, |p, hd| hd.next(p))`: the tile a walk from `p`
      ends on. Like each step, a walk keeps the parity of `col + row`. */
  function Walk(p: Pos, ds: seq<HexDir>): (r: Pos)
    ensures (r.col + r.row) % 2 == (p.col + p.row) % 2
    decreases |ds|
  {
    if ds == [] then p else Walk(Next(ds[0], p), ds[1..])
  }

  /** A walk in two parts. */
  lemma {:induction false} WalkAppend(p: Pos, a: seq<HexDir>, b: seq<HexDir>)
    ensures Walk(p, a + b) == Walk(Walk(p, a), b)
    decreases |a|
  {
    if a != [] {
      assert (a + b)[1..] == a[1..] + b;
      WalkAppend(Next(a[0], p), a[1..], b);
    } else {
      assert a + b == b;
    }
  }

  /** A step taken first can be taken last. */
  lemma {:induction false} WalkFirstLast(p: Pos, d: HexDir, ds: seq<HexDir>)
    ensures Walk(p, [d] + ds) == Next(d, Walk(p, ds))
    decreases |ds|
  {
    if ds != [] {
      assert ([d] + ds)[1..] == ds;
      assert ([ds[0]] + ds[1..]) == ds;
      calc {
        Walk(p, [d] + ds);
        Walk(Next(d, p), ds);
        Walk(Next(ds[0], Next(d, p)), ds[1..]);
        { NextCommutes(d, ds[0], p); }
        Walk(Next(d, Next(ds[0], p)), ds[1..]);
        { assert ([d] + ds[1..])[1..] == ds[1..]; }
        Walk(Next(ds[0], p), [d] + ds[1..]);
        { WalkFirstLast(Next(ds[0], p), d, ds[1..]); }
        Next(d, Walk(Next(ds[0], p), ds[1..]));
      }
    }
  }

  /** Swapping two neighbouring steps ends on the same tile, so the tile
      depends only on how many steps go each way. */
  lemma WalkSwap(p: Pos, a: seq<HexDir>, d1: HexDir, d2: HexDir, b: seq<HexDir>)
    ensures Walk(p, a + [d1, d2] + b) == Walk(p, a + [d2, d1] + b)
  {
    var q := Walk(p, a);
    WalkAppend(p, a, [d1, d2] + b);
    WalkAppend(p, a, [d2, d1] + b);
    assert a + [d1, d2] + b == a + ([d1, d2] + b);
    assert a + [d2, d1] + b == a + ([d2, d1] + b);
    assert ([d1, d2] + b)[1..] == [d2] + b && ([d2] + b)[1..] == b;
    assert ([d2, d1] + b)[1..] == [d1] + b && ([d1] + b)[1..] == b;
    NextCommutes(d1, d2, q);
  }

  /** A step followed by its opposite can be dropped from a walk. */
  lemma WalkCancel(p: Pos, a: seq<HexDir>, d: HexDir, b: seq<HexDir>)
    ensures Walk(p, a + [d, Opposite(d)] + b) == Walk(p, a + b)
  {
    var q := Walk(p, a);
    WalkAppend(p, a, [d, Opposite(d)] + b);
    WalkAppend(p, a, b);
    assert a + [d, Opposite(d)] + b == a + ([d, Opposite(d)] + b);
    assert ([d, Opposite(d)] + b)[1..] == [Opposite(d)] + b && ([Opposite(d)] + b)[1..] == b;
    NextOpposite(d, q);
  }

  /** The tile a line's walk from the reference tile ends on; its
      `col + row` is even. */
  function Destination(ds: seq<HexDir>): (r: Pos)
    ensures (r.col + r.row) % 2 == 0
  {
    Walk(Origin, ds)
  }

  // ---------------------------------------------------------------------
  // Reading a line

  /** What `dir_seq` yields for the rest `line` of a line when the pending
      `n` or `s`, if any, is `tentative`: an `n` or `s` replaces the
      pending one, an `e` or `w` yields a direction and clears it, any
      other character panics, and a pending `n` or `s` at the end is
      dropped. */
  function DirSeqFrom(line: string, tentative: Option<char>): (r: Result<seq<HexDir>>)
    requires tentative.None? || tentative.value in {'n', 's'}
    ensures r.Ok? <==> forall i :: 0 <= i < |line| ==> line[i] in {'n', 's', 'e', 'w'}
    decreases |line|
  {
    if line == [] then Ok([])
    else
      var c := line[0];
      if c == 's' || c == 'n' then
        var r := DirSeqFrom(line[1..], Some(c));
        assert r.Ok? <==> forall i :: 1 <= i < |line| ==> line[i] in {'n', 's', 'e', 'w'} by {
          assert forall i :: 1 <= i < |line| ==> line[i] == line[1..][i - 1];
        }
        r
      else if c == 'e' || c == 'w' then
        var d := FromChars(tentative, c).value;
        var rest := DirSeqFrom(line[1..], None);
        assert rest.Ok? <==> forall i :: 1 <= i < |line| ==> line[i] in {'n', 's', 'e', 'w'} by {
          assert forall i :: 1 <= i < |line| ==> line[i] == line[1..][i - 1];
        }
        match rest
        case Panic => Panic
        case Ok(ds) => Ok([d] + ds)
      else Panic
  }

  /** `dir_seq` on a whole line. */
  function DirSeqOf(line: string): (r: Result<seq<HexDir>>)
    ensures r.Ok? <==> forall i :: 0 <= i < |line| ==> line[i] in {'n', 's', 'e', 'w'}
  {
    DirSeqFrom(line, None)
  }

  /** `dir_seq`: the line's characters one by one, pushing a direction at
      each `e` or `w`. */
  method DirSeq(line: string) returns (r: Result<seq<HexDir>>)
    ensures r == DirSeqOf(line)
  {
    var result: seq<HexDir> := [];
    var tentative: Option<char> := None;
    var i := 0;
    assert line[0..] == line;
    PrependNothing(DirSeqOf(line));
    while i < |line|
      invariant 0 <= i <= |line|
      invariant tentative.None? || tentative.value in {'n', 's'}
      invariant DirSeqOf(line) == Prepend(result, DirSeqFrom(line[i..], tentative))
    {
      var c := line[i];
      assert line[i..][1..] == line[i + 1..];
      if c == 's' || c == 'n' {
        tentative := Some(c);
      } else if c == 'e' || c == 'w' {
        var d := FromChars(tentative, c);
        match DirSeqFrom(line[i + 1..], None)
        case Panic =>
        case Ok(rest) =>
          assert result + ([d.value] + rest) == (result + [d.value]) + rest;
        result := result + [d.value];
        tentative := None;
      } else {
        return Panic;
      }
      i := i + 1;
    }
    assert line[i..] == [];
    assert result + [] == result;
    r := Ok(result);
  }

  /** `ds` in front of the directions of `r`, if any. */
  function Prepend(ds: seq<HexDir>, r: Result<seq<HexDir>>): Result<seq<HexDir>>
  {
    match r
    case Panic => Panic
    case Ok(rest) => Ok(ds + rest)
  }

  lemma PrependNothing(r: Result<seq<HexDir>>)
    ensures Prepend([], r) == r
  {
    match r
    case Panic =>
    case Ok(rest) =>
      assert [] + rest == rest;
  }

  /** How a walk is written: its directions' spellings, one after another. */
  function Spell(ds: seq<HexDir>): (r: string)
    ensures forall i :: 0 <= i < |r| ==> r[i] in {'n', 's', 'e', 'w'}
  {
    if ds == [] then [] else
      var s, t := Spelling(ds[0]), Spell(ds[1..]);
      assert forall i :: 0 <= i < |s| ==> (s + t)[i] == s[i];
      assert forall i :: |s| <= i < |s + t| ==> (s + t)[i] == t[i - |s|];
      s + t
  }

  /** `dir_seq` reads one direction off the front of a line. */
  lemma ReadSpelling(d: HexDir, rest: string)
    ensures DirSeqFrom(Spelling(d) + rest, None) == Prepend([d], DirSeqFrom(rest, None))
  {
    var s := Spelling(d);
    var line := s + rest;
    FromSpelling(d);
    if |s| == 1 {
      assert line[0] == s[0] && line[1..] == rest;
    } else {
      assert line[0] == s[0] && line[1..] == [s[1]] + rest;
      assert DirSeqFrom(line, None) == DirSeqFrom([s[1]] + rest, Some(s[0]));
      assert ([s[1]] + rest)[1..] == rest;
    }
  }

  /** `dir_seq` reads back every walk from its spelling. */
  lemma {:induction false} DirSeqRoundTrip(ds: seq<HexDir>)
    ensures DirSeqOf(Spell(ds)) == Ok(ds)
    decreases |ds|
  {
    if ds != [] {
      DirSeqRoundTrip(ds[1..]);
      ReadSpelling(ds[0], Spell(ds[1..]));
      assert [ds[0]] + ds[1..] == ds;
    }
  }

  /** A stray `n` or `s` that no `e` or `w` follows is dropped without
      complaint, so different lines can read as the same walk. */
  lemma {:induction false} StrayPrefixDropped(ds: seq<HexDir>, c: char)
    requires c in {'n', 's'}
    ensures DirSeqOf(Spell(ds) + [c]) == Ok(ds)
    decreases |ds|
  {
    if ds == [] {
      assert Spell(ds) + [c] == [c];
      StrayAlone(c);
    } else {
      StrayPrefixDropped(ds[1..], c);
      var s, t := Spelling(ds[0]), Spell(ds[1..]);
      assert Spell(ds) + [c] == s + (t + [c]);
      ReadSpelling(ds[0], t + [c]);
      assert [ds[0]] + ds[1..] == ds;
    }
  }

  lemma StrayAlone(c: char)
    requires c in {'n', 's'}
    ensures DirSeqOf([c]) == Ok([])
  {
    var line := [c];
    assert line[0] == c && line[1..] == [];
    assert DirSeqFrom(line, None) == DirSeqFrom([], Some(c));
  }

  /** `test_input_line`. */
  lemma InputLineExamples()
    ensures DirSeqOf("esenee") == Ok([E, Se, Ne, E])
    ensures DirSeqOf("esew") == Ok([E, Se, W])
    ensures DirSeqOf("nwwswee") == Ok([Nw, W, Sw, E, E])
  {
    SpellExamples();
    DirSeqRoundTrip([E, Se, Ne, E]);
    DirSeqRoundTrip([E, Se, W]);
    DirSeqRoundTrip([Nw, W, Sw, E, E]);
  }

  lemma SpellExamples()
    ensures Spell([E, Se, Ne, E]) == "esenee"
    ensures Spell([E, Se, W]) == "esew"
    ensures Spell([Nw, W, Sw, E, E]) == "nwwswee"
  {
    assert [E, Se, Ne, E][1..] == [Se, Ne, E] && [Se, Ne, E][1..] == [Ne, E] && [Ne, E][1..] == [E];
    assert [E, Se, W][1..] == [Se, W] && [Se, W][1..] == [W];
    assert [Nw, W, Sw, E, E][1..] == [W, Sw, E, E] && [W, Sw, E, E][1..] == [Sw, E, E];
    assert [Sw, E, E][1..] == [E, E] && [E, E][1..] == [E];
  }

  // ---------------------------------------------------------------------
  // The floor

  /** The floor after visiting `p`: a new tile becomes black, a known one
      flips. */
  function Visited(m: map<Pos, TileColor>, p: Pos): map<Pos, TileColor>
  {
    if p in m then m[p := Flip(m[p])] else m[p := Black]
  }

  /** The floor after visiting the tiles `ts` in order. */
  function FloorOf(ts: seq<Pos>): map<Pos, TileColor>
  {
    if ts == [] then map[] else Visited(FloorOf(ts[..|ts| - 1]), ts[|ts| - 1])
  }

  /** The floor knows exactly the visited tiles, and a tile is black
      exactly when it was visited an odd number of times. */
  lemma {:induction false} FloorParity(ts: seq<Pos>, p: Pos)
    ensures p in FloorOf(ts) <==> multiset(ts)[p] > 0
    ensures p in FloorOf(ts) ==> (FloorOf(ts)[p] == Black <==> multiset(ts)[p] % 2 == 1)
  {
    if ts != [] {
      var init, t := ts[..|ts| - 1], ts[|ts| - 1];
      assert ts == init + [t];
      assert multiset(ts) == multiset(init) + multiset{t};
      FloorParity(init, p);
    }
  }

  /** How many tiles of `m` have the color `color`: at most all of them,
      and none exactly when no tile has it. */
  function CountOf(m: map<Pos, TileColor>, color: TileColor): (c: nat)
    ensures c <= |m|
    ensures c == 0 <==> forall p :: p in m ==> m[p] != color
  {
    var tiles := set p | p in m && m[p] == color;
    SubsetCard(tiles, m.Keys);
    if tiles == {} then
      assert forall p :: p in m ==> m[p] != color by {
        forall p | p in m
          ensures m[p] != color
        {
          assert m[p] == color ==> p in tiles;
        }
      }
      0
    else
      var q :| q in tiles;
      assert q in m && m[q] == color;
      |tiles|
  }

  /** Every known tile is black or white. */
  lemma CountPartition(m: map<Pos, TileColor>)
    ensures CountOf(m, Black) + CountOf(m, White) == |m|
  {
    var b := set p | p in m && m[p] == Black;
    var w := set p | p in m && m[p] == White;
    assert b * w == {};
    assert b + w == m.Keys;
  }

  /** The tiles visited an odd number of times. */
  function OddTiles(ts: seq<Pos>): set<Pos>
  {
    set p | p in ts && multiset(ts)[p] % 2 == 1
  }

  /** The black tiles are the ones visited an odd number of times. */
  lemma BlackCount(ts: seq<Pos>)
    ensures CountOf(FloorOf(ts), Black) == |OddTiles(ts)|
  {
    var m := FloorOf(ts);
    var b := set p | p in m && m[p] == Black;
    forall p
      ensures p in b <==> p in OddTiles(ts)
    {
      FloorParity(ts, p);
    }
    assert b == OddTiles(ts);
  }

  /** `Floor`: the color of every tile visited so far. */
  class Floor {
    var floor: map<Pos, TileColor>

    constructor ()
      ensures floor == map[]
    {
      floor := map[];
    }

    /** The `get_mut`/`insert` step of `Floor::from`. */
    method Visit(p: Pos)
      modifies this
      ensures floor == Visited(old(floor), p)
    {
      if p in floor {
        floor := floor[p := Flip(floor[p])];
      } else {
        floor := floor[p := Black];
      }
    }

    /** `count_color`: the tiles of the color; the rest of the known
        tiles have the other color. */
    function CountColor(color: TileColor): (c: nat)
      reads this
      ensures c + CountOf(floor, Flip(color)) == |floor|
    {
      CountPartition(floor);
      CountOf(floor, color)
    }
  }

  /** The tiles the lines' walks end on, or a panic when a line has a
      character other than `n`, `s`, `e` and `w`. */
  function Tiles(lines: seq<string>): (r: Result<seq<Pos>>)
    ensures r.Ok? <==> forall k :: 0 <= k < |lines| ==> DirSeqOf(lines[k]).Ok?
    ensures r.Ok? ==> |r.value| == |lines| &&
                      forall k :: 0 <= k < |lines| ==> r.value[k] == Destination(DirSeqOf(lines[k]).value)
  {
    if lines == [] then Ok([])
    else
      match Tiles(lines[..|lines| - 1])
      case Panic => Panic
      case Ok(ts) =>
        match DirSeqOf(lines[|lines| - 1])
        case Panic => Panic
        case Ok(ds) => Ok(ts + [Destination(ds)])
  }

  /** `Floor::from`, over the lines of the file. */
  method FloorFrom(lines: seq<string>) returns (r: Result<Floor>)
    ensures r.Panic? <==> Tiles(lines).Panic?
    ensures r.Ok? ==> fresh(r.value) && r.value.floor == FloorOf(Tiles(lines).value)
  {
    var result := new Floor();
    var i := 0;
    while i < |lines|
      invariant 0 <= i <= |lines|
      invariant Tiles(lines[..i]).Ok?
      invariant result.floor == FloorOf(Tiles(lines[..i]).value)
    {
      assert lines[..i + 1][..i] == lines[..i];
      var dirs := DirSeq(lines[i]);
      if dirs.Panic? {
        return Panic;
      }
      var destination := Walk(Origin, dirs.value);
      result.Visit(destination);
      i := i + 1;
    }
    assert lines[..|lines|] == lines;
    r := Ok(result);
  }

  /** `solve_1`: the number of black tiles, as text. */
  method Solve1(lines: seq<string>) returns (r: Result<string>)
    ensures Tiles(lines).Panic? ==> r.Panic?
    ensures Tiles(lines).Ok? ==> r == Ok(NatToString(|OddTiles(Tiles(lines).value)|))
  {
    var floor := FloorFrom(lines);
    if floor.Panic? {
      return Panic;
    }
    BlackCount(Tiles(lines).value);
    r := Ok(NatToString(floor.value.CountColor(Black)));
  }
}
