/** Day 3: tobogganing down a slope of trees (src/day3.rs). A sled starts in
    the top-left corner and, on every `down`-th line, moves `right` columns;
    the map repeats to the right. `SledState` counts the trees it lands on. */
module Day3 {
  import opened Util

  /** `x` when line y is reached: `right` for every earlier line whose index
      is a multiple of `down`. */
  function XAt(y: nat, right: nat, down: nat): nat
    requires down > 0
  {
    if y == 0 then 0 else XAt(y - 1, right, down) + (if (y - 1) % down == 0 then right else 0)
  }

  lemma {:induction false} XAtInBlock(q: nat, j: nat, right: nat, down: nat)
    requires down > 0 && 0 < j <= down && XAt(q * down, right, down) == q * right
    ensures XAt(q * down + j, right, down) == (q + 1) * right
  {
    DivModUnique(q * down + j - 1, down, q, j - 1);
    if j > 1 {
      XAtInBlock(q, j - 1, right, down);
    } else {
      assert (q + 1) * right == q * right + right;
    }
  }

  /** On the lines the sled visits (y = q·down) it has moved q steps:
      x == (y / down) · right. */
  lemma {:induction false} XAtVisited(q: nat, right: nat, down: nat)
    requires down > 0
    ensures XAt(q * down, right, down) == q * right
  {
    if q > 0 {
      XAtVisited(q - 1, right, down);
      XAtInBlock(q - 1, down, right, down);
      assert (q - 1) * down + down == q * down;
    }
  }

  /** The sled hits a tree on line y, reading `line`: a visited line after
      the first whose column x (repeating) holds '#'. */
  predicate Hit(y: nat, line: string, right: nat, down: nat)
  {
    down > 0 && y > 0 && y % down == 0 && |line| > 0 && line[XAt(y, right, down) % |line|] == '#'
  }

  /** The trees hit on `lines`, the first of them being line 0. */
  function TreesSeen(lines: seq<string>, right: nat, down: nat): nat
  {
    if lines == [] then 0
    else TreesSeen(lines[..|lines| - 1], right, down) + (if Hit(|lines| - 1, lines[|lines| - 1], right, down) then 1 else 0)
  }

  /** The first line never counts, so at most one tree per later line. */
  lemma {:induction false} TreesSeenBound(lines: seq<string>, right: nat, down: nat)
    requires |lines| > 0
    ensures TreesSeen(lines, right, down) <= |lines| - 1
  {
    if |lines| > 1 {
      TreesSeenBound(lines[..|lines| - 1], right, down);
    } else {
      assert lines[..0] == [];
    }
  }

  /** `update` panics on line y: `y % down` divides by zero when `down`
      is 0, and `x % line.len()` when a visited line after the first is
      empty. */
  predicate PanicsAt(y: nat, line: string, down: nat)
  {
    down == 0 || (y > 0 && y % down == 0 && |line| == 0)
  }

  /** No line of the map makes `update` panic. */
  predicate Indexable(lines: seq<string>, down: nat)
  {
    forall y :: 0 <= y < |lines| ==> !PanicsAt(y, lines[y], down)
  }

  /** With one line per step, every visited line but the first must be
      non-empty; every other slope visits a subset of those lines. */
  lemma IndexableSteep(lines: seq<string>)
    ensures Indexable(lines, 1) <==> forall y :: 0 < y < |lines| ==> lines[y] != []
    ensures Indexable(lines, 1) ==> Indexable(lines, 2)
  {
    if Indexable(lines, 1) {
      forall y | 0 <= y < |lines|
        ensures !PanicsAt(y, lines[y], 2)
      {
        assert !PanicsAt(y, lines[y], 1);
      }
    }
  }

  class SledState {
    var x: nat
    var y: nat
    var treeCount: nat
    const right: nat
    const down: nat
    /** The lines given to `update` so far. */
    ghost var seen: seq<string>

    ghost predicate Valid()
      reads this
    {
      y == |seen| && treeCount == TreesSeen(seen, right, down) &&
      (down > 0 ==> x == XAt(y, right, down)) && (down == 0 ==> y == 0 && x == 0)
    }

    /** `SledState::new`: at the top-left, nothing counted. */
    constructor (right: nat, down: nat)
      ensures Valid() && this.right == right && this.down == down
      ensures seen == [] && x == 0 && y == 0 && treeCount == 0
    {
      this.right := right;
      this.down := down;
      x, y, treeCount := 0, 0, 0;
      seen := [];
    }

    /** `update`: on a line whose index is a multiple of `down`, count a tree
        under the sled (never on line 0) and move right; every line moves the
        sled one down. `y % down` panics when `down` is 0, and
        `line[x % line.len()]` on an empty visited line after the first. */
    method Update(line: string) returns (r: Result<()>)
      requires Valid()
      modifies this
      ensures Valid()
      ensures r.Panic? <==> PanicsAt(old(y), line, down)
      ensures r.Panic? ==> unchanged(this)
      ensures r.Ok? ==> seen == old(seen) + [line] && y == old(y) + 1
      ensures r.Ok? ==> treeCount == old(treeCount) + (if Hit(old(y), line, right, down) then 1 else 0)
      ensures r.Ok? ==> x == old(x) + (if old(y) % down == 0 then right else 0)
    {
      if down == 0 {
        return Panic;
      }
      if y % down == 0 {
        if y > 0 {
          if |line| == 0 {
            return Panic;
          }
          if line[x % |line|] == '#' {
            treeCount := treeCount + 1;
          }
        }
        x := x + right;
      }
      y := y + 1;
      seen := seen + [line];
      assert seen[..|seen| - 1] == old(seen);
      r := Ok(());
    }
  }

  /** `solve_slope`: the trees hit on the way down the whole map, at most
      one per line after the first; a panic when some line makes `update`
      panic. */
  method SolveSlope(lines: seq<string>, right: nat, down: nat) returns (r: Result<nat>)
    ensures r.Panic? <==> !Indexable(lines, down)
    ensures r.Ok? ==> r.value == TreesSeen(lines, right, down)
    ensures r.Ok? && |lines| > 0 ==> r.value <= |lines| - 1
  {
    var sled := new SledState(right, down);
    var i := 0;
    while i < |lines|
      invariant 0 <= i <= |lines|
      invariant sled.Valid() && sled.right == right && sled.down == down
      invariant sled.seen == lines[..i] && Indexable(lines[..i], down)
    {
      var u := sled.Update(lines[i]);
      if u.Panic? {
        return Panic;
      }
      assert lines[..i + 1] == lines[..i] + [lines[i]];
      i := i + 1;
    }
    assert lines[..|lines|] == lines;
    if |lines| > 0 {
      TreesSeenBound(lines, right, down);
    }
    r := Ok(sled.treeCount);
  }

  /** `solve_2`: the product of the tree counts of the five slopes; it
      panics exactly when a line after the first is empty. */
  method Solve2(lines: seq<string>) returns (r: Result<nat>)
    ensures r.Panic? <==> exists y :: 0 < y < |lines| && lines[y] == []
    ensures r.Ok? ==>
              r.value == TreesSeen(lines, 1, 1) * TreesSeen(lines, 3, 1) * TreesSeen(lines, 5, 1) *
                         TreesSeen(lines, 7, 1) * TreesSeen(lines, 1, 2)
  {
    IndexableSteep(lines);
    var ra := SolveSlope(lines, 1, 1);
    if ra.Panic? {
      return Panic;
    }
    var rb := SolveSlope(lines, 3, 1);
    var rc := SolveSlope(lines, 5, 1);
    var rd := SolveSlope(lines, 7, 1);
    var re := SolveSlope(lines, 1, 2);
    var a, b, c, d, e := ra.value, rb.value, rc.value, rd.value, re.value;
    MulPos(a, b);
    MulPos(a * b, c);
    MulPos(a * b * c, d);
    MulPos(a * b * c * d, e);
    r := Ok(a * b * c * d * e);
  }
}
