/** Day 6: customs declaration answers (src/day6.rs). For the first part a
    group's answer is the number of distinct characters on any of its lines;
    for the second, `Puzzle2Group` keeps one bit per letter a–z and clears
    the letters some line lacks, leaving the letters every line has. */
module Day6 {
  import opened Util

  const Letters := 26

  function Letter(i: nat): (c: char)
    requires i < Letters
    ensures 'a' <= c <= 'z'
  {
    (('a' as int) + i) as char
  }

  lemma LetterInjective(i: nat, j: nat)
    requires i < Letters && j < Letters && Letter(i) == Letter(j)
    ensures i == j
  {
  }

  function CharsOf(line: string): set<char>
  {
    set j | 0 <= j < |line| :: line[j]
  }

  /** The letters whose bit is set. */
  function SelectedLetters(bits: seq<bool>): set<char>
    requires |bits| <= Letters
  {
    set i | 0 <= i < |bits| && bits[i] :: Letter(i)
  }

  function CountTrue(bits: seq<bool>): nat
  {
    if bits == [] then 0 else CountTrue(bits[..|bits| - 1]) + (if bits[|bits| - 1] then 1 else 0)
  }

  /** The letters of a longer bit sequence: those of its prefix, and the
      last letter when its bit is set. */
  lemma SelectedSnoc(bits: seq<bool>)
    requires 0 < |bits| <= Letters
    ensures SelectedLetters(bits) == SelectedLetters(bits[..|bits| - 1]) + (if bits[|bits| - 1] then {Letter(|bits| - 1)} else {})
  {
    var n := |bits| - 1;
    var init := bits[..n];
    forall c | c in SelectedLetters(bits) ensures c in SelectedLetters(init) + (if bits[n] then {Letter(n)} else {}) {
      var i :| 0 <= i < |bits| && bits[i] && Letter(i) == c;
      if i < n { assert init[i]; }
    }
    forall c | c in SelectedLetters(init) ensures c in SelectedLetters(bits) {
      var i :| 0 <= i < n && init[i] && Letter(i) == c;
      assert bits[i];
    }
  }

  /** The last letter is not among the letters of the prefix. */
  lemma SelectedFresh(bits: seq<bool>)
    requires 0 < |bits| <= Letters
    ensures Letter(|bits| - 1) !in SelectedLetters(bits[..|bits| - 1])
  {
    var n := |bits| - 1;
    if Letter(n) in SelectedLetters(bits[..n]) {
      var i :| 0 <= i < n && bits[..n][i] && Letter(i) == Letter(n);
      LetterInjective(i, n);
    }
  }

  /** Counting the set bits counts the selected letters. */
  lemma {:induction false} CountTrueIsCardinality(bits: seq<bool>)
    requires |bits| <= Letters
    ensures CountTrue(bits) == |SelectedLetters(bits)|
  {
    if bits != [] {
      var n := |bits| - 1;
      CountTrueIsCardinality(bits[..n]);
      SelectedSnoc(bits);
      SelectedFresh(bits);
    }
  }

  /** The bits after `apply_line`: a letter stays selected iff it was and
      the line contains it. */
  function Applied(bits: seq<bool>, line: string): (r: seq<bool>)
    ensures |r| == |bits|
  {
    seq(|bits|, i requires 0 <= i < |bits| => bits[i] && (i < Letters && Letter(i) in CharsOf(line)))
  }

  /** `apply_line` intersects the selected letters with the line's
      characters, and never sets a bit. */
  lemma AppliedIntersects(bits: seq<bool>, line: string)
    requires |bits| == Letters
    ensures SelectedLetters(Applied(bits, line)) == SelectedLetters(bits) * CharsOf(line)
    ensures forall i :: 0 <= i < Letters && Applied(bits, line)[i] ==> bits[i]
  {
    var r := Applied(bits, line);
    forall c | c in SelectedLetters(bits) * CharsOf(line) ensures c in SelectedLetters(r) {
      var i :| 0 <= i < |bits| && bits[i] && Letter(i) == c;
      assert r[i];
    }
  }

  /** Applying the same line twice is applying it once. */
  lemma AppliedIdempotent(bits: seq<bool>, line: string)
    ensures Applied(Applied(bits, line), line) == Applied(bits, line)
  {
  }

  /** The letters common to every line (all 26 for no lines). */
  function Common(lines: seq<string>): set<char>
  {
    if lines == [] then SelectedLetters(seq(Letters, i => true))
    else Common(lines[..|lines| - 1]) * CharsOf(lines[|lines| - 1])
  }

  class Puzzle2Group {
    var selectedChars: seq<bool>

    ghost predicate Valid()
      reads this
    {
      |selectedChars| == Letters
    }

    /** `Puzzle2Group::new`: all 26 letters selected. */
    constructor ()
      ensures Valid() && selectedChars == seq(Letters, i => true)
      ensures SelectedLetters(selectedChars) == Common([])
    {
      var bits: seq<bool> := [];
      var i := 0;
      while i < Letters
        invariant 0 <= i <= Letters && bits == seq(i, j => true)
      {
        bits := bits + [true];
        i := i + 1;
      }
      selectedChars := bits;
    }

    /** `apply_line`: clear the bit of every letter the line lacks. */
    method ApplyLine(line: string)
      requires Valid()
      modifies this
      ensures Valid() && selectedChars == Applied(old(selectedChars), line)
      ensures SelectedLetters(selectedChars) == SelectedLetters(old(selectedChars)) * CharsOf(line)
      ensures NumSelected() <= old(NumSelected())
    {
      ghost var before := selectedChars;
      var i := 0;
      while i < Letters
        invariant 0 <= i <= Letters && |selectedChars| == Letters
        invariant forall j :: 0 <= j < i ==> selectedChars[j] == (before[j] && Letter(j) in CharsOf(line))
        invariant forall j :: i <= j < Letters ==> selectedChars[j] == before[j]
      {
        var c := Letter(i);
        if !Contains(line, c) {
          selectedChars := selectedChars[i := false];
        }
        i := i + 1;
      }
      AppliedIntersects(before, line);
      CountTrueIsCardinality(before);
      CountTrueIsCardinality(selectedChars);
      SubsetCard(SelectedLetters(selectedChars), SelectedLetters(before));
    }

    /** `num_selected`: how many letters are still selected. */
    function NumSelected(): (n: nat)
      reads this
      requires Valid()
      ensures n == |SelectedLetters(selectedChars)|
    {
      CountTrueIsCardinality(selectedChars);
      CountTrue(selectedChars)
    }
  }

  /** `line.contains(c)`. */
  function Contains(line: string, c: char): (r: bool)
    ensures r <==> c in CharsOf(line)
  {
    if line == [] then false
    else
      assert CharsOf(line) == {line[0]} + CharsOf(line[1..]) by {
        forall x | x in CharsOf(line) ensures x in {line[0]} + CharsOf(line[1..]) {
          var j :| 0 <= j < |line| && line[j] == x;
          if j > 0 { assert line[1..][j - 1] == x; }
        }
      }
      line[0] == c || Contains(line[1..], c)
  }

  /** The `solve_2` answer of one group: the letters on every line. */
  method GroupAnswer2(lines: seq<string>) returns (n: nat)
    ensures n == |Common(lines)|
  {
    var group := new Puzzle2Group();
    var i := 0;
    while i < |lines|
      invariant 0 <= i <= |lines| && group.Valid()
      invariant SelectedLetters(group.selectedChars) == Common(lines[..i])
    {
      group.ApplyLine(lines[i]);
      assert lines[..i + 1][..i] == lines[..i];
      i := i + 1;
    }
    assert lines[..|lines|] == lines;
    n := group.NumSelected();
  }

  /** The `solve_1` closure: every character of every line inserted into a
      set; the group's answer is its size. */
  method GroupAnswer1(lines: seq<string>) returns (answers: set<char>)
    ensures forall c :: c in answers <==> exists i :: 0 <= i < |lines| && c in CharsOf(lines[i])
  {
    answers := {};
    var i := 0;
    while i < |lines|
      invariant 0 <= i <= |lines|
      invariant forall c :: c in answers <==> exists k :: 0 <= k < i && c in CharsOf(lines[k])
    {
      var line := lines[i];
      var j := 0;
      while j < |line|
        invariant 0 <= j <= |line|
        invariant forall c :: c in answers <==>
          ((exists k :: 0 <= k < i && c in CharsOf(lines[k])) || exists m :: 0 <= m < j && line[m] == c)
      {
        answers := answers + {line[j]};
        j := j + 1;
      }
      i := i + 1;
    }
  }

  /** All 26 letters are selected initially. */
  lemma AllSelected(c: char)
    requires 'a' <= c <= 'z'
    ensures c in SelectedLetters(seq(Letters, i => true))
  {
    var i: nat := (c as int) - ('a' as int);
    assert Letter(i) == c;
  }

  lemma StepCount(bits: seq<bool>, line: string, before: set<char>, after: set<char>)
    requires |bits| == Letters && SelectedLetters(bits) == before
    requires after == before * CharsOf(line)
    ensures SelectedLetters(Applied(bits, line)) == after
    ensures CountTrue(Applied(bits, line)) == |after|
  {
    AppliedIntersects(bits, line);
    CountTrueIsCardinality(Applied(bits, line));
  }

  lemma CharsOfThree(line: string)
    requires |line| == 3
    ensures CharsOf(line) == {line[0], line[1], line[2]}
  {
  }

  /** The first line "abc" leaves a, b and c of the 26 letters. */
  lemma Puzzle2FirstLine()
    ensures SelectedLetters(Applied(seq(Letters, i => true), "abc")) == {'a', 'b', 'c'}
    ensures CountTrue(Applied(seq(Letters, i => true), "abc")) == 3
  {
    var all := seq(Letters, i => true);
    CharsOfThree("abc");
    var full := SelectedLetters(all);
    AllSelected('a'); AllSelected('b'); AllSelected('c');
    StepCount(all, "abc", full, {'a', 'b', 'c'});
  }

  /** The unit test of `Puzzle2Group`: after "abc", "bcd", "cde", "def" the
      counts are 3, 2, 1, 0. */
  lemma Puzzle2GroupExample()
    ensures CountTrue(Applied(seq(Letters, i => true), "abc")) == 3
    ensures CountTrue(Applied(Applied(seq(Letters, i => true), "abc"), "bcd")) == 2
    ensures CountTrue(Applied(Applied(Applied(seq(Letters, i => true), "abc"), "bcd"), "cde")) == 1
    ensures CountTrue(Applied(Applied(Applied(Applied(seq(Letters, i => true), "abc"), "bcd"), "cde"), "def")) == 0
  {
    Puzzle2FirstLine();
    var a1 := Applied(seq(Letters, i => true), "abc");
    CharsOfThree("bcd");
    StepCount(a1, "bcd", {'a', 'b', 'c'}, {'b', 'c'});
    var a2 := Applied(a1, "bcd");
    CharsOfThree("cde");
    StepCount(a2, "cde", {'b', 'c'}, {'c'});
    var a3 := Applied(a2, "cde");
    CharsOfThree("def");
    StepCount(a3, "def", {'c'}, {});
  }
}
