/** Day 2: password policies (src/day2.rs). A line "lo-hi c: pw" gives two
    numbers, a letter and a password; the first policy bounds how often the
    letter occurs, the second asks for it at exactly one of two 1-based
    positions. */
module Day2 {
  import opened Util

  datatype PasswordLine = PasswordLine(lo: nat, hi: nat, letter: char, password: string)

  /** `parse_password_line`: the first whitespace token split on '-' into
      numbers, the first character of the second token, and the third
      token. It panics when there are fewer than three tokens, fewer than
      two numbers, or a piece that is not a number. */
  function ParsePasswordLine(line: string): (r: Result<PasswordLine>)
    ensures r.Ok? ==> |SplitWhitespace(line)| >= 3 && r.value.password == SplitWhitespace(line)[2]
    ensures r.Ok? ==> |SplitWhitespace(line)[0]| >= 3 && !IsWhitespace(r.value.letter)
    ensures r.Panic? <==> (|SplitWhitespace(line)| < 3 ||
      ParseNats(Split(SplitWhitespace(line)[0], '-')).None? ||
      |Split(SplitWhitespace(line)[0], '-')| < 2)
  {
    var spaced := SplitWhitespace(line);
    if |spaced| < 3 then Panic
    else
      var ranged := ParseNats(Split(spaced[0], '-'));
      if ranged.None? || |ranged.value| < 2 then Panic
      else
        SplitNumbersLength(spaced[0], ranged.value);
        Ok(PasswordLine(ranged.value[0], ranged.value[1], spaced[1][0], spaced[2]))
  }

  lemma SplitNumbersLength(s: string, ns: seq<nat>)
    requires ParseNats(Split(s, '-')) == Some(ns) && |ns| >= 2
    ensures |s| >= 3
  {
    var parts := Split(s, '-');
    assert ParseNat(parts[0]).Some? && ParseNat(parts[1]).Some?;
    SplitOnJoin(s, "-");
    assert JoinWith(parts, "-") == s;
    assert JoinWith(parts, "-") == parts[0] + "-" + JoinWith(parts[1..], "-");
    assert |parts[1..]| >= 1 && parts[1..][0] == parts[1];
    JoinWithLength(parts[1..], "-");
  }

  lemma JoinWithLength(parts: seq<string>, sep: string)
    requires |parts| >= 1
    ensures |JoinWith(parts, sep)| >= |parts[0]|
  {
  }

  /** The line `parse_password_line` reads: "lo-hi c: pw". */
  function FormatPasswordLine(p: PasswordLine): string
  {
    NatToString(p.lo) + "-" + NatToString(p.hi) + " " + [p.letter] + ": " + p.password
  }

  lemma RangeNoWhitespace(lo: string, hi: string)
    requires AllDigits(lo) && AllDigits(hi)
    ensures NoWhitespace(lo + "-" + hi)
  {
    var range := lo + "-" + hi;
    forall i | 0 <= i < |range| ensures !IsWhitespace(range[i]) {
      if i < |lo| { assert range[i] == lo[i]; }
      else if i > |lo| { assert range[i] == hi[i - |lo| - 1]; }
    }
  }

  /** The letter with its colon, then the password, as two tokens. */
  lemma RestTokens(letter: char, password: string)
    requires !IsWhitespace(letter) && password != [] && NoWhitespace(password)
    ensures SplitWhitespace([letter, ':'] + ([' '] + password)) == [[letter, ':'], password]
  {
    var tail := [' '] + password;
    SplitWhitespaceCons([letter, ':'], tail);
    SplitWhitespaceSkip(' ', password);
    SplitWhitespaceCons(password, []);
    assert password + [] == password;
    assert SplitWhitespace(password) == [password];
  }

  lemma {:induction false} FormatTokens(p: PasswordLine)
    requires !IsWhitespace(p.letter) && p.password != [] && NoWhitespace(p.password)
    ensures SplitWhitespace(FormatPasswordLine(p)) ==
      [NatToString(p.lo) + "-" + NatToString(p.hi), [p.letter, ':'], p.password]
  {
    var range := NatToString(p.lo) + "-" + NatToString(p.hi);
    RangeNoWhitespace(NatToString(p.lo), NatToString(p.hi));
    var rest := [p.letter, ':'] + ([' '] + p.password);
    assert FormatPasswordLine(p) == range + ([' '] + rest);
    SplitWhitespaceCons(range, [' '] + rest);
    SplitWhitespaceSkip(' ', rest);
    RestTokens(p.letter, p.password);
  }

  lemma RangeNumbers(lo: nat, hi: nat)
    ensures ParseNats(Split(NatToString(lo) + "-" + NatToString(hi), '-')) == Some([lo, hi])
  {
    var los, his := NatToString(lo), NatToString(hi);
    DigitsNoWhitespace(los);
    DigitsNoWhitespace(his);
    SplitCons(los, '-', his);
    SplitNone(his, '-');
    assert Split(los + "-" + his, '-') == [los] + [his];
    ParseNatToString(lo);
    ParseNatToString(hi);
    var parts := [los] + [his];
    assert parts[0] == los && parts[1] == his;
    var r := ParseNats(parts);
    assert r.Some?;
    assert r.value[0] == lo && r.value[1] == hi;
    assert r.value == [lo, hi];
  }

  /** Parsing a printed line gives it back, for a letter and a password
      without whitespace. */
  lemma ParseFormatPasswordLine(p: PasswordLine)
    requires !IsWhitespace(p.letter) && p.password != [] && NoWhitespace(p.password)
    ensures ParsePasswordLine(FormatPasswordLine(p)) == Ok(p)
  {
    FormatTokens(p);
    RangeNumbers(p.lo, p.hi);
  }

  /** `password.matches(letter).count()`. */
  function Occurrences(s: string, c: char): nat
  {
    if s == [] then 0 else (if s[0] == c then 1 else 0) + Occurrences(s[1..], c)
  }

  /** The count is the multiplicity of the letter in the password. */
  lemma {:induction false} OccurrencesIsMultiplicity(s: string, c: char)
    ensures Occurrences(s, c) == multiset(s)[c]
  {
    if s != [] {
      OccurrencesIsMultiplicity(s[1..], c);
      assert s == [s[0]] + s[1..];
    }
  }

  /** The first policy on a parsed entry. */
  predicate Policy1(p: PasswordLine)
  {
    var count := Occurrences(p.password, p.letter);
    count >= p.lo && count <= p.hi
  }

  /** `line_valid_password_1`: the letter occurs between lo and hi times,
      inclusive. */
  function LineValidPassword1(line: string): (r: Result<bool>)
    ensures r.Ok? <==> ParsePasswordLine(line).Ok?
    ensures r.Ok? ==> var p := ParsePasswordLine(line).value;
      r.value <==> p.lo <= multiset(p.password)[p.letter] <= p.hi
  {
    match ParsePasswordLine(line)
    case Panic => Panic
    case Ok(p) =>
      OccurrencesIsMultiplicity(p.password, p.letter);
      Ok(Policy1(p))
  }

  /** `in_bounds`: a 1-based position inside the password. */
  predicate InBounds(i: nat, password: string)
  {
    i > 0 && i <= |password|
  }

  /** `at`: the letter sits at 1-based position i. */
  predicate At(i: nat, password: string, letter: char)
    requires InBounds(i, password)
  {
    password[i - 1] == letter
  }

  /** The second policy on a parsed entry. */
  predicate Policy2(p: PasswordLine)
  {
    InBounds(p.lo, p.password) && InBounds(p.hi, p.password) &&
      At(p.lo, p.password, p.letter) != At(p.hi, p.password, p.letter)
  }

  /** `line_valid_password_2`: both positions are in bounds and exactly one
      of them holds the letter; when lo == hi the line is never valid. */
  function LineValidPassword2(line: string): (r: Result<bool>)
    ensures r.Ok? <==> ParsePasswordLine(line).Ok?
    ensures r.Ok? ==> var p := ParsePasswordLine(line).value;
      (r.value <==> (1 <= p.lo <= |p.password| && 1 <= p.hi <= |p.password| &&
                     (p.password[p.lo - 1] == p.letter) != (p.password[p.hi - 1] == p.letter)))
  {
    match ParsePasswordLine(line)
    case Panic => Panic
    case Ok(p) => Ok(Policy2(p))
  }

  /** On a printed entry, both checks judge the entry itself. */
  lemma LineValidOfFormat(p: PasswordLine)
    requires !IsWhitespace(p.letter) && p.password != [] && NoWhitespace(p.password)
    ensures LineValidPassword1(FormatPasswordLine(p)) == Ok(Policy1(p))
    ensures LineValidPassword2(FormatPasswordLine(p)) == Ok(Policy2(p))
  {
    ParseFormatPasswordLine(p);
  }

  /** The first test line: valid under both policies. */
  lemma PolicyExample1()
    ensures FormatPasswordLine(PasswordLine(1, 3, 'a', "abcde")) == "1-3 a: abcde"
    ensures Policy1(PasswordLine(1, 3, 'a', "abcde")) && Policy2(PasswordLine(1, 3, 'a', "abcde"))
  {
  }

  /** The second test line: valid under neither. */
  lemma PolicyExample2()
    ensures FormatPasswordLine(PasswordLine(1, 3, 'b', "cdefg")) == "1-3 b: cdefg"
    ensures !Policy1(PasswordLine(1, 3, 'b', "cdefg")) && !Policy2(PasswordLine(1, 3, 'b', "cdefg"))
  {
  }

  /** The third test line: valid under the first policy only. */
  lemma PolicyExample3()
    ensures FormatPasswordLine(PasswordLine(2, 9, 'c', "ccccccccc")) == "2-9 c: ccccccccc"
    ensures Policy1(PasswordLine(2, 9, 'c', "ccccccccc")) && !Policy2(PasswordLine(2, 9, 'c', "ccccccccc"))
  {
  }

  /** The fourth test line: ten c's is too many for the first policy. */
  lemma PolicyExample4()
    ensures FormatPasswordLine(PasswordLine(2, 9, 'c', "cccccccccc")) == "2-9 c: cccccccccc"
    ensures !Policy1(PasswordLine(2, 9, 'c', "cccccccccc"))
  {
  }

  /** The unit tests of both policies: each test line is the printed form
      of an entry, so by `LineValidOfFormat` the line's verdict is the
      entry's. */
  lemma PolicyExamples()
    ensures FormatPasswordLine(PasswordLine(1, 3, 'a', "abcde")) == "1-3 a: abcde"
    ensures Policy1(PasswordLine(1, 3, 'a', "abcde")) && Policy2(PasswordLine(1, 3, 'a', "abcde"))
    ensures FormatPasswordLine(PasswordLine(1, 3, 'b', "cdefg")) == "1-3 b: cdefg"
    ensures !Policy1(PasswordLine(1, 3, 'b', "cdefg")) && !Policy2(PasswordLine(1, 3, 'b', "cdefg"))
    ensures FormatPasswordLine(PasswordLine(2, 9, 'c', "ccccccccc")) == "2-9 c: ccccccccc"
    ensures Policy1(PasswordLine(2, 9, 'c', "ccccccccc")) && !Policy2(PasswordLine(2, 9, 'c', "ccccccccc"))
    ensures FormatPasswordLine(PasswordLine(2, 9, 'c', "cccccccccc")) == "2-9 c: cccccccccc"
    ensures !Policy1(PasswordLine(2, 9, 'c', "cccccccccc"))
  {
    PolicyExample1();
    PolicyExample2();
    PolicyExample3();
    PolicyExample4();
  }
}
