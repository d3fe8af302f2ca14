/** Shared vocabulary for the daily solutions: the outcome types that stand for
    Rust's `Option` and for a panic, the `str` operations the solutions rely on
    (`split`, `split_whitespace`, `trim`, `parse`), and small sums. */
module Util {

  /** Rust's `Option`. */
  datatype Option<T> = None | Some(value: T)

  /** The outcome of a Rust call that may panic (`unwrap` on `None`/`Err`,
      an out-of-range index, `panic!`, a failed `assert_eq!`). */
  datatype Result<T> = Ok(value: T) | Panic

  // ---------------------------------------------------------------------
  // Characters

  predicate IsDigit(c: char) { '0' <= c <= '9' }

  function DigitValue(c: char): (d: nat)
    requires IsDigit(c)
    ensures d < 10
  {
    (c as int) - ('0' as int)
  }

  function DigitChar(d: nat): (c: char)
    requires d < 10
    ensures IsDigit(c) && DigitValue(c) == d
  {
    (('0' as int) + d) as char
  }

  /** The characters with the Unicode White_Space property: those for
      which Rust's `char::is_whitespace` holds, and on which
      `split_whitespace` and `trim` split. */
  const Whitespace: set<char> := {
    '\t', '\n', '\U{0B}', '\U{0C}', '\r', ' ', '\U{85}', '\U{A0}', '\U{1680}',
    '\U{2000}', '\U{2001}', '\U{2002}', '\U{2003}', '\U{2004}', '\U{2005}',
    '\U{2006}', '\U{2007}', '\U{2008}', '\U{2009}', '\U{200A}',
    '\U{2028}', '\U{2029}', '\U{202F}', '\U{205F}', '\U{3000}'
  }

  predicate IsWhitespace(c: char)
  {
    c == ' ' || '\t' <= c <= '\r' || c == '\U{85}' || c == '\U{A0}' || c == '\U{1680}' ||
    '\U{2000}' <= c <= '\U{200A}' || c == '\U{2028}' || c == '\U{2029}' || c == '\U{202F}' ||
    c == '\U{205F}' || c == '\U{3000}'
  }

  /** `Whitespace` holds exactly the characters `IsWhitespace` accepts. */
  lemma WhitespaceSet(c: char)
    ensures c in Whitespace <==> IsWhitespace(c)
  {
  }

  predicate AllDigits(s: string) { forall i :: 0 <= i < |s| ==> IsDigit(s[i]) }

  predicate NoneIn(s: string, cs: set<char>) { forall i :: 0 <= i < |s| ==> s[i] !in cs }

  predicate NoWhitespace(s: string) { forall i :: 0 <= i < |s| ==> !IsWhitespace(s[i]) }

  // ---------------------------------------------------------------------
  // Numbers: `str::parse::<usize>()`, `str::parse::<isize>()` and `to_string`

  /** The value of a string of decimal digits, most significant digit first. */
  function DigitsValue(s: string): nat
    requires AllDigits(s)
  {
    if s == [] then 0 else DigitsValue(s[..|s| - 1]) * 10 + DigitValue(s[|s| - 1])
  }

  /** `s.parse::<usize>()`: an optional `+`, then one or more decimal digits.
      Integer width is not modelled (see README). */
  function ParseNat(s: string): (r: Option<nat>)
    ensures r.Some? ==> |s| > 0
  {
    var digits := if |s| > 0 && s[0] == '+' then s[1..] else s;
    if |digits| > 0 && AllDigits(digits) then Some(DigitsValue(digits)) else None
  }

  /** `s.parse::<isize>()`: an optional sign, then one or more decimal digits. */
  function ParseInt(s: string): (r: Option<int>)
    ensures |s| > 0 && s[0] != '-' ==> r == (match ParseNat(s) case Some(n) => Some(n as int) case None => None)
  {
    if |s| > 0 && s[0] == '-' then
      (if |s| > 1 && AllDigits(s[1..]) then Some(-(DigitsValue(s[1..]) as int)) else None)
    else
      match ParseNat(s)
      case Some(n) => Some(n)
      case None => None
  }

  /** `n.to_string()` for a natural number. */
  function NatToString(n: nat): (s: string)
    ensures |s| > 0 && AllDigits(s)
  {
    if n < 10 then [DigitChar(n)] else NatToString(n / 10) + [DigitChar(n % 10)]
  }

  lemma {:induction false} DigitsOfNatToString(n: nat)
    ensures DigitsValue(NatToString(n)) == n
  {
    if n >= 10 {
      var s := NatToString(n);
      DigitsOfNatToString(n / 10);
      assert s[..|s| - 1] == NatToString(n / 10);
    }
  }

  /** Printing a natural number and parsing it back gives the number. */
  lemma ParseNatToString(n: nat)
    ensures ParseNat(NatToString(n)) == Some(n)
  {
    DigitsOfNatToString(n);
  }

  // ---------------------------------------------------------------------
  // Splitting and joining

  /** Pieces joined back with a separator string. */
  function JoinWith(parts: seq<string>, sep: string): string
  {
    if |parts| == 0 then [] else if |parts| == 1 then parts[0] else parts[0] + sep + JoinWith(parts[1..], sep)
  }

  /** Rust's `s.split(pat)` for a non-empty pattern: the pieces between the
      leftmost non-overlapping occurrences of `pat` (joined back by
      `SplitOnJoin`). */
  function SplitOn(s: string, pat: string): (r: seq<string>)
    requires |pat| > 0
    ensures |r| >= 1
    decreases |s|
  {
    if |s| < |pat| then [s]
    else if s[..|pat|] == pat then [[]] + SplitOn(s[|pat|..], pat)
    else
      var rest := SplitOn(s[1..], pat);
      [[s[0]] + rest[0]] + rest[1..]
  }

  lemma JoinWithCons(a: string, rest: seq<string>, sep: string)
    requires |rest| >= 1
    ensures JoinWith([a] + rest, sep) == a + sep + JoinWith(rest, sep)
  {
    assert ([a] + rest)[1..] == rest;
  }

  lemma JoinWithPrepend(x: string, rest: seq<string>, sep: string)
    requires |rest| >= 1
    ensures JoinWith([x + rest[0]] + rest[1..], sep) == x + JoinWith(rest, sep)
  {
    if |rest| > 1 {
      JoinWithCons(x + rest[0], rest[1..], sep);
      JoinWithCons(rest[0], rest[1..], sep);
      assert [rest[0]] + rest[1..] == rest;
    } else {
      assert [x + rest[0]] + rest[1..] == [x + rest[0]];
    }
  }

  /** Joining the pieces of `split` with the pattern gives the string back. */
  lemma {:induction false} SplitOnJoin(s: string, pat: string)
    requires |pat| > 0
    ensures JoinWith(SplitOn(s, pat), pat) == s
    decreases |s|
  {
    if |s| >= |pat| {
      if s[..|pat|] == pat {
        SplitOnJoin(s[|pat|..], pat);
        JoinWithCons([], SplitOn(s[|pat|..], pat), pat);
        assert s == s[..|pat|] + s[|pat|..];
      } else {
        SplitOnJoin(s[1..], pat);
        JoinWithPrepend([s[0]], SplitOn(s[1..], pat), pat);
        assert s == [s[0]] + s[1..];
      }
    }
  }

  /** A character in neither the pieces nor the separator is not in their join. */
  lemma {:induction false} JoinWithAvoids(parts: seq<string>, sep: string, c: char)
    requires c !in sep && forall i :: 0 <= i < |parts| ==> c !in parts[i]
    ensures c !in JoinWith(parts, sep)
  {
    if |parts| > 1 {
      JoinWithAvoids(parts[1..], sep, c);
    }
  }

  /** A string lacking one of the pattern's characters is a single piece. */
  lemma {:induction false} SplitOnAbsent(s: string, pat: string, k: nat)
    requires k < |pat| && pat[k] !in s
    ensures SplitOn(s, pat) == [s]
    decreases |s|
  {
    if |s| >= |pat| {
      assert s[..|pat|] != pat by {
        assert s[..|pat|][k] == s[k];
      }
      SplitOnAbsent(s[1..], pat, k);
      assert [s[0]] + s[1..] == s;
    }
  }

  /** A first piece lacking the pattern's second character (which differs
      from its first) ends where the pattern first occurs. */
  lemma {:induction false} SplitOnCons(a: string, pat: string, b: string)
    requires |pat| >= 2 && pat[0] != pat[1] && pat[1] !in a
    ensures SplitOn(a + pat + b, pat) == [a] + SplitOn(b, pat)
    decreases |a|
  {
    var s := a + pat + b;
    if a == [] {
      assert s[..|pat|] == pat && s[|pat|..] == b;
    } else {
      assert s[..|pat|] != pat by {
        if |a| >= 2 {
          assert s[..|pat|][1] == a[1];
        } else {
          assert s[..|pat|][1] == pat[0];
        }
      }
      assert s[1..] == a[1..] + pat + b;
      SplitOnCons(a[1..], pat, b);
      assert [s[0]] + a[1..] == a;
    }
  }

  /** `s.split(c)` for a single character. */
  function Split(s: string, c: char): (r: seq<string>)
    ensures |r| >= 1
  {
    SplitOn(s, [c])
  }

  /** How many characters of `s` are in `cs`. */
  function CountIn(s: string, cs: set<char>): nat
  {
    if s == [] then 0 else (if s[0] in cs then 1 else 0) + CountIn(s[1..], cs)
  }

  /** The characters of `s` that are not in `cs`, in order. */
  function RemoveAll(s: string, cs: set<char>): string
  {
    if s == [] then [] else (if s[0] in cs then [] else [s[0]]) + RemoveAll(s[1..], cs)
  }

  function Concat(parts: seq<string>): string
  {
    if parts == [] then [] else parts[0] + Concat(parts[1..])
  }

  lemma {:induction false} ConcatAppendFront(a: string, parts: seq<string>)
    requires |parts| > 0
    ensures Concat([a + parts[0]] + parts[1..]) == a + Concat(parts)
  {
    assert ([a + parts[0]] + parts[1..])[1..] == parts[1..];
  }

  /** `.filter(|s| s.len() > 0)`: the non-empty pieces, in order. */
  function NonEmpty(pieces: seq<string>): (r: seq<string>)
    ensures forall i :: 0 <= i < |r| ==> |r[i]| > 0
  {
    if pieces == [] then []
    else if |pieces[0]| > 0 then [pieces[0]] + NonEmpty(pieces[1..])
    else NonEmpty(pieces[1..])
  }

  /** Pieces free of a character, joined by it, split back into the pieces. */
  lemma {:induction false} SplitJoin(parts: seq<string>, c: char)
    requires |parts| >= 1 && forall i :: 0 <= i < |parts| ==> c !in parts[i]
    ensures Split(JoinWith(parts, [c]), c) == parts
  {
    if |parts| == 1 {
      SplitNone(parts[0], c);
    } else {
      SplitJoin(parts[1..], c);
      SplitCons(parts[0], c, JoinWith(parts[1..], [c]));
      assert [parts[0]] + parts[1..] == parts;
    }
  }

  /** `s.split(&[c1, c2, ..][..])`: pieces between any of the separator
      characters. There is one more piece than separators and no piece
      holds a separator (`SplitAnyConcat` puts them back together). */
  function SplitAny(s: string, seps: set<char>): (r: seq<string>)
    ensures |r| == 1 + CountIn(s, seps)
    ensures forall i :: 0 <= i < |r| ==> NoneIn(r[i], seps)
    decreases |s|
  {
    if s == [] then [[]]
    else
      var rest := SplitAny(s[1..], seps);
      if s[0] in seps then
        assert ([[]] + rest)[1..] == rest;
        [[]] + rest
      else
        [[s[0]] + rest[0]] + rest[1..]
  }

  /** The pieces of `SplitAny` together are `s` without its separators. */
  lemma {:induction false} SplitAnyConcat(s: string, seps: set<char>)
    ensures Concat(SplitAny(s, seps)) == RemoveAll(s, seps)
    decreases |s|
  {
    if s != [] {
      var rest := SplitAny(s[1..], seps);
      SplitAnyConcat(s[1..], seps);
      if s[0] in seps {
        assert ([[]] + rest)[1..] == rest;
      } else {
        ConcatAppendFront([s[0]], rest);
      }
    }
  }

  /** A piece free of separators, then a separator, ends the first piece
      of `SplitAny`. */
  lemma {:induction false} SplitAnyCons(a: string, c: char, b: string, seps: set<char>)
    requires NoneIn(a, seps) && c in seps
    ensures SplitAny(a + [c] + b, seps) == [a] + SplitAny(b, seps)
    decreases |a|
  {
    var s := a + [c] + b;
    if a == [] {
      assert s[1..] == b;
    } else {
      assert s[1..] == a[1..] + [c] + b;
      SplitAnyCons(a[1..], c, b, seps);
      assert [s[0]] + a[1..] == a;
    }
  }

  lemma {:induction false} SplitAnyNone(a: string, seps: set<char>)
    requires NoneIn(a, seps)
    ensures SplitAny(a, seps) == [a]
    decreases |a|
  {
    if a != [] {
      SplitAnyNone(a[1..], seps);
      assert [a[0]] + a[1..] == a;
    }
  }

  /** Length of the longest prefix of `s` without whitespace. */
  function TokenLength(s: string): (n: nat)
    ensures n <= |s| && NoWhitespace(s[..n])
    ensures n < |s| ==> IsWhitespace(s[n])
  {
    if s == [] || IsWhitespace(s[0]) then 0 else 1 + TokenLength(s[1..])
  }

  /** Rust's `s.split_whitespace()`: the maximal runs of non-whitespace
      characters. Every token is non-empty and free of whitespace
      (`SplitWhitespaceConcat` says nothing else is lost). */
  function SplitWhitespace(s: string): (r: seq<string>)
    ensures forall i :: 0 <= i < |r| ==> |r[i]| > 0 && NoWhitespace(r[i])
    decreases |s|
  {
    if s == [] then []
    else if IsWhitespace(s[0]) then SplitWhitespace(s[1..])
    else
      var n := TokenLength(s);
      [s[..n]] + SplitWhitespace(s[n..])
  }

  /** The tokens together are `s` without its whitespace. */
  lemma {:induction false} SplitWhitespaceConcat(s: string)
    ensures Concat(SplitWhitespace(s)) == RemoveAll(s, Whitespace)
    decreases |s|
  {
    if s != [] {
      WhitespaceSet(s[0]);
      if IsWhitespace(s[0]) {
        SplitWhitespaceConcat(s[1..]);
      } else {
        var n := TokenLength(s);
        SplitWhitespaceConcat(s[n..]);
        RemoveAllNoWhitespace(s[..n]);
        RemoveAllAppend(s[..n], s[n..], Whitespace);
        assert s[..n] + s[n..] == s;
        assert ([s[..n]] + SplitWhitespace(s[n..]))[1..] == SplitWhitespace(s[n..]);
      }
    }
  }

  lemma {:induction false} RemoveAllAppend(a: string, b: string, cs: set<char>)
    ensures RemoveAll(a + b, cs) == RemoveAll(a, cs) + RemoveAll(b, cs)
    decreases |a|
  {
    if a != [] {
      assert (a + b)[0] == a[0];
      assert (a + b)[1..] == a[1..] + b;
      RemoveAllAppend(a[1..], b, cs);
      assert RemoveAll(a + b, cs) == (if a[0] in cs then [] else [a[0]]) + RemoveAll(a[1..] + b, cs);
    } else {
      assert a + b == b;
    }
  }

  lemma {:induction false} RemoveAllNoWhitespace(a: string)
    requires NoWhitespace(a)
    ensures RemoveAll(a, Whitespace) == a
    decreases |a|
  {
    if a != [] {
      WhitespaceSet(a[0]);
      RemoveAllNoWhitespace(a[1..]);
    }
  }

  lemma {:induction false} TokenLengthOf(a: string, rest: string)
    requires NoWhitespace(a) && (rest == [] || IsWhitespace(rest[0]))
    ensures TokenLength(a + rest) == |a|
    decreases |a|
  {
    if a != [] {
      assert (a + rest)[1..] == a[1..] + rest;
      TokenLengthOf(a[1..], rest);
    } else {
      assert a + rest == rest;
    }
  }

  /** A leading token followed by whitespace (or nothing) is the first
      piece of `split_whitespace`. */
  lemma SplitWhitespaceCons(a: string, rest: string)
    requires a != [] && NoWhitespace(a) && (rest == [] || IsWhitespace(rest[0]))
    ensures SplitWhitespace(a + rest) == [a] + SplitWhitespace(rest)
  {
    var s := a + rest;
    TokenLengthOf(a, rest);
    assert s[..|a|] == a && s[|a|..] == rest;
    assert s[0] == a[0];
  }

  lemma SplitWhitespaceSkip(c: char, rest: string)
    requires IsWhitespace(c)
    ensures SplitWhitespace([c] + rest) == SplitWhitespace(rest)
  {
    assert ([c] + rest)[1..] == rest;
  }

  /** Words without whitespace joined by single spaces split back into
      the words. */
  lemma {:induction false} SplitWhitespaceJoin(words: seq<string>)
    requires forall i :: 0 <= i < |words| ==> words[i] != [] && NoWhitespace(words[i])
    ensures SplitWhitespace(JoinWith(words, " ")) == words
  {
    if |words| == 1 {
      SplitWhitespaceCons(words[0], []);
      assert words[0] + [] == words[0];
    } else if |words| > 1 {
      var rest := JoinWith(words[1..], " ");
      SplitWhitespaceJoin(words[1..]);
      assert JoinWith(words, " ") == words[0] + ([' '] + rest);
      SplitWhitespaceCons(words[0], [' '] + rest);
      SplitWhitespaceSkip(' ', rest);
      assert [words[0]] + words[1..] == words;
    }
  }

  /** A character that does not occur before the separator ends the first
      piece of `split`. */
  lemma {:induction false} SplitCons(a: string, c: char, b: string)
    requires c !in a
    ensures Split(a + [c] + b, c) == [a] + Split(b, c)
    decreases |a|
  {
    var s := a + [c] + b;
    if a == [] {
      assert s[..1] == [c] && s[1..] == b;
    } else {
      assert s[..1] != [c] by { assert s[0] == a[0] != c; }
      assert s[1..] == a[1..] + [c] + b;
      SplitCons(a[1..], c, b);
      assert [s[0]] + a[1..] == a;
    }
  }

  lemma {:induction false} SplitNone(a: string, c: char)
    requires c !in a
    ensures Split(a, c) == [a]
    decreases |a|
  {
    if a != [] {
      assert a[..1] != [c] by { assert a[0] != c; }
      SplitNone(a[1..], c);
      assert [a[0]] + a[1..] == a;
    }
  }

  lemma DigitsNoWhitespace(s: string)
    requires AllDigits(s)
    ensures NoWhitespace(s) && '-' !in s && ',' !in s && ' ' !in s
  {
    assert forall i :: 0 <= i < |s| ==> IsDigit(s[i]);
  }

  /** `pieces.map(|v| v.parse::<usize>().unwrap())`: every piece parsed, or
      None (a panic) when any piece is not a number. */
  function ParseNats(pieces: seq<string>): (r: Option<seq<nat>>)
    ensures r.Some? <==> forall i :: 0 <= i < |pieces| ==> ParseNat(pieces[i]).Some?
    ensures r.Some? ==> |r.value| == |pieces| && forall i :: 0 <= i < |pieces| ==> ParseNat(pieces[i]) == Some(r.value[i])
  {
    if pieces == [] then Some([])
    else
      var head := ParseNat(pieces[0]);
      var tail := ParseNats(pieces[1..]);
      assert forall i :: 1 <= i < |pieces| ==> pieces[i] == pieces[1..][i - 1];
      if head.Some? && tail.Some? then Some([head.value] + tail.value)
      else
        assert tail.None? ==> exists i :: 1 <= i < |pieces| && ParseNat(pieces[i]).None? by {
          if tail.None? {
            var k :| 0 <= k < |pieces| - 1 && ParseNat(pieces[1..][k]).None?;
          }
        }
        None
  }

  /** Rust's `str::trim_start`. */
  function TrimStart(s: string): (r: string)
    ensures |r| <= |s| && r == s[|s| - |r|..]
    ensures r == [] || !IsWhitespace(r[0])
    ensures forall i :: 0 <= i < |s| - |r| ==> IsWhitespace(s[i])
  {
    if s != [] && IsWhitespace(s[0]) then
      var r := TrimStart(s[1..]);
      assert s[1..][|s| - 1 - |r|..] == s[|s| - |r|..];
      r
    else s
  }

  /** Rust's `str::trim_end`. */
  function TrimEnd(s: string): (r: string)
    ensures |r| <= |s| && r == s[..|r|]
    ensures r == [] || !IsWhitespace(r[|r| - 1])
    ensures forall i :: |r| <= i < |s| ==> IsWhitespace(s[i])
  {
    if s != [] && IsWhitespace(s[|s| - 1]) then TrimEnd(s[..|s| - 1]) else s
  }

  /** Rust's `str::trim`: `s` without leading and trailing whitespace. */
  function Trim(s: string): (r: string)
    ensures |r| <= |s|
    ensures r == [] || (!IsWhitespace(r[0]) && !IsWhitespace(r[|r| - 1]))
    ensures r == [] <==> forall i :: 0 <= i < |s| ==> IsWhitespace(s[i])
  {
    var t := TrimStart(s);
    var r := TrimEnd(t);
    TrimAllWhitespace(s);
    assert r != [] ==> r[0] == t[0];
    r
  }

  /** Trimming leaves nothing exactly when every character is whitespace. */
  lemma TrimAllWhitespace(s: string)
    ensures TrimEnd(TrimStart(s)) == [] <==> forall i :: 0 <= i < |s| ==> IsWhitespace(s[i])
  {
    var t := TrimStart(s);
    if TrimEnd(t) == [] {
      assert t == [];
    }
    if forall i :: 0 <= i < |s| ==> IsWhitespace(s[i]) {
      WhitespaceTrimStart(s);
    }
  }

  lemma {:induction false} WhitespaceTrimStart(s: string)
    requires forall i :: 0 <= i < |s| ==> IsWhitespace(s[i])
    ensures TrimStart(s) == []
    decreases |s|
  {
    if s != [] {
      assert forall i :: 0 <= i < |s| - 1 ==> s[1..][i] == s[i + 1];
      WhitespaceTrimStart(s[1..]);
    }
  }

  /** A subset has at most as many elements as the set. */
  lemma SubsetCard<T>(a: set<T>, b: set<T>)
    requires a <= b
    ensures |a| <= |b|
  {
    assert b == a + (b - a);
  }

  /** The index of the first empty line, or the number of lines: where
      `take_while(|line| line.len() > 0)` stops. */
  function FirstEmpty(lines: seq<string>): (k: nat)
    ensures k <= |lines| && (k < |lines| ==> lines[k] == [])
    ensures forall i :: 0 <= i < k ==> lines[i] != []
  {
    if lines == [] || lines[0] == [] then 0 else 1 + FirstEmpty(lines[1..])
  }

  /** Non-empty lines followed by an empty one: the block stops there. */
  lemma FirstEmptyBlock(block: seq<string>, rest: seq<string>)
    requires forall i :: 0 <= i < |block| ==> block[i] != []
    ensures FirstEmpty(block + [[]] + rest) == |block|
  {
    var lines := block + [[]] + rest;
    assert lines[|block|] == [];
    assert forall i :: 0 <= i < |block| ==> lines[i] == block[i];
  }

  /** Rust's `s.starts_with(p)`. */
  predicate StartsWith(s: string, p: string) { |p| <= |s| && s[..|p|] == p }

  // ---------------------------------------------------------------------
  // Sums

  function Sum(s: seq<int>): int
  {
    if s == [] then 0 else s[0] + Sum(s[1..])
  }

  lemma {:induction false} SumAppend(a: seq<int>, b: seq<int>)
    ensures Sum(a + b) == Sum(a) + Sum(b)
    decreases |a|
  {
    if a != [] {
      assert (a + b)[0] == a[0];
      assert (a + b)[1..] == a[1..] + b;
      SumAppend(a[1..], b);
      assert Sum(a + b) == a[0] + Sum(a[1..] + b);
    } else {
      assert a + b == b;
    }
  }

  /** The sum of the values of `m`, in no particular order (`values().sum()`). */
  ghost function MapSum(m: map<nat, nat>): nat
    decreases |m.Keys|
  {
    if m == map[] then 0
    else
      var k :| k in m;
      m[k] + MapSum(m - {k})
  }

  /** Any key may be taken first: the sum does not depend on the order. */
  lemma {:induction false} MapSumRemove(m: map<nat, nat>, k: nat)
    requires k in m
    ensures MapSum(m) == m[k] + MapSum(m - {k})
    decreases |m.Keys|
  {
    var j :| j in m && MapSum(m) == m[j] + MapSum(m - {j});
    if j != k {
      MapSumRemove(m - {j}, k);
      MapSumRemove(m - {k}, j);
      assert m - {j} - {k} == m - {k} - {j};
    }
  }

  /** Writing `v` at `k` replaces the old value's share of the sum. */
  lemma MapSumUpdate(m: map<nat, nat>, k: nat, v: nat)
    ensures MapSum(m[k := v]) == MapSum(m) - (if k in m then m[k] else 0) + v
  {
    MapSumRemove(m[k := v], k);
    assert m[k := v] - {k} == m - {k};
    if k in m {
      MapSumRemove(m, k);
    } else {
      assert m - {k} == m;
    }
  }

  /** Sums the values by visiting the keys one at a time. */
  method SumValues(m: map<nat, nat>) returns (total: nat)
    ensures total == MapSum(m)
  {
    total := 0;
    var rest := m;
    while rest != map[]
      invariant total + MapSum(rest) == MapSum(m)
      decreases |rest.Keys|
    {
      var k :| k in rest;
      MapSumRemove(rest, k);
      total := total + rest[k];
      rest := rest - {k};
    }
  }

  // ---------------------------------------------------------------------
  // Integer arithmetic

  function Abs(a: int): nat { if a < 0 then -a else a }

  lemma MulPos(a: int, b: int)
    requires a >= 0 && b >= 0
    ensures a * b >= 0
  {}
  lemma MulAbsLower(k: int, d: int)
    requires k != 0
    ensures Abs(k * d) >= Abs(d)
  {
    if k > 0 {
      MulPos(k - 1, Abs(d));
      assert k * Abs(d) == Abs(d) + (k - 1) * Abs(d);
      assert Abs(k * d) == k * Abs(d);
    } else {
      MulPos(-k - 1, Abs(d));
      assert (-k) * Abs(d) == Abs(d) + (-k - 1) * Abs(d);
      assert Abs(k * d) == (-k) * Abs(d);
    }
  }
  lemma DivModUnique(n: int, d: int, q: int, r: int)
    requires d != 0 && 0 <= r < Abs(d) && n == q * d + r
    ensures n % d == r && n / d == q
  {
    var k := q - n / d;
    assert n == (n / d) * d + n % d;
    assert k * d == q * d - (n / d) * d;
    assert k * d == n % d - r;
    if k != 0 {
      MulAbsLower(k, d);
    }
  }
  lemma AddMultiple(a: int, k: int, m: int)
    requires m > 0
    ensures (a + k * m) % m == a % m
  {
    assert a == (a / m) * m + a % m;
    assert a + k * m == (a / m + k) * m + a % m;
    DivModUnique(a + k * m, m, a / m + k, a % m);
  }
  // ---------------------------------------------------------------------
  // Powers

  /** `b` to the power `e`: never negative for a base that is not, and
      positive for a positive base. */
  function Pow(b: int, e: nat): (r: int)
    ensures b >= 0 ==> r >= 0
    ensures b > 0 ==> r > 0
  {
    if e == 0 then 1 else b * Pow(b, e - 1)
  }

  function Pow2(n: nat): (r: nat)
    ensures r >= 1
  {
    if n == 0 then 1 else 2 * Pow2(n - 1)
  }

  // ---------------------------------------------------------------------
  // Searching a list

  /** Some element of `init + [last]` satisfies `p` iff some element of
      `init` does or `last` does. */
  lemma ExistsSnoc<T>(init: seq<T>, last: T, p: T -> bool)
    ensures (exists i :: 0 <= i < |init + [last]| && p((init + [last])[i])) <==>
      (exists i :: 0 <= i < |init| && p(init[i])) || p(last)
  {
    var xs := init + [last];
    if exists i :: 0 <= i < |xs| && p(xs[i]) {
      var i :| 0 <= i < |xs| && p(xs[i]);
      if i < |init| {
        assert init[i] == xs[i];
      }
    }
    if exists i :: 0 <= i < |init| && p(init[i]) {
      var i :| 0 <= i < |init| && p(init[i]);
      assert xs[i] == init[i];
    }
    assert xs[|init|] == last;
  }
}
