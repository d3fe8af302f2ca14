/** Day 4: passport records (src/day4.rs). Lines are grouped into records
    separated by blank lines; every "key:value" token of a record's lines
    becomes an entry of its map, a later token overwriting an earlier one. */
module Day4 {
  import opened Util

  type Record = map<string, string>

  /** A token's key and value: the first two pieces of `split(':')`; the
      source's second `unwrap` panics when there is no ':'. */
  function PairOf(token: string): (r: Option<(string, string)>)
    ensures r.Some? <==> ':' in token
  {
    var parts := Split(token, ':');
    SplitOnJoin(token, ":");
    if |parts| >= 2 then
      assert ':' in token by {
        assert JoinWith(parts, ":") == parts[0] + ":" + JoinWith(parts[1..], ":");
        assert token[|parts[0]|] == ':';
      }
      Some((parts[0], parts[1]))
    else
      assert parts == [token] by { assert JoinWith(parts, ":") == parts[0]; }
      assert ':' !in token by { SplitCountsSeparator(token); }
      None
  }

  lemma SplitCountsSeparator(token: string)
    requires |Split(token, ':')| < 2
    ensures ':' !in token
  {
    if ':' in token {
      var k :| 0 <= k < |token| && token[k] == ':';
      assert token == token[..k] + [':'] + token[k + 1..];
      SplitAt(token[..k], token[k + 1..]);
    }
  }

  /** A separator anywhere gives at least two pieces. */
  lemma {:induction false} SplitAt(a: string, b: string)
    ensures |Split(a + [':'] + b, ':')| >= 2
    decreases |a|
  {
    var s := a + [':'] + b;
    if a == [] {
      assert s[..1] == [':'];
    } else if s[..1] != [':'] {
      assert s[1..] == a[1..] + [':'] + b;
      SplitAt(a[1..], b);
    } else {
      assert s[1..] == a[1..] + [':'] + b;
    }
  }

  /** The record after inserting the tokens in order, or None (a panic) when
      a token has no ':'. */
  function InsertPairs(current: Record, tokens: seq<string>): Option<Record>
  {
    if tokens == [] then Some(current)
    else
      match InsertPairs(current, tokens[..|tokens| - 1])
      case None => None
      case Some(m) =>
        match PairOf(tokens[|tokens| - 1])
        case None => None
        case Some(kv) => Some(m[kv.0 := kv.1])
  }

  /** The key of the last token naming it gets that token's value. */
  lemma {:induction false} LastWins(current: Record, tokens: seq<string>, j: nat, key: string, value: string)
    requires InsertPairs(current, tokens).Some?
    requires j < |tokens| && PairOf(tokens[j]) == Some((key, value))
    requires forall j' :: j < j' < |tokens| ==> PairOf(tokens[j']).Some? && PairOf(tokens[j']).value.0 != key
    ensures key in InsertPairs(current, tokens).value && InsertPairs(current, tokens).value[key] == value
  {
    var n := |tokens|;
    if j < n - 1 {
      var init := tokens[..n - 1];
      assert forall j' :: j < j' < |init| ==> init[j'] == tokens[j'];
      LastWins(current, init, j, key, value);
    }
  }

  /** Some token of the list is a pair for `key`. */
  predicate Names(tokens: seq<string>, key: string)
  {
    exists j :: 0 <= j < |tokens| && PairOf(tokens[j]).Some? && PairOf(tokens[j]).value.0 == key
  }

  /** A key ends up in the record iff it was there already or some token
      names it. */
  lemma {:induction false} InsertPairsKeys(current: Record, tokens: seq<string>, key: string)
    requires InsertPairs(current, tokens).Some?
    ensures key in InsertPairs(current, tokens).value <==> key in current || Names(tokens, key)
  {
    var n := |tokens|;
    if n > 0 {
      InsertPairsKeys(current, tokens[..n - 1], key);
      NamesSnoc(tokens, key);
    }
  }

  /** The tokens name a key iff their front does or the last one does. */
  lemma NamesSnoc(tokens: seq<string>, key: string)
    requires tokens != []
    ensures var n := |tokens| - 1;
      Names(tokens, key) <==>
        Names(tokens[..n], key) || (PairOf(tokens[n]).Some? && PairOf(tokens[n]).value.0 == key)
  {
    var n := |tokens| - 1;
    assert tokens == tokens[..n] + [tokens[n]];
    ExistsSnoc(tokens[..n], tokens[n], t => PairOf(t).Some? && PairOf(t).value.0 == key);
  }

  predicate Blank(line: string) { Trim(line) == [] }

  /** The records closed so far and the one being filled, after `lines`. */
  function Scan(lines: seq<string>): Result<(seq<Record>, Record)>
  {
    if lines == [] then Ok(([], map[]))
    else
      match Scan(lines[..|lines| - 1])
      case Panic => Panic
      case Ok(state) => ScanLine(state, lines[|lines| - 1])
  }

  /** One line of the scan: a blank line closes the record being filled,
      any other line adds its pairs to it. */
  function ScanLine(state: (seq<Record>, Record), line: string): Result<(seq<Record>, Record)>
  {
    var trimmed := Trim(line);
    if trimmed == [] then Ok((state.0 + [state.1], map[]))
    else
      match InsertPairs(state.1, SplitWhitespace(trimmed))
      case None => Panic
      case Some(m) => Ok((state.0, m))
  }

  /** What `fields_and_values_from` returns: the closed records and the
      last one, which is pushed at the end of input even without a trailing
      blank line. */
  function FieldsAndValues(lines: seq<string>): Result<seq<Record>>
  {
    match Scan(lines)
    case Panic => Panic
    case Ok(state) => Ok(state.0 + [state.1])
  }

  function CountBlank(lines: seq<string>): nat
  {
    if lines == [] then 0 else CountBlank(lines[..|lines| - 1]) + (if Blank(lines[|lines| - 1]) then 1 else 0)
  }

  lemma {:induction false} ScanCount(lines: seq<string>)
    requires Scan(lines).Ok?
    ensures |Scan(lines).value.0| == CountBlank(lines)
  {
    if lines != [] {
      ScanCount(lines[..|lines| - 1]);
    }
  }

  /** There is one record more than there are blank lines. */
  lemma RecordCount(lines: seq<string>)
    requires FieldsAndValues(lines).Ok?
    ensures |FieldsAndValues(lines).value| == CountBlank(lines) + 1
  {
    ScanCount(lines);
  }

  /** A blank line right after another blank line closes an empty record. */
  lemma BlankAfterBlank(lines: seq<string>, b1: string, b2: string)
    requires Blank(b1) && Blank(b2) && Scan(lines).Ok?
    ensures Scan(lines + [b1, b2]).Ok?
    ensures Scan(lines + [b1, b2]).value.0 == Scan(lines).value.0 + [Scan(lines).value.1, map[]]
  {
    var l1 := lines + [b1];
    assert l1 + [b2] == lines + [b1, b2];
    ScanBlank(lines, b1);
    ScanBlank(l1, b2);
  }

  /** A blank line closes the record being filled. */
  lemma ScanBlank(lines: seq<string>, b: string)
    requires Blank(b) && Scan(lines).Ok?
    ensures Scan(lines + [b]) == Ok((Scan(lines).value.0 + [Scan(lines).value.1], map[]))
  {
    assert (lines + [b])[..|lines|] == lines;
  }

  /** `fields_and_values_from`, over the lines of the file: `current` is
      filled token by token, pushed and reset at each blank line, and pushed
      once more at the end. */
  method FieldsAndValuesFrom(lines: seq<string>) returns (r: Result<seq<Record>>)
    ensures r == FieldsAndValues(lines)
  {
    var result: seq<Record> := [];
    var current: Record := map[];
    var i := 0;
    while i < |lines|
      invariant 0 <= i <= |lines|
      invariant Scan(lines[..i]) == Ok((result, current))
    {
      ScanStep(lines, i, result, current);
      var read := ReadLine(lines[i], result, current);
      if read.Panic? {
        ScanStuck(lines, i + 1);
        return Panic;
      }
      result, current := read.value.0, read.value.1;
      i := i + 1;
    }
    assert lines[..|lines|] == lines;
    r := Ok(result + [current]);
  }

  /** The body of the loop over the lines. */
  method ReadLine(line: string, result: seq<Record>, current: Record) returns (r: Result<(seq<Record>, Record)>)
    ensures r == ScanLine((result, current), line)
  {
    var trimmed := Trim(line);
    if |trimmed| == 0 {
      return Ok((result + [current], map[]));
    }
    var inserted := InsertLine(current, SplitWhitespace(trimmed));
    if inserted.None? {
      return Panic;
    }
    return Ok((result, inserted.value));
  }

  /** The tokens of one non-blank line inserted into the record being
      filled, one `field:value` pair at a time. */
  method InsertLine(start: Record, tokens: seq<string>) returns (r: Option<Record>)
    ensures r == InsertPairs(start, tokens)
  {
    var current := start;
    var j := 0;
    while j < |tokens|
      invariant 0 <= j <= |tokens|
      invariant InsertPairs(start, tokens[..j]) == Some(current)
    {
      assert tokens[..j + 1][..j] == tokens[..j];
      var pair := PairOf(tokens[j]);
      if pair.None? {
        InsertPairsStuck(start, tokens, j + 1);
        return None;
      }
      current := current[pair.value.0 := pair.value.1];
      j := j + 1;
    }
    assert tokens[..|tokens|] == tokens;
    return Some(current);
  }

  /** One more line of the scan. */
  lemma ScanStep(lines: seq<string>, i: nat, result: seq<Record>, current: Record)
    requires i < |lines| && Scan(lines[..i]) == Ok((result, current))
    ensures Scan(lines[..i + 1]) == ScanLine((result, current), lines[i])
  {
    assert lines[..i + 1][..i] == lines[..i];
  }

  /** Once a token fails, the whole line fails. */
  lemma {:induction false} InsertPairsStuck(start: Record, tokens: seq<string>, j: nat)
    requires j <= |tokens| && InsertPairs(start, tokens[..j]).None?
    ensures InsertPairs(start, tokens).None?
    decreases |tokens| - j
  {
    if j < |tokens| {
      assert tokens[..j + 1][..j] == tokens[..j];
      InsertPairsStuck(start, tokens, j + 1);
    } else {
      assert tokens[..j] == tokens;
    }
  }

  /** Once a line panics, the whole input does. */
  lemma {:induction false} ScanStuck(lines: seq<string>, i: nat)
    requires i <= |lines| && Scan(lines[..i]).Panic?
    ensures Scan(lines).Panic? && FieldsAndValues(lines).Panic?
    decreases |lines| - i
  {
    if i < |lines| {
      assert lines[..i + 1][..i] == lines[..i];
      ScanStuck(lines, i + 1);
    } else {
      assert lines[..i] == lines;
    }
  }
}
