/** Day 19: monster messages (src/day19.rs). Rules are read from lines
    such as `4: "a"`, `0: 4 1 5` and `1: 2 3 | 3 2`, and a message is
    matched against rule 0 by a recursive descent that commits to the
    first alternative that matches. */
module Day19 {
  import opened Util

  /** `Rule`: a literal character, a sequence of rule ids, or a choice
      between two rules. */
  datatype Rule = Char(c: char) | Subrules(ids: seq<nat>) | Alt(left: Rule, right: Rule)

  /** `Rules`: the rules by id. */
  type RuleMap = map<nat, Rule>

  // ---------------------------------------------------------------------
  // Reading the rules

  /** `decode_option`: after trimming, a quoted character, or rule ids
      separated by whitespace. An empty option, a lone quote or an id that
      is not a number panics. */
  function DecodeOption(chars: string): (r: Result<Rule>)
    ensures r.Ok? ==> !r.value.Alt?
    ensures r.Ok? && r.value.Subrules? ==> ParseNats(SplitWhitespace(chars)) == Some(r.value.ids)
  {
    var t := Trim(chars);
    if t == [] then Panic
    else if t[0] == '"' then (if |t| < 2 then Panic else Ok(Char(t[1])))
    else
      match ParseNats(SplitWhitespace(t))
      case None => Panic
      case Some(ids) =>
        TrimWords(chars);
        Ok(Subrules(ids))
  }

  /** `rule_line`: the id before the first `:`, then one option, or two
      options around a `|` (a further `|` and what follows it are
      ignored). */
  function RuleLine(line: string): (r: Result<(nat, Rule)>)
  {
    var colon := Split(line, ':');
    match ParseNat(colon[0])
    case None => Panic
    case Some(index) =>
      if |colon| < 2 then Panic
      else
        var options := Split(colon[1], '|');
        match DecodeOption(options[0])
        case Panic => Panic
        case Ok(option1) =>
          if |options| >= 2 then
            match DecodeOption(options[1])
            case Panic => Panic
            case Ok(option2) => Ok((index, Alt(option1, option2)))
          else Ok((index, option1))
  }

  // The rule-file notation, and reading it back

  /** Rule ids separated by single spaces. */
  function IdsText(ids: seq<nat>): (t: string)
    requires ids != []
  {
    var first := NatToString(ids[0]);
    if |ids| == 1 then first else first + " " + IdsText(ids[1..])
  }

  /** A written id list starts and ends with a digit and holds only digits
      and spaces. */
  lemma {:induction false} IdsTextChars(ids: seq<nat>)
    requires ids != []
    ensures var t := IdsText(ids);
      t != [] && IsDigit(t[0]) && IsDigit(t[|t| - 1]) &&
      forall i :: 0 <= i < |t| ==> IsDigit(t[i]) || t[i] == ' '
  {
    var first := NatToString(ids[0]);
    if |ids| > 1 {
      IdsTextChars(ids[1..]);
      var rest := IdsText(ids[1..]);
      var t := first + " " + rest;
      assert forall i :: |first| + 1 <= i < |t| ==> t[i] == rest[i - |first| - 1];
      assert forall i :: 0 <= i < |first| ==> t[i] == first[i];
    }
  }

  function OptionText(r: Rule): (t: string)
    requires PrintableOption(r)
  {
    match r
    case Char(c) => [' ', '"', c, '"']
    case Subrules(ids) => " " + IdsText(ids)
  }

  /** A rule the notation can write: a character other than `:` and `|`,
      a non-empty list of ids, or a choice between two of those. */
  predicate Printable(r: Rule)
  {
    if r.Alt? then PrintableOption(r.left) && PrintableOption(r.right) else PrintableOption(r)
  }

  predicate PrintableOption(r: Rule)
  {
    match r
    case Char(c) => c != ':' && c != '|'
    case Subrules(ids) => ids != []
    case Alt(_, _) => false
  }

  /** A rule line as in the puzzle input: `4: "a"`, `0: 4 1 5` or
      `1: 2 3 | 3 2`. */
  function FormatRuleLine(id: nat, r: Rule): string
    requires Printable(r)
  {
    NatToString(id) + ":" + BodyText(r)
  }

  function BodyText(r: Rule): string
    requires Printable(r)
  {
    if r.Alt? then OptionText(r.left) + " |" + OptionText(r.right) else OptionText(r)
  }

  /** Reading a written rule line gives back its id and rule. */
  lemma RuleLineFormat(id: nat, r: Rule)
    requires Printable(r)
    ensures RuleLine(FormatRuleLine(id, r)) == Ok((id, r))
  {
    ColonSplit(id, r);
    ParseNatToString(id);
    BarSplit(r);
    if r.Alt? {
      DecodeOptionText(r.left, " ");
      DecodeOptionText(r.right, "");
      assert OptionText(r.right) + "" == OptionText(r.right);
      RuleLineAlt(FormatRuleLine(id, r), NatToString(id), BodyText(r), id,
                  OptionText(r.left) + " ", OptionText(r.right), r.left, r.right);
    } else {
      DecodeOptionText(r, "");
      assert OptionText(r) + "" == OptionText(r);
      RuleLineSingle(FormatRuleLine(id, r), NatToString(id), BodyText(r), id, r);
    }
  }

  /** `rule_line` in terms of the pieces of its two splits. */
  lemma RuleLineAlt(line: string, head: string, body: string, id: nat, x: string, y: string, a: Rule, b: Rule)
    requires Split(line, ':') == [head, body] && ParseNat(head) == Some(id)
    requires Split(body, '|') == [x, y] && DecodeOption(x) == Ok(a) && DecodeOption(y) == Ok(b)
    ensures RuleLine(line) == Ok((id, Alt(a, b)))
  {
  }

  lemma RuleLineSingle(line: string, head: string, body: string, id: nat, a: Rule)
    requires Split(line, ':') == [head, body] && ParseNat(head) == Some(id)
    requires Split(body, '|') == [body] && DecodeOption(body) == Ok(a)
    ensures RuleLine(line) == Ok((id, a))
  {
  }

  lemma ColonSplit(id: nat, r: Rule)
    requires Printable(r)
    ensures Split(FormatRuleLine(id, r), ':') == [NatToString(id), BodyText(r)]
  {
    var idText := NatToString(id);
    DigitsNoWhitespace(idText);
    BodyAvoidsColon(r);
    SplitCons(idText, ':', BodyText(r));
    SplitNone(BodyText(r), ':');
  }

  lemma BodyAvoidsColon(r: Rule)
    requires Printable(r)
    ensures ':' !in BodyText(r)
  {
    if r.Alt? {
      OptionTextAvoids(r.left);
      OptionTextAvoids(r.right);
      var x, y := OptionText(r.left), OptionText(r.right);
      var body := BodyText(r);
      assert body == x + " |" + y;
      assert forall i :: |x| + 2 <= i < |body| ==> body[i] == y[i - |x| - 2];
      assert forall i :: 0 <= i < |body| ==> body[i] != ':';
    } else {
      OptionTextAvoids(r);
    }
  }

  lemma BarSplit(r: Rule)
    requires Printable(r)
    ensures Split(BodyText(r), '|') == if r.Alt? then [OptionText(r.left) + " ", OptionText(r.right)]
                                        else [OptionText(r)]
  {
    if r.Alt? {
      var x, y := OptionText(r.left), OptionText(r.right);
      OptionTextAvoids(r.left);
      OptionTextAvoids(r.right);
      assert '|' !in x + " " by {
        assert forall i :: 0 <= i < |x| ==> (x + " ")[i] == x[i];
      }
      assert BodyText(r) == (x + " ") + ['|'] + y;
      SplitCons(x + " ", '|', y);
      SplitNone(y, '|');
    } else {
      OptionTextAvoids(r);
      SplitNone(BodyText(r), '|');
    }
  }

  lemma OptionTextAvoids(r: Rule)
    requires PrintableOption(r)
    ensures ':' !in OptionText(r) && '|' !in OptionText(r)
  {
    if r.Subrules? {
      var t := IdsText(r.ids);
      IdsTextChars(r.ids);
      assert forall i :: 1 <= i < |OptionText(r)| ==> OptionText(r)[i] == t[i - 1];
    }
  }

  /** `decode_option` reads back a written option, with or without the
      space that precedes a `|`. */
  lemma DecodeOptionText(r: Rule, suffix: string)
    requires PrintableOption(r) && (suffix == "" || suffix == " ")
    ensures DecodeOption(OptionText(r) + suffix) == Ok(r)
  {
    match r
    case Char(c) => DecodeChar(c, suffix);
    case Subrules(ids) => DecodeIds(ids, suffix);
  }

  lemma DecodeChar(c: char, suffix: string)
    requires suffix == "" || suffix == " "
    ensures DecodeOption([' ', '"', c, '"'] + suffix) == Ok(Char(c))
  {
    var quoted := ['"', c, '"'];
    assert [' ', '"', c, '"'] + suffix == [' '] + quoted + suffix;
    DecodeSpacedQuoted(quoted, c, suffix);
  }

  lemma DecodeSpacedQuoted(quoted: string, c: char, suffix: string)
    requires quoted == ['"', c, '"'] && (suffix == "" || suffix == " ")
    ensures DecodeOption([' '] + quoted + suffix) == Ok(Char(c))
  {
    TrimSpaced(quoted, suffix);
    DecodeQuoted([' '] + quoted + suffix, c);
  }

  /** An option that trims to a quoted character is that character. */
  lemma DecodeQuoted(s: string, c: char)
    requires Trim(s) == ['"', c, '"']
    ensures DecodeOption(s) == Ok(Char(c))
  {
    var t := Trim(s);
    assert t[0] == '"' && t[1] == c && |t| == 3;
  }

  lemma DecodeIds(ids: seq<nat>, suffix: string)
    requires ids != [] && (suffix == "" || suffix == " ")
    ensures DecodeOption(" " + IdsText(ids) + suffix) == Ok(Subrules(ids))
  {
    var t := IdsText(ids);
    IdsTextChars(ids);
    TrimSpaced(t, suffix);
    assert t[0] != '"';
    IdsWords(ids);
    ParseTexts(ids);
  }

  /** Trimming a space before a word and an optional space after it. */
  lemma TrimSpaced(x: string, suffix: string)
    requires x != [] && !IsWhitespace(x[0]) && !IsWhitespace(x[|x| - 1])
    requires suffix == "" || suffix == " "
    ensures Trim([' '] + x + suffix) == x
  {
    var s := [' '] + x + suffix;
    assert s[1..] == x + suffix;
    assert TrimStart(s) == x + suffix by {
      assert (x + suffix)[0] == x[0];
    }
    TrimEndSpace(x, suffix);
  }

  lemma TrimEndSpace(x: string, suffix: string)
    requires x != [] && !IsWhitespace(x[|x| - 1])
    requires suffix == "" || suffix == " "
    ensures TrimEnd(x + suffix) == x
  {
    if suffix == " " {
      assert (x + suffix)[..|x|] == x;
    } else {
      assert x + suffix == x;
    }
  }

  /** The words of a written id list are the written ids. */
  lemma {:induction false} IdsWords(ids: seq<nat>)
    requires ids != []
    ensures SplitWhitespace(IdsText(ids)) == IdTexts(ids)
  {
    var first := NatToString(ids[0]);
    DigitsNoWhitespace(first);
    if |ids| == 1 {
      SplitWhitespaceCons(first, []);
      assert first + [] == first;
    } else {
      var rest := IdsText(ids[1..]);
      IdsWords(ids[1..]);
      assert first + " " + rest == first + ([' '] + rest);
      SplitWhitespaceCons(first, [' '] + rest);
      SplitWhitespaceSkip(' ', rest);
    }
  }

  /** The written ids of a list parse back to the list. */
  lemma ParseTexts(ids: seq<nat>)
    ensures ParseNats(IdTexts(ids)) == Some(ids)
  {
    var texts := IdTexts(ids);
    forall i | 0 <= i < |ids|
      ensures ParseNat(texts[i]) == Some(ids[i])
    {
      ParseNatToString(ids[i]);
    }
    var r := ParseNats(texts);
    assert r.Some?;
    forall i | 0 <= i < |ids|
      ensures r.value[i] == ids[i]
    {
      assert ParseNat(texts[i]) == Some(r.value[i]);
    }
    assert r.value == ids;
  }

  function IdTexts(ids: seq<nat>): (t: seq<string>)
    ensures |t| == |ids| && forall i :: 0 <= i < |ids| ==> t[i] == NatToString(ids[i])
  {
    seq(|ids|, i requires 0 <= i < |ids| => NatToString(ids[i]))
  }

  lemma TrimWords(s: string)
    ensures SplitWhitespace(Trim(s)) == SplitWhitespace(s)
  {
    TrimStartWords(s);
    TrimEndWords(TrimStart(s));
  }

  lemma {:induction false} TrimStartWords(s: string)
    ensures SplitWhitespace(TrimStart(s)) == SplitWhitespace(s)
    decreases |s|
  {
    if s != [] && IsWhitespace(s[0]) {
      TrimStartWords(s[1..]);
    }
  }

  lemma {:induction false} TrimEndWords(s: string)
    ensures SplitWhitespace(TrimEnd(s)) == SplitWhitespace(s)
    decreases |s|
  {
    if s != [] && IsWhitespace(s[|s| - 1]) {
      TrimEndWords(s[..|s| - 1]);
      SplitWhitespaceSnoc(s[..|s| - 1], s[|s| - 1]);
      assert s[..|s| - 1] + [s[|s| - 1]] == s;
    }
  }

  /** Trailing whitespace adds no word. */
  lemma {:induction false} SplitWhitespaceSnoc(s: string, c: char)
    requires IsWhitespace(c)
    ensures SplitWhitespace(s + [c]) == SplitWhitespace(s)
    decreases |s|
  {
    if s == [] {
      assert ([c])[1..] == [];
    } else if IsWhitespace(s[0]) {
      assert (s + [c])[1..] == s[1..] + [c];
      SplitWhitespaceSnoc(s[1..], c);
    } else {
      var n := TokenLength(s);
      TokenLengthSnoc(s, c);
      assert (s + [c])[..n] == s[..n];
      assert (s + [c])[n..] == s[n..] + [c];
      SplitWhitespaceSnoc(s[n..], c);
    }
  }

  lemma {:induction false} TokenLengthSnoc(s: string, c: char)
    requires IsWhitespace(c)
    ensures TokenLength(s + [c]) == TokenLength(s)
    decreases |s|
  {
    if s != [] && !IsWhitespace(s[0]) {
      assert (s + [c])[1..] == s[1..] + [c];
      TokenLengthSnoc(s[1..], c);
    }
  }

  // ---------------------------------------------------------------------
  // Matching

  /** The rule ids a rule refers to directly. */
  function Refs(r: Rule): set<nat>
  {
    match r
    case Char(_) => {}
    case Subrules(ids) => set id | id in ids
    case Alt(a, b) => Refs(a) + Refs(b)
  }

  function Size(r: Rule): (n: nat)
    ensures n >= 1
  {
    match r
    case Alt(a, b) => 1 + Size(a) + Size(b)
    case _ => 1
  }

  /** Every rule that `r` refers to and that exists has a rank below
      `bound`. */
  ghost predicate Below(rules: RuleMap, rank: map<nat, nat>, r: Rule, bound: nat)
  {
    forall id :: id in Refs(r) && id in rules ==> id in rank && rank[id] < bound
  }

  /** The rules never refer to themselves, directly or through others:
      each refers only to rules of smaller rank. Matching then always
      finishes. */
  ghost predicate Ranked(rules: RuleMap, rank: map<nat, nat>)
  {
    forall id :: id in rules ==> id in rank && Below(rules, rank, rules[id], rank[id])
  }

  /** `Rules::matches`: the position after the part of `line` from `pos`
      that `r` matches, or None. `Char` reads `line[pos]`, which panics
      at the end of the line; `Alt` evaluates both alternatives (Rust's
      `Option::or` takes an evaluated argument) and keeps the first that
      matched; `Subrules` threads the position through its ids. */
  function Matches(rules: RuleMap, ghost rank: map<nat, nat>, ghost bound: nat, r: Rule, line: string, pos: nat)
    : (m: Result<Option<nat>>)
    requires Ranked(rules, rank) && Below(rules, rank, r, bound)
    requires pos <= |line|
    ensures m.Ok? && m.value.Some? ==> pos < m.value.value <= |line|
    decreases bound, Size(r), 0
  {
    match r
    case Char(c) =>
      if pos >= |line| then Panic
      else if line[pos] == c then Ok(Some(pos + 1))
      else Ok(None)
    case Alt(a, b) =>
      (match (Matches(rules, rank, bound, a, line, pos), Matches(rules, rank, bound, b, line, pos))
       case (Ok(first), Ok(second)) => Ok(if first.Some? then first else second)
       case _ => Panic)
    case Subrules(ids) =>
      if ids == [] then Panic
      else Thread(rules, rank, bound, ids, 0, Some(pos), line)
  }

  /** `matches(rule(id), …)`: `rule` panics on an id with no rule. */
  function MatchId(rules: RuleMap, ghost rank: map<nat, nat>, ghost bound: nat, id: nat, line: string, pos: nat)
    : (m: Result<Option<nat>>)
    requires Ranked(rules, rank) && (id in rules ==> id in rank && rank[id] < bound)
    requires pos <= |line|
    ensures m.Ok? && m.value.Some? ==> pos < m.value.value <= |line|
    decreases bound, 0, 0
  {
    if id !in rules then Panic else Matches(rules, rank, rank[id], rules[id], line, pos)
  }

  /** The loop of `process_subrules` from index `i`, with the result so
      far: each id is matched where the previous one ended, and once one
      fails the rest are skipped (`and_then` does not call its closure on
      None). */
  function Thread(rules: RuleMap, ghost rank: map<nat, nat>, ghost bound: nat, ids: seq<nat>, i: nat,
                  acc: Option<nat>, line: string)
    : (m: Result<Option<nat>>)
    requires Ranked(rules, rank) && Below(rules, rank, Subrules(ids), bound)
    requires i <= |ids| && (acc.Some? ==> acc.value <= |line|)
    ensures m.Ok? && m.value.Some? ==> acc.Some? && acc.value <= m.value.value <= |line|
    ensures m.Ok? && m.value.Some? && i < |ids| ==> acc.value < m.value.value
    decreases bound, 0, |ids| - i
  {
    if i == |ids| then Ok(acc)
    else
      match acc
      case None => Thread(rules, rank, bound, ids, i + 1, None, line)
      case Some(p) =>
        match MatchId(rules, rank, bound, ids[i], line, p)
        case Panic => Panic
        case Ok(next) => Thread(rules, rank, bound, ids, i + 1, next, line)
  }

  /** `process_subrules`: match the first id, then each of the others where
      the previous one ended. An empty list panics (`subs[0]`). */
  method ProcessSubrules(rules: RuleMap, ghost rank: map<nat, nat>, ghost bound: nat, ids: seq<nat>, line: string, pos: nat)
    returns (m: Result<Option<nat>>)
    requires Ranked(rules, rank) && Below(rules, rank, Subrules(ids), bound)
    requires pos <= |line|
    ensures m == Matches(rules, rank, bound, Subrules(ids), line, pos)
  {
    if ids == [] {
      return Panic;
    }
    var first := MatchId(rules, rank, bound, ids[0], line, pos);
    if first.Panic? {
      return Panic;
    }
    var result := first.value;
    for i := 1 to |ids|
      invariant result.Some? ==> result.value <= |line|
      invariant Thread(rules, rank, bound, ids, 0, Some(pos), line) == Thread(rules, rank, bound, ids, i, result, line)
    {
      if result.Some? {
        var next := MatchId(rules, rank, bound, ids[i], line, result.value);
        if next.Panic? {
          return Panic;
        }
        result := next.value;
      }
    }
    return Ok(result);
  }

  /** `puzzle1_match`: rule 0 matches the whole line. */
  function PuzzleMatch(rules: RuleMap, ghost rank: map<nat, nat>, line: string): (r: Result<bool>)
    requires Ranked(rules, rank)
  {
    if 0 !in rules then Panic
    else
      match Matches(rules, rank, rank[0], rules[0], line, 0)
      case Panic => Panic
      case Ok(end) => Ok(end == Some(|line|))
  }

  // ---------------------------------------------------------------------
  // `puzzle1`

  /** The rule lines read into a map (`collect` into a `BTreeMap`). */
  function BuildRules(ls: seq<string>): Result<RuleMap>
  {
    Collect(seq(|ls|, i requires 0 <= i < |ls| => RuleLine(ls[i])))
  }

  /** Parsed lines collected into a map, failing if any line failed: a
      later line with the same id replaces an earlier one. */
  function Collect(ps: seq<Result<(nat, Rule)>>): Result<RuleMap>
  {
    if ps == [] then Ok(map[])
    else
      var m := Collect(ps[..|ps| - 1]);
      var last := ps[|ps| - 1];
      if m.Panic? || last.Panic? then Panic else Ok(m.value[last.value.0 := last.value.1])
  }

  /** Collecting succeeds exactly when every line was parsed. */
  lemma {:induction false} CollectOk(ps: seq<Result<(nat, Rule)>>)
    ensures Collect(ps).Ok? <==> forall i :: 0 <= i < |ps| ==> ps[i].Ok?
  {
    if ps != [] {
      var init := ps[..|ps| - 1];
      CollectOk(init);
      assert forall i :: 0 <= i < |init| ==> init[i] == ps[i];
    }
  }

  /** Each id maps to the rule of the last line that defines it. */
  lemma {:induction false} CollectLast(ps: seq<Result<(nat, Rule)>>, i: nat)
    requires forall j :: 0 <= j < |ps| ==> ps[j].Ok?
    requires i < |ps| && forall j :: i < j < |ps| ==> ps[j].value.0 != ps[i].value.0
    ensures Collect(ps).Ok? && ps[i].value.0 in Collect(ps).value
    ensures Collect(ps).value[ps[i].value.0] == ps[i].value.1
  {
    CollectOk(ps);
    var init := ps[..|ps| - 1];
    assert forall j :: 0 <= j < |init| ==> init[j] == ps[j];
    CollectOk(init);
    if i < |ps| - 1 {
      CollectLast(init, i);
    }
  }

  /** Every id in the map comes from some line. */
  lemma {:induction false} CollectKeys(ps: seq<Result<(nat, Rule)>>, id: nat)
    requires Collect(ps).Ok? && id in Collect(ps).value
    ensures exists i :: 0 <= i < |ps| && ps[i] == Ok((id, Collect(ps).value[id]))
  {
    var init := ps[..|ps| - 1];
    assert forall j :: 0 <= j < |init| ==> init[j] == ps[j];
    if ps[|ps| - 1].value.0 != id {
      CollectKeys(init, id);
      var i :| 0 <= i < |init| && init[i] == Ok((id, Collect(init).value[id]));
      assert ps[i] == init[i];
    }
  }

  /** `lines.filter(|line| rules.puzzle1_match(line)).count()`. */
  function CountMatching(rules: RuleMap, ghost rank: map<nat, nat>, messages: seq<string>): (r: Result<nat>)
    requires Ranked(rules, rank)
    ensures r.Ok? <==> forall i :: 0 <= i < |messages| ==> PuzzleMatch(rules, rank, messages[i]).Ok?
    ensures r.Ok? ==> r.value <= |messages|
    ensures r.Ok? ==> (r.value == |messages| <==> forall i :: 0 <= i < |messages| ==> PuzzleMatch(rules, rank, messages[i]).value)
  {
    if messages == [] then Ok(0)
    else
      assert forall i :: 1 <= i < |messages| ==> messages[1..][i - 1] == messages[i];
      var head := PuzzleMatch(rules, rank, messages[0]);
      var tail := CountMatching(rules, rank, messages[1..]);
      if head.Panic? || tail.Panic? then Panic
      else Ok(if head.value then tail.value + 1 else tail.value)
  }

  /** The positions of the messages that rule 0 matches. */
  ghost function MatchingSet(rules: RuleMap, rank: map<nat, nat>, messages: seq<string>): set<nat>
    requires Ranked(rules, rank)
  {
    set i: nat | i < |messages| && PuzzleMatch(rules, rank, messages[i]) == Ok(true)
  }

  /** The count is the number of messages that rule 0 matches. */
  lemma {:induction false} CountMatchingIsCardinality(rules: RuleMap, rank: map<nat, nat>, messages: seq<string>)
    requires Ranked(rules, rank) && CountMatching(rules, rank, messages).Ok?
    ensures CountMatching(rules, rank, messages).value == |MatchingSet(rules, rank, messages)|
    decreases |messages|
  {
    if messages != [] {
      var tail := messages[1..];
      CountMatchingIsCardinality(rules, rank, tail);
      var later := MatchingSet(rules, rank, tail);
      var all := MatchingSet(rules, rank, messages);
      var shifted := Shift(later);
      MatchingSetTail(rules, rank, messages);
      ShiftCard(later);
      if PuzzleMatch(rules, rank, messages[0]) == Ok(true) {
        assert all == shifted + {0};
      } else {
        assert all == shifted;
      }
    }
  }

  /** The matching positions after the first are those of the tail,
      moved one up. */
  lemma MatchingSetTail(rules: RuleMap, rank: map<nat, nat>, messages: seq<string>)
    requires Ranked(rules, rank) && messages != []
    ensures MatchingSet(rules, rank, messages) - {0} == Shift(MatchingSet(rules, rank, messages[1..]))
  {
    var all, later := MatchingSet(rules, rank, messages), MatchingSet(rules, rank, messages[1..]);
    forall i | i in all - {0} ensures i in Shift(later) {
      assert messages[1..][i - 1] == messages[i];
      assert i - 1 in later;
    }
    forall i | i in Shift(later) ensures i in all - {0} {
      var j :| j in later && i == j + 1;
      assert messages[1..][j] == messages[i];
    }
  }

  /** Every member moved one up. */
  ghost function Shift(s: set<nat>): set<nat>
  {
    set i | i in s :: i + 1
  }

  /** Moving every member one up keeps the number of members. */
  lemma {:induction false} ShiftCard(s: set<nat>)
    ensures |Shift(s)| == |s|
    decreases |s|
  {
    if s != {} {
      var x :| x in s;
      var rest := s - {x};
      ShiftCard(rest);
      assert Shift(s) == Shift(rest) + {x + 1} by {
        forall j | j in Shift(s) ensures j in Shift(rest) + {x + 1} {
          var i :| i in s && j == i + 1;
          if i != x {
            assert i in rest;
          }
        }
      }
      assert x + 1 !in Shift(rest);
    }
  }

  /** The lines after the first empty one: the messages. */
  function MessageLines(lines: seq<string>): (m: seq<string>)
    ensures |m| <= |lines|
  {
    var k := FirstEmpty(lines);
    if k < |lines| then lines[k + 1..] else []
  }

  /** `Rules::puzzle1`: the rules before the first empty line (which
      `take_while` consumes), then the number of the following lines that
      match rule 0. Matching needs the
      rules to be free of cycles (see `Ranked`), for which a ranking is
      given. */
  function Puzzle1(lines: seq<string>, ghost rank: map<nat, nat>): (r: Result<nat>)
    requires BuildRules(lines[..FirstEmpty(lines)]).Ok? ==> Ranked(BuildRules(lines[..FirstEmpty(lines)]).value, rank)
    ensures r.Ok? ==> r.value < |lines| || r.value == 0
    ensures r.Ok? ==> BuildRules(lines[..FirstEmpty(lines)]).Ok? &&
                      r.value == |MatchingSet(BuildRules(lines[..FirstEmpty(lines)]).value, rank, MessageLines(lines))|
  {
    var k := FirstEmpty(lines);
    match BuildRules(lines[..k])
    case Panic => Panic
    case Ok(rules) =>
      var messages := MessageLines(lines);
      var r := CountMatching(rules, rank, messages);
      if r.Ok? then
        CountMatchingIsCardinality(rules, rank, messages);
        r
      else r
  }

  // ---------------------------------------------------------------------
  // The language of a rule, and what matching finds

  /** The words a rule describes: its character, a word of either
      alternative, or the concatenation of words of its ids in order. */
  ghost predicate Generates(rules: RuleMap, rank: map<nat, nat>, bound: nat, r: Rule, w: string)
    requires Ranked(rules, rank) && Below(rules, rank, r, bound)
    decreases bound, Size(r), 0
  {
    match r
    case Char(c) => w == [c]
    case Alt(a, b) => Generates(rules, rank, bound, a, w) || Generates(rules, rank, bound, b, w)
    case Subrules(ids) => GeneratesSeq(rules, rank, bound, ids, 0, w)
  }

  ghost predicate GeneratesId(rules: RuleMap, rank: map<nat, nat>, bound: nat, id: nat, w: string)
    requires Ranked(rules, rank) && (id in rules ==> id in rank && rank[id] < bound)
    decreases bound, 0, 0
  {
    id in rules && Generates(rules, rank, rank[id], rules[id], w)
  }

  ghost predicate GeneratesSeq(rules: RuleMap, rank: map<nat, nat>, bound: nat, ids: seq<nat>, i: nat, w: string)
    requires Ranked(rules, rank) && Below(rules, rank, Subrules(ids), bound) && i <= |ids|
    decreases bound, 0, |ids| - i
  {
    if i == |ids| then w == []
    else exists k :: 0 <= k <= |w| && GeneratesId(rules, rank, bound, ids[i], w[..k])
                     && GeneratesSeq(rules, rank, bound, ids, i + 1, w[k..])
  }

  /** Matching is sound: what a rule matches is one of its words. */
  lemma {:induction false} MatchesSound(rules: RuleMap, rank: map<nat, nat>, bound: nat, r: Rule, line: string, pos: nat)
    requires Ranked(rules, rank) && Below(rules, rank, r, bound) && pos <= |line|
    requires Matches(rules, rank, bound, r, line, pos).Ok? && Matches(rules, rank, bound, r, line, pos).value.Some?
    ensures Generates(rules, rank, bound, r, line[pos..Matches(rules, rank, bound, r, line, pos).value.value])
    decreases bound, Size(r), 0
  {
    match r
    case Char(c) =>
    case Alt(a, b) =>
      if Matches(rules, rank, bound, a, line, pos).value.Some? {
        MatchesSound(rules, rank, bound, a, line, pos);
      } else {
        MatchesSound(rules, rank, bound, b, line, pos);
      }
    case Subrules(ids) =>
      ThreadSound(rules, rank, bound, ids, 0, pos, line);
  }

  lemma {:induction false} MatchIdSound(rules: RuleMap, rank: map<nat, nat>, bound: nat, id: nat, line: string, pos: nat)
    requires Ranked(rules, rank) && (id in rules ==> id in rank && rank[id] < bound) && pos <= |line|
    requires MatchId(rules, rank, bound, id, line, pos).Ok? && MatchId(rules, rank, bound, id, line, pos).value.Some?
    ensures GeneratesId(rules, rank, bound, id, line[pos..MatchId(rules, rank, bound, id, line, pos).value.value])
    decreases bound, 0, 0
  {
    MatchesSound(rules, rank, rank[id], rules[id], line, pos);
  }

  lemma {:induction false} ThreadSound(rules: RuleMap, rank: map<nat, nat>, bound: nat, ids: seq<nat>, i: nat,
                                       p: nat, line: string)
    requires Ranked(rules, rank) && Below(rules, rank, Subrules(ids), bound) && i <= |ids| && p <= |line|
    requires Thread(rules, rank, bound, ids, i, Some(p), line).Ok?
    requires Thread(rules, rank, bound, ids, i, Some(p), line).value.Some?
    ensures GeneratesSeq(rules, rank, bound, ids, i, line[p..Thread(rules, rank, bound, ids, i, Some(p), line).value.value])
    decreases bound, 0, |ids| - i
  {
    var q := Thread(rules, rank, bound, ids, i, Some(p), line).value.value;
    if i < |ids| {
      ThreadNone(rules, rank, bound, ids, i + 1, line);
      var p' := MatchId(rules, rank, bound, ids[i], line, p).value.value;
      MatchIdSound(rules, rank, bound, ids[i], line, p);
      ThreadSound(rules, rank, bound, ids, i + 1, p', line);
      var w := line[p..q];
      var k := p' - p;
      assert w[..k] == line[p..p'];
      assert w[k..] == line[p'..q];
    }
  }

  /** Once a sub-rule has failed, the whole sequence fails. */
  lemma {:induction false} ThreadNone(rules: RuleMap, rank: map<nat, nat>, bound: nat, ids: seq<nat>, i: nat, line: string)
    requires Ranked(rules, rank) && Below(rules, rank, Subrules(ids), bound) && i <= |ids|
    ensures Thread(rules, rank, bound, ids, i, None, line) == Ok(None)
    decreases |ids| - i
  {
    if i < |ids| {
      ThreadNone(rules, rank, bound, ids, i + 1, line);
    }
  }

  /** A line that `puzzle1_match` accepts is a word of rule 0. */
  lemma PuzzleMatchSound(rules: RuleMap, rank: map<nat, nat>, line: string)
    requires Ranked(rules, rank) && PuzzleMatch(rules, rank, line) == Ok(true)
    ensures GeneratesId(rules, rank, rank[0] + 1, 0, line)
  {
    MatchesSound(rules, rank, rank[0], rules[0], line, 0);
    assert line[0..|line|] == line;
  }

  /** `0: 1 3`, `1: 2 | 2 2`, `2: "a"`, `3: "b"`, ranked by depth. */
  function CommitRules(): RuleMap
  {
    map[0 := Subrules([1, 3]), 1 := Alt(Subrules([2]), Subrules([2, 2])), 2 := Char('a'), 3 := Char('b')]
  }

  function CommitRank(): map<nat, nat>
  {
    map[0 := 2, 1 := 1, 2 := 0, 3 := 0]
  }

  lemma CommitRanked()
    ensures Ranked(CommitRules(), CommitRank())
  {
  }

  /** A word of an id followed by a word of the ids after it. */
  lemma GeneratesSeqCons(rules: RuleMap, rank: map<nat, nat>, bound: nat, ids: seq<nat>, i: nat, u: string, v: string)
    requires Ranked(rules, rank) && Below(rules, rank, Subrules(ids), bound) && i < |ids|
    requires GeneratesId(rules, rank, bound, ids[i], u) && GeneratesSeq(rules, rank, bound, ids, i + 1, v)
    ensures GeneratesSeq(rules, rank, bound, ids, i, u + v)
  {
    assert (u + v)[..|u|] == u && (u + v)[|u|..] == v;
  }

  lemma CommitA()
    ensures Ranked(CommitRules(), CommitRank()) && GeneratesId(CommitRules(), CommitRank(), 1, 2, "a")
  {
    CommitRanked();
  }

  lemma CommitAA()
    ensures Ranked(CommitRules(), CommitRank()) && GeneratesId(CommitRules(), CommitRank(), 2, 1, "aa")
  {
    var rules, rank := CommitRules(), CommitRank();
    CommitA();
    assert GeneratesSeq(rules, rank, 1, [2, 2], 2, []);
    GeneratesSeqCons(rules, rank, 1, [2, 2], 1, "a", []);
    assert "a" + [] == "a";
    GeneratesSeqCons(rules, rank, 1, [2, 2], 0, "a", "a");
    assert "a" + "a" == "aa";
    assert Generates(rules, rank, 1, Subrules([2, 2]), "aa");
  }

  /** "aab" is a word of rule 0, through the second alternative of rule 1. */
  lemma CommitGenerates()
    ensures Ranked(CommitRules(), CommitRank()) && GeneratesId(CommitRules(), CommitRank(), 3, 0, "aab")
  {
    assert "aab" == "aa" + "b";
    CommitGeneratesSplit("aa", "b");
  }

  lemma CommitGeneratesSplit(u: string, v: string)
    requires u == "aa" && v == "b"
    ensures Ranked(CommitRules(), CommitRank()) && GeneratesId(CommitRules(), CommitRank(), 3, 0, u + v)
  {
    var rules, rank := CommitRules(), CommitRank();
    CommitAA();
    assert GeneratesId(rules, rank, 2, 3, v);
    assert GeneratesSeq(rules, rank, 2, [1, 3], 2, []);
    GeneratesSeqCons(rules, rank, 2, [1, 3], 1, v, []);
    assert v + [] == v;
    GeneratesSeqCons(rules, rank, 2, [1, 3], 0, u, v);
    assert rules[0] == Subrules([1, 3]) && rank[0] == 2;
  }

  /** There is no backtracking into an alternative: rule 1 commits to its
      first alternative on "aab", after which "b" is not found, so the
      line is rejected although it is a word of rule 0. */
  lemma NoBacktracking()
    ensures Ranked(CommitRules(), CommitRank()) && GeneratesId(CommitRules(), CommitRank(), 3, 0, "aab")
    ensures PuzzleMatch(CommitRules(), CommitRank(), "aab") == Ok(false)
  {
    CommitGenerates();
    CommitRejects();
  }

  lemma CommitRejects()
    ensures Ranked(CommitRules(), CommitRank())
    ensures PuzzleMatch(CommitRules(), CommitRank(), "aab") == Ok(false)
  {
    var rules, rank := CommitRules(), CommitRank();
    var line := "aab";
    assert rules[1] == Alt(Subrules([2]), Subrules([2, 2])) && rules[3] == Char('b');
    assert MatchId(rules, rank, 2, 1, line, 0) == Ok(Some(1));
    assert MatchId(rules, rank, 1, 3, line, 1) == Ok(None);
  }

  /** Both alternatives are evaluated: with `0: "a" | 1 1` and `1: "a"`,
      the line "a" is a word of rule 0, yet matching panics, because the
      second alternative reads past the end of the line even though the
      first one matched. */
  lemma EagerAlternatives()
    ensures var rules := map[0 := Alt(Char('a'), Subrules([1, 1])), 1 := Char('a')];
            var rank := map[0 := 1, 1 := 0];
            Ranked(rules, rank) && GeneratesId(rules, rank, 2, 0, "a") && PuzzleMatch(rules, rank, "a") == Panic
  {
    var rules := map[0 := Alt(Char('a'), Subrules([1, 1])), 1 := Char('a')];
    var rank := map[0 := 1, 1 := 0];
    assert Ranked(rules, rank);
  }
}
