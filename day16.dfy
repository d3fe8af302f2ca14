/** Day 16: ticket notes (src/day16.rs). Each field allows two inclusive
    ranges; the scanning error rate adds up every nearby-ticket value that
    no field allows. */
module Day16 {
  import opened Util

  /** A field's two ranges `((min1, max1), (min2, max2))`. */
  type Ranges = ((nat, nat), (nat, nat))

  datatype Notes = Notes(fields: map<string, Ranges>, myTicket: seq<nat>, nearbyTickets: seq<seq<nat>>)

  predicate InRanges(r: Ranges, value: nat)
  {
    (r.0.0 <= value <= r.0.1) || (r.1.0 <= value <= r.1.1)
  }

  /** `matches_range_for`: false for a field the notes do not have;
      for a known field, whether `value` lies in one of its two ranges. */
  function MatchesRangeFor(notes: Notes, field: string, value: nat): (b: bool)
    ensures b ==> field in notes.fields
    ensures field in notes.fields ==>
              var ((min1, max1), (min2, max2)) := notes.fields[field];
              (b <==> min1 <= value <= max1 || min2 <= value <= max2)
  {
    if field in notes.fields then InRanges(notes.fields[field], value) else false
  }

  /** Some field of the notes allows `value`. */
  predicate Allowed(notes: Notes, value: nat)
  {
    exists key :: key in notes.fields && MatchesRangeFor(notes, key, value)
  }

  /** `invalid_values_for`: the values of `ticket` that no field allows,
      in order. */
  function InvalidValuesFor(notes: Notes, ticket: seq<nat>): (r: seq<nat>)
    ensures |r| <= |ticket|
    ensures forall i :: 0 <= i < |r| ==> !Allowed(notes, r[i])
  {
    if ticket == [] then []
    else
      var rest := InvalidValuesFor(notes, ticket[1..]);
      if Allowed(notes, ticket[0]) then rest else [ticket[0]] + rest
  }

  /** Every rejected value is counted as often as it occurs; allowed ones
      do not occur at all. */
  lemma {:induction false} InvalidValuesCount(notes: Notes, ticket: seq<nat>, v: nat)
    ensures multiset(InvalidValuesFor(notes, ticket))[v] ==
      if Allowed(notes, v) then 0 else multiset(ticket)[v]
  {
    if ticket != [] {
      InvalidValuesCount(notes, ticket[1..], v);
      assert ticket == [ticket[0]] + ticket[1..];
    }
  }

  /** The filter works value by value: on two tickets joined it is the
      join of the two results. */
  lemma {:induction false} InvalidValuesAppend(notes: Notes, a: seq<nat>, b: seq<nat>)
    ensures InvalidValuesFor(notes, a + b) == InvalidValuesFor(notes, a) + InvalidValuesFor(notes, b)
  {
    if a != [] {
      assert (a + b)[1..] == a[1..] + b;
      InvalidValuesAppend(notes, a[1..], b);
    } else {
      assert a + b == b;
    }
  }

  /** `nearby_ticket_scanning_error_rate`: the sum of every nearby-ticket
      value no field allows; zero when every value is allowed. */
  function ErrorRate(notes: Notes): (rate: nat)
    ensures rate == Sum(InvalidValuesFor(notes, Flatten(notes.nearbyTickets)))
    ensures (forall i :: 0 <= i < |Flatten(notes.nearbyTickets)| ==> Allowed(notes, Flatten(notes.nearbyTickets)[i]))
            ==> rate == 0
  {
    var all := Flatten(notes.nearbyTickets);
    if forall i :: 0 <= i < |all| ==> Allowed(notes, all[i]) then
      ValidTicketAddsNothing(notes, all);
      TicketsErrorRate(notes, notes.nearbyTickets)
    else
      TicketsErrorRate(notes, notes.nearbyTickets)
  }

  /** The per-ticket sums added up: the sum of the invalid values of all
      the tickets taken together. */
  function TicketsErrorRate(notes: Notes, tickets: seq<seq<nat>>): (rate: nat)
    ensures rate == Sum(InvalidValuesFor(notes, Flatten(tickets)))
  {
    if tickets == [] then 0
    else
      InvalidValuesAppend(notes, tickets[0], Flatten(tickets[1..]));
      SumAppend(InvalidValuesFor(notes, tickets[0]), InvalidValuesFor(notes, Flatten(tickets[1..])));
      SumNat(InvalidValuesFor(notes, tickets[0])) + TicketsErrorRate(notes, tickets[1..])
  }

  function SumNat(s: seq<nat>): (total: nat)
    ensures total == Sum(s)
  {
    if s == [] then 0 else s[0] + SumNat(s[1..])
  }

  function Flatten(tickets: seq<seq<nat>>): seq<nat>
  {
    if tickets == [] then [] else tickets[0] + Flatten(tickets[1..])
  }

  /** A ticket all of whose values are allowed adds nothing. */
  lemma {:induction false} ValidTicketAddsNothing(notes: Notes, ticket: seq<nat>)
    requires forall i :: 0 <= i < |ticket| ==> Allowed(notes, ticket[i])
    ensures InvalidValuesFor(notes, ticket) == []
  {
    if ticket != [] {
      ValidTicketAddsNothing(notes, ticket[1..]);
    }
  }

  // ---------------------------------------------------------------------
  // Parsing

  /** `parse_ticket_line`: comma-separated numbers, one per piece, in
      order; any other piece panics. */
  function ParseTicketLine(line: string): (r: Result<seq<nat>>)
    ensures r.Ok? <==> forall i :: 0 <= i < |Split(line, ',')| ==> ParseNat(Split(line, ',')[i]).Some?
    ensures r.Ok? ==> |r.value| == |Split(line, ',')|
    ensures r.Ok? ==> forall i :: 0 <= i < |Split(line, ',')| ==> ParseNat(Split(line, ',')[i]) == Some(r.value[i])
  {
    match ParseNats(Split(line, ','))
    case Some(ns) => Ok(ns)
    case None => Panic
  }

  const RangeSeparators: set<char> := {' ', '-', 'o', 'r'}

  /** `parse_field_line`: the name before the first colon; after it, the
      non-empty pieces between spaces, dashes, 'o' and 'r' must all be
      numbers and the first four are the ranges. A line without a colon,
      a piece that is not a number, or fewer than four numbers panics. */
  function ParseFieldLine(line: string): (r: Result<(string, Ranges)>)
    ensures ':' !in line ==> r.Panic?
    ensures r.Ok? ==> StartsWith(line, r.value.0 + [':'])
  {
    var partsColon := Split(line, ':');
    if ':' !in line then
      SplitOnAbsent(line, [':'], 0);
      Panic
    else if |partsColon| < 2 then Panic
    else
      SplitOnJoin(line, [':']);
      JoinWithCons(partsColon[0], partsColon[1..], [':']);
      assert [partsColon[0]] + partsColon[1..] == partsColon;
      match ParseNats(NonEmpty(SplitAny(partsColon[1], RangeSeparators)))
      case None => Panic
      case Some(ns) =>
        if |ns| < 4 then Panic else Ok((partsColon[0], ((ns[0], ns[1]), (ns[2], ns[3]))))
  }

  /** The text ` a-b or c-d` after the colon of a field line. */
  function RangesText(a: string, b: string, c: string, d: string): string
  {
    [' '] + a + ['-'] + b + [' ', 'o', 'r', ' '] + c + ['-'] + d
  }

  /** The line `name: a-b or c-d`. */
  function FieldLine(name: string, r: Ranges): string
  {
    name + [':'] + RangesText(NatToString(r.0.0), NatToString(r.0.1), NatToString(r.1.0), NatToString(r.1.1))
  }

  lemma DigitsFree(s: string)
    requires AllDigits(s)
    ensures NoneIn(s, RangeSeparators) && ':' !in s
  {
    assert forall i :: 0 <= i < |s| ==> IsDigit(s[i]);
  }

  /** How ` a-b or c-d` splits. */
  lemma RangesSplit(a: string, b: string, c: string, d: string)
    requires NoneIn(a, RangeSeparators) && NoneIn(b, RangeSeparators)
    requires NoneIn(c, RangeSeparators) && NoneIn(d, RangeSeparators)
    ensures SplitAny(RangesText(a, b, c, d), RangeSeparators) == [[], a, b, [], [], [], c, d]
  {
    var none: string := [];
    var tail := OrText(b, c, d);
    var r2 := a + ['-'] + tail;
    assert RangesText(a, b, c, d) == none + [' '] + r2;
    OrTextSplit(b, c, d);
    SplitAnyCons(a, '-', tail, RangeSeparators);
    SplitAnyCons(none, ' ', r2, RangeSeparators);
  }

  function OrText(b: string, c: string, d: string): string
  {
    b + [' ', 'o', 'r', ' '] + c + ['-'] + d
  }

  lemma OrTextSplit(b: string, c: string, d: string)
    requires NoneIn(b, RangeSeparators) && NoneIn(c, RangeSeparators) && NoneIn(d, RangeSeparators)
    ensures SplitAny(OrText(b, c, d), RangeSeparators) == [b, [], [], [], c, d]
  {
    var none: string := [];
    var r7 := c + ['-'] + d;
    var r6 := none + [' '] + r7;
    var r5 := none + ['r'] + r6;
    var r4 := none + ['o'] + r5;
    assert OrText(b, c, d) == b + [' '] + r4;
    DashSplit(c, d);
    SplitAnyCons(none, ' ', r7, RangeSeparators);
    SplitAnyCons(none, 'r', r6, RangeSeparators);
    SplitAnyCons(none, 'o', r5, RangeSeparators);
    SplitAnyCons(b, ' ', r4, RangeSeparators);
  }

  lemma DashSplit(c: string, d: string)
    requires NoneIn(c, RangeSeparators) && NoneIn(d, RangeSeparators)
    ensures SplitAny(c + ['-'] + d, RangeSeparators) == [c, d]
  {
    SplitAnyNone(d, RangeSeparators);
    SplitAnyCons(c, '-', d, RangeSeparators);
  }

  lemma RangesNonEmpty(a: string, b: string, c: string, d: string)
    requires |a| > 0 && |b| > 0 && |c| > 0 && |d| > 0
    ensures NonEmpty([[], a, b, [], [], [], c, d]) == [a, b, c, d]
  {
    var none: string := [];
    var pieces := [none, a, b, none, none, none, c, d];
    assert NonEmpty(pieces[8..]) == [];
    assert NonEmpty(pieces[7..]) == [d];
    assert NonEmpty(pieces[6..]) == [c, d];
    assert NonEmpty(pieces[5..]) == [c, d];
    assert NonEmpty(pieces[4..]) == [c, d];
    assert NonEmpty(pieces[3..]) == [c, d];
    assert NonEmpty(pieces[2..]) == [b, c, d];
    assert NonEmpty(pieces[1..]) == [a, b, c, d];
  }

  /** The numbers after the colon of a field line. */
  lemma RangesNumbers(r: Ranges)
    ensures var a, b, c, d := NatToString(r.0.0), NatToString(r.0.1), NatToString(r.1.0), NatToString(r.1.1);
      ParseNats(NonEmpty(SplitAny(RangesText(a, b, c, d), RangeSeparators))) == Some([r.0.0, r.0.1, r.1.0, r.1.1])
  {
    var a, b, c, d := NatToString(r.0.0), NatToString(r.0.1), NatToString(r.1.0), NatToString(r.1.1);
    DigitsFree(a);
    DigitsFree(b);
    DigitsFree(c);
    DigitsFree(d);
    RangesSplit(a, b, c, d);
    RangesNonEmpty(a, b, c, d);
    ParseNatToString(r.0.0);
    ParseNatToString(r.0.1);
    ParseNatToString(r.1.0);
    ParseNatToString(r.1.1);
    ParseFour(a, b, c, d, r.0.0, r.0.1, r.1.0, r.1.1);
  }

  lemma ParseFour(a: string, b: string, c: string, d: string, w: nat, x: nat, y: nat, z: nat)
    requires ParseNat(a) == Some(w) && ParseNat(b) == Some(x) && ParseNat(c) == Some(y) && ParseNat(d) == Some(z)
    ensures ParseNats([a, b, c, d]) == Some([w, x, y, z])
  {
    var pieces := [a, b, c, d];
    assert pieces[0] == a && pieces[1] == b && pieces[2] == c && pieces[3] == d;
    var v := ParseNats(pieces).value;
    assert v == [w, x, y, z];
  }

  /** `parse_field_line` reads back the name and ranges of a field line. */
  lemma ParseFieldLineOf(name: string, r: Ranges)
    requires ':' !in name
    ensures ParseFieldLine(FieldLine(name, r)) == Ok((name, r))
  {
    var a, b, c, d := NatToString(r.0.0), NatToString(r.0.1), NatToString(r.1.0), NatToString(r.1.1);
    var rest := RangesText(a, b, c, d);
    DigitsFree(a);
    DigitsFree(b);
    DigitsFree(c);
    DigitsFree(d);
    assert ':' !in rest by {
      assert forall i :: 0 <= i < |rest| ==> rest[i] != ':';
    }
    SplitCons(name, ':', rest);
    SplitNone(rest, ':');
    assert Split(FieldLine(name, r), ':') == [name, rest];
    RangesNumbers(r);
  }

  // ---------------------------------------------------------------------
  // Notes::from

  /** Where `skip_while(|line| line.len() == 0 || line == header)` stops. */
  function SkipHeader(lines: seq<string>, header: string): (k: nat)
    ensures k <= |lines| && (k < |lines| ==> lines[k] != [] && lines[k] != header)
    ensures forall i :: 0 <= i < k ==> lines[i] == [] || lines[i] == header
  {
    if lines != [] && (lines[0] == [] || lines[0] == header) then 1 + SkipHeader(lines[1..], header) else 0
  }

  /** `collect` into a `BTreeMap`: a later line for the same name wins. */
  function CollectFields(lines: seq<string>): Result<map<string, Ranges>>
  {
    if lines == [] then Ok(map[])
    else
      match CollectFields(lines[..|lines| - 1])
      case Panic => Panic
      case Ok(m) =>
        match ParseFieldLine(lines[|lines| - 1])
        case Panic => Panic
        case Ok((name, r)) => Ok(m[name := r])
  }

  function ParseTickets(lines: seq<string>): (r: Result<seq<seq<nat>>>)
    ensures r.Ok? ==> |r.value| == |lines|
    ensures r.Ok? ==> forall i :: 0 <= i < |lines| ==> ParseTicketLine(lines[i]) == Ok(r.value[i])
  {
    if lines == [] then Ok([])
    else
      match ParseTicketLine(lines[0])
      case Panic => Panic
      case Ok(t) =>
        match ParseTickets(lines[1..])
        case Panic => Panic
        case Ok(ts) => Ok([t] + ts)
  }

  /** `Notes::from`: the field lines up to the first empty line (which
      `take_while` also consumes); then, past empty lines and the header,
      my ticket, which must exist; then, past empty lines and the second
      header, one nearby ticket per line. */
  function NotesFrom(lines: seq<string>): (r: Result<Notes>)
    ensures r.Ok? ==> FirstEmpty(lines) < |lines|
    ensures r.Ok? ==> forall name :: name in r.value.fields <==> NamesField(lines[..FirstEmpty(lines)], name)
  {
    var k := FirstEmpty(lines);
    var after := if k < |lines| then lines[k + 1..] else [];
    var j := SkipHeader(after, "your ticket:");
    match CollectFields(lines[..k])
    case Panic => Panic
    case Ok(fields) =>
      CollectFieldsNames(lines[..k]);
      if j == |after| then Panic
      else
        match ParseTicketLine(after[j])
        case Panic => Panic
        case Ok(mine) =>
          var nearby := after[j + 1..];
          match ParseTickets(nearby[SkipHeader(nearby, "nearby tickets:")..])
          case Panic => Panic
          case Ok(tickets) => Ok(Notes(fields, mine, tickets))
  }

  /** Some field line of the list parses to the name `name`. */
  predicate NamesField(lines: seq<string>, name: string)
  {
    exists i :: 0 <= i < |lines| && ParseFieldLine(lines[i]).Ok? && ParseFieldLine(lines[i]).value.0 == name
  }

  /** The notes have exactly the fields named on the field lines. */
  lemma {:induction false} CollectFieldsKeys(lines: seq<string>, name: string)
    requires CollectFields(lines).Ok?
    ensures name in CollectFields(lines).value <==> NamesField(lines, name)
  {
    if lines != [] {
      CollectFieldsKeys(lines[..|lines| - 1], name);
      NamesFieldSnoc(lines, name);
    }
  }

  /** `CollectFieldsKeys` for every name at once. */
  lemma CollectFieldsNames(lines: seq<string>)
    requires CollectFields(lines).Ok?
    ensures forall name :: name in CollectFields(lines).value <==> NamesField(lines, name)
  {
    forall name
      ensures name in CollectFields(lines).value <==> NamesField(lines, name)
    {
      CollectFieldsKeys(lines, name);
    }
  }

  /** The lines name a field iff their front does or the last one does. */
  lemma NamesFieldSnoc(lines: seq<string>, name: string)
    requires lines != []
    ensures var n := |lines| - 1;
      NamesField(lines, name) <==>
        NamesField(lines[..n], name) ||
        (ParseFieldLine(lines[n]).Ok? && ParseFieldLine(lines[n]).value.0 == name)
  {
    var n := |lines| - 1;
    assert lines == lines[..n] + [lines[n]];
    ExistsSnoc(lines[..n], lines[n], line => ParseFieldLine(line).Ok? && ParseFieldLine(line).value.0 == name);
  }

  // ---------------------------------------------------------------------
  // The unit tests' field `class: 1-3 or 5-7`

  const ClassNotes := Notes(map["class" := ((1, 3), (5, 7))], [], [])

  lemma MatchesExample()
    ensures MatchesRangeFor(ClassNotes, "class", 1) && MatchesRangeFor(ClassNotes, "class", 2)
    ensures MatchesRangeFor(ClassNotes, "class", 3) && !MatchesRangeFor(ClassNotes, "class", 4)
    ensures MatchesRangeFor(ClassNotes, "class", 5) && MatchesRangeFor(ClassNotes, "class", 7)
    ensures !MatchesRangeFor(ClassNotes, "class", 8) && !MatchesRangeFor(ClassNotes, "row", 1)
  {
  }
}
