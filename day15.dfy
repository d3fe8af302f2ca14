/** Day 15: the elves' memory game (src/day15.rs). After the starting
    numbers, each turn says 0 if the last number was new, and otherwise
    how many turns apart its last two utterances were. `ElfGame` keeps,
    for every number said, the turn it was last said and the turn before
    that. */
module Day15 {
  import opened Util

  /** The last position of `x` in `s`. */
  function LastIndex(s: seq<nat>, x: nat): (r: Option<nat>)
    ensures r.Some? ==> r.value < |s| && s[r.value] == x
    ensures r.Some? ==> forall j :: r.value < j < |s| ==> s[j] != x
    ensures r.None? ==> forall j :: 0 <= j < |s| ==> s[j] != x
  {
    if s == [] then None
    else if s[|s| - 1] == x then Some(|s| - 1)
    else LastIndex(s[..|s| - 1], x)
  }

  /** The game's rule: the number said after the turns `s`. */
  function Next(s: seq<nat>): (n: nat)
    requires |s| > 0
  {
    var last := |s| - 1;
    match LastIndex(s[..last], s[last])
    case None => 0
    case Some(j) => last - j
  }

  /** The number said on turn |s|: a starting number while there are
      some left, then the rule. */
  function NextSpoken(start: seq<nat>, s: seq<nat>): nat
    requires |s| >= |start| ==> |s| > 0
  {
    if |s| < |start| then start[|s|] else Next(s)
  }

  /** The first `n` numbers of the game. */
  function Spoken(start: seq<nat>, n: nat): (s: seq<nat>)
    requires |start| > 0 || n == 0
    ensures |s| == n
  {
    if n == 0 then [] else
      var p := Spoken(start, n - 1);
      p + [NextSpoken(start, p)]
  }

  /** What `num2last` holds for `x` after the turns `s`: the turn `x` was
      last said and the turn before that, or twice the same turn when it
      was said once. */
  function Entry(s: seq<nat>, x: nat): (e: Option<(nat, nat)>)
    ensures e.Some? ==> e.value.1 <= e.value.0 < |s|
  {
    match LastIndex(s, x)
    case None => None
    case Some(a) =>
      match LastIndex(s[..a], x)
      case None => Some((a, a))
      case Some(b) => Some((a, b))
  }

  /** `num2last` describes the turns `s`. */
  ghost predicate Tracks(m: map<nat, (nat, nat)>, s: seq<nat>)
  {
    forall x :: (x in m <==> Entry(s, x).Some?) && (x in m ==> Entry(s, x) == Some(m[x]))
  }

  class ElfGame {
    var num2last: map<nat, (nat, nat)>
    var spoken: nat
    /** The numbers said so far. */
    ghost var said: seq<nat>

    ghost predicate Valid()
      reads this
    {
      Tracks(num2last, said) && (|said| > 0 ==> spoken == said[|said| - 1])
    }

    /** `ElfGame { num2last: HashMap::new(), spoken: 0 }`. */
    constructor ()
      ensures Valid() && said == [] && spoken == 0 && num2last == map[]
    {
      num2last := map[];
      spoken := 0;
      said := [];
    }

    /** `update_spoken(i, …)`: a starting number, or the gap between the
        two turns stored for the last number. Looking up the last number
        panics only on the first turn with no starting numbers. */
    method UpdateSpoken(i: nat, start: seq<nat>) returns (r: Result<()>)
      requires Valid() && |said| == i
      modifies this
      ensures num2last == old(num2last) && said == old(said)
      ensures (i < |start| || i > 0) ==> r.Ok? && spoken == NextSpoken(start, said)
      ensures !(i < |start| || i > 0) ==> r.Panic?
    {
      if i < |start| {
        spoken := start[i];
      } else {
        if i > 0 {
          LastTracked(num2last, said);
        }
        if spoken !in num2last {
          return Panic;
        }
        var (turn, prev) := num2last[spoken];
        GapIsNext(said, turn, prev);
        spoken := turn - prev;
      }
      return Ok(());
    }

    /** `update_entry(i)`: record that `spoken` was said on turn `i`. */
    method UpdateEntry(i: nat)
      requires Tracks(num2last, said) && |said| == i
      modifies this
      ensures said == old(said) + [spoken] && Valid()
      ensures spoken == old(spoken)
    {
      ghost var s := said;
      if spoken in num2last {
        var entry := num2last[spoken];
        num2last := num2last[spoken := (i, entry.0)];
      } else {
        num2last := num2last[spoken := (i, i)];
      }
      said := said + [spoken];
      TracksSnoc(old(num2last), s, spoken, num2last);
    }
  }

  lemma LastTracked(m: map<nat, (nat, nat)>, s: seq<nat>)
    requires Tracks(m, s) && |s| > 0
    ensures s[|s| - 1] in m
  {
    assert LastIndex(s, s[|s| - 1]).Some?;
  }

  /** The stored pair of the last number gives the rule's gap. */
  lemma GapIsNext(s: seq<nat>, turn: nat, prev: nat)
    requires |s| > 0 && Entry(s, s[|s| - 1]) == Some((turn, prev))
    ensures turn - prev == Next(s)
  {
    var last := |s| - 1;
    assert LastIndex(s, s[last]) == Some(last);
  }

  lemma LastIndexSnoc(s: seq<nat>, y: nat, x: nat)
    ensures LastIndex(s + [y], x) == if x == y then Some(|s|) else LastIndex(s, x)
  {
    assert (s + [y])[..|s|] == s;
  }

  /** Entry for the number just said, and for every other number. */
  lemma EntrySnoc(s: seq<nat>, y: nat, x: nat)
    ensures x == y ==> Entry(s + [y], x) == Some((|s|, if Entry(s, x).Some? then Entry(s, x).value.0 else |s|))
    ensures x != y ==> Entry(s + [y], x) == Entry(s, x)
  {
    LastIndexSnoc(s, y, x);
    var t := s + [y];
    assert t[..|s|] == s;
    var a := LastIndex(s, x);
    if x != y && a.Some? {
      assert t[..a.value] == s[..a.value];
    }
  }

  lemma TracksSnoc(m: map<nat, (nat, nat)>, s: seq<nat>, y: nat, m': map<nat, (nat, nat)>)
    requires Tracks(m, s)
    requires m' == m[y := if y in m then (|s|, m[y].0) else (|s|, |s|)]
    ensures Tracks(m', s + [y])
  {
    forall x
      ensures (x in m' <==> Entry(s + [y], x).Some?) && (x in m' ==> Entry(s + [y], x) == Some(m'[x]))
    {
      EntrySnoc(s, y, x);
    }
  }

  /** `ElfGame::elf(start, nth)`: play `nth` turns and return the last
      number said (0 when no turn is played). With no starting numbers
      the first turn panics. */
  method Elf(start: seq<nat>, nth: nat) returns (r: Result<nat>)
    ensures r.Panic? <==> (nth > 0 && |start| == 0)
    ensures r.Ok? && nth > 0 ==> r.value == Spoken(start, nth)[nth - 1]
    ensures r.Ok? && nth == 0 ==> r.value == 0
  {
    var game := new ElfGame();
    var i := 0;
    while i < nth
      invariant 0 <= i <= nth && game.Valid()
      invariant i > 0 ==> |start| > 0
      invariant (|start| > 0 || i == 0) && game.said == Spoken(start, i)
      invariant i == 0 ==> game.spoken == 0
    {
      var ok := game.UpdateSpoken(i, start);
      if ok.Panic? {
        return Panic;
      }
      game.UpdateEntry(i);
      i := i + 1;
    }
    return Ok(game.spoken);
  }

  /** Earlier turns never change: the game's first `k` numbers are a
      prefix of its first `n`. */
  lemma {:induction false} SpokenPrefix(start: seq<nat>, n: nat, k: nat)
    requires |start| > 0 && k <= n
    ensures Spoken(start, n)[..k] == Spoken(start, k)
  {
    if k < n {
      SpokenPrefix(start, n - 1, k);
      assert Spoken(start, n)[..n - 1] == Spoken(start, n - 1);
    } else {
      assert Spoken(start, n)[..n] == Spoken(start, n);
    }
  }

  /** The starting numbers are said first, in order. */
  lemma SpokenStart(start: seq<nat>, n: nat, i: nat)
    requires |start| > 0 && i < n && i < |start|
    ensures Spoken(start, n)[i] == start[i]
  {
    SpokenPrefix(start, n, i + 1);
    assert Spoken(start, n)[i] == Spoken(start, n)[..i + 1][i];
  }

  /** After the starting numbers, a number said for the first time is
      followed by 0, and a repeated one by the gap since it was last said. */
  lemma SpokenRule(start: seq<nat>, n: nat, i: nat)
    requires |start| > 0 && |start| <= i < n
    ensures var s := Spoken(start, n);
      s[i] == match LastIndex(s[..i - 1], s[i - 1])
              case None => 0
              case Some(j) => i - 1 - j
  {
    var s := Spoken(start, n);
    SpokenPrefix(start, n, i + 1);
    SpokenPrefix(start, n, i);
    var p := Spoken(start, i);
    assert s[i] == Spoken(start, i + 1)[i];
    assert p[..i - 1] == s[..i - 1] by {
      assert s[..i][..i - 1] == s[..i - 1];
    }
    assert p[i - 1] == s[i - 1] by {
      assert s[..i][i - 1] == s[i - 1];
    }
  }

  /** The opening of the game from 0,3,6: 0, 3, 6, 0, 3, 3, 1, 0, 4, 0. */
  lemma SpokenExample()
    ensures Spoken([0, 3, 6], 10) == [0, 3, 6, 0, 3, 3, 1, 0, 4, 0]
  {
    var g := [0, 3, 6];
    assert Spoken(g, 3) == [0, 3, 6];
    var s4 := Spoken(g, 4);
    assert s4 == [0, 3, 6, 0];
    assert Spoken(g, 5) == [0, 3, 6, 0, 3];
    assert Spoken(g, 6) == [0, 3, 6, 0, 3, 3];
    assert Spoken(g, 7) == [0, 3, 6, 0, 3, 3, 1];
    assert Spoken(g, 8) == [0, 3, 6, 0, 3, 3, 1, 0];
    assert Spoken(g, 9) == [0, 3, 6, 0, 3, 3, 1, 0, 4];
    assert Spoken(g, 10) == [0, 3, 6, 0, 3, 3, 1, 0, 4, 0];
  }
}
