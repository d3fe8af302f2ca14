/** Day 22: the card game Combat (src/day22.rs). Each player holds a deck;
    every round both draw their top card, the higher card wins, and its
    owner puts both cards, its own first, under its deck. The game ends
    when a deck is empty and the other deck's score is the answer. */
module Day22 {
  import opened Util

  /** `Deck`: a player's name and the cards, top first. */
  class Deck {
    var player: string
    var cards: seq<nat>

    constructor (player: string, cards: seq<nat>)
      ensures this.player == player && this.cards == cards
    {
      this.player := player;
      this.cards := cards;
    }

    /** `empty`: no card is left, and then the score is 0. */
    predicate Empty(): (e: bool)
      reads this
      ensures e <==> |cards| == 0
      ensures e ==> ScoreOf(cards) == 0
    {
      cards == []
    }

    /** `score`: the top card of a deck of `n` counts `n` times, the
      bottom card once. */
    function Score(): (s: nat)
      reads this
      ensures s == FromTop(cards)
      ensures cards != [] ==> s >= |cards| * cards[0]
    {
      ScoreOf(cards)
    }
  }

  // ---------------------------------------------------------------------
  // Reading a deck

  /** `Deck::from`: the first line is the player; the lines up to the first
      empty one (which is consumed) are the cards. It panics with no line
      left or a card that is not a number. The lines not consumed come
      back with the deck. */
  function ParseDeck(lines: seq<string>): (r: Result<(string, seq<nat>, seq<string>)>)
    ensures r.Panic? <==> lines == [] || ParseNats(lines[1..][..FirstEmpty(lines[1..])]).None?
    ensures r.Ok? ==>
              var (player, cards, rest) := r.value;
              var n := |cards|;
              player == lines[0] && 1 + n <= |lines| &&
              (forall i :: 0 <= i < n ==> ParseNat(lines[1 + i]) == Some(cards[i])) &&
              ((1 + n < |lines| && lines[1 + n] == [] && rest == lines[2 + n..]) ||
               (1 + n == |lines| && rest == []))
  {
    if lines == [] then Panic
    else
      var body := lines[1..];
      var n := FirstEmpty(body);
      match ParseNats(body[..n])
      case None => Panic
      case Some(cards) =>
        Ok((lines[0], cards, if n < |body| then body[n + 1..] else []))
  }

  /** The cards as lines of decimal numbers. */
  function CardLines(cards: seq<nat>): (r: seq<string>)
    ensures |r| == |cards| && forall i :: 0 <= i < |cards| ==> r[i] == NatToString(cards[i])
  {
    if cards == [] then [] else [NatToString(cards[0])] + CardLines(cards[1..])
  }

  /** A deck written as its block of lines reads back as the deck. */
  lemma ParseDeckLines(player: string, cards: seq<nat>, rest: seq<string>)
    ensures ParseDeck([player] + CardLines(cards) + [""] + rest) == Ok((player, cards, rest))
  {
    var lines := [player] + CardLines(cards) + [""] + rest;
    var body := lines[1..];
    assert body == CardLines(cards) + [""] + rest;
    FirstEmptyBlock(CardLines(cards), rest);
    assert body[..|cards|] == CardLines(cards);
    assert body[|cards| + 1..] == rest;
    forall i | 0 <= i < |cards|
      ensures ParseNat(CardLines(cards)[i]) == Some(cards[i])
    {
      ParseNatToString(cards[i]);
    }
    var parsed := ParseNats(CardLines(cards));
    assert parsed.Some? && parsed.value == cards;
  }

  /** `decks_from`: two decks, one after the other. */
  function DecksFrom(lines: seq<string>): (r: Result<((string, seq<nat>), (string, seq<nat>))>)
    ensures lines == [] ==> r.Panic?
    ensures r.Ok? ==> ParseDeck(lines).Ok? && r.value.0.0 == lines[0] && 1 + |r.value.0.1| <= |lines| &&
                      forall i :: 0 <= i < |r.value.0.1| ==> ParseNat(lines[1 + i]) == Some(r.value.0.1[i])
    ensures r.Ok? ==> var rest := ParseDeck(lines).value.2;
                      1 + |r.value.1.1| <= |rest| && r.value.1.0 == rest[0] &&
                      forall i :: 0 <= i < |r.value.1.1| ==> ParseNat(rest[1 + i]) == Some(r.value.1.1[i])
  {
    match ParseDeck(lines)
    case Panic => Panic
    case Ok((p1, c1, rest)) =>
      match ParseDeck(rest)
      case Panic => Panic
      case Ok((p2, c2, _)) => Ok(((p1, c1), (p2, c2)))
  }

  /** Two decks each written as their block read back. */
  lemma DecksFromLines(p1: string, c1: seq<nat>, p2: string, c2: seq<nat>)
    ensures DecksFrom([p1] + CardLines(c1) + [""] + ([p2] + CardLines(c2) + [""])) == Ok(((p1, c1), (p2, c2)))
  {
    var second := [p2] + CardLines(c2) + [""];
    ParseDeckLines(p1, c1, second);
    ParseDeckLines(p2, c2, []);
    assert second + [] == second;
  }

  // ---------------------------------------------------------------------
  // Score

  /** The cards from the bottom up: `.iter().rev()`. */
  function Reversed(s: seq<nat>): (r: seq<nat>)
    ensures |r| == |s| && forall i :: 0 <= i < |s| ==> r[i] == s[|s| - 1 - i]
  {
    if s == [] then [] else Reversed(s[1..]) + [s[0]]
  }

  /** `.enumerate().map(|(count, value)| (count + 1) * value).sum()` on
      cards whose first has index `count`. */
  function Weighted(r: seq<nat>, count: nat): nat
  {
    if r == [] then 0 else (count + 1) * r[0] + Weighted(r[1..], count + 1)
  }

  /** `score`: each card times its position counted from the bottom,
      starting at 1. */
  function ScoreOf(cards: seq<nat>): (s: nat)
    ensures s == FromTop(cards)
  {
    WeightedReversed(cards, 0);
    Weighted(Reversed(cards), 0)
  }

  /** The score read from the top: the top card of `n` counts `n` times. */
  function FromTop(cards: seq<nat>): nat
  {
    if cards == [] then 0 else |cards| * cards[0] + FromTop(cards[1..])
  }

  lemma {:induction false} WeightedSnoc(r: seq<nat>, x: nat, count: nat)
    ensures Weighted(r + [x], count) == Weighted(r, count) + (count + |r| + 1) * x
    decreases |r|
  {
    if r != [] {
      assert (r + [x])[1..] == r[1..] + [x];
      WeightedSnoc(r[1..], x, count + 1);
    } else {
      assert [x][1..] == [];
    }
  }

  lemma {:induction false} WeightedReversed(cards: seq<nat>, count: nat)
    ensures Weighted(Reversed(cards), count) == FromTop(cards) + count * Sum(cards)
  {
    if cards != [] {
      var r := Reversed(cards[1..]);
      assert Reversed(cards) == r + [cards[0]];
      WeightedReversed(cards[1..], count);
      WeightedSnoc(r, cards[0], count);
      Distribute(count, |cards|, cards[0]);
      Distribute(cards[0], Sum(cards[1..]), count);
    }
  }

  lemma Distribute(a: int, b: int, c: int)
    ensures (a + b) * c == a * c + b * c && c * (a + b) == c * a + c * b
  {
  }

  // ---------------------------------------------------------------------
  // Playing

  /** One round on the cards: the strictly higher top card wins, so a tie
      goes to the second deck, and the winner puts its card, then the
      loser's, at its bottom. The number of cards stays, and the first
      deck grows exactly when its card wins. */
  function Round(a: seq<nat>, b: seq<nat>): (r: (seq<nat>, seq<nat>))
    requires a != [] && b != []
    ensures |r.0| + |r.1| == |a| + |b|
    ensures a[0] > b[0] <==> |r.0| == |a| + 1
  {
    if a[0] > b[0] then (a[1..] + [a[0], b[0]], b[1..])
    else (a[1..], b[1..] + [b[0], a[0]])
  }

  /** A round keeps every card: the winner gains one, the loser loses one,
      and the winner's two new bottom cards are its own and then the
      loser's. */
  lemma RoundConserves(a: seq<nat>, b: seq<nat>)
    requires a != [] && b != []
    ensures var (a', b') := Round(a, b);
            multiset(a') + multiset(b') == multiset(a) + multiset(b) &&
            (a[0] > b[0] ==> |a'| == |a| + 1 && |b'| == |b| - 1 && a'[|a'| - 2..] == [a[0], b[0]]) &&
            (a[0] <= b[0] ==> |a'| == |a| - 1 && |b'| == |b| + 1 && b'[|b'| - 2..] == [b[0], a[0]])
  {
    assert a == [a[0]] + a[1..] && b == [b[0]] + b[1..];
  }

  /** A round in terms of the two top cards and the rest of each deck. */
  lemma RoundTops(x: nat, a: seq<nat>, y: nat, b: seq<nat>)
    ensures Round([x] + a, [y] + b) == if x > y then (a + [x, y], b) else (a, b + [y, x])
  {
    assert ([x] + a)[1..] == a && ([y] + b)[1..] == b;
  }

  /** `play_one_round`. It needs two different decks, both with cards. */
  method PlayOneRound(deck1: Deck, deck2: Deck)
    requires deck1 != deck2 && deck1.cards != [] && deck2.cards != []
    modifies deck1, deck2
    ensures (deck1.cards, deck2.cards) == Round(old(deck1.cards), old(deck2.cards))
    ensures deck1.player == old(deck1.player) && deck2.player == old(deck2.player)
  {
    var card1 := deck1.cards[0];
    deck1.cards := deck1.cards[1..];
    var card2 := deck2.cards[0];
    deck2.cards := deck2.cards[1..];
    var (winner, cards) := if card1 > card2 then (deck1, [card1, card2]) else (deck2, [card2, card1]);
    winner.cards := winner.cards + [cards[0]];
    winner.cards := winner.cards + [cards[1]];
    assert winner.cards == (if winner == deck1 then old(deck1.cards) else old(deck2.cards))[1..] + cards;
  }

  /** The game is over: a deck is empty. */
  predicate Over(s: (seq<nat>, seq<nat>))
  {
    s.0 == [] || s.1 == []
  }

  /** The cards after at most `n` rounds, stopping when the game is over. */
  function Play(a: seq<nat>, b: seq<nat>, n: nat): (seq<nat>, seq<nat>)
    decreases n
  {
    if n == 0 || Over((a, b)) then (a, b)
    else
      var (a', b') := Round(a, b);
      Play(a', b', n - 1)
  }

  /** The game from these decks ends. */
  ghost predicate Ends(a: seq<nat>, b: seq<nat>)
  {
    exists n: nat :: Over(Play(a, b, n))
  }

  /** No card is lost or made during a game. */
  lemma {:induction false} PlayConserves(a: seq<nat>, b: seq<nat>, n: nat)
    ensures var (a', b') := Play(a, b, n);
            multiset(a') + multiset(b') == multiset(a) + multiset(b)
    decreases n
  {
    if n > 0 && !Over((a, b)) {
      RoundConserves(a, b);
      var (a', b') := Round(a, b);
      PlayConserves(a', b', n - 1);
    }
  }

  /** Playing `m` rounds and then `n` more is playing `m + n`. */
  lemma {:induction false} PlaySplit(a: seq<nat>, b: seq<nat>, m: nat, n: nat)
    ensures Play(a, b, m + n) == var s := Play(a, b, m); Play(s.0, s.1, n)
    decreases m
  {
    if m > 0 && !Over((a, b)) {
      var (a', b') := Round(a, b);
      PlaySplit(a', b', m - 1, n);
    }
  }

  /** The rounds of the game from 43 19 against 2 29 14: after six rounds
      the decks are back where they started. */
  lemma CycleRounds()
    ensures forall k :: 0 <= k < 6 ==> !Over(Play([43, 19], [2, 29, 14], k))
    ensures Play([43, 19], [2, 29, 14], 6) == ([43, 19], [2, 29, 14])
  {
    RoundTops(43, [19], 2, [29, 14]);
    assert [43] + [19] == [43, 19] && [2] + [29, 14] == [2, 29, 14];
    assert [19] + [43, 2] == [19, 43, 2];
    RoundTops(19, [43, 2], 29, [14]);
    assert [19] + [43, 2] == [19, 43, 2] && [29] + [14] == [29, 14];
    assert [14] + [29, 19] == [14, 29, 19];
    RoundTops(43, [2], 14, [29, 19]);
    assert [43] + [2] == [43, 2] && [14] + [29, 19] == [14, 29, 19];
    assert [2] + [43, 14] == [2, 43, 14];
    RoundTops(2, [43, 14], 29, [19]);
    assert [2] + [43, 14] == [2, 43, 14] && [29] + [19] == [29, 19];
    assert [19] + [29, 2] == [19, 29, 2];
    RoundTops(43, [14], 19, [29, 2]);
    assert [43] + [14] == [43, 14] && [19] + [29, 2] == [19, 29, 2];
    assert [14] + [43, 19] == [14, 43, 19];
    RoundTops(14, [43, 19], 29, [2]);
    assert [14] + [43, 19] == [14, 43, 19] && [29] + [2] == [29, 2];
    assert [2] + [29, 14] == [2, 29, 14];
    var a, b := [43, 19], [2, 29, 14];
    PlaySplit(a, b, 0, 1);
    assert Play(a, b, 1) == ([19, 43, 2], [29, 14]);
    PlaySplit(a, b, 1, 1);
    assert Play(a, b, 2) == ([43, 2], [14, 29, 19]);
    PlaySplit(a, b, 2, 1);
    assert Play(a, b, 3) == ([2, 43, 14], [29, 19]);
    PlaySplit(a, b, 3, 1);
    assert Play(a, b, 4) == ([43, 14], [19, 29, 2]);
    PlaySplit(a, b, 4, 1);
    assert Play(a, b, 5) == ([14, 43, 19], [29, 2]);
    PlaySplit(a, b, 5, 1);
    assert Play(a, b, 6) == ([43, 19], [2, 29, 14]);
  }

  /** Some games never end, so `play_to_end` does not return for every
      pair of decks: 43 19 against 2 29 14 repeats forever. */
  lemma EndlessGame()
    ensures !Ends([43, 19], [2, 29, 14])
  {
    forall n: nat
      ensures !Over(Play([43, 19], [2, 29, 14], n))
    {
      EndlessAt(n);
    }
  }

  lemma {:induction false} EndlessAt(n: nat)
    ensures !Over(Play([43, 19], [2, 29, 14], n))
    decreases n
  {
    CycleRounds();
    if n >= 6 {
      PlaySplit([43, 19], [2, 29, 14], 6, n - 6);
      EndlessAt(n - 6);
    }
  }

  /** `play_to_end`: play rounds while both decks hold cards, then score
      the deck that is left. Only games that end are played. */
  method PlayToEnd(deck1: Deck, deck2: Deck) returns (score: nat)
    requires deck1 != deck2 && Ends(deck1.cards, deck2.cards)
    modifies deck1, deck2
    ensures Over((deck1.cards, deck2.cards))
    ensures exists n: nat :: (deck1.cards, deck2.cards) == Play(old(deck1.cards), old(deck2.cards), n)
    ensures score == ScoreOf(if deck1.cards == [] then deck2.cards else deck1.cards)
  {
    ghost var left: nat :| Over(Play(deck1.cards, deck2.cards, left));
    ghost var played: nat := 0;
    while !deck1.Empty() && !deck2.Empty()
      invariant Over(Play(deck1.cards, deck2.cards, left))
      invariant (deck1.cards, deck2.cards) == Play(old(deck1.cards), old(deck2.cards), played)
      decreases left
    {
      PlayAgain(old(deck1.cards), old(deck2.cards), played);
      PlayOneRound(deck1, deck2);
      left := left - 1;
      played := played + 1;
    }
    score := if deck1.Empty() then deck2.Score() else deck1.Score();
  }

  /** One more round extends the game played so far by one. */
  lemma {:induction false} PlayAgain(a: seq<nat>, b: seq<nat>, n: nat)
    requires !Over(Play(a, b, n))
    ensures var s := Play(a, b, n);
            Play(a, b, n + 1) == Round(s.0, s.1)
    decreases n
  {
    if n > 0 {
      var (a', b') := Round(a, b);
      PlayAgain(a', b', n - 1);
    }
  }

  /** `solve_1`: the winning score, written in decimal. */
  method Solve1(lines: seq<string>) returns (r: Result<string>)
    requires DecksFrom(lines).Ok? ==>
               Ends(DecksFrom(lines).value.0.1, DecksFrom(lines).value.1.1)
    ensures DecksFrom(lines).Panic? <==> r.Panic?
    ensures r.Ok? ==>
              var ((_, c1), (_, c2)) := DecksFrom(lines).value;
              exists n: nat :: Over(Play(c1, c2, n)) &&
                var (e1, e2) := Play(c1, c2, n);
                r.value == NatToString(ScoreOf(if e1 == [] then e2 else e1))
  {
    var decks := DecksFrom(lines);
    if decks.Panic? {
      return Panic;
    }
    var ((p1, c1), (p2, c2)) := decks.value;
    var deck1 := new Deck(p1, c1);
    var deck2 := new Deck(p2, c2);
    var score := PlayToEnd(deck1, deck2);
    return Ok(NatToString(score));
  }
}
