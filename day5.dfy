/** Day 5: boarding passes encoded by binary space partitioning
    (src/day5.rs). `decode_str` halves the range [0, 2ⁿ) once per
    character; the model proves that this computes the binary number the
    characters spell, most significant first. */
module Day5 {
  import opened Util

  predicate OnlyLoHi(s: string, lo: char, hi: char)
  {
    forall i :: 0 <= i < |s| ==> s[i] == lo || s[i] == hi
  }

  /** The number `s` spells in binary, reading `lo` as 0 and every other
      character as 1, most significant first. */
  function BitsValue(s: string, lo: char): nat
  {
    if s == [] then 0 else 2 * BitsValue(s[..|s| - 1], lo) + (if s[|s| - 1] == lo then 0 else 1)
  }

  lemma {:induction false} BitsValueBound(s: string, lo: char)
    ensures BitsValue(s, lo) < Pow2(|s|)
  {
    if s != [] {
      BitsValueBound(s[..|s| - 1], lo);
    }
  }

  /** What `decode_str(encoding, lo, hi)` returns: None as soon as some
      character is neither `lo` nor `hi`, and otherwise the binary value,
      which is below 2^|encoding|. */
  function DecodeValue(encoding: string, lo: char, hi: char): (r: Option<nat>)
    ensures r.Some? <==> OnlyLoHi(encoding, lo, hi)
    ensures r.Some? ==> r.value < Pow2(|encoding|)
  {
    if OnlyLoHi(encoding, lo, hi) then
      BitsValueBound(encoding, lo);
      Some(BitsValue(encoding, lo))
    else None
  }

  /** `n` written as `len` binary digits with `lo` for 0 and `hi` for 1. */
  function Encode(n: nat, len: nat, lo: char, hi: char): (s: string)
    ensures |s| == len && OnlyLoHi(s, lo, hi)
  {
    if len == 0 then [] else Encode(n / 2, len - 1, lo, hi) + [if n % 2 == 0 then lo else hi]
  }

  /** Decoding inverts encoding for every number that fits in `len` digits
      when the two characters differ. */
  lemma {:induction false} DecodeEncode(n: nat, len: nat, lo: char, hi: char)
    requires lo != hi && n < Pow2(len)
    ensures DecodeValue(Encode(n, len, lo, hi), lo, hi) == Some(n)
  {
    BitsOfEncode(n, len, lo, hi);
  }

  lemma {:induction false} BitsOfEncode(n: nat, len: nat, lo: char, hi: char)
    requires lo != hi && n < Pow2(len)
    ensures BitsValue(Encode(n, len, lo, hi), lo) == n
  {
    if len > 0 {
      var s := Encode(n, len, lo, hi);
      BitsOfEncode(n / 2, len - 1, lo, hi);
      assert s[..|s| - 1] == Encode(n / 2, len - 1, lo, hi);
    }
  }

  /** `decode_str`: the halving loop over `min`/`max`. After i characters
      the range still has width 2^(n−i) and starts at the value of the
      prefix times that width, so the loop ends with `min == max` (the
      source's `assert_eq!` never fails) at the binary value. */
  method DecodeStr(encoding: string, lo: char, hi: char) returns (r: Option<nat>)
    ensures r == DecodeValue(encoding, lo, hi)
  {
    var n := |encoding|;
    var min: nat := 0;
    var max: nat := Pow2(n) - 1;
    ghost var width: nat := Pow2(n);
    var i := 0;
    while i < n
      invariant 0 <= i <= n && width == Pow2(n - i)
      invariant OnlyLoHi(encoding[..i], lo, hi)
      invariant min == BitsValue(encoding[..i], lo) * width
      invariant max == min + width - 1
    {
      var code := encoding[i];
      ghost var prefix := BitsValue(encoding[..i], lo);
      ghost var half := Pow2(n - i - 1);
      assert width == 2 * half;
      HalfWidth(prefix, half);
      var mid := (min + max) / 2;
      assert mid == min + half - 1;
      assert encoding[..i + 1][..i] == encoding[..i];
      assert BitsValue(encoding[..i + 1], lo) == 2 * prefix + (if code == lo then 0 else 1);
      if code == lo {
        max := mid;
      } else if code == hi {
        min := mid + 1;
      } else {
        assert !OnlyLoHi(encoding, lo, hi) by { assert encoding[i] != lo && encoding[i] != hi; }
        return None;
      }
      width := half;
      i := i + 1;
    }
    assert encoding[..n] == encoding;
    assert min == max;
    return Some(min);
  }

  lemma HalfWidth(p: nat, h: nat)
    ensures p * (2 * h) == (2 * p) * h && (2 * p + 1) * h == (2 * p) * h + h
  {
  }

  datatype BoardingPass = BoardingPass(row: nat, col: nat)

  predicate OnlyLoHiAt(s: string, from: nat, to: nat, lo: char, hi: char)
    requires from <= to <= |s|
  {
    forall i :: from <= i < to ==> s[i] == lo || s[i] == hi
  }

  /** `BoardingPass::from`: None unless the pass has exactly 10 characters;
      the row comes from the first 7 (F = 0, B = 1) and the column from the
      last 3 (L = 0, R = 1). Either `unwrap` panics on a foreign character. */
  function BoardingPassFrom(encoding: string): (r: Result<Option<BoardingPass>>)
    ensures r == Ok(None) <==> |encoding| != 10
    ensures r.Panic? <==>
      (|encoding| == 10 && !(OnlyLoHiAt(encoding, 0, 7, 'F', 'B') && OnlyLoHiAt(encoding, 7, 10, 'L', 'R')))
    ensures r.Ok? && r.value.Some? ==> r.value.value.row < 128 && r.value.value.col < 8
  {
    if |encoding| == 10 then
      var row := DecodeValue(encoding[0..7], 'F', 'B');
      var col := DecodeValue(encoding[7..], 'L', 'R');
      assert row.Some? <==> OnlyLoHiAt(encoding, 0, 7, 'F', 'B') by {
        assert forall i :: 0 <= i < 7 ==> encoding[0..7][i] == encoding[i];
      }
      assert col.Some? <==> OnlyLoHiAt(encoding, 7, 10, 'L', 'R') by {
        assert forall i :: 0 <= i < 3 ==> encoding[7..][i] == encoding[i + 7];
      }
      if row.Some? && col.Some? then
        assert Pow2(7) == 128 && Pow2(3) == 8;
        Ok(Some(BoardingPass(row.value, col.value)))
      else Panic
    else Ok(None)
  }

  /** `seat_id`: row·8 + col. For a decoded pass it is below 1024, and the
      row and column are recovered from it. */
  function SeatId(pass: BoardingPass): (id: nat)
    ensures pass.col < 8 ==> id / 8 == pass.row && id % 8 == pass.col
    ensures pass.row < 128 && pass.col < 8 ==> id < 1024
  {
    pass.row * 8 + pass.col
  }

  lemma PassFromEncodings(encoding: string, row: nat, col: nat)
    requires row < 128 && col < 8 && |encoding| == 10
    requires encoding[..7] == Encode(row, 7, 'F', 'B') && encoding[7..] == Encode(col, 3, 'L', 'R')
    ensures BoardingPassFrom(encoding) == Ok(Some(BoardingPass(row, col)))
  {
    assert Pow2(7) == 128 && Pow2(3) == 8;
    DecodeEncode(row, 7, 'F', 'B');
    DecodeEncode(col, 3, 'L', 'R');
  }

  /** The four passes of the unit tests. */
  lemma BoardingPassExample1()
    ensures BoardingPassFrom("FBFBBFFRLR") == Ok(Some(BoardingPass(44, 5))) && SeatId(BoardingPass(44, 5)) == 357
  {
    assert Encode(44, 7, 'F', 'B') == "FBFBBFF";
    assert Encode(5, 3, 'L', 'R') == "RLR";
    PassFromEncodings("FBFBBFFRLR", 44, 5);
  }

  lemma BoardingPassExample2()
    ensures BoardingPassFrom("BFFFBBFRRR") == Ok(Some(BoardingPass(70, 7))) && SeatId(BoardingPass(70, 7)) == 567
  {
    assert Encode(70, 7, 'F', 'B') == "BFFFBBF";
    assert Encode(7, 3, 'L', 'R') == "RRR";
    PassFromEncodings("BFFFBBFRRR", 70, 7);
  }

  lemma BoardingPassExample3()
    ensures BoardingPassFrom("FFFBBBFRRR") == Ok(Some(BoardingPass(14, 7))) && SeatId(BoardingPass(14, 7)) == 119
  {
    assert Encode(14, 7, 'F', 'B') == "FFFBBBF";
    assert Encode(7, 3, 'L', 'R') == "RRR";
    PassFromEncodings("FFFBBBFRRR", 14, 7);
  }

  lemma BoardingPassExample4()
    ensures BoardingPassFrom("BBFFBBFRLL") == Ok(Some(BoardingPass(102, 4))) && SeatId(BoardingPass(102, 4)) == 820
  {
    assert Encode(102, 7, 'F', 'B') == "BBFFBBF";
    assert Encode(4, 3, 'L', 'R') == "RLL";
    PassFromEncodings("BBFFBBFRLL", 102, 4);
  }
}
