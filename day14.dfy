/** Day 14: docking-program bitmasks (src/day14.rs). A mask line holds up
    to 36 characters X/0/1, most significant first. `Mask1` keeps two
    words: `on` (bits forced to 1) and `off` (bits kept from the value);
    `Mask2` keeps one `Mask1` per way of resolving the floating bits.

    A `u64` word is modelled as its 64 bits, least significant first, so
    `<<` drops the top bit exactly as Rust does and every bitwise operator
    acts bit by bit. */
module Day14 {
  import opened Util

  // ---------------------------------------------------------------------
  // 64-bit words

  /** `k` clear bits. */
  function Clear(k: nat): (s: seq<bool>)
    ensures |s| == k && forall i :: 0 <= i < k ==> !s[i]
  {
    if k == 0 then [] else [false] + Clear(k - 1)
  }

  type Word = w: seq<bool> | |w| == 64 witness Clear(64)

  const Zero: Word := Clear(64)

  /** `w << 1`. */
  function Shl1(w: Word): (r: Word)
    ensures !r[0] && forall i :: 1 <= i < 64 ==> r[i] == w[i - 1]
  {
    [false] + w[..63]
  }

  /** `w | 1`. */
  function SetLow(w: Word): (r: Word)
    ensures r[0] && forall i :: 1 <= i < 64 ==> r[i] == w[i]
  {
    w[0 := true]
  }

  function And(a: Word, b: Word): (r: Word)
    ensures forall i :: 0 <= i < 64 ==> r[i] == (a[i] && b[i])
  {
    seq(64, i requires 0 <= i < 64 => a[i] && b[i])
  }

  function Or(a: Word, b: Word): (r: Word)
    ensures forall i :: 0 <= i < 64 ==> r[i] == (a[i] || b[i])
  {
    seq(64, i requires 0 <= i < 64 => a[i] || b[i])
  }

  function Not(a: Word): (r: Word)
    ensures forall i :: 0 <= i < 64 ==> r[i] == !a[i]
  {
    seq(64, i requires 0 <= i < 64 => !a[i])
  }

  /** The number whose binary digits, least significant first, are `s`. */
  function BitsValue(s: seq<bool>): (n: nat)
    ensures n < Pow2(|s|)
  {
    if s == [] then 0 else (if s[0] then 1 else 0) + 2 * BitsValue(s[1..])
  }

  /** The low `k` binary digits of `n`, least significant first. */
  function BitsOf(n: nat, k: nat): (s: seq<bool>)
    ensures |s| == k
  {
    if k == 0 then [] else [n % 2 == 1] + BitsOf(n / 2, k - 1)
  }

  /** Digits and value are inverse for numbers that fit. */
  lemma {:induction false} BitsValueOf(n: nat, k: nat)
    requires n < Pow2(k)
    ensures BitsValue(BitsOf(n, k)) == n
  {
    if k > 0 {
      BitsValueOf(n / 2, k - 1);
      assert BitsOf(n, k)[1..] == BitsOf(n / 2, k - 1);
    }
  }

  lemma {:induction false} BitsOfValue(s: seq<bool>)
    ensures BitsOf(BitsValue(s), |s|) == s
  {
    if s != [] {
      var n := BitsValue(s);
      BitsOfValue(s[1..]);
      DivModUnique(n, 2, BitsValue(s[1..]), if s[0] then 1 else 0);
    }
  }

  /** The `u64` with value `n`. */
  function WordOf(n: nat): Word
    requires n < Pow2(64)
  {
    BitsOf(n, 64)
  }

  // ---------------------------------------------------------------------
  // Mask1 as a value

  /** The (`on`, `off`) words of a `Mask1`. */
  datatype Bits = Bits(on: Word, off: Word)

  const Empty := Bits(Zero, Zero)

  predicate MaskChar(c: char) { c == 'X' || c == '0' || c == '1' }

  predicate MaskChars(s: string) { forall j :: 0 <= j < |s| ==> MaskChar(s[j]) }

  /** `Mask1::add`: both words shift left, then X sets the low bit of
      `off`, 0 sets nothing and 1 sets the low bit of both. */
  function Push(b: Bits, c: char): Bits
    requires MaskChar(c)
  {
    var on := Shl1(b.on);
    var off := Shl1(b.off);
    match c
    case 'X' => Bits(on, SetLow(off))
    case '0' => Bits(on, off)
    case '1' => Bits(SetLow(on), SetLow(off))
  }

  /** How `Push` moves the bits: the character decides bit 0 and every
      other bit comes from the one below it. */
  lemma PushBit(b: Bits, c: char, i: nat)
    requires MaskChar(c) && i < 64
    ensures Push(b, c).on[i] == (if i == 0 then c == '1' else b.on[i - 1])
    ensures Push(b, c).off[i] == (if i == 0 then c != '0' else b.off[i - 1])
  {
  }

  /** The invariant `on & !off == 0`. */
  predicate Consistent(b: Bits) { And(b.on, Not(b.off)) == Zero }

  /** Consistency means that every forced 1 is also a kept bit. */
  lemma ConsistentIff(b: Bits)
    ensures Consistent(b) <==> forall i :: 0 <= i < 64 ==> (b.on[i] ==> b.off[i])
  {
    if forall i :: 0 <= i < 64 ==> (b.on[i] ==> b.off[i]) {
      assert And(b.on, Not(b.off)) == Zero;
    } else {
      var i :| 0 <= i < 64 && b.on[i] && !b.off[i];
      assert And(b.on, Not(b.off))[i] != Zero[i];
    }
  }

  lemma PushConsistent(b: Bits, c: char)
    requires MaskChar(c) && Consistent(b)
    ensures Consistent(Push(b, c))
  {
    ConsistentIff(b);
    ConsistentIff(Push(b, c));
  }

  /** Adding every character of `s` in turn; a character other than X, 0
      and 1 panics. */
  function PushAll(b: Bits, s: string): (r: Result<Bits>)
    ensures r.Ok? <==> MaskChars(s)
  {
    if s == [] then Ok(b)
    else
      var init := s[..|s| - 1];
      assert forall j :: 0 <= j < |init| ==> init[j] == s[j];
      var c := s[|s| - 1];
      match PushAll(b, init)
      case Panic => Panic
      case Ok(m) => if MaskChar(c) then Ok(Push(m, c)) else Panic
  }

  /** The characters `skip_while` passes over: those of "mask = ". */
  predicate PrefixChar(c: char) { c in "mask = " }

  /** `line.chars().skip_while(|c| "mask = ".contains(*c))`. */
  function SkipPrefix(line: string): (r: string)
    ensures |r| <= |line| && r == line[|line| - |r|..]
    ensures r == [] || !PrefixChar(r[0])
    ensures forall j :: 0 <= j < |line| - |r| ==> PrefixChar(line[j])
  {
    if line != [] && PrefixChar(line[0]) then SkipPrefix(line[1..]) else line
  }

  lemma SkipNothing(s: string)
    requires s == [] || !PrefixChar(s[0])
    ensures SkipPrefix(s) == s
  {
  }

  /** The mask `replace_from(line)` builds from zero words. */
  function MaskOf(line: string): Result<Bits>
  {
    PushAll(Empty, SkipPrefix(line))
  }

  /** The character that decides bit `i` after adding `s`. */
  function CharAt(s: string, i: nat): char
    requires i < |s|
  {
    s[|s| - 1 - i]
  }

  /** Bit `i` of `on` is set exactly when the character `i` places from
      the end of `s` is 1, and bit `i` of `off` exactly when it is X or 1;
      bits beyond `s` are clear. */
  predicate SpelledBy(b: Bits, s: string)
  {
    forall i :: 0 <= i < 64 ==> OnSpelled(b, s, i) && OffSpelled(b, s, i)
  }

  predicate OnSpelled(b: Bits, s: string, i: nat)
    requires i < 64
  {
    b.on[i] == (i < |s| && CharAt(s, i) == '1')
  }

  predicate OffSpelled(b: Bits, s: string, i: nat)
    requires i < 64
  {
    b.off[i] == (i < |s| && CharAt(s, i) != '0')
  }

  /** Adding the characters of `s` to zero words spells `s`. Of a string
      longer than 64 only the last 64 characters count, because the
      shifts drop the rest. */
  lemma {:induction false} PushAllBits(s: string)
    requires MaskChars(s)
    ensures SpelledBy(PushAll(Empty, s).value, s)
  {
    if s != [] {
      var init := s[..|s| - 1];
      assert forall j :: 0 <= j < |init| ==> init[j] == s[j];
      PushAllBits(init);
      assert init + [s[|s| - 1]] == s;
      PushSpells(PushAll(Empty, init).value, init, s[|s| - 1]);
    }
  }

  /** Adding one character to a word that spells `init` spells
      `init + [c]`. */
  lemma PushSpells(m: Bits, init: string, c: char)
    requires MaskChar(c) && SpelledBy(m, init)
    ensures SpelledBy(Push(m, c), init + [c])
  {
    var s := init + [c];
    var b := Push(m, c);
    forall i | 0 <= i < 64
      ensures OnSpelled(b, s, i) && OffSpelled(b, s, i)
    {
      PushBit(m, c, i);
      if i == 0 {
        assert CharAt(s, 0) == c;
      } else {
        assert OnSpelled(m, init, i - 1) && OffSpelled(m, init, i - 1);
        if i < |s| {
          assert CharAt(s, i) == CharAt(init, i - 1);
        }
      }
    }
  }

  /** Words built from zero keep `on & !off == 0`. */
  lemma {:induction false} PushAllConsistent(s: string)
    requires MaskChars(s)
    ensures Consistent(PushAll(Empty, s).value)
  {
    if s != [] {
      var init := s[..|s| - 1];
      assert forall j :: 0 <= j < |init| ==> init[j] == s[j];
      PushAllConsistent(init);
      PushConsistent(PushAll(Empty, init).value, s[|s| - 1]);
    }
  }

  /** `Mask1::mask`: `value & off | on`. */
  function Mask(b: Bits, value: Word): Word
  {
    Or(And(value, b.off), b.on)
  }

  /** For consistent words a masked bit is 1 where `on` has it, 0 where
      `off` lacks it, and the value's bit otherwise. */
  lemma MaskMeaning(b: Bits, value: Word)
    requires Consistent(b)
    ensures forall i :: 0 <= i < 64 ==>
      Mask(b, value)[i] == (if b.on[i] then true else if !b.off[i] then false else value[i])
  {
    ConsistentIff(b);
  }

  /** What a mask line does to each bit of a value: X copies it, 0 clears
      it, 1 sets it, and a bit beyond the mask's length is cleared. */
  lemma MaskOfApplies(s: string, value: Word)
    requires MaskChars(s)
    ensures forall i :: 0 <= i < 64 ==>
      (Mask(PushAll(Empty, s).value, value)[i] == (i < |s| && (CharAt(s, i) == '1' || (CharAt(s, i) == 'X' && value[i]))))
  {
    var b := PushAll(Empty, s).value;
    PushAllBits(s);
    forall i | 0 <= i < 64
      ensures Mask(b, value)[i] == (i < |s| && (CharAt(s, i) == '1' || (CharAt(s, i) == 'X' && value[i])))
    {
      assert OnSpelled(b, s, i) && OffSpelled(b, s, i);
    }
  }

  // ---------------------------------------------------------------------
  // Mask1 in place

  /** `Mask1`, whose `add` and `replace_from` update its words in place. */
  class Mask1 {
    var on: Word
    var off: Word

    /** `Mask1 { on: 0, off: 0 }`. */
    constructor ()
      ensures Value() == Empty
    {
      on, off := Zero, Zero;
    }

    function Value(): Bits
      reads this
    {
      Bits(on, off)
    }

    /** `add`: shift both words left, then or in the character's bits; an
        unknown character panics. */
    method Add(c: char) returns (r: Result<()>)
      modifies this
      ensures r.Ok? <==> MaskChar(c)
      ensures r.Ok? ==> Value() == Push(old(Value()), c)
    {
      on := Shl1(on);
      off := Shl1(off);
      if c == 'X' {
        off := SetLow(off);
      } else if c == '0' {
      } else if c == '1' {
        on := SetLow(on);
        off := SetLow(off);
      } else {
        return Panic;
      }
      return Ok(());
    }

    /** `replace_from`: clear both words and add the characters after the
        "mask = " prefix. The words end consistent. */
    method ReplaceFrom(line: string) returns (r: Result<()>)
      modifies this
      ensures r.Ok? <==> MaskOf(line).Ok?
      ensures r.Ok? ==> Value() == MaskOf(line).value && Consistent(Value())
    {
      on, off := Zero, Zero;
      var digits := SkipPrefix(line);
      var i := 0;
      while i < |digits|
        invariant 0 <= i <= |digits|
        invariant PushAll(Empty, digits[..i]) == Ok(Value())
      {
        PushAllStep(digits, i, Value());
        var added := Add(digits[i]);
        if added.Panic? {
          PanicStays(digits, i + 1);
          return Panic;
        }
        i := i + 1;
      }
      assert digits[..i] == digits;
      PushAllConsistent(digits);
      return Ok(());
    }

    /** `mask`. */
    function MaskValue(value: Word): (r: Word)
      reads this
      ensures r == Mask(Value(), value)
    {
      Or(And(value, off), on)
    }
  }

  lemma PushAllStep(s: string, i: nat, b: Bits)
    requires i < |s| && PushAll(Empty, s[..i]) == Ok(b)
    ensures PushAll(Empty, s[..i + 1]) == if MaskChar(s[i]) then Ok(Push(b, s[i])) else Panic
  {
    assert s[..i + 1][..i] == s[..i];
  }

  /** One more character of a floating mask. */
  lemma VersionsStep(s: string, i: nat, vs: seq<Bits>)
    requires i < |s| && Versions(s[..i]) == Ok(vs)
    ensures Versions(s[..i + 1]) ==
      match s[i]
      case '0' => Ok(PushToAll(vs, 'X'))
      case '1' => Ok(PushToAll(vs, '1'))
      case 'X' => Ok(PushToAll(vs, '1') + PushToAll(vs, '0'))
      case _ => Panic
  {
    assert s[..i + 1][..i] == s[..i];
  }

  /** Once a prefix panics, so does the whole string. */
  lemma PanicStays(s: string, k: nat)
    requires k <= |s| && PushAll(Empty, s[..k]).Panic?
    ensures PushAll(Empty, s).Panic?
  {
    var j :| 0 <= j < k && !MaskChar(s[..k][j]);
    assert s[j] == s[..k][j];
  }

  /** The mask of the unit test: `on` is 64 (bit 6) and `off` is all 36
      mask bits but bit 1. */
  lemma Mask1Example()
    ensures var m := MaskOf("XXXXXXXXXXXXXXXXXXXXXXXXXXXXX1XXXX0X");
      m.Ok? && (forall i :: 0 <= i < 64 ==> (m.value.on[i] <==> i == 6) && (m.value.off[i] <==> i < 36 && i != 1))
  {
    var s := "XXXXXXXXXXXXXXXXXXXXXXXXXXXXX1XXXX0X";
    assert |s| == 36;
    assert forall j :: 0 <= j < 36 ==> (s[j] == '1' <==> j == 29) && (s[j] == '0' <==> j == 34) && MaskChar(s[j]);
    assert s[0] == 'X';
    SkipNothing(s);
    PushAllBits(s);
    var b := PushAll(Empty, s).value;
    forall i | 0 <= i < 64
      ensures (b.on[i] <==> i == 6) && (b.off[i] <==> i < 36 && i != 1)
    {
      assert OnSpelled(b, s, i) && OffSpelled(b, s, i);
    }
  }

  // ---------------------------------------------------------------------
  // Mask2: floating bits

  /** `add_to_all` on values: add `c` to every mask. */
  function PushToAll(masks: seq<Bits>, c: char): (r: seq<Bits>)
    requires MaskChar(c)
    ensures |r| == |masks| && forall k :: 0 <= k < |masks| ==> r[k] == Push(masks[k], c)
  {
    seq(|masks|, k requires 0 <= k < |masks| => Push(masks[k], c))
  }

  /** The versions `Mask2::replace_from` builds for the mask characters
      `s`, starting from one zero mask: a 0 adds X to every version (keep
      the address bit), a 1 adds 1 to every version, and an X doubles the
      versions, first all with 1 added, then all with 0 added. */
  function Versions(s: string): (r: Result<seq<Bits>>)
    ensures r.Ok? <==> MaskChars(s)
  {
    if s == [] then Ok([Empty])
    else
      var init := s[..|s| - 1];
      assert forall j :: 0 <= j < |init| ==> init[j] == s[j];
      match Versions(init)
      case Panic => Panic
      case Ok(versions) =>
        match s[|s| - 1]
        case '0' => Ok(PushToAll(versions, 'X'))
        case '1' => Ok(PushToAll(versions, '1'))
        case 'X' => Ok(PushToAll(versions, '1') + PushToAll(versions, '0'))
        case _ => Panic
  }

  function CountX(s: string): nat
  {
    if s == [] then 0 else CountX(s[..|s| - 1]) + (if s[|s| - 1] == 'X' then 1 else 0)
  }

  /** Each X doubles the versions: there are 2^(number of X) of them. */
  lemma {:induction false} VersionsCount(s: string)
    requires MaskChars(s)
    ensures |Versions(s).value| == Pow2(CountX(s))
  {
    if s != [] {
      var init := s[..|s| - 1];
      assert forall j :: 0 <= j < |init| ==> init[j] == s[j];
      VersionsCount(init);
    }
  }

  /** A `Mask1` string `t` that resolves the floating mask `s`: a 0 of `s`
      becomes X (the address bit is kept), a 1 stays 1, and an X becomes
      0 or 1. */
  predicate Resolves(t: string, s: string)
  {
    |t| == |s| && forall j :: 0 <= j < |s| ==> ResolvesAt(t[j], s[j])
  }

  predicate ResolvesAt(d: char, c: char)
  {
    (c == '0' && d == 'X') || (c == '1' && d == '1') || (c == 'X' && (d == '0' || d == '1'))
  }

  lemma ResolvesChars(t: string, s: string)
    requires Resolves(t, s)
    ensures MaskChars(t)
  {
    assert forall j :: 0 <= j < |t| ==> ResolvesAt(t[j], s[j]);
  }

  /** The mask a resolution spells. */
  function Spelled(t: string): Bits
    requires MaskChars(t)
  {
    PushAll(Empty, t).value
  }

  /** `v` is the mask of some resolution of `s`. */
  ghost predicate ResolvedBy(v: Bits, s: string)
  {
    exists t :: Resolves(t, s) && MaskChars(t) && v == Spelled(t)
  }

  /** The versions are exactly the masks of the resolutions of `s`: each
      version is spelled by some resolution, and every resolution's mask
      is a version. */
  lemma {:induction false} VersionsAreResolutions(s: string)
    requires MaskChars(s)
    ensures forall k :: 0 <= k < |Versions(s).value| ==> ResolvedBy(Versions(s).value[k], s)
    ensures forall t :: Resolves(t, s) ==> MaskChars(t) && Spelled(t) in Versions(s).value
  {
    var vs := Versions(s).value;
    if s == [] {
      forall t | Resolves(t, s)
        ensures MaskChars(t) && Spelled(t) in vs
      {
        assert t == [];
      }
      assert vs == [Spelled([])];
      forall k | 0 <= k < |vs|
        ensures ResolvedBy(vs[k], s)
      {
        var none: string := [];
        assert Resolves(none, s) && MaskChars(none) && vs[k] == Spelled(none);
      }
    } else {
      var n := |s| - 1;
      var init := s[..n];
      var c := s[n];
      assert forall j :: 0 <= j < |init| ==> init[j] == s[j];
      VersionsAreResolutions(init);
      assert init + [c] == s;
      VersionsSoundStep(init, c);
      VersionsCompleteStep(init, c);
    }
  }

  /** Every version of `s + [c]` is spelled by a resolution, when every
      version of `s` is. */
  lemma VersionsSoundStep(init: string, c: char)
    requires MaskChars(init + [c]) && MaskChars(init)
    requires forall k :: 0 <= k < |Versions(init).value| ==> ResolvedBy(Versions(init).value[k], init)
    ensures forall k :: 0 <= k < |Versions(init + [c]).value| ==> ResolvedBy(Versions(init + [c]).value[k], init + [c])
  {
    var s := init + [c];
    var vs := Versions(s).value;
    var prev := Versions(init).value;
    forall k: int | 0 <= k < |vs|
      ensures ResolvedBy(vs[k], s)
    {
      var p, d := VersionSource(init, c, k);
      assert ResolvedBy(prev[p], init);
      var u :| Resolves(u, init) && MaskChars(u) && prev[p] == Spelled(u);
      ResolveSnoc(u, init, d, c);
      SpelledSnoc(u, d);
      var w := u + [d];
      assert Resolves(w, s) && MaskChars(w) && vs[k] == Spelled(w);
    }
  }

  /** Every resolution of `s + [c]` spells a version, when every
      resolution of `s` does. */
  lemma VersionsCompleteStep(init: string, c: char)
    requires MaskChars(init + [c]) && MaskChars(init)
    requires forall t :: Resolves(t, init) ==> MaskChars(t) && Spelled(t) in Versions(init).value
    ensures forall t :: Resolves(t, init + [c]) ==> MaskChars(t) && Spelled(t) in Versions(init + [c]).value
  {
    var s := init + [c];
    var n := |init|;
    var vs := Versions(s).value;
    var prev := Versions(init).value;
    forall t | Resolves(t, s)
      ensures MaskChars(t) && Spelled(t) in vs
    {
      ResolvesChars(t, s);
      var u := t[..n];
      assert Resolves(u, init) by {
        assert forall j :: 0 <= j < n ==> u[j] == t[j] && init[j] == s[j];
      }
      assert ResolvesAt(t[n], c);
      assert u + [t[n]] == t;
      SpelledSnoc(u, t[n]);
      var p :| 0 <= p < |prev| && prev[p] == Spelled(u);
      VersionTarget(init, c, t[n], p);
    }
  }

  /** Where version `k` of `s + [c]` comes from: a version of `s` with one
      character added that resolves `c`. */
  lemma VersionSource(s: string, c: char, k: nat) returns (p: nat, d: char)
    requires MaskChars(s + [c]) && k < |Versions(s + [c]).value|
    ensures MaskChars(s) && p < |Versions(s).value| && ResolvesAt(d, c) && MaskChar(d)
    ensures Versions(s + [c]).value[k] == Push(Versions(s).value[p], d)
  {
    var t := s + [c];
    assert t[..|t| - 1] == s;
    assert MaskChars(s) by { assert forall j :: 0 <= j < |s| ==> s[j] == t[j]; }
    assert MaskChar(t[|t| - 1]);
    var prev := Versions(s).value;
    if c == '0' {
      p, d := k, 'X';
    } else if c == '1' {
      p, d := k, '1';
    } else if k < |prev| {
      p, d := k, '1';
    } else {
      p, d := k - |prev|, '0';
    }
  }

  /** Adding a character that resolves `c` to a version of `s` gives a
      version of `s + [c]`. */
  lemma VersionTarget(s: string, c: char, d: char, p: nat)
    requires MaskChars(s + [c]) && ResolvesAt(d, c)
    requires MaskChars(s) && p < |Versions(s).value|
    ensures Push(Versions(s).value[p], d) in Versions(s + [c]).value
  {
    var t := s + [c];
    assert t[..|t| - 1] == s;
    var prev := Versions(s).value;
    var vs := Versions(t).value;
    if c == 'X' && d == '0' {
      assert vs[|prev| + p] == Push(prev[p], d);
    } else {
      assert vs[p] == Push(prev[p], d);
    }
  }

  lemma ResolveSnoc(u: string, s: string, d: char, c: char)
    requires Resolves(u, s) && ResolvesAt(d, c)
    ensures Resolves(u + [d], s + [c])
  {
    assert forall j :: 0 <= j < |s| ==> (u + [d])[j] == u[j] && (s + [c])[j] == s[j];
  }

  lemma SpelledSnoc(u: string, d: char)
    requires MaskChars(u) && MaskChar(d)
    ensures MaskChars(u + [d]) && Spelled(u + [d]) == Push(Spelled(u), d)
  {
    var t := u + [d];
    assert t[..|t| - 1] == u;
    assert MaskChars(t) by { assert forall j :: 0 <= j < |t| ==> t[j] == if j < |u| then u[j] else d; }
  }

  // ---------------------------------------------------------------------
  // Floating addresses

  /** `all_variants_of` on values: every version applied to `value`. */
  function Variants(versions: seq<Bits>, value: Word): (r: seq<Word>)
    ensures |r| == |versions| && forall k :: 0 <= k < |versions| ==> r[k] == Mask(versions[k], value)
  {
    seq(|versions|, k requires 0 <= k < |versions| => Mask(versions[k], value))
  }

  /** Bit `i` of address `w` fits the floating mask `s` applied to
      `value`: a 0 keeps the value's bit, a 1 sets it, an X lets it be
      either, and a bit beyond the mask is clear. */
  predicate VariantBit(w: Word, s: string, value: Word, i: nat)
    requires i < 64
  {
    if i >= |s| then !w[i]
    else if CharAt(s, i) == '0' then w[i] == value[i]
    else if CharAt(s, i) == '1' then w[i]
    else true
  }

  predicate VariantOf(w: Word, s: string, value: Word)
  {
    forall i :: 0 <= i < 64 ==> VariantBit(w, s, value, i)
  }

  /** One bit of the spelled mask applied to `value`. */
  lemma MaskBit(t: string, value: Word, i: nat)
    requires MaskChars(t) && i < 64
    ensures Mask(Spelled(t), value)[i] == (i < |t| && (CharAt(t, i) == '1' || (CharAt(t, i) == 'X' && value[i])))
  {
    PushAllBits(t);
    assert OnSpelled(Spelled(t), t, i) && OffSpelled(Spelled(t), t, i);
  }

  /** A resolution's mask gives an address that fits the floating mask. */
  lemma ResolutionFits(t: string, s: string, value: Word, i: nat)
    requires Resolves(t, s) && MaskChars(t) && i < 64
    ensures VariantBit(Mask(Spelled(t), value), s, value, i)
  {
    MaskBit(t, value, i);
    if i < |s| {
      assert ResolvesAt(t[|s| - 1 - i], s[|s| - 1 - i]);
    }
  }

  /** Every variant fits the mask. */
  lemma VariantsSound(s: string, value: Word, k: nat)
    requires MaskChars(s) && k < |Versions(s).value|
    ensures VariantOf(Variants(Versions(s).value, value)[k], s, value)
  {
    var vs := Versions(s).value;
    VersionsAreResolutions(s);
    assert ResolvedBy(vs[k], s);
    var t :| Resolves(t, s) && MaskChars(t) && vs[k] == Spelled(t);
    forall i | 0 <= i < 64
      ensures VariantBit(Mask(Spelled(t), value), s, value, i)
    {
      ResolutionFits(t, s, value, i);
    }
  }

  /** The resolution of `s` that spells address `w`. */
  function ResolutionFor(s: string, w: Word): (t: string)
    requires |s| <= 64
    ensures |t| == |s|
  {
    seq(|s|, j requires 0 <= j < |s| =>
      if s[j] == '0' then 'X' else if s[j] == '1' then '1' else if w[|s| - 1 - j] then '1' else '0')
  }

  lemma ResolutionForResolves(s: string, w: Word)
    requires MaskChars(s) && |s| <= 64
    ensures Resolves(ResolutionFor(s, w), s) && MaskChars(ResolutionFor(s, w))
  {
    var t := ResolutionFor(s, w);
    assert forall j :: 0 <= j < |s| ==> ResolvesAt(t[j], s[j]);
    ResolvesChars(t, s);
  }

  lemma ResolutionForBit(s: string, value: Word, w: Word, i: nat)
    requires MaskChars(s) && |s| <= 64 && i < 64 && VariantBit(w, s, value, i)
    ensures MaskChars(ResolutionFor(s, w)) && Mask(Spelled(ResolutionFor(s, w)), value)[i] == w[i]
  {
    ResolutionForResolves(s, w);
    MaskBit(ResolutionFor(s, w), value, i);
  }

  /** Every address that fits a mask of at most 64 characters is a variant. */
  lemma VariantsComplete(s: string, value: Word, w: Word)
    requires MaskChars(s) && |s| <= 64 && VariantOf(w, s, value)
    ensures w in Variants(Versions(s).value, value)
  {
    var vs := Versions(s).value;
    var t := ResolutionFor(s, w);
    ResolutionForResolves(s, w);
    var m := Mask(Spelled(t), value);
    forall i | 0 <= i < 64
      ensures m[i] == w[i]
    {
      ResolutionForBit(s, value, w, i);
    }
    assert m == w;
    VersionsAreResolutions(s);
    var k :| 0 <= k < |vs| && vs[k] == Spelled(t);
    assert Variants(vs, value)[k] == w;
  }

  /** `all_variants_of(value)` holds exactly the addresses that fit the
      floating mask. */
  lemma VariantsExact(s: string, value: Word, w: Word)
    requires MaskChars(s) && |s| <= 64
    ensures w in Variants(Versions(s).value, value) <==> VariantOf(w, s, value)
  {
    var vs := Versions(s).value;
    if w in Variants(vs, value) {
      var k :| 0 <= k < |vs| && Variants(vs, value)[k] == w;
      VariantsSound(s, value, k);
    }
    if VariantOf(w, s, value) {
      VariantsComplete(s, value, w);
    }
  }

  // ---------------------------------------------------------------------
  // Mask2 in place

  /** The free function `add_to_all`: add `c` to each mask in turn. */
  method AddToAll(masks: seq<Bits>, c: char) returns (r: seq<Bits>)
    requires MaskChar(c)
    ensures r == PushToAll(masks, c)
  {
    r := masks;
    var k := 0;
    while k < |r|
      invariant 0 <= k <= |r| == |masks|
      invariant forall j :: 0 <= j < k ==> r[j] == Push(masks[j], c)
      invariant forall j :: k <= j < |r| ==> r[j] == masks[j]
    {
      r := r[k := Push(r[k], c)];
      k := k + 1;
    }
  }

  /** The versions `replace_from(line)` builds. */
  function FloatingOf(line: string): Result<seq<Bits>>
  {
    Versions(SkipPrefix(line))
  }

  class Mask2 {
    var versions: seq<Bits>

    /** `Mask2 { versions: Vec::new() }`. */
    constructor ()
      ensures versions == []
    {
      versions := [];
    }

    /** The method `add_to_all`. */
    method AddToAllVersions(c: char)
      requires MaskChar(c)
      modifies this
      ensures versions == PushToAll(old(versions), c)
    {
      versions := AddToAll(versions, c);
    }

    /** `replace_from`: restart from one zero mask; a 0 adds X to every
        version, a 1 adds 1, and an X adds 1 to every version and appends
        a copy of the old versions with 0 added. */
    method ReplaceFrom(line: string) returns (r: Result<()>)
      modifies this
      ensures r.Ok? <==> FloatingOf(line).Ok?
      ensures r.Ok? ==> versions == FloatingOf(line).value
    {
      versions := [Empty];
      var digits := SkipPrefix(line);
      var i := 0;
      while i < |digits|
        invariant 0 <= i <= |digits|
        invariant Versions(digits[..i]) == Ok(versions)
      {
        var c := digits[i];
        VersionsStep(digits, i, versions);
        if c == '0' {
          AddToAllVersions('X');
        } else if c == '1' {
          AddToAllVersions('1');
        } else if c == 'X' {
          var copy := AddToAll(versions, '0');
          AddToAllVersions('1');
          versions := versions + copy;
        } else {
          assert !MaskChar(digits[i]);
          return Panic;
        }
        i := i + 1;
      }
      assert digits[..i] == digits;
      return Ok(());
    }

    /** `all_variants_of`. */
    function AllVariantsOf(value: Word): (r: seq<Word>)
      reads this
      ensures r == Variants(versions, value)
    {
      seq(|versions|, k requires 0 <= k < |versions| reads this => Mask(versions[k], value))
    }
  }

  // ---------------------------------------------------------------------
  // Memory lines

  const MemSeparators: set<char> := {'[', ']', '=', ' '}

  /** `split_mem`: split at `[`, `]`, `=` and space, and parse the pieces
      at positions 1 and 5 as `u64`; fewer than six pieces or a piece that
      is not a `u64` panics. */
  function SplitMem(line: string): (r: Result<(nat, nat)>)
    ensures r.Ok? ==> r.value.0 < Pow2(64) && r.value.1 < Pow2(64)
  {
    var tokens := SplitAny(line, MemSeparators);
    if |tokens| < 6 then Panic
    else
      match (ParseNat(tokens[1]), ParseNat(tokens[5]))
      case (Some(idx), Some(val)) => if idx < Pow2(64) && val < Pow2(64) then Ok((idx, val)) else Panic
      case _ => Panic
  }

  /** The line `mem[idx] = val`. */
  function MemLine(idx: nat, val: nat): string
  {
    "mem[" + NatToString(idx) + "] = " + NatToString(val)
  }

  lemma DigitsNotSeparators(s: string)
    requires AllDigits(s)
    ensures NoneIn(s, MemSeparators)
  {
    assert forall i :: 0 <= i < |s| ==> IsDigit(s[i]);
  }

  /** `split_mem` reads back the address and value of a memory line. */
  lemma SplitMemLine(idx: nat, val: nat)
    requires idx < Pow2(64) && val < Pow2(64)
    ensures SplitMem(MemLine(idx, val)) == Ok((idx, val))
  {
    MemLinePieces(idx, val);
    ParseNatToString(idx);
    ParseNatToString(val);
  }

  /** The pieces 1 and 5 of a memory line are its address and value. */
  lemma MemLinePieces(idx: nat, val: nat)
    ensures var tokens := SplitAny(MemLine(idx, val), MemSeparators);
      |tokens| == 6 && tokens[1] == NatToString(idx) && tokens[5] == NatToString(val)
  {
    var a, v := NatToString(idx), NatToString(val);
    MemLineTokens(a, v);
  }

  /** The pieces of a memory line between its separators. */
  lemma MemLineTokens(a: string, v: string)
    requires AllDigits(a) && AllDigits(v)
    ensures SplitAny("mem[" + a + "] = " + v, MemSeparators) == ["mem", a, [], [], [], v]
  {
    var mem: string := "mem";
    var none: string := [];
    DigitsNotSeparators(a);
    DigitsNotSeparators(v);
    assert NoneIn(mem, MemSeparators);
    var r3 := none + [' '] + v;
    var r2 := none + ['='] + r3;
    var r1 := none + [' '] + r2;
    var r0 := a + [']'] + r1;
    assert "mem[" + a + "] = " + v == mem + ['['] + r0;
    SplitAnyNone(v, MemSeparators);
    SplitAnyCons(none, ' ', v, MemSeparators);
    var t3 := [none, v];
    assert SplitAny(r3, MemSeparators) == t3;
    SplitAnyCons(none, '=', r3, MemSeparators);
    var t2 := [none] + t3;
    assert SplitAny(r2, MemSeparators) == t2;
    SplitAnyCons(none, ' ', r2, MemSeparators);
    var t1 := [none] + t2;
    assert SplitAny(r1, MemSeparators) == t1;
    SplitAnyCons(a, ']', r1, MemSeparators);
    var t0 := [a] + t1;
    assert SplitAny(r0, MemSeparators) == t0;
    SplitAnyCons(mem, '[', r0, MemSeparators);
    assert [mem] + t0 == ["mem", a, [], [], [], v];
  }

  // ---------------------------------------------------------------------
  // Writing memory

  /** `Mask1::update_mem`: store the masked value at the address. */
  function Write1(b: Bits, mem: map<nat, nat>, idx: nat, val: nat): map<nat, nat>
    requires val < Pow2(64)
  {
    mem[idx := BitsValue(Mask(b, WordOf(val)))]
  }

  /** `Mask2::update_mem` on values: store `val` at every address in turn. */
  function WriteAll(mem: map<nat, nat>, addrs: seq<Word>, val: nat): map<nat, nat>
  {
    if addrs == [] then mem else WriteAll(mem, addrs[..|addrs| - 1], val)[BitsValue(addrs[|addrs| - 1]) := val]
  }

  predicate Written(addrs: seq<Word>, a: nat)
  {
    exists k :: 0 <= k < |addrs| && BitsValue(addrs[k]) == a
  }

  /** An address is written by a list iff it is written by the list's
      front or is the last word's value. */
  lemma WrittenSnoc(addrs: seq<Word>, a: nat)
    requires addrs != []
    ensures Written(addrs, a) <==>
      Written(addrs[..|addrs| - 1], a) || BitsValue(addrs[|addrs| - 1]) == a
  {
    var n := |addrs| - 1;
    var init := addrs[..n];
    WrittenInit(addrs, a);
    if Written(addrs, a) && BitsValue(addrs[n]) != a {
      var k :| 0 <= k < |addrs| && BitsValue(addrs[k]) == a;
      assert init[k] == addrs[k];
    }
  }

  lemma WrittenInit(addrs: seq<Word>, a: nat)
    requires addrs != []
    ensures Written(addrs[..|addrs| - 1], a) ==> Written(addrs, a)
  {
    var init := addrs[..|addrs| - 1];
    if Written(init, a) {
      var k :| 0 <= k < |init| && BitsValue(init[k]) == a;
      assert addrs[k] == init[k];
    }
  }

  /** Every address in the list ends holding `val`; every other cell is
      unchanged. */
  lemma {:induction false} WriteAllCells(mem: map<nat, nat>, addrs: seq<Word>, val: nat, a: nat)
    ensures Written(addrs, a) ==> a in WriteAll(mem, addrs, val) && WriteAll(mem, addrs, val)[a] == val
    ensures !Written(addrs, a) ==>
      (a in WriteAll(mem, addrs, val) <==> a in mem) &&
      (a in mem ==> WriteAll(mem, addrs, val)[a] == mem[a])
  {
    if addrs != [] {
      var n := |addrs| - 1;
      var init := addrs[..n];
      WriteAllCells(mem, init, val, a);
      WrittenSnoc(addrs, a);
    }
  }

  /** An address is written for a word list exactly when its word is in it. */
  lemma WrittenWord(addrs: seq<Word>, a: nat)
    requires a < Pow2(64)
    ensures Written(addrs, a) <==> WordOf(a) in addrs
  {
    BitsValueOf(a, 64);
    if Written(addrs, a) {
      var k :| 0 <= k < |addrs| && BitsValue(addrs[k]) == a;
      BitsOfValue(addrs[k]);
    }
  }

  /** What a memory line does under a floating mask `s`: every address
      that fits the mask applied to `idx` now holds `val`, and every other
      cell is unchanged. */
  lemma FloatingWrite(s: string, idx: nat, val: nat, mem: map<nat, nat>, a: nat)
    requires MaskChars(s) && |s| <= 64 && idx < Pow2(64) && a < Pow2(64)
    ensures VariantOf(WordOf(a), s, WordOf(idx)) ==>
      var after := WriteAll(mem, Variants(Versions(s).value, WordOf(idx)), val);
      a in after && after[a] == val
    ensures !VariantOf(WordOf(a), s, WordOf(idx)) ==>
      var after := WriteAll(mem, Variants(Versions(s).value, WordOf(idx)), val);
      (a in after <==> a in mem) && (a in mem ==> after[a] == mem[a])
  {
    var addrs := Variants(Versions(s).value, WordOf(idx));
    WriteAllCells(mem, addrs, val, a);
    WrittenWord(addrs, a);
    VariantsExact(s, WordOf(idx), WordOf(a));
  }

  // ---------------------------------------------------------------------
  // Solving

  datatype State1 = State1(mask: Bits, mem: map<nat, nat>)

  /** One line of `solve` for `Mask1`: a line starting with "mask" replaces
      the mask, any other is a memory write. */
  function Step1(st: State1, line: string): Result<State1>
  {
    if StartsWith(line, "mask") then
      match MaskOf(line)
      case Ok(b) => Ok(State1(b, st.mem))
      case Panic => Panic
    else
      match SplitMem(line)
      case Ok((idx, val)) => Ok(State1(st.mask, Write1(st.mask, st.mem, idx, val)))
      case Panic => Panic
  }

  /** `solve` for `Mask1`, from `mask` and an empty memory. */
  function Run1(mask: Bits, lines: seq<string>): Result<State1>
  {
    if lines == [] then Ok(State1(mask, map[]))
    else
      match Run1(mask, lines[..|lines| - 1])
      case Ok(st) => Step1(st, lines[|lines| - 1])
      case Panic => Panic
  }

  datatype State2 = State2(versions: seq<Bits>, mem: map<nat, nat>)

  /** One line of `solve` for `Mask2`. */
  function Step2(st: State2, line: string): Result<State2>
  {
    if StartsWith(line, "mask") then
      match FloatingOf(line)
      case Ok(vs) => Ok(State2(vs, st.mem))
      case Panic => Panic
    else
      match SplitMem(line)
      case Ok((idx, val)) => Ok(State2(st.versions, WriteAll(st.mem, Variants(st.versions, WordOf(idx)), val)))
      case Panic => Panic
  }

  function Run2(versions: seq<Bits>, lines: seq<string>): Result<State2>
  {
    if lines == [] then Ok(State2(versions, map[]))
    else
      match Run2(versions, lines[..|lines| - 1])
      case Ok(st) => Step2(st, lines[|lines| - 1])
      case Panic => Panic
  }

  lemma Run1Step(start: Bits, lines: seq<string>, i: nat, st: State1)
    requires i < |lines| && Run1(start, lines[..i]) == Ok(st)
    ensures Run1(start, lines[..i + 1]) == Step1(st, lines[i])
  {
    assert lines[..i + 1][..i] == lines[..i];
  }

  /** A panic on some line ends the whole run. */
  lemma {:induction false} Run1PanicStays(mask: Bits, lines: seq<string>, k: nat)
    requires k <= |lines| && Run1(mask, lines[..k]).Panic?
    ensures Run1(mask, lines).Panic?
    decreases |lines| - k
  {
    if k < |lines| {
      assert lines[..k + 1][..k] == lines[..k];
      Run1PanicStays(mask, lines, k + 1);
    } else {
      assert lines[..k] == lines;
    }
  }

  lemma Run2Step(start: seq<Bits>, lines: seq<string>, i: nat, st: State2)
    requires i < |lines| && Run2(start, lines[..i]) == Ok(st)
    ensures Run2(start, lines[..i + 1]) == Step2(st, lines[i])
  {
    assert lines[..i + 1][..i] == lines[..i];
  }

  lemma {:induction false} Run2PanicStays(versions: seq<Bits>, lines: seq<string>, k: nat)
    requires k <= |lines| && Run2(versions, lines[..k]).Panic?
    ensures Run2(versions, lines).Panic?
    decreases |lines| - k
  {
    if k < |lines| {
      assert lines[..k + 1][..k] == lines[..k];
      Run2PanicStays(versions, lines, k + 1);
    } else {
      assert lines[..k] == lines;
    }
  }

  /** One line of `Solver::solve` for a `Mask1`: a mask line replaces the
      mask, any other line writes the masked value. */
  method ApplyLine1(m: Mask1, line: string, mem: map<nat, nat>) returns (r: Result<map<nat, nat>>)
    modifies m
    ensures Step1(State1(old(m.Value()), mem), line).Panic? ==> r.Panic?
    ensures Step1(State1(old(m.Value()), mem), line).Ok? ==>
              r == Ok(Step1(State1(old(m.Value()), mem), line).value.mem) &&
              m.Value() == Step1(State1(old(m.Value()), mem), line).value.mask
  {
    if StartsWith(line, "mask") {
      var replaced := m.ReplaceFrom(line);
      if replaced.Panic? {
        return Panic;
      }
      return Ok(mem);
    }
    var parsed := SplitMem(line);
    if parsed.Panic? {
      return Panic;
    }
    var (idx, val) := parsed.value;
    Step1Write(State1(m.Value(), mem), line, idx, val);
    var masked := m.MaskValue(WordOf(val));
    return Ok(mem[idx := BitsValue(masked)]);
  }

  /** A memory line of a run of `Mask1`. */
  lemma Step1Write(st: State1, line: string, idx: nat, val: nat)
    requires !StartsWith(line, "mask") && SplitMem(line) == Ok((idx, val))
    ensures val < Pow2(64) && Step1(st, line) == Ok(State1(st.mask, Write1(st.mask, st.mem, idx, val)))
  {
  }

  /** `Solver::solve` for a `Mask1`: apply each line and sum the memory. */
  method Solve1From(m: Mask1, lines: seq<string>) returns (r: Result<string>)
    modifies m
    ensures r.Ok? <==> Run1(old(m.Value()), lines).Ok?
    ensures r.Ok? ==> r.value == NatToString(MapSum(Run1(old(m.Value()), lines).value.mem))
  {
    ghost var start := m.Value();
    var mem: map<nat, nat> := map[];
    var i := 0;
    while i < |lines|
      invariant 0 <= i <= |lines|
      invariant Run1(start, lines[..i]) == Ok(State1(m.Value(), mem))
    {
      Run1Step(start, lines, i, State1(m.Value(), mem));
      var applied := ApplyLine1(m, lines[i], mem);
      if applied.Panic? {
        Run1PanicStays(start, lines, i + 1);
        return Panic;
      }
      mem := applied.value;
      i := i + 1;
    }
    assert lines[..i] == lines;
    var total := SumValues(mem);
    return Ok(NatToString(total));
  }

  /** `solve_1`: `Mask1::from("").solve(...)`. */
  method Solve1(lines: seq<string>) returns (r: Result<string>)
    ensures r.Ok? <==> Run1(Empty, lines).Ok?
    ensures r.Ok? ==> r.value == NatToString(MapSum(Run1(Empty, lines).value.mem))
  {
    var m := new Mask1();
    var cleared := m.ReplaceFrom("");
    assert SkipPrefix("") == [];
    r := Solve1From(m, lines);
  }

  lemma WriteAllStep(mem: map<nat, nat>, addrs: seq<Word>, k: nat, val: nat)
    requires k < |addrs|
    ensures WriteAll(mem, addrs[..k + 1], val) == WriteAll(mem, addrs[..k], val)[BitsValue(addrs[k]) := val]
  {
    assert addrs[..k + 1][..k] == addrs[..k];
  }

  /** `Mask2::update_mem`: store `val` at every variant of the address. */
  method UpdateMem2(m: Mask2, idx: nat, val: nat, mem: map<nat, nat>) returns (r: map<nat, nat>)
    requires idx < Pow2(64)
    ensures r == WriteAll(mem, Variants(m.versions, WordOf(idx)), val)
  {
    var options := m.AllVariantsOf(WordOf(idx));
    r := mem;
    var k := 0;
    while k < |options|
      invariant 0 <= k <= |options|
      invariant r == WriteAll(mem, options[..k], val)
    {
      WriteAllStep(mem, options, k, val);
      r := r[BitsValue(options[k]) := val];
      k := k + 1;
    }
    assert options[..k] == options;
  }

  /** One line of `Solver::solve` for a `Mask2`: a mask line replaces the
      versions, any other line writes the value at every variant. */
  method ApplyLine2(m: Mask2, line: string, mem: map<nat, nat>) returns (r: Result<map<nat, nat>>)
    modifies m
    ensures Step2(State2(old(m.versions), mem), line).Panic? ==> r.Panic?
    ensures Step2(State2(old(m.versions), mem), line).Ok? ==>
              r == Ok(Step2(State2(old(m.versions), mem), line).value.mem) &&
              m.versions == Step2(State2(old(m.versions), mem), line).value.versions
  {
    if StartsWith(line, "mask") {
      var replaced := m.ReplaceFrom(line);
      if replaced.Panic? {
        return Panic;
      }
      return Ok(mem);
    }
    var parsed := SplitMem(line);
    if parsed.Panic? {
      return Panic;
    }
    var (idx, val) := parsed.value;
    Step2Write(State2(m.versions, mem), line, idx, val);
    var written := UpdateMem2(m, idx, val, mem);
    return Ok(written);
  }

  /** A memory line of a run of `Mask2`. */
  lemma Step2Write(st: State2, line: string, idx: nat, val: nat)
    requires !StartsWith(line, "mask") && SplitMem(line) == Ok((idx, val))
    ensures idx < Pow2(64)
    ensures Step2(st, line) == Ok(State2(st.versions, WriteAll(st.mem, Variants(st.versions, WordOf(idx)), val)))
  {
  }

  /** `Solver::solve` for a `Mask2`. */
  method Solve2From(m: Mask2, lines: seq<string>) returns (r: Result<string>)
    modifies m
    ensures r.Ok? <==> Run2(old(m.versions), lines).Ok?
    ensures r.Ok? ==> r.value == NatToString(MapSum(Run2(old(m.versions), lines).value.mem))
  {
    ghost var start := m.versions;
    var mem: map<nat, nat> := map[];
    var i := 0;
    while i < |lines|
      invariant 0 <= i <= |lines|
      invariant Run2(start, lines[..i]) == Ok(State2(m.versions, mem))
    {
      Run2Step(start, lines, i, State2(m.versions, mem));
      var applied := ApplyLine2(m, lines[i], mem);
      if applied.Panic? {
        Run2PanicStays(start, lines, i + 1);
        return Panic;
      }
      mem := applied.value;
      i := i + 1;
    }
    assert lines[..i] == lines;
    var total := SumValues(mem);
    return Ok(NatToString(total));
  }

  /** `solve_2`: `Mask2::from("").solve(...)`, starting from one zero mask. */
  method Solve2(lines: seq<string>) returns (r: Result<string>)
    ensures r.Ok? <==> Run2([Empty], lines).Ok?
    ensures r.Ok? ==> r.value == NatToString(MapSum(Run2([Empty], lines).value.mem))
  {
    var m := new Mask2();
    var cleared := m.ReplaceFrom("");
    assert SkipPrefix("") == [];
    r := Solve2From(m, lines);
  }
}
