/** Modular exponentiation, gcd, extended gcd and modular inverse
    (src/modulo_article.rs). Rust's `/` and `%` on signed integers truncate
    toward zero; `RustDiv` and `RustRem` model them, while Dafny's own `/`
    and `%` (Euclidean) are used for the mathematical statements. */
module ModuloArticle {
  import opened Util

  /** Rust's `a / b` on `i64`: the quotient truncated toward zero. */
  function RustDiv(a: int, b: int): int
    requires b != 0
  {
    var q := Abs(a) / Abs(b);
    if (a < 0) == (b < 0) then q else -q
  }

  /** Rust's `a % b` on `i64`: the remainder of the truncating division,
      which has the sign of `a` and is smaller than `b` in magnitude. */
  function RustRem(a: int, b: int): (r: int)
    requires b != 0
    ensures a == RustDiv(a, b) * b + r
    ensures Abs(r) < Abs(b)
    ensures r == 0 || (r < 0 <==> a < 0)
  {
    var r := Abs(a) % Abs(b);
    var q := Abs(a) / Abs(b);
    assert Abs(a) == q * Abs(b) + r;
    if a < 0 then
      assert a == -(q * Abs(b)) - r;
      -r
    else
      r
  }

  /** `d` divides `n` (zero divides only zero). */
  predicate Divides(d: int, n: int)
  {
    if d == 0 then n == 0 else n % d == 0
  }

  lemma ModMulCongruent(x: int, y: int, m: int)
    requires m > 0
    ensures (x * y) % m == ((x % m) * y) % m
  {
    var q := x / m;
    var xr := x % m;
    assert x == q * m + xr;
    assert x * y == xr * y + (q * y) * m;
    AddMultiple(xr * y, q * y, m);
  }
  lemma ModMulBoth(x: int, y: int, x': int, y': int, m: int)
    requires m > 0 && x % m == x' % m && y % m == y' % m
    ensures (x * y) % m == (x' * y') % m
  {
    ModMulCongruent(x, y, m);
    ModMulCongruent(x', y, m);
    ModMulCongruent(y, x', m);
    ModMulCongruent(y', x', m);
    assert x * y == y * x && x' * y == y * x' && x' * y' == y' * x';
  }
  lemma {:induction false} PowAdd(b: int, e1: nat, e2: nat)
    ensures Pow(b, e1 + e2) == Pow(b, e1) * Pow(b, e2)
    decreases e1
  {
    if e1 > 0 {
      PowAdd(b, e1 - 1, e2);
      assert Pow(b, e1 + e2) == b * Pow(b, e1 - 1 + e2);
      assert Pow(b, e1) * Pow(b, e2) == b * (Pow(b, e1 - 1) * Pow(b, e2));
    }
  }
  lemma PowHalves(b: int, e: nat)
    ensures Pow(b, e) == Pow(b, e / 2) * Pow(b, e / 2) * (if e % 2 == 1 then b else 1)
  {
    PowAdd(b, e / 2, e / 2);
    if e % 2 == 1 {
      PowAdd(b, e / 2 + e / 2, 1);
      assert Pow(b, 1) == b;
      assert e == e / 2 + e / 2 + 1;
    } else {
      assert e == e / 2 + e / 2;
    }
  }
  /** The source computes on `u64` (and `u32` exponents); the model agrees
      with it when the largest intermediate product, (m−1)²·b, fits. */
  predicate NoOverflow(b: nat, m: nat)
  {
    (if m > 1 then (m - 1) * (m - 1) else 1) * (if b > 0 then b else 1) < 0x1_0000_0000_0000_0000
  }
  lemma ExpStep(b: nat, e: nat, m: nat, half: int)
    requires m > 0 && e > 0
    ensures half % m == Pow(b, e / 2) % m ==>
              (if e % 2 == 1 then half * half * b else half * half) % m == Pow(b, e) % m
  {
    if half % m == Pow(b, e / 2) % m {
      ExpStepHolds(b, e, m, half);
    }
  }

  lemma ExpStepHolds(b: nat, e: nat, m: nat, half: int)
    requires m > 0 && e > 0 && half % m == Pow(b, e / 2) % m
    ensures (if e % 2 == 1 then half * half * b else half * half) % m == Pow(b, e) % m
  {
    var p := Pow(b, e / 2);
    PowHalves(b, e);
    ModMulBoth(half, half, p, p, m);
    if e % 2 == 1 {
      ModMulBoth(half * half, b, p * p, b, m);
    } else {
      assert p * p * 1 == p * p;
    }
  }
  lemma DividesMultiple(d: int, k: int)
    ensures Divides(d, k * d)
  {
    if d != 0 {
      DivModUnique(k * d, d, k, 0);
    }
  }

  lemma DividesWitness(d: int, n: int)
    requires Divides(d, n)
    ensures n == (if d == 0 then 0 else n / d) * d
  {
    if d != 0 {
      assert n == (n / d) * d + n % d;
    }
  }

  /** Divisibility is preserved by integer linear combinations. */
  lemma DividesLinear(d: int, a: int, b: int, x: int, y: int)
    requires Divides(d, a) && Divides(d, b)
    ensures Divides(d, x * a + y * b)
  {
    DividesWitness(d, a);
    DividesWitness(d, b);
    var ka := if d == 0 then 0 else a / d;
    var kb := if d == 0 then 0 else b / d;
    assert x * a + y * b == (x * ka + y * kb) * d by {
      assert a == ka * d && b == kb * d;
    }
    DividesMultiple(d, x * ka + y * kb);
  }

  // ---------------------------------------------------------------------
  // modular_exponentiation_1

  lemma MulMonotone(a: nat, b: nat, c: nat)
    requires a <= b
    ensures a * c <= b * c
  {
    assert b * c - a * c == (b - a) * c;
  }

  /** While the value kept is below m (or the 1 of `e == 0`), squaring it
      and multiplying by b stays within `u64` when (m−1)²·b does. */
  lemma NoOverflowStep(b: nat, m: nat, half: nat)
    ensures m > 0 && NoOverflow(b, m) && (half < m || half == 1) ==>
              half * half < 0x1_0000_0000_0000_0000 && half * half * b < 0x1_0000_0000_0000_0000
  {
    if m > 0 && NoOverflow(b, m) && (half < m || half == 1) {
      NoOverflowBound(b, m, half);
    }
  }

  lemma NoOverflowBound(b: nat, m: nat, half: nat)
    requires m > 0 && NoOverflow(b, m) && (half < m || half == 1)
    ensures half * half < 0x1_0000_0000_0000_0000
    ensures half * half * b < 0x1_0000_0000_0000_0000
  {
    var top: nat := if m > 1 then m - 1 else 1;
    var factor: nat := if b > 0 then b else 1;
    assert half <= top;
    MulMonotone(half, top, half);
    MulMonotone(half, top, top);
    MulMonotone(1, factor, top * top);
    MulMonotone(b, factor, half * half);
    MulMonotone(half * half, top * top, factor);
  }

  /** One level of `modular_exponentiation_1` for `e > 0`, given the value
      `half` of the call on e / 2: square it, multiply by b when e is odd,
      reduce modulo m. A `u64` overflow or `% 0` panics. */
  function ExpLevel(b: nat, e: nat, m: nat, half: nat): (r: Result<nat>)
    requires e > 0
    ensures m == 0 ==> r.Panic?
    ensures m > 0 && NoOverflow(b, m) && (half < m || half == 1) ==> r.Ok?
    ensures r.Ok? ==> m > 0 && r.value < m
    ensures r.Ok? && half % m == Pow(b, e / 2) % m ==> r.value == Pow(b, e) % m
  {
    NoOverflowStep(b, m, half);
    var squared := half * half;
    if squared >= 0x1_0000_0000_0000_0000 then Panic
    else
      var product := if e % 2 == 1 then squared * b else squared;
      if product >= 0x1_0000_0000_0000_0000 || m == 0 then Panic
      else
        ExpStep(b, e, m, half);
        Ok(product % m)
  }

  /** `modular_exponentiation_1(b, e, m)`: squaring by halving the exponent.
      For `e > 0` it is bᵉ mod m; for `e == 0` it is 1, not reduced by m.
      It panics, as a debug build does, when `% m` divides by zero or a
      `u64` product overflows; when (m−1)²·b fits in a `u64` no product
      overflows. */
  function ModularExponentiation1(b: nat, e: nat, m: nat): (r: Result<nat>)
    requires e < 0x1_0000_0000 && b < 0x1_0000_0000_0000_0000 && m < 0x1_0000_0000_0000_0000
    ensures e > 0 && m == 0 ==> r.Panic?
    ensures (e > 0 ==> m > 0) && NoOverflow(b, m) ==> r.Ok?
    ensures r.Ok? && e == 0 ==> r.value == 1
    ensures r.Ok? && e > 0 ==> r.value == Pow(b, e) % m && r.value < m
    decreases e
  {
    if e == 0 then Ok(1)
    else
      match ModularExponentiation1(b, e / 2, m)
      case Panic => Panic
      case Ok(half) =>
        HalfRemainder(b, e, m, half);
        ExpLevel(b, e, m, half)
  }

  /** The value of the call on e / 2, read modulo m. */
  lemma HalfRemainder(b: nat, e: nat, m: nat, half: nat)
    requires e > 0 && (e / 2 == 0 ==> half == 1) && (e / 2 > 0 && m > 0 ==> half == Pow(b, e / 2) % m)
    ensures m > 0 ==> half % m == Pow(b, e / 2) % m
    ensures m > 0 ==> half < m || half == 1
  {
    if m > 0 && e / 2 > 0 {
      DivModUnique(half, m, 0, half);
    }
  }

  // ---------------------------------------------------------------------
  // gcd and egcd

  lemma DividesSelf(a: int)
    ensures Divides(a, a) && Divides(a, 0) && Divides(Abs(a), a) && Divides(Abs(a), 0)
  {
    DividesMultiple(a, 1);
    DividesMultiple(a, 0);
    DividesMultiple(Abs(a), if a < 0 then -1 else 1);
    DividesMultiple(Abs(a), 0);
  }

  /** One step of Euclid's algorithm keeps the common divisors. */
  lemma DividesEuclidStep(g: int, a: int, b: int)
    requires b != 0 && Divides(g, b) && Divides(g, RustRem(a, b))
    ensures Divides(g, a)
  {
    DividesLinear(g, b, RustRem(a, b), RustDiv(a, b), 1);
    assert RustDiv(a, b) * b + 1 * RustRem(a, b) == a;
  }

  /** `gcd(a, b)`: Euclid's recursion on the truncating remainder. It ends
      because the magnitude of the second argument strictly decreases. Its
      result divides both arguments (and may be negative). */
  function Gcd(a: int, b: int): (g: int)
    ensures Divides(g, a) && Divides(g, b)
    decreases Abs(b)
  {
    if b == 0 then
      DividesSelf(a);
      a
    else
      var g := Gcd(b, RustRem(a, b));
      DividesEuclidStep(g, a, b);
      g
  }

  lemma BezoutStep(a: int, b: int, q: int, rem: int, g: int, x: int, y: int)
    requires a == q * b + rem && x * b + y * rem == g
    ensures y * a + (x - q * y) * b == g
  {
    assert y * a == y * (q * b) + y * rem;
    assert (x - q * y) * b == x * b - (q * y) * b;
    assert y * (q * b) == (q * y) * b;
  }

  /** `egcd(a, b) = (g, x, y)`: Bézout coefficients with x·a + y·b == g,
      where g ≥ 0 divides both a and b. The base case is (|a|, sign a, 0). */
  function EGcd(a: int, b: int): (r: (int, int, int))
    ensures r.1 * a + r.2 * b == r.0
    ensures r.0 >= 0 && Divides(r.0, a) && Divides(r.0, b)
    ensures b == 0 ==> r == (Abs(a), if a < 0 then -1 else 1, 0)
    decreases Abs(b)
  {
    if b == 0 then
      DividesSelf(a);
      (Abs(a), if a < 0 then -1 else 1, 0)
    else
      var rest := EGcd(b, RustRem(a, b));
      var q := RustDiv(a, b);
      BezoutStep(a, b, q, RustRem(a, b), rest.0, rest.1, rest.2);
      DividesEuclidStep(rest.0, a, b);
      (rest.0, rest.2, rest.1 - q * rest.2)
  }

  /** Every common divisor of a and b divides egcd's g, so g is the
      greatest common divisor. */
  lemma EGcdGreatest(a: int, b: int, d: int)
    requires Divides(d, a) && Divides(d, b)
    ensures Divides(d, EGcd(a, b).0)
  {
    var r := EGcd(a, b);
    DividesLinear(d, a, b, r.1, r.2);
  }

  /** `gcd` and `egcd` follow the same recursion: gcd agrees with egcd's g
      up to sign. */
  lemma {:induction false} GcdIsEGcd(a: int, b: int)
    ensures Abs(Gcd(a, b)) == EGcd(a, b).0
    decreases Abs(b)
  {
    if b != 0 {
      GcdIsEGcd(b, RustRem(a, b));
    }
  }

  // ---------------------------------------------------------------------
  // modular_inverse

  /** `modular_inverse(a, m)`: the y of egcd(m, a) brought into [0, m).
      It panics (`assert_eq!(g, 1)`) when m and a are not coprime, and on a
      zero modulus. For m > 0 the result is the inverse of a modulo m. */
  function ModularInverse(a: int, m: int): (r: Result<int>)
    ensures r.Ok? <==> EGcd(m, a).0 == 1 && m != 0
    ensures r.Ok? && m > 0 ==> 0 <= r.value < m && (a * r.value) % m == 1 % m
  {
    var e := EGcd(m, a);
    if e.0 != 1 || m == 0 then Panic
    else
      var inv := RustRem(RustRem(e.2, m) + m, m);
      if m > 0 then
        InverseProperty(a, m, e.1, e.2);
        Ok(inv)
      else
        Ok(inv)
  }

  lemma InverseProperty(a: int, m: int, x: int, y: int)
    requires m > 0 && x * m + y * a == 1
    ensures var inv := RustRem(RustRem(y, m) + m, m);
      0 <= inv < m && (a * inv) % m == 1 % m
  {
    var inv := RustRem(RustRem(y, m) + m, m);
    ShiftedRemainder(y, m);
    ModMulBoth(a, inv, a, y, m);
    assert a * y == 1 + (-x) * m;
    AddMultiple(1, -x, m);
  }

  /** Adding `m` to a truncated remainder and taking the remainder again
      gives the Euclidean remainder. */
  lemma ShiftedRemainder(y: int, m: int)
    requires m > 0
    ensures var inv := RustRem(RustRem(y, m) + m, m);
      0 <= inv < m && inv % m == y % m
  {
    var t := RustRem(y, m) + m;
    var inv := RustRem(t, m);
    assert 0 < t;
    assert inv == t % m;
    assert t == y + (1 - RustDiv(y, m)) * m;
    AddMultiple(y, 1 - RustDiv(y, m), m);
    DivModUnique(inv, m, 0, inv);
  }

  // ---------------------------------------------------------------------
  // The unit tests at src/modulo_article.rs:40-67

  lemma ModularExponentiationExamples()
    ensures ModularExponentiation1(2, 10, 5) == Ok(Pow(2, 10) % 5)
    ensures ModularExponentiation1(3, 8, 7) == Ok(Pow(3, 8) % 7)
    ensures ModularExponentiation1(5, 5, 9) == Ok(Pow(5, 5) % 9)
  {
  }

  lemma EGcdUnfold(a: int, b: int)
    requires b != 0
    ensures EGcd(a, b).0 == EGcd(b, RustRem(a, b)).0
  {
  }

  lemma EGcdExamples()
    ensures EGcd(20, 12).0 == 4 && EGcd(25, 15).0 == 5
    ensures EGcd(40, 35).0 == 5 && EGcd(220, 121).0 == 11
  {
    EGcdUnfold(20, 12); EGcdUnfold(12, 8); EGcdUnfold(8, 4);
    EGcdUnfold(25, 15); EGcdUnfold(15, 10); EGcdUnfold(10, 5);
    EGcdUnfold(40, 35); EGcdUnfold(35, 5);
    EGcdUnfold(220, 121); EGcdUnfold(121, 99); EGcdUnfold(99, 22); EGcdUnfold(22, 11);
  }

  /** One full step of `egcd`, with the quotient and remainder named. */
  lemma EGcdStep(a: int, b: int, q: int, rem: int)
    requires b != 0 && RustDiv(a, b) == q && RustRem(a, b) == rem
    ensures var rest := EGcd(b, rem);
            EGcd(a, b) == (rest.0, rest.2, rest.1 - q * rest.2)
  {
  }

  lemma ModularInverseExamples()
    ensures ModularInverse(3, 7).Ok? && (3 * ModularInverse(3, 7).value) % 7 == 1
    ensures ModularInverse(4, 13).Ok? && (4 * ModularInverse(4, 13).value) % 13 == 1
    ensures ModularInverse(7, 10).Ok? && (7 * ModularInverse(7, 10).value) % 10 == 1
  {
    InverseOf3Mod7();
    InverseOf4Mod13();
    InverseOf7Mod10();
  }

  lemma EGcdOf3And1()
    ensures EGcd(3, 1) == (1, 0, 1)
  {
    EGcdStep(3, 1, 3, 0);
    assert EGcd(1, 0) == (1, 1, 0);
  }

  lemma EGcdOf4And1()
    ensures EGcd(4, 1) == (1, 0, 1)
  {
    EGcdStep(4, 1, 4, 0);
    assert EGcd(1, 0) == (1, 1, 0);
  }

  lemma EGcdOf7And3()
    ensures EGcd(7, 3) == (1, 1, -2)
  {
    EGcdStep(7, 3, 2, 1);
    EGcdOf3And1();
  }

  lemma EGcdOf13And4()
    ensures EGcd(13, 4) == (1, 1, -3)
  {
    EGcdStep(13, 4, 3, 1);
    EGcdOf4And1();
  }

  lemma EGcdOf10And7()
    ensures EGcd(10, 7) == (1, -2, 3)
  {
    EGcdStep(10, 7, 1, 3);
    EGcdOf7And3();
  }

  lemma InverseOf3Mod7()
    ensures ModularInverse(3, 7) == Ok(5)
  {
    EGcdOf7And3();
    assert RustRem(-2, 7) == -2;
    assert RustRem(5, 7) == 5;
  }

  lemma InverseOf4Mod13()
    ensures ModularInverse(4, 13) == Ok(10)
  {
    EGcdOf13And4();
    assert RustRem(-3, 13) == -3;
    assert RustRem(10, 13) == 10;
  }

  lemma InverseOf7Mod10()
    ensures ModularInverse(7, 10) == Ok(3)
  {
    EGcdOf10And7();
    assert RustRem(3, 10) == 3;
    assert RustRem(13, 10) == 3;
  }
}
