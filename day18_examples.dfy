/** Day 18: the expressions of the unit tests `test_eval_1` and
    `test_eval_2` (src/day18.rs:74-109). Each is written in the grammar of
    module Day18; its notation and its values in either puzzle are worked
    out on the grammar, and `EvaluatesExpr` carries the values over to the
    evaluator reading the notation. */
module Day18Examples {
  import opened Util
  import opened Day18

  /** An expression whose notation is `s` and whose value is `v` evaluates
      to `v`. */
  lemma ExampleOf(e: Expr, s: string, puzzle: Puzzle, v: nat)
    requires FormatExpr(e) == s && ExprValue(e, puzzle) == v
    ensures ValueOf(EvalExpr(s, puzzle)) == Ok(v)
  {
    EvaluatesExpr(e, puzzle);
  }

  // ---------------------------------------------------------------------
  // The three expressions both tests share

  /** The expression "1 + 2 * 3 + 4 * 5 + 6". */
  function Flat(): Expr
  {
    Expr(Digit(1), Cons(Plus, Digit(2), Cons(Times, Digit(3),
      Cons(Plus, Digit(4), Cons(Times, Digit(5), Cons(Plus, Digit(6), Nil))))))
  }

  lemma FlatFormat()
    ensures FormatExpr(Flat()) == "1 + 2 * 3 + 4 * 5 + 6"
  {
  }

  lemma FlatValues()
    ensures ExprValue(Flat(), One) == 71 && ExprValue(Flat(), Two) == 231
  {
  }

  /** "1 + 2 * 3 + 4 * 5 + 6" is 71 in the first puzzle and 231 in the
      second. */
  lemma FlatExample()
    ensures ValueOf(EvalExpr("1 + 2 * 3 + 4 * 5 + 6", One)) == Ok(71)
    ensures ValueOf(EvalExpr("1 + 2 * 3 + 4 * 5 + 6", Two)) == Ok(231)
  {
    FlatFormat();
    FlatValues();
    ExampleOf(Flat(), "1 + 2 * 3 + 4 * 5 + 6", One, 71);
    ExampleOf(Flat(), "1 + 2 * 3 + 4 * 5 + 6", Two, 231);
  }

  /** The expression "1 + (2 * 3) + (4 * (5 + 6))". */
  function Grouped(): Expr
  {
    var inner := Expr(Digit(5), Cons(Plus, Digit(6), Nil));
    var left := Expr(Digit(2), Cons(Times, Digit(3), Nil));
    var right := Expr(Digit(4), Cons(Times, Group(inner), Nil));
    Expr(Digit(1), Cons(Plus, Group(left), Cons(Plus, Group(right), Nil)))
  }

  lemma GroupedFormat()
    ensures FormatExpr(Grouped()) == "1 + (2 * 3) + (4 * (5 + 6))"
  {
  }

  lemma GroupedValues()
    ensures ExprValue(Grouped(), One) == 51 && ExprValue(Grouped(), Two) == 51
  {
  }

  /** "1 + (2 * 3) + (4 * (5 + 6))" is 51 in both puzzles. */
  lemma GroupedExample()
    ensures ValueOf(EvalExpr("1 + (2 * 3) + (4 * (5 + 6))", One)) == Ok(51)
    ensures ValueOf(EvalExpr("1 + (2 * 3) + (4 * (5 + 6))", Two)) == Ok(51)
  {
    GroupedFormat();
    GroupedValues();
    ExampleOf(Grouped(), "1 + (2 * 3) + (4 * (5 + 6))", One, 51);
    ExampleOf(Grouped(), "1 + (2 * 3) + (4 * (5 + 6))", Two, 51);
  }

  /** The expression "2 * 3 + (4 * 5)". */
  function Mixed(): Expr
  {
    Expr(Digit(2), Cons(Times, Digit(3), Cons(Plus, Group(Expr(Digit(4), Cons(Times, Digit(5), Nil))), Nil)))
  }

  lemma MixedFormat()
    ensures FormatExpr(Mixed()) == "2 * 3 + (4 * 5)"
  {
  }

  lemma MixedValues()
    ensures ExprValue(Mixed(), One) == 26 && ExprValue(Mixed(), Two) == 46
  {
  }

  /** "2 * 3 + (4 * 5)" is 26 in the first puzzle and 46 in the second. */
  lemma MixedExample()
    ensures ValueOf(EvalExpr("2 * 3 + (4 * 5)", One)) == Ok(26)
    ensures ValueOf(EvalExpr("2 * 3 + (4 * 5)", Two)) == Ok(46)
  {
    MixedFormat();
    MixedValues();
    ExampleOf(Mixed(), "2 * 3 + (4 * 5)", One, 26);
    ExampleOf(Mixed(), "2 * 3 + (4 * 5)", Two, 46);
  }

  // ---------------------------------------------------------------------
  // The other expressions of `test_eval_1`, which `test_eval_2` evaluates
  // too

  /** The expression "5 + (8 * 3 + 9 + 3 * 4 * 3)". */
  function Nested(): Expr
  {
    var inner := Expr(Digit(8), Cons(Times, Digit(3), Cons(Plus, Digit(9),
                   Cons(Plus, Digit(3), Cons(Times, Digit(4), Cons(Times, Digit(3), Nil))))));
    Expr(Digit(5), Cons(Plus, Group(inner), Nil))
  }

  lemma NestedFormat()
    ensures FormatExpr(Nested()) == "5 + (8 * 3 + 9 + 3 * 4 * 3)"
  {
  }

  lemma NestedValues()
    ensures ExprValue(Nested(), One) == 437 && ExprValue(Nested(), Two) == 1445
  {
  }

  /** "5 + (8 * 3 + 9 + 3 * 4 * 3)" is 437 in the first puzzle and 1445 in
      the second. */
  lemma NestedExample()
    ensures ValueOf(EvalExpr("5 + (8 * 3 + 9 + 3 * 4 * 3)", One)) == Ok(437)
    ensures ValueOf(EvalExpr("5 + (8 * 3 + 9 + 3 * 4 * 3)", Two)) == Ok(1445)
  {
    NestedFormat();
    NestedValues();
    ExampleOf(Nested(), "5 + (8 * 3 + 9 + 3 * 4 * 3)", One, 437);
    ExampleOf(Nested(), "5 + (8 * 3 + 9 + 3 * 4 * 3)", Two, 1445);
  }

  /** The expression "7 * 3 * 3 + 9 * 3 + (8 + 6 * 4)". */
  function Chain(): Expr
  {
    var last := Expr(Digit(8), Cons(Plus, Digit(6), Cons(Times, Digit(4), Nil)));
    Expr(Digit(7), Cons(Times, Digit(3), Cons(Times, Digit(3), Cons(Plus, Digit(9),
      Cons(Times, Digit(3), Cons(Plus, Group(last), Nil))))))
  }

  /** The expression "5 * 9 * (7 * 3 * 3 + 9 * 3 + (8 + 6 * 4))". */
  function Deep(): Expr
  {
    Expr(Digit(5), Cons(Times, Digit(9), Cons(Times, Group(Chain()), Nil)))
  }

  lemma ChainFormat()
    ensures FormatExpr(Chain()) == "7 * 3 * 3 + 9 * 3 + (8 + 6 * 4)"
  {
  }

  lemma DeepFormat()
    ensures FormatExpr(Deep()) == "5 * 9 * (7 * 3 * 3 + 9 * 3 + (8 + 6 * 4))"
  {
    ChainFormat();
  }

  lemma ChainValues()
    ensures ExprValue(Chain(), One) == 272 && ExprValue(Chain(), Two) == 14868
  {
  }

  lemma DeepValues()
    ensures ExprValue(Deep(), One) == 12240 && ExprValue(Deep(), Two) == 669060
  {
    ChainValues();
  }

  /** "5 * 9 * (7 * 3 * 3 + 9 * 3 + (8 + 6 * 4))" is 12240 in the first
      puzzle and 669060 in the second. */
  lemma DeepExample()
    ensures ValueOf(EvalExpr("5 * 9 * (7 * 3 * 3 + 9 * 3 + (8 + 6 * 4))", One)) == Ok(12240)
    ensures ValueOf(EvalExpr("5 * 9 * (7 * 3 * 3 + 9 * 3 + (8 + 6 * 4))", Two)) == Ok(669060)
  {
    DeepFormat();
    DeepValues();
    ExampleOf(Deep(), "5 * 9 * (7 * 3 * 3 + 9 * 3 + (8 + 6 * 4))", One, 12240);
    ExampleOf(Deep(), "5 * 9 * (7 * 3 * 3 + 9 * 3 + (8 + 6 * 4))", Two, 669060);
  }

  /** The expression "2 + 4 * 9". */
  function LeftFactor(): Expr
  {
    Expr(Digit(2), Cons(Plus, Digit(4), Cons(Times, Digit(9), Nil)))
  }

  /** The expression "6 + 9 * 8 + 6". */
  function RightFactor(): Expr
  {
    Expr(Digit(6), Cons(Plus, Digit(9), Cons(Times, Digit(8), Cons(Plus, Digit(6), Nil))))
  }

  /** The expression "(2 + 4 * 9) * (6 + 9 * 8 + 6) + 6". */
  function Product(): Expr
  {
    Expr(Group(LeftFactor()), Cons(Times, Group(RightFactor()), Cons(Plus, Digit(6), Nil)))
  }

  /** The product in parentheses, followed by `terms`. */
  function ProductThen(terms: Terms): Expr
  {
    Expr(Group(Product()), terms)
  }

  lemma FactorsFormat()
    ensures FormatExpr(LeftFactor()) == "2 + 4 * 9"
    ensures FormatExpr(RightFactor()) == "6 + 9 * 8 + 6"
  {
  }

  lemma ProductFormat()
    ensures FormatExpr(Product()) == "(2 + 4 * 9) * (6 + 9 * 8 + 6) + 6"
  {
  }

  lemma ProductValues()
    ensures ExprValue(Product(), One) == 6810 && ExprValue(Product(), Two) == 11664
  {
  }

  /** The terms " + 2", " + 2 + 4" and " + 2 + 4 * 2". */
  function PlusTwo(): Terms
  {
    Cons(Plus, Digit(2), Nil)
  }

  function PlusTwoFour(): Terms
  {
    Cons(Plus, Digit(2), Cons(Plus, Digit(4), Nil))
  }

  function PlusTwoFourTimesTwo(): Terms
  {
    Cons(Plus, Digit(2), Cons(Plus, Digit(4), Cons(Times, Digit(2), Nil)))
  }

  /** The notation of the parenthesised product followed by `terms`. */
  lemma ProductThenFormat(terms: Terms)
    ensures FormatExpr(ProductThen(terms)) == FormatExpr(ProductThen(Nil)) + FormatTerms(terms)
  {
    var group := FormatOperand(Group(Product()));
    assert FormatExpr(ProductThen(Nil)) == group + [];
    assert group + [] == group;
  }

  lemma GroupedProductFormat()
    ensures FormatExpr(ProductThen(Nil)) == "((2 + 4 * 9) * (6 + 9 * 8 + 6) + 6)"
  {
    ProductFormat();
  }

  lemma TimesTwoFormat()
    ensures FormatExpr(ProductThen(PlusTwoFourTimesTwo())) == "((2 + 4 * 9) * (6 + 9 * 8 + 6) + 6) + 2 + 4 * 2"
  {
    GroupedProductFormat();
    ProductThenFormat(PlusTwoFourTimesTwo());
    assert FormatTerms(PlusTwoFourTimesTwo()) == " + 2 + 4 * 2";
  }

  lemma ProductThenValues()
    ensures ExprValue(ProductThen(PlusTwoFourTimesTwo()), One) == 13632
    ensures ExprValue(ProductThen(PlusTwoFourTimesTwo()), Two) == 23340
  {
    ProductValues();
  }

  /** "((2 + 4 * 9) * (6 + 9 * 8 + 6) + 6) + 2 + 4 * 2" is 13632 in the
      first puzzle and 23340 in the second. */
  lemma ProductThenExample()
    ensures ValueOf(EvalExpr("((2 + 4 * 9) * (6 + 9 * 8 + 6) + 6) + 2 + 4 * 2", One)) == Ok(13632)
    ensures ValueOf(EvalExpr("((2 + 4 * 9) * (6 + 9 * 8 + 6) + 6) + 2 + 4 * 2", Two)) == Ok(23340)
  {
    TimesTwoFormat();
    ProductThenValues();
    var e := ProductThen(PlusTwoFourTimesTwo());
    ExampleOf(e, "((2 + 4 * 9) * (6 + 9 * 8 + 6) + 6) + 2 + 4 * 2", One, 13632);
    ExampleOf(e, "((2 + 4 * 9) * (6 + 9 * 8 + 6) + 6) + 2 + 4 * 2", Two, 23340);
  }

  // ---------------------------------------------------------------------
  // The other expressions of `test_eval_2`

  lemma FactorsValues()
    ensures ExprValue(LeftFactor(), Two) == 54 && ExprValue(RightFactor(), Two) == 210
  {
  }

  /** In the second puzzle "2 + 4 * 9" is 54, "6 + 9 * 8 + 6" is 210, and
      their product plus 6 is 11664 with or without parentheses around it. */
  lemma ProductExamples()
    ensures ValueOf(EvalExpr("2 + 4 * 9", Two)) == Ok(54)
    ensures ValueOf(EvalExpr("6 + 9 * 8 + 6", Two)) == Ok(210)
    ensures ValueOf(EvalExpr("(2 + 4 * 9) * (6 + 9 * 8 + 6) + 6", Two)) == Ok(11664)
    ensures ValueOf(EvalExpr("((2 + 4 * 9) * (6 + 9 * 8 + 6) + 6)", Two)) == Ok(11664)
  {
    FactorsFormat();
    FactorsValues();
    ExampleOf(LeftFactor(), "2 + 4 * 9", Two, 54);
    ExampleOf(RightFactor(), "6 + 9 * 8 + 6", Two, 210);
    ProductFormat();
    ProductValues();
    ExampleOf(Product(), "(2 + 4 * 9) * (6 + 9 * 8 + 6) + 6", Two, 11664);
    GroupedProductFormat();
    ExampleOf(ProductThen(Nil), "((2 + 4 * 9) * (6 + 9 * 8 + 6) + 6)", Two, 11664);
  }

  lemma PlusTwoFormat()
    ensures FormatExpr(ProductThen(PlusTwo())) == "((2 + 4 * 9) * (6 + 9 * 8 + 6) + 6) + 2"
  {
    GroupedProductFormat();
    ProductThenFormat(PlusTwo());
    assert FormatTerms(PlusTwo()) == " + 2";
  }

  lemma PlusTwoFourFormat()
    ensures FormatExpr(ProductThen(PlusTwoFour())) == "((2 + 4 * 9) * (6 + 9 * 8 + 6) + 6) + 2 + 4"
  {
    GroupedProductFormat();
    ProductThenFormat(PlusTwoFour());
    assert FormatTerms(PlusTwoFour()) == " + 2 + 4";
  }

  lemma ProductPlusValues()
    ensures ExprValue(ProductThen(PlusTwo()), Two) == 11666
    ensures ExprValue(ProductThen(PlusTwoFour()), Two) == 11670
  {
    ProductValues();
  }

  /** In the second puzzle the parenthesised product followed by "+ 2" is
      11666, and followed by "+ 2 + 4" is 11670. */
  lemma ProductPlusExamples()
    ensures ValueOf(EvalExpr("((2 + 4 * 9) * (6 + 9 * 8 + 6) + 6) + 2", Two)) == Ok(11666)
    ensures ValueOf(EvalExpr("((2 + 4 * 9) * (6 + 9 * 8 + 6) + 6) + 2 + 4", Two)) == Ok(11670)
  {
    PlusTwoFormat();
    PlusTwoFourFormat();
    ProductPlusValues();
    ExampleOf(ProductThen(PlusTwo()), "((2 + 4 * 9) * (6 + 9 * 8 + 6) + 6) + 2", Two, 11666);
    ExampleOf(ProductThen(PlusTwoFour()), "((2 + 4 * 9) * (6 + 9 * 8 + 6) + 6) + 2 + 4", Two, 11670);
  }

  /** The expressions "5 * 2 + (3 * 2)" and "5 * 2 + 6". */
  function Doubled(): Expr
  {
    Expr(Digit(5), Cons(Times, Digit(2), Cons(Plus, Group(Expr(Digit(3), Cons(Times, Digit(2), Nil))), Nil)))
  }

  function Tripled(): Expr
  {
    Expr(Digit(5), Cons(Times, Digit(2), Cons(Plus, Digit(6), Nil)))
  }

  lemma DoubledFormat()
    ensures FormatExpr(Expr(Group(Doubled()), Nil)) == "(5 * 2 + (3 * 2))"
  {
  }

  lemma DoubledPlusFormat()
    ensures FormatExpr(Expr(Group(Doubled()), PlusTwo())) == "(5 * 2 + (3 * 2)) + 2"
  {
    DoubledFormat();
    assert FormatExpr(Expr(Group(Doubled()), PlusTwo())) == FormatExpr(Expr(Group(Doubled()), Nil)) + " + 2";
  }

  lemma TripledPlusFormat()
    ensures FormatExpr(Expr(Group(Tripled()), PlusTwo())) == "(5 * 2 + 6) + 2"
  {
  }

  lemma DoubledValues()
    ensures ExprValue(Expr(Group(Doubled()), PlusTwo()), Two) == 42
    ensures ExprValue(Expr(Group(Tripled()), PlusTwo()), Two) == 42
    ensures ExprValue(Expr(Group(Doubled()), Nil), Two) == 40
  {
  }

  /** In the second puzzle "(5 * 2 + (3 * 2)) + 2" and "(5 * 2 + 6) + 2"
      are 42, and "(5 * 2 + (3 * 2))" is 40. */
  lemma DoubledExamples()
    ensures ValueOf(EvalExpr("(5 * 2 + (3 * 2)) + 2", Two)) == Ok(42)
    ensures ValueOf(EvalExpr("(5 * 2 + 6) + 2", Two)) == Ok(42)
    ensures ValueOf(EvalExpr("(5 * 2 + (3 * 2))", Two)) == Ok(40)
  {
    DoubledFormat();
    DoubledPlusFormat();
    TripledPlusFormat();
    DoubledValues();
    ExampleOf(Expr(Group(Doubled()), PlusTwo()), "(5 * 2 + (3 * 2)) + 2", Two, 42);
    ExampleOf(Expr(Group(Tripled()), PlusTwo()), "(5 * 2 + 6) + 2", Two, 42);
    ExampleOf(Expr(Group(Doubled()), Nil), "(5 * 2 + (3 * 2))", Two, 40);
  }
}
