/** Day 21: allergens (src/day21.rs). Each food line lists ingredients
    and some of the allergens they contain. `AllergenCandidates` keeps,
    for every allergen, the ingredients that could hold it (those in every
    food listing the allergen), then resolves allergens one by one: an
    allergen with a single candidate takes it and the ingredient is struck
    from every other allergen's candidates. */
module Day21 {
  import opened Util

  // ---------------------------------------------------------------------
  // Key order of `BTreeMap<String, _>` and `BTreeSet<String>`

  /** Lexicographic order on strings, character by character. */
  predicate StrLe(a: string, b: string)
  {
    a == [] || (b != [] && (a[0] < b[0] || (a[0] == b[0] && StrLe(a[1..], b[1..]))))
  }

  lemma {:induction false} StrTotal(a: string, b: string)
    ensures StrLe(a, b) || StrLe(b, a)
  {
    if a != [] && b != [] && a[0] == b[0] {
      StrTotal(a[1..], b[1..]);
    }
  }

  lemma {:induction false} StrAntisymmetric(a: string, b: string)
    requires StrLe(a, b) && StrLe(b, a)
    ensures a == b
  {
    if a != [] {
      StrAntisymmetric(a[1..], b[1..]);
      assert a == [a[0]] + a[1..] && b == [b[0]] + b[1..];
    }
  }

  lemma {:induction false} StrTransitive(a: string, b: string, c: string)
    requires StrLe(a, b) && StrLe(b, c)
    ensures StrLe(a, c)
  {
    if a != [] && a[0] == b[0] && b[0] == c[0] {
      StrTransitive(a[1..], b[1..], c[1..]);
    }
  }

  lemma StrAntisymmetricAll()
    ensures forall a, b :: StrLe(a, b) && StrLe(b, a) ==> a == b
  {
    forall a, b | StrLe(a, b) && StrLe(b, a)
      ensures a == b
    {
      StrAntisymmetric(a, b);
    }
  }

  /** `k` is the least member of `s`. */
  predicate IsLeast(k: string, s: set<string>)
  {
    k in s && forall q :: q in s ==> StrLe(k, q)
  }

  /** A finite non-empty set of strings has a least member. */
  lemma {:induction false} LeastExists(s: set<string>)
    requires s != {}
    ensures exists k :: IsLeast(k, s)
    decreases |s|
  {
    var x :| x in s;
    if s == {x} {
      StrTotal(x, x);
      assert IsLeast(x, s);
    } else {
      var rest := s - {x};
      LeastExists(rest);
      var lo :| IsLeast(lo, rest);
      LeastAdd(x, lo, rest);
      assert rest + {x} == s;
    }
  }

  /** The least member after adding one. */
  lemma LeastAdd(x: string, lo: string, rest: set<string>)
    requires IsLeast(lo, rest)
    ensures IsLeast(x, rest + {x}) || IsLeast(lo, rest + {x})
  {
    StrTotal(x, lo);
    StrTotal(x, x);
    if StrLe(x, lo) {
      forall q | q in rest
        ensures StrLe(x, q)
      {
        StrTransitive(x, lo, q);
      }
    }
  }

  /** The least member of a non-empty set: `first()`. */
  function Least(s: set<string>): (k: string)
    requires s != {}
    ensures k in s && forall q :: q in s ==> StrLe(k, q)
  {
    LeastExists(s);
    StrAntisymmetricAll();
    var k :| IsLeast(k, s);
    k
  }

  /** The members of a set in increasing order, as a B-tree iterates them. */
  function Ordered(s: set<string>): (r: seq<string>)
    ensures |r| == |s|
    ensures forall i :: 0 <= i < |r| ==> r[i] in s
    ensures forall x :: x in s ==> x in r
    ensures forall i, j :: 0 <= i < j < |r| ==> StrLe(r[i], r[j]) && r[i] != r[j]
    decreases |s|
  {
    if s == {} then []
    else
      var k := Least(s);
      var rest := Ordered(s - {k});
      OrderedCons(s, k, rest);
      [k] + rest
  }

  /** The least member followed by the ordered rest is ordered. */
  lemma OrderedCons(s: set<string>, k: string, rest: seq<string>)
    requires k in s && forall q :: q in s ==> StrLe(k, q)
    requires |rest| == |s - {k}|
    requires forall i :: 0 <= i < |rest| ==> rest[i] in s - {k}
    requires forall x :: x in s - {k} ==> x in rest
    requires forall i, j :: 0 <= i < j < |rest| ==> StrLe(rest[i], rest[j]) && rest[i] != rest[j]
    ensures var r := [k] + rest;
            |r| == |s| &&
            (forall i :: 0 <= i < |r| ==> r[i] in s) &&
            (forall x :: x in s ==> x in r) &&
            (forall i, j :: 0 <= i < j < |r| ==> StrLe(r[i], r[j]) && r[i] != r[j])
  {
    var r := [k] + rest;
    assert forall i :: 1 <= i < |r| ==> r[i] == rest[i - 1];
    forall x | x in s
      ensures x in r
    {
      if x != k {
        assert x in rest;
      }
    }
  }

  /** A set of one element is that element's singleton. */
  lemma Singleton(s: set<string>, x: string)
    requires |s| == 1 && x in s
    ensures s == {x}
  {
    assert |s - {x}| == 0;
  }

  // ---------------------------------------------------------------------
  // Candidates

  /** `allergen2candidates`. */
  type Candidates = map<string, set<string>>

  /** The ingredients of a row, as a set. */
  function RowSet(row: seq<string>): (r: set<string>)
    ensures forall x :: x in r <==> x in row
  {
    set i | 0 <= i < |row| :: row[i]
  }

  /** The map after `add(allergen, row)`: the row's ingredients on the
      allergen's first occurrence, their intersection with the kept set
      afterwards. */
  function AddRow(m: Candidates, allergen: string, row: seq<string>): (r: Candidates)
    ensures allergen in r
    ensures forall x :: x in r[allergen] <==> x in row && (allergen in m ==> x in m[allergen])
  {
    m[allergen := if allergen in m then m[allergen] * RowSet(row) else RowSet(row)]
  }

  /** The map after `purge_candidate(candidate)`. */
  function Purged(m: Candidates, candidate: string): (r: Candidates)
    ensures r.Keys == m.Keys
  {
    map a | a in m :: m[a] - {candidate}
  }

  /** What `single_candidate` returns: the first allergen, in key order,
      with exactly one candidate, together with that candidate. It panics
      when no allergen has a single candidate. */
  function FirstSingle(m: Candidates): (r: Result<(string, string)>)
    ensures r.Panic? <==> forall a :: a in m ==> |m[a]| != 1
    ensures r.Ok? ==> r.value.0 in m && m[r.value.0] == {r.value.1}
    ensures r.Ok? ==> forall a :: a in m && |m[a]| == 1 ==> StrLe(r.value.0, a)
  {
    var singles := set a | a in m && |m[a]| == 1;
    assert forall a :: a in m && |m[a]| == 1 ==> a in singles;
    if singles == {} then Panic
    else
      var a := Least(singles);
      var i := Least(m[a]);
      Singleton(m[a], i);
      Ok((a, i))
  }

  /** What `reduce` leaves in `allergen2ingredient`: resolve the first
      allergen with a single candidate, strike its ingredient from the
      others, and go on until no allergen is left. */
  function Reduced(m: Candidates, resolved: map<string, string>): (r: Result<map<string, string>>)
    ensures r.Ok? ==> r.value.Keys == m.Keys + resolved.Keys
    ensures r.Ok? ==> forall a :: a in resolved && a !in m ==> r.value[a] == resolved[a]
    decreases |m|
  {
    if m == map[] then Ok(resolved)
    else
      match FirstSingle(m)
      case Panic => Panic
      case Ok((a, i)) =>
        var rest := m - {a};
        assert rest.Keys == m.Keys - {a};
        var r := Reduced(Purged(rest, i), resolved[a := i]);
        if r.Ok? then
          ReducedKeysStep(m, resolved, a, i, r.value);
          r
        else r
  }

  /** One step of `reduce` keeps the keys of both maps and the earlier
      resolutions of allergens no longer in play. */
  lemma ReducedKeysStep(m: Candidates, resolved: map<string, string>, a: string, i: string, f: map<string, string>)
    requires a in m
    requires f.Keys == Purged(m - {a}, i).Keys + resolved[a := i].Keys
    requires forall b :: b in resolved[a := i] && b !in Purged(m - {a}, i) ==> f[b] == resolved[a := i][b]
    ensures f.Keys == m.Keys + resolved.Keys
    ensures forall b :: b in resolved && b !in m ==> f[b] == resolved[b]
  {
    assert (m - {a}).Keys == m.Keys - {a};
    assert forall b :: b in resolved && b !in m ==> b != a && b !in Purged(m - {a}, i);
  }

  class AllergenCandidates {
    var allergen2candidates: Candidates
    var allergen2ingredient: map<string, string>

    /** `AllergenCandidates::new`. */
    constructor ()
      ensures allergen2candidates == map[] && allergen2ingredient == map[]
    {
      allergen2candidates := map[];
      allergen2ingredient := map[];
    }

    /** `add`. */
    method Add(allergen: string, row: seq<string>)
      modifies this
      ensures allergen2candidates == AddRow(old(allergen2candidates), allergen, row)
      ensures allergen2ingredient == old(allergen2ingredient)
    {
      var candidates := RowSet(row);
      if allergen !in allergen2candidates {
        allergen2candidates := allergen2candidates[allergen := candidates];
      } else {
        var kept := allergen2candidates[allergen];
        allergen2candidates := allergen2candidates[allergen := kept * candidates];
      }
    }

    /** `single_candidate`: the allergens are visited in key order and the
        first with a single candidate is returned. */
    method SingleCandidate() returns (r: Result<(string, string)>)
      ensures r == FirstSingle(allergen2candidates)
    {
      var todo := allergen2candidates.Keys;
      while todo != {}
        invariant todo <= allergen2candidates.Keys
        invariant forall a :: a in allergen2candidates && a !in todo ==> |allergen2candidates[a]| != 1
        decreases |todo|
      {
        var a := Least(todo);
        var kept := allergen2candidates[a];
        if |kept| == 1 {
          var first := FirstSingle(allergen2candidates);
          StrAntisymmetric(a, first.value.0);
          return Ok((a, Least(kept)));
        }
        todo := todo - {a};
      }
      return Panic;
    }

    /** `purge_candidate`: the ingredient leaves every candidate set. */
    method PurgeCandidate(candidate: string)
      modifies this
      ensures allergen2candidates == Purged(old(allergen2candidates), candidate)
      ensures allergen2ingredient == old(allergen2ingredient)
    {
      var todo := allergen2candidates.Keys;
      while todo != {}
        invariant todo <= allergen2candidates.Keys == old(allergen2candidates).Keys
        invariant forall a :: a in todo ==> allergen2candidates[a] == old(allergen2candidates)[a]
        invariant forall a :: a in allergen2candidates && a !in todo ==>
                    allergen2candidates[a] == old(allergen2candidates)[a] - {candidate}
        invariant allergen2ingredient == old(allergen2ingredient)
        decreases |todo|
      {
        var a :| a in todo;
        allergen2candidates := allergen2candidates[a := allergen2candidates[a] - {candidate}];
        todo := todo - {a};
      }
    }

    /** `reduce`: each pass resolves one allergen, so the loop ends, with
        no allergen left, unless `single_candidate` panics. */
    method Reduce() returns (r: Result<()>)
      modifies this
      ensures r.Ok? ==> allergen2candidates == map[] &&
                        Reduced(old(allergen2candidates), old(allergen2ingredient)) == Ok(allergen2ingredient)
      ensures r.Panic? ==> Reduced(old(allergen2candidates), old(allergen2ingredient)).Panic?
    {
      while allergen2candidates != map[]
        invariant Reduced(allergen2candidates, allergen2ingredient) ==
                  Reduced(old(allergen2candidates), old(allergen2ingredient))
        decreases |allergen2candidates|
      {
        var single := SingleCandidate();
        if single.Panic? {
          return Panic;
        }
        var (allergen, ingredient) := single.value;
        assert (allergen2candidates - {allergen}).Keys == allergen2candidates.Keys - {allergen};
        allergen2candidates := allergen2candidates - {allergen};
        PurgeCandidate(ingredient);
        allergen2ingredient := allergen2ingredient[allergen := ingredient];
      }
      return Ok(());
    }
  }

  // ---------------------------------------------------------------------
  // What `reduce` finds

  /** No two allergens share an ingredient. */
  predicate Injective(f: map<string, string>)
  {
    forall a, b :: a in f && b in f && f[a] == f[b] ==> a == b
  }

  /** The state `reduce` keeps between passes: resolved allergens are no
      longer candidates' keys, resolved ingredients are no longer
      candidates, and no ingredient is resolved twice. */
  predicate Separated(m: Candidates, resolved: map<string, string>)
  {
    (forall a :: a in m ==> a !in resolved) &&
    (forall a, b :: a in m && b in resolved ==> resolved[b] !in m[a]) &&
    Injective(resolved)
  }

  /** One pass of `reduce` keeps the state separated. */
  lemma SeparatedStep(m: Candidates, resolved: map<string, string>, a: string, i: string)
    requires Separated(m, resolved) && a in m && m[a] == {i}
    ensures Separated(Purged(m - {a}, i), resolved[a := i])
  {
    var res' := resolved[a := i];
    assert forall b :: b in resolved ==> resolved[b] != i;
    assert Injective(res');
  }

  /** One pass of `reduce`. */
  lemma ReducedStep(m: Candidates, resolved: map<string, string>, a: string, i: string)
    requires m != map[] && FirstSingle(m) == Ok((a, i))
    ensures Reduced(m, resolved) == Reduced(Purged(m - {a}, i), resolved[a := i])
  {
  }

  /** Purging shrinks the remaining candidate sets. */
  lemma PurgedShrinks(m: Candidates, a: string, i: string, b: string)
    requires b in m && b != a
    ensures b in Purged(m - {a}, i) && Purged(m - {a}, i)[b] <= m[b]
  {
  }

  /** `f` gives every allergen of `m` one of its candidates, keeps the
      resolutions of `resolved`, and gives no ingredient twice. */
  predicate Resolves(f: map<string, string>, m: Candidates, resolved: map<string, string>)
  {
    f.Keys == m.Keys + resolved.Keys && Injective(f) &&
    (forall a :: a in resolved ==> f[a] == resolved[a]) &&
    (forall a :: a in m ==> f[a] in m[a])
  }

  /** What the rest of `reduce` resolves after one pass is what the whole
      resolves. */
  lemma ResolvesStep(m: Candidates, resolved: map<string, string>, a: string, i: string, f: map<string, string>)
    requires Separated(m, resolved) && a in m && m[a] == {i}
    requires Resolves(f, Purged(m - {a}, i), resolved[a := i])
    ensures Resolves(f, m, resolved)
  {
    assert (m - {a}).Keys == m.Keys - {a};
    forall b | b in m
      ensures f[b] in m[b]
    {
      if b != a {
        PurgedShrinks(m, a, i, b);
      }
    }
  }

  /** `reduce` from a separated state resolves every allergen to one of
      its own candidates, keeps the earlier resolutions, and gives
      different allergens different ingredients. */
  lemma {:induction false} ReducedResolves(m: Candidates, resolved: map<string, string>)
    requires Separated(m, resolved)
    ensures Reduced(m, resolved).Ok? ==> Resolves(Reduced(m, resolved).value, m, resolved)
    decreases |m|
  {
    if m != map[] && FirstSingle(m).Ok? {
      var (a, i) := FirstSingle(m).value;
      var m' := Purged(m - {a}, i);
      var res' := resolved[a := i];
      assert (m - {a}).Keys == m.Keys - {a};
      SeparatedStep(m, resolved, a, i);
      ReducedResolves(m', res');
      ReducedStep(m, resolved, a, i);
      if Reduced(m', res').Ok? {
        ResolvesStep(m, resolved, a, i, Reduced(m', res').value);
      }
    }
  }

  /** `reduce` started as `Allergens::from` starts it, with nothing
      resolved: every allergen gets one of its candidates and no
      ingredient is given to two allergens. */
  lemma ReduceFromScratch(m: Candidates)
    ensures Reduced(m, map[]).Ok? ==>
              var f := Reduced(m, map[]).value;
              f.Keys == m.Keys && Injective(f) && forall a :: a in m ==> f[a] in m[a]
  {
    ReducedResolves(m, map[]);
  }

  /** `add` only ever shrinks the set of an allergen it has seen, and
      leaves every other allergen alone. */
  lemma AddShrinks(m: Candidates, allergen: string, row: seq<string>)
    ensures AddRow(m, allergen, row).Keys == m.Keys + {allergen}
    ensures allergen in m ==> AddRow(m, allergen, row)[allergen] <= m[allergen]
    ensures forall a :: a in m && a != allergen ==> AddRow(m, allergen, row)[a] == m[a]
  {
  }

  // ---------------------------------------------------------------------
  // Gathering the candidates (the loop of `Allergens::from`)

  /** A food line: its ingredients and its allergens. */
  type Food = (seq<string>, seq<string>)

  /** `add` for each allergen of one food, in order. */
  function AddFood(m: Candidates, allergens: seq<string>, row: seq<string>): Candidates
    decreases |allergens|
  {
    if allergens == [] then m else AddFood(AddRow(m, allergens[0], row), allergens[1..], row)
  }

  /** The candidates after the foods, one after another. */
  function Gathered(foods: seq<Food>): (r: Candidates)
    ensures forall k, a :: 0 <= k < |foods| && a in foods[k].1 ==> a in r && r[a] <= RowSet(foods[k].0)
  {
    if foods == [] then map[]
    else
      var front := foods[..|foods| - 1];
      var last := foods[|foods| - 1];
      assert forall k :: 0 <= k < |front| ==> front[k] == foods[k];
      AddFoodShrinks(Gathered(front), last.1, last.0);
      AddFood(Gathered(front), last.1, last.0)
  }

  /** `AddFoodEffect` for every allergen: a food keeps every allergen and
      shrinks its set, and its own allergens end up among its ingredients. */
  lemma AddFoodShrinks(m: Candidates, allergens: seq<string>, row: seq<string>)
    ensures forall a :: a in m ==> a in AddFood(m, allergens, row) && AddFood(m, allergens, row)[a] <= m[a]
    ensures forall a :: a in allergens ==> a in AddFood(m, allergens, row) && AddFood(m, allergens, row)[a] <= RowSet(row)
  {
    forall a | a in m || a in allergens
      ensures a in AddFood(m, allergens, row)
      ensures a in m ==> AddFood(m, allergens, row)[a] <= m[a]
      ensures a in allergens ==> AddFood(m, allergens, row)[a] <= RowSet(row)
    {
      AddFoodEffect(m, allergens, row, a);
    }
  }

  /** Some food lists the allergen. */
  ghost predicate Listed(foods: seq<Food>, allergen: string)
  {
    exists k :: 0 <= k < |foods| && allergen in foods[k].1
  }

  /** Every food listing the allergen has the ingredient. */
  ghost predicate InEvery(foods: seq<Food>, allergen: string, x: string)
  {
    forall k :: 0 <= k < |foods| && allergen in foods[k].1 ==> x in foods[k].0
  }

  /** One food's allergens: each listed allergen's set is met with the
      food's ingredients, the others stay. */
  lemma {:induction false} AddFoodEffect(m: Candidates, allergens: seq<string>, row: seq<string>, a: string)
    ensures a in AddFood(m, allergens, row) <==> a in m || a in allergens
    ensures a in allergens ==>
              AddFood(m, allergens, row)[a] == (if a in m then m[a] * RowSet(row) else RowSet(row))
    ensures a !in allergens && a in m ==> AddFood(m, allergens, row)[a] == m[a]
    decreases |allergens|
  {
    if allergens != [] {
      var m' := AddRow(m, allergens[0], row);
      AddFoodEffect(m', allergens[1..], row, a);
      assert allergens == [allergens[0]] + allergens[1..];
      assert a in allergens <==> a == allergens[0] || a in allergens[1..];
    }
  }

  /** An allergen has a candidate set exactly when some food lists it,
      and its candidates are the ingredients of every food that lists it. */
  lemma {:induction false} GatheredCommon(foods: seq<Food>, a: string, x: string)
    ensures a in Gathered(foods) <==> Listed(foods, a)
    ensures a in Gathered(foods) ==> (x in Gathered(foods)[a] <==> InEvery(foods, a, x))
  {
    if foods != [] {
      var front := foods[..|foods| - 1];
      var last := foods[|foods| - 1];
      assert forall k :: 0 <= k < |front| ==> front[k] == foods[k];
      GatheredCommon(front, a, x);
      AddFoodEffect(Gathered(front), last.1, last.0, a);
      if Listed(foods, a) && !Listed(front, a) {
        assert a in last.1;
      }
      if Listed(front, a) {
        var k :| 0 <= k < |front| && a in front[k].1;
        assert a in foods[k].1;
      }
    }
  }

  // ---------------------------------------------------------------------
  // Input lines and the answer

  /** The separator between a food's ingredients and its allergens. */
  const Contains: string := " (contains "

  const AllergenSeparators: set<char> := {',', ' ', ')'}

  /** `process_input_line`: the whitespace-separated words before
      " (contains " are the ingredients; what follows, cut at commas,
      spaces and ')' with empty pieces dropped, are the allergens. A line
      without " (contains " panics. */
  function ProcessInputLine(line: string): (r: Result<Food>)
    ensures r.Panic? <==> |SplitOn(line, Contains)| < 2
    ensures r.Ok? ==> forall i :: 0 <= i < |r.value.0| ==> r.value.0[i] != [] && NoWhitespace(r.value.0[i])
    ensures r.Ok? ==> forall i :: 0 <= i < |r.value.1| ==> r.value.1[i] != [] && NoneIn(r.value.1[i], AllergenSeparators)
  {
    var parts := SplitOn(line, Contains);
    if |parts| < 2 then Panic
    else
      var ingredients := SplitWhitespace(parts[0]);
      var pieces := SplitAny(parts[1], AllergenSeparators);
      var allergens := NonEmpty(pieces);
      NonEmptyKeeps(pieces, AllergenSeparators);
      Ok((ingredients, allergens))
  }

  /** Dropping empty pieces keeps the others' properties. */
  lemma {:induction false} NonEmptyKeeps(pieces: seq<string>, seps: set<char>)
    requires forall i :: 0 <= i < |pieces| ==> NoneIn(pieces[i], seps)
    ensures forall i :: 0 <= i < |NonEmpty(pieces)| ==> NoneIn(NonEmpty(pieces)[i], seps)
  {
    if pieces != [] {
      NonEmptyKeeps(pieces[1..], seps);
    }
  }

  /** A food written as the puzzle writes it. */
  function FoodLine(food: Food): string
  {
    JoinWith(food.0, " ") + Contains + JoinWith(food.1, ", ") + ")"
  }

  /** An ingredient is a word with no whitespace and no '('; an allergen
      has no ',', ' ', ')' or '('. */
  predicate Writable(food: Food)
  {
    (forall i :: 0 <= i < |food.0| ==> food.0[i] != [] && NoWhitespace(food.0[i]) && '(' !in food.0[i]) &&
    (forall i :: 0 <= i < |food.1| ==> food.1[i] != [] && NoneIn(food.1[i], AllergenSeparators) && '(' !in food.1[i])
  }

  /** The allergen list: pieces between ", " and the closing ')'. */
  lemma {:induction false} AllergensBack(allergens: seq<string>)
    requires forall i :: 0 <= i < |allergens| ==> allergens[i] != [] && NoneIn(allergens[i], AllergenSeparators)
    ensures NonEmpty(SplitAny(JoinWith(allergens, ", ") + ")", AllergenSeparators)) == allergens
  {
    if allergens == [] {
      assert SplitAny(")", AllergenSeparators) == [[], []];
    } else {
      var a := allergens[0];
      if |allergens| == 1 {
        SplitAnyCons(a, ')', [], AllergenSeparators);
        assert a + ")" == a + [')'] + [];
        assert NonEmpty([a] + [[]]) == [a] by {
          assert ([a] + [[]])[1..] == [[]];
          var empty: seq<string> := [[]];
          assert empty[1..] == [];
        }
      } else {
        var rest := JoinWith(allergens[1..], ", ") + ")";
        AllergensBack(allergens[1..]);
        assert JoinWith(allergens, ", ") + ")" == a + [','] + ([' '] + rest);
        SplitAnyCons(a, ',', [' '] + rest, AllergenSeparators);
        assert [' '] + rest == [] + [' '] + rest;
        SplitAnyCons([], ' ', rest, AllergenSeparators);
        var tail := SplitAny(rest, AllergenSeparators);
        assert NonEmpty([a] + ([[]] + tail)) == [a] + NonEmpty(tail) by {
          assert ([a] + ([[]] + tail))[1..] == [[]] + tail;
          assert ([[]] + tail)[1..] == tail;
        }
        assert [a] + allergens[1..] == allergens;
      }
    }
  }

  /** A written food line reads back as the food. */
  lemma FoodLineBack(food: Food)
    requires Writable(food)
    ensures ProcessInputLine(FoodLine(food)) == Ok(food)
  {
    var (ingredients, allergens) := food;
    var before := JoinWith(ingredients, " ");
    var after := JoinWith(allergens, ", ") + ")";
    JoinWithAvoids(ingredients, " ", '(');
    JoinWithAvoids(allergens, ", ", '(');
    assert '(' !in after;
    assert FoodLine(food) == before + Contains + after;
    SplitOnCons(before, Contains, after);
    SplitOnAbsent(after, Contains, 1);
    SplitWhitespaceJoin(ingredients);
    AllergensBack(allergens);
  }

  /** `canonical_dangerous_list`: the ingredients, ordered by their
      allergens, joined by commas. When no ingredient holds a comma, the
      comma-separated pieces of the list are the ingredients in allergen
      order. */
  function DangerousList(resolved: map<string, string>): (list: string)
    ensures resolved != map[] && (forall a :: a in resolved ==> ',' !in resolved[a]) ==>
              var keys := Ordered(resolved.Keys);
              var pieces := Split(list, ',');
              |pieces| == |keys| && forall i :: 0 <= i < |keys| ==> pieces[i] == resolved[keys[i]]
  {
    var values := Lookup(resolved, Ordered(resolved.Keys));
    if resolved != map[] && (forall a :: a in resolved ==> ',' !in resolved[a]) then
      SplitJoin(values, ',');
      JoinWith(values, ",")
    else
      JoinWith(values, ",")
  }

  /** The values of the keys, in the keys' order. */
  function Lookup(m: map<string, string>, keys: seq<string>): (r: seq<string>)
    requires forall i :: 0 <= i < |keys| ==> keys[i] in m
    ensures |r| == |keys| && forall i :: 0 <= i < |keys| ==> r[i] == m[keys[i]]
  {
    if keys == [] then [] else [m[keys[0]]] + Lookup(m, keys[1..])
  }

  /** A strictly increasing listing of a set is its ordered listing. */
  lemma {:induction false} OrderedUnique(s: set<string>, r: seq<string>)
    requires forall i :: 0 <= i < |r| ==> r[i] in s
    requires forall x :: x in s ==> x in r
    requires forall i :: 0 <= i < |r| - 1 ==> StrLe(r[i], r[i + 1]) && r[i] != r[i + 1]
    ensures Ordered(s) == r
    decreases |r|
  {
    if r == [] {
      assert s == {};
    } else {
      assert r[0] in s;
      var k := Least(s);
      forall j | 0 <= j < |r|
        ensures StrLe(r[0], r[j])
      {
        IncreasingFrom(r, j);
      }
      StrAntisymmetric(k, r[0]);
      if |r| > 1 {
        StrStrict(r[0], r[1]);
      }
      forall j | 1 <= j < |r|
        ensures r[j] != r[0]
      {
        IncreasingFrom(r, j);
      }
      var t := r[1..];
      assert forall i :: 0 <= i < |t| ==> t[i] == r[i + 1];
      assert forall i :: 0 <= i < |t| ==> t[i] in s - {k};
      assert forall x :: x in s - {k} ==> x in t by {
        forall x | x in s - {k}
          ensures x in t
        {
          var j :| 0 <= j < |r| && r[j] == x;
          assert t[j - 1] == x;
        }
      }
      OrderedUnique(s - {k}, t);
      OrderedFirst(s);
      HeadTail(r);
    }
  }

  lemma HeadTail(r: seq<string>)
    requires r != []
    ensures [r[0]] + r[1..] == r
  {
  }

  lemma OrderedFirst(s: set<string>)
    requires s != {}
    ensures Ordered(s) == [Least(s)] + Ordered(s - {Least(s)})
  {
  }

  lemma StrStrict(a: string, b: string)
    requires StrLe(a, b) && a != b
    ensures !StrLe(b, a)
  {
    if StrLe(b, a) {
      StrAntisymmetric(a, b);
    }
  }

  /** Consecutive order reaches from the first element. */
  lemma {:induction false} IncreasingFrom(r: seq<string>, j: nat)
    requires j < |r|
    requires forall i :: 0 <= i < |r| - 1 ==> StrLe(r[i], r[i + 1]) && r[i] != r[i + 1]
    ensures StrLe(r[0], r[j])
    ensures 0 < j ==> StrLe(r[1], r[j])
  {
    if j == 0 {
      StrTotal(r[0], r[0]);
    } else if j == 1 {
      StrTotal(r[1], r[1]);
    } else {
      IncreasingFrom(r, j - 1);
      StrTransitive(r[0], r[j - 1], r[j]);
      StrTransitive(r[1], r[j - 1], r[j]);
    }
  }

  /** With dairy, fish and soy resolved to mxmxvkd, sqjhc and fvjkl, the
      list is "mxmxvkd,sqjhc,fvjkl". */
  lemma DangerousListExample()
    ensures DangerousList(map["dairy" := "mxmxvkd", "fish" := "sqjhc", "soy" := "fvjkl"]) == "mxmxvkd,sqjhc,fvjkl"
  {
    var m := map["dairy" := "mxmxvkd", "fish" := "sqjhc", "soy" := "fvjkl"];
    var keys := ["dairy", "fish", "soy"];
    ExampleOrder(m, keys);
    DangerousListOf(m, keys);
    ExampleLookup(m, keys);
    ExampleJoin("mxmxvkd", "sqjhc", "fvjkl");
  }

  lemma ExampleLookup(m: map<string, string>, keys: seq<string>)
    requires m == map["dairy" := "mxmxvkd", "fish" := "sqjhc", "soy" := "fvjkl"]
    requires keys == ["dairy", "fish", "soy"]
    ensures Lookup(m, keys) == ["mxmxvkd", "sqjhc", "fvjkl"]
  {
    var l := Lookup(m, keys);
    assert l[0] == "mxmxvkd" && l[1] == "sqjhc" && l[2] == "fvjkl";
  }

  lemma DangerousListOf(m: map<string, string>, keys: seq<string>)
    requires Ordered(m.Keys) == keys
    ensures DangerousList(m) == JoinWith(Lookup(m, keys), ",")
  {
  }

  lemma ExampleOrder(m: map<string, string>, keys: seq<string>)
    requires m == map["dairy" := "mxmxvkd", "fish" := "sqjhc", "soy" := "fvjkl"]
    requires keys == ["dairy", "fish", "soy"]
    ensures Ordered(m.Keys) == keys
  {
    assert m.Keys == {"dairy", "fish", "soy"};
    assert StrLe("dairy", "fish") && StrLe("fish", "soy");
    OrderedUnique(m.Keys, keys);
  }

  lemma ExampleJoin(a: string, b: string, c: string)
    requires a == "mxmxvkd" && b == "sqjhc" && c == "fvjkl"
    ensures JoinWith([a, b, c], ",") == "mxmxvkd,sqjhc,fvjkl"
  {
    assert [a, b, c][1..] == [b, c] && [b, c][1..] == [c];
    assert JoinWith([c], ",") == c;
    assert JoinWith([b, c], ",") == b + "," + c;
    assert JoinWith([a, b, c], ",") == a + "," + (b + "," + c);
  }
}
