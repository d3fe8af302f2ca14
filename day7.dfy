/** Day 7: bags inside bags (src/day7.rs). `StringGraph` maps every bag
    colour to the colours it directly contains, with counts. The model
    proves that `all_successors_of` computes exactly the colours reachable
    in one or more steps and that `bags_within` is the weighted sum over
    the children, whatever order they are visited in. */
module Day7 {
  import opened Util

  // ---------------------------------------------------------------------
  // Parsing

  /** `pat` occurs in `s` starting at position `j`. */
  predicate OccursAt(s: string, pat: string, j: nat)
  {
    j + |pat| <= |s| && s[j..j + |pat|] == pat
  }

  /** The first piece of `split(pat)` ends at the first occurrence of `pat`,
      or is the whole string when there is none. */
  lemma {:induction false} SplitOnFirstPiece(s: string, pat: string, i: nat)
    requires |pat| > 0 && i <= |s|
    requires OccursAt(s, pat, i) || i == |s|
    requires forall j :: 0 <= j < i ==> !OccursAt(s, pat, j)
    ensures SplitOn(s, pat)[0] == s[..i]
    decreases |s|
  {
    if |s| < |pat| {
      assert i == |s|;
    } else if s[..|pat|] == pat {
      assert OccursAt(s, pat, 0);
      assert i == 0;
    } else {
      assert !OccursAt(s, pat, 0);
      assert i > 0;
      var t := s[1..];
      forall j | 0 <= j < i - 1 ensures !OccursAt(t, pat, j) {
        assert !OccursAt(s, pat, j + 1);
        if j + |pat| <= |t| { assert t[j..j + |pat|] == s[j + 1..j + 1 + |pat|]; }
      }
      if OccursAt(s, pat, i) {
        assert t[i - 1..i - 1 + |pat|] == s[i..i + |pat|];
        assert OccursAt(t, pat, i - 1);
      }
      SplitOnFirstPiece(t, pat, i - 1);
      assert s[..i] == [s[0]] + t[..i - 1];
    }
  }

  /** `bag_color`: the text before the first " bag". */
  function BagColor(bagSrc: string): (color: string)
    ensures |color| <= |bagSrc| && color == bagSrc[..|color|]
  {
    var r := SplitOn(bagSrc, " bag");
    SplitOnJoin(bagSrc, " bag");
    assert |JoinWith(r, " bag")| >= |r[0]| && JoinWith(r, " bag")[..|r[0]|] == r[0] by {
      if |r| > 1 {
        assert JoinWith(r, " bag") == r[0] + " bag" + JoinWith(r[1..], " bag");
      }
    }
    r[0]
  }

  /** `bag_color` returns exactly the prefix before the first occurrence of
      " bag" (the whole string when there is none). */
  lemma BagColorIs(bagSrc: string, i: nat)
    requires i <= |bagSrc| && (OccursAt(bagSrc, " bag", i) || i == |bagSrc|)
    requires forall j :: 0 <= j < i ==> !OccursAt(bagSrc, " bag", j)
    ensures BagColor(bagSrc) == bagSrc[..i]
  {
    SplitOnFirstPiece(bagSrc, " bag", i);
  }

  /** No space in `color` is followed by a 'b'. */
  predicate NoSpaceB(color: string)
  {
    forall j :: 0 <= j < |color| - 1 ==> color[j] == ' ' ==> color[j + 1] != 'b'
  }

  /** A colour followed by " bag…" reads back as that colour when no space
      of the colour is followed by a 'b' (so " bag" cannot start inside it). */
  lemma BagColorOfFormat(color: string, rest: string)
    requires NoSpaceB(color)
    ensures BagColor(color + " bag" + rest) == color
  {
    var s := color + " bag" + rest;
    assert s[|color|..|color| + 4] == " bag";
    forall j | 0 <= j < |color| ensures !OccursAt(s, " bag", j) {
      assert s[j] == color[j];
      assert j < |color| - 1 ==> s[j + 1] == color[j + 1];
      assert j == |color| - 1 ==> s[j + 1] == ' ';
    }
    BagColorIs(s, |color|);
    assert s[..|color|] == color;
  }

  /** Index of the first space, or |s|. */
  function FirstSpace(s: string): (i: nat)
    ensures i <= |s| && (i < |s| ==> s[i] == ' ')
    ensures forall j :: 0 <= j < i ==> s[j] != ' '
  {
    if s == [] || s[0] == ' ' then 0 else 1 + FirstSpace(s[1..])
  }

  /** `bag_count_and_color`: `splitn(2, ' ')`, the first part parsed as a
      count and the second read by `bag_color`. Indexing the missing second
      part (no space) or an unparsable count panics. */
  function BagCountAndColor(bagSrc: string): (r: Result<(nat, string)>)
    ensures r.Ok? <==> FirstSpace(bagSrc) < |bagSrc| && ParseNat(bagSrc[..FirstSpace(bagSrc)]).Some?
    ensures r.Ok? ==>
      (Some(r.value.0) == ParseNat(bagSrc[..FirstSpace(bagSrc)])
       && ' ' !in bagSrc[..FirstSpace(bagSrc)]
       && r.value.1 == BagColor(bagSrc[FirstSpace(bagSrc) + 1..]))
  {
    var i := FirstSpace(bagSrc);
    if i == |bagSrc| then Panic
    else
      match ParseNat(bagSrc[..i])
      case None => Panic
      case Some(n) => Ok((n, BagColor(bagSrc[i + 1..])))
  }

  /** A count written in decimal, a space and a colour read back as that
      count and colour. */
  lemma BagCountAndColorOfFormat(count: nat, color: string, rest: string)
    requires NoSpaceB(color)
    ensures BagCountAndColor(NatToString(count) + " " + color + " bag" + rest) == Ok((count, color))
  {
    var digits := NatToString(count);
    var s := digits + " " + color + " bag" + rest;
    DigitsNoWhitespace(digits);
    assert FirstSpace(s) == |digits| by {
      assert forall j :: 0 <= j < |digits| ==> s[j] == digits[j];
      assert s[|digits|] == ' ';
    }
    assert s[..|digits|] == digits;
    assert s[|digits| + 1..] == color + " bag" + rest;
    ParseNatToString(count);
    BagColorOfFormat(color, rest);
  }

  /** The `test_bag_color` cases. */
  lemma BagColorExamples()
    ensures BagColor("light red bags") == "light red"
    ensures BagColor("bright white bag") == "bright white"
    ensures BagColor("muted yellow bags") == "muted yellow"
  {
    assert NoSpaceB("light red") by { assert "light red"[6] == 'r'; }
    assert NoSpaceB("bright white") by { assert "bright white"[7] == 'w'; }
    assert NoSpaceB("muted yellow") by { assert "muted yellow"[6] == 'y'; }
    BagColorOfFormat("light red", "s");
    assert "light red" + " bag" + "s" == "light red bags";
    BagColorOfFormat("bright white", "");
    assert "bright white" + " bag" + "" == "bright white bag";
    BagColorOfFormat("muted yellow", "s");
    assert "muted yellow" + " bag" + "s" == "muted yellow bags";
  }

  // ---------------------------------------------------------------------
  // The graph

  type Graph = map<string, map<string, nat>>

  /** Every end of an edge is itself a node: `add_edge` keeps this, and
      `all_successors_of` relies on it when it unwraps a successor's entry. */
  ghost predicate Closed(g: Graph)
  {
    forall n, m :: n in g && m in g[n] ==> m in g
  }

  /** The nodes after `add_if_absent(name)`. */
  function WithNode(g: Graph, name: string): Graph
  {
    if name in g then g else g[name := map[]]
  }

  /** The nodes after `add_edge(start, end, count)`. */
  function WithEdge(g: Graph, start: string, end: string, count: nat): Graph
  {
    var h := WithNode(WithNode(g, start), end);
    var children: map<string, nat> := h[start][end := count];
    h[start := children]
  }

  /** `add_if_absent` is idempotent, only ever adds `name`, and keeps every
      existing node's successors. */
  lemma WithNodeProperties(g: Graph, name: string)
    ensures WithNode(WithNode(g, name), name) == WithNode(g, name)
    ensures WithNode(g, name).Keys == g.Keys + {name}
    ensures forall n :: n in g ==> WithNode(g, name)[n] == g[n]
    ensures name !in g ==> WithNode(g, name)[name] == map[]
    ensures Closed(g) ==> Closed(WithNode(g, name))
  {
  }

  /** `add_edge` makes both ends nodes, sets the count of start→end
      (overwriting any earlier one) and changes no other edge. */
  lemma WithEdgeProperties(g: Graph, start: string, end: string, count: nat)
    ensures WithEdge(g, start, end, count).Keys == g.Keys + {start, end}
    ensures CountFrom(WithEdge(g, start, end, count), start, end) == count
    ensures forall a, b :: (a != start || b != end) ==>
      CountFrom(WithEdge(g, start, end, count), a, b) == CountFrom(g, a, b)
    ensures Closed(g) ==> Closed(WithEdge(g, start, end, count))
  {
  }

  /** `count_from`: the stored count, 0 when the node or edge is absent. */
  function CountFrom(g: Graph, start: string, end: string): (count: nat)
    ensures count > 0 ==> start in g && end in g[start]
  {
    if start in g && end in g[start] then g[start][end] else 0
  }

  function Successors(g: Graph, n: string): set<string>
  {
    if n in g then g[n].Keys else {}
  }

  /** Consecutive nodes are joined by edges. */
  ghost predicate IsPath(g: Graph, p: seq<string>)
  {
    forall i :: 0 <= i < |p| - 1 ==> p[i + 1] in Successors(g, p[i])
  }

  /** `b` is reachable from `a` in one or more steps. */
  ghost predicate Reaches(g: Graph, a: string, b: string)
  {
    exists p :: |p| >= 2 && IsPath(g, p) && p[0] == a && p[|p| - 1] == b
  }

  lemma PathStartsAtNode(g: Graph, p: seq<string>)
    requires |p| >= 2 && IsPath(g, p)
    ensures p[0] in g
  {
    assert p[1] in Successors(g, p[0]);
  }

  lemma ReachesStep(g: Graph, a: string, b: string)
    requires b in Successors(g, a)
    ensures Reaches(g, a, b)
  {
    assert IsPath(g, [a, b]);
  }

  lemma ReachesExtend(g: Graph, a: string, b: string, c: string)
    requires Reaches(g, a, b) && c in Successors(g, b)
    ensures Reaches(g, a, c)
  {
    var p :| |p| >= 2 && IsPath(g, p) && p[0] == a && p[|p| - 1] == b;
    assert IsPath(g, p + [c]);
    assert (p + [c])[0] == a;
  }

  /** A set holding `a`'s successors and closed under successors holds
      everything `a` reaches. */
  lemma ClosedHoldsReach(g: Graph, a: string, s: set<string>, b: string)
    requires Successors(g, a) <= s
    requires forall v :: v in s ==> Successors(g, v) <= s
    requires Reaches(g, a, b)
    ensures b in s
  {
    var p :| |p| >= 2 && IsPath(g, p) && p[0] == a && p[|p| - 1] == b;
    var i := 1;
    assert p[1] in Successors(g, p[0]);
    while i < |p| - 1
      invariant 1 <= i <= |p| - 1 && p[i] in s
    {
      assert p[i + 1] in Successors(g, p[i]);
      i := i + 1;
    }
  }

  // ---------------------------------------------------------------------
  // Bags within

  /** `rank` strictly decreases along every edge: the graph is acyclic,
      which `bags_within` needs to terminate. */
  ghost predicate Ranked(g: Graph, rank: string -> nat)
  {
    forall n, m :: n in g && m in g[n] ==> rank(m) < rank(n)
  }

  /** `bags_within(name)`: for every child, its count times one plus the
      bags within it; 0 for a colour that is not a node. The result does
      not depend on `rank` (`BagsWithinRankFree`). */
  ghost function BagsWithin(g: Graph, rank: string -> nat, name: string): (total: nat)
    requires Ranked(g, rank)
    ensures name !in g || g[name] == map[] ==> total == 0
    decreases rank(name), 1, 0
  {
    if name in g then ChildSum(g, rank, name, g[name].Keys) else 0
  }

  /** The sum over the children in `keys` of count · (1 + bags within). */
  ghost function ChildSum(g: Graph, rank: string -> nat, name: string, keys: set<string>): (total: nat)
    requires Ranked(g, rank) && name in g && keys <= g[name].Keys
    ensures keys == {} ==> total == 0
    decreases rank(name), 0, |keys|
  {
    if keys == {} then 0
    else
      var k :| k in keys;
      ChildTerm(g, rank, name, k) + ChildSum(g, rank, name, keys - {k})
  }

  /** One child's contribution: its count times one plus the bags within it. */
  ghost function ChildTerm(g: Graph, rank: string -> nat, name: string, k: string): nat
    requires Ranked(g, rank) && name in g && k in g[name]
    decreases rank(name), 0, 0
  {
    var inner := BagsWithin(g, rank, k);
    MulPos(g[name][k], 1 + inner);
    g[name][k] * (1 + inner)
  }

  /** Any child may be taken first: the sum does not depend on the order in
      which `m.iter()` visits the children. */
  lemma {:induction false} ChildSumRemove(g: Graph, rank: string -> nat, name: string, keys: set<string>, k: string)
    requires Ranked(g, rank) && name in g && keys <= g[name].Keys && k in keys
    ensures ChildSum(g, rank, name, keys) ==
      ChildTerm(g, rank, name, k) + ChildSum(g, rank, name, keys - {k})
    decreases |keys|
  {
    var j :| j in keys && ChildSum(g, rank, name, keys) ==
      ChildTerm(g, rank, name, j) + ChildSum(g, rank, name, keys - {j});
    if j != k {
      var tj := ChildTerm(g, rank, name, j);
      var tk := ChildTerm(g, rank, name, k);
      ChildSumRemove(g, rank, name, keys - {j}, k);
      ChildSumRemove(g, rank, name, keys - {k}, j);
      assert keys - {j} - {k} == keys - {k} - {j};
      var both := ChildSum(g, rank, name, keys - {j} - {k});
      assert ChildSum(g, rank, name, keys) == tj + (tk + both);
      assert ChildSum(g, rank, name, keys - {k}) == tj + both;
    }
  }

  /** Two rankings give the same count: `bags_within` is a function of the
      graph alone. */
  lemma {:induction false} BagsWithinRankFree(g: Graph, r1: string -> nat, r2: string -> nat, name: string)
    requires Ranked(g, r1) && Ranked(g, r2)
    ensures BagsWithin(g, r1, name) == BagsWithin(g, r2, name)
    decreases r1(name), 1, 0
  {
    if name in g {
      ChildSumRankFree(g, r1, r2, name, g[name].Keys);
    }
  }

  lemma {:induction false} ChildSumRankFree(g: Graph, r1: string -> nat, r2: string -> nat, name: string, keys: set<string>)
    requires Ranked(g, r1) && Ranked(g, r2) && name in g && keys <= g[name].Keys
    ensures ChildSum(g, r1, name, keys) == ChildSum(g, r2, name, keys)
    decreases r1(name), 0, |keys|
  {
    if keys != {} {
      var k :| k in keys && ChildSum(g, r1, name, keys) ==
        ChildTerm(g, r1, name, k) + ChildSum(g, r1, name, keys - {k});
      ChildSumRemove(g, r2, name, keys, k);
      BagsWithinRankFree(g, r1, r2, k);
      assert ChildTerm(g, r1, name, k) == ChildTerm(g, r2, name, k);
      ChildSumRankFree(g, r1, r2, name, keys - {k});
    }
  }

  /** `StringGraph`: the map from each colour to its children and counts. */
  class StringGraph {
    var node2nodes: Graph

    ghost predicate Valid()
      reads this
    {
      Closed(node2nodes)
    }

    /** `StringGraph::new`: no nodes. */
    constructor ()
      ensures Valid() && node2nodes == map[]
    {
      node2nodes := map[];
    }

    /** `add_if_absent`: add `name` with no children unless present. */
    method AddIfAbsent(name: string)
      requires Valid()
      modifies this
      ensures Valid() && node2nodes == WithNode(old(node2nodes), name)
    {
      if name !in node2nodes {
        node2nodes := node2nodes[name := map[]];
      }
    }

    /** `add_edge`: both ends become nodes; start→end gets `count`. */
    method AddEdge(start: string, end: string, count: nat)
      requires Valid()
      modifies this
      ensures Valid() && node2nodes == WithEdge(old(node2nodes), start, end, count)
      ensures CountFrom(node2nodes, start, end) == count
    {
      AddIfAbsent(start);
      AddIfAbsent(end);
      var children: map<string, nat> := node2nodes[start][end := count];
      node2nodes := node2nodes[start := children];
      WithEdgeProperties(old(node2nodes), start, end, count);
    }

    /** `all_successors_of`: a depth-first worklist. The result is exactly
        the set of colours reachable from `name` in one or more steps. */
    method AllSuccessorsOf(name: string) returns (visited: set<string>)
      requires Valid()
      ensures forall b :: b in visited <==> Reaches(node2nodes, name, b)
    {
      var g := node2nodes;
      visited := {};
      if name in g {
        var openList := PushAll([], g[name].Keys);
        WorklistStart(g, name, openList);
        while |openList| > 0
          invariant Worklist(g, name, visited, openList)
          decreases |g.Keys - visited|, |openList|
        {
          var candidate := openList[|openList| - 1];
          var rest := openList[..|openList| - 1];
          if candidate !in visited {
            var pushed := PushAll(rest, g[candidate].Keys);
            WorklistVisit(g, name, visited, openList, pushed);
            visited := visited + {candidate};
            openList := pushed;
          } else {
            WorklistSkip(g, name, visited, openList);
            openList := rest;
          }
        }
        forall b | Reaches(g, name, b) ensures b in visited {
          ClosedHoldsReach(g, name, visited, b);
        }
      } else {
        forall b | Reaches(g, name, b) ensures false {
          var p :| |p| >= 2 && IsPath(g, p) && p[0] == name && p[|p| - 1] == b;
          PathStartsAtNode(g, p);
        }
      }
    }

    /** `bags_within` on the current graph, for any ranking that proves it
        acyclic. */
    ghost function BagsWithinOf(rank: string -> nat, name: string): (total: nat)
      reads this
      requires Ranked(node2nodes, rank)
      ensures name !in node2nodes ==> total == 0
      ensures forall r2: string -> nat :: Ranked(node2nodes, r2) ==> BagsWithin(node2nodes, r2, name) == total
    {
      forall r2: string -> nat | Ranked(node2nodes, r2) ensures BagsWithin(node2nodes, r2, name) == BagsWithin(node2nodes, rank, name) {
        BagsWithinRankFree(node2nodes, r2, rank, name);
      }
      BagsWithin(node2nodes, rank, name)
    }
  }

  /** The worklist invariant of `all_successors_of`: everything visited or
      still open is reachable, and every successor of `name` or of a visited
      node has been visited or is still open. */
  ghost predicate Worklist(g: Graph, name: string, visited: set<string>, openList: seq<string>)
  {
    && visited <= g.Keys
    && (forall b :: b in openList ==> b in g && Reaches(g, name, b))
    && (forall b :: b in visited ==> Reaches(g, name, b))
    && (forall b :: b in Successors(g, name) ==> b in visited || b in openList)
    && (forall v, b :: v in visited && b in Successors(g, v) ==> b in visited || b in openList)
  }

  lemma WorklistStart(g: Graph, name: string, openList: seq<string>)
    requires Closed(g) && name in g
    requires forall b :: b in openList <==> b in g[name].Keys
    ensures Worklist(g, name, {}, openList)
  {
    forall b | b in openList ensures b in g && Reaches(g, name, b) {
      ReachesStep(g, name, b);
    }
  }

  /** Popping a node that was already visited keeps the invariant. */
  lemma WorklistSkip(g: Graph, name: string, visited: set<string>, openList: seq<string>)
    requires |openList| > 0 && Worklist(g, name, visited, openList) && openList[|openList| - 1] in visited
    ensures Worklist(g, name, visited, openList[..|openList| - 1])
  {
    var rest := openList[..|openList| - 1];
    assert openList == rest + [openList[|openList| - 1]];
  }

  /** Visiting a new node and pushing its successors keeps the invariant. */
  lemma WorklistVisit(g: Graph, name: string, visited: set<string>, openList: seq<string>, pushed: seq<string>)
    requires Closed(g) && |openList| > 0 && Worklist(g, name, visited, openList)
    requires openList[|openList| - 1] !in visited
    requires forall b :: b in pushed <==>
      b in openList[..|openList| - 1] || b in g[openList[|openList| - 1]].Keys
    ensures Worklist(g, name, visited + {openList[|openList| - 1]}, pushed)
    ensures |g.Keys - (visited + {openList[|openList| - 1]})| < |g.Keys - visited|
  {
    var candidate := openList[|openList| - 1];
    var rest := openList[..|openList| - 1];
    assert openList == rest + [candidate];
    forall b | b in pushed ensures b in g && Reaches(g, name, b) {
      if b !in rest {
        ReachesExtend(g, name, candidate, b);
      }
    }
    assert g.Keys - (visited + {candidate}) < g.Keys - visited;
  }

  /** Push every key of a child map onto the open list, in some order. */
  method PushAll(open: seq<string>, keys: set<string>) returns (r: seq<string>)
    ensures |r| == |open| + |keys| && r[..|open|] == open
    ensures forall b :: b in r <==> b in open || b in keys
  {
    r := open;
    var rest := keys;
    while rest != {}
      invariant rest <= keys && |r| == |open| + |keys| - |rest| && r[..|open|] == open
      invariant forall b :: b in r <==> b in open || b in keys - rest
      decreases |rest|
    {
      var k :| k in rest;
      r := r + [k];
      rest := rest - {k};
    }
  }

  // ---------------------------------------------------------------------
  // The unit tests

  /** The graph of `test_string_graph`: a→b, b→c, c→d, b→e. */
  lemma StringGraphExample()
    ensures WithEdge(WithEdge(WithEdge(WithEdge(map[], "a", "b", 1), "b", "c", 1), "c", "d", 1), "b", "e", 1)
      == map["a" := map["b" := 1], "b" := map["c" := 1, "e" := 1], "c" := map["d" := 1], "d" := map[], "e" := map[]]
  {
  }

  /** In that graph `a` reaches exactly b, c, d and e, and `d` reaches
      nothing. */
  lemma StringGraphReachExample(b: string)
    ensures var g := map["a" := map["b" := 1], "b" := map["c" := 1, "e" := 1], "c" := map["d" := 1], "d" := map[], "e" := map[]];
      (Reaches(g, "a", b) <==> b in {"b", "c", "d", "e"}) && !Reaches(g, "d", b)
  {
    var g := map["a" := map["b" := 1], "b" := map["c" := 1, "e" := 1], "c" := map["d" := 1], "d" := map[], "e" := map[]];
    var s := {"b", "c", "d", "e"};
    assert Successors(g, "a") == {"b"};
    assert Successors(g, "b") == {"c", "e"};
    assert Successors(g, "c") == {"d"};
    assert Successors(g, "d") == {} && Successors(g, "e") == {};
    if Reaches(g, "a", b) {
      ClosedHoldsReach(g, "a", s, b);
    }
    ReachesStep(g, "a", "b");
    ReachesExtend(g, "a", "b", "c");
    ReachesExtend(g, "a", "c", "d");
    ReachesExtend(g, "a", "b", "e");
    if Reaches(g, "d", b) {
      ClosedHoldsReach(g, "d", {}, b);
    }
  }

  /** The edges that `test_create_example` checks, as a graph. */
  function ExampleGraph(): Graph
  {
    map["light red" := map["bright white" := 1, "muted yellow" := 2],
        "dark orange" := map["bright white" := 3, "muted yellow" := 4],
        "bright white" := map["shiny gold" := 1],
        "muted yellow" := map["shiny gold" := 2],
        "shiny gold" := map["dark olive" := 1, "vibrant plum" := 2],
        "dark olive" := map["faded blue" := 3, "dotted black" := 4],
        "vibrant plum" := map["faded blue" := 5, "dotted black" := 6],
        "faded blue" := map[], "dotted black" := map[]]
  }

  function ExampleRank(color: string): nat
  {
    if color == "faded blue" || color == "dotted black" then 0
    else if color == "dark olive" || color == "vibrant plum" then 1
    else if color == "shiny gold" then 2
    else if color == "bright white" || color == "muted yellow" then 3
    else 4
  }

  /** A bag with exactly two kinds of children holds the terms of both. */
  lemma TwoChildren(g: Graph, rank: string -> nat, name: string, a: string, b: string)
    requires Ranked(g, rank) && name in g && g[name].Keys == {a, b} && a != b
    ensures BagsWithin(g, rank, name) == ChildTerm(g, rank, name, a) + ChildTerm(g, rank, name, b)
  {
    ChildSumRemove(g, rank, name, {a, b}, a);
    assert {a, b} - {a} == {b};
    ChildSumRemove(g, rank, name, {b}, b);
  }

  /** The ranks of the example decrease along every edge. */
  lemma ExampleRanked()
    ensures Ranked(ExampleGraph(), ExampleRank)
  {
  }

  /** The two middle bags of the example. */
  lemma ExampleMiddle()
    ensures Ranked(ExampleGraph(), ExampleRank)
    ensures BagsWithin(ExampleGraph(), ExampleRank, "vibrant plum") == 11
    ensures BagsWithin(ExampleGraph(), ExampleRank, "dark olive") == 7
  {
    var g, r := ExampleGraph(), ExampleRank;
    ExampleRanked();
    TwoChildren(g, r, "vibrant plum", "faded blue", "dotted black");
    TwoChildren(g, r, "dark olive", "faded blue", "dotted black");
  }

  /** The `test_bag_sum` values that follow from those edges: the leaves hold
      nothing, vibrant plum 11, dark olive 7 and shiny gold 32. */
  lemma BagsWithinExample()
    ensures Ranked(ExampleGraph(), ExampleRank)
    ensures BagsWithin(ExampleGraph(), ExampleRank, "faded blue") == 0
    ensures BagsWithin(ExampleGraph(), ExampleRank, "dotted black") == 0
    ensures BagsWithin(ExampleGraph(), ExampleRank, "vibrant plum") == 11
    ensures BagsWithin(ExampleGraph(), ExampleRank, "dark olive") == 7
    ensures BagsWithin(ExampleGraph(), ExampleRank, "shiny gold") == 32
  {
    var g, r := ExampleGraph(), ExampleRank;
    ExampleMiddle();
    TwoChildren(g, r, "shiny gold", "dark olive", "vibrant plum");
  }
}
