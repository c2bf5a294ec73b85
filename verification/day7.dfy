/** Day 7: bag rules (`src/challenge/day7/mod.rs`).

    A rule reads "<colour> bags contain <n> <colour> bag(s), ... ." or
    "<colour> bags contain no other bags."; the rules build the graph of
    `RuleGraph`. */
module BagRules {
  import opened Wrappers
  import opened Text
  import opened Numbers
  import opened RuleGraph

  const MY_BAG: string := "shiny gold"

  // ---------------------------------------------------------------------
  // Bags
  // ---------------------------------------------------------------------

  /** `parse_bag`: the trimmed text before the first "bag". */
  function ParseBag(s: string): (r: Result<Bag>)
    ensures r.Ok? <==> Contains(s, "bag")
    ensures r.Ok? ==> Find(s, "bag").Some? && r.value == Trim(s[..Find(s, "bag").value])
  {
    match Find(s, "bag")
    case None => Err("bag did not contain word 'bag'")
    case Some(i) => Ok(Trim(s[..i]))
  }

  /** A colour as the rules spell it: trimmed, and without "bag" in it. */
  predicate Colour(name: string) {
    IsTrimmed(name) && !Contains(name, "bag")
  }

  /** The first "bag" after a colour and a space is the one the rule
      writes after it. */
  lemma FindBagAfterColour(name: string, suffix: string)
    requires !Contains(name, "bag")
    ensures Find(name + " bag" + suffix, "bag") == Some(|name| + 1)
  {
    var s := name + " bag" + suffix;
    assert OccursAt(s, "bag", |name| + 1) by {
      assert s[|name| + 1..|name| + 4] == "bag";
    }
    forall j: nat | j < |name| + 1
      ensures !OccursAt(s, "bag", j)
    {
      if j + 3 <= |name| {
        assert s[j..j + 3] == name[j..j + 3];
        assert !OccursAt(name, "bag", j);
      } else {
        var k := |name| - j;
        assert s[j + k] == ' ' && "bag"[k] != ' ';
        if j + 3 <= |s| {
          assert s[j..j + 3][k] == s[j + k];
        }
      }
    }
    match Find(s, "bag")
    case None =>
    case Some(k) =>
      assert !(k < |name| + 1);
      assert !(|name| + 1 < k);
  }

  lemma ParseBagOfColour(name: string, suffix: string)
    requires Colour(name)
    ensures ParseBag(name + " bag" + suffix) == Ok(name)
  {
    FindBagAfterColour(name, suffix);
    var s := name + " bag" + suffix;
    assert s[..|name| + 1] == name + " ";
    TrimPadded([], name, " ");
    assert [] + name + " " == name + " ";
  }

  /** `parse_numerical_bags`: trim, split at the first space, read the
      count as a `usize` and the rest as a bag. */
  function ParseNumericalBags(s: string): (r: Result<(nat, Bag)>)
    ensures r.Ok? ==>
      var (num, rest) := SplitOnce(Trim(s), " ");
      && rest.Some?
      && ParseUsize(num) == Ok(r.value.0)
      && ParseBag(rest.value) == Ok(r.value.1)
    ensures r.Ok? <==> (Contains(Trim(s), " ") && ParseUsize(SplitOnce(Trim(s), " ").0).Ok?
      && ParseBag(SplitOnce(Trim(s), " ").1.value).Ok?)
  {
    var t := Trim(s);
    var (num, rest) := SplitOnce(t, " ");
    var count :- ParseUsize(num);
    var bagText :- OkOr(rest, "numerical bags could not be split");
    var bag :- ParseBag(bagText);
    Ok((count, bag))
  }

  function Plural(n: nat): string {
    if n == 1 then " bag" else " bags"
  }

  /** One target of a rule, as written: " 2 muted yellow bags". */
  function FormatTarget(n: nat, name: string): string {
    " " + (NatToString(n) + [' '] + (name + Plural(n)))
  }

  /** The written target without its leading space. */
  lemma TrimTarget(n: nat, name: string)
    ensures Trim(FormatTarget(n, name)) == NatToString(n) + [' '] + (name + Plural(n))
  {
    var body := NatToString(n) + [' '] + (name + Plural(n));
    assert " " + body + [] == FormatTarget(n, name);
    TargetBodyTrimmed(n, name);
    TrimPadded(" ", body, []);
  }

  /** The target text starts with a digit and ends with the 'g' or 's' of
      "bag(s)". */
  lemma TargetBodyTrimmed(n: nat, name: string)
    ensures IsTrimmed(NatToString(n) + [' '] + (name + Plural(n)))
  {
    var digits := NatToString(n);
    var body := digits + [' '] + (name + Plural(n));
    assert body[0] == digits[0];
    assert IsAsciiDigit(digits[0]);
    assert body[|body| - 1] == Plural(n)[|Plural(n)| - 1];
  }

  lemma ParsePluralBag(n: nat, name: string)
    requires Colour(name)
    ensures ParseBag(name + Plural(n)) == Ok(name)
  {
    if n == 1 {
      ParseBagOfColour(name, "");
      assert name + " bag" + "" == name + Plural(n);
    } else {
      ParseBagOfColour(name, "s");
      assert name + " bag" + "s" == name + Plural(n);
    }
  }

  lemma ParseFormatTarget(n: nat, name: string)
    requires n <= USIZE_MAX && Colour(name)
    ensures ParseNumericalBags(FormatTarget(n, name)) == Ok((n, name))
  {
    var digits := NatToString(n);
    var tail := name + Plural(n);
    TrimTarget(n, name);
    assert ' ' !in digits by {
      assert forall j | 0 <= j < |digits| :: IsAsciiDigit(digits[j]);
    }
    SplitOnceChar(digits, ' ', tail);
    assert SplitOnce(Trim(FormatTarget(n, name)), " ") == (digits, Some(tail));
    ParseUsizeOfString(n);
    ParsePluralBag(n, name);
  }

  // ---------------------------------------------------------------------
  // Rules
  // ---------------------------------------------------------------------

  const NO_OTHER_BAGS: string := "no other bags."

  /** The target bags of a rule. */
  function Targets(pairs: seq<(nat, Bag)>): (r: set<Bag>)
    ensures forall b :: b in r <==> exists i | 0 <= i < |pairs| :: pairs[i].1 == b
    decreases |pairs|
  {
    if pairs == [] then {}
    else
      var front := pairs[..|pairs| - 1];
      assert forall i | 0 <= i < |front| :: front[i] == pairs[i];
      Targets(front) + {pairs[|pairs| - 1].1}
  }

  /** The edges of one rule, inserted in order; a later edge to the same
      target replaces the count of an earlier one. */
  function InsertAll(g: Graph, src: Bag, pairs: seq<(nat, Bag)>): (r: Graph)
    requires WellFormed(g)
    ensures WellFormed(r)
    ensures r.Keys == g.Keys + (if pairs == [] then {} else {src}) + Targets(pairs)
    ensures forall a, b | a != src || b !in Targets(pairs) :: Weight(r, a, b) == Weight(g, a, b)
    decreases |pairs|
  {
    if pairs == [] then g
    else
      var last := pairs[|pairs| - 1];
      var before := InsertAll(g, src, pairs[..|pairs| - 1]);
      assert Targets(pairs) == Targets(pairs[..|pairs| - 1]) + {last.1};
      Insert(before, src, last.1, last.0)
  }

  /** The last count the rule gives for `b`. */
  function LastCount(pairs: seq<(nat, Bag)>, b: Bag): nat
    requires b in Targets(pairs)
    decreases |pairs|
  {
    if pairs[|pairs| - 1].1 == b then pairs[|pairs| - 1].0
    else LastCount(pairs[..|pairs| - 1], b)
  }

  /** Every target of the rule ends up with the last count given for it. */
  lemma {:induction false} InsertAllLastWins(g: Graph, src: Bag, pairs: seq<(nat, Bag)>, b: Bag)
    requires WellFormed(g) && b in Targets(pairs)
    ensures Weight(InsertAll(g, src, pairs), src, b) == Some(LastCount(pairs, b))
    decreases |pairs|
  {
    if pairs[|pairs| - 1].1 != b {
      InsertAllLastWins(g, src, pairs[..|pairs| - 1], b);
    }
  }

  /** The comma-separated pieces of a target list, each read as a count
      and a bag. */
  function Pieces(targets: string): (r: Result<seq<(nat, Bag)>>)
    ensures r.Ok? ==> |r.value| == |Split(targets, ",")| >= 1
    ensures r.Ok? ==> forall i | 0 <= i < |r.value| :: ParseNumericalBags(Split(targets, ",")[i]) == Ok(r.value[i])
    ensures r.Err? ==> exists i | 0 <= i < |Split(targets, ",")| :: ParseNumericalBags(Split(targets, ",")[i]).Err?
  {
    CollectAll(Split(targets, ","), ParseNumericalBags)
  }

  predicate TargetsParse(targets: string) {
    targets == NO_OTHER_BAGS || Pieces(targets).Ok?
  }

  /** `add_rule_targets`: "no other bags." makes the bag a terminal node;
      otherwise every comma-separated piece is an edge from the bag. The
      first bad piece fails the rule; the edges inserted before it are lost
      with the graph, as the error aborts the whole input. */
  function AddTargets(g: Graph, bag: Bag, targets: string): (r: Result<Graph>)
    requires WellFormed(g)
    ensures r.Ok? <==> TargetsParse(targets)
    ensures r.Ok? ==> WellFormed(r.value) && r.value.Keys >= g.Keys + {bag}
    ensures targets == NO_OTHER_BAGS ==> r == Ok(Terminal(g, bag))
    ensures r.Ok? && targets != NO_OTHER_BAGS ==> r.value == InsertAll(g, bag, Pieces(targets).value)
  {
    if targets == NO_OTHER_BAGS then Ok(Terminal(g, bag))
    else
      var pairs :- Pieces(targets);
      Ok(InsertAll(g, bag, pairs))
  }

  /** The source colour and target list of a rule line. */
  predicate RuleParses(line: string) {
    var (src, dst) := SplitOnce(line, " contain ");
    && dst.Some?
    && ParseBag(src).Ok?
    && TargetsParse(dst.value)
  }

  /** `add_rule`: split at the first " contain ", read the source bag, then
      its targets. */
  function AddRule(g: Graph, line: string): (r: Result<Graph>)
    requires WellFormed(g)
    ensures r.Ok? <==> RuleParses(line)
    ensures r.Ok? ==> WellFormed(r.value) && g.Keys <= r.value.Keys
    ensures r.Ok? ==> r.value == AddTargets(g, ParseBag(SplitOnce(line, " contain ").0).value,
                                            SplitOnce(line, " contain ").1.value).value
  {
    var (src, dst) := SplitOnce(line, " contain ");
    var targets :- OkOr(dst, "rule did not have 'contain'");
    var bag :- ParseBag(src);
    AddTargets(g, bag, targets)
  }

  /** `create_rule_tree`: apply the rules in order to an empty graph; the
      first bad line fails the input. */
  function BuildRules(lines: seq<string>): (r: Result<Graph>)
    ensures r.Ok? <==> AllRulesParse(lines)
    ensures r.Ok? ==> WellFormed(r.value)
    decreases |lines|
  {
    if lines == [] then Ok(map[])
    else
      AllRulesParseFront(lines);
      var g :- BuildRules(lines[..|lines| - 1]);
      AddRule(g, lines[|lines| - 1])
  }

  predicate AllRulesParse(lines: seq<string>) {
    forall i | 0 <= i < |lines| :: RuleParses(lines[i])
  }

  lemma AllRulesParseFront(lines: seq<string>)
    requires |lines| > 0
    ensures AllRulesParse(lines) <==> AllRulesParse(lines[..|lines| - 1]) && RuleParses(lines[|lines| - 1])
  {
    assert forall i | 0 <= i < |lines| - 1 :: lines[..|lines| - 1][i] == lines[i];
  }

  // ---------------------------------------------------------------------
  // The puzzle
  // ---------------------------------------------------------------------

  /** `part1`: how many colours eventually hold a shiny gold bag. */
  method Part1(input: string) returns (r: Result<nat>)
    ensures r.Ok? <==> BuildRules(Lines(input)).Ok?
    ensures r.Ok? ==> r.value == |Ancestors(BuildRules(Lines(input)).value, MY_BAG)|
  {
    var rules := BuildRules(Lines(input));
    if rules.Err? {
      return Err(rules.msg);
    }
    var c := ParentsOf(rules.value, MY_BAG);
    return Ok(c);
  }

  /** `part2`: how many bags a shiny gold bag holds. The rules must rank
      the bags (no bag may eventually hold itself), or the recursion of the
      source does not end. */
  method Part2(input: string, rank: map<Bag, nat>) returns (r: Result<nat>)
    requires BuildRules(Lines(input)).Ok? ==> Ranked(BuildRules(Lines(input)).value, rank)
    ensures r.Ok? <==> BuildRules(Lines(input)).Ok?
    ensures r.Ok? ==> r.value == TotalBags(BuildRules(Lines(input)).value, rank, MY_BAG)
  {
    var rules := BuildRules(Lines(input));
    if rules.Err? {
      return Err(rules.msg);
    }
    var total := TotalBagsOf(rules.value, rank, MY_BAG);
    return Ok(total);
  }

  // ---------------------------------------------------------------------
  // Examples
  // ---------------------------------------------------------------------

  /** Text without a 'b' holds no "bag". */
  lemma NoBagWithoutB(name: string)
    requires 'b' !in name
    ensures !Contains(name, "bag")
  {
    forall j: nat | j <= |name|
      ensures !OccursAt(name, "bag", j)
    {
      if j + 3 <= |name| {
        assert name[j..j + 3][0] == name[j];
      }
    }
  }

  lemma ParseBagExamples()
    ensures ParseBag("light red bags ") == Ok("light red")
    ensures ParseBag("light red").Err?
  {
    ParseBagLightRed();
    ParseBagNoWord();
  }

  lemma ParseBagNoWord()
    ensures ParseBag("light red").Err?
  {
    NoBagWithoutB("light red");
  }

  lemma ParseBagLightRed()
    ensures ParseBag("light red bags ") == Ok("light red")
  {
    assert "light red" + " bag" == "light red bag";
    assert "light red bag" + "s " == "light red bags ";
    NoBagWithoutB("light red");
    assert IsTrimmed("light red");
    ParseBagOfColour("light red", "s ");
  }

  /** A shiny gold bag holding two dark red bags, each holding two dark
      orange bags, holds six bags. */
  lemma TotalExample()
    ensures var g := Insert(Insert(Terminal(map[], "dark orange"), "dark red", "dark orange", 2), "shiny gold", "dark red", 2);
      Ranked(g, map["shiny gold" := 2, "dark red" := 1, "dark orange" := 0])
      && TotalBags(g, map["shiny gold" := 2, "dark red" := 1, "dark orange" := 0], "shiny gold") == 6
  {
    ExampleGraph();
    ExampleTotal();
  }

  /** The graph the three rules of the example build. */
  function ExampleRules(): Graph {
    map["dark orange" := [], "dark red" := [Edge("dark orange", 2)], "shiny gold" := [Edge("dark red", 2)]]
  }

  lemma ExampleGraph()
    ensures Insert(Insert(Terminal(map[], "dark orange"), "dark red", "dark orange", 2), "shiny gold", "dark red", 2)
      == ExampleRules()
  {
    var g0 := Terminal(map[], "dark orange");
    assert g0 == map["dark orange" := []];
    ExampleGraphStep();
  }

  lemma ExampleGraphStep()
    ensures Insert(map["dark orange" := []], "dark red", "dark orange", 2)
      == map["dark orange" := [], "dark red" := [Edge("dark orange", 2)]]
    ensures Insert(map["dark orange" := [], "dark red" := [Edge("dark orange", 2)]], "shiny gold", "dark red", 2)
      == ExampleRules()
  {
  }

  lemma ExampleTotal()
    ensures Ranked(ExampleRules(), map["shiny gold" := 2, "dark red" := 1, "dark orange" := 0])
    ensures TotalBags(ExampleRules(), map["shiny gold" := 2, "dark red" := 1, "dark orange" := 0], "shiny gold") == 6
  {
    var g := ExampleRules();
    var rank := map["shiny gold" := 2, "dark red" := 1, "dark orange" := 0];
    assert TotalBags(g, rank, "dark orange") == 0;
    assert EdgesTotal(g, rank, "dark red", 1) == 0;
    assert TotalBags(g, rank, "dark red") == 2;
    assert EdgesTotal(g, rank, "shiny gold", 1) == 0;
  }
}
