/** Day 6: customs declaration forms (`src/challenge/day6/mod.rs`).

    Each non-blank line is one person's answers, read as a set of letters;
    blank lines separate groups. A group's answers are joined line by line,
    by union for part 1 and by intersection for part 2. */
module Customs {
  import opened Wrappers
  import opened Text

  type Answers = set<char>

  /** The two joins `part1` and `part2` hand to the collector. */
  datatype Join = Union | Intersect

  function Apply(j: Join, a: Answers, b: Answers): Answers {
    match j
    case Union => a + b
    case Intersect => a * b
  }

  // ---------------------------------------------------------------------
  // Parsing
  // ---------------------------------------------------------------------

  /** `parse_line`: insert every character of the line into an empty set. */
  function ParseLine(s: string): (r: Answers)
    ensures forall c :: c in r <==> c in s
    decreases |s|
  {
    if s == [] then {}
    else
      var before := ParseLine(s[..|s| - 1]);
      assert s == s[..|s| - 1] + [s[|s| - 1]];
      before + {s[|s| - 1]}
  }

  /** `parse`: an empty line marks the end of a group, any other line is
      one person's answers. */
  function Parse(input: string): (r: seq<Option<Answers>>)
    ensures |r| == |Lines(input)|
    ensures forall i | 0 <= i < |r| :: r[i].None? <==> Lines(input)[i] == []
    ensures forall i | 0 <= i < |r| :: r[i].Some? ==> forall c :: c in r[i].value <==> c in Lines(input)[i]
  {
    var lines := Lines(input);
    seq(|lines|, i requires 0 <= i < |lines| => if lines[i] == [] then None else Some(ParseLine(lines[i])))
  }

  // ---------------------------------------------------------------------
  // The group collector
  // ---------------------------------------------------------------------

  /** How many lines at the front of `items` are answers. */
  function LeadingAnswers(items: seq<Option<Answers>>): (k: nat)
    ensures k <= |items|
    ensures forall i | 0 <= i < k :: items[i].Some?
    ensures k < |items| ==> items[k].None?
    decreases |items|
  {
    if items == [] || items[0].None? then 0 else 1 + LeadingAnswers(items[1..])
  }

  /** `GroupCollector::next` from the collector state `acc`: join each
      answer line into the collector; stop after taking the first blank
      line, or at the end of the input. */
  function NextFrom(items: seq<Option<Answers>>, j: Join, acc: Option<Answers>): (r: (Option<Answers>, seq<Option<Answers>>))
    decreases |items|
  {
    if items == [] then (acc, [])
    else if items[0].None? then (acc, items[1..])
    else
      var answer := items[0].value;
      NextFrom(items[1..], j, Some(if acc.Some? then Apply(j, acc.value, answer) else answer))
  }

  /** The answers of the lines `items[..k]`, all of which are answers. */
  function AnswersOf(items: seq<Option<Answers>>, k: nat): (r: seq<Answers>)
    requires k <= |items| && forall i | 0 <= i < k :: items[i].Some?
    ensures |r| == k && forall i | 0 <= i < k :: r[i] == items[i].value
  {
    seq(k, i requires 0 <= i < k => items[i].value)
  }

  /** The join of a group's lines, from left to right. */
  function Fold(xs: seq<Answers>, j: Join): Answers
    requires |xs| > 0
    decreases |xs|
  {
    if |xs| == 1 then xs[0] else Apply(j, Fold(xs[..|xs| - 1], j), xs[|xs| - 1])
  }

  /** `NextFrom` stops right after the blank line that ends the leading
      answer lines. */
  lemma {:induction false} NextFromRest(items: seq<Option<Answers>>, j: Join, acc: Option<Answers>)
    ensures var k := LeadingAnswers(items);
      NextFrom(items, j, acc).1 == items[if k < |items| then k + 1 else k..]
    decreases |items|
  {
    if items != [] && items[0].Some? {
      var answer := items[0].value;
      NextFromRest(items[1..], j, Some(if acc.Some? then Apply(j, acc.value, answer) else answer));
      var k := LeadingAnswers(items);
      assert items[1..][if k - 1 < |items| - 1 then k else k - 1..] == items[if k < |items| then k + 1 else k..];
    }
  }

  /** `NextFrom` folds the leading answer lines onto the collector, which
      holds the fold of the lines before them. */
  lemma {:induction false} NextFromFolds(items: seq<Option<Answers>>, j: Join, prior: seq<Answers>)
    ensures var group := prior + AnswersOf(items, LeadingAnswers(items));
      NextFrom(items, j, if prior == [] then None else Some(Fold(prior, j))).0
        == (if group == [] then None else Some(Fold(group, j)))
    decreases |items|
  {
    var k := LeadingAnswers(items);
    if items != [] && items[0].Some? {
      var answer := items[0].value;
      var prior' := prior + [answer];
      FoldSnoc(prior, answer, j);
      NextFromFolds(items[1..], j, prior');
      AnswersOfCons(items, prior);
    } else {
      assert AnswersOf(items, k) == [];
      assert prior + [] == prior;
    }
  }

  /** Joining one more line onto a group's fold. */
  lemma FoldSnoc(prior: seq<Answers>, answer: Answers, j: Join)
    ensures Fold(prior + [answer], j) == if prior == [] then answer else Apply(j, Fold(prior, j), answer)
  {
    assert (prior + [answer])[..|prior|] == prior;
  }

  lemma AnswersOfCons(items: seq<Option<Answers>>, prior: seq<Answers>)
    requires items != [] && items[0].Some?
    ensures prior + [items[0].value] + AnswersOf(items[1..], LeadingAnswers(items[1..]))
      == prior + AnswersOf(items, LeadingAnswers(items))
  {
    var k := LeadingAnswers(items);
    assert [items[0].value] + AnswersOf(items[1..], k - 1) == AnswersOf(items, k);
  }
  /** `GroupCollector::next`: the join of the answer lines before the next
      blank line, or nothing when a blank line or the end comes first. */
  function Next(items: seq<Option<Answers>>, j: Join): (r: (Option<Answers>, seq<Option<Answers>>))
    ensures var k := LeadingAnswers(items);
      && (r.0.None? <==> k == 0)
      && (r.0.Some? ==> r.0.value == Fold(AnswersOf(items, k), j))
      && r.1 == items[if k < |items| then k + 1 else k..]
  {
    NextFromFolds(items, j, []);
    NextFromRest(items, j, None);
    assert [] + AnswersOf(items, LeadingAnswers(items)) == AnswersOf(items, LeadingAnswers(items));
    NextFrom(items, j, None)
  }

  /** The groups the collector yields: `next` until it returns nothing. A
      blank line where a group should start, such as a second blank line in
      a row, ends the iteration. */
  function Groups(items: seq<Option<Answers>>, j: Join): (r: seq<Answers>)
    decreases |items|
  {
    var (group, rest) := Next(items, j);
    if group.None? then [] else [group.value] + Groups(rest, j)
  }

  // ---------------------------------------------------------------------
  // Reference: the input cut at blank lines
  // ---------------------------------------------------------------------

  /** The runs of answer lines between blank lines, including empty runs. */
  function Blocks(items: seq<Option<Answers>>): (r: seq<seq<Answers>>)
    ensures |r| > 0
    decreases |items|
  {
    var k := LeadingAnswers(items);
    if k == |items| then [AnswersOf(items, k)]
    else [AnswersOf(items, k)] + Blocks(items[k + 1..])
  }

  /** The blocks before the first empty one. */
  function UntilEmpty(blocks: seq<seq<Answers>>): (r: seq<seq<Answers>>)
    ensures |r| <= |blocks|
    ensures forall i | 0 <= i < |r| :: r[i] == blocks[i] && r[i] != []
    ensures |r| < |blocks| ==> blocks[|r|] == []
    decreases |blocks|
  {
    if blocks == [] || blocks[0] == [] then [] else [blocks[0]] + UntilEmpty(blocks[1..])
  }

  function FoldAll(blocks: seq<seq<Answers>>, j: Join): (r: seq<Answers>)
    requires forall i | 0 <= i < |blocks| :: blocks[i] != []
    ensures |r| == |blocks| && forall i | 0 <= i < |r| :: r[i] == Fold(blocks[i], j)
  {
    seq(|blocks|, i requires 0 <= i < |blocks| => Fold(blocks[i], j))
  }

  /** The collector yields one join per block of answer lines, up to the
      first empty block. */
  lemma {:induction false} GroupsAreBlocks(items: seq<Option<Answers>>, j: Join)
    ensures Groups(items, j) == FoldAll(UntilEmpty(Blocks(items)), j)
    decreases |items|
  {
    var k := LeadingAnswers(items);
    var blocks := Blocks(items);
    assert blocks[0] == AnswersOf(items, k);
    if k == 0 {
      assert AnswersOf(items, k) == [];
    } else {
      var group := AnswersOf(items, k);
      assert group != [] by {
        assert |group| == k;
      }
      var rest := items[if k < |items| then k + 1 else k..];
      assert Groups(items, j) == [Fold(group, j)] + Groups(rest, j);
      assert UntilEmpty(blocks) == [group] + UntilEmpty(blocks[1..]);
      if k < |items| {
        assert blocks[1..] == Blocks(rest);
        GroupsAreBlocks(rest, j);
      } else {
        assert rest == [];
        assert Blocks(rest) == [[]];
        assert UntilEmpty(blocks[1..]) == [];
      }
      FoldAllCons(group, UntilEmpty(blocks[1..]), j);
    }
  }

  lemma FoldAllCons(b: seq<Answers>, bs: seq<seq<Answers>>, j: Join)
    requires b != [] && forall i | 0 <= i < |bs| :: bs[i] != []
    ensures FoldAll([b] + bs, j) == [Fold(b, j)] + FoldAll(bs, j)
  {
  }
  // ---------------------------------------------------------------------
  // What the joins mean
  // ---------------------------------------------------------------------

  /** Somebody in the group answered `c`. */
  lemma {:induction false} UnionFold(xs: seq<Answers>, c: char)
    requires |xs| > 0
    ensures c in Fold(xs, Union) <==> exists i | 0 <= i < |xs| :: c in xs[i]
    decreases |xs|
  {
    if |xs| > 1 {
      var front := xs[..|xs| - 1];
      UnionFold(front, c);
      assert forall i | 0 <= i < |front| :: front[i] == xs[i];
      if c in xs[|xs| - 1] {
        assert c in xs[|xs| - 1];
      }
    }
  }

  /** Everybody in the group answered `c`. */
  lemma {:induction false} IntersectFold(xs: seq<Answers>, c: char)
    requires |xs| > 0
    ensures c in Fold(xs, Intersect) <==> forall i | 0 <= i < |xs| :: c in xs[i]
    decreases |xs|
  {
    if |xs| > 1 {
      var front := xs[..|xs| - 1];
      IntersectFold(front, c);
      assert forall i | 0 <= i < |front| :: front[i] == xs[i];
    }
  }

  /** The joins keep only letters somebody answered, so the intersection
      of a group is inside its union. */
  lemma IntersectWithinUnion(xs: seq<Answers>)
    requires |xs| > 0
    ensures Fold(xs, Intersect) <= Fold(xs, Union)
  {
    forall c | c in Fold(xs, Intersect)
      ensures c in Fold(xs, Union)
    {
      IntersectFold(xs, c);
      UnionFold(xs, c);
      assert c in xs[0];
    }
  }

  // ---------------------------------------------------------------------
  // The puzzle
  // ---------------------------------------------------------------------

  function SumSizes(groups: seq<Answers>): nat
    decreases |groups|
  {
    if groups == [] then 0 else SumSizes(groups[..|groups| - 1]) + |groups[|groups| - 1]|
  }

  /** `part1`: the letters anybody in a group answered, summed over the
      groups of the blank-line-separated blocks. */
  function Part1(input: string): (r: nat)
    ensures r == SumSizes(FoldAll(UntilEmpty(Blocks(Parse(input))), Union))
  {
    GroupsAreBlocks(Parse(input), Union);
    SumSizes(Groups(Parse(input), Union))
  }

  /** `part2`: the letters everybody in a group answered, summed over the
      same groups. */
  function Part2(input: string): (r: nat)
    ensures r == SumSizes(FoldAll(UntilEmpty(Blocks(Parse(input))), Intersect))
  {
    GroupsAreBlocks(Parse(input), Intersect);
    SumSizes(Groups(Parse(input), Intersect))
  }

  /** Each group counts at least as many letters in part 1 as in part 2. */
  lemma {:induction false} Part2AtMostPart1(blocks: seq<seq<Answers>>)
    requires forall i | 0 <= i < |blocks| :: blocks[i] != []
    ensures SumSizes(FoldAll(blocks, Intersect)) <= SumSizes(FoldAll(blocks, Union))
    decreases |blocks|
  {
    if blocks != [] {
      var front := blocks[..|blocks| - 1];
      Part2AtMostPart1(front);
      assert FoldAll(blocks, Intersect)[..|blocks| - 1] == FoldAll(front, Intersect);
      assert FoldAll(blocks, Union)[..|blocks| - 1] == FoldAll(front, Union);
      IntersectWithinUnion(blocks[|blocks| - 1]);
      SubsetSize(Fold(blocks[|blocks| - 1], Intersect), Fold(blocks[|blocks| - 1], Union));
    }
  }

  lemma SubsetSize(a: Answers, b: Answers)
    requires a <= b
    ensures |a| <= |b|
  {
    assert b == a + (b - a);
  }

  lemma Part2AtMostPart1OfInput(input: string)
    ensures Part2(input) <= Part1(input)
  {
    Part2AtMostPart1(UntilEmpty(Blocks(Parse(input))));
  }

  /** Two blank lines in a row end the iteration: the group after them is
      never counted. */
  lemma DoubleBlankEndsGroups()
    ensures Groups([Some({'a', 'b'}), None, None, Some({'c'})], Union) == [{'a', 'b'}]
  {
    var items: seq<Option<Answers>> := [Some({'a', 'b'}), None, None, Some({'c'})];
    assert LeadingAnswers(items) == 1;
    assert LeadingAnswers(items[2..]) == 0;
    assert Next(items, Union) == (Some({'a', 'b'}), items[2..]);
    assert Next(items[2..], Union).0 == None;
  }
}
