/** Day 15 (`src/challenge/day15/memory_sequence.rs` and
    `src/challenge/day15/mod.rs`): the elves' memory game. After the
    starting numbers, each turn speaks 0 if the last number spoken was new,
    and otherwise how many turns apart its last two occurrences were. */
module MemoryGame {
  import opened Wrappers
  import opened Numbers
  import opened Text

  // ---------------------------------------------------------------------
  // The rules of the game
  // ---------------------------------------------------------------------

  /** The turn (counting from 1) on which `x` was last spoken in `spoken`. */
  function LastTurn(spoken: seq<nat>, x: nat): (r: Option<nat>)
    ensures r.None? <==> x !in spoken
    ensures r.Some? ==> 1 <= r.value <= |spoken| && spoken[r.value - 1] == x
    ensures r.Some? ==> forall j | r.value <= j < |spoken| :: spoken[j] != x
    decreases |spoken|
  {
    if spoken == [] then None
    else if spoken[|spoken| - 1] == x then Some(|spoken|)
    else
      var init := spoken[..|spoken| - 1];
      assert spoken == init + [spoken[|spoken| - 1]];
      LastTurn(init, x)
  }

  /** The number spoken after `spoken`: 0 if the last number had not been
      spoken before, else the age of its previous occurrence. */
  function NextSpoken(spoken: seq<nat>): (r: nat)
    requires |spoken| >= 1
    ensures r > 0 <==> spoken[|spoken| - 1] in spoken[..|spoken| - 1]
    ensures r < |spoken|
  {
    var n := |spoken|;
    match LastTurn(spoken[..n - 1], spoken[n - 1])
    case None => 0
    case Some(t) => n - t
  }

  /** The starting numbers followed by `n` more turns of the game. */
  function Spoken(starting: seq<nat>, n: nat): (r: seq<nat>)
    requires |starting| >= 1
    ensures |r| == |starting| + n
    ensures r[..|starting|] == starting
    decreases n
  {
    if n == 0 then starting
    else
      var before := Spoken(starting, n - 1);
      assert (before + [NextSpoken(before)])[..|starting|] == before[..|starting|];
      before + [NextSpoken(before)]
  }

  // ---------------------------------------------------------------------
  // `Sequence`: the game's memory
  // ---------------------------------------------------------------------

  /** `history[x]` is the turn `x` was last spoken before the current one,
      `counter` the current turn and `last` the number spoken on it. The
      `NonZeroU32` entries become positive naturals. */
  datatype Sequence = Sequence(history: seq<Option<nat>>, counter: nat, last: nat)

  /** What the memory holds for `x`; an index past the end is `None`. */
  function Recorded(s: Sequence, x: nat): Option<nat> {
    if x < |s.history| then s.history[x] else None
  }

  /** The type's invariant: the turn counter is never zero and every
      recorded turn came before it. */
  predicate Valid(s: Sequence) {
    s.counter >= 1 && forall x | 0 <= x < |s.history| && s.history[x].Some? :: 1 <= s.history[x].value < s.counter
  }

  /** The memory of a game that has spoken `spoken` so far. */
  ghost predicate Represents(s: Sequence, spoken: seq<nat>) {
    && |spoken| >= 1
    && s.counter == |spoken|
    && s.last == spoken[|spoken| - 1]
    && forall x: nat :: Recorded(s, x) == LastTurn(spoken[..|spoken| - 1], x)
  }

  lemma RepresentsValid(s: Sequence, spoken: seq<nat>)
    requires Represents(s, spoken)
    ensures Valid(s)
  {
    forall x | 0 <= x < |s.history| && s.history[x].Some?
      ensures 1 <= s.history[x].value < s.counter
    {
      assert Recorded(s, x) == LastTurn(spoken[..|spoken| - 1], x);
    }
  }

  /** `extend_if_needed`: pad the history with `None` so that `x` has an
      entry. */
  function ExtendIfNeeded(history: seq<Option<nat>>, x: nat): (r: seq<Option<nat>>)
    ensures |r| == if x + 1 > |history| then x + 1 else |history|
    ensures r[..|history|] == history
    ensures forall i | |history| <= i < |r| :: r[i].None?
  {
    if x + 1 > |history| then history + seq(x + 1 - |history|, _ => None) else history
  }

  /** `push`: the last number is recorded as spoken on the current turn,
      and `x` is spoken on the next one. */
  function Push(s: Sequence, x: nat): (r: Sequence)
    ensures r.counter == s.counter + 1 && r.last == x
    ensures Recorded(r, s.last) == Some(s.counter)
    ensures forall y: nat | y != s.last :: Recorded(r, y) == Recorded(s, y)
  {
    var history := ExtendIfNeeded(s.history, s.last);
    assert forall y: nat | y != s.last :: Recorded(Sequence(history, 0, 0), y) == Recorded(s, y) by {
      forall y: nat | y != s.last && y < |history|
        ensures history[y] == Recorded(s, y)
      {
        if y < |s.history| {
          assert history[..|s.history|][y] == history[y];
        }
      }
    }
    Sequence(history[s.last := Some(s.counter)], s.counter + 1, x)
  }

  /** Pushing keeps the memory in step with the game. */
  lemma PushRepresents(s: Sequence, spoken: seq<nat>, x: nat)
    requires Represents(s, spoken)
    ensures Represents(Push(s, x), spoken + [x])
  {
    var r := Push(s, x);
    var next := spoken + [x];
    assert next[..|next| - 1] == spoken;
    assert spoken == spoken[..|spoken| - 1] + [s.last];
    forall y: nat
      ensures Recorded(r, y) == LastTurn(spoken, y)
    {
      if y != s.last {
        assert Recorded(r, y) == LastTurn(spoken[..|spoken| - 1], y);
      }
    }
  }

  /** `init`: the first starting number is spoken on turn 1 and each later
      one pushed; no starting numbers panics (`starting[0]`). The
      capacity hint is left out. */
  function Init(starting: seq<nat>): (r: Outcome<Sequence>)
    ensures r.Panics? <==> starting == []
    ensures r.Finishes? ==> Represents(r.value, starting)
  {
    if starting == [] then Panics
    else
      var first := Sequence([], 1, starting[0]);
      assert Represents(first, starting[..1]);
      Finishes(PushAll(first, starting, 1))
  }

  /** The loop of `init`: push the starting numbers from index `i` on. */
  function PushAll(s: Sequence, starting: seq<nat>, i: nat): (r: Sequence)
    requires 1 <= i <= |starting| && Represents(s, starting[..i])
    ensures Represents(r, starting)
    decreases |starting| - i
  {
    if i == |starting| then
      assert starting[..i] == starting;
      s
    else
      PushRepresents(s, starting[..i], starting[i]);
      assert starting[..i] + [starting[i]] == starting[..i + 1];
      PushAll(Push(s, starting[i]), starting, i + 1)
  }

  /** `age_of`: how many turns ago `x` was last spoken before the current
      turn, or 0 if never. The invariant keeps the subtraction from
      underflowing. */
  function AgeOf(s: Sequence, x: nat): (r: nat)
    requires Valid(s)
    ensures r < s.counter
    ensures r == 0 <==> Recorded(s, x).None?
  {
    match Recorded(s, x)
    case None => 0
    case Some(t) => s.counter - t
  }

  /** `turn`: speak the age of the last number and push it. */
  function Turn(s: Sequence): (r: (nat, Sequence))
    requires Valid(s)
    ensures r.1 == Push(s, r.0)
    ensures r.0 == 0 <==> Recorded(s, s.last).None?
  {
    var age := AgeOf(s, s.last);
    (age, Push(s, age))
  }

  /** The number `turn` speaks is exactly the one the rules of the game
      call for, and the memory stays in step with the game. */
  lemma TurnFollowsRules(s: Sequence, spoken: seq<nat>)
    requires Represents(s, spoken)
    ensures Valid(s)
    ensures Turn(s).0 == NextSpoken(spoken)
    ensures Represents(Turn(s).1, spoken + [Turn(s).0])
  {
    RepresentsValid(s, spoken);
    PushRepresents(s, spoken, Turn(s).0);
  }

  /** `Iterator::next`: always another number, the one `turn` speaks. */
  function Next(s: Sequence): (r: (Option<nat>, Sequence))
    requires Valid(s)
    ensures r.0.Some?
    ensures r == (Some(Turn(s).0), Turn(s).1)
  {
    var (age, s') := Turn(s);
    (Some(age), s')
  }

  /** The memory after `init` and `i` turns. */
  function Play(starting: seq<nat>, i: nat): (r: Sequence)
    requires |starting| >= 1
    ensures Represents(r, Spoken(starting, i))
    decreases i
  {
    if i == 0 then Init(starting).value
    else
      var before := Play(starting, i - 1);
      TurnFollowsRules(before, Spoken(starting, i - 1));
      Turn(before).1
  }

  /** Turns played one after another, as `nth` does. */
  method PlayTurns(starting: seq<nat>, n: nat) returns (game: Sequence)
    requires |starting| >= 1
    ensures game == Play(starting, n)
  {
    game := Init(starting).value;
    var i := 0;
    while i < n
      invariant 0 <= i <= n
      invariant game == Play(starting, i)
      decreases n - i
    {
      RepresentsValid(game, Spoken(starting, i));
      game := Turn(game).1;
      i := i + 1;
    }
  }

  /** `number_at`: the `target`-th number spoken, counting the starting
      numbers. No starting numbers panics in `init`, and a target not past
      them underflows `target - starting.len() - 1`. */
  method NumberAt(starting: seq<nat>, target: nat) returns (r: Outcome<nat>)
    ensures r.Panics? <==> starting == [] || target <= |starting|
    ensures r.Finishes? ==> r.value == Spoken(starting, target - |starting|)[target - 1]
  {
    if Init(starting).Panics? || target <= |starting| {
      return Panics;
    }
    var game := PlayTurns(starting, target - |starting|);
    LastSpoken(game, starting, target - |starting|);
    return Finishes(game.last);
  }

  /** The turn `part1` asks for. */
  const PT1_SPOKEN: nat := 2020

  /** The turn `part2` asks for. */
  const PT2_SPOKEN: nat := 30000000

  /** `part1`: a parse error, or the 2020th number spoken. */
  method Part1(input: string) returns (r: Outcome<Result<nat>>)
    ensures ParseInput(input).Err? ==> r == Finishes(Err(ParseInput(input).msg))
    ensures ParseInput(input).Ok? ==>
      var starting := ParseInput(input).value;
      && (r.Panics? <==> starting == [] || PT1_SPOKEN <= |starting|)
      && (r.Finishes? ==> r.value == Ok(Spoken(starting, PT1_SPOKEN - |starting|)[PT1_SPOKEN - 1]))
  {
    r := NumberAtInput(input, PT1_SPOKEN);
  }

  /** `part2`: a parse error, or the 30000000th number spoken. */
  method Part2(input: string) returns (r: Outcome<Result<nat>>)
    ensures ParseInput(input).Err? ==> r == Finishes(Err(ParseInput(input).msg))
    ensures ParseInput(input).Ok? ==>
      var starting := ParseInput(input).value;
      && (r.Panics? <==> starting == [] || PT2_SPOKEN <= |starting|)
      && (r.Finishes? ==> r.value == Ok(Spoken(starting, PT2_SPOKEN - |starting|)[PT2_SPOKEN - 1]))
  {
    r := NumberAtInput(input, PT2_SPOKEN);
  }

  /** The body both parts share: parse, then `number_at`. */
  method NumberAtInput(input: string, target: nat) returns (r: Outcome<Result<nat>>)
    ensures ParseInput(input).Err? ==> r == Finishes(Err(ParseInput(input).msg))
    ensures ParseInput(input).Ok? ==>
      var starting := ParseInput(input).value;
      && (r.Panics? <==> starting == [] || target <= |starting|)
      && (r.Finishes? ==> r.value == Ok(Spoken(starting, target - |starting|)[target - 1]))
  {
    var starting := ParseInput(input);
    if starting.Err? {
      return Finishes(Err(starting.msg));
    }
    var n := NumberAt(starting.value, target);
    if n.Panics? {
      return Panics;
    }
    return Finishes(Ok(n.value));
  }

  lemma LastSpoken(s: Sequence, starting: seq<nat>, n: nat)
    requires |starting| >= 1 && Represents(s, Spoken(starting, n))
    ensures s.last == Spoken(starting, n)[|starting| + n - 1]
  {
  }

  // ---------------------------------------------------------------------
  // Parsing
  // ---------------------------------------------------------------------

  /** `flatten`: the inner sequences one after another. */
  function Flatten<T>(xss: seq<seq<T>>): seq<T>
    decreases |xss|
  {
    if xss == [] then [] else xss[0] + Flatten(xss[1..])
  }

  /** The tokens of the input: whitespace-separated words, each split at
      its commas. */
  function Tokens(s: string): seq<string> {
    var words := Words(s, IsWhitespace);
    Flatten(seq(|words|, i requires 0 <= i < |words| => Split(words[i], ",")))
  }

  /** `parse_input`: every token read as a `u32`. */
  function ParseInput(s: string): (r: Result<seq<nat>>)
    ensures r.Ok? <==> forall i | 0 <= i < |Tokens(s)| :: ParseU32(Tokens(s)[i]).Ok?
    ensures r.Ok? ==> |r.value| == |Tokens(s)|
    ensures r.Ok? ==> forall i | 0 <= i < |r.value| :: ParseU32(Tokens(s)[i]) == Ok(r.value[i])
  {
    CollectAll(Tokens(s), ParseU32)
  }

  /** The starting numbers written the way puzzle inputs are: joined by
      commas. */
  function FormatInput(xs: seq<nat>): string {
    Join(seq(|xs|, i requires 0 <= i < |xs| => NatToString(xs[i])), ",")
  }

  /** A non-empty word without separators is one word. */
  lemma {:induction false} WordLengthToEnd(s: string, sep: char -> bool, from: nat)
    requires 1 <= from <= |s|
    requires forall j | 0 <= j < |s| :: !sep(s[j])
    ensures WordLength(s, sep, from) == |s|
    decreases |s| - from
  {
    if from < |s| {
      WordLengthToEnd(s, sep, from + 1);
    }
  }

  lemma SingleWord(s: string, sep: char -> bool)
    requires |s| > 0 && forall j | 0 <= j < |s| :: !sep(s[j])
    ensures Words(s, sep) == [s]
  {
    WordLengthToEnd(s, sep, 1);
    assert s[..|s|] == s;
    assert Words(s[|s|..], sep) == [];
  }

  lemma {:induction false} JoinNoWhitespace(parts: seq<string>)
    requires forall i, j | 0 <= i < |parts| && 0 <= j < |parts[i]| :: IsAsciiDigit(parts[i][j])
    ensures forall j | 0 <= j < |Join(parts, ",")| :: !IsWhitespace(Join(parts, ",")[j])
    decreases |parts|
  {
    if |parts| > 1 {
      JoinNoWhitespace(parts[1..]);
      var s := Join(parts, ",");
      var tail := Join(parts[1..], ",");
      assert s == parts[0] + "," + tail;
      forall j | 0 <= j < |s|
        ensures !IsWhitespace(s[j])
      {
        if j < |parts[0]| {
          assert s[j] == parts[0][j];
        } else if j > |parts[0]| {
          assert s[j] == tail[j - |parts[0]| - 1];
        }
      }
    }
  }

  /** Text without whitespace is a single word, split only at its commas. */
  lemma TokensOfWord(s: string)
    requires |s| > 0 && forall j | 0 <= j < |s| :: !IsWhitespace(s[j])
    ensures Tokens(s) == Split(s, ",")
  {
    SingleWord(s, IsWhitespace);
    var words := Words(s, IsWhitespace);
    var pieces := seq(|words|, i requires 0 <= i < |words| => Split(words[i], ","));
    assert |pieces| == 1 && pieces[0] == Split(s, ",");
    assert Flatten(pieces[1..]) == [] by {
      assert pieces[1..] == [];
    }
    assert Flatten(pieces) == pieces[0] + Flatten(pieces[1..]);
  }

  /** The rendered starting numbers: non-empty digit runs joined by commas. */
  lemma FormatInputShape(xs: seq<nat>)
    requires |xs| >= 1
    ensures var parts := seq(|xs|, i requires 0 <= i < |xs| => NatToString(xs[i]));
      && FormatInput(xs) == Join(parts, ",")
      && |FormatInput(xs)| > 0
      && (forall j | 0 <= j < |FormatInput(xs)| :: !IsWhitespace(FormatInput(xs)[j]))
      && (forall i | 0 <= i < |parts| :: ',' !in parts[i])
  {
    var parts := seq(|xs|, i requires 0 <= i < |xs| => NatToString(xs[i]));
    forall i | 0 <= i < |parts|
      ensures ',' !in parts[i] && AllDigits(parts[i])
    {
      NoCommaInDigits(parts[i]);
    }
    JoinNoWhitespace(parts);
    assert |parts[0]| > 0;
    if |parts| > 1 {
      assert Join(parts, ",") == parts[0] + "," + Join(parts[1..], ",");
    }
  }

  lemma NoCommaInDigits(s: string)
    requires AllDigits(s)
    ensures ',' !in s
  {
  }

  /** Any non-empty list of `u32` starting numbers survives formatting and
      parsing. */
  lemma ParseFormatInput(xs: seq<nat>)
    requires |xs| >= 1 && forall i | 0 <= i < |xs| :: xs[i] <= U32_MAX
    ensures ParseInput(FormatInput(xs)) == Ok(xs)
  {
    var parts := seq(|xs|, i requires 0 <= i < |xs| => NatToString(xs[i]));
    var s := FormatInput(xs);
    FormatInputShape(xs);
    TokensOfWord(s);
    SplitJoin(parts, ',');
    assert Tokens(s) == parts;
    forall i | 0 <= i < |parts|
      ensures ParseU32(parts[i]) == Ok(xs[i])
    {
      ParseU32OfString(xs[i]);
    }
    var r := ParseInput(s);
    assert r.Ok? && |r.value| == |xs|;
    assert forall i | 0 <= i < |xs| :: Ok(r.value[i]) == ParseU32(parts[i]) == Ok(xs[i]);
    assert r.value == xs;
  }

  // ---------------------------------------------------------------------
  // Examples
  // ---------------------------------------------------------------------

  /** From 0, 3, 6 the game continues 0, 3, 3, 1, 0, 4, 0. */
  lemma ExampleSequence()
    ensures Spoken([0, 3, 6], 7) == [0, 3, 6, 0, 3, 3, 1, 0, 4, 0]
  {
    var s := [0, 3, 6];
    assert [0, 3, 6, 0, 3, 3, 1] + [0] == [0, 3, 6, 0, 3, 3, 1, 0];
    assert [0, 3, 6, 0, 3, 3, 1, 0] + [4] == [0, 3, 6, 0, 3, 3, 1, 0, 4];
    assert [0, 3, 6, 0, 3, 3, 1, 0, 4] + [0] == [0, 3, 6, 0, 3, 3, 1, 0, 4, 0];
    ExampleFirstTurns();
    ExampleLateTurns();
    SpokenNext(s, 4, [0, 3, 6, 0, 3, 3, 1]);
    SpokenNext(s, 5, [0, 3, 6, 0, 3, 3, 1, 0]);
    SpokenNext(s, 6, [0, 3, 6, 0, 3, 3, 1, 0, 4]);
  }

  /** The first four turns of the example. */
  lemma ExampleFirstTurns()
    ensures Spoken([0, 3, 6], 4) == [0, 3, 6, 0, 3, 3, 1]
  {
    var s := [0, 3, 6];
    assert [0, 3, 6] + [0] == [0, 3, 6, 0];
    assert [0, 3, 6, 0] + [3] == [0, 3, 6, 0, 3];
    assert [0, 3, 6, 0, 3] + [3] == [0, 3, 6, 0, 3, 3];
    assert [0, 3, 6, 0, 3, 3] + [1] == [0, 3, 6, 0, 3, 3, 1];
    ExampleEarlyTurns();
    SpokenNext(s, 0, [0, 3, 6]);
    SpokenNext(s, 1, [0, 3, 6, 0]);
    SpokenNext(s, 2, [0, 3, 6, 0, 3]);
    SpokenNext(s, 3, [0, 3, 6, 0, 3, 3]);
  }

  /** One more turn appends the number `NextSpoken` picks. */
  lemma SpokenNext(starting: seq<nat>, n: nat, before: seq<nat>)
    requires |starting| >= 1 && Spoken(starting, n) == before
    ensures Spoken(starting, n + 1) == before + [NextSpoken(before)]
  {
  }

  /** The turns that speak 0, 3, 3 and 1. */
  lemma ExampleEarlyTurns()
    ensures NextSpoken([0, 3, 6]) == 0
    ensures NextSpoken([0, 3, 6, 0]) == 3
    ensures NextSpoken([0, 3, 6, 0, 3]) == 3
    ensures NextSpoken([0, 3, 6, 0, 3, 3]) == 1
  {
    assert [0, 3, 6][..2] == [0, 3];
    assert [0, 3, 6, 0][..3] == [0, 3, 6];
    assert [0, 3, 6, 0, 3][..4] == [0, 3, 6, 0];
    assert [0, 3, 6, 0, 3, 3][..5] == [0, 3, 6, 0, 3];
    assert LastTurn([0, 3], 6) == None;
    assert LastTurn([0, 3, 6], 0) == Some(1);
    assert LastTurn([0, 3, 6, 0], 3) == Some(2);
    assert LastTurn([0, 3, 6, 0, 3], 3) == Some(5);
  }

  /** The turns that speak 0, 4 and 0. */
  lemma ExampleLateTurns()
    ensures NextSpoken([0, 3, 6, 0, 3, 3, 1]) == 0
    ensures NextSpoken([0, 3, 6, 0, 3, 3, 1, 0]) == 4
    ensures NextSpoken([0, 3, 6, 0, 3, 3, 1, 0, 4]) == 0
  {
    assert [0, 3, 6, 0, 3, 3, 1][..6] == [0, 3, 6, 0, 3, 3];
    assert [0, 3, 6, 0, 3, 3, 1, 0][..7] == [0, 3, 6, 0, 3, 3, 1];
    assert [0, 3, 6, 0, 3, 3, 1, 0, 4][..8] == [0, 3, 6, 0, 3, 3, 1, 0];
    assert LastTurn([0, 3, 6, 0, 3, 3], 1) == None;
    assert LastTurn([0, 3, 6, 0, 3, 3, 1], 0) == Some(4);
    assert LastTurn([0, 3, 6, 0, 3, 3, 1, 0], 4) == None;
  }
}
