/** Day 4: passport processing (`src/challenge/day4/mod.rs`).

    A passport is a set of `key:value` fields spread over one or more lines;
    blank lines separate passports. A passport is complete when the seven
    required fields are present, and valid when each of them also passes
    its own check. */
module Passports {
  import opened Wrappers
  import opened Text
  import opened Seqs

  /** The eight keys a `PassportBuilder` has a slot for. */
  datatype Field = Byr | Iyr | Eyr | Hgt | Hcl | Ecl | Pid | Cid

  /** A `PassportBuilder`: the fields seen so far, with their text. */
  type Passport = map<Field, string>

  const EMPTY: Passport := map[]

  function Name(f: Field): string {
    match f
    case Byr => "byr" case Iyr => "iyr" case Eyr => "eyr" case Hgt => "hgt"
    case Hcl => "hcl" case Ecl => "ecl" case Pid => "pid" case Cid => "cid"
  }

  /** The key of `parse_kv`'s match; any other text is unknown. */
  function FieldNamed(k: string): (r: Option<Field>)
    ensures r.Some? ==> Name(r.value) == k
    ensures (exists f :: Name(f) == k) ==> r.Some?
  {
    if k == "byr" then Some(Byr) else if k == "iyr" then Some(Iyr)
    else if k == "eyr" then Some(Eyr) else if k == "hgt" then Some(Hgt)
    else if k == "hcl" then Some(Hcl) else if k == "ecl" then Some(Ecl)
    else if k == "pid" then Some(Pid) else if k == "cid" then Some(Cid)
    else None
  }

  lemma FieldNamedName(f: Field)
    ensures FieldNamed(Name(f)) == Some(f)
  {
  }

  // ---------------------------------------------------------------------
  // Completeness
  // ---------------------------------------------------------------------

  /** `is_complete`: every field except `cid` is present. */
  predicate IsComplete(p: Passport) {
    Byr in p && Iyr in p && Eyr in p && Hgt in p && Hcl in p && Ecl in p && Pid in p
  }

  lemma CompleteIgnoresCid(p: Passport)
    ensures IsComplete(p) <==> forall f | f != Cid :: f in p
  {
    if IsComplete(p) {
      forall f | f != Cid
        ensures f in p
      {
        match f
        case Byr => case Iyr => case Eyr => case Hgt =>
        case Hcl => case Ecl => case Pid =>
      }
    }
  }

  // ---------------------------------------------------------------------
  // Field checks
  // ---------------------------------------------------------------------

  /** `check_year`: the field is present, reads as a `u32`, and lies in
      `[low, high]`. */
  function CheckYear(p: Passport, f: Field, low: nat, high: nat): (r: Result<()>)
    ensures r.Ok? <==> f in p && ParseU32(p[f]).Ok? && low <= ParseU32(p[f]).value <= high
  {
    var s :- OkOr(if f in p then Some(p[f]) else None, "no year");
    var y :- ParseU32(s);
    if y < low then Err("year too low")
    else if y > high then Err("year too high")
    else Ok(())
  }

  /** The three year checks of `is_valid`, which run before the height. */
  predicate YearsOk(p: Passport) {
    && CheckYear(p, Byr, 1920, 2002).Ok?
    && CheckYear(p, Iyr, 2010, 2020).Ok?
    && CheckYear(p, Eyr, 2020, 2030).Ok?
  }

  /** `valid_height` slices off the last two bytes, which panics on a
      height shorter than two characters. */
  predicate HeightPanics(p: Passport) {
    Hgt in p && |p[Hgt]| < 2
  }

  /** `valid_height`: a `u32` followed by "cm" within 150..=193 or by "in"
      within 59..=76. */
  function ValidHeight(p: Passport): (r: Result<()>)
    requires !HeightPanics(p)
    ensures r.Ok? <==>
      && Hgt in p
      && var s := p[Hgt];
         var n := ParseU32(s[..|s| - 2]);
         var unit := s[|s| - 2..];
         n.Ok? && ((unit == "cm" && 150 <= n.value <= 193) || (unit == "in" && 59 <= n.value <= 76))
  {
    var s :- OkOr(if Hgt in p then Some(p[Hgt]) else None, "no height");
    var value :- ParseU32(s[..|s| - 2]);
    var unit := s[|s| - 2..];
    if unit == "cm" then
      if value < 150 || value > 193 then Err("invalid height in cm") else Ok(())
    else if unit == "in" then
      if value < 59 || value > 76 then Err("invalid height in in") else Ok(())
    else Err("height contained invalid unit")
  }

  predicate IsLowerHexDigit(c: char) {
    '0' <= c <= '9' || 'a' <= c <= 'f'
  }

  /** The loop of `valid_hair_color` from character `idx` on. */
  function HairColorFrom(s: string, idx: nat): (r: Result<()>)
    requires idx <= |s|
    ensures r.Ok? <==>
      (idx == 0 && |s| > 0 ==> s[0] == '#')
      && forall i | idx <= i < |s| && 1 <= i :: IsLowerHexDigit(s[i])
    decreases |s| - idx
  {
    if idx == |s| then Ok(())
    else if idx == 0 then
      if s[0] != '#' then Err("did not start with '#'") else HairColorFrom(s, 1)
    else if IsLowerHexDigit(s[idx]) then HairColorFrom(s, idx + 1)
    else Err("invalid char")
  }

  /** `valid_hair_color`: a leading '#' and lower-case hex digits after it.
      The length is not checked, so "#" and even "" pass. */
  function ValidHairColor(p: Passport): (r: Result<()>)
    ensures r.Ok? <==>
      && Hcl in p
      && (|p[Hcl]| > 0 ==> p[Hcl][0] == '#')
      && forall i | 1 <= i < |p[Hcl]| :: IsLowerHexDigit(p[Hcl][i])
  {
    var s :- OkOr(if Hcl in p then Some(p[Hcl]) else None, "no color");
    HairColorFrom(s, 0)
  }

  const EYE_COLORS: set<string> := {"amb", "blu", "brn", "gry", "grn", "hzl", "oth"}

  /** `valid_eye_color`: one of the seven three-letter colours. */
  function ValidEyeColor(p: Passport): (r: Result<()>)
    ensures r.Ok? <==> Ecl in p && p[Ecl] in EYE_COLORS
  {
    var s :- OkOr(if Ecl in p then Some(p[Ecl]) else None, "no color");
    if s in EYE_COLORS then Ok(()) else Err("invalid eye color")
  }

  /** The digit loop of `valid_passport_id` from character `idx` on. */
  function DigitsFrom(s: string, idx: nat): (r: Result<()>)
    requires idx <= |s|
    ensures r.Ok? <==> forall i | idx <= i < |s| :: IsAsciiDigit(s[i])
    decreases |s| - idx
  {
    if idx == |s| then Ok(())
    else if IsAsciiDigit(s[idx]) then DigitsFrom(s, idx + 1)
    else Err("char was not a number")
  }

  /** `valid_passport_id`: exactly nine ASCII digits. */
  function ValidPassportId(p: Passport): (r: Result<()>)
    ensures r.Ok? <==> Pid in p && |p[Pid]| == 9 && AllDigits(p[Pid])
  {
    var s :- OkOr(if Pid in p then Some(p[Pid]) else None, "no passport id");
    if |s| != 9 then Err("incorrect pid length") else DigitsFrom(s, 0)
  }

  /** `is_valid` reaches the height check, and panics there, exactly when
      the years pass and the height is too short to slice. */
  predicate ValidPanics(p: Passport) {
    YearsOk(p) && HeightPanics(p)
  }

  /** `is_valid`: the checks in order; the first failure is the result. */
  function IsValid(p: Passport): (r: Result<()>)
    requires !ValidPanics(p)
    ensures r.Ok? <==>
      YearsOk(p) && ValidHeight(p).Ok? && ValidHairColor(p).Ok?
      && ValidEyeColor(p).Ok? && ValidPassportId(p).Ok?
  {
    var _ :- CheckYear(p, Byr, 1920, 2002);
    var _ :- CheckYear(p, Iyr, 2010, 2020);
    var _ :- CheckYear(p, Eyr, 2020, 2030);
    var _ :- ValidHeight(p);
    var _ :- ValidHairColor(p);
    var _ :- ValidEyeColor(p);
    ValidPassportId(p)
  }

  /** A valid passport is complete. */
  lemma ValidIsComplete(p: Passport)
    requires !ValidPanics(p) && IsValid(p).Ok?
    ensures IsComplete(p)
  {
  }

  // ---------------------------------------------------------------------
  // Parsing
  // ---------------------------------------------------------------------

  /** One `key:value` token of `parse_kv`, split at its first ':'. */
  function ParsePair(pair: string): (r: Result<(Field, string)>)
    ensures r.Ok? <==> Contains(pair, ":") && FieldNamed(SplitOnce(pair, ":").0).Some?
    ensures r.Ok? ==> Name(r.value.0) == SplitOnce(pair, ":").0 && r.value.1 == SplitOnce(pair, ":").1.value
  {
    var (k, rest) := SplitOnce(pair, ":");
    var v :- OkOr(rest, "kv did not have ':'");
    var f :- OkOr(FieldNamed(k), "unknown key");
    Ok((f, v))
  }

  /** Every field and value is read back from its token. */
  lemma ParsePairOfToken(f: Field, v: string)
    ensures ParsePair(Name(f) + ":" + v) == Ok((f, v))
  {
    assert ':' !in Name(f);
    assert Name(f) + ":" + v == Name(f) + [':'] + v;
    SplitOnceChar(Name(f), ':', v);
  }

  /** The field assignments of `parse_kv`, in order: a later assignment
      to a field overwrites an earlier one. */
  function Assign(b: Passport, pairs: seq<(Field, string)>): Passport
    decreases |pairs|
  {
    if pairs == [] then b
    else
      var (f, v) := pairs[|pairs| - 1];
      Assign(b, pairs[..|pairs| - 1])[f := v]
  }

  /** After the assignments a field is present when it was before or some
      assignment names it. */
  lemma {:induction false} AssignKeys(b: Passport, pairs: seq<(Field, string)>, f: Field)
    ensures f in Assign(b, pairs) <==> f in b || exists i | 0 <= i < |pairs| :: pairs[i].0 == f
    decreases |pairs|
  {
    if pairs != [] {
      var before := pairs[..|pairs| - 1];
      AssignKeys(b, before, f);
      if pairs[|pairs| - 1].0 != f && exists i | 0 <= i < |pairs| :: pairs[i].0 == f {
        var i :| 0 <= i < |pairs| && pairs[i].0 == f;
        assert before[i].0 == f;
      }
    }
  }

  /** A repeated key overwrites: a field holds the value of the last
      assignment to it, and keeps its old value when there is none. */
  lemma {:induction false} AssignLastWins(b: Passport, pairs: seq<(Field, string)>, f: Field)
    ensures forall i | 0 <= i < |pairs| && pairs[i].0 == f && (forall j | i < j < |pairs| :: pairs[j].0 != f) ::
      f in Assign(b, pairs) && Assign(b, pairs)[f] == pairs[i].1
    ensures f in b && (forall i | 0 <= i < |pairs| :: pairs[i].0 != f) ==>
      f in Assign(b, pairs) && Assign(b, pairs)[f] == b[f]
    decreases |pairs|
  {
    if pairs != [] {
      var before := pairs[..|pairs| - 1];
      AssignLastWins(b, before, f);
      assert forall i | 0 <= i < |before| :: before[i] == pairs[i];
    }
  }

  /** `parse_kv` on the tokens of one line: every token must parse, and the
      first one that does not fails the line; then each sets its field in
      turn. */
  function ParseKv(tokens: seq<string>, b: Passport): (r: Result<Passport>)
    ensures r.Ok? <==> AllPairs(tokens)
    ensures r.Ok? ==> exists pairs: seq<(Field, string)> |
      |pairs| == |tokens| && (forall i | 0 <= i < |tokens| :: ParsePair(tokens[i]) == Ok(pairs[i])) ::
        r.value == Assign(b, pairs)
  {
    var pairs :- CollectAll(tokens, ParsePair);
    Ok(Assign(b, pairs))
  }

  /** Tokens that all parse. */
  predicate AllPairs(tokens: seq<string>) {
    forall i | 0 <= i < |tokens| :: ParsePair(tokens[i]).Ok?
  }

  /** A line of tokens that all parse. */
  predicate LineParses(line: string) {
    AllPairs(Words(line, IsAsciiWhitespace))
  }

  predicate IsBlank(line: string) {
    line == []
  }

  /** Every line that is not blank holds only tokens that parse. */
  predicate AllLinesParse(lines: seq<string>) {
    forall i | 0 <= i < |lines| && !IsBlank(lines[i]) :: LineParses(lines[i])
  }

  /** The loop of `parse` over the first lines: the passports closed by a
      blank line so far, and the builder being filled. */
  function Collect(lines: seq<string>): (r: Result<(seq<Passport>, Passport)>)
    ensures r.Ok? <==> AllLinesParse(lines)
    ensures r.Ok? ==> |r.value.0| == Count(lines, IsBlank)
    decreases |lines|
  {
    if lines == [] then Ok(([], EMPTY))
    else
      var before := lines[..|lines| - 1];
      var line := lines[|lines| - 1];
      assert lines == before + [line];
      CountConcat(before, [line], IsBlank);
      assert AllLinesParse(lines) <==> AllLinesParse(before) && (IsBlank(line) || LineParses(line)) by {
        assert forall i | 0 <= i < |before| :: lines[i] == before[i];
      }
      match Collect(before)
      case Err(msg) => Err(msg)
      case Ok((done, current)) =>
        if IsBlank(line) then Ok((done + [current], EMPTY))
        else
          match ParseKv(Words(line, IsAsciiWhitespace), current)
          case Err(msg) => Err(msg)
          case Ok(next) => Ok((done, next))
  }

  /** The lines of one passport, each read by `parse_kv` in turn, starting
      from the builder `b`. */
  function FoldLines(b: Passport, block: seq<string>): Result<Passport>
    decreases |block|
  {
    if block == [] then Ok(b)
    else
      var before :- FoldLines(b, block[..|block| - 1]);
      ParseKv(Words(block[|block| - 1], IsAsciiWhitespace), before)
  }

  /** Passport `k` is the fold of block `k`, for every `k`. */
  ghost predicate FoldsBlocks(blocks: seq<seq<string>>, passports: seq<Passport>) {
    && |blocks| == |passports|
    && forall k | 0 <= k < |blocks| :: FoldLines(EMPTY, blocks[k]) == Ok(passports[k])
  }

  /** `FoldsBlocks` only looks at the blocks' values. */
  lemma FoldsBlocksSame(blocks: seq<seq<string>>, blocks': seq<seq<string>>, passports: seq<Passport>)
    requires blocks == blocks' && FoldsBlocks(blocks', passports)
    ensures FoldsBlocks(blocks, passports)
  {
  }

  /** A blank line closes the builder and starts an empty block. */
  lemma FoldsBlocksClose(blocks: seq<seq<string>>, passports: seq<Passport>)
    requires FoldsBlocks(blocks, passports)
    ensures FoldsBlocks(blocks + [[]], passports + [EMPTY])
  {
    var blocks', passports' := blocks + [[]], passports + [EMPTY];
    forall k | 0 <= k < |blocks'|
      ensures FoldLines(EMPTY, blocks'[k]) == Ok(passports'[k])
    {
      if k < |blocks| {
        assert blocks'[k] == blocks[k] && passports'[k] == passports[k];
      } else {
        assert blocks'[k] == [] && passports'[k] == EMPTY;
      }
    }
  }

  /** Reading one more line of a block. */
  lemma FoldLinesSnoc(block: seq<string>, line: string, current: Passport, next: Passport)
    requires FoldLines(EMPTY, block) == Ok(current)
    requires ParseKv(Words(line, IsAsciiWhitespace), current) == Ok(next)
    ensures FoldLines(EMPTY, block + [line]) == Ok(next)
  {
    assert (block + [line])[..|block|] == block;
  }

  /** Replacing the last block and its passport together. */
  lemma FoldsBlocksReplaceLast(blocks: seq<seq<string>>, done: seq<Passport>, current: Passport, block: seq<string>, next: Passport)
    requires FoldsBlocks(blocks, done + [current])
    requires FoldLines(EMPTY, block) == Ok(next)
    ensures FoldsBlocks(blocks[..|blocks| - 1] + [block], done + [next])
  {
    var blocks' := blocks[..|blocks| - 1] + [block];
    var passports' := done + [next];
    forall k | 0 <= k < |blocks'|
      ensures FoldLines(EMPTY, blocks'[k]) == Ok(passports'[k])
    {
      if k < |done| {
        assert blocks'[k] == blocks[k] && passports'[k] == (done + [current])[k];
      } else {
        assert blocks'[k] == block && passports'[k] == next;
      }
    }
  }

  /** Another line of the current passport extends the last block. */
  lemma FoldsBlocksExtend(blocks: seq<seq<string>>, done: seq<Passport>, current: Passport, line: string, next: Passport)
    requires FoldsBlocks(blocks, done + [current])
    requires ParseKv(Words(line, IsAsciiWhitespace), current) == Ok(next)
    ensures FoldsBlocks(blocks[..|blocks| - 1] + [blocks[|blocks| - 1] + [line]], done + [next])
  {
    var last := blocks[|blocks| - 1];
    assert FoldLines(EMPTY, last) == Ok(current) by {
      assert (done + [current])[|done|] == current;
    }
    FoldLinesSnoc(last, line, current, next);
    FoldsBlocksReplaceLast(blocks, done, current, last + [line], next);
  }

  /** A blank last line starts a new, empty block. */
  lemma SplitWhereBlank(lines: seq<string>)
    requires lines != [] && IsBlank(lines[|lines| - 1])
    ensures SplitWhere(lines, IsBlank) == SplitWhere(lines[..|lines| - 1], IsBlank) + [[]]
  {
  }

  /** Any other last line joins the last block. */
  lemma SplitWhereLine(lines: seq<string>)
    requires lines != [] && !IsBlank(lines[|lines| - 1])
    ensures
      var runs := SplitWhere(lines[..|lines| - 1], IsBlank);
      SplitWhere(lines, IsBlank) == runs[..|runs| - 1] + [runs[|runs| - 1] + [lines[|lines| - 1]]]
  {
  }

  /** `Collect` on one more line. */
  lemma CollectLast(lines: seq<string>)
    requires lines != [] && Collect(lines).Ok?
    ensures Collect(lines[..|lines| - 1]).Ok?
    ensures
      var (done, current) := Collect(lines[..|lines| - 1]).value;
      var line := lines[|lines| - 1];
      && (IsBlank(line) ==> Collect(lines).value == (done + [current], EMPTY))
      && (!IsBlank(line) ==>
           && ParseKv(Words(line, IsAsciiWhitespace), current).Ok?
           && Collect(lines).value == (done, ParseKv(Words(line, IsAsciiWhitespace), current).value))
  {
  }

  /** A blank last line closes the passport of the block before it. */
  lemma CollectFoldsBlank(lines: seq<string>, done: seq<Passport>, current: Passport)
    requires lines != [] && IsBlank(lines[|lines| - 1])
    requires FoldsBlocks(SplitWhere(lines[..|lines| - 1], IsBlank), done + [current])
    ensures FoldsBlocks(SplitWhere(lines, IsBlank), done + [current] + [EMPTY])
  {
    var runs := SplitWhere(lines[..|lines| - 1], IsBlank);
    SplitWhereBlank(lines);
    FoldsBlocksClose(runs, done + [current]);
    FoldsBlocksSame(SplitWhere(lines, IsBlank), runs + [[]], done + [current] + [EMPTY]);
  }

  /** Any other last line is read into the passport of the last block. */
  lemma CollectFoldsLine(lines: seq<string>, done: seq<Passport>, current: Passport, next: Passport)
    requires lines != [] && !IsBlank(lines[|lines| - 1])
    requires ParseKv(Words(lines[|lines| - 1], IsAsciiWhitespace), current) == Ok(next)
    requires FoldsBlocks(SplitWhere(lines[..|lines| - 1], IsBlank), done + [current])
    ensures FoldsBlocks(SplitWhere(lines, IsBlank), done + [next])
  {
    var runs := SplitWhere(lines[..|lines| - 1], IsBlank);
    var line := lines[|lines| - 1];
    var runs' := runs[..|runs| - 1] + [runs[|runs| - 1] + [line]];
    assert FoldsBlocks(runs', done + [next]) by {
      FoldsBlocksExtend(runs, done, current, line, next);
    }
    SplitWhereLine(lines);
    FoldsBlocksSame(SplitWhere(lines, IsBlank), runs', done + [next]);
  }

  /** One more line keeps the passports in step with the blocks. */
  lemma CollectFoldsStep(lines: seq<string>)
    requires lines != [] && Collect(lines).Ok?
    requires Collect(lines[..|lines| - 1]).Ok?
    requires
      var (done, current) := Collect(lines[..|lines| - 1]).value;
      FoldsBlocks(SplitWhere(lines[..|lines| - 1], IsBlank), done + [current])
    ensures FoldsBlocks(SplitWhere(lines, IsBlank), Collect(lines).value.0 + [Collect(lines).value.1])
  {
    CollectLast(lines);
    var (done, current) := Collect(lines[..|lines| - 1]).value;
    if IsBlank(lines[|lines| - 1]) {
      CollectFoldsBlank(lines, done, current);
    } else {
      CollectFoldsLine(lines, done, current, ParseKv(Words(lines[|lines| - 1], IsAsciiWhitespace), current).value);
    }
  }

  /** Without lines there is one empty block and the empty builder. */
  lemma CollectFoldsNone()
    ensures FoldsBlocks(SplitWhere([], IsBlank), Collect([]).value.0 + [Collect([]).value.1])
  {
    assert FoldLines(EMPTY, []) == Ok(EMPTY);
  }

  /** The line before the last one parses whenever all of them do. */
  lemma CollectFront(lines: seq<string>)
    requires lines != [] && Collect(lines).Ok?
    ensures Collect(lines[..|lines| - 1]).Ok?
  {
    CollectLast(lines);
  }

  /** The loop of `parse` reads the blocks of lines between blank lines:
      the passports closed so far and the builder are the folds of the
      blocks. */
  lemma {:induction false} CollectFoldsBlocks(lines: seq<string>)
    requires Collect(lines).Ok?
    ensures FoldsBlocks(SplitWhere(lines, IsBlank), Collect(lines).value.0 + [Collect(lines).value.1])
    decreases |lines|
  {
    if lines == [] {
      CollectFoldsNone();
    } else {
      CollectFront(lines);
      CollectFoldsBlocks(lines[..|lines| - 1]);
      CollectFoldsStep(lines);
    }
  }

  /** `parse`: every blank line closes a passport, and the builder left at
      the end is always kept, so there is one more passport than blank
      lines; each passport is what `parse_kv` makes of its block of lines. */
  function Parse(input: string): (r: Result<seq<Passport>>)
    ensures r.Ok? <==> AllLinesParse(Lines(input))
    ensures r.Ok? ==> |r.value| == Count(Lines(input), IsBlank) + 1
    ensures r.Ok? ==> FoldsBlocks(SplitWhere(Lines(input), IsBlank), r.value)
  {
    var state :- Collect(Lines(input));
    CollectFoldsBlocks(Lines(input));
    Ok(state.0 + [state.1])
  }

  // ---------------------------------------------------------------------
  // The puzzle
  // ---------------------------------------------------------------------

  /** `part1`: how many passports are complete. */
  function Part1(input: string): (r: Result<nat>)
    ensures r.Ok? <==> Parse(input).Ok?
    ensures r.Ok? ==> r.value <= Count(Lines(input), IsBlank) + 1
    ensures r.Ok? ==> (r.value == 0 <==> forall i | 0 <= i < |Parse(input).value| :: !IsComplete(Parse(input).value[i]))
    ensures r.Ok? ==> r.value == |Positions(Parse(input).value, IsComplete)|
  {
    var passports :- Parse(input);
    CountPositions(passports, IsComplete);
    Ok(Count(passports, IsComplete))
  }

  /** A passport `part2` counts; the panicking case is excluded by the
      callers' precondition. */
  predicate Passes(p: Passport) {
    !ValidPanics(p) && IsValid(p).Ok?
  }

  /** `part2`: how many passports are valid; no passport may make
      `valid_height` panic. */
  function Part2(input: string): (r: Result<nat>)
    requires Parse(input).Ok? ==> forall i | 0 <= i < |Parse(input).value| :: !ValidPanics(Parse(input).value[i])
    ensures r.Ok? <==> Parse(input).Ok?
    ensures r.Ok? ==> r.value <= Part1(input).value
    ensures r.Ok? ==> r.value == |Positions(Parse(input).value, Passes)|
  {
    var passports :- Parse(input);
    ValidCountAtMostComplete(passports);
    CountPositions(passports, Passes);
    Ok(Count(passports, Passes))
  }

  lemma {:induction false} ValidCountAtMostComplete(ps: seq<Passport>)
    ensures Count(ps, Passes) <= Count(ps, IsComplete)
    decreases |ps|
  {
    if ps != [] {
      ValidCountAtMostComplete(ps[1..]);
    }
  }

  // ---------------------------------------------------------------------
  // The field examples of the puzzle statement
  // ---------------------------------------------------------------------

  lemma YearExamples()
    ensures CheckYear(map[Byr := "2002"], Byr, 1920, 2002).Ok?
    ensures CheckYear(map[Byr := "2003"], Byr, 1920, 2002).Err?
  {
    assert DecimalValue("2002") == 2002 by {
      assert "2002"[..3] == "200" && "200"[..2] == "20" && "20"[..1] == "2";
    }
  }

  lemma HeightExamples()
    ensures ValidHeight(map[Hgt := "60in"]).Ok?
    ensures ValidHeight(map[Hgt := "190cm"]).Ok?
    ensures ValidHeight(map[Hgt := "190in"]).Err?
    ensures ValidHeight(map[Hgt := "190"]).Err?
  {
    InchHeightExample();
    CentimetreHeightExamples();
    assert "190"[..1] == "1" && "190"[1..] == "90";
  }

  lemma InchHeightExample()
    ensures ValidHeight(map[Hgt := "60in"]).Ok?
  {
    assert "60in"[..2] == "60" && "60in"[2..] == "in";
    assert DecimalValue("60") == 60 by {
      assert "60"[..1] == "6";
    }
  }

  lemma CentimetreHeightExamples()
    ensures ValidHeight(map[Hgt := "190cm"]).Ok?
    ensures ValidHeight(map[Hgt := "190in"]).Err?
  {
    assert "190cm"[..3] == "190" && "190cm"[3..] == "cm";
    assert "190in"[..3] == "190" && "190in"[3..] == "in";
    assert DecimalValue("190") == 190 by {
      assert "190"[..2] == "19" && "19"[..1] == "1";
    }
  }

  lemma ColorExamples()
    ensures ValidHairColor(map[Hcl := "#123abc"]).Ok?
    ensures ValidHairColor(map[Hcl := "#123abz"]).Err?
    ensures ValidHairColor(map[Hcl := "123abc"]).Err?
    ensures ValidEyeColor(map[Ecl := "brn"]).Ok?
    ensures ValidEyeColor(map[Ecl := "wat"]).Err?
  {
  }

  lemma PassportIdExamples()
    ensures ValidPassportId(map[Pid := "000000001"]).Ok?
    ensures ValidPassportId(map[Pid := "0123456789"]).Err?
  {
  }
}
