/** Day 2: password policies (`src/challenge/day2/mod.rs`).

    Each line is "<min>-<max> <c>: <password>". The first policy bounds how
    often `c` occurs; the second asks that exactly one of the 1-based
    positions `min` and `max` holds `c`. */
module Passwords {
  import opened Wrappers
  import opened Text
  import opened Seqs
  import Numbers

  datatype Policy = Policy(min: nat, max: nat, c: char)

  datatype Entry = Entry(policy: Policy, password: string)

  // ---------------------------------------------------------------------
  // The two checks
  // ---------------------------------------------------------------------

  /** `PasswordPolicy::check`: the number of occurrences of `c` lies in
      `[min, max]`, both ends included. */
  function Check(p: Policy, password: string): (r: bool)
    ensures r <==> p.min <= multiset(password)[p.c] <= p.max
  {
    var count := Count(password, x => x == p.c);
    OccurrencesAreCount(password, p.c);
    p.min <= count && count <= p.max
  }

  /** `count` of a character is its multiplicity in the text. */
  lemma {:induction false} OccurrencesAreCount(s: string, c: char)
    ensures Count(s, x => x == c) == multiset(s)[c]
    decreases |s|
  {
    if s != [] {
      assert s == [s[0]] + s[1..];
      assert multiset(s) == multiset{s[0]} + multiset(s[1..]);
      OccurrencesAreCount(s[1..], c);
    }
  }

  /** The 1-based position `pos` of the password holds `c`; position 0 and
      positions past the end hold nothing. */
  predicate HoldsAt(password: string, pos: nat, c: char) {
    1 <= pos <= |password| && password[pos - 1] == c
  }

  /** The positions `check_v2` counts: index `idx` is position `idx + 1`. */
  predicate Counted(p: Policy, password: string, idx: nat)
    requires idx < |password|
  {
    (idx + 1 == p.min || idx + 1 == p.max) && password[idx] == p.c
  }

  function CountedFrom(p: Policy, password: string, idx: nat): (n: nat)
    requires idx <= |password|
    ensures n == (if idx < p.min && HoldsAt(password, p.min, p.c) then 1 else 0)
               + (if idx < p.max && p.max != p.min && HoldsAt(password, p.max, p.c) then 1 else 0)
    decreases |password| - idx
  {
    if idx == |password| then 0
    else (if Counted(p, password, idx) then 1 else 0) + CountedFrom(p, password, idx + 1)
  }

  /** `PasswordPolicy::check_v2`: exactly one of the positions `min` and
      `max` holds `c`. When `min == max` the single position is counted once,
      so the check asks only that it holds `c`. */
  function CheckV2(p: Policy, password: string): (r: bool)
    ensures p.min != p.max ==>
      (r <==> HoldsAt(password, p.min, p.c) != HoldsAt(password, p.max, p.c))
    ensures p.min == p.max ==> (r <==> HoldsAt(password, p.min, p.c))
  {
    CountedFrom(p, password, 0) == 1
  }

  // ---------------------------------------------------------------------
  // Parsing
  // ---------------------------------------------------------------------

  /** `PasswordPolicy::from_str`: split at the first space, take the first
      character after it, split the part before it at the first hyphen and
      read both bounds as `u32`. */
  function ParsePolicy(s: string): (r: Result<Policy>)
    ensures !Contains(s, " ") ==> r.Err?
    ensures r.Ok? ==>
      var (minmax, rest) := SplitOnce(s, " ");
      && rest.Some? && |rest.value| > 0 && r.value.c == rest.value[0]
      && SplitOnce(minmax, "-").1.Some?
      && ParseU32(SplitOnce(minmax, "-").0) == Ok(r.value.min)
      && ParseU32(SplitOnce(minmax, "-").1.value) == Ok(r.value.max)
  {
    var (minmax, rest) := SplitOnce(s, " ");
    var charPart :- OkOr(rest, "no space in '<min>-<max> <char>'");
    var c :- if |charPart| > 0 then Ok(charPart[0]) else Err("chars was empty");
    var (minStr, maxPart) := SplitOnce(minmax, "-");
    var maxStr :- OkOr(maxPart, "minmax string had no hyphen");
    var min :- ParseU32(minStr);
    var max :- ParseU32(maxStr);
    Ok(Policy(min, max, c))
  }

  /** `PasswordEntry::try_from`: the policy before the first ':', and the
      trimmed text after it as the password. */
  function ParseEntry(s: string): (r: Result<Entry>)
    ensures !Contains(s, ":") ==> r.Err?
    ensures r.Ok? ==>
      var (policyStr, rest) := SplitOnce(s, ":");
      && rest.Some? && ParsePolicy(policyStr) == Ok(r.value.policy)
      && r.value.password == Trim(rest.value)
    ensures Contains(s, ":") && ParsePolicy(SplitOnce(s, ":").0).Err? ==> r.Err?
  {
    var (policyStr, rest) := SplitOnce(s, ":");
    var password :- OkOr(rest, "no ':' in entry");
    var policy :- ParsePolicy(policyStr);
    Ok(Entry(policy, Trim(password)))
  }

  /** `parse`: one entry per line; the first bad line fails the input. */
  function Parse(input: string): (r: Result<seq<Entry>>)
    ensures r.Ok? ==> |r.value| == |Lines(input)|
    ensures r.Ok? ==> forall i | 0 <= i < |r.value| :: ParseEntry(Lines(input)[i]) == Ok(r.value[i])
    ensures r.Err? ==> exists i | 0 <= i < |Lines(input)| :: ParseEntry(Lines(input)[i]).Err?
  {
    CollectAll(Lines(input), ParseEntry)
  }

  // ---------------------------------------------------------------------
  // The puzzle text an entry comes from
  // ---------------------------------------------------------------------

  function FormatPolicy(p: Policy): string {
    NatToString(p.min) + "-" + NatToString(p.max) + " " + [p.c]
  }

  function FormatEntry(e: Entry): string {
    FormatPolicy(e.policy) + ": " + e.password
  }

  /** An entry the puzzle could hold: `u32` bounds, a policy character that
      is not the ':' separator, and a password without surrounding blanks. */
  predicate Representable(e: Entry) {
    && e.policy.min <= Numbers.U32_MAX && e.policy.max <= Numbers.U32_MAX
    && e.policy.c != ':'
    && IsTrimmed(e.password)
  }

  lemma DigitsHaveNoSeparator(digits: string)
    requires AllDigits(digits)
    ensures ' ' !in digits && '-' !in digits && ':' !in digits
  {
    assert forall j | 0 <= j < |digits| :: IsAsciiDigit(digits[j]);
  }

  lemma ParseFormatPolicy(p: Policy)
    requires p.min <= Numbers.U32_MAX && p.max <= Numbers.U32_MAX
    ensures ParsePolicy(FormatPolicy(p)) == Ok(p)
  {
    var lo := NatToString(p.min);
    var hi := NatToString(p.max);
    DigitsHaveNoSeparator(lo);
    DigitsHaveNoSeparator(hi);
    assert FormatPolicy(p) == (lo + "-" + hi) + [' '] + [p.c];
    SplitOnceChar(lo + "-" + hi, ' ', [p.c]);
    SplitOnceChar(lo, '-', hi);
    ParseU32OfString(p.min);
    ParseU32OfString(p.max);
  }

  /** Every entry the puzzle can hold is read back from its line. */
  lemma ParseFormatEntry(e: Entry)
    requires Representable(e)
    ensures ParseEntry(FormatEntry(e)) == Ok(e)
  {
    var p := FormatPolicy(e.policy);
    assert ':' !in p by {
      DigitsHaveNoSeparator(NatToString(e.policy.min));
      DigitsHaveNoSeparator(NatToString(e.policy.max));
    }
    assert FormatEntry(e) == p + [':'] + (" " + e.password);
    SplitOnceChar(p, ':', " " + e.password);
    TrimPadded(" ", e.password, []);
    assert " " + e.password + [] == " " + e.password;
    ParseFormatPolicy(e.policy);
  }

  // ---------------------------------------------------------------------
  // The puzzle
  // ---------------------------------------------------------------------

  predicate Valid(e: Entry) {
    Check(e.policy, e.password)
  }

  predicate ValidV2(e: Entry) {
    CheckV2(e.policy, e.password)
  }

  /** `part1`: how many entries pass `check`. */
  function Part1(input: string): (r: Result<nat>)
    ensures r.Ok? <==> Parse(input).Ok?
    ensures r.Ok? ==> r.value <= |Lines(input)|
    ensures r.Ok? ==> (r.value == |Lines(input)| <==> forall i | 0 <= i < |Lines(input)| :: Valid(Parse(input).value[i]))
    ensures r.Ok? ==> (r.value == 0 <==> forall i | 0 <= i < |Lines(input)| :: !Valid(Parse(input).value[i]))
    ensures r.Ok? ==> r.value == |Positions(Parse(input).value, Valid)|
  {
    var entries :- Parse(input);
    CountPositions(entries, Valid);
    Ok(Count(entries, Valid))
  }

  /** `part2`: how many entries pass `check_v2`. */
  function Part2(input: string): (r: Result<nat>)
    ensures r.Ok? <==> Parse(input).Ok?
    ensures r.Ok? ==> r.value <= |Lines(input)|
    ensures r.Ok? ==> (r.value == |Lines(input)| <==> forall i | 0 <= i < |Lines(input)| :: ValidV2(Parse(input).value[i]))
    ensures r.Ok? ==> (r.value == 0 <==> forall i | 0 <= i < |Lines(input)| :: !ValidV2(Parse(input).value[i]))
    ensures r.Ok? ==> r.value == |Positions(Parse(input).value, ValidV2)|
  {
    var entries :- Parse(input);
    CountPositions(entries, ValidV2);
    Ok(Count(entries, ValidV2))
  }

  /** The three entries of the puzzle statement. */
  lemma FirstExample()
    ensures Check(Policy(1, 3, 'a'), "abcde") && CheckV2(Policy(1, 3, 'a'), "abcde")
  {
    assert "abcde" == ['a'] + "bcde";
    assert 'a' !in "bcde";
  }

  lemma SecondExample()
    ensures !Check(Policy(1, 3, 'b'), "cdefg") && !CheckV2(Policy(1, 3, 'b'), "cdefg")
  {
    assert 'b' !in "cdefg";
  }

  lemma ThirdExample()
    ensures Check(Policy(2, 9, 'c'), "ccccccccc") && !CheckV2(Policy(2, 9, 'c'), "ccccccccc")
  {
    assert multiset("ccccccccc") == multiset{'c', 'c', 'c', 'c', 'c', 'c', 'c', 'c', 'c'};
  }
}
