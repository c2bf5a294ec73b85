/** The string operations of Rust's `str` that the solvers use: `find`,
    `splitn(2, ..)`, `split`, `lines`, `trim`, `split_whitespace`, and the
    integer `parse` of the standard library, together with the decimal
    rendering used by `Display`/`Debug`.

    Strings are sequences of characters; a byte offset in the source is the
    same as a character offset here because the puzzle inputs are ASCII. */
module Text {
  import opened Wrappers
  import opened Numbers

  // ---------------------------------------------------------------------
  // Character classes
  // ---------------------------------------------------------------------

  /** `char::is_whitespace`: the Unicode White_Space property. */
  predicate IsWhitespace(c: char) {
    || c == ' '
    || ('\t' <= c <= '\r')
    || c == '\U{0085}' || c == '\U{00A0}' || c == '\U{1680}'
    || ('\U{2000}' <= c <= '\U{200A}')
    || c == '\U{2028}' || c == '\U{2029}' || c == '\U{202F}'
    || c == '\U{205F}' || c == '\U{3000}'
  }

  /** `char::is_ascii_whitespace`: space, tab, line feed, form feed, carriage return. */
  predicate IsAsciiWhitespace(c: char) {
    c == ' ' || c == '\t' || c == '\n' || c == '\U{000C}' || c == '\r'
  }

  predicate IsAsciiDigit(c: char) {
    '0' <= c <= '9'
  }

  predicate AllDigits(s: string) {
    forall i | 0 <= i < |s| :: IsAsciiDigit(s[i])
  }

  // ---------------------------------------------------------------------
  // Searching
  // ---------------------------------------------------------------------

  predicate StartsWith(s: string, p: string) {
    |p| <= |s| && s[..|p|] == p
  }

  predicate OccursAt(s: string, p: string, i: nat) {
    i + |p| <= |s| && s[i..i + |p|] == p
  }

  predicate Contains(s: string, p: string) {
    exists i: nat | i <= |s| :: OccursAt(s, p, i)
  }

  /** The first occurrence of `p` in `s` at or after `from`. */
  function FindFrom(s: string, p: string, from: nat): (r: Option<nat>)
    requires from <= |s|
    ensures r.Some? ==> from <= r.value && OccursAt(s, p, r.value)
    ensures r.Some? ==> forall j: nat | from <= j < r.value :: !OccursAt(s, p, j)
    ensures r.None? ==> forall j: nat | from <= j :: !OccursAt(s, p, j)
    decreases |s| - from
  {
    if OccursAt(s, p, from) then Some(from)
    else if from == |s| then None
    else FindFrom(s, p, from + 1)
  }

  /** `str::find`: the index of the first occurrence of `p`. */
  function Find(s: string, p: string): (r: Option<nat>)
    ensures r.Some? ==> OccursAt(s, p, r.value)
    ensures r.Some? ==> forall j: nat | j < r.value :: !OccursAt(s, p, j)
    ensures r.None? <==> !Contains(s, p)
  {
    FindFrom(s, p, 0)
  }

  lemma OccursAtChar(s: string, c: char, i: nat)
    ensures OccursAt(s, [c], i) <==> i < |s| && s[i] == c
  {
    if i < |s| {
      assert s[i..i + 1] == [s[i]];
    }
  }

  lemma FindAbsentChar(s: string, c: char)
    requires c !in s
    ensures Find(s, [c]).None?
  {
    forall i: nat
      ensures !OccursAt(s, [c], i)
    {
      OccursAtChar(s, c, i);
    }
  }

  /** The first occurrence of `c` is after `prefix` when `prefix` lacks `c`. */
  lemma FindCharAfterPrefix(prefix: string, c: char, rest: string)
    requires c !in prefix
    ensures Find(prefix + [c] + rest, [c]) == Some(|prefix|)
  {
    var s := prefix + [c] + rest;
    OccursAtChar(s, c, |prefix|);
    forall j: nat | j < |prefix|
      ensures !OccursAt(s, [c], j)
    {
      OccursAtChar(s, c, j);
      assert s[j] == prefix[j];
    }
    assert Contains(s, [c]);
    var k := Find(s, [c]).value;
    assert k <= |prefix|;
  }

  // ---------------------------------------------------------------------
  // Splitting
  // ---------------------------------------------------------------------

  /** `splitn(2, p)`: the text before the first `p`, and the text after it
      when there is one. The first part always exists, as in Rust. */
  function SplitOnce(s: string, p: string): (r: (string, Option<string>))
    ensures r.1.None? <==> !Contains(s, p)
    ensures r.1.None? ==> r.0 == s
    ensures r.1.Some? ==> s == r.0 + p + r.1.value && Find(s, p) == Some(|r.0|)
  {
    match Find(s, p)
    case None => (s, None)
    case Some(i) =>
      assert s == s[..i] + p + s[i + |p|..] by {
        assert s[i..i + |p|] == p;
      }
      (s[..i], Some(s[i + |p|..]))
  }

  /** Splitting at a character that the prefix does not hold. */
  lemma SplitOnceChar(prefix: string, c: char, rest: string)
    requires c !in prefix
    ensures SplitOnce(prefix + [c] + rest, [c]) == (prefix, Some(rest))
  {
    var s := prefix + [c] + rest;
    FindCharAfterPrefix(prefix, c, rest);
    assert s[..|prefix|] == prefix;
    assert s[|prefix| + 1..] == rest;
  }

  /** `split(p)` for a non-empty pattern: the pieces between the
      non-overlapping occurrences of `p`, found from the left. */
  function Split(s: string, p: string): (r: seq<string>)
    requires |p| > 0
    ensures |r| >= 1
    decreases |s|
  {
    match Find(s, p)
    case None => [s]
    case Some(i) => [s[..i]] + Split(s[i + |p|..], p)
  }

  /** The inverse of `Split`: the pieces glued back with the separator. */
  function Join(parts: seq<string>, sep: string): string
    decreases |parts|
  {
    if |parts| == 0 then []
    else if |parts| == 1 then parts[0]
    else parts[0] + sep + Join(parts[1..], sep)
  }

  /** Splitting loses nothing: the pieces join back to the input. */
  lemma {:induction false} JoinSplit(s: string, p: string)
    requires |p| > 0
    ensures Join(Split(s, p), p) == s
    decreases |s|
  {
    match Find(s, p)
    case None =>
    case Some(i) =>
      var rest := s[i + |p|..];
      var parts := Split(rest, p);
      JoinSplit(rest, p);
      var whole := [s[..i]] + parts;
      assert Split(s, p) == whole;
      assert whole[1..] == parts;
      assert Join(whole, p) == s[..i] + p + Join(parts, p);
      assert s[i..i + |p|] == p;
      assert s == s[..i] + p + rest;
  }

  /** Splitting at a separator character that no piece contains gives the
      pieces back. */
  lemma {:induction false} SplitJoin(parts: seq<string>, c: char)
    requires |parts| >= 1
    requires forall i | 0 <= i < |parts| :: c !in parts[i]
    ensures Split(Join(parts, [c]), [c]) == parts
    decreases |parts|
  {
    if |parts| == 1 {
      FindAbsentChar(parts[0], c);
    } else {
      var tail := Join(parts[1..], [c]);
      SplitAfterPrefix(parts[0], c, tail);
      SplitJoin(parts[1..], c);
      assert [parts[0]] + parts[1..] == parts;
    }
  }

  /** Splitting at `c` cuts off a first piece that lacks `c`. */
  lemma SplitAfterPrefix(prefix: string, c: char, rest: string)
    requires c !in prefix
    ensures Split(prefix + [c] + rest, [c]) == [prefix] + Split(rest, [c])
  {
    var s := prefix + [c] + rest;
    FindCharAfterPrefix(prefix, c, rest);
    assert s[..|prefix|] == prefix;
    assert s[|prefix| + 1..] == rest;
  }
  function StripCr(l: string): string {
    if |l| > 0 && l[|l| - 1] == '\r' then l[..|l| - 1] else l
  }

  /** `str::lines`: lines end at "\n" or "\r\n"; the final line ending is
      optional, so text ending in a line ending gives no empty last line. */
  function Lines(s: string): (r: seq<string>)
    ensures forall i | 0 <= i < |r| :: '\n' !in r[i]
    decreases |s|
  {
    if s == [] then []
    else match Find(s, "\n")
      case None =>
        assert '\n' !in s by {
          if '\n' in s {
            var k :| 0 <= k < |s| && s[k] == '\n';
            OccursAtChar(s, '\n', k);
          }
        }
        [s]
      case Some(i) =>
        assert '\n' !in s[..i] by {
          if '\n' in s[..i] {
            var k :| 0 <= k < i && s[..i][k] == '\n';
            OccursAtChar(s, '\n', k);
          }
        }
        [StripCr(s[..i])] + Lines(s[i + 1..])
  }

  /** Text written as one terminated line per row. */
  function Unlines(rows: seq<string>): string
    decreases |rows|
  {
    if rows == [] then [] else rows[0] + "\n" + Unlines(rows[1..])
  }

  /** Rows without line breaks survive `Unlines` followed by `Lines`. */
  lemma {:induction false} LinesUnlines(rows: seq<string>)
    requires forall i | 0 <= i < |rows| :: '\n' !in rows[i] && '\r' !in rows[i]
    ensures Lines(Unlines(rows)) == rows
    decreases |rows|
  {
    if rows != [] {
      var tail := Unlines(rows[1..]);
      FindCharAfterPrefix(rows[0], '\n', tail);
      var s := rows[0] + "\n" + tail;
      assert s == rows[0] + ['\n'] + tail;
      assert s[..|rows[0]|] == rows[0];
      assert s[|rows[0]| + 1..] == tail;
      LinesUnlines(rows[1..]);
      assert [rows[0]] + rows[1..] == rows;
    }
  }

  // ---------------------------------------------------------------------
  // Trimming and whitespace-separated words
  // ---------------------------------------------------------------------

  /** `trim_start`: drops the leading whitespace. */
  function TrimStart(s: string): (r: string)
    ensures |r| <= |s| && r == s[|s| - |r|..]
    ensures forall i | 0 <= i < |s| - |r| :: IsWhitespace(s[i])
    ensures |r| > 0 ==> !IsWhitespace(r[0])
    decreases |s|
  {
    if |s| > 0 && IsWhitespace(s[0]) then TrimStart(s[1..]) else s
  }

  /** `trim_end`: drops the trailing whitespace. */
  function TrimEnd(s: string): (r: string)
    ensures |r| <= |s| && r == s[..|r|]
    ensures forall i | |r| <= i < |s| :: IsWhitespace(s[i])
    ensures |r| > 0 ==> !IsWhitespace(r[|r| - 1])
    decreases |s|
  {
    if |s| > 0 && IsWhitespace(s[|s| - 1]) then TrimEnd(s[..|s| - 1]) else s
  }

  /** `trim`: drops whitespace at both ends. */
  function Trim(s: string): string {
    TrimEnd(TrimStart(s))
  }

  predicate NoWhitespace(s: string) {
    forall i | 0 <= i < |s| :: !IsWhitespace(s[i])
  }

  /** Text that neither starts nor ends with whitespace. */
  predicate IsTrimmed(s: string) {
    |s| > 0 ==> !IsWhitespace(s[0]) && !IsWhitespace(s[|s| - 1])
  }

  /** Whitespace around trimmed text is exactly what `trim` removes. */
  lemma {:induction false} TrimPadded(pre: string, s: string, post: string)
    requires forall i | 0 <= i < |pre| :: IsWhitespace(pre[i])
    requires forall i | 0 <= i < |post| :: IsWhitespace(post[i])
    requires IsTrimmed(s)
    ensures Trim(pre + s + post) == s
    decreases |pre|
  {
    if |pre| > 0 {
      var t := pre + s + post;
      assert t[1..] == pre[1..] + s + post;
      TrimPadded(pre[1..], s, post);
    } else {
      assert pre + s + post == s + post;
      TrimEndPadded(s, post);
      if |s| > 0 {
        assert TrimStart(s + post) == s + post;
      } else {
        TrimStartBlank(post);
      }
    }
  }

  lemma {:induction false} TrimEndPadded(s: string, post: string)
    requires forall i | 0 <= i < |post| :: IsWhitespace(post[i])
    requires IsTrimmed(s)
    ensures TrimEnd(s + post) == s
    decreases |post|
  {
    if |post| > 0 {
      var t := s + post;
      assert t[..|t| - 1] == s + post[..|post| - 1];
      TrimEndPadded(s, post[..|post| - 1]);
    } else {
      assert s + post == s;
    }
  }

  lemma {:induction false} TrimStartBlank(post: string)
    requires forall i | 0 <= i < |post| :: IsWhitespace(post[i])
    ensures TrimStart(post) == [] && TrimEnd([]) == []
    decreases |post|
  {
    if |post| > 0 {
      TrimStartBlank(post[1..]);
    }
  }

  /** Trimmed text is left as it is by `trim`. */
  lemma TrimIdentity(s: string)
    requires IsTrimmed(s)
    ensures Trim(s) == s
  {
    TrimPadded([], s, []);
    assert [] + s + [] == s;
  }

  /** `split_whitespace` / `split_ascii_whitespace`: the maximal runs of
      characters that are not separators, dropping empty runs. */
  function Words(s: string, sep: char -> bool): (r: seq<string>)
    ensures forall i | 0 <= i < |r| :: |r[i]| > 0
    ensures forall i, j | 0 <= i < |r| && 0 <= j < |r[i]| :: !sep(r[i][j])
    decreases |s|
  {
    if s == [] then []
    else if sep(s[0]) then Words(s[1..], sep)
    else
      var n := WordLength(s, sep, 1);
      [s[..n]] + Words(s[n..], sep)
  }

  /** The index of the first separator at or after `from`, or the length. */
  function WordLength(s: string, sep: char -> bool, from: nat): (n: nat)
    requires 1 <= from <= |s|
    requires forall j | 0 <= j < from :: !sep(s[j])
    ensures from <= n <= |s|
    ensures forall j | 0 <= j < n :: !sep(s[j])
    ensures n < |s| ==> sep(s[n])
    decreases |s| - from
  {
    if from == |s| || sep(s[from]) then from else WordLength(s, sep, from + 1)
  }

  // ---------------------------------------------------------------------
  // Integers: Rust's `str::parse` and decimal rendering
  // ---------------------------------------------------------------------

  function DigitValue(c: char): nat
    requires IsAsciiDigit(c)
  {
    (c as int) - ('0' as int)
  }

  function DecimalValue(s: string): nat
    requires AllDigits(s)
    decreases |s|
  {
    if s == [] then 0 else 10 * DecimalValue(s[..|s| - 1]) + DigitValue(s[|s| - 1])
  }

  /** The digits a Rust integer parse reads: one leading '+' (or, for a
      signed type, '-') is a sign and not a digit. */
  function Magnitude(s: string, signed: bool): string {
    if |s| > 0 && (s[0] == '+' || (signed && s[0] == '-')) then s[1..] else s
  }

  predicate Negated(s: string, signed: bool) {
    signed && |s| > 0 && s[0] == '-'
  }

  /** What `s.parse::<T>()` accepts for an integer type whose range is
      `[lo, hi]`; `signed` says whether the type has a sign. */
  function ParseInteger(s: string, signed: bool, lo: int, hi: int): (r: Result<int>)
    ensures r.Ok? <==>
      var m := Magnitude(s, signed);
      |m| > 0 && AllDigits(m)
      && lo <= (if Negated(s, signed) then -(DecimalValue(m) as int) else DecimalValue(m) as int) <= hi
    ensures r.Ok? ==> lo <= r.value <= hi
  {
    var m := Magnitude(s, signed);
    if |m| == 0 then Err("cannot parse integer from empty string")
    else if !AllDigits(m) then Err("invalid digit found in string")
    else
      var v := if Negated(s, signed) then -(DecimalValue(m) as int) else DecimalValue(m) as int;
      if v < lo || v > hi then Err("number too large or too small to fit in target type")
      else Ok(v)
  }

  function ParseU32(s: string): (r: Result<nat>)
    ensures r.Ok? <==> ParseInteger(s, false, 0, U32_MAX).Ok?
    ensures r.Ok? ==> r.value == ParseInteger(s, false, 0, U32_MAX).value
  {
    var v :- ParseInteger(s, false, 0, U32_MAX);
    Ok(v as nat)
  }

  function ParseU64(s: string): (r: Result<nat>)
    ensures r.Ok? <==> ParseInteger(s, false, 0, U64_MAX).Ok?
    ensures r.Ok? ==> r.value == ParseInteger(s, false, 0, U64_MAX).value
  {
    var v :- ParseInteger(s, false, 0, U64_MAX);
    Ok(v as nat)
  }

  function ParseUsize(s: string): (r: Result<nat>)
    ensures r.Ok? <==> ParseInteger(s, false, 0, USIZE_MAX).Ok?
    ensures r.Ok? ==> r.value == ParseInteger(s, false, 0, USIZE_MAX).value
  {
    var v :- ParseInteger(s, false, 0, USIZE_MAX);
    Ok(v as nat)
  }

  function ParseI64(s: string): Result<int> {
    ParseInteger(s, true, I64_MIN, I64_MAX)
  }

  /** Every item parses as an `i64`. */
  predicate AllI64(items: seq<string>) {
    forall i | 0 <= i < |items| :: ParseI64(items[i]).Ok?
  }

  /** `map(str::parse).collect()` into `i64`s. */
  function ParseI64All(items: seq<string>): (r: Result<seq<int>>)
    ensures r.Ok? <==> AllI64(items)
    ensures r.Ok? ==> |r.value| == |items|
    ensures r.Ok? ==> forall i | 0 <= i < |r.value| :: ParseI64(items[i]) == Ok(r.value[i])
  {
    var f := ParseI64;
    assert forall i | 0 <= i < |items| :: f(items[i]) == ParseI64(items[i]);
    CollectAll(items, f)
  }

  /** One `i64` per line, as `lines().map(str::parse).collect()`. */
  function ParseI64Lines(input: string): (r: Result<seq<int>>)
    ensures r.Ok? <==> AllI64(Lines(input))
    ensures r.Ok? ==> |r.value| == |Lines(input)|
    ensures r.Ok? ==> forall i | 0 <= i < |r.value| :: ParseI64(Lines(input)[i]) == Ok(r.value[i])
  {
    ParseI64All(Lines(input))
  }

  function DigitChar(d: nat): (c: char)
    requires d < 10
    ensures IsAsciiDigit(c) && DigitValue(c) == d
  {
    ('0' as int + d) as char
  }

  /** The decimal rendering of `Display` for unsigned integers. */
  function NatToString(n: nat): (s: string)
    ensures |s| > 0 && AllDigits(s)
    decreases n
  {
    if n < 10 then [DigitChar(n)] else NatToString(n / 10) + [DigitChar(n % 10)]
  }

  /** The decimal rendering of `Display` for signed integers. */
  function IntToString(i: int): string {
    if i < 0 then "-" + NatToString(-i) else NatToString(i)
  }

  lemma {:induction false} DecimalValueOfString(n: nat)
    ensures DecimalValue(NatToString(n)) == n
    decreases n
  {
    if n >= 10 {
      var s := NatToString(n);
      assert s[..|s| - 1] == NatToString(n / 10);
      DecimalValueOfString(n / 10);
    }
  }

  /** Parsing a rendered number gives the number back, for every number the
      target type can hold. */
  lemma ParseIntegerOfString(i: int, signed: bool, lo: int, hi: int)
    requires lo <= i <= hi
    requires i < 0 ==> signed
    ensures ParseInteger(IntToString(i), signed, lo, hi) == Ok(i)
  {
    var s := IntToString(i);
    if i < 0 {
      assert Magnitude(s, signed) == NatToString(-i);
      DecimalValueOfString(-i);
    } else {
      var d := NatToString(i);
      assert s == d;
      assert Magnitude(s, signed) == d by {
        assert IsAsciiDigit(d[0]);
      }
      DecimalValueOfString(i);
    }
  }

  lemma ParseU32OfString(n: nat)
    requires n <= U32_MAX
    ensures ParseU32(NatToString(n)) == Ok(n)
  {
    ParseIntegerOfString(n, false, 0, U32_MAX);
  }

  lemma ParseU64OfString(n: nat)
    requires n <= U64_MAX
    ensures ParseU64(NatToString(n)) == Ok(n)
  {
    ParseIntegerOfString(n, false, 0, U64_MAX);
  }

  lemma ParseUsizeOfString(n: nat)
    requires n <= USIZE_MAX
    ensures ParseUsize(NatToString(n)) == Ok(n)
  {
    ParseIntegerOfString(n, false, 0, USIZE_MAX);
  }

  lemma ParseI64OfString(i: int)
    requires I64_MIN <= i <= I64_MAX
    ensures ParseI64(IntToString(i)) == Ok(i)
  {
    ParseIntegerOfString(i, true, I64_MIN, I64_MAX);
  }
}
