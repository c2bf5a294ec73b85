/** Day 5: binary boarding (`src/challenge/day5/mod.rs`).

    A boarding pass is ten characters: seven 'F'/'B' letters giving the row
    as a binary number, most significant first ('B' is 1), and three
    'L'/'R' letters giving the column ('R' is 1). */
module Boarding {
  import opened Wrappers
  import opened Text
  import opened Seqs
  import opened Numbers

  const ROW_SIZE: nat := 7
  const COL_SIZE: nat := 3

  datatype Seat = Seat(row: nat, column: nat)

  // ---------------------------------------------------------------------
  // Binary space partitioning
  // ---------------------------------------------------------------------

  /** The letters of `s` are all `one` or `zero`. */
  predicate Binary(s: string, one: char, zero: char) {
    forall i | 0 <= i < |s| :: s[i] == one || s[i] == zero
  }

  /** The bit masks of one half of `parse_seat`, or'ed together: the
      character at index `idx` of an `n`-letter part contributes
      `1 << (n - 1 - idx)` when it is `one`, nothing when it is `zero`, and
      any other character fails. The masks are distinct powers of two, so
      or-ing them is adding them. */
  function DecodeBits(s: string, one: char, zero: char): (r: Result<nat>)
    requires one != zero
    ensures r.Ok? <==> Binary(s, one, zero)
    ensures r.Ok? ==> r.value < Pow2(|s|)
    decreases |s|
  {
    if s == [] then Ok(0)
    else if s[0] == one then
      var rest :- DecodeBits(s[1..], one, zero);
      Ok(Pow2(|s| - 1) + rest)
    else if s[0] == zero then DecodeBits(s[1..], one, zero)
    else Err("unrecognized encoding")
  }

  /** The `n` letters that spell `v` in binary, most significant first. */
  function EncodeBits(v: nat, n: nat, one: char, zero: char): (s: string)
    requires v < Pow2(n)
    ensures |s| == n && Binary(s, one, zero)
    decreases n
  {
    if n == 0 then []
    else if v >= Pow2(n - 1) then [one] + EncodeBits(v - Pow2(n - 1), n - 1, one, zero)
    else [zero] + EncodeBits(v, n - 1, one, zero)
  }

  lemma {:induction false} DecodeEncode(v: nat, n: nat, one: char, zero: char)
    requires one != zero && v < Pow2(n)
    ensures DecodeBits(EncodeBits(v, n, one, zero), one, zero) == Ok(v)
    decreases n
  {
    if n > 0 {
      var s := EncodeBits(v, n, one, zero);
      if v >= Pow2(n - 1) {
        assert s[1..] == EncodeBits(v - Pow2(n - 1), n - 1, one, zero);
        DecodeEncode(v - Pow2(n - 1), n - 1, one, zero);
      } else {
        assert s[1..] == EncodeBits(v, n - 1, one, zero);
        DecodeEncode(v, n - 1, one, zero);
      }
    }
  }

  lemma {:induction false} EncodeDecode(s: string, one: char, zero: char)
    requires one != zero && Binary(s, one, zero)
    ensures EncodeBits(DecodeBits(s, one, zero).value, |s|, one, zero) == s
    decreases |s|
  {
    if s != [] {
      assert Binary(s[1..], one, zero);
      EncodeDecode(s[1..], one, zero);
      var rest := DecodeBits(s[1..], one, zero).value;
      assert rest < Pow2(|s| - 1);
    }
  }

  // ---------------------------------------------------------------------
  // Seats
  // ---------------------------------------------------------------------

  /** `parse_seat`: exactly ten characters, the row from the first seven
      and the column from the last three. */
  function ParseSeat(text: string): (r: Result<Seat>)
    ensures r.Ok? <==> |text| == 10 && Binary(text[..7], 'B', 'F') && Binary(text[7..], 'R', 'L')
    ensures r.Ok? ==> r.value.row < 128 && r.value.column < 8
    ensures r.Ok? ==> text == EncodeBits(r.value.row, ROW_SIZE, 'B', 'F') + EncodeBits(r.value.column, COL_SIZE, 'R', 'L')
  {
    if |text| != 10 then Err("invalid boarding pass length")
    else
      var row :- DecodeBits(text[..7], 'B', 'F');
      var column :- DecodeBits(text[7..], 'R', 'L');
      EncodeDecode(text[..7], 'B', 'F');
      EncodeDecode(text[7..], 'R', 'L');
      assert Pow2(7) == 128 && Pow2(3) == 8;
      assert text == text[..7] + text[7..];
      Ok(Seat(row, column))
  }

  /** The pass of a seat, as the airline prints it. */
  function FormatSeat(s: Seat): string
    requires s.row < 128 && s.column < 8
  {
    assert Pow2(7) == 128 && Pow2(3) == 8;
    EncodeBits(s.row, ROW_SIZE, 'B', 'F') + EncodeBits(s.column, COL_SIZE, 'R', 'L')
  }

  lemma ParseFormatSeat(s: Seat)
    requires s.row < 128 && s.column < 8
    ensures ParseSeat(FormatSeat(s)) == Ok(s)
  {
    assert Pow2(7) == 128 && Pow2(3) == 8;
    var t := FormatSeat(s);
    assert t[..7] == EncodeBits(s.row, ROW_SIZE, 'B', 'F');
    assert t[7..] == EncodeBits(s.column, COL_SIZE, 'R', 'L');
    DecodeEncode(s.row, ROW_SIZE, 'B', 'F');
    DecodeEncode(s.column, COL_SIZE, 'R', 'L');
  }

  /** `Seat::seat_id`: eight seats to a row. On a parsed seat the id is
      below 1024 and gives the seat back. */
  function SeatId(s: Seat): (id: nat)
    ensures s.row < 128 && s.column < 8 ==> id < 1024 && id / 8 == s.row && id % 8 == s.column
  {
    s.row * 8 + s.column
  }

  /** Different parsed seats have different ids. */
  lemma SeatIdInjective(a: Seat, b: Seat)
    requires a.row < 128 && a.column < 8 && b.row < 128 && b.column < 8
    requires SeatId(a) == SeatId(b)
    ensures a == b
  {
  }

  /** `parse`: one seat per line; the first bad pass fails the input. */
  function Parse(input: string): (r: Result<seq<Seat>>)
    ensures r.Ok? ==> |r.value| == |Lines(input)|
    ensures r.Ok? ==> forall i | 0 <= i < |r.value| :: ParseSeat(Lines(input)[i]) == Ok(r.value[i])
    ensures r.Err? ==> exists i | 0 <= i < |Lines(input)| :: ParseSeat(Lines(input)[i]).Err?
  {
    CollectAll(Lines(input), ParseSeat)
  }

  function Ids(seats: seq<Seat>): (r: seq<nat>)
    ensures |r| == |seats|
    ensures forall i | 0 <= i < |seats| :: r[i] == SeatId(seats[i])
  {
    seq(|seats|, i requires 0 <= i < |seats| => SeatId(seats[i]))
  }

  // ---------------------------------------------------------------------
  // The missing seat
  // ---------------------------------------------------------------------

  /** `gauss_sum(n1, n2)`: the sum of `n1 + 1 ..= n2`. The `u32`
      subtraction needs `n1 <= n2` and the product must fit in a `u32`. */
  function GaussSum(n1: nat, n2: nat): (r: nat)
    requires n1 <= n2 && n2 * (n2 + 1) <= U32_MAX
    ensures r == Sum(Interval(n1 + 1, n2 + 1))
  {
    GaussFormula(n1, n2);
    (n2 * (n2 + 1) - n1 * (n1 + 1)) / 2
  }

  /** The numbers `lo, lo + 1, ..., hi - 1`. */
  function Interval(lo: int, hi: int): (r: seq<int>)
    requires lo <= hi
    ensures |r| == hi - lo
    ensures forall i | 0 <= i < |r| :: r[i] == lo + i
  {
    seq(hi - lo, i => lo + i)
  }

  lemma {:induction false} GaussFormula(lo: nat, hi: nat)
    requires lo <= hi
    ensures 2 * Sum(Interval(lo + 1, hi + 1)) == hi * (hi + 1) - lo * (lo + 1)
    ensures lo * (lo + 1) <= hi * (hi + 1)
    decreases hi - lo
  {
    if lo < hi {
      var r := Interval(lo + 1, hi + 1);
      assert r[..|r| - 1] == Interval(lo + 1, hi);
      GaussFormula(lo, hi - 1);
      assert (hi - 1) * hi + 2 * hi == hi * (hi + 1);
    }
  }

  /** The running maximum and minimum of `part2`'s loop. */
  function Extremes(ids: seq<nat>): (r: Option<(nat, nat)>)
    ensures r.None? <==> ids == []
    ensures r.Some? ==> r.value.0 in ids && r.value.1 in ids
    ensures r.Some? ==> forall i | 0 <= i < |ids| :: r.value.1 <= ids[i] <= r.value.0
    ensures r.Some? ==> r.value.1 <= r.value.0
    decreases |ids|
  {
    if ids == [] then None
    else
      var id := ids[|ids| - 1];
      var before := Extremes(ids[..|ids| - 1]);
      var maxId := if before.Some? && before.value.0 > id then before.value.0 else id;
      var minId := if before.Some? && before.value.1 < id then before.value.1 else id;
      Some((maxId, minId))
  }

  /** The fold of `part1`: the highest seat id, or an error when there are no seats. */
  function HighestSeat(seats: seq<Seat>): (r: Result<nat>)
    ensures r.Ok? <==> |seats| > 0
    ensures r.Ok? ==> r.value in Ids(seats)
    ensures r.Ok? ==> forall i | 0 <= i < |seats| :: SeatId(seats[i]) <= r.value
  {
    var e :- OkOr(Extremes(Ids(seats)), "there were no seats");
    Ok(e.0)
  }

  /** Every seat came from a boarding pass. */
  predicate AllParsed(seats: seq<Seat>) {
    forall i | 0 <= i < |seats| :: seats[i].row < 128 && seats[i].column < 8
  }

  lemma IdsBelow(seats: seq<Seat>)
    requires AllParsed(seats)
    ensures forall i | 0 <= i < |seats| :: Ids(seats)[i] < 1024
  {
  }

  lemma ProductBound(x: nat)
    requires x < 1024
    ensures x * (x + 1) <= U32_MAX
  {
    assert x * (x + 1) <= x * 1024 by {
      MulLeft(x, x + 1, 1024);
    }
    assert x * 1024 <= 1023 * 1024;
  }

  lemma MulLeft(a: nat, b: nat, c: nat)
    requires b <= c
    ensures a * b <= a * c
  {
    assert a * c == a * b + a * (c - b);
  }

  /** The two `u32` subtractions of `part2` that can underflow, and so
      panic: `min_id - 1` when the lowest id is 0, and `expected_sum - sum`
      when the ids add up to more than the ids from the lowest to the
      highest, each once, would. */
  predicate Part2Panics(seats: seq<Seat>) {
    match Extremes(Ids(seats))
    case None => false
    case Some((maxId, minId)) => minId == 0 || Sum(Ids(seats)) > Sum(Interval(minId, maxId + 1))
  }

  /** The fold of `part2`: the sum the ids from the lowest to the highest would have,
      minus the sum they have; the ids of parsed seats are below 1024, so
      `gauss_sum` cannot overflow. */
  function MissingSeat(seats: seq<Seat>): (r: Outcome<Result<nat>>)
    requires AllParsed(seats)
    ensures r.Panics? <==> Part2Panics(seats)
    ensures r.Finishes? ==> (r.value.Ok? <==> |seats| > 0)
    ensures Succeeds(r) ==> var e := Extremes(Ids(seats)).value;
      r.value.value == Sum(Interval(e.1, e.0 + 1)) - Sum(Ids(seats))
  {
    match Extremes(Ids(seats))
    case None => Finishes(Err("there were no seats"))
    case Some((maxId, minId)) =>
      if minId == 0 then Panics
      else
        IdsBelow(seats);
        assert maxId < 1024;
        ProductBound(maxId);
        var expected := GaussSum(minId - 1, maxId);
        if expected < Sum(Ids(seats)) then Panics
        else Finishes(Ok(expected - Sum(Ids(seats))))
  }

  /** Two copies of the pass for id 1: the ids sum to 2, more than the
      run from 1 to 1 does, so `expected_sum - sum` underflows. */
  lemma DuplicatePassPanics()
    ensures Part2Panics([Seat(0, 1), Seat(0, 1)])
  {
    var ids := Ids([Seat(0, 1), Seat(0, 1)]);
    assert ids == [1, 1];
    assert Extremes(ids) == Some((1, 1));
    assert Sum(ids) == 2 by {
      assert ids[..1] == [1];
      SumSingleton(1);
    }
    assert Interval(1, 2) == [1];
    SumSingleton(1);
  }

  // ---------------------------------------------------------------------
  // Part 2 finds the one missing seat
  // ---------------------------------------------------------------------

  /** The sum of a list depends only on its elements, not their order. */
  lemma {:induction false} SumPermutation(a: seq<int>, b: seq<int>)
    requires multiset(a) == multiset(b)
    ensures Sum(a) == Sum(b)
    decreases |a|
  {
    assert |a| == |multiset(a)| == |multiset(b)| == |b|;
    if a != [] {
      var x := a[|a| - 1];
      var a' := a[..|a| - 1];
      assert multiset(a) == multiset(a') + multiset{x} by {
        assert a == a' + [x];
      }
      assert x in multiset(b);
      var k :| 0 <= k < |b| && b[k] == x;
      var b' := b[..k] + b[k + 1..];
      RemoveAt(b, k);
      assert multiset(a') == multiset(a) - multiset{x};
      assert multiset(b') == multiset(b) - multiset{x};
      SumPermutation(a', b');
    }
  }

  /** Taking out the entry at `k` takes it out of the elements and of the sum. */
  lemma RemoveAt(b: seq<int>, k: nat)
    requires k < |b|
    ensures multiset(b) == multiset(b[..k] + b[k + 1..]) + multiset{b[k]}
    ensures Sum(b) == Sum(b[..k] + b[k + 1..]) + b[k]
  {
    SplitAt(b, k);
    RemoveMiddle(b[..k], b[k], b[k + 1..]);
  }

  lemma SplitAt(b: seq<int>, k: nat)
    requires k < |b|
    ensures b == (b[..k] + [b[k]]) + b[k + 1..]
  {
    var c := (b[..k] + [b[k]]) + b[k + 1..];
    assert |c| == |b|;
    forall i | 0 <= i < |b|
      ensures c[i] == b[i]
    {
      if i > k {
        assert c[i] == b[k + 1..][i - k - 1];
      }
    }
  }

  lemma RemoveMiddle(pre: seq<int>, x: int, post: seq<int>)
    ensures multiset((pre + [x]) + post) == multiset(pre + post) + multiset{x}
    ensures Sum((pre + [x]) + post) == Sum(pre + post) + x
  {
    SumConcat(pre + [x], post);
    SumConcat(pre, [x]);
    SumConcat(pre, post);
    SumSingleton(x);
  }  /** The ids every id from `lo` to `hi` except `m`, each once. */
  predicate AllButOne(ids: seq<int>, lo: int, m: int, hi: int)
    requires lo < m < hi
  {
    multiset(ids) == multiset(Interval(lo, m) + Interval(m + 1, hi + 1))
  }

  lemma MissingSeatExtremes(ids: seq<nat>, lo: nat, m: nat, hi: nat)
    requires lo < m < hi && AllButOne(ids, lo, m, hi)
    ensures Extremes(ids) == Some((hi, lo))
  {
    var expected := Interval(lo, m) + Interval(m + 1, hi + 1);
    assert expected[0] == lo && expected[|expected| - 1] == hi;
    forall x | x in ids
      ensures lo <= x <= hi
    {
      assert x in multiset(expected);
      InIntervals(lo, m, hi, x);
    }
    assert lo in multiset(ids) && hi in multiset(ids);
    ExtremesAre(ids, lo, hi);
  }

  lemma ExtremesAre(ids: seq<nat>, lo: nat, hi: nat)
    requires lo in ids && hi in ids
    requires forall x | x in ids :: lo <= x <= hi
    ensures Extremes(ids) == Some((hi, lo))
  {
    var e := Extremes(ids).value;
    assert e.1 in ids && e.0 in ids;
    assert lo <= e.1 && e.0 <= hi;
    var ih :| 0 <= ih < |ids| && ids[ih] == hi;
    var il :| 0 <= il < |ids| && ids[il] == lo;
    assert e.1 <= ids[il];
    assert ids[ih] <= e.0;
  }
  lemma InIntervals(lo: int, m: int, hi: int, x: int)
    requires lo < m < hi && x in Interval(lo, m) + Interval(m + 1, hi + 1)
    ensures lo <= x <= hi
  {
  }

  lemma MissingSeatSum(ids: seq<nat>, lo: nat, m: nat, hi: nat)
    requires lo < m < hi && AllButOne(ids, lo, m, hi)
    ensures Sum(ids) == Sum(Interval(lo, hi + 1)) - m
  {
    var below := Interval(lo, m);
    var above := Interval(m + 1, hi + 1);
    SumPermutation(ids, below + above);
    SumConcat(below, above);
    IntervalHole(lo, m, hi);
    SumConcat(below, [m] + above);
    SumConcat([m], above);
    SumSingleton(m);
  }

  /** The ids from `lo` to `hi` are those below `m`, then `m`, then those
      above it. */
  lemma IntervalHole(lo: int, m: int, hi: int)
    requires lo <= m <= hi
    ensures Interval(lo, hi + 1) == Interval(lo, m) + ([m] + Interval(m + 1, hi + 1))
  {
    var whole := Interval(lo, hi + 1);
    var parts := Interval(lo, m) + ([m] + Interval(m + 1, hi + 1));
    assert |whole| == |parts|;
    forall i | 0 <= i < |whole|
      ensures whole[i] == parts[i]
    {
      if i > m - lo {
        assert parts[i] == Interval(m + 1, hi + 1)[i - (m - lo) - 1];
      }
    }
  }

  lemma SumSingleton(x: int)
    ensures Sum([x]) == x
  {
    assert [x][..0] == [];
  }

  /** When the seat ids are every id from `lo` to `hi` except one `m` in
      between, each once, the fold of `part2` answers `m`. */
  lemma Part2FindsMissingSeat(seats: seq<Seat>, lo: nat, m: nat, hi: nat)
    requires AllParsed(seats)
    requires 1 <= lo < m < hi && AllButOne(Ids(seats), lo, m, hi)
    ensures !Part2Panics(seats)
    ensures MissingSeat(seats) == Finishes(Ok(m))
  {
    var ids := Ids(seats);
    MissingSeatExtremes(ids, lo, m, hi);
    MissingSeatSum(ids, lo, m, hi);
    var total := Sum(Interval(lo, hi + 1));
    assert Sum(ids) == total - m;
    assert !Part2Panics(seats);
    assert |ids| > 0;
    var r := MissingSeat(seats);
    assert r.Finishes? && r.value.Ok?;
    assert r.value.value == total - Sum(ids);
  }

  lemma ParsedSeats(input: string)
    requires Parse(input).Ok?
    ensures AllParsed(Parse(input).value)
  {
    var seats := Parse(input).value;
    forall i | 0 <= i < |seats|
      ensures seats[i].row < 128 && seats[i].column < 8
    {
      assert ParseSeat(Lines(input)[i]) == Ok(seats[i]);
    }
  }

  /** `part1`: parse every line, then the highest seat id, which is below
      1024. */
  function Part1(input: string): (r: Result<nat>)
    ensures r.Ok? <==> Parse(input).Ok? && |Lines(input)| > 0
    ensures r.Ok? ==> r.value in Ids(Parse(input).value)
    ensures r.Ok? ==> forall i | 0 <= i < |Parse(input).value| :: SeatId(Parse(input).value[i]) <= r.value
    ensures r.Ok? ==> r.value < 1024
  {
    var seats :- Parse(input);
    ParsedSeats(input);
    IdsBelow(seats);
    HighestSeat(seats)
  }

  /** `part2`: parse every line, then the missing seat. */
  function Part2(input: string): (r: Outcome<Result<nat>>)
    ensures Parse(input).Err? ==> r == Finishes(Err(Parse(input).msg))
    ensures Parse(input).Ok? ==> (r.Panics? <==> Part2Panics(Parse(input).value))
    ensures r.Finishes? ==> (r.value.Ok? <==> Parse(input).Ok? && |Lines(input)| > 0)
    ensures Succeeds(r) ==> forall lo: nat, m: nat, hi: nat |
      1 <= lo < m < hi && AllButOne(Ids(Parse(input).value), lo, m, hi) :: r.value.value == m
  {
    match Parse(input)
    case Err(msg) => Finishes(Err(msg))
    case Ok(seats) =>
      ParsedSeats(input);
      forall lo: nat, m: nat, hi: nat | 1 <= lo < m < hi && AllButOne(Ids(seats), lo, m, hi)
        ensures MissingSeat(seats) == Finishes(Ok(m))
      {
        Part2FindsMissingSeat(seats, lo, m, hi);
      }
      MissingSeat(seats)
  }

  // ---------------------------------------------------------------------
  // Examples
  // ---------------------------------------------------------------------

  lemma Pow2Small()
    ensures Pow2(0) == 1 && Pow2(1) == 2 && Pow2(2) == 4 && Pow2(3) == 8
    ensures Pow2(4) == 16 && Pow2(5) == 32 && Pow2(6) == 64
  {
  }

  lemma FirstPass()
    ensures ParseSeat("FBFBBFFRLR") == Ok(Seat(44, 5)) && SeatId(Seat(44, 5)) == 357
  {
    Pow2Small();
    assert EncodeBits(4, 3, 'B', 'F') == "BFF";
    assert EncodeBits(44, ROW_SIZE, 'B', 'F') == "FBFBBFF";
    assert EncodeBits(5, COL_SIZE, 'R', 'L') == "RLR";
    assert FormatSeat(Seat(44, 5)) == "FBFBBFFRLR";
    ParseFormatSeat(Seat(44, 5));
  }

  lemma SecondPass()
    ensures ParseSeat("BFFFBBFRRR") == Ok(Seat(70, 7)) && SeatId(Seat(70, 7)) == 567
  {
    Pow2Small();
    assert EncodeBits(6, 3, 'B', 'F') == "BBF";
    assert EncodeBits(70, ROW_SIZE, 'B', 'F') == "BFFFBBF";
    assert EncodeBits(7, COL_SIZE, 'R', 'L') == "RRR";
    assert FormatSeat(Seat(70, 7)) == "BFFFBBFRRR";
    ParseFormatSeat(Seat(70, 7));
  }

  lemma ThirdPass()
    ensures ParseSeat("FFFBBBFRRR") == Ok(Seat(14, 7)) && SeatId(Seat(14, 7)) == 119
  {
    Pow2Small();
    assert EncodeBits(6, 3, 'B', 'F') == "BBF";
    assert EncodeBits(14, ROW_SIZE, 'B', 'F') == "FFFBBBF";
    assert EncodeBits(7, COL_SIZE, 'R', 'L') == "RRR";
    assert FormatSeat(Seat(14, 7)) == "FFFBBBFRRR";
    ParseFormatSeat(Seat(14, 7));
  }

  lemma FourthPass()
    ensures ParseSeat("BBFFBBFRLL") == Ok(Seat(102, 4)) && SeatId(Seat(102, 4)) == 820
  {
    Pow2Small();
    assert EncodeBits(6, 3, 'B', 'F') == "BBF";
    assert EncodeBits(102, ROW_SIZE, 'B', 'F') == "BBFFBBF";
    assert EncodeBits(4, COL_SIZE, 'R', 'L') == "RLL";
    assert FormatSeat(Seat(102, 4)) == "BBFFBBFRLL";
    ParseFormatSeat(Seat(102, 4));
  }
}
