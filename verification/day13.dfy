/** Day 13 (`src/challenge/day13/mod.rs`): the first bus to leave after a
    given time, and the bus schedule's parser. */
module ShuttleSearch {
  import opened Wrappers
  import opened Numbers
  import opened Text
  import opened RemOffset

  // ---------------------------------------------------------------------
  // Part 1: the next bus
  // ---------------------------------------------------------------------

  /** `c - at % c`: how long after `at` bus `c` leaves. */
  function Wait(at: int, c: int): int
    requires c != 0
  {
    c - TruncRem(at, c)
  }

  /** For a real bus and a real time, the wait lands on a departure between
      one and `c` minutes later; a bus leaving exactly at `at` is counted as
      the next one, `c` minutes later. */
  lemma WaitDeparts(at: int, c: int)
    requires at >= 0 && c > 0
    ensures 1 <= Wait(at, c) <= c
    ensures (at + Wait(at, c)) % c == 0
    ensures Wait(at, c) == c <==> at % c == 0
  {
    var q := TruncDiv(at, c);
    assert at == c * q + at % c;
    assert at + Wait(at, c) == c * (q + 1);
    MulMod(c, q + 1);
  }

  /** Among the first departures after `at`, no earlier time is a departure
      of the same bus. */
  lemma WaitIsFirst(at: int, c: int, t: int)
    requires at >= 0 && c > 0 && at < t < at + Wait(at, c)
    ensures t % c != 0
  {
    WaitDeparts(at, c);
    var q := at / c;
    assert at == c * q + at % c;
    assert t == c * q + (t - c * q);
    assert 0 < t - c * q < c;
    ModUnique(c, t, q, t - c * q);
  }

  /** `min_by_key` over the waits: the first position holding the least
      wait, found by keeping the current best unless a later one is
      strictly smaller. */
  function FirstMin(ws: seq<int>): (k: nat)
    requires |ws| > 0
    ensures k < |ws|
    ensures forall j | 0 <= j < |ws| :: ws[k] <= ws[j]
    ensures forall j | 0 <= j < k :: ws[j] > ws[k]
    decreases |ws|
  {
    if |ws| == 1 then 0
    else
      var init := ws[..|ws| - 1];
      var k := FirstMin(init);
      assert forall j | 0 <= j < |init| :: init[j] == ws[j];
      if ws[|ws| - 1] < ws[k] then |ws| - 1 else k
  }

  /** `next_bus`: the candidate with the shortest wait and that wait, the
      first such candidate on ties. A candidate of 0 panics (`at % 0`), and
      no candidates is an error. */
  function NextBus(at: int, candidates: seq<int>): (r: Outcome<Result<(int, int)>>)
    ensures r.Panics? <==> 0 in candidates
    ensures r.Finishes? ==> (r.value.Err? <==> candidates == [])
    ensures Succeeds(r) ==>
      var (id, wait) := r.value.value;
      exists k | 0 <= k < |candidates| ::
        && candidates[k] == id
        && wait == Wait(at, id)
        && (forall j | 0 <= j < |candidates| :: wait <= Wait(at, candidates[j]))
        && (forall j | 0 <= j < k :: Wait(at, candidates[j]) > wait)
  {
    if 0 in candidates then Panics
    else if candidates == [] then Finishes(Err("no valid next bus"))
    else
      var ws := seq(|candidates|, i requires 0 <= i < |candidates| => Wait(at, candidates[i]));
      var k := FirstMin(ws);
      assert forall j | 0 <= j < |candidates| :: ws[j] == Wait(at, candidates[j]);
      assert candidates[k] == candidates[k] && ws[k] == Wait(at, candidates[k]);
      Finishes(Ok((candidates[k], ws[k])))
  }

  /** `filter_map(|b| b.as_ref())`: the ids of the buses in service, in
      order. */
  function InService(busses: seq<Option<int>>): (r: seq<int>)
    ensures forall i | 0 <= i < |r| :: Some(r[i]) in busses
    ensures forall i | 0 <= i < |busses| && busses[i].Some? :: busses[i].value in r
    decreases |busses|
  {
    if busses == [] then []
    else
      var rest := InService(busses[1..]);
      assert forall i | 0 <= i < |rest| :: Some(rest[i]) in busses by {
        forall i | 0 <= i < |rest| ensures Some(rest[i]) in busses {
          var k :| 0 <= k < |busses[1..]| && busses[1..][k] == Some(rest[i]);
          assert busses[k + 1] == Some(rest[i]);
        }
      }
      assert forall i | 1 <= i < |busses| :: busses[i] == busses[1..][i - 1];
      match busses[0]
      case None => rest
      case Some(id) => [id] + rest
  }

  // ---------------------------------------------------------------------
  // Parsing
  // ---------------------------------------------------------------------

  /** One entry of the schedule: "x" is out of service, anything else must
      be an `i64`. */
  function ParseEntry(s: string): (r: Result<Option<int>>)
    ensures s == "x" ==> r == Ok(None)
    ensures s != "x" ==> (r.Ok? <==> ParseI64(s).Ok?)
    ensures s != "x" && r.Ok? ==> r.value == Some(ParseI64(s).value)
  {
    if s == "x" then Ok(None)
    else
      var n :- ParseI64(s);
      Ok(Some(n))
  }

  /** Every item is `x` or an `i64`. */
  predicate AllEntries(items: seq<string>) {
    forall i | 0 <= i < |items| :: ParseEntry(items[i]).Ok?
  }

  /** `parse_schedule`: the comma-separated entries. */
  function ParseSchedule(line: string): (r: Result<seq<Option<int>>>)
    ensures r.Ok? <==> AllEntries(Split(line, ","))
    ensures r.Ok? ==> |r.value| == |Split(line, ",")|
    ensures r.Ok? ==> forall i | 0 <= i < |r.value| :: ParseEntry(Split(line, ",")[i]) == Ok(r.value[i])
  {
    var items := Split(line, ",");
    var f := ParseEntry;
    assert forall i | 0 <= i < |items| :: f(items[i]) == ParseEntry(items[i]);
    CollectAll(items, f)
  }

  function FormatEntry(b: Option<int>): string {
    match b
    case None => "x"
    case Some(id) => IntToString(id)
  }

  /** A schedule written back as text. */
  function FormatSchedule(busses: seq<Option<int>>): string {
    Join(seq(|busses|, i requires 0 <= i < |busses| => FormatEntry(busses[i])), ",")
  }

  lemma NoCommaInNumber(n: nat)
    ensures ',' !in NatToString(n)
  {
  }

  lemma ParseFormatEntry(b: Option<int>)
    requires b.Some? ==> I64_MIN <= b.value <= I64_MAX
    ensures ParseEntry(FormatEntry(b)) == Ok(b)
    ensures ',' !in FormatEntry(b)
  {
    if b.Some? {
      var id := b.value;
      ParseI64OfString(id);
      if id < 0 {
        NoCommaInNumber(-id);
        assert FormatEntry(b)[0] == '-';
      } else {
        NoCommaInNumber(id);
        assert IsAsciiDigit(FormatEntry(b)[0]);
      }
      assert FormatEntry(b) != "x";
    }
  }

  /** Any non-empty schedule of `i64` ids survives formatting and parsing. */
  lemma ParseFormatSchedule(busses: seq<Option<int>>)
    requires |busses| >= 1
    requires forall i | 0 <= i < |busses| && busses[i].Some? :: I64_MIN <= busses[i].value <= I64_MAX
    ensures ParseSchedule(FormatSchedule(busses)) == Ok(busses)
  {
    var parts := seq(|busses|, i requires 0 <= i < |busses| => FormatEntry(busses[i]));
    forall i | 0 <= i < |parts|
      ensures ',' !in parts[i] && ParseEntry(parts[i]) == Ok(busses[i])
    {
      ParseFormatEntry(busses[i]);
    }
    SplitJoin(parts, ',');
    assert FormatSchedule(busses) == Join(parts, [',']);
    assert Split(FormatSchedule(busses), ",") == parts;
    var r := ParseSchedule(FormatSchedule(busses));
    assert r.Ok?;
    assert |r.value| == |busses|;
    assert forall i | 0 <= i < |busses| :: Ok(r.value[i]) == ParseEntry(parts[i]) == Ok(busses[i]);
    assert r.value == busses;
  }

  /** `parse`: a first line holding the departure time and a second line
      holding the schedule; later lines are ignored. */
  function Parse(input: string): (r: Result<(int, seq<Option<int>>)>)
    ensures r.Ok? <==>
      |Lines(input)| >= 2 && ParseI64(Lines(input)[0]).Ok? && ParseSchedule(Lines(input)[1]).Ok?
    ensures r.Ok? ==> r.value == (ParseI64(Lines(input)[0]).value, ParseSchedule(Lines(input)[1]).value)
  {
    var lines := Lines(input);
    var line1 :- OkOr(if |lines| >= 1 then Some(lines[0]) else None, "could not get first line");
    var depart :- ParseI64(line1);
    var line2 :- OkOr(if |lines| >= 2 then Some(lines[1]) else None, "could not get second line");
    var busses :- ParseSchedule(line2);
    Ok((depart, busses))
  }

  // ---------------------------------------------------------------------
  // The two parts
  // ---------------------------------------------------------------------

  /** `part1`: the id of the next bus in service times its wait. */
  function Part1(input: string): (r: Outcome<Result<int>>)
    ensures Parse(input).Err? ==> r == Finishes(Err(Parse(input).msg))
    ensures Parse(input).Ok? ==>
      var (depart, busses) := Parse(input).value;
      && (r.Panics? <==> Some(0) in busses)
      && (Succeeds(r) ==> exists id, wait :: NextBus(depart, InService(busses)) == Finishes(Ok((id, wait))) && r.value.value == id * wait)
  {
    match Parse(input)
    case Err(msg) => Finishes(Err(msg))
    case Ok((depart, busses)) =>
      var working := InService(busses);
      assert Some(0) in busses <==> 0 in working;
      match NextBus(depart, working)
      case Panics => Panics
      case Finishes(Err(msg)) => Finishes(Err(msg))
      case Finishes(Ok((id, wait))) => Finishes(Ok(id * wait))
  }

  /** `part2`: the earliest time from which each bus in service leaves its
      own index of minutes later. */
  function Part2(input: string): (r: Outcome<Result<int>>)
    ensures Parse(input).Err? ==> r == Finishes(Err(Parse(input).msg))
    ensures Parse(input).Ok? ==> r == ChainOffset(Parse(input).value.1)
    ensures Parse(input).Ok? && PositiveIds(Parse(input).value.1) ==> !r.Panics?
    ensures Parse(input).Ok? && Succeeds(r) && PositiveIds(Parse(input).value.1) ==>
      AllAligned(Parse(input).value.1, r.value.value)
  {
    match Parse(input)
    case Err(msg) => Finishes(Err(msg))
    case Ok((_, busses)) => ChainOffset(busses)
  }

  // ---------------------------------------------------------------------
  // Examples
  // ---------------------------------------------------------------------

  /** "17,x,13,19" reads as buses 17, 13 and 19 with a gap at index 1. */
  lemma ScheduleExample()
    ensures ParseSchedule("17,x,13,19") == Ok([Some(17), None, Some(13), Some(19)])
  {
    ParseFormatSchedule([Some(17), None, Some(13), Some(19)]);
    FormatScheduleExample();
  }

  lemma FormatScheduleExample()
    ensures FormatSchedule([Some(17), None, Some(13), Some(19)]) == "17,x,13,19"
  {
    var b := [Some(17), None, Some(13), Some(19)];
    var parts := ["17", "x", "13", "19"];
    EntryTextsExample();
    JoinExample();
    var fs := seq(|b|, i requires 0 <= i < |b| => FormatEntry(b[i]));
    assert fs == parts by {
      assert fs[0] == parts[0] && fs[1] == parts[1] && fs[2] == parts[2] && fs[3] == parts[3];
    }
  }

  lemma EntryTextsExample()
    ensures FormatEntry(Some(17)) == "17" && FormatEntry(None) == "x"
    ensures FormatEntry(Some(13)) == "13" && FormatEntry(Some(19)) == "19"
  {
    assert IntToString(17) == "17" && IntToString(13) == "13" && IntToString(19) == "19";
  }

  lemma JoinExample()
    ensures Join(["17", "x", "13", "19"], ",") == "17,x,13,19"
  {
    var parts := ["17", "x", "13", "19"];
    assert parts[1..] == ["x", "13", "19"];
    assert parts[2..] == ["13", "19"];
    assert parts[3..] == ["19"];
  }

  /** The schedule "17,x,13,19" first lines up at time 3417. */
  lemma EarliestExample()
    ensures var c := ParseSchedule("17,x,13,19");
      c.Ok? && ChainOffset(c.value) == Finishes(Ok(3417))
  {
    ScheduleExample();
    ChainExample();
  }
}
