/** Day 16 (`src/challenge/day16/mod.rs`): ticket fields, each valid in two
    inclusive ranges; the error rate of the nearby tickets, and the filter
    that keeps the tickets whose every value fits some field. */
module TicketTranslation {
  import opened Wrappers
  import opened Numbers
  import opened Text
  import opened Seqs

  // ---------------------------------------------------------------------
  // Fields and tickets
  // ---------------------------------------------------------------------

  datatype Range = Range(start: int, end: int)

  /** A field of the ticket, named, with its two ranges. */
  datatype Class = Class(name: string, r1: Range, r2: Range)

  datatype Ticket = Ticket(values: seq<int>)

  /** `Range::contains`: `start..=end`, both ends included. */
  predicate InRange(r: Range, x: int) {
    r.start <= x <= r.end
  }

  /** `Class::contains`: in either range. */
  predicate InClass(c: Class, x: int) {
    InRange(c.r1, x) || InRange(c.r2, x)
  }

  /** `classes.iter().any(|c| c.contains(x))`, walked from the first
      class. */
  function AnyClass(classes: seq<Class>, x: int): (r: bool)
    ensures r <==> exists i | 0 <= i < |classes| :: InClass(classes[i], x)
    decreases |classes|
  {
    if classes == [] then false
    else if InClass(classes[0], x) then true
    else
      var r := AnyClass(classes[1..], x);
      assert r ==> exists i | 0 <= i < |classes| :: InClass(classes[i], x) by {
        if r {
          var i :| 0 <= i < |classes[1..]| && InClass(classes[1..][i], x);
          assert InClass(classes[i + 1], x);
        }
      }
      assert forall i | 1 <= i < |classes| :: classes[i] == classes[1..][i - 1];
      r
  }

  /** The ranges are inclusive at both ends: 3-5 holds 3, 4 and 5 but not
      2 or 6. */
  lemma RangeInclusive()
    ensures InRange(Range(3, 5), 3) && InRange(Range(3, 5), 4) && InRange(Range(3, 5), 5)
    ensures !InRange(Range(3, 5), 2) && !InRange(Range(3, 5), 6)
  {
  }

  // ---------------------------------------------------------------------
  // Part 1: the error rate
  // ---------------------------------------------------------------------

  function Misfits(classes: seq<Class>): int -> bool {
    x => !AnyClass(classes, x)
  }

  /** The values of one ticket that no field holds. */
  function TicketErrors(classes: seq<Class>, t: Ticket): seq<int> {
    Filter(t.values, Misfits(classes))
  }

  /** `flat_map` over the tickets, then the filter: every value of every
      ticket that no field holds, ticket by ticket. */
  function InvalidValues(classes: seq<Class>, tickets: seq<Ticket>): seq<int>
    decreases |tickets|
  {
    if tickets == [] then [] else TicketErrors(classes, tickets[0]) + InvalidValues(classes, tickets[1..])
  }

  /** The ticket scanning error rate: the sum of the invalid values. */
  function ErrorRate(classes: seq<Class>, tickets: seq<Ticket>): int {
    Sum(InvalidValues(classes, tickets))
  }

  /** Every value of the ticket fits some field. */
  predicate IsValid(classes: seq<Class>, t: Ticket) {
    forall i | 0 <= i < |t.values| :: AnyClass(classes, t.values[i])
  }

  /** A ticket is valid exactly when it has no invalid values. */
  lemma ValidIffNoErrors(classes: seq<Class>, t: Ticket)
    ensures IsValid(classes, t) <==> TicketErrors(classes, t) == []
  {
    assert |TicketErrors(classes, t)| == Count(t.values, Misfits(classes));
  }

  lemma {:induction false} InvalidValuesAppend(classes: seq<Class>, a: seq<Ticket>, b: seq<Ticket>)
    ensures InvalidValues(classes, a + b) == InvalidValues(classes, a) + InvalidValues(classes, b)
    decreases |a|
  {
    if a == [] {
      assert a + b == b;
    } else {
      assert (a + b)[1..] == a[1..] + b;
      InvalidValuesAppend(classes, a[1..], b);
    }
  }

  /** The error rate adds up over a split of the tickets. */
  lemma ErrorRateAppend(classes: seq<Class>, a: seq<Ticket>, b: seq<Ticket>)
    ensures ErrorRate(classes, a + b) == ErrorRate(classes, a) + ErrorRate(classes, b)
  {
    InvalidValuesAppend(classes, a, b);
    SumConcat(InvalidValues(classes, a), InvalidValues(classes, b));
  }

  /** With positive ticket values, a ticket adds to the error rate exactly
      when it is invalid. A value of 0 that fits no field adds nothing to
      the rate, yet still makes its ticket invalid. */
  lemma PositiveErrorsShow(classes: seq<Class>, t: Ticket)
    requires forall i | 0 <= i < |t.values| :: t.values[i] > 0
    ensures IsValid(classes, t) <==> ErrorRate(classes, [t]) == 0
  {
    var errs := TicketErrors(classes, t);
    ValidIffNoErrors(classes, t);
    assert InvalidValues(classes, [t]) == errs + [] by {
      assert [t][1..] == [];
    }
    assert errs + [] == errs;
    if errs != [] {
      assert forall i | 0 <= i < |errs| :: errs[i] > 0;
      SumNonNegative(errs[..|errs| - 1]);
    }
  }

  lemma ZeroMisfit(classes: seq<Class>)
    requires !AnyClass(classes, 0)
    ensures !IsValid(classes, Ticket([0])) && ErrorRate(classes, [Ticket([0])]) == 0
  {
    assert InvalidValues(classes, [Ticket([0])]) == [0] + [] by {
      assert [Ticket([0])][1..] == [];
      assert TicketErrors(classes, Ticket([0])) == [0];
    }
    assert Sum([0]) == 0 by {
      assert [0][..0] == [];
    }
  }

  // ---------------------------------------------------------------------
  // Part 2: the filter over valid tickets
  // ---------------------------------------------------------------------

  function IsValidTicket(classes: seq<Class>): Ticket -> bool {
    t => IsValid(classes, t)
  }

  /** The `part2` filter: the tickets with no invalid value, in order. */
  function ValidTickets(classes: seq<Class>, tickets: seq<Ticket>): (r: seq<Ticket>)
    ensures forall i | 0 <= i < |r| :: r[i] in tickets && IsValid(classes, r[i])
    ensures forall i | 0 <= i < |tickets| && IsValid(classes, tickets[i]) :: tickets[i] in r
  {
    Filter(tickets, IsValidTicket(classes))
  }

  /** The kept tickets carry no error at all. */
  lemma {:induction false} ValidTicketsNoErrors(classes: seq<Class>, tickets: seq<Ticket>)
    ensures InvalidValues(classes, ValidTickets(classes, tickets)) == []
    ensures ErrorRate(classes, ValidTickets(classes, tickets)) == 0
    decreases |tickets|
  {
    if tickets != [] {
      ValidTicketsNoErrors(classes, tickets[1..]);
      var rest := ValidTickets(classes, tickets[1..]);
      if IsValid(classes, tickets[0]) {
        ValidIffNoErrors(classes, tickets[0]);
        assert ValidTickets(classes, tickets) == [tickets[0]] + rest;
        assert ([tickets[0]] + rest)[1..] == rest;
      } else {
        assert ValidTickets(classes, tickets) == rest;
      }
    }
  }

  // ---------------------------------------------------------------------
  // Parsing
  // ---------------------------------------------------------------------

  /** A pattern whose first character is absent from `s` does not occur
      in it. */
  lemma PatternAbsent(s: string, p: string)
    requires |p| > 0 && p[0] !in s
    ensures Find(s, p).None?
  {
    forall j: nat
      ensures !OccursAt(s, p, j)
    {
    }
  }

  /** Text split at a pattern that starts with a character neither side
      holds gives its two sides. */
  lemma SplitTwo(a: string, p: string, b: string)
    requires |p| > 0 && p[0] !in a && p[0] !in b
    ensures Split(a + p + b, p) == [a, b]
  {
    var s := a + p + b;
    assert OccursAt(s, p, |a|) by {
      assert s[|a|..|a| + |p|] == p;
    }
    forall j: nat | j < |a|
      ensures !OccursAt(s, p, j)
    {
      assert s[j] == a[j];
    }
    assert Contains(s, p);
    assert Find(s, p) == Some(|a|);
    assert s[..|a|] == a;
    assert s[|a| + |p|..] == b;
    PatternAbsent(b, p);
  }

  lemma NoSignInDigits(s: string)
    requires AllDigits(s)
    ensures '-' !in s && ',' !in s && ':' !in s && ' ' !in s
  {
  }

  /** `parse_range`: "a-b" with `b` trimmed; missing parts and
      non-numbers are errors, and pieces after a second '-' are ignored. */
  function ParseRange(s: string): (r: Result<Range>)
    ensures r.Ok? <==>
      var parts := Split(s, "-");
      |parts| >= 2 && ParseI64(parts[0]).Ok? && ParseI64(Trim(parts[1])).Ok?
    ensures r.Ok? ==>
      var parts := Split(s, "-");
      r.value == Range(ParseI64(parts[0]).value, ParseI64(Trim(parts[1])).value)
  {
    var parts := Split(s, "-");
    if |parts| < 2 then Err("range_end")
    else
      var start :- ParseI64(parts[0]);
      var end :- ParseI64(Trim(parts[1]));
      Ok(Range(start, end))
  }

  function FormatRange(r: Range): string {
    IntToString(r.start) + "-" + IntToString(r.end)
  }

  lemma DigitsTrimmed(n: nat)
    ensures IsTrimmed(NatToString(n)) && Trim(NatToString(n)) == NatToString(n)
  {
    var s := NatToString(n);
    assert IsAsciiDigit(s[0]) && IsAsciiDigit(s[|s| - 1]);
    TrimIdentity(s);
  }

  /** A range with non-negative ends survives formatting and parsing; a
      negative start would be read as an empty first part. */
  lemma ParseFormatRange(r: Range)
    requires 0 <= r.start <= I64_MAX && 0 <= r.end <= I64_MAX
    ensures ParseRange(FormatRange(r)) == Ok(r)
  {
    var a, b := NatToString(r.start), NatToString(r.end);
    NoSignInDigits(a);
    NoSignInDigits(b);
    SplitTwo(a, "-", b);
    assert FormatRange(r) == a + "-" + b;
    DigitsTrimmed(r.end);
    ParseI64OfString(r.start);
    ParseI64OfString(r.end);
  }

  /** `parse_class`: "name: r1 or r2". The text after the first ':' is
      trimmed and split at " or "; a missing part is an error, and later
      parts are ignored. */
  function ParseClass(line: string): (r: Result<Class>)
    ensures r.Ok? <==>
      var segs := Split(line, ":");
      && |segs| >= 2
      && var rs := Split(Trim(segs[1]), " or ");
      |rs| >= 2 && ParseRange(rs[0]).Ok? && ParseRange(rs[1]).Ok?
    ensures r.Ok? ==>
      var segs := Split(line, ":");
      var rs := Split(Trim(segs[1]), " or ");
      r.value == Class(segs[0], ParseRange(rs[0]).value, ParseRange(rs[1]).value)
  {
    var segs := Split(line, ":");
    if |segs| < 2 then Err("class name")
    else
      var rs := Split(Trim(segs[1]), " or ");
      if |rs| < 2 then Err("range #2")
      else
        var r1 :- ParseRange(rs[0]);
        var r2 :- ParseRange(rs[1]);
        Ok(Class(segs[0], r1, r2))
  }

  /** A field written the way the puzzle input writes it. */
  function FormatClass(c: Class): string {
    c.name + ": " + FormatRange(c.r1) + " or " + FormatRange(c.r2)
  }

  lemma RangeText(r: Range)
    requires 0 <= r.start && 0 <= r.end
    ensures |FormatRange(r)| > 0
    ensures ':' !in FormatRange(r) && ' ' !in FormatRange(r)
    ensures IsAsciiDigit(FormatRange(r)[0]) && IsAsciiDigit(FormatRange(r)[|FormatRange(r)| - 1])
  {
    var a, b := NatToString(r.start), NatToString(r.end);
    NoSignInDigits(a);
    NoSignInDigits(b);
    assert FormatRange(r) == a + "-" + b;
    assert FormatRange(r)[|FormatRange(r)| - 1] == b[|b| - 1];
  }

  /** The text after the name: the two ranges joined by " or ". */
  function RangesText(c: Class): string {
    FormatRange(c.r1) + " or " + FormatRange(c.r2)
  }

  lemma SplitName(c: Class)
    requires ':' !in c.name && 0 <= c.r1.start && 0 <= c.r1.end && 0 <= c.r2.start && 0 <= c.r2.end
    ensures Split(FormatClass(c), ":") == [c.name, " " + RangesText(c)]
  {
    RangeText(c.r1);
    RangeText(c.r2);
    assert ':' !in " " + RangesText(c);
    assert FormatClass(c) == c.name + ":" + (" " + RangesText(c));
    SplitTwo(c.name, ":", " " + RangesText(c));
  }

  lemma RangesTrimmed(c: Class)
    requires 0 <= c.r1.start && 0 <= c.r1.end && 0 <= c.r2.start && 0 <= c.r2.end
    ensures Trim(" " + RangesText(c)) == RangesText(c)
    ensures Split(RangesText(c), " or ") == [FormatRange(c.r1), FormatRange(c.r2)]
  {
    var f1, f2 := FormatRange(c.r1), FormatRange(c.r2);
    RangeText(c.r1);
    RangeText(c.r2);
    var ranges := RangesText(c);
    assert IsTrimmed(ranges) by {
      assert ranges[0] == f1[0];
      assert ranges[|ranges| - 1] == f2[|f2| - 1];
    }
    TrimPadded(" ", ranges, "");
    assert " " + ranges + "" == " " + ranges;
    SplitTwo(f1, " or ", f2);
  }

  /** A field whose name has no ':' and whose ranges have non-negative ends
      survives formatting and parsing. */
  lemma ParseFormatClass(c: Class)
    requires ':' !in c.name
    requires 0 <= c.r1.start <= I64_MAX && 0 <= c.r1.end <= I64_MAX
    requires 0 <= c.r2.start <= I64_MAX && 0 <= c.r2.end <= I64_MAX
    ensures ParseClass(FormatClass(c)) == Ok(c)
  {
    SplitName(c);
    RangesTrimmed(c);
    ParseFormatRange(c.r1);
    ParseFormatRange(c.r2);
  }

  /** `parse_ticket`: comma-separated `i64` values. */
  function ParseTicket(line: string): (r: Result<Ticket>)
    ensures r.Ok? <==> AllI64(Split(line, ","))
    ensures r.Ok? ==> |r.value.values| == |Split(line, ",")|
    ensures r.Ok? ==> forall i | 0 <= i < |r.value.values| :: ParseI64(Split(line, ",")[i]) == Ok(r.value.values[i])
  {
    var values :- ParseI64All(Split(line, ","));
    Ok(Ticket(values))
  }

  function FormatTicket(t: Ticket): string {
    Join(seq(|t.values|, i requires 0 <= i < |t.values| => IntToString(t.values[i])), ",")
  }

  lemma NoCommaInInt(i: int)
    ensures ',' !in IntToString(i)
  {
    if i < 0 {
      NoSignInDigits(NatToString(-i));
      assert IntToString(i) == "-" + NatToString(-i);
    } else {
      NoSignInDigits(NatToString(i));
    }
  }

  /** A ticket with at least one `i64` value survives formatting and
      parsing; an empty line would read as one empty, unparsable value. */
  lemma ParseFormatTicket(t: Ticket)
    requires |t.values| >= 1
    requires forall i | 0 <= i < |t.values| :: I64_MIN <= t.values[i] <= I64_MAX
    ensures ParseTicket(FormatTicket(t)) == Ok(t)
  {
    var parts := seq(|t.values|, i requires 0 <= i < |t.values| => IntToString(t.values[i]));
    forall i | 0 <= i < |parts|
      ensures ',' !in parts[i] && ParseI64(parts[i]) == Ok(t.values[i])
    {
      NoCommaInInt(t.values[i]);
      ParseI64OfString(t.values[i]);
    }
    SplitJoin(parts, ',');
    assert FormatTicket(t) == Join(parts, [',']);
    var r := ParseTicket(FormatTicket(t));
    assert r.Ok? && |r.value.values| == |t.values|;
    assert forall i | 0 <= i < |parts| :: Ok(r.value.values[i]) == ParseI64(parts[i]) == Ok(t.values[i]);
    assert r.value.values == t.values;
  }

  /** `lines().skip(1)`: the lines after a header line. */
  function AfterHeader(lines: seq<string>): seq<string> {
    if |lines| == 0 then [] else lines[1..]
  }

  /** The field chunk: one field per line. */
  function ParseClasses(chunk: string): (r: Result<seq<Class>>)
    ensures r.Ok? ==> |r.value| == |Lines(chunk)|
    ensures r.Ok? ==> forall i | 0 <= i < |r.value| :: ParseClass(Lines(chunk)[i]) == Ok(r.value[i])
    ensures r.Err? ==> exists i | 0 <= i < |Lines(chunk)| :: ParseClass(Lines(chunk)[i]).Err?
  {
    CollectAll(Lines(chunk), ParseClass)
  }

  /** A ticket chunk: a header line, then one ticket per line. */
  function ParseTickets(chunk: string): (r: Result<seq<Ticket>>)
    ensures r.Ok? ==> |r.value| == |AfterHeader(Lines(chunk))|
    ensures r.Ok? ==> forall i | 0 <= i < |r.value| :: ParseTicket(AfterHeader(Lines(chunk))[i]) == Ok(r.value[i])
    ensures r.Err? ==> exists i | 0 <= i < |AfterHeader(Lines(chunk))| :: ParseTicket(AfterHeader(Lines(chunk))[i]).Err?
  {
    CollectAll(AfterHeader(Lines(chunk)), ParseTicket)
  }

  /** `parse`: three blank-line separated chunks, the fields, "your ticket"
      and "nearby tickets"; your ticket is the first line after its header.
      Chunks after the third are ignored. */
  function Parse(input: string): (r: Result<(seq<Class>, Ticket, seq<Ticket>)>)
    ensures |Split(input, "\n\n")| < 3 ==> r.Err?
    ensures r.Ok? ==>
      var chunks := Split(input, "\n\n");
      && |chunks| >= 3
      && ParseClasses(chunks[0]) == Ok(r.value.0)
      && |Lines(chunks[1])| >= 2 && ParseTicket(Lines(chunks[1])[1]) == Ok(r.value.1)
      && ParseTickets(chunks[2]) == Ok(r.value.2)
  {
    var chunks := Split(input, "\n\n");
    if |chunks| < 3 then Err("unable to parse input")
    else
      var classes :- ParseClasses(chunks[0]);
      var mine := Lines(chunks[1]);
      if |mine| < 2 then Err("my ticket did not exist")
      else
        var ticket :- ParseTicket(mine[1]);
        var others :- ParseTickets(chunks[2]);
        Ok((classes, ticket, others))
  }

  // ---------------------------------------------------------------------
  // The two parts
  // ---------------------------------------------------------------------

  /** `part1`: the error rate of the nearby tickets. */
  function Part1(input: string): (r: Result<int>)
    ensures r.Ok? <==> Parse(input).Ok?
    ensures r.Ok? ==> r.value == ErrorRate(Parse(input).value.0, Parse(input).value.2)
  {
    var (classes, _, others) :- Parse(input);
    Ok(ErrorRate(classes, others))
  }

  /** `part2`: the valid tickets are picked out but not yet used; the
      answer is always 0. */
  function Part2(input: string): (r: Result<int>)
    ensures r.Ok? <==> Parse(input).Ok?
    ensures r.Ok? ==> r.value == 0
  {
    var (classes, _, others) :- Parse(input);
    var _ := ValidTickets(classes, others);
    Ok(0)
  }

  // ---------------------------------------------------------------------
  // Examples
  // ---------------------------------------------------------------------

  function ExampleClasses(): seq<Class> {
    [Class("class", Range(1, 3), Range(5, 7)),
     Class("row", Range(6, 11), Range(33, 44)),
     Class("seat", Range(13, 40), Range(45, 50))]
  }

  function ExampleNearby(): seq<Ticket> {
    [Ticket([7, 3, 47]), Ticket([40, 4, 50]), Ticket([55, 2, 20]), Ticket([38, 6, 12])]
  }

  /** Which example values fit some field. */
  lemma ExampleFits()
    ensures AnyClass(ExampleClasses(), 7) && AnyClass(ExampleClasses(), 3) && AnyClass(ExampleClasses(), 47)
    ensures AnyClass(ExampleClasses(), 40) && !AnyClass(ExampleClasses(), 4) && AnyClass(ExampleClasses(), 50)
    ensures !AnyClass(ExampleClasses(), 55) && AnyClass(ExampleClasses(), 2) && AnyClass(ExampleClasses(), 20)
    ensures AnyClass(ExampleClasses(), 38) && AnyClass(ExampleClasses(), 6) && !AnyClass(ExampleClasses(), 12)
  {
    var cs := ExampleClasses();
    assert InClass(cs[0], 7) && InClass(cs[0], 3) && InClass(cs[2], 47);
    assert InClass(cs[2], 40) && InClass(cs[2], 50);
    assert InClass(cs[0], 2) && InClass(cs[2], 20);
    assert InClass(cs[2], 38) && InClass(cs[0], 6);
  }

  /** A ticket of three values keeps its misfits in order. */
  lemma ThreeErrors(classes: seq<Class>, a: int, b: int, c: int)
    ensures TicketErrors(classes, Ticket([a, b, c])) ==
      (if AnyClass(classes, a) then [] else [a]) + ((if AnyClass(classes, b) then [] else [b]) +
      ((if AnyClass(classes, c) then [] else [c]) + []))
  {
    var p := Misfits(classes);
    assert [a, b, c] == [a] + ([b] + ([c] + []));
    FilterCons(c, [], p);
    FilterCons(b, [c], p);
    FilterCons(a, [b, c], p);
  }
  lemma ExampleTicketErrors()
    ensures TicketErrors(ExampleClasses(), Ticket([7, 3, 47])) == []
    ensures TicketErrors(ExampleClasses(), Ticket([40, 4, 50])) == [4]
    ensures TicketErrors(ExampleClasses(), Ticket([55, 2, 20])) == [55]
    ensures TicketErrors(ExampleClasses(), Ticket([38, 6, 12])) == [12]
  {
    var cs := ExampleClasses();
    ExampleFits();
    ThreeErrors(cs, 7, 3, 47);
    ThreeErrors(cs, 40, 4, 50);
    ThreeErrors(cs, 55, 2, 20);
    ThreeErrors(cs, 38, 6, 12);
  }

  lemma InvalidCons(classes: seq<Class>, t: Ticket, rest: seq<Ticket>)
    ensures InvalidValues(classes, [t] + rest) == TicketErrors(classes, t) + InvalidValues(classes, rest)
  {
    assert ([t] + rest)[1..] == rest;
  }

  lemma SumThree(a: int, b: int, c: int)
    ensures Sum([a, b, c]) == a + b + c
  {
    assert [a][..0] == [];
    assert Sum([a]) == a;
    assert [a, b][..1] == [a];
    assert Sum([a, b]) == a + b;
    assert [a, b, c][..2] == [a, b];
  }

  lemma InvalidOfFour(cs: seq<Class>, t1: Ticket, t2: Ticket, t3: Ticket, t4: Ticket)
    ensures InvalidValues(cs, [t1, t2, t3, t4]) ==
      TicketErrors(cs, t1) + (TicketErrors(cs, t2) + (TicketErrors(cs, t3) + TicketErrors(cs, t4)))
  {
    var e4 := TicketErrors(cs, t4);
    assert InvalidValues(cs, [t4]) == e4 by {
      InvalidCons(cs, t4, []);
      assert [t4] + [] == [t4] && e4 + [] == e4;
    }
    assert InvalidValues(cs, [t3, t4]) == TicketErrors(cs, t3) + e4 by {
      InvalidCons(cs, t3, [t4]);
      assert [t3] + [t4] == [t3, t4];
    }
    assert InvalidValues(cs, [t2, t3, t4]) == TicketErrors(cs, t2) + (TicketErrors(cs, t3) + e4) by {
      InvalidCons(cs, t2, [t3, t4]);
      assert [t2] + [t3, t4] == [t2, t3, t4];
    }
    InvalidCons(cs, t1, [t2, t3, t4]);
    assert [t1] + [t2, t3, t4] == [t1, t2, t3, t4];
  }

  /** The values 4, 55 and 12 of the example's nearby tickets fit no
      field. */
  lemma ExampleInvalidValues()
    ensures InvalidValues(ExampleClasses(), ExampleNearby()) == [4, 55, 12]
  {
    var empty: seq<int> := [];
    assert empty + ([4] + ([55] + [12])) == [4, 55, 12];
    ExampleTicketErrors();
    InvalidOfFour(ExampleClasses(), Ticket([7, 3, 47]), Ticket([40, 4, 50]), Ticket([55, 2, 20]), Ticket([38, 6, 12]));
  }

  /** Fields 1-3 or 5-7, 6-11 or 33-44 and 13-40 or 45-50, with nearby
      tickets 7,3,47 / 40,4,50 / 55,2,20 / 38,6,12, have an error rate of
      4 + 55 + 12 = 71. */
  lemma ExampleErrorRate()
    ensures ErrorRate(ExampleClasses(), ExampleNearby()) == 71
  {
    ExampleInvalidValues();
    SumThree(4, 55, 12);
  }
}
