/** Day 10 (`src/challenge/day10/mod.rs`): chain the joltage adapters in
    sorted order and count the joltage gaps, then count the arrangements
    that still connect the outlet to the device. */
module Adapters {
  import opened Wrappers
  import opened Text
  import opened Seqs

  // ---------------------------------------------------------------------
  // Part 1: the gap histogram
  // ---------------------------------------------------------------------

  /** The gaps `part1` counts for a sorted, non-empty adapter list: the
      first adapter's rating (its gap from the outlet), a gap of 3 for the
      device, then each consecutive difference. */
  function Gaps(sorted: seq<int>): (r: seq<int>)
    requires |sorted| > 0
    ensures |r| == |sorted| + 1
  {
    [sorted[0], 3] + seq(|sorted| - 1, i requires 0 <= i < |sorted| - 1 => sorted[i + 1] - sorted[i])
  }

  /** `get(&d).cloned().unwrap_or(0)`. */
  function Lookup(h: map<int, nat>, d: int): nat {
    if d in h then h[d] else 0
  }

  /** `*entry(d).or_insert(0) += 1`. */
  function Bump(h: map<int, nat>, d: int): (r: map<int, nat>)
    ensures r.Keys == h.Keys + {d}
    ensures Lookup(r, d) == Lookup(h, d) + 1
    ensures forall e | e != d :: Lookup(r, e) == Lookup(h, e)
  {
    h[d := Lookup(h, d) + 1]
  }

  /** The histogram, counting the gaps from first to last. */
  function Tally(gaps: seq<int>): map<int, nat>
    decreases |gaps|
  {
    if gaps == [] then map[] else Bump(Tally(gaps[..|gaps| - 1]), gaps[|gaps| - 1])
  }

  function Is(d: int): int -> bool {
    x => x == d
  }

  /** Each histogram entry is the number of gaps of that size, and only
      gaps that occur have an entry. */
  lemma {:induction false} TallyCounts(gaps: seq<int>, d: int)
    ensures Lookup(Tally(gaps), d) == Count(gaps, Is(d))
    ensures d in Tally(gaps) <==> d in gaps
    decreases |gaps|
  {
    if gaps != [] {
      var init := gaps[..|gaps| - 1];
      var last := gaps[|gaps| - 1];
      assert gaps == init + [last];
      TallyCounts(init, d);
      CountConcat(init, [last], Is(d));
      assert Count([last], Is(d)) == if last == d then 1 else 0;
    }
  }

  /** `part1`: a parse error, a panic on no adapters (`adapters[0]`), or
      the number of 1-gaps times the number of 3-gaps. */
  function Part1(input: string): (r: Outcome<Result<int>>)
    ensures ParseI64Lines(input).Err? ==> r == Finishes(Err(ParseI64Lines(input).msg))
    ensures ParseI64Lines(input).Ok? ==> (r.Panics? <==> ParseI64Lines(input).value == [])
    ensures ParseI64Lines(input).Ok? && r.Finishes? ==>
      var gaps := Gaps(Sort(ParseI64Lines(input).value));
      r.value == Ok(Count(gaps, Is(1)) * Count(gaps, Is(3)))
  {
    match ParseI64Lines(input)
    case Err(msg) => Finishes(Err(msg))
    case Ok(adapters) =>
      var sorted := Sort(adapters);
      if |sorted| == 0 then Panics
      else
        var h := Tally(Gaps(sorted));
        TallyCounts(Gaps(sorted), 1);
        TallyCounts(Gaps(sorted), 3);
        Finishes(Ok(Lookup(h, 1) * Lookup(h, 3)))
  }

  // ---------------------------------------------------------------------
  // Part 2: counting arrangements
  // ---------------------------------------------------------------------

  /** The length of the `take_while(|a| a - start < 4)` prefix. */
  function Reach(start: int, adapters: seq<int>): (n: nat)
    ensures n <= |adapters|
    ensures forall i | 0 <= i < n :: adapters[i] - start < 4
    ensures n < |adapters| ==> adapters[n] - start >= 4
    decreases |adapters|
  {
    if adapters == [] || adapters[0] - start >= 4 then 0 else 1 + Reach(start, adapters[1..])
  }

  /** `combos` without its cache: no adapters left is one arrangement;
      otherwise sum over each adapter within reach of the arrangements
      that continue from it with the adapters after it. */
  function Combos(start: int, adapters: seq<int>): (r: nat)
    ensures adapters == [] ==> r == 1
    ensures adapters != [] && adapters[0] - start >= 4 ==> r == 0
    decreases |adapters|, 1
  {
    if adapters == [] then 1 else CombosFrom(start, adapters, 0)
  }

  /** The loop of `combos` from the `ix`-th adapter of the prefix on. */
  function CombosFrom(start: int, adapters: seq<int>, ix: nat): nat
    requires ix <= Reach(start, adapters)
    decreases |adapters|, 0, Reach(start, adapters) - ix
  {
    if ix == Reach(start, adapters) then 0
    else Combos(adapters[ix], adapters[ix + 1..]) + CombosFrom(start, adapters, ix + 1)
  }

  /** Every gap, from `start` on, is under 4. */
  predicate Connected(start: int, adapters: seq<int>) {
    adapters == [] ||
    (adapters[0] - start < 4 && forall i | 0 <= i < |adapters| - 1 :: adapters[i + 1] - adapters[i] < 4)
  }

  /** When every adapter is within reach of the one before, using them all
      is an arrangement, so there is at least one. */
  lemma {:induction false} ConnectedHasArrangement(start: int, adapters: seq<int>)
    requires Connected(start, adapters)
    ensures Combos(start, adapters) >= 1
    decreases |adapters|
  {
    if adapters != [] {
      var rest := adapters[1..];
      assert Connected(adapters[0], rest) by {
        assert forall i | 0 <= i < |rest| - 1 :: rest[i + 1] - rest[i] == adapters[i + 2] - adapters[i + 1];
      }
      ConnectedHasArrangement(adapters[0], rest);
      assert Reach(start, adapters) >= 1;
      assert CombosFrom(start, adapters, 0) >= Combos(adapters[0], rest);
    }
  }

  // ---------------------------------------------------------------------
  // The cache
  // ---------------------------------------------------------------------

  predicate Increasing(all: seq<int>) {
    forall i, j | 0 <= i < j < |all| :: all[i] < all[j]
  }

  /** How many adapters at the front of `all` are rated at most `k`. */
  function Rank(all: seq<int>, k: int): (n: nat)
    ensures n <= |all|
    decreases |all|
  {
    if all == [] || all[0] > k then 0 else 1 + Rank(all[1..], k)
  }

  /** In an increasing list the adapters after the `j`-th are exactly those
      rated above it. */
  lemma {:induction false} RankOfMember(all: seq<int>, j: nat)
    requires Increasing(all) && j < |all|
    ensures Rank(all, all[j]) == j + 1
    decreases j
  {
    if j == 0 {
      if |all| > 1 {
        assert all[1..][0] > all[0];
      }
    } else {
      assert all[1..][j - 1] == all[j];
      RankOfMember(all[1..], j - 1);
    }
  }

  /** The cache keyed by start rating holds, for each key, the
      arrangements with the adapters rated above it. */
  predicate CacheSound(all: seq<int>, cache: map<int, nat>) {
    forall k | k in cache :: cache[k] == Combos(k, all[Rank(all, k)..])
  }

  /** `combos` with its cache. For an increasing adapter list, each call
      is made with the adapters rated above its start, so the cache only
      memoises. */
  method CombosCached(all: seq<int>, start: int, adapters: seq<int>, cache: map<int, nat>)
    returns (total: nat, cache': map<int, nat>)
    ensures Increasing(all) && adapters == all[Rank(all, start)..] && CacheSound(all, cache) ==>
              total == Combos(start, adapters) && CacheSound(all, cache')
    decreases |adapters|
  {
    if start in cache {
      return cache[start], cache;
    }
    if adapters == [] {
      return 1, cache;
    }
    var good := Increasing(all) && adapters == all[Rank(all, start)..] && CacheSound(all, cache);
    total, cache' := 0, cache;
    var ix := 0;
    while ix < |adapters| && adapters[ix] - start < 4
      invariant ix <= Reach(start, adapters)
      invariant good ==> total + CombosFrom(start, adapters, ix) == CombosFrom(start, adapters, 0)
      invariant good ==> CacheSound(all, cache')
      decreases |adapters| - ix
    {
      if good {
        AdaptersAbove(all, start, adapters, ix);
      }
      var sub, c := CombosCached(all, adapters[ix], adapters[ix + 1..], cache');
      total, cache' := total + sub, c;
      ix := ix + 1;
    }
    if good {
      CacheExtend(all, cache', start, total);
    }
    cache' := cache'[start := total];
  }

  /** The adapters after the `ix`-th of those rated above `start` are those
      rated above it. */
  lemma AdaptersAbove(all: seq<int>, start: int, adapters: seq<int>, ix: nat)
    requires Increasing(all) && adapters == all[Rank(all, start)..] && ix < |adapters|
    ensures adapters[ix + 1..] == all[Rank(all, adapters[ix])..]
  {
    var j := Rank(all, start) + ix;
    assert adapters[ix] == all[j];
    RankOfMember(all, j);
  }

  lemma CacheExtend(all: seq<int>, cache: map<int, nat>, k: int, v: nat)
    requires CacheSound(all, cache) && v == Combos(k, all[Rank(all, k)..])
    ensures CacheSound(all, cache[k := v])
  {
  }

  /** `part2`: a parse error, or the arrangements from the outlet (rated 0)
      over the sorted adapters. */
  method Part2(input: string) returns (r: Result<nat>)
    ensures r.Err? <==> ParseI64Lines(input).Err?
    ensures r.Ok? ==>
      var sorted := Sort(ParseI64Lines(input).value);
      Increasing(sorted) && (forall i | 0 <= i < |sorted| :: sorted[i] > 0) ==> r.value == Combos(0, sorted)
  {
    var adapters := ParseI64Lines(input);
    if adapters.Err? {
      return Err(adapters.msg);
    }
    var sorted := Sort(adapters.value);
    if |sorted| > 0 {
      assert sorted[0] > 0 ==> Rank(sorted, 0) == 0;
    }
    var total, _ := CombosCached(sorted, 0, sorted, map[]);
    return Ok(total);
  }

  // ---------------------------------------------------------------------
  // Examples
  // ---------------------------------------------------------------------

  /** Adapters 1, 2, 3: the device is reached through {3}, {1, 3}, {2, 3}
      or {1, 2, 3}. */
  lemma SmallArrangements()
    ensures Combos(0, [1, 2, 3]) == 4
  {
    var all := [1, 2, 3];
    ArrangementsAfterOne();
    assert all[1..] == [2, 3] && all[2..] == [3] && all[3..] == [];
    assert Reach(0, all) == 3;
    assert CombosFrom(0, all, 2) == 1;
    assert CombosFrom(0, all, 1) == 2;
    assert CombosFrom(0, all, 0) == 4;
  }

  /** From adapter 1, adapters 2 and 3 connect as {3} or {2, 3}. */
  lemma ArrangementsAfterOne()
    ensures Combos(2, [3]) == 1 && Combos(1, [2, 3]) == 2
  {
    assert Combos(3, []) == 1;
    assert [3][1..] == [];
    assert Reach(2, [3]) == 1;
    assert CombosFrom(2, [3], 0) == 1;
    assert [2, 3][1..] == [3] && [2, 3][2..] == [];
    assert Reach(1, [2, 3]) == 2;
    assert CombosFrom(1, [2, 3], 1) == 1;
  }
  /** Adapters 1, 2, 3 leave gaps 1, 3, 1, 1. */
  lemma SmallGaps()
    ensures Gaps([1, 2, 3]) == [1, 3, 1, 1]
  {
  }
}
