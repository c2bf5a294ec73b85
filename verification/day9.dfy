/** Day 9 (`src/challenge/day9/mod.rs`): find the first number that is not
    the sum of two of the numbers just before it, then the run of
    consecutive numbers that adds up to it. */
module Xmas {
  import opened Wrappers
  import opened Text
  import opened Seqs

  const PREAMBLE_LEN: nat := 25

  // ---------------------------------------------------------------------
  // Sums of two
  // ---------------------------------------------------------------------

  /** Some slot plus the same or a later slot makes `e`; a slot may pair
      with itself. */
  predicate IsSumOfTwo(buf: seq<int>, e: int) {
    exists i, j | 0 <= i <= j < |buf| :: buf[i] + buf[j] == e
  }

  /** `is_sum_of_two`: for each slot, scan it and the slots after it for
      the partner value. */
  method SumOfTwo(buf: seq<int>, e: int) returns (b: bool)
    ensures b == IsSumOfTwo(buf, e)
  {
    for idx := 0 to |buf|
      invariant forall i, j | 0 <= i < idx && i <= j < |buf| :: buf[i] + buf[j] != e
    {
      var target := e - buf[idx];
      for j := idx to |buf|
        invariant forall j' | idx <= j' < j :: buf[j'] != target
      {
        if buf[j] == target {
          assert buf[idx] + buf[j] == e;
          return true;
        }
      }
    }
    return false;
  }

  /** Whether `e` is a sum of two depends only on which values occur. */
  lemma SumOfTwoValues(buf: seq<int>, e: int)
    ensures IsSumOfTwo(buf, e) <==> exists x, y | x in buf && y in buf :: x + y == e
  {
    if IsSumOfTwo(buf, e) {
      var i, j :| 0 <= i <= j < |buf| && buf[i] + buf[j] == e;
      assert buf[i] in buf && buf[j] in buf;
    }
    if x, y :| x in buf && y in buf && x + y == e {
      var i :| 0 <= i < |buf| && buf[i] == x;
      var j :| 0 <= j < |buf| && buf[j] == y;
      if i <= j {
        assert buf[i] + buf[j] == e;
      } else {
        assert buf[j] + buf[i] == e;
      }
    }
  }

  lemma SumOfTwoSameValues(a: seq<int>, b: seq<int>, e: int)
    requires forall x :: x in a <==> x in b
    ensures IsSumOfTwo(a, e) == IsSumOfTwo(b, e)
  {
    SumOfTwoValues(a, e);
    SumOfTwoValues(b, e);
  }

  // ---------------------------------------------------------------------
  // The ring buffer
  // ---------------------------------------------------------------------

  /** `RingBuffer`: the slot at `cursor` holds the oldest value. */
  datatype Ring = Ring(inner: seq<int>, cursor: nat)

  predicate Valid(r: Ring) {
    r.cursor == 0 || r.cursor < |r.inner|
  }

  /** The values from oldest to newest. */
  function Contents(r: Ring): seq<int>
    requires Valid(r)
  {
    r.inner[r.cursor..] + r.inner[..r.cursor]
  }

  /** `RingBuffer::new`. */
  function NewRing(inner: seq<int>): (r: Ring)
    ensures Valid(r) && Contents(r) == inner
  {
    Ring(inner, 0)
  }

  /** `RingBuffer::insert`: overwrite the slot at `cursor` and advance it
      modulo the length; an empty buffer has no slot to write. */
  function Insert(r: Ring, value: int): (r': Ring)
    requires Valid(r) && |r.inner| > 0
    ensures Valid(r') && |r'.inner| == |r.inner| && r'.cursor < |r'.inner|
  {
    Ring(r.inner[r.cursor := value], (r.cursor + 1) % |r.inner|)
  }

  /** Inserting drops the oldest value and appends the new one. */
  lemma InsertSlides(r: Ring, value: int)
    requires Valid(r) && |r.inner| > 0
    ensures Contents(Insert(r, value)) == Contents(r)[1..] + [value]
  {
    var c := r.cursor;
    var inner := r.inner[c := value];
    NextCursor(c, |r.inner|);
    var r' := Insert(r, value);
    assert r'.inner == inner;
    assert Contents(r)[1..] == r.inner[c + 1..] + r.inner[..c];
    if c + 1 < |r.inner| {
      assert r'.cursor == c + 1;
      InsertMiddle(r.inner, c, value);
    } else {
      assert r'.cursor == 0;
      assert inner == r.inner[..c] + [value];
      assert Contents(r') == inner;
    }
  }

  lemma NextCursor(c: nat, n: nat)
    requires c < n
    ensures (c + 1) % n == if c + 1 < n then c + 1 else 0
  {
  }

  lemma InsertMiddle(inner: seq<int>, c: nat, value: int)
    requires c + 1 < |inner|
    ensures inner[c := value][c + 1..] + inner[c := value][..c + 1] == inner[c + 1..] + inner[..c] + [value]
  {
    var w := inner[c := value];
    assert w[c + 1..] == inner[c + 1..];
    assert w[..c + 1] == inner[..c] + [value];
  }

  /** The buffer holds the same values in whatever rotation. */
  lemma ContentsValues(r: Ring)
    requires Valid(r)
    ensures forall x :: x in Contents(r) <==> x in r.inner
  {
    assert r.inner == r.inner[..r.cursor] + r.inner[r.cursor..];
    assert multiset(Contents(r)) == multiset(r.inner);
    forall x ensures x in Contents(r) <==> x in r.inner {
      assert x in Contents(r) <==> x in multiset(Contents(r));
      assert x in r.inner <==> x in multiset(r.inner);
    }
  }

  // ---------------------------------------------------------------------
  // The first invalid number
  // ---------------------------------------------------------------------

  /** The number at `k` is not a sum of two of the `p` numbers before it. */
  predicate Invalid(data: seq<int>, p: nat, k: nat)
    requires p <= k < |data|
  {
    !IsSumOfTwo(data[k - p..k], data[k])
  }

  /** The first invalid index at or after `from`. */
  function FirstInvalid(data: seq<int>, p: nat, from: nat): (r: Option<nat>)
    requires p <= from <= |data|
    ensures r.Some? ==> from <= r.value < |data| && Invalid(data, p, r.value)
    ensures r.Some? ==> forall k | from <= k < r.value :: !Invalid(data, p, k)
    ensures r.None? <==> forall k | from <= k < |data| :: !Invalid(data, p, k)
    decreases |data| - from
  {
    if from == |data| then None
    else if Invalid(data, p, from) then Some(from)
    else FirstInvalid(data, p, from + 1)
  }

  /** `find_incorrect_element`: the window starts as the first `preamble`
      numbers (slicing past the end panics) and slides by one per valid
      number. */
  method FindIncorrectElement(data: seq<int>, preamble: nat) returns (r: Outcome<Result<int>>)
    ensures r.Panics? <==> preamble > |data|
    ensures r.Finishes? ==> (r.value.Ok? <==> FirstInvalid(data, preamble, preamble).Some?)
    ensures r.Finishes? && r.value.Ok? ==> r.value.value == data[FirstInvalid(data, preamble, preamble).value]
  {
    if preamble > |data| {
      return Panics;
    }
    var ring := NewRing(data[..preamble]);
    for k := preamble to |data|
      invariant |ring.inner| == preamble
      invariant Valid(ring) && Contents(ring) == data[k - preamble..k]
      invariant FirstInvalid(data, preamble, preamble) == FirstInvalid(data, preamble, k)
    {
      var valid := SumOfTwo(ring.inner, data[k]);
      RingSumOfTwo(data, preamble, k, ring);
      if !valid {
        return Finishes(Ok(data[k]));
      }
      assert preamble > 0 by {
        assert IsSumOfTwo(ring.inner, data[k]);
      }
      FirstInvalidSkips(data, preamble, k);
      RingStep(data, preamble, k, ring);
      ring := Insert(ring, data[k]);
    }
    return Finishes(Err("could not find an element that was invalid"));
  }

  lemma FirstInvalidSkips(data: seq<int>, p: nat, k: nat)
    requires p <= k < |data| && !Invalid(data, p, k)
    ensures FirstInvalid(data, p, k) == FirstInvalid(data, p, k + 1)
  {
  }

  /** The ring holds the window's values, so it decides the window's test. */
  lemma RingSumOfTwo(data: seq<int>, p: nat, k: nat, ring: Ring)
    requires Valid(ring) && p <= k < |data| && Contents(ring) == data[k - p..k]
    ensures IsSumOfTwo(ring.inner, data[k]) == !Invalid(data, p, k)
  {
    ContentsValues(ring);
    SumOfTwoSameValues(ring.inner, Contents(ring), data[k]);
  }

  /** Inserting the number at `k` moves the ring's window on by one. */
  lemma RingStep(data: seq<int>, p: nat, k: nat, ring: Ring)
    requires Valid(ring) && |ring.inner| == p && 0 < p <= k < |data|
    requires Contents(ring) == data[k - p..k]
    ensures Valid(Insert(ring, data[k])) && |Insert(ring, data[k]).inner| == p
    ensures Contents(Insert(ring, data[k])) == data[k + 1 - p..k + 1]
  {
    InsertSlides(ring, data[k]);
    WindowMoves(data, p, k);
  }

  /** The window moves on by one number. */
  lemma WindowMoves(data: seq<int>, p: nat, k: nat)
    requires 0 < p <= k < |data|
    ensures data[k - p..k][1..] + [data[k]] == data[k + 1 - p..k + 1]
  {
  }

  // ---------------------------------------------------------------------
  // The encryption weakness
  // ---------------------------------------------------------------------

  /** `v` is the smallest plus the largest element of `xs`. */
  predicate SpanEnds(xs: seq<int>, v: int) {
    exists i, j | 0 <= i < |xs| && 0 <= j < |xs| ::
      v == xs[i] + xs[j] && forall t | 0 <= t < |xs| :: xs[i] <= xs[t] <= xs[j]
  }

  /** The `min`/`max` loop of `find_weakness`. */
  method MinMax(xs: seq<int>) returns (lo: nat, hi: nat)
    requires |xs| > 0
    ensures lo < |xs| && hi < |xs|
    ensures forall t | 0 <= t < |xs| :: xs[lo] <= xs[t] <= xs[hi]
  {
    lo, hi := 0, 0;
    for t := 1 to |xs|
      invariant lo < t && hi < t
      invariant forall t' | 0 <= t' < t :: xs[lo] <= xs[t'] <= xs[hi]
    {
      if xs[t] < xs[lo] {
        lo := t;
      }
      if xs[t] > xs[hi] {
        hi := t;
      }
    }
  }

  lemma SumTwo(data: seq<int>)
    requires |data| >= 2
    ensures Sum(data[..2]) == data[0] + data[1]
  {
    assert data[..2][..1] == data[..1];
    assert data[..1][..0] == [];
    assert Sum(data[..1]) == data[0];
  }

  lemma SumExtend(data: seq<int>, n: nat)
    requires n < |data|
    ensures Sum(data[..n + 1]) == Sum(data[..n]) + data[n]
  {
    assert data[..n + 1][..n] == data[..n];
  }

  /** The sliding window of `find_weakness`: grow it at the end while the
      total is short, shrink it at the start while the total is over.
      Reading past the data, or an empty window whose total matches,
      panics. */
  method Weakness(data: seq<int>, invalid: int) returns (r: Outcome<int>, start: nat, end: nat)
    ensures r.Finishes? ==> start < end <= |data| && Sum(data[start..end]) == invalid
    ensures r.Finishes? ==> SpanEnds(data[start..end], r.value)
  {
    var found;
    found, start, end := SlideWindow(data, invalid);
    if !found || start >= end {
      return Panics, start, end;
    }
    var weakness := WeaknessOf(data[start..end]);
    return Finishes(weakness), start, end;
  }

  /** The loop of `find_weakness`: `found` is false when it reads past the
      data. */
  method SlideWindow(data: seq<int>, invalid: int) returns (found: bool, start: nat, end: nat)
    ensures found ==> start <= end <= |data| && Sum(data[start..end]) == invalid
  {
    if |data| < 2 {
      return false, 0, 0;
    }
    start, end := 0, 2;
    var total := data[0] + data[1];
    SumTwo(data);
    assert data[..0] == [];
    while total != invalid
      invariant start <= |data| && end <= |data|
      invariant total == Sum(data[..end]) - Sum(data[..start])
      decreases 2 * |data| - start - end
    {
      if total < invalid {
        if end == |data| {
          return false, start, end;
        }
        SumExtend(data, end);
        total := total + data[end];
        end := end + 1;
      } else {
        if start == |data| {
          return false, start, end;
        }
        SumExtend(data, start);
        total := total - data[start];
        start := start + 1;
      }
    }
    if start > end {
      return false, start, end;
    }
    WindowSum(data, start, end);
    found := true;
  }

  /** The smallest plus the largest number of a window. */
  method WeaknessOf(window: seq<int>) returns (v: int)
    requires |window| > 0
    ensures SpanEnds(window, v)
  {
    var lo, hi := MinMax(window);
    SpanEndsOf(window, lo, hi);
    v := window[lo] + window[hi];
  }

  /** The sum of a window is the difference of two prefix sums. */
  lemma WindowSum(data: seq<int>, start: nat, end: nat)
    requires start <= end <= |data|
    ensures Sum(data[start..end]) == Sum(data[..end]) - Sum(data[..start])
  {
    assert data[..end] == data[..start] + data[start..end];
    SumConcat(data[..start], data[start..end]);
  }

  lemma SpanEndsOf(xs: seq<int>, lo: nat, hi: nat)
    requires lo < |xs| && hi < |xs|
    requires forall t | 0 <= t < |xs| :: xs[lo] <= xs[t] <= xs[hi]
    ensures SpanEnds(xs, xs[lo] + xs[hi])
  {
  }

  /** `find_weakness`: the first invalid number, then the window adding up
      to it. */
  method FindWeakness(data: seq<int>, preamble: nat) returns (r: Outcome<Result<int>>)
    ensures preamble > |data| ==> r.Panics?
    ensures r.Finishes? && r.value.Ok? ==>
      && preamble <= |data|
      && FirstInvalid(data, preamble, preamble).Some?
      && exists s, e | 0 <= s < e <= |data| ::
           && Sum(data[s..e]) == data[FirstInvalid(data, preamble, preamble).value]
           && SpanEnds(data[s..e], r.value.value)
    ensures r.Finishes? && r.value.Err? ==> preamble <= |data| && FirstInvalid(data, preamble, preamble).None?
    ensures r.Finishes? ==> preamble <= |data| && (r.value.Ok? <==> FirstInvalid(data, preamble, preamble).Some?)
  {
    var found := FindIncorrectElement(data, preamble);
    if found.Panics? {
      return Panics;
    }
    if found.value.Err? {
      return Finishes(Err(found.value.msg));
    }
    var w, s, e := Weakness(data, found.value.value);
    if w.Panics? {
      return Panics;
    }
    return Finishes(Ok(w.value));
  }

  // ---------------------------------------------------------------------
  // The puzzle
  // ---------------------------------------------------------------------

  method Part1(input: string) returns (r: Outcome<Result<int>>)
    ensures ParseI64Lines(input).Err? ==> r == Finishes(Err(ParseI64Lines(input).msg))
    ensures ParseI64Lines(input).Ok? ==> (r.Panics? <==> |ParseI64Lines(input).value| < PREAMBLE_LEN)
    ensures ParseI64Lines(input).Ok? && r.Finishes? && r.value.Ok? ==>
      var data := ParseI64Lines(input).value;
      FirstInvalid(data, PREAMBLE_LEN, PREAMBLE_LEN).Some?
      && r.value.value == data[FirstInvalid(data, PREAMBLE_LEN, PREAMBLE_LEN).value]
    ensures ParseI64Lines(input).Ok? && r.Finishes? ==>
      var data := ParseI64Lines(input).value;
      PREAMBLE_LEN <= |data| && (r.value.Ok? <==> FirstInvalid(data, PREAMBLE_LEN, PREAMBLE_LEN).Some?)
  {
    var data := ParseI64Lines(input);
    if data.Err? {
      return Finishes(Err(data.msg));
    }
    r := FindIncorrectElement(data.value, PREAMBLE_LEN);
  }

  method Part2(input: string) returns (r: Outcome<Result<int>>)
    ensures ParseI64Lines(input).Err? ==> r == Finishes(Err(ParseI64Lines(input).msg))
    ensures ParseI64Lines(input).Ok? && r.Finishes? && r.value.Ok? ==>
      var data := ParseI64Lines(input).value;
      && PREAMBLE_LEN <= |data|
      && FirstInvalid(data, PREAMBLE_LEN, PREAMBLE_LEN).Some?
      && exists s, e | 0 <= s < e <= |data| ::
           && Sum(data[s..e]) == data[FirstInvalid(data, PREAMBLE_LEN, PREAMBLE_LEN).value]
           && SpanEnds(data[s..e], r.value.value)
    ensures ParseI64Lines(input).Ok? && |ParseI64Lines(input).value| < PREAMBLE_LEN ==> r.Panics?
    ensures ParseI64Lines(input).Ok? && r.Finishes? ==>
      var data := ParseI64Lines(input).value;
      PREAMBLE_LEN <= |data| && (r.value.Ok? <==> FirstInvalid(data, PREAMBLE_LEN, PREAMBLE_LEN).Some?)
  {
    var data := ParseI64Lines(input);
    if data.Err? {
      return Finishes(Err(data.msg));
    }
    r := FindWeakness(data.value, PREAMBLE_LEN);
  }

  // ---------------------------------------------------------------------
  // Examples
  // ---------------------------------------------------------------------

  /** A slot pairs with itself: 6 counts as a sum of two of [3]. */
  lemma SelfPair()
    ensures IsSumOfTwo([3], 6)
    ensures !IsSumOfTwo([3], 5)
  {
    assert [3][0] + [3][0] == 6;
  }
}
