/** Day 1: the expense report (`src/challenge/day1/mod.rs`).

    Find two entries (part 1) or three entries (part 2) of a sorted list
    that sum to 2020, by a two-pointer scan. */
module Expenses {
  import opened Wrappers
  import opened Text
  import opened Seqs

  const EXPENSE_TARGET: int := 2020

  /** How a run of the code as written ends: it returns, or a `usize`
      subtraction underflows and the program panics. */
  datatype Halting<T> = Returns(value: T) | Underflows

  /** `a` and `b` are two different entries of `s` summing to `target`. */
  predicate IsPair(s: seq<int>, target: int, i: int, j: int) {
    0 <= i < j < |s| && s[i] + s[j] == target
  }

  predicate HasPair(s: seq<int>, target: int) {
    exists i, j | 0 <= i < j < |s| :: s[i] + s[j] == target
  }

  // ---------------------------------------------------------------------
  // `find_expenses` as written
  // ---------------------------------------------------------------------

  /** The outer loop of `find_expenses`: it runs while `low < high`. */
  function ScanAsWritten(s: seq<int>, target: int, low: nat, high: nat): (r: Halting<Option<(int, int)>>)
    requires high < |s| && low <= |s|
    ensures r.Returns? && r.value.Some? ==>
      r.value.value.0 + r.value.value.1 == target && r.value.value.0 in s && r.value.value.1 in s
    decreases |s| - low + high, 1
  {
    if low >= high then Returns(None)
    else DescendAsWritten(s, target, low, high)
  }

  /** The inner loop of `find_expenses` and what follows it. The inner loop
      does not compare `high` with `low`, so it can walk below `low` and, at
      index 0, below zero. The second inner loop and the second equality test
      of the source can never change the outcome (`target - target_high` is
      `input[low]` itself, and the test repeats one that just failed), so they
      are not spelled out. */
  function DescendAsWritten(s: seq<int>, target: int, low: nat, high: nat): (r: Halting<Option<(int, int)>>)
    requires high < |s| && low < |s|
    ensures r.Returns? && r.value.Some? ==>
      r.value.value.0 + r.value.value.1 == target && r.value.value.0 in s && r.value.value.1 in s
    decreases |s| - low + high, 0
  {
    if s[high] > target - s[low] then
      if high == 0 then Underflows else DescendAsWritten(s, target, low, high - 1)
    else if s[high] == target - s[low] then Returns(Some((s[low], s[high])))
    else ScanAsWritten(s, target, low + 1, high)
  }

  /** `find_expenses` exactly as written; `input.len() - 1` needs a
      non-empty input. */
  function FindExpensesAsWritten(s: seq<int>, target: int): (r: Halting<Option<(int, int)>>)
    requires |s| > 0
    ensures r.Returns? && r.value.Some? ==>
      r.value.value.0 + r.value.value.1 == target && r.value.value.0 in s && r.value.value.1 in s
  {
    ScanAsWritten(s, target, 0, |s| - 1)
  }

  /** The inner loop reaches index 0 and underflows whenever even the two
      smallest entries are too large. */
  lemma {:induction false} DescendUnderflows(s: seq<int>, target: int, high: nat)
    requires Sorted(s) && 0 < high < |s|
    requires 2 * s[0] > target
    ensures DescendAsWritten(s, target, 0, high) == Underflows
    decreases high
  {
    if high > 1 {
      DescendUnderflows(s, target, high - 1);
    }
  }

  lemma UnderflowWhenAllTooLarge(s: seq<int>, target: int)
    requires Sorted(s) && |s| >= 2
    requires 2 * s[0] > target
    ensures FindExpensesAsWritten(s, target) == Underflows
  {
    DescendUnderflows(s, target, |s| - 1);
  }

  /** The single entry 1010 is paired with itself: the scan as written
      reports two entries where the list has only one that could serve. */
  lemma FindExpensesReusesEntry()
    ensures FindExpensesAsWritten([1010, 2000], EXPENSE_TARGET) == Returns(Some((1010, 1010)))
    ensures !HasPair([1010, 2000], EXPENSE_TARGET)
  {
    var s := [1010, 2000];
    assert DescendAsWritten(s, EXPENSE_TARGET, 0, 0) == Returns(Some((1010, 1010)));
    assert DescendAsWritten(s, EXPENSE_TARGET, 0, 1) == Returns(Some((1010, 1010)));
  }

  // ---------------------------------------------------------------------
  // `find_expenses` with the inner loop bounded by `low`
  // ---------------------------------------------------------------------

  /** `p` is the values of two different entries summing to `target`. */
  ghost predicate IsPairOf(s: seq<int>, target: int, p: (int, int)) {
    exists i, j | IsPair(s, target, i, j) :: p == (s[i], s[j])
  }

  /** The two-pointer scan with the inner loop stopping at `low`. Entries
      left of `low` pair with nothing; entries right of `high` are too large
      to pair with anything from `low` on. */
  function FindFrom(s: seq<int>, target: int, low: nat, high: int): (r: Option<(int, int)>)
    requires Sorted(s) && -1 <= high < |s| && low <= |s|
    requires forall i, j | 0 <= i < low && i < j < |s| :: s[i] + s[j] != target
    requires forall i, j | low <= i < |s| && high < j < |s| :: s[i] + s[j] > target
    ensures r.Some? ==> IsPairOf(s, target, r.value)
    ensures r.None? <==> !HasPair(s, target)
    decreases |s| - low + high
  {
    if low as int >= high then None
    else if s[high] > target - s[low] then FindFrom(s, target, low, high - 1)
    else if s[high] == target - s[low] then
      assert IsPair(s, target, low, high);
      Some((s[low], s[high]))
    else FindFrom(s, target, low + 1, high)
  }

  /** `find_expenses` on a sorted list: a pair of different entries summing
      to `target`, or None exactly when there is none. */
  function FindExpenses(s: seq<int>, target: int): (r: Option<(int, int)>)
    requires Sorted(s)
    ensures r.Some? ==> r.value.0 + r.value.1 == target
    ensures r.Some? ==> IsPairOf(s, target, r.value)
    ensures r.None? <==> !HasPair(s, target)
  {
    FindFrom(s, target, 0, |s| - 1)
  }

  // ---------------------------------------------------------------------
  // `find_triple_expenses`
  // ---------------------------------------------------------------------

  /** Three different entries summing to 2020. */
  predicate IsTriple(s: seq<int>, i: int, j: int, k: int) {
    0 <= i < j < k < |s| && s[i] + s[j] + s[k] == EXPENSE_TARGET
  }

  predicate HasTriple(s: seq<int>) {
    exists i, j, k | 0 <= i < j < k < |s| :: s[i] + s[j] + s[k] == EXPENSE_TARGET
  }

  /** `p` is `a * b * s[e]` for an entry `e` from `idx` on and two values
      `a`, `b` of the slice that starts at `e`, the three summing to 2020. */
  ghost predicate TripleProductFrom(s: seq<int>, idx: nat, p: int) {
    exists e, a, b | idx <= e < |s| && a in s[e..] && b in s[e..] ::
      s[e] + a + b == EXPENSE_TARGET && p == a * b * s[e]
  }

  /** The loop of `find_triple_expenses` as written, from entry `idx` on: the
      pair for entry `e` is searched in the slice that starts at `e` itself. */
  function TripleFromAsWritten(s: seq<int>, idx: nat): (r: Halting<Option<int>>)
    requires idx <= |s|
    ensures r.Returns? && r.value.Some? ==> TripleProductFrom(s, idx, r.value.value)
    decreases |s| - idx
  {
    if idx == |s| then Returns(None)
    else
      match FindExpensesAsWritten(s[idx..], EXPENSE_TARGET - s[idx])
      case Underflows => Underflows
      case Returns(Some((a, b))) => Returns(Some(a * b * s[idx]))
      case Returns(None) => TripleFromAsWritten(s, idx + 1)
  }

  function FindTripleExpensesAsWritten(s: seq<int>): (r: Halting<Option<int>>)
    ensures r.Returns? && r.value.Some? ==> TripleProductFrom(s, 0, r.value.value)
  {
    TripleFromAsWritten(s, 0)
  }

  /** The entry 500 is used both as `e` and as one of the pair. */
  lemma FindTripleReusesEntry()
    ensures FindTripleExpensesAsWritten([500, 1020]) == Returns(Some(500 * 1020 * 500))
    ensures !HasTriple([500, 1020])
  {
    var s := [500, 1020];
    assert s[0..] == s;
    assert DescendAsWritten(s, 1520, 0, 1) == Returns(Some((500, 1020)));
  }

  /** No triple starts before entry `idx`. */
  predicate NoTripleBefore(s: seq<int>, idx: nat) {
    forall i, j, k | 0 <= i < idx && i < j < k < |s| :: s[i] + s[j] + s[k] != EXPENSE_TARGET
  }

  /** `p` is the product of three different entries summing to 2020. */
  ghost predicate IsTripleProduct(s: seq<int>, p: int) {
    exists i, j, k | IsTriple(s, i, j, k) :: p == s[i] * s[j] * s[k]
  }

  /** The loop of `find_triple_expenses` with the pair searched strictly to
      the right of `e`. */
  function TripleFrom(s: seq<int>, idx: nat): (r: Option<int>)
    requires Sorted(s) && idx <= |s|
    requires NoTripleBefore(s, idx)
    ensures r.Some? ==> IsTripleProduct(s, r.value)
    ensures r.None? <==> !HasTriple(s)
    decreases |s| - idx
  {
    if idx == |s| then
      NoTripleAtEnd(s);
      None
    else
      var rest := s[idx + 1..];
      assert Sorted(rest);
      match FindExpenses(rest, EXPENSE_TARGET - s[idx])
      case Some((a, b)) =>
        TripleOfPair(s, idx, rest, a, b);
        Some(a * b * s[idx])
      case None =>
        NoTripleAt(s, idx, rest);
        TripleFrom(s, idx + 1)
  }

  /** A pair found right of `idx` completes a triple with entry `idx`. */
  lemma TripleOfPair(s: seq<int>, idx: nat, rest: seq<int>, a: int, b: int)
    requires idx < |s| && rest == s[idx + 1..]
    requires IsPairOf(rest, EXPENSE_TARGET - s[idx], (a, b))
    ensures IsTripleProduct(s, a * b * s[idx])
    ensures HasTriple(s)
  {
    var i, j :| IsPair(rest, EXPENSE_TARGET - s[idx], i, j) && (a, b) == (rest[i], rest[j]);
    assert IsTriple(s, idx, idx + 1 + i, idx + 1 + j);
    assert a * b * s[idx] == s[idx] * s[idx + 1 + i] * s[idx + 1 + j];
  }

  /** No pair right of `idx` completes a triple with entry `idx`. */
  lemma NoTripleAt(s: seq<int>, idx: nat, rest: seq<int>)
    requires idx < |s| && rest == s[idx + 1..]
    requires NoTripleBefore(s, idx)
    requires !HasPair(rest, EXPENSE_TARGET - s[idx])
    ensures NoTripleBefore(s, idx + 1)
  {
    forall j, k | idx < j < k < |s|
      ensures s[idx] + s[j] + s[k] != EXPENSE_TARGET
    {
      assert !IsPair(rest, EXPENSE_TARGET - s[idx], j - idx - 1, k - idx - 1);
    }
  }

  lemma NoTripleAtEnd(s: seq<int>)
    requires NoTripleBefore(s, |s|)
    ensures !HasTriple(s)
  {
  }

  /** `find_triple_expenses` on a sorted list: the product of three
      different entries summing to 2020, or None exactly when there are no
      such three. */
  function FindTripleExpenses(s: seq<int>): (r: Option<int>)
    requires Sorted(s)
    ensures r.Some? ==> IsTripleProduct(s, r.value)
    ensures r.None? <==> !HasTriple(s)
  {
    TripleFrom(s, 0)
  }

  // ---------------------------------------------------------------------
  // The puzzle
  // ---------------------------------------------------------------------

  /** `parse`: whitespace-separated `i64`s; the first bad token fails. */
  function Parse(input: string): (r: Result<seq<int>>)
    ensures r.Ok? <==> AllI64(Words(input, IsAsciiWhitespace))
    ensures r.Ok? ==> |r.value| == |Words(input, IsAsciiWhitespace)|
    ensures r.Ok? ==> forall i | 0 <= i < |r.value| :: ParseI64(Words(input, IsAsciiWhitespace)[i]) == Ok(r.value[i])
  {
    ParseI64All(Words(input, IsAsciiWhitespace))
  }

  /** A pair of the sorted list is a pair of entries of the input. */
  lemma PairOfSorted(input: seq<int>, pair: (int, int))
    requires IsPairOf(Sort(input), EXPENSE_TARGET, pair)
    ensures multiset{pair.0, pair.1} <= multiset(input) && pair.0 + pair.1 == EXPENSE_TARGET
  {
    var sorted := Sort(input);
    var i, j :| IsPair(sorted, EXPENSE_TARGET, i, j) && pair == (sorted[i], sorted[j]);
    TwoEntries(sorted, i, j);
  }

  /** `p` is the product of two entries of `input` summing to 2020. */
  ghost predicate PairProductIn(input: seq<int>, p: int) {
    exists a, b | multiset{a, b} <= multiset(input) && a + b == EXPENSE_TARGET :: p == a * b
  }

  /** `p` is the product of three entries of `input` summing to 2020. */
  ghost predicate TripleProductIn(input: seq<int>, p: int) {
    exists a, b, c | multiset{a, b, c} <= multiset(input) && a + b + c == EXPENSE_TARGET :: p == a * b * c
  }

  /** `pt1_impl`: sort, then the product of the pair summing to 2020. */
  function Pt1(input: seq<int>): (r: Result<int>)
    ensures r.Ok? <==> HasPair(Sort(input), EXPENSE_TARGET)
    ensures r.Ok? ==> PairProductIn(input, r.value)
  {
    var sorted := Sort(input);
    var pair :- OkOr(FindExpenses(sorted, EXPENSE_TARGET), "could not find valid expenses");
    PairOfSorted(input, pair);
    Ok(pair.0 * pair.1)
  }

  /** A triple of the sorted list is a triple of entries of the input. */
  lemma TripleOfSorted(input: seq<int>, p: int)
    requires IsTripleProduct(Sort(input), p)
    ensures TripleProductIn(input, p)
  {
    var sorted := Sort(input);
    var i, j, k :| IsTriple(sorted, i, j, k) && p == sorted[i] * sorted[j] * sorted[k];
    ThreeEntries(sorted, i, j, k);
  }

  /** `pt2_impl`: sort, then the product of the triple summing to 2020. */
  function Pt2(input: seq<int>): (r: Result<int>)
    ensures r.Ok? <==> HasTriple(Sort(input))
    ensures r.Ok? ==> TripleProductIn(input, r.value)
  {
    var p :- OkOr(FindTripleExpenses(Sort(input)), "could not find valid expenses");
    TripleOfSorted(input, p);
    Ok(p)
  }

  // ---------------------------------------------------------------------
  // The puzzle over the scans as written
  // ---------------------------------------------------------------------

  /** The scan as written ends without a pair only when there is none: it
      can report a pair that reuses an entry, but it never misses one. The
      requires are the two facts the loop keeps: no entry left of `low`
      pairs with anything, and every entry right of `high` is too large for
      the entries from `low` on. */
  lemma {:induction false} ScanNoneNoPair(s: seq<int>, target: int, low: nat, high: nat)
    requires Sorted(s) && high < |s| && low <= |s|
    requires forall i, j | 0 <= i < low && i < j < |s| :: s[i] + s[j] != target
    requires forall i, j | low <= i < |s| && high < j < |s| :: s[i] + s[j] > target
    requires ScanAsWritten(s, target, low, high) == Returns(None)
    ensures !HasPair(s, target)
    decreases |s| - low + high, 1
  {
    if low < high {
      DescendNoneNoPair(s, target, low, high);
    }
  }

  lemma {:induction false} DescendNoneNoPair(s: seq<int>, target: int, low: nat, high: nat)
    requires Sorted(s) && high < |s| && low < |s|
    requires forall i, j | 0 <= i < low && i < j < |s| :: s[i] + s[j] != target
    requires forall i, j | low <= i < |s| && high < j < |s| :: s[i] + s[j] > target
    requires DescendAsWritten(s, target, low, high) == Returns(None)
    ensures !HasPair(s, target)
    decreases |s| - low + high, 0
  {
    if s[high] > target - s[low] {
      assert high != 0;
      forall i, j | low <= i < |s| && high - 1 < j < |s|
        ensures s[i] + s[j] > target
      {
        assert s[low] <= s[i];
      }
      DescendNoneNoPair(s, target, low, high - 1);
    } else if s[high] < target - s[low] {
      forall i, j | 0 <= i < low + 1 && i < j < |s|
        ensures s[i] + s[j] != target
      {
        if i == low && j <= high {
          assert s[j] <= s[high];
        }
      }
      ScanNoneNoPair(s, target, low + 1, high);
    }
  }

  lemma UnderflowWhenSmallestTooLarge(sorted: seq<int>)
    requires Sorted(sorted) && sorted != []
    ensures |sorted| >= 2 && 2 * sorted[0] > EXPENSE_TARGET ==>
      FindExpensesAsWritten(sorted, EXPENSE_TARGET) == Underflows
  {
    if |sorted| >= 2 && 2 * sorted[0] > EXPENSE_TARGET {
      UnderflowWhenAllTooLarge(sorted, EXPENSE_TARGET);
    }
  }

  /** `find_expenses` as written returns None only on a list without a
      pair of different entries summing to `target`. */
  lemma FindNoneNoPair(s: seq<int>, target: int)
    requires Sorted(s) && |s| > 0
    requires FindExpensesAsWritten(s, target) == Returns(None)
    ensures !HasPair(s, target)
  {
    ScanNoneNoPair(s, target, 0, |s| - 1);
  }

  /** The inner loop as written never underflows while `s[0] + s[low]` is
      within the target: at index 0 its test already fails. */
  lemma {:induction false} ScanNoUnderflow(s: seq<int>, target: int, low: nat, high: nat)
    requires Sorted(s) && high < |s| && low <= |s|
    requires low < high ==> s[0] + s[low] <= target
    ensures ScanAsWritten(s, target, low, high) != Underflows
    decreases |s| - low + high, 1
  {
    if low < high {
      DescendNoUnderflow(s, target, low, high);
    }
  }

  lemma {:induction false} DescendNoUnderflow(s: seq<int>, target: int, low: nat, high: nat)
    requires Sorted(s) && high < |s| && low < |s|
    requires s[0] + s[low] <= target
    ensures DescendAsWritten(s, target, low, high) != Underflows
    decreases |s| - low + high, 0
  {
    if s[high] > target - s[low] {
      DescendNoUnderflow(s, target, low, high - 1);
    } else if s[high] < target - s[low] {
      if low + 1 < high {
        assert s[0] <= s[low] && s[low + 1] <= s[high];
      }
      ScanNoUnderflow(s, target, low + 1, high);
    }
  }

  /** `find_expenses` as written underflows exactly on a sorted list of two
      or more entries whose smallest is more than half the target. */
  lemma UnderflowsExactly(s: seq<int>, target: int)
    requires Sorted(s) && |s| > 0
    ensures FindExpensesAsWritten(s, target) == Underflows <==> |s| >= 2 && 2 * s[0] > target
  {
    if |s| >= 2 && 2 * s[0] > target {
      UnderflowWhenAllTooLarge(s, target);
    } else {
      ScanNoUnderflow(s, target, 0, |s| - 1);
    }
  }

  /** Two different entries summing to `target` are each at least the
      smallest, so the smallest is at most half the target. */
  lemma PairBoundsSmallest(s: seq<int>, target: int)
    requires Sorted(s) && HasPair(s, target)
    ensures 2 * s[0] <= target
  {
    var i, j :| 0 <= i < j < |s| && s[i] + s[j] == target;
    assert s[0] <= s[i] && s[0] <= s[j];
  }

  /** `p` is the product of two values of `input` summing to 2020, where
      both may be the same entry. */
  ghost predicate PairProductOfValues(input: seq<int>, p: int) {
    exists a, b | a in input && b in input && a + b == EXPENSE_TARGET :: p == a * b
  }

  /** `p` is the product of three values of `input` summing to 2020, where
      an entry may be used more than once. */
  ghost predicate TripleProductOfValues(input: seq<int>, p: int) {
    exists a, b, c | a in input && b in input && c in input && a + b + c == EXPENSE_TARGET :: p == a * b * c
  }

  lemma PairAsWrittenInInput(input: seq<int>, a: int, b: int)
    requires a in Sort(input) && b in Sort(input) && a + b == EXPENSE_TARGET
    ensures PairProductOfValues(input, a * b)
  {
    var s := Sort(input);
    InSortedIsIn(input, a);
    InSortedIsIn(input, b);
  }

  /** Sorting keeps the values of the list. */
  lemma InSortedIsIn(input: seq<int>, x: int)
    requires x in Sort(input)
    ensures x in input
  {
    var s := Sort(input);
    assert x in multiset(s);
  }

  /** `pt1_impl` exactly as written: the scan as written over the sorted
      list. An empty list underflows at `input.len() - 1`, and a list whose
      smallest entry is above half the target underflows in the inner
      loop. A product it returns is of two values of the input summing to
      2020, though maybe the same entry twice; it errs only where the
      corrected `Pt1` errs too. */
  function Pt1AsWritten(input: seq<int>): (r: Outcome<Result<int>>)
    ensures r.Panics? <==> input == [] || (|input| >= 2 && 2 * Sort(input)[0] > EXPENSE_TARGET)
    ensures HasPair(Sort(input), EXPENSE_TARGET) ==> Succeeds(r)
    ensures Succeeds(r) ==> PairProductOfValues(input, r.value.value)
    ensures r.Finishes? && r.value.Err? ==> !HasPair(Sort(input), EXPENSE_TARGET)
  {
    var sorted := Sort(input);
    if sorted == [] then Panics
    else
      UnderflowsExactly(sorted, EXPENSE_TARGET);
      SmallestAtMostHalf(sorted);
      match FindExpensesAsWritten(sorted, EXPENSE_TARGET)
      case Underflows => Panics
      case Returns(None) =>
        FindNoneNoPair(sorted, EXPENSE_TARGET);
        Finishes(Err("could not find valid expenses"))
      case Returns(Some((a, b))) =>
        PairAsWrittenInInput(input, a, b);
        Finishes(Ok(a * b))
  }

  /** The scans as written err only where the corrected ones do. */
  lemma AsWrittenErrsOnlyWithCorrected(input: seq<int>)
    ensures Pt1AsWritten(input) == Finishes(Err("could not find valid expenses")) ==> Pt1(input).Err?
    ensures Pt2AsWritten(input) == Finishes(Err("could not find valid expenses")) ==> Pt2(input).Err?
  {
  }

  /** The loop of `find_triple_expenses` as written ends without a product
      only when no three different entries sum to 2020. */
  lemma {:induction false} TripleNoneNoTriple(s: seq<int>, idx: nat)
    requires Sorted(s) && idx <= |s|
    requires NoTripleBefore(s, idx)
    requires TripleFromAsWritten(s, idx) == Returns(None)
    ensures !HasTriple(s)
    decreases |s| - idx
  {
    if idx == |s| {
      NoTripleAtEnd(s);
    } else {
      NoTripleAtAsWritten(s, idx);
      TripleNoneNoTriple(s, idx + 1);
    }
  }

  /** One turn of the triple loop as written that finds no pair. */
  lemma NoTripleAtAsWritten(s: seq<int>, idx: nat)
    requires Sorted(s) && idx < |s|
    requires NoTripleBefore(s, idx)
    requires TripleFromAsWritten(s, idx) == Returns(None)
    ensures NoTripleBefore(s, idx + 1)
    ensures TripleFromAsWritten(s, idx + 1) == Returns(None)
  {
    var rest := s[idx..];
    assert Sorted(rest);
    assert FindExpensesAsWritten(rest, EXPENSE_TARGET - s[idx]) == Returns(None);
    FindNoneNoPair(rest, EXPENSE_TARGET - s[idx]);
    NoTripleAtSlice(s, idx, rest);
  }

  /** No pair in the slice from `idx` means no triple with entry `idx`
      first. */
  lemma NoTripleAtSlice(s: seq<int>, idx: nat, rest: seq<int>)
    requires idx < |s| && rest == s[idx..]
    requires NoTripleBefore(s, idx)
    requires !HasPair(rest, EXPENSE_TARGET - s[idx])
    ensures NoTripleBefore(s, idx + 1)
  {
    forall j, k | idx < j < k < |s|
      ensures s[idx] + s[j] + s[k] != EXPENSE_TARGET
    {
      assert rest[j - idx] == s[j] && rest[k - idx] == s[k];
    }
  }

  /** A product the triple loop as written returns is of three values of
      the input summing to 2020. */
  lemma TripleAsWrittenInInput(input: seq<int>, p: int)
    requires TripleProductFrom(Sort(input), 0, p)
    ensures TripleProductOfValues(input, p)
  {
    var s := Sort(input);
    var e, a, b :| 0 <= e < |s| && a in s[e..] && b in s[e..] && s[e] + a + b == EXPENSE_TARGET && p == a * b * s[e];
    InSortedIsIn(input, s[e]);
    InSortedIsIn(input, a);
    InSortedIsIn(input, b);
    assert a + b + s[e] == EXPENSE_TARGET && p == a * b * s[e];
  }

  /** `PairBoundsSmallest` for the sorted input, stated so that it can be
      called whether or not there is a pair. */
  lemma SmallestAtMostHalf(s: seq<int>)
    requires Sorted(s) && s != []
    ensures HasPair(s, EXPENSE_TARGET) ==> 2 * s[0] <= EXPENSE_TARGET
  {
    if HasPair(s, EXPENSE_TARGET) {
      PairBoundsSmallest(s, EXPENSE_TARGET);
    }
  }

  /** A round of the triple loop as written cannot underflow while a triple
      is still ahead: the slice's smallest entry `s[idx]` is then at most a
      third of 2020, so at most half of what the round looks for. */
  lemma TripleRoundNoUnderflow(s: seq<int>, idx: nat)
    requires Sorted(s) && idx < |s|
    requires NoTripleBefore(s, idx) && HasTriple(s)
    ensures FindExpensesAsWritten(s[idx..], EXPENSE_TARGET - s[idx]) != Underflows
  {
    ThirdBoundsTriple(s, idx);
    var rest := s[idx..];
    SortedSuffix(s, idx);
    assert rest[0] == s[idx];
    UnderflowsExactly(rest, EXPENSE_TARGET - s[idx]);
  }

  /** A suffix of a sorted list is sorted. */
  lemma SortedSuffix(s: seq<int>, idx: nat)
    requires Sorted(s) && idx <= |s|
    ensures Sorted(s[idx..])
  {
    var rest := s[idx..];
    forall a, b | 0 <= a <= b < |rest|
      ensures rest[a] <= rest[b]
    {
      assert rest[a] == s[idx + a] && rest[b] == s[idx + b];
    }
  }

  /** With no triple before `idx`, a triple starts at `idx` or later, so
      three times `s[idx]` is at most 2020. */
  lemma ThirdBoundsTriple(s: seq<int>, idx: nat)
    requires Sorted(s) && idx < |s|
    requires NoTripleBefore(s, idx) && HasTriple(s)
    ensures 3 * s[idx] <= EXPENSE_TARGET
  {
    var i, j, k :| 0 <= i < j < k < |s| && s[i] + s[j] + s[k] == EXPENSE_TARGET;
    assert idx <= i;
    assert s[idx] <= s[i] && s[idx] <= s[j] && s[idx] <= s[k];
  }

  /** The triple loop as written does not underflow on a list that has a
      triple, from any entry with no triple before it. */
  lemma {:induction false} TripleNoUnderflow(s: seq<int>, idx: nat)
    requires Sorted(s) && idx <= |s|
    requires NoTripleBefore(s, idx) && HasTriple(s)
    ensures TripleFromAsWritten(s, idx) != Underflows
    decreases |s| - idx
  {
    if idx < |s| {
      TripleRoundNoUnderflow(s, idx);
      if FindExpensesAsWritten(s[idx..], EXPENSE_TARGET - s[idx]) == Returns(None) {
        TripleRoundNone(s, idx);
        TripleNoUnderflow(s, idx + 1);
      }
    }
  }

  /** A round of the triple loop as written that finds no pair moves on to
      the next entry, and no triple starts at its entry. */
  lemma TripleRoundNone(s: seq<int>, idx: nat)
    requires Sorted(s) && idx < |s|
    requires NoTripleBefore(s, idx)
    requires FindExpensesAsWritten(s[idx..], EXPENSE_TARGET - s[idx]) == Returns(None)
    ensures NoTripleBefore(s, idx + 1)
    ensures TripleFromAsWritten(s, idx) == TripleFromAsWritten(s, idx + 1)
  {
    var rest := s[idx..];
    SortedSuffix(s, idx);
    FindNoneNoPair(rest, EXPENSE_TARGET - s[idx]);
    NoTripleAtSlice(s, idx, rest);
  }

  /** With a triple in the list, the triple loop as written returns a
      product: it neither underflows nor runs out of entries. */
  lemma TripleAsWrittenSucceeds(s: seq<int>)
    requires Sorted(s)
    ensures HasTriple(s) ==> FindTripleExpensesAsWritten(s).Returns? && FindTripleExpensesAsWritten(s).value.Some?
  {
    if TripleFromAsWritten(s, 0) == Returns(None) {
      TripleNoneNoTriple(s, 0);
    }
    if HasTriple(s) {
      TripleNoUnderflow(s, 0);
    }
  }

  /** `pt2_impl` exactly as written: the triple loop as written over the
      sorted list. A product it returns is of three values of the input
      summing to 2020, though maybe with an entry used twice; it errs only
      where the corrected `Pt2` errs too. */
  function Pt2AsWritten(input: seq<int>): (r: Outcome<Result<int>>)
    ensures HasTriple(Sort(input)) ==> Succeeds(r)
    ensures Succeeds(r) ==> TripleProductOfValues(input, r.value.value)
    ensures r.Finishes? && r.value.Err? ==> !HasTriple(Sort(input))
  {
    TripleAsWrittenSucceeds(Sort(input));
    match FindTripleExpensesAsWritten(Sort(input))
    case Underflows => Panics
    case Returns(None) =>
      TripleNoneNoTriple(Sort(input), 0);
      Finishes(Err("could not find valid expenses"))
    case Returns(Some(p)) =>
      TripleAsWrittenInInput(input, p);
      Finishes(Ok(p))
  }

  /** On `[1010, 2000]` the source answers 1010 * 1010, where the corrected
      search finds no pair. */
  lemma Pt1AsWrittenReusesEntry()
    ensures Pt1AsWritten([1010, 2000]) == Finishes(Ok(1020100))
    ensures Pt1([1010, 2000]).Err?
  {
    SortIs([1010, 2000], [1010, 2000]);
    FindExpensesReusesEntry();
  }

  /** On `[500, 1020]` the source answers 500 * 1020 * 500, where the
      corrected search finds no triple. */
  lemma Pt2AsWrittenReusesEntry()
    ensures Pt2AsWritten([500, 1020]) == Finishes(Ok(255000000))
    ensures Pt2([500, 1020]).Err?
  {
    SortIs([500, 1020], [500, 1020]);
    FindTripleReusesEntry();
    CorrectedFindsNoTriple();
  }

  /** On `[100, 700, 800]` the round for 700 searches `[700, 800]` for
      1320: 800 is too large, so `iter_high` drops to 0, and 700 is too
      large as well, so `iter_high -= 1` underflows. The list has no triple,
      and the corrected search reports that as an error. */
  lemma Pt2AsWrittenPanicsWithoutTriple()
    ensures Pt2AsWritten([100, 700, 800]).Panics?
    ensures !HasTriple([100, 700, 800])
    ensures Pt2([100, 700, 800]).Err?
  {
    SortIs([100, 700, 800], [100, 700, 800]);
    TripleUnderflowExample();
    NoTripleExample();
  }

  /** The rounds of the triple loop as written on `[100, 700, 800]`. */
  lemma TripleUnderflowExample()
    ensures FindTripleExpensesAsWritten([100, 700, 800]) == Underflows
  {
    var s := [100, 700, 800];
    assert FindExpensesAsWritten(s[0..], 1920) == Returns(None) by {
      assert s[0..] == s;
      assert DescendAsWritten(s, 1920, 0, 2) == Returns(None);
    }
    assert FindExpensesAsWritten(s[1..], 1320) == Underflows by {
      assert s[1..] == [700, 800];
      UnderflowWhenAllTooLarge([700, 800], 1320);
    }
  }

  /** The only three entries of `[100, 700, 800]` sum to 1600. */
  lemma NoTripleExample()
    ensures !HasTriple([100, 700, 800])
  {
  }

  lemma CorrectedFindsNoTriple()
    ensures Pt2([500, 1020]).Err?
  {
    SortIs([500, 1020], [500, 1020]);
    assert !HasTriple(Sort([500, 1020]));
  }

  lemma Part1Example()
    ensures Pt1([1721, 979, 366, 299, 675, 1456]) == Ok(514579)
  {
    SortExample(1721);
    PairExample();
  }

  /** The first and last entries of the sorted example pair up at once. */
  lemma PairExample()
    ensures FindExpenses([299, 366, 675, 979, 1456, 1721], EXPENSE_TARGET) == Some((299, 1721))
  {
    var s := [299, 366, 675, 979, 1456, 1721];
    assert FindFrom(s, EXPENSE_TARGET, 0, 5) == Some((299, 1721));
  }

  /** The example list, with its first entry varying between the parts. */
  lemma SortExample(x: int)
    requires x > 1456
    ensures Sort([x, 979, 366, 299, 675, 1456]) == [299, 366, 675, 979, 1456, x]
  {
    var r := [299, 366, 675, 979, 1456, x];
    assert Sorted(r);
    calc {
      multiset([x, 979, 366, 299, 675, 1456]);
      multiset{x, 979, 366, 299, 675, 1456};
      multiset{299, 366, 675, 979, 1456, x};
      multiset(r);
    }
    SortIs([x, 979, 366, 299, 675, 1456], r);
  }

  lemma TripleExample()
    ensures FindTripleExpenses([299, 366, 675, 979, 1456, 1722]) == Some(241861950)
  {
    var s := [299, 366, 675, 979, 1456, 1722];
    assert IsTriple(s, 1, 2, 3);
    assert forall i, j, k | IsTriple(s, i, j, k) :: i == 1 && j == 2 && k == 3;
  }

  lemma Part2Example()
    ensures Pt2([1722, 979, 366, 299, 675, 1456]) == Ok(241861950)
  {
    SortExample(1722);
    TripleExample();
  }
}
