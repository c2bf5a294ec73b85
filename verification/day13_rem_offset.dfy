/** Day 13 part 2 (`src/challenge/day13/rem_offset.rs`): the earliest time
    at which each bus in a list departs its own index of minutes later,
    found by folding the buses in one at a time, Chinese-remainder style. */
module RemOffset {
  import opened Wrappers
  import opened Numbers

  // ---------------------------------------------------------------------
  // Divisibility
  // ---------------------------------------------------------------------

  lemma MulPositive(d: int, t: int)
    requires d > 0 && t >= 1
    ensures d * t >= d
  {
    assert d * t == d + d * (t - 1);
  }

  /** Euclidean division has one quotient and one remainder. */
  lemma ModUnique(d: int, n: int, q: int, r: int)
    requires d > 0 && n == d * q + r && 0 <= r < d
    ensures n % d == r && n / d == q
  {
    var q0, r0 := n / d, n % d;
    assert n == d * q0 + r0;
    var t := q - q0;
    assert d * t == r0 - r by {
      assert d * q - d * q0 == d * (q - q0);
    }
    if t > 0 {
      MulPositive(d, t);
    } else if t < 0 {
      assert d * t == -(d * -t);
      MulPositive(d, -t);
    }
  }

  lemma MulMod(d: int, k: int)
    requires d > 0
    ensures (d * k) % d == 0
  {
    ModUnique(d, d * k, k, 0);
  }

  lemma DivAdd(d: int, u: int, v: int)
    requires d > 0 && u % d == 0 && v % d == 0
    ensures (u + v) % d == 0
  {
    var a, b := u / d, v / d;
    assert u == d * a && v == d * b;
    assert u + v == d * (a + b);
    MulMod(d, a + b);
  }

  lemma DivMul(d: int, u: int, s: int)
    requires d > 0 && u % d == 0
    ensures (u * s) % d == 0
  {
    var a := u / d;
    assert u == d * a;
    assert u * s == d * (a * s);
    MulMod(d, a * s);
  }

  lemma DivTrans(c: int, d: int, n: int)
    requires c > 0 && d > 0 && d % c == 0 && n % d == 0
    ensures n % c == 0
  {
    var a := n / d;
    assert n == d * a;
    DivMul(c, d, a);
  }

  lemma DivNeg(d: int, u: int)
    requires d > 0 && u % d == 0
    ensures (-u) % d == 0
  {
    DivMul(d, u, -1);
  }

  // ---------------------------------------------------------------------
  // Modular inverse
  // ---------------------------------------------------------------------

  /** The extended Euclidean algorithm: the greatest common divisor of `a`
      and `b` with its Bézout coefficients. */
  function ExtGcd(a: nat, b: nat): (r: (nat, int, int))
    ensures a * r.1 + b * r.2 == r.0
    ensures r.0 == 0 <==> a == 0 && b == 0
    ensures r.0 > 0 ==> a % r.0 == 0 && b % r.0 == 0
    decreases b
  {
    if b == 0 then
      assert a > 0 ==> a % a == 0 by {
        if a > 0 {
          MulMod(a, 1);
        }
      }
      (a, 1, 0)
    else
      var (g, x, y) := ExtGcd(b, a % b);
      GcdStep(a, b, g, x, y);
      (g, y, x - (a / b) * y)
  }

  /** One step of the extended Euclidean algorithm keeps the Bézout
      identity, and a divisor of `b` and `a % b` also divides `a`. */
  lemma GcdStep(a: nat, b: nat, g: nat, x: int, y: int)
    requires b > 0 && b * x + (a % b) * y == g
    ensures a * y + b * (x - (a / b) * y) == g
    ensures g > 0 && b % g == 0 && (a % b) % g == 0 ==> a % g == 0
  {
    var q := a / b;
    assert a == b * q + a % b;
    assert a * y == b * q * y + (a % b) * y;
    assert b * (x - q * y) == b * x - b * q * y;
    if g > 0 && b % g == 0 && (a % b) % g == 0 {
      DivMul(g, b, q);
      DivAdd(g, b * q, a % b);
    }
  }

  /** `x` undoes multiplication by `a` modulo `m`. */
  predicate IsInverse(x: int, a: int, m: int)
    requires m > 0
  {
    (x * a - 1) % m == 0
  }

  /** `aoc::math::inverse_mod` is not part of this model; this stand-in
      answers with the inverse in `[0, m)` whenever one exists. */
  function InverseMod(a: int, m: int): (r: Option<int>)
    ensures r.Some? ==> m > 0 && 0 <= r.value < m && IsInverse(r.value, a, m)
    ensures r.None? && m > 0 ==> forall x :: !IsInverse(x, a, m)
  {
    if m <= 0 then None
    else
      var (g, x, y) := ExtGcd(a % m, m);
      if g == 1 then
        InverseSound(a, m, x, y);
        Some(x % m)
      else
        NoInverse(a, m, g);
        None
  }

  /** A Bézout coefficient of `a mod m`, reduced, is an inverse of `a`. */
  lemma InverseSound(a: int, m: int, x: int, y: int)
    requires m > 0 && (a % m) * x + m * y == 1
    ensures IsInverse(x % m, a, m)
  {
    var k := a / m;
    assert a == m * k + a % m;
    assert x * a - 1 == m * (x * k - y) by {
      assert x * a == x * (m * k) + x * (a % m);
    }
    var u := x / m;
    assert x == m * u + x % m;
    assert (x % m) * a - 1 == (x * a - 1) - m * (u * a) by {
      assert (x % m) * a == x * a - (m * u) * a;
    }
    MulMod(m, x * k - y);
    MulMod(m, u * a);
    DivNeg(m, m * (u * a));
    DivAdd(m, x * a - 1, -(m * (u * a)));
  }

  /** A common divisor above 1 of `a` and `m` rules out every inverse. */
  lemma NoInverse(a: int, m: int, g: nat)
    requires m > 0 && g > 1 && (a % m) % g == 0 && m % g == 0
    ensures forall x :: !IsInverse(x, a, m)
  {
    forall x | IsInverse(x, a, m)
      ensures false
    {
      var k := a / m;
      assert a == m * k + a % m;
      DivMul(g, m, k);
      DivAdd(g, m * k, a % m);
      DivMul(g, a, x);
      assert x * a == a * x;
      DivTrans(g, m, x * a - 1);
      DivNeg(g, x * a - 1);
      DivAdd(g, x * a, -(x * a - 1));
      ModUnique(g, 1, 0, 1);
    }
  }

  // ---------------------------------------------------------------------
  // `offset_rem`
  // ---------------------------------------------------------------------

  /** `while offset < 0 { offset += period }`, for the cases where it ends. */
  function Lift(offset: int, period: int): (r: int)
    requires offset >= 0 || period > 0
    ensures r >= 0
    ensures offset >= 0 ==> r == offset
    ensures period > 0 ==> (r - offset) % period == 0
    ensures period > 0 && offset < 0 ==> r < period
    decreases if offset < 0 then -offset else 0
  {
    if offset < 0 then
      var r := Lift(offset + period, period);
      assert (r - offset) % period == 0 by {
        MulMod(period, 1);
        DivAdd(period, r - (offset + period), period);
      }
      r
    else
      offset
  }

  /** The raw offset before lifting it into range. */
  function Combined(c1: int, c2: int, target: int, c1Offset: int, im: int): int
    requires c2 != 0
  {
    var c2Offset := TruncRem(c1Offset, c2);
    var c2Target := c2 - target;
    var c2Steps := c2Target - c2Offset;
    c2Steps * im * c1 + c1Offset
  }

  /** `offset_rem`: fold a bus with id `c2` that must leave `target`
      minutes after the start into a schedule that repeats every `c1`
      minutes from `c1Offset`. Returns the new start and period, or an
      error when `c1` has no inverse modulo `c2`. A zero period panics
      (`% 0`), and a negative one never lifts a negative offset. */
  function OffsetRem(c1: int, c2: int, target: int, c1Offset: int): (r: Outcome<Result<(int, int)>>)
    ensures (r.Finishes? && r.value.Err?) <==> InverseMod(c1, c2).None?
    ensures c1 > 0 ==> !r.Panics?
    ensures Succeeds(r) ==> r.value.value.1 == c1 * c2
    ensures Succeeds(r) && c1 > 0 ==>
      var (offset, period) := r.value.value;
      && 0 <= offset < period
      && (offset - c1Offset) % c1 == 0
      && (offset + target) % c2 == 0
  {
    var period := c1 * c2;
    match InverseMod(c1, c2)
    case None => Finishes(Err("two numbers do not have an inverse mod, so won't ever align"))
    case Some(im) =>
      if period == 0 then Panics
      else
        var offset := TruncRem(Combined(c1, c2, target, c1Offset, im), period);
        if offset < 0 && period < 0 then Panics
        else
          var lifted := Lift(offset, period);
          if c1 > 0 then
            OffsetAligned(c1, c2, target, c1Offset, im, offset, lifted);
            Finishes(Ok((lifted, period)))
          else Finishes(Ok((lifted, period)))
  }

  /** Reducing by the period with a truncating `%` moves by a multiple of
      the period. */
  lemma RemMultiple(x: int, period: int)
    requires period > 0
    ensures (TruncRem(x, period) - x) % period == 0
  {
    var q := TruncDiv(x, period);
    assert x == period * q + TruncRem(x, period);
    assert TruncRem(x, period) - x == period * -q;
    MulMod(period, -q);
  }

  /** Modulo `c1`, the raw offset is the old start. */
  lemma CombinedModC1(c1: int, c2: int, target: int, c1Offset: int, im: int)
    requires c1 > 0 && c2 != 0
    ensures (Combined(c1, c2, target, c1Offset, im) - c1Offset) % c1 == 0
  {
    var c2Steps := c2 - target - TruncRem(c1Offset, c2);
    assert Combined(c1, c2, target, c1Offset, im) - c1Offset == c1 * (c2Steps * im);
    MulMod(c1, c2Steps * im);
  }

  /** Modulo `c2`, the raw offset is `target` minutes before a departure,
      because `im * c1` is one more than a multiple of `c2`. */
  lemma CombinedModC2(c1: int, c2: int, target: int, c1Offset: int, im: int)
    requires c2 > 0 && IsInverse(im, c1, c2)
    ensures (Combined(c1, c2, target, c1Offset, im) + target) % c2 == 0
  {
    var x := Combined(c1, c2, target, c1Offset, im);
    var c2Steps := c2 - target - TruncRem(c1Offset, c2);
    var k := (im * c1 - 1) / c2;
    assert im * c1 == 1 + c2 * k;
    var d := TruncDiv(c1Offset, c2);
    assert c1Offset == c2 * d + TruncRem(c1Offset, c2);
    assert x == c2Steps * (im * c1) + c1Offset;
    assert c2Steps * (im * c1) == c2Steps + c2 * (c2Steps * k);
    assert x + target == c2 * (1 + d + c2Steps * k);
    MulMod(c2, 1 + d + c2Steps * k);
  }

  /** A number that moves by a multiple of `c1 * c2` keeps its residues
      modulo `c1` and modulo `c2`. */
  lemma ProductMultiple(c1: int, c2: int, n: int)
    requires c1 > 0 && c2 > 0 && n % (c1 * c2) == 0
    ensures n % c1 == 0 && n % c2 == 0
  {
    MulPositive(c1, c2);
    MulMod(c1, c2);
    DivTrans(c1, c1 * c2, n);
    assert c1 * c2 == c2 * c1;
    MulMod(c2, c1);
    DivTrans(c2, c1 * c2, n);
  }

  /** The arithmetic behind `offset_rem`: the lifted offset keeps the old
      start modulo `c1` and lands `target` minutes before a departure of
      `c2`. */
  lemma OffsetAligned(c1: int, c2: int, target: int, c1Offset: int, im: int, offset: int, lifted: int)
    requires c1 > 0 && c2 > 0 && IsInverse(im, c1, c2)
    requires offset == TruncRem(Combined(c1, c2, target, c1Offset, im), c1 * c2)
    requires lifted == Lift(offset, c1 * c2)
    ensures 0 <= lifted < c1 * c2
    ensures (lifted - c1Offset) % c1 == 0
    ensures (lifted + target) % c2 == 0
  {
    MulPositive(c1, c2);
    var x := Combined(c1, c2, target, c1Offset, im);
    RemMultiple(x, c1 * c2);
    DivAdd(c1 * c2, lifted - offset, offset - x);
    ProductMultiple(c1, c2, lifted - x);
    CombinedModC1(c1, c2, target, c1Offset, im);
    DivAdd(c1, lifted - x, x - c1Offset);
    CombinedModC2(c1, c2, target, c1Offset, im);
    DivAdd(c2, lifted - x, x + target);
  }

  // ---------------------------------------------------------------------
  // `chain_offset`
  // ---------------------------------------------------------------------

  /** Every bus in the list has a positive id. */
  predicate PositiveIds(c: seq<Option<int>>) {
    forall j | 0 <= j < |c| && c[j].Some? :: c[j].value > 0
  }

  /** The buses before `idx` each leave `j` minutes after `start`, and the
      period is a multiple of each of their ids. */
  predicate Aligned(c: seq<Option<int>>, idx: nat, start: int, interval: int)
    requires PositiveIds(c) && idx <= |c|
  {
    forall j | 0 <= j < idx && c[j].Some? :: interval % c[j].value == 0 && (start + j) % c[j].value == 0
  }

  /** The loop of `chain_offset` from index `idx` on. */
  function ChainFrom(c: seq<Option<int>>, idx: nat, start: int, interval: int): Outcome<Result<int>>
    decreases |c| - idx
  {
    if idx >= |c| then Finishes(Ok(start))
    else match c[idx]
      case None => ChainFrom(c, idx + 1, start, interval)
      case Some(id) =>
        match OffsetRem(interval, id, idx, start)
        case Panics => Panics
        case Finishes(Err(msg)) => Finishes(Err(msg))
        case Finishes(Ok((offset, period))) => ChainFrom(c, idx + 1, offset, period)
  }

  /** `chain_offset`: the first bus fixes the start at 0 and the period at
      its id; each later bus is folded in with `offset_rem`. */
  function ChainOffset(c: seq<Option<int>>): (r: Outcome<Result<int>>)
    ensures |c| == 0 || c[0].None? ==> r.Finishes? && r.value.Err?
    ensures PositiveIds(c) ==> !r.Panics?
    ensures PositiveIds(c) && Succeeds(r) ==> AllAligned(c, r.value.value)
  {
    if |c| == 0 || c[0].None? then Finishes(Err("chain must start with valid entry"))
    else
      var r := ChainFrom(c, 1, 0, c[0].value);
      assert PositiveIds(c) ==> ChainSafe(c, r) by {
        if PositiveIds(c) {
          MulMod(c[0].value, 1);
          MulMod(c[0].value, 0);
          ChainAligned(c, 1, 0, c[0].value);
        }
      }
      r
  }

  /** Folding in one bus keeps the earlier buses aligned and aligns the new
      one. */
  lemma {:induction false} ChainAligned(c: seq<Option<int>>, idx: nat, start: int, interval: int)
    requires PositiveIds(c) && 1 <= idx <= |c| && interval > 0 && start >= 0
    requires Aligned(c, idx, start, interval)
    ensures ChainSafe(c, ChainFrom(c, idx, start, interval))
    decreases |c| - idx
  {
    if idx == |c| {
      assert ChainFrom(c, idx, start, interval) == Finishes(Ok(start));
      AlignedAtEnd(c, start, interval);
    } else {
      match c[idx]
      case None =>
        ChainAligned(c, idx + 1, start, interval);
        assert ChainFrom(c, idx, start, interval) == ChainFrom(c, idx + 1, start, interval);
      case Some(id) =>
        var r := OffsetRem(interval, id, idx, start);
        if Succeeds(r) {
          var (offset, period) := r.value.value;
          AlignedStep(c, idx, start, interval, offset, period);
          ChainAligned(c, idx + 1, offset, period);
          assert ChainFrom(c, idx, start, interval) == ChainFrom(c, idx + 1, offset, period);
        } else {
          assert ChainFrom(c, idx, start, interval) == Finishes(Err(r.value.msg));
        }
    }
  }

  /** The fold did not panic, and if it found a time, all buses line up. */
  predicate ChainSafe(c: seq<Option<int>>, o: Outcome<Result<int>>)
    requires PositiveIds(c)
  {
    !o.Panics? && (Succeeds(o) ==> AllAligned(c, o.value.value))
  }

  lemma AlignedAtEnd(c: seq<Option<int>>, start: int, interval: int)
    requires PositiveIds(c) && start >= 0 && Aligned(c, |c|, start, interval)
    ensures AllAligned(c, start)
  {
  }

  /** `t` leaves each bus `j` exactly `j` minutes before it departs. */
  predicate AllAligned(c: seq<Option<int>>, t: int)
    requires PositiveIds(c)
  {
    t >= 0 && forall j | 0 <= j < |c| && c[j].Some? :: (t + j) % c[j].value == 0
  }

  /** Folding in the bus at `idx` keeps every bus up to it aligned. */
  lemma AlignedStep(c: seq<Option<int>>, idx: nat, start: int, interval: int, offset: int, period: int)
    requires PositiveIds(c) && 1 <= idx < |c| && c[idx].Some? && interval > 0 && start >= 0
    requires Aligned(c, idx, start, interval)
    requires period == interval * c[idx].value && 0 <= offset
    requires (offset - start) % interval == 0 && (offset + idx) % c[idx].value == 0
    ensures period > 0 && Aligned(c, idx + 1, offset, period)
  {
    var id := c[idx].value;
    MulPositive(interval, id);
    forall j | 0 <= j < idx + 1 && c[j].Some?
      ensures period % c[j].value == 0 && (offset + j) % c[j].value == 0
    {
      var cj := c[j].value;
      if j == idx {
        assert period == id * interval;
        MulMod(id, interval);
      } else {
        DivMul(cj, interval, id);
        DivTrans(cj, interval, offset - start);
        DivAdd(cj, offset - start, start + j);
      }
    }
  }

  // ---------------------------------------------------------------------
  // Examples
  // ---------------------------------------------------------------------

  /** The inverses the examples below need, by the Euclidean steps. */
  lemma Inverse3Mod5()
    ensures InverseMod(3, 5) == Some(2)
  {
    assert ExtGcd(1, 0) == (1, 1, 0);
    assert ExtGcd(2, 1) == (1, 0, 1);
    assert ExtGcd(3, 2) == (1, 1, -1);
    assert ExtGcd(5, 3) == (1, -1, 2);
    assert ExtGcd(3, 5) == (1, 2, -1);
  }

  lemma Inverse17Mod13()
    ensures InverseMod(17, 13) == Some(10)
  {
    assert ExtGcd(1, 0) == (1, 1, 0);
    assert ExtGcd(4, 1) == (1, 0, 1);
    assert ExtGcd(13, 4) == (1, 1, -3);
    assert ExtGcd(4, 13) == (1, -3, 1);
  }

  lemma Inverse221Mod19()
    ensures InverseMod(221, 19) == Some(8)
  {
    assert ExtGcd(1, 0) == (1, 1, 0);
    assert ExtGcd(2, 1) == (1, 0, 1);
    assert ExtGcd(5, 2) == (1, 1, -2);
    assert ExtGcd(7, 5) == (1, -2, 3);
    assert ExtGcd(12, 7) == (1, 3, -5);
    assert ExtGcd(19, 12) == (1, -5, 8);
    assert ExtGcd(12, 19) == (1, 8, -5);
  }

  lemma Inverse15Mod7()
    ensures InverseMod(15, 7) == Some(1)
  {
    assert ExtGcd(1, 0) == (1, 1, 0);
    assert ExtGcd(7, 1) == (1, 0, 1);
    assert ExtGcd(1, 7) == (1, 1, 0);
  }

  /** The `offset_rem` cases of the module's own tests. */
  lemma OffsetRemExample1()
    ensures OffsetRem(3, 5, 1, 0) == Finishes(Ok((9, 15)))
  {
    Inverse3Mod5();
    assert Combined(3, 5, 1, 0, 2) == 24;
    assert TruncRem(24, 15) == 9;
  }

  lemma OffsetRemExample2()
    ensures OffsetRem(15, 7, 2, 9) == Finishes(Ok((54, 105)))
  {
    Inverse15Mod7();
    assert TruncRem(9, 7) == 2;
    assert Combined(15, 7, 2, 9, 1) == 54;
    assert TruncRem(54, 105) == 54;
  }

  lemma OffsetRemExample3()
    ensures OffsetRem(17, 13, 2, 0) == Finishes(Ok((102, 221)))
  {
    Inverse17Mod13();
    assert Combined(17, 13, 2, 0, 10) == 1870;
    assert TruncRem(1870, 221) == 102;
  }

  lemma OffsetRemExample4()
    ensures OffsetRem(221, 19, 3, 102) == Finishes(Ok((3417, 4199)))
  {
    Inverse221Mod19();
    assert TruncRem(102, 19) == 7;
    assert Combined(221, 19, 3, 102, 8) == 16014;
    assert TruncRem(16014, 4199) == 3417;
  }

  /** Buses 17, 13 and 19 at indices 0, 2 and 3 first line up at 3417. */
  lemma ChainExample()
    ensures ChainOffset([Some(17), None, Some(13), Some(19)]) == Finishes(Ok(3417))
  {
    var c := [Some(17), None, Some(13), Some(19)];
    ChainFromExample();
    assert c[0] == Some(17);
  }

  /** The fold from the second entry on, starting at 0 with period 17. */
  lemma ChainFromExample()
    ensures ChainFrom([Some(17), None, Some(13), Some(19)], 1, 0, 17) == Finishes(Ok(3417))
  {
    var c := [Some(17), None, Some(13), Some(19)];
    OffsetRemExample3();
    OffsetRemExample4();
    assert ChainFrom(c, 4, 3417, 4199) == Finishes(Ok(3417));
    assert ChainFrom(c, 3, 102, 221) == Finishes(Ok(3417));
    assert ChainFrom(c, 2, 0, 17) == Finishes(Ok(3417));
  }
}
