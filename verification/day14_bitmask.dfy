/** The 36-bit masks of the day 14 CPU (`src/challenge/day14/mask_cpu.rs`):
    reading a mask string and applying a mask to a u64.

    A u64 is modelled by its 64 bits, least significant first; Rust's `|`,
    `&` and `!` on u64 act bit by bit, and so do `Or`, `And` and `Not`. */
module Bitmask {
  import opened Wrappers
  import Numbers

  const WORD_WIDTH: nat := 64
  const MASK_WIDTH: nat := 36

  /** A u64, bit `k` having weight 2^k. */
  type Word = w: seq<bool> | |w| == WORD_WIDTH witness Zeros(WORD_WIDTH)

  /** `n` clear bits. */
  function Zeros(n: nat): (z: seq<bool>)
    ensures |z| == n && forall k | 0 <= k < n :: !z[k]
  {
    seq(n, _ => false)
  }

  function Zero(): Word {
    Zeros(WORD_WIDTH)
  }

  function Or(a: Word, b: Word): Word {
    seq(WORD_WIDTH, k requires 0 <= k < WORD_WIDTH => a[k] || b[k])
  }

  function And(a: Word, b: Word): Word {
    seq(WORD_WIDTH, k requires 0 <= k < WORD_WIDTH => a[k] && b[k])
  }

  function Not(a: Word): Word {
    seq(WORD_WIDTH, k requires 0 <= k < WORD_WIDTH => !a[k])
  }

  /** `1 << k`. */
  function Bit(k: nat): (w: Word)
    requires k < WORD_WIDTH
  {
    seq(WORD_WIDTH, j requires 0 <= j < WORD_WIDTH => j == k)
  }

  // ---------------------------------------------------------------------
  // Words as numbers
  // ---------------------------------------------------------------------

  /** The number spelled by `bits`, least significant bit first. */
  function BitsValue(bits: seq<bool>): nat
    decreases |bits|
  {
    if bits == [] then 0 else (if bits[0] then 1 else 0) + 2 * BitsValue(bits[1..])
  }

  /** The low `width` bits of `n`, least significant first. */
  function ToBits(n: nat, width: nat): (bits: seq<bool>)
    ensures |bits| == width
    decreases width
  {
    if width == 0 then [] else [n % 2 == 1] + ToBits(n / 2, width - 1)
  }

  function Value(w: Word): nat {
    BitsValue(w)
  }

  /** The u64 with value `n`. */
  function FromNat(n: nat): Word
    requires n <= Numbers.U64_MAX
  {
    ToBits(n, WORD_WIDTH)
  }

  lemma {:induction false} BitsValueBound(bits: seq<bool>)
    ensures BitsValue(bits) < Numbers.Pow2(|bits|)
    decreases |bits|
  {
    if bits != [] {
      BitsValueBound(bits[1..]);
    }
  }

  lemma {:induction false} BitsValueOfToBits(n: nat, width: nat)
    requires n < Numbers.Pow2(width)
    ensures BitsValue(ToBits(n, width)) == n
    decreases width
  {
    if width > 0 {
      BitsValueOfToBits(n / 2, width - 1);
      assert ToBits(n, width)[1..] == ToBits(n / 2, width - 1);
    }
  }

  lemma {:induction false} ToBitsOfBitsValue(bits: seq<bool>)
    ensures ToBits(BitsValue(bits), |bits|) == bits
    decreases |bits|
  {
    if bits != [] {
      ToBitsOfBitsValue(bits[1..]);
    }
  }

  lemma Pow2Word()
    ensures Numbers.Pow2(WORD_WIDTH) == Numbers.U64_MAX + 1
  {
    assert Numbers.Pow2(4) == 0x10;
    assert Numbers.Pow2(8) == 0x100;
    assert Numbers.Pow2(12) == 0x1000;
    assert Numbers.Pow2(16) == 0x10000;
    assert Numbers.Pow2(20) == 0x100000;
    assert Numbers.Pow2(24) == 0x1000000;
    assert Numbers.Pow2(28) == 0x10000000;
    assert Numbers.Pow2(32) == 0x100000000;
    assert Numbers.Pow2(36) == 0x1000000000;
    assert Numbers.Pow2(40) == 0x10000000000;
    assert Numbers.Pow2(44) == 0x100000000000;
    assert Numbers.Pow2(48) == 0x1000000000000;
    assert Numbers.Pow2(52) == 0x10000000000000;
    assert Numbers.Pow2(56) == 0x100000000000000;
    assert Numbers.Pow2(60) == 0x1000000000000000;
    assert Numbers.Pow2(64) == 0x10000000000000000;
  }

  /** Every number a u64 can hold is the value of exactly one word. */
  lemma ValueOfFromNat(n: nat)
    requires n <= Numbers.U64_MAX
    ensures Value(FromNat(n)) == n
  {
    Pow2Word();
    BitsValueOfToBits(n, WORD_WIDTH);
  }

  lemma FromNatOfValue(w: Word)
    ensures Value(w) <= Numbers.U64_MAX
    ensures FromNat(Value(w)) == w
  {
    Pow2Word();
    BitsValueBound(w);
    ToBitsOfBitsValue(w);
  }

  // ---------------------------------------------------------------------
  // Masks
  // ---------------------------------------------------------------------

  /** `ones` holds the bits a mask forces to 1, `zeros` those it forces to 0. */
  datatype Mask = Mask(ones: Word, zeros: Word)

  /** `Mask::default()`: nothing forced. */
  const NoMask: Mask := Mask(Zero(), Zero())

  /** A mask as `parse_mask` builds it: no bit is forced both ways, and only
      the 36 mask bits are forced. */
  predicate WellFormed(m: Mask) {
    && (forall k | 0 <= k < WORD_WIDTH :: !(m.ones[k] && m.zeros[k]))
    && (forall k | MASK_WIDTH <= k < WORD_WIDTH :: !m.ones[k] && !m.zeros[k])
  }

  /** `Mask::apply`: `!(!(x | ones) | zeros)`. A bit
      of the result is set exactly when the mask does not force it to 0 and
      either forces it to 1 or finds it set in `x`. */
  function Apply(m: Mask, x: Word): (r: Word)
    ensures forall k | 0 <= k < WORD_WIDTH :: r[k] <==> !m.zeros[k] && (m.ones[k] || x[k])
  {
    Not(Or(Not(Or(x, m.ones)), m.zeros))
  }

  /** Under a well-formed mask, forced bits take the forced value and every
      other bit is copied from the input. */
  lemma ApplyWellFormed(m: Mask, x: Word, k: nat)
    requires WellFormed(m) && k < WORD_WIDTH
    ensures m.ones[k] ==> Apply(m, x)[k]
    ensures m.zeros[k] ==> !Apply(m, x)[k]
    ensures !m.ones[k] && !m.zeros[k] ==> Apply(m, x)[k] == x[k]
    ensures k >= MASK_WIDTH ==> Apply(m, x)[k] == x[k]
  {
  }

  /** The all-'X' mask changes nothing. */
  lemma ApplyNoMask(x: Word)
    ensures Apply(NoMask, x) == x
  {
  }

  /** Applying a mask twice is the same as applying it once. */
  lemma ApplyIdempotent(m: Mask, x: Word)
    ensures Apply(m, Apply(m, x)) == Apply(m, x)
  {
  }

  // ---------------------------------------------------------------------
  // Parsing masks
  // ---------------------------------------------------------------------

  /** The bit `parse_mask` assigns to the character at index `idx`. */
  function MaskBit(idx: nat): (k: nat)
    requires idx < MASK_WIDTH
    ensures k < MASK_WIDTH
  {
    MASK_WIDTH - 1 - idx
  }

  /** Whether bit `k` belongs to a character the loop reads from `idx` on. */
  predicate Covers(s: string, idx: nat, k: nat) {
    k < MASK_WIDTH && idx <= MASK_WIDTH - 1 - k < |s|
  }

  /** The texts on which `parse_mask` panics: it computes the shift amount
      `35 - idx` before looking at the character, so reaching index 36 (all
      36 characters before it accepted) underflows. */
  predicate MaskPanics(s: string) {
    |s| > MASK_WIDTH && forall i | 0 <= i < MASK_WIDTH :: s[i] in "01X"
  }

  /** The loop of `parse_mask` from index `idx` on, left to right: the first
      character that is not '0', '1' or 'X' is rejected; '1' and '0' set the
      character's bit in `ones` or `zeros`, 'X' sets nothing. */
  function ParseMaskFrom(s: string, idx: nat): (r: Result<Mask>)
    requires idx <= |s| && !MaskPanics(s)
    requires forall i | 0 <= i < idx :: s[i] in "01X"
    ensures r.Ok? <==> forall i | idx <= i < |s| :: s[i] in "01X"
    ensures r.Ok? ==> |s| <= MASK_WIDTH
    ensures r.Ok? ==> forall k | 0 <= k < WORD_WIDTH ::
      && (r.value.ones[k] <==> Covers(s, idx, k) && s[MASK_WIDTH - 1 - k] == '1')
      && (r.value.zeros[k] <==> Covers(s, idx, k) && s[MASK_WIDTH - 1 - k] == '0')
    decreases |s| - idx
  {
    if idx == |s| then Ok(NoMask)
    else
      var setBit := Bit(MaskBit(idx));
      match s[idx]
      case '0' =>
        var rest :- ParseMaskFrom(s, idx + 1);
        Ok(rest.(zeros := Or(rest.zeros, setBit)))
      case '1' =>
        var rest :- ParseMaskFrom(s, idx + 1);
        Ok(rest.(ones := Or(rest.ones, setBit)))
      case 'X' => ParseMaskFrom(s, idx + 1)
      case _ => Err("mask can not include char")
  }

  /** `parse_mask`: the character at index `idx` controls bit `35 - idx`;
      a shorter text leaves the low bits unforced. */
  function ParseMask(s: string): (r: Result<Mask>)
    requires !MaskPanics(s)
    ensures r.Ok? <==> forall i | 0 <= i < |s| :: s[i] in "01X"
    ensures r.Ok? ==> |s| <= MASK_WIDTH && WellFormed(r.value)
    ensures r.Ok? ==> forall i | 0 <= i < |s| ::
      && (r.value.ones[MaskBit(i)] <==> s[i] == '1')
      && (r.value.zeros[MaskBit(i)] <==> s[i] == '0')
    ensures r.Ok? ==> forall k | 0 <= k < WORD_WIDTH && !Covers(s, 0, k) ::
      !r.value.ones[k] && !r.value.zeros[k]
  {
    var r := ParseMaskFrom(s, 0);
    if r.Ok? then
      assert forall i | 0 <= i < |s| :: MASK_WIDTH - 1 - MaskBit(i) == i;
      r
    else r
  }

  /** The mask text that `parse_mask` reads back as `m`. */
  function FormatMask(m: Mask): (s: string)
    ensures |s| == MASK_WIDTH
  {
    seq(MASK_WIDTH, idx requires 0 <= idx < MASK_WIDTH =>
      if m.ones[MaskBit(idx)] then '1'
      else if m.zeros[MaskBit(idx)] then '0'
      else 'X')
  }

  /** Every well-formed mask survives formatting and parsing. */
  lemma ParseFormatMask(m: Mask)
    requires WellFormed(m)
    ensures ParseMask(FormatMask(m)) == Ok(m)
  {
    var s := FormatMask(m);
    var r := ParseMask(s).value;
    forall k | 0 <= k < MASK_WIDTH
      ensures r.ones[k] == m.ones[k] && r.zeros[k] == m.zeros[k]
    {
      assert MaskBit(MASK_WIDTH - 1 - k) == k;
    }
    assert r.ones == m.ones;
    assert r.zeros == m.zeros;
  }

  /** Every mask text `parse_mask` accepts is reproduced by formatting; a
      full-width text comes back unchanged. */
  lemma FormatParseMask(s: string)
    requires |s| == MASK_WIDTH && ParseMask(s).Ok?
    ensures FormatMask(ParseMask(s).value) == s
  {
    var m := ParseMask(s).value;
    var t := FormatMask(m);
    forall i | 0 <= i < MASK_WIDTH
      ensures t[i] == s[i]
    {
      assert s[i] in "01X";
    }
  }

  // ---------------------------------------------------------------------
  // Examples from the unit tests
  // ---------------------------------------------------------------------

  lemma {:induction false} ToBitsZero(width: nat)
    ensures ToBits(0, width) == Zeros(width)
    decreases width
  {
    if width > 0 {
      ToBitsZero(width - 1);
    }
  }

  /** The word with value 2^k is `1 << k`. */
  lemma {:induction false} ToBitsPow2(k: nat, width: nat)
    requires k < width
    ensures forall j | 0 <= j < width :: ToBits(Numbers.Pow2(k), width)[j] == (j == k)
    decreases k
  {
    if k == 0 {
      ToBitsZero(width - 1);
    } else {
      ToBitsPow2(k - 1, width - 1);
    }
  }

  lemma FromNatBit35()
    ensures FromNat(34359738368) == Bit(35)
  {
    ToBitsPow2(35, WORD_WIDTH);
    assert Numbers.Pow2(8) == 0x100;
    assert Numbers.Pow2(16) == 0x1_0000;
    assert Numbers.Pow2(24) == 0x100_0000;
    assert Numbers.Pow2(32) == 0x1_0000_0000;
    assert Numbers.Pow2(35) == 34359738368;
  }

  /** A string of `n` 'X' characters. */
  function Floating(n: nat): (s: string)
    ensures |s| == n && forall i | 0 <= i < n :: s[i] == 'X'
  {
    seq(n, _ => 'X')
  }

  /** A word whose set bits are exactly the first entries of `low`. */
  function WordOf(low: seq<bool>): (w: Word)
    requires |low| <= WORD_WIDTH
    ensures forall k | 0 <= k < WORD_WIDTH :: w[k] == (k < |low| && low[k])
  {
    low + Zeros(WORD_WIDTH - |low|)
  }

  lemma {:induction false} BitsValueZeros(n: nat)
    ensures BitsValue(Zeros(n)) == 0
    decreases n
  {
    if n > 0 {
      assert Zeros(n)[1..] == Zeros(n - 1);
      BitsValueZeros(n - 1);
    }
  }

  lemma {:induction false} BitsValueTrailingZeros(low: seq<bool>, n: nat)
    ensures BitsValue(low + Zeros(n)) == BitsValue(low)
    decreases |low|
  {
    if low == [] {
      assert low + Zeros(n) == Zeros(n);
      BitsValueZeros(n);
    } else {
      assert (low + Zeros(n))[1..] == low[1..] + Zeros(n);
      BitsValueTrailingZeros(low[1..], n);
    }
  }

  /** The word of a short bit pattern is the word of its value. */
  lemma FromNatOfPattern(low: seq<bool>, n: nat)
    requires |low| <= WORD_WIDTH && BitsValue(low) == n
    ensures n <= Numbers.U64_MAX
    ensures FromNat(n) == WordOf(low)
  {
    var w := WordOf(low);
    BitsValueTrailingZeros(low, WORD_WIDTH - |low|);
    assert Value(w) == n;
    FromNatOfValue(w);
  }

  lemma FromNatSmall()
    ensures FromNat(0) == WordOf([])
    ensures FromNat(1) == WordOf([true])
    ensures FromNat(2) == WordOf([false, true])
    ensures FromNat(10) == WordOf([false, true, false, true])
    ensures FromNat(11) == WordOf([true, true, false, true])
  {
    FromNatOfPattern([], 0);
    FromNatOfPattern([true], 1);
    FromNatOfPattern([false, true], 2);
    FromNatOfPattern([false, true, false, true], 10);
    FromNatOfPattern([true, true, false, true], 11);
  }

  lemma FromNatMedium()
    ensures FromNat(36) == WordOf([false, false, true, false, false, true])
    ensures FromNat(64) == WordOf([false, false, false, false, false, false, true])
    ensures FromNat(73) == WordOf([true, false, false, true, false, false, true])
    ensures FromNat(101) == WordOf([true, false, true, false, false, true, true])
  {
    FromNatOfPattern([false, false, true, false, false, true], 36);
    FromNatOfPattern([false, false, false, false, false, false, true], 64);
    FromNatOfPattern([true, false, false, true, false, false, true], 73);
    FromNatOfPattern([true, false, true, false, false, true, true], 101);
  }

  /** A mask text is read as `m` when every bit of `m` is the one its
      character asks for. */
  lemma ParseMaskIs(s: string, m: Mask)
    requires !MaskPanics(s) && ParseMask(s).Ok?
    requires forall k | 0 <= k < WORD_WIDTH :: m.ones[k] == (Covers(s, 0, k) && s[MASK_WIDTH - 1 - k] == '1')
    requires forall k | 0 <= k < WORD_WIDTH :: m.zeros[k] == (Covers(s, 0, k) && s[MASK_WIDTH - 1 - k] == '0')
    ensures ParseMask(s) == Ok(m)
  {
    var r := ParseMask(s).value;
    forall k | 0 <= k < WORD_WIDTH
      ensures r.ones[k] == m.ones[k] && r.zeros[k] == m.zeros[k]
    {
      if Covers(s, 0, k) {
        assert MaskBit(MASK_WIDTH - 1 - k) == k;
      }
    }
    assert r.ones == m.ones;
    assert r.zeros == m.zeros;
  }

  /** A mask text of `n` 'X' characters followed by `tail` forces exactly
      the bits `tail` spells: `ones` and `zeros` list them, least
      significant first. */
  lemma ParseFloatingThen(n: nat, tail: string, ones: seq<bool>, zeros: seq<bool>)
    requires n + |tail| == MASK_WIDTH && |ones| <= |tail| && |zeros| <= |tail|
    requires forall i | 0 <= i < |tail| :: tail[i] in "01X"
    requires forall k | 0 <= k < |tail| ::
      && (k < |ones| && ones[k]) == (tail[|tail| - 1 - k] == '1')
      && (k < |zeros| && zeros[k]) == (tail[|tail| - 1 - k] == '0')
    ensures ParseMask(Floating(n) + tail) == Ok(Mask(WordOf(ones), WordOf(zeros)))
  {
    var s := Floating(n) + tail;
    var m := Mask(WordOf(ones), WordOf(zeros));
    assert forall i | 0 <= i < |s| :: s[i] in "01X" by {
      forall i | 0 <= i < |s| ensures s[i] in "01X" {
        if i < n {
          assert s[i] == Floating(n)[i];
        } else {
          assert s[i] == tail[i - n];
        }
      }
    }
    forall k | 0 <= k < WORD_WIDTH
      ensures m.ones[k] == (Covers(s, 0, k) && s[MASK_WIDTH - 1 - k] == '1')
      ensures m.zeros[k] == (Covers(s, 0, k) && s[MASK_WIDTH - 1 - k] == '0')
    {
      if k < |tail| {
        var c := tail[|tail| - 1 - k];
        assert s[MASK_WIDTH - 1 - k] == c;
        assert (k < |ones| && ones[k]) == (c == '1');
        assert m.ones[k] == (k < |ones| && ones[k]);
      } else if k < MASK_WIDTH {
        assert s[MASK_WIDTH - 1 - k] == 'X';
      }
    }
    ParseMaskIs(s, m);
  }

  lemma ParseEmptyMaskExample()
    ensures ParseMask(Floating(36)) == Ok(Mask(FromNat(0), FromNat(0)))
  {
    ParseFloatingThen(36, "", [], []);
    assert Floating(36) + "" == Floating(36);
    FromNatOfPattern([], 0);
  }

  lemma ParseZeroSmallExample()
    ensures ParseMask(Floating(35) + "0") == Ok(Mask(FromNat(0), FromNat(1)))
  {
    ParseFloatingThen(35, "0", [], [true]);
    FromNatOfPattern([], 0);
    FromNatOfPattern([true], 1);
  }

  lemma ParseOneSmallExample()
    ensures ParseMask(Floating(35) + "1") == Ok(Mask(FromNat(1), FromNat(0)))
  {
    ParseFloatingThen(35, "1", [true], []);
    FromNatOfPattern([], 0);
    FromNatOfPattern([true], 1);
  }

  /** A leading '0' forces bit 35, whose value is 34359738368. */
  lemma ParseZeroLargeExample()
    ensures ParseMask("0" + Floating(35)) == Ok(Mask(FromNat(0), FromNat(34359738368)))
  {
    var s := "0" + Floating(35);
    var m := Mask(WordOf([]), Bit(35));
    forall k | 0 <= k < WORD_WIDTH
      ensures m.ones[k] == (Covers(s, 0, k) && s[MASK_WIDTH - 1 - k] == '1')
      ensures m.zeros[k] == (Covers(s, 0, k) && s[MASK_WIDTH - 1 - k] == '0')
    {
      if k < 35 {
        assert s[MASK_WIDTH - 1 - k] == 'X';
      }
    }
    ParseMaskIs(s, m);
    FromNatOfPattern([], 0);
    FromNatBit35();
  }

  /** "…0X101X": ones = 10, zeros = 36. */
  lemma ParseMixedExample()
    ensures ParseMask(Floating(30) + "0X101X") == Ok(Mask(FromNat(10), FromNat(36)))
  {
    ParseFloatingThen(30, "0X101X", [false, true, false, true], [false, false, true, false, false, true]);
    FromNatSmall();
    FromNatMedium();
  }

  /** The mask "…X1XXXX0X" of the puzzle text forces bit 6 to 1 and bit 1
      to 0. */
  lemma ExampleMask()
    ensures ParseMask(Floating(29) + "1XXXX0X") == Ok(Mask(FromNat(64), FromNat(2)))
  {
    ParseFloatingThen(29, "1XXXX0X", [false, false, false, false, false, false, true], [false, true]);
    FromNatSmall();
    FromNatMedium();
  }

  /** The mask "…X1XXXX0X" turns 11 into 73, keeps 101 and turns 0 into 64. */
  lemma ApplyExample11()
    ensures Apply(Mask(FromNat(64), FromNat(2)), FromNat(11)) == FromNat(73)
  {
    FromNatSmall();
    FromNatMedium();
  }

  lemma ApplyExample101()
    ensures Apply(Mask(FromNat(64), FromNat(2)), FromNat(101)) == FromNat(101)
  {
    FromNatSmall();
    FromNatMedium();
  }

  lemma ApplyExample0()
    ensures Apply(Mask(FromNat(64), FromNat(2)), FromNat(0)) == FromNat(64)
  {
    FromNatSmall();
    FromNatMedium();
  }

  /** Under that mask, 11 becomes 73, 101 stays 101 and 0 becomes 64. */
  lemma ApplyExamples()
    ensures var m := ParseMask(Floating(29) + "1XXXX0X").value;
      && Apply(m, FromNat(11)) == FromNat(73)
      && Apply(m, FromNat(101)) == FromNat(101)
      && Apply(m, FromNat(0)) == FromNat(64)
  {
    ExampleMask();
    ApplyExample11();
    ApplyExample101();
    ApplyExample0();
  }
}
