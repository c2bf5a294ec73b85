/** Rust machine-integer facts the solvers rely on: the bounds of the
    integer types they parse into, and Rust's truncating `/` and `%`
    (Dafny's own `/` and `%` are Euclidean). */
module Numbers {

  const U32_MAX: nat := 0xFFFF_FFFF
  const U64_MAX: nat := 0xFFFF_FFFF_FFFF_FFFF
  /** `usize` is taken to be 64 bits wide. */
  const USIZE_MAX: nat := U64_MAX
  const I64_MAX: int := 0x7FFF_FFFF_FFFF_FFFF
  const I64_MIN: int := -0x8000_0000_0000_0000

  function Abs(x: int): (r: nat)
    ensures r == x || r == -x
  {
    if x < 0 then -x else x
  }

  /** Rust's `/` on signed integers: the quotient is rounded toward zero. */
  function TruncDiv(a: int, b: int): (q: int)
    requires b != 0
    ensures Abs(q) == Abs(a) / Abs(b)
    ensures q != 0 ==> ((q < 0) <==> ((a < 0) != (b < 0)))
  {
    var m := Abs(a) / Abs(b);
    if (a < 0) != (b < 0) then -m else m
  }

  /** Rust's `%` on signed integers: the remainder takes the sign of `a`. */
  function TruncRem(a: int, b: int): (r: int)
    requires b != 0
    ensures a == b * TruncDiv(a, b) + r
    ensures Abs(r) < Abs(b)
    ensures r != 0 ==> ((r < 0) <==> (a < 0))
    ensures a >= 0 && b > 0 ==> r == a % b
  {
    var q := TruncDiv(a, b);
    DivModAbs(a, b);
    a - b * q
  }

  lemma DivModAbs(a: int, b: int)
    requires b != 0
    ensures var m := Abs(a) / Abs(b);
            var q := if (a < 0) != (b < 0) then -m else m;
            Abs(a - b * q) == Abs(a) % Abs(b)
            && (a - b * q != 0 ==> ((a - b * q < 0) <==> (a < 0)))
  {
    var m := Abs(a) / Abs(b);
    var rm := Abs(a) % Abs(b);
    assert Abs(a) == Abs(b) * m + rm;
    if a >= 0 && b > 0 {
    } else if a >= 0 && b < 0 {
      assert a - b * (-m) == a + b * m;
      assert b * m == -(Abs(b) * m);
    } else if a < 0 && b > 0 {
      assert a - b * (-m) == a + b * m;
      assert -a == b * m + rm;
    } else {
      assert b * m == -(Abs(b) * m);
    }
  }

  function Pow2(k: nat): (r: nat)
    ensures r >= 1
  {
    if k == 0 then 1 else 2 * Pow2(k - 1)
  }
}
