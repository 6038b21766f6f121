/**
 * Integer facts the decision routine relies on: the range of Rust's `i32`
 * and an exact integer square root standing in for `(n as f32).sqrt() as i32`.
 */
module Numerics {

  const I32_MIN: int := -0x8000_0000
  const I32_MAX: int := 0x7fff_ffff

  /** The largest floor square root of any non-negative `i32`. */
  const MAX_SQRT: int := 46340

  predicate IsI32(n: int) {
    I32_MIN <= n <= I32_MAX
  }

  /** `r` is the floor of the square root of `n`. */
  predicate IsFloorSqrt(n: int, r: int) {
    0 <= r && r * r <= n < (r + 1) * (r + 1)
  }

  /**
   * `x.pow(2)`, from the square of `x / 2`, so that unfolding it never puts a
   * product of two unknowns before the solver and the recursion is as deep
   * as `|x|` has binary digits.
   */
  function Pow2(x: int): nat
    decreases if x < 0 then -x + 1 else x
  {
    if x < 0 then Pow2(-x)
    else if x == 0 then 0
    else
      var half := x / 2;
      if x % 2 == 0 then 4 * Pow2(half) else 4 * Pow2(half) + 4 * half + 1
  }

  lemma {:induction false} Pow2IsSquare(x: int)
    ensures Pow2(x) == x * x
    decreases if x < 0 then -x + 1 else x
  {
    if x < 0 {
      Pow2IsSquare(-x);
      assert (-x) * (-x) == x * x;
    } else if x > 0 {
      var half := x / 2;
      Pow2IsSquare(half);
      var sq := half * half;
      if x % 2 == 0 {
        assert Pow2(x) == 4 * sq;
        DoubledSquares(half, x);
      } else {
        assert Pow2(x) == 4 * sq + 4 * half + 1;
        DoubledSquares(half, x - 1);
      }
    }
  }

  /** The squares of `2h` and `2h + 1` in terms of the square of `h`. */
  lemma DoubledSquares(h: int, d: int)
    requires d == 2 * h
    ensures d * d == 4 * (h * h)
    ensures (d + 1) * (d + 1) == 4 * (h * h) + 4 * h + 1
  {
  }

  lemma Pow2OfNegation(x: int)
    ensures Pow2(-x) == Pow2(x)
  {
  }

  lemma SquareMonotone(a: int, b: int)
    requires 0 <= a <= b
    ensures a * a <= b * b
  {
    assert a * a <= a * b <= b * b;
  }

  /** The floor square root of a number is unique. */
  lemma {:induction false} FloorSqrtUnique(n: int, r: int, s: int)
    requires IsFloorSqrt(n, r) && IsFloorSqrt(n, s)
    ensures r == s
  {
    if r < s {
      SquareMonotone(r + 1, s);
    } else if s < r {
      SquareMonotone(s + 1, r);
    }
  }

  /**
   * The floor square root of `n`, counting up from `r`; `sq` carries the
   * square of `r`, so the body adds and compares but never multiplies.
   */
  function IsqrtFrom(n: nat, r: nat, sq: nat): nat
    decreases n - sq
  {
    if sq + 2 * r + 1 <= n then IsqrtFrom(n, r + 1, sq + 2 * r + 1) else r
  }

  /** Exact integer square root. */
  function Isqrt(n: nat): nat {
    IsqrtFrom(n, 0, 0)
  }

  lemma {:induction false} IsqrtFromIsFloorSqrt(n: nat, r: nat, sq: nat)
    requires sq == r * r && sq <= n
    ensures IsFloorSqrt(n, IsqrtFrom(n, r, sq))
    decreases n - sq
  {
    assert (r + 1) * (r + 1) == sq + 2 * r + 1;
    if sq + 2 * r + 1 <= n {
      IsqrtFromIsFloorSqrt(n, r + 1, sq + 2 * r + 1);
    }
  }

  lemma IsqrtIsFloorSqrt(n: nat)
    ensures IsFloorSqrt(n, Isqrt(n))
  {
    IsqrtFromIsFloorSqrt(n, 0, 0);
  }

  /**
   * `(n as f32).sqrt() as i32` on the exact reals: a negative argument gives
   * NaN, which the saturating cast turns into 0; otherwise the cast truncates
   * the root. The rounding of `n as f32` above 2^24 is not modelled.
   */
  function SqrtAsI32(n: int): (r: nat)
    ensures n <= 0 ==> r == 0
    ensures n <= I32_MAX ==> r <= MAX_SQRT
  {
    if n < 0 then 0
    else
      var r := Isqrt(n);
      assert n <= I32_MAX ==> r <= MAX_SQRT by {
        IsqrtIsFloorSqrt(n);
        if r > MAX_SQRT {
          SquareMonotone(MAX_SQRT + 1, r);
        }
      }
      r
  }

  lemma SqrtAsI32IsFloorSqrt(n: int)
    requires n >= 0
    ensures IsFloorSqrt(n, SqrtAsI32(n))
  {
    IsqrtIsFloorSqrt(n);
  }
}
