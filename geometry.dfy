/**
 * Positions on the board and the two distance helpers of the decision
 * routine (`pythagorean_theorem` and `distance`), over exact integers.
 */
module Geometry {
  import opened Numerics

  /** `Position(i32, i32)`: a point of the board. */
  datatype Position = Position(x: int, y: int)

  /**
   * Coordinates this model admits. The board is 16000 by 9000; with every
   * coordinate within this bound no difference, square or sum of squares
   * that the routine computes leaves the range of `i32`.
   */
  const MAX_COORD: int := 16000

  predicate InRange(p: Position) {
    -MAX_COORD <= p.x <= MAX_COORD && -MAX_COORD <= p.y <= MAX_COORD
  }

  /** Two coordinate differences, as the routine subtracts them, both fit. */
  lemma SquaresFit(a: int, b: int)
    requires -2 * MAX_COORD <= a <= 2 * MAX_COORD
    requires -2 * MAX_COORD <= b <= 2 * MAX_COORD
    ensures Pow2(a) + Pow2(b) <= I32_MAX
  {
    var m := 2 * MAX_COORD;
    var absA, absB := if a < 0 then -a else a, if b < 0 then -b else b;
    Pow2IsSquare(absA);
    Pow2IsSquare(absB);
    SquareMonotone(absA, m);
    SquareMonotone(absB, m);
    assert Pow2(a) == Pow2(absA) && Pow2(b) == Pow2(absB);
    assert m * m == 1024000000;
  }

  /**
   * `pythagorean_theorem(a, b)`: the Euclidean norm of `(a, b)` rounded
   * down. The source squares in `i32`, so the sum of squares must fit.
   */
  function PythagoreanTheorem(a: int, b: int): (r: nat)
    requires Pow2(a) + Pow2(b) <= I32_MAX
    ensures r <= MAX_SQRT
  {
    SqrtAsI32(Pow2(a) + Pow2(b))
  }

  /** `PythagoreanTheorem(a, b)` is the floor of the norm of `(a, b)`. */
  lemma PythagoreanIsFloorNorm(a: int, b: int)
    requires Pow2(a) + Pow2(b) <= I32_MAX
    ensures a * a + b * b <= I32_MAX
    ensures IsFloorSqrt(a * a + b * b, PythagoreanTheorem(a, b))
  {
    Pow2IsSquare(a);
    Pow2IsSquare(b);
    SqrtAsI32IsFloorSqrt(a * a + b * b);
  }

  /** The norm of a pair of coordinate differences is the floor root of its squared norm. */
  lemma PythagoreanOfRoot(a: int, b: int, r: int)
    requires -2 * MAX_COORD <= a <= 2 * MAX_COORD && -2 * MAX_COORD <= b <= 2 * MAX_COORD
    requires IsFloorSqrt(a * a + b * b, r)
    ensures Pow2(a) + Pow2(b) <= I32_MAX && PythagoreanTheorem(a, b) == r
  {
    SquaresFit(a, b);
    PythagoreanIsFloorNorm(a, b);
    FloorSqrtUnique(a * a + b * b, PythagoreanTheorem(a, b), r);
  }

  lemma PythagoreanAtOrigin()
    ensures Pow2(0) + Pow2(0) <= I32_MAX && PythagoreanTheorem(0, 0) == 0
  {
  }

  /** The norm ignores signs and the order of its two arguments. */
  lemma {:induction false} PythagoreanSymmetric(a: int, b: int)
    requires Pow2(a) + Pow2(b) <= I32_MAX
    ensures Pow2(-a) + Pow2(b) <= I32_MAX && PythagoreanTheorem(-a, b) == PythagoreanTheorem(a, b)
    ensures Pow2(a) + Pow2(-b) <= I32_MAX && PythagoreanTheorem(a, -b) == PythagoreanTheorem(a, b)
    ensures Pow2(b) + Pow2(a) <= I32_MAX && PythagoreanTheorem(b, a) == PythagoreanTheorem(a, b)
  {
    Pow2OfNegation(a);
    Pow2OfNegation(b);
  }

  /** The subtractions and the sum inside `distance(a, b)` stay in `i32`. */
  predicate Measurable(a: Position, b: Position) {
    IsI32(a.x - b.x) && IsI32(a.y - b.y) && IsI32((a.x - b.x) + (a.y - b.y))
  }

  /**
   * `distance(a, b)`: the floor square root of the SUM of the coordinate
   * differences (not of their squares), and 0 when that sum is negative.
   */
  function Distance(a: Position, b: Position): (r: nat)
    requires Measurable(a, b)
    ensures (a.x - b.x) + (a.y - b.y) <= 0 ==> r == 0
  {
    SqrtAsI32((a.x - b.x) + (a.y - b.y))
  }

  /** Where the sum of differences is not negative, `Distance` is its floor root. */
  lemma DistanceIsFloorSqrt(a: Position, b: Position)
    requires Measurable(a, b) && (a.x - b.x) + (a.y - b.y) >= 0
    ensures IsFloorSqrt((a.x - b.x) + (a.y - b.y), Distance(a, b))
  {
    SqrtAsI32IsFloorSqrt((a.x - b.x) + (a.y - b.y));
  }

  lemma DistanceToSelf(a: Position)
    requires Measurable(a, a)
    ensures Distance(a, a) == 0
  {
  }

  /**
   * `distance` is not symmetric: whenever one direction is positive the
   * other is 0, because the two sums are opposite.
   */
  lemma DistanceOneSided(a: Position, b: Position)
    requires Measurable(a, b) && Measurable(b, a)
    ensures Distance(a, b) > 0 ==> Distance(b, a) == 0
  {
  }
}
