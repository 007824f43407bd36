/** Sample conversion used whenever a real statistic is written back into an
    image: round half to even (the default `cvRound`), then saturate to the
    range of the image's depth (`saturate_cast`). */
module Pixel {

  /** The closed range of sample values of a single-channel depth. */
  datatype Depth = Depth(lo: int, hi: int) {
    predicate Valid() {
      lo <= hi
    }

    predicate Holds(v: int) {
      lo <= v <= hi
    }
  }

  /** CV_8U */
  const U8: Depth := Depth(0, 255)
  /** CV_8S, the depth of `cv::Mat_<char>` */
  const S8: Depth := Depth(-128, 127)

  /** n is x rounded to the nearest integer, ties going to the even one. */
  predicate IsRoundHalfEven(x: real, n: int) {
    var d := n as real - x;
    && -0.5 <= d <= 0.5
    && ((d == 0.5 || d == -0.5) ==> n % 2 == 0)
  }

  function RoundHalfEven(x: real): (n: int)
    ensures IsRoundHalfEven(x, n)
  {
    var f := x.Floor;
    var frac := x - f as real;
    if frac < 0.5 then f
    else if frac > 0.5 then f + 1
    else if f % 2 == 0 then f
    else f + 1
  }

  /** Rounding half to even has exactly one answer. */
  lemma RoundHalfEvenUnique(x: real, n: int)
    requires IsRoundHalfEven(x, n)
    ensures n == RoundHalfEven(x)
  {
  }

  function Saturate(n: int, d: Depth): (r: int)
    requires d.Valid()
    ensures d.Holds(r)
    ensures d.Holds(n) ==> r == n
    ensures n < d.lo ==> r == d.lo
    ensures n > d.hi ==> r == d.hi
  {
    if n < d.lo then d.lo else if n > d.hi then d.hi else n
  }

  /** The value `setTo` stores for a real statistic x. */
  function SaturateRound(x: real, d: Depth): (r: int)
    requires d.Valid()
    ensures d.Holds(r)
    ensures d.Holds(RoundHalfEven(x)) ==> IsRoundHalfEven(x, r)
  {
    Saturate(RoundHalfEven(x), d)
  }

  /** Writing back a sample value that is already representable is exact. */
  lemma SaturateRoundOfSample(v: int, d: Depth)
    requires d.Valid() && d.Holds(v)
    ensures SaturateRound(v as real, d) == v
  {
    assert IsRoundHalfEven(v as real, v);
    RoundHalfEvenUnique(v as real, v);
  }

  /** The ties that the 4x4 reference image depends on. */
  lemma RoundingTies()
    ensures RoundHalfEven(41.5) == 42
    ensures RoundHalfEven(2.5) == 2
    ensures RoundHalfEven(4.5) == 4
    ensures RoundHalfEven(25.25) == 25
    ensures RoundHalfEven(1.5) == 2
  {
    assert IsRoundHalfEven(41.5, 42);
    RoundHalfEvenUnique(41.5, 42);
    assert IsRoundHalfEven(2.5, 2);
    RoundHalfEvenUnique(2.5, 2);
    assert IsRoundHalfEven(4.5, 4);
    RoundHalfEvenUnique(4.5, 4);
    assert IsRoundHalfEven(25.25, 25);
    RoundHalfEvenUnique(25.25, 25);
    assert IsRoundHalfEven(1.5, 2);
    RoundHalfEvenUnique(1.5, 2);
  }
}
