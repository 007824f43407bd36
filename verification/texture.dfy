/** The Gabor kernel size of `select_texture`: half the shorter side of the
    region of interest, moved up to the nearest odd integer by
    `nearest_odd_integer`, which works on a `double` and answers an `int`
    (32 bits). A `double` is modelled as the exact real it denotes. */
module Texture {

  /** `std::numeric_limits<int>::max()` */
  const IntMax: int := 0x7fff_ffff
  /** `std::numeric_limits<int>::min()` */
  const IntMin: int := -0x8000_0000

  predicate IsInt32(n: int) {
    IntMin <= n <= IntMax
  }

  predicate IsOdd(n: int) {
    n % 2 == 1
  }

  /** The conversion `int ival = v` for a v that fits: toward zero. */
  function Truncate(v: real): (n: int)
    ensures 0.0 <= v ==> n as real <= v < n as real + 1.0
    ensures v <= 0.0 ==> n as real - 1.0 < v <= n as real
  {
    if v >= 0.0 then v.Floor else -((-v).Floor)
  }

  /** C++ `/` on `int`: the quotient rounded toward zero. */
  function Quotient(a: int, b: int): (q: int)
    requires b > 0
    ensures 0 <= a ==> q * b <= a < q * b + b
    ensures a <= 0 ==> q * b - b < a <= q * b
  {
    if a >= 0 then a / b else -((-a) / b)
  }

  /** `nearest_odd_integer`: clamp to the range of `int`,
      with the lowest value moved up to the negation of the highest; then,
      by magnitude, truncate and step an even value up to the next odd one,
      and restore the sign. */
  function NearestOddInteger(v: real): (r: int)
    ensures IsOdd(r)
    ensures IntMin < r <= IntMax
    ensures v >= IntMax as real ==> r == IntMax
    ensures v <= IntMin as real ==> r == IntMin + 1
  {
    if v >= IntMax as real then IntMax
    else if v <= IntMin as real then IntMin + 1
    else
      var negative := v < 0.0;
      var magnitude := if negative then -v else v;
      var odd := OddAtLeast(Truncate(magnitude));
      if negative then NegatedOdd(odd) else odd
  }

  /** The least odd integer not below n. */
  function OddAtLeast(n: int): (m: int)
    ensures IsOdd(m) && n <= m <= n + 1
    ensures IsOdd(n) ==> m == n
  {
    if n % 2 == 0 then n + 1 else n
  }

  /** The negation of an odd integer is odd. */
  function NegatedOdd(n: int): (m: int)
    requires IsOdd(n)
    ensures IsOdd(m) && m == -n
  {
    -n
  }

  /** For a non-negative v below the clamp, the answer is the odd r whose
      window [r - 1, r + 1) holds v: the truncation if that is odd, and
      one more if not. */
  lemma NearestOddWindow(v: real)
    requires 0.0 <= v < IntMax as real
    ensures var r := NearestOddInteger(v);
            && (r - 1) as real <= v < (r + 1) as real
            && (r == Truncate(v) || r == Truncate(v) + 1)
  {
  }

  /** The windows [r - 1, r + 1) of the odd integers r do not overlap, so
      the window property fixes the answer. */
  lemma NearestOddUnique(v: real, n: int)
    requires 0.0 <= v < IntMax as real
    requires IsOdd(n) && (n - 1) as real <= v < (n + 1) as real
    ensures n == NearestOddInteger(v)
  {
    var r := NearestOddInteger(v);
    NearestOddWindow(v);
    assert n - 2 < r < n + 2;
  }

  /** A negative input is handled by its magnitude: the answer to -v is
      the negation of the answer to v, for every v but 0. The clamps agree
      with this, since IntMin + 1 == -IntMax. */
  lemma NearestOddSymmetric(v: real)
    requires v != 0.0
    ensures NearestOddInteger(-v) == -NearestOddInteger(v)
  {
  }

  /** `kernel_size` for a region of interest of the given
      sides. */
  function KernelSize(height: int, width: int): (k: int)
    requires IsInt32(height) && IsInt32(width)
    ensures IsOdd(k)
  {
    var shorter := if height < width then height else width;
    NearestOddInteger(Quotient(shorter, 2) as real)
  }

  /** For non-negative sides the kernel size is the least odd integer not
      below half the shorter side (rounded down); in particular it is at
      least 1. */
  lemma KernelSizeOfSides(height: int, width: int)
    requires IsInt32(height) && IsInt32(width)
    requires 0 <= height && 0 <= width
    ensures var half := (if height < width then height else width) / 2;
            var k := KernelSize(height, width);
            && 1 <= k
            && half <= k
            && (forall n | half <= n && IsOdd(n) :: k <= n)
  {
    var half := (if height < width then height else width) / 2;
    var k := KernelSize(height, width);
    NearestOddWindow(half as real);
    forall n | half <= n && IsOdd(n)
      ensures k <= n
    {
    }
  }
}
