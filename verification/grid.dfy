/** A single-channel image as rows of samples, rectangular views into it
    (the sub-matrices that share the image's storage), the population
    statistics of a view, and the in-place fill of a view. */
module Grid {
  import opened Pixel

  type Image = seq<seq<int>>

  function Width(img: Image): nat {
    if |img| == 0 then 0 else |img[0]|
  }

  /** Every row has the same number of samples. */
  predicate IsGrid(img: Image) {
    forall i | 0 <= i < |img| :: |img[i]| == Width(img)
  }

  predicate SameShape(a: Image, b: Image) {
    && IsGrid(a) && IsGrid(b)
    && |a| == |b| && Width(a) == Width(b)
  }

  predicate InImage(img: Image, i: int, j: int) {
    0 <= i < |img| && 0 <= j < Width(img)
  }

  /** Rows [top, bottom) and columns [left, right) of an image. */
  datatype Rect = Rect(top: nat, bottom: nat, left: nat, right: nat) {
    predicate Valid() {
      top <= bottom && left <= right
    }

    function Rows(): nat
      requires Valid()
    {
      bottom - top
    }

    function Cols(): nat
      requires Valid()
    {
      right - left
    }

    function Area(): nat
      requires Valid()
    {
      Rows() * Cols()
    }

    predicate Contains(i: int, j: int) {
      top <= i < bottom && left <= j < right
    }
  }

  /** v is a view of img. */
  predicate Within(img: Image, v: Rect) {
    IsGrid(img) && v.Valid() && v.bottom <= |img| && v.right <= Width(img)
  }

  /** The view of the whole image. */
  function Whole(img: Image): (v: Rect)
    requires IsGrid(img)
    ensures Within(img, v)
    ensures forall i, j :: v.Contains(i, j) <==> InImage(img, i, j)
  {
    Rect(0, |img|, 0, Width(img))
  }

  ghost predicate Disjoint(a: Rect, b: Rect) {
    forall i, j :: !(a.Contains(i, j) && b.Contains(i, j))
  }

  /** The samples of a view in row-major order. */
  function Pixels(img: Image, v: Rect): (px: seq<int>)
    requires Within(img, v)
    ensures |px| == v.Area()
    decreases v.bottom - v.top
  {
    if v.top == v.bottom then []
    else
      var rest := v.(top := v.top + 1);
      assert v.Area() == v.Cols() + rest.Area() by {
        assert v.Rows() == rest.Rows() + 1;
      }
      img[v.top][v.left..v.right] + Pixels(img, rest)
  }

  /** The samples of a view are those of the image inside it. */
  lemma PixelsAreViewSamples(img: Image, v: Rect, x: int)
    requires Within(img, v)
    ensures x in Pixels(img, v) <==> exists i, j :: v.Contains(i, j) && img[i][j] == x
    decreases v.bottom - v.top
  {
    if v.top < v.bottom {
      var rest := v.(top := v.top + 1);
      PixelsAreViewSamples(img, rest, x);
      var row := img[v.top][v.left..v.right];
      if x in row {
        var k :| 0 <= k < |row| && row[k] == x;
        assert v.Contains(v.top, v.left + k) && img[v.top][v.left + k] == x;
      }
      if exists i, j :: v.Contains(i, j) && img[i][j] == x {
        var i, j :| v.Contains(i, j) && img[i][j] == x;
        if i == v.top {
          assert row[j - v.left] == x;
        } else {
          assert rest.Contains(i, j);
        }
      }
    }
  }

  /** The first row of a view followed by the rest of it. */
  lemma PixelsStep(img: Image, v: Rect)
    requires Within(img, v) && v.top < v.bottom
    ensures Pixels(img, v) == img[v.top][v.left..v.right] + Pixels(img, v.(top := v.top + 1))
  {
  }

  /** A view reads only the samples inside it. */
  lemma PixelsAgree(a: Image, b: Image, v: Rect)
    requires Within(a, v) && Within(b, v)
    requires forall i, j :: v.Contains(i, j) ==> a[i][j] == b[i][j]
    ensures Pixels(a, v) == Pixels(b, v)
    decreases v.bottom - v.top
  {
    if v.top < v.bottom {
      var rest := v.(top := v.top + 1);
      PixelsAgree(a, b, rest);
      assert a[v.top][v.left..v.right] == b[v.top][v.left..v.right] by {
        forall k | v.left <= k < v.right
          ensures a[v.top][k] == b[v.top][k]
        {
          assert v.Contains(v.top, k);
        }
      }
    }
  }

  /** A view all of whose samples are x reads as a run of x. */
  lemma PixelsConstant(img: Image, v: Rect, x: int)
    requires Within(img, v)
    requires forall i, j :: v.Contains(i, j) ==> img[i][j] == x
    ensures forall k | 0 <= k < |Pixels(img, v)| :: Pixels(img, v)[k] == x
  {
    forall k | 0 <= k < |Pixels(img, v)|
      ensures Pixels(img, v)[k] == x
    {
      var y := Pixels(img, v)[k];
      PixelsAreViewSamples(img, v, y);
    }
  }

  /** A one-sample view. */
  lemma PixelsSingle(img: Image, v: Rect)
    requires Within(img, v) && v.Area() == 1
    ensures Pixels(img, v) == [img[v.top][v.left]]
  {
    assert v.Rows() == 1 && v.Cols() == 1;
    var rest := v.(top := v.top + 1);
    assert Pixels(img, rest) == [];
  }

  /** A view of one row and one column has a single sample. */
  lemma OneSampleView(img: Image, v: Rect)
    requires Within(img, v) && v.Rows() == 1 && v.Cols() == 1
    ensures v.Area() == 1 && Pixels(img, v) == [img[v.top][v.left]]
  {
    PixelsSingle(img, v);
  }

  function Sum(xs: seq<int>): int {
    if |xs| == 0 then 0 else xs[0] + Sum(xs[1..])
  }

  function SumSq(xs: seq<int>): int {
    if |xs| == 0 then 0 else xs[0] * xs[0] + SumSq(xs[1..])
  }

  /** Population mean; an empty view reads as 0. */
  function Mean(xs: seq<int>): real {
    if |xs| == 0 then 0.0 else Sum(xs) as real / |xs| as real
  }

  /** Population variance E[x^2] - E[x]^2; an empty view reads as 0. */
  function Variance(xs: seq<int>): real {
    if |xs| == 0 then 0.0
    else SumSq(xs) as real / |xs| as real - Mean(xs) * Mean(xs)
  }

  /** The standard deviation sqrt(max(variance, 0)) is at most t. Since a
      standard deviation is never negative, no view qualifies when t < 0. */
  predicate Homogeneous(xs: seq<int>, t: real) {
    0.0 <= t && Variance(xs) <= t * t
  }

  lemma SumConstant(xs: seq<int>, x: int)
    requires forall k | 0 <= k < |xs| :: xs[k] == x
    ensures Sum(xs) == |xs| * x
    ensures SumSq(xs) == |xs| * (x * x)
  {
    if |xs| > 0 {
      SumConstant(xs[1..], x);
    }
  }

  lemma {:induction false} SumConcat(xs: seq<int>, ys: seq<int>)
    ensures Sum(xs + ys) == Sum(xs) + Sum(ys)
    ensures SumSq(xs + ys) == SumSq(xs) + SumSq(ys)
  {
    if |xs| > 0 {
      SumConcat(xs[1..], ys);
      assert (xs + ys)[1..] == xs[1..] + ys;
    } else {
      assert xs + ys == ys;
    }
  }

  /** A constant run has that constant as its mean and no spread. */
  lemma ConstantStats(xs: seq<int>, x: int)
    requires |xs| > 0
    requires forall k | 0 <= k < |xs| :: xs[k] == x
    ensures Mean(xs) == x as real
    ensures Variance(xs) == 0.0
  {
    SumConstant(xs, x);
    var n := |xs| as real;
    assert Sum(xs) as real == n * x as real;
    assert SumSq(xs) as real == n * (x as real * x as real);
  }

  /** A one-sample view has that sample as its mean. */
  lemma SampleMean(img: Image, v: Rect)
    requires Within(img, v) && v.Rows() == 1 && v.Cols() == 1
    ensures Mean(Pixels(img, v)) == img[v.top][v.left] as real
  {
    OneSampleView(img, v);
    ConstantStats(Pixels(img, v), img[v.top][v.left]);
  }

  /** Any view of at most one sample has zero variance. */
  lemma SmallViewStats(img: Image, v: Rect)
    requires Within(img, v) && v.Area() <= 1
    ensures Variance(Pixels(img, v)) == 0.0
  {
    if v.Area() == 1 {
      PixelsSingle(img, v);
      ConstantStats(Pixels(img, v), img[v.top][v.left]);
    }
  }

  /** Two images of one shape that agree on every sample are equal. */
  lemma SameSamples(r: Image, s: Image)
    requires SameShape(r, s)
    requires forall i, c | InImage(r, i, c) :: r[i][c] == s[i][c]
    ensures r == s
  {
    forall i | 0 <= i < |r|
      ensures r[i] == s[i]
    {
      assert forall c | 0 <= c < |r[i]| :: InImage(r, i, c);
    }
  }

  /** b differs from a only inside view v. */
  ghost predicate UnchangedOutside(a: Image, b: Image, v: Rect) {
    && SameShape(a, b)
    && forall i, j | InImage(a, i, j) && !v.Contains(i, j) :: b[i][j] == a[i][j]
  }

  /** Every sample of view v is representable in depth d. */
  ghost predicate InRangeOn(img: Image, v: Rect, d: Depth) {
    && IsGrid(img)
    && forall i, j | InImage(img, i, j) && v.Contains(i, j) :: d.Holds(img[i][j])
  }

  /** img with every sample of view v set to x (`Mat::setTo` on a view). */
  function Fill(img: Image, v: Rect, x: int): (r: Image)
    requires Within(img, v)
    ensures SameShape(img, r)
    ensures forall i, j | InImage(img, i, j) ::
              r[i][j] == (if v.Contains(i, j) then x else img[i][j])
  {
    seq(|img|, i requires 0 <= i < |img| =>
      if v.top <= i < v.bottom then FillRow(img[i], v.left, v.right, x) else img[i])
  }

  /** row with the samples in [left, right) set to x. */
  function FillRow(row: seq<int>, left: int, right: int, x: int): (r: seq<int>)
    ensures |r| == |row|
    ensures forall j | 0 <= j < |row| :: r[j] == if left <= j < right then x else row[j]
  {
    seq(|row|, j requires 0 <= j < |row| => if left <= j < right then x else row[j])
  }
}
