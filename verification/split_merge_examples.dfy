/** The reference images of the segmenter, worked through the model. */
module SplitMergeExamples {
  import opened Pixel
  import opened Grid
  import opened SplitMerge

  lemma Stats1(a: int)
    ensures Sum([a]) == a && SumSq([a]) == a * a
  {
    assert [a][1..] == [];
  }

  lemma Stats2(a: int, b: int)
    ensures Sum([a, b]) == a + b && SumSq([a, b]) == a * a + b * b
  {
    assert [a, b][1..] == [b];
    Stats1(b);
  }

  lemma Stats3(a: int, b: int, c: int)
    ensures Sum([a, b, c]) == a + b + c && SumSq([a, b, c]) == a * a + b * b + c * c
  {
    assert [a, b, c][1..] == [b, c];
    Stats2(b, c);
  }

  lemma Stats4(a: int, b: int, c: int, e: int)
    ensures Sum([a, b, c, e]) == a + b + c + e && SumSq([a, b, c, e]) == a * a + b * b + c * c + e * e
  {
    assert [a, b, c, e][1..] == [b, c, e];
    Stats3(b, c, e);
  }

  /** The samples of a two-by-two view. */
  lemma PixelsSquare(img: Image, r: nat, c: nat)
    requires Within(img, Rect(r, r + 2, c, c + 2))
    ensures Pixels(img, Rect(r, r + 2, c, c + 2)) == [img[r][c], img[r][c + 1], img[r + 1][c], img[r + 1][c + 1]]
  {
    var v0 := Rect(r, r + 2, c, c + 2);
    var v1 := v0.(top := r + 1);
    var v2 := v1.(top := r + 2);
    var row0, row1 := img[r][c..c + 2], img[r + 1][c..c + 2];
    assert row0 == [img[r][c], img[r][c + 1]];
    assert row1 == [img[r + 1][c], img[r + 1][c + 1]];
    PixelsStep(img, v0);
    PixelsStep(img, v1);
    var p2 := Pixels(img, v2);
    assert p2 == [];
    var p1 := Pixels(img, v1);
    assert p1 == row1 + p2;
    var p0 := Pixels(img, v0);
    assert p0 == row0 + p1;
  }

  /** An image homogeneous as a whole becomes the image of its shape whose
      every sample is the written-back mean. */
  lemma HomogeneousFlattensTo(img: Image, t: real, d: Depth, x: int, u: Image)
    requires IsGrid(img) && 0.0 <= t && d.Valid()
    requires Homogeneous(Pixels(img, Whole(img)), t)
    requires SaturateRound(Mean(Pixels(img, Whole(img))), d) == x
    requires SameShape(img, u) && forall i, c | InImage(u, i, c) :: u[i][c] == x
    ensures SplitAndMerge(img, t, d) == u
  {
    HomogeneousImageFlattens(Shared, img, t, d);
    SameSamples(SplitAndMerge(img, t, d), u);
  }

  /** The samples of a two-by-two image in row-major order. */
  lemma PixelsOf2x2(img: Image)
    requires IsGrid(img) && |img| == 2 && Width(img) == 2
    ensures Pixels(img, Whole(img)) == [img[0][0], img[0][1], img[1][0], img[1][1]]
  {
    var v := Whole(img);
    assert v == Rect(0, 2, 0, 2);
    PixelsSquare(img, 0, 0);
  }

  /** The samples of a two-by-two image given sample by sample. */
  lemma WholeOf2x2(img: Image, a: int, b: int, c: int, e: int)
    requires IsGrid(img) && |img| == 2 && Width(img) == 2
    requires img[0][0] == a && img[0][1] == b && img[1][0] == c && img[1][1] == e
    ensures Pixels(img, Whole(img)) == [a, b, c, e]
  {
    PixelsOf2x2(img);
  }

  /** A real bound b on the spread of a view settles it at every threshold
      from b on. */
  lemma HomogeneousFrom(xs: seq<int>, b: real, t: real)
    requires 0.0 <= b <= t && Variance(xs) <= b * b
    ensures Homogeneous(xs, t)
  {
    assert b * b <= b * t <= t * t;
  }

  /** A two-by-two image homogeneous as a whole. */
  lemma Flattens2x2(img: Image, a: int, b: int, c: int, e: int, t: real, d: Depth, x: int, u: Image)
    requires IsGrid(img) && |img| == 2 && Width(img) == 2
    requires img[0][0] == a && img[0][1] == b && img[1][0] == c && img[1][1] == e
    requires 0.0 <= t && d.Valid()
    requires Homogeneous([a, b, c, e], t)
    requires SaturateRound(Mean([a, b, c, e]), d) == x
    requires SameShape(img, u) && forall i, k | InImage(u, i, k) :: u[i][k] == x
    ensures SplitAndMerge(img, t, d) == u
  {
    var px := Pixels(img, Whole(img));
    assert Homogeneous(px, t) && SaturateRound(Mean(px), d) == x by {
      WholeOf2x2(img, a, b, c, e);
    }
    HomogeneousFlattensTo(img, t, d, x, u);
  }

  lemma Mixed2Stats(t: real)
    requires 1.0 <= t
    ensures Mean([5, 7, 6, 6]) == 6.0 && Homogeneous([5, 7, 6, 6], t)
  {
    Stats4(5, 7, 6, 6);
    HomogeneousFrom([5, 7, 6, 6], 1.0, t);
  }

  /** `[[5, 7], [6, 6]]` is one region of value 6 at every threshold from
      1 on, the reference threshold 10 included. */
  lemma Mixed2Flattens(t: real)
    requires 1.0 <= t
    ensures SplitAndMerge([[5, 7], [6, 6]], t, S8) == [[6, 6], [6, 6]]
  {
    Mixed2Stats(t);
    SaturateRoundOfSample(6, S8);
    var u: Image := [[6, 6], [6, 6]];
    Flattens2x2([[5, 7], [6, 6]], 5, 7, 6, 6, t, S8, 6, u);
  }

  /** The 100x100 image of 15s comes back unchanged at threshold 1, so
      its mean is still 15. */
  lemma Constant15Unchanged()
    ensures var img: Image := seq(100, _ => seq(100, _ => 15));
            SplitAndMerge(img, 1.0, U8) == img
  {
    var img: Image := seq(100, _ => seq(100, _ => 15));
    assert IsGrid(img);
    ConstantImageUnchanged(Shared, img, 1.0, U8, 15);
  }

  lemma Simple2Stats(t: real)
    requires 2.0 <= t
    ensures Mean([0, 1, 2, 3]) == 1.5 && Homogeneous([0, 1, 2, 3], t)
  {
    Stats4(0, 1, 2, 3);
    HomogeneousFrom([0, 1, 2, 3], 2.0, t);
  }

  /** `[[0, 1], [2, 3]]` is one region at every threshold from 2 on, the
      reference threshold 10 included; its mean 1.5 is written back as 2,
      the even neighbour. */
  lemma Simple2Flattens(t: real)
    requires 2.0 <= t
    ensures SplitAndMerge([[0, 1], [2, 3]], t, S8) == [[2, 2], [2, 2]]
  {
    Simple2Stats(t);
    assert IsRoundHalfEven(1.5, 2);
    RoundHalfEvenUnique(1.5, 2);
    var u: Image := [[2, 2], [2, 2]];
    Flattens2x2([[0, 1], [2, 3]], 0, 1, 2, 3, t, S8, 2, u);
  }

  /** The samples of a three-by-three image in row-major order. */
  lemma PixelsOf3x3(r0: seq<int>, r1: seq<int>, r2: seq<int>)
    requires |r0| == 3 && |r1| == 3 && |r2| == 3
    ensures Within([r0, r1, r2], Rect(0, 3, 0, 3))
    ensures Pixels([r0, r1, r2], Rect(0, 3, 0, 3)) == r0 + r1 + r2
  {
    var img := [r0, r1, r2];
    var v0 := Rect(0, 3, 0, 3);
    var v1 := v0.(top := 1);
    var v2 := v0.(top := 2);
    var v3 := v0.(top := 3);
    assert r0[0..3] == r0 && r1[0..3] == r1 && r2[0..3] == r2;
    PixelsStep(img, v0);
    PixelsStep(img, v1);
    PixelsStep(img, v2);
    var p3 := Pixels(img, v3);
    assert p3 == [];
    var p2 := Pixels(img, v2);
    assert p2 == r2 + p3 == r2;
    var p1 := Pixels(img, v1);
    assert p1 == r1 + p2;
    var p0 := Pixels(img, v0);
    assert p0 == r0 + p1;
  }

  lemma Ramp3Sums()
    ensures Sum([0, 1, 2, 3, 4, 5, 6, 7, 8]) == 36 && SumSq([0, 1, 2, 3, 4, 5, 6, 7, 8]) == 204
  {
    var xs, lo, hi := [0, 1, 2, 3, 4, 5, 6, 7, 8], [0, 1, 2, 3], [4, 5, 6, 7, 8];
    assert lo + hi == xs;
    SumConcat(lo, hi);
    Stats4(0, 1, 2, 3);
    assert hi == [4, 5, 6, 7] + [8];
    SumConcat([4, 5, 6, 7], [8]);
    Stats4(4, 5, 6, 7);
    Stats1(8);
  }

  lemma Ramp3Stats(t: real)
    requires 3.0 <= t
    ensures Mean([0, 1, 2, 3, 4, 5, 6, 7, 8]) == 4.0 && Homogeneous([0, 1, 2, 3, 4, 5, 6, 7, 8], t)
  {
    var xs := [0, 1, 2, 3, 4, 5, 6, 7, 8];
    Ramp3Sums();
    assert Variance(xs) == 204.0 / 9.0 - 16.0;
    HomogeneousFrom(xs, 3.0, t);
  }

  /** A three-by-three image homogeneous as a whole. */
  lemma Flattens3x3(img: Image, t: real, d: Depth, x: int)
    requires IsGrid(img) && |img| == 3 && Width(img) == 3
    requires 0.0 <= t && d.Valid()
    requires Homogeneous(img[0] + img[1] + img[2], t)
    requires SaturateRound(Mean(img[0] + img[1] + img[2]), d) == x
    ensures SplitAndMerge(img, t, d) == [[x, x, x], [x, x, x], [x, x, x]]
  {
    var u: Image := [[x, x, x], [x, x, x], [x, x, x]];
    assert SameShape(img, u);
    assert forall i, k | InImage(u, i, k) :: u[i][k] == x;
    assert img == [img[0], img[1], img[2]];
    PixelsOf3x3(img[0], img[1], img[2]);
    assert Whole(img) == Rect(0, 3, 0, 3);
    HomogeneousFlattensTo(img, t, d, x, u);
  }

  /** The 3x3 ramp 0 .. 8 is one region of value 4 at every threshold from
      3 on, the reference threshold 10 included. */
  lemma Ramp3Flattens(t: real)
    requires 3.0 <= t
    ensures SplitAndMerge([[0, 1, 2], [3, 4, 5], [6, 7, 8]], t, S8) == [[4, 4, 4], [4, 4, 4], [4, 4, 4]]
  {
    var img: Image := [[0, 1, 2], [3, 4, 5], [6, 7, 8]];
    assert IsGrid(img);
    assert img[0] + img[1] + img[2] == [0, 1, 2, 3, 4, 5, 6, 7, 8];
    Ramp3Stats(t);
    SaturateRoundOfSample(4, S8);
    Flattens3x3(img, t, S8, 4);
  }

  /** The one-sample quadrants of a two-by-two image. */
  lemma QuadrantsOf2x2(img: Image)
    requires IsGrid(img) && |img| == 2 && Width(img) == 2
    ensures var q := Quadrants(Whole(img));
            q[0] == Rect(0, 1, 0, 1) && q[1] == Rect(0, 1, 1, 2) && q[2] == Rect(1, 2, 0, 1) && q[3] == Rect(1, 2, 1, 2)
  {
    var v := Whole(img);
    assert v == Rect(0, 2, 0, 2);
    assert v.Rows() / 2 == 1 && v.Cols() / 2 == 1;
  }

  /** A one-sample view has area one. */
  lemma SampleArea(v: Rect)
    requires v.Valid() && v.Rows() == 1 && v.Cols() == 1
    ensures v.Area() == 1
  {
  }

  /** A two-by-two image has two or more samples, and each of its
      quadrants at most one. */
  lemma QuadrantsAreSamples(img: Image)
    requires IsGrid(img) && |img| == 2 && Width(img) == 2
    ensures Whole(img).Area() >= 2
    ensures forall k | 0 <= k < 4 :: Quadrants(Whole(img))[k].Area() <= 1
  {
    var v := Whole(img);
    var q := Quadrants(v);
    QuadrantsOf2x2(img);
    assert v.Rows() == 2 && v.Cols() == 2;
    assert v.Area() == 4;
    forall k | 0 <= k < 4
      ensures q[k].Area() <= 1
    {
      if k == 0 {
        SampleArea(q[0]);
      } else if k == 1 {
        SampleArea(q[1]);
      } else if k == 2 {
        SampleArea(q[2]);
      } else {
        SampleArea(q[3]);
      }
    }
  }

  /** The group of the four samples of a two-by-two view: their average,
      and, as `merge_nodes` is written, half the last sample. */
  lemma SquareGroupValues(img: Image, v: Rect, a: int, b: int, c: int, e: int, d: Depth)
    requires Within(img, v) && v.Rows() == 2 && v.Cols() == 2 && d.Valid()
    requires img[v.top][v.left] == a && img[v.top][v.left + 1] == b
    requires img[v.top + 1][v.left] == c && img[v.top + 1][v.left + 1] == e
    ensures ViewsIn(img, QuadrantLeaves(v))
    ensures GroupValue(img, QuadrantLeaves(v), Range(0, 4), d) == SaturateRound((a + b + c + e) as real / 4.0, d)
    ensures GroupValueAsWritten(img, QuadrantLeaves(v), Range(0, 4), d) == SaturateRound(2.0 * e as real / 4.0, d)
  {
    var leaves, g := QuadrantLeaves(v), Range(0, 4);
    SquareQuadrantMeans(img, v);
    assert GroupValue(img, leaves, g, d) == SaturateRound((a + b + c + e) as real / 4.0, d);
    SquareGroupValueAsWritten(img, v, e, d);
  }

  /** As `merge_nodes` is written, the group of the four samples of a
      two-by-two view is worth half its last sample. */
  lemma SquareGroupValueAsWritten(img: Image, v: Rect, e: int, d: Depth)
    requires Within(img, v) && v.Rows() == 2 && v.Cols() == 2 && d.Valid()
    requires img[v.top + 1][v.left + 1] == e
    ensures ViewsIn(img, QuadrantLeaves(v))
    ensures GroupValueAsWritten(img, QuadrantLeaves(v), Range(0, 4), d) == SaturateRound(2.0 * e as real / 4.0, d)
  {
    var leaves, g := QuadrantLeaves(v), Range(0, 4);
    var last := leaves[g[|g| - 1]].view;
    assert ViewsIn(img, leaves) && Mean(Pixels(img, last)) == e as real by {
      SquareQuadrantMeans(img, v);
    }
    GroupValueAsWrittenIsDoubledLast(img, leaves, g, d);
    assert 2.0 * Mean(Pixels(img, last)) / |g| as real == 2.0 * e as real / 4.0;
  }

  /** Three samples of 0 and one of 8, such as the image `[[0, 0], [0, 8]]`:
      the four samples average to 2, but `merge_nodes` as written stores 4,
      twice the last member's mean over four. */
  lemma AliasedMergeWitness(img: Image, v: Rect)
    requires Within(img, v) && v.Rows() == 2 && v.Cols() == 2
    requires img[v.top][v.left] == 0 && img[v.top][v.left + 1] == 0
    requires img[v.top + 1][v.left] == 0 && img[v.top + 1][v.left + 1] == 8
    ensures ViewsIn(img, QuadrantLeaves(v))
    ensures GroupValue(img, QuadrantLeaves(v), Range(0, 4), U8) == 2
    ensures GroupValueAsWritten(img, QuadrantLeaves(v), Range(0, 4), U8) == 4
  {
    SquareGroupValues(img, v, 0, 0, 0, 8, U8);
    assert IsRoundHalfEven(2.0, 2) && IsRoundHalfEven(4.0, 4);
    RoundHalfEvenUnique(2.0, 2);
    RoundHalfEvenUnique(4.0, 4);
  }

  /** A non-empty view that holds x throughout has mean x. */
  lemma ConstantViewMean(img: Image, v: Rect, x: int)
    requires Within(img, v) && v.Area() > 0
    requires forall i, j | v.Contains(i, j) :: img[i][j] == x
    ensures Mean(Pixels(img, v)) == x as real
  {
    PixelsConstant(img, v, x);
    ConstantStats(Pixels(img, v), x);
  }

  /** The means of four members, added up as `merge_nodes` intends. */
  lemma SumOfFourMeans(img: Image, leaves: seq<Node>, a: real, b: real, c: real, e: real)
    requires ViewsIn(img, leaves) && |leaves| == 4
    requires Mean(Pixels(img, leaves[0].view)) == a && Mean(Pixels(img, leaves[1].view)) == b
    requires Mean(Pixels(img, leaves[2].view)) == c && Mean(Pixels(img, leaves[3].view)) == e
    ensures SumOfMeans(img, leaves, Range(0, 4)) == a + b + c + e
  {
    var g := Range(0, 4);
    assert g == [0, 1, 2, 3];
    assert SumOfMeans(img, leaves, []) == 0.0;
    assert [3][1..] == [];
    assert SumOfMeans(img, leaves, [3]) == e;
    assert [2, 3][1..] == [3];
    assert SumOfMeans(img, leaves, [2, 3]) == c + e;
    assert [1, 2, 3][1..] == [2, 3];
    assert SumOfMeans(img, leaves, [1, 2, 3]) == b + c + e;
    assert [0, 1, 2, 3][1..] == [1, 2, 3];
    assert SumOfMeans(img, leaves, [0, 1, 2, 3]) == a + b + c + e;
  }

  /** A group of four constant members holding a, b, c and e in turn: as
      intended it is worth their rounded average, as written round(2·e/4),
      whatever a, b and c are. */
  lemma ConstantMembersGroupValues(img: Image, leaves: seq<Node>, a: int, b: int, c: int, e: int, d: Depth)
    requires ViewsIn(img, leaves) && |leaves| == 4 && d.Valid()
    requires forall k | 0 <= k < 4 :: leaves[k].view.Area() > 0
    requires forall i, j | leaves[0].view.Contains(i, j) :: img[i][j] == a
    requires forall i, j | leaves[1].view.Contains(i, j) :: img[i][j] == b
    requires forall i, j | leaves[2].view.Contains(i, j) :: img[i][j] == c
    requires forall i, j | leaves[3].view.Contains(i, j) :: img[i][j] == e
    ensures MergeValue(Shared, img, leaves, Range(0, 4), d) == SaturateRound(2.0 * e as real / 4.0, d)
    ensures MergeValue(Separate, img, leaves, Range(0, 4), d) == SaturateRound((a + b + c + e) as real / 4.0, d)
  {
    ConstantMembersAsWritten(img, leaves, e, d);
    ConstantMembersIntended(img, leaves, a, b, c, e, d);
  }

  /** As written, only the last of four constant members counts. */
  lemma ConstantMembersAsWritten(img: Image, leaves: seq<Node>, e: int, d: Depth)
    requires ViewsIn(img, leaves) && |leaves| == 4 && d.Valid()
    requires leaves[3].view.Area() > 0
    requires forall i, j | leaves[3].view.Contains(i, j) :: img[i][j] == e
    ensures MergeValue(Shared, img, leaves, Range(0, 4), d) == SaturateRound(2.0 * e as real / 4.0, d)
  {
    var g := Range(0, 4);
    ConstantViewMean(img, leaves[3].view, e);
    LastOfFour(img, leaves, g, d);
    assert g[3] == 3;
  }

  /** As intended, four constant members average their values. */
  lemma ConstantMembersIntended(img: Image, leaves: seq<Node>, a: int, b: int, c: int, e: int, d: Depth)
    requires ViewsIn(img, leaves) && |leaves| == 4 && d.Valid()
    requires forall k | 0 <= k < 4 :: leaves[k].view.Area() > 0
    requires forall i, j | leaves[0].view.Contains(i, j) :: img[i][j] == a
    requires forall i, j | leaves[1].view.Contains(i, j) :: img[i][j] == b
    requires forall i, j | leaves[2].view.Contains(i, j) :: img[i][j] == c
    requires forall i, j | leaves[3].view.Contains(i, j) :: img[i][j] == e
    ensures MergeValue(Separate, img, leaves, Range(0, 4), d) == SaturateRound((a + b + c + e) as real / 4.0, d)
  {
    ConstantViewMean(img, leaves[0].view, a);
    ConstantViewMean(img, leaves[1].view, b);
    ConstantViewMean(img, leaves[2].view, c);
    ConstantViewMean(img, leaves[3].view, e);
    FourMeansIntended(img, leaves, a as real, b as real, c as real, e as real, d);
    assert (a + b + c + e) as real == a as real + b as real + c as real + e as real;
  }

  /** As intended, four members of means a, b, c and e are worth the
      rounded average of the four. */
  lemma FourMeansIntended(img: Image, leaves: seq<Node>, a: real, b: real, c: real, e: real, d: Depth)
    requires ViewsIn(img, leaves) && |leaves| == 4 && d.Valid()
    requires Mean(Pixels(img, leaves[0].view)) == a && Mean(Pixels(img, leaves[1].view)) == b
    requires Mean(Pixels(img, leaves[2].view)) == c && Mean(Pixels(img, leaves[3].view)) == e
    ensures MergeValue(Separate, img, leaves, Range(0, 4), d) == SaturateRound((a + b + c + e) / 4.0, d)
  {
    SumOfFourMeans(img, leaves, a, b, c, e);
    AverageOfFour(img, leaves, Range(0, 4), d);
  }

  /** As intended, a group of four is worth a quarter of its summed means. */
  lemma AverageOfFour(img: Image, leaves: seq<Node>, g: seq<nat>, d: Depth)
    requires ViewsIn(img, leaves) && d.Valid() && |g| == 4
    requires forall k | 0 <= k < 4 :: g[k] < |leaves|
    ensures MergeValue(Separate, img, leaves, g, d) == SaturateRound(SumOfMeans(img, leaves, g) / 4.0, d)
  {
    assert |g| as real == 4.0;
  }

  /** The second call of the "compex regions" 3x3 case runs on the first
      call's output `[[0, 0, 0], [0, 25, 25], [0, 25, 25]]`, whose four
      quadrants are constant 0, 0, 0 and 25 and form one group: the code as
      written stores 12 (12.5, a tie, goes to the even 12), the intended
      average 6.25 rounds to 6. */
  lemma Complex3SecondCallGroup(img: Image, v: Rect)
    requires Within(img, v) && v.Rows() == 3 && v.Cols() == 3
    requires forall i, j | Quadrants(v)[0].Contains(i, j) :: img[i][j] == 0
    requires forall i, j | Quadrants(v)[1].Contains(i, j) :: img[i][j] == 0
    requires forall i, j | Quadrants(v)[2].Contains(i, j) :: img[i][j] == 0
    requires forall i, j | Quadrants(v)[3].Contains(i, j) :: img[i][j] == 25
    ensures ViewsIn(img, QuadrantLeaves(v))
    ensures MergeValue(Shared, img, QuadrantLeaves(v), Range(0, 4), S8) == 12
    ensures MergeValue(Separate, img, QuadrantLeaves(v), Range(0, 4), S8) == 6
  {
    var leaves := QuadrantLeaves(v);
    QuadrantGroupValues(img, v, S8);
    assert forall k | 0 <= k < 4 :: leaves[k].view.Area() > 0;
    ConstantMembersGroupValues(img, leaves, 0, 0, 0, 25, S8);
    assert IsRoundHalfEven(12.5, 12) && IsRoundHalfEven(6.25, 6);
    RoundHalfEvenUnique(12.5, 12);
    RoundHalfEvenUnique(6.25, 6);
  }

  /** The second call of the 4x4 case runs on the first call's output, four
      constant blocks holding 42, 2, 95 and 4 in stored quadrant order (top
      left, top right, bottom left, bottom right), which form one group:
      the code as written stores 2 (2·4/4), the intended average 35.75
      rounds to 36. */
  lemma Complex4SecondCallGroup(img: Image, v: Rect)
    requires Within(img, v) && v.Rows() == 4 && v.Cols() == 4
    requires forall i, j | Quadrants(v)[0].Contains(i, j) :: img[i][j] == 42
    requires forall i, j | Quadrants(v)[1].Contains(i, j) :: img[i][j] == 2
    requires forall i, j | Quadrants(v)[2].Contains(i, j) :: img[i][j] == 95
    requires forall i, j | Quadrants(v)[3].Contains(i, j) :: img[i][j] == 4
    ensures ViewsIn(img, QuadrantLeaves(v))
    ensures MergeValue(Shared, img, QuadrantLeaves(v), Range(0, 4), S8) == 2
    ensures MergeValue(Separate, img, QuadrantLeaves(v), Range(0, 4), S8) == 36
  {
    var leaves := QuadrantLeaves(v);
    QuadrantGroupValues(img, v, S8);
    assert forall k | 0 <= k < 4 :: leaves[k].view.Area() > 0;
    ConstantMembersGroupValues(img, leaves, 42, 2, 95, 4, S8);
    assert IsRoundHalfEven(2.0, 2) && IsRoundHalfEven(35.75, 36);
    RoundHalfEvenUnique(2.0, 2);
    RoundHalfEvenUnique(35.75, 36);
  }
}
