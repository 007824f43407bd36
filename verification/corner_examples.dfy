/** The reference images of the detector's unit tests: a uniform 10x10
    image, a 3x3 image too small to scan, and four 7x7 images whose only
    centre sits at the tip of a bright wedge on a grey ground. */
module CornerExamples {
  import opened Grid
  import opened Corner

  /** The "empty image" case: 10x10, every sample 0. */
  const Blank: Image := seq(10, _ => seq(10, _ => 0))

  /** The "solid image" case: 3x3, every sample 127. */
  const Solid: Image := seq(3, _ => seq(3, _ => 127))

  /** The "angle (down)" case. */
  const AngleDown: Image := [
    [127, 127, 127, 127, 127, 127, 127],
    [127, 127, 127, 127, 127, 127, 127],
    [127, 127, 127, 127, 127, 127, 127],
    [127, 127, 127, 255, 127, 127, 127],
    [127, 127, 255, 255, 127, 127, 127],
    [127, 255, 255, 255, 127, 127, 127],
    [255, 255, 255, 255, 127, 127, 127]
  ]

  /** The "angle (down1)" case. */
  const AngleDownWide: Image := [
    [127, 127, 127, 127, 127, 127, 127],
    [127, 127, 127, 127, 127, 127, 127],
    [127, 127, 127, 127, 127, 127, 127],
    [127, 127, 127, 255, 127, 127, 127],
    [127, 127, 255, 255, 255, 127, 127],
    [127, 255, 255, 255, 255, 255, 127],
    [255, 255, 255, 255, 255, 255, 255]
  ]

  /** The "angle (left)" case. */
  const AngleLeft: Image := [
    [127, 127, 127, 127, 127, 127, 127],
    [255, 127, 127, 127, 127, 127, 127],
    [255, 255, 255, 127, 127, 127, 127],
    [255, 255, 255, 255, 127, 127, 127],
    [255, 255, 255, 127, 127, 127, 127],
    [255, 127, 127, 127, 127, 127, 127],
    [127, 127, 127, 127, 127, 127, 127]
  ]

  /** The "angle (up)" case. */
  const AngleUp: Image := [
    [127, 127, 127, 255, 255, 255, 255],
    [127, 127, 127, 255, 255, 255, 127],
    [127, 127, 127, 255, 255, 127, 127],
    [127, 127, 127, 255, 127, 127, 127],
    [127, 127, 127, 127, 127, 127, 127],
    [127, 127, 127, 127, 127, 127, 127],
    [127, 127, 127, 127, 127, 127, 127]
  ]

  lemma BlankHasNoCorners()
    ensures Corners(Blank) == []
  {
    assert IsGrid(Blank);
    ConstantImageNoCorners(Blank, 0);
  }

  lemma SolidHasNoCorners()
    ensures Corners(Solid) == []
  {
    assert IsGrid(Solid);
    SmallImageNoCorners(Solid);
  }

  /** The tip of the wedge in the "angle (down)" image passes both tests:
      three compass pixels and ring pixels 1 to 6 are darker. */
  lemma AngleDownTip()
    ensures IsGrid(AngleDown) && InScan(AngleDown, Point(3, 3)) && IsCorner(AngleDown, Point(3, 3))
  {
    var img, p := AngleDown, Point(3, 3);
    assert IsGrid(img);
    ScanReaches(img, p);
    forall k | 1 <= k < 4
      ensures Darker(At(img, p), At(img, p.Plus(Compass[k])))
    {
    }
    forall i | 1 <= i < 7
      ensures Darker(At(img, p), At(img, p.Plus(Ring[i % 16])))
    {
    }
    CornerWhen(img, p, 0, 1);
  }

  lemma AngleDownCorner()
    ensures Corners(AngleDown) == [KeyPoint(Point(3, 3), KeyPointSize)]
  {
    AngleDownTip();
    SingleCentre(AngleDown);
  }

  /** Ring pixels 3 to 8 are darker than the tip. */
  lemma AngleDownWideTip()
    ensures IsGrid(AngleDownWide) && InScan(AngleDownWide, Point(3, 3)) && IsCorner(AngleDownWide, Point(3, 3))
  {
    var img, p := AngleDownWide, Point(3, 3);
    assert IsGrid(img);
    ScanReaches(img, p);
    forall k | 1 <= k < 4
      ensures Darker(At(img, p), At(img, p.Plus(Compass[k])))
    {
    }
    forall i | 3 <= i < 9
      ensures Darker(At(img, p), At(img, p.Plus(Ring[i % 16])))
    {
    }
    CornerWhen(img, p, 0, 3);
  }

  lemma AngleDownWideCorner()
    ensures Corners(AngleDownWide) == [KeyPoint(Point(3, 3), KeyPointSize)]
  {
    AngleDownWideTip();
    SingleCentre(AngleDownWide);
  }

  /** Every compass pixel but the left one, and ring pixels 0 to 5, are
      darker than the tip. */
  lemma AngleLeftTip()
    ensures IsGrid(AngleLeft) && InScan(AngleLeft, Point(3, 3)) && IsCorner(AngleLeft, Point(3, 3))
  {
    var img, p := AngleLeft, Point(3, 3);
    assert IsGrid(img);
    ScanReaches(img, p);
    forall k | 0 <= k < 3
      ensures Darker(At(img, p), At(img, p.Plus(Compass[k])))
    {
    }
    forall i | 0 <= i < 6
      ensures Darker(At(img, p), At(img, p.Plus(Ring[i % 16])))
    {
    }
    CornerWhen(img, p, 3, 0);
  }

  lemma AngleLeftCorner()
    ensures Corners(AngleLeft) == [KeyPoint(Point(3, 3), KeyPointSize)]
  {
    AngleLeftTip();
    SingleCentre(AngleLeft);
  }

  /** Every compass pixel but the upper one, and ring pixels 0 to 5, are
      darker than the tip. */
  lemma AngleUpTip()
    ensures IsGrid(AngleUp) && InScan(AngleUp, Point(3, 3)) && IsCorner(AngleUp, Point(3, 3))
  {
    var img, p := AngleUp, Point(3, 3);
    assert IsGrid(img);
    ScanReaches(img, p);
    forall k | 0 <= k < 4 && k != 2
      ensures Darker(At(img, p), At(img, p.Plus(Compass[k])))
    {
    }
    forall i | 0 <= i < 6
      ensures Darker(At(img, p), At(img, p.Plus(Ring[i % 16])))
    {
    }
    CornerWhen(img, p, 2, 0);
  }

  lemma AngleUpCorner()
    ensures Corners(AngleUp) == [KeyPoint(Point(3, 3), KeyPointSize)]
  {
    AngleUpTip();
    SingleCentre(AngleUp);
  }
}
