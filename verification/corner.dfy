/** The FAST-style corner test of `corner_detector_fast::detect` on a
    single-channel image: a compass test over four pixels at distance 3,
    then a ring test over the sixteen pixels of a Bresenham circle of
    radius 3, and the row-major scan of every centre whose ring lies in the
    image. */
module Corner {
  import opened Grid

  /** `cv::Point`: x is the column, y the row. */
  datatype Point = Point(x: int, y: int) {
    function Plus(o: Point): Point {
      Point(x + o.x, y + o.y)
    }
  }

  /** `cv::KeyPoint` as `detect` builds it: a centre and a size. */
  datatype KeyPoint = KeyPoint(pt: Point, size: int)

  /** The brightness margin of both tests. */
  const Threshold: int := 5

  /** The size `detect` gives every key point. */
  const KeyPointSize: int := 3

  /** `offsets1`: below, right, above, left. */
  const Compass: seq<Point> := [Point(0, 3), Point(3, 0), Point(0, -3), Point(-3, 0)]

  /** `offsets2`: the ring, clockwise from below. */
  const Ring: seq<Point> := [
    Point(0, 3), Point(1, 3), Point(2, 2), Point(3, 1),
    Point(3, 0), Point(3, -1), Point(2, -2), Point(1, -3),
    Point(0, -3), Point(-1, -3), Point(-2, -2), Point(-3, -1),
    Point(-3, 0), Point(-3, 1), Point(-2, 2), Point(-1, 3)
  ]

  predicate Inside(img: Image, p: Point) {
    0 <= p.y < |img| && 0 <= p.x < |img[p.y]|
  }

  /** `get_value`. */
  function At(img: Image, p: Point): int
    requires Inside(img, p)
  {
    img[p.y][p.x]
  }

  /** The centre and every pixel at one of the offsets from it lie in the
      image. */
  predicate Reaches(img: Image, p: Point, offsets: seq<Point>) {
    Inside(img, p) && forall o | o in offsets :: Inside(img, p.Plus(o))
  }

  /** `check1`: q is darker than the centre by more than the threshold. */
  predicate Darker(centre: int, q: int) {
    q < centre - Threshold
  }

  /** `check2`: q is brighter than the centre by more than the threshold. */
  predicate Brighter(centre: int, q: int) {
    q > centre + Threshold
  }

  /** No pixel is both darker and brighter than the centre. */
  lemma NeverBoth(centre: int, q: int)
    ensures !(Darker(centre, q) && Brighter(centre, q))
  {
  }

  /** `answers_check1`: which offset pixels are darker than the centre. */
  function DarkerFlags(img: Image, p: Point, offsets: seq<Point>): (c: seq<bool>)
    requires Reaches(img, p, offsets)
    ensures |c| == |offsets|
    ensures forall k | 0 <= k < |offsets| :: c[k] == Darker(At(img, p), At(img, p.Plus(offsets[k])))
  {
    seq(|offsets|, k requires 0 <= k < |offsets| => Darker(At(img, p), At(img, p.Plus(offsets[k]))))
  }

  /** `answers_check2`: which offset pixels are brighter than the centre. */
  function BrighterFlags(img: Image, p: Point, offsets: seq<Point>): (c: seq<bool>)
    requires Reaches(img, p, offsets)
    ensures |c| == |offsets|
    ensures forall k | 0 <= k < |offsets| :: c[k] == Brighter(At(img, p), At(img, p.Plus(offsets[k])))
  {
    seq(|offsets|, k requires 0 <= k < |offsets| => Brighter(At(img, p), At(img, p.Plus(offsets[k]))))
  }

  /** No offset pixel is flagged both ways. */
  ghost predicate Exclusive(c1: seq<bool>, c2: seq<bool>)
    requires |c1| == |c2|
  {
    forall k | 0 <= k < |c1| :: !(c1[k] && c2[k])
  }

  lemma FlagsExclusive(img: Image, p: Point, offsets: seq<Point>)
    requires Reaches(img, p, offsets)
    ensures Exclusive(DarkerFlags(img, p, offsets), BrighterFlags(img, p, offsets))
  {
  }

  // ------------------------------------------------------------ compass test

  /** The compass count from offset i on: how many pixels differ from the
      centre by more than the threshold, either way. */
  function DifferingCount(c1: seq<bool>, c2: seq<bool>, i: nat): (count: nat)
    requires |c1| == |c2| && i <= |c1|
    ensures count <= |c1| - i
    decreases |c1| - i
  {
    if i == |c1| then 0
    else (if c1[i] || c2[i] then 1 else 0) + DifferingCount(c1, c2, i + 1)
  }

  /** The count is 0 exactly when no pixel differs, and reaches its maximum
      exactly when every pixel differs. */
  lemma {:induction false} DifferingCountExtremes(c1: seq<bool>, c2: seq<bool>, i: nat)
    requires |c1| == |c2| && i <= |c1|
    ensures DifferingCount(c1, c2, i) == 0 <==> forall k | i <= k < |c1| :: !c1[k] && !c2[k]
    ensures DifferingCount(c1, c2, i) == |c1| - i <==> forall k | i <= k < |c1| :: c1[k] || c2[k]
    decreases |c1| - i
  {
    if i < |c1| {
      DifferingCountExtremes(c1, c2, i + 1);
    }
  }

  // --------------------------------------------------------------- ring test

  /** `answer1 || answer2` at each position i of the ring loop of
      `get_count_of_key_points`:
      the ring pixel i mod n and its predecessor are both darker, or both
      brighter. Position 0 is never examined. */
  function Pairs(c1: seq<bool>, c2: seq<bool>): (ps: seq<bool>)
    requires |c1| == |c2|
    ensures |ps| == 2 * |c1|
    ensures |c1| > 0 ==> !ps[0]
    ensures forall i | 1 <= i < |ps| ::
              ps[i] == ((c1[i % |c1|] && c1[(i - 1) % |c1|]) || (c2[i % |c1|] && c2[(i - 1) % |c1|]))
  {
    var n := |c1|;
    seq(2 * n, i requires 0 <= i < 2 * n =>
      i >= 1 && ((c1[i % n] && c1[(i - 1) % n]) || (c2[i % n] && c2[(i - 1) % n])))
  }

  /** The len positions from lo on all hold a pair. */
  ghost predicate Run(ps: seq<bool>, lo: nat, len: nat) {
    lo + len <= |ps| && forall i | lo <= i < lo + len :: ps[i]
  }

  /** best is the length of the longest stretch of consecutive pair
      positions in [1, end). */
  ghost predicate LongestRunUpTo(ps: seq<bool>, end: nat, best: nat) {
    && (forall lo: nat, len: nat | 1 <= lo && lo + len <= end && Run(ps, lo, len) :: len <= best)
    && (exists lo :: 1 <= lo && lo + best <= end && Run(ps, lo, best))
  }

  /** cur is the length of the stretch of pair positions that ends just
      before position i, taken as long as it goes. */
  ghost predicate RunEndsAt(ps: seq<bool>, i: nat, cur: nat) {
    && cur < i <= |ps|
    && Run(ps, i - cur, cur)
    && (i - cur - 1 >= 1 ==> !ps[i - cur - 1])
  }

  /** The ring loop of `get_count_of_key_points` from position i on, with the current run cur
      and the longest run best seen so far. */
  function RunLoop(ps: seq<bool>, i: nat, cur: nat, best: nat): nat
    requires 1 <= i
    decreases |ps| - i
  {
    if i >= |ps| then best
    else
      var cur' := if ps[i] then cur + 1 else 0;
      RunLoop(ps, i + 1, cur', if cur' > best then cur' else best)
  }

  /** The count `get_count_of_key_points` returns for any ring but the
      four compass offsets: the longest run of pair positions. */
  function LongestRun(c1: seq<bool>, c2: seq<bool>): nat
    requires |c1| == |c2|
  {
    RunLoop(Pairs(c1, c2), 1, 0, 0)
  }

  /** A stretch of pairs that ends at i is no longer than the stretch cur
      that ends there. */
  lemma RunEndsBound(ps: seq<bool>, i: nat, cur: nat, lo: nat)
    requires RunEndsAt(ps, i, cur)
    requires 1 <= lo <= i && Run(ps, lo, i - lo)
    ensures i - lo <= cur
  {
  }

  /** One step of the loop keeps cur and best what they claim to be. */
  lemma RunStep(ps: seq<bool>, i: nat, cur: nat, best: nat)
    requires 1 <= i < |ps|
    requires RunEndsAt(ps, i, cur) && LongestRunUpTo(ps, i, best)
    ensures var cur' := if ps[i] then cur + 1 else 0;
            && RunEndsAt(ps, i + 1, cur')
            && LongestRunUpTo(ps, i + 1, if cur' > best then cur' else best)
  {
    var cur' := if ps[i] then cur + 1 else 0;
    var best' := if cur' > best then cur' else best;
    forall lo: nat, len: nat | 1 <= lo && lo + len <= i + 1 && Run(ps, lo, len)
      ensures len <= best'
    {
      if lo + len == i + 1 && len > 0 {
        assert ps[i] && Run(ps, lo, i - lo);
        RunEndsBound(ps, i, cur, lo);
      }
    }
    if cur' > best {
      assert Run(ps, i + 1 - cur', cur');
    } else {
      var lo :| 1 <= lo && lo + best <= i && Run(ps, lo, best);
      assert lo + best' <= i + 1;
    }
  }

  lemma {:induction false} RunLoopLongest(ps: seq<bool>, i: nat, cur: nat, best: nat)
    requires 1 <= i <= |ps|
    requires RunEndsAt(ps, i, cur) && LongestRunUpTo(ps, i, best)
    ensures LongestRunUpTo(ps, |ps|, RunLoop(ps, i, cur, best))
    decreases |ps| - i
  {
    if i < |ps| {
      RunStep(ps, i, cur, best);
      var cur' := if ps[i] then cur + 1 else 0;
      RunLoopLongest(ps, i + 1, cur', if cur' > best then cur' else best);
    }
  }

  /** The loop from position 1 finds the longest stretch of pair positions
      in [1, |ps|): at most |ps| - 1 long, and empty when there is no pair. */
  lemma RunLoopFromStart(ps: seq<bool>)
    requires |ps| > 0
    ensures LongestRunUpTo(ps, |ps|, RunLoop(ps, 1, 0, 0))
    ensures RunLoop(ps, 1, 0, 0) <= |ps| - 1
    ensures (forall i | 0 <= i < |ps| :: !ps[i]) ==> RunLoop(ps, 1, 0, 0) == 0
  {
    assert Run(ps, 1, 0);
    RunLoopLongest(ps, 1, 0, 0);
    var best := RunLoop(ps, 1, 0, 0);
    var lo :| 1 <= lo && lo + best <= |ps| && Run(ps, lo, best);
    if best > 0 {
      assert ps[lo];
    }
  }

  /** The ring count is the length of the longest stretch of consecutive
      positions in 1 .. 2n-1 at each of which the ring pixel and its
      predecessor are both darker or both brighter than the centre; it is
      at most 2n - 1, and 0 when no ring pixel is flagged. */
  lemma LongestRunIsLongest(c1: seq<bool>, c2: seq<bool>)
    requires |c1| == |c2|
    ensures |c1| > 0 ==> LongestRunUpTo(Pairs(c1, c2), 2 * |c1|, LongestRun(c1, c2))
    ensures LongestRun(c1, c2) <= if |c1| == 0 then 0 else 2 * |c1| - 1
    ensures (forall k | 0 <= k < |c1| :: !c1[k] && !c2[k]) ==> LongestRun(c1, c2) == 0
  {
    var ps := Pairs(c1, c2);
    if |c1| > 0 {
      RunLoopFromStart(ps);
    } else {
      assert RunLoop(ps, 1, 0, 0) == 0;
    }
  }

  /** A stretch of pairs never mixes the two kinds: either every ring pixel
      it covers is darker than the centre, or every one is brighter. */
  lemma {:induction false} RunIsOneKind(c1: seq<bool>, c2: seq<bool>, lo: nat, hi: nat)
    requires |c1| == |c2| && |c1| > 0 && Exclusive(c1, c2)
    requires 1 <= lo < hi <= 2 * |c1| && Run(Pairs(c1, c2), lo, hi - lo)
    ensures || (forall i | lo - 1 <= i < hi :: c1[i % |c1|])
            || (forall i | lo - 1 <= i < hi :: c2[i % |c1|])
    decreases hi - lo
  {
    var n, ps := |c1|, Pairs(c1, c2);
    assert ps[hi - 1];
    if hi - 1 > lo {
      assert Run(ps, lo, hi - 1 - lo);
      RunIsOneKind(c1, c2, lo, hi - 1);
      if forall i | lo - 1 <= i < hi - 1 :: c1[i % n] {
        assert c1[(hi - 2) % n];
        assert !c2[(hi - 2) % n];
      } else {
        assert c2[(hi - 2) % n];
        assert !c1[(hi - 2) % n];
      }
    }
  }

  /** Conversely, ring pixels lo-1 .. hi-1 all darker, or all brighter,
      make a stretch of pairs from lo to hi, so the ring count is at least
      hi - lo. */
  lemma OneKindIsRun(c1: seq<bool>, c2: seq<bool>, lo: nat, hi: nat)
    requires |c1| == |c2| && |c1| > 0
    requires 1 <= lo <= hi <= 2 * |c1|
    requires || (forall i | lo - 1 <= i < hi :: c1[i % |c1|])
             || (forall i | lo - 1 <= i < hi :: c2[i % |c1|])
    ensures Run(Pairs(c1, c2), lo, hi - lo)
    ensures LongestRun(c1, c2) >= hi - lo
  {
    var ps := Pairs(c1, c2);
    forall i | lo <= i < hi
      ensures ps[i]
    {
      assert lo - 1 <= i - 1 < hi;
    }
    LongestRunIsLongest(c1, c2);
  }

  // ---------------------------------------------------------- the two tests

  /** `get_count_of_key_points`: with four offsets, how many of those
      pixels differ from the centre by more than the threshold; with any
      other number, the longest run of ring pairs of one kind. */
  function CountOfKeyPoints(img: Image, p: Point, offsets: seq<Point>): (count: int)
    requires Reaches(img, p, offsets)
    ensures |offsets| == 4 ==> 0 <= count <= 4
    ensures |offsets| != 4 ==> 0 <= count && (|offsets| == 0 ==> count == 0)
  {
    var c1, c2 := DarkerFlags(img, p, offsets), BrighterFlags(img, p, offsets);
    if |offsets| == 4 then DifferingCount(c1, c2, 0)
    else
      LongestRunIsLongest(c1, c2);
      LongestRun(c1, c2)
  }

  /** The four-offset count counts the pixels that differ: none exactly
      when it is 0, all exactly when it is 4. */
  lemma CompassCount(img: Image, p: Point)
    requires Reaches(img, p, Compass)
    ensures var count := CountOfKeyPoints(img, p, Compass);
            && (count == 0 <==> forall o | o in Compass :: !Darker(At(img, p), At(img, p.Plus(o))) && !Brighter(At(img, p), At(img, p.Plus(o))))
            && (count == 4 <==> forall o | o in Compass :: Darker(At(img, p), At(img, p.Plus(o))) || Brighter(At(img, p), At(img, p.Plus(o))))
  {
    var c1, c2 := DarkerFlags(img, p, Compass), BrighterFlags(img, p, Compass);
    DifferingCountExtremes(c1, c2, 0);
    forall o | o in Compass
      ensures exists k :: 0 <= k < 4 && Compass[k] == o
    {
    }
  }

  /** The ring count is the longest stretch of pairs, at most 31, and never
      counts a pair that mixes a darker pixel with a brighter one. */
  lemma RingCount(img: Image, p: Point)
    requires Reaches(img, p, Ring)
    ensures var c1, c2 := DarkerFlags(img, p, Ring), BrighterFlags(img, p, Ring);
            && CountOfKeyPoints(img, p, Ring) == LongestRun(c1, c2)
            && LongestRunUpTo(Pairs(c1, c2), 32, LongestRun(c1, c2))
            && LongestRun(c1, c2) <= 31
            && Exclusive(c1, c2)
  {
    var c1, c2 := DarkerFlags(img, p, Ring), BrighterFlags(img, p, Ring);
    LongestRunIsLongest(c1, c2);
  }

  /** With no ring pixel further than the threshold from the centre, the
      ring count is 0. */
  lemma QuietRing(img: Image, p: Point)
    requires Reaches(img, p, Ring)
    requires forall o | o in Ring :: !Darker(At(img, p), At(img, p.Plus(o))) && !Brighter(At(img, p), At(img, p.Plus(o)))
    ensures CountOfKeyPoints(img, p, Ring) == 0
  {
    var c1, c2 := DarkerFlags(img, p, Ring), BrighterFlags(img, p, Ring);
    forall k | 0 <= k < |Ring|
      ensures !c1[k] && !c2[k]
    {
      assert Ring[k] in Ring;
    }
    LongestRunIsLongest(c1, c2);
  }

  // -------------------------------------------------------------- the scan

  /** The centres `detect` examines: three pixels clear of every border. */
  predicate InScan(img: Image, p: Point) {
    3 <= p.y < |img| - 3 && 3 <= p.x < Width(img) - 3
  }

  /** Every compass and ring pixel of a scanned centre is in the image. */
  lemma ScanReaches(img: Image, p: Point)
    requires IsGrid(img) && InScan(img, p)
    ensures Reaches(img, p, Compass) && Reaches(img, p, Ring)
  {
  }

  /** The accept rule of `corner_detector_fast::detect`: at least three
      of the four compass pixels, then at least five on the ring. */
  predicate IsCorner(img: Image, p: Point)
    requires IsGrid(img) && InScan(img, p)
  {
    ScanReaches(img, p);
    CountOfKeyPoints(img, p, Compass) >= 3 && CountOfKeyPoints(img, p, Ring) >= 5
  }

  /** The test `detect` applies to a centre of its scan. */
  function CornerTest(img: Image): Point -> bool
    requires IsGrid(img)
  {
    p => InScan(img, p) && IsCorner(img, p)
  }

  /** Row-major order of centres. */
  predicate Before(a: Point, b: Point) {
    a.y < b.y || (a.y == b.y && a.x < b.x)
  }

  /** The key points of ks are centres of the scan that pass the test, of
      size 3, in strictly increasing row-major order. */
  ghost predicate AcceptedInOrder(img: Image, accept: Point -> bool, ks: seq<KeyPoint>) {
    && (forall k | 0 <= k < |ks| :: ks[k].size == KeyPointSize && InScan(img, ks[k].pt) && accept(ks[k].pt))
    && (forall k1, k2 | 0 <= k1 < k2 < |ks| :: Before(ks[k1].pt, ks[k2].pt))
  }

  /** Two runs of accepted key points, the first wholly before the second,
      make one. */
  lemma AcceptedConcat(img: Image, accept: Point -> bool, a: seq<KeyPoint>, b: seq<KeyPoint>)
    requires AcceptedInOrder(img, accept, a) && AcceptedInOrder(img, accept, b)
    requires forall k1, k2 | 0 <= k1 < |a| && 0 <= k2 < |b| :: Before(a[k1].pt, b[k2].pt)
    ensures AcceptedInOrder(img, accept, a + b)
  {
    var ab := a + b;
    forall k | 0 <= k < |ab|
      ensures ab[k].size == KeyPointSize && InScan(img, ab[k].pt) && accept(ab[k].pt)
    {
      if k < |a| {
        assert ab[k] == a[k];
      } else {
        assert ab[k] == b[k - |a|];
      }
    }
    forall k1, k2 | 0 <= k1 < k2 < |ab|
      ensures Before(ab[k1].pt, ab[k2].pt)
    {
      if k2 < |a| {
        assert ab[k1] == a[k1] && ab[k2] == a[k2];
      } else if k1 >= |a| {
        assert ab[k1] == b[k1 - |a|] && ab[k2] == b[k2 - |a|];
      } else {
        assert ab[k1] == a[k1] && ab[k2] == b[k2 - |a|];
      }
    }
  }

  /** The key points the scan finds in row `row` from column `col` on. */
  function ScanRow(img: Image, accept: Point -> bool, row: int, col: int): (ks: seq<KeyPoint>)
    requires IsGrid(img) && 3 <= row < |img| - 3 && 3 <= col
    ensures AcceptedInOrder(img, accept, ks)
    ensures forall k | 0 <= k < |ks| :: ks[k].pt.y == row && ks[k].pt.x >= col
    ensures forall c | col <= c < Width(img) - 3 && accept(Point(c, row)) ::
              KeyPoint(Point(c, row), KeyPointSize) in ks
    decreases Width(img) - col
  {
    if col >= Width(img) - 3 then []
    else
      var p := Point(col, row);
      var here, rest := (if accept(p) then [KeyPoint(p, KeyPointSize)] else []), ScanRow(img, accept, row, col + 1);
      AcceptedConcat(img, accept, here, rest);
      here + rest
  }

  /** The key points the scan finds from row `row` on. */
  function ScanFrom(img: Image, accept: Point -> bool, row: int): (ks: seq<KeyPoint>)
    requires IsGrid(img) && 3 <= row
    ensures AcceptedInOrder(img, accept, ks)
    ensures forall k | 0 <= k < |ks| :: ks[k].pt.y >= row
    ensures forall p | InScan(img, p) && p.y >= row && accept(p) :: KeyPoint(p, KeyPointSize) in ks
    decreases |img| - row
  {
    if row >= |img| - 3 then []
    else
      var first, rest := ScanRow(img, accept, row, 3), ScanFrom(img, accept, row + 1);
      AcceptedConcat(img, accept, first, rest);
      assert forall p | InScan(img, p) && p.y >= row && accept(p) :: KeyPoint(p, KeyPointSize) in first + rest by {
        forall p | InScan(img, p) && p.y >= row && accept(p)
          ensures KeyPoint(p, KeyPointSize) in first + rest
        {
          if p.y == row {
            assert p == Point(p.x, row);
          }
        }
      }
      first + rest
  }

  /** The key points of the whole scan: exactly the centres that pass both
      tests, in row-major order, each of size 3. */
  function Corners(img: Image): (ks: seq<KeyPoint>)
    requires IsGrid(img)
    ensures forall k | 0 <= k < |ks| :: ks[k].size == KeyPointSize && InScan(img, ks[k].pt) && IsCorner(img, ks[k].pt)
    ensures forall k1, k2 | 0 <= k1 < k2 < |ks| :: Before(ks[k1].pt, ks[k2].pt)
    ensures forall p | InScan(img, p) && IsCorner(img, p) :: KeyPoint(p, KeyPointSize) in ks
  {
    var ks := ScanFrom(img, CornerTest(img), 3);
    assert forall p | InScan(img, p) && IsCorner(img, p) :: CornerTest(img)(p);
    ks
  }

  /** The test applied to one centre of the scan. */
  lemma CornerTestAt(img: Image, p: Point)
    requires IsGrid(img) && InScan(img, p)
    ensures Reaches(img, p, Compass) && Reaches(img, p, Ring)
    ensures CornerTest(img)(p) <==> CountOfKeyPoints(img, p, Compass) >= 3 && CountOfKeyPoints(img, p, Ring) >= 5
  {
    ScanReaches(img, p);
  }

  /** One step of the scan along a row. */
  lemma ScanRowStep(img: Image, accept: Point -> bool, row: int, col: int)
    requires IsGrid(img) && 3 <= row < |img| - 3 && 3 <= col < Width(img) - 3
    ensures ScanRow(img, accept, row, col)
            == (if accept(Point(col, row)) then [KeyPoint(Point(col, row), KeyPointSize)] else [])
               + ScanRow(img, accept, row, col + 1)
  {
  }

  /** One step of the scan down the rows. */
  lemma ScanFromStep(img: Image, accept: Point -> bool, row: int)
    requires IsGrid(img) && 3 <= row < |img| - 3
    ensures ScanFrom(img, accept, row) == ScanRow(img, accept, row, 3) + ScanFrom(img, accept, row + 1)
  {
  }

  /** Moving the next part of the scan onto the output. */
  lemma Shift(done: seq<KeyPoint>, next: seq<KeyPoint>, rest: seq<KeyPoint>, later: seq<KeyPoint>, all: seq<KeyPoint>)
    requires done + (next + rest) + later == all
    ensures done + next + rest + later == all
    ensures next == [] ==> done + rest + later == all
  {
    assert done + (next + rest) + later == done + next + rest + later;
  }

  /** The inner loop of `corner_detector_fast::detect`, over the columns: the
      centres of one row that pass both tests, left to right. */
  method DetectRow(img: Image, row: int) returns (found: seq<KeyPoint>)
    requires IsGrid(img) && 3 <= row < |img| - 3
    ensures found == ScanRow(img, CornerTest(img), row, 3)
  {
    var accept := CornerTest(img);
    ghost var all := ScanRow(img, accept, row, 3);
    found := [];
    var col := 3;
    while col < Width(img) - 3
      invariant 3 <= col
      invariant found + ScanRow(img, accept, row, col) == all
      decreases Width(img) - col
    {
      var centre := Point(col, row);
      ScanRowStep(img, accept, row, col);
      CornerTestAt(img, centre);
      var hit := CountOfKeyPoints(img, centre, Compass) >= 3 && CountOfKeyPoints(img, centre, Ring) >= 5;
      Shift(found, if hit then [KeyPoint(centre, KeyPointSize)] else [], ScanRow(img, accept, row, col + 1), [], all);
      if hit {
        found := found + [KeyPoint(centre, KeyPointSize)];
      }
      col := col + 1;
    }
    assert found == found + ScanRow(img, accept, row, col);
  }

  /** `corner_detector_fast::detect` on a single-channel image: the output
      is cleared, then every scanned centre that passes both tests is
      appended, row by row. */
  method Detect(img: Image) returns (keypoints: seq<KeyPoint>)
    requires IsGrid(img)
    ensures keypoints == Corners(img)
  {
    ghost var accept := CornerTest(img);
    ghost var all := ScanFrom(img, accept, 3);
    keypoints := [];
    var row := 3;
    while row < |img| - 3
      invariant 3 <= row
      invariant keypoints + ScanFrom(img, accept, row) == all
      decreases |img| - row
    {
      ScanFromStep(img, accept, row);
      var found := DetectRow(img, row);
      Shift(keypoints, found, ScanFrom(img, accept, row + 1), [], all);
      keypoints := keypoints + found;
      row := row + 1;
    }
    assert keypoints == keypoints + ScanFrom(img, accept, row);
  }

  // ------------------------------------------------------------ consequences

  /** In an image with fewer than seven columns no row has a centre to
      examine. */
  lemma {:induction false} NarrowScanEmpty(img: Image, accept: Point -> bool, row: int)
    requires IsGrid(img) && 3 <= row && Width(img) < 7
    ensures ScanFrom(img, accept, row) == []
    decreases |img| - row
  {
    if row < |img| - 3 {
      NarrowScanEmpty(img, accept, row + 1);
    }
  }

  /** An image with fewer than seven rows or columns has no centre to
      examine, hence no corners. */
  lemma SmallImageNoCorners(img: Image)
    requires IsGrid(img) && (|img| < 7 || Width(img) < 7)
    ensures Corners(img) == []
  {
    if Width(img) < 7 {
      NarrowScanEmpty(img, CornerTest(img), 3);
    }
  }

  /** In an image of one value no compass pixel differs from the centre,
      so no centre is a corner. */
  lemma ConstantNotCorner(img: Image, x: int, p: Point)
    requires IsGrid(img) && InScan(img, p)
    requires forall i, c | InImage(img, i, c) :: img[i][c] == x
    ensures !IsCorner(img, p)
  {
    ScanReaches(img, p);
    CompassCount(img, p);
  }

  /** An image of one value has no corners. */
  lemma ConstantImageNoCorners(img: Image, x: int)
    requires IsGrid(img)
    requires forall i, c | InImage(img, i, c) :: img[i][c] == x
    ensures Corners(img) == []
  {
    var ks := Corners(img);
    if |ks| > 0 {
      assert IsCorner(img, ks[0].pt);
      ConstantNotCorner(img, x, ks[0].pt);
      assert false;
    }
  }

  /** A 7x7 image has one centre to examine, (3, 3), and the scan reports
      it exactly when it passes both tests. */
  lemma SingleCentre(img: Image)
    requires IsGrid(img) && |img| == 7 && Width(img) == 7
    ensures InScan(img, Point(3, 3))
    ensures Corners(img) == if IsCorner(img, Point(3, 3)) then [KeyPoint(Point(3, 3), KeyPointSize)] else []
  {
    var accept := CornerTest(img);
    ScanFromStep(img, accept, 3);
    ScanRowStep(img, accept, 3, 3);
    assert accept(Point(3, 3)) == IsCorner(img, Point(3, 3));
  }

  /** Three compass pixels that differ from the centre make a compass
      count of at least 3. */
  lemma CompassAtLeastThree(img: Image, p: Point, skip: nat)
    requires Reaches(img, p, Compass) && skip < 4
    requires forall k | 0 <= k < 4 && k != skip ::
               Darker(At(img, p), At(img, p.Plus(Compass[k]))) || Brighter(At(img, p), At(img, p.Plus(Compass[k])))
    ensures CountOfKeyPoints(img, p, Compass) >= 3
  {
    var d1, b1 := DarkerFlags(img, p, Compass), BrighterFlags(img, p, Compass);
    assert forall k | 0 <= k < 4 && k != skip :: d1[k] || b1[k];
    assert DifferingCount(d1, b1, 3) == (if d1[3] || b1[3] then 1 else 0);
    assert DifferingCount(d1, b1, 2) == (if d1[2] || b1[2] then 1 else 0) + DifferingCount(d1, b1, 3);
    assert DifferingCount(d1, b1, 1) == (if d1[1] || b1[1] then 1 else 0) + DifferingCount(d1, b1, 2);
    assert DifferingCount(d1, b1, 0) == (if d1[0] || b1[0] then 1 else 0) + DifferingCount(d1, b1, 1);
  }

  /** Six consecutive ring pixels all darker, or all brighter, than the
      centre make a ring count of at least 5. */
  lemma RingAtLeastFive(img: Image, p: Point, from: nat)
    requires Reaches(img, p, Ring) && from < 16
    requires || (forall i | from <= i < from + 6 :: Darker(At(img, p), At(img, p.Plus(Ring[i % 16]))))
             || (forall i | from <= i < from + 6 :: Brighter(At(img, p), At(img, p.Plus(Ring[i % 16]))))
    ensures CountOfKeyPoints(img, p, Ring) >= 5
  {
    var d2, b2 := DarkerFlags(img, p, Ring), BrighterFlags(img, p, Ring);
    OneKindIsRun(d2, b2, from + 1, from + 6);
  }

  /** A scanned centre at which every compass pixel but one differs from
      it by more than the threshold, and six consecutive ring pixels are
      all darker or all brighter than it, is a corner. */
  lemma CornerWhen(img: Image, p: Point, skip: nat, from: nat)
    requires IsGrid(img) && InScan(img, p) && skip < 4 && from < 16
    requires Reaches(img, p, Compass) && Reaches(img, p, Ring)
    requires forall k | 0 <= k < 4 && k != skip ::
               Darker(At(img, p), At(img, p.Plus(Compass[k]))) || Brighter(At(img, p), At(img, p.Plus(Compass[k])))
    requires || (forall i | from <= i < from + 6 :: Darker(At(img, p), At(img, p.Plus(Ring[i % 16]))))
             || (forall i | from <= i < from + 6 :: Brighter(At(img, p), At(img, p.Plus(Ring[i % 16]))))
    ensures IsCorner(img, p)
  {
    CompassAtLeastThree(img, p, skip);
    RingAtLeastFive(img, p, from);
  }
}
