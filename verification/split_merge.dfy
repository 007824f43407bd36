/** The split-and-merge segmenter as written: a recursive split of the image
    into quadrants that flattens every homogeneous view to its rounded mean,
    a collection of merge candidates, first-fit grouping of the candidates,
    and a write of one averaged value per group. The image is a value here;
    the source's in-place writes through shared views are the functions'
    results. */
module SplitMerge {
  import opened Pixel
  import opened Grid

  datatype Option<T> = None | Some(value: T)

  /** The coordinates a `tree_node` records. As the quadrants are built,
      `xl`/`xr` hold the node's row range and `yb`/`yt` its column range,
      both relative to the parent view. */
  datatype Bounds = Bounds(xl: int, xr: int, yb: int, yt: int)

  /** A `tree_node`: its view, its bounds, whether it was split, and the
      children stored in it. */
  datatype Node = Node(view: Rect, bounds: Bounds, hasChildren: bool, children: seq<Node>)

  /** A node as constructed: not split, no stored children. */
  function Leaf(v: Rect, b: Bounds): Node {
    Node(v, b, false, [])
  }

  /** What `split_image` leaves behind: the rewritten image and the node it
      was given. */
  datatype SplitResult = SplitResult(image: Image, node: Node)

  // ---------------------------------------------------------------- quadrants

  /** The four quadrants up_left, down_left, up_right, down_right: rows are
      cut at half the height and columns at half the width, the odd row or
      column going to the second half. */
  function Quadrants(v: Rect): (q: seq<Rect>)
    requires v.Valid()
    ensures |q| == 4
    ensures forall k | 0 <= k < 4 :: q[k].Valid()
    ensures q[0].Rows() == q[1].Rows() == v.Rows() / 2
    ensures q[2].Rows() == q[3].Rows() == v.Rows() - v.Rows() / 2
    ensures q[0].Cols() == q[2].Cols() == v.Cols() / 2
    ensures q[1].Cols() == q[3].Cols() == v.Cols() - v.Cols() / 2
  {
    var h2 := v.top + v.Rows() / 2;
    var w2 := v.left + v.Cols() / 2;
    [ Rect(v.top, h2, v.left, w2), Rect(v.top, h2, w2, v.right),
      Rect(h2, v.bottom, v.left, w2), Rect(h2, v.bottom, w2, v.right) ]
  }

  /** The quadrants exactly partition the view. */
  lemma QuadrantsPartition(v: Rect)
    requires v.Valid()
    ensures forall k, i, j | 0 <= k < 4 && Quadrants(v)[k].Contains(i, j) :: v.Contains(i, j)
    ensures forall i, j | v.Contains(i, j) :: exists k :: 0 <= k < 4 && Quadrants(v)[k].Contains(i, j)
    ensures forall k1, k2 | 0 <= k1 < k2 < 4 :: Disjoint(Quadrants(v)[k1], Quadrants(v)[k2])
  {
    var q := Quadrants(v);
    forall i, j | v.Contains(i, j)
      ensures exists k :: 0 <= k < 4 && q[k].Contains(i, j)
    {
      var h2 := v.top + v.Rows() / 2;
      var w2 := v.left + v.Cols() / 2;
      var k := (if i < h2 then 0 else 2) + (if j < w2 then 0 else 1);
      assert q[k].Contains(i, j);
    }
  }

  /** A view of at least two samples has quadrants of strictly smaller area;
      a single row or column leaves two of them empty. */
  lemma QuadrantsShrink(v: Rect)
    requires v.Valid() && v.Area() >= 2
    ensures forall k | 0 <= k < 4 :: Quadrants(v)[k].Area() < v.Area()
    ensures v.Rows() == 1 ==> Quadrants(v)[0].Area() == 0 && Quadrants(v)[1].Area() == 0
    ensures v.Cols() == 1 ==> Quadrants(v)[0].Area() == 0 && Quadrants(v)[2].Area() == 0
  {
    var q := Quadrants(v);
    var h, w := v.Rows(), v.Cols();
    assert h != 0 && w != 0;
    forall k | 0 <= k < 4
      ensures q[k].Area() < v.Area()
    {
      var a, c := q[k].Rows(), q[k].Cols();
      if h >= 2 {
        assert a < h;
      } else {
        assert h == 1 && v.Area() == w;
        assert c < w;
      }
      ProductShrinks(a, c, h, w);
    }
  }

  lemma ProductShrinks(a: nat, b: nat, h: nat, w: nat)
    requires 1 <= h && 1 <= w
    requires a <= h && b <= w && (a < h || b < w)
    ensures a * b < h * w
  {
    if a < h {
      MulMonotone(a, b, w);
      MulMonotone(w, a, h - 1);
      assert w * (h - 1) == w * h - w;
    } else {
      MulMonotone(a, b, w - 1);
      assert a * (w - 1) == a * w - a;
    }
  }

  lemma MulMonotone(x: nat, y: nat, z: nat)
    requires y <= z
    ensures x * y <= x * z
  {
    if x > 0 {
      MulMonotone(x - 1, y, z);
      assert x * y == (x - 1) * y + y;
      assert x * z == (x - 1) * z + z;
    }
  }

  /** The bounds stored for the four children of an h-by-w view. */
  function QuadrantBounds(h: int, w: int): seq<Bounds> {
    [ Bounds(0, h / 2, 0, w / 2), Bounds(0, h / 2, w / 2, w),
      Bounds(h / 2, h, 0, w / 2), Bounds(h / 2, h, w / 2, w) ]
  }

  // ---------------------------------------------------------------- split

  /** A view that fails the homogeneity test has at least two samples. */
  lemma LargeUnlessHomogeneous(img: Image, v: Rect, t: real)
    requires Within(img, v) && 0.0 <= t && !Homogeneous(Pixels(img, v), t)
    ensures v.Area() >= 2
  {
    if v.Area() <= 1 {
      SmallViewStats(img, v);
    }
  }

  /** The node `split_image` leaves behind: unsplit, or split with the
      copies of its four children that were stored before the recursion. */
  function StoredNode(img: Image, v: Rect, t: real, b: Bounds): (n: Node)
    requires Within(img, v)
    ensures n.view == v && n.bounds == b
    ensures n.hasChildren <==> !Homogeneous(Pixels(img, v), t)
  {
    if Homogeneous(Pixels(img, v), t) then Leaf(v, b)
    else Node(v, b, true, QuadrantLeaves(v))
  }

  /** `split_image`: a homogeneous view is filled with its rounded mean;
      any other view gets the four children stored in its node, as fresh
      copies, and then each quadrant is split in turn. The nodes the
      recursive calls work on are those copies' originals, so what they
      record is dropped. */
  function SplitImage(img: Image, v: Rect, t: real, b: Bounds, d: Depth): (r: SplitResult)
    requires Within(img, v) && 0.0 <= t && d.Valid()
    ensures UnchangedOutside(img, r.image, v)
    ensures InRangeOn(r.image, v, d)
    ensures r.node == StoredNode(img, v, t, b)
    ensures Homogeneous(Pixels(img, v), t) ==>
              forall i, j | v.Contains(i, j) :: r.image[i][j] == SaturateRound(Mean(Pixels(img, v)), d)
    decreases v.Area(), 1
  {
    var px := Pixels(img, v);
    if Homogeneous(px, t) then
      SplitResult(Fill(img, v, SaturateRound(Mean(px), d)), StoredNode(img, v, t, b))
    else
      SplitResult(SplitQuadrants(img, v, t, d), StoredNode(img, v, t, b))
  }

  /** The four recursive calls of a split view, in quadrant order, each on
      the image the previous one left. */
  function SplitQuadrants(img: Image, v: Rect, t: real, d: Depth): (r: Image)
    requires Within(img, v) && 0.0 <= t && d.Valid()
    requires !Homogeneous(Pixels(img, v), t)
    ensures UnchangedOutside(img, r, v)
    ensures InRangeOn(r, v, d)
    decreases v.Area(), 0
  {
    LargeUnlessHomogeneous(img, v, t);
    QuadrantsShrink(v);
    QuadrantsPartition(v);
    var q := Quadrants(v);
    var qb := QuadrantBounds(v.Rows(), v.Cols());
    var img1 := SplitImage(img, q[0], t, qb[0], d).image;
    var img2 := SplitImage(img1, q[1], t, qb[1], d).image;
    var img3 := SplitImage(img2, q[2], t, qb[2], d).image;
    var img4 := SplitImage(img3, q[3], t, qb[3], d).image;
    QuadrantWritesCover(img, img1, img2, img3, img4, v, d);
    img4
  }

  /** Four successive writes, each confined to one quadrant and leaving its
      quadrant in range, leave the whole view in range and nothing outside
      it changed. */
  lemma QuadrantWritesCover(img: Image, img1: Image, img2: Image, img3: Image, img4: Image, v: Rect, d: Depth)
    requires Within(img, v)
    requires var q := Quadrants(v);
             && UnchangedOutside(img, img1, q[0]) && InRangeOn(img1, q[0], d)
             && UnchangedOutside(img1, img2, q[1]) && InRangeOn(img2, q[1], d)
             && UnchangedOutside(img2, img3, q[2]) && InRangeOn(img3, q[2], d)
             && UnchangedOutside(img3, img4, q[3]) && InRangeOn(img4, q[3], d)
    ensures UnchangedOutside(img, img4, v)
    ensures InRangeOn(img4, v, d)
  {
    var q := Quadrants(v);
    QuadrantsPartition(v);
    forall i, j | InImage(img, i, j) && !v.Contains(i, j)
      ensures img4[i][j] == img[i][j]
    {
      assert !q[0].Contains(i, j) && !q[1].Contains(i, j) && !q[2].Contains(i, j) && !q[3].Contains(i, j);
    }
    forall i, j | InImage(img4, i, j) && v.Contains(i, j)
      ensures d.Holds(img4[i][j])
    {
      var k :| 0 <= k < 4 && q[k].Contains(i, j);
      assert Disjoint(q[0], q[1]) && Disjoint(q[0], q[2]) && Disjoint(q[0], q[3]);
      assert Disjoint(q[1], q[2]) && Disjoint(q[1], q[3]) && Disjoint(q[2], q[3]);
    }
  }

  /** Every view of two or more samples that the split reaches either
      holds one value throughout or fails the test and is cut again: each
      fill the split makes writes a view with the value it already holds. */
  ghost predicate SplitRewritesNothing(img: Image, v: Rect, t: real)
    requires Within(img, v)
    decreases v.Area()
  {
    if v.Area() <= 1 then true
    else if Homogeneous(Pixels(img, v), t) then
      forall i, j | v.Contains(i, j) :: img[i][j] == img[v.top][v.left]
    else
      QuadrantsShrink(v);
      forall k | 0 <= k < 4 :: SplitRewritesNothing(img, Quadrants(v)[k], t)
  }

  /** A view that fails the test and whose quadrants hold at most one
      sample each is split without a write. */
  lemma SplitIntoSamplesRewritesNothing(img: Image, v: Rect, t: real)
    requires Within(img, v) && v.Area() >= 2 && !Homogeneous(Pixels(img, v), t)
    requires forall k | 0 <= k < 4 :: Quadrants(v)[k].Area() <= 1
    ensures SplitRewritesNothing(img, v, t)
  {
    QuadrantsShrink(v);
    QuadrantsPartition(v);
    assert forall k | 0 <= k < 4 :: SplitRewritesNothing(img, Quadrants(v)[k], t);
  }

  /** Filling a view with the value it already holds changes nothing. */
  lemma FillUnchanged(img: Image, v: Rect, x: int)
    requires Within(img, v)
    requires forall i, j | InImage(img, i, j) && v.Contains(i, j) :: img[i][j] == x
    ensures Fill(img, v, x) == img
  {
    var r := Fill(img, v, x);
    forall i | 0 <= i < |img|
      ensures r[i] == img[i]
    {
      assert forall j | 0 <= j < |img[i]| :: InImage(img, i, j);
    }
  }

  /** A view of at most one sample, already in range, is written back as
      it was. */
  lemma SmallSplitKeepsImage(img: Image, v: Rect, t: real, b: Bounds, d: Depth)
    requires Within(img, v) && 0.0 <= t && d.Valid()
    requires InRangeOn(img, v, d) && v.Area() <= 1
    ensures SplitImage(img, v, t, b, d).image == img
  {
    var px := Pixels(img, v);
    SmallViewStats(img, v);
    var x := SaturateRound(Mean(px), d);
    if v.Area() == 1 {
      PixelsSingle(img, v);
      ConstantStats(px, img[v.top][v.left]);
      SaturateRoundOfSample(img[v.top][v.left], d);
      assert v.Rows() == 1 && v.Cols() == 1;
    } else {
      assert v.Rows() == 0 || v.Cols() == 0;
    }
    FillUnchanged(img, v, x);
    assert Homogeneous(px, t);
    assert SplitImage(img, v, t, b, d).image == Fill(img, v, x);
  }

  /** A homogeneous view that holds one representable value throughout is
      filled with that value. */
  lemma ConstantSplitKeepsImage(img: Image, v: Rect, t: real, b: Bounds, d: Depth)
    requires Within(img, v) && 0.0 <= t && d.Valid()
    requires InRangeOn(img, v, d) && v.Area() >= 2 && Homogeneous(Pixels(img, v), t)
    requires forall i, j | v.Contains(i, j) :: img[i][j] == img[v.top][v.left]
    ensures SplitImage(img, v, t, b, d).image == img
  {
    var px := Pixels(img, v);
    var x := img[v.top][v.left];
    assert v.Contains(v.top, v.left);
    PixelsConstant(img, v, x);
    ConstantStats(px, x);
    SaturateRoundOfSample(x, d);
    FillUnchanged(img, v, x);
    assert SplitImage(img, v, t, b, d).image == Fill(img, v, x);
  }

  /** A split that rewrites nothing leaves an image already in range as
      it was. */
  lemma {:induction false} SplitKeepsImage(img: Image, v: Rect, t: real, b: Bounds, d: Depth)
    requires Within(img, v) && 0.0 <= t && d.Valid()
    requires InRangeOn(img, v, d) && SplitRewritesNothing(img, v, t)
    ensures SplitImage(img, v, t, b, d).image == img
    decreases v.Area()
  {
    if v.Area() <= 1 {
      SmallSplitKeepsImage(img, v, t, b, d);
    } else if Homogeneous(Pixels(img, v), t) {
      ConstantSplitKeepsImage(img, v, t, b, d);
    } else {
      QuadrantsShrink(v);
      QuadrantsPartition(v);
      var q := Quadrants(v);
      var qb := QuadrantBounds(v.Rows(), v.Cols());
      forall k | 0 <= k < 4
        ensures SplitImage(img, q[k], t, qb[k], d).image == img
      {
        assert InRangeOn(img, q[k], d);
        SplitKeepsImage(img, q[k], t, qb[k], d);
      }
      assert SplitImage(img, v, t, b, d).image == SplitQuadrants(img, v, t, d);
    }
  }

  /** With a negative threshold no view is homogeneous, and the last
      quadrant of a one-sample view is the view itself: the recursion never
      ends, so a threshold below zero is outside the segmenter's domain. */
  lemma NegativeThresholdNeverSettles(img: Image, v: Rect, t: real)
    requires Within(img, v) && v.Area() == 1 && t < 0.0
    ensures !Homogeneous(Pixels(img, v), t)
    ensures Quadrants(v)[3] == v
  {
    assert v.Rows() == 1 && v.Cols() == 1;
  }

  // ---------------------------------------------------------------- collect

  /** `create_vector_for_childrens`: the unsplit nodes of a tree, pre-order,
      children in stored order. */
  function Collect(n: Node): seq<Node>
    decreases n
  {
    if !n.hasChildren then [n] else CollectAll(n.children)
  }

  function CollectAll(ns: seq<Node>): seq<Node>
    decreases ns
  {
    if |ns| == 0 then [] else Collect(ns[0]) + CollectAll(ns[1..])
  }

  /** The four stored children of a split view, in order. */
  function QuadrantLeaves(v: Rect): (ls: seq<Node>)
    requires v.Valid()
    ensures |ls| == 4
    ensures forall k | 0 <= k < 4 :: ls[k].view == Quadrants(v)[k] && !ls[k].hasChildren
    ensures forall k | 0 <= k < 4 :: ls[k].bounds == QuadrantBounds(v.Rows(), v.Cols())[k]
  {
    var q := Quadrants(v);
    var qb := QuadrantBounds(v.Rows(), v.Cols());
    [Leaf(q[0], qb[0]), Leaf(q[1], qb[1]), Leaf(q[2], qb[2]), Leaf(q[3], qb[3])]
  }

  /** However deep the split went, the merge candidates are the view alone
      or exactly its four quadrants: the stored children never learn that
      they were split. */
  lemma CollectShape(img: Image, v: Rect, t: real, b: Bounds, d: Depth)
    requires Within(img, v) && 0.0 <= t && d.Valid()
    ensures var leaves := Collect(SplitImage(img, v, t, b, d).node);
            if Homogeneous(Pixels(img, v), t) then leaves == [Leaf(v, b)]
            else leaves == QuadrantLeaves(v)
  {
    var n := StoredNode(img, v, t, b);
    assert SplitImage(img, v, t, b, d).node == n;
    if n.hasChildren {
      CollectUnsplit(QuadrantLeaves(v));
    }
  }

  /** Collecting a list of unsplit nodes gives the list back. */
  lemma CollectUnsplit(ns: seq<Node>)
    requires forall k | 0 <= k < |ns| :: !ns[k].hasChildren
    ensures CollectAll(ns) == ns
  {
    if |ns| > 0 {
      CollectUnsplit(ns[1..]);
    }
  }

  // ---------------------------------------------------------------- grouping

  /** `is_neibours`: one recorded coordinate of a equals the opposite
      coordinate of b. Only coordinates are compared, not whether the two
      views share an edge. */
  predicate Neighbours(a: Bounds, b: Bounds) {
    a.xl == b.xr || a.yb == b.yt || a.xr == b.xl || a.yt == b.yb
  }

  lemma NeighboursSymmetric(a: Bounds, b: Bounds)
    ensures Neighbours(a, b) <==> Neighbours(b, a)
  {
  }

  /** Any two distinct children of one view pass the neighbour test,
      whatever the view's size, diagonal pairs included. */
  lemma QuadrantsAreNeighbours(h: int, w: int)
    ensures forall k1, k2 | 0 <= k1 < 4 && 0 <= k2 < 4 && k1 != k2 ::
              Neighbours(QuadrantBounds(h, w)[k1], QuadrantBounds(h, w)[k2])
  {
  }

  /** The four stored children of a view are mutual neighbours. */
  lemma QuadrantLeavesNeighbours(v: Rect)
    requires v.Valid()
    ensures AllNeighbours(QuadrantLeaves(v))
  {
    QuadrantsAreNeighbours(v.Rows(), v.Cols());
  }

  /** Every candidate's view is a view of img. */
  predicate ViewsIn(img: Image, leaves: seq<Node>) {
    forall m | 0 <= m < |leaves| :: Within(img, leaves[m].view)
  }

  /** `can_be_merge`: both views homogeneous, and neighbours. */
  predicate CanBeMerged(img: Image, a: Node, b: Node, t: real)
    requires Within(img, a.view) && Within(img, b.view)
  {
    && Homogeneous(Pixels(img, a.view), t)
    && Homogeneous(Pixels(img, b.view), t)
    && Neighbours(a.bounds, b.bounds)
  }

  /** The homogeneity test `can_be_merge` applies to each candidate. The
      grouping loop of `merge_image_parts` runs before its write-back loop,
      so every candidate is judged on the same image and its
      answer is fixed for the whole loop. */
  function Homogeneities(img: Image, leaves: seq<Node>, t: real): (hom: seq<bool>)
    requires ViewsIn(img, leaves)
    ensures |hom| == |leaves|
    ensures forall m | 0 <= m < |leaves| :: hom[m] <==> Homogeneous(Pixels(img, leaves[m].view), t)
  {
    seq(|leaves|, m requires 0 <= m < |leaves| => Homogeneous(Pixels(img, leaves[m].view), t))
  }

  /** `can_be_merge` in terms of the candidates' test results. */
  predicate Mergeable(hom: seq<bool>, leaves: seq<Node>, a: nat, b: nat)
    requires |hom| == |leaves| && a < |leaves| && b < |leaves|
  {
    hom[a] && hom[b] && Neighbours(leaves[a].bounds, leaves[b].bounds)
  }

  lemma MergeableIsCanBeMerged(img: Image, leaves: seq<Node>, t: real, a: nat, b: nat)
    requires ViewsIn(img, leaves) && a < |leaves| && b < |leaves|
    ensures Mergeable(Homogeneities(img, leaves, t), leaves, a, b) <==> CanBeMerged(img, leaves[a], leaves[b], t)
  {
  }

  /** Every member of every group is below n. */
  predicate MembersBelow(groups: seq<seq<nat>>, n: nat) {
    forall j, k | 0 <= j < |groups| && 0 <= k < |groups[j]| :: groups[j][k] < n
  }

  /** The scan of one group's members in `merge_image_parts`: does any of them
      accept leaf i? */
  function AnyMemberAccepts(hom: seq<bool>, leaves: seq<Node>, g: seq<nat>, i: nat): (r: bool)
    requires |hom| == |leaves| && i < |leaves|
    requires forall k | 0 <= k < |g| :: g[k] < |leaves|
    ensures r <==> exists k :: 0 <= k < |g| && Mergeable(hom, leaves, g[k], i)
  {
    if |g| == 0 then false
    else Mergeable(hom, leaves, g[0], i) || AnyMemberAccepts(hom, leaves, g[1..], i)
  }

  /** The scan of the groups from j on in `merge_image_parts`: the first one that
      accepts leaf i, if any. */
  function FirstFit(hom: seq<bool>, leaves: seq<Node>, groups: seq<seq<nat>>, i: nat, j: nat): (r: Option<nat>)
    requires |hom| == |leaves| && i < |leaves| && MembersBelow(groups, |leaves|) && j <= |groups|
    ensures r.Some? ==> j <= r.value < |groups| && AnyMemberAccepts(hom, leaves, groups[r.value], i)
    ensures forall j' | j <= j' < |groups| && (r.None? || j' < r.value) ::
              !AnyMemberAccepts(hom, leaves, groups[j'], i)
    decreases |groups| - j
  {
    if j == |groups| then None
    else if AnyMemberAccepts(hom, leaves, groups[j], i) then Some(j)
    else FirstFit(hom, leaves, groups, i, j + 1)
  }

  /** The grouping loop of `merge_image_parts` from leaf i on: the first
      leaf opens group 1; every later one joins the first accepting group
      or opens a new one. Groups are lists of leaf indices. */
  function GroupFrom(hom: seq<bool>, leaves: seq<Node>, i: nat, groups: seq<seq<nat>>): seq<seq<nat>>
    requires |hom| == |leaves| && i <= |leaves| && MembersBelow(groups, i)
    decreases |leaves| - i
  {
    if i == |leaves| then groups
    else if i == 0 then GroupFrom(hom, leaves, 1, groups + [[0]])
    else match FirstFit(hom, leaves, groups, i, 0)
      case Some(j) => GroupFrom(hom, leaves, i + 1, groups[j := groups[j] + [i]])
      case None => GroupFrom(hom, leaves, i + 1, groups + [[i]])
  }

  ghost predicate Increasing(g: seq<nat>) {
    forall k1, k2 | 0 <= k1 < k2 < |g| :: g[k1] < g[k2]
  }

  /** Leaf i is a member of some group. */
  ghost predicate Grouped(G: seq<seq<nat>>, i: nat) {
    exists j :: 0 <= j < |G| && i in G[j]
  }

  /** G puts each of the leaves 0..n-1 in exactly one group; groups are
      non-empty, list their members in increasing order, and are ordered
      by their first member. */
  ghost predicate IsPartition(G: seq<seq<nat>>, n: nat) {
    && (forall j | 0 <= j < |G| :: |G[j]| > 0 && Increasing(G[j]))
    && MembersBelow(G, n)
    && (forall i | 0 <= i < n :: Grouped(G, i))
    && GroupsDisjoint(G)
    && (forall j1, j2 | 0 <= j1 < j2 < |G| :: G[j1][0] < G[j2][0])
  }

  /** No leaf is in two groups. */
  ghost predicate GroupsDisjoint(G: seq<seq<nat>>) {
    forall i, j1, j2 | 0 <= j1 < j2 < |G| && i in G[j1] :: i !in G[j2]
  }

  /** Some member of g listed before leaf i accepts it. */
  ghost predicate EarlierAccepts(hom: seq<bool>, leaves: seq<Node>, g: seq<nat>, i: nat)
    requires |hom| == |leaves| && i < |leaves|
    requires forall k | 0 <= k < |g| :: g[k] < |leaves|
  {
    exists k :: 0 <= k < |g| && g[k] < i && Mergeable(hom, leaves, g[k], i)
  }

  /** Member k of group j was placed first-fit: no earlier group has a
      member before it that accepts it, and it heads its group exactly
      when no member of its own group before it accepts it. */
  ghost predicate PlacedFirstFit(hom: seq<bool>, leaves: seq<Node>, G: seq<seq<nat>>, j: nat, k: nat)
    requires |hom| == |leaves| && MembersBelow(G, |leaves|) && j < |G| && k < |G[j]|
  {
    && (forall j' | 0 <= j' < j :: !EarlierAccepts(hom, leaves, G[j'], G[j][k]))
    && (k > 0 <==> EarlierAccepts(hom, leaves, G[j], G[j][k]))
  }

  /** The leaves 0..n-1 are partitioned into groups, each placed
      first-fit. */
  ghost predicate FirstFitUpTo(hom: seq<bool>, leaves: seq<Node>, G: seq<seq<nat>>, n: nat)
    requires |hom| == |leaves| && n <= |leaves|
  {
    && IsPartition(G, n)
    && forall j, k | 0 <= j < |G| && 0 <= k < |G[j]| :: PlacedFirstFit(hom, leaves, G, j, k)
  }

  /** The grouping loop of `merge_image_parts`. */
  function Group(hom: seq<bool>, leaves: seq<Node>): (G: seq<seq<nat>>)
    requires |hom| == |leaves|
    ensures FirstFitUpTo(hom, leaves, G, |leaves|)
  {
    GroupFromFirstFit(hom, leaves, 0, []);
    GroupFrom(hom, leaves, 0, [])
  }

  lemma {:induction false} GroupFromFirstFit(hom: seq<bool>, leaves: seq<Node>, i: nat, groups: seq<seq<nat>>)
    requires |hom| == |leaves| && i <= |leaves|
    requires FirstFitUpTo(hom, leaves, groups, i)
    requires i == 0 ==> groups == []
    ensures FirstFitUpTo(hom, leaves, GroupFrom(hom, leaves, i, groups), |leaves|)
    decreases |leaves| - i
  {
    if i < |leaves| {
      if i == 0 {
        OpenGroup(hom, leaves, groups, i);
        GroupFromFirstFit(hom, leaves, 1, groups + [[0]]);
      } else {
        match FirstFit(hom, leaves, groups, i, 0)
        case Some(j) =>
          JoinGroup(hom, leaves, groups, i, j);
          GroupFromFirstFit(hom, leaves, i + 1, groups[j := groups[j] + [i]]);
        case None =>
          OpenGroup(hom, leaves, groups, i);
          GroupFromFirstFit(hom, leaves, i + 1, groups + [[i]]);
      }
    }
  }

  /** For a group whose members all precede i, scanning all members is
      the same as scanning those before i. */
  lemma AnyIsEarlier(hom: seq<bool>, leaves: seq<Node>, g: seq<nat>, i: nat)
    requires |hom| == |leaves| && i < |leaves|
    requires forall k | 0 <= k < |g| :: g[k] < i
    ensures AnyMemberAccepts(hom, leaves, g, i) <==> EarlierAccepts(hom, leaves, g, i)
  {
  }

  /** Appending a member that does not precede i does not change what
      accepts i. */
  lemma EarlierAcceptsAppend(hom: seq<bool>, leaves: seq<Node>, g: seq<nat>, x: nat, i: nat)
    requires |hom| == |leaves| && i < |leaves| && x < |leaves| && i <= x
    requires forall k | 0 <= k < |g| :: g[k] < |leaves|
    ensures EarlierAccepts(hom, leaves, g + [x], i) <==> EarlierAccepts(hom, leaves, g, i)
  {
    if EarlierAccepts(hom, leaves, g + [x], i) {
      var k :| 0 <= k < |g| + 1 && (g + [x])[k] < i && Mergeable(hom, leaves, (g + [x])[k], i);
      assert k < |g| && g[k] == (g + [x])[k];
    }
    if EarlierAccepts(hom, leaves, g, i) {
      var k :| 0 <= k < |g| && g[k] < i && Mergeable(hom, leaves, g[k], i);
      assert (g + [x])[k] == g[k];
    }
  }

  /** A placement depends only on the groups up to its own, as far as they
      bear on the placed leaf. */
  lemma PlacedStable(hom: seq<bool>, leaves: seq<Node>, G: seq<seq<nat>>, G': seq<seq<nat>>, j: nat, k: nat)
    requires |hom| == |leaves| && MembersBelow(G, |leaves|) && MembersBelow(G', |leaves|)
    requires j < |G| && k < |G[j]| && j < |G'| && k < |G'[j]| && G'[j][k] == G[j][k]
    requires forall j' | 0 <= j' <= j ::
               EarlierAccepts(hom, leaves, G'[j'], G[j][k]) <==> EarlierAccepts(hom, leaves, G[j'], G[j][k])
    requires PlacedFirstFit(hom, leaves, G, j, k)
    ensures PlacedFirstFit(hom, leaves, G', j, k)
  {
  }

  lemma PartitionOpen(G: seq<seq<nat>>, i: nat)
    requires IsPartition(G, i)
    ensures IsPartition(G + [[i]], i + 1)
  {
    var G' := G + [[i]];
    forall i' | 0 <= i' < i + 1
      ensures Grouped(G', i')
    {
      if i' < i {
        assert Grouped(G, i');
        var j :| 0 <= j < |G| && i' in G[j];
        assert G'[j] == G[j];
      } else {
        assert i' in G'[|G|];
      }
    }
  }

  lemma PartitionJoin(G: seq<seq<nat>>, i: nat, j: nat)
    requires IsPartition(G, i) && j < |G|
    ensures IsPartition(G[j := G[j] + [i]], i + 1)
  {
    var G' := G[j := G[j] + [i]];
    forall i' | 0 <= i' < i + 1
      ensures Grouped(G', i')
    {
      if i' < i {
        assert Grouped(G, i');
        var j2 :| 0 <= j2 < |G| && i' in G[j2];
        assert i' in G'[j2];
      } else {
        assert i' in G'[j];
      }
    }
    forall i', j1, j2 | 0 <= j1 < j2 < |G'| && i' in G'[j1]
      ensures i' !in G'[j2]
    {
      if i' == i {
        assert j1 == j;
      } else {
        assert i' in G[j1];
      }
    }
  }

  /** Leaf i opening a new group keeps the grouping first-fit. */
  lemma OpenGroup(hom: seq<bool>, leaves: seq<Node>, G: seq<seq<nat>>, i: nat)
    requires |hom| == |leaves| && i < |leaves|
    requires FirstFitUpTo(hom, leaves, G, i)
    requires forall j | 0 <= j < |G| :: !AnyMemberAccepts(hom, leaves, G[j], i)
    ensures FirstFitUpTo(hom, leaves, G + [[i]], i + 1)
  {
    var G' := G + [[i]];
    PartitionOpen(G, i);
    forall j, k | 0 <= j < |G'| && 0 <= k < |G'[j]|
      ensures PlacedFirstFit(hom, leaves, G', j, k)
    {
      if j < |G| {
        PlacedStable(hom, leaves, G, G', j, k);
      } else {
        forall j' | 0 <= j' < j
          ensures !EarlierAccepts(hom, leaves, G'[j'], i)
        {
          AnyIsEarlier(hom, leaves, G[j'], i);
        }
      }
    }
  }

  /** Leaf i joining the first accepting group j keeps the grouping
      first-fit. */
  lemma JoinGroup(hom: seq<bool>, leaves: seq<Node>, G: seq<seq<nat>>, i: nat, j: nat)
    requires |hom| == |leaves| && i < |leaves|
    requires FirstFitUpTo(hom, leaves, G, i)
    requires j < |G| && AnyMemberAccepts(hom, leaves, G[j], i)
    requires forall j' | 0 <= j' < j :: !AnyMemberAccepts(hom, leaves, G[j'], i)
    ensures FirstFitUpTo(hom, leaves, G[j := G[j] + [i]], i + 1)
  {
    var G' := G[j := G[j] + [i]];
    PartitionJoin(G, i, j);
    forall j2, k | 0 <= j2 < |G'| && 0 <= k < |G'[j2]|
      ensures PlacedFirstFit(hom, leaves, G', j2, k)
    {
      var x := G'[j2][k];
      if j2 == j && k == |G[j]| {
        assert x == i;
        AnyIsEarlier(hom, leaves, G[j], i);
        EarlierAcceptsAppend(hom, leaves, G[j], i, i);
        forall j' | 0 <= j' < j
          ensures !EarlierAccepts(hom, leaves, G'[j'], i)
        {
          AnyIsEarlier(hom, leaves, G[j'], i);
        }
      } else {
        assert x == G[j2][k] && x < i;
        EarlierAcceptsAppend(hom, leaves, G[j], i, x);
        PlacedStable(hom, leaves, G, G', j2, k);
      }
    }
  }

  // ---------------------------------------------------------------- merging

  /** Some member of g has (i, c) in its view. */
  ghost predicate Covers(leaves: seq<Node>, g: seq<nat>, i: int, c: int)
    requires forall k | 0 <= k < |g| :: g[k] < |leaves|
  {
    exists k :: 0 <= k < |g| && leaves[g[k]].view.Contains(i, c)
  }

  function SumOfMeans(img: Image, leaves: seq<Node>, g: seq<nat>): real
    requires ViewsIn(img, leaves)
    requires forall k | 0 <= k < |g| :: g[k] < |leaves|
  {
    if |g| == 0 then 0.0
    else Mean(Pixels(img, leaves[g[0]].view)) + SumOfMeans(img, leaves, g[1..])
  }

  /** The value `merge_nodes` writes into a group: the average of the
      members' own means, each member counting once whatever its area. */
  function GroupValue(img: Image, leaves: seq<Node>, g: seq<nat>, d: Depth): (x: int)
    requires ViewsIn(img, leaves) && d.Valid() && |g| > 0
    requires forall k | 0 <= k < |g| :: g[k] < |leaves|
    ensures d.Holds(x)
  {
    SaturateRound(SumOfMeans(img, leaves, g) / |g| as real, d)
  }

  /** Members that all have mean mu average to mu. */
  lemma {:induction false} SumOfEqualMeans(img: Image, leaves: seq<Node>, g: seq<nat>, mu: real)
    requires ViewsIn(img, leaves)
    requires forall k | 0 <= k < |g| :: g[k] < |leaves|
    requires forall k | 0 <= k < |g| :: Mean(Pixels(img, leaves[g[k]].view)) == mu
    ensures SumOfMeans(img, leaves, g) == |g| as real * mu
  {
    if |g| > 0 {
      SumOfEqualMeans(img, leaves, g[1..], mu);
      assert |g| as real * mu == mu + |g[1..]| as real * mu;
    }
  }

  /** Means read only the members' own views. */
  lemma {:induction false} SumOfMeansAgree(a: Image, b: Image, leaves: seq<Node>, g: seq<nat>)
    requires ViewsIn(a, leaves) && ViewsIn(b, leaves)
    requires forall k | 0 <= k < |g| :: g[k] < |leaves|
    requires forall k, i, c | 0 <= k < |g| && leaves[g[k]].view.Contains(i, c) :: a[i][c] == b[i][c]
    ensures SumOfMeans(a, leaves, g) == SumOfMeans(b, leaves, g)
  {
    if |g| > 0 {
      PixelsAgree(a, b, leaves[g[0]].view);
      SumOfMeansAgree(a, b, leaves, g[1..]);
    }
  }

  /** Members of one sample each. */
  predicate OneSampleMembers(img: Image, leaves: seq<Node>, g: seq<nat>)
    requires forall k | 0 <= k < |g| :: g[k] < |leaves|
  {
    forall k | 0 <= k < |g| :: Within(img, leaves[g[k]].view) && leaves[g[k]].view.Rows() == 1 && leaves[g[k]].view.Cols() == 1
  }

  /** The sum of the samples of one-sample members. */
  function SampleSum(img: Image, leaves: seq<Node>, g: seq<nat>): real
    requires forall k | 0 <= k < |g| :: g[k] < |leaves|
    requires OneSampleMembers(img, leaves, g)
  {
    if |g| == 0 then 0.0
    else
      var v := leaves[g[0]].view;
      img[v.top][v.left] as real + SampleSum(img, leaves, g[1..])
  }

  /** The mean of a one-sample member is its sample. */
  lemma {:induction false} SumOfSampleMeans(img: Image, leaves: seq<Node>, g: seq<nat>)
    requires ViewsIn(img, leaves)
    requires forall k | 0 <= k < |g| :: g[k] < |leaves|
    requires OneSampleMembers(img, leaves, g)
    ensures SumOfMeans(img, leaves, g) == SampleSum(img, leaves, g)
  {
    if |g| > 0 {
      SampleMean(img, leaves[g[0]].view);
      SumOfSampleMeans(img, leaves, g[1..]);
    }
  }

  /** A group whose members all have mean mu is written with mu, rounded
      and saturated: the average the merge is meant to take. */
  lemma GroupValueOfEqualMeans(img: Image, leaves: seq<Node>, g: seq<nat>, d: Depth, mu: real)
    requires ViewsIn(img, leaves) && d.Valid() && |g| > 0
    requires forall k | 0 <= k < |g| :: g[k] < |leaves|
    requires forall k | 0 <= k < |g| :: Mean(Pixels(img, leaves[g[k]].view)) == mu
    ensures GroupValue(img, leaves, g, d) == SaturateRound(mu, d)
  {
    SumOfEqualMeans(img, leaves, g, mu);
    assert SumOfMeans(img, leaves, g) / |g| as real == mu;
  }

  /** The accumulation loop of `merge_nodes` as written, from member i on, with buf the content of the 1x1 buffer of mean1. The
      assignment `mean = mean1` makes mean share that buffer, and each later
      `meanStdDev` call writes the next member's mean into it, so
      `mean += mean1` doubles that member's mean instead of adding it to a
      running sum. */
  function AliasedAccumulator(img: Image, leaves: seq<Node>, g: seq<nat>, i: nat, buf: real): real
    requires ViewsIn(img, leaves) && i <= |g|
    requires forall k | 0 <= k < |g| :: g[k] < |leaves|
    decreases |g| - i
  {
    if i == |g| then buf
    else
      var mean1 := Mean(Pixels(img, leaves[g[i]].view));
      AliasedAccumulator(img, leaves, g, i + 1, if i == 0 then mean1 else mean1 + mean1)
  }

  /** The value `merge_nodes` as written stores into a group. */
  function GroupValueAsWritten(img: Image, leaves: seq<Node>, g: seq<nat>, d: Depth): (x: int)
    requires ViewsIn(img, leaves) && d.Valid() && |g| > 0
    requires forall k | 0 <= k < |g| :: g[k] < |leaves|
    ensures d.Holds(x)
  {
    SaturateRound(AliasedAccumulator(img, leaves, g, 0, 0.0) / |g| as real, d)
  }

  /** Once a second member has been read, the buffer holds twice the mean
      of the member read last. */
  lemma {:induction false} AliasedAccumulatorDoubles(img: Image, leaves: seq<Node>, g: seq<nat>, i: nat, buf: real)
    requires ViewsIn(img, leaves) && 0 < i < |g|
    requires forall k | 0 <= k < |g| :: g[k] < |leaves|
    ensures AliasedAccumulator(img, leaves, g, i, buf) == 2.0 * Mean(Pixels(img, leaves[g[|g| - 1]].view))
    decreases |g| - i
  {
    if i + 1 < |g| {
      AliasedAccumulatorDoubles(img, leaves, g, i + 1, 2.0 * Mean(Pixels(img, leaves[g[i]].view)));
    } else {
      var mean1 := Mean(Pixels(img, leaves[g[i]].view));
      assert AliasedAccumulator(img, leaves, g, i + 1, mean1 + mean1) == mean1 + mean1;
    }
  }

  /** `merge_nodes` as written: a lone member keeps its own mean, but a
      group of n >= 2 members gets 2/n times the mean of its last member,
      whatever the other members hold. */
  lemma GroupValueAsWrittenIsDoubledLast(img: Image, leaves: seq<Node>, g: seq<nat>, d: Depth)
    requires ViewsIn(img, leaves) && d.Valid() && |g| > 0
    requires forall k | 0 <= k < |g| :: g[k] < |leaves|
    ensures |g| == 1 ==> GroupValueAsWritten(img, leaves, g, d) == GroupValue(img, leaves, g, d)
    ensures |g| >= 2 ==>
              var last := Mean(Pixels(img, leaves[g[|g| - 1]].view));
              GroupValueAsWritten(img, leaves, g, d) == SaturateRound(2.0 * last / |g| as real, d)
  {
    var mean0 := Mean(Pixels(img, leaves[g[0]].view));
    if |g| == 1 {
      assert AliasedAccumulator(img, leaves, g, 0, 0.0) == mean0;
      assert SumOfMeans(img, leaves, g) == mean0 + SumOfMeans(img, leaves, g[1..]);
    } else {
      AliasedAccumulatorDoubles(img, leaves, g, 1, mean0);
    }
  }

  /** As written, a group of n >= 2 members that all have mean mu is
      written with 2 mu / n rather than mu: only a group whose means are
      all 0 keeps its common mean. */
  lemma GroupValueAsWrittenOfEqualMeans(img: Image, leaves: seq<Node>, g: seq<nat>, d: Depth, mu: real)
    requires ViewsIn(img, leaves) && d.Valid() && |g| >= 2
    requires forall k | 0 <= k < |g| :: g[k] < |leaves|
    requires forall k | 0 <= k < |g| :: Mean(Pixels(img, leaves[g[k]].view)) == mu
    ensures GroupValueAsWritten(img, leaves, g, d) == SaturateRound(2.0 * mu / |g| as real, d)
  {
    GroupValueAsWrittenIsDoubledLast(img, leaves, g, d);
    assert Mean(Pixels(img, leaves[g[|g| - 1]].view)) == mu;
  }

  /** Where `merge_nodes` accumulates the members' means: in the buffer
      each member's own mean is read into, as the code is written, or in a
      running sum of its own, as the code evidently intends. */
  datatype Accumulation = Shared | Separate

  /** The value `merge_nodes` writes into group g when it accumulates as
      acc says. Either way a lone member is written back with its own mean,
      rounded and saturated: the two differ only on groups of two or more. */
  function MergeValue(acc: Accumulation, img: Image, leaves: seq<Node>, g: seq<nat>, d: Depth): (x: int)
    requires ViewsIn(img, leaves) && d.Valid() && |g| > 0
    requires forall k | 0 <= k < |g| :: g[k] < |leaves|
    ensures d.Holds(x)
    ensures |g| == 1 ==> x == SaturateRound(Mean(Pixels(img, leaves[g[0]].view)), d)
  {
    LoneGroupValue(img, leaves, g, d);
    match acc
    case Shared => GroupValueAsWritten(img, leaves, g, d)
    case Separate => GroupValue(img, leaves, g, d)
  }

  /** A lone member is written back with its own mean either way. */
  lemma LoneGroupValue(img: Image, leaves: seq<Node>, g: seq<nat>, d: Depth)
    requires ViewsIn(img, leaves) && d.Valid() && |g| > 0
    requires forall k | 0 <= k < |g| :: g[k] < |leaves|
    ensures |g| == 1 ==> GroupValue(img, leaves, g, d) == SaturateRound(Mean(Pixels(img, leaves[g[0]].view)), d)
    ensures |g| == 1 ==> GroupValueAsWritten(img, leaves, g, d) == GroupValue(img, leaves, g, d)
  {
    GroupValueAsWrittenIsDoubledLast(img, leaves, g, d);
    if |g| == 1 {
      assert SumOfMeans(img, leaves, g) == Mean(Pixels(img, leaves[g[0]].view)) + SumOfMeans(img, leaves, g[1..]);
      assert SumOfMeans(img, leaves, g) / |g| as real == Mean(Pixels(img, leaves[g[0]].view));
    }
  }

  /** The shared buffer reads only the members' own views. */
  lemma {:induction false} AliasedAccumulatorAgree(a: Image, b: Image, leaves: seq<Node>, g: seq<nat>, i: nat, buf: real)
    requires ViewsIn(a, leaves) && ViewsIn(b, leaves) && i <= |g|
    requires forall k | 0 <= k < |g| :: g[k] < |leaves|
    requires forall k, r, c | 0 <= k < |g| && leaves[g[k]].view.Contains(r, c) :: a[r][c] == b[r][c]
    ensures AliasedAccumulator(a, leaves, g, i, buf) == AliasedAccumulator(b, leaves, g, i, buf)
    decreases |g| - i
  {
    if i < |g| {
      PixelsAgree(a, b, leaves[g[i]].view);
      var mean1 := Mean(Pixels(a, leaves[g[i]].view));
      AliasedAccumulatorAgree(a, b, leaves, g, i + 1, if i == 0 then mean1 else mean1 + mean1);
    }
  }

  /** A group's value, accumulated either way, reads only its members' own
      views: two images that agree there give the group the same value. */
  lemma MergeValueAgree(acc: Accumulation, a: Image, b: Image, leaves: seq<Node>, g: seq<nat>, d: Depth)
    requires ViewsIn(a, leaves) && ViewsIn(b, leaves) && d.Valid() && |g| > 0
    requires forall k | 0 <= k < |g| :: g[k] < |leaves|
    requires forall k, r, c | 0 <= k < |g| && leaves[g[k]].view.Contains(r, c) :: a[r][c] == b[r][c]
    ensures MergeValue(acc, a, leaves, g, d) == MergeValue(acc, b, leaves, g, d)
  {
    SumOfMeansAgree(a, b, leaves, g);
    AliasedAccumulatorAgree(a, b, leaves, g, 0, 0.0);
  }

  /** The fill loop of `merge_nodes`: x into every member's view. */
  function FillMembers(img: Image, leaves: seq<Node>, g: seq<nat>, x: int): (r: Image)
    requires IsGrid(img) && ViewsIn(img, leaves)
    requires forall k | 0 <= k < |g| :: g[k] < |leaves|
    ensures SameShape(img, r)
    ensures forall i, c | InImage(img, i, c) :: r[i][c] == if Covers(leaves, g, i, c) then x else img[i][c]
    decreases |g|
  {
    if |g| == 0 then img
    else
      var img1 := Fill(img, leaves[g[0]].view, x);
      var r := FillMembers(img1, leaves, g[1..], x);
      assert forall i, c | InImage(img, i, c) ::
               Covers(leaves, g, i, c) <==> leaves[g[0]].view.Contains(i, c) || Covers(leaves, g[1..], i, c) by {
        forall i, c | InImage(img, i, c) && Covers(leaves, g, i, c) && !leaves[g[0]].view.Contains(i, c)
          ensures Covers(leaves, g[1..], i, c)
        {
          var k :| 0 <= k < |g| && leaves[g[k]].view.Contains(i, c);
          assert g[1..][k - 1] == g[k];
        }
        forall i, c | Covers(leaves, g[1..], i, c)
          ensures Covers(leaves, g, i, c)
        {
          var k :| 0 <= k < |g[1..]| && leaves[g[1..][k]].view.Contains(i, c);
          assert g[k + 1] == g[1..][k];
        }
      }
      r
  }

  /** `merge_nodes`: one value for the whole group, accumulated as acc
      says. */
  function MergeNodes(acc: Accumulation, img: Image, leaves: seq<Node>, g: seq<nat>, d: Depth): (r: Image)
    requires IsGrid(img) && ViewsIn(img, leaves) && d.Valid() && |g| > 0
    requires forall k | 0 <= k < |g| :: g[k] < |leaves|
    ensures SameShape(img, r)
    ensures forall i, c | InImage(img, i, c) ::
              r[i][c] == if Covers(leaves, g, i, c) then MergeValue(acc, img, leaves, g, d) else img[i][c]
  {
    FillMembers(img, leaves, g, MergeValue(acc, img, leaves, g, d))
  }

  /** The final loop of `merge_image_parts`: merge the groups in the order
      they were opened. */
  function MergeGroups(acc: Accumulation, img: Image, leaves: seq<Node>, G: seq<seq<nat>>, d: Depth): (r: Image)
    requires IsGrid(img) && ViewsIn(img, leaves) && d.Valid() && MembersBelow(G, |leaves|)
    requires forall j | 0 <= j < |G| :: |G[j]| > 0
    ensures SameShape(img, r)
    ensures InRangeOn(img, Whole(img), d) ==> InRangeOn(r, Whole(img), d)
    decreases |G|
  {
    if |G| == 0 then img
    else
      var img1 := MergeNodes(acc, img, leaves, G[0], d);
      assert ViewsIn(img1, leaves);
      MergeGroups(acc, img1, leaves, G[1..], d)
  }

  /** Distinct candidates have disjoint views. */
  ghost predicate LeavesDisjoint(leaves: seq<Node>) {
    forall m1, m2 | 0 <= m1 < |leaves| && 0 <= m2 < |leaves| && m1 != m2 ::
      Disjoint(leaves[m1].view, leaves[m2].view)
  }

  /** Some member of some group covers sample (i, c). */
  ghost predicate CoveredByAny(leaves: seq<Node>, G: seq<seq<nat>>, i: int, c: int)
    requires MembersBelow(G, |leaves|)
  {
    exists j :: 0 <= j < |G| && Covers(leaves, G[j], i, c)
  }

  /** Every sample of a member of group G[j] in r holds G[j]'s value as
      computed on img, accumulated as acc says. */
  ghost predicate HoldsGroupValues(acc: Accumulation, img: Image, r: Image, leaves: seq<Node>, G: seq<seq<nat>>, d: Depth)
    requires ViewsIn(img, leaves) && d.Valid() && MembersBelow(G, |leaves|)
    requires forall j | 0 <= j < |G| :: |G[j]| > 0
  {
    && SameShape(img, r)
    && forall j, k, i, c | 0 <= j < |G| && 0 <= k < |G[j]| && InImage(img, i, c) && leaves[G[j][k]].view.Contains(i, c) ::
         r[i][c] == MergeValue(acc, img, leaves, G[j], d)
  }

  /** Samples no group covers are the same in img and r. */
  ghost predicate KeepsUncovered(img: Image, r: Image, leaves: seq<Node>, G: seq<seq<nat>>)
    requires MembersBelow(G, |leaves|)
  {
    && SameShape(img, r)
    && forall i, c | InImage(img, i, c) && !CoveredByAny(leaves, G, i, c) :: r[i][c] == img[i][c]
  }

  /** The first group's members and the later groups' members share no
      sample. */
  lemma FirstGroupApart(leaves: seq<Node>, G: seq<seq<nat>>)
    requires |G| > 0 && MembersBelow(G, |leaves|)
    requires LeavesDisjoint(leaves) && GroupsDisjoint(G)
    ensures forall k, i, c | 0 <= k < |G[0]| && leaves[G[0][k]].view.Contains(i, c) :: !CoveredByAny(leaves, G[1..], i, c)
  {
    var rest := G[1..];
    forall k, i, c, j | 0 <= k < |G[0]| && leaves[G[0][k]].view.Contains(i, c) && 0 <= j < |rest|
      ensures !Covers(leaves, rest[j], i, c)
    {
      forall k' | 0 <= k' < |rest[j]|
        ensures !leaves[rest[j][k']].view.Contains(i, c)
      {
        assert rest[j] == G[j + 1];
        assert G[0][k] in G[0];
        assert G[0][k] != rest[j][k'];
        assert Disjoint(leaves[G[0][k]].view, leaves[rest[j][k']].view);
      }
    }
  }

  /** A later group's members share no sample with the first group. */
  lemma LaterGroupsApart(leaves: seq<Node>, G: seq<seq<nat>>)
    requires |G| > 0 && MembersBelow(G, |leaves|)
    requires LeavesDisjoint(leaves) && GroupsDisjoint(G)
    ensures forall j, k, i, c | 1 <= j < |G| && 0 <= k < |G[j]| && leaves[G[j][k]].view.Contains(i, c) ::
              !Covers(leaves, G[0], i, c)
  {
    forall j, k, i, c | 1 <= j < |G| && 0 <= k < |G[j]| && leaves[G[j][k]].view.Contains(i, c)
      ensures !Covers(leaves, G[0], i, c)
    {
      forall k' | 0 <= k' < |G[0]|
        ensures !leaves[G[0][k']].view.Contains(i, c)
      {
        assert G[0][k'] in G[0];
        assert G[0][k'] != G[j][k];
        assert Disjoint(leaves[G[0][k']].view, leaves[G[j][k]].view);
      }
    }
  }

  /** With disjoint candidates, every sample of a group member ends up
      holding its group's value, and samples no member covers keep theirs:
      a group's write never disturbs another group's means. */
  lemma {:induction false} MergeGroupsValues(acc: Accumulation, img: Image, leaves: seq<Node>, G: seq<seq<nat>>, d: Depth)
    requires IsGrid(img) && ViewsIn(img, leaves) && d.Valid() && MembersBelow(G, |leaves|)
    requires forall j | 0 <= j < |G| :: |G[j]| > 0
    requires LeavesDisjoint(leaves) && GroupsDisjoint(G)
    ensures HoldsGroupValues(acc, img, MergeGroups(acc, img, leaves, G, d), leaves, G, d)
    ensures KeepsUncovered(img, MergeGroups(acc, img, leaves, G, d), leaves, G)
    decreases |G|
  {
    if |G| > 0 {
      var img1 := MergeNodes(acc, img, leaves, G[0], d);
      var rest := G[1..];
      assert ViewsIn(img1, leaves);
      assert GroupsDisjoint(rest);
      MergeGroupsValues(acc, img1, leaves, rest, d);
      var r := MergeGroups(acc, img, leaves, G, d);
      assert r == MergeGroups(acc, img1, leaves, rest, d);
      FirstGroupApart(leaves, G);
      LaterGroupsApart(leaves, G);
      MergeFirstGroup(acc, img, img1, r, leaves, G, d);
    }
  }

  /** The inductive step of MergeGroupsValues, on the image img1 that the
      first group's merge leaves and the result r of merging the rest. */
  lemma MergeFirstGroup(acc: Accumulation, img: Image, img1: Image, r: Image, leaves: seq<Node>, G: seq<seq<nat>>, d: Depth)
    requires IsGrid(img) && ViewsIn(img, leaves) && d.Valid() && MembersBelow(G, |leaves|)
    requires forall j | 0 <= j < |G| :: |G[j]| > 0
    requires |G| > 0 && img1 == MergeNodes(acc, img, leaves, G[0], d) && ViewsIn(img1, leaves)
    requires HoldsGroupValues(acc, img1, r, leaves, G[1..], d)
    requires KeepsUncovered(img1, r, leaves, G[1..])
    requires forall k, i, c | 0 <= k < |G[0]| && leaves[G[0][k]].view.Contains(i, c) :: !CoveredByAny(leaves, G[1..], i, c)
    requires forall j, k, i, c | 1 <= j < |G| && 0 <= k < |G[j]| && leaves[G[j][k]].view.Contains(i, c) ::
               !Covers(leaves, G[0], i, c)
    ensures HoldsGroupValues(acc, img, r, leaves, G, d)
    ensures KeepsUncovered(img, r, leaves, G)
  {
    var rest := G[1..];
    var x := MergeValue(acc, img, leaves, G[0], d);
    assert forall j | 1 <= j < |G| :: rest[j - 1] == G[j];
    forall j | 1 <= j < |G|
      ensures MergeValue(acc, img1, leaves, G[j], d) == MergeValue(acc, img, leaves, G[j], d)
    {
      MergeValueAgree(acc, img1, img, leaves, G[j], d);
    }
    forall j, k, i, c | 0 <= j < |G| && 0 <= k < |G[j]| && InImage(img, i, c) && leaves[G[j][k]].view.Contains(i, c)
      ensures r[i][c] == MergeValue(acc, img, leaves, G[j], d)
    {
      if j == 0 {
        assert Covers(leaves, G[0], i, c);
        assert img1[i][c] == x;
      } else {
        assert rest[j - 1] == G[j];
      }
    }
    forall i, c | InImage(img, i, c) && !CoveredByAny(leaves, G, i, c)
      ensures r[i][c] == img[i][c]
    {
      assert !Covers(leaves, G[0], i, c);
      forall j | 0 <= j < |rest|
        ensures !Covers(leaves, rest[j], i, c)
      {
        assert rest[j] == G[j + 1];
      }
    }
  }

  // ---------------------------------------------------------------- segmenter

  /** The root node `split_and_merge` builds: the whole image, every
      coordinate 0. */
  const RootBounds: Bounds := Bounds(0, 0, 0, 0)

  /** The split of the whole image. */
  function Splitting(img: Image, t: real, d: Depth): (s: SplitResult)
    requires IsGrid(img) && 0.0 <= t && d.Valid()
    ensures SameShape(img, s.image) && InRangeOn(s.image, Whole(img), d)
  {
    SplitImage(img, Whole(img), t, RootBounds, d)
  }

  /** The candidates are disjoint views of img that together cover it. */
  ghost predicate Tiles(img: Image, leaves: seq<Node>) {
    && ViewsIn(img, leaves)
    && LeavesDisjoint(leaves)
    && forall i, c | InImage(img, i, c) :: exists m :: 0 <= m < |leaves| && leaves[m].view.Contains(i, c)
  }

  lemma RootTiles(img: Image)
    requires IsGrid(img)
    ensures Tiles(img, [Leaf(Whole(img), RootBounds)])
  {
    var leaves := [Leaf(Whole(img), RootBounds)];
    forall i, c | InImage(img, i, c)
      ensures exists m :: 0 <= m < |leaves| && leaves[m].view.Contains(i, c)
    {
      assert leaves[0].view.Contains(i, c);
    }
  }

  lemma QuadrantsTile(img: Image)
    requires IsGrid(img)
    ensures Tiles(img, QuadrantLeaves(Whole(img)))
  {
    var v := Whole(img);
    var leaves := QuadrantLeaves(v);
    QuadrantsPartition(v);
    assert forall m | 0 <= m < 4 :: leaves[m].view == Quadrants(v)[m];
    forall i, c | InImage(img, i, c)
      ensures exists m :: 0 <= m < |leaves| && leaves[m].view.Contains(i, c)
    {
      assert v.Contains(i, c);
    }
  }

  /** The merge candidates: the root alone, or its four
      quadrants; either way disjoint views that cover the image. */
  function Candidates(img: Image, t: real, d: Depth): (leaves: seq<Node>)
    requires IsGrid(img) && 0.0 <= t && d.Valid()
    ensures leaves == [Leaf(Whole(img), RootBounds)] || leaves == QuadrantLeaves(Whole(img))
    ensures Tiles(Splitting(img, t, d).image, leaves)
  {
    var s := Splitting(img, t, d);
    CollectShape(img, Whole(img), t, RootBounds, d);
    assert Whole(s.image) == Whole(img);
    RootTiles(s.image);
    QuadrantsTile(s.image);
    Collect(s.node)
  }

  /** The groups the candidates fall into. */
  function Groups(img: Image, t: real, d: Depth): (G: seq<seq<nat>>)
    requires IsGrid(img) && 0.0 <= t && d.Valid()
    ensures var leaves := Candidates(img, t, d);
            FirstFitUpTo(Homogeneities(Splitting(img, t, d).image, leaves, t), leaves, G, |leaves|)
  {
    var leaves := Candidates(img, t, d);
    Group(Homogeneities(Splitting(img, t, d).image, leaves, t), leaves)
  }

  /** The segmented image, with group values accumulated as acc says. */
  function Segment(acc: Accumulation, img: Image, t: real, d: Depth): (r: Image)
    requires IsGrid(img) && 0.0 <= t && d.Valid()
    ensures SameShape(img, r)
    ensures InRangeOn(r, Whole(img), d)
  {
    var s := Splitting(img, t, d);
    MergeGroups(acc, s.image, Candidates(img, t, d), Groups(img, t, d), d)
  }

  /** `cvlib::split_and_merge` as written: the segmented image, which in the
      source is the caller's own buffer, rewritten in place, each group
      written with the value the shared buffer leaves. */
  function SplitAndMerge(img: Image, t: real, d: Depth): (r: Image)
    requires IsGrid(img) && 0.0 <= t && d.Valid()
    ensures SameShape(img, r)
    ensures InRangeOn(r, Whole(img), d)
  {
    Segment(Shared, img, t, d)
  }

  /** `cvlib::split_and_merge` as evidently intended: each group written
      with the average of its members' means. */
  function IntendedSplitAndMerge(img: Image, t: real, d: Depth): (r: Image)
    requires IsGrid(img) && 0.0 <= t && d.Valid()
    ensures SameShape(img, r)
    ensures InRangeOn(r, Whole(img), d)
  {
    Segment(Separate, img, t, d)
  }

  /** Every sample lies in some candidate, and holds the value of that
      candidate's group. */
  lemma SegmentIsPiecewiseConstant(acc: Accumulation, img: Image, t: real, d: Depth)
    requires IsGrid(img) && 0.0 <= t && d.Valid()
    ensures var leaves, G := Candidates(img, t, d), Groups(img, t, d);
            forall i, c | InImage(img, i, c) ::
              exists j, k :: 0 <= j < |G| && 0 <= k < |G[j]| && leaves[G[j][k]].view.Contains(i, c)
    ensures HoldsGroupValues(acc, Splitting(img, t, d).image, Segment(acc, img, t, d), Candidates(img, t, d), Groups(img, t, d), d)
  {
    var s, leaves, G := Splitting(img, t, d), Candidates(img, t, d), Groups(img, t, d);
    MergeGroupsValues(acc, s.image, leaves, G, d);
    forall i, c | InImage(img, i, c)
      ensures exists j, k :: 0 <= j < |G| && 0 <= k < |G[j]| && leaves[G[j][k]].view.Contains(i, c)
    {
      var m :| 0 <= m < |leaves| && leaves[m].view.Contains(i, c);
      assert Grouped(G, m);
      var j :| 0 <= j < |G| && m in G[j];
      var k :| 0 <= k < |G[j]| && G[j][k] == m;
    }
  }

  /** The code as written and as intended segment alike wherever a
      candidate is alone in its group: both write back that candidate's own
      mean. */
  lemma LoneGroupsAgree(img: Image, t: real, d: Depth)
    requires IsGrid(img) && 0.0 <= t && d.Valid()
    ensures var leaves, G := Candidates(img, t, d), Groups(img, t, d);
            forall j, i, c | 0 <= j < |G| && |G[j]| == 1 && G[j][0] < |leaves| && InImage(img, i, c) && leaves[G[j][0]].view.Contains(i, c) ::
              SplitAndMerge(img, t, d)[i][c] == IntendedSplitAndMerge(img, t, d)[i][c]
  {
    SegmentIsPiecewiseConstant(Shared, img, t, d);
    SegmentIsPiecewiseConstant(Separate, img, t, d);
    LoneGroupsAgreeOn(Splitting(img, t, d).image, SplitAndMerge(img, t, d), IntendedSplitAndMerge(img, t, d),
                      Candidates(img, t, d), Groups(img, t, d), d);
  }

  /** Two images filled group by group, one each way, agree on the views
      of the groups with a single member. */
  lemma LoneGroupsAgreeOn(s: Image, r1: Image, r2: Image, leaves: seq<Node>, G: seq<seq<nat>>, d: Depth)
    requires ViewsIn(s, leaves) && d.Valid() && MembersBelow(G, |leaves|)
    requires forall j | 0 <= j < |G| :: |G[j]| > 0
    requires HoldsGroupValues(Shared, s, r1, leaves, G, d) && HoldsGroupValues(Separate, s, r2, leaves, G, d)
    ensures forall j, i, c | 0 <= j < |G| && |G[j]| == 1 && InImage(s, i, c) && leaves[G[j][0]].view.Contains(i, c) ::
              r1[i][c] == r2[i][c]
  {
    forall j, i, c | 0 <= j < |G| && |G[j]| == 1 && InImage(s, i, c) && leaves[G[j][0]].view.Contains(i, c)
      ensures r1[i][c] == r2[i][c]
    {
      assert r1[i][c] == MergeValue(Shared, s, leaves, G[j], d);
      assert r2[i][c] == MergeValue(Separate, s, leaves, G[j], d);
    }
  }

  // ------------------------------------------------- consequences of first fit

  /** Every two distinct candidates are neighbours. */
  predicate AllNeighbours(leaves: seq<Node>) {
    forall m1, m2 | 0 <= m1 < |leaves| && 0 <= m2 < |leaves| && m1 != m2 ::
      Neighbours(leaves[m1].bounds, leaves[m2].bounds)
  }

  /** A group with a homogeneous member is headed by a homogeneous one:
      every member after the head was accepted by a homogeneous one
      before it. */
  lemma {:induction false} HomogeneousHead(hom: seq<bool>, leaves: seq<Node>, G: seq<seq<nat>>, j: nat, k: nat)
    requires |hom| == |leaves| && FirstFitUpTo(hom, leaves, G, |leaves|)
    requires j < |G| && k < |G[j]|
    requires hom[G[j][k]]
    ensures hom[G[j][0]]
    decreases k
  {
    if k > 0 {
      assert PlacedFirstFit(hom, leaves, G, j, k);
      var k' :| 0 <= k' < |G[j]| && G[j][k'] < G[j][k] && Mergeable(hom, leaves, G[j][k'], G[j][k]);
      assert Increasing(G[j]);
      HomogeneousHead(hom, leaves, G, j, k');
    }
  }

  /** When every two candidates are neighbours, as the four quadrants of a
      split are, acceptance is "both homogeneous": all homogeneous
      candidates end in one group, and every other candidate is alone in
      its own. */
  lemma FirstFitAllNeighbours(hom: seq<bool>, leaves: seq<Node>, G: seq<seq<nat>>)
    requires |hom| == |leaves| && FirstFitUpTo(hom, leaves, G, |leaves|) && AllNeighbours(leaves)
    ensures forall j, k | 0 <= j < |G| && 0 <= k < |G[j]| && !hom[G[j][k]] ::
              G[j] == [G[j][k]]
    ensures forall j1, k1, j2, k2 |
              && 0 <= j1 < |G| && 0 <= k1 < |G[j1]| && 0 <= j2 < |G| && 0 <= k2 < |G[j2]|
              && hom[G[j1][k1]] && hom[G[j2][k2]] ::
              j1 == j2
  {
    // a group of two or more has a homogeneous head
    forall j | 0 <= j < |G| && |G[j]| > 1
      ensures hom[G[j][0]]
    {
      assert PlacedFirstFit(hom, leaves, G, j, 1);
      var k' :| 0 <= k' < |G[j]| && G[j][k'] < G[j][1] && Mergeable(hom, leaves, G[j][k'], G[j][1]);
      HomogeneousHead(hom, leaves, G, j, k');
    }
    // nothing accepts a candidate that is not homogeneous, so it heads its group
    forall j, k | 0 <= j < |G| && 0 <= k < |G[j]| && !hom[G[j][k]]
      ensures G[j] == [G[j][k]]
    {
      assert !EarlierAccepts(hom, leaves, G[j], G[j][k]);
      assert PlacedFirstFit(hom, leaves, G, j, k);
      assert k == 0;
      assert |G[j]| <= 1;
    }
    // a homogeneous head accepts every later homogeneous candidate
    forall j, i | 0 <= j < |G| && G[j][0] < i < |leaves|
                  && hom[G[j][0]] && hom[i]
      ensures EarlierAccepts(hom, leaves, G[j], i)
    {
      assert Mergeable(hom, leaves, G[j][0], i);
    }
    forall j1, k1, j2, k2 |
      && 0 <= j1 < |G| && 0 <= k1 < |G[j1]| && 0 <= j2 < |G| && 0 <= k2 < |G[j2]|
      && hom[G[j1][k1]] && hom[G[j2][k2]]
      ensures j1 == j2
    {
      HomogeneousHead(hom, leaves, G, j1, k1);
      HomogeneousHead(hom, leaves, G, j2, k2);
      assert PlacedFirstFit(hom, leaves, G, j1, k1);
      assert PlacedFirstFit(hom, leaves, G, j2, k2);
      assert Increasing(G[j1]) && Increasing(G[j2]);
    }
  }

  /** The leaves lo..hi-1 in order. */
  function Range(lo: nat, hi: nat): (g: seq<nat>)
    requires lo <= hi
    ensures |g| == hi - lo && forall k | 0 <= k < |g| :: g[k] == lo + k
  {
    seq(hi - lo, k => lo + k)
  }

  /** One group per leaf lo..hi-1, in order. */
  function Singletons(lo: nat, hi: nat): (G: seq<seq<nat>>)
    requires lo <= hi
    ensures |G| == hi - lo && forall k | 0 <= k < |G| :: G[k] == [lo + k]
  {
    seq(hi - lo, k => [lo + k])
  }

  /** The first m candidates are homogeneous and the others are not. */
  ghost predicate HomogeneousPrefix(hom: seq<bool>, leaves: seq<Node>, m: nat)
    requires |hom| == |leaves| && m <= |leaves|
  {
    && (forall k | 0 <= k < m :: hom[k])
    && (forall k | m <= k < |leaves| :: !hom[k])
  }

  /** The groups of the first i of such candidates when all are neighbours:
      the homogeneous ones so far together, then each other one alone. */
  function PrefixGroups(m: nat, i: nat): (G: seq<seq<nat>>)
    ensures MembersBelow(G, i)
    ensures forall j | 0 <= j < |G| :: |G[j]| > 0
  {
    if i <= m then (if i == 0 then [] else [Range(0, i)])
    else (if m == 0 then [] else [Range(0, m)]) + Singletons(m, i)
  }

  /** One step of the grouping loop keeps to the prefix pattern. */
  lemma PrefixGroupsStep(hom: seq<bool>, leaves: seq<Node>, m: nat, i: nat)
    requires |hom| == |leaves| && AllNeighbours(leaves) && m <= |leaves| && i < |leaves|
    requires HomogeneousPrefix(hom, leaves, m)
    ensures GroupFrom(hom, leaves, i, PrefixGroups(m, i)) == GroupFrom(hom, leaves, i + 1, PrefixGroups(m, i + 1))
    ensures PrefixOutcome(hom, leaves, m, i + 1) ==> PrefixOutcome(hom, leaves, m, i)
  {
    if i == 0 {
      assert Range(0, 1) == [0];
      assert Singletons(0, 1) == [[0]];
      assert [] + [[0]] == PrefixGroups(m, 1);
    } else if i < m {
      PrefixJoin(hom, leaves, m, i);
    } else {
      PrefixOpen(hom, leaves, m, i);
    }
  }

  /** A homogeneous candidate joins the group of the homogeneous ones. */
  lemma PrefixJoin(hom: seq<bool>, leaves: seq<Node>, m: nat, i: nat)
    requires |hom| == |leaves| && AllNeighbours(leaves) && m <= |leaves| && 0 < i < m
    requires HomogeneousPrefix(hom, leaves, m)
    ensures GroupFrom(hom, leaves, i, PrefixGroups(m, i)) == GroupFrom(hom, leaves, i + 1, PrefixGroups(m, i + 1))
  {
    var G := PrefixGroups(m, i);
    assert G == [Range(0, i)] && G[0][0] == 0;
    assert hom[0] && hom[i];
    assert Mergeable(hom, leaves, G[0][0], i);
    assert AnyMemberAccepts(hom, leaves, G[0], i);
    assert FirstFit(hom, leaves, G, i, 0) == Some(0);
    assert G[0] + [i] == Range(0, i + 1);
    assert G[0 := G[0] + [i]] == PrefixGroups(m, i + 1);
  }

  /** A candidate that is not homogeneous opens a group of its own. */
  lemma PrefixOpen(hom: seq<bool>, leaves: seq<Node>, m: nat, i: nat)
    requires |hom| == |leaves| && m <= i < |leaves| && 0 < i
    requires HomogeneousPrefix(hom, leaves, m)
    ensures GroupFrom(hom, leaves, i, PrefixGroups(m, i)) == GroupFrom(hom, leaves, i + 1, PrefixGroups(m, i + 1))
  {
    var G := PrefixGroups(m, i);
    assert !hom[i];
    assert FirstFit(hom, leaves, G, i, 0) == None;
    if m == 0 {
      assert G == Singletons(0, i);
      assert PrefixGroups(m, i + 1) == Singletons(0, i + 1);
      assert G + [[i]] == Singletons(0, i + 1);
    } else {
      assert G + [[i]] == [Range(0, m)] + Singletons(m, i + 1);
    }
  }

  /** Running the grouping loop from step j of the prefix pattern ends in
      the pattern for all the candidates. */
  ghost predicate PrefixOutcome(hom: seq<bool>, leaves: seq<Node>, m: nat, j: nat)
    requires |hom| == |leaves| && j <= |leaves|
  {
    GroupFrom(hom, leaves, j, PrefixGroups(m, j)) == PrefixGroups(m, |leaves|)
  }

  lemma {:induction false} GroupFromPrefix(hom: seq<bool>, leaves: seq<Node>, m: nat, i: nat)
    requires |hom| == |leaves| && AllNeighbours(leaves) && m <= |leaves| && i <= |leaves|
    requires HomogeneousPrefix(hom, leaves, m)
    ensures PrefixOutcome(hom, leaves, m, i)
    decreases |leaves| - i
  {
    if i < |leaves| {
      GroupFromPrefix(hom, leaves, m, i + 1);
      PrefixGroupsStep(hom, leaves, m, i);
    }
  }

  /** Mutual neighbours whose homogeneous ones come first are grouped as
      one group of those, followed by a group for each of the others. */
  lemma PrefixGrouping(hom: seq<bool>, leaves: seq<Node>, m: nat)
    requires |hom| == |leaves| && AllNeighbours(leaves) && m <= |leaves|
    requires HomogeneousPrefix(hom, leaves, m)
    ensures Group(hom, leaves) == PrefixGroups(m, |leaves|)
  {
    GroupFromPrefix(hom, leaves, m, 0);
    assert PrefixGroups(m, 0) == [];
  }

  // ------------------------------------------------------- whole-image results

  /** A lone candidate is a group of its own. */
  lemma SingleCandidateGroup(hom: seq<bool>, leaves: seq<Node>)
    requires |hom| == |leaves| && |leaves| == 1
    ensures Group(hom, leaves) == [[0]]
  {
    assert [] + [[0]] == [[0]];
    assert GroupFrom(hom, leaves, 0, []) == GroupFrom(hom, leaves, 1, [[0]]) == [[0]];
  }

  /** A group whose single member's view holds x throughout is worth x,
      however the merge accumulates. */
  lemma ConstantGroupValue(acc: Accumulation, img: Image, leaves: seq<Node>, m: nat, d: Depth, x: int)
    requires ViewsIn(img, leaves) && d.Valid() && d.Holds(x) && m < |leaves|
    requires leaves[m].view.Area() > 0
    requires forall i, c | leaves[m].view.Contains(i, c) :: img[i][c] == x
    ensures MergeValue(acc, img, leaves, [m], d) == x
  {
    var v := leaves[m].view;
    PixelsConstant(img, v, x);
    ConstantStats(Pixels(img, v), x);
    SaturateRoundOfSample(x, d);
  }

  /** An image that is homogeneous as a whole is never split: it is one
      candidate in one group, and every sample becomes its rounded mean,
      however the merge accumulates. */
  lemma HomogeneousImageFlattens(acc: Accumulation, img: Image, t: real, d: Depth)
    requires IsGrid(img) && 0.0 <= t && d.Valid()
    requires Homogeneous(Pixels(img, Whole(img)), t)
    ensures Candidates(img, t, d) == [Leaf(Whole(img), RootBounds)]
    ensures Groups(img, t, d) == [[0]]
    ensures forall i, c | InImage(img, i, c) ::
              Segment(acc, img, t, d)[i][c] == SaturateRound(Mean(Pixels(img, Whole(img))), d)
  {
    var v := Whole(img);
    var s := Splitting(img, t, d);
    var x := SaturateRound(Mean(Pixels(img, v)), d);
    CollectShape(img, v, t, RootBounds, d);
    var leaves := Candidates(img, t, d);
    SingleCandidateGroup(Homogeneities(s.image, leaves, t), leaves);
    SegmentIsPiecewiseConstant(acc, img, t, d);
    if v.Area() > 0 {
      assert forall i, c | v.Contains(i, c) :: s.image[i][c] == x;
      ConstantGroupValue(acc, s.image, leaves, 0, d, x);
      forall i, c | InImage(img, i, c)
        ensures Segment(acc, img, t, d)[i][c] == x
      {
        assert leaves[[0][0]].view.Contains(i, c);
      }
    }
  }

  /** A constant image is homogeneous, and writing back its mean restores
      its samples. */
  lemma ConstantImageStats(img: Image, t: real, d: Depth, x: int)
    requires IsGrid(img) && 0.0 <= t && d.Valid() && d.Holds(x)
    requires forall i, c | InImage(img, i, c) :: img[i][c] == x
    ensures Homogeneous(Pixels(img, Whole(img)), t)
    ensures forall i, c | InImage(img, i, c) :: SaturateRound(Mean(Pixels(img, Whole(img))), d) == x
  {
    var v := Whole(img);
    var px := Pixels(img, v);
    PixelsConstant(img, v, x);
    if |px| > 0 {
      ConstantStats(px, x);
      SaturateRoundOfSample(x, d);
    } else {
      PixelsAreViewSamples(img, v, x);
    }
  }

  /** A constant image of a representable value comes back unchanged, at
      any threshold, however the merge accumulates. */
  lemma ConstantImageUnchanged(acc: Accumulation, img: Image, t: real, d: Depth, x: int)
    requires IsGrid(img) && 0.0 <= t && d.Valid() && d.Holds(x)
    requires forall i, c | InImage(img, i, c) :: img[i][c] == x
    ensures Segment(acc, img, t, d) == img
  {
    ConstantImageStats(img, t, d, x);
    HomogeneousImageFlattens(acc, img, t, d);
    SameSamples(Segment(acc, img, t, d), img);
  }

  /** An image that is not homogeneous as a whole is merged from its four
      quadrants: the homogeneous ones are averaged together, and every
      other quadrant keeps a group to itself. */
  lemma QuadrantGrouping(img: Image, t: real, d: Depth)
    requires IsGrid(img) && 0.0 <= t && d.Valid()
    requires !Homogeneous(Pixels(img, Whole(img)), t)
    ensures Candidates(img, t, d) == QuadrantLeaves(Whole(img))
    ensures var leaves, G := Candidates(img, t, d), Groups(img, t, d);
            var hom := Homogeneities(Splitting(img, t, d).image, leaves, t);
            forall j, k | 0 <= j < |G| && 0 <= k < |G[j]| && !hom[G[j][k]] :: G[j] == [G[j][k]]
    ensures var leaves, G := Candidates(img, t, d), Groups(img, t, d);
            var hom := Homogeneities(Splitting(img, t, d).image, leaves, t);
            forall j1, k1, j2, k2 |
              && 0 <= j1 < |G| && 0 <= k1 < |G[j1]| && 0 <= j2 < |G| && 0 <= k2 < |G[j2]|
              && hom[G[j1][k1]] && hom[G[j2][k2]] ::
              j1 == j2
  {
    var v := Whole(img);
    CollectShape(img, v, t, RootBounds, d);
    var s, leaves, G := Splitting(img, t, d), Candidates(img, t, d), Groups(img, t, d);
    QuadrantLeavesNeighbours(v);
    FirstFitAllNeighbours(Homogeneities(s.image, leaves, t), leaves, G);
  }

  /** The quadrants of v that are homogeneous in img come first. */
  ghost predicate QuadrantPrefix(img: Image, v: Rect, t: real, m: nat)
    requires Within(img, v)
  {
    var q := Quadrants(v);
    && m <= 4
    && (forall k | 0 <= k < m :: Homogeneous(Pixels(img, q[k]), t))
    && (forall k | m <= k < 4 :: !Homogeneous(Pixels(img, q[k]), t))
  }

  /** Quadrants of at most one sample are all homogeneous. */
  lemma SmallQuadrantsHomogeneous(img: Image, v: Rect, t: real)
    requires Within(img, v) && 0.0 <= t
    requires forall k | 0 <= k < 4 :: Quadrants(v)[k].Area() <= 1
    ensures QuadrantPrefix(img, v, t, 4)
  {
    var q := Quadrants(v);
    forall k | 0 <= k < 4
      ensures Homogeneous(Pixels(img, q[k]), t)
    {
      SmallViewStats(img, q[k]);
    }
  }

  /** The value a quadrant of the whole image receives when the split
      quadrants' homogeneous ones come first: the first m are averaged
      together, each later one on its own. */
  function QuadrantValue(acc: Accumulation, s: Image, m: nat, k: nat, d: Depth): int
    requires IsGrid(s) && d.Valid() && k < 4 && m <= 4
  {
    var leaves := QuadrantLeaves(Whole(s));
    QuadrantsTile(s);
    if k < m then MergeValue(acc, s, leaves, Range(0, m), d) else MergeValue(acc, s, leaves, [k], d)
  }

  /** The groups of an image that is not homogeneous as a whole, when its
      split quadrants' homogeneous ones come first: those m together, then
      each other quadrant alone. */
  lemma QuadrantPrefixGroups(img: Image, t: real, d: Depth, m: nat)
    requires IsGrid(img) && 0.0 <= t && d.Valid()
    requires !Homogeneous(Pixels(img, Whole(img)), t)
    requires QuadrantPrefix(Splitting(img, t, d).image, Whole(img), t, m)
    ensures Candidates(img, t, d) == QuadrantLeaves(Whole(img))
    ensures Groups(img, t, d) == PrefixGroups(m, 4)
  {
    var v := Whole(img);
    var s, leaves := Splitting(img, t, d).image, Candidates(img, t, d);
    QuadrantGrouping(img, t, d);
    QuadrantLeavesNeighbours(v);
    assert Within(s, v);
    QuadrantPrefixLeaves(s, v, t, m);
    PrefixGrouping(Homogeneities(s, leaves, t), leaves, m);
  }

  lemma QuadrantPrefixLeaves(s: Image, v: Rect, t: real, m: nat)
    requires Within(s, v) && QuadrantPrefix(s, v, t, m)
    ensures ViewsIn(s, QuadrantLeaves(v)) && m <= 4
    ensures HomogeneousPrefix(Homogeneities(s, QuadrantLeaves(v), t), QuadrantLeaves(v), m)
  {
    QuadrantsPartition(v);
  }

  /** Every sample of quadrant k of s holds k's value. */
  ghost predicate HoldsQuadrantValues(acc: Accumulation, r: Image, s: Image, m: nat, d: Depth)
    requires SameShape(s, r) && d.Valid() && m <= 4
  {
    forall k, i, c | 0 <= k < 4 && Quadrants(Whole(s))[k].Contains(i, c) ::
      r[i][c] == QuadrantValue(acc, s, m, k, d)
  }

  /** When every quadrant's value is x, every sample is x. */
  lemma UniformQuadrantValues(acc: Accumulation, r: Image, s: Image, m: nat, d: Depth, x: int)
    requires SameShape(s, r) && d.Valid() && m <= 4
    requires HoldsQuadrantValues(acc, r, s, m, d)
    requires forall k | 0 <= k < 4 :: QuadrantValue(acc, s, m, k, d) == x
    ensures forall i, c | InImage(s, i, c) :: r[i][c] == x
  {
    var v := Whole(s);
    QuadrantsPartition(v);
    forall i, c | InImage(s, i, c)
      ensures r[i][c] == x
    {
      assert v.Contains(i, c);
    }
  }

  /** The segmentation of an image that is not homogeneous as a whole,
      when its split quadrants' homogeneous ones come first: every sample
      of quadrant k holds the value of k's group. */
  lemma QuadrantMerge(acc: Accumulation, img: Image, t: real, d: Depth, m: nat)
    requires IsGrid(img) && 0.0 <= t && d.Valid()
    requires !Homogeneous(Pixels(img, Whole(img)), t)
    requires QuadrantPrefix(Splitting(img, t, d).image, Whole(img), t, m)
    ensures HoldsQuadrantValues(acc, Segment(acc, img, t, d), Splitting(img, t, d).image, m, d)
  {
    var s, r := Splitting(img, t, d).image, Segment(acc, img, t, d);
    assert Whole(s) == Whole(img);
    QuadrantPrefixGroups(img, t, d, m);
    SegmentIsPiecewiseConstant(acc, img, t, d);
    PrefixGroupValues(acc, s, r, m, d);
  }

  /** Group values of the prefix grouping, read quadrant by quadrant. */
  lemma PrefixGroupValues(acc: Accumulation, s: Image, r: Image, m: nat, d: Depth)
    requires IsGrid(s) && d.Valid() && m <= 4
    requires ViewsIn(s, QuadrantLeaves(Whole(s)))
    requires HoldsGroupValues(acc, s, r, QuadrantLeaves(Whole(s)), PrefixGroups(m, 4), d)
    ensures HoldsQuadrantValues(acc, r, s, m, d)
  {
    var v, G := Whole(s), PrefixGroups(m, 4);
    var leaves := QuadrantLeaves(v);
    forall k, i, c | 0 <= k < 4 && Quadrants(v)[k].Contains(i, c)
      ensures r[i][c] == QuadrantValue(acc, s, m, k, d)
    {
      assert InImage(s, i, c) && leaves[k].view.Contains(i, c);
      if k < m {
        assert G[0] == Range(0, m) && G[0][k] == k;
      } else {
        var j := if m == 0 then k else k - m + 1;
        assert G[j] == [k] && G[j][0] == k;
      }
    }
  }

  // -------------------------------------------- images of one-sample quadrants

  /** An image that fails the test as a whole while each of its quadrants
      holds at most one sample keeps its samples through the split, and all
      four quadrants pass the test. */
  lemma SampleQuadrantsSplit(img: Image, t: real, d: Depth)
    requires IsGrid(img) && 0.0 <= t && d.Valid() && InRangeOn(img, Whole(img), d)
    requires !Homogeneous(Pixels(img, Whole(img)), t)
    requires forall k | 0 <= k < 4 :: Quadrants(Whole(img))[k].Area() <= 1
    ensures Splitting(img, t, d).image == img
    ensures QuadrantPrefix(img, Whole(img), t, 4)
  {
    var v := Whole(img);
    LargeUnlessHomogeneous(img, v, t);
    SplitIntoSamplesRewritesNothing(img, v, t);
    SplitKeepsImage(img, v, t, RootBounds, d);
    SmallQuadrantsHomogeneous(img, v, t);
  }

  /** Such an image is merged as one group of its four quadrants, and every
      sample takes that group's value. */
  lemma SampleQuadrantsMerge(acc: Accumulation, img: Image, t: real, d: Depth)
    requires IsGrid(img) && 0.0 <= t && d.Valid() && InRangeOn(img, Whole(img), d)
    requires !Homogeneous(Pixels(img, Whole(img)), t)
    requires forall k | 0 <= k < 4 :: Quadrants(Whole(img))[k].Area() <= 1
    ensures Candidates(img, t, d) == QuadrantLeaves(Whole(img))
    ensures Groups(img, t, d) == [Range(0, 4)]
    ensures ViewsIn(img, QuadrantLeaves(Whole(img)))
    ensures forall i, c | InImage(img, i, c) ::
              Segment(acc, img, t, d)[i][c] == MergeValue(acc, img, QuadrantLeaves(Whole(img)), Range(0, 4), d)
  {
    SampleQuadrantsSplit(img, t, d);
    QuadrantPrefixGroups(img, t, d, 4);
    assert PrefixGroups(4, 4) == [Range(0, 4)];
    SampleQuadrantsFill(acc, img, t, d);
  }

  /** The values SampleQuadrantsMerge states, apart from the grouping. */
  lemma SampleQuadrantsFill(acc: Accumulation, img: Image, t: real, d: Depth)
    requires IsGrid(img) && 0.0 <= t && d.Valid() && InRangeOn(img, Whole(img), d)
    requires !Homogeneous(Pixels(img, Whole(img)), t)
    requires forall k | 0 <= k < 4 :: Quadrants(Whole(img))[k].Area() <= 1
    ensures ViewsIn(img, QuadrantLeaves(Whole(img)))
    ensures forall i, c | InImage(img, i, c) ::
              Segment(acc, img, t, d)[i][c] == MergeValue(acc, img, QuadrantLeaves(Whole(img)), Range(0, 4), d)
  {
    SampleQuadrantsSplit(img, t, d);
    QuadrantMerge(acc, img, t, d, 4);
    QuadrantsTile(img);
    var x := MergeValue(acc, img, QuadrantLeaves(Whole(img)), Range(0, 4), d);
    UniformQuadrantValues(acc, Segment(acc, img, t, d), img, 4, d, x);
  }

  /** The group of all four quadrants of v, read both ways. */
  lemma QuadrantGroupValues(img: Image, v: Rect, d: Depth)
    requires Within(img, v) && d.Valid()
    ensures Within(img, Quadrants(v)[3]) && ViewsIn(img, QuadrantLeaves(v))
    ensures MergeValue(Shared, img, QuadrantLeaves(v), Range(0, 4), d) == SaturateRound(2.0 * Mean(Pixels(img, Quadrants(v)[3])) / 4.0, d)
    ensures MergeValue(Separate, img, QuadrantLeaves(v), Range(0, 4), d) == SaturateRound(SumOfMeans(img, QuadrantLeaves(v), Range(0, 4)) / 4.0, d)
  {
    var leaves, g := QuadrantLeaves(v), Range(0, 4);
    assert ViewsIn(img, leaves);
    LastOfFour(img, leaves, g, d);
  }

  /** As written, a group of four is worth half its last member's mean. */
  lemma LastOfFour(img: Image, leaves: seq<Node>, g: seq<nat>, d: Depth)
    requires ViewsIn(img, leaves) && d.Valid() && |g| == 4
    requires forall k | 0 <= k < 4 :: g[k] < |leaves|
    ensures MergeValue(Shared, img, leaves, g, d) == SaturateRound(2.0 * Mean(Pixels(img, leaves[g[3]].view)) / 4.0, d)
  {
    var last := Mean(Pixels(img, leaves[g[3]].view));
    GroupValueAsWrittenIsDoubledLast(img, leaves, g, d);
    assert g[|g| - 1] == g[3];
    assert GroupValueAsWritten(img, leaves, g, d) == SaturateRound(2.0 * last / |g| as real, d);
    assert |g| as real == 4.0;
    assert 2.0 * last / |g| as real == 2.0 * last / 4.0;
  }

  /** The quadrants of a two-by-two view are its four samples, in
      row-major order. */
  lemma SquareQuadrantMeans(img: Image, v: Rect)
    requires Within(img, v) && v.Rows() == 2 && v.Cols() == 2
    ensures ViewsIn(img, QuadrantLeaves(v))
    ensures forall k | 0 <= k < 4 :: QuadrantLeaves(v)[k].view.Area() == 1
    ensures SumOfMeans(img, QuadrantLeaves(v), Range(0, 4)) ==
              (img[v.top][v.left] + img[v.top][v.left + 1] + img[v.top + 1][v.left] + img[v.top + 1][v.left + 1]) as real
    ensures Mean(Pixels(img, QuadrantLeaves(v)[3].view)) == img[v.top + 1][v.left + 1] as real
  {
    var leaves := QuadrantLeaves(v);
    var g := Range(0, 4);
    assert OneSampleMembers(img, leaves, g);
    SumOfSampleMeans(img, leaves, g);
    var q := Quadrants(v);
    assert q[0].top == q[1].top == v.top && q[2].top == q[3].top == v.top + 1;
    assert q[0].left == q[2].left == v.left && q[1].left == q[3].left == v.left + 1;
    var g1, g2, g3 := g[1..], g[2..], g[3..];
    assert g1[1..] == g2 && g2[1..] == g3 && g3[1..] == [];
    assert SampleSum(img, leaves, g3) == img[v.top + 1][v.left + 1] as real;
    assert SampleSum(img, leaves, g2) == (img[v.top + 1][v.left] + img[v.top + 1][v.left + 1]) as real;
    assert SampleSum(img, leaves, g1) == (img[v.top][v.left + 1] + img[v.top + 1][v.left] + img[v.top + 1][v.left + 1]) as real;
    SampleMean(img, leaves[3].view);
  }
}
