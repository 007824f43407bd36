# cvclasses19 image-processing core in Dafny

This project models four pieces of the cvclasses19 computer-vision library
and proves properties of them:

- **Split-and-merge segmentation** (`cvlib::split_and_merge`). A view is
  homogeneous when its population standard deviation is at most the
  threshold. A homogeneous view is flattened to its mean, written back with
  round-half-even and saturation. Any other view is split into four quadrants
  and each quadrant is processed in turn. The merge candidates are then
  collected. They are grouped first-fit: a candidate joins the first group
  holding a neighbour with which both are homogeneous. Finally every group is
  written with one value, meant to be the average of its members' means.
  As `merge_nodes` is written, a group of two or more gets a different value
  (see "## Findings"). `SplitMerge.SplitAndMerge` models the code as written;
  `SplitMerge.IntendedSplitAndMerge` is the same pipeline with the average.
- **The FAST-style corner test** (`corner_detector_fast::detect` on one
  channel). A compass test counts the four pixels at distance 3 that differ
  from the centre by more than 5. A ring test measures the longest stretch of
  consecutive pixel pairs on the 16-pixel circle that are both darker or both
  brighter than the centre. Centres are scanned in row-major order.
- **The Gabor kernel size of `select_texture`**: `nearest_odd_integer` applied
  to half the shorter side of the region of interest.
- **`FramesSet::push_back`** of the motion-segmentation demo: a FIFO of at most
  `max_size` frames.

Modelling choices:

- Images are immutable values: `seq<seq<int>>` rows, with `Rect` views
  standing for OpenCV's shared sub-matrices.
- The source's in-place writes through views become function results.
- Statistics are exact `real`s.
- Pixel depths are explicit ranges: `U8` is 0..255; `S8` is -128..127, the
  depth of the tests' `cv::Mat_<char>` images.

Files:

- `pixel.dfy`: rounding and saturation.
- `grid.dfy`: images, views, statistics and fill.
- `split_merge.dfy`: the segmenter.
- `split_merge_examples.dfy`: the unit-test images of the segmenter.
- `corner.dfy` and `corner_examples.dfy`: the corner detector and its
  unit-test images.
- `texture.dfy`: the kernel size.
- `frames.dfy`: the frame buffer.

Behaviour of the code worth knowing when reading its unit tests:

- A 2x2 image too spread to settle as a whole, such as `[[0, 1], [2, 3]]`
  at threshold 1 (variance 1.25), does not come back unchanged. It splits
  into four one-sample quadrants, which all group together, and every sample
  becomes the group's value: 2 for that image, both as written
  (round(2·3/4)) and as intended (round(1.5)).
  `SplitMerge.SampleQuadrantsMerge` and `SplitMerge.QuadrantGroupValues`
  establish this for every 2x2 image that splits.
- `cv::Mat res = image;` shares the caller's buffer, so each test section's
  second call segments the first call's output, not the original image, and
  its check `image - res` compares a buffer with itself: it holds whatever
  the segmenter writes.

## Model

| member | source | states |
|---|---|---|
| Pixel.SaturateRound | cvlib/src/split_and_merge.cpp:32 | The value `setTo` stores for a real statistic lies in the depth's range. It is the round-half-even of the statistic whenever that rounding is representable. |
| Pixel.RoundHalfEvenUnique | cvlib/src/split_and_merge.cpp:32 | Rounding to nearest with ties to even has exactly one answer, so any integer meeting that rule is the stored value. |
| Pixel.SaturateRoundOfSample | cvlib/src/split_and_merge.cpp:32 | Writing back a mean that is already a representable sample value stores that value exactly. |
| Pixel.RoundingTies | cvlib/tests/split_and_merge.cpp:116-121 | The reference values 41.5 → 42, 2.5 → 2, 4.5 → 4 and 25.25 → 25 are what round-half-even gives. |
| Grid.PixelsAreViewSamples | cvlib/src/split_and_merge.cpp:41-44 | A value occurs among a view's samples exactly when some pixel inside the view holds it. |
| Grid.PixelsAgree | cvlib/src/split_and_merge.cpp:28 | The statistics of a view depend only on the pixels inside it. |
| Grid.ConstantStats | cvlib/src/split_and_merge.cpp:28-30 | A non-empty view of one value x has mean x and no spread, so it is homogeneous at every non-negative threshold. |
| Grid.SmallViewStats | cvlib/src/split_and_merge.cpp:28-30 | A view of at most one sample has zero variance. |
| Grid.Fill | cvlib/src/split_and_merge.cpp:32 | `setTo` on a view writes x at every pixel inside the view and leaves every pixel outside it as it was; the shape is kept. |
| SplitMerge.Quadrants | cvlib/src/split_and_merge.cpp:38-44 | The first two quadrants get height/2 rows and the last two the rest. The first and third get width/2 columns and the others the rest. |
| SplitMerge.QuadrantsPartition | cvlib/src/split_and_merge.cpp:41-44 | The four quadrants lie inside the view, cover every pixel of it, and pairwise share no pixel. |
| SplitMerge.QuadrantsShrink | cvlib/src/split_and_merge.cpp:41-44 | Each quadrant of a view of two or more samples is strictly smaller, which makes the split terminate. A one-row or one-column view has two empty quadrants. |
| SplitMerge.LargeUnlessHomogeneous | cvlib/src/split_and_merge.cpp:28-36 | With a non-negative threshold only a view of two or more samples is split. |
| SplitMerge.NegativeThresholdNeverSettles | cvlib/src/split_and_merge.cpp:30-44 | With a negative threshold even a one-sample view fails the test, and its fourth quadrant is the view itself, so the recursion never ends. |
| SplitMerge.StoredNode | cvlib/src/split_and_merge.cpp:36-54 | The node left behind keeps its view and bounds. It is marked split exactly when its view is not homogeneous. |
| SplitMerge.SplitImage | cvlib/src/split_and_merge.cpp:24-60 | The split changes nothing outside the view and leaves every pixel in range. A homogeneous view becomes its written-back mean. |
| SplitMerge.SplitQuadrants | cvlib/src/split_and_merge.cpp:56-59 | Processing the four quadrants in turn changes nothing outside the view and leaves every pixel inside it in range. |
| SplitMerge.QuadrantWritesCover | cvlib/src/split_and_merge.cpp:56-59 | Four writes, each confined to one quadrant, together are confined to the view. |
| SplitMerge.FillUnchanged | cvlib/src/split_and_merge.cpp:32 | Filling a view with the value it already holds leaves the image as it was. |
| SplitMerge.SmallSplitKeepsImage | cvlib/src/split_and_merge.cpp:28-34 | Splitting a view of at most one in-range sample rewrites nothing. |
| SplitMerge.ConstantSplitKeepsImage | cvlib/src/split_and_merge.cpp:28-34 | Splitting a homogeneous constant view rewrites nothing. |
| SplitMerge.SplitKeepsImage | cvlib/src/split_and_merge.cpp:24-60 | When no view the split visits would be rewritten to a new value, the split returns the image unchanged. |
| SplitMerge.SplitIntoSamplesRewritesNothing | cvlib/src/split_and_merge.cpp:41-59 | A view whose quadrants hold at most one sample each is split without rewriting anything. |
| SplitMerge.CollectShape | cvlib/src/split_and_merge.cpp:86-98 | The collected candidates are the root alone when the image is homogeneous. Otherwise they are exactly the four top-level quadrants, because stored children are copies never marked split. |
| SplitMerge.CollectUnsplit | cvlib/src/split_and_merge.cpp:86-92 | Collecting nodes none of which is split gives those nodes in order. |
| SplitMerge.NeighboursSymmetric | cvlib/src/split_and_merge.cpp:100-103 | The neighbour test holds of (a, b) exactly when it holds of (b, a). |
| SplitMerge.QuadrantsAreNeighbours | cvlib/src/split_and_merge.cpp:100-103 | Any two distinct quadrants, with the coordinates the source records, pass the neighbour test. |
| SplitMerge.QuadrantLeavesNeighbours | cvlib/src/split_and_merge.cpp:46-49 | Every pair of distinct collected quadrants is a neighbour pair. |
| SplitMerge.MergeableIsCanBeMerged | cvlib/src/split_and_merge.cpp:105-114 | Computing homogeneity once per candidate decides `can_be_merge` exactly: both homogeneous and neighbours. |
| SplitMerge.AnyMemberAccepts | cvlib/src/split_and_merge.cpp:133-142 | Scanning a group answers yes exactly when some member of it can be merged with the candidate. |
| SplitMerge.FirstFit | cvlib/src/split_and_merge.cpp:131-145 | The group found accepts the candidate, and no earlier group does. None means no group from the start index on accepts it. |
| SplitMerge.Group | cvlib/src/split_and_merge.cpp:116-148 | The groups partition the candidates. Each candidate sits in the first group that accepted it when it was placed, or opened a new group when none did. |
| SplitMerge.GroupFromFirstFit | cvlib/src/split_and_merge.cpp:121-148 | Continuing the grouping from any state that is first-fit so far ends in a first-fit grouping of all candidates. |
| SplitMerge.OpenGroup | cvlib/src/split_and_merge.cpp:146-147 | A candidate that no group accepts opens a new singleton group, and the grouping stays first-fit. |
| SplitMerge.JoinGroup | cvlib/src/split_and_merge.cpp:136-140 | A candidate joining the first accepting group keeps the grouping first-fit. |
| SplitMerge.PartitionOpen | cvlib/src/split_and_merge.cpp:146-147 | Opening a group for the next candidate keeps the groups a partition. |
| SplitMerge.PartitionJoin | cvlib/src/split_and_merge.cpp:138 | Appending the next candidate to an existing group keeps the groups a partition. |
| SplitMerge.FirstFitAllNeighbours | cvlib/src/split_and_merge.cpp:116-148 | When all candidates are neighbours, a non-homogeneous candidate is alone in its group and all homogeneous candidates share one group. |
| SplitMerge.PrefixGrouping | cvlib/src/split_and_merge.cpp:121-148 | When all candidates are neighbours and exactly the first m are homogeneous, the groups are [0..m) followed by singletons. |
| SplitMerge.SingleCandidateGroup | cvlib/src/split_and_merge.cpp:123-127 | A single candidate forms a single group. |
| SplitMerge.GroupValue | cvlib/src/split_and_merge.cpp:62-84 | The value written for a group, the evident intent of `merge_nodes`, is representable in the depth. |
| SplitMerge.SumOfEqualMeans | cvlib/src/split_and_merge.cpp:67-76 | When every member's mean is mu, the accumulated means total n·mu. |
| SplitMerge.SumOfSampleMeans | cvlib/src/split_and_merge.cpp:67-76 | For one-sample members, the accumulated means are the sum of their samples. |
| SplitMerge.GroupValueOfEqualMeans | cvlib/src/split_and_merge.cpp:62-84 | When every member has mean mu, the group is written with mu rounded and saturated. |
| SplitMerge.ConstantGroupValue | cvlib/src/split_and_merge.cpp:62-84 | A one-member group over a non-empty view of one in-range value x is written with x, as written and as intended. |
| SplitMerge.GroupValueAsWritten | cvlib/src/split_and_merge.cpp:62-84 | As the code is written (accumulator aliased with the per-member mean), the stored value is still within the depth. |
| SplitMerge.AliasedAccumulatorDoubles | cvlib/src/split_and_merge.cpp:64-76 | Once past the first member, the aliased accumulator ends as twice the last member's mean, whatever came before. |
| SplitMerge.GroupValueAsWrittenIsDoubledLast | cvlib/src/split_and_merge.cpp:62-84 | As written, a one-member group gets its mean. A group of n ≥ 2 gets 2·(last member's mean)/n, not the average. |
| SplitMerge.GroupValueAsWrittenOfEqualMeans | cvlib/src/split_and_merge.cpp:62-84 | As written, a group of n ≥ 2 members all of mean mu gets 2·mu/n rather than mu, so only a group whose means are all 0 keeps its common mean. |
| SplitMerge.MergeValue | cvlib/src/split_and_merge.cpp:62-84 | The value of a group, as written or as intended, is representable in the depth. Both readings give a lone member its own rounded mean. |
| SplitMerge.MergeValueAgree | cvlib/src/split_and_merge.cpp:67-76 | Under either reading, the value of a group depends only on the pixels inside its members' views. |
| SplitMerge.FillMembers | cvlib/src/split_and_merge.cpp:80-83 | Exactly the pixels covered by some member of the group get the value; all other pixels keep theirs. |
| SplitMerge.MergeNodes | cvlib/src/split_and_merge.cpp:62-84 | Merging one group keeps the image's shape. Every pixel covered by a member gets the group's value under the chosen reading, computed before the writes; every other pixel keeps its value. |
| SplitMerge.MergeGroups | cvlib/src/split_and_merge.cpp:150-160 | Writing the groups one after another keeps the shape and keeps every pixel in range. |
| SplitMerge.MergeGroupsValues | cvlib/src/split_and_merge.cpp:150-160 | For disjoint candidates and groups, under either reading, every pixel of a member of group j ends with group j's value, computed from the image before the merge. Every pixel covered by no group keeps its value. |
| SplitMerge.Splitting | cvlib/src/split_and_merge.cpp:169-174 | The split of the whole image keeps its shape and leaves every pixel in range. |
| SplitMerge.QuadrantsTile | cvlib/src/split_and_merge.cpp:41-44 | The four quadrants of the whole image are disjoint and cover every pixel. |
| SplitMerge.Candidates | cvlib/src/split_and_merge.cpp:172-175 | The candidates are the root or the four quadrants, and they tile the split image. |
| SplitMerge.Groups | cvlib/src/split_and_merge.cpp:176 | The groups are the first-fit grouping of the candidates by their post-split homogeneity. |
| SplitMerge.SplitAndMerge | cvlib/src/split_and_merge.cpp:166-179 | `split_and_merge` as written: the result has the input's shape, and every pixel is representable in the depth. |
| SplitMerge.IntendedSplitAndMerge | cvlib/src/split_and_merge.cpp:166-179 | The same pipeline with groups written with the average: again the input's shape and every pixel in the depth. |
| SplitMerge.SegmentIsPiecewiseConstant | cvlib/src/split_and_merge.cpp:166-179 | Every pixel lies in some member of some group. Under either reading, every pixel of a member holds its group's value, computed from the split image. |
| SplitMerge.LoneGroupsAgree | cvlib/src/split_and_merge.cpp:62-84 | The code as written and as intended give the same pixel wherever its candidate is alone in its group. |
| SplitMerge.HomogeneousImageFlattens | cvlib/src/split_and_merge.cpp:28-34 | An image homogeneous as a whole is one candidate in one group, and under either reading every pixel becomes its written-back mean. |
| SplitMerge.ConstantImageStats | cvlib/src/split_and_merge.cpp:28-34 | A constant in-range image is homogeneous and its written-back mean is its value. |
| SplitMerge.ConstantImageUnchanged | cvlib/src/split_and_merge.cpp:166-179 | A constant in-range image comes back unchanged at every non-negative threshold, as written and as intended. |
| SplitMerge.QuadrantGrouping | cvlib/src/split_and_merge.cpp:116-148 | For an image that splits, each non-homogeneous quadrant is a singleton group and all homogeneous quadrants share one group. |
| SplitMerge.SmallQuadrantsHomogeneous | cvlib/src/split_and_merge.cpp:28-34 | Quadrants of at most one sample are all homogeneous. |
| SplitMerge.QuadrantPrefixGroups | cvlib/src/split_and_merge.cpp:116-148 | When exactly the first m quadrants are homogeneous after the split, the groups are [0..m) followed by singletons. |
| SplitMerge.QuadrantMerge | cvlib/src/split_and_merge.cpp:150-160 | In that case, under either reading, every pixel of quadrant k holds the value of the group k belongs to. |
| SplitMerge.SampleQuadrantsSplit | cvlib/src/split_and_merge.cpp:24-60 | An image too spread to settle, whose quadrants are single samples, is split without any rewrite. All four quadrants are then homogeneous. |
| SplitMerge.SampleQuadrantsMerge | cvlib/src/split_and_merge.cpp:166-179 | Such an image has the four quadrants as candidates and one group, and under either reading every pixel becomes that group's value. |
| SplitMerge.QuadrantGroupValues | cvlib/src/split_and_merge.cpp:62-84 | The group of a view's four quadrants is worth, as written, round(2·(last quadrant's mean)/4), and as intended the rounded average of the four means. |
| SplitMerge.SquareQuadrantMeans | cvlib/src/split_and_merge.cpp:67-76 | In a 2x2 view the four quadrant means sum to the four samples, and the last quadrant's mean is the bottom-right sample. |
| SplitMergeExamples.HomogeneousFlattensTo | cvlib/src/split_and_merge.cpp:28-34 | An image homogeneous as a whole becomes the constant image of its written-back mean. |
| SplitMergeExamples.Flattens2x2 | cvlib/tests/split_and_merge.cpp:24-31 | A 2x2 image homogeneous at the threshold becomes constant at its rounded mean. |
| SplitMergeExamples.Simple2Flattens | cvlib/tests/split_and_merge.cpp:26-31 | `[[0, 1], [2, 3]]` becomes all 2 at every threshold from 2 on, 10 included. |
| SplitMergeExamples.Flattens3x3 | cvlib/tests/split_and_merge.cpp:40-54 | A 3x3 image homogeneous at the threshold becomes constant at its rounded mean. |
| SplitMergeExamples.Ramp3Flattens | cvlib/tests/split_and_merge.cpp:40-54 | The 3x3 ramp 0..8 becomes all 4 at every threshold from 3 on, 10 included. |
| SplitMergeExamples.Mixed2Flattens | cvlib/tests/split_and_merge.cpp:66-78 | `[[5, 7], [6, 6]]` becomes all 6 at every threshold from 1 on, 10 included. |
| SplitMergeExamples.Constant15Unchanged | cvlib/tests/split_and_merge.cpp:12-20 | The 100x100 image of 15s comes back unchanged at threshold 1, so its mean stays 15. |
| SplitMergeExamples.SquareGroupValues | cvlib/src/split_and_merge.cpp:62-84 | For the four samples of a 2x2 view: the corrected group value is their rounded average; as written it is round(2·last/4). |
| SplitMergeExamples.AliasedMergeWitness | cvlib/src/split_and_merge.cpp:64-78 | For samples 0, 0, 0, 8 the intended value is 2, but the code as written stores 4. |
| SplitMergeExamples.ConstantMembersGroupValues | cvlib/src/split_and_merge.cpp:62-84 | For four members each constant at a, b, c and e: as intended the group is worth round((a+b+c+e)/4); as written round(2·e/4), whatever a, b and c are. |
| SplitMergeExamples.Complex3SecondCallGroup | cvlib/tests/split_and_merge.cpp:103-104 | The one group of the 3x3 second call's quadrants, constant 0, 0, 0 and 25, is written as 12 by the code as written, where the average is 6. |
| SplitMergeExamples.Complex4SecondCallGroup | cvlib/tests/split_and_merge.cpp:128-129 | The one group of the 4x4 second call's blocks, constant 42, 2, 95 and 4, is written as 2 by the code as written, where the average is 36. |
| Corner.NeverBoth | cvlib/src/corner_detector.cpp:29-30 | No pixel is both darker and brighter than the centre by more than the threshold. |
| Corner.FlagsExclusive | cvlib/src/corner_detector.cpp:29-30 | No offset is flagged both darker and brighter. |
| Corner.DifferingCount | cvlib/src/corner_detector.cpp:31-35 | The compass count from offset i on is at most the number of offsets left. |
| Corner.DifferingCountExtremes | cvlib/src/corner_detector.cpp:31-35 | The compass count is 0 exactly when no pixel differs, and maximal exactly when every pixel differs. |
| Corner.RunStep | cvlib/src/corner_detector.cpp:50-52 | One loop step keeps `curr_count` the length of the stretch ending there and `count` the longest stretch so far. |
| Corner.RunLoopLongest | cvlib/src/corner_detector.cpp:46-53 | From any state meeting those invariants, the loop ends with the longest stretch of pairs. |
| Corner.LongestRunIsLongest | cvlib/src/corner_detector.cpp:44-54 | The ring count is the length of the longest stretch of consecutive pair positions in 1..2n-1. It is at most 2n-1, and 0 when no ring pixel is flagged. |
| Corner.RunIsOneKind | cvlib/src/corner_detector.cpp:48-50 | A stretch of pairs never mixes kinds: the ring pixels it covers are all darker or all brighter. |
| Corner.OneKindIsRun | cvlib/src/corner_detector.cpp:44-53 | Conversely, ring pixels lo-1..hi-1 all darker or all brighter give a stretch of pairs, so the ring count is at least hi - lo. |
| Corner.CountOfKeyPoints | cvlib/src/corner_detector.cpp:18-56 | With four offsets the count is between 0 and 4. With any other number it is non-negative, and 0 for no offsets. |
| Corner.CompassCount | cvlib/src/corner_detector.cpp:31-35 | The compass count is 0 exactly when no compass pixel differs, and 4 exactly when all do. |
| Corner.RingCount | cvlib/src/corner_detector.cpp:42-54 | The 16-pixel ring count is the longest stretch of pairs, at most 31, with flags that never overlap. |
| Corner.QuietRing | cvlib/src/corner_detector.cpp:42-54 | With no ring pixel beyond the threshold the ring count is 0. |
| Corner.ScanReaches | cvlib/src/corner_detector.cpp:85-88 | Every compass and ring pixel of a scanned centre lies in the image. |
| Corner.CornerTestAt | cvlib/src/corner_detector.cpp:90-92 | A scanned centre is accepted exactly when its compass count is at least 3 and its ring count at least 5. |
| Corner.ScanRow | cvlib/src/corner_detector.cpp:87-93 | The key points of one row are accepted centres of that row, of size 3, strictly left to right. Every accepted centre of the row from the start column on is among them. |
| Corner.ScanFrom | cvlib/src/corner_detector.cpp:85-94 | The key points from a row on are accepted centres at or below it, in strict row-major order. Every accepted centre there is among them. |
| Corner.Corners | cvlib/src/corner_detector.cpp:85-94 | The key points are exactly the scanned centres that pass both tests, each of size 3, in strict row-major order. |
| Corner.DetectRow | cvlib/src/corner_detector.cpp:87-93 | The inner loop appends exactly the row's accepted centres, left to right. |
| Corner.Detect | cvlib/src/corner_detector.cpp:67-95 | `detect` clears its output and returns exactly the corners, in scan order. |
| Corner.NarrowScanEmpty | cvlib/src/corner_detector.cpp:87 | In an image narrower than 7 no row has a centre to examine. |
| Corner.SmallImageNoCorners | cvlib/src/corner_detector.cpp:85-87 | An image with fewer than 7 rows or columns has no corners. |
| Corner.ConstantNotCorner | cvlib/src/corner_detector.cpp:90 | In a one-valued image no centre passes the compass test. |
| Corner.ConstantImageNoCorners | cvlib/src/corner_detector.cpp:85-94 | A one-valued image has no corners. |
| Corner.SingleCentre | cvlib/src/corner_detector.cpp:85-94 | A 7x7 image has the single centre (3, 3), reported exactly when it passes both tests. |
| Corner.CompassAtLeastThree | cvlib/src/corner_detector.cpp:90 | Every compass pixel but one differing gives a compass count of at least 3. |
| Corner.RingAtLeastFive | cvlib/src/corner_detector.cpp:91 | Six consecutive ring pixels all darker or all brighter give a ring count of at least 5. |
| Corner.CornerWhen | cvlib/src/corner_detector.cpp:90-92 | Those two conditions together make a scanned centre a corner. |
| CornerExamples.BlankHasNoCorners | cvlib/tests/corner_detector.cpp:15-22 | The 10x10 zero image has no key points. |
| CornerExamples.SolidHasNoCorners | cvlib/tests/corner_detector.cpp:25-31 | The 3x3 image of 127 has no key points. |
| CornerExamples.AngleDownTip | cvlib/tests/corner_detector.cpp:35-42 | The tip (3, 3) of the "angle (down)" wedge passes both tests. |
| CornerExamples.AngleDownCorner | cvlib/tests/corner_detector.cpp:33-48 | The "angle (down)" image has the single key point (3, 3) of size 3. |
| CornerExamples.AngleDownWideTip | cvlib/tests/corner_detector.cpp:52-59 | The tip (3, 3) of the "angle (down1)" wedge passes both tests. |
| CornerExamples.AngleDownWideCorner | cvlib/tests/corner_detector.cpp:50-65 | The "angle (down1)" image has the single key point (3, 3) of size 3. |
| CornerExamples.AngleLeftTip | cvlib/tests/corner_detector.cpp:69-76 | The tip (3, 3) of the "angle (left)" wedge passes both tests. |
| CornerExamples.AngleLeftCorner | cvlib/tests/corner_detector.cpp:67-82 | The "angle (left)" image has the single key point (3, 3) of size 3. |
| CornerExamples.AngleUpTip | cvlib/tests/corner_detector.cpp:86-93 | The tip (3, 3) of the "angle (up)" wedge passes both tests. |
| CornerExamples.AngleUpCorner | cvlib/tests/corner_detector.cpp:84-99 | The "angle (up)" image has the single key point (3, 3) of size 3. |
| Texture.Truncate | cvlib/src/select_texture.cpp:93 | The conversion to `int` rounds toward zero: for v ≥ 0 it is the largest integer not above v, and for v ≤ 0 the smallest not below it. |
| Texture.NearestOddInteger | cvlib/src/select_texture.cpp:74-98 | The result is odd and lies in (INT_MIN, INT_MAX]. Inputs at or above INT_MAX give INT_MAX; inputs at or below INT_MIN give INT_MIN + 1. |
| Texture.NearestOddWindow | cvlib/src/select_texture.cpp:93-95 | For 0 ≤ v < INT_MAX the result r satisfies r - 1 ≤ v < r + 1, and r is trunc(v) or trunc(v) + 1. |
| Texture.NearestOddUnique | cvlib/src/select_texture.cpp:86-97 | For 0 ≤ v < INT_MAX, any odd n with n - 1 ≤ v < n + 1 is the result. |
| Texture.NearestOddSymmetric | cvlib/src/select_texture.cpp:86-97 | For every v other than 0, the answer to -v is minus the answer to v, clamps included. |
| Texture.Quotient | cvlib/src/select_texture.cpp:107 | C++ integer division by a positive divisor rounds toward zero. |
| Texture.KernelSize | cvlib/src/select_texture.cpp:107 | The kernel size is odd for every pair of 32-bit sides. |
| Texture.KernelSizeOfSides | cvlib/src/select_texture.cpp:107 | For non-negative sides the kernel size is the least odd integer not below half the shorter side, and so at least 1. |
| Frames.Empty | demo/demo_motion_segmentation.cpp:16-18 | A new buffer holds no frames and keeps its capacity. With capacity at least 1 it is in the state every push keeps. |
| Frames.PushBack | demo/demo_motion_segmentation.cpp:20-25 | The new frame becomes the last one. The front frame is dropped only when the buffer was full; otherwise the older frames stay as they were. A valid buffer stays valid, never above capacity. |
| Frames.PushAll | demo/demo_motion_segmentation.cpp:20-25 | Any run of pushes keeps the buffer valid and its capacity unchanged. |
| Frames.PushBackHistory | demo/demo_motion_segmentation.cpp:20-25 | A buffer holding the last max_size frames of its history still does so after one more push. |
| Frames.PushAllHistory | demo/demo_motion_segmentation.cpp:20-25 | After any run of pushes the buffer holds the last max_size frames of everything it has seen, in push order. |
| Frames.PushesKeepLast | demo/demo_motion_segmentation.cpp:20-25 | Starting empty, k pushes leave the last min(k, max_size) frames, in push order. |
| Frames.FillBuffer | demo/demo_motion_segmentation.cpp:43-50 | The fill loop leaves a valid buffer of capacity 20 holding exactly the 20 captured frames, in capture order. |

## Left out

- OpenCV's `meanStdDev` in floating point: statistics are exact reals. At an exact tie between the standard deviation and the threshold, the double computation may decide otherwise.
- `meanStdDev` on an empty view: its result is not visible in the library. An empty view is taken to have mean 0 and variance 0, so it is homogeneous, its fill is a no-op, and its mean 0 still enters its group's average.
- SplitMerge.SplitImage: requires a non-negative threshold. With a negative one the code recurses forever on a one-sample view, as `NegativeThresholdNeverSettles` shows.
- The aliasing of `res` with the input: `split_and_merge` returns, and writes into, the caller's buffer. The model returns a new image, so it states nothing about the tests' second-call checks, which compare a buffer with itself.
- The grouping's repeated `meanStdDev` calls are modelled as one homogeneity flag per candidate. This is equivalent, because the split image does not change during grouping (`MergeableIsCanBeMerged`).
- The "compex regions" 3x3 (groups {0, 1, 2} → 0 and {3} → 25) and 4x4 (42, 2, 95, 4) images are not proved end to end; on concrete images the solver runs out of resource. The ingredients are proved generically: `QuadrantPrefixGroups`, `QuadrantMerge`, `FirstFitAllNeighbours` and `RoundingTies`. Their second calls are proved at the level of the one group they form (`Complex3SecondCallGroup`, `Complex4SecondCallGroup`).
- The threshold-1 runs on `[[0, 1], [2, 3]]` and `[[0, 0], [0, 8]]` are not proved as concrete equations, for the same reason. They follow from `SampleQuadrantsMerge` with `SquareGroupValues` and `AliasedMergeWitness`, which give the group's value both ways.
- Multi-channel input and `cvtColor` in `detect`: only single-channel images are modelled. Samples are read as plain integers, as `at<uint8_t>` does on an 8-bit image.
- `corner_detector_fast::compute` and `detectAndCompute`: descriptors drawn from `std::rand` seeded by the clock.
- `corner_detector_fast::create`, and the unused mask argument of `detect`.
- `calculateDescriptor`, the Gabor filter bank, the `descriptor` norms and the sliding-window loop of `select_texture`: floating-point library numerics.
- Texture.NearestOddInteger: takes a finite real. NaN and infinities, for which the conversion to `int` is undefined, are not modelled.
- `cvlib/src/motion_segmentation.cpp`: a floating-point running average with OpenCV thresholding.
- `FramesSet::mean`: floating-point accumulation and conversion.
- Everything else in the demo: video capture, windows, trackbars and the event loop. The captured frames are a parameter of `FillBuffer`.
- Frames.PushBack: requires that a full buffer be non-empty, because `pop_front` on an empty deque (capacity 0) is undefined.

## Findings

| source | as written | input that shows it | evidently intended | confidence | as-written member | corrected member |
|---|---|---|---|---|---|---|
| cvlib/src/split_and_merge.cpp:64-78 | `mean = mean1` copies only the matrix header, so the accumulator and the per-member mean share one buffer. Each later `meanStdDev` overwrites it, and `mean += mean1` then doubles the newest mean. A group of n ≥ 2 is written with 2·(last member's mean)/n. | One group of four one-sample quadrants 0, 0, 0, 8 (the image `[[0, 0], [0, 8]]` at threshold 1, 8-bit): as written every pixel becomes 4. The second calls of the "compex regions" 3x3 and 4x4 unit tests trigger it too | the rounded average of the members' means, here 2 | medium, not executed (rests on `meanStdDev` reusing an output matrix of the right size) | SplitMergeExamples.AliasedMergeWitness | SplitMerge.GroupValue |

The as-written value is `SplitMerge.GroupValueAsWritten`, with the witness
`SplitMergeExamples.AliasedMergeWitness`. `SplitMerge.SplitAndMerge` and
the lemmas taken with the `Shared` reading model the code as written. The
corrected value is `SplitMerge.GroupValue`, and `SplitMerge.IntendedSplitAndMerge`
is the pipeline that uses it; `SplitMerge.LoneGroupsAgree` shows the two differ
only on groups of two or more.

The unit tests run inputs that trigger the finding, but cannot see it:

- the "compex regions" 3x3 second call segments the first call's output
  `[[0, 0, 0], [0, 25, 25], [0, 25, 25]]` at threshold 1. Its four constant
  quadrants 0, 0, 0 and 25 form one group, written as 12 (2·25/4 = 12.5, a
  tie, goes to 12) where the average gives 6
  (`SplitMergeExamples.Complex3SecondCallGroup`);
- the 4x4 second call segments the four constant blocks 42, 2, 95 and 4 of
  the first call's output. They form one group, written as 2 (2·4/4) where
  the average gives 36 (`SplitMergeExamples.Complex4SecondCallGroup`);
- both checks compare `image` with `res`, which is the same buffer, so they
  pass either way;
- in the first calls every merged group of two or more members has means
  that are all 0 (the 3x3 group {0, 1, 2} of zeros), where 2·0/n = 0 is also
  the average (`SplitMerge.GroupValueAsWrittenOfEqualMeans`).
