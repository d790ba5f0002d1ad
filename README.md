# Bookkeeping of the SURF / FLANN / RANSAC homography demo

The program (`main.cpp`) loads two images. It then hands keypoint detection,
descriptor extraction, nearest-neighbour matching, homography fitting, warping and
drawing to OpenCV. Its own logic is a short series of list-bookkeeping steps inside
`main`, and this project models those steps and proves what they compute:

- the min/max scan over the match distances, which starts from the sentinels
  `min_dist = 100` and `max_dist = 0` (`MatchFilter`);
- the good-match filter, which keeps `distance < 3 * min_dist` (`MatchFilter`);
- the `center`/`transform` point lists built through `queryIdx`/`trainIdx`
  (`Localize`);
- the walk over the estimator's inlier mask (`Localize`). Inliers go to two
  aligned lists. Outliers are reported on the console with the counter `j`, and a
  line break follows every fourth outlier;
- the synthetic identity matches `(i, i, 0)`, one per inlier (`Localize`);
- the random pruning to twenty matches for display (`Pruning`): `iota`,
  `std::shuffle`, `resize(20)`, then a lookup by index. The second prune clears
  the reused list and builds `(i, i, 0)` per index.

Shared pieces: `types.dfy` holds the values (`Point2f`, `KeyPoint`, `DMatch`, mask
bytes, `Option`). `selection.dfy` holds `Positions`/`Gather`, which keep some
elements of a sequence in order. The filter and the mask split are both stated
through them.

Each loop of `main` is a method with a `while`/`for` loop and its invariants. The
method is proved against a specification function, and the lemmas state what
those functions mean. `iota` and `std::shuffle` work in place on the index
vector, so they are methods over an `array<int>`.

Modelling choices:
- Match distances and point coordinates are `real`s. Only comparisons and the
  product `3 * min_dist` are used.
- The loops bounded by `descriptors_1.rows` run over the whole match list. The
  matcher returns one match per query descriptor row, so the two bounds are equal.
- `std::shuffle` with `std::mt19937(9)` is a front-to-back exchange pass. Step `i`
  swaps position `i` with position `rng(i) % (i + 1)`. `rng` is an arbitrary draw
  function given as a parameter, so any permutation the engine could pick is
  covered.
- Reading `matches[i]` out of range is undefined behaviour in the program. After
  `resize(20)` this happens exactly when there are no matches, and the model
  returns `None` in that case.
- The console text of the outlier report is a list of events: `Outlier(pair)` or
  `LineBreak`.

Edge cases of the code that are easy to misread:
- With `min_dist == 0` the strict test `distance < 3 * min_dist` keeps no match at
  all, not the zero-distance ones (`ZeroMinimumKeepsNothing`).
- Equal distances keep every match only when the common distance is positive and
  below 300, because of the sentinel 100 (`UniformDistancesKeepAll`,
  `FarMatchesDropped`).
- A match at the least distance d is kept exactly when 0 < d < 300. Up to 100 the threshold is 3 * d; above 100 the sentinel caps `min_dist` at 100, so the threshold is 300 (`LeastMatchKept`, `MinimumMatchKept`).
- With fewer than twenty matches, `resize(20)` does not fail. It pads with index 0,
  so match 0 is shown repeatedly. Only an empty list makes the lookup go out of
  range (`PruneIndicesShape`, `PruneForDisplay`).
- For an empty match list the scan leaves `min_dist = 100 > max_dist = 0`.
  `max_dist >= min_dist` holds only for non-empty lists (`ScanOrdered`).

## Model

| member | source | states |
|---|---|---|
| `MatchFilter.MinDistance` | main.cpp:103-111 | min_dist after the scan is at most 100, at most every distance, and either 100 or one of the distances, i.e. min(100, least distance) |
| `MatchFilter.MaxDistance` | main.cpp:103-111 | max_dist after the scan is at least 0, at least every distance, and either 0 or one of the distances, i.e. max(0, greatest distance) |
| `MatchFilter.ScanDistances` | main.cpp:103-111 | the scan loop, started from the sentinels 100 and 0, ends with exactly MinDistance and MaxDistance of the match list |
| `MatchFilter.ScanResultsUnique` | main.cpp:103-111 | the three properties of each scan result determine it: any value meeting them is the scanned minimum (maximum) |
| `MatchFilter.ScanOrdered` | main.cpp:113-114 | on a non-empty match list the printed minimum does not exceed the printed maximum |
| `MatchFilter.FilterGoodMatches` | main.cpp:117-125 | the filter loop returns exactly GoodMatches: the matches whose distance is below 3 * min_dist, gathered in order |
| `MatchFilter.GoodMatchesExact` | main.cpp:119-125 | the k-th good match is the match at the k-th passing position; positions strictly increase; a position is used iff its match passes the test (no loss, reordering or duplication) |
| `MatchFilter.GoodMatchesSound` | main.cpp:121-123 | every good match is one of the matches and its distance is below 3 * min_dist |
| `MatchFilter.ZeroMinimumKeepsNothing` | main.cpp:121 | when the scanned minimum is 0 (or below) the good-match list is empty |
| `MatchFilter.MinimumMatchKept` | main.cpp:121 | with a positive scanned minimum, every match at that minimum distance is kept |
| `MatchFilter.LeastMatchKept` | main.cpp:103-125 | a match at the least distance d is kept iff 0 < d < 300 (threshold 3 * d up to 100, capped at 300 above) |
| `MatchFilter.UniformDistancesKeepAll` | main.cpp:103-125 | when all distances equal some d with 0 < d < 300, the filter keeps the whole list |
| `MatchFilter.FarMatchesDropped` | main.cpp:103-125 | when every distance is at least 300 (three times the sentinel), nothing is kept |
| `Selection.PositionsExact` | main.cpp:145-154 | the kept positions are exactly those whose flag matches, each once, in increasing order |
| `Selection.PositionsPartition` | main.cpp:145-154 | every mask position goes to exactly one side: inliers + outliers == number of mask rows |
| `Localize.ExtractPointPairs` | main.cpp:127-131 | center and transform are as long as good_matches; entry k is the object point of good[k].queryIdx and the scene point of good[k].trainIdx |
| `Localize.GoodMatchesInRange` | main.cpp:119-131 | when every match names existing keypoints, so does every good match, so the point lookup over good_matches is defined |
| `Localize.PartitionByMask` | main.cpp:142-154 | the inlier lists are center/transform gathered at the non-zero mask positions; the report is OutlierReport of the pairs at the zero positions; j ends at 1 + number of zero entries |
| `Localize.InliersAligned` | main.cpp:150-153 | the k-th entries of both inlier lists come from the same non-zero mask position |
| `Localize.OutlierReportLayout` | main.cpp:146-149 | the report has one entry per outlier plus one break per four; the k-th outlier is at (k-1)+(k-1)/4, followed by a line break iff k % 4 == 0 |
| `Localize.OutlierReportLineBreaks` | main.cpp:142-149 | the report holds exactly (number of outliers) / 4 line breaks |
| `Localize.BuildIdentityMatches` | main.cpp:156-157 | homography_matches has one entry per inlier, entry i being (i, i, 0) |
| `Localize.IdentityMatchesPairInliers` | main.cpp:156-168 | looking the identity matches up in the converted inlier lists gives back the two inlier lists: each inlier is matched with its own partner |
| `Pruning.Iota` | main.cpp:75-76 | the index vector holds 0, 1, ..., n - 1 |
| `Pruning.Shuffle` | main.cpp:79 | the array afterwards is the exchange pass Shuffled applied to its old contents |
| `Pruning.ShuffledPermutes` | main.cpp:79 | shuffling keeps the multiset of values |
| `Pruning.ShuffledDistinct` | main.cpp:79 | shuffling a vector without repeats gives one without repeats |
| `Pruning.ShuffledIndices` | main.cpp:75-79 | n value-initialised entries, iota, shuffle: the result is Shuffled(0 .. n-1) |
| `Pruning.ShuffledIndicesPermuteRange` | main.cpp:75-79 | before the resize the index vector is a permutation of 0 .. n-1: same multiset, no repeats, every entry in 0 .. n-1 |
| `Pruning.Resized` | main.cpp:81 | resize gives exactly n entries: the old entry where there was one, 0 beyond the old length |
| `Pruning.PruneIndicesShape` | main.cpp:75-81 | the resized index vector has 20 entries: the first min(n, 20) are distinct shuffled indices, the rest 0; all are valid indices iff n >= 1 |
| `Pruning.PruneMatches` | main.cpp:83-87 | defined iff every index is in range; then entry k is matches[index[k]] |
| `Pruning.PruneForDisplay` | main.cpp:75-87 | the first pruned view exists iff there is at least one match, and then holds 20 entries, entry k being the match at the k-th resized shuffled index; the first min(n, 20) indices are all different |
| `Pruning.PruneIdentityMatches` | main.cpp:191-194 | after the clear, entry k is (index[k], index[k], 0), one per index |
| `Pruning.PruneIdentityForDisplay` | main.cpp:183-194 | the second pruned view holds 20 entries (i, i, 0), one per resized shuffled index over the inliers |
| `Pruning.SecondPruneIsLookup` | main.cpp:183-194 | with n >= 1 inliers each entry equals homography_matches at its index; with none every entry is (0, 0, 0), naming an inlier that does not exist |

## Left out

- OpenCV calls are not modelled; their results are inputs. This covers `imread`, SURF detection and description, `FlannBasedMatcher::match`, `findHomography`, `warpPerspective`, `KeyPoint::convert` (only as `ToKeyPoints`, a keypoint at each point) and `drawMatches`.
- The match list, keypoint lists and inlier mask are parameters. Their shapes are preconditions: match indices lie in the keypoint lists, and the mask is no longer than the point lists.
- The pseudo-random sequence of `std::mt19937(9)` is not modelled, nor libstdc++'s trick of taking two positions from one engine output. The draws are an arbitrary function, which covers every permutation the engine could choose but not the particular one seed 9 yields.
- Floating-point rounding of distances and coordinates is not modelled.
- The console output is not modelled: the distance `printf`s, the homography matrix and the `setprecision(0)` formatting of points. Of it, only the outlier report's pairs and line breaks are kept, as events.
- Window handling (`namedWindow`, `imshow`, `resizeWindow`, `waitKey`) and `readme` are not modelled: they are user-interface I/O.
- The argument-count and image-load checks (main.cpp:26-35) are not modelled: they are I/O guards that end the program.
- The second prune over zero inliers yields matches naming keypoint 0 of empty lists. The model states this (`SecondPruneIsLookup`), but what `drawMatches` then does is not modelled.
