/** The bookkeeping around the homography fit: turning the good matches into two
    aligned point lists, splitting them by the estimator's inlier mask (reporting
    the outliers on the console), and pairing the inliers up again as matches. */
module Localize {
  import opened Types
  import opened Selection
  import opened MatchFilter

  /** Every good match names a keypoint that exists on both sides. */
  predicate IndicesInRange(good: seq<DMatch>, kp1: seq<KeyPoint>, kp2: seq<KeyPoint>)
  {
    forall k :: 0 <= k < |good| ==>
      0 <= good[k].queryIdx < |kp1| && 0 <= good[k].trainIdx < |kp2|
  }

  /** The object-image locations of the matches. */
  function QueryPoints(good: seq<DMatch>, kp1: seq<KeyPoint>): seq<Point2f>
    requires forall k :: 0 <= k < |good| ==> 0 <= good[k].queryIdx < |kp1|
  {
    seq(|good|, k requires 0 <= k < |good| => kp1[good[k].queryIdx].pt)
  }

  /** The scene-image locations of the matches. */
  function TrainPoints(good: seq<DMatch>, kp2: seq<KeyPoint>): seq<Point2f>
    requires forall k :: 0 <= k < |good| ==> 0 <= good[k].trainIdx < |kp2|
  {
    seq(|good|, k requires 0 <= k < |good| => kp2[good[k].trainIdx].pt)
  }

  /** The loop that builds `center` and `transform` from the good matches: the two
      lists are as long as the good-match list, and position k of each holds the
      location of the k-th good match's keypoint in the object and the scene image. */
  method ExtractPointPairs(good: seq<DMatch>, kp1: seq<KeyPoint>, kp2: seq<KeyPoint>)
    returns (center: seq<Point2f>, transform: seq<Point2f>)
    requires IndicesInRange(good, kp1, kp2)
    ensures |center| == |good| && |transform| == |good|
    ensures center == QueryPoints(good, kp1) && transform == TrainPoints(good, kp2)
  {
    center, transform := [], [];
    var k := 0;
    while k < |good|
      invariant 0 <= k <= |good|
      invariant center == QueryPoints(good[..k], kp1)
      invariant transform == TrainPoints(good[..k], kp2)
    {
      center := center + [kp1[good[k].queryIdx].pt];
      transform := transform + [kp2[good[k].trainIdx].pt];
      k := k + 1;
    }
    assert good[..k] == good;
  }

  /** The filter keeps only matches of the matcher's list, so when every match
      names existing keypoints, so does every good match and the point lookup is
      defined. */
  lemma GoodMatchesInRange(ms: seq<DMatch>, minDist: real, kp1: seq<KeyPoint>, kp2: seq<KeyPoint>)
    requires IndicesInRange(ms, kp1, kp2)
    ensures IndicesInRange(GoodMatches(ms, minDist), kp1, kp2)
  {
  }

  /** An outlier as printed: its object point and its scene point. */
  datatype PointPair = PointPair(center: Point2f, transform: Point2f)

  /** What the outlier report writes to the console: one outlier pair, or a line break. */
  datatype ReportItem = Outlier(pair: PointPair) | LineBreak

  /** For each mask entry, whether it marks an inlier (any non-zero byte). */
  function InlierFlags(mask: seq<UChar>): seq<bool>
  {
    seq(|mask|, i requires 0 <= i < |mask| => mask[i] != 0)
  }

  /** The point pairs at the positions `idx` of the two aligned lists. */
  function PairsAt(center: seq<Point2f>, transform: seq<Point2f>, idx: seq<nat>): seq<PointPair>
    requires forall k :: 0 <= k < |idx| ==> idx[k] < |center| && idx[k] < |transform|
  {
    seq(|idx|, k requires 0 <= k < |idx| => PointPair(center[idx[k]], transform[idx[k]]))
  }

  /** The console report for the outliers `os`, in order: after the k-th outlier
      (counting from 1) comes a line break exactly when k is a multiple of 4. */
  function OutlierReport(os: seq<PointPair>): seq<ReportItem>
  {
    if |os| == 0 then []
    else
      OutlierReport(os[..|os| - 1]) + [Outlier(os[|os| - 1])]
        + (if |os| % 4 == 0 then [LineBreak] else [])
  }

  /** Reporting one more outlier appends its pair, and a line break when it is the
      fourth, eighth, ... outlier. */
  lemma OutlierReportSnoc(center: seq<Point2f>, transform: seq<Point2f>, idx: seq<nat>, i: nat)
    requires forall k :: 0 <= k < |idx| ==> idx[k] < |center| && idx[k] < |transform|
    requires i < |center| && i < |transform|
    ensures OutlierReport(PairsAt(center, transform, idx + [i]))
      == OutlierReport(PairsAt(center, transform, idx)) + [Outlier(PointPair(center[i], transform[i]))]
         + (if (|idx| + 1) % 4 == 0 then [LineBreak] else [])
  {
    var after := PairsAt(center, transform, idx + [i]);
    assert after[..|after| - 1] == PairsAt(center, transform, idx);
  }

  /** The loop over the mask: a zero entry is an outlier and is reported, with the
      counter j numbering the outliers from 1; any other entry is an inlier and its
      two points go to the two inlier lists. */
  method PartitionByMask(center: seq<Point2f>, transform: seq<Point2f>, mask: seq<UChar>)
    returns (inliers1: seq<Point2f>, inliers2: seq<Point2f>, report: seq<ReportItem>, j: int)
    requires |mask| <= |center| && |mask| <= |transform|
    ensures inliers1 == Gather(center, Positions(InlierFlags(mask), true))
    ensures inliers2 == Gather(transform, Positions(InlierFlags(mask), true))
    ensures report == OutlierReport(PairsAt(center, transform, Positions(InlierFlags(mask), false)))
    ensures j == 1 + |Positions(InlierFlags(mask), false)|
  {
    ghost var flags := InlierFlags(mask);
    ghost var inliers: seq<nat> := [];
    ghost var outliers: seq<nat> := [];
    inliers1, inliers2, report := [], [], [];
    j := 1;
    var i := 0;
    while i < |mask|
      invariant 0 <= i <= |mask|
      invariant inliers == Positions(flags[..i], true)
      invariant outliers == Positions(flags[..i], false)
      invariant inliers1 == Gather(center, inliers)
      invariant inliers2 == Gather(transform, inliers)
      invariant report == OutlierReport(PairsAt(center, transform, outliers))
      invariant j == 1 + |outliers|
    {
      assert flags[i] == (mask[i] != 0);
      PositionsSnoc(flags, i, true);
      PositionsSnoc(flags, i, false);
      if mask[i] == 0 {
        assert Positions(flags[..i + 1], false) == outliers + [i];
        assert Positions(flags[..i + 1], true) == inliers;
        OutlierReportSnoc(center, transform, outliers, i);
        report := report + [Outlier(PointPair(center[i], transform[i]))];
        if j % 4 == 0 {
          report := report + [LineBreak];
        }
        j := j + 1;
        outliers := outliers + [i];
      } else {
        assert Positions(flags[..i + 1], false) == outliers;
        assert Positions(flags[..i + 1], true) == inliers + [i];
        GatherSnoc(center, inliers, i);
        GatherSnoc(transform, inliers, i);
        inliers1 := inliers1 + [center[i]];
        inliers2 := inliers2 + [transform[i]];
        inliers := inliers + [i];
      }
      i := i + 1;
    }
    assert flags[..i] == flags;
  }

  /** The two inlier lists stay aligned: the k-th entries of both come from the same
      position of the mask, that position is non-zero, and the positions increase. */
  lemma InliersAligned(center: seq<Point2f>, transform: seq<Point2f>, mask: seq<UChar>, k: nat)
    requires |mask| <= |center| && |mask| <= |transform|
    requires k < |Positions(InlierFlags(mask), true)|
    ensures var p := Positions(InlierFlags(mask), true)[k];
      p < |mask| && mask[p] != 0 &&
      Gather(center, Positions(InlierFlags(mask), true))[k] == center[p] &&
      Gather(transform, Positions(InlierFlags(mask), true))[k] == transform[p]
  {
    var flags := InlierFlags(mask);
    var p := Positions(flags, true)[k];
    PositionsExact(flags, true);
    assert flags[p];
  }

  /** The report holds one entry per outlier plus one line break per full group of
      four; the k-th outlier sits at position (k - 1) + (k - 1) / 4, and the entry
      after it is a line break exactly when k is a multiple of 4. */
  lemma {:induction false} OutlierReportLayout(os: seq<PointPair>, k: nat)
    requires 1 <= k <= |os|
    ensures |OutlierReport(os)| == |os| + |os| / 4
    ensures OutlierReport(os)[k - 1 + (k - 1) / 4] == Outlier(os[k - 1])
    ensures k % 4 == 0 <==>
      (k + (k - 1) / 4 < |OutlierReport(os)| && OutlierReport(os)[k + (k - 1) / 4] == LineBreak)
  {
    var n := |os|;
    var init := os[..n - 1];
    var r := OutlierReport(os);
    var r0 := OutlierReport(init);
    assert r == r0 + [Outlier(os[n - 1])] + (if n % 4 == 0 then [LineBreak] else []);
    if k == n {
      if n > 1 {
        OutlierReportLayout(init, n - 1);
      } else {
        assert r0 == [];
      }
      assert |r0| == (n - 1) + (n - 1) / 4;
    } else {
      OutlierReportLayout(init, k);
      assert init[k - 1] == os[k - 1];
      if k + (k - 1) / 4 == |r0| {
        assert r[k + (k - 1) / 4] == Outlier(os[n - 1]);
      }
    }
  }

  /** With j starting at 1, a line break follows the k-th outlier exactly when
      k % 4 == 0, so the report breaks the outliers into lines of four. */
  lemma {:induction false} OutlierReportLineBreaks(os: seq<PointPair>)
    ensures |OutlierReport(os)| == |os| + |os| / 4
    ensures multiset(OutlierReport(os))[LineBreak] == |os| / 4
  {
    if |os| > 0 {
      OutlierReportLineBreaks(os[..|os| - 1]);
    }
  }

  /** The synthetic matches (i, i, 0) for i = 0 .. n - 1. */
  function IdentityMatches(n: nat): seq<DMatch>
  {
    seq(n, i requires 0 <= i < n => DMatch(i, i, 0.0))
  }

  /** The loop that builds homography_matches: one match (i, i, 0) per inlier. */
  method BuildIdentityMatches(inliers: seq<Point2f>) returns (hm: seq<DMatch>)
    ensures |hm| == |inliers|
    ensures forall i :: 0 <= i < |hm| ==> hm[i].queryIdx == i && hm[i].trainIdx == i && hm[i].distance == 0.0
  {
    hm := [];
    var i := 0;
    while i < |inliers|
      invariant 0 <= i <= |inliers|
      invariant hm == IdentityMatches(i)
    {
      hm := hm + [DMatch(i, i, 0.0)];
      i := i + 1;
    }
  }

  /** Keypoints at the given locations (the conversion of the inlier points). */
  function ToKeyPoints(pts: seq<Point2f>): seq<KeyPoint>
  {
    seq(|pts|, i requires 0 <= i < |pts| => KeyPoint(pts[i]))
  }

  /** The identity matches over the converted inlier lists pair each inlier of the
      object image with its own partner in the scene: looking their points up gives
      back exactly the two inlier lists. */
  lemma IdentityMatchesPairInliers(inliers1: seq<Point2f>, inliers2: seq<Point2f>)
    requires |inliers1| == |inliers2|
    ensures IndicesInRange(IdentityMatches(|inliers1|), ToKeyPoints(inliers1), ToKeyPoints(inliers2))
    ensures QueryPoints(IdentityMatches(|inliers1|), ToKeyPoints(inliers1)) == inliers1
    ensures TrainPoints(IdentityMatches(|inliers1|), ToKeyPoints(inliers2)) == inliers2
  {
  }
}
