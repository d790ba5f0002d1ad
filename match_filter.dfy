/** The distance scan and the good-match filter that run over the matcher's
    output before the homography is fitted. */
module MatchFilter {
  import opened Types
  import opened Selection

  /** The value min_dist starts from before the scan. */
  const MinSentinel: real := 100.0
  /** The value max_dist starts from before the scan. */
  const MaxSentinel: real := 0.0
  /** A match is good when its distance is below this multiple of min_dist. */
  const GoodFactor: real := 3.0

  /** The value of min_dist after scanning `ms` front to back: the smaller of the
      sentinel and the least distance. */
  function MinDistance(ms: seq<DMatch>): (r: real)
    ensures r <= MinSentinel
    ensures forall i :: 0 <= i < |ms| ==> r <= ms[i].distance
    ensures r == MinSentinel || exists i :: 0 <= i < |ms| && ms[i].distance == r
  {
    if |ms| == 0 then MinSentinel
    else
      var init := ms[..|ms| - 1];
      assert forall i :: 0 <= i < |init| ==> init[i] == ms[i];
      var m := MinDistance(init);
      var d := ms[|ms| - 1].distance;
      if d < m then d else m
  }

  /** The value of max_dist after scanning `ms` front to back: the larger of the
      sentinel and the greatest distance. */
  function MaxDistance(ms: seq<DMatch>): (r: real)
    ensures r >= MaxSentinel
    ensures forall i :: 0 <= i < |ms| ==> ms[i].distance <= r
    ensures r == MaxSentinel || exists i :: 0 <= i < |ms| && ms[i].distance == r
  {
    if |ms| == 0 then MaxSentinel
    else
      var init := ms[..|ms| - 1];
      assert forall i :: 0 <= i < |init| ==> init[i] == ms[i];
      var m := MaxDistance(init);
      var d := ms[|ms| - 1].distance;
      if d > m then d else m
  }

  /** The min/max pass over the match distances, starting from the sentinels. */
  method ScanDistances(matches: seq<DMatch>) returns (minDist: real, maxDist: real)
    ensures minDist == MinDistance(matches) && maxDist == MaxDistance(matches)
  {
    maxDist, minDist := MaxSentinel, MinSentinel;
    var i := 0;
    while i < |matches|
      invariant 0 <= i <= |matches|
      invariant minDist == MinDistance(matches[..i])
      invariant maxDist == MaxDistance(matches[..i])
    {
      var dist := matches[i].distance;
      if dist < minDist { minDist := dist; }
      if dist > maxDist { maxDist := dist; }
      assert matches[..i + 1][..i] == matches[..i];
      i := i + 1;
    }
    assert matches[..i] == matches;
  }

  /** The sentinels pin down the scan's results: any value that is at most the
      sentinel, below every distance and either the sentinel or some distance, is
      the scanned minimum (and dually for the maximum). */
  lemma ScanResultsUnique(ms: seq<DMatch>, lo: real, hi: real)
    requires lo <= MinSentinel && forall i :: 0 <= i < |ms| ==> lo <= ms[i].distance
    requires lo == MinSentinel || exists i :: 0 <= i < |ms| && ms[i].distance == lo
    requires hi >= MaxSentinel && forall i :: 0 <= i < |ms| ==> ms[i].distance <= hi
    requires hi == MaxSentinel || exists i :: 0 <= i < |ms| && ms[i].distance == hi
    ensures lo == MinDistance(ms) && hi == MaxDistance(ms)
  {
  }

  /** Over a non-empty match list the scanned minimum does not exceed the scanned maximum. */
  lemma ScanOrdered(ms: seq<DMatch>)
    requires |ms| > 0
    ensures MinDistance(ms) <= MaxDistance(ms)
  {
  }

  /** The filter's test: distance strictly below three times min_dist. */
  predicate IsGood(m: DMatch, minDist: real)
  {
    m.distance < GoodFactor * minDist
  }

  /** For each match, whether it passes the filter. */
  function GoodFlags(ms: seq<DMatch>, minDist: real): seq<bool>
  {
    seq(|ms|, i requires 0 <= i < |ms| => IsGood(ms[i], minDist))
  }

  /** The good matches: those that pass the filter, in their original order. */
  function GoodMatches(ms: seq<DMatch>, minDist: real): seq<DMatch>
  {
    Gather(ms, Positions(GoodFlags(ms, minDist), true))
  }

  /** The filter loop: appends every match whose distance is below 3 * min_dist. */
  method FilterGoodMatches(matches: seq<DMatch>, minDist: real) returns (good: seq<DMatch>)
    ensures good == GoodMatches(matches, minDist)
  {
    ghost var flags := GoodFlags(matches, minDist);
    good := [];
    var i := 0;
    while i < |matches|
      invariant 0 <= i <= |matches|
      invariant good == Gather(matches, Positions(flags[..i], true))
    {
      assert flags[..i + 1][..i] == flags[..i];
      if matches[i].distance < GoodFactor * minDist {
        GatherSnoc(matches, Positions(flags[..i], true), i);
        good := good + [matches[i]];
      }
      i := i + 1;
    }
    assert flags[..i] == flags;
  }

  /** The good matches are exactly the matches that pass the filter, each once, in
      the order the matcher produced them: the k-th good match is the match at the
      k-th passing position. */
  lemma GoodMatchesExact(ms: seq<DMatch>, minDist: real)
    ensures var idx := Positions(GoodFlags(ms, minDist), true);
      |GoodMatches(ms, minDist)| == |idx| &&
      (forall k :: 0 <= k < |idx| ==> GoodMatches(ms, minDist)[k] == ms[idx[k]]) &&
      (forall k, l :: 0 <= k < l < |idx| ==> idx[k] < idx[l]) &&
      (forall i :: 0 <= i < |ms| ==> (IsGood(ms[i], minDist) <==> i in idx))
  {
    var flags := GoodFlags(ms, minDist);
    var idx := Positions(flags, true);
    PositionsExact(flags, true);
    forall i | 0 <= i < |ms| && i in idx
      ensures IsGood(ms[i], minDist)
    {
      var k :| 0 <= k < |idx| && idx[k] == i;
      assert flags[idx[k]];
    }
  }

  /** No good match is at or above the threshold, and every good match is a match. */
  lemma GoodMatchesSound(ms: seq<DMatch>, minDist: real)
    ensures forall m :: m in GoodMatches(ms, minDist) ==> m in ms && m.distance < GoodFactor * minDist
  {
    var flags := GoodFlags(ms, minDist);
    var idx := Positions(flags, true);
    PositionsExact(flags, true);
    forall m | m in GoodMatches(ms, minDist)
      ensures m in ms && m.distance < GoodFactor * minDist
    {
      var k :| 0 <= k < |idx| && GoodMatches(ms, minDist)[k] == m;
      assert flags[idx[k]];
    }
  }

  /** With a scanned minimum of zero (or below), the threshold is not above any
      distance, so the strict test keeps nothing: not even the zero-distance matches. */
  lemma {:induction false} ZeroMinimumKeepsNothing(ms: seq<DMatch>)
    requires MinDistance(ms) <= 0.0
    ensures GoodMatches(ms, MinDistance(ms)) == []
  {
    var minDist := MinDistance(ms);
    PositionsNone(GoodFlags(ms, minDist), true);
  }

  /** With a positive scanned minimum, every match at that minimum distance is kept. */
  lemma MinimumMatchKept(ms: seq<DMatch>, i: nat)
    requires i < |ms|
    requires MinDistance(ms) > 0.0 && ms[i].distance == MinDistance(ms)
    ensures ms[i] in GoodMatches(ms, MinDistance(ms))
  {
    var minDist := MinDistance(ms);
    var idx := Positions(GoodFlags(ms, minDist), true);
    PositionsExact(GoodFlags(ms, minDist), true);
    assert i in idx;
    var k :| 0 <= k < |idx| && idx[k] == i;
    assert GoodMatches(ms, minDist)[k] == ms[i];
  }

  /** A match at the least distance survives the filter exactly when that distance
      is positive and below three times the sentinel: up to 100 the threshold is
      three times the distance itself, above 100 it is capped at 300. */
  lemma LeastMatchKept(ms: seq<DMatch>, i: nat)
    requires i < |ms|
    requires forall j :: 0 <= j < |ms| ==> ms[i].distance <= ms[j].distance
    ensures ms[i] in GoodMatches(ms, MinDistance(ms)) <==> 0.0 < ms[i].distance < GoodFactor * MinSentinel
  {
    var minDist := MinDistance(ms);
    var d := ms[i].distance;
    assert minDist == (if d <= MinSentinel then d else MinSentinel);
    GoodMatchesExact(ms, minDist);
    GoodMatchesSound(ms, minDist);
    if 0.0 < d < GoodFactor * MinSentinel {
      var idx := Positions(GoodFlags(ms, minDist), true);
      assert i in idx;
      var k :| 0 <= k < |idx| && idx[k] == i;
      assert GoodMatches(ms, minDist)[k] == ms[i];
    }
  }

  /** Over a non-empty list of equal distances d the scan yields min(d, 100). */
  lemma UniformMinDistance(ms: seq<DMatch>, d: real)
    requires |ms| > 0 && forall i :: 0 <= i < |ms| ==> ms[i].distance == d
    ensures MinDistance(ms) == if d <= MinSentinel then d else MinSentinel
  {
    assert MinDistance(ms) <= ms[0].distance;
  }

  /** When every match has the same positive distance below three times the
      sentinel, the filter keeps every match. */
  lemma UniformDistancesKeepAll(ms: seq<DMatch>, d: real)
    requires forall i :: 0 <= i < |ms| ==> ms[i].distance == d
    requires 0.0 < d < GoodFactor * MinSentinel
    ensures GoodMatches(ms, MinDistance(ms)) == ms
  {
    var minDist := MinDistance(ms);
    var flags := GoodFlags(ms, minDist);
    if |ms| > 0 {
      UniformMinDistance(ms, d);
      assert forall i :: 0 <= i < |flags| ==> flags[i];
      PositionsAll(flags, true);
      GatherAll(ms, Positions(flags, true));
    }
  }

  /** The sentinel caps min_dist at 100: when every distance is at least 300 the
      filter keeps nothing, however many matches there are. */
  lemma FarMatchesDropped(ms: seq<DMatch>)
    requires forall i :: 0 <= i < |ms| ==> ms[i].distance >= GoodFactor * MinSentinel
    ensures GoodMatches(ms, MinDistance(ms)) == []
  {
    PositionsNone(GoodFlags(ms, MinDistance(ms)), true);
  }
}
