/** Keeping some elements of a sequence, in order: the shape shared by the
    good-match filter and the inlier/outlier split. */
module Selection {

  /** The positions i of `flags`, in increasing order, at which flags[i] == b. */
  function Positions(flags: seq<bool>, b: bool): (r: seq<nat>)
    ensures |r| <= |flags|
    ensures forall k :: 0 <= k < |r| ==> r[k] < |flags|
  {
    if |flags| == 0 then []
    else
      var n := |flags| - 1;
      Positions(flags[..n], b) + (if flags[n] == b then [n] else [])
  }

  /** Positions keeps exactly the positions whose flag equals b, each once, in
      increasing order. */
  lemma {:induction false} PositionsExact(flags: seq<bool>, b: bool)
    ensures forall k :: 0 <= k < |Positions(flags, b)| ==> flags[Positions(flags, b)[k]] == b
    ensures forall k, l :: 0 <= k < l < |Positions(flags, b)| ==> Positions(flags, b)[k] < Positions(flags, b)[l]
    ensures forall i :: 0 <= i < |flags| && flags[i] == b ==> i in Positions(flags, b)
  {
    if |flags| > 0 {
      var n := |flags| - 1;
      var init := flags[..n];
      PositionsExact(init, b);
      assert forall i :: 0 <= i < n ==> init[i] == flags[i];
    }
  }

  /** Extending the flags by one entry adds that position when its flag equals b. */
  lemma PositionsSnoc(flags: seq<bool>, i: nat, b: bool)
    requires i < |flags|
    ensures Positions(flags[..i + 1], b) == Positions(flags[..i], b) + (if flags[i] == b then [i] else [])
  {
    assert flags[..i + 1][..i] == flags[..i];
  }

  /** Every position is kept on exactly one side of the split. */
  lemma {:induction false} PositionsPartition(flags: seq<bool>)
    ensures |Positions(flags, true)| + |Positions(flags, false)| == |flags|
  {
    if |flags| > 0 {
      PositionsPartition(flags[..|flags| - 1]);
    }
  }

  /** When every flag equals b, every position is kept: 0, 1, ..., |flags| - 1. */
  lemma {:induction false} PositionsAll(flags: seq<bool>, b: bool)
    requires forall i :: 0 <= i < |flags| ==> flags[i] == b
    ensures |Positions(flags, b)| == |flags|
    ensures forall k :: 0 <= k < |flags| ==> Positions(flags, b)[k] == k
  {
    if |flags| > 0 {
      PositionsAll(flags[..|flags| - 1], b);
    }
  }

  /** When no flag equals b, nothing is kept. */
  lemma PositionsNone(flags: seq<bool>, b: bool)
    requires forall i :: 0 <= i < |flags| ==> flags[i] != b
    ensures Positions(flags, b) == []
  {
    PositionsExact(flags, b);
  }

  /** The elements of `xs` at the positions `idx`, in that order. */
  function Gather<T>(xs: seq<T>, idx: seq<nat>): seq<T>
    requires forall k :: 0 <= k < |idx| ==> idx[k] < |xs|
  {
    seq(|idx|, k requires 0 <= k < |idx| => xs[idx[k]])
  }

  /** Gathering every position in order gives the whole sequence back. */
  lemma GatherAll<T>(xs: seq<T>, idx: seq<nat>)
    requires |idx| == |xs| && forall k :: 0 <= k < |idx| ==> idx[k] == k
    ensures Gather(xs, idx) == xs
  {
  }

  /** Gathering one more position appends that element. */
  lemma GatherSnoc<T>(xs: seq<T>, idx: seq<nat>, i: nat)
    requires forall k :: 0 <= k < |idx| ==> idx[k] < |xs|
    requires i < |xs|
    ensures Gather(xs, idx + [i]) == Gather(xs, idx) + [xs[i]]
  {
  }
}
