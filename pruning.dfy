/** The random pruning of a match list for display: an index vector 0 .. n - 1,
    shuffled, cut or padded to twenty entries, then used to pick matches. */
module Pruning {
  import opened Types
  import opened Localize

  /** How many matches a pruned view shows. */
  const PruneSize: nat := 20

  /** 0, 1, ..., n - 1. */
  function Range(n: nat): seq<int>
  {
    seq(n, i requires 0 <= i < n => i)
  }

  /** No value occurs twice. */
  predicate Distinct(s: seq<int>)
  {
    forall k, l :: 0 <= k < l < |s| ==> s[k] != s[l]
  }

  /** std::iota from 0 over the whole index vector. */
  method Iota(a: array<int>)
    modifies a
    ensures a[..] == Range(a.Length)
  {
    for i := 0 to a.Length
      invariant forall k :: 0 <= k < i ==> a[k] == k
    {
      a[i] := i;
    }
  }

  /** `s` with the entries at i and j exchanged. */
  function Swap(s: seq<int>, i: nat, j: nat): seq<int>
    requires i < |s| && j < |s|
  {
    s[i := s[j]][j := s[i]]
  }

  /** The position that step i of the shuffle exchanges with position i: the
      engine's draw for that step, brought into 0 .. i. */
  function Draw(rng: nat -> nat, i: nat): nat
  {
    rng(i) % (i + 1)
  }

  /** The index vector after the first `steps` steps of the shuffle. */
  function Shuffled(s: seq<int>, rng: nat -> nat, steps: nat): (r: seq<int>)
    requires steps <= |s|
    ensures |r| == |s|
  {
    if steps == 0 then s
    else
      var i := steps - 1;
      Swap(Shuffled(s, rng, i), i, Draw(rng, i))
  }

  /** std::shuffle as a front-to-back exchange pass: step i exchanges position i
      with a drawn position in 0 .. i. */
  method Shuffle(a: array<int>, rng: nat -> nat)
    modifies a
    ensures a[..] == Shuffled(old(a[..]), rng, a.Length)
  {
    for i := 0 to a.Length
      invariant a[..] == Shuffled(old(a[..]), rng, i)
    {
      var j := Draw(rng, i);
      a[i], a[j] := a[j], a[i];
    }
  }

  /** One exchange keeps the multiset of values. */
  lemma SwapPermutes(s: seq<int>, i: nat, j: nat)
    requires i < |s| && j < |s|
    ensures multiset(Swap(s, i, j)) == multiset(s)
  {
    var t := s[i := s[j]];
    assert multiset(t) == multiset(s) - multiset{s[i]} + multiset{s[j]};
    assert t[j] == s[j];
    assert multiset(t[j := s[i]]) == multiset(t) - multiset{t[j]} + multiset{s[i]};
  }

  /** Shuffling only rearranges: the same values, each as often as before. */
  lemma {:induction false} ShuffledPermutes(s: seq<int>, rng: nat -> nat, steps: nat)
    requires steps <= |s|
    ensures multiset(Shuffled(s, rng, steps)) == multiset(s)
  {
    if steps > 0 {
      var i := steps - 1;
      ShuffledPermutes(s, rng, i);
      SwapPermutes(Shuffled(s, rng, i), i, Draw(rng, i));
    }
  }

  /** Shuffling a vector without repeated values yields one without repeated values. */
  lemma {:induction false} ShuffledDistinct(s: seq<int>, rng: nat -> nat, steps: nat)
    requires steps <= |s| && Distinct(s)
    ensures Distinct(Shuffled(s, rng, steps))
  {
    if steps > 0 {
      ShuffledDistinct(s, rng, steps - 1);
    }
  }

  /** Building the index vector: n value-initialised entries, iota, then the shuffle. */
  method ShuffledIndices(n: nat, rng: nat -> nat) returns (idx: seq<int>)
    ensures idx == Shuffled(Range(n), rng, n)
  {
    var a := new int[n];
    Iota(a);
    Shuffle(a, rng);
    idx := a[..];
  }

  /** Before it is resized, the shuffled index vector is a permutation of 0 .. n - 1. */
  lemma ShuffledIndicesPermuteRange(n: nat, rng: nat -> nat)
    ensures var p := Shuffled(Range(n), rng, n);
      |p| == n && multiset(p) == multiset(Range(n)) && Distinct(p) &&
      forall k :: 0 <= k < n ==> 0 <= p[k] < n
  {
    var p := Shuffled(Range(n), rng, n);
    ShuffledPermutes(Range(n), rng, n);
    ShuffledDistinct(Range(n), rng, n);
    forall k | 0 <= k < n
      ensures 0 <= p[k] < n
    {
      assert p[k] in multiset(p);
      assert p[k] in Range(n);
    }
  }

  /** std::vector::resize: cut to the first n entries, or pad with zeros up to n. */
  function Resized(s: seq<int>, n: nat): (r: seq<int>)
    ensures |r| == n
    ensures forall k :: 0 <= k < n ==> r[k] == if k < |s| then s[k] else 0
  {
    if n <= |s| then s[..n] else s + seq(n - |s|, _ => 0)
  }

  /** The pruning index vector for n matches has exactly twenty entries: the first
      min(n, 20) shuffled indices, all different, then zeros when n < 20. Every entry
      is a valid index into the n matches exactly when n >= 1. */
  lemma PruneIndicesShape(n: nat, rng: nat -> nat)
    ensures var idx := Resized(Shuffled(Range(n), rng, n), PruneSize);
      |idx| == PruneSize &&
      (forall k :: 0 <= k < PruneSize && n <= k ==> idx[k] == 0) &&
      (forall k, l :: 0 <= k < l < PruneSize && l < n ==> idx[k] != idx[l]) &&
      ((forall k :: 0 <= k < PruneSize ==> 0 <= idx[k] < n) <==> n >= 1)
  {
    var p := Shuffled(Range(n), rng, n);
    var idx := Resized(p, PruneSize);
    ShuffledIndicesPermuteRange(n, rng);
    if n == 0 {
      assert idx[0] == 0;
    }
  }

  /** The first prune: pick the match at each index of the index vector, in order.
      Reading outside the match list is undefined in the program; here it ends the
      prune with None. */
  method PruneMatches(matches: seq<DMatch>, index: seq<int>) returns (pruned: Option<seq<DMatch>>)
    ensures pruned.Some? <==> forall k :: 0 <= k < |index| ==> 0 <= index[k] < |matches|
    ensures pruned.Some? ==>
      |pruned.value| == |index| &&
      forall k :: 0 <= k < |index| ==> pruned.value[k] == matches[index[k]]
  {
    var out: seq<DMatch> := [];
    var k := 0;
    while k < |index|
      invariant 0 <= k <= |index|
      invariant forall t :: 0 <= t < k ==> 0 <= index[t] < |matches|
      invariant |out| == k
      invariant forall t :: 0 <= t < k ==> out[t] == matches[index[t]]
    {
      var i := index[k];
      if !(0 <= i < |matches|) {
        return None;
      }
      out := out + [matches[i]];
      k := k + 1;
    }
    pruned := Some(out);
  }

  /** The second prune: the reused list is cleared, then holds the synthetic match
      (i, i, 0) for each index i of the index vector, in order. */
  method PruneIdentityMatches(index: seq<int>) returns (pruned: seq<DMatch>)
    ensures |pruned| == |index|
    ensures forall k :: 0 <= k < |index| ==> pruned[k] == DMatch(index[k], index[k], 0.0)
  {
    pruned := [];
    var k := 0;
    while k < |index|
      invariant 0 <= k <= |index|
      invariant |pruned| == k
      invariant forall t :: 0 <= t < k ==> pruned[t] == DMatch(index[t], index[t], 0.0)
    {
      pruned := pruned + [DMatch(index[k], index[k], 0.0)];
      k := k + 1;
    }
  }

  /** The first pruned view: index vector for the n matches, shuffled and resized
      to twenty, then the picked matches. It is defined exactly when there is at
      least one match; each of the twenty entries is a match of the list, the first
      min(n, 20) of them at different positions. */
  method PruneForDisplay(matches: seq<DMatch>, rng: nat -> nat) returns (pruned: Option<seq<DMatch>>)
    ensures pruned.Some? <==> |matches| >= 1
    ensures pruned.Some? ==>
      var idx := Resized(Shuffled(Range(|matches|), rng, |matches|), PruneSize);
      |pruned.value| == PruneSize &&
      (forall k :: 0 <= k < PruneSize ==> 0 <= idx[k] < |matches| && pruned.value[k] == matches[idx[k]]) &&
      (forall k, l :: 0 <= k < l < PruneSize && l < |matches| ==> idx[k] != idx[l])
  {
    var index := ShuffledIndices(|matches|, rng);
    index := Resized(index, PruneSize);
    PruneIndicesShape(|matches|, rng);
    pruned := PruneMatches(matches, index);
  }

  /** The second pruned view over the n inlier pairs: the synthetic match (i, i, 0)
      for each of the twenty resized shuffled indices. */
  method PruneIdentityForDisplay(n: nat, rng: nat -> nat) returns (pruned: seq<DMatch>)
    ensures var idx := Resized(Shuffled(Range(n), rng, n), PruneSize);
      |pruned| == PruneSize &&
      forall k :: 0 <= k < PruneSize ==> pruned[k] == DMatch(idx[k], idx[k], 0.0)
  {
    var index := ShuffledIndices(n, rng);
    index := Resized(index, PruneSize);
    pruned := PruneIdentityMatches(index);
  }

  /** The second prune picks from the identity matches just as the first picks from
      the matcher's list: with n >= 1 inliers each entry is the identity match at its
      index, which names an existing inlier on both sides. With no inliers every
      entry is (0, 0, 0), which names an inlier that does not exist. */
  lemma SecondPruneIsLookup(n: nat, rng: nat -> nat)
    ensures var idx := Resized(Shuffled(Range(n), rng, n), PruneSize);
      (n >= 1 ==> forall k :: 0 <= k < PruneSize ==>
        0 <= idx[k] < n && IdentityMatches(n)[idx[k]] == DMatch(idx[k], idx[k], 0.0)) &&
      (n == 0 ==> forall k :: 0 <= k < PruneSize ==> idx[k] == 0 && !(idx[k] < n))
  {
    PruneIndicesShape(n, rng);
  }
}
