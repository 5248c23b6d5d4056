/**
 * Linear scans shared by the frame loop: the program repeatedly walks the
 * cell pool in index order and stops at the first cell that satisfies a test.
 */
module Scan {

  import opened Optional

  /**
   * The first index at or after `from` whose entry is true, if any: the
   * result of a `for` loop over the indices that `break`s on the first hit.
   */
  function FirstTrue(s: seq<bool>, from: nat): (r: Option<nat>)
    requires from <= |s|
    ensures r.Some? ==> from <= r.value < |s| && s[r.value]
    ensures r.Some? ==> forall k :: from <= k < r.value ==> !s[k]
    ensures r.None? ==> forall k :: from <= k < |s| ==> !s[k]
    decreases |s| - from
  {
    if from == |s| then None
    else if s[from] then Some(from)
    else FirstTrue(s, from + 1)
  }

  /** At most one entry is true. */
  predicate AtMostOne(s: seq<bool>)
  {
    forall i, j :: 0 <= i < |s| && 0 <= j < |s| && s[i] && s[j] ==> i == j
  }

  /** When at most one entry is true, the first true entry is the only one. */
  lemma FirstTrueIsOnly(s: seq<bool>, k: nat)
    requires AtMostOne(s) && k < |s|
    ensures s[k] <==> FirstTrue(s, 0) == Some(k)
  {
  }

  /** Any answer with FirstTrue's defining properties is FirstTrue's answer. */
  lemma FirstTrueUnique(s: seq<bool>, from: nat, r: Option<nat>)
    requires from <= |s|
    requires r.Some? ==> from <= r.value < |s| && s[r.value] && forall k :: from <= k < r.value ==> !s[k]
    requires r.None? ==> forall k :: from <= k < |s| ==> !s[k]
    ensures FirstTrue(s, from) == r
  {
  }
}
