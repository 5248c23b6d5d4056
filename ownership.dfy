/**
 * The ownership pass run once per frame. Cells are visited in index order;
 * each is reset to its root flag `def`, then its partners are scanned in
 * index order and the first linked partner for which either side is owned
 * makes both owned, ending the scan. The sweep works in place, so a cell
 * sees the values written earlier in the same sweep: it is not a closure
 * computation and what it yields depends on the cells' indices.
 */
module Ownership {
  import opened Optional
  import opened Scan

  /** An n-by-n link relation: entry (i, k) says whether cells i and k are connected. */
  predicate Relation(links: seq<seq<bool>>, n: nat)
  {
    |links| == n && forall i :: 0 <= i < n ==> |links[i]| == n
  }

  /** The link relation has no direction, as Cell_AreCellsConnected tests both bits. */
  predicate Undirected(links: seq<seq<bool>>)
    requires Relation(links, |links|)
  {
    forall i, k :: 0 <= i < |links| && 0 <= k < |links| ==> links[i][k] == links[k][i]
  }

  /** Root flags, links and owned flags all describe the same cells. */
  predicate Shaped(def: seq<bool>, links: seq<seq<bool>>, s: seq<bool>)
  {
    Relation(links, |def|) && |s| == |def|
  }

  /** Cell c has a linked partner that is owned in `s`. */
  ghost predicate Backed(links: seq<seq<bool>>, s: seq<bool>, c: nat)
    requires Relation(links, |s|) && c < |s|
  {
    exists q :: 0 <= q < |s| && q != c && links[c][q] && s[q]
  }

  /** Cell c has no linked partner at all. */
  ghost predicate Isolated(links: seq<seq<bool>>, c: nat)
    requires Relation(links, |links|) && c < |links|
  {
    forall k :: 0 <= k < |links| && k != c ==> !links[c][k]
  }

  /** Which partners k pass the inner loop's test while cell i is scanned. */
  function Candidates(links: seq<seq<bool>>, s: seq<bool>, i: nat): (c: seq<bool>)
    requires Relation(links, |s|) && i < |s|
    ensures |c| == |s|
    ensures forall k :: 0 <= k < |s| ==> (c[k] <==> k != i && links[i][k] && (s[i] || s[k]))
  {
    seq(|s|, k requires 0 <= k < |s| => k != i && links[i][k] && (s[i] || s[k]))
  }

  /**
   * The partner that ends the inner loop for cell i, once i is reset to its
   * root flag: the lowest k != i linked to i with i or k owned, if any.
   */
  function Partner(def: seq<bool>, links: seq<seq<bool>>, s: seq<bool>, i: nat): (p: Option<nat>)
    requires Shaped(def, links, s) && i < |s|
    ensures p.Some? ==> p.value < |s| && p.value != i && links[i][p.value] && (def[i] || s[p.value])
    ensures p.Some? ==> forall k :: 0 <= k < p.value && k != i && links[i][k] ==> !def[i] && !s[k]
    ensures p.None? ==> forall k :: 0 <= k < |s| && k != i && links[i][k] ==> !def[i] && !s[k]
  {
    var cands := Candidates(links, s[i := def[i]], i);
    var p := FirstTrue(cands, 0);
    assert p.Some? ==> cands[p.value];
    p
  }

  /**
   * One iteration of the outer loop: Cell_setOwned(i, false) leaves `def[i]`;
   * the partner found gets Cell_setOwned(i, true) and Cell_setOwned(j, true),
   * both of which leave `true`. A root keeps its flag and no other cell loses it.
   */
  function OwnStep(def: seq<bool>, links: seq<seq<bool>>, s: seq<bool>, i: nat): (r: seq<bool>)
    requires Shaped(def, links, s) && i < |s|
    ensures |r| == |s|
    ensures def[i] ==> r[i]
    ensures forall k :: 0 <= k < |s| && k != i && s[k] ==> r[k]
  {
    var reset := s[i := def[i]];
    match Partner(def, links, s, i)
    case Some(j) => reset[i := true][j := true]
    case None => reset
  }

  /** After its own step, cell i is owned iff it is a root or has a linked partner owned before. */
  lemma StepOwnsSelf(def: seq<bool>, links: seq<seq<bool>>, s: seq<bool>, i: nat)
    requires Shaped(def, links, s) && i < |s|
    ensures OwnStep(def, links, s, i)[i] <==>
      def[i] || exists k :: 0 <= k < |s| && k != i && links[i][k] && s[k]
  {
    match Partner(def, links, s, i)
    case Some(j) =>
      assert def[i] || (j != i && links[i][j] && s[j]);
    case None =>
  }

  /** The step of cell i newly owns another cell only if that cell is linked to i, and then i is owned. */
  lemma StepNewlyOwned(def: seq<bool>, links: seq<seq<bool>>, s: seq<bool>, i: nat, k: nat)
    requires Shaped(def, links, s) && i < |s| && k < |s| && k != i
    requires OwnStep(def, links, s, i)[k] && !s[k]
    ensures links[i][k] && OwnStep(def, links, s, i)[i]
  {
    match Partner(def, links, s, i)
    case Some(j) =>
      assert j == k;
    case None =>
  }

  /**
   * The outer loop from cell i to the end of the pool. A cell already visited
   * and owned stays owned, and a root cell not yet visited ends up owned.
   */
  function PassFrom(def: seq<bool>, links: seq<seq<bool>>, s: seq<bool>, i: nat): (r: seq<bool>)
    requires Shaped(def, links, s) && i <= |s|
    ensures |r| == |s|
    ensures forall c :: 0 <= c < |s| && ((c < i && s[c]) || (i <= c && def[c])) ==> r[c]
    decreases |s| - i
  {
    if i == |s| then s else PassFrom(def, links, OwnStep(def, links, s, i), i + 1)
  }

  /** The whole ownership pass over the previous frame's owned flags `s`: every root ends up owned. */
  function Pass(def: seq<bool>, links: seq<seq<bool>>, s: seq<bool>): (r: seq<bool>)
    requires Shaped(def, links, s)
    ensures |r| == |s|
    ensures forall c :: 0 <= c < |s| && def[c] ==> r[c]
  {
    PassFrom(def, links, s, 0)
  }

  /** The step of another cell leaves an isolated cell as it was. */
  lemma StepSkipsIsolated(def: seq<bool>, links: seq<seq<bool>>, s: seq<bool>, i: nat, c: nat)
    requires Shaped(def, links, s) && Undirected(links) && i < |s| && c < |s| && c != i
    requires Isolated(links, c)
    ensures OwnStep(def, links, s, i)[c] == s[c]
  {
    assert links[i][c] == links[c][i];
  }

  /** An isolated cell is only ever written by its own reset. */
  lemma {:induction false} IsolatedFrom(def: seq<bool>, links: seq<seq<bool>>, s: seq<bool>, i: nat, c: nat)
    requires Shaped(def, links, s) && Undirected(links) && i <= |s| && c < |s| && Isolated(links, c)
    ensures PassFrom(def, links, s, i)[c] == if c < i then s[c] else def[c]
    decreases |s| - i
  {
    if i < |s| {
      var t := OwnStep(def, links, s, i);
      if i == c {
        StepOwnsSelf(def, links, s, i);
      } else {
        StepSkipsIsolated(def, links, s, i, c);
      }
      IsolatedFrom(def, links, t, i + 1, c);
    }
  }

  /** After the pass an isolated cell is owned exactly when it is a root. */
  lemma IsolatedOwnedIffRoot(def: seq<bool>, links: seq<seq<bool>>, s: seq<bool>, c: nat)
    requires Shaped(def, links, s) && Undirected(links) && c < |s| && Isolated(links, c)
    ensures Pass(def, links, s)[c] == def[c]
  {
    IsolatedFrom(def, links, s, 0, c);
  }

  /** One step keeps "every visited owned non-root cell has an owned partner". */
  lemma StepKeepsBacking(def: seq<bool>, links: seq<seq<bool>>, s: seq<bool>, i: nat)
    requires Shaped(def, links, s) && Undirected(links) && i < |s|
    requires forall c :: 0 <= c < i && s[c] && !def[c] ==> Backed(links, s, c)
    ensures var t := OwnStep(def, links, s, i);
      forall c :: 0 <= c <= i && t[c] && !def[c] ==> Backed(links, t, c)
  {
    var t := OwnStep(def, links, s, i);
    forall c | 0 <= c <= i && t[c] && !def[c]
      ensures Backed(links, t, c)
    {
      if c == i {
        StepOwnsSelf(def, links, s, i);
        var k :| 0 <= k < |s| && k != i && links[i][k] && s[k];
        assert t[k];
      } else if !s[c] {
        StepNewlyOwned(def, links, s, i, c);
      } else {
        var q :| 0 <= q < |s| && q != c && links[c][q] && s[q];
        if q == i {
          assert links[i][c];
          StepOwnsSelf(def, links, s, i);
        } else {
          assert t[q];
        }
      }
    }
  }

  lemma {:induction false} BackingFrom(def: seq<bool>, links: seq<seq<bool>>, s: seq<bool>, i: nat)
    requires Shaped(def, links, s) && Undirected(links) && i <= |s|
    requires forall c :: 0 <= c < i && s[c] && !def[c] ==> Backed(links, s, c)
    ensures var r := PassFrom(def, links, s, i);
      forall c :: 0 <= c < |s| && r[c] && !def[c] ==> Backed(links, r, c)
    decreases |s| - i
  {
    if i < |s| {
      StepKeepsBacking(def, links, s, i);
      BackingFrom(def, links, OwnStep(def, links, s, i), i + 1);
    }
  }

  /**
   * After the pass every owned cell that is not a root has a linked partner
   * that is owned too. This is a local property, not reachability from a root.
   */
  lemma OwnedHaveOwnedPartner(def: seq<bool>, links: seq<seq<bool>>, s: seq<bool>, c: nat)
    requires Shaped(def, links, s) && Undirected(links) && c < |s|
    requires Pass(def, links, s)[c] && !def[c]
    ensures Backed(links, Pass(def, links, s), c)
  {
    BackingFrom(def, links, s, 0);
  }

  /** One step never un-owns either end of a linked pair that is owned at both ends. */
  lemma StepKeepsOwnedPair(def: seq<bool>, links: seq<seq<bool>>, s: seq<bool>, i: nat, c: nat, p: nat)
    requires Shaped(def, links, s) && Undirected(links) && i < |s| && c < |s| && p < |s| && c != p
    requires links[c][p] && s[c] && s[p]
    ensures OwnStep(def, links, s, i)[c] && OwnStep(def, links, s, i)[p]
  {
    if i == c {
      StepOwnsSelf(def, links, s, i);
    } else if i == p {
      assert links[p][c];
      StepOwnsSelf(def, links, s, i);
    }
  }

  lemma {:induction false} OwnedPairFrom(def: seq<bool>, links: seq<seq<bool>>, s: seq<bool>, i: nat, c: nat, p: nat)
    requires Shaped(def, links, s) && Undirected(links) && i <= |s| && c < |s| && p < |s| && c != p
    requires links[c][p] && s[c] && s[p]
    ensures PassFrom(def, links, s, i)[c] && PassFrom(def, links, s, i)[p]
    decreases |s| - i
  {
    if i < |s| {
      StepKeepsOwnedPair(def, links, s, i, c, p);
      OwnedPairFrom(def, links, OwnStep(def, links, s, i), i + 1, c, p);
    }
  }

  /**
   * Two linked cells that were both owned stay owned, whether or not they
   * are still joined to a root: the pass never withdraws ownership from a
   * linked pair that already holds it.
   */
  lemma OwnedPairPersists(def: seq<bool>, links: seq<seq<bool>>, s: seq<bool>, c: nat, p: nat)
    requires Shaped(def, links, s) && Undirected(links) && c < |s| && p < |s| && c != p
    requires links[c][p] && s[c] && s[p]
    ensures Pass(def, links, s)[c] && Pass(def, links, s)[p]
  {
    OwnedPairFrom(def, links, s, 0, c, p);
  }

  /** Three cells chained 0 - 1 - 2. */
  function Chain3(): (links: seq<seq<bool>>)
    ensures Relation(links, 3) && Undirected(links)
  {
    [[false, true, false], [true, false, true], [false, true, false]]
  }

  /**
   * With the root at the low end of a chain, one sweep owns the whole chain:
   * each cell sees the ownership its predecessor gained earlier in the sweep.
   */
  lemma AscendingChainOwnedInOnePass()
    ensures Pass([true, false, false], Chain3(), [true, false, false]) == [true, true, true]
  {
    var def, links := [true, false, false], Chain3();
    var s1 := OwnStep(def, links, [true, false, false], 0);
    assert s1 == [true, true, false];
    var s2 := OwnStep(def, links, s1, 1);
    assert s2 == [true, true, false];
    var c3 := Candidates(links, [true, true, false], 2);
    assert !c3[0] && c3[1];
    var s3 := OwnStep(def, links, s2, 2);
    assert s3 == [true, true, true];
  }

  /**
   * With the root at the high end of the same chain, one sweep gains a single
   * hop and a second sweep the next: the result depends on cell order, and
   * one pass is not the transitive closure.
   */
  lemma DescendingChainOneHopPerPass()
    ensures Pass([false, false, true], Chain3(), [false, false, true]) == [false, true, true]
    ensures Pass([false, false, true], Chain3(), [false, true, true]) == [true, true, true]
  {
    var def, links := [false, false, true], Chain3();
    var c1 := Candidates(links, [false, false, true], 0);
    assert !c1[0] && !c1[1] && !c1[2];
    var s1 := OwnStep(def, links, [false, false, true], 0);
    assert s1 == [false, false, true];
    var c2 := Candidates(links, [false, false, true], 1);
    assert !c2[0] && !c2[1] && c2[2];
    var s2 := OwnStep(def, links, s1, 1);
    assert s2 == [false, true, true];
    var c3 := Candidates(links, [false, true, true], 2);
    assert !c3[0] && c3[1];
    var s3 := OwnStep(def, links, s2, 2);
    assert s3 == [false, true, true];

    var t1 := OwnStep(def, links, [false, true, true], 0);
    assert t1 == [true, true, true];
    var c5 := Candidates(links, [true, false, true], 1);
    assert c5[0];
    var t2 := OwnStep(def, links, t1, 1);
    assert t2 == [true, true, true];
    var t3 := OwnStep(def, links, t2, 2);
    assert t3 == [true, true, true];
  }

  /**
   * Cutting the link between the root and an owned chain does not release the
   * chain: cells 1 and 2, linked to each other only, stay owned.
   */
  lemma CutChainStaysOwned()
    ensures Pass([true, false, false], [[false, false, false], [false, false, true], [false, true, false]],
                 [true, true, true]) == [true, true, true]
  {
    var def, links, s := [true, false, false], [[false, false, false], [false, false, true], [false, true, false]],
                         [true, true, true];
    OwnedPairPersists(def, links, s, 1, 2);
  }
}
