/**
 * The selection pass run once per frame, after the ownership pass. It walks
 * the cells in index order with the cell selected at the start of the frame
 * in hand, and leaves at most one cell selected: the held cell while it still
 * collides with the pointer, else the first colliding cell met afterwards.
 */
module Selection {
  import opened Optional
  import opened Scan

  /**
   * The cell left selected, given the cell `prev` selected when the frame
   * started and each cell's collision with the pointer.
   */
  function Winner(prev: Option<nat>, collision: seq<bool>): (w: Option<nat>)
    requires prev.Some? ==> prev.value < |collision|
    ensures w.Some? ==> w.value < |collision| && collision[w.value]
  {
    match prev
    case None => FirstTrue(collision, 0)
    case Some(p) => if collision[p] then prev else FirstTrue(collision, p + 1)
  }

  /**
   * One iteration of the selection loop over cell i, which collides iff
   * `hit`: with nothing in hand a colliding cell is taken; the cell in hand
   * is dropped when it no longer collides; any other cell is passed over.
   */
  function SelectStep(sel: Option<nat>, i: nat, hit: bool): (r: Option<nat>)
    ensures r.Some? ==> r == sel || (sel.None? && r == Some(i) && hit)
    ensures sel.Some? && sel.value != i ==> r == sel
  {
    if sel.None? then (if hit then Some(i) else None)
    else if i != sel.value then sel
    else if hit then sel
    else None
  }

  /**
   * The selection loop from cell i to the end, with `sel` in hand: it ends
   * with the cell in hand, with a colliding cell from i on, or with nothing.
   */
  function Sweep(sel: Option<nat>, collision: seq<bool>, i: nat): (r: Option<nat>)
    requires i <= |collision|
    ensures r.Some? ==> r == sel || (i <= r.value < |collision| && collision[r.value])
    decreases |collision| - i
  {
    if i == |collision| then sel
    else Sweep(SelectStep(sel, i, collision[i]), collision, i + 1)
  }

  /** A cell already taken before cell i stays selected to the end. */
  lemma {:induction false} SweepKeepsTaken(v: nat, collision: seq<bool>, i: nat)
    requires v < i <= |collision|
    ensures Sweep(Some(v), collision, i) == Some(v)
    decreases |collision| - i
  {
    if i < |collision| {
      SweepKeepsTaken(v, collision, i + 1);
    }
  }

  /** With nothing in hand at cell i, the sweep takes the first colliding cell from i on. */
  lemma {:induction false} SweepFromNothing(collision: seq<bool>, i: nat)
    requires i <= |collision|
    ensures Sweep(None, collision, i) == FirstTrue(collision, i)
    decreases |collision| - i
  {
    if i < |collision| {
      if collision[i] {
        SweepKeepsTaken(i, collision, i + 1);
      } else {
        SweepFromNothing(collision, i + 1);
      }
    }
  }

  /** With cell p in hand and p not yet reached, the sweep computes the winner. */
  lemma {:induction false} SweepFromHeld(p: nat, collision: seq<bool>, i: nat)
    requires i <= p < |collision|
    ensures Sweep(Some(p), collision, i) == Winner(Some(p), collision)
    decreases |collision| - i
  {
    if i < p {
      SweepFromHeld(p, collision, i + 1);
    } else if collision[p] {
      SweepKeepsTaken(p, collision, p + 1);
    } else {
      SweepFromNothing(collision, p + 1);
    }
  }

  /** The whole selection loop computes the winner. */
  lemma SweepIsWinner(prev: Option<nat>, collision: seq<bool>)
    requires prev.Some? ==> prev.value < |collision|
    ensures Sweep(prev, collision, 0) == Winner(prev, collision)
  {
    match prev
    case None => SweepFromNothing(collision, 0);
    case Some(p) => SweepFromHeld(p, collision, 0);
  }

  /** The selected flags of n cells when only `w` is selected. */
  function Flags(w: Option<nat>, n: nat): (f: seq<bool>)
    ensures |f| == n && AtMostOne(f)
    ensures forall k :: 0 <= k < n ==> (f[k] <==> w == Some(k))
  {
    seq(n, k => w == Some(k))
  }

  /** With nothing held, the lowest-index colliding cell is selected, and only it. */
  lemma FreshSelectionIsLowest(collision: seq<bool>, k: nat)
    requires k < |collision|
    ensures Winner(None, collision) == Some(k) <==>
      collision[k] && forall m :: 0 <= m < k ==> !collision[m]
  {
    if collision[k] && forall m :: 0 <= m < k ==> !collision[m] {
      FirstTrueUnique(collision, 0, Some(k));
    }
  }

  /** With nothing held, nothing is selected exactly when no cell collides. */
  lemma NoCollisionNoSelection(collision: seq<bool>)
    ensures Winner(None, collision) == None <==> forall k :: 0 <= k < |collision| ==> !collision[k]
  {
  }

  /** A held cell keeps the selection exactly when it still collides. */
  lemma HeldKeptIffColliding(p: nat, collision: seq<bool>)
    requires p < |collision|
    ensures Winner(Some(p), collision) == Some(p) <==> collision[p]
  {
  }

  /**
   * When the held cell stops colliding, the selection passes to the first
   * colliding cell after it, or to none; never to a cell before it.
   */
  lemma LaterCellTakesOver(p: nat, collision: seq<bool>, k: nat)
    requires p < |collision| && k < |collision| && !collision[p]
    ensures Winner(Some(p), collision) == Some(k) <==>
      p < k && collision[k] && forall m :: p < m < k ==> !collision[m]
  {
    if p < k && collision[k] && forall m :: p < m < k ==> !collision[m] {
      FirstTrueUnique(collision, p + 1, Some(k));
    }
  }
}
