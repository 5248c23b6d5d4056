/**
 * The input block at the top of each frame: with a cell selected, holding the
 * left button with shift anchors a connect gesture at it, holding the button
 * without shift drags it (owned cells only), and releasing shift or the
 * button over a different cell toggles the link between that cell and the
 * anchor. Any release ends the gesture.
 */
module Gesture {
  import opened Optional
  import opened Scan
  import opened Adjacency

  /**
   * The frame's input, already decoded: the left button and left shift held,
   * and whether either was released this frame.
   */
  datatype Input = Input(mouseDown: bool, shiftDown: bool, shiftReleased: bool, mouseReleased: bool)
  {
    predicate Released()
    {
      shiftReleased || mouseReleased
    }
  }

  /** What happens to the selected cell's drag binding. */
  datatype Binding = KeepBinding | Attach | Detach

  /** What happens to the adjacency relation. */
  datatype EdgeChange = NoEdgeChange | Link(a: nat, b: nat) | Unlink(a: nat, b: nat)

  /** The effect of one frame's input: the new anchor, the binding change, the edge change. */
  datatype Response = Response(anchor: Option<nat>, binding: Binding, edge: EdgeChange)

  /** The cell indices an edge change names are below n. */
  predicate EdgeWithin(e: EdgeChange, n: nat)
  {
    match e
    case NoEdgeChange => true
    case Link(a, b) => a < n && b < n
    case Unlink(a, b) => a < n && b < n
  }

  /**
   * The anchor after the button block: with a cell selected, the button and
   * shift held and no gesture in progress, the gesture is anchored there.
   */
  function HeldAnchor(sel: Option<nat>, anchor: Option<nat>, input: Input): (r: Option<nat>)
    ensures r == anchor || (r == sel && anchor.None?)
  {
    if sel.Some? && input.mouseDown && input.shiftDown && anchor.None? then sel else anchor
  }

  /** The binding change of the button block for the selected cell. */
  function BindingFor(owned: seq<bool>, sel: Option<nat>, input: Input): (b: Binding)
    requires sel.Some? ==> sel.value < |owned|
    ensures sel.None? ==> b == KeepBinding
  {
    if sel.None? then KeepBinding
    else if !input.mouseDown then Detach
    else if !input.shiftDown && owned[sel.value] then Attach
    else KeepBinding
  }

  /** The link toggle between the selected cell and the anchor on a release. */
  function EdgeFor(rows: seq<seq<bv8>>, owned: seq<bool>, sel: Option<nat>, held: Option<nat>, input: Input): (e: EdgeChange)
    requires Fits(rows, |owned|)
    requires sel.Some? ==> sel.value < |owned|
    requires held.Some? ==> held.value < |owned|
    ensures EdgeWithin(e, |owned|)
  {
    if sel.Some? && held.Some? && held.value != sel.value && input.Released() then
      var s := sel.value;
      if Linked(rows, s, held.value) then Unlink(s, held.value)
      else if owned[s] || owned[held.value] then Link(s, held.value)
      else NoEdgeChange
    else NoEdgeChange
  }

  /**
   * The response to `input` given the cell `sel` selected at the start of the
   * frame, the anchor `anchor` left by earlier frames, the links and the owned
   * flags. The toggle sees the anchor as just updated by this frame's input.
   */
  function Respond(rows: seq<seq<bv8>>, owned: seq<bool>, sel: Option<nat>, anchor: Option<nat>, input: Input): (r: Response)
    requires Fits(rows, |owned|)
    requires sel.Some? ==> sel.value < |owned|
    requires anchor.Some? ==> anchor.value < |owned|
    ensures r.anchor.Some? ==> r.anchor.value < |owned|
    ensures EdgeWithin(r.edge, |owned|)
  {
    var held := HeldAnchor(sel, anchor, input);
    Response(if input.Released() then None else held,
             BindingFor(owned, sel, input),
             EdgeFor(rows, owned, sel, held, input))
  }

  /**
   * The rows after an edge change: a link connects the pair, an unlink
   * disconnects it, and only the rows of its two cells are written.
   */
  function ApplyEdge(rows: seq<seq<bv8>>, e: EdgeChange): (r: seq<seq<bv8>>)
    requires Fits(rows, |rows|) && EdgeWithin(e, |rows|)
    ensures Fits(r, |rows|)
    ensures e.NoEdgeChange? ==> r == rows
    ensures e.Link? ==> Linked(r, e.a, e.b) && Linked(r, e.b, e.a)
    ensures e.Unlink? ==> !Linked(r, e.a, e.b) && !Linked(r, e.b, e.a)
    ensures !e.NoEdgeChange? ==> forall x :: 0 <= x < |rows| && x != e.a && x != e.b ==> r[x] == rows[x]
  {
    match e
    case NoEdgeChange => rows
    case Link(a, b) => ConnectRows(rows, a, b)
    case Unlink(a, b) => DisconnectRows(rows, a, b)
  }

  /** The binding flags after a binding change of the selected cell. */
  function ApplyBinding(attached: seq<bool>, sel: Option<nat>, b: Binding): (r: seq<bool>)
    requires sel.Some? ==> sel.value < |attached|
    ensures |r| == |attached|
    ensures forall k :: 0 <= k < |attached| && sel != Some(k) ==> r[k] == attached[k]
    ensures sel.Some? && b.Attach? ==> r[sel.value]
    ensures sel.Some? && b.Detach? ==> !r[sel.value]
    ensures sel.Some? && b.KeepBinding? ==> r[sel.value] == attached[sel.value]
  {
    match b
    case KeepBinding => attached
    case Attach => if sel.Some? then attached[sel.value := true] else attached
    case Detach => if sel.Some? then attached[sel.value := false] else attached
  }

  /** A release of shift or the button always ends the gesture. */
  lemma ReleaseClearsAnchor(rows: seq<seq<bv8>>, owned: seq<bool>, sel: Option<nat>, anchor: Option<nat>, input: Input)
    requires Fits(rows, |owned|)
    requires sel.Some? ==> sel.value < |owned|
    requires anchor.Some? ==> anchor.value < |owned|
    requires input.Released()
    ensures Respond(rows, owned, sel, anchor, input).anchor == None
  {
  }

  /**
   * A gesture starts only at the selected cell, with the button and shift held
   * and nothing released; once started it persists until a release.
   */
  lemma AnchorLifecycle(rows: seq<seq<bv8>>, owned: seq<bool>, sel: Option<nat>, anchor: Option<nat>, input: Input)
    requires Fits(rows, |owned|)
    requires sel.Some? ==> sel.value < |owned|
    requires anchor.Some? ==> anchor.value < |owned|
    ensures var r := Respond(rows, owned, sel, anchor, input);
      (anchor.None? && r.anchor.Some? <==>
        anchor.None? && sel.Some? && input.mouseDown && input.shiftDown && !input.Released()) &&
      (anchor.None? && r.anchor.Some? ==> r.anchor == sel) &&
      (anchor.Some? ==> r.anchor == if input.Released() then None else anchor)
  {
  }

  /**
   * The link only changes on a release with a selected cell and an anchor that
   * was already held before this frame and is a different cell; the change is
   * always between those two cells.
   */
  lemma EdgeChangeNeedsTwoCells(rows: seq<seq<bv8>>, owned: seq<bool>, sel: Option<nat>, anchor: Option<nat>, input: Input)
    requires Fits(rows, |owned|)
    requires sel.Some? ==> sel.value < |owned|
    requires anchor.Some? ==> anchor.value < |owned|
    ensures var e := Respond(rows, owned, sel, anchor, input).edge;
      e != NoEdgeChange ==>
        sel.Some? && anchor.Some? && sel != anchor && input.Released() &&
        (e == Link(sel.value, anchor.value) || e == Unlink(sel.value, anchor.value))
  {
  }

  /**
   * On a release over a different cell the link is toggled: a linked pair is
   * unlinked; an unlinked pair is linked only if one of its cells is owned.
   */
  lemma ReleaseToggles(rows: seq<seq<bv8>>, owned: seq<bool>, s: nat, a: nat, input: Input)
    requires Fits(rows, |owned|) && s < |owned| && a < |owned| && s != a
    requires input.Released()
    ensures var e := Respond(rows, owned, Some(s), Some(a), input).edge;
      e == if Linked(rows, s, a) then Unlink(s, a)
           else if owned[s] || owned[a] then Link(s, a)
           else NoEdgeChange
  {
  }

  /**
   * The drag binding is attached only to an owned selected cell with the button
   * held and shift up, and dropped exactly when a cell is selected and the
   * button is up.
   */
  lemma BindingRules(rows: seq<seq<bv8>>, owned: seq<bool>, sel: Option<nat>, anchor: Option<nat>, input: Input)
    requires Fits(rows, |owned|)
    requires sel.Some? ==> sel.value < |owned|
    requires anchor.Some? ==> anchor.value < |owned|
    ensures var b := Respond(rows, owned, sel, anchor, input).binding;
      (b == Attach <==> sel.Some? && owned[sel.value] && input.mouseDown && !input.shiftDown) &&
      (b == Detach <==> sel.Some? && !input.mouseDown)
  {
  }

  /** The edge change of a frame keeps the rows symmetric. */
  lemma RespondKeepsSymmetric(rows: seq<seq<bv8>>, owned: seq<bool>, sel: Option<nat>, anchor: Option<nat>, input: Input)
    requires Fits(rows, |owned|) && Symmetric(rows)
    requires sel.Some? ==> sel.value < |owned|
    requires anchor.Some? ==> anchor.value < |owned|
    ensures Symmetric(ApplyEdge(rows, Respond(rows, owned, sel, anchor, input).edge))
  {
    match Respond(rows, owned, sel, anchor, input).edge
    case NoEdgeChange =>
    case Link(a, b) => ConnectKeepsSymmetric(rows, a, b);
    case Unlink(a, b) => DisconnectKeepsSymmetric(rows, a, b);
  }

  /**
   * When neither the selected cell nor the anchor is owned, a gesture can only
   * remove links: no pair ends up linked that was not linked before.
   */
  lemma UnownedPairCannotLink(rows: seq<seq<bv8>>, owned: seq<bool>, s: nat, anchor: Option<nat>, input: Input, x: nat, y: nat)
    requires Fits(rows, |owned|) && s < |owned| && x < |owned| && y < |owned|
    requires anchor.Some? ==> anchor.value < |owned| && !owned[anchor.value]
    requires !owned[s]
    requires Linked(ApplyEdge(rows, Respond(rows, owned, Some(s), anchor, input).edge), x, y)
    ensures Linked(rows, x, y)
  {
    var e := Respond(rows, owned, Some(s), anchor, input).edge;
    if e.Unlink? {
      DisconnectBits(rows, e.a, e.b, x, y);
      DisconnectBits(rows, e.a, e.b, y, x);
    }
  }
}
