/**
 * The state `main` keeps across frames: the fixed pool of CELLS_COUNT cells
 * (root flag, owned, selected, drag binding, display colour), one adjacency
 * row of FS bytes per cell, and the cell a connect gesture is anchored at.
 * Each method is one block of the frame loop and is proved against the pure
 * definitions of the Ownership, Selection and Gesture modules.
 */
module Symbiosis {
  import opened Optional
  import opened Scan
  import opened BitArray
  import opened Adjacency
  import Ownership
  import Selection
  import opened Gesture

  /** CELLS_COUNT: the size of the cell pool. */
  const CellsCount: nat := 15

  /** The one root cell (`def` holds for `i - 7 == 0`). */
  const RootCell: nat := 7

  /** The root flags `def`: cell RootCell is the only root. */
  function Roots(): (r: seq<bool>)
    ensures |r| == CellsCount
    ensures forall k :: 0 <= k < CellsCount ==> (r[k] <==> k == RootCell)
  {
    seq(CellsCount, i => i == RootCell)
  }

  datatype Color = Red | Orange | Lime

  const NormalColor: Color := Red
  const OwnedColor: Color := Orange
  const SelectedColor: Color := Lime

  /** Cell_updateColor: selection shows over ownership, ownership over the plain colour. */
  function DisplayColor(selected: bool, owned: bool): (c: Color)
    ensures c == SelectedColor <==> selected
    ensures c == OwnedColor <==> !selected && owned
    ensures c == NormalColor <==> !selected && !owned
  {
    if selected then SelectedColor else if owned then OwnedColor else NormalColor
  }

  /** `char conns[CELLS_COUNT][FS] = {{0}}`: one zeroed row per cell, no two shared. */
  method NewRows() returns (rows: array<array<bv8>>, ghost repr: set<object>)
    ensures fresh(rows) && rows.Length == CellsCount
    ensures repr == (set i | 0 <= i < CellsCount :: rows[i] as object) && fresh(repr)
    ensures forall k :: 0 <= k < CellsCount ==> fresh(rows[k]) && rows[k][..] == [0, 0]
    ensures forall k, l :: 0 <= k < l < CellsCount ==> rows[k] != rows[l]
  {
    var spare := new bv8[RowBytes](_ => 0);
    rows := new array<bv8>[CellsCount](_ => spare);
    for i := 0 to CellsCount
      invariant forall k :: 0 <= k < i ==> fresh(rows[k]) && rows[k][..] == [0, 0]
      invariant forall k, l :: 0 <= k < l < i ==> rows[k] != rows[l]
    {
      rows[i] := new bv8[RowBytes](_ => 0);
    }
    repr := set i | 0 <= i < CellsCount :: rows[i] as object;
    assert fresh(repr) by {
      forall o | o in repr
        ensures fresh(o)
      {
        var i :| 0 <= i < CellsCount && o == rows[i] as object;
      }
    }
  }

  class World {
    /** Root flags (`def`), fixed when the pool is built. */
    const def: seq<bool>
    /** `conns`: one packed adjacency row per cell. */
    const conns: array<array<bv8>>
    const owned: array<bool>
    const selected: array<bool>
    /** Whether the cell is bound to the pointer (`attached_box` non-null). */
    const attached: array<bool>
    const color: array<Color>
    /** `connecting_cell`: where a connect gesture is anchored, if one is in progress. */
    var connecting: Option<nat>

    /** The contents of the adjacency rows. */
    ghost var Rows: seq<seq<bv8>>
    ghost const RowRepr: set<object>
    ghost const Repr: set<object>

    /** The root flags, the arrays' sizes, and which arrays may share storage: none do. */
    ghost predicate Footprint()
      reads this, conns
    {
      && Repr == {conns as object, owned, selected, attached, color} + RowRepr
      && def == Roots() && conns.Length == CellsCount
      && owned.Length == CellsCount && selected.Length == CellsCount
      && attached.Length == CellsCount && color.Length == CellsCount
      && owned != selected && owned != attached && selected != attached
      && RowRepr == (set i | 0 <= i < CellsCount :: conns[i] as object)
      && conns !in RowRepr && owned !in RowRepr && selected !in RowRepr
      && attached !in RowRepr && color !in RowRepr
      && (forall i, j :: 0 <= i < j < CellsCount ==> conns[i] != conns[j])
    }

    /** The ghost rows mirror the packed rows, which are symmetric. */
    ghost predicate Mirror()
      reads this, conns, RowRepr
      requires Footprint()
    {
      && |Rows| == CellsCount
      && (forall i :: 0 <= i < CellsCount ==> conns[i][..] == Rows[i])
      && Fits(Rows, CellsCount)
      && Symmetric(Rows)
    }

    /** The shape of the state, the mirror of the rows and the anchor's range. */
    ghost predicate Layout()
      reads this, conns, RowRepr
    {
      Footprint() && Mirror() && (connecting.Some? ==> connecting.value < CellsCount)
    }

    /** The state between frames: the layout, and at most one cell selected. */
    ghost predicate Valid()
      reads this, conns, RowRepr, selected
    {
      Layout() && AtMostOne(selected[..])
    }

    /** Cell k shows the colour its flags call for. */
    ghost predicate Painted(k: nat)
      reads this, selected, owned, color
      requires k < selected.Length && k < owned.Length && k < color.Length
    {
      color[k] == DisplayColor(selected[k], owned[k])
    }

    /** Every cell shows the colour its flags call for. */
    ghost predicate ColorsCurrent()
      reads this, conns, selected, owned, color
      requires Footprint()
    {
      forall k :: 0 <= k < CellsCount ==> Painted(k)
    }

    /**
     * The pool as `main` builds it: no links, only the root cell owned, nothing
     * selected, bound or anchored, every cell drawn in the plain colour.
     */
    constructor ()
      ensures Valid() && fresh(Repr)
      ensures def == Roots()
      ensures owned[..] == def
      ensures selected[..] == seq(CellsCount, _ => false)
      ensures attached[..] == seq(CellsCount, _ => false)
      ensures color[..] == seq(CellsCount, _ => NormalColor)
      ensures Rows == Unlinked(CellsCount)
      ensures connecting == None
    {
      var rows, repr := NewRows();
      def := Roots();
      conns := rows;
      owned := new bool[CellsCount](i => i == RootCell);
      selected := new bool[CellsCount](_ => false);
      attached := new bool[CellsCount](_ => false);
      color := new Color[CellsCount](_ => NormalColor);
      connecting := None;
      Rows := Unlinked(CellsCount);
      RowRepr := repr;
      Repr := {rows as object, owned, selected, attached, color} + RowRepr;
      new;
      assert Footprint();
      UnlinkedIsEmpty(CellsCount);
      assert Mirror();
    }

    /** Cell_AreCellsConnected: both directional bits are set. */
    function AreConnected(a: nat, b: nat): (r: bool)
      reads this, conns, RowRepr
      requires Layout() && a < CellsCount && b < CellsCount
      ensures r == Linked(Rows, a, b)
    {
      Test(conns[a][..], b) && Test(conns[b][..], a)
    }

    /** Cell_ConnectCells: sets the bit of each cell in the other's row. */
    method Connect(a: nat, b: nat)
      requires Layout() && a < CellsCount && b < CellsCount
      modifies this`Rows, conns[a], conns[b]
      ensures Layout()
      ensures Rows == ConnectRows(old(Rows), a, b)
    {
      SetBit(conns[a], b);
      SetBit(conns[b], a);
      ConnectKeepsSymmetric(Rows, a, b);
      Rows := ConnectRows(Rows, a, b);
    }

    /** Cell_DisconnectCells: clears the bit of each cell in the other's row. */
    method Disconnect(a: nat, b: nat)
      requires Layout() && a < CellsCount && b < CellsCount
      modifies this`Rows, conns[a], conns[b]
      ensures Layout()
      ensures Rows == DisconnectRows(old(Rows), a, b)
    {
      UnsetBit(conns[a], b);
      UnsetBit(conns[b], a);
      DisconnectKeepsSymmetric(Rows, a, b);
      Rows := DisconnectRows(Rows, a, b);
    }

    /** Cell_setOwned: a root cell stays owned whatever it is told. */
    method SetOwned(i: nat, x: bool)
      requires Footprint() && i < CellsCount
      modifies owned, color
      ensures owned[..] == old(owned[..])[i := def[i] || x]
      ensures color[..] == old(color[..])[i := DisplayColor(selected[i], def[i] || x)]
      ensures Painted(i) && forall k :: 0 <= k < CellsCount && k != i ==> (Painted(k) <==> old(Painted(k)))
    {
      owned[i] := def[i] || x;
      color[i] := DisplayColor(selected[i], owned[i]);
    }

    /** Cell_setSelected. */
    method SetSelected(i: nat, x: bool)
      requires Footprint() && i < CellsCount
      modifies selected, color
      ensures selected[..] == old(selected[..])[i := x]
      ensures color[..] == old(color[..])[i := DisplayColor(x, owned[i])]
      ensures Painted(i) && forall k :: 0 <= k < CellsCount && k != i ==> (Painted(k) <==> old(Painted(k)))
    {
      selected[i] := x;
      color[i] := DisplayColor(selected[i], owned[i]);
    }

    /** Cell_boundToBox with the pointer box, as a flag. */
    method BindToPointer(i: nat)
      requires Footprint() && i < CellsCount
      modifies attached
      ensures attached[..] == old(attached[..])[i := true]
    {
      attached[i] := true;
    }

    /** Cell_unbound, as a flag. */
    method Unbind(i: nat)
      requires Footprint() && i < CellsCount
      modifies attached
      ensures attached[..] == old(attached[..])[i := false]
    {
      attached[i] := false;
    }

    /** The frame's first loop: the first cell whose selected flag is set. */
    method FindSelected() returns (sel: Option<nat>)
      requires Layout()
      ensures sel == FirstTrue(selected[..], 0)
    {
      sel := None;
      for i := 0 to CellsCount
        invariant forall k :: 0 <= k < i ==> !selected[k]
      {
        if selected[i] {
          sel := Some(i);
          FirstTrueUnique(selected[..], 0, sel);
          return;
        }
      }
    }

    /**
     * The button block for the selected cell s: anchor a connect gesture with
     * shift held, bind an owned cell to the pointer without shift, unbind it
     * when the button is up.
     */
    method PressOrRelease(s: nat, input: Input)
      requires Layout() && s < CellsCount
      modifies this`connecting, attached
      ensures Layout()
      ensures connecting == HeldAnchor(Some(s), old(connecting), input)
      ensures attached[..] == ApplyBinding(old(attached[..]), Some(s), BindingFor(owned[..], Some(s), input))
    {
      if input.mouseDown {
        if input.shiftDown {
          if connecting.None? {
            connecting := Some(s);
          }
        } else {
          if owned[s] {
            BindToPointer(s);
          }
        }
      } else {
        Unbind(s);
      }
    }

    /**
     * The release test: on a release of shift or the button over a cell s other
     * than the anchor, toggle their link.
     */
    method ToggleOnRelease(s: nat, input: Input)
      requires Layout() && s < CellsCount
      modifies this`Rows, RowRepr
      ensures Layout()
      ensures Rows == ApplyEdge(old(Rows), EdgeFor(old(Rows), owned[..], Some(s), connecting, input))
    {
      if connecting.Some? && connecting.value != s && input.Released() {
        var c := connecting.value;
        if AreConnected(s, c) {
          Disconnect(s, c);
        } else if owned[s] || owned[c] {
          Connect(s, c);
        }
      }
    }

    /** The input block: anchor, drag binding and link toggle for one frame. */
    method HandleInput(sel: Option<nat>, input: Input)
      requires Valid() && (sel.Some? ==> sel.value < CellsCount)
      modifies this`connecting, this`Rows, attached, RowRepr
      ensures Valid()
      ensures var r := Respond(old(Rows), owned[..], sel, old(connecting), input);
        && connecting == r.anchor
        && Rows == ApplyEdge(old(Rows), r.edge)
        && attached[..] == ApplyBinding(old(attached[..]), sel, r.binding)
    {
      if sel.Some? {
        PressOrRelease(sel.value, input);
        ToggleOnRelease(sel.value, input);
      }
      if connecting.Some? && input.Released() {
        connecting := None;
      }
    }

    /**
     * The inner loop of the ownership pass for cell i: the first partner j,
     * in index order, that is connected to i while i or j is owned.
     */
    method FindPartner(i: nat) returns (p: Option<nat>)
      requires Layout() && i < CellsCount
      ensures p == FirstTrue(Ownership.Candidates(Links(Rows), owned[..], i), 0)
    {
      ghost var cands := Ownership.Candidates(Links(Rows), owned[..], i);
      for j := 0 to CellsCount
        invariant FirstTrue(cands, j) == FirstTrue(cands, 0)
      {
        if i == j {
          continue;
        }
        if AreConnected(i, j) {
          if owned[i] || owned[j] {
            assert cands[j];
            return Some(j);
          }
        }
      }
      return None;
    }

    /**
     * One iteration of the ownership pass's outer loop: reset cell i to its
     * root flag, then own it and its first linked partner for which either
     * side is owned. Cell i and that partner are recoloured; every other
     * cell keeps its colour.
     */
    method UpdateCellOwnership(i: nat)
      requires Layout() && i < CellsCount
      modifies owned, color
      ensures owned[..] == Ownership.OwnStep(def, Links(Rows), old(owned[..]), i)
      ensures var partner := Ownership.Partner(def, Links(Rows), old(owned[..]), i);
        forall k :: 0 <= k < CellsCount ==>
          color[k] == if k == i || partner == Some(k) then DisplayColor(selected[k], owned[k]) else old(color[k])
      ensures Painted(i)
      ensures forall k :: 0 <= k < CellsCount && old(Painted(k)) ==> Painted(k)
    {
      SetOwned(i, false);
      var p := FindPartner(i);
      if p.Some? {
        SetOwned(i, true);
        SetOwned(p.value, true);
      }
    }

    /** The ownership pass, run in place over the owned flags. */
    method UpdateOwnership()
      requires Valid()
      modifies owned, color
      ensures Valid()
      ensures owned[..] == Ownership.Pass(def, Links(Rows), old(owned[..]))
      ensures ColorsCurrent()
    {
      for i := 0 to CellsCount
        invariant Ownership.PassFrom(def, Links(Rows), owned[..], i) == Ownership.Pass(def, Links(Rows), old(owned[..]))
        invariant forall k :: 0 <= k < i ==> Painted(k)
      {
        UpdateCellOwnership(i);
      }
    }

    /**
     * The selection pass: `prev` is the cell selected when the frame started;
     * the result is the cell selected now.
     */
    method UpdateSelection(prev: Option<nat>, collision: seq<bool>) returns (sel: Option<nat>)
      requires Layout() && |collision| == CellsCount && (prev.Some? ==> prev.value < CellsCount)
      modifies selected, color
      ensures Valid()
      ensures sel == Selection.Winner(prev, collision)
      ensures selected[..] == Selection.Flags(sel, CellsCount)
      ensures ColorsCurrent()
    {
      sel := prev;
      for i := 0 to CellsCount
        invariant sel.Some? ==> sel.value < CellsCount
        invariant Selection.Sweep(sel, collision, i) == Selection.Sweep(prev, collision, 0)
        invariant forall k :: 0 <= k < i ==> (selected[k] <==> sel == Some(k))
        invariant forall k :: 0 <= k < i ==> Painted(k)
      {
        if sel.None? {
          SetSelected(i, collision[i]);
          if collision[i] {
            sel := Some(i);
          }
        } else if i != sel.value {
          SetSelected(i, false);
        } else {
          SetSelected(i, collision[i]);
          if !collision[i] {
            sel := None;
          }
        }
      }
      Selection.SweepIsWinner(prev, collision);
    }

    /**
     * One frame of the loop: find the selected cell, apply the input, run the
     * ownership pass, then the selection pass. `collision[i]` says whether cell
     * i overlaps the pointer after the input was applied.
     */
    method Frame(input: Input, collision: seq<bool>)
      requires Valid() && |collision| == CellsCount
      modifies this`connecting, this`Rows, RowRepr, attached, owned, selected, color
      ensures Valid() && ColorsCurrent()
      ensures var prev := FirstTrue(old(selected[..]), 0);
        var r := Respond(old(Rows), old(owned[..]), prev, old(connecting), input);
        && connecting == r.anchor
        && Rows == ApplyEdge(old(Rows), r.edge)
        && attached[..] == ApplyBinding(old(attached[..]), prev, r.binding)
        && owned[..] == Ownership.Pass(def, Links(Rows), old(owned[..]))
        && selected[..] == Selection.Flags(Selection.Winner(prev, collision), CellsCount)
    {
      var prev := FindSelected();
      HandleInput(prev, input);
      UpdateOwnership();
      var _ := UpdateSelection(prev, collision);
    }
  }
}
