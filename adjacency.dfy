/**
 * The connection relation between cells: one packed bit row per cell
 * (`conns[CELLS_COUNT][FS]`), where bit j of row i says that i lists j as a
 * partner. Connect and disconnect write both rows; the query reads both.
 */
module Adjacency {
  import opened BitArray

  /** Bytes per adjacency row (FS). */
  const RowBytes: nat := 2

  /** `n` rows of RowBytes bytes each, wide enough to hold a bit per cell. */
  predicate Fits(rows: seq<seq<bv8>>, n: nat)
  {
    |rows| == n && n <= CharBit * RowBytes &&
    forall i :: 0 <= i < n ==> |rows[i]| == RowBytes
  }

  /** Cell_AreCellsConnected: both directional bits are set. */
  predicate Linked(rows: seq<seq<bv8>>, a: nat, b: nat)
    requires Fits(rows, |rows|) && a < |rows| && b < |rows|
  {
    Test(rows[a], b) && Test(rows[b], a)
  }

  /** Every directional bit agrees with its mirror image. */
  predicate Symmetric(rows: seq<seq<bv8>>)
    requires Fits(rows, |rows|)
  {
    forall i, j :: 0 <= i < |rows| && 0 <= j < |rows| ==> (Test(rows[i], j) <==> Test(rows[j], i))
  }

  /**
   * The link relation the rest of the program queries: entry (i, k) says
   * whether cells i and k are connected.
   */
  function Links(rows: seq<seq<bv8>>): (m: seq<seq<bool>>)
    requires Fits(rows, |rows|)
    ensures |m| == |rows|
    ensures forall i :: 0 <= i < |rows| ==> |m[i]| == |rows|
    ensures forall i, k :: 0 <= i < |rows| && 0 <= k < |rows| ==> m[i][k] == Linked(rows, i, k)
  {
    seq(|rows|, i requires 0 <= i < |rows| =>
      seq(|rows|, k requires 0 <= k < |rows| => Linked(rows, i, k)))
  }

  /** `n` zeroed rows: `char conns[CELLS_COUNT][FS] = {{0}}`. */
  function Unlinked(n: nat): (rows: seq<seq<bv8>>)
    requires n <= CharBit * RowBytes
    ensures Fits(rows, n)
  {
    seq(n, _ => [0, 0])
  }

  /** Zeroed rows hold no directional bit, so no pair is linked and they are symmetric. */
  lemma UnlinkedIsEmpty(n: nat)
    requires n <= CharBit * RowBytes
    ensures forall a, b :: 0 <= a < n && 0 <= b < CharBit * RowBytes ==> !Test(Unlinked(n)[a], b)
    ensures Symmetric(Unlinked(n))
  {
    forall a, b | 0 <= a < n && 0 <= b < CharBit * RowBytes
      ensures !Test(Unlinked(n)[a], b)
    {
      assert Unlinked(n)[a][b / CharBit] == 0;
    }
  }

  /** Whether directional bit (x, y) is one of the two bits of the pair {a, b}. */
  predicate IsPair(x: nat, y: nat, a: nat, b: nat)
  {
    (x == a && y == b) || (x == b && y == a)
  }

  /**
   * Rows after Cell_ConnectCells(a, b): bit b of row a, then bit a of row b.
   * No other row is written.
   */
  function ConnectRows(rows: seq<seq<bv8>>, a: nat, b: nat): (r: seq<seq<bv8>>)
    requires Fits(rows, |rows|) && a < |rows| && b < |rows|
    ensures Fits(r, |rows|)
    ensures forall x :: 0 <= x < |rows| && x != a && x != b ==> r[x] == rows[x]
  {
    var first := rows[a := Set(rows[a], b)];
    first[b := Set(first[b], a)]
  }

  /**
   * Rows after Cell_DisconnectCells(a, b): clears bit b of row a, then bit a
   * of row b. No other row is written.
   */
  function DisconnectRows(rows: seq<seq<bv8>>, a: nat, b: nat): (r: seq<seq<bv8>>)
    requires Fits(rows, |rows|) && a < |rows| && b < |rows|
    ensures Fits(r, |rows|)
    ensures forall x :: 0 <= x < |rows| && x != a && x != b ==> r[x] == rows[x]
  {
    var first := rows[a := Unset(rows[a], b)];
    first[b := Unset(first[b], a)]
  }

  /** Connect sets exactly the two bits of the pair and keeps every other bit. */
  lemma ConnectBits(rows: seq<seq<bv8>>, a: nat, b: nat, x: nat, y: nat)
    requires Fits(rows, |rows|) && a < |rows| && b < |rows| && x < |rows| && y < CharBit * RowBytes
    ensures Test(ConnectRows(rows, a, b)[x], y) <==> (IsPair(x, y, a, b) || Test(rows[x], y))
  {
    var first := rows[a := Set(rows[a], b)];
    if x == a {
      TestSet(rows[a], b, y);
    }
    if x == b {
      TestSet(first[b], a, y);
      if b == a {
        TestSet(rows[a], b, y);
      }
    }
  }

  /** Disconnect clears exactly the two bits of the pair and keeps every other bit. */
  lemma DisconnectBits(rows: seq<seq<bv8>>, a: nat, b: nat, x: nat, y: nat)
    requires Fits(rows, |rows|) && a < |rows| && b < |rows| && x < |rows| && y < CharBit * RowBytes
    ensures Test(DisconnectRows(rows, a, b)[x], y) <==> (!IsPair(x, y, a, b) && Test(rows[x], y))
  {
    var first := rows[a := Unset(rows[a], b)];
    if x == a {
      TestUnset(rows[a], b, y);
    }
    if x == b {
      TestUnset(first[b], a, y);
      if b == a {
        TestUnset(rows[a], b, y);
      }
    }
  }

  /** After connecting a and b, the pair is linked in both directions. */
  lemma ConnectLinks(rows: seq<seq<bv8>>, a: nat, b: nat)
    requires Fits(rows, |rows|) && a < |rows| && b < |rows|
    ensures Linked(ConnectRows(rows, a, b), a, b) && Linked(ConnectRows(rows, a, b), b, a)
  {
    ConnectBits(rows, a, b, a, b);
    ConnectBits(rows, a, b, b, a);
  }

  /** After disconnecting a and b, the pair is linked in neither direction. */
  lemma DisconnectUnlinks(rows: seq<seq<bv8>>, a: nat, b: nat)
    requires Fits(rows, |rows|) && a < |rows| && b < |rows|
    ensures !Linked(DisconnectRows(rows, a, b), a, b) && !Linked(DisconnectRows(rows, a, b), b, a)
  {
    DisconnectBits(rows, a, b, a, b);
    DisconnectBits(rows, a, b, b, a);
  }

  /** Connecting a and b leaves the link state of every other pair as it was. */
  lemma ConnectKeepsOtherPairs(rows: seq<seq<bv8>>, a: nat, b: nat, x: nat, y: nat)
    requires Fits(rows, |rows|) && a < |rows| && b < |rows| && x < |rows| && y < |rows|
    requires !IsPair(x, y, a, b)
    ensures Linked(ConnectRows(rows, a, b), x, y) <==> Linked(rows, x, y)
  {
    ConnectBits(rows, a, b, x, y);
    ConnectBits(rows, a, b, y, x);
  }

  /** Disconnecting a and b leaves the link state of every other pair as it was. */
  lemma DisconnectKeepsOtherPairs(rows: seq<seq<bv8>>, a: nat, b: nat, x: nat, y: nat)
    requires Fits(rows, |rows|) && a < |rows| && b < |rows| && x < |rows| && y < |rows|
    requires !IsPair(x, y, a, b)
    ensures Linked(DisconnectRows(rows, a, b), x, y) <==> Linked(rows, x, y)
  {
    DisconnectBits(rows, a, b, x, y);
    DisconnectBits(rows, a, b, y, x);
  }

  /** Connect writes both rows, so it keeps the rows symmetric. */
  lemma ConnectKeepsSymmetric(rows: seq<seq<bv8>>, a: nat, b: nat)
    requires Fits(rows, |rows|) && a < |rows| && b < |rows| && Symmetric(rows)
    ensures Symmetric(ConnectRows(rows, a, b))
  {
    forall i, j | 0 <= i < |rows| && 0 <= j < |rows|
      ensures Test(ConnectRows(rows, a, b)[i], j) <==> Test(ConnectRows(rows, a, b)[j], i)
    {
      ConnectBits(rows, a, b, i, j);
      ConnectBits(rows, a, b, j, i);
    }
  }

  /** Disconnect writes both rows, so it keeps the rows symmetric. */
  lemma DisconnectKeepsSymmetric(rows: seq<seq<bv8>>, a: nat, b: nat)
    requires Fits(rows, |rows|) && a < |rows| && b < |rows| && Symmetric(rows)
    ensures Symmetric(DisconnectRows(rows, a, b))
  {
    forall i, j | 0 <= i < |rows| && 0 <= j < |rows|
      ensures Test(DisconnectRows(rows, a, b)[i], j) <==> Test(DisconnectRows(rows, a, b)[j], i)
    {
      DisconnectBits(rows, a, b, i, j);
      DisconnectBits(rows, a, b, j, i);
    }
  }

  /** Rows of the same shape that agree on every bit below `8 * RowBytes` are equal. */
  lemma SameRows(r: seq<seq<bv8>>, t: seq<seq<bv8>>)
    requires Fits(r, |r|) && Fits(t, |r|)
    requires forall x: nat, y: nat :: x < |r| && y < CharBit * RowBytes ==> (Test(r[x], y) <==> Test(t[x], y))
    ensures r == t
  {
    forall x | 0 <= x < |r|
      ensures r[x] == t[x]
    {
      SameBits(r[x], t[x]);
    }
  }

  /** Connecting an already connected pair changes nothing: connect is idempotent. */
  lemma ConnectIdempotent(rows: seq<seq<bv8>>, a: nat, b: nat)
    requires Fits(rows, |rows|) && a < |rows| && b < |rows|
    ensures ConnectRows(ConnectRows(rows, a, b), a, b) == ConnectRows(rows, a, b)
  {
    var once := ConnectRows(rows, a, b);
    var twice := ConnectRows(once, a, b);
    forall x: nat, y: nat | x < |rows| && y < CharBit * RowBytes
      ensures Test(twice[x], y) <==> Test(once[x], y)
    {
      ConnectBits(once, a, b, x, y);
      ConnectBits(rows, a, b, x, y);
    }
    SameRows(twice, once);
  }

  /**
   * Disconnecting a pair that is not linked changes no row, provided the rows
   * are symmetric (so "not linked" means neither directional bit is set).
   */
  lemma DisconnectNonEdge(rows: seq<seq<bv8>>, a: nat, b: nat)
    requires Fits(rows, |rows|) && a < |rows| && b < |rows| && Symmetric(rows)
    requires !Linked(rows, a, b)
    ensures DisconnectRows(rows, a, b) == rows
  {
    var after := DisconnectRows(rows, a, b);
    forall x: nat, y: nat | x < |rows| && y < CharBit * RowBytes
      ensures Test(after[x], y) <==> Test(rows[x], y)
    {
      DisconnectBits(rows, a, b, x, y);
    }
    SameRows(after, rows);
  }
}
