# Symbiosis: the cell-graph engine of the frame loop

The program keeps a fixed pool of `CELLS_COUNT = 15` cells. Cell 7 is the only
root (`def`). Each cell has an owned flag, a selected flag, a drag binding to
the pointer and a display colour. Each cell also has one adjacency row of
`FS = 2` bytes, used as a packed bit array: bit `j` of row `i` says that `i`
lists `j` as a partner. Connecting or disconnecting two cells writes both rows.
Two cells are connected only when both bits are set.

Every frame runs four blocks over this state, in this order:

1. Find the first selected cell.
2. Apply the input to the selected cell. Holding shift and the button anchors
   a connect gesture. Holding the button without shift binds an owned cell to
   the pointer. While the button is up, the selected cell is unbound. A release over a different
   cell toggles the link between that cell and the anchor. Any release ends
   the gesture.
3. Run the ownership pass. This is a single in-place sweep in index order.
   Each cell is reset to its root flag. Its first linked partner for which
   either side is owned then makes both cells owned.
4. Run the selection pass. The previously selected cell keeps the selection
   while it still collides with the pointer. Otherwise the first colliding
   cell met afterwards takes it.

The model is layered as follows:

- `BitArray` holds the packed bits (`bv8` bytes).
- `Adjacency` holds the rows as values and the link relation they encode.
- `Ownership`, `Selection` and `Gesture` hold pure definitions of the three
  passes, with their properties as lemmas.
- `Scan` holds the "first index whose flag is set" search that the loops share.
- `Optional` holds the `Option` type used for "a cell index or none".
- `Symbiosis.World` is a class holding the pool's arrays. Its methods are the
  program's functions and frame blocks, and each is proved against the pure
  definitions.

Three consequences of the code are worth stating outright:

- **Ownership growth depends on cell order.** The sweep sees owned flags
  written earlier in the same sweep. What matters is the index order along a
  chain. A chain whose indices increase from the root outward is owned after
  one pass (`Ownership.AscendingChainOwnedInOnePass`). A chain whose indices
  decrease from the root outward gains one hop per pass
  (`Ownership.DescendingChainOneHopPerPass`).
- **Disconnecting from the root does not release ownership.** Two linked cells
  that are both owned are never un-owned by the pass
  (`Ownership.OwnedPairPersists`, `Ownership.CutChainStaysOwned`). An owned
  non-root cell is only guaranteed to have an owned linked partner
  (`Ownership.OwnedHaveOwnedPartner`), not a path to a root.
- **The root cell's starting colour is stale.** The root starts owned, but
  every colour starts as the plain colour. Colour consistency is therefore
  guaranteed only after a frame (`Symbiosis.World.Frame`), not at
  construction.

## Model

| member | source | states |
|---|---|---|
| `BitArray.Test` | src/main.c:29-37 | bit `idx` is read from byte `idx / 8` under the mask `1 << (idx % 8)` (definition; every other contract is stated through it) |
| `BitArray.Set` | src/main.c:11-18 | the array keeps its length and bit `idx` tests set; that no other bit changes is `BitArray.TestSet` |
| `BitArray.Unset` | src/main.c:20-27 | the array keeps its length and bit `idx` tests clear; that no other bit changes is `BitArray.TestUnset` |
| `BitArray.SetBit` | src/main.c:11-18 | the array afterwards is the old one with bit `idx` set in byte `idx / 8`, and no other byte changes |
| `BitArray.UnsetBit` | src/main.c:20-27 | the array afterwards is the old one with bit `idx` cleared in byte `idx / 8`, and no other byte changes |
| `BitArray.TestSet` | src/main.c:11-37 | after setting bit `i`, testing bit `j` is true iff `j == i` or bit `j` was already set |
| `BitArray.TestUnset` | src/main.c:20-37 | after clearing bit `i`, testing bit `j` is true iff `j != i` and bit `j` was set |
| `BitArray.SameBits` | src/main.c:29-37 | two packed arrays of one length on which every test agrees are equal |
| `Adjacency.Linked` | src/main.c:94-97 | a pair is connected iff both directional bits are set (definition) |
| `Adjacency.Unlinked` | src/main.c:151 | the zero-initialised rows have one two-byte row per cell |
| `Adjacency.ConnectRows` | src/main.c:82-86 | the rows keep their shape and only rows `a` and `b` are written |
| `Adjacency.DisconnectRows` | src/main.c:88-92 | the rows keep their shape and only rows `a` and `b` are written |
| `Adjacency.Links` | src/main.c:94-97 | entry `(i, k)` of the link relation is true iff both directional bits of the pair are set (definition) |
| `Adjacency.UnlinkedIsEmpty` | src/main.c:151 | the zero-initialised rows hold no bit, so no pair is linked, and they are symmetric |
| `Adjacency.ConnectBits` | src/main.c:82-86 | connecting `a`, `b` sets exactly the bits `(a, b)` and `(b, a)` and keeps every other bit |
| `Adjacency.DisconnectBits` | src/main.c:88-92 | disconnecting `a`, `b` clears exactly the bits `(a, b)` and `(b, a)` and keeps every other bit |
| `Adjacency.ConnectLinks` | src/main.c:82-97 | after connecting `a`, `b`, the pair tests connected in both argument orders |
| `Adjacency.DisconnectUnlinks` | src/main.c:88-97 | after disconnecting `a`, `b`, the pair tests connected in neither order |
| `Adjacency.ConnectKeepsOtherPairs` | src/main.c:82-97 | connecting `a`, `b` leaves the connected state of every other pair unchanged |
| `Adjacency.DisconnectKeepsOtherPairs` | src/main.c:88-97 | disconnecting `a`, `b` leaves the connected state of every other pair unchanged |
| `Adjacency.ConnectKeepsSymmetric` | src/main.c:82-86 | connect keeps every directional bit equal to its mirror |
| `Adjacency.DisconnectKeepsSymmetric` | src/main.c:88-92 | disconnect keeps every directional bit equal to its mirror |
| `Adjacency.SameRows` | src/main.c:94-97 | rows of one shape that agree on every bit are equal |
| `Adjacency.ConnectIdempotent` | src/main.c:82-86 | connecting twice gives the same rows as connecting once |
| `Adjacency.DisconnectNonEdge` | src/main.c:88-92 | on symmetric rows, disconnecting an unconnected pair changes no row |
| `Scan.FirstTrue` | src/main.c:180-187 | the result is the lowest index from `from` on whose flag is set, or none when no flag from `from` on is set |
| `Scan.FirstTrueIsOnly` | src/main.c:180-187 | when at most one flag is set, the first set flag is the only one |
| `Scan.FirstTrueUnique` | src/main.c:180-187 | any answer with the first-hit properties is the search's answer |
| `Ownership.Candidates` | src/main.c:240-245 | partner `k` passes the inner test for cell `i` iff `k != i`, the two are linked, and either is owned (definition) |
| `Ownership.Partner` | src/main.c:238-249 | the partner that ends the inner loop is linked to `i` with `i` a root or the partner owned, and every lower linked cell fails that test; none is found only when every linked cell fails it |
| `Ownership.OwnStep` | src/main.c:237-250 | one outer iteration keeps a root cell owned and never un-owns another cell |
| `Ownership.PassFrom` | src/main.c:235-251 | from cell `i` on, every visited owned cell stays owned and every unvisited root ends up owned |
| `Ownership.Pass` | src/main.c:235-251 | after the pass every root cell is owned, whatever its links |
| `Ownership.StepOwnsSelf` | src/main.c:237-250 | after its step, cell `i` is owned iff it is a root or has a linked partner that was owned |
| `Ownership.StepNewlyOwned` | src/main.c:237-250 | the step of cell `i` newly owns another cell only if it is linked to `i`, and then `i` is owned too |
| `Ownership.StepSkipsIsolated` | src/main.c:237-250 | the step of another cell leaves a cell with no links as it was |
| `Ownership.IsolatedOwnedIffRoot` | src/main.c:235-251 | after the pass a cell with no links is owned iff it is a root |
| `Ownership.OwnedHaveOwnedPartner` | src/main.c:235-251 | after the pass every owned non-root cell has a linked partner that is owned |
| `Ownership.OwnedPairPersists` | src/main.c:235-251 | two linked cells that were both owned are both owned after the pass |
| `Ownership.AscendingChainOwnedInOnePass` | src/main.c:235-251 | chain 0-1-2 with root 0: one pass owns all three cells |
| `Ownership.DescendingChainOneHopPerPass` | src/main.c:235-251 | chain 0-1-2 with root 2: the first pass owns cells 1 and 2 only, and the second owns all three |
| `Ownership.CutChainStaysOwned` | src/main.c:235-251 | with the root's link cut, owned cells 1 and 2, linked to each other, stay owned |
| `Selection.Winner` | src/main.c:254-277 | the cell left selected collides with the pointer |
| `Selection.Flags` | src/main.c:254-277 | the selected flags mark exactly the winner, so at most one cell is selected |
| `Selection.SelectStep` | src/main.c:256-276 | one iteration either keeps the cell in hand or, with nothing in hand, takes cell `i` only when it collides; a held cell other than `i` is kept |
| `Selection.Sweep` | src/main.c:254-277 | the loop from cell `i` ends with the cell in hand, with a colliding cell at or after `i`, or with nothing |
| `Selection.SweepKeepsTaken` | src/main.c:264-267 | once a cell is selected before index `i`, the rest of the loop keeps it |
| `Selection.SweepFromNothing` | src/main.c:259-263 | with nothing in hand at cell `i`, the loop selects the first colliding cell from `i` on |
| `Selection.SweepFromHeld` | src/main.c:254-277 | with cell `p` in hand and not yet reached, the loop ends with the winner |
| `Selection.SweepIsWinner` | src/main.c:254-277 | the whole selection loop ends with the winner |
| `Selection.FreshSelectionIsLowest` | src/main.c:259-263 | with nothing held, cell `k` wins iff it collides and no lower cell does |
| `Selection.NoCollisionNoSelection` | src/main.c:259-263 | with nothing held, nothing is selected iff no cell collides |
| `Selection.HeldKeptIffColliding` | src/main.c:268-275 | the held cell keeps the selection iff it still collides |
| `Selection.LaterCellTakesOver` | src/main.c:254-277 | when the held cell `p` stops colliding, `k` wins iff `k > p`, `k` collides and no cell between them does |
| `Gesture.HeldAnchor` | src/main.c:191-198 | the anchor either stays as it was, or is the selected cell when there was none |
| `Gesture.BindingFor` | src/main.c:189-211 | with no cell selected the binding is left alone |
| `Gesture.EdgeFor` | src/main.c:213-226 | the toggled pair consists of pool cells |
| `Gesture.Respond` | src/main.c:189-232 | the new anchor and the toggled pair are pool cells |
| `Gesture.ApplyEdge` | src/main.c:82-92 | a link change writes only the rows of its two cells, a link leaves the pair connected, an unlink leaves it unconnected, and no change leaves the rows as they were |
| `Gesture.ApplyBinding` | src/main.c:116-129 | only the selected cell's binding changes: attach binds it, detach unbinds it, keep leaves it |
| `Gesture.ReleaseClearsAnchor` | src/main.c:229-232 | any release of shift or the button leaves no anchor |
| `Gesture.AnchorLifecycle` | src/main.c:189-232 | an anchor appears iff a cell is selected, the button and shift are held, no anchor exists and nothing is released; it is then the selected cell; an existing anchor persists until a release |
| `Gesture.EdgeChangeNeedsTwoCells` | src/main.c:213-226 | links change only on a release with a selected cell and a different anchor, and only between those two |
| `Gesture.ReleaseToggles` | src/main.c:213-226 | on a release over a different cell, a linked pair is unlinked and an unlinked pair is linked iff either cell is owned |
| `Gesture.BindingRules` | src/main.c:199-211 | the binding is attached iff the selected cell is owned with the button down and shift up, and dropped iff a cell is selected and the button is up |
| `Gesture.RespondKeepsSymmetric` | src/main.c:213-226 | the frame's link change keeps the rows symmetric |
| `Gesture.UnownedPairCannotLink` | src/main.c:220-225 | when neither the selected cell nor the anchor is owned, the gesture creates no link |
| `Symbiosis.Roots` | src/main.c:158 | cell 7 is the only root (definition) |
| `Symbiosis.DisplayColor` | src/main.c:99-102 | the colour is the selected colour iff selected, the owned colour iff owned and not selected, else the plain colour (definition) |
| `Symbiosis.NewRows` | src/main.c:151 | allocates one zeroed row per cell, no two rows shared |
| `Symbiosis.World.constructor` | src/main.c:149-169 | cell 7 is the only root, no links, only the root owned, nothing selected, bound or anchored, every cell in the plain colour |
| `Symbiosis.World.AreConnected` | src/main.c:94-97 | the query is true iff the pair is linked in the row contents |
| `Symbiosis.World.Connect` | src/main.c:82-86 | the rows become the connected rows and stay symmetric |
| `Symbiosis.World.Disconnect` | src/main.c:88-92 | the rows become the disconnected rows and stay symmetric |
| `Symbiosis.World.SetOwned` | src/main.c:110-114 | owned becomes `def || x` at that cell only, and its colour is recomputed |
| `Symbiosis.World.SetSelected` | src/main.c:104-108 | selected becomes `x` at that cell only, and its colour is recomputed |
| `Symbiosis.World.BindToPointer` | src/main.c:116-123 | the cell is marked bound and no other binding changes |
| `Symbiosis.World.Unbind` | src/main.c:125-129 | the cell is marked unbound and no other binding changes |
| `Symbiosis.World.FindSelected` | src/main.c:179-187 | returns the first cell whose selected flag is set |
| `Symbiosis.World.PressOrRelease` | src/main.c:191-211 | sets the anchor and the binding as the anchor and binding rules say |
| `Symbiosis.World.ToggleOnRelease` | src/main.c:213-226 | changes the rows exactly by the release toggle |
| `Symbiosis.World.HandleInput` | src/main.c:189-232 | the new anchor, rows and bindings are those of the frame's response to the input |
| `Symbiosis.World.FindPartner` | src/main.c:238-249 | returns the first cell, in index order, that passes the inner loop's test for cell `i` |
| `Symbiosis.World.UpdateCellOwnership` | src/main.c:237-250 | the owned flags become one step of the pass; cell `i` and its partner are recoloured from their flags and every other cell keeps its colour |
| `Symbiosis.World.UpdateOwnership` | src/main.c:235-251 | the owned flags become the pass over the old flags, links are untouched, and every colour matches its flags |
| `Symbiosis.World.UpdateSelection` | src/main.c:254-277 | returns the winner, leaves exactly the winner selected, and every colour matches its flags |
| `Symbiosis.World.Frame` | src/main.c:174-277 | one frame composes the four blocks: response to input, ownership pass on the new links, selection pass |

## Left out

- Window, input polling and drawing (`InitWindow`, `GetMousePosition`,
  `IsKeyDown`, `IsKeyReleased`, `BeginDrawing`, `Box_draw`, `DrawLineV`) are
  I/O. The input enters as the four booleans of `Gesture.Input`.
- Float geometry is not modelled: collision rectangles and
  `CheckCollisionRecs` are replaced by a per-cell `collision` sequence, given
  as computed after the input was applied.
- Positions are not modelled: the drag offset and `Cell_updatePos` are left
  out, and the pointer binding is only a bound/unbound flag. `Cell_boundToBox`
  keeps an existing offset when the cell is already bound. The flag model
  cannot see that difference.
- The `fmod`/`GetTime` connection animation is drawing only.
- Bytes are unsigned `bv8`. The source's `char` mask `1 << 7` is
  implementation defined when `char` is signed. On two's complement targets,
  the set, clear and test operations on bit 7 produce the same bits as the
  model.
- Colours are reduced to the three the pool uses (RED, ORANGE, LIME). The
  pointer box's colour is not modelled.
- `Gesture.Respond`, `Gesture.HeldAnchor`, `Gesture.BindingFor` and
  `Gesture.EdgeFor`: their own contracts only keep results inside the pool.
  Their behaviour is stated by the Gesture lemmas in the table.
- `Selection.Winner`: its contract only says the winner collides. The
  selection rules are stated by the Selection lemmas.
- `Selection.SelectStep` and `Selection.Sweep`: their own contracts only bound
  what the loop can end with. `Selection.SweepIsWinner` ties the loop to the
  winner.
- `Ownership.OwnStep`, `Ownership.PassFrom` and `Ownership.Pass`: their own
  contracts state only that roots and owned cells stay owned. The rest of the
  step's behaviour is stated by `Ownership.StepOwnsSelf`,
  `Ownership.StepNewlyOwned` and `Ownership.StepSkipsIsolated`.
- `Adjacency.ConnectRows`, `Adjacency.DisconnectRows` and `Adjacency.Unlinked`:
  their own contracts state only the rows' shape and which rows are written.
  The bits they set or clear are stated by `Adjacency.ConnectBits`,
  `Adjacency.DisconnectBits` and `Adjacency.UnlinkedIsEmpty`.
- `BitArray.Test` and `Adjacency.Linked` are definitions with no contract of
  their own. They are the terms every other bit-level contract is stated in.
- `Adjacency.Links`: a definition. Its ensures reads the link relation entry
  by entry and is there for the proofs. Its content is the meaning of
  `Adjacency.Linked`.
- `Ownership.Candidates`: a definition. Its ensures reads the inner loop's
  test entry by entry. What the loop finds is stated by `Ownership.Partner`.
- `Symbiosis.Roots`: a definition of the root flags. Its ensures reads them
  entry by entry.
- `Symbiosis.DisplayColor`: a definition of the colour choice. Its ensures
  states the same choice as three iffs. That the colours track the flags is
  stated by `Symbiosis.World.Frame`.
- `BitArray.Set`: its contract says only that bit `idx` becomes set. That
  every other bit is unchanged is stated by `BitArray.TestSet`.
- `BitArray.Unset`: its contract says only that bit `idx` becomes clear. That
  every other bit is unchanged is stated by `BitArray.TestUnset`.
- `Gesture.ApplyEdge`: its contract states the pair's connected state, not
  the exact bits. The bits set or cleared are stated by
  `Adjacency.ConnectBits` and `Adjacency.DisconnectBits`.
- `Symbiosis.World.FindPartner` is the inner loop of the ownership pass as its
  own read-only method. The source runs it inline. The flags it reads are the
  same, because the loop writes nothing before it breaks.
- `src/main.c` has no resource balance, tick, output rate or ALIVE/DEAD
  state, so none is modelled.
