# Hashiwokakero bridge editing, modelled in Dafny

This project models the bridge-editing core of a Hashiwokakero ("Bridges") puzzle
game (`solver.py`). A board is built from an integer matrix: every positive cell
becomes an island that requires that many bridges. The player clicks two islands
to toggle a bridge between them. The toggle is accepted or rejected by three
checks: a straight, unobstructed line between the two islands; no crossing with an
existing bridge; and degree headroom on both islands. The game reports each outcome
in a coloured status message.

Modules:

- `Islands` (`islands.dfy`): the island arena and the per-island bridge maps.
  - `Degree` is the compiled degree sum. It is proved equal to an independent sum
    over the map's values.
  - `CanAddBridge` is the headroom check.
  - `Incremented` and `Decremented` are the pure effects of `add_bridge` and
    `remove_bridge`.
  - The invariants are `Consistent` and `Bounded`:
    - every stored multiplicity is 1 or 2;
    - the two ends of a bridge record the same multiplicity;
    - every key is an island;
    - no island's degree exceeds its requirement.
- `Layout` (`layout.dfy`):
  - the row-major scan of the matrix;
  - the coordinate index (`Grid`);
  - the pixel-to-cell mapping with tiles of 80 pixels;
  - the straight-line test `Path`.
- `Moves` (`moves.dfy`):
  - the outcome messages and their colours;
  - `Toggle`, a value-level specification of one click;
  - `Play`, which folds `Toggle` over a sequence of clicks;
  - the lemmas about both.
- `Game` (`game.dfy`): the `HashiGame` class. It holds the arena, the index and the
  bridge maps, and updates the maps and the message in place. Each method is proved
  against the functions of the modules above.

Islands are referred to by their index in the arena. Island `a`'s `neighbors`
dictionary is `neighbors[a]`, a map from neighbour index to multiplicity.
Multiplicities are `int`, so that a decrement the source could apply to a stored 0
is represented faithfully.

`bridges_intersect` is called by the source but never defined there. Here it is a
parameter `intersect` of type `Intersect`. The crossing-free results assume only
that it is a segment test (`SegmentTest`):
- swapping the two segments does not change the answer;
- swapping the two ends of a segment does not change the answer;
- a segment never intersects itself.

## Model

Several functions model a source function directly and have no row of their own.
Each is specified by the rows of other members:
- `Islands.Degree` (`get_current_degree`): `Islands.DegreeIsMapSum`.
- `Islands.CanAddBridge` (`can_add_bridge`): `Islands.CheckedAddKeepsInvariants`.
- `Layout.Scan` and `Layout.GridOf` (the construction loop): `Layout.ScanSound`, `Layout.ScanComplete`, `Layout.GridOfIndexes` and `Layout.InitialBoardShape`.
- `Layout.CellAt` (the pixel-to-cell division in `get_island_at_pos`): `Layout.CellAtOnTile`.
- `Layout.Path` (`find_path_islands`): `Layout.PathCharacterised`.
- `Moves.Crosses` (`check_bridge_crossing`): `Game.HashiGame.CheckBridgeCrossing` and the crossing-free lemmas.

| member | source | states |
|---|---|---|
| Islands.DegreeIsMapSum | solver.py:56-58 | when every key is an island, the compiled degree equals the sum of all multiplicities in the island's map |
| Islands.CheckedAddKeepsInvariants | solver.py:60-69 | when `can_add_bridge` holds for two distinct islands, adding a bridge keeps multiplicities in {1,2}, the two views symmetric, and both degrees within their requirements |
| Islands.Incremented | solver.py:71-74 | `add_bridge` raises the multiplicity by one on both ends (by two when an island is paired with itself), adds the keys, and changes no other entry |
| Islands.RemoveUndoesAdd | solver.py:71-85 | removing right after adding restores the bridge maps exactly, provided no zero entry was stored |
| Islands.IncrementedDegrees | solver.py:71-74 | adding a bridge raises exactly the two endpoints' degrees by one and keeps keys inside the arena |
| Islands.Decremented | solver.py:76-85 | `remove_bridge` lowers each end's multiplicity by one when that end records the other, never adds keys, never leaves a new zero entry, and changes no other entry; a self-pair is lowered twice, so a self-entry of 1 or 2 is deleted |
| Islands.AddUndoesRemove | solver.py:71-85 | adding right after removing an existing bridge restores the bridge maps exactly |
| Islands.DecrementedDegrees | solver.py:76-85 | removing a bridge lowers each endpoint's degree by one exactly when that end recorded the bridge, and no other degree changes |
| Islands.RemoveKeepsInvariants | solver.py:76-85 | removing a bridge keeps the maps consistent (values in {1,2}, symmetric, keys in the arena) and keeps degrees within requirements |
| Layout.ScanSound | solver.py:104-109 | every scanned island sits on a positive cell, carries that cell's value as its requirement, and the islands are in row-major order |
| Layout.ScanComplete | solver.py:104-109 | every positive cell yields an island |
| Layout.GridOfIndexes | solver.py:107-109 | registering row-major islands one after another indexes each island under its own (row, col) and nothing else |
| Layout.InitialBoard | solver.py:104-109 | the built board is well formed: one empty bridge map per island and an exact coordinate index |
| Layout.InitialBoardShape | solver.py:104-109 | a cell is indexed iff it is positive, each indexed cell maps to the island with that cell's position and value, and the islands are in row-major order |
| Game.ScanMatrix | solver.py:104-109 | the nested scan loop produces exactly the specified arena and index, and the index is exact |
| Game.HashiGame.constructor | solver.py:92-109 | the new game holds the built board with no bridges and the opening message; the invariants hold |
| Layout.CellAtOnTile | solver.py:111-115 | pixel (x, y) maps to cell (row, col) iff it lies on that cell's 80-pixel tile |
| Game.HashiGame.GetIslandAtPos | solver.py:111-115 | a result is an island whose tile holds the pixel; no result means that no island's tile holds it |
| Layout.PathCharacterised | solver.py:117-136 | horizontal iff same row and no island strictly between the columns; vertical iff different rows, same column and no island strictly between the rows; none otherwise |
| Game.HashiGame.FindPathIslands | solver.py:117-136 | the early-exit loops return exactly `Path` of the two islands |
| Game.HashiGame.CheckBridgeCrossing | solver.py:184-193 | the loops report true iff some recorded bridge with a non-zero count intersects the candidate (`Crosses`) |
| Moves.Toggle | solver.py:138-182 | a click keeps the board well formed with islands and index unchanged; a rejected click changes nothing; an accepted click had a straight path; the colour is never white |
| Moves.AcceptedIffNotRed | solver.py:138-182 | a click returns True exactly when its message is not shown in red |
| Moves.MisalignedIsInvalid | solver.py:119-144 | two islands sharing neither row nor column are refused as an invalid path, with the board unchanged |
| Moves.RejectionsNeedNoBridge | solver.py:140-162 | a rejection happens only without a path or while the pair has no bridge |
| Moves.FirstToggleAdds | solver.py:146-158 | on a freshly built board, the first click on two distinct islands with a clear line lays one bridge, recorded on both ends |
| Moves.ToggleKeepsInvariants | solver.py:146-182 | a click on two distinct islands keeps the maps consistent and every degree within its requirement |
| Moves.ToggleMultiplicity | solver.py:138-182 | on a consistent board, one click on distinct islands moves the count between them as follows: no path leaves it; 0 becomes 1 unless a crossing or missing headroom refuses the click; 1 becomes 2 with headroom and 0 without; 2 becomes 0. Each outcome has its own message, and both ends record the same count |
| Moves.ToggleCycle | solver.py:146-182 | with headroom for two bridges, three clicks give Added, Doubled, All removed, and restore the board |
| Moves.ToggleCycleSaturated | solver.py:146-175 | with headroom for only one bridge at an end, two clicks give Added then Removed, and restore the board |
| Moves.ToggleBridges | solver.py:146-182 | after a click, every bridge was already there or joins the two clicked islands |
| Moves.FewerBridgesCrossingFree | solver.py:163-182 | taking bridges away from a crossing-free board keeps it crossing-free |
| Moves.NewBridgeCrossingFree | solver.py:148-158 | a bridge laid after the crossing scan found nothing keeps a crossing-free board crossing-free, for a segment test |
| Moves.ToggleKeepsCrossingFree | solver.py:138-193 | a click on two distinct islands keeps a crossing-free board crossing-free, for a segment test |
| Moves.Play | solver.py:138-182 | any sequence of clicks keeps the board well formed, with islands and index unchanged |
| Moves.PlayKeepsInvariants | solver.py:138-182 | any sequence of clicks on distinct pairs keeps the maps consistent and the degrees within requirements |
| Moves.PlayKeepsCrossingFree | solver.py:138-193 | any sequence of clicks on distinct pairs keeps a crossing-free board crossing-free, for a segment test |
| Moves.InitialBoardInvariants | solver.py:104-109 | a freshly built board is consistent and within requirements |
| Moves.InitialBoardCrossingFree | solver.py:104-109 | a freshly built board has no crossing, whatever the intersection test |
| Moves.ReachableBoards | solver.py:104-193 | every board reachable from the puzzle by clicks on distinct pairs is consistent and within requirements, and crossing-free for a segment test |
| Game.HashiGame.AddBridge | solver.py:71-74 | the in-place update leaves exactly `Incremented` of the old maps |
| Game.HashiGame.RemoveBridge | solver.py:76-85 | the in-place update leaves exactly `Decremented` of the old maps |
| Game.HashiGame.ToggleBridge | solver.py:138-182 | the new message and board are exactly `Toggle` of the old board; the result is True iff the message is an accepted one; a rejection leaves the maps unchanged; the colour matches the message; the invariants are kept for distinct islands |
| Game.HashiGame.LayBridge | solver.py:148-162 | with no bridge yet, the message and maps are exactly those `Toggle` prescribes (crossing, added or degree violated) |
| Game.HashiGame.ReworkBridge | solver.py:163-182 | with a bridge present, the message and maps are exactly those `Toggle` prescribes (doubled, removed or all removed), and the click is accepted |

## Left out

- The pygame drawing, the event loop and the mode screen (`solver.py:197-327`) are rendering and input handling, so they are not modelled. This includes the selection state `selected_island`: the event loop sets and clears it, and it keeps the two islands of a click distinct (`solver.py:290-310`). `draw_islands` reads it (`solver.py:256`). Clicks are modelled as pairs of island indices (`Play`).
- The island pixel centres `x` and `y` (`solver.py:53-54`) are used only for drawing.
- `Hashi.py` (the menu and empty mode stubs) and `tempCodeRunnerFile.py` (image loading and a menu screen) are not part of this model.
- The geometry of `bridges_intersect` is not in the source. It is the parameter `intersect`. The crossing-free lemmas assume only `SegmentTest`, and the scenario in which a vertical click is refused by a horizontal bridge needs that geometry, so it is not stated.
- Despite its name, `solver.py` contains no solver, propagation, backtracking, hint, connectivity or win check, so none is modelled.
- The unused fields are not modelled: `ai_mode`, `show_hints`, `solution_steps` and `step_index`. Neither is the unused `bridges` argument of `can_add_bridge`.
- Game.HashiGame.CheckBridgeCrossing: Python visits each dictionary in insertion order; the model visits keys in an unspecified order. Only the boolean result is specified, and it does not depend on the order.
- Moves.ToggleKeepsInvariants: proved only for two distinct islands. The one caller (`solver.py:298-305`) never passes the same island twice. `Toggle` and `ToggleBridge` still model a click on the same island faithfully: the bridge maps record a self-entry.
- The message strings are the `Message` constructors. The colours are `Color` constructors, without RGB values.
- Three behaviours of `toggle_bridge` that may look unintended are modelled as written:
  - the straight-line test runs before the multiplicity is read, for every multiplicity;
  - with one bridge and no headroom, the click removes the bridge and is accepted;
  - every count other than 0 and 1 is removed twice.
