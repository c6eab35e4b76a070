# A* pathfinding demonstrator: a verified model of its search core

The demonstrator draws a 32 × 18 grid of tiles in an SFML window. The user
selects a start tile (left click) and an end tile (right click), places
obstacles (left click in the obstacle mode), and steps an A* search one
expansion per press of R. The search keeps an open and a closed vector of
tiles. Each step:

- picks the first tile of minimum f-cost in the open vector;
- relaxes its eight neighbour slots;
- moves it from the open to the closed vector.

When the picked tile is the end tile, the parent links are walked back to
the start tile and painted as the path, and both vectors are cleared.

This project models that core in Dafny and proves what it promises. The
modules follow the program's structure:

- `Geometry` (geometry.dfy): C++ truncating division and `RoundDown`, and
  the integer square root behind `(int) sqrt(...)`. It also holds
  `DistanceBetween` and `Heuristic`, with their values for one cardinal
  step (50) and one diagonal step (70).
- `Grid` (grid.dfy): the flat `W*y + x` layout and the eight neighbour
  offsets with their pairing. It holds the nine-case neighbour
  construction of the main program as written, and the cell under a
  pointer position.
- `Tiles` (tiles.dfy): the tile record of `Tile.h` as a datatype. The
  setters of `Tile.cpp` (`Select`, `Deselect`, `SetObstacle`,
  `ResetTile`, `SetToOpen`, `SetToClosed`, `SetParentNode`, `SetToPath`,
  `CalculateCosts`) are functions on it.
- `Search` (search.dfy): the search on values. It defines:
  - one relaxation (`Relax`, the loop body of `Tile::SearchNeighbourhood`);
  - the expansion over the slots (`ExpandSlots`);
  - the expansion plus the move to the closed vector (`Advance`);
  - `erase(std::remove(...))` (`Remove`);
  - the first-minimum condition of `findTile`;
  - the start of a run (`Begin`);
  - the parent walk (`PathFrom`);
  - the path painting (`MarkPath`).
- `Invariants` (invariants.dfy): the invariants of a run, and the lemmas
  that every operation keeps them. The invariants are:
  - links are symmetric;
  - f = g + h;
  - a parent is a neighbour with a strictly smaller g;
  - no duplicate and no obstacle appears in either vector;
  - the open and closed flags agree with membership;
  - every listed tile has a parent chain inside the vectors that reaches
    the start tile.
- `Exploration` (explore.dfy): what an exhausted search means. Every
  non-obstacle neighbour of a closed tile is in one of the vectors, and
  each step keeps this. So once the open vector is empty, every tile
  reachable from the start tile is closed. If the end tile was never
  closed, no walk through non-obstacle neighbours leads to it.
- `Driver` (driver.dfy): the main loop's state as a class. `Board` holds
  the tile array, the two vectors, the last selected start and end tiles
  and the current g-cost. Its methods follow the program's code: the
  construction loops, `findTile`, `SearchNeighbourhood`, the step with the
  path trace, the start of a run, the clicks and the two clear keys.
  - `Board.Step`, `ExpandCurrent`, `SearchNeighbourhood`, `Visit`,
    `TracePath`, `PaintPath` and `StartRun` are proved against the
    functions of `Search`.
  - `SelectStart`, `SelectEnd`, `PlaceObstacle`, `ClearAll` and
    `ClearObstacles` are proved against the setters of `Tiles` and the
    pointer lookup of `Grid`.
  - `Board.Valid()` is the board-level soundness predicate `BoardSound`.
    The constructor establishes it. `Step`, `ExpandCurrent`, `TracePath`,
    `StartRun` and the five click and key methods above keep it.
  - `SearchNeighbourhood`, `Visit` and `PaintPath` run inside a step, where
    the board is not yet sound again. They keep the run invariants that
    `Step` needs.
  - `FindTile`, `LocateTile` and `PickTile` change nothing.
  - `ExpansionExplores` and `ExpansionExhausted` carry the guarantees of
    `Exploration` over to the board's steps.

Tile references (neighbour slots, parent, vector entries) are indices into
the tile array; `None` stands for NULL. Both vectors hold tile indices in
vector order.

The first press of R in the default mode is `Board.StartRun` followed by
`Board.Step`: the start-of-run block and the step block run in the same
event. `StartRun` deselects the start tile (Code/Main.cpp:394), so its
block does not run again in that run. Every later press is `Board.Step`
alone.

## Model

| member | source | states |
|---|---|---|
| Geometry.CppDiv | Code/Main.cpp:14-18 | C++ `/` truncates toward zero: the remainder i - q*n is smaller than n in magnitude and is zero or has the dividend's sign |
| Geometry.RoundDown | Code/Main.cpp:14-18 | for i >= 0, a multiple r of n with r <= i < r + n; for i < 0, a multiple of n with r - n < i <= r, so it is rounded up toward zero |
| Geometry.RoundDownNegative | Code/Main.cpp:14-18 | for -50 < i < 0, RoundDown gives 0, above i, where the floor is -50 |
| Geometry.FloorToMultiple | Code/Main.cpp:319-320 | the largest multiple of n not above i, for every i, negative ones included |
| Geometry.ISqrt | Tile.cpp:337 | the truncated square root: r * r <= n < (r + 1) * (r + 1) |
| Geometry.ISqrtUnique | Tile.cpp:337 | any r with r * r <= n < (r + 1) * (r + 1) is ISqrt(n) |
| Geometry.ISqrtZero | Tile.cpp:337 | ISqrt(n) is 0 exactly when n is 0 |
| Geometry.Square | Tile.cpp:334-335 | the square d * d, which is 0 exactly when d is 0 |
| Geometry.DistanceBetween | Tile.cpp:331-339 | the floor of the Euclidean distance: its square is at most the squared distance, and its successor's square exceeds it |
| Geometry.Heuristic | Tile.cpp:342-350 | the same value as DistanceBetween from the current tile to the end tile |
| Geometry.DistanceSymmetric | Tile.cpp:331-339 | the distance from a to b equals the distance from b to a |
| Geometry.DistanceZeroIffSame | Tile.cpp:331-339 | the distance is 0 exactly for identical positions |
| Geometry.CardinalStep | Tile.cpp:331-339 | one horizontal or vertical step of TILE_OFFSET costs 50 |
| Geometry.DiagonalStep | Tile.cpp:331-339 | one diagonal step costs 70, the floor of 50 times the square root of 2 |
| Grid.Pair | Code/Main.cpp:88-222 | the paired slot (0/1, 2/3, 4/7, 5/6) has the opposite offset |
| Grid.PairTwice | Code/Main.cpp:88-222 | pairing twice gives the slot back |
| Grid.SlotsAsWritten | Code/Main.cpp:94-218 | the nine-case construction produces the eight slots of one tile |
| Grid.SlotsAsWrittenAgree | Code/Main.cpp:94-218 | the nine-case corner/edge/interior construction gives, for every cell, slot k = the cell at offset k, or null exactly when that cell is off the grid |
| Grid.Index | Code/Main.cpp:81 | for x < W, the index W*y + x lies in row y's block of W indices |
| Grid.TilePosition | Code/Main.cpp:75-85 | both pixel coordinates of cell (x, y) are multiples of 50, and dividing them by 50 gives x and y back |
| Grid.IndexBound | Code/Main.cpp:75-85 | an on-grid cell's index W*y + x is below W*H |
| Grid.IndexCoordinates | Code/Main.cpp:81 | the index determines the cell: x = index % W, y = index / W |
| Grid.IndexInjective | Code/Main.cpp:75-85 | distinct cells have distinct indices and distinct positions (50x, 50y) |
| Grid.CellOfIndex | Code/Main.cpp:75-85 | every index below W*H is the index of an on-grid cell |
| Grid.SlotInRange | Code/Main.cpp:88-222 | a non-null slot names another tile of the grid |
| Grid.SlotSymmetric | Code/Main.cpp:88-222 | B is in A's slot k if and only if A is in B's paired slot |
| Grid.SlotDistance | Code/Main.cpp:88-222 | a neighbour in slots 0..3 lies at distance 50, one in slots 4..7 at distance 70 |
| Grid.NeighbourCount | Code/Main.cpp:94-218 | a corner tile has 3 neighbours, an edge tile 5 and an interior tile 8 |
| Grid.CellAt | Code/Main.cpp:318-341 | with the corrected floor rounding, a pointer position has a cell exactly when it lies within the grid's W*50 × H*50 pixels, and the cell is a grid index |
| Tiles.NewTile | Tile.cpp:10-50 | a new tile is at the given position with eight null slots, no parent, all flags false and costs 0 |
| Tiles.SetNeighbours | Tile.cpp:173-181 | slots 0..3 become left, right, up, down; nothing else changes |
| Tiles.SetCornerNeighbours | Tile.cpp:184-192 | slots 4..7 become top-left, top-right, bottom-left, bottom-right; nothing else changes |
| Tiles.SetObstacle | Tile.cpp:195-202 | only the obstacle flag is set (and the path mark replaced by the obstacle colour) |
| Tiles.ResetTile | Tile.cpp:205-222 | obstacle, open and closed flags, costs and parent are cleared; the selection, position and slots are kept |
| Tiles.Select | Tile.cpp:153-160 | only the selected flag is set (and the path mark replaced by the selection colour) |
| Tiles.Deselect | Tile.cpp:163-170 | everything ResetTile clears, and the selection too |
| Tiles.SetToOpen | Tile.cpp:225-232 | exactly isOpen of the two set flags holds afterwards; nothing else changes |
| Tiles.SetToClosed | Tile.cpp:235-242 | exactly isClosed of the two set flags holds afterwards; nothing else changes |
| Tiles.SetParentNode | Tile.h:50 | only the parent changes |
| Tiles.SetToPath | Tile.cpp:353-358 | only the path mark changes |
| Tiles.CalculateCosts | Tile.cpp:245-256 | g is the given cost, h the heuristic to the end tile (never negative), f = g + h; nothing else changes |
| Search.Remove | Tile.cpp:304 | erase-remove keeps exactly the other elements, never grows the vector and keeps it duplicate-free |
| Search.RemoveAt | Code/Main.cpp:509 | erasing a tile that occurs once, at position k, cuts out exactly position k and keeps the order of the rest |
| Search.RemoveAbsent | Tile.cpp:304 | the model's erase of an absent tile leaves the vector unchanged; the program only erases tiles it has just found in the vector |
| Search.FirstMinimumAt | Code/Main.cpp:21-43 | a first-minimum position holds an open tile whose f-cost is at most that of every tile in the open vector |
| Search.FirstMinimumUnique | Code/Main.cpp:29-38 | at most one position is the first minimum, so the strict `<` determines which tile is returned |
| Search.Begin | Code/Main.cpp:384-406 | the start tile is appended to the open vector with no parent, unselected, open and not closed, g = 0, h = heuristic to the end tile and f = h; no other tile and not the closed vector changes |
| Search.PathFrom | Code/Main.cpp:520-534 | a found walk starts at the given tile and ends at the start tile, whose g is at most the given tile's |
| Search.TraceAsWritten | Code/Main.cpp:520-531 | a successful trace as written has at least two tiles, from the goal through its parent to the start; so it always fails when the goal is the start tile |
| Search.Relax | Tile.cpp:267-322 | an obstacle or a no-gain neighbour leaves the state unchanged. Otherwise the neighbour gets g = current g + distance, h = heuristic, f = g + h and parent = current, and is marked open; the path mark is kept only on a tile that was already open. It is appended to the open vector unless it was open already; if it was closed it is erased from the closed vector. No other tile changes |
| Search.ExpandSlots | Tile.cpp:259-328 | the expansion keeps positions and slots, keeps every closed-flagged tile listed, and only appends to the open vector |
| Search.Advance | Code/Main.cpp:505-514 | after expansion and move, the current tile is out of the open vector, last in the closed vector and flagged closed only |
| Search.MarkPath | Code/Main.cpp:517-534 | exactly the tiles on the path get the path mark; every other tile is unchanged |
| Search.MarkPathExtend | Code/Main.cpp:525-531 | painting the next tile of the walk extends the painted prefix of the path by that tile |
| Invariants.IdleHasNoParents | Code/Main.cpp:225-235 | with the flags matching two empty vectors, no tile has a parent |
| Invariants.FreshHasNoChildren | Tile.cpp:310-319 | during a run, a tile in neither vector is nobody's parent |
| Invariants.RelaxFacts | Tile.cpp:267-275 | the visited neighbour is not the current tile, has the current tile as a neighbour, and would get a g above the current one |
| Invariants.RelaxKeepsTiles | Tile.cpp:278-320 | one relaxation keeps f = g + h, the flags exclusive, and every parent a neighbour with a smaller g |
| Invariants.RelaxKeepsSets | Tile.cpp:278-320 | one relaxation keeps both vectors duplicate-free and obstacle-free, and the flags matching membership |
| Invariants.RelaxKeepsRun | Tile.cpp:278-320 | one relaxation keeps every listed tile's parent in the vectors |
| Invariants.RelaxKeepsInv | Tile.cpp:267-322 | one relaxation keeps every run invariant, keeps the current tile unchanged and in the open vector |
| Invariants.ExpandKeepsInv | Tile.cpp:263-326 | the expansion over slots 0..m-1 keeps every run invariant and leaves the current tile unchanged and open |
| Invariants.NoSelfSlot | Code/Main.cpp:88-222 | no tile is its own neighbour |
| Invariants.ExpandUntouched | Tile.cpp:267-271 | the expansion never touches an obstacle or a tile outside the slots |
| Invariants.ExpandObstacleFree | Tile.cpp:271 | the expansion never puts an obstacle into either vector |
| Invariants.CloseKeepsInv | Code/Main.cpp:509-514 | moving the current tile from open to closed keeps every run invariant; it was not in the closed vector |
| Invariants.AdvanceKeepsInv | Code/Main.cpp:505-514 | expansion plus move keeps every run invariant |
| Invariants.ExpandFacts | Code/Main.cpp:505-509 | after the expansion the open vector extends the old one, is duplicate-free, and the current tile is unchanged and not closed |
| Invariants.AdvanceMovesCurrent | Code/Main.cpp:505-514 | the step removes exactly the current tile from the open vector (the others in order, then the appended neighbours), appends it to the closed vector and marks it closed |
| Invariants.RemoveFromExtended | Code/Main.cpp:509 | erasing element k of a vector extended by appends cuts out exactly that element |
| Invariants.BeginEstablishes | Code/Main.cpp:384-406 | the start of a run: the start tile is the only open tile, with g = 0, f = h = heuristic to the end tile, unselected; no other tile changes and every run invariant holds |
| Invariants.PathFromLinks | Code/Main.cpp:520-534 | a found parent walk starts at the given tile, ends at the start tile, stays in the grid, and follows parent links |
| Invariants.PathFromListed | Code/Main.cpp:520-534 | from every listed tile the parent walk reaches the start tile through listed tiles only |
| Invariants.TraceFound | Code/Main.cpp:517-534 | the trace from the goal reaches the start; each step goes to the parent, which is a neighbour with strictly smaller g |
| Invariants.TraceAsWrittenAgrees | Code/Main.cpp:520-531 | when goal and start differ, the trace as written visits the same tiles as the corrected one |
| Invariants.TraceAsWrittenFailsAtStart | Code/Main.cpp:520-531 | when the goal is the start tile, the trace as written meets a null parent, while the corrected walk is the one-tile path |
| Invariants.GridLinksSound | Code/Main.cpp:88-222 | the constructed links are symmetric by slot pairs, never self-links, and join tiles at non-zero distance |
| Invariants.MarkPathKeeps | Code/Main.cpp:517-534 | painting keeps shapes, links and cost bookkeeping |
| Invariants.BuiltSound | Code/Main.cpp:73-235 | the constructed grid of blank tiles with empty vectors is sound |
| Invariants.AdvanceSound | Code/Main.cpp:505-514 | one step from a sound board gives a sound board with the current tile closed |
| Invariants.TraceSound | Code/Main.cpp:517-546 | when the goal is listed, the path to the start exists, and the painted board with cleared vectors is sound |
| Invariants.BeginSound | Code/Main.cpp:384-406 | starting a run on an idle sound board gives a sound board with a run in progress |
| Invariants.BlankKeepsSound | Tile.cpp:163-170 | replacing an unlisted tile by a reset one keeps the board sound |
| Invariants.MarkKeepsSound | Tile.cpp:153-160 | selecting a tile, or making an unlisted tile an obstacle, keeps the board sound |
| Exploration.RelaxCovers | Tile.cpp:267-322 | one relaxation unlists no tile, adds none to the closed vector, keeps every obstacle flag, and leaves a non-obstacle neighbour in one of the vectors |
| Exploration.ExpandCovers | Tile.cpp:259-328 | the expansion over slots 0..m-1 unlists no tile, adds none to the closed vector, keeps the obstacles, and lists every non-obstacle tile in those slots |
| Exploration.ExpandCoverStep | Tile.cpp:267-322 | relaxing slot m-1 keeps what the expansion over slots 0..m-2 established |
| Exploration.AdvanceExplores | Code/Main.cpp:505-514 | a step keeps every non-obstacle neighbour of every closed tile listed, and keeps the end tile out of the closed vector unless it is the tile expanded |
| Exploration.StepExplores | Code/Main.cpp:486-514 | the same for a step of a sound board towards its end tile |
| Exploration.ClosedAlongWalk | Code/Main.cpp:488 | with the open vector empty, a walk through non-obstacle neighbours from a closed tile stays on closed tiles |
| Exploration.ExhaustedMeansNoPath | Code/Main.cpp:488 | with the open vector empty and the start tile listed, a walk from the start tile stays on closed tiles and does not end at an unclosed end tile |
| Exploration.Exhausted | Code/Main.cpp:488 | the same for every walk from the start tile at once: there is no path to the end tile |
| Exploration.BeginExplores | Code/Main.cpp:384-406 | a run starts with an empty closed vector, so the exploration invariant holds and the end tile is not closed |
| Invariants.LocateCell | Code/Main.cpp:318-341 | a tile sits at the rounded pointer position exactly when the pointer is on the grid, and it is the tile of that cell and no other |
| Driver.FindTile | Code/Main.cpp:21-43 | the result is in the open vector at a position k holding a minimum f-cost, with every earlier position strictly more expensive (the first minimum) |
| Driver.PlaceTiles | Code/Main.cpp:75-85 | the first construction loop: a fresh tile at (50x, 50y) at index W*y + x |
| Driver.LinkTiles | Code/Main.cpp:88-222 | the second construction loop gives every tile the neighbourhood of its cell, nothing else |
| Driver.LinkRow | Code/Main.cpp:91-220 | one row of the second loop sets exactly that row's neighbourhoods |
| Driver.LinkTile | Code/Main.cpp:94-218 | the two setter calls of one cell give it exactly its cell's neighbourhood |
| Driver.Board.constructor | Code/Main.cpp:73-235 | a sound board of blank, unselected tiles, both vectors empty, both selection indices 0 |
| Driver.Board.SearchNeighbourhood | Tile.cpp:259-328 | the new state is the expansion of the current tile over its slots in order |
| Driver.Board.Visit | Tile.cpp:267-322 | the new state is the relaxation of the one neighbour |
| Driver.Board.Expansion | Code/Main.cpp:505-514 | the state one step produces is sound, keeps every run invariant and has the current tile closed |
| Driver.Board.Traced | Code/Main.cpp:517-534 | when the end tile is listed, its path exists and the painted board with cleared vectors is sound |
| Driver.Board.ExpansionExplores | Code/Main.cpp:486-514 | a step keeps the neighbours of every closed tile listed, and keeps the end tile out of the closed vector unless it is the tile expanded |
| Driver.Board.ExpansionExhausted | Code/Main.cpp:486-514 | a step that is not the end tile and empties the open vector, taken from an explored board without the end tile closed, leaves no path from the start tile to the end tile |
| Driver.Board.ResetRun | Code/Main.cpp:536-544 | both selection indices become 0 and both vectors are cleared, the board sound again |
| Driver.Board.Step | Code/Main.cpp:486-546 | a step does nothing exactly when the open vector is empty. Otherwise it picks the first minimum-f tile, sets currentGCost to its g, and reports Found exactly when that tile is the end tile. On Expanded the state is the expansion and move; on Found the tiles are the painted path from end to start, both vectors are empty and both indices are 0 |
| Driver.Board.ExpandCurrent | Code/Main.cpp:505-514 | expansion, erase from open, append to closed and closed mark give exactly the Search module's Advance |
| Driver.Board.TracePath | Code/Main.cpp:517-546 | the path from the end tile to the start tile is painted, then the indices are reset and both vectors cleared |
| Driver.Board.PaintPath | Code/Main.cpp:520-534 | the walk paints exactly the tiles of the parent chain from the end tile to the start tile, both included |
| Driver.Board.StartRun | Code/Main.cpp:384-406 | a run starts exactly when both last selected tiles are selected; then the state is the Search module's Begin and currentGCost is 0, the exploration invariant holds and the end tile is not closed; otherwise nothing changes |
| Driver.Board.LocateTile | Code/Main.cpp:322-341 | the lookup loop finds a tile at the rounded position, or reports that none is there |
| Driver.Board.PickTile | Code/Main.cpp:315-341 | a click picks the tile of the cell under the pointer, unless the pointer is off the grid or the tile is an obstacle |
| Driver.Board.SelectStart | Code/Main.cpp:309-343 | the last start tile is deselected, then the clicked non-obstacle tile is selected and becomes the start tile; otherwise the start index is kept |
| Driver.Board.SelectEnd | Code/Main.cpp:347-381 | the same for the end tile |
| Driver.Board.PlaceObstacle | Code/Main.cpp:457-481 | the tile under the pointer, if any, becomes an obstacle; nothing else changes |
| Driver.Board.ClearAll | Code/Main.cpp:410-422 | every tile is reset and the board stays sound; with an empty closed vector the flags then match the vectors again |
| Driver.Board.ClearObstacles | Code/Main.cpp:438-454 | exactly the obstacle tiles are reset, also during a run |

## Left out

- Rendering: the SFML window, font, sprites, texts, fill colours and `Render` are not modelled. `onPath` stands for the path colour; every other repaint clears it.
- Input polling and modes: event polling, the key and mouse reads, mode switching (O, L) and Escape are not modelled. Each handled input is one method. The mouse position is a parameter, given relative to the grid origin.
- Panning (`Tile::Update`, the tile offsets) is not modelled. Panning shifts every tile and the offsets by the same amount, so positions are kept at (50x, 50y). The click methods take the pointer relative to the panned origin, so clicking on a panned grid is covered.
- Timing and allocation: `sleep_for`, `new` and `delete` of tiles are not modelled.
- Floating point: positions are integers, and `(int) sqrt(...)` is the integer floor square root. The two agree for every integer squared distance the grid can produce.
- Integer width: g, h and f are unbounded integers; 32-bit overflow is not modelled. A 32 × 18 grid keeps every g far below 2^31.
- Grid size: the model is for every W, H >= 2 instead of the fixed 32 × 18.
- `findTile`'s `currentGCost` and `endTile` parameters are unused by the program and are dropped.
- The `currentTile` pointer and the `isRunning` and `foundPath` flags are not modelled: `Step` returns its outcome instead.
- Driver.Board.StartRun: requires empty vectors and flags that match them. So these are not modelled:
  - a second run after an exhausted search (the program keeps the stale closed vector);
  - a second run after a found path without C (the program keeps stale open and closed flags).
- Driver.Board.SelectStart: requires an empty open vector, so a click during a run is not modelled. Such a click resets a listed tile, which the run invariants exclude.
- Driver.Board.SelectEnd: requires an empty open vector, for the same reason as SelectStart.
- Driver.Board.PlaceObstacle: requires the clicked tile to be in neither vector. So these are not modelled:
  - an obstacle placed on a listed tile during a run;
  - an obstacle placed on a tile left in the stale closed vector after an exhausted search (the open vector is empty, but the closed one is not cleared).
- Driver.Board.ClearAll: requires no run in progress. The program's C during a run resets listed tiles and leaves the vectors as they are.
- Search.Remove: removes every occurrence of the tile. The program's `erase(std::remove(...))` erases only the one element at `remove`'s new end. With k >= 2 occurrences, that leaves k - 1 unspecified elements in the vector. With no occurrence it calls `erase(end())`, which is undefined behaviour. The two agree when the tile occurs exactly once, which the run invariants guarantee at both uses.
- Driver.Board.SelectStart: the click lookup rounds with the corrected `FloorToMultiple` rather than `RoundDown` (see Findings). Driver.Board.SelectEnd and Driver.Board.PlaceObstacle do the same.
- Driver.Board.Step: its own contract does not say that an exhausted search means no path. The board does not record whether the exploration invariant holds. `ExpansionExplores` and `ExpansionExhausted` prove it for a run of steps that follows `StartRun` with no obstacle edits in between. `ClearObstacles` during a run can unlist a closed tile's neighbour and break the invariant, in the program as in the model.
- Driver.Board.PaintPath: follows the corrected trace, which starts at the end tile itself (see Findings).

## Findings

| source | as written | input that shows it | evidently intended | confidence | as-written member | corrected member |
|---|---|---|---|---|---|---|
| Code/Main.cpp:520-531 | the trace marks the end tile, then starts the walk at the end tile's parent and stops only on reaching the start tile | select the same tile as start and end, then press R: the start tile has no parent, so the walk dereferences NULL | the walk starts at the end tile, so a one-tile path is painted | high (not executed) | Search.TraceAsWritten (Invariants.TraceAsWrittenFailsAtStart) | Search.PathFrom (Driver.Board.PaintPath, Invariants.TraceAsWrittenAgrees) |
| Code/Main.cpp:14-18 | `RoundDown` uses C++ truncating division, so a negative coordinate is rounded up to 0 | pan the grid right (D), then click 10 pixels left of its left edge: `mouse.x - tileOffsetX` is -10, which is rounded to 0, so the column-0 tile is selected | a click outside the grid selects nothing: round down to the floor multiple (-50) | medium (not executed) | Geometry.RoundDown (Geometry.RoundDownNegative) | Geometry.FloorToMultiple (Grid.CellAt, Invariants.LocateCell, Driver.Board.PickTile) |
