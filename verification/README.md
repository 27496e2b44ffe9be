# Jigsaw board: a verified model of placement and dragging

This project models the board logic of a browser jigsaw game. The board is a 6 x 6 grid of square cells. At its centre is a 4 x 4 target zone. Sixteen tiles, each one slice of an image, start on distinct random cells. The player drags them with a pointer until every tile sits in the target zone at the place of its slice.

The repository holds two near-identical copies of the game, `main.js` and `puzzle-2/main.js`. The model shares one board and one set of events between them. It keeps apart the points where they differ:

| | `main.js` | `puzzle-2/main.js` |
|---|---|---|
| Cell size | caps 1400 x 1200, minimum 28 | caps 1000 x 1000, minimum 32 |
| Resize | pieces keep their grid coordinates | every piece is re-snapped from its pixel position |

Modules:

- `Grid` (grid.dfy) holds:
  - the grid constants and cells;
  - `Math.round` and clamp on integers;
  - the cell-size and target-offset arithmetic of `resizeCanvas`;
  - the row-major list of all cells.
- `Shuffle` (shuffle.dfy) models `shuffleArray`, the in-place Fisher-Yates shuffle.
  - The method works on an `array`.
  - It is proved equal to the function `Shuffled`.
  - `Shuffled` is proved to be a permutation.
  - The random draw `floor(Math.random() * (i + 1))` becomes a caller-supplied choice `js[i]` in `[0, i]`.
- `Board` (board.dfy) treats the board as a value:
  - tiles (`Piece`) with their current and remembered cells;
  - the drag flag and the pointer offset;
  - the pointer events press, move, release and cancel, each a function from one board to the next;
  - the invariants, and the lemmas about runs of events.
- `Game` (game.dfy) models the module-level variables of the game (`CELL`, `PUZZLE_OFFSET_X/Y`, `pieces`, `dragging`, `dragOffsetX/Y`) as the fields of class `Puzzle`.
  - `resizeCanvas`, `createPiecesRandom`, `reshufflePositions`, `checkSolved` and the four pointer handlers are its methods, with the source's loops.
  - Each method is proved to compute exactly the matching `Board` function.

Two invariants are used throughout:

- `Wf` (well-formed):
  - at most 36 pieces;
  - every current and remembered coordinate on the grid;
  - a drag only while there is a piece to drag.
- `Consistent`:
  - `Wf` holds;
  - the remembered cells are pairwise distinct;
  - every piece except the dragged one sits on its remembered cell.

  At rest, `Consistent` means no two tiles share a cell (`AtRestDisjoint`).

Facts the model states about the code:

- **A press while a drag is active.** The pointerdown handler (main.js:198-215, puzzle-2/main.js:232-253) does not check whether a drag is already active. A second press on the dragged tile re-records its live cell as its remembered cell. A refused drop can then leave two tiles on one cell at rest (`SecondPressBreaksDisjointness`). `Consistent` is kept by a press only from idle (`PressKeepsConsistent`).
- **The remapping resize of `puzzle-2/main.js`.** `getPxX()` already uses the new cell size, and the result is divided by the old one (puzzle-2/main.js:108, 123-124). So a tile's new column is `round(gx * newCell / oldCell)`, clamped onto the grid. This keeps every cell when the size is unchanged (`RemapSameCellKeepsCells`) and when it changes by less than a tenth (`RemapSmallChangeKeepsCells`). A halving or doubling makes tiles collide. With 80 to 40, neighbouring tiles land on one cell (`RemapShrinkCollides`). With 40 to 80, tiles near the right edge are clamped onto one cell (`RemapGrowCollides`). So this resize is not claimed to keep `Consistent`.
- Viewport sizes enter as the integers `availWidth = floor(innerWidth * 0.95)` and `availHeight = floor(innerHeight * 0.78)`. Flooring before the cap and the division by 6 gives the same cell size as the source's `Math.floor(Math.min(maxWidth / COLS, maxHeight / ROWS))`.

## Model

| member | source | states |
|---|---|---|
| Grid.Clamp | main.js:236-237 | `Math.max(lo, Math.min(hi, v))` lies in `[lo, hi]`, is `v` when `v` is already inside, and is the nearer bound otherwise |
| Grid.RoundDiv | main.js:229-230 | `Math.round(a / b)` for `a >= 0, b > 0`: a non-negative `r` with `r - 1/2 <= a/b < r + 1/2` (halves round up) |
| Grid.CellSize | main.js:81-85 | CELL is at least the minimum (28 here, 32 in puzzle-2/main.js:104-108) and at least every size at which the 6 x 6 grid fits in the capped area. Above the minimum the grid fits at CELL and not at CELL + 1. So CELL is the largest fitting size, or the minimum when that is larger. When the area is too small on both sides, CELL is exactly the minimum |
| Grid.PuzzleOffsetX | main.js:102 | `floor((COLS - PUZZLE_COLS) / 2) * CELL` equals one cell, so the offset in grid units `floor(PUZZLE_OFFSET_X / CELL)` is 1 |
| Grid.PuzzleOffsetY | main.js:103 | the same for the vertical offset |
| Grid.GridCellsInGrid | main.js:111-116 | the list `all` has 36 cells, each on the grid |
| Grid.GridCellsCover | main.js:111-116 | every grid cell `(c, r)` occurs in `all`, at index `6r + c` |
| Grid.GridCellsDistinct | main.js:111-116 | no cell occurs twice in `all` |
| Grid.SnapInRange | main.js:226-230 | a pixel position clamped to `[0, (n - 1) * CELL]` rounds to a cell in `[0, n - 1]` |
| Grid.RoundScaleIdentity | puzzle-2/main.js:123-124 | `round(g * c / c) == g`: re-snapping at an unchanged cell size gives the same coordinate |
| Shuffle.ShuffleArray | main.js:144-150 | the in-place loop `i = n-1 .. 1`, swapping `a[i]` and `a[j]`, leaves the array equal to `Shuffled` of its old contents, for any admissible choices (same loop in puzzle-2/main.js:175-181) |
| Shuffle.SwapPermutes | main.js:147 | one swap keeps the multiset of elements |
| Shuffle.SwapKeepsDistinct | main.js:147 | one swap of distinct elements keeps them distinct |
| Shuffle.ShuffleDownPermutes | main.js:145-148 | every remaining run of steps keeps the multiset, by induction on the steps |
| Shuffle.ShufflePermutes | main.js:144-150 | the shuffle's result is a permutation of its input for every admissible sequence of random choices: same length, same multiset, same members |
| Shuffle.ShuffleDownKeepsDistinct | main.js:145-148 | every remaining run of steps keeps distinct elements distinct, by induction |
| Shuffle.ShuffleKeepsDistinct | main.js:144-150 | a shuffle of distinct elements yields distinct elements |
| Board.AtRestDisjoint | main.js:239-246 | on a consistent board at rest, no two tiles share a cell and each tile sits on its remembered cell |
| Board.ShuffledCells | main.js:111-117 | the shuffled list of all cells has 36 distinct cells, all on the grid |
| Board.PlacementProperties | main.js:109-125 | `createPiecesRandom`, for every admissible sequence of choices, makes 16 pieces. Piece k has slice `(k mod 4, k div 4)` and remembered cell equal to current cell. All cells are on the grid and pairwise distinct (likewise puzzle-2/main.js:135-153) |
| Board.ReshuffleProperties | main.js:127-142 | `reshufflePositions` keeps the number of pieces, their order and their slices. It puts every piece on a distinct grid cell with remembered cell equal to current cell (likewise puzzle-2/main.js:156-172) |
| Board.SettledBoardConsistent | main.js:135-140 | a board whose pieces are all on distinct remembered cells is consistent, whether or not a drag is active |
| Board.RemapKeepsShape | puzzle-2/main.js:119-130 | the remap keeps each piece's index and slice, puts every piece on the grid, and sets its remembered cell to its current cell |
| Board.RemapSameCellKeepsCells | puzzle-2/main.js:121-128 | when CELL does not change, the remap leaves every piece on its cell, so distinct cells stay distinct |
| Board.RemapSmallChangeKeepsCoordinate | puzzle-2/main.js:123-126 | when the new CELL differs from the old by less than a tenth of the old, every coordinate 0..5 is rounded and clamped back to itself |
| Board.RemapSmallChangeKeepsCells | puzzle-2/main.js:119-130 | under such a small change the remap leaves every piece on its cell, so distinct cells stay distinct |
| Board.RemapShrinkCollides | puzzle-2/main.js:101-126 | with available area 480 and then 240 (CELL 80 then 40), pieces on `(1,0)` and `(2,0)` are both remapped to `(1,0)`: distinctness is not kept |
| Board.RemapGrowCollides | puzzle-2/main.js:101-126 | with CELL 40 then 80, pieces on `(4,0)` and `(5,0)` are both clamped onto `(5,0)` |
| Board.TopHit | main.js:202-203 | the downward hit test returns the highest index whose piece `contains` the point (edges included, main.js:74-76). It returns nothing exactly when no piece contains the point |
| Board.TopmostHitUnique | main.js:202-212 | the topmost piece under a point is unique, so the loop's `break` picks a well-defined piece |
| Board.PickUpReorders | main.js:204-209 | `splice` plus `push`: the hit piece goes last with its remembered cell set to its current cell. The pieces before it keep their indices and those after it shift down by one. When the hit piece was at rest the multiset of pieces is unchanged |
| Board.PressSelectsTopmost | main.js:198-215 | a press that hits nothing changes nothing. Otherwise the topmost hit piece is picked up, the drag starts, and the offset is the pointer minus the piece's corner (also puzzle-2/main.js:232-253) |
| Board.PressKeepsWf | main.js:198-215 | a press keeps `Wf`: at most 36 pieces, every coordinate on the grid, and a piece to drag whenever a drag is active |
| Board.PressKeepsConsistent | main.js:198-215 | a press on an idle consistent board gives a consistent board holding the same multiset of pieces |
| Board.SecondPressBreaksDisjointness | main.js:198-209 | a press on the dragged piece while its drag is active can break `Consistent`. A release after it can leave two pieces on one cell at rest (the release is main.js:239-242) |
| Board.Move | main.js:217-232 | when idle, nothing changes. When dragging, only the dragged piece's `gx`/`gy` change, and the new cell is on the grid. The flag, the offsets and every other piece are unchanged (the bound `CANVAS.width - CELL` of puzzle-2/main.js:266-267 is the same value) |
| Board.MoveKeepsConsistent | main.js:217-232 | a move keeps `Consistent` |
| Board.Moves | main.js:217-232 | any run of moves keeps every coordinate on the grid |
| Board.MovesOnlyDragged | main.js:223-230 | after any run of moves the others are unchanged, and so are the dragged piece's remembered cell and slice |
| Board.MovesKeepConsistent | main.js:217-232 | any run of moves keeps `Consistent`, by induction on the run |
| Board.Release | main.js:234-250 | on an idle board nothing changes (main.js:235). Otherwise the drag ends and every coordinate stays on the grid (also puzzle-2/main.js:276-299) |
| Board.ReleaseOutcome | main.js:236-246 | the dragged piece ends at rest, either on its clamped drop cell or on its remembered cell, never anywhere else. If the drop cell is occupied by another piece it goes back to the remembered cell. Otherwise it stays on the drop cell and remembers it. No other piece changes |
| Board.ReleaseKeepsConsistent | main.js:234-250 | release of a consistent board gives a consistent board at rest, with no two pieces on one cell. The drop is accepted exactly when no other piece holds the drop cell |
| Board.Cancel | main.js:252-258 | on an idle board nothing changes (main.js:253). Otherwise the drag ends and every coordinate stays on the grid (also puzzle-2/main.js:301-307) |
| Board.CancelOutcome | main.js:254-256 | during any drag, the dragged piece goes back to its remembered cell, at rest and with its slice. No other piece changes |
| Board.CancelKeepsConsistent | main.js:252-258 | cancel of a consistent board gives a consistent board with no two pieces on one cell |
| Board.PressOnIdle | main.js:202-209 | on an idle consistent board, the topmost hit piece moves unchanged to the end, the others keep their order, and the board stays consistent |
| Board.PressThenMoves | main.js:198-232 | after press and any moves, the others are the board without the hit piece, in order. The dragged piece remembers its press-time cell and keeps its slice |
| Board.CancelRestoresPressCell | main.js:252-258 | press, any moves, then cancel put the piece back exactly on its press-time cell whatever cells it visited, drawn on top. The board holds the same pieces |
| Board.RefusedDrop | main.js:239-242 | a refused drop puts the dragged piece back on its remembered cell and leaves the others unchanged |
| Board.RefusedDropRestoresBoard | main.js:234-246 | press, any moves, then a release onto a cell another piece holds: the drop is refused, the piece returns to its press-time cell, and the board holds the same pieces as before the press |
| Board.PlacementSlices | main.js:119-124 | the sixteen created pieces show the sixteen slices of the image, each once |
| Board.EventsKeepSlices | main.js:198-258 | press, move, release and cancel keep every slice in the image and no slice twice: a press only reorders, the others only change cells |
| Board.SolvedArrangement | main.js:187-193 | in any order of the pieces, if they show distinct slices and all pass the solved test, each piece is on `(1 + pieceCol, 1 + pieceRow)`, inside the target zone, and no two share a cell |
| Game.AllCells | main.js:111-116 | the nested loops fill a new array with every grid cell in row-major order |
| Game.Puzzle.constructor | main.js:12-25 | the initial values: CELL 80, offsets 0, no pieces, no drag |
| Game.Puzzle.ResizeCanvas | main.js:80-106 | sets CELL to the cell size of main.js (at least 28) and the offsets to one cell, and leaves the board unchanged |
| Game.Puzzle.ResizeCanvasRemap | puzzle-2/main.js:99-130 | sets CELL to the cell size of puzzle-2/main.js (at least 32, old size defaulting to 80 when 0) and the offsets to one cell. Each piece is re-snapped in a loop to the remapped cell and left at rest. An unchanged CELL keeps every piece on its cell |
| Game.Puzzle.CreatePiecesRandom | main.js:109-125 | the loops shuffle all cells and build the placement; the result is a consistent board (also puzzle-2/main.js:135-153) |
| Game.Puzzle.ReshufflePositions | main.js:127-142 | the loop reassigns every piece's cells from the shuffled list, and the result is a consistent board (also puzzle-2/main.js:156-172) |
| Game.Puzzle.CheckSolved | main.js:187-195 | the loop with early exit returns true exactly when every piece is on `(floor(OFFSET_X / CELL) + pieceCol, floor(OFFSET_Y / CELL) + pieceRow)`, which after a resize is `(1 + pieceCol, 1 + pieceRow)`. It changes nothing, so repeated calls agree (also puzzle-2/main.js:217-229) |
| Game.Puzzle.PointerDown | main.js:198-215 | the downward loop with `break` computes exactly `Press`. It keeps `Consistent` when the board was idle (also puzzle-2/main.js:232-253) |
| Game.Puzzle.PointerMove | main.js:217-232 | computes exactly `Move` and keeps `Consistent` (also puzzle-2/main.js:255-274) |
| Game.Puzzle.PointerUp | main.js:234-250 | the clamp and the occupancy loop compute exactly `Release`. The result is consistent with no two pieces on one cell (also puzzle-2/main.js:276-299) |
| Game.Puzzle.PointerCancel | main.js:252-258 | computes exactly `Cancel`, which is consistent with no two pieces on one cell (also puzzle-2/main.js:301-307) |

## Left out

- Rendering is not modelled: `draw`, `roundRectPath`, `Piece.draw`, `getSrcRect` and the image slicing. It is canvas drawing with floating-point sizes.
- Browser wiring is not modelled. This covers:
  - event registration and `getBoundingClientRect`;
  - pointer capture in `try`/`catch`;
  - `alert` (CheckSolved returns the boolean that is shown);
  - the restart and check buttons, which simply call ReshufflePositions and CheckSolved.
- Image loading, the random choice among the three images, and the start-up sequence are browser I/O. The start-up sequence is resize, then create, then draw, either on load or when the image is already cached.
- Floating-point viewport sizes, `devicePixelRatio` and `setTransform` are not modelled. The available width and height are integer parameters (see above). Pointer coordinates are integers, although the browser can deliver fractional ones.
- Randomness is not modelled. Each `Math.random()` draw is a caller-supplied choice, so the uniformity of the shuffle is not stated. Only the permutation property holds for every choice.
- The touch anti-swipe handlers are left out; they suppress browser gestures only.
- Some dead code is left out: the unused `x`/`y` accessors and `size` field of the pieces of puzzle-2/main.js, and the unused `hadPieces`/`oldPieces` of its resize listener.
- The JavaScript object identity of `dragging` is modelled as a flag plus "the last piece": a press always moves the hit piece to the end, and no pointer handler or resize reorders `pieces`.
- Game.Puzzle.CreatePiecesRandom: when a drag is active, the source replaces `pieces` (main.js:110) and leaves `dragging` pointing at a piece no longer on the board, so later moves and releases touch only that orphan. The model keeps the flag set, and the new last piece counts as dragged. This only happens if the start-up runs again during a drag: the load handler after the cached-image start-up (main.js:265-274).
- Game.Puzzle.ResizeCanvasRemap: no invariant beyond `Wf` is claimed, because the remap can put two pieces on one cell. A resize during an active drag also leaves the drag offset in stale pixels; the model keeps the offset unchanged and states nothing more.
