# 2048 game core in Dafny

This project models the game logic of a 4×4 2048 clone written as a React
component (`src/components/2048/Game2048.jsx`). It covers:

- the line reducer `slideAndMerge`;
- the four-direction `move`;
- the tile spawner `addRandomTile`;
- the starting board `initializeBoard`;
- the shallow `arraysEqual`;
- the end-of-game test `checkGameOver`.

A cell holds `0` when it is empty; any other value is a tile.

The model has five modules, each in its own file:

- `Line` (`line.dfy`) is the reducer on one line that is already turned so that its target edge is index 0. It has two forms:
  - a value-level definition, `SlideAndMerge` = pad(merge-pairs(compact(row)));
  - the source's own in-place loop, `SlideAndMergeRow`, over an `array<int>`. This is proved equal to the definition.
- `Grid` (`grid.dfy`) gives the contents of the board after a move, as a value (`Moved`).
- `Spawn` (`spawn.dfy`) has the list of empty cells in row-major order, one spawn, and the starting board.
- `Terminal` (`terminal.dfy`) has the game-over predicate and how it relates to the moves.
- `Board` (`board.dfy`) holds the imperative methods over the board as the component holds it: a sequence of row arrays (`seq<array<int>>`). These methods say which row arrays are written in place, which are new, and which are shared. Each is proved against the value-level functions.

The randomness of the game is passed in as parameters:

- `pick` is the index drawn into the list of empty cells (`Math.floor(Math.random() * emptySpaces.length)`);
- `twoTile` is the outcome of `Math.random() < 0.9`.

Two behaviours of the code are worth stating plainly.

- **Reduction is not idempotent.** `[2,2,4,0]` reduces to `[4,4,0,0]`, and that reduces again to `[8,0,0,0]` (`Line.NotIdempotentExample`).
- **`move` and `addRandomTile` mutate their arguments.**
  - `move` copies only the outer array;
  - the right branch reverses the caller's rows in place;
  - the up and down branches overwrite the caller's rows;
  - `addRandomTile` writes into the board it is given.

  `Board.Move` and `Board.AddRandomTile` state exactly these effects.

One consequence follows from `Board.Move`'s contract. The handlers test `arraysEqual(board, newBoard)` on the rows as references. That test is true exactly for up, down and unknown directions, whatever the move did. It is false for left and right even when nothing moved.

## Model

| member | source | states |
|---|---|---|
| Line.Compact | src/components/2048/Game2048.jsx:34 | the filter keeps no empty cell and never lengthens the line |
| Line.CompactSum | src/components/2048/Game2048.jsx:34 | dropping empty cells keeps the line's total |
| Line.MergePairs | src/components/2048/Game2048.jsx:35-41 | the merge scan on a compacted line produces no empty cell, and keeps at least half and at most all of the tiles |
| Line.MergePairsSum | src/components/2048/Game2048.jsx:35-41 | merging `a, a` into `2a` keeps the total |
| Line.MergePairsUnchanged | src/components/2048/Game2048.jsx:35-40 | the scan returns its input exactly when no two neighbours are equal, and otherwise strictly shortens it |
| Line.MergePairsFromInputs | src/components/2048/Game2048.jsx:36-38 | every output tile is an input tile or twice one |
| Line.MergePairsTiles | src/components/2048/Game2048.jsx:36-37 | powers of two stay powers of two under merging |
| Line.Pad | src/components/2048/Game2048.jsx:42 | padding fills the line to exactly SIZE cells |
| Line.ShortLineFits | src/components/2048/Game2048.jsx:42 | every line of at most SIZE cells is one `slideAndMerge` pads without throwing |
| Line.SlideAndMerge | src/components/2048/Game2048.jsx:33-43 | the value-level reducer (compact, merge pairs, pad); its own contract states only that the result has SIZE cells, and what it computes is stated by the `SlideAndMerge*` lemmas below and by `Line.SlideAndMergeRow` |
| Line.SlideAndMergeRow | src/components/2048/Game2048.jsx:33-43 | the filter, in-place merge loop, second filter and padding compute `SlideAndMerge(row)` on every line the source does not throw on |
| Line.MergeAt | src/components/2048/Game2048.jsx:36-39 | one loop step doubles cell `i` and clears cell `i + 1` when they are equal, and otherwise changes nothing |
| Line.ScanStep | src/components/2048/Game2048.jsx:35-40 | one loop step keeps the scan invariant: settled tiles followed by what is still to be merged give the merged line |
| Line.ScanEnd | src/components/2048/Game2048.jsx:41 | when the loop ends, compacting the array gives the merged line |
| Line.SlideAndMergeShape | src/components/2048/Game2048.jsx:33-43 | the result has SIZE cells, its tiles are the merged tiles in order followed only by empty cells, and an empty line stays empty |
| Line.SlideAndMergeSum | src/components/2048/Game2048.jsx:33-43 | reducing a line keeps the total of its values |
| Line.SlideAndMergeNoPairs | src/components/2048/Game2048.jsx:33-43 | the compacted line has no equal neighbours exactly when the reducer only compacts and pads |
| Line.SlideAndMergeFullLine | src/components/2048/Game2048.jsx:33-43 | a full line comes back unchanged exactly when it has no equal neighbours |
| Line.MergePairsMergedFrom | src/components/2048/Game2048.jsx:35-41 | the merge scan on every compacted line is a block decomposition `MergedFrom`: consecutive blocks, each one tile kept or two equal neighbours replaced by their double |
| Line.SlideAndMergeNoCascade | src/components/2048/Game2048.jsx:35-40 | merges do not cascade: the result's tiles come from the compacted line by such blocks, so no tile takes part in two merges; hence at least half of the tiles survive, and each result tile is an input value or twice one |
| Line.CascadeExcluded | src/components/2048/Game2048.jsx:35-40 | from `2, 2, 4, 16` the block relation allows `4, 4, 16` and rules out the cascaded `8, 16` |
| Line.SlideAndMergeTiles | src/components/2048/Game2048.jsx:33-43 | if every input cell is empty or a power of two, so is every output cell |
| Line.NoCascadeExample | src/components/2048/Game2048.jsx:35-40 | `[2,2,2,2]` reduces to `[4,4,0,0]`, not `[8,0,0,0]` |
| Line.LeftFirstExample | src/components/2048/Game2048.jsx:35-40 | `[2,2,2,0]` reduces to `[4,2,0,0]`: pairs are taken from the left |
| Line.GapMergeExample | src/components/2048/Game2048.jsx:34-36 | `[0,2,0,2]` reduces to `[4,0,0,0]`: tiles meet across empty cells |
| Line.NoPairExample | src/components/2048/Game2048.jsx:33-43 | `[2,4,2,4]` comes back unchanged |
| Line.NotIdempotentExample | src/components/2048/Game2048.jsx:33-43 | reducing `[2,2,4,0]` twice differs from reducing it once |
| Line.ArraysEqual | src/components/2048/Game2048.jsx:29-30 | same length and element-wise `===` holds exactly when the two sequences are equal |
| Grid.Moved | src/components/2048/Game2048.jsx:46-70 | the contents `move` returns for each direction string; its contract states only that the result is a 4×4 board, and `Grid.MovedLines`, `Grid.MovedOther`, `Grid.MovedSum`, `Grid.MovedTiles` and `Board.Move` state what it is |
| Grid.MovedLines | src/components/2048/Game2048.jsx:46-70 | left and right reduce every row (right through reversal); up and down reduce every column read top to bottom (down through reversal) |
| Grid.MovedOther | src/components/2048/Game2048.jsx:68-69 | a direction string other than the four returns the contents unchanged |
| Grid.MovedSum | src/components/2048/Game2048.jsx:46-70 | no direction changes the board's total |
| Grid.MovedTiles | src/components/2048/Game2048.jsx:46-70 | a board of empty cells and powers of two stays so after any move |
| Grid.MovedRightExample | src/components/2048/Game2048.jsx:50-51 | two 2s in the top row moved right become a 4 in the top-right corner |
| Spawn.EmptyCells | src/components/2048/Game2048.jsx:16-21 | every listed position is an empty cell of the board |
| Spawn.EmptyCellsExact | src/components/2048/Game2048.jsx:16-21 | a cell is listed exactly when it is empty, each once, in row-major order |
| Spawn.Spawned | src/components/2048/Game2048.jsx:15-26 | the board after one spawn; its contract states only that the result is a 4×4 board, and `Spawn.SpawnedFull`, `Spawn.SpawnedOne` and `Board.AddRandomTile` state what it is |
| Spawn.SpawnedFull | src/components/2048/Game2048.jsx:22 | a full board has no empty cell and is returned as it is |
| Spawn.SpawnedOne | src/components/2048/Game2048.jsx:23-25 | otherwise the chosen cell was empty and now holds a 2 or a 4, every other cell is unchanged, and one empty cell fewer remains |
| Spawn.EmptyGrid | src/components/2048/Game2048.jsx:8-10 | the starting array holds only empty cells |
| Spawn.EmptyGridCells | src/components/2048/Game2048.jsx:8-10 | all sixteen cells of the empty board are listed as empty |
| Spawn.InitialGrid | src/components/2048/Game2048.jsx:7-12 | the empty board after two spawns; its contract states only that the result is a 4×4 board, and `Spawn.InitialGridTwoTiles` and `Board.InitializeBoard` state what it is |
| Spawn.InitialGridTwoTiles | src/components/2048/Game2048.jsx:7-12 | the starting board holds exactly two tiles, each a 2 or a 4, and fourteen empty cells |
| Terminal.NoMovesLeft | src/components/2048/Game2048.jsx:118-128 | the meaning of "no moves left": no empty cell and no two equal neighbours. It has no contract of its own; `Terminal.UpLeftSuffices`, `Terminal.GameOverFrozen`, `Terminal.FrozenFullIsGameOver` and `Board.CheckGameOver` relate it to the scan and to the moves |
| Terminal.CellClear | src/components/2048/Game2048.jsx:122-124 | the three tests made at one cell: not empty, different from the cell above, different from the cell to the left. It has no contract of its own; `Terminal.UpLeftSuffices` states what it decides |
| Terminal.UpLeftSuffices | src/components/2048/Game2048.jsx:118-128 | checking each cell for emptiness and against its upper and left neighbours decides exactly "no empty cell and no equal neighbours" |
| Terminal.FullLineStays | src/components/2048/Game2048.jsx:33-51 | a full line with no equal neighbours survives reduction from either end |
| Terminal.GameOverFrozen | src/components/2048/Game2048.jsx:118-128 | on a board with no moves left, no direction changes the contents `move` returns (`Moved(g, d) == g`); the right branch still reverses the caller's rows in place |
| Terminal.FrozenFullIsGameOver | src/components/2048/Game2048.jsx:118-128 | conversely, a full board that left and up leave unchanged has no moves left |
| Terminal.NoMovesLeftExamples | src/components/2048/Game2048.jsx:119-128 | a full checkerboard of 2s and 4s is stuck; with one equal pair it is not |
| Board.ReverseInPlace | src/components/2048/Game2048.jsx:51 | `reverse()` leaves the array holding its old contents reversed |
| Board.MoveLeft | src/components/2048/Game2048.jsx:48-49 | the left branch returns new row arrays holding the reduced rows and leaves the caller's rows alone |
| Board.ReduceRowRight | src/components/2048/Game2048.jsx:51 | one row of the right branch: the caller's row is left reversed, and a new array holds the row reduced towards the right |
| Board.ReduceBoardRowRight | src/components/2048/Game2048.jsx:51 | one row of the right branch on the whole board: the caller's row `i` joins the already reversed rows, and a new array holds row `i` of `MovedRight` |
| Board.MoveRight | src/components/2048/Game2048.jsx:50-51 | the right branch returns new row arrays holding the rows reduced towards the right, and leaves every caller row reversed |
| Board.WriteColumn | src/components/2048/Game2048.jsx:56-58 | writing a column changes that column of the caller's rows and no other cell |
| Board.MoveColumns | src/components/2048/Game2048.jsx:52-67 | the up and down branches overwrite the caller's rows with the moved contents |
| Board.Move | src/components/2048/Game2048.jsx:46-70 | the returned board holds `Moved` of the old contents. Left gives new rows and leaves the caller's rows alone. Right gives new rows and reverses the caller's rows. Other directions return the caller's own rows. Shallow `arraysEqual` of old and new holds exactly when the direction is neither left nor right |
| Board.CollectEmptySpaces | src/components/2048/Game2048.jsx:16-21 | the nested loops collect exactly `EmptyCells` of the board, in row-major order |
| Board.AddRandomTile | src/components/2048/Game2048.jsx:15-26 | the same board object is returned, and its contents are `Spawned` of the old contents |
| Board.InitializeBoard | src/components/2048/Game2048.jsx:7-12 | four new zero rows, then two spawns, give `InitialGrid` |
| Board.CheckGameOver | src/components/2048/Game2048.jsx:119-128 | the early-returning scan answers true exactly when the board has no moves left |

## Left out

- The React component is not modelled: its state, effects, keyboard listener, swipe handlers and rendering, including `tileColors` (lines 72-175), except `checkGameOver` (lines 119-128), which is lifted out and modelled as `Board.CheckGameOver`. Nothing in it computes on the board beyond calling the modelled functions.
- The handlers' "spawn only if the board changed" test (lines 95 and 113) is not modelled as an operation. `Board.Move` states what that shallow comparison answers for each direction.
- The random choices are parameters, so the model does not capture the uniform choice of a cell or the 0.9 probability of a 2.
- Numbers are unbounded integers. JavaScript doubles, and their loss of precision above 2^53, are not modelled; the game cannot produce such values.
- `Line.SlideAndMerge` and `Line.SlideAndMergeRow` require `Fits(row)`. The source throws a `RangeError` when the merged line is longer than SIZE, and the model excludes exactly those inputs rather than modelling the exception. Every line of at most SIZE cells fits (`Line.ShortLineFits`).
- Board.Move: requires four distinct row arrays of four cells each. The source always builds boards of that shape, and a board whose rows alias each other is not modelled.
- Board.AddRandomTile: requires `pick` to index the list of empty cells when that list is not empty. `Math.floor(Math.random() * n)` always does.
