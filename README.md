# 2048 game core in Dafny

A model of the game engine of a TypeScript clone of 2048 (mdwelsh/2048), with proofs
about it. The game has a `size` × `size` grid of numbered tiles. A move in one of four
directions slides every tile as far as it can go. Two equal tiles that meet merge into
one tile of twice the value, at most once per tile per move, and the merged value is
added to the score. A move that changes anything is followed by a new 2 or 4 on a random
empty cell. The game is over when no cell is empty and no two neighbours are equal, and
it is won when a merge produces 2048.

The model has the same shape as the program:

- `tile.dfy` (module `Tiles`): the `Tile` class of src/tile.ts, with mutable
  coordinates, `previousPosition` and `mergedFrom`.
- `lib_tile.dfy` (module `LibTiles`): the second copy of that class, lib/tile.ts.
- `grid.dfy` (module `Grids`): the `Grid` class of src/grid.ts. Its
  `cells: seq<seq<Tile?>>` are reassigned in place by `InsertTile` and `RemoveTile`. A
  ghost copy `board` holds the cell values the rules see; every method that writes a
  cell keeps it in step.
- `rules.dfy` (module `Rules`): the rules of src/game_manager.ts stated on values.
  - `Step` is the traversal body for one cell. `Sweep` is the nested traversal.
  - `Slide` is a whole move before the random tile. `Spawned` is the random tile.
  - The lemmas at the end of this module are the properties the game promises.
- `games.dfy` (module `Games`): the `GameManager` class. Each of its methods is proved
  to change the grid, score and flags exactly as the rules say. `Move` is proved
  against `Played`, which is `Slide`, then `Spawned`, then the game-over test.
- `llm.dfy` (module `Llm`): `textGrid` of src/llm.ts, the text table of the board that
  the automated player sends to a language model. `Render` specifies it. The lemmas
  show that the table lines up and can be read back.

Randomness (`Math.random`) becomes a nondeterministic choice: the cell is any element of
`availableCells()`, and the value is 2 or 4. The actuator, which receives the game state
after each move, becomes a ghost log `actuations` of the states it was handed.

Facts about the source worth knowing when reading the model:

- `isGameTerminated()` is `over || won` (src/game_manager.ts:40-42); its comment speaks
  of a game that "has won and the user hasn't kept playing", but nothing lets the player
  keep playing, so once a merge has produced 2048 every later move is refused.
- A refused move returns at src/game_manager.ts:96, before the call of `actuate` at
  line 150, so the actuator is not told about it.
- The game manager has no notification of its own for the end of the game; the
  actuator sees `over` and `terminated` in the state it receives.

## Model

| member | source | states |
|---|---|---|
| Tiles.Tile.constructor | src/tile.ts:13-19 | The tile takes the given coordinates, value `value \|\| 2` (0 becomes 2), and has no previous position and no merge origin |
| Tiles.InitialValue | src/tile.ts:16 | `value \|\| 2` keeps every value other than 0 and never yields 0 |
| Tiles.Tile.SavePosition | src/tile.ts:21-23 | `previousPosition` becomes the current coordinates; nothing else changes |
| Tiles.Tile.UpdatePosition | src/tile.ts:25-28 | Only `x` and `y` change, to the given position |
| Tiles.Tile.Serialize | src/tile.ts:30-38 | The serialised state holds the tile's coordinates and value |
| Tiles.Rebuild | src/tile.ts:13-19 | A tile rebuilt from a serialised state serialises back to it; a value of 0 comes back as 2 |
| Tiles.SerializeRoundTrip | src/tile.ts:30-38 | Serialising a tile with a non-zero value and rebuilding it gives a new tile with the same coordinates and value and no history |
| LibTiles.Tile.constructor | lib/tile.ts:8-14 | As in src/tile.ts: the given coordinates, `value \|\| 2`, no previous position, no merge origin |
| LibTiles.Tile.SavePosition | lib/tile.ts:16-18 | `previousPosition` becomes the current coordinates |
| LibTiles.Tile.UpdatePosition | lib/tile.ts:20-23 | Only `x` and `y` change, to the given position |
| LibTiles.Tile.Serialize | lib/tile.ts:25-33 | The serialised state holds the tile's coordinates and value |
| LibTiles.Rebuild | lib/tile.ts:8-14 | Rebuilding from a serialised state gives it back, with 0 read as 2 |
| LibTiles.SerializeRoundTrip | lib/tile.ts:25-33 | Serialise-then-rebuild keeps coordinates and a non-zero value |
| Grids.Grid.constructor | src/grid.ts:13-16 | Without a state, the grid is valid and every cell is empty. With a state, every cell holds what a new tile made from the saved entry holds (through the corrected `fromState`), the board shows it, and the grid is valid when every entry records its own cell |
| Grids.Grid.EmptyRows | src/grid.ts:18-28 | `size` rows of `size` nulls |
| Grids.Grid.FromState | src/grid.ts:30-41 | As written: for every state with at least `size` rows, the result has no rows |
| Grids.Grid.FromStateRows | src/grid.ts:30-41 | Corrected: `size` rows of `size` cells; cell (x, y) is null exactly when the state has no entry there, and otherwise is a new tile made from the entry |
| Grids.Grid.WithinBounds | src/grid.ts:104-106 | Both coordinates lie in 0 .. size-1 (the rules' `InBounds`) |
| Grids.Grid.CellOccupied | src/grid.ts:83-85 | `cellContent` is not null; CellAvailableMeaning states what that means on the board |
| Grids.Grid.CellAvailable | src/grid.ts:79-81 | The negation of `cellOccupied`; CellAvailableMeaning states what that means on the board |
| Grids.Grid.CellContent | src/grid.ts:87-93 | The tile in the cell for an in-bounds position, null for any position off the board |
| Grids.Grid.CellAvailableMeaning | src/grid.ts:79-85 | Off the board every position is available. On it, a cell is available exactly when it is empty, and occupied exactly when it holds a tile |
| Grids.EmptyBoard | src/grid.ts:18-28 | The board of an empty grid has no tile anywhere |
| Grids.Grid.EmptyCells | src/grid.ts:53-62 | The positions `availableCells()` returns, as a function of the cells; EmptyCellsSpec states which they are |
| Grids.Grid.EmptyCellsBeforeMembers | src/grid.ts:53-71 | After visiting the cells before (x, y), the collected positions are exactly the empty cells that precede (x, y) |
| Grids.Grid.EmptyCellsBeforeOrdered | src/grid.ts:53-71 | The collected positions are in visiting order, each once |
| Grids.Grid.EmptyCellsSpec | src/grid.ts:53-62 | `availableCells()` lists exactly the empty cells of the board, each once, ordered by x and then by y |
| Grids.Grid.AvailableCells | src/grid.ts:53-71 | The nested loop of `eachCell` returns `EmptyCells()` |
| Grids.Grid.CellsAvailableMeaning | src/grid.ts:74-76 | `cellsAvailable()` holds exactly when the board has an empty cell |
| Grids.Grid.CellsAvailable | src/grid.ts:74-76 | `availableCells()` is not empty; CellsAvailableMeaning states what that means on the board |
| Grids.Grid.RandomAvailableCell | src/grid.ts:44-51 | Returns a position exactly when some cell is empty, and then one of the empty cells |
| Grids.Grid.InsertTile | src/grid.ts:96-98 | Only the tile's own cell changes, and now holds the tile. The board shows the tile there. A valid grid stays valid |
| Grids.Grid.RemoveTile | src/grid.ts:100-102 | Only the tile's own cell changes, and is now empty. The board shows an empty cell there. A valid grid stays valid |
| Grids.Grid.Serialize | src/grid.ts:108-122 | As written: the serialised grid has the right size and no rows |
| Grids.Grid.SerializeRows | src/grid.ts:108-122 | Corrected: `size` rows of `size` entries; each is the serialised tile of the cell, or nothing for an empty cell |
| Grids.RestoreRoundTrip | src/grid.ts:13-16 | Restoring a grid from a saved state and serialising it gives back every entry of the state, with values of 0 read as 2; entries with other values come back unchanged |
| Rules.GetVector | src/game_manager.ts:154-164 | Up, right, down, left give the unit vectors (0,-1), (1,0), (0,1), (-1,0): horizontal exactly for odd directions, negative for up and left |
| Rules.VectorOfSomeDirection | src/game_manager.ts:154-164 | Every unit vector comes from exactly one direction |
| Rules.PositionsEqual | src/game_manager.ts:229-231 | Comparing coordinates is equality of positions |
| Rules.Unmark | src/game_manager.ts:78-79 | Clearing a tile's merge marker keeps its value and whether the cell is empty |
| Rules.Prepared | src/game_manager.ts:75-82 | After `prepareTiles` no tile carries a merge marker, and every cell keeps its value |
| Rules.SlideLength | src/game_manager.ts:182-195 | The number of steps `findFarthestPosition` takes before the edge or a tile stops it; SlideLengthSpec states its meaning |
| Rules.SlideLengthSpec | src/game_manager.ts:182-195 | `farthest` is on the board, every cell crossed on the way is open, and `next` is off the board or occupied |
| Rules.Step | src/game_manager.ts:110-139 | The traversal body for one cell on values: nothing for an empty cell, else a merge into an equal unmarked tile after the slide, else a slide to the farthest cell; it keeps the board shape |
| Rules.Sweep | src/game_manager.ts:107-139 | `Step` applied to every cell in the order of the nested traversal; the lemmas below state what it keeps |
| Rules.Slide | src/game_manager.ts:104-139 | The whole traversal of a move from the prepared board, before the spawn |
| Rules.Spawned | src/game_manager.ts:52-58 | A full board is kept; otherwise one empty cell receives a 2 or a 4 and nothing else changes |
| Rules.StepMerges | src/game_manager.ts:119-132 | Unfolds the merge branch of `Step`: when the cell after the slide holds an equal unmarked tile, the result is that branch, and `next` is on the board and differs from the tile's cell |
| Rules.StepSlides | src/game_manager.ts:133-139 | Unfolds the slide branch of `Step`: otherwise the result is that branch, and `farthest` is on the board |
| Rules.MovedStays | src/game_manager.ts:136-138 | Once a tile has moved, the move counts as moved to the end of the traversal |
| Rules.UnmovedSweepChangesNothing | src/game_manager.ts:107-141 | A traversal in which no tile leaves its cell changes neither the board nor the score, and merges nothing |
| Rules.UnmovedStepChangesNothing | src/game_manager.ts:110-139 | A traversal step after which no tile has moved left the state as it was |
| Rules.SweepCount | src/game_manager.ts:107-139 | Tiles are conserved: tiles after the traversal plus merges performed equals tiles before |
| Rules.StepCount | src/game_manager.ts:110-139 | One step keeps tiles plus merges constant |
| Rules.MergeCount | src/game_manager.ts:122-123 | A merge leaves one tile fewer on the board |
| Rules.SlideCount | src/game_manager.ts:85-89 | A slide into an empty cell, or into its own cell, keeps the number of tiles |
| Rules.SweepGain | src/game_manager.ts:128-129 | While tiles hold game values (powers of two from 2), they keep doing so, and each merge adds at least 4 to the score: the score never decreases |
| Rules.StepGain | src/game_manager.ts:119-132 | One step keeps game values and gains at least 4 per merge |
| Rules.MarkedOnlyBehind | src/game_manager.ts:116-117 | Only cells the traversal has already visited hold a tile made by a merge in this move |
| Rules.StepMarks | src/game_manager.ts:116-121 | A step marks, if anything, a cell that the traversal has then visited |
| Rules.MovingTileUnmarked | src/game_manager.ts:110-117 | The tile the traversal is about to move was not made by a merge in this move, so no tile takes part in two merges |
| Rules.MovedLeavesRoom | src/game_manager.ts:144-145 | A move that moved a tile leaves an empty cell, so the random tile after it always finds a place |
| Rules.StepLeavesRoom | src/game_manager.ts:110-139 | A step either leaves the state unchanged or empties the cell it started from |
| Rules.StuckBoardCannotMove | src/game_manager.ts:141-147 | On a full board with no equal neighbours, the traversal changes nothing |
| Rules.StuckStep | src/game_manager.ts:110-139 | On such a board a single step neither slides nor merges |
| Rules.PreparedStuck | src/game_manager.ts:75-82 | Clearing merge markers keeps a stuck board stuck |
| Rules.StuckBoardMoveIsNoop | src/game_manager.ts:92-151 | On a stuck board every direction moves no tile, gains no score and only clears the markers |
| Games.Played | src/game_manager.ts:92-151 | A move that is not refused: `Slide`, then one spawn and the game-over test exactly when a tile moved; the score gains what `Slide` counts and `won` records a 2048 |
| Games.GameManager.IsGameTerminated | src/game_manager.ts:40-42 | The game is lost or won: `over \|\| won` |
| Games.GameManager.constructor | src/game_manager.ts:28-37 | The game starts with score 0, not over, not won, and the board after two spawn steps on an empty grid |
| Games.GameManager.AddStartTiles | src/game_manager.ts:45-49 | `startTiles` spawns in a row |
| Games.GameManager.AddRandomTile | src/game_manager.ts:52-58 | A full board is kept; otherwise exactly one empty cell receives a 2 or a 4 |
| Games.GameManager.Actuate | src/game_manager.ts:61-72 | The actuator receives the board, score, flags, `over \|\| won` and the direction |
| Games.GameManager.PrepareTiles | src/game_manager.ts:75-82 | The board becomes `Prepared` of the old board, and every tile records its own cell as its previous position |
| Games.GameManager.PrepareCell | src/game_manager.ts:76-81 | For one cell: the tile there loses its merge marker and records its position; the rest of the board is unchanged |
| Games.GameManager.MoveTile | src/game_manager.ts:85-89 | The tile's old cell becomes null, the target cell holds the tile object, every other cell keeps its tile, the board shows the same, and the tile takes the target's coordinates |
| Games.GameManager.FindFarthestPosition | src/game_manager.ts:182-195 | `farthest` lies `SlideLength` steps from the cell, and `next` one step further |
| Games.GameManager.BuildTraversals | src/game_manager.ts:167-180 | Each axis is 0 .. size-1, reversed on an axis the vector points along positively |
| Games.Ascending | src/game_manager.ts:170-173 | The pushed indices are 0 .. k-1 in order |
| Games.Reverse | src/game_manager.ts:176-177 | Element i of the reversed list is element len-1-i of the list |
| Games.GameManager.TileMatchesAvailable | src/game_manager.ts:202-227 | True exactly when some tile has a 4-neighbour of equal value |
| Games.GameManager.MovesAvailable | src/game_manager.ts:197-199 | True exactly when a cell is empty or two neighbours are equal |
| Games.GameManager.TraverseCell | src/game_manager.ts:110-139 | The traversal body for one cell changes the board, score and `won` exactly as one `Step` of the rules, and reports whether the tile left its cell |
| Games.GameManager.MergeStep | src/game_manager.ts:119-132 | The merge branch does exactly one merging `Step`, and the tile ends away from its cell |
| Games.GameManager.SlideStep | src/game_manager.ts:133-135 | The slide branch does exactly one sliding `Step`, and the tile has moved exactly when its coordinates changed |
| Games.GameManager.MergeTiles | src/game_manager.ts:119-132 | `next` holds a newly created tile of twice the value whose `mergedFrom` is the pair, the moving tile's cell becomes null and every other cell keeps its tile, the board shows a marked tile at `next`, the tile takes `next`'s coordinates, the score grows by the new value, and 2048 sets `won` |
| Games.GameManager.PlaceMerged | src/game_manager.ts:120-122 | A newly created tile of twice the value, at `next`, with `mergedFrom` the pair, is written into `next` and nowhere else |
| Games.GameManager.Traverse | src/game_manager.ts:107-139 | The nested traversal produces the board, score, `moved` and `won` of `Sweep` over all cells |
| Games.GameManager.AfterTraversal | src/game_manager.ts:141-148 | If a tile moved, one tile is spawned and `over` is set when no move is left; otherwise nothing changes |
| Games.GameManager.Move | src/game_manager.ts:92-151 | A terminated game is left as it is and the actuator is not called. Otherwise the new board, score gain, `over` and `won` are those of `Played`, and the actuator is told the new state and the direction. In every case the score never decreases |
| Games.PreparedValues | src/game_manager.ts:75-82 | Clearing merge markers keeps every tile's value a game value |
| Games.SpawnKeepsValues | src/game_manager.ts:54-56 | A spawned 2 or 4 keeps every tile a game value |
| Llm.Repeat | src/llm.ts:59-61 | `s.repeat(k)`: k copies of s, k times as long |
| Llm.PadStart | src/llm.ts:57 | `s.padStart(width)`; PadStartSpec states its meaning |
| Llm.Join | src/llm.ts:59-62 | `parts.join(sep)`; JoinCells and JoinRows state the layout it produces |
| Llm.DecimalString | src/llm.ts:55 | `v.toString()` for an integer, at least one character; DecimalRoundTrip reads it back |
| Llm.Render | src/llm.ts:49-63 | The table for a board: the separator, then the lines of cells joined with the separator between them, then the separator; RenderLines, RowLayout and ReadCell state its layout |
| Llm.TextGrid | src/llm.ts:49-63 | The text returned is `Render` of the board: line r shows the cells whose y coordinate is r, right-aligned in 6 characters and joined by " \|", between separators |
| Llm.LineText | src/llm.ts:52-59 | The inner loop builds line x of the table |
| Llm.DigitsRoundTrip | src/llm.ts:55 | Reading back the decimal digits of a number gives the number |
| Llm.DecimalRoundTrip | src/llm.ts:55 | Reading back `toString()` of any integer, negative ones included, gives the integer |
| Llm.DigitsWidth | src/llm.ts:55 | A number below 10^k has at most k digits |
| Llm.PadStartSpec | src/llm.ts:57 | `padStart(6)` makes a shorter text 6 wide with blanks in front and leaves a longer one as it is |
| Llm.SmallValuesFit | src/llm.ts:55-57 | Every value below 1000000 fits its column |
| Llm.JoinCells | src/llm.ts:59 | Joining texts of width 6 with " \|" puts text c at offset 8c |
| Llm.RowLayout | src/llm.ts:59-61 | When every value fits, each line is exactly as wide as the separator, and column c of line r holds the text of cell (c, r) |
| Llm.ReadCell | src/llm.ts:54-57 | The text of a cell is 6 wide; it is blank exactly for an empty cell, and otherwise, without its leading blanks, reads back as the tile's value |
| Llm.RenderLines | src/llm.ts:61-62 | The text is an empty line, the separator, then each line of cells followed by the separator, joined by newlines |
| Llm.JoinRows | src/llm.ts:62 | Joining the lines with the separator between them, and putting it around them, is the interleaving of lines and separators joined by newlines |

## Left out

- `eachCell` (src/grid.ts:65-71) is not a member of its own: its nested loop is written out where it is called, in `AvailableCells` and, with `PrepareCell` as the callback, in `PrepareTiles`.
- `randomAvailableCell` and `addRandomTile` draw with `Math.random()`. The model chooses any empty cell and either 2 or 4. The probabilities (uniform cell, 2 with probability 0.9) are not modelled.
- The actuator and the input manager are event emitters. `actuate` becomes the ghost log `actuations`, and the subscription of `move` to input events is left out. The rest of src/llm.ts (the prompt, the request to the model and parsing its answer), src/terminal.ts, src/game.ts and src/main.ts are not part of this model.
- Games.GameManager.Move: numbers are unbounded integers, not IEEE doubles. Scores and values beyond 2^53 are not modelled. Nor is `tile.value * 2` on non-integers, since every tile value is an integer.
- Rules.GetVector and Games.GameManager.Move take a `Direction` in 0 .. 3 only. The language-model player casts any parsed integer to `Direction` (src/llm.ts:128-129); for another number `getVector` returns `undefined` and `move` throws a TypeError in `buildTraversals` (src/game_manager.ts:176) before any state has changed. The model excludes such directions rather than modelling the exception.
- Grids.Grid.FromState: requires the saved state to have at least `size` rows, and so do Grids.Grid.FromStateRows and Grids.Grid.constructor with a state. With fewer rows the source throws a TypeError when it reads `state[x][y]` (src/grid.ts:36); for example `new Grid(4, [])` does, since `[]` is truthy at src/grid.ts:15. The model excludes that input rather than modelling the exception. A row shorter than `size` does not throw: its missing entries read as no tile, as in the source.
- Grids.Grid.InsertTile: requires the tile to be inside the grid. The source would write to a missing row, or add a property to an array, for a tile off the board, and no caller does that.
- Games.GameManager.MoveTile: requires both the tile's cell and the target to be on the board, as at its one call site.
- Llm.TextGrid: `value.toString()` is modelled for integers only. The empty string the source appends after each padded cell is dropped, since it changes nothing.
- Tiles.Tile.constructor and LibTiles.Tile.constructor: `value || 2` is modelled on integers, where 0 is the only falsy value. `NaN` is not modelled.
- lib/tile.ts declares `updatePosition` as a function-valued property using `this`. It is modelled as an ordinary method.

## Findings

| source | as written | input that shows it | evidently intended | confidence | as-written member | corrected member |
|---|---|---|---|---|---|---|
| src/grid.ts:33-40 | `fromState` builds each row but never pushes it onto `cells`, so it returns an empty array | any `size` of 1 or more, with any state of at least `size` rows | push each row, so the grid holds a tile for each saved entry | high (not executed) | Grids.Grid.FromState | Grids.Grid.FromStateRows (used by Grids.Grid.constructor; round trip in Grids.RestoreRoundTrip) |
| src/grid.ts:111-116 | `serialize` builds each row but never pushes it onto `rows`, so `cellState` is always empty | any grid of size 1 or more | push each row, so `cellState` holds every cell's serialised tile | high (not executed) | Grids.Grid.Serialize | Grids.Grid.SerializeRows (round trip in Grids.RestoreRoundTrip) |
