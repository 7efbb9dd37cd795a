# 6x6 Sudoku: generator and game state

This project models the core of a 6x6 Sudoku game in Dafny. The grid has six 2x3 blocks, and 0 marks an empty cell.

- **Board** generates the starting grid. It visits blocks 0..5 in order. In each block it shuffles the six cells and takes the first two. Each of those receives the first number of a shuffled 1..6 that `isValid` accepts. `isValid` checks the row, the column and the 2x3 block, and it scans the cell itself. A block that cannot be filled, or whose successors cannot, clears its two cells and reports failure.
- **Game** holds the live board (`currentBoard`) and the mask of pre-filled cells. It also has:
  - the start-of-game copy of the generated grid;
  - `validateMove`, the same three scans as `isValid` but skipping the cell itself;
  - the board updates of the delete key and of the key-release handler;
  - the win check;
  - the hint.

The model has five modules:

| module | file | contents |
|---|---|---|
| `SudokuRules` | `rules.dfy` | the grid type, the block geometry, what `isValid` and `validateMove` answer (`Placeable`, `MoveAllowed`), consistency (no two peers hold the same number) and the win condition (`Solved`) |
| `SudokuBoard` | `board.dfy` | class `Board`; its methods are proved against the pure functions `Fill` (all of `fillBlocks`), `PlaceChosen` (the loop over the two chosen cells) and `Cleared` (the clearing loops) |
| `SudokuGame` | `game.dfy` | class `Game` with fields `currentBoard` and `preFilledCells`; its methods are specified by `MoveAllowed`, `Solved`, `EmptyEditable` (the hint's candidate list) and `SmallestAllowed` |
| `SudokuSession` | `session.dfy` | a new game built on a freshly generated board |
| `SudokuScenarios` | `scenarios.dfy` | a solved sample grid and the hint on that grid with (0, 0) emptied |

Randomness is an input:

- `fillBlocks` takes one `BlockDraw` per block: the permutation the cell shuffle applies, and a permutation of 1..6 for each of the two chosen cells. A failure is never retried; it goes straight back to the constructor. So one draw per block is exactly what the generator consumes.
- `provideHint` takes `Math.random()` as a real number `u` in [0, 1). The candidate index is `(int)(u * count)`.

Three facts from the code shape the model:

- The key-release handler writes a number 1..6 into the board whether `validateMove` accepts it or not. Only an accepted number runs the win check. `ApplyMove` keeps this behaviour.
- `fillBlocks` can fail, because a cell can see all six numbers in its row and column. The constructor then only prints a message, and the board stays all zeros.
- The class comment of `Board.java` says each block gets one number, and the comment before `isValid` says it checks the row and column only. The code fills two cells per block and also checks the block. The model follows the code.

## Model

| member | source | states |
|---|---|---|
| SudokuRules.PlaceableIffAllowedElsewhere | src/main/java/com/example/fpoe_sudoku/model/board/Board.java:183-212 | isValid accepts n exactly when validateMove does and the cell itself does not already hold n |
| SudokuRules.MoveAllowedIffNoPeerHolds | src/main/java/com/example/fpoe_sudoku/model/game/Game.java:224-252 | validateMove accepts n exactly when no other cell of the row, column or 2x3 block holds n |
| SudokuRules.MoveAllowedIgnoresCell | src/main/java/com/example/fpoe_sudoku/model/game/Game.java:167-171 | what the target cell holds does not matter to validateMove, so zeroing it first never changes the verdict |
| SudokuRules.ZeroedPlaceableIsMoveAllowed | src/main/java/com/example/fpoe_sudoku/model/game/Game.java:167-171 | with the cell zeroed, isValid and validateMove give the same answer for every n other than 0 |
| SudokuRules.MoveKeepsConsistent | src/main/java/com/example/fpoe_sudoku/model/board/Board.java:98-101 | on a grid without conflicts, writing a non-zero n keeps it without conflicts if and only if validateMove (equivalently isValid on the zeroed cell) accepts n |
| SudokuRules.ClearKeepsConsistent | src/main/java/com/example/fpoe_sudoku/model/game/Game.java:137-145 | emptying a cell never creates a conflict |
| SudokuRules.SolvedIffFullAndConsistent | src/main/java/com/example/fpoe_sudoku/model/game/Game.java:290-321 | the win condition (no zero, every cell passes validateMove) holds exactly of a full grid without two equal numbers in a row, column or block |
| SudokuBoard.BlockPartition | src/main/java/com/example/fpoe_sudoku/model/board/Board.java:67-79 | block k starts at row (k/2)*2 and column (k%2)*3; every cell lies in exactly one block, and it is the block isValid scans for that cell |
| SudokuBoard.Chosen | src/main/java/com/example/fpoe_sudoku/model/board/Board.java:81-85 | the two cells fillBlocks fills are distinct and both lie in block k |
| SudokuBoard.FirstPlaceable | src/main/java/com/example/fpoe_sudoku/model/board/Board.java:92-104 | the candidate loop stops at the first number isValid accepts; every earlier candidate is rejected; it runs off the end only when none is accepted |
| SudokuBoard.PlaceChosenChangesOnlyChosen | src/main/java/com/example/fpoe_sudoku/model/board/Board.java:88-104 | the loop over the chosen cells writes only those cells, and only numbers 1..6 |
| SudokuBoard.PlaceChosenKeepsConsistent | src/main/java/com/example/fpoe_sudoku/model/board/Board.java:98-101 | every written number passed isValid against the grid of that moment, so a grid without conflicts keeps none, and values stay within 0..6 |
| SudokuBoard.PlaceChosenFillsAll | src/main/java/com/example/fpoe_sudoku/model/board/Board.java:88-114 | when the loop completes, each chosen cell holds a number 1..6 |
| SudokuBoard.ClearedAt | src/main/java/com/example/fpoe_sudoku/model/board/Board.java:109-111 | the clearing loop sets exactly the listed cells to 0 and leaves every other cell unchanged |
| SudokuBoard.FillChangesOnlyChosen | src/main/java/com/example/fpoe_sudoku/model/board/Board.java:61-126 | fillBlocks(k) changes only chosen cells of block k and later blocks, and leaves them at 0 or 1..6 |
| SudokuBoard.FillKeepsEarlierBlocks | src/main/java/com/example/fpoe_sudoku/model/board/Board.java:116-125 | fillBlocks(k) leaves the blocks before k untouched |
| SudokuBoard.FillKeepsConsistent | src/main/java/com/example/fpoe_sudoku/model/board/Board.java:61-126 | fillBlocks keeps a grid free of conflicts and within 0..6 |
| SudokuBoard.FillFailureRestores | src/main/java/com/example/fpoe_sudoku/model/board/Board.java:106-125 | a failing fillBlocks(k) on a grid whose blocks from k on are empty leaves the grid exactly as it found it |
| SudokuBoard.FillSuccessFillsChosen | src/main/java/com/example/fpoe_sudoku/model/board/Board.java:85-118 | a successful fillBlocks(k) leaves both chosen cells of block k and of every later block filled |
| SudokuBoard.FilledWithinChosen | src/main/java/com/example/fpoe_sudoku/model/board/Board.java:84-100 | a block's non-zero cells are among its two chosen cells, so there are at most two |
| SudokuBoard.FilledExactlyChosen | src/main/java/com/example/fpoe_sudoku/model/board/Board.java:85-118 | when both chosen cells are filled, the block's non-zero cells are exactly those two |
| SudokuBoard.GenerateFromEmpty | src/main/java/com/example/fpoe_sudoku/model/board/Board.java:37-51 | generation from the all-zero grid gives no duplicate in any row, column or block, values 0..6, at most two numbers per block (exactly two on success), and the all-zero grid again on failure |
| SudokuBoard.Board.constructor | src/main/java/com/example/fpoe_sudoku/model/board/Board.java:37-51 | the board is the outcome of fillBlocks(0) on the all-zero grid, with the guarantees of GenerateFromEmpty |
| SudokuBoard.Board.IsValid | src/main/java/com/example/fpoe_sudoku/model/board/Board.java:183-212 | the answer is Placeable: n is absent from the row, the column and the block, the cell itself included |
| SudokuBoard.Board.ListBlockCells | src/main/java/com/example/fpoe_sudoku/model/board/Board.java:73-79 | the list holds the six cells of block k, row by row |
| SudokuBoard.Board.ClearCells | src/main/java/com/example/fpoe_sudoku/model/board/Board.java:109-111 | the new board is the old one with the listed cells set to 0 |
| SudokuBoard.Board.FillBlocks | src/main/java/com/example/fpoe_sudoku/model/board/Board.java:61-126 | the result and the new board are those of Fill; fillBlocks(6) returns true and changes nothing |
| SudokuGame.PreFilledMask | src/main/java/com/example/fpoe_sudoku/model/game/Game.java:79-94 | a cell is marked pre-filled exactly when the generated grid holds a number there |
| SudokuGame.EmptyEditableMembers | src/main/java/com/example/fpoe_sudoku/model/game/Game.java:330-339 | the hint's candidate list holds exactly the cells that are 0 and not pre-filled, in strictly increasing row-major order |
| SudokuGame.EmptyEditableBeforeOrdered | src/main/java/com/example/fpoe_sudoku/model/game/Game.java:333-339 | the row-by-row scan lists candidates in strictly increasing row-major position, so none twice |
| SudokuGame.Pick | src/main/java/com/example/fpoe_sudoku/model/game/Game.java:351 | the random index (int)(u * count) always lies within the list |
| SudokuGame.SmallestAllowed | src/main/java/com/example/fpoe_sudoku/model/game/Game.java:356-378 | the number chosen is the smallest of 1..6 that validateMove accepts, and 7 stands for none |
| SudokuGame.ClearIsIdempotent | src/main/java/com/example/fpoe_sudoku/model/game/Game.java:137-145 | emptying a cell twice gives the same board as emptying it once |
| SudokuGame.SetOverwrites | src/main/java/com/example/fpoe_sudoku/model/game/Game.java:167-186 | zeroing the cell and then writing n gives the same board as writing n directly |
| SudokuGame.AllowedMoveKeepsConsistent | src/main/java/com/example/fpoe_sudoku/model/game/Game.java:356-363 | a hint number that validateMove accepted keeps a conflict-free board conflict-free |
| SudokuGame.Game.constructor | src/main/java/com/example/fpoe_sudoku/model/game/Game.java:35-38 | a new game has the all-zero board and no pre-filled cell |
| SudokuGame.Game.InitializeGameState | src/main/java/com/example/fpoe_sudoku/model/game/Game.java:43-57 | the board becomes 6x6 zeros and the mask 6x6 false |
| SudokuGame.Game.StartGame | src/main/java/com/example/fpoe_sudoku/model/game/Game.java:67-95 | the mask marks exactly the generated numbers; those cells take the generated values, the others keep theirs; starting from the empty board, the board equals the generated grid |
| SudokuGame.Game.ValidateMove | src/main/java/com/example/fpoe_sudoku/model/game/Game.java:224-252 | the answer is MoveAllowed: no other cell in the row, column or block holds n |
| SudokuGame.Game.ClearCell | src/main/java/com/example/fpoe_sudoku/model/game/Game.java:137-145 | only the cell becomes 0; the mask is unchanged and a conflict-free board stays so |
| SudokuGame.Game.ApplyMove | src/main/java/com/example/fpoe_sudoku/model/game/Game.java:148-192 | a number 1..6 is written into the cell in either case; the verdict is Accepted (with the win check's answer) exactly when validateMove accepted it on the board before, else Rejected; any other entry empties the cell; on a conflict-free board the result is conflict-free exactly when the move is not Rejected |
| SudokuGame.Game.CheckGameComplete | src/main/java/com/example/fpoe_sudoku/model/game/Game.java:290-321 | the board and mask end as they started, and the answer is Solved: no zero and every cell passes validateMove |
| SudokuGame.Game.CollectEmptyCells | src/main/java/com/example/fpoe_sudoku/model/game/Game.java:330-339 | the list is EmptyEditable: the empty, editable cells in row-major order |
| SudokuGame.Game.FirstAllowed | src/main/java/com/example/fpoe_sudoku/model/game/Game.java:356-357 | the number is the smallest of 1..6 that validateMove accepts, 7 when none |
| SudokuGame.Game.ProvideHint | src/main/java/com/example/fpoe_sudoku/model/game/Game.java:329-387 | with no empty editable cell, nothing changes and the answer is false; otherwise the picked candidate receives the smallest accepted number and nothing else changes, or nothing changes when no number is accepted; the filled cell was empty and editable; a conflict-free board stays so; the mask is unchanged |
| SudokuSession.NewGame | src/main/java/com/example/fpoe_sudoku/model/game/Game.java:35-95 | a new game started on a freshly generated board shows exactly that grid, marks exactly its numbers as pre-filled, and has no conflict and at most two numbers per block |
| SudokuScenarios.SampleSolutionIsSolved | src/main/java/com/example/fpoe_sudoku/model/game/Game.java:290-321 | the win check accepts the full sample grid |
| SudokuScenarios.FlippedSampleIsNotSolved | src/main/java/com/example/fpoe_sudoku/model/game/Game.java:290-321 | changing any one cell of the sample to another number 1..6 makes the win check fail |
| SudokuScenarios.HintCandidates | src/main/java/com/example/fpoe_sudoku/model/game/Game.java:330-351 | on the sample with (0, 0) emptied and every other cell pre-filled, (0, 0) is the only candidate, whatever the random draw |
| SudokuScenarios.HintScenario | src/main/java/com/example/fpoe_sudoku/model/game/Game.java:356-376 | there, 1 is the smallest number validateMove accepts at (0, 0), and writing it completes a solved board |

## Left out

- JavaFX: text fields, styles, the GridPane and the alert boxes. What an alert reports becomes a result: the `won` flag of `CheckGameComplete`, `ApplyMove` and `ProvideHint`. The `System.out` logging is left out as well.
- `java.util.Random`, `Collections.shuffle` and `Math.random` become the `BlockDraw` and `u` parameters. Their distributions are not modelled. `u * count` is exact real arithmetic rather than a double.
- The key-typed filter (Game.java, lines 122-134) only limits what text reaches the key-release handler. `ApplyMove` accepts every parse outcome (`Entry`), so it covers the filtered inputs too. `String.trim` and `Integer.parseInt` are abstracted into `Entry`.
- The focus-lost listener (Game.java, lines 195-212) only re-styles the cell. Its net board effect is to write back the number already shown.
- The key-release handler does not check `preFilledCells`; pre-filled fields are protected only by `setEditable(false)`. `ApplyMove` therefore requires a cell that is not pre-filled. The delete-key handler does not check the mask either, so `ClearCell` has no such requirement.
- The `board` field of `Game` comes from `GameAbstract`, and `GameAbstract`, `IBoard`, `AlertBox` and `User` are not part of this model. `StartGame` takes the generated grid as a parameter, and `NewGame` assumes that grid comes from a fresh `Board`.
- The commented-out earlier version of `fillBlocks` (Board.java, lines 128-169) is not modelled. Neither are the plain getters `getBoard` and `getCurrentBoard`.
- Java `int` overflow cannot occur: cell values are 0..6 and indices 0..5. Integers are unbounded here.
- SudokuBoard.FillFailureRestores: stated only for a grid whose blocks from k on are empty on entry. That always holds for the only call chain, which starts from the constructor's all-zero grid. On other grids the code sets the chosen cells to 0 rather than back to their earlier values.
- SudokuGame.Game.ProvideHint: Java returns only whether a hint was placed, and reports a win through an alert. The model returns both as results.
