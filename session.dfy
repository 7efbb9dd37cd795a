/**
 * How a session starts (SudokuGameController.initialize): the generator
 * fills a Board, a Game is built on it and startGame copies the generated
 * numbers into the game as its pre-filled cells.
 */
module SudokuSession {
  import opened SudokuRules
  import opened SudokuBoard
  import opened SudokuGame

  /**
   * A new session's board is the generated grid, the pre-filled cells are
   * exactly its numbers, no two of them conflict and no block holds more
   * than two of them.
   */
  method NewGame(draws: seq<BlockDraw>) returns (game: Game)
    requires WellFormedDraws(draws)
    ensures fresh(game)
    ensures game.currentBoard == Fill(EmptyGrid(), 0, draws).grid
    ensures game.preFilledCells == PreFilledMask(game.currentBoard)
    ensures Consistent(game.currentBoard) && InRange(game.currentBoard)
    ensures forall k :: 0 <= k < TotalBlocks ==> |FilledCells(game.currentBoard, k)| <= 2
  {
    var generator := new Board(draws);
    game := new Game();
    game.StartGame(generator.board);
  }
}
