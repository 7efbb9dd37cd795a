/**
 * The rules shared by board generation and play: the 6x6 grid with 0 for an
 * empty cell, its six 2x3 blocks, and the two uniqueness scans the game uses,
 * Board.isValid (the cell itself included) and Game.validateMove (the cell
 * itself skipped).
 */
module SudokuRules {

  const Size: int := 6
  const BlockRows: int := 2
  const BlockCols: int := 3

  /** A row or column number of the grid. */
  type Index = i: int | 0 <= i < 6

  /** The 6x6 grid, row by row; 0 is an empty cell. */
  type Grid = g: seq<seq<int>> | |g| == 6 && forall i :: 0 <= i < |g| ==> |g[i]| == 6
    witness seq(6, _ => seq(6, _ => 0))

  /** A 6x6 grid of flags, parallel to a Grid. */
  type Mask = m: seq<seq<bool>> | |m| == 6 && forall i :: 0 <= i < |m| ==> |m[i]| == 6
    witness seq(6, _ => seq(6, _ => false))

  datatype Cell = Cell(row: Index, col: Index)

  function EmptyGrid(): (g: Grid)
    ensures forall i: Index, j: Index :: g[i][j] == 0
  {
    seq(6, _ => seq(6, _ => 0))
  }

  /** The grid with cell (row, col) set to v, every other cell as it was. */
  function Set(g: Grid, row: Index, col: Index, v: int): (r: Grid)
    ensures r[row][col] == v
    ensures forall i: Index, j: Index :: i != row || j != col ==> r[i][j] == g[i][j]
  {
    g[row := g[row][col := v]]
  }

  /** Two grids that agree on every cell are equal. */
  lemma GridsEqual(a: Grid, b: Grid)
    requires forall i: Index, j: Index :: a[i][j] == b[i][j]
    ensures a == b
  {
    forall i | 0 <= i < 6
      ensures a[i] == b[i]
    {
      assert forall j :: 0 <= j < 6 ==> a[i][j] == b[i][j];
    }
  }

  // ---------------------------------------------------------------- blocks

  /** First row of the block that holds a cell in row `row`. */
  function BlockTop(row: Index): Index
  {
    (row / BlockRows) * BlockRows
  }

  /** First column of the block that holds a cell in column `col`. */
  function BlockLeft(col: Index): Index
  {
    (col / BlockCols) * BlockCols
  }

  /** Cell (i, j) lies in the 2x3 block that the scans of (row, col) visit. */
  predicate SameBlock(row: Index, col: Index, i: Index, j: Index)
  {
    BlockTop(row) <= i < BlockTop(row) + BlockRows &&
    BlockLeft(col) <= j < BlockLeft(col) + BlockCols
  }

  /** Being in the same block is an equivalence: the blocks do not overlap. */
  lemma SameBlockSymmetric(row: Index, col: Index, i: Index, j: Index)
    ensures SameBlock(row, col, i, j) <==> SameBlock(i, j, row, col)
    ensures SameBlock(row, col, row, col)
  {
  }

  /** Two different cells that share a row, a column or a block. */
  predicate Peers(row: Index, col: Index, i: Index, j: Index)
  {
    (i != row || j != col) && (i == row || j == col || SameBlock(row, col, i, j))
  }

  lemma PeersSymmetric(row: Index, col: Index, i: Index, j: Index)
    ensures Peers(row, col, i, j) <==> Peers(i, j, row, col)
  {
    SameBlockSymmetric(row, col, i, j);
  }

  // ------------------------------------------------------ the two scans

  /**
   * What Board.isValid answers: n occurs nowhere in row `row`, nowhere in
   * column `col` and nowhere in the block of (row, col); the cell itself is
   * scanned too.
   */
  predicate Placeable(g: Grid, row: Index, col: Index, n: int)
  {
    && (forall j: Index :: g[row][j] != n)
    && (forall i: Index :: g[i][col] != n)
    && (forall i: Index, j: Index :: SameBlock(row, col, i, j) ==> g[i][j] != n)
  }

  /**
   * What Game.validateMove answers: the three scans of Placeable, each
   * skipping the cell (row, col) itself.
   */
  predicate MoveAllowed(g: Grid, row: Index, col: Index, n: int)
  {
    && (forall j: Index :: j != col ==> g[row][j] != n)
    && (forall i: Index :: i != row ==> g[i][col] != n)
    && (forall i: Index, j: Index :: SameBlock(row, col, i, j) && (i != row || j != col) ==> g[i][j] != n)
  }

  /** No peer of (row, col) holds n. */
  predicate NoPeerHolds(g: Grid, row: Index, col: Index, n: int)
  {
    forall i: Index, j: Index :: Peers(row, col, i, j) ==> g[i][j] != n
  }

  /** No two peer cells hold the same non-zero value. */
  predicate Consistent(g: Grid)
  {
    forall row: Index, col: Index :: g[row][col] != 0 ==> NoPeerHolds(g, row, col, g[row][col])
  }

  /** Every cell is filled. */
  predicate Full(g: Grid)
  {
    forall i: Index, j: Index :: g[i][j] != 0
  }

  /** Every cell holds 0 or one of the numbers 1..6. */
  predicate InRange(g: Grid)
  {
    forall i: Index, j: Index :: 0 <= g[i][j] <= Size
  }

  /** The verdict of Game.checkGameComplete: no cell is 0 and every cell passes validateMove. */
  predicate Solved(g: Grid)
  {
    Full(g) && forall i: Index, j: Index :: MoveAllowed(g, i, j, g[i][j])
  }

  /** validateMove accepts n exactly when no peer of the cell holds n. */
  lemma MoveAllowedIffNoPeerHolds(g: Grid, row: Index, col: Index, n: int)
    ensures MoveAllowed(g, row, col, n) <==> NoPeerHolds(g, row, col, n)
  {
    SameBlockSymmetric(row, col, row, col);
  }

  /** isValid accepts n exactly when validateMove does and the cell does not hold n itself. */
  lemma PlaceableIffAllowedElsewhere(g: Grid, row: Index, col: Index, n: int)
    ensures Placeable(g, row, col, n) <==> MoveAllowed(g, row, col, n) && g[row][col] != n
  {
    SameBlockSymmetric(row, col, row, col);
  }

  /** What the cell (row, col) itself holds does not matter to validateMove. */
  lemma MoveAllowedIgnoresCell(g: Grid, row: Index, col: Index, v: int, n: int)
    ensures MoveAllowed(Set(g, row, col, v), row, col, n) <==> MoveAllowed(g, row, col, n)
  {
  }

  /**
   * Zeroing the cell and then asking isValid, as the key-release handler does
   * before validateMove, gives validateMove's answer for every n other than 0.
   */
  lemma ZeroedPlaceableIsMoveAllowed(g: Grid, row: Index, col: Index, n: int)
    requires n != 0
    ensures Placeable(Set(g, row, col, 0), row, col, n) <==> MoveAllowed(g, row, col, n)
  {
    PlaceableIffAllowedElsewhere(Set(g, row, col, 0), row, col, n);
    MoveAllowedIgnoresCell(g, row, col, 0, n);
  }

  /**
   * On a consistent grid, writing a non-zero n into (row, col) leaves the grid
   * consistent exactly when validateMove accepts n there.
   */
  lemma {:induction false} MoveKeepsConsistent(g: Grid, row: Index, col: Index, n: int)
    requires Consistent(g) && n != 0
    ensures Consistent(Set(g, row, col, n)) <==> MoveAllowed(g, row, col, n)
  {
    var g' := Set(g, row, col, n);
    MoveAllowedIffNoPeerHolds(g, row, col, n);
    if MoveAllowed(g, row, col, n) {
      forall r: Index, c: Index | g'[r][c] != 0
        ensures NoPeerHolds(g', r, c, g'[r][c])
      {
        forall i: Index, j: Index | Peers(r, c, i, j)
          ensures g'[i][j] != g'[r][c]
        {
          if r == row && c == col {
            assert g'[i][j] == g[i][j];
          } else if i == row && j == col {
            PeersSymmetric(r, c, i, j);
            assert g[r][c] != n;
          } else {
            assert g[r][c] != 0 && NoPeerHolds(g, r, c, g[r][c]);
          }
        }
      }
    } else {
      var i: Index, j: Index :| Peers(row, col, i, j) && g[i][j] == n;
      assert g'[i][j] == n && g'[row][col] == n;
      assert !NoPeerHolds(g', row, col, g'[row][col]);
    }
  }

  /** Emptying a cell never introduces a conflict. */
  lemma ClearKeepsConsistent(g: Grid, row: Index, col: Index)
    requires Consistent(g)
    ensures Consistent(Set(g, row, col, 0))
  {
  }

  /** The win check holds exactly of a full grid without conflicts. */
  lemma {:induction false} SolvedIffFullAndConsistent(g: Grid)
    ensures Solved(g) <==> Full(g) && Consistent(g)
  {
    forall i: Index, j: Index
      ensures MoveAllowed(g, i, j, g[i][j]) <==> NoPeerHolds(g, i, j, g[i][j])
    {
      MoveAllowedIffNoPeerHolds(g, i, j, g[i][j]);
    }
  }
}
