/**
 * Concrete boards: a solved grid that the win check accepts, what changing
 * one of its cells does, and the hint on a board whose only editable cell is
 * (0, 0) with 2..6 already in row 0.
 */
module SudokuScenarios {
  import opened SudokuRules
  import opened SudokuGame

  /** A full grid that satisfies every row, column and block rule. */
  function SampleSolution(): Grid
  {
    [[1, 2, 3, 4, 5, 6],
     [4, 5, 6, 1, 2, 3],
     [2, 3, 1, 5, 6, 4],
     [5, 6, 4, 2, 3, 1],
     [3, 1, 2, 6, 4, 5],
     [6, 4, 5, 3, 1, 2]]
  }

  lemma SampleRows()
    ensures var g := SampleSolution();
      && g[0] == [1, 2, 3, 4, 5, 6]
      && g[1] == [4, 5, 6, 1, 2, 3]
      && g[2] == [2, 3, 1, 5, 6, 4]
      && g[3] == [5, 6, 4, 2, 3, 1]
      && g[4] == [3, 1, 2, 6, 4, 5]
      && g[5] == [6, 4, 5, 3, 1, 2]
  {
  }

  /** No row of the sample repeats a number. */
  lemma SampleRowScan(i: Index, j: Index)
    ensures forall j': Index :: j' != j ==> SampleSolution()[i][j'] != SampleSolution()[i][j]
  {
    SampleRows();
  }

  /** No column of the sample repeats a number. */
  lemma SampleColumnScan(i: Index, j: Index)
    ensures forall i': Index :: i' != i ==> SampleSolution()[i'][j] != SampleSolution()[i][j]
  {
    SampleRows();
  }

  /** No block of the sample repeats a number. */
  lemma SampleBlockScan(i: Index, j: Index)
    ensures forall i': Index, j': Index :: SameBlock(i, j, i', j') && (i' != i || j' != j) ==>
      SampleSolution()[i'][j'] != SampleSolution()[i][j]
  {
    SampleRows();
  }

  /** Every cell of the sample passes validateMove. */
  lemma SampleCellAllowed(i: Index, j: Index)
    ensures MoveAllowed(SampleSolution(), i, j, SampleSolution()[i][j])
  {
    SampleRowScan(i, j);
    SampleColumnScan(i, j);
    SampleBlockScan(i, j);
  }

  /** The win check accepts the sample solution. */
  lemma SampleSolutionIsSolved()
    ensures Solved(SampleSolution())
  {
    SampleRows();
    assert Full(SampleSolution());
    forall i: Index, j: Index
      ensures MoveAllowed(SampleSolution(), i, j, SampleSolution()[i][j])
    {
      SampleCellAllowed(i, j);
    }
  }

  /** Writing any other number of 1..6 into one cell of the sample makes the win check fail. */
  lemma FlippedSampleIsNotSolved(i: Index, j: Index, v: int)
    requires 1 <= v <= Size && v != SampleSolution()[i][j]
    ensures !Solved(Set(SampleSolution(), i, j, v))
  {
    var g := SampleSolution();
    SampleRows();
    assert v in g[i];
    var c :| 0 <= c < 6 && g[i][c] == v;
    assert Set(g, i, j, v)[i][c] == v;
    assert !MoveAllowed(Set(g, i, j, v), i, j, v);
  }

  lemma OrderedCellsDiffer(s: seq<Cell>, a: int, b: int)
    requires RowMajorOrdered(s) && 0 <= a < b < |s|
    ensures s[a] != s[b]
  {
  }

  /** The sample with (0, 0) emptied. */
  function HintBoard(): (g: Grid)
    ensures g[0][0] == 0 && forall i: Index, j: Index :: i != 0 || j != 0 ==> g[i][j] != 0
  {
    Set(SampleSolution(), 0, 0, 0)
  }

  /** With only (0, 0) editable and empty, provideHint has that one candidate, whatever the draw. */
  lemma HintCandidates(u: real)
    requires 0.0 <= u < 1.0
    ensures var g := HintBoard();
      var empty := EmptyEditable(g, PreFilledMask(g));
      |empty| == 1 && empty[Pick(u, |empty|)] == Cell(0, 0)
  {
    var g := HintBoard();
    var m := PreFilledMask(g);
    var empty := EmptyEditable(g, m);
    EmptyEditableMembers(g, m);
    assert EmptyEditableCell(g, m, Cell(0, 0));
    assert Cell(0, 0) in empty;
    forall a | 0 <= a < |empty|
      ensures empty[a] == Cell(0, 0)
    {
      assert empty[a] in empty;
    }
    if |empty| >= 2 {
      OrderedCellsDiffer(empty, 0, 1);
      assert false;
    }
  }

  /**
   * On that board 1 is the smallest number validateMove accepts at (0, 0),
   * and writing it gives back the solved sample.
   */
  lemma HintScenario()
    ensures var g := HintBoard();
      && SmallestAllowed(g, 0, 0, 1) == 1
      && Set(g, 0, 0, 1) == SampleSolution()
      && Solved(Set(g, 0, 0, 1))
  {
    var g := HintBoard();
    SampleCellAllowed(0, 0);
    assert SampleSolution()[0][0] == 1;
    MoveAllowedIgnoresCell(SampleSolution(), 0, 0, 0, 1);
    assert MoveAllowed(g, 0, 0, 1);
    SampleRows();
    GridsEqual(Set(g, 0, 0, 1), SampleSolution());
    SampleSolutionIsSolved();
  }
}
