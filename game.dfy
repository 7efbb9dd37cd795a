/**
 * Game.java without its JavaFX parts: the live board and the mask of
 * pre-filled cells, the copy of the generated grid at game start,
 * validateMove, the board updates of the key handlers, the win check and
 * the hint. Text fields, styles and alert boxes are left out; what an alert
 * reports becomes a result.
 */
module SudokuGame {
  import opened SudokuRules

  /** The trimmed text of a cell when a key is released, as Integer.parseInt reads it. */
  datatype Entry = Blank | Number(value: int) | NotANumber

  /**
   * What a key release does with the cell: empties it, or keeps a number
   * that validateMove accepted (with the win check's answer) or rejected.
   */
  datatype Verdict = Emptied | Accepted(won: bool) | Rejected

  function NoMask(): (m: Mask)
    ensures forall i: Index, j: Index :: !m[i][j]
  {
    seq(6, _ => seq(6, _ => false))
  }

  /** The mask with cell (row, col) set to b, every other cell as it was. */
  function SetMask(m: Mask, row: Index, col: Index, b: bool): (r: Mask)
    ensures r[row][col] == b
    ensures forall i: Index, j: Index :: i != row || j != col ==> r[i][j] == m[i][j]
  {
    m[row := m[row][col := b]]
  }

  /** The mask startGame builds from a generated grid: a cell is pre-filled exactly when it holds a number. */
  function PreFilledMask(generated: Grid): (m: Mask)
    ensures forall i: Index, j: Index :: m[i][j] == (generated[i][j] != 0)
  {
    seq(6, i requires 0 <= i < 6 => seq(6, j requires 0 <= j < 6 => generated[i][j] != 0))
  }

  /** Two masks that agree on every cell are equal. */
  lemma MasksEqual(a: Mask, b: Mask)
    requires forall i: Index, j: Index :: a[i][j] == b[i][j]
    ensures a == b
  {
    forall i | 0 <= i < 6
      ensures a[i] == b[i]
    {
      assert forall j :: 0 <= j < 6 ==> a[i][j] == b[i][j];
    }
  }

  /** The k-th cell in row-major order. */
  function CellAt(k: int): (c: Cell)
    requires 0 <= k < Size * Size
    ensures c.row * Size + c.col == k
  {
    Cell(k / Size, k % Size)
  }

  lemma CellAtRowMajor(i: Index, j: Index)
    ensures 0 <= i * Size + j < Size * Size && CellAt(i * Size + j) == Cell(i, j)
  {
  }

  /** Whether provideHint may fill the cell: empty and not pre-filled. */
  predicate EmptyEditableCell(g: Grid, m: Mask, c: Cell)
  {
    g[c.row][c.col] == 0 && !m[c.row][c.col]
  }

  /** The empty, editable cells among the first k in row-major order, in that order. */
  function EmptyEditableBefore(g: Grid, m: Mask, k: int): seq<Cell>
    requires 0 <= k <= Size * Size
  {
    if k == 0 then []
    else
      var c := CellAt(k - 1);
      EmptyEditableBefore(g, m, k - 1) + if EmptyEditableCell(g, m, c) then [c] else []
  }

  /** The list provideHint collects: every empty, editable cell, in row-major order. */
  function EmptyEditable(g: Grid, m: Mask): seq<Cell>
  {
    EmptyEditableBefore(g, m, Size * Size)
  }

  lemma {:induction false} EmptyEditableBeforeMembers(g: Grid, m: Mask, k: int)
    requires 0 <= k <= Size * Size
    ensures forall c :: c in EmptyEditableBefore(g, m, k) <==>
      c.row * Size + c.col < k && EmptyEditableCell(g, m, c)
  {
    if k > 0 {
      EmptyEditableBeforeMembers(g, m, k - 1);
    }
  }

  /** Cells listed in strictly increasing row-major position. */
  predicate RowMajorOrdered(s: seq<Cell>)
  {
    forall a, b :: 0 <= a < b < |s| ==> s[a].row * Size + s[a].col < s[b].row * Size + s[b].col
  }

  /** The candidates come in strictly increasing row-major order, so none is listed twice. */
  lemma {:induction false} EmptyEditableBeforeOrdered(g: Grid, m: Mask, k: int)
    requires 0 <= k <= Size * Size
    ensures RowMajorOrdered(EmptyEditableBefore(g, m, k))
  {
    if k > 0 {
      EmptyEditableBeforeOrdered(g, m, k - 1);
      EmptyEditableBeforeMembers(g, m, k - 1);
      var p := EmptyEditableBefore(g, m, k - 1);
      var s := EmptyEditableBefore(g, m, k);
      forall a, b | 0 <= a < b < |s|
        ensures s[a].row * Size + s[a].col < s[b].row * Size + s[b].col
      {
        if b == |p| {
          assert s[a] == p[a] && s[a] in p;
          assert s[b] == CellAt(k - 1);
        } else {
          assert s[a] == p[a] && s[b] == p[b];
        }
      }
    }
  }

  /** The hint's candidate list holds exactly the empty cells that are not pre-filled. */
  lemma EmptyEditableMembers(g: Grid, m: Mask)
    ensures forall c :: c in EmptyEditable(g, m) <==> EmptyEditableCell(g, m, c)
    ensures RowMajorOrdered(EmptyEditable(g, m))
  {
    EmptyEditableBeforeMembers(g, m, Size * Size);
    EmptyEditableBeforeOrdered(g, m, Size * Size);
  }

  /** The index (int)(Math.random() * n) for a random draw u in [0, 1). */
  function Pick(u: real, n: int): (i: int)
    requires 0.0 <= u < 1.0 && n > 0
    ensures 0 <= i < n
  {
    assert u * (n as real) < n as real;
    (u * (n as real)).Floor
  }

  /**
   * The smallest number from `from` to 6 that validateMove accepts at
   * (row, col); 7 when there is none.
   */
  function SmallestAllowed(g: Grid, row: Index, col: Index, from: int): (n: int)
    requires 1 <= from <= Size + 1
    ensures from <= n <= Size + 1
    ensures n <= Size ==> MoveAllowed(g, row, col, n)
    ensures forall m :: from <= m < n ==> !MoveAllowed(g, row, col, m)
    decreases Size + 1 - from
  {
    if from == Size + 1 then from
    else if MoveAllowed(g, row, col, from) then from
    else SmallestAllowed(g, row, col, from + 1)
  }

  /** Emptying a cell a second time changes nothing. */
  lemma ClearIsIdempotent(g: Grid, row: Index, col: Index)
    ensures Set(Set(g, row, col, 0), row, col, 0) == Set(g, row, col, 0)
  {
    GridsEqual(Set(Set(g, row, col, 0), row, col, 0), Set(g, row, col, 0));
  }

  /** Writing v over whatever the cell held is the same as writing v. */
  lemma SetOverwrites(g: Grid, row: Index, col: Index, v: int, w: int)
    ensures Set(Set(g, row, col, v), row, col, w) == Set(g, row, col, w)
  {
    GridsEqual(Set(Set(g, row, col, v), row, col, w), Set(g, row, col, w));
  }

  class Game {
    /** The board as displayed: pre-filled numbers and the player's entries; 0 is empty. */
    var currentBoard: Grid
    /** The cells that came from the generator and are not editable. */
    var preFilledCells: Mask

    /** Game(): the state starts out with an all-zero board and no pre-filled cell. */
    constructor()
      ensures currentBoard == EmptyGrid() && preFilledCells == NoMask()
    {
      new;
      InitializeGameState();
    }

    /** initializeGameState: a 6x6 board of zeros and a 6x6 mask of false. */
    method InitializeGameState()
      modifies this
      ensures currentBoard == EmptyGrid() && preFilledCells == NoMask()
    {
      var rows: seq<seq<int>> := [];
      var preFilledRows: seq<seq<bool>> := [];
      for i := 0 to Size
        invariant |rows| == i && |preFilledRows| == i
        invariant forall r :: 0 <= r < i ==> rows[r] == EmptyGrid()[r] && preFilledRows[r] == NoMask()[r]
      {
        var row: seq<int> := [];
        var preFilledRow: seq<bool> := [];
        for j := 0 to Size
          invariant row == seq(j, _ => 0) && preFilledRow == seq(j, _ => false)
        {
          row := row + [0];
          preFilledRow := preFilledRow + [false];
        }
        rows := rows + [row];
        preFilledRows := preFilledRows + [preFilledRow];
      }
      assert rows == EmptyGrid() && preFilledRows == NoMask();
      currentBoard := rows;
      preFilledCells := preFilledRows;
    }

    /**
     * The board part of startGame: every non-zero generated cell becomes a
     * pre-filled cell holding that number; every zero cell becomes editable
     * and keeps what the board held.
     */
    method StartGame(generated: Grid)
      modifies this
      ensures preFilledCells == PreFilledMask(generated)
      ensures forall i: Index, j: Index ::
        currentBoard[i][j] == if generated[i][j] != 0 then generated[i][j] else old(currentBoard)[i][j]
      ensures old(currentBoard) == EmptyGrid() ==> currentBoard == generated
    {
      for i := 0 to Size
        invariant forall r: Index, c: Index :: r < i ==> preFilledCells[r][c] == (generated[r][c] != 0)
        invariant forall r: Index, c: Index :: r < i ==>
          currentBoard[r][c] == if generated[r][c] != 0 then generated[r][c] else old(currentBoard)[r][c]
        invariant forall r: Index, c: Index :: r >= i ==> currentBoard[r][c] == old(currentBoard)[r][c]
      {
        for j := 0 to Size
          invariant forall r: Index, c: Index :: r < i || (r == i && c < j) ==>
            preFilledCells[r][c] == (generated[r][c] != 0)
          invariant forall r: Index, c: Index :: r < i || (r == i && c < j) ==>
            currentBoard[r][c] == if generated[r][c] != 0 then generated[r][c] else old(currentBoard)[r][c]
          invariant forall r: Index, c: Index :: r > i || (r == i && c >= j) ==>
            currentBoard[r][c] == old(currentBoard)[r][c]
        {
          var number := generated[i][j];
          if number != 0 {
            preFilledCells := SetMask(preFilledCells, i, j, true);
            currentBoard := Set(currentBoard, i, j, number);
          } else {
            preFilledCells := SetMask(preFilledCells, i, j, false);
          }
        }
      }
      MasksEqual(preFilledCells, PreFilledMask(generated));
      if old(currentBoard) == EmptyGrid() {
        GridsEqual(currentBoard, generated);
      }
    }

    /** validateMove: the row, column and block scans, each skipping (row, col) itself. */
    method ValidateMove(row: Index, col: Index, number: int) returns (ok: bool)
      ensures ok == MoveAllowed(currentBoard, row, col, number)
    {
      for j := 0 to Size
        invariant forall j' :: 0 <= j' < j && j' != col ==> currentBoard[row][j'] != number
      {
        if j != col && currentBoard[row][j] == number {
          return false;
        }
      }
      for i := 0 to Size
        invariant forall i' :: 0 <= i' < i && i' != row ==> currentBoard[i'][col] != number
      {
        if i != row && currentBoard[i][col] == number {
          return false;
        }
      }
      var blockRowStart := BlockTop(row);
      var blockColStart := BlockLeft(col);
      for i := blockRowStart to blockRowStart + BlockRows
        invariant forall i', j' ::
          (blockRowStart <= i' < i && blockColStart <= j' < blockColStart + BlockCols && (i' != row || j' != col))
          ==> currentBoard[i'][j'] != number
      {
        for j := blockColStart to blockColStart + BlockCols
          invariant forall i', j' ::
            (blockRowStart <= i' < i && blockColStart <= j' < blockColStart + BlockCols && (i' != row || j' != col))
            ==> currentBoard[i'][j'] != number
          invariant forall j' :: blockColStart <= j' < j && (i != row || j' != col) ==> currentBoard[i][j'] != number
        {
          if (i != row || j != col) && currentBoard[i][j] == number {
            return false;
          }
        }
      }
      return true;
    }

    /** The delete/backspace handler: empties the cell. */
    method ClearCell(row: Index, col: Index)
      modifies this
      ensures currentBoard == Set(old(currentBoard), row, col, 0)
      ensures preFilledCells == old(preFilledCells)
      ensures Consistent(old(currentBoard)) ==> Consistent(currentBoard)
    {
      currentBoard := Set(currentBoard, row, col, 0);
      if Consistent(old(currentBoard)) {
        ClearKeepsConsistent(old(currentBoard), row, col);
      }
    }

    /**
     * The key-release handler. A number 1..6 is written into the cell whether
     * validateMove, asked with the cell emptied, accepts it or not; only an
     * accepted number runs the win check. A blank, out-of-range or
     * unparsable entry empties the cell.
     */
    method ApplyMove(row: Index, col: Index, entry: Entry) returns (verdict: Verdict)
      requires !preFilledCells[row][col]
      modifies this
      ensures preFilledCells == old(preFilledCells)
      ensures entry.Number? && 1 <= entry.value <= Size ==>
        && currentBoard == Set(old(currentBoard), row, col, entry.value)
        && verdict == if MoveAllowed(old(currentBoard), row, col, entry.value)
                      then Accepted(Solved(currentBoard)) else Rejected
      ensures !(entry.Number? && 1 <= entry.value <= Size) ==>
        currentBoard == Set(old(currentBoard), row, col, 0) && verdict == Emptied
      ensures Consistent(old(currentBoard)) ==> (Consistent(currentBoard) <==> !verdict.Rejected?)
    {
      ghost var before := currentBoard;
      match entry {
        case Blank =>
          currentBoard := Set(currentBoard, row, col, 0);
          verdict := Emptied;
        case NotANumber =>
          currentBoard := Set(currentBoard, row, col, 0);
          verdict := Emptied;
        case Number(number) =>
          if number < 1 || number > Size {
            currentBoard := Set(currentBoard, row, col, 0);
            verdict := Emptied;
          } else {
            // the cell is emptied first so that it does not conflict with itself
            currentBoard := Set(currentBoard, row, col, 0);
            var isValid := ValidateMove(row, col, number);
            MoveAllowedIgnoresCell(before, row, col, 0, number);
            currentBoard := Set(currentBoard, row, col, number);
            SetOverwrites(before, row, col, 0, number);
            if isValid {
              var won := CheckGameComplete();
              verdict := Accepted(won);
            } else {
              verdict := Rejected;
            }
            if Consistent(before) {
              MoveKeepsConsistent(before, row, col, number);
            }
          }
      }
      if verdict == Emptied && Consistent(before) {
        ClearKeepsConsistent(before, row, col);
      }
    }

    /**
     * checkGameComplete: false as soon as a cell is 0; otherwise every cell is
     * emptied, checked with validateMove and given its number back, and the
     * answer is whether all passed. The board ends as it started.
     */
    method CheckGameComplete() returns (won: bool)
      modifies this
      ensures currentBoard == old(currentBoard) && preFilledCells == old(preFilledCells)
      ensures won == Solved(currentBoard)
    {
      for i := 0 to Size
        invariant forall r: Index, c: Index :: r < i ==> currentBoard[r][c] != 0
      {
        for j := 0 to Size
          invariant forall r: Index, c: Index :: r < i || (r == i && c < j) ==> currentBoard[r][c] != 0
        {
          if currentBoard[i][j] == 0 {
            return false;
          }
        }
      }
      var allValid := true;
      for i := 0 to Size
        invariant currentBoard == old(currentBoard) && preFilledCells == old(preFilledCells)
        invariant allValid <==> forall r: Index, c: Index :: r < i ==> MoveAllowed(currentBoard, r, c, currentBoard[r][c])
      {
        for j := 0 to Size
          invariant currentBoard == old(currentBoard) && preFilledCells == old(preFilledCells)
          invariant allValid <==> forall r: Index, c: Index :: r < i || (r == i && c < j) ==>
            MoveAllowed(currentBoard, r, c, currentBoard[r][c])
        {
          var num := currentBoard[i][j];
          ghost var before := currentBoard;
          currentBoard := Set(currentBoard, i, j, 0);
          var valid := ValidateMove(i, j, num);
          MoveAllowedIgnoresCell(before, i, j, 0, num);
          if !valid {
            allValid := false;
          }
          currentBoard := Set(currentBoard, i, j, num);
          SetOverwrites(before, i, j, 0, num);
          GridsEqual(Set(before, i, j, num), before);
        }
      }
      won := allValid;
    }

    /** The first loops of provideHint: the empty, editable cells in row-major order. */
    method CollectEmptyCells() returns (emptyCells: seq<Cell>)
      ensures emptyCells == EmptyEditable(currentBoard, preFilledCells)
    {
      emptyCells := [];
      for i := 0 to Size
        invariant emptyCells == EmptyEditableBefore(currentBoard, preFilledCells, i * Size)
      {
        for j := 0 to Size
          invariant emptyCells == EmptyEditableBefore(currentBoard, preFilledCells, i * Size + j)
        {
          CellAtRowMajor(i, j);
          if currentBoard[i][j] == 0 && !preFilledCells[i][j] {
            emptyCells := emptyCells + [Cell(i, j)];
          }
        }
        assert i * Size + Size == (i + 1) * Size;
      }
    }

    /** The number loop of provideHint: the first of 1..6 that validateMove accepts, 7 for none. */
    method FirstAllowed(row: Index, col: Index) returns (n: int)
      ensures n == SmallestAllowed(currentBoard, row, col, 1)
    {
      n := 1;
      while n <= Size
        invariant 1 <= n <= Size + 1
        invariant SmallestAllowed(currentBoard, row, col, n) == SmallestAllowed(currentBoard, row, col, 1)
        decreases Size + 1 - n
      {
        var ok := ValidateMove(row, col, n);
        if ok {
          return;
        }
        n := n + 1;
      }
    }

    /**
     * provideHint with the random draw u in [0, 1): collects the empty,
     * editable cells in row-major order; with none, reports false and changes
     * nothing. Otherwise it takes the one at index (int)(u * count) and
     * writes the smallest number validateMove accepts there, then runs the
     * win check; when no number is accepted it reports false and changes
     * nothing.
     */
    method ProvideHint(u: real) returns (placed: bool, won: bool)
      requires 0.0 <= u < 1.0
      modifies this
      ensures preFilledCells == old(preFilledCells)
      ensures var empty := EmptyEditable(old(currentBoard), preFilledCells);
        |empty| == 0 ==> !placed && !won && currentBoard == old(currentBoard)
      ensures var empty := EmptyEditable(old(currentBoard), preFilledCells);
        |empty| > 0 ==>
          var c := empty[Pick(u, |empty|)];
          var n := SmallestAllowed(old(currentBoard), c.row, c.col, 1);
          && placed == (n <= Size)
          && currentBoard == (if placed then Set(old(currentBoard), c.row, c.col, n) else old(currentBoard))
          && won == (placed && Solved(currentBoard))
      ensures placed ==>
        exists c :: EmptyEditableCell(old(currentBoard), preFilledCells, c) &&
          1 <= currentBoard[c.row][c.col] <= Size &&
          currentBoard == Set(old(currentBoard), c.row, c.col, currentBoard[c.row][c.col])
      ensures Consistent(old(currentBoard)) ==> Consistent(currentBoard)
    {
      var emptyCells := CollectEmptyCells();
      if |emptyCells| == 0 {
        return false, false;
      }
      var cell := emptyCells[Pick(u, |emptyCells|)];
      EmptyEditableMembers(currentBoard, preFilledCells);
      assert EmptyEditableCell(currentBoard, preFilledCells, cell);
      var num := FirstAllowed(cell.row, cell.col);
      if num > Size {
        return false, false;
      }
      AllowedMoveKeepsConsistent(currentBoard, cell.row, cell.col, num);
      currentBoard := Set(currentBoard, cell.row, cell.col, num);
      assert currentBoard[cell.row][cell.col] == num;
      won := CheckGameComplete();
      placed := true;
    }
  }

  /** Writing a number that validateMove accepts keeps a consistent board consistent. */
  lemma AllowedMoveKeepsConsistent(g: Grid, row: Index, col: Index, n: int)
    requires MoveAllowed(g, row, col, n) && n != 0
    ensures Consistent(g) ==> Consistent(Set(g, row, col, n))
  {
    if Consistent(g) {
      MoveKeepsConsistent(g, row, col, n);
    }
  }
}
