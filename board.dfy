/**
 * Board.java: the generator of the starting grid. Blocks are visited in
 * order 0..5; in each, two of its six cells (the first two of a shuffle)
 * receive the first number of a shuffled 1..6 that isValid accepts, and a
 * block that cannot be filled, or whose successors cannot, is cleared again
 * and reports failure.
 *
 * The shuffles are inputs here: one BlockDraw per block.
 */
module SudokuBoard {
  import opened SudokuRules

  const BlocksAcross: int := 2  // Size / BlockCols, blocks side by side in one band of rows
  const TotalBlocks: int := 6   // (Size / BlockRows) * BlocksAcross

  /**
   * The random choices fillBlocks makes for one block: the order in which the
   * shuffle leaves the block's six cells (as indices into BlockCells), and for
   * each of the two chosen cells the shuffled candidate list.
   */
  datatype BlockDraw = BlockDraw(cellOrder: seq<int>, numberOrders: seq<seq<int>>)

  /** s is a rearrangement of lo, lo + 1, ..., lo + n - 1. */
  predicate IsPermutation(s: seq<int>, lo: int, n: nat)
  {
    && |s| == n
    && (forall i :: 0 <= i < n ==> lo <= s[i] < lo + n)
    && (forall i, j :: 0 <= i < j < n ==> s[i] != s[j])
  }

  /** What Collections.shuffle can produce for one block. */
  predicate WellFormed(d: BlockDraw)
  {
    && IsPermutation(d.cellOrder, 0, 6)
    && |d.numberOrders| == 2
    && IsPermutation(d.numberOrders[0], 1, Size)
    && IsPermutation(d.numberOrders[1], 1, Size)
  }

  predicate WellFormedDraws(draws: seq<BlockDraw>)
  {
    |draws| == TotalBlocks && forall k :: 0 <= k < |draws| ==> WellFormed(draws[k])
  }

  // ------------------------------------------------------- block geometry

  function BlockStartRow(k: int): Index
    requires 0 <= k < TotalBlocks
  {
    (k / BlocksAcross) * BlockRows
  }

  function BlockStartCol(k: int): Index
    requires 0 <= k < TotalBlocks
  {
    (k % BlocksAcross) * BlockCols
  }

  /** Cell (row, col) lies in block k. */
  predicate InBlock(k: int, row: Index, col: Index)
    requires 0 <= k < TotalBlocks
  {
    BlockStartRow(k) <= row < BlockStartRow(k) + BlockRows &&
    BlockStartCol(k) <= col < BlockStartCol(k) + BlockCols
  }

  /** The index of the block holding (row, col). */
  function BlockOf(row: Index, col: Index): (k: int)
    ensures 0 <= k < TotalBlocks
  {
    (row / BlockRows) * BlocksAcross + col / BlockCols
  }

  /**
   * The six blocks partition the grid: every cell lies in block BlockOf(row, col)
   * and in no other, and that block is the one isValid scans for the cell.
   */
  lemma BlockPartition(row: Index, col: Index)
    ensures 0 <= BlockOf(row, col) < TotalBlocks
    ensures forall k :: 0 <= k < TotalBlocks ==> (InBlock(k, row, col) <==> k == BlockOf(row, col))
    ensures BlockStartRow(BlockOf(row, col)) == BlockTop(row)
    ensures BlockStartCol(BlockOf(row, col)) == BlockLeft(col)
  {
  }

  /** The six cells of block k, row by row: the list fillBlocks builds before shuffling. */
  function BlockCells(k: int): (cells: seq<Cell>)
    requires 0 <= k < TotalBlocks
    ensures |cells| == 6
  {
    seq(6, t requires 0 <= t < 6 =>
      Cell(BlockStartRow(k) + t / BlockCols, BlockStartCol(k) + t % BlockCols))
  }

  /** The list as the shuffle with permutation `order` leaves it. */
  function Shuffle(cells: seq<Cell>, order: seq<int>): (r: seq<Cell>)
    requires forall i :: 0 <= i < |order| ==> 0 <= order[i] < |cells|
    ensures |r| == |order|
  {
    seq(|order|, i requires 0 <= i < |order| => cells[order[i]])
  }

  /** The two cells of block k that fillBlocks fills: the first two of the shuffled block. */
  function Chosen(k: int, d: BlockDraw): (chosen: seq<Cell>)
    requires 0 <= k < TotalBlocks && WellFormed(d)
    ensures |chosen| == 2 && chosen[0] != chosen[1]
    ensures forall t :: 0 <= t < 2 ==> InBlock(k, chosen[t].row, chosen[t].col)
  {
    var cells := BlockCells(k);
    assert cells[d.cellOrder[0]] != cells[d.cellOrder[1]];
    Shuffle(cells, d.cellOrder)[..2]
  }

  // ------------------------------------------------ what fillBlocks computes

  /**
   * Position of the first candidate of `order`, from position `from` on, that
   * isValid accepts at (row, col); |order| when none is accepted.
   */
  function FirstPlaceable(g: Grid, row: Index, col: Index, order: seq<int>, from: nat): (i: nat)
    requires from <= |order|
    ensures from <= i <= |order|
    ensures i < |order| ==> Placeable(g, row, col, order[i])
    ensures forall t :: from <= t < i ==> !Placeable(g, row, col, order[t])
    decreases |order| - from
  {
    if from == |order| then from
    else if Placeable(g, row, col, order[from]) then from
    else FirstPlaceable(g, row, col, order, from + 1)
  }

  /** The result of a fill: its success flag and the grid it leaves. */
  datatype Outcome = Outcome(ok: bool, grid: Grid)

  /**
   * The loop over the chosen cells, from the t-th on: each cell receives the
   * first candidate of its own order that isValid accepts against the grid as
   * it is at that moment. A cell without such a candidate stops the loop with
   * ok == false and the grid as far as it got.
   */
  function PlaceChosen(g: Grid, chosen: seq<Cell>, orders: seq<seq<int>>, t: nat): (r: Outcome)
    requires |orders| == |chosen| && t <= |chosen|
    decreases |chosen| - t
  {
    if t == |chosen| then Outcome(true, g)
    else
      var c := chosen[t];
      var i := FirstPlaceable(g, c.row, c.col, orders[t], 0);
      if i == |orders[t]| then Outcome(false, g)
      else PlaceChosen(Set(g, c.row, c.col, orders[t][i]), chosen, orders, t + 1)
  }

  /** The grid with each cell of `cells` set to 0, in list order. */
  function Cleared(g: Grid, cells: seq<Cell>): (r: Grid)
    decreases |cells|
  {
    if cells == [] then g
    else
      var last := cells[|cells| - 1];
      Set(Cleared(g, cells[..|cells| - 1]), last.row, last.col, 0)
  }

  /**
   * fillBlocks(k) on grid g: true after block 5; otherwise fill the chosen
   * cells of block k and recurse on k + 1, clearing block k's chosen cells on
   * either failure.
   */
  function Fill(g: Grid, k: int, draws: seq<BlockDraw>): (r: Outcome)
    requires 0 <= k <= TotalBlocks && WellFormedDraws(draws)
    decreases TotalBlocks - k
  {
    if k == TotalBlocks then Outcome(true, g)
    else
      var chosen := Chosen(k, draws[k]);
      var placed := PlaceChosen(g, chosen, draws[k].numberOrders, 0);
      if !placed.ok then Outcome(false, Cleared(placed.grid, chosen))
      else
        var rest := Fill(placed.grid, k + 1, draws);
        if rest.ok then rest else Outcome(false, Cleared(rest.grid, chosen))
  }

  // ------------------------------------------------------- properties

  /** Cleared sets exactly the listed cells to 0. */
  lemma {:induction false} ClearedAt(g: Grid, cells: seq<Cell>)
    ensures forall i: Index, j: Index ::
      Cleared(g, cells)[i][j] == if Cell(i, j) in cells then 0 else g[i][j]
    decreases |cells|
  {
    if cells != [] {
      var front := cells[..|cells| - 1];
      ClearedAt(g, front);
      assert forall c :: c in cells <==> c in front || c == cells[|cells| - 1];
    }
  }

  /**
   * The candidate loop writes only the chosen cells from the t-th on, each
   * with a number of its candidate list, so with a number 1..6.
   */
  lemma {:induction false} PlaceChosenChangesOnlyChosen(g: Grid, chosen: seq<Cell>, orders: seq<seq<int>>, t: nat)
    requires |orders| == |chosen| && t <= |chosen|
    requires forall s :: 0 <= s < |orders| ==> IsPermutation(orders[s], 1, Size)
    ensures var r := PlaceChosen(g, chosen, orders, t);
      forall i: Index, j: Index :: r.grid[i][j] != g[i][j] ==>
        Cell(i, j) in chosen[t..] && 1 <= r.grid[i][j] <= Size
    decreases |chosen| - t
  {
    if t < |chosen| {
      var c := chosen[t];
      var i := FirstPlaceable(g, c.row, c.col, orders[t], 0);
      if i < |orders[t]| {
        var g1 := Set(g, c.row, c.col, orders[t][i]);
        PlaceChosenChangesOnlyChosen(g1, chosen, orders, t + 1);
        assert chosen[t..] == [c] + chosen[t + 1..];
      }
    }
  }

  /**
   * Every number the candidate loop writes was accepted by isValid against the
   * grid of that moment, so a consistent grid stays consistent; and since it
   * writes only numbers 1..6, values stay within 0..6.
   */
  lemma {:induction false} PlaceChosenKeepsConsistent(g: Grid, chosen: seq<Cell>, orders: seq<seq<int>>, t: nat)
    requires |orders| == |chosen| && t <= |chosen|
    requires forall s :: 0 <= s < |orders| ==> IsPermutation(orders[s], 1, Size)
    requires Consistent(g) && InRange(g)
    ensures Consistent(PlaceChosen(g, chosen, orders, t).grid)
    ensures InRange(PlaceChosen(g, chosen, orders, t).grid)
    decreases |chosen| - t
  {
    if t < |chosen| {
      var c := chosen[t];
      var i := FirstPlaceable(g, c.row, c.col, orders[t], 0);
      if i < |orders[t]| {
        var n := orders[t][i];
        assert 1 <= n <= Size;
        PlaceableIffAllowedElsewhere(g, c.row, c.col, n);
        MoveKeepsConsistent(g, c.row, c.col, n);
        PlaceChosenKeepsConsistent(Set(g, c.row, c.col, n), chosen, orders, t + 1);
      }
    }
  }

  /** When the candidate loop succeeds on distinct cells, each of them ends up holding a number 1..6. */
  lemma {:induction false} PlaceChosenFillsAll(g: Grid, chosen: seq<Cell>, orders: seq<seq<int>>, t: nat)
    requires |orders| == |chosen| && t <= |chosen|
    requires forall s :: 0 <= s < |orders| ==> IsPermutation(orders[s], 1, Size)
    requires forall s, s' :: 0 <= s < s' < |chosen| ==> chosen[s] != chosen[s']
    ensures var r := PlaceChosen(g, chosen, orders, t);
      r.ok ==> forall s :: t <= s < |chosen| ==> 1 <= r.grid[chosen[s].row][chosen[s].col] <= Size
    decreases |chosen| - t
  {
    if t < |chosen| {
      var c := chosen[t];
      var i := FirstPlaceable(g, c.row, c.col, orders[t], 0);
      if i < |orders[t]| {
        var n := orders[t][i];
        var g1 := Set(g, c.row, c.col, n);
        var r := PlaceChosen(g1, chosen, orders, t + 1);
        assert PlaceChosen(g, chosen, orders, t) == r;
        if r.ok {
          PlaceChosenFillsAll(g1, chosen, orders, t + 1);
          assert c !in chosen[t + 1..] by {
            forall s' | t + 1 <= s' < |chosen|
              ensures chosen[s'] != c
            {
            }
          }
          PlaceChosenKeepsOthers(g1, chosen, orders, t + 1, c);
          assert 1 <= n <= Size;
        }
      }
    }
  }

  /** A cell outside chosen[t..] keeps its value through the candidate loop. */
  lemma PlaceChosenKeepsOthers(g: Grid, chosen: seq<Cell>, orders: seq<seq<int>>, t: nat, c: Cell)
    requires |orders| == |chosen| && t <= |chosen|
    requires forall s :: 0 <= s < |orders| ==> IsPermutation(orders[s], 1, Size)
    requires c !in chosen[t..]
    ensures PlaceChosen(g, chosen, orders, t).grid[c.row][c.col] == g[c.row][c.col]
  {
    PlaceChosenChangesOnlyChosen(g, chosen, orders, t);
    assert Cell(c.row, c.col) == c;
  }

  /** The cells of block k and later blocks are all empty. */
  predicate BlocksEmptyFrom(g: Grid, k: int)
  {
    forall i: Index, j: Index :: BlockOf(i, j) >= k ==> g[i][j] == 0
  }

  /** Cell (i, j) is one of the two cells chosen in its own block. */
  predicate IsChosenCell(draws: seq<BlockDraw>, i: Index, j: Index)
    requires WellFormedDraws(draws)
  {
    Cell(i, j) in Chosen(BlockOf(i, j), draws[BlockOf(i, j)])
  }

  /**
   * Every cell where g' differs from g is a chosen cell of block k or of a
   * later block, and holds 0 or a number 1..6.
   */
  predicate ChangedOnlyChosen(g: Grid, g': Grid, k: int, draws: seq<BlockDraw>)
    requires WellFormedDraws(draws)
  {
    forall i: Index, j: Index :: g'[i][j] != g[i][j] ==>
      k <= BlockOf(i, j) && IsChosenCell(draws, i, j) && 0 <= g'[i][j] <= Size
  }

  lemma ChangedOnlyChosenTrans(g0: Grid, g1: Grid, g2: Grid, k: int, draws: seq<BlockDraw>)
    requires WellFormedDraws(draws)
    requires ChangedOnlyChosen(g0, g1, k, draws) && ChangedOnlyChosen(g1, g2, k, draws)
    ensures ChangedOnlyChosen(g0, g2, k, draws)
  {
  }

  /** Filling block k alone (the loop over its chosen cells, then clearing on failure) changes only those two cells. */
  lemma BlockStepChangesOnlyChosen(g: Grid, k: int, draws: seq<BlockDraw>)
    requires 0 <= k < TotalBlocks && WellFormedDraws(draws)
    ensures var chosen := Chosen(k, draws[k]);
      var placed := PlaceChosen(g, chosen, draws[k].numberOrders, 0);
      && ChangedOnlyChosen(g, placed.grid, k, draws)
      && (forall g': Grid :: ChangedOnlyChosen(g, g', k, draws) ==> ChangedOnlyChosen(g, Cleared(g', chosen), k, draws))
  {
    var chosen := Chosen(k, draws[k]);
    PlaceChosenChangesOnlyChosen(g, chosen, draws[k].numberOrders, 0);
    ChosenBelongToBlock(k, draws);
    assert chosen[0..] == chosen;
    forall g': Grid | ChangedOnlyChosen(g, g', k, draws)
      ensures ChangedOnlyChosen(g, Cleared(g', chosen), k, draws)
    {
      ClearedAt(g', chosen);
    }
  }

  /** A change confined to blocks from k + 1 on is confined to blocks from k on. */
  lemma ChangedOnlyChosenWiden(g: Grid, g': Grid, k: int, draws: seq<BlockDraw>)
    requires WellFormedDraws(draws)
    requires ChangedOnlyChosen(g, g', k + 1, draws)
    ensures ChangedOnlyChosen(g, g', k, draws)
  {
  }

  /** fillBlocks(k) writes only chosen cells of block k and later blocks, and only 0 or numbers 1..6. */
  lemma {:induction false} FillChangesOnlyChosen(g: Grid, k: int, draws: seq<BlockDraw>)
    requires 0 <= k <= TotalBlocks && WellFormedDraws(draws)
    ensures ChangedOnlyChosen(g, Fill(g, k, draws).grid, k, draws)
    decreases TotalBlocks - k
  {
    if k < TotalBlocks {
      var chosen := Chosen(k, draws[k]);
      var placed := PlaceChosen(g, chosen, draws[k].numberOrders, 0);
      BlockStepChangesOnlyChosen(g, k, draws);
      if !placed.ok {
        assert Fill(g, k, draws).grid == Cleared(placed.grid, chosen);
      } else {
        var rest := Fill(placed.grid, k + 1, draws);
        FillChangesOnlyChosen(placed.grid, k + 1, draws);
        ChangedOnlyChosenWiden(placed.grid, rest.grid, k, draws);
        ChangedOnlyChosenTrans(g, placed.grid, rest.grid, k, draws);
        if rest.ok {
          assert Fill(g, k, draws) == rest;
        } else {
          assert Fill(g, k, draws).grid == Cleared(rest.grid, chosen);
        }
      }
    }
  }

  /** fillBlocks(k) leaves the blocks before k as they were. */
  lemma FillKeepsEarlierBlocks(g: Grid, k: int, draws: seq<BlockDraw>)
    requires 0 <= k <= TotalBlocks && WellFormedDraws(draws)
    ensures forall i: Index, j: Index :: BlockOf(i, j) < k ==> Fill(g, k, draws).grid[i][j] == g[i][j]
  {
    FillChangesOnlyChosen(g, k, draws);
  }

  /** fillBlocks keeps a grid consistent and its values within 0..6. */
  lemma {:induction false} FillKeepsConsistent(g: Grid, k: int, draws: seq<BlockDraw>)
    requires 0 <= k <= TotalBlocks && WellFormedDraws(draws)
    requires Consistent(g) && InRange(g)
    ensures Consistent(Fill(g, k, draws).grid) && InRange(Fill(g, k, draws).grid)
    decreases TotalBlocks - k
  {
    if k < TotalBlocks {
      var chosen := Chosen(k, draws[k]);
      var placed := PlaceChosen(g, chosen, draws[k].numberOrders, 0);
      PlaceChosenKeepsConsistent(g, chosen, draws[k].numberOrders, 0);
      if !placed.ok {
        ClearedConsistent(placed.grid, chosen);
        assert Fill(g, k, draws).grid == Cleared(placed.grid, chosen);
      } else {
        var rest := Fill(placed.grid, k + 1, draws);
        FillKeepsConsistent(placed.grid, k + 1, draws);
        if rest.ok {
          assert Fill(g, k, draws) == rest;
        } else {
          ClearedConsistent(rest.grid, chosen);
          assert Fill(g, k, draws).grid == Cleared(rest.grid, chosen);
        }
      }
    }
  }

  /** Both chosen cells of block k lie in block k and count as chosen there. */
  lemma ChosenBelongToBlock(k: int, draws: seq<BlockDraw>)
    requires 0 <= k < TotalBlocks && WellFormedDraws(draws)
    ensures forall c :: c in Chosen(k, draws[k]) ==>
      BlockOf(c.row, c.col) == k && IsChosenCell(draws, c.row, c.col)
  {
    var chosen := Chosen(k, draws[k]);
    forall c | c in chosen
      ensures BlockOf(c.row, c.col) == k && IsChosenCell(draws, c.row, c.col)
    {
      BlockPartition(c.row, c.col);
    }
  }

  /** Clearing cells keeps a consistent grid with values 0..6 so. */
  lemma {:induction false} ClearedConsistent(g: Grid, cells: seq<Cell>)
    ensures Consistent(g) ==> Consistent(Cleared(g, cells))
    ensures InRange(g) ==> InRange(Cleared(g, cells))
    decreases |cells|
  {
    if cells != [] {
      var last := cells[|cells| - 1];
      ClearedConsistent(g, cells[..|cells| - 1]);
      if Consistent(g) {
        ClearKeepsConsistent(Cleared(g, cells[..|cells| - 1]), last.row, last.col);
      }
    }
  }

  /** Clearing the cells where g' may differ from g, when g holds 0 at each of them, gives back g. */
  lemma ClearingRestores(g: Grid, g': Grid, cells: seq<Cell>)
    requires forall c :: c in cells ==> g[c.row][c.col] == 0
    requires forall i: Index, j: Index :: g'[i][j] != g[i][j] ==> Cell(i, j) in cells
    ensures Cleared(g', cells) == g
  {
    ClearedAt(g', cells);
    GridsEqual(Cleared(g', cells), g);
  }

  /** The chosen cells of block k lie in block k. */
  lemma ChosenInBlock(k: int, d: BlockDraw)
    requires 0 <= k < TotalBlocks && WellFormed(d)
    ensures forall c :: c in Chosen(k, d) ==> BlockOf(c.row, c.col) == k
  {
    var chosen := Chosen(k, d);
    forall c | c in chosen
      ensures BlockOf(c.row, c.col) == k
    {
      BlockPartition(c.row, c.col);
    }
  }

  /**
   * A failing fillBlocks(k) leaves the grid exactly as it found it, provided
   * block k and the later blocks were empty on entry (as they are when
   * generation starts from the empty grid): every cell it or its recursive
   * calls wrote is set back to 0.
   */
  lemma {:induction false} FillFailureRestores(g: Grid, k: int, draws: seq<BlockDraw>)
    requires 0 <= k <= TotalBlocks && WellFormedDraws(draws)
    requires BlocksEmptyFrom(g, k)
    ensures !Fill(g, k, draws).ok ==> Fill(g, k, draws).grid == g
    decreases TotalBlocks - k
  {
    if k < TotalBlocks {
      var chosen := Chosen(k, draws[k]);
      var placed := PlaceChosen(g, chosen, draws[k].numberOrders, 0);
      PlaceChosenChangesOnlyChosen(g, chosen, draws[k].numberOrders, 0);
      assert chosen[0..] == chosen;
      ChosenInBlock(k, draws[k]);
      ClearingRestores(g, placed.grid, chosen);
      if placed.ok {
        assert BlocksEmptyFrom(placed.grid, k + 1);
        FillFailureRestores(placed.grid, k + 1, draws);
      }
    }
  }

  /** Both chosen cells of block b hold a number 1..6. */
  predicate ChosenFilled(g: Grid, b: int, draws: seq<BlockDraw>)
    requires 0 <= b < TotalBlocks && WellFormedDraws(draws)
  {
    forall t :: 0 <= t < 2 ==>
      1 <= g[Chosen(b, draws[b])[t].row][Chosen(b, draws[b])[t].col] <= Size
  }

  /**
   * After a successful fillBlocks(k + 1) following the candidate loop of
   * block k, block k's chosen cells still hold what the loop wrote there.
   */
  lemma ChosenFilledSurvives(g: Grid, k: int, draws: seq<BlockDraw>)
    requires 0 <= k < TotalBlocks && WellFormedDraws(draws)
    requires ChosenFilled(g, k, draws)
    ensures ChosenFilled(Fill(g, k + 1, draws).grid, k, draws)
  {
    var chosen := Chosen(k, draws[k]);
    var rest := Fill(g, k + 1, draws);
    FillKeepsEarlierBlocks(g, k + 1, draws);
    ChosenInBlock(k, draws[k]);
    forall t | 0 <= t < 2
      ensures rest.grid[chosen[t].row][chosen[t].col] == g[chosen[t].row][chosen[t].col]
    {
      assert chosen[t] in chosen;
    }
  }

  /** A successful candidate loop on block k fills both of its chosen cells. */
  lemma PlacedBlockFilled(g: Grid, k: int, draws: seq<BlockDraw>)
    requires 0 <= k < TotalBlocks && WellFormedDraws(draws)
    requires PlaceChosen(g, Chosen(k, draws[k]), draws[k].numberOrders, 0).ok
    ensures ChosenFilled(PlaceChosen(g, Chosen(k, draws[k]), draws[k].numberOrders, 0).grid, k, draws)
  {
    PlaceChosenFillsAll(g, Chosen(k, draws[k]), draws[k].numberOrders, 0);
  }

  /** A successful fillBlocks(k) leaves both chosen cells of block k and of every later block holding a number 1..6. */
  lemma {:induction false} FillSuccessFillsChosen(g: Grid, k: int, draws: seq<BlockDraw>)
    requires 0 <= k <= TotalBlocks && WellFormedDraws(draws)
    ensures Fill(g, k, draws).ok ==>
      forall b :: k <= b < TotalBlocks ==> ChosenFilled(Fill(g, k, draws).grid, b, draws)
    decreases TotalBlocks - k
  {
    if k < TotalBlocks {
      var chosen := Chosen(k, draws[k]);
      var placed := PlaceChosen(g, chosen, draws[k].numberOrders, 0);
      if placed.ok {
        var rest := Fill(placed.grid, k + 1, draws);
        if rest.ok {
          assert Fill(g, k, draws) == rest;
          PlacedBlockFilled(g, k, draws);
          ChosenFilledSurvives(placed.grid, k, draws);
          FillSuccessFillsChosen(placed.grid, k + 1, draws);
          forall b | k <= b < TotalBlocks
            ensures ChosenFilled(rest.grid, b, draws)
          {
            if b > k {
              assert k + 1 <= b < TotalBlocks;
            }
          }
        } else {
          assert !Fill(g, k, draws).ok;
        }
      } else {
        assert !Fill(g, k, draws).ok;
      }
    }
  }

  /** The non-zero cells of block k. */
  function FilledCells(g: Grid, k: int): set<Cell>
    requires 0 <= k < TotalBlocks
  {
    set i: int, j: int | 0 <= i < 6 && 0 <= j < 6 && InBlock(k, i, j) && g[i][j] != 0 :: Cell(i, j)
  }

  lemma SubsetOfPair(s: set<Cell>, x: Cell, y: Cell)
    requires s <= {x, y}
    ensures |s| <= 2
  {
    if x in s && y in s {
      assert s == {x, y};
    } else if x in s {
      assert s == {x};
    } else if y in s {
      assert s == {y};
    } else {
      assert s == {};
    }
  }

  /** The two chosen cells of block k, as a set. */
  function ChosenSet(k: int, d: BlockDraw): (cells: set<Cell>)
    requires 0 <= k < TotalBlocks && WellFormed(d)
    ensures |cells| == 2
  {
    {Chosen(k, d)[0], Chosen(k, d)[1]}
  }

  /** A grid that differs from the empty one only at chosen cells has at most those filled in block k. */
  lemma FilledWithinChosen(g: Grid, k: int, draws: seq<BlockDraw>)
    requires 0 <= k < TotalBlocks && WellFormedDraws(draws)
    requires ChangedOnlyChosen(EmptyGrid(), g, 0, draws)
    ensures FilledCells(g, k) <= ChosenSet(k, draws[k])
    ensures |FilledCells(g, k)| <= 2
  {
    var chosen := Chosen(k, draws[k]);
    forall c | c in FilledCells(g, k)
      ensures c in ChosenSet(k, draws[k])
    {
      BlockPartition(c.row, c.col);
      assert g[c.row][c.col] != EmptyGrid()[c.row][c.col];
    }
    SubsetOfPair(FilledCells(g, k), chosen[0], chosen[1]);
  }

  /** If moreover both chosen cells of block k are filled, block k holds exactly those two. */
  lemma FilledExactlyChosen(g: Grid, k: int, draws: seq<BlockDraw>)
    requires 0 <= k < TotalBlocks && WellFormedDraws(draws)
    requires ChangedOnlyChosen(EmptyGrid(), g, 0, draws)
    requires ChosenFilled(g, k, draws)
    ensures FilledCells(g, k) == ChosenSet(k, draws[k])
  {
    FilledWithinChosen(g, k, draws);
    var chosen := Chosen(k, draws[k]);
    assert chosen[0] in FilledCells(g, k);
    assert chosen[1] in FilledCells(g, k);
  }

  /**
   * Generation from the empty grid (the constructor's fillBlocks(0)) gives a
   * grid of values 0..6 without two equal numbers in a row, column or block;
   * every block holds at most two numbers, at its two chosen cells; after
   * success exactly those two; after failure the grid is empty again.
   */
  lemma GenerateFromEmpty(draws: seq<BlockDraw>)
    requires WellFormedDraws(draws)
    ensures var r := Fill(EmptyGrid(), 0, draws);
      && Consistent(r.grid) && InRange(r.grid)
      && (forall k :: 0 <= k < TotalBlocks ==>
            FilledCells(r.grid, k) <= ChosenSet(k, draws[k]) && |FilledCells(r.grid, k)| <= 2)
      && (r.ok ==> forall k :: 0 <= k < TotalBlocks ==>
            FilledCells(r.grid, k) == ChosenSet(k, draws[k]) && |FilledCells(r.grid, k)| == 2)
      && (!r.ok ==> r.grid == EmptyGrid())
  {
    var g := EmptyGrid();
    var r := Fill(g, 0, draws);
    FillChangesOnlyChosen(g, 0, draws);
    FillKeepsConsistent(g, 0, draws);
    FillFailureRestores(g, 0, draws);
    FillSuccessFillsChosen(g, 0, draws);
    forall k | 0 <= k < TotalBlocks
      ensures FilledCells(r.grid, k) <= ChosenSet(k, draws[k]) && |FilledCells(r.grid, k)| <= 2
      ensures r.ok ==> FilledCells(r.grid, k) == ChosenSet(k, draws[k])
    {
      FilledWithinChosen(r.grid, k, draws);
      if r.ok {
        FilledExactlyChosen(r.grid, k, draws);
      }
    }
  }

  // ------------------------------------------------------------- the class

  class Board {
    /** The grid, row by row; 0 is an empty cell. */
    var board: Grid

    /**
     * Starts from the all-zero grid and runs fillBlocks(0) with the given
     * shuffles. A failure is only reported on the console, so the board is
     * then left empty.
     */
    constructor(draws: seq<BlockDraw>)
      requires WellFormedDraws(draws)
      ensures board == Fill(EmptyGrid(), 0, draws).grid
      ensures Consistent(board) && InRange(board)
      ensures forall k :: 0 <= k < TotalBlocks ==> |FilledCells(board, k)| <= 2
      ensures Fill(EmptyGrid(), 0, draws).ok ==> forall k :: 0 <= k < TotalBlocks ==> |FilledCells(board, k)| == 2
      ensures !Fill(EmptyGrid(), 0, draws).ok ==> board == EmptyGrid()
    {
      var rows: seq<seq<int>> := [];
      for i := 0 to Size
        invariant |rows| == i
        invariant forall r :: 0 <= r < i ==> rows[r] == EmptyGrid()[r]
      {
        var row: seq<int> := [];
        for j := 0 to Size
          invariant row == seq(j, _ => 0)
        {
          row := row + [0];
        }
        rows := rows + [row];
      }
      assert rows == EmptyGrid();
      board := rows;
      new;
      var ok := FillBlocks(0, draws);
      GenerateFromEmpty(draws);
    }

    /** Board.isValid: the three scans of row, column and block, the cell itself included. */
    method IsValid(row: Index, col: Index, number: int) returns (ok: bool)
      ensures ok == Placeable(board, row, col, number)
    {
      for j := 0 to Size
        invariant forall j' :: 0 <= j' < j ==> board[row][j'] != number
      {
        if board[row][j] == number {
          return false;
        }
      }
      for i := 0 to Size
        invariant forall i' :: 0 <= i' < i ==> board[i'][col] != number
      {
        if board[i][col] == number {
          return false;
        }
      }
      var startRow := BlockTop(row);
      var startCol := BlockLeft(col);
      for i := startRow to startRow + BlockRows
        invariant forall i', j' :: startRow <= i' < i && startCol <= j' < startCol + BlockCols ==>
          board[i'][j'] != number
      {
        for j := startCol to startCol + BlockCols
          invariant forall i', j' :: startRow <= i' < i && startCol <= j' < startCol + BlockCols ==>
            board[i'][j'] != number
          invariant forall j' :: startCol <= j' < j ==> board[i][j'] != number
        {
          if board[i][j] == number {
            return false;
          }
        }
      }
      return true;
    }

    /** The list of block k's six cells, row by row. */
    static method ListBlockCells(k: int) returns (cells: seq<Cell>)
      requires 0 <= k < TotalBlocks
      ensures cells == BlockCells(k)
    {
      var startRow := BlockStartRow(k);
      var startCol := BlockStartCol(k);
      cells := [];
      for i := startRow to startRow + BlockRows
        invariant |cells| == (i - startRow) * BlockCols
        invariant forall t :: 0 <= t < |cells| ==> cells[t] == BlockCells(k)[t]
      {
        for j := startCol to startCol + BlockCols
          invariant |cells| == (i - startRow) * BlockCols + (j - startCol)
          invariant forall t :: 0 <= t < |cells| ==> cells[t] == BlockCells(k)[t]
        {
          cells := cells + [Cell(i, j)];
        }
      }
    }

    /** Sets each listed cell to 0. */
    method ClearCells(cells: seq<Cell>)
      modifies this
      ensures board == Cleared(old(board), cells)
    {
      for t := 0 to |cells|
        invariant board == Cleared(old(board), cells[..t])
      {
        assert cells[..t + 1][..t] == cells[..t];
        board := Set(board, cells[t].row, cells[t].col, 0);
      }
      assert cells[..|cells|] == cells;
    }

    /**
     * Board.fillBlocks: fills blocks blockIndex..5 by backtracking; the
     * result and the new grid are those of Fill.
     */
    method FillBlocks(blockIndex: int, draws: seq<BlockDraw>) returns (ok: bool)
      requires 0 <= blockIndex <= TotalBlocks && WellFormedDraws(draws)
      modifies this
      ensures ok == Fill(old(board), blockIndex, draws).ok
      ensures board == Fill(old(board), blockIndex, draws).grid
      ensures blockIndex == TotalBlocks ==> ok && board == old(board)
      decreases TotalBlocks - blockIndex
    {
      if blockIndex == TotalBlocks {
        return true;
      }
      var blockCells := ListBlockCells(blockIndex);
      var shuffled := Shuffle(blockCells, draws[blockIndex].cellOrder);
      var chosenCells := shuffled[..2];
      assert chosenCells == Chosen(blockIndex, draws[blockIndex]);
      var orders := draws[blockIndex].numberOrders;

      for t := 0 to 2
        invariant PlaceChosen(old(board), chosenCells, orders, 0) == PlaceChosen(board, chosenCells, orders, t)
      {
        var row, col := chosenCells[t].row, chosenCells[t].col;
        var numbers := orders[t];
        ghost var before := board;
        var placed := false;
        var i := 0;
        while i < |numbers|
          invariant 0 <= i <= |numbers|
          invariant board == before
          invariant forall s :: 0 <= s < i ==> !Placeable(board, row, col, numbers[s])
        {
          var valid := IsValid(row, col, numbers[i]);
          if valid {
            assert FirstPlaceable(board, row, col, numbers, 0) == i;
            board := Set(board, row, col, numbers[i]);
            placed := true;
            break;
          }
          i := i + 1;
        }
        if !placed {
          assert FirstPlaceable(board, row, col, numbers, 0) == |numbers|;
          ClearCells(chosenCells);
          return false;
        }
      }

      var rest := FillBlocks(blockIndex + 1, draws);
      if rest {
        return true;
      }
      ClearCells(chosenCells);
      return false;
    }
  }
}
