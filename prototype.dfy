/** The first version of the board, at the top of the repository. Its
    placement loop gives every cell a chance to become a mine (there is no
    safe zone around a first move) and marks every other cell 'E'; it does
    not number the cells. */
module Prototype {
  import opened Utility

  /** What placement may do to a cell: keep a mine, or turn any other
      cell into a mine or an 'E'. */
  ghost predicate Kept(g: Grid, orig: Grid, rows: nat, cols: nat)
    requires IsGrid(orig, rows, cols)
  {
    IsGrid(g, rows, cols) &&
    forall i, j :: InGrid(i, j, rows, cols) ==>
      (orig[i][j] == 'X' ==> g[i][j] == 'X') &&
      (g[i][j] == orig[i][j] || g[i][j] == 'X' || g[i][j] == 'E')
  }

  /** Every cell before (row, col) in row-major order is a mine or an 'E'. */
  ghost predicate Decided(g: Grid, rows: nat, cols: nat, row: int, col: int)
    requires IsGrid(g, rows, cols)
  {
    forall i, j :: InGrid(i, j, rows, cols) && (i < row || (i == row && j < col)) ==>
      g[i][j] == 'X' || g[i][j] == 'E'
  }

  lemma DecideStep(g: Grid, orig: Grid, rows: nat, cols: nat, row: nat, col: nat, v: char)
    requires IsGrid(orig, rows, cols) && Kept(g, orig, rows, cols)
    requires InGrid(row, col, rows, cols) && g[row][col] != 'X'
    requires v == 'X' || v == 'E'
    ensures Kept(SetCell(g, row, col, v), orig, rows, cols)
    ensures Decided(g, rows, cols, row, col) ==> Decided(SetCell(g, row, col, v), rows, cols, row, col + 1)
    ensures Decided(g, rows, cols, rows, 0) ==> Decided(SetCell(g, row, col, v), rows, cols, rows, 0)
  {
  }

  class ProtoBoard {
    const boardRows: nat
    const boardCols: nat
    /** pct_mines, as the fraction pctNum / pctDen. */
    const pctNum: nat
    const pctDen: nat
    const nMines: nat
    var realBoard: Grid

    ghost predicate Valid()
      reads this
    {
      pctDen > 0 && nMines == MineQuota(boardRows, boardCols, pctNum, pctDen) &&
      IsGrid(realBoard, boardRows, boardCols)
    }

    constructor (rows: nat, cols: nat, num: nat, den: nat)
      requires den > 0
      ensures Valid()
      ensures boardRows == rows && boardCols == cols && pctNum == num && pctDen == den
      ensures nMines == MineQuota(rows, cols, num, den)
      ensures realBoard == Filled(rows, cols, ' ')
    {
      boardRows, boardCols := rows, cols;
      pctNum, pctDen := num, den;
      nMines := MineQuota(rows, cols, num, den);
      realBoard := Filled(rows, cols, ' ');
    }

    /** Places the mines: passes over the grid until nMines mines are placed.
        `coin(pass, row, col)` stands for the draw `random() <= pct_mines` at
        that cell in that pass; at most `passes` passes are made, and the
        result says whether the quota was met. */
    method GenerateBoard(coin: (nat, nat, nat) -> bool, passes: nat) returns (done: bool)
      requires Valid()
      modifies this`realBoard
      ensures Valid()
      ensures Kept(realBoard, old(realBoard), boardRows, boardCols)
      ensures done ==> GridCount(realBoard, 'X') == old(GridCount(realBoard, 'X')) + nMines
      ensures !done ==> GridCount(realBoard, 'X') < old(GridCount(realBoard, 'X')) + nMines
      ensures nMines == 0 ==> done && realBoard == old(realBoard)
      ensures nMines > 0 && passes > 0 ==> Decided(realBoard, boardRows, boardCols, boardRows, 0)
      ensures done && old(realBoard) == Filled(boardRows, boardCols, ' ') ==> GridCount(realBoard, 'X') == nMines
    {
      ghost var orig := realBoard;
      FilledCount(boardRows, boardCols, ' ', 'X');
      var mines := nMines;
      var pass: nat := 0;
      while mines > 0 && pass < passes
        invariant 0 <= mines <= nMines
        invariant Kept(realBoard, orig, boardRows, boardCols)
        invariant GridCount(realBoard, 'X') + mines == GridCount(orig, 'X') + nMines
        invariant nMines == 0 ==> realBoard == orig
        invariant pass > 0 ==> Decided(realBoard, boardRows, boardCols, boardRows, 0)
        invariant mines < nMines ==> pass > 0
        decreases passes - pass
      {
        mines := Pass(coin, pass, mines, orig);
        pass := pass + 1;
      }
      done := mines == 0;
    }

    /** One pass of the placement loop over every cell, row by row. */
    method Pass(coin: (nat, nat, nat) -> bool, pass: nat, mines: nat, ghost orig: Grid)
      returns (minesLeft: nat)
      requires IsGrid(orig, boardRows, boardCols) && Kept(realBoard, orig, boardRows, boardCols)
      requires mines <= nMines && GridCount(realBoard, 'X') + mines == GridCount(orig, 'X') + nMines
      modifies this`realBoard
      ensures Kept(realBoard, orig, boardRows, boardCols)
      ensures minesLeft <= mines && GridCount(realBoard, 'X') + minesLeft == GridCount(orig, 'X') + nMines
      ensures Decided(realBoard, boardRows, boardCols, boardRows, 0)
    {
      minesLeft := mines;
      for row := 0 to boardRows
        invariant Kept(realBoard, orig, boardRows, boardCols)
        invariant minesLeft <= mines && GridCount(realBoard, 'X') + minesLeft == GridCount(orig, 'X') + nMines
        invariant Decided(realBoard, boardRows, boardCols, row, 0)
      {
        for col := 0 to boardCols
          invariant Kept(realBoard, orig, boardRows, boardCols)
          invariant minesLeft <= mines && GridCount(realBoard, 'X') + minesLeft == GridCount(orig, 'X') + nMines
          invariant Decided(realBoard, boardRows, boardCols, row, col)
        {
          if realBoard[row][col] != 'X' {
            var isMine := coin(pass, row, col);
            var v := if isMine && minesLeft > 0 then 'X' else 'E';
            SetCellCount(realBoard, row, col, v, 'X');
            DecideStep(realBoard, orig, boardRows, boardCols, row, col, v);
            realBoard := SetCell(realBoard, row, col, v);
            if v == 'X' {
              minesLeft := minesLeft - 1;
            }
          }
        }
      }
    }
  }
}
