/** Grid helpers of the board engine: the rectangularity test, row-major
    flattening, the clipped 8-connected neighbourhood of a cell, and the
    counting functions the boards' specifications are stated with. */
module Utility {

  /** A board: a list of rows of one-character cells. */
  type Grid = seq<seq<char>>

  /** A cell position (row, column). */
  type Pos = (int, int)

  /** The two assertions of the neighbour enumeration, as error results. */
  datatype Error = NotGrid | OutOfBounds

  datatype Result<T> = Ok(value: T) | Err(error: Error)

  /** One entry of the neighbour list: position and the value found there. */
  datatype Cell = Cell(row: nat, col: nat, value: char)

  // ---------------------------------------------------------------------
  // Shape

  /** Non-empty, and every row as long as the first. */
  predicate IsRectangular<T>(list: seq<seq<T>>)
  {
    |list| > 0 && forall r :: 0 <= r < |list| ==> |list[r]| == |list[0]|
  }

  /** `g` has exactly `rows` rows of `cols` cells each. */
  predicate IsGrid<T>(g: seq<seq<T>>, rows: int, cols: int)
  {
    |g| == rows && forall r :: 0 <= r < |g| ==> |g[r]| == cols
  }

  predicate InGrid(i: int, j: int, rows: int, cols: int)
  {
    0 <= i < rows && 0 <= j < cols
  }

  /** The loop with early returns of the rectangularity test. */
  method Is2dArray<T>(list: seq<seq<T>>) returns (b: bool)
    ensures b <==> IsRectangular(list)
  {
    if |list| == 0 {
      return false;
    }
    var rowLen := |list[0]|;
    for r := 0 to |list|
      invariant forall k :: 0 <= k < r ==> |list[k]| == rowLen
    {
      if |list[r]| != rowLen {
        return false;
      }
    }
    return true;
  }

  // ---------------------------------------------------------------------
  // Flattening

  function SumLengths<T>(list: seq<seq<T>>): nat
  {
    if list == [] then 0 else SumLengths(list[..|list| - 1]) + |list[|list| - 1]|
  }

  /** Rows concatenated in order, first row first; as long as all rows together. */
  function Flatten<T>(list: seq<seq<T>>): (r: seq<T>)
    ensures |r| == SumLengths(list)
  {
    if list == [] then [] else Flatten(list[..|list| - 1]) + list[|list| - 1]
  }

  /** In an `n`-by-`w` list, flat element `r * w + c` is row `r`, column `c`. */
  lemma {:induction false} FlattenIndex<T>(list: seq<seq<T>>, w: nat, r: nat, c: nat)
    requires IsGrid(list, |list|, w)
    requires r < |list| && c < w
    ensures |Flatten(list)| == |list| * w
    ensures r * w + c < |Flatten(list)| && Flatten(list)[r * w + c] == list[r][c]
  {
    var n := |list|;
    var front := list[..n - 1];
    assert IsGrid(front, n - 1, w);
    if r < n - 1 {
      FlattenIndex(front, w, r, c);
      assert r * w + c < (n - 1) * w by {
        assert r * w + w <= (n - 1) * w by {
          assert (r + 1) * w <= (n - 1) * w by { MulMono(r + 1, n - 1, w); }
        }
      }
    } else {
      if n > 1 {
        FlattenIndex(front, w, 0, 0);
      } else {
        assert front == [];
      }
      assert |Flatten(front)| == (n - 1) * w;
    }
    MulSucc(n - 1, w);
  }

  lemma MulSucc(a: nat, w: nat)
    ensures (a + 1) * w == a * w + w
  {
  }

  lemma MulMono(a: nat, b: nat, w: nat)
    requires a <= b
    ensures a * w <= b * w
  {
  }

  /** A value occurs in the flattened list exactly when some row holds it. */
  lemma {:induction false} FlattenMember<T>(list: seq<seq<T>>, x: T)
    ensures x in Flatten(list) <==>
            exists r, c :: 0 <= r < |list| && 0 <= c < |list[r]| && list[r][c] == x
  {
    if list != [] {
      var n := |list|;
      var front := list[..n - 1];
      FlattenMember(front, x);
      if x in Flatten(list) {
        if x in Flatten(front) {
          var r, c :| 0 <= r < |front| && 0 <= c < |front[r]| && front[r][c] == x;
          assert list[r][c] == x;
        } else {
          assert x in list[n - 1];
          var c :| 0 <= c < |list[n - 1]| && list[n - 1][c] == x;
          assert list[n - 1][c] == x;
        }
      }
      if exists r, c :: 0 <= r < |list| && 0 <= c < |list[r]| && list[r][c] == x {
        var r, c :| 0 <= r < |list| && 0 <= c < |list[r]| && list[r][c] == x;
        if r < n - 1 {
          assert front[r][c] == x;
        } else {
          assert x in list[n - 1];
        }
      }
    }
  }

  // ---------------------------------------------------------------------
  // Counting and updating cells

  function CountOf<T(==)>(s: seq<T>, x: T): nat
  {
    if s == [] then 0 else CountOf(s[..|s| - 1], x) + (if s[|s| - 1] == x then 1 else 0)
  }

  /** Number of cells of `g` holding `x`, row by row. */
  function GridCount(g: Grid, x: char): nat
  {
    if g == [] then 0 else GridCount(g[..|g| - 1], x) + CountOf(g[|g| - 1], x)
  }

  /** `g` with cell (i, j) set to `v`. */
  function SetCell(g: Grid, i: nat, j: nat, v: char): (h: Grid)
    requires i < |g| && j < |g[i]|
    ensures |h| == |g| && |h[i]| == |g[i]|
    ensures forall r :: 0 <= r < |g| && r != i ==> h[r] == g[r]
    ensures forall c :: 0 <= c < |g[i]| ==> h[i][c] == if c == j then v else g[i][c]
  {
    g[i := g[i][j := v]]
  }

  lemma {:induction false} CountOfUpdate<T>(s: seq<T>, j: nat, v: T, x: T)
    requires j < |s|
    ensures CountOf(s[j := v], x) ==
            CountOf(s, x) - (if s[j] == x then 1 else 0) + (if v == x then 1 else 0)
  {
    var n := |s|;
    if j < n - 1 {
      assert s[j := v][..n - 1] == s[..n - 1][j := v];
      CountOfUpdate(s[..n - 1], j, v, x);
    } else {
      assert s[j := v][..n - 1] == s[..n - 1];
    }
  }

  lemma {:induction false} GridCountRowUpdate(g: Grid, i: nat, row: seq<char>, x: char)
    requires i < |g|
    ensures GridCount(g[i := row], x) == GridCount(g, x) - CountOf(g[i], x) + CountOf(row, x)
  {
    var n := |g|;
    if i < n - 1 {
      assert g[i := row][..n - 1] == g[..n - 1][i := row];
      GridCountRowUpdate(g[..n - 1], i, row, x);
    } else {
      assert g[i := row][..n - 1] == g[..n - 1];
    }
  }

  /** Setting one cell changes the count of `x` by at most the one cell. */
  lemma SetCellCount(g: Grid, i: nat, j: nat, v: char, x: char)
    requires i < |g| && j < |g[i]|
    ensures GridCount(SetCell(g, i, j, v), x) ==
            GridCount(g, x) - (if g[i][j] == x then 1 else 0) + (if v == x then 1 else 0)
  {
    GridCountRowUpdate(g, i, g[i][j := v], x);
    CountOfUpdate(g[i], j, v, x);
  }

  /** Every cell holds `ch`. */
  function Filled(rows: nat, cols: nat, ch: char): (g: Grid)
    ensures IsGrid(g, rows, cols)
    ensures forall i, j :: InGrid(i, j, rows, cols) ==> g[i][j] == ch
  {
    seq(rows, _ => seq(cols, _ => ch))
  }

  lemma {:induction false} FilledCount(rows: nat, cols: nat, ch: char, x: char)
    requires ch != x
    ensures GridCount(Filled(rows, cols, ch), x) == 0
  {
    if rows > 0 {
      assert Filled(rows, cols, ch)[..rows - 1] == Filled(rows - 1, cols, ch);
      FilledCount(rows - 1, cols, ch, x);
      RowCountNone(Filled(rows, cols, ch)[rows - 1], x);
    }
  }

  lemma {:induction false} RowCountNone(s: seq<char>, x: char)
    requires forall k :: 0 <= k < |s| ==> s[k] != x
    ensures CountOf(s, x) == 0
  {
    if s != [] {
      RowCountNone(s[..|s| - 1], x);
    }
  }

  // ---------------------------------------------------------------------
  // The mine quota: floor(rows * cols * pct) with pct the rational num / den

  function MineQuota(rows: nat, cols: nat, num: nat, den: nat): (n: nat)
    requires den > 0
    ensures n * den <= rows * cols * num < (n + 1) * den
    ensures rows * cols == 0 ==> n == 0
  {
    (rows * cols * num) / den
  }

  /** With pct at most 1 the quota never exceeds the number of cells. */
  lemma QuotaFits(rows: nat, cols: nat, num: nat, den: nat)
    requires den > 0 && num <= den
    ensures MineQuota(rows, cols, num, den) <= rows * cols
  {
    var n := MineQuota(rows, cols, num, den);
    if n > rows * cols {
      MulMono(rows * cols + 1, n, den);
      MulMono(num, den, rows * cols);
      assert false;
    }
  }

  // ---------------------------------------------------------------------
  // Neighbourhood enumeration

  /** First index of the window around `x`: max(0, x - 1). */
  function Lo(x: nat): nat
  {
    if x == 0 then 0 else x - 1
  }

  /** One past the last index of the window around `x`: min(n, x + 2). */
  function Hi(x: nat, n: nat): nat
  {
    if x + 2 < n then x + 2 else n
  }

  /** Entries of row `i`, columns `jLo` up to (not including) `j`, skipping the centre. */
  function Span(m: Grid, row: nat, col: nat, i: nat, jLo: nat, j: nat): seq<Cell>
    requires IsRectangular(m) && i < |m| && j <= |m[0]|
    decreases j
  {
    if j <= jLo then []
    else Span(m, row, col, i, jLo, j - 1) + Entry(m, row, col, i, j - 1)
  }

  /** The entry for cell (i, j): none for the centre itself. */
  function Entry(m: Grid, row: nat, col: nat, i: nat, j: nat): seq<Cell>
    requires i < |m| && j < |m[i]|
  {
    if i == row && j == col then [] else [Cell(i, j, m[i][j])]
  }

  /** Entries of rows `iLo` up to (not including) `i`, each over columns `jLo..jHi`. */
  function Block(m: Grid, row: nat, col: nat, iLo: nat, i: nat, jLo: nat, jHi: nat): seq<Cell>
    requires IsRectangular(m) && i <= |m| && jHi <= |m[0]|
    decreases i
  {
    if i <= iLo then []
    else Block(m, row, col, iLo, i - 1, jLo, jHi) + Span(m, row, col, i - 1, jLo, jHi)
  }

  /** The nested-loop result of the neighbour enumeration, for any centre. */
  function Adjacent(m: Grid, row: nat, col: nat): seq<Cell>
    requires IsRectangular(m)
  {
    Block(m, row, col, Lo(row), Hi(row, |m|), Lo(col), Hi(col, |m[0]|))
  }

  /** The neighbour enumeration as the source guards it: rows up to and
      INCLUDING `|m|` and columns up to and including `|m[0]|` pass. */
  function AdjacentCellsAsWritten(m: Grid, row: int, col: int): (r: Result<seq<Cell>>)
    ensures IsRectangular(m) && InGrid(row, col, |m|, |m[0]|) ==> r == Ok(Adjacent(m, row, col))
    ensures r.Ok? ==> IsRectangular(m) && (InGrid(row, col, |m|, |m[0]|) || row == |m| || col == |m[0]|)
  {
    if !IsRectangular(m) then Err(NotGrid)
    else if !(row >= 0 && row <= |m|) || !(col >= 0 && col <= |m[0]|) then Err(OutOfBounds)
    else Ok(Adjacent(m, row, col))
  }

  /** The guard as written accepts row `|m|`, just past the grid, and then
      answers with cells of the last row, among them the cell straight
      above the non-existent centre. */
  lemma AsWrittenAcceptsRowPastEnd(m: Grid, col: nat)
    requires IsRectangular(m) && col < |m[0]|
    ensures AdjacentCellsAsWritten(m, |m|, col).Ok?
    ensures Cell(|m| - 1, col, m[|m| - 1][col]) in AdjacentCellsAsWritten(m, |m|, col).value
  {
    AdjacentMember(m, |m|, col, Cell(|m| - 1, col, m[|m| - 1][col]));
  }

  /** The neighbour enumeration with the corrected, strict guard: the centre
      must be a cell of the grid. The value list is built by the source's
      two nested loops. */
  method AdjacentCells(matrix: Grid, row: int, col: int) returns (r: Result<seq<Cell>>)
    ensures r.Ok? <==> IsRectangular(matrix) && InGrid(row, col, |matrix|, |matrix[0]|)
    ensures r.Err? ==> r.error == (if IsRectangular(matrix) then OutOfBounds else NotGrid)
    ensures r.Ok? ==> r.value == Adjacent(matrix, row, col)
  {
    var isGrid := Is2dArray(matrix);
    if !isGrid {
      return Err(NotGrid);
    }
    var rows := |matrix|;
    var cols := |matrix[0]|;
    if !(row >= 0 && row < rows) || !(col >= 0 && col < cols) {
      return Err(OutOfBounds);
    }
    var iLo, iHi := Lo(row), Hi(row, rows);
    var jLo, jHi := Lo(col), Hi(col, cols);
    var cells: seq<Cell> := [];
    var i := iLo;
    while i < iHi
      invariant iLo <= i <= iHi
      invariant cells == Block(matrix, row, col, iLo, i, jLo, jHi)
    {
      cells := RowNeighbours(matrix, row, col, i, jLo, jHi, cells);
      i := i + 1;
    }
    return Ok(cells);
  }

  /** The inner loop of the neighbour enumeration: appends the entries of
      row `i`, columns `jLo` up to `jHi`, skipping the centre. */
  method RowNeighbours(matrix: Grid, row: nat, col: nat, i: nat, jLo: nat, jHi: nat, cells0: seq<Cell>)
    returns (cells: seq<Cell>)
    requires IsRectangular(matrix) && i < |matrix| && jLo <= jHi <= |matrix[0]|
    ensures cells == cells0 + Span(matrix, row, col, i, jLo, jHi)
  {
    cells := cells0;
    var j := jLo;
    while j < jHi
      invariant jLo <= j <= jHi
      invariant cells == cells0 + Span(matrix, row, col, i, jLo, j)
    {
      ghost var before := cells;
      if !(i == row && j == col) {
        cells := cells + [Cell(i, j, matrix[i][j])];
      }
      assert cells == before + Entry(matrix, row, col, i, j);
      AppendAssoc(cells0, Span(matrix, row, col, i, jLo, j), Entry(matrix, row, col, i, j));
      j := j + 1;
    }
  }

  lemma AppendAssoc<T>(a: seq<T>, b: seq<T>, c: seq<T>)
    ensures (a + b) + c == a + (b + c)
  {
  }

  // ---------------------------------------------------------------------
  // What the enumeration returns

  lemma {:induction false} SpanMember(m: Grid, row: nat, col: nat, i: nat, jLo: nat, j: nat, c: Cell)
    requires IsRectangular(m) && i < |m| && j <= |m[0]|
    ensures c in Span(m, row, col, i, jLo, j) <==>
            c.row == i && jLo <= c.col < j && !(c.row == row && c.col == col) && c.value == m[c.row][c.col]
    decreases j
  {
    if j > jLo {
      SpanMember(m, row, col, i, jLo, j - 1, c);
    }
  }

  lemma BlockMember(m: Grid, row: nat, col: nat, iLo: nat, i: nat, jLo: nat, jHi: nat, c: Cell)
    requires IsRectangular(m) && i <= |m| && jHi <= |m[0]|
    ensures c in Block(m, row, col, iLo, i, jLo, jHi) <==>
            iLo <= c.row < i && jLo <= c.col < jHi && !(c.row == row && c.col == col) &&
            c.value == m[c.row][c.col]
  {
    if c in Block(m, row, col, iLo, i, jLo, jHi) {
      BlockSound(m, row, col, iLo, i, jLo, jHi, c);
    }
    if iLo <= c.row < i && jLo <= c.col < jHi && !(c.row == row && c.col == col) &&
       c.value == m[c.row][c.col] {
      BlockComplete(m, row, col, iLo, i, jLo, jHi, c);
    }
  }

  /** Cell `c` lies in rows `iLo` up to `iHi` and columns `jLo` up to `jHi`,
      is not the centre, and carries the grid's value. */
  predicate InWindow(m: Grid, row: nat, col: nat, iLo: nat, iHi: nat, jLo: nat, jHi: nat, c: Cell)
  {
    iLo <= c.row < iHi && jLo <= c.col < jHi && !(c.row == row && c.col == col) &&
    c.row < |m| && c.col < |m[c.row]| && c.value == m[c.row][c.col]
  }

  lemma {:induction false} SpanEntries(m: Grid, row: nat, col: nat, i: nat, jLo: nat, j: nat)
    requires IsRectangular(m) && i < |m| && j <= |m[0]|
    ensures forall k :: 0 <= k < |Span(m, row, col, i, jLo, j)| ==>
              InWindow(m, row, col, i, i + 1, jLo, j, Span(m, row, col, i, jLo, j)[k])
    decreases j
  {
    if j > jLo {
      SpanEntries(m, row, col, i, jLo, j - 1);
    }
  }

  lemma {:induction false} BlockEntries(m: Grid, row: nat, col: nat, iLo: nat, i: nat, jLo: nat, jHi: nat)
    requires IsRectangular(m) && i <= |m| && jHi <= |m[0]|
    ensures forall k :: 0 <= k < |Block(m, row, col, iLo, i, jLo, jHi)| ==>
              InWindow(m, row, col, iLo, i, jLo, jHi, Block(m, row, col, iLo, i, jLo, jHi)[k])
    decreases i
  {
    if i > iLo {
      BlockEntries(m, row, col, iLo, i - 1, jLo, jHi);
      SpanEntries(m, row, col, i - 1, jLo, jHi);
      var front, last := Block(m, row, col, iLo, i - 1, jLo, jHi), Span(m, row, col, i - 1, jLo, jHi);
      forall k | 0 <= k < |Block(m, row, col, iLo, i, jLo, jHi)|
        ensures InWindow(m, row, col, iLo, i, jLo, jHi, Block(m, row, col, iLo, i, jLo, jHi)[k])
      {
        if k < |front| {
          assert Block(m, row, col, iLo, i, jLo, jHi)[k] == front[k];
        } else {
          assert Block(m, row, col, iLo, i, jLo, jHi)[k] == last[k - |front|];
        }
      }
    }
  }

  lemma BlockSound(m: Grid, row: nat, col: nat, iLo: nat, i: nat, jLo: nat, jHi: nat, c: Cell)
    requires IsRectangular(m) && i <= |m| && jHi <= |m[0]|
    requires c in Block(m, row, col, iLo, i, jLo, jHi)
    ensures InWindow(m, row, col, iLo, i, jLo, jHi, c)
  {
    BlockEntries(m, row, col, iLo, i, jLo, jHi);
  }

  lemma {:induction false} BlockComplete(m: Grid, row: nat, col: nat, iLo: nat, i: nat, jLo: nat, jHi: nat, c: Cell)
    requires IsRectangular(m) && i <= |m| && jHi <= |m[0]|
    requires iLo <= c.row < i && jLo <= c.col < jHi && !(c.row == row && c.col == col) &&
             c.value == m[c.row][c.col]
    ensures c in Block(m, row, col, iLo, i, jLo, jHi)
    decreases i
  {
    if c.row < i - 1 {
      BlockComplete(m, row, col, iLo, i - 1, jLo, jHi, c);
      BlockGrow(m, row, col, iLo, i, jLo, jHi, c);
    } else {
      SpanMember(m, row, col, i - 1, jLo, jHi, c);
      BlockLast(m, row, col, iLo, i, jLo, jHi, c);
    }
  }

  lemma BlockGrow(m: Grid, row: nat, col: nat, iLo: nat, i: nat, jLo: nat, jHi: nat, c: Cell)
    requires IsRectangular(m) && iLo < i <= |m| && jHi <= |m[0]|
    requires c in Block(m, row, col, iLo, i - 1, jLo, jHi)
    ensures c in Block(m, row, col, iLo, i, jLo, jHi)
  {
  }

  lemma BlockLast(m: Grid, row: nat, col: nat, iLo: nat, i: nat, jLo: nat, jHi: nat, c: Cell)
    requires IsRectangular(m) && iLo < i <= |m| && jHi <= |m[0]|
    requires c in Span(m, row, col, i - 1, jLo, jHi)
    ensures c in Block(m, row, col, iLo, i, jLo, jHi)
  {
  }

  /** An entry is in the list exactly when it lies in the clipped 3-by-3
      window, is not the centre, and carries the grid's value there. */
  lemma AdjacentMember(m: Grid, row: nat, col: nat, c: Cell)
    requires IsRectangular(m)
    ensures c in Adjacent(m, row, col) <==>
            Lo(row) <= c.row < Hi(row, |m|) && Lo(col) <= c.col < Hi(col, |m[0]|) &&
            !(c.row == row && c.col == col) && c.value == m[c.row][c.col]
  {
    BlockMember(m, row, col, Lo(row), Hi(row, |m|), Lo(col), Hi(col, |m[0]|), c);
  }

  /** Every entry is a cell of the grid at most one step from the centre in
      each direction, with the grid's value. */
  lemma AdjacentInBounds(m: Grid, row: nat, col: nat)
    requires IsRectangular(m)
    ensures forall c :: c in Adjacent(m, row, col) ==>
              c.row < |m| && c.col < |m[0]| &&
              row - 1 <= c.row <= row + 1 && col - 1 <= c.col <= col + 1 &&
              (c.row, c.col) != (row, col) && c.value == m[c.row][c.col]
  {
    forall c | c in Adjacent(m, row, col)
      ensures c.row < |m| && c.col < |m[0]| &&
              row - 1 <= c.row <= row + 1 && col - 1 <= c.col <= col + 1 &&
              (c.row, c.col) != (row, col) && c.value == m[c.row][c.col]
    {
      AdjacentMember(m, row, col, c);
    }
  }

  /** Strict row-major order: earlier row, or same row and earlier column. */
  predicate Before(a: Cell, b: Cell)
  {
    a.row < b.row || (a.row == b.row && a.col < b.col)
  }

  predicate RowMajor(s: seq<Cell>)
  {
    forall k, l :: 0 <= k < l < |s| ==> Before(s[k], s[l])
  }

  lemma RowMajorAppend(a: seq<Cell>, b: seq<Cell>)
    requires RowMajor(a) && RowMajor(b)
    requires forall k, l :: 0 <= k < |a| && 0 <= l < |b| ==> Before(a[k], b[l])
    ensures RowMajor(a + b)
  {
    forall k, l | 0 <= k < l < |a + b| ensures Before((a + b)[k], (a + b)[l]) {
      if l < |a| {
        assert (a + b)[k] == a[k] && (a + b)[l] == a[l];
      } else if k >= |a| {
        assert (a + b)[k] == b[k - |a|] && (a + b)[l] == b[l - |a|];
      } else {
        assert (a + b)[k] == a[k] && (a + b)[l] == b[l - |a|];
      }
    }
  }

  lemma {:induction false} SpanRowMajor(m: Grid, row: nat, col: nat, i: nat, jLo: nat, j: nat)
    requires IsRectangular(m) && i < |m| && j <= |m[0]|
    ensures RowMajor(Span(m, row, col, i, jLo, j))
    decreases j
  {
    if j > jLo {
      SpanRowMajor(m, row, col, i, jLo, j - 1);
      SpanEntries(m, row, col, i, jLo, j - 1);
      RowMajorAppend(Span(m, row, col, i, jLo, j - 1), Entry(m, row, col, i, j - 1));
    }
  }

  lemma {:induction false} BlockRowMajor(m: Grid, row: nat, col: nat, iLo: nat, i: nat, jLo: nat, jHi: nat)
    requires IsRectangular(m) && i <= |m| && jHi <= |m[0]|
    ensures RowMajor(Block(m, row, col, iLo, i, jLo, jHi))
    decreases i
  {
    if i > iLo {
      BlockRowMajor(m, row, col, iLo, i - 1, jLo, jHi);
      SpanRowMajor(m, row, col, i - 1, jLo, jHi);
      BlockEntries(m, row, col, iLo, i - 1, jLo, jHi);
      SpanEntries(m, row, col, i - 1, jLo, jHi);
      RowMajorAppend(Block(m, row, col, iLo, i - 1, jLo, jHi), Span(m, row, col, i - 1, jLo, jHi));
    }
  }

  /** The list is in strict row-major order, hence has no repeated position. */
  lemma AdjacentRowMajor(m: Grid, row: nat, col: nat)
    requires IsRectangular(m)
    ensures RowMajor(Adjacent(m, row, col))
    ensures forall k, l :: 0 <= k < l < |Adjacent(m, row, col)| ==>
              (Adjacent(m, row, col)[k].row, Adjacent(m, row, col)[k].col) !=
              (Adjacent(m, row, col)[l].row, Adjacent(m, row, col)[l].col)
  {
    BlockRowMajor(m, row, col, Lo(row), Hi(row, |m|), Lo(col), Hi(col, |m[0]|));
  }

  function Width(lo: nat, hi: nat): nat
  {
    if hi > lo then hi - lo else 0
  }

  lemma {:induction false} SpanLength(m: Grid, row: nat, col: nat, i: nat, jLo: nat, j: nat)
    requires IsRectangular(m) && i < |m| && j <= |m[0]|
    ensures |Span(m, row, col, i, jLo, j)| ==
            Width(jLo, j) - (if i == row && jLo <= col < j then 1 else 0)
    decreases j
  {
    if j > jLo {
      SpanLength(m, row, col, i, jLo, j - 1);
    }
  }

  lemma {:induction false} BlockLength(m: Grid, row: nat, col: nat, iLo: nat, i: nat, jLo: nat, jHi: nat)
    requires IsRectangular(m) && i <= |m| && jHi <= |m[0]|
    ensures |Block(m, row, col, iLo, i, jLo, jHi)| ==
            Width(iLo, i) * Width(jLo, jHi) - (if iLo <= row < i && jLo <= col < jHi then 1 else 0)
    decreases i
  {
    if i > iLo {
      BlockLength(m, row, col, iLo, i - 1, jLo, jHi);
      SpanLength(m, row, col, i - 1, jLo, jHi);
      assert |Block(m, row, col, iLo, i, jLo, jHi)| ==
             |Block(m, row, col, iLo, i - 1, jLo, jHi)| + |Span(m, row, col, i - 1, jLo, jHi)|;
      assert Width(iLo, i) == Width(iLo, i - 1) + 1;
      MulSucc(Width(iLo, i - 1), Width(jLo, jHi));
    }
  }

  /** For a cell of the grid: (window height) * (window width) - 1 entries. */
  lemma AdjacentLength(m: Grid, row: nat, col: nat)
    requires IsRectangular(m) && row < |m| && col < |m[0]|
    ensures |Adjacent(m, row, col)| ==
            (Hi(row, |m|) - Lo(row)) * (Hi(col, |m[0]|) - Lo(col)) - 1
    ensures |Adjacent(m, row, col)| <= 8
  {
    BlockLength(m, row, col, Lo(row), Hi(row, |m|), Lo(col), Hi(col, |m[0]|));
    var h, w := Hi(row, |m|) - Lo(row), Hi(col, |m[0]|) - Lo(col);
    assert 1 <= h <= 3 && 1 <= w <= 3;
    assert h * w <= 9 by {
      assert h * w <= 3 * w;
    }
  }

  /** On a grid of at least 3 by 3: 3 neighbours at a corner, 5 on a side,
      8 inside. */
  lemma NeighbourCount(m: Grid, row: nat, col: nat)
    requires IsRectangular(m) && |m| >= 3 && |m[0]| >= 3
    requires row < |m| && col < |m[0]|
    ensures var onRowEdge := row == 0 || row == |m| - 1;
            var onColEdge := col == 0 || col == |m[0]| - 1;
            |Adjacent(m, row, col)| == if onRowEdge && onColEdge then 3
                                       else if onRowEdge || onColEdge then 5
                                       else 8
  {
    AdjacentLength(m, row, col);
    var h, w := Hi(row, |m|) - Lo(row), Hi(col, |m[0]|) - Lo(col);
    assert h == (if row == 0 || row == |m| - 1 then 2 else 3);
    assert w == (if col == 0 || col == |m[0]| - 1 then 2 else 3);
    if h == 2 && w == 2 {
      assert h * w == 4;
    } else if h == 2 && w == 3 {
      assert h * w == 6;
    } else if h == 3 && w == 2 {
      assert h * w == 6;
    } else {
      assert h * w == 9;
    }
  }

  // ---------------------------------------------------------------------
  // Mines among the neighbours

  /** Entries whose value is a mine. */
  function CountMines(cells: seq<Cell>): nat
  {
    MinesBelow(cells, |cells|)
  }

  /** Mines among the first `n` entries. */
  function MinesBelow(cells: seq<Cell>, n: nat): nat
    requires n <= |cells|
  {
    if n == 0 then 0 else MinesBelow(cells, n - 1) + (if cells[n - 1].value == 'X' then 1 else 0)
  }

  lemma CountMinesZero(cells: seq<Cell>)
    ensures CountMines(cells) == 0 <==> forall c :: c in cells ==> c.value != 'X'
    ensures CountMines(cells) <= |cells|
  {
    MinesBelowZero(cells, |cells|);
  }

  lemma {:induction false} MinesBelowZero(cells: seq<Cell>, n: nat)
    requires n <= |cells|
    ensures MinesBelow(cells, n) == 0 <==> forall k :: 0 <= k < n ==> cells[k].value != 'X'
    ensures MinesBelow(cells, n) <= n
  {
    if n > 0 {
      MinesBelowZero(cells, n - 1);
    }
  }

  lemma CountMinesAppend(a: seq<Cell>, b: seq<Cell>)
    ensures CountMines(a + b) == CountMines(a) + CountMines(b)
  {
    MinesBelowAppend(a, b, |b|);
  }

  lemma {:induction false} MinesBelowAppend(a: seq<Cell>, b: seq<Cell>, k: nat)
    requires k <= |b|
    ensures MinesBelow(a + b, |a| + k) == CountMines(a) + MinesBelow(b, k)
  {
    if k == 0 {
      MinesBelowPrefix(a, b, |a|);
    } else {
      MinesBelowAppend(a, b, k - 1);
      assert (a + b)[|a| + k - 1] == b[k - 1];
    }
  }

  lemma {:induction false} MinesBelowPrefix(a: seq<Cell>, b: seq<Cell>, n: nat)
    requires n <= |a|
    ensures MinesBelow(a + b, n) == MinesBelow(a, n)
  {
    if n > 0 {
      MinesBelowPrefix(a, b, n - 1);
      assert (a + b)[n - 1] == a[n - 1];
    }
  }

  lemma CountSplit(c: seq<Cell>, a: seq<Cell>, b: seq<Cell>)
    requires c == a + b
    ensures CountMines(c) == CountMines(a) + CountMines(b)
  {
    CountMinesAppend(a, b);
  }

  // The mines of a window, counted straight off the grid.

  function EntryMines(m: Grid, row: nat, col: nat, i: nat, j: nat): nat
    requires i < |m| && j < |m[i]|
  {
    if !(i == row && j == col) && m[i][j] == 'X' then 1 else 0
  }

  function SpanMines(m: Grid, row: nat, col: nat, i: nat, jLo: nat, j: nat): nat
    requires IsRectangular(m) && i < |m| && j <= |m[0]|
    decreases j
  {
    if j <= jLo then 0 else SpanMines(m, row, col, i, jLo, j - 1) + EntryMines(m, row, col, i, j - 1)
  }

  function BlockMines(m: Grid, row: nat, col: nat, iLo: nat, i: nat, jLo: nat, jHi: nat): nat
    requires IsRectangular(m) && i <= |m| && jHi <= |m[0]|
    decreases i
  {
    if i <= iLo then 0 else BlockMines(m, row, col, iLo, i - 1, jLo, jHi) + SpanMines(m, row, col, i - 1, jLo, jHi)
  }

  lemma EntryCount(m: Grid, row: nat, col: nat, i: nat, j: nat)
    requires i < |m| && j < |m[i]|
    ensures CountMines(Entry(m, row, col, i, j)) == EntryMines(m, row, col, i, j)
  {
    assert MinesBelow(Entry(m, row, col, i, j), 0) == 0;
  }

  lemma {:induction false} SpanCount(m: Grid, row: nat, col: nat, i: nat, jLo: nat, j: nat)
    requires IsRectangular(m) && i < |m| && j <= |m[0]|
    ensures CountMines(Span(m, row, col, i, jLo, j)) == SpanMines(m, row, col, i, jLo, j)
    decreases j
  {
    if j > jLo {
      SpanCount(m, row, col, i, jLo, j - 1);
      EntryCount(m, row, col, i, j - 1);
      CountMinesAppend(Span(m, row, col, i, jLo, j - 1), Entry(m, row, col, i, j - 1));
    }
  }

  lemma {:induction false} BlockCount(m: Grid, row: nat, col: nat, iLo: nat, i: nat, jLo: nat, jHi: nat)
    requires IsRectangular(m) && i <= |m| && jHi <= |m[0]|
    ensures CountMines(Block(m, row, col, iLo, i, jLo, jHi)) == BlockMines(m, row, col, iLo, i, jLo, jHi)
    decreases i
  {
    if i > iLo {
      BlockCount(m, row, col, iLo, i - 1, jLo, jHi);
      SpanCount(m, row, col, i - 1, jLo, jHi);
      CountSplit(Block(m, row, col, iLo, i, jLo, jHi), Block(m, row, col, iLo, i - 1, jLo, jHi),
                 Span(m, row, col, i - 1, jLo, jHi));
    }
  }

  /** Two grids with mines in the same cells. */
  predicate SameMines(g: Grid, h: Grid)
  {
    |g| == |h| &&
    forall i :: 0 <= i < |g| ==>
      |g[i]| == |h[i]| && forall j :: 0 <= j < |g[i]| ==> (g[i][j] == 'X' <==> h[i][j] == 'X')
  }

  lemma {:induction false} RowSameMinesCount(s: seq<char>, t: seq<char>)
    requires |s| == |t| && forall j :: 0 <= j < |s| ==> (s[j] == 'X' <==> t[j] == 'X')
    ensures CountOf(s, 'X') == CountOf(t, 'X')
  {
    if s != [] {
      RowSameMinesCount(s[..|s| - 1], t[..|t| - 1]);
    }
  }

  /** Grids with mines in the same cells have the same number of mines. */
  lemma {:induction false} SameMinesCount(g: Grid, h: Grid)
    requires SameMines(g, h)
    ensures GridCount(g, 'X') == GridCount(h, 'X')
  {
    if g != [] {
      SameMinesCount(g[..|g| - 1], h[..|h| - 1]);
      RowSameMinesCount(g[|g| - 1], h[|h| - 1]);
    }
  }

  lemma SameMinesRectangular(g: Grid, h: Grid)
    requires IsRectangular(g) && SameMines(g, h)
    ensures IsRectangular(h) && |h[0]| == |g[0]|
  {
  }

  lemma {:induction false} SpanMinesSame(g: Grid, h: Grid, row: nat, col: nat, i: nat, jLo: nat, j: nat)
    requires IsRectangular(g) && IsRectangular(h) && SameMines(g, h) && i < |g| && j <= |g[0]|
    ensures SpanMines(g, row, col, i, jLo, j) == SpanMines(h, row, col, i, jLo, j)
    decreases j
  {
    if j > jLo {
      SpanMinesSame(g, h, row, col, i, jLo, j - 1);
    }
  }

  lemma {:induction false} BlockMinesSame(g: Grid, h: Grid, row: nat, col: nat, iLo: nat, i: nat, jLo: nat, jHi: nat)
    requires IsRectangular(g) && IsRectangular(h) && SameMines(g, h) && i <= |g| && jHi <= |g[0]|
    ensures BlockMines(g, row, col, iLo, i, jLo, jHi) == BlockMines(h, row, col, iLo, i, jLo, jHi)
    decreases i
  {
    if i > iLo {
      BlockMinesSame(g, h, row, col, iLo, i - 1, jLo, jHi);
      SpanMinesSame(g, h, row, col, i - 1, jLo, jHi);
    }
  }

  /** The mine count around a cell depends only on where the mines are, so
      writing digits into non-mine cells leaves every count as it was. */
  lemma AdjacentSameMines(g: Grid, h: Grid, row: nat, col: nat)
    requires IsRectangular(g) && SameMines(g, h)
    ensures IsRectangular(h)
    ensures CountMines(Adjacent(g, row, col)) == CountMines(Adjacent(h, row, col))
  {
    SameMinesRectangular(g, h);
    BlockCount(g, row, col, Lo(row), Hi(row, |g|), Lo(col), Hi(col, |g[0]|));
    BlockCount(h, row, col, Lo(row), Hi(row, |h|), Lo(col), Hi(col, |h[0]|));
    BlockMinesSame(g, h, row, col, Lo(row), Hi(row, |g|), Lo(col), Hi(col, |g[0]|));
  }
}
