/** The board engine of the game: a truth grid ('X' mine, '1'..'8' count,
    ' ' blank), a visible grid ('?' hidden, '@' flagged, otherwise the
    copied truth value), the revealed-cell counter, and the player's
    win/loss evaluation. */
module Minesweeper {
  import opened Utility

  /** How generation ended. */
  datatype Generation =
    | Generated             // the placement loop exited and the cells were numbered
    | PlacementUnfinished   // the pass budget ran out with mines still to place
    | FirstCellOutOfBounds  // the neighbour enumeration refused the first cell

  // ---------------------------------------------------------------------
  // Cell markers

  /** The marker written into a non-mine cell with `k` neighbouring mines:
      the digit of `k`, or a blank for none. */
  function Marker(k: nat): char
    requires k <= 8
  {
    if k == 0 then ' ' else (('0' as int) + k) as char
  }

  /** Reads a marker back as a count. */
  function MarkerValue(ch: char): nat
  {
    if '1' <= ch <= '8' then (ch as int) - ('0' as int) else 0
  }

  /** A marker is never a mine, a hidden or a flagged cell, and it reads
      back as the count it was written for. */
  lemma MarkerRoundTrip(k: nat)
    requires k <= 8
    ensures MarkerValue(Marker(k)) == k
    ensures Marker(k) != 'X' && Marker(k) != '?' && Marker(k) != '@'
    ensures Marker(k) == ' ' <==> k == 0
  {
  }

  /** Number of mines around cell (i, j), as the neighbour list counts them. */
  function NeighbourMines(g: Grid, i: nat, j: nat): (k: nat)
    requires IsRectangular(g) && i < |g| && j < |g[0]|
    ensures k <= 8
    ensures k == 0 <==> forall c :: c in Adjacent(g, i, j) ==> c.value != 'X'
  {
    AdjacentLength(g, i, j);
    CountMinesZero(Adjacent(g, i, j));
    CountMines(Adjacent(g, i, j))
  }

  /** The test `'X' in [cell.value for cell in cells]`: some entry is a mine. */
  method MineAmong(cells: seq<Cell>) returns (b: bool)
    ensures b <==> exists c :: c in cells && c.value == 'X'
  {
    var values := seq(|cells|, k requires 0 <= k < |cells| => cells[k].value);
    b := 'X' in values;
    if b {
      var k :| 0 <= k < |values| && values[k] == 'X';
      assert cells[k] in cells;
    } else {
      forall c | c in cells ensures c.value != 'X' {
        var k :| 0 <= k < |cells| && cells[k] == c;
        assert values[k] == c.value;
      }
    }
  }

  /** The counting loop of the numbering pass: the number of entries in
      `cells` whose value is a mine. */
  method CountMineEntries(cells: seq<Cell>) returns (n: nat)
    ensures n == CountMines(cells)
  {
    n := 0;
    for k := 0 to |cells|
      invariant n == MinesBelow(cells, k)
    {
      if cells[k].value == 'X' {
        n := n + 1;
      }
    }
  }

  /** What numbering writes into cell (i, j): blanks get their marker, every
      other cell keeps its value. */
  function NumberedCell(g: Grid, cols: nat, i: nat, j: nat): char
    requires IsGrid(g, |g|, cols) && i < |g| && j < cols
  {
    if g[i][j] == ' ' then Marker(NeighbourMines(g, i, j)) else g[i][j]
  }

  /** The truth grid after the numbering pass. */
  function Numbered(g: Grid, cols: nat): (h: Grid)
    requires IsGrid(g, |g|, cols)
    ensures IsGrid(h, |g|, cols)
  {
    seq(|g|, i requires 0 <= i < |g| =>
      seq(cols, j requires 0 <= j < cols => NumberedCell(g, cols, i, j)))
  }

  /** Only mines and blanks: the shape of a board between placement and numbering. */
  predicate MinesAndBlanks(g: Grid)
  {
    forall i, j :: 0 <= i < |g| && 0 <= j < |g[i]| ==> g[i][j] == 'X' || g[i][j] == ' '
  }

  /** Every non-mine cell holds the marker of its own neighbour count. */
  predicate WellNumbered(g: Grid)
    requires IsRectangular(g)
  {
    forall i, j :: 0 <= i < |g| && 0 <= j < |g[0]| && g[i][j] != 'X' ==>
      g[i][j] == Marker(NeighbourMines(g, i, j))
  }

  /** Numbering moves no mine and makes none. */
  lemma NumberedSameMines(g: Grid, cols: nat)
    requires IsGrid(g, |g|, cols)
    ensures SameMines(g, Numbered(g, cols))
  {
    var h := Numbered(g, cols);
    forall i, j | 0 <= i < |g| && 0 <= j < cols ensures g[i][j] == 'X' <==> h[i][j] == 'X' {
      if g[i][j] == ' ' {
        MarkerRoundTrip(NeighbourMines(g, i, j));
      }
    }
  }

  /** Numbering is correct in place: a blank cell ends up holding the marker
      of the number of mines around it ON THE NUMBERED GRID, and every other
      cell is left as it was. */
  lemma NumberedMeaning(g: Grid, cols: nat, i: nat, j: nat)
    requires IsRectangular(g) && |g[0]| == cols && i < |g| && j < cols
    ensures IsRectangular(Numbered(g, cols))
    ensures g[i][j] == ' ' ==>
              MarkerValue(Numbered(g, cols)[i][j]) == NeighbourMines(Numbered(g, cols), i, j) &&
              (Numbered(g, cols)[i][j] == ' ' <==> NeighbourMines(Numbered(g, cols), i, j) == 0)
    ensures g[i][j] != ' ' ==> Numbered(g, cols)[i][j] == g[i][j]
  {
    NumberedSameMines(g, cols);
    AdjacentSameMines(g, Numbered(g, cols), i, j);
    MarkerRoundTrip(NeighbourMines(g, i, j));
  }

  /** Numbering a board of mines and blanks leaves it well numbered. */
  lemma NumberedWellNumbered(g: Grid, cols: nat)
    requires IsRectangular(g) && |g[0]| == cols && MinesAndBlanks(g)
    ensures IsRectangular(Numbered(g, cols))
    ensures WellNumbered(Numbered(g, cols))
  {
    var h := Numbered(g, cols);
    NumberedSameMines(g, cols);
    forall i, j | 0 <= i < |h| && 0 <= j < |h[0]| && h[i][j] != 'X'
      ensures h[i][j] == Marker(NeighbourMines(h, i, j))
    {
      AdjacentSameMines(g, h, i, j);
    }
  }

  /** A 3-by-3 board with mines in two opposite corners numbers its centre 2. */
  lemma NumberedCornersExample()
    ensures IsRectangular([['X', ' ', ' '], [' ', ' ', ' '], [' ', ' ', 'X']])
    ensures Numbered([['X', ' ', ' '], [' ', ' ', ' '], [' ', ' ', 'X']], 3)[1][1] == '2'
  {
    var g: Grid := [['X', ' ', ' '], [' ', ' ', ' '], [' ', ' ', 'X']];
    BlockCount(g, 1, 1, 0, 3, 0, 3);
    CornersMines(g);
    assert NeighbourMines(g, 1, 1) == 2;
  }

  /** The mines around the centre of the example board, counted row by row. */
  lemma CornersMines(g: Grid)
    requires g == [['X', ' ', ' '], [' ', ' ', ' '], [' ', ' ', 'X']]
    ensures BlockMines(g, 1, 1, 0, 3, 0, 3) == 2
  {
    assert SpanMines(g, 1, 1, 0, 0, 1) == 1 && SpanMines(g, 1, 1, 0, 0, 2) == 1;
    assert SpanMines(g, 1, 1, 0, 0, 3) == 1;
    assert SpanMines(g, 1, 1, 1, 0, 1) == 0 && SpanMines(g, 1, 1, 1, 0, 2) == 0;
    assert SpanMines(g, 1, 1, 1, 0, 3) == 0;
    assert SpanMines(g, 1, 1, 2, 0, 1) == 0 && SpanMines(g, 1, 1, 2, 0, 2) == 0;
    assert SpanMines(g, 1, 1, 2, 0, 3) == 1;
    assert BlockMines(g, 1, 1, 0, 1, 0, 3) == 1 && BlockMines(g, 1, 1, 0, 2, 0, 3) == 1;
  }

  // ---------------------------------------------------------------------
  // Placement

  /** One cell of the numbering pass, in row-major order: the grid agrees
      with the numbered grid before (row, col) and with the original from
      there on, and writing the numbered value of (row, col) moves that
      boundary one cell on. */
  lemma NumberStep(orig: Grid, g: Grid, cols: nat, row: nat, col: nat)
    requires IsGrid(orig, |orig|, cols) && IsGrid(g, |orig|, cols) && InGrid(row, col, |orig|, cols)
    requires SameMines(orig, g)
    requires forall i, j :: InGrid(i, j, |orig|, cols) ==>
               g[i][j] == if i < row || (i == row && j < col) then Numbered(orig, cols)[i][j] else orig[i][j]
    ensures NeighbourMines(g, row, col) == NeighbourMines(orig, row, col)
    ensures var h := if g[row][col] == ' ' then SetCell(g, row, col, Marker(NeighbourMines(orig, row, col))) else g;
              IsGrid(h, |orig|, cols) && SameMines(orig, h) &&
              forall i, j :: InGrid(i, j, |orig|, cols) ==>
                h[i][j] == if i < row || (i == row && j <= col) then Numbered(orig, cols)[i][j] else orig[i][j]
  {
    AdjacentSameMines(orig, g, row, col);
    MarkerRoundTrip(NeighbourMines(orig, row, col));
  }

  /** The exclusion zone: the first cell and the cells around it. */
  predicate InZone(i: int, j: int, fr: int, fc: int)
  {
    fr - 1 <= i <= fr + 1 && fc - 1 <= j <= fc + 1
  }

  /** What any stretch of the placement loop keeps: mines stay mines, the
      zone is untouched, every other cell is unchanged or set to 'X' or ' '. */
  ghost predicate PlacementKept(g: Grid, orig: Grid, fr: int, fc: int, rows: nat, cols: nat)
    requires IsGrid(orig, rows, cols)
  {
    IsGrid(g, rows, cols) &&
    forall i, j :: InGrid(i, j, rows, cols) ==>
      (orig[i][j] == 'X' ==> g[i][j] == 'X') &&
      (InZone(i, j, fr, fc) ==> g[i][j] == orig[i][j]) &&
      (g[i][j] == orig[i][j] || g[i][j] == 'X' || g[i][j] == ' ')
  }

  /** Every cell outside the zone and before (row, col) in row-major order
      has been decided: it is a mine or a blank. */
  ghost predicate Swept(g: Grid, fr: int, fc: int, rows: nat, cols: nat, row: int, col: int)
    requires IsGrid(g, rows, cols)
  {
    forall i, j :: InGrid(i, j, rows, cols) && !InZone(i, j, fr, fc) &&
                   (i < row || (i == row && j < col)) ==>
      g[i][j] == 'X' || g[i][j] == ' '
  }

  /** Deciding a cell outside the zone keeps the placement invariants. */
  lemma PlaceStep(g: Grid, orig: Grid, fr: int, fc: int, rows: nat, cols: nat, row: nat, col: nat, v: char)
    requires IsGrid(orig, rows, cols) && PlacementKept(g, orig, fr, fc, rows, cols)
    requires InGrid(row, col, rows, cols) && !InZone(row, col, fr, fc) && g[row][col] != 'X'
    requires v == 'X' || v == ' '
    ensures PlacementKept(SetCell(g, row, col, v), orig, fr, fc, rows, cols)
    ensures Swept(g, fr, fc, rows, cols, row, col) ==> Swept(SetCell(g, row, col, v), fr, fc, rows, cols, row, col + 1)
    ensures Swept(g, fr, fc, rows, cols, rows, 0) ==> Swept(SetCell(g, row, col, v), fr, fc, rows, cols, rows, 0)
  {
  }

  /** A mine or a zone cell is passed over without change. */
  lemma SkipStep(g: Grid, fr: int, fc: int, rows: nat, cols: nat, row: nat, col: nat)
    requires IsGrid(g, rows, cols) && InGrid(row, col, rows, cols)
    requires g[row][col] == 'X' || InZone(row, col, fr, fc)
    ensures Swept(g, fr, fc, rows, cols, row, col) ==> Swept(g, fr, fc, rows, cols, row, col + 1)
  {
  }

  lemma RowStep(g: Grid, fr: int, fc: int, rows: nat, cols: nat, row: nat)
    requires IsGrid(g, rows, cols)
    ensures Swept(g, fr, fc, rows, cols, row, cols) ==> Swept(g, fr, fc, rows, cols, row + 1, 0)
  {
  }

  // ---------------------------------------------------------------------
  // The visible grid

  /** The reveal search's visited list: cells of the grid, none twice. */
  predicate VisitedList(v: seq<Pos>, rows: nat, cols: nat)
  {
    (forall k :: 0 <= k < |v| ==> InGrid(v[k].0, v[k].1, rows, cols)) &&
    (forall k, l :: 0 <= k < l < |v| ==> v[k] != v[l])
  }

  /** The visible grid agrees with the truth grid and the visited list: a
      cell is flagged, or shows its truth value if visited, or is hidden. */
  ghost predicate ViewMatches(truth: Grid, player: Grid, visited: seq<Pos>, rows: nat, cols: nat)
    requires IsGrid(truth, rows, cols) && IsGrid(player, rows, cols)
  {
    forall i, j :: InGrid(i, j, rows, cols) ==>
      player[i][j] == '@' || player[i][j] == (if (i, j) in visited then truth[i][j] else '?')
  }

  /** A mine can show on the visible grid only where it was revealed. */
  lemma ShownMineWasRevealed(truth: Grid, player: Grid, visited: seq<Pos>, rows: nat, cols: nat, i: int, j: int)
    requires IsGrid(truth, rows, cols) && IsGrid(player, rows, cols)
    requires ViewMatches(truth, player, visited, rows, cols)
    requires InGrid(i, j, rows, cols) && player[i][j] == 'X'
    ensures (i, j) in visited && truth[i][j] == 'X'
  {
  }

  /** Python's index on a list of length n: a negative index counts from the end. */
  function PyIndex(i: int, n: nat): (k: nat)
    requires -(n as int) <= i < n
    ensures k < n && (k == i || k == i + n)
  {
    if i < 0 then i + n else i
  }

  // ---------------------------------------------------------------------
  // Sets of positions, for the termination measure of the flood fill

  lemma SubsetCard<T>(a: set<T>, b: set<T>)
    requires a <= b
    ensures |a| <= |b|
  {
    assert b == a + (b - a);
  }

  // ---------------------------------------------------------------------
  // What one reveal does

  /** Newly visited cells show their truth value; every other cell of the
      visible grid is as it was. */
  ghost predicate ShowsNewlyVisited(truth: Grid, player: Grid, before: Grid, visited: seq<Pos>,
                                    visitedBefore: seq<Pos>, rows: nat, cols: nat)
    requires IsGrid(truth, rows, cols) && IsGrid(player, rows, cols) && IsGrid(before, rows, cols)
  {
    forall i, j :: InGrid(i, j, rows, cols) ==>
      player[i][j] == if (i, j) in visited && (i, j) !in visitedBefore then truth[i][j] else before[i][j]
  }

  /** No newly visited cell outside `skip` is a mine. */
  ghost predicate NewlyVisitedSafe(truth: Grid, visited: seq<Pos>, visitedBefore: seq<Pos>, skip: set<Pos>,
                                   rows: nat, cols: nat)
    requires IsGrid(truth, rows, cols)
  {
    forall i, j ::
      (InGrid(i, j, rows, cols) && (i, j) in visited && (i, j) !in visitedBefore && (i, j) !in skip) ==>
        truth[i][j] != 'X'
  }

  /** Every newly visited cell outside `skip` with no mine around it has all
      of its neighbours visited. */
  ghost predicate NewlyVisitedClosed(truth: Grid, visited: seq<Pos>, visitedBefore: seq<Pos>, skip: set<Pos>,
                                     rows: nat, cols: nat)
    requires IsGrid(truth, rows, cols)
  {
    forall i, j ::
      (InGrid(i, j, rows, cols) && (i, j) in visited && (i, j) !in visitedBefore && (i, j) !in skip &&
       NeighbourMines(truth, i, j) == 0) ==>
        forall c :: c in Adjacent(truth, i, j) ==> (c.row, c.col) in visited
  }

  lemma PrefixMembers<T>(a: seq<T>, b: seq<T>)
    requires a <= b
    ensures forall x :: x in a ==> x in b
  {
    forall x | x in a ensures x in b {
      var k :| 0 <= k < |a| && a[k] == x;
      assert b[k] == x;
    }
  }

  /** Composes two successive reveals: one from `v0` to `vp` that may have
      uncovered a mine among `s1`, and one from `vp` to `v` that may have
      uncovered only the non-mines `s2`. */
  lemma RevealCompose(truth: Grid, rows: nat, cols: nat, v0: seq<Pos>, vp: seq<Pos>, v: seq<Pos>,
                      p0: Grid, pp: Grid, p: Grid, s1: set<Pos>, s2: set<Pos>)
    requires IsGrid(truth, rows, cols) && IsGrid(p0, rows, cols) && IsGrid(pp, rows, cols) && IsGrid(p, rows, cols)
    requires v0 <= vp && vp <= v
    requires forall x :: x in s2 && InGrid(x.0, x.1, rows, cols) ==> truth[x.0][x.1] != 'X'
    requires ShowsNewlyVisited(truth, pp, p0, vp, v0, rows, cols)
    requires ShowsNewlyVisited(truth, p, pp, v, vp, rows, cols)
    requires NewlyVisitedSafe(truth, vp, v0, s1, rows, cols) && NewlyVisitedSafe(truth, v, vp, s2, rows, cols)
    requires NewlyVisitedClosed(truth, vp, v0, s1, rows, cols) && NewlyVisitedClosed(truth, v, vp, {}, rows, cols)
    ensures forall x :: x in vp ==> x in v
    ensures ShowsNewlyVisited(truth, p, p0, v, v0, rows, cols)
    ensures NewlyVisitedSafe(truth, v, v0, s1, rows, cols)
    ensures NewlyVisitedClosed(truth, v, v0, s1, rows, cols)
  {
    PrefixMembers(v0, vp);
    PrefixMembers(vp, v);
  }

  /** Closes the flood fill at its starting cell: once its neighbours are
      visited (or it has a mine next to it) nothing new is left open. */
  lemma CloseEntry(truth: Grid, rows: nat, cols: nat, v: seq<Pos>, v0: seq<Pos>, rc: Pos)
    requires IsGrid(truth, rows, cols) && InGrid(rc.0, rc.1, rows, cols)
    requires NewlyVisitedClosed(truth, v, v0, {rc}, rows, cols)
    requires NeighbourMines(truth, rc.0, rc.1) == 0 ==>
               forall c :: c in Adjacent(truth, rc.0, rc.1) ==> (c.row, c.col) in v
    ensures NewlyVisitedClosed(truth, v, v0, {}, rows, cols)
  {
  }

  lemma CellsStillVisited(cells: seq<Cell>, k: nat, vp: seq<Pos>, v: seq<Pos>)
    requires k < |cells|
    requires forall m :: 0 <= m < k ==> (cells[m].row, cells[m].col) in vp
    requires forall x :: x in vp ==> x in v
    requires (cells[k].row, cells[k].col) in v
    ensures forall m :: 0 <= m <= k ==> (cells[m].row, cells[m].col) in v
  {
  }

  /** A reveal keeps the visible grid consistent with the truth grid. */
  lemma RevealKeepsView(truth: Grid, p0: Grid, p: Grid, v0: seq<Pos>, v: seq<Pos>, rows: nat, cols: nat)
    requires IsGrid(truth, rows, cols) && IsGrid(p0, rows, cols) && IsGrid(p, rows, cols)
    requires v0 <= v && ShowsNewlyVisited(truth, p, p0, v, v0, rows, cols)
    ensures ViewMatches(truth, p0, v0, rows, cols) ==> ViewMatches(truth, p, v, rows, cols)
  {
    PrefixMembers(v0, v);
  }

  // ---------------------------------------------------------------------
  // How far a reveal spreads

  /** q is one of the eight grid cells around p. */
  predicate Neighbours(p: Pos, q: Pos, rows: nat, cols: nat)
  {
    InGrid(q.0, q.1, rows, cols) && p.0 - 1 <= q.0 <= p.0 + 1 && p.1 - 1 <= q.1 <= p.1 + 1 && q != p
  }

  /** The positions of the neighbour enumeration are exactly the neighbours. */
  lemma NeighboursAreAdjacent(truth: Grid, p: Pos, q: Pos)
    requires IsRectangular(truth) && InGrid(p.0, p.1, |truth|, |truth[0]|)
    ensures Neighbours(p, q, |truth|, |truth[0]|) <==>
            exists c :: c in Adjacent(truth, p.0, p.1) && (c.row, c.col) == q
  {
    AdjacentInBounds(truth, p.0, p.1);
    if Neighbours(p, q, |truth|, |truth[0]|) {
      AdjacentMember(truth, p.0, p.1, Cell(q.0, q.1, truth[q.0][q.1]));
    }
  }

  /** The reveal goes on from p: p is a grid cell with no mine next to it. */
  ghost predicate Expands(truth: Grid, p: Pos, rows: nat, cols: nat)
    requires IsGrid(truth, rows, cols)
  {
    InGrid(p.0, p.1, rows, cols) && NeighbourMines(truth, p.0, p.1) == 0
  }

  /** Every entry of `v` after index `n0` is a neighbour of an earlier entry,
      at index `n0` or later, from which the reveal goes on. */
  ghost predicate SpreadFrom(truth: Grid, v: seq<Pos>, n0: nat, rows: nat, cols: nat)
    requires IsGrid(truth, rows, cols)
  {
    forall k :: n0 < k < |v| ==>
      exists m :: n0 <= m < k && Expands(truth, v[m], rows, cols) && Neighbours(v[m], v[k], rows, cols)
  }

  /** Every entry of `v` from index `lo` on is a neighbour of `from`, or a
      neighbour of an earlier entry from `lo` on from which the reveal goes on. */
  ghost predicate ReachedFrom(truth: Grid, v: seq<Pos>, lo: nat, from: Pos, rows: nat, cols: nat)
    requires IsGrid(truth, rows, cols)
  {
    forall k :: lo <= k < |v| ==>
      Neighbours(from, v[k], rows, cols) ||
      exists m :: lo <= m < k && Expands(truth, v[m], rows, cols) && Neighbours(v[m], v[k], rows, cols)
  }

  /** One more neighbour of `from` revealed, with what it spread to. */
  lemma ReachedStep(truth: Grid, rows: nat, cols: nat, pre: seq<Pos>, v: seq<Pos>, lo: nat, from: Pos, n: Pos)
    requires IsGrid(truth, rows, cols)
    requires pre <= v && lo <= |pre|
    requires ReachedFrom(truth, pre, lo, from, rows, cols)
    requires SpreadFrom(truth, v, |pre|, rows, cols)
    requires |v| > |pre| ==> v[|pre|] == n
    requires Neighbours(from, n, rows, cols)
    ensures ReachedFrom(truth, v, lo, from, rows, cols)
  {
    forall k | lo <= k < |v|
      ensures Neighbours(from, v[k], rows, cols) ||
              exists m :: lo <= m < k && Expands(truth, v[m], rows, cols) && Neighbours(v[m], v[k], rows, cols)
    {
      if k < |pre| {
        assert v[k] == pre[k];
        if !Neighbours(from, pre[k], rows, cols) {
          var m :| lo <= m < k && Expands(truth, pre[m], rows, cols) && Neighbours(pre[m], pre[k], rows, cols);
          assert v[m] == pre[m];
        }
      } else if k > |pre| {
        var m :| |pre| <= m < k && Expands(truth, v[m], rows, cols) && Neighbours(v[m], v[k], rows, cols);
      }
    }
  }

  /** A reveal started at `rc`, stored at index `n0`, that went on past `rc`
      only because `rc` has no mine next to it, spreads from `n0`. */
  lemma ReachedSpread(truth: Grid, rows: nat, cols: nat, v: seq<Pos>, n0: nat, rc: Pos)
    requires IsGrid(truth, rows, cols)
    requires n0 < |v| && v[n0] == rc
    requires |v| > n0 + 1 ==> Expands(truth, rc, rows, cols)
    requires ReachedFrom(truth, v, n0 + 1, rc, rows, cols)
    ensures SpreadFrom(truth, v, n0, rows, cols)
  {
    forall k | n0 < k < |v|
      ensures exists m :: n0 <= m < k && Expands(truth, v[m], rows, cols) && Neighbours(v[m], v[k], rows, cols)
    {
      if Neighbours(rc, v[k], rows, cols) {
        assert Expands(truth, v[n0], rows, cols) && Neighbours(v[n0], v[k], rows, cols);
      } else {
        var m :| n0 + 1 <= m < k && Expands(truth, v[m], rows, cols) && Neighbours(v[m], v[k], rows, cols);
      }
    }
  }

  /** On a single row starting ' ', '1', 'X' (such as ' ', '1', 'X', '1',
      ' '), a reveal started at (0, 0) that spreads and closes as RevealCell
      promises visits (0, 0) and (0, 1) and nothing else: it stops at the
      numbered cell and never reaches the cells past the mine. */
  lemma RevealStopsAtNumberExample(g: Grid, cols: nat, v: seq<Pos>)
    requires IsGrid(g, 1, cols) && cols >= 3 && g[0][0] == ' ' && g[0][1] == '1' && g[0][2] == 'X'
    requires |v| > 0 && v[0] == (0, 0)
    requires SpreadFrom(g, v, 0, 1, cols)
    requires NewlyVisitedClosed(g, v, [], {}, 1, cols)
    ensures forall x :: x in v <==> x == (0, 0) || x == (0, 1)
  {
    AdjacentMember(g, 0, 1, Cell(0, 2, 'X'));
    AdjacentInBounds(g, 0, 0);
    assert NeighbourMines(g, 0, 0) == 0;
    AdjacentMember(g, 0, 0, Cell(0, 1, '1'));
    assert (0, 1) in v;
    forall k | 0 <= k < |v| ensures v[k] == (0, 0) || v[k] == (0, 1) {
      ExampleStaysLeft(g, cols, v, k);
    }
  }

  lemma {:induction false} ExampleStaysLeft(g: Grid, cols: nat, v: seq<Pos>, k: nat)
    requires IsGrid(g, 1, cols) && cols >= 3
    requires |v| > 0 && v[0] == (0, 0) && k < |v|
    requires SpreadFrom(g, v, 0, 1, cols)
    requires NeighbourMines(g, 0, 1) != 0
    ensures v[k] == (0, 0) || v[k] == (0, 1)
    decreases k
  {
    if k > 0 {
      var m :| 0 <= m < k && Expands(g, v[m], 1, cols) && Neighbours(v[m], v[k], 1, cols);
      ExampleStaysLeft(g, cols, v, m);
      ExampleStep(g, cols, v[m], v[k]);
    }
  }

  lemma ExampleStep(g: Grid, cols: nat, p: Pos, q: Pos)
    requires IsGrid(g, 1, cols) && cols >= 3 && NeighbourMines(g, 0, 1) != 0
    requires p == (0, 0) || p == (0, 1)
    requires Expands(g, p, 1, cols) && Neighbours(p, q, 1, cols)
    ensures q == (0, 1)
  {
  }

  class Board {
    const boardRows: nat
    const boardCols: nat
    const boardSize: nat
    /** pct_mines, as the fraction pctNum / pctDen. */
    const pctNum: nat
    const pctDen: nat
    const nMines: nat
    var realBoard: Grid
    var playerBoard: Grid
    var nRevealedCells: nat
    /** The visited list of reveal_cell, kept across top-level calls. */
    var visited: seq<Pos>

    ghost predicate Valid()
      reads this
    {
      pctDen > 0 && boardSize == boardRows * boardCols &&
      nMines == MineQuota(boardRows, boardCols, pctNum, pctDen) &&
      IsGrid(realBoard, boardRows, boardCols) && IsGrid(playerBoard, boardRows, boardCols) &&
      VisitedList(visited, boardRows, boardCols) && nRevealedCells == |visited|
    }

    ghost predicate ViewConsistent()
      reads this
      requires Valid()
    {
      ViewMatches(realBoard, playerBoard, visited, boardRows, boardCols)
    }

    /** Grid cells not yet visited by the reveal search. */
    ghost function Unvisited(): set<Pos>
      reads this
    {
      set i, j | 0 <= i < boardRows && 0 <= j < boardCols && (i, j) !in visited :: (i, j)
    }

    constructor (rows: nat, cols: nat, num: nat, den: nat)
      requires den > 0
      ensures Valid() && ViewConsistent()
      ensures boardRows == rows && boardCols == cols && boardSize == rows * cols
      ensures pctNum == num && pctDen == den && nMines == MineQuota(rows, cols, num, den)
      ensures realBoard == Filled(rows, cols, ' ') && playerBoard == Filled(rows, cols, '?')
      ensures nRevealedCells == 0 && visited == []
    {
      boardRows, boardCols := rows, cols;
      boardSize := rows * cols;
      pctNum, pctDen := num, den;
      nMines := MineQuota(rows, cols, num, den);
      realBoard := Filled(rows, cols, ' ');
      playerBoard := Filled(rows, cols, '?');
      nRevealedCells := 0;
      visited := [];
    }

    /** Places the mines around the first cell (fr, fc), then numbers the
        board. `coin(pass, row, col)` is the random draw made for that cell
        in that pass of the placement loop; at most `passes` passes run. */
    method GenerateBoard(fr: int, fc: int, coin: (nat, nat, nat) -> bool, passes: nat)
      returns (outcome: Generation)
      requires Valid()
      modifies this`realBoard
      ensures Valid()
      ensures outcome == FirstCellOutOfBounds ==>
                !InGrid(fr, fc, boardRows, boardCols) && realBoard == old(realBoard)
      ensures old(realBoard) == Filled(boardRows, boardCols, ' ') && passes > 0 ==>
                (outcome == FirstCellOutOfBounds <==> nMines > 0 && !InGrid(fr, fc, boardRows, boardCols))
      ensures outcome == Generated ==>
                GridCount(realBoard, 'X') == old(GridCount(realBoard, 'X')) + nMines
      ensures forall i, j :: InGrid(i, j, boardRows, boardCols) && old(realBoard)[i][j] == 'X' ==>
                realBoard[i][j] == 'X'
      ensures forall i, j :: InGrid(i, j, boardRows, boardCols) && InZone(i, j, fr, fc) ==>
                (realBoard[i][j] == 'X' <==> old(realBoard)[i][j] == 'X')
      ensures outcome == Generated && old(MinesAndBlanks(realBoard)) && boardRows > 0 ==>
                IsRectangular(realBoard) && WellNumbered(realBoard)
      ensures outcome == Generated && old(realBoard) == Filled(boardRows, boardCols, ' ') ==>
                GridCount(realBoard, 'X') == nMines
      ensures visited == [] && old(ViewConsistent()) ==> ViewConsistent()
    {
      ghost var orig := realBoard;
      FilledCount(boardRows, boardCols, ' ', 'X');
      outcome := PlaceMines(fr, fc, coin, passes);
      if outcome == Generated {
        ghost var placed := realBoard;
        NumberCells();
        NumberedSameMines(placed, boardCols);
        SameMinesCount(placed, realBoard);
        if old(MinesAndBlanks(realBoard)) && boardRows > 0 {
          assert MinesAndBlanks(placed);
          NumberedWellNumbered(placed, boardCols);
        }
      }
    }

    /** The placement loop: passes over the whole board until every mine is
        placed; each pass draws for each cell that is not a mine and not in
        the first cell's zone. */
    method PlaceMines(fr: int, fc: int, coin: (nat, nat, nat) -> bool, passes: nat)
      returns (outcome: Generation)
      requires Valid()
      modifies this`realBoard
      ensures Valid()
      ensures PlacementKept(realBoard, old(realBoard), fr, fc, boardRows, boardCols)
      ensures outcome == FirstCellOutOfBounds ==>
                !InGrid(fr, fc, boardRows, boardCols) && realBoard == old(realBoard)
      ensures old(realBoard) == Filled(boardRows, boardCols, ' ') && passes > 0 ==>
                (outcome == FirstCellOutOfBounds <==> nMines > 0 && !InGrid(fr, fc, boardRows, boardCols))
      ensures outcome == Generated ==>
                GridCount(realBoard, 'X') == old(GridCount(realBoard, 'X')) + nMines
      ensures outcome == PlacementUnfinished ==>
                GridCount(realBoard, 'X') < old(GridCount(realBoard, 'X')) + nMines
      ensures outcome == Generated && nMines > 0 ==>
                Swept(realBoard, fr, fc, boardRows, boardCols, boardRows, 0)
    {
      ghost var orig := realBoard;
      ghost var freshOut := orig == Filled(boardRows, boardCols, ' ') && nMines > 0 && !InGrid(fr, fc, boardRows, boardCols);
      if nMines > 0 {
        assert boardRows > 0 && boardCols > 0;
      }
      var mines := nMines;
      var pass: nat := 0;
      while mines > 0 && pass < passes
        invariant 0 <= mines <= nMines
        invariant PlacementKept(realBoard, orig, fr, fc, boardRows, boardCols)
        invariant GridCount(realBoard, 'X') + mines == GridCount(orig, 'X') + nMines
        invariant !InGrid(fr, fc, boardRows, boardCols) ==> realBoard == orig
        invariant pass > 0 ==> Swept(realBoard, fr, fc, boardRows, boardCols, boardRows, 0)
        invariant mines < nMines ==> pass > 0
        invariant freshOut ==> pass == 0
        decreases passes - pass
      {
        var failed;
        mines, failed := PlacementPass(fr, fc, coin, pass, mines, orig);
        if failed {
          return FirstCellOutOfBounds;
        }
        pass := pass + 1;
      }
      outcome := if mines == 0 then Generated else PlacementUnfinished;
    }

    /** One pass of the placement loop over every cell, row by row. It fails
        when the neighbour enumeration refuses the first cell. */
    method PlacementPass(fr: int, fc: int, coin: (nat, nat, nat) -> bool, pass: nat, mines: nat,
                         ghost orig: Grid)
      returns (minesLeft: nat, failed: bool)
      requires IsGrid(orig, boardRows, boardCols)
      requires PlacementKept(realBoard, orig, fr, fc, boardRows, boardCols)
      requires mines <= nMines && GridCount(realBoard, 'X') + mines == GridCount(orig, 'X') + nMines
      requires !InGrid(fr, fc, boardRows, boardCols) ==> realBoard == orig
      modifies this`realBoard
      ensures PlacementKept(realBoard, orig, fr, fc, boardRows, boardCols)
      ensures minesLeft <= mines && GridCount(realBoard, 'X') + minesLeft == GridCount(orig, 'X') + nMines
      ensures !InGrid(fr, fc, boardRows, boardCols) ==> realBoard == orig
      ensures failed ==> !InGrid(fr, fc, boardRows, boardCols)
      ensures !failed ==> Swept(realBoard, fr, fc, boardRows, boardCols, boardRows, 0)
      ensures (old(realBoard) == Filled(boardRows, boardCols, ' ') && !InGrid(fr, fc, boardRows, boardCols) &&
               boardRows > 0 && boardCols > 0) ==> failed
    {
      ghost var blankOut := realBoard == Filled(boardRows, boardCols, ' ') && !InGrid(fr, fc, boardRows, boardCols) &&
                            boardRows > 0 && boardCols > 0;
      minesLeft, failed := mines, false;
      for row := 0 to boardRows
        invariant PlacementKept(realBoard, orig, fr, fc, boardRows, boardCols)
        invariant minesLeft <= mines && GridCount(realBoard, 'X') + minesLeft == GridCount(orig, 'X') + nMines
        invariant !InGrid(fr, fc, boardRows, boardCols) ==> realBoard == orig
        invariant Swept(realBoard, fr, fc, boardRows, boardCols, row, 0)
        invariant blankOut ==> row == 0 && realBoard == old(realBoard)
      {
        if blankOut {
          assert realBoard[row][0] == ' ';
        }
        minesLeft, failed := PlacementRow(fr, fc, coin, pass, row, minesLeft, orig);
        if failed {
          return;
        }
        RowStep(realBoard, fr, fc, boardRows, boardCols, row);
      }
    }

    /** One row of the placement pass, column by column. */
    method PlacementRow(fr: int, fc: int, coin: (nat, nat, nat) -> bool, pass: nat, row: nat, mines: nat,
                        ghost orig: Grid)
      returns (minesLeft: nat, failed: bool)
      requires IsGrid(orig, boardRows, boardCols) && row < boardRows
      requires PlacementKept(realBoard, orig, fr, fc, boardRows, boardCols)
      requires GridCount(realBoard, 'X') + mines == GridCount(orig, 'X') + nMines
      requires !InGrid(fr, fc, boardRows, boardCols) ==> realBoard == orig
      requires Swept(realBoard, fr, fc, boardRows, boardCols, row, 0)
      modifies this`realBoard
      ensures PlacementKept(realBoard, orig, fr, fc, boardRows, boardCols)
      ensures minesLeft <= mines && GridCount(realBoard, 'X') + minesLeft == GridCount(orig, 'X') + nMines
      ensures !InGrid(fr, fc, boardRows, boardCols) ==> realBoard == orig
      ensures failed ==> !InGrid(fr, fc, boardRows, boardCols)
      ensures !InGrid(fr, fc, boardRows, boardCols) && boardCols > 0 && old(realBoard)[row][0] != 'X' ==> failed
      ensures !failed ==> Swept(realBoard, fr, fc, boardRows, boardCols, row, boardCols)
    {
      minesLeft, failed := mines, false;
      for col := 0 to boardCols
        invariant PlacementKept(realBoard, orig, fr, fc, boardRows, boardCols)
        invariant minesLeft <= mines && GridCount(realBoard, 'X') + minesLeft == GridCount(orig, 'X') + nMines
        invariant !InGrid(fr, fc, boardRows, boardCols) ==> realBoard == orig
        invariant Swept(realBoard, fr, fc, boardRows, boardCols, row, col)
        invariant !InGrid(fr, fc, boardRows, boardCols) && boardCols > 0 && old(realBoard)[row][0] != 'X' ==> col == 0
      {
        minesLeft, failed := PlaceCell(fr, fc, coin, pass, row, col, minesLeft, orig);
        if failed {
          return;
        }
      }
    }

    /** One cell of the placement pass: a cell outside the safe zone that
        is not yet a mine becomes a mine when the draw says so and mines
        are left, and a blank otherwise. It fails, changing nothing, when
        the neighbour enumeration refuses the first cell. */
    method PlaceCell(fr: int, fc: int, coin: (nat, nat, nat) -> bool, pass: nat, row: nat, col: nat,
                     mines: nat, ghost orig: Grid)
      returns (minesLeft: nat, failed: bool)
      requires IsGrid(orig, boardRows, boardCols) && InGrid(row, col, boardRows, boardCols)
      requires PlacementKept(realBoard, orig, fr, fc, boardRows, boardCols)
      requires GridCount(realBoard, 'X') + mines == GridCount(orig, 'X') + nMines
      requires !InGrid(fr, fc, boardRows, boardCols) ==> realBoard == orig
      modifies this`realBoard
      ensures PlacementKept(realBoard, orig, fr, fc, boardRows, boardCols)
      ensures minesLeft <= mines && GridCount(realBoard, 'X') + minesLeft == GridCount(orig, 'X') + nMines
      ensures !InGrid(fr, fc, boardRows, boardCols) ==> realBoard == old(realBoard)
      ensures failed ==> !InGrid(fr, fc, boardRows, boardCols)
      ensures !InGrid(fr, fc, boardRows, boardCols) && old(realBoard)[row][col] != 'X' ==> failed
      ensures !failed && Swept(old(realBoard), fr, fc, boardRows, boardCols, row, col) ==>
                Swept(realBoard, fr, fc, boardRows, boardCols, row, col + 1)
    {
      minesLeft, failed := mines, false;
      if realBoard[row][col] != 'X' && (row, col) != (fr, fc) {
        var adj := AdjacentCells(realBoard, fr, fc);
        if adj.Err? {
          return minesLeft, true;
        }
        AdjacentMember(realBoard, fr, fc, Cell(row, col, realBoard[row][col]));
        if Cell(row, col, realBoard[row][col]) !in adj.value {
          var isMine := coin(pass, row, col);
          var v := if isMine && minesLeft > 0 then 'X' else ' ';
          SetCellCount(realBoard, row, col, v, 'X');
          PlaceStep(realBoard, orig, fr, fc, boardRows, boardCols, row, col, v);
          if isMine && minesLeft > 0 {
            realBoard := SetCell(realBoard, row, col, 'X');
            minesLeft := minesLeft - 1;
          } else {
            realBoard := SetCell(realBoard, row, col, ' ');
          }
        } else {
          SkipStep(realBoard, fr, fc, boardRows, boardCols, row, col);
        }
      } else {
        SkipStep(realBoard, fr, fc, boardRows, boardCols, row, col);
      }
    }

    /** The numbering pass: every blank cell gets the marker of its number
        of neighbouring mines, counted over the neighbour list. */
    method NumberCells()
      requires Valid()
      modifies this`realBoard
      ensures Valid()
      ensures realBoard == Numbered(old(realBoard), boardCols)
    {
      ghost var orig := realBoard;
      ghost var target := Numbered(orig, boardCols);
      for row := 0 to boardRows
        invariant Valid()
        invariant SameMines(orig, realBoard)
        invariant forall i, j :: InGrid(i, j, boardRows, boardCols) ==>
                    realBoard[i][j] == if i < row then target[i][j] else orig[i][j]
      {
        for col := 0 to boardCols
          invariant Valid()
          invariant SameMines(orig, realBoard)
          invariant forall i, j :: InGrid(i, j, boardRows, boardCols) ==>
                      realBoard[i][j] == if i < row || (i == row && j < col) then target[i][j] else orig[i][j]
        {
          NumberStep(orig, realBoard, boardCols, row, col);
          if realBoard[row][col] == ' ' {
            var adj := AdjacentCells(realBoard, row, col);
            var adjacentMines := CountMineEntries(adj.value);
            realBoard := SetCell(realBoard, row, col, Marker(adjacentMines));
          }
        }
      }
      forall i | 0 <= i < boardRows ensures realBoard[i] == target[i] {
      }
    }

    /** Reveals (row, col) and, depth first, the cells around every revealed
        cell that has no mine next to it. Cells already on the visited list
        are skipped, so each is revealed and counted at most once. */
    method RevealCell(row: int, col: int) returns (inGrid: bool)
      requires Valid()
      modifies this`playerBoard, this`nRevealedCells, this`visited
      ensures Valid()
      ensures inGrid <==> InGrid(row, col, boardRows, boardCols)
      ensures old(visited) <= visited
      ensures inGrid ==> (row, col) in visited
      ensures nRevealedCells == old(nRevealedCells) + (|visited| - |old(visited)|)
      ensures !inGrid || (row, col) in old(visited) ==>
                visited == old(visited) && playerBoard == old(playerBoard)
      ensures inGrid && (row, col) !in old(visited) ==>
                |visited| > |old(visited)| && visited[|old(visited)|] == (row, col)
      ensures ShowsNewlyVisited(realBoard, playerBoard, old(playerBoard), visited, old(visited), boardRows, boardCols)
      ensures NewlyVisitedSafe(realBoard, visited, old(visited), {(row, col)}, boardRows, boardCols)
      ensures NewlyVisitedClosed(realBoard, visited, old(visited), {}, boardRows, boardCols)
      ensures SpreadFrom(realBoard, visited, |old(visited)|, boardRows, boardCols)
      ensures old(ViewConsistent()) ==> ViewConsistent()
      decreases |Unvisited()|, 1
    {
      if !InGrid(row, col, boardRows, boardCols) {
        return false;
      }
      inGrid := true;
      if (row, col) in visited {
        return;
      }
      ghost var entry := |Unvisited()|;
      Uncover(row, col);
      ghost var visited1, player1 := visited, playerBoard;
      var adj := AdjacentCells(realBoard, row, col);
      var cells := adj.value;
      AdjacentInBounds(realBoard, row, col);
      var mineNear := MineAmong(cells);
      if mineNear {
        CloseEntry(realBoard, boardRows, boardCols, visited, old(visited), (row, col));
      } else {
        assert Expands(realBoard, (row, col), boardRows, boardCols);
        RevealAround(cells, entry, (row, col));
        ReachedSpread(realBoard, boardRows, boardCols, visited, |old(visited)|, (row, col));
        RevealCompose(realBoard, boardRows, boardCols, old(visited), visited1, visited,
                      old(playerBoard), player1, playerBoard, {(row, col)}, {});
        CloseEntry(realBoard, boardRows, boardCols, visited, old(visited), (row, col));
      }
      RevealKeepsView(realBoard, old(playerBoard), playerBoard, old(visited), visited, boardRows, boardCols);
    }

    /** Marks (row, col) visited and shows its true value. */
    method Uncover(row: int, col: int)
      requires Valid() && InGrid(row, col, boardRows, boardCols) && (row, col) !in visited
      modifies this`playerBoard, this`nRevealedCells, this`visited
      ensures Valid()
      ensures visited == old(visited) + [(row, col)]
      ensures nRevealedCells == old(nRevealedCells) + 1
      ensures |Unvisited()| < old(|Unvisited()|)
      ensures ShowsNewlyVisited(realBoard, playerBoard, old(playerBoard), visited, old(visited), boardRows, boardCols)
      ensures NewlyVisitedSafe(realBoard, visited, old(visited), {(row, col)}, boardRows, boardCols)
      ensures NewlyVisitedClosed(realBoard, visited, old(visited), {(row, col)}, boardRows, boardCols)
    {
      assert (row, col) in Unvisited();
      visited := visited + [(row, col)];
      playerBoard := SetCell(playerBoard, row, col, realBoard[row][col]);
      nRevealedCells := nRevealedCells + 1;
      assert Unvisited() == old(Unvisited()) - {(row, col)};
    }

    /** The loop of reveal_cell over the neighbours of a cell without
        adjacent mines: reveals each of `cells` in turn. */
    method RevealAround(cells: seq<Cell>, ghost budget: nat, ghost from: Pos)
      requires Valid()
      requires forall c :: c in cells ==>
                 InGrid(c.row, c.col, boardRows, boardCols) && realBoard[c.row][c.col] != 'X'
      requires forall c :: c in cells ==> Neighbours(from, (c.row, c.col), boardRows, boardCols)
      requires |Unvisited()| < budget
      modifies this`playerBoard, this`nRevealedCells, this`visited
      ensures Valid()
      ensures old(visited) <= visited
      ensures forall c :: c in cells ==> (c.row, c.col) in visited
      ensures ShowsNewlyVisited(realBoard, playerBoard, old(playerBoard), visited, old(visited), boardRows, boardCols)
      ensures NewlyVisitedSafe(realBoard, visited, old(visited), {}, boardRows, boardCols)
      ensures NewlyVisitedClosed(realBoard, visited, old(visited), {}, boardRows, boardCols)
      ensures ReachedFrom(realBoard, visited, |old(visited)|, from, boardRows, boardCols)
      decreases budget, 0
    {
      for k := 0 to |cells|
        invariant Valid()
        invariant old(visited) <= visited
        invariant Unvisited() <= old(Unvisited())
        invariant forall m :: 0 <= m < k ==> (cells[m].row, cells[m].col) in visited
        invariant ShowsNewlyVisited(realBoard, playerBoard, old(playerBoard), visited, old(visited), boardRows, boardCols)
        invariant NewlyVisitedSafe(realBoard, visited, old(visited), {}, boardRows, boardCols)
        invariant NewlyVisitedClosed(realBoard, visited, old(visited), {}, boardRows, boardCols)
        invariant ReachedFrom(realBoard, visited, |old(visited)|, from, boardRows, boardCols)
      {
        ghost var preVisited, prePlayer := visited, playerBoard;
        SubsetCard(Unvisited(), old(Unvisited()));
        assert cells[k] in cells;
        var _ := RevealCell(cells[k].row, cells[k].col);
        RevealCompose(realBoard, boardRows, boardCols, old(visited), preVisited, visited,
                      old(playerBoard), prePlayer, playerBoard, {}, {(cells[k].row, cells[k].col)});
        assert Unvisited() <= old(Unvisited()) by {
          forall x | x in Unvisited() ensures x in old(Unvisited()) {
            assert x !in preVisited;
          }
        }
        CellsStillVisited(cells, k, preVisited, visited);
        ReachedStep(realBoard, boardRows, boardCols, preVisited, visited, |old(visited)|, from,
                    (cells[k].row, cells[k].col));
      }
    }

    /** Puts a flag on (row, col). Like Python list indexing, a negative
        index counts from the end; any other index outside the grid is an
        IndexError, which changes nothing. The flag goes on whatever the
        cell showed, revealed or not. */
    method FlagCell(row: int, col: int) returns (ok: bool)
      requires Valid()
      modifies this`playerBoard
      ensures Valid()
      ensures ok <==> -(boardRows as int) <= row < boardRows && -(boardCols as int) <= col < boardCols
      ensures ok ==> playerBoard == SetCell(old(playerBoard), PyIndex(row, boardRows), PyIndex(col, boardCols), '@')
      ensures !ok ==> playerBoard == old(playerBoard)
      ensures old(ViewConsistent()) ==> ViewConsistent()
    {
      ok := -(boardRows as int) <= row < boardRows && -(boardCols as int) <= col < boardCols;
      if ok {
        playerBoard := SetCell(playerBoard, PyIndex(row, boardRows), PyIndex(col, boardCols), '@');
      }
    }
  }

  /** The player's view of the game: whether it is lost or won. */
  class Player {
    const board: Board
    var gameOver: bool
    var winCondition: bool

    constructor (b: Board)
      ensures board == b && !gameOver && !winCondition
    {
      board := b;
      gameOver := false;
      winCondition := false;
    }

    /** The game is over once a mine shows on the visible grid, and won once
        as many cells are revealed as there are non-mine cells. */
    method CheckGameState()
      requires board.Valid()
      modifies this`gameOver, this`winCondition
      ensures gameOver <==> exists i, j :: InGrid(i, j, board.boardRows, board.boardCols) && board.playerBoard[i][j] == 'X'
      ensures winCondition <==> board.nRevealedCells == board.boardSize - board.nMines
    {
      FlattenMember(board.playerBoard, 'X');
      gameOver := 'X' in Flatten(board.playerBoard);
      winCondition := board.nRevealedCells == board.boardSize - board.nMines;
    }
  }

  // ---------------------------------------------------------------------
  // What the win condition means

  /** Cells of row `r` among the first `n` of `row` that are not mines. */
  ghost function RowSafe(row: seq<char>, r: int, n: nat): set<Pos>
    requires n <= |row|
  {
    set j | 0 <= j < n && row[j] != 'X' :: (r, j)
  }

  /** The grid cells of `g` that are not mines. */
  ghost function SafeCells(g: Grid, rows: nat, cols: nat): set<Pos>
    requires IsGrid(g, rows, cols)
  {
    set i, j | 0 <= i < rows && 0 <= j < cols && g[i][j] != 'X' :: (i, j)
  }

  lemma {:induction false} RowSafeCard(row: seq<char>, r: int, n: nat)
    requires n <= |row|
    ensures |RowSafe(row, r, n)| == n - CountOf(row[..n], 'X')
  {
    if n > 0 {
      RowSafeCard(row, r, n - 1);
      assert row[..n][..n - 1] == row[..n - 1];
      if row[n - 1] != 'X' {
        assert RowSafe(row, r, n) == RowSafe(row, r, n - 1) + {(r, n - 1)};
      } else {
        assert RowSafe(row, r, n) == RowSafe(row, r, n - 1);
      }
    }
  }

  /** A grid of rows * cols cells with GridCount mines has the rest safe. */
  lemma {:induction false} SafeCellsCard(g: Grid, rows: nat, cols: nat)
    requires IsGrid(g, rows, cols)
    ensures |SafeCells(g, rows, cols)| == rows * cols - GridCount(g, 'X')
  {
    if rows > 0 {
      var front := g[..rows - 1];
      SafeCellsCard(front, rows - 1, cols);
      RowSafeCard(g[rows - 1], rows - 1, cols);
      assert g[rows - 1][..cols] == g[rows - 1];
      assert SafeCells(g, rows, cols) == SafeCells(front, rows - 1, cols) + RowSafe(g[rows - 1], rows - 1, cols);
      assert SafeCells(front, rows - 1, cols) !! RowSafe(g[rows - 1], rows - 1, cols);
      MulSucc(rows - 1, cols);
    }
  }

  lemma {:induction false} DistinctCard(v: seq<Pos>)
    requires forall k, l :: 0 <= k < l < |v| ==> v[k] != v[l]
    ensures |set x | x in v| == |v|
  {
    if v != [] {
      var front := v[..|v| - 1];
      DistinctCard(front);
      assert (set x | x in v) == (set x | x in front) + {v[|v| - 1]};
    }
  }

  lemma SubsetSameCard<T>(a: set<T>, b: set<T>)
    requires a <= b && |a| == |b|
    ensures a == b
  {
    if a != b {
      var x :| x in b && x !in a;
      SubsetCard(a, b - {x});
    }
  }

  /** With no mine revealed and `mines` mines on the grid, the count test of
      check_game_state holds exactly when every non-mine cell is revealed. */
  lemma WinMeansAllSafeRevealed(truth: Grid, visited: seq<Pos>, rows: nat, cols: nat, mines: nat)
    requires IsGrid(truth, rows, cols) && VisitedList(visited, rows, cols)
    requires forall k :: 0 <= k < |visited| ==> truth[visited[k].0][visited[k].1] != 'X'
    requires GridCount(truth, 'X') == mines
    ensures |visited| == rows * cols - mines <==>
            forall i, j :: InGrid(i, j, rows, cols) && truth[i][j] != 'X' ==> (i, j) in visited
  {
    var seen := set x | x in visited;
    var safe := SafeCells(truth, rows, cols);
    DistinctCard(visited);
    SafeCellsCard(truth, rows, cols);
    assert seen <= safe;
    assert |seen| == |visited| && |safe| == rows * cols - mines;
    if |visited| == rows * cols - mines {
      SubsetSameCard(seen, safe);
      forall i, j | InGrid(i, j, rows, cols) && truth[i][j] != 'X' ensures (i, j) in visited {
        assert (i, j) in safe;
      }
    }
    if forall i, j :: InGrid(i, j, rows, cols) && truth[i][j] != 'X' ==> (i, j) in visited {
      assert safe <= seen;
      assert seen == safe;
    }
  }
}
