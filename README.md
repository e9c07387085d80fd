# py-sweeper board engine in Dafny

A model of the board engine of py-sweeper, a text Minesweeper.

A `Board` (module `Minesweeper`) holds two grids of one-character strings:
- a truth grid: `'X'` for a mine, `'1'`..`'8'` for a numbered cell, `' '` for a blank;
- a visible grid: `'?'` for hidden, `'@'` for flagged, otherwise the copied truth value.

It also holds the revealed-cell counter and the visited list of the recursive reveal. The model covers:
- the constructor, with the mine quota `floor(rows * cols * pct)`;
- generation: mine placement that keeps the 3-by-3 zone around the first cell free, then numbering;
- the depth-first reveal and flagging;
- the `Player`'s loss and win tests.

Module `Utility` models the helper functions: the 2-D array test, flattening, and the neighbour enumeration. Module `Prototype` models the earlier board at the top of the repository. Its placement loop has no safe zone and marks non-mines `'E'`.

Modelling choices:
- Grids are `seq<seq<char>>` fields that the methods reassign.
- The density `pct_mines` is the fraction `pctNum / pctDen`.
- Each call of `random() <= pct_mines` is a parameter `coin(pass, row, col)`. Placement therefore holds for every outcome of the draws.
- The unbounded `while mines > 0` loop gets a pass budget `passes`. The result says whether the quota was met.
- Python assertion failures and index errors end the game program. Here they become error results that change nothing. The deep-recursion error of the reveal is not modelled (see "## Left out").

## Model

| member | source | states |
|---|---|---|
| Utility.Is2dArray | src/utility.py:3-13 | true exactly when the list is non-empty and every row has the length of the first |
| Utility.Flatten | src/utility.py:15-17 | the rows concatenated in order; the result is as long as all rows together |
| Utility.FlattenIndex | src/utility.py:15-17 | in a grid of width w, entry r*w+c of the flattened list is cell (r, c) |
| Utility.FlattenMember | src/utility.py:15-17 | x is in the flattened list exactly when some cell holds x |
| Utility.AdjacentCells | src/utility.py:19-45 | succeeds exactly on a rectangular grid with the centre inside it; otherwise fails with the right error kind; on success returns the enumeration `Adjacent` built by the two nested loops |
| Utility.RowNeighbours | src/utility.py:41-44 | the inner loop appends to the list built so far exactly the entries of one row of the window, in column order, skipping the centre |
| Utility.AdjacentCellsAsWritten | src/utility.py:19-45 | the enumeration with the source's `<=` guards: on a centre inside the grid it gives the same list as the corrected version; beyond that it accepts only centres on the row or column just past the grid |
| Utility.AsWrittenAcceptsRowPastEnd | src/utility.py:34-37 | the guard as written accepts row `len(matrix)` and returns cells of the last row |
| Utility.AdjacentMember | src/utility.py:39-45 | an entry is listed exactly when it lies in the clipped 3-by-3 window, is not the centre, and carries the grid value there |
| Utility.AdjacentInBounds | src/utility.py:39-45 | every entry is a grid cell at most one step from the centre, not the centre, with its grid value |
| Utility.AdjacentRowMajor | src/utility.py:40-44 | entries come in row-major order, so no position is listed twice |
| Utility.AdjacentLength | src/utility.py:40-44 | the list has (window height) * (window width) - 1 entries, at most 8 |
| Utility.NeighbourCount | src/utility.py:40-44 | on a grid of at least 3 by 3: 3 neighbours at a corner, 5 on an edge, 8 inside |
| Utility.MineQuota | src/minesweeper.py:12 | the quota n is the floor of rows*cols*num/den: n*den <= rows*cols*num < (n+1)*den; it is 0 on an empty grid |
| Utility.QuotaFits | src/minesweeper.py:12 | with pct at most 1 the quota is at most the number of cells |
| Utility.FilledCount | src/minesweeper.py:13-14 | a grid filled with one character holds none of any other |
| Utility.SetCellCount | src/minesweeper.py:37-40 | writing one cell changes the count of a character by the old and the new value only |
| Utility.CountMinesZero | src/minesweeper.py:46-49 | the mine count of a neighbour list is 0 exactly when no entry is a mine, and never exceeds the list length |
| Utility.CountMinesAppend | src/minesweeper.py:46-49 | the mine count of two lists put together is the sum of their counts |
| Utility.AdjacentSameMines | src/minesweeper.py:43-50 | two grids with the same mines give every cell the same neighbouring-mine count, so numbering in place does not change later counts |
| Minesweeper.MarkerRoundTrip | src/minesweeper.py:50 | the marker of k reads back as k, is blank exactly for 0, and is never a mine, hidden or flag character |
| Minesweeper.NeighbourMines | src/minesweeper.py:46-49 | the count is at most 8, and 0 exactly when no neighbour is a mine |
| Minesweeper.CountMineEntries | src/minesweeper.py:46-49 | the counting loop returns the number of entries whose value is a mine |
| Minesweeper.NumberedSameMines | src/minesweeper.py:43-50 | numbering moves no mine and creates none |
| Minesweeper.NumberedMeaning | src/minesweeper.py:43-50 | after numbering, a formerly blank cell reads as the count of mines around it on the numbered grid; other cells are unchanged |
| Minesweeper.NumberedWellNumbered | src/minesweeper.py:43-50 | numbering a grid of mines and blanks leaves every non-mine holding its own count's marker |
| Minesweeper.NumberedCornersExample | src/minesweeper.py:43-50 | a 3-by-3 grid with mines in two opposite corners numbers its centre '2' |
| Minesweeper.Board.constructor | src/minesweeper.py:8-15 | the board has the given shape, size rows*cols and the quota as mine count; truth grid blank, visible grid hidden, nothing revealed |
| Minesweeper.Board.GenerateBoard | src/minesweeper.py:17-52 | the three outcomes below; also: existing mines are kept, the zone around the first cell gains no mine, and a generated board is well numbered |
| Minesweeper.Board.PlaceMines | src/minesweeper.py:27-40 | old mines are kept; the zone is untouched; mines placed + mines left == quota; on success every cell outside the zone is a mine or a blank; a first cell outside the grid fails before any change |
| Minesweeper.Board.PlacementPass | src/minesweeper.py:30-40 | one sweep of the grid: the same invariants, every cell outside the zone decided, and failure only for a first cell outside the grid |
| Minesweeper.Board.PlacementRow | src/minesweeper.py:31-40 | one row of the sweep keeps the same invariants and decides every cell of the row outside the zone; a first cell outside the grid fails at the first cell that is not a mine |
| Minesweeper.Board.PlaceCell | src/minesweeper.py:32-40 | one cell: a non-mine outside the zone becomes a mine or a blank and the mines left drop by the mines placed; a mine or a zone cell is skipped; a first cell outside the grid fails without change |
| Minesweeper.Board.NumberCells | src/minesweeper.py:42-50 | the truth grid becomes `Numbered` of the placed grid, counted with the neighbour list |
| Minesweeper.NumberStep | src/minesweeper.py:45-50 | one cell of the numbering pass: the counts on the half-numbered grid equal those on the placed grid, and writing the cell moves the boundary between numbered and placed cells on by one, with the mines unchanged |
| Minesweeper.Board.RevealCell | src/minesweeper.py:84-111 | see the Board.RevealCell list below |
| Minesweeper.Board.Uncover | src/minesweeper.py:97-105 | appends the cell to the visited list, shows its truth value, counts it once, and shrinks the unvisited set |
| Minesweeper.MineAmong | src/minesweeper.py:107 | the test is true exactly when some listed neighbour is a mine |
| Minesweeper.Board.RevealAround | src/minesweeper.py:110-111 | every listed neighbour ends up visited, with the same safety and closure guarantees; each newly visited cell is a neighbour of the expanding centre or of an earlier new cell that has no mine next to it |
| Minesweeper.NeighboursAreAdjacent | src/utility.py:39-45 | the positions in the neighbour enumeration are exactly the up to eight grid cells around the centre |
| Minesweeper.ReachedStep | src/minesweeper.py:110-111 | revealing one more neighbour of the centre keeps every new cell reachable from the centre |
| Minesweeper.ReachedSpread | src/minesweeper.py:107-111 | a reveal that went past its first cell only because that cell has no neighbouring mine spreads from it |
| Minesweeper.RevealStopsAtNumberExample | src/minesweeper.py:107-111 | on a row starting ' ', '1', 'X', any visited list that spreads and closes as RevealCell promises, starting at (0, 0), is exactly (0, 0) and (0, 1) |
| Minesweeper.RevealCompose | src/minesweeper.py:110-111 | two successive reveals compose: what each shows, the safety and the closure hold for the whole |
| Minesweeper.RevealKeepsView | src/minesweeper.py:104 | a reveal keeps the visible grid consistent with the truth grid and the visited list |
| Minesweeper.ShownMineWasRevealed | src/minesweeper.py:150 | on a consistent board a visible mine is a real mine that was visited |
| Minesweeper.PyIndex | src/minesweeper.py:123 | a Python index in [-n, n) names the slot i or i + n, inside [0, n) |
| Minesweeper.Board.FlagCell | src/minesweeper.py:113-123 | succeeds exactly for Python-valid indices (negatives count from the end) and writes '@' there; otherwise nothing changes; view consistency is kept |
| Minesweeper.Player.constructor | src/minesweeper.py:127-130 | the player watches the given board; neither over nor won |
| Minesweeper.Player.CheckGameState | src/minesweeper.py:148-151 | game over exactly when some visible cell is a mine; won exactly when the counter equals cells minus mines |
| Minesweeper.SafeCellsCard | src/minesweeper.py:151 | a grid has rows*cols minus its mine count non-mine cells |
| Minesweeper.DistinctCard | src/minesweeper.py:99-102 | a visited list without repeats has as many positions as entries |
| Minesweeper.WinMeansAllSafeRevealed | src/minesweeper.py:149-151 | with no mine revealed and the quota placed, the count test holds exactly when every non-mine cell is revealed |
| Prototype.ProtoBoard.constructor | minesweeper.py:6-11 | shape, quota and a blank truth grid |
| Prototype.ProtoBoard.GenerateBoard | minesweeper.py:13-36 | mines are kept, other cells become mines or 'E'; once the loop ends, exactly the quota has been added (so a fresh board holds the quota); a zero quota changes nothing; after one pass every cell is a mine or 'E' |
| Prototype.ProtoBoard.Pass | minesweeper.py:24-32 | one sweep decides every cell; mines placed + mines left == quota |
| Prototype.DecideStep | minesweeper.py:26-32 | deciding one cell keeps the placement invariants |

`Minesweeper.Board.GenerateBoard` has three outcomes:
- a first cell outside the grid fails and changes nothing;
- on a fresh board that failure happens exactly when mines are due;
- success adds exactly the quota, so a fresh board holds the quota.

`Minesweeper.Board.RevealCell`:
- succeeds exactly inside the grid;
- is a no-op outside the grid and on a visited cell;
- otherwise appends the cell to the visited list;
- newly visited cells show their truth value and nothing else changes;
- the counter grows by the number of newly visited cells;
- only the chosen cell can be a mine;
- every new cell without neighbouring mines has all its neighbours visited;
- every new cell after the first is a neighbour of an earlier new cell that has no mine next to it. So the reveal stops at numbered cells, and together with the previous point the new cells are exactly the region the flood fill reaches;
- view consistency is kept.

## Left out

- Display (`show_board`, `show_real_board`), input (`get_input`), the game loop and the test script are I/O and are not part of this model.
- `random()` is an arbitrary parameter, and `pct_mines` is a rational rather than a float.
- The type assertion in `adjacent_cells` (all cells are strings) holds by the type `seq<seq<char>>`. `is_2d_array`'s `isinstance` tests hold by typing too.
- Minesweeper.Board.GenerateBoard: the source's placement loop repeats until every mine is placed and never ends when the quota does not fit outside the zone. The model makes at most `passes` passes and reports `PlacementUnfinished`.
- Prototype.ProtoBoard.GenerateBoard: the same pass budget replaces the unbounded loop.
- Prototype.ProtoBoard.constructor: `player_board = self.real_board.copy` stores a method object, not a grid. The model has no player grid for the prototype.
- Minesweeper.Board.RevealCell: a cell outside the grid makes the source raise an IndexError or an AssertionError. For a negative row the visited list is extended first. The model refuses such cells and changes nothing.
- Minesweeper.Board.RevealCell: `visited_cells` is a mutable default argument shared by every call in the process. The model keeps it as a field of the board. This is the same thing for the one board the game creates.
- Minesweeper.Board.RevealCell: the source recurses once per step of the depth-first search. Python's default recursion limit is 1000, so a large board with few mines raises RecursionError; `Board([40, 40], 0)` followed by `reveal_cell(0, 0)` is one such case. The model has no stack limit and always completes the reveal.
- Minesweeper.Board.RevealCell: the source's visited entries also carry the cell value. The truth grid does not change between reveals, so the model keeps positions only.

Where the code and the natural-language description of the game differ, the model follows the code:
- A revealed mine is counted in `n_revealed_cells`.
- A revealed mine with no mine next to it starts a flood fill.
- The visited list lives across reveal calls, not one call.
- Flagging always writes `'@'`. It does not toggle, and it also hides a revealed cell.
- The win test compares counts only.
- An infeasible mine count does not raise an error; it loops forever.

## Findings

| source | as written | input that shows it | evidently intended | confidence | as-written member | corrected member |
|---|---|---|---|---|---|---|
| src/utility.py:36-37 | the bound checks use `row <= rows` and `col <= cols` | `adjacent_cells(m, len(m), 0)` passes the guard and lists cells of the last row as neighbours of a cell that does not exist | the centre must lie inside the grid: `row < rows`, `col < cols` | not executed | Utility.AsWrittenAcceptsRowPastEnd | Utility.AdjacentCells |
