/**
 * Tables (`table.rs`): cells with row and column spans, rows, and the
 * placement grid that resolves spans into origins and covered positions.
 *
 * The Rust `TableGrid` holds raw pointers to cells; here a grid position
 * names its cell by row and position within that row (`CellRef`).
 */
module Tables {
  import opened Wrappers

  datatype Cell = Cell(columnIndex: nat, rowIndex: nat, colSpan: nat, rowSpan: nat)

  /** `TableCell::new`: a one-by-one cell. */
  function NewCell(columnIndex: nat, rowIndex: nat): (r: Cell)
    ensures r.colSpan == 1 && r.rowSpan == 1
    ensures r.columnIndex == columnIndex && r.rowIndex == rowIndex
  {
    Cell(columnIndex, rowIndex, 1, 1)
  }

  /** `with_col_span`: a requested span of 0 becomes 1; nothing else changes. */
  function WithColSpan(c: Cell, span: nat): (r: Cell)
    ensures r.colSpan >= 1
    ensures span >= 1 ==> r.colSpan == span
    ensures r == c.(colSpan := r.colSpan)
  {
    c.(colSpan := if span >= 1 then span else 1)
  }

  /** `with_row_span`: a requested span of 0 becomes 1; nothing else changes. */
  function WithRowSpan(c: Cell, span: nat): (r: Cell)
    ensures r.rowSpan >= 1
    ensures span >= 1 ==> r.rowSpan == span
    ensures r == c.(rowSpan := r.rowSpan)
  {
    c.(rowSpan := if span >= 1 then span else 1)
  }

  datatype Row = Row(cells: seq<Cell>, height: real)

  const EmptyRow := Row([], 0.0)

  function AddCell(row: Row, c: Cell): (r: Row)
    ensures r.cells == row.cells + [c] && r.height == row.height
  {
    row.(cells := row.cells + [c])
  }

  /** The sum of the column spans of `cells`. */
  function SpanSum(cells: seq<Cell>): nat
  {
    if cells == [] then 0 else SpanSum(cells[..|cells| - 1]) + cells[|cells| - 1].colSpan
  }

  /** `visible_cell_count`. */
  function VisibleCellCount(row: Row): nat
  {
    SpanSum(row.cells)
  }

  /** Adding a cell adds its column span to the visible count. */
  lemma VisibleCellCountAdd(row: Row, c: Cell)
    ensures VisibleCellCount(AddCell(row, c)) == VisibleCellCount(row) + c.colSpan
  {
    assert AddCell(row, c).cells[..|row.cells|] == row.cells;
  }

  /** With every span at least 1 there are at least as many visible cells as cells. */
  lemma {:induction false} VisibleCellCountAtLeast(cells: seq<Cell>)
    requires forall i | 0 <= i < |cells| :: cells[i].colSpan >= 1
    ensures SpanSum(cells) >= |cells|
    ensures SpanSum(cells) == |cells| <==> forall i | 0 <= i < |cells| :: cells[i].colSpan == 1
  {
    if cells != [] {
      var init := cells[..|cells| - 1];
      VisibleCellCountAtLeast(init);
      assert forall i | 0 <= i < |init| :: init[i] == cells[i];
    }
  }

  datatype WidthType = Fixed | Auto | Percent

  datatype Column = Column(index: nat, width: real, preferredWidth: real, widthType: WidthType)

  datatype Table = Table(rows: seq<Row>, columns: seq<Column>)

  // ---------------------------------------------------------------
  // The grid
  // ---------------------------------------------------------------

  /** The `index`-th cell of row `row` of the table. */
  datatype CellRef = CellRef(row: nat, index: nat)

  /**
   * A grid position: untouched, the origin of a placed cell, or covered
   * by a spanning cell.  The three Rust fields only ever take these
   * three shapes.
   */
  datatype GridCell = Vacant | Origin(placed: CellRef) | Covered(coveringCell: CellRef)

  datatype Grid = Grid(
    cells: seq<seq<GridCell>>, rowCount: nat, columnCount: nat,
    rowHeights: seq<real>, columnWidths: seq<real>)

  /** `rowCount` rows of `columnCount` positions each. */
  predicate Shaped(cells: seq<seq<GridCell>>, rowCount: nat, columnCount: nat)
  {
    |cells| == rowCount && forall r | 0 <= r < |cells| :: |cells[r]| == columnCount
  }

  predicate WellShaped(g: Grid)
  {
    Shaped(g.cells, g.rowCount, g.columnCount)
    && |g.rowHeights| == g.rowCount && |g.columnWidths| == g.columnCount
  }

  predicate ValidRef(t: Table, ref: CellRef)
  {
    ref.row < |t.rows| && ref.index < |t.rows[ref.row].cells|
  }

  function CellAt(t: Table, ref: CellRef): Cell
    requires ValidRef(t, ref)
  {
    t.rows[ref.row].cells[ref.index]
  }

  /**
   * Every reference in the grid names a cell of the table; an origin
   * sits in its cell's own row, and a covered position lies in one of
   * the rows its covering cell spans.
   */
  predicate RefsValid(t: Table, cells: seq<seq<GridCell>>)
  {
    forall r, c | 0 <= r < |cells| && 0 <= c < |cells[r]| :: RefOk(t, cells[r][c], r)
  }

  /** What a valid reference at a position of row `r` looks like. */
  predicate RefOk(t: Table, g: GridCell, r: nat)
  {
    match g
    case Vacant => true
    case Origin(ref) => ValidRef(t, ref) && ref.row == r
    case Covered(ref) => ValidRef(t, ref) && ref.row <= r < ref.row + CellAt(t, ref).rowSpan
  }

  /** The grid position at row `r`, column `c`. */
  function At(cells: seq<seq<GridCell>>, r: nat, c: nat): GridCell
    requires r < |cells| && c < |cells[r]|
  {
    cells[r][c]
  }

  /**
   * `RefsValid` read through `At`: the placement proofs use this form,
   * whose quantifier only fires on the positions a proof names.
   */
  predicate GridRefsOk(t: Table, cells: seq<seq<GridCell>>)
  {
    forall r, c | 0 <= r < |cells| && 0 <= c < |cells[r]| :: RefOk(t, At(cells, r, c), r)
  }

  lemma GridRefsOkIsRefsValid(t: Table, cells: seq<seq<GridCell>>)
    ensures GridRefsOk(t, cells) <==> RefsValid(t, cells)
  {
    if GridRefsOk(t, cells) {
      forall r, c | 0 <= r < |cells| && 0 <= c < |cells[r]|
        ensures RefOk(t, cells[r][c], r)
      {
        assert RefOk(t, At(cells, r, c), r);
      }
    }
    if RefsValid(t, cells) {
      forall r, c | 0 <= r < |cells| && 0 <= c < |cells[r]|
        ensures RefOk(t, At(cells, r, c), r)
      {
        assert RefOk(t, cells[r][c], r);
      }
    }
  }

  /**
   * The first column at or after `col` that is not covered, or
   * `columnCount` when there is none (the `while` of the placement loop).
   */
  function NextFree(row: seq<GridCell>, col: nat, columnCount: nat): (r: nat)
    requires |row| == columnCount
    ensures col <= r
    ensures r < columnCount ==> !row[r].Covered?
    ensures col < columnCount ==> r <= columnCount
    ensures forall k | col <= k < r :: k < columnCount && row[k].Covered?
    decreases columnCount - col
  {
    if col < columnCount && row[col].Covered? then NextFree(row, col + 1, columnCount) else col
  }

  /**
   * Puts cell `ref` (which is `c`) at row `r0`, column `c0`, and covers
   * every other in-bounds position of its span.
   */
  function Place(cells: seq<seq<GridCell>>, r0: nat, c0: nat, c: Cell, ref: CellRef): (r: seq<seq<GridCell>>)
    ensures |r| == |cells| && forall i | 0 <= i < |r| :: |r[i]| == |cells[i]|
  {
    seq(|cells|, i requires 0 <= i < |cells| => PlaceInRow(cells[i], i, r0, c0, c, ref))
  }

  /** Row `i` of the grid after placing a cell. */
  function PlaceInRow(row: seq<GridCell>, i: nat, r0: nat, c0: nat, c: Cell, ref: CellRef): (r: seq<GridCell>)
    ensures |r| == |row|
  {
    seq(|row|, j requires 0 <= j < |row| =>
      if i == r0 && j == c0 then Origin(ref)
      else if r0 <= i < r0 + c.rowSpan && c0 <= j < c0 + c.colSpan then Covered(ref)
      else row[j])
  }

  /** What placing a cell does to each position. */
  lemma PlaceEffect(cells: seq<seq<GridCell>>, r0: nat, c0: nat, c: Cell, ref: CellRef, i: nat, j: nat)
    requires i < |cells| && j < |cells[i]|
    ensures i == r0 && j == c0 ==> Place(cells, r0, c0, c, ref)[i][j] == Origin(ref)
    ensures (i != r0 || j != c0) && r0 <= i < r0 + c.rowSpan && c0 <= j < c0 + c.colSpan ==>
      Place(cells, r0, c0, c, ref)[i][j] == Covered(ref)
    ensures !(r0 <= i < r0 + c.rowSpan && c0 <= j < c0 + c.colSpan) && (i != r0 || j != c0) ==>
      Place(cells, r0, c0, c, ref)[i][j] == cells[i][j]
  {
  }

  lemma PlaceKeepsRefsOk(t: Table, cells: seq<seq<GridCell>>, r0: nat, c0: nat, ref: CellRef)
    requires GridRefsOk(t, cells) && ValidRef(t, ref) && ref.row == r0
    ensures GridRefsOk(t, Place(cells, r0, c0, CellAt(t, ref), ref))
  {
    var placed := Place(cells, r0, c0, CellAt(t, ref), ref);
    forall r, c | 0 <= r < |placed| && 0 <= c < |placed[r]|
      ensures RefOk(t, At(placed, r, c), r)
    {
      PlaceEffect(cells, r0, c0, CellAt(t, ref), ref, r, c);
      assert RefOk(t, At(cells, r, c), r);
    }
  }

  /**
   * The placement loop over the cells of row `rowIdx` from the `i`-th
   * on, with running column `col`: each cell goes to the first free
   * column at or after `col`, and the running column then moves past its
   * span.  The loop stops once the running column leaves the grid.
   */
  function PlaceRow(t: Table, cells: seq<seq<GridCell>>, rowIdx: nat, i: nat, col: nat, columnCount: nat): (r: seq<seq<GridCell>>)
    requires rowIdx < |t.rows| && rowIdx < |cells| && Shaped(cells, |cells|, columnCount)
    requires i <= |t.rows[rowIdx].cells|
    ensures Shaped(r, |cells|, columnCount)
    decreases |t.rows[rowIdx].cells| - i
  {
    if i == |t.rows[rowIdx].cells| || col >= columnCount then cells
    else
      PlaceRow(t, PlaceNext(t, cells, rowIdx, i, col, columnCount), rowIdx, i + 1,
               NextFree(cells[rowIdx], col, columnCount) + t.rows[rowIdx].cells[i].colSpan, columnCount)
  }

  /** One turn of the placement loop: cell `i` goes to the first free column, if there is one. */
  function PlaceNext(t: Table, cells: seq<seq<GridCell>>, rowIdx: nat, i: nat, col: nat, columnCount: nat): (r: seq<seq<GridCell>>)
    requires rowIdx < |t.rows| && rowIdx < |cells| && Shaped(cells, |cells|, columnCount)
    requires i < |t.rows[rowIdx].cells|
    ensures Shaped(r, |cells|, columnCount)
  {
    var c := NextFree(cells[rowIdx], col, columnCount);
    if c < columnCount then Place(cells, rowIdx, c, t.rows[rowIdx].cells[i], CellRef(rowIdx, i)) else cells
  }

  lemma {:induction false} PlaceRowKeepsRefsOk(t: Table, cells: seq<seq<GridCell>>, rowIdx: nat, i: nat, col: nat, columnCount: nat)
    requires rowIdx < |t.rows| && rowIdx < |cells| && Shaped(cells, |cells|, columnCount)
    requires i <= |t.rows[rowIdx].cells|
    requires GridRefsOk(t, cells)
    ensures GridRefsOk(t, PlaceRow(t, cells, rowIdx, i, col, columnCount))
    decreases |t.rows[rowIdx].cells| - i
  {
    if i < |t.rows[rowIdx].cells| && col < columnCount {
      PlaceRowStepOk(t, cells, rowIdx, i, col, columnCount);
      PlaceRowKeepsRefsOk(t, PlaceNext(t, cells, rowIdx, i, col, columnCount), rowIdx, i + 1,
                          NextFree(cells[rowIdx], col, columnCount) + t.rows[rowIdx].cells[i].colSpan, columnCount);
    } else {
      PlaceRowDone(t, cells, rowIdx, i, col, columnCount);
    }
  }

  /** One turn of the loop keeps the references valid, so the rest of the loop may carry on from there. */
  lemma PlaceRowStepOk(t: Table, cells: seq<seq<GridCell>>, rowIdx: nat, i: nat, col: nat, columnCount: nat)
    requires rowIdx < |t.rows| && rowIdx < |cells| && Shaped(cells, |cells|, columnCount)
    requires i < |t.rows[rowIdx].cells| && col < columnCount && GridRefsOk(t, cells)
    ensures GridRefsOk(t, PlaceNext(t, cells, rowIdx, i, col, columnCount))
    ensures var next := PlaceRow(t, PlaceNext(t, cells, rowIdx, i, col, columnCount), rowIdx, i + 1,
                                 NextFree(cells[rowIdx], col, columnCount) + t.rows[rowIdx].cells[i].colSpan, columnCount);
      GridRefsOk(t, next) ==> GridRefsOk(t, PlaceRow(t, cells, rowIdx, i, col, columnCount))
  {
    PlaceNextKeeps(t, cells, rowIdx, i, col, columnCount);
    PlaceRowUnfold(t, cells, rowIdx, i, col, columnCount);
  }

  /** The placement loop stops at the end of the row or once the running column leaves the grid. */
  lemma PlaceRowDone(t: Table, cells: seq<seq<GridCell>>, rowIdx: nat, i: nat, col: nat, columnCount: nat)
    requires rowIdx < |t.rows| && rowIdx < |cells| && Shaped(cells, |cells|, columnCount)
    requires i == |t.rows[rowIdx].cells| || (i <= |t.rows[rowIdx].cells| && col >= columnCount)
    ensures PlaceRow(t, cells, rowIdx, i, col, columnCount) == cells
  {
  }

  lemma PlaceNextKeeps(t: Table, cells: seq<seq<GridCell>>, rowIdx: nat, i: nat, col: nat, columnCount: nat)
    requires rowIdx < |t.rows| && rowIdx < |cells| && Shaped(cells, |cells|, columnCount)
    requires i < |t.rows[rowIdx].cells| && GridRefsOk(t, cells)
    ensures GridRefsOk(t, PlaceNext(t, cells, rowIdx, i, col, columnCount))
  {
    var c := NextFree(cells[rowIdx], col, columnCount);
    if c < columnCount {
      PlaceKeepsRefsOk(t, cells, rowIdx, c, CellRef(rowIdx, i));
    }
  }

  /**
   * One step of the placement loop: the cell lands on the first
   * position at or after the running column that is not covered, and
   * the loop carries on from there with the grid `Place` leaves.
   */
  lemma PlaceRowStep(t: Table, cells: seq<seq<GridCell>>, rowIdx: nat, i: nat, col: nat, columnCount: nat)
    requires rowIdx < |t.rows| && rowIdx < |cells| && Shaped(cells, |cells|, columnCount)
    requires i < |t.rows[rowIdx].cells| && col < columnCount
    ensures var c := NextFree(cells[rowIdx], col, columnCount);
      var cell := t.rows[rowIdx].cells[i];
      (forall k | col <= k < c :: cells[rowIdx][k].Covered?)
      && (c < columnCount ==>
            !cells[rowIdx][c].Covered?
            && PlaceRow(t, cells, rowIdx, i, col, columnCount)
               == PlaceRow(t, Place(cells, rowIdx, c, cell, CellRef(rowIdx, i)), rowIdx, i + 1, c + cell.colSpan, columnCount))
      && (c == columnCount ==> PlaceRow(t, cells, rowIdx, i, col, columnCount) == cells)
  {
    var c := NextFree(cells[rowIdx], col, columnCount);
    var cell := t.rows[rowIdx].cells[i];
    PlaceRowUnfold(t, cells, rowIdx, i, col, columnCount);
    if c == columnCount {
      PlaceRowDone(t, cells, rowIdx, i + 1, c + cell.colSpan, columnCount);
    }
  }

  lemma PlaceRowUnfold(t: Table, cells: seq<seq<GridCell>>, rowIdx: nat, i: nat, col: nat, columnCount: nat)
    requires rowIdx < |t.rows| && rowIdx < |cells| && Shaped(cells, |cells|, columnCount)
    requires i < |t.rows[rowIdx].cells| && col < columnCount
    ensures PlaceRow(t, cells, rowIdx, i, col, columnCount)
            == PlaceRow(t, PlaceNext(t, cells, rowIdx, i, col, columnCount), rowIdx, i + 1,
                        NextFree(cells[rowIdx], col, columnCount) + t.rows[rowIdx].cells[i].colSpan, columnCount)
  {
  }

  /** An all-vacant grid of the given size. */
  function VacantCells(rowCount: nat, columnCount: nat): (r: seq<seq<GridCell>>)
    ensures Shaped(r, rowCount, columnCount)
    ensures forall i, j | 0 <= i < rowCount && 0 <= j < columnCount :: r[i][j] == Vacant
  {
    seq(rowCount, _ => seq(columnCount, _ => Vacant))
  }

  /** Places the rows from `rowIdx` on, each with its running column starting at 0. */
  function PlaceRows(t: Table, cells: seq<seq<GridCell>>, rowIdx: nat): (r: seq<seq<GridCell>>)
    requires Shaped(cells, |t.rows|, |t.columns|) && rowIdx <= |t.rows|
    ensures Shaped(r, |t.rows|, |t.columns|)
    decreases |t.rows| - rowIdx
  {
    if rowIdx == |t.rows| then cells
    else PlaceRows(t, PlaceRow(t, cells, rowIdx, 0, 0, |t.columns|), rowIdx + 1)
  }

  lemma PlaceRowsKeepsRefsValid(t: Table, cells: seq<seq<GridCell>>, rowIdx: nat)
    requires Shaped(cells, |t.rows|, |t.columns|) && rowIdx <= |t.rows| && RefsValid(t, cells)
    ensures RefsValid(t, PlaceRows(t, cells, rowIdx))
  {
    GridRefsOkIsRefsValid(t, cells);
    PlaceRowsKeepsRefsOk(t, cells, rowIdx);
    GridRefsOkIsRefsValid(t, PlaceRows(t, cells, rowIdx));
  }

  lemma {:induction false} PlaceRowsKeepsRefsOk(t: Table, cells: seq<seq<GridCell>>, rowIdx: nat)
    requires Shaped(cells, |t.rows|, |t.columns|) && rowIdx <= |t.rows| && GridRefsOk(t, cells)
    ensures GridRefsOk(t, PlaceRows(t, cells, rowIdx))
    decreases |t.rows| - rowIdx
  {
    if rowIdx < |t.rows| {
      PlaceRowKeepsRefsOk(t, cells, rowIdx, 0, 0, |t.columns|);
      PlaceRowsKeepsRefsOk(t, PlaceRow(t, cells, rowIdx, 0, 0, |t.columns|), rowIdx + 1);
    }
  }

  /** `TableGrid::new`. */
  function NewGrid(t: Table): (g: Grid)
    ensures WellShaped(g) && g.rowCount == |t.rows| && g.columnCount == |t.columns|
    ensures forall i | 0 <= i < g.rowCount :: g.rowHeights[i] == 0.0
    ensures forall j | 0 <= j < g.columnCount :: g.columnWidths[j] == 0.0
  {
    var cells := PlaceRows(t, VacantCells(|t.rows|, |t.columns|), 0);
    Grid(cells, |t.rows|, |t.columns|, seq(|t.rows|, _ => 0.0), seq(|t.columns|, _ => 0.0))
  }

  /** Every position of a freshly built grid names a real cell of the table. */
  lemma NewGridRefsValid(t: Table)
    ensures RefsValid(t, NewGrid(t).cells)
  {
    PlaceRowsKeepsRefsValid(t, VacantCells(|t.rows|, |t.columns|), 0);
  }

  // ---------------------------------------------------------------
  // Queries and setters
  // ---------------------------------------------------------------

  predicate InBounds(g: Grid, row: nat, col: nat)
  {
    row < g.rowCount && col < g.columnCount
  }

  /** `get_cell`: the cell whose origin is at the position. */
  function GetCell(t: Table, g: Grid, row: nat, col: nat): (r: Option<Cell>)
    requires WellShaped(g) && RefsValid(t, g.cells)
    ensures r.Some? <==> InBounds(g, row, col) && g.cells[row][col].Origin?
    ensures r.Some? ==> r.value == CellAt(t, g.cells[row][col].placed) && g.cells[row][col].placed.row == row
  {
    if InBounds(g, row, col) && g.cells[row][col].Origin? then Some(CellAt(t, g.cells[row][col].placed)) else None
  }

  /** `get_covering_cell`: the spanning cell over a covered position, else `get_cell`. */
  function GetCoveringCell(t: Table, g: Grid, row: nat, col: nat): (r: Option<Cell>)
    requires WellShaped(g) && RefsValid(t, g.cells)
    ensures r.Some? <==> InBounds(g, row, col) && !g.cells[row][col].Vacant?
    ensures !IsCovered(g, row, col) ==> r == GetCell(t, g, row, col)
  {
    if !InBounds(g, row, col) then None
    else match g.cells[row][col]
      case Covered(ref) => Some(CellAt(t, ref))
      case _ => GetCell(t, g, row, col)
  }

  /** `is_covered`: positions outside the grid count as covered. */
  function IsCovered(g: Grid, row: nat, col: nat): (r: bool)
    requires WellShaped(g)
    ensures !InBounds(g, row, col) ==> r
  {
    if InBounds(g, row, col) then g.cells[row][col].Covered? else true
  }

  /** A position never has a cell of its own and a covering cell at once. */
  lemma GetCellExcludesCovered(t: Table, g: Grid, row: nat, col: nat)
    requires WellShaped(g) && RefsValid(t, g.cells)
    ensures GetCell(t, g, row, col).Some? ==> !IsCovered(g, row, col)
    ensures IsCovered(g, row, col) ==> GetCell(t, g, row, col).None?
  {
  }

  /** A covering cell spans the row of the position it covers. */
  lemma CoveringCellSpansRow(t: Table, g: Grid, row: nat, col: nat)
    requires WellShaped(g) && RefsValid(t, g.cells)
    requires InBounds(g, row, col) && g.cells[row][col].Covered?
    ensures var ref := g.cells[row][col].coveringCell;
      GetCoveringCell(t, g, row, col) == Some(CellAt(t, ref)) && ref.row <= row < ref.row + CellAt(t, ref).rowSpan
  {
  }

  /** `set_row_height`: ignored out of range. */
  function SetRowHeight(g: Grid, row: nat, height: real): (r: Grid)
    requires WellShaped(g)
    ensures WellShaped(r)
    ensures |r.rowHeights| == g.rowCount
    ensures row >= g.rowCount ==> r == g
    ensures row < g.rowCount ==> r.rowHeights[row] == height && r.(rowHeights := g.rowHeights) == g
    ensures forall k | 0 <= k < g.rowCount && k != row :: r.rowHeights[k] == g.rowHeights[k]
  {
    if row < g.rowCount then g.(rowHeights := g.rowHeights[row := height]) else g
  }

  /** `set_column_width`: ignored out of range. */
  function SetColumnWidth(g: Grid, col: nat, width: real): (r: Grid)
    requires WellShaped(g)
    ensures WellShaped(r)
    ensures |r.columnWidths| == g.columnCount
    ensures col >= g.columnCount ==> r == g
    ensures col < g.columnCount ==> r.columnWidths[col] == width && r.(columnWidths := g.columnWidths) == g
    ensures forall k | 0 <= k < g.columnCount && k != col :: r.columnWidths[k] == g.columnWidths[k]
  {
    if col < g.columnCount then g.(columnWidths := g.columnWidths[col := width]) else g
  }

  /** A height set in range reads back; nothing else about the grid changes. */
  lemma SetRowHeightEffect(g: Grid, row: nat, height: real, k: nat)
    requires WellShaped(g)
    ensures row >= g.rowCount ==> SetRowHeight(g, row, height) == g
    ensures row < g.rowCount ==> SetRowHeight(g, row, height).rowHeights[row] == height
    ensures k < g.rowCount && k != row ==> SetRowHeight(g, row, height).rowHeights[k] == g.rowHeights[k]
    ensures SetRowHeight(g, row, height) == g.(rowHeights := SetRowHeight(g, row, height).rowHeights)
  {
  }

  lemma SetColumnWidthEffect(g: Grid, col: nat, width: real, k: nat)
    requires WellShaped(g)
    ensures col >= g.columnCount ==> SetColumnWidth(g, col, width) == g
    ensures col < g.columnCount ==> SetColumnWidth(g, col, width).columnWidths[col] == width
    ensures k < g.columnCount && k != col ==> SetColumnWidth(g, col, width).columnWidths[k] == g.columnWidths[k]
    ensures SetColumnWidth(g, col, width) == g.(columnWidths := SetColumnWidth(g, col, width).columnWidths)
  {
  }
  // ---------------------------------------------------------------
  // Examples from the Rust unit tests
  // ---------------------------------------------------------------

  function Columns(n: nat): (r: seq<Column>)
    ensures |r| == n
  {
    seq(n, i requires 0 <= i < n => Column(i, 100.0, 100.0, Fixed))
  }

  /**
   * A one-row table over two columns whose second cell spans two
   * columns: the spanning cell has its origin at column 1, and only the
   * out-of-bounds column 2 would have been covered.
   */
  const ColSpanTable := Table([Row([NewCell(0, 0), WithColSpan(NewCell(1, 0), 2)], 0.0)], Columns(2))

  lemma ColSpanExample()
    ensures NewGrid(ColSpanTable).cells == [[Origin(CellRef(0, 0)), Origin(CellRef(0, 1))]]
  {
    var t := ColSpanTable;
    var v := VacantCells(1, 2);
    var g1 := Place(v, 0, 0, t.rows[0].cells[0], CellRef(0, 0));
    assert g1 == [[Origin(CellRef(0, 0)), Vacant]] by {
      assert g1[0][0] == Origin(CellRef(0, 0)) && g1[0][1] == Vacant;
      assert g1[0] == [Origin(CellRef(0, 0)), Vacant];
    }
    assert NextFree(v[0], 0, 2) == 0;
    assert NextFree(g1[0], 1, 2) == 1;
    var g2 := Place(g1, 0, 1, t.rows[0].cells[1], CellRef(0, 1));
    assert g2 == [[Origin(CellRef(0, 0)), Origin(CellRef(0, 1))]] by {
      assert g2[0][0] == Origin(CellRef(0, 0)) && g2[0][1] == Origin(CellRef(0, 1));
      assert g2[0] == [Origin(CellRef(0, 0)), Origin(CellRef(0, 1))];
    }
    PlaceRowStep(t, v, 0, 0, 0, 2);
    PlaceRowStep(t, g1, 0, 1, 1, 2);
    assert PlaceRow(t, g2, 0, 2, 3, 2) == g2;
  }
  /**
   * Two columns; the first cell of row 0 spans two rows, and row 1 has
   * one cell: that cell skips the covered column 0 and lands in column 1.
   */
  const RowSpanTable := Table(
    [Row([WithRowSpan(NewCell(0, 0), 2), NewCell(1, 0)], 0.0), Row([NewCell(1, 1)], 0.0)], Columns(2))

  lemma RowSpanExample()
    ensures NewGrid(RowSpanTable).cells
      == [[Origin(CellRef(0, 0)), Origin(CellRef(0, 1))], [Covered(CellRef(0, 0)), Origin(CellRef(1, 0))]]
  {
    var t := RowSpanTable;
    var v := VacantCells(2, 2);
    var g1 := Place(v, 0, 0, t.rows[0].cells[0], CellRef(0, 0));
    assert g1 == [[Origin(CellRef(0, 0)), Vacant], [Covered(CellRef(0, 0)), Vacant]] by {
      assert g1[0][0] == Origin(CellRef(0, 0)) && g1[0][1] == Vacant;
      assert g1[1][0] == Covered(CellRef(0, 0)) && g1[1][1] == Vacant;
      assert g1[0] == [Origin(CellRef(0, 0)), Vacant];
      assert g1[1] == [Covered(CellRef(0, 0)), Vacant];
    }
    var g2 := Place(g1, 0, 1, t.rows[0].cells[1], CellRef(0, 1));
    assert g2 == [[Origin(CellRef(0, 0)), Origin(CellRef(0, 1))], [Covered(CellRef(0, 0)), Vacant]] by {
      assert g2[0][0] == Origin(CellRef(0, 0)) && g2[0][1] == Origin(CellRef(0, 1));
      assert g2[1][0] == Covered(CellRef(0, 0)) && g2[1][1] == Vacant;
      assert g2[0] == [Origin(CellRef(0, 0)), Origin(CellRef(0, 1))];
      assert g2[1] == [Covered(CellRef(0, 0)), Vacant];
    }
    var g3 := Place(g2, 1, 1, t.rows[1].cells[0], CellRef(1, 0));
    assert g3 == [[Origin(CellRef(0, 0)), Origin(CellRef(0, 1))], [Covered(CellRef(0, 0)), Origin(CellRef(1, 0))]] by {
      assert g3[0][0] == Origin(CellRef(0, 0)) && g3[0][1] == Origin(CellRef(0, 1));
      assert g3[1][0] == Covered(CellRef(0, 0)) && g3[1][1] == Origin(CellRef(1, 0));
      assert g3[0] == [Origin(CellRef(0, 0)), Origin(CellRef(0, 1))];
      assert g3[1] == [Covered(CellRef(0, 0)), Origin(CellRef(1, 0))];
    }
    assert NextFree(v[0], 0, 2) == 0;
    assert NextFree(g1[0], 1, 2) == 1;
    assert NextFree(g2[1], 0, 2) == 1;
    PlaceRowStep(t, v, 0, 0, 0, 2);
    PlaceRowStep(t, g1, 0, 1, 1, 2);
    assert PlaceRow(t, g2, 0, 2, 2, 2) == g2;
    PlaceRowStep(t, g2, 1, 0, 0, 2);
    assert PlaceRow(t, g3, 1, 1, 2, 2) == g3;
    assert PlaceRows(t, v, 0) == PlaceRows(t, g2, 1);
    assert PlaceRows(t, g2, 1) == PlaceRows(t, g3, 2);
  }
  /** A plain cell and a two-column cell make three visible cells. */
  lemma VisibleCellCountExample()
    ensures VisibleCellCount(ColSpanTable.rows[0]) == 3
  {
    VisibleCellCountAdd(AddCell(EmptyRow, NewCell(0, 0)), WithColSpan(NewCell(1, 0), 2));
    VisibleCellCountAdd(EmptyRow, NewCell(0, 0));
    assert ColSpanTable.rows[0].cells == AddCell(AddCell(EmptyRow, NewCell(0, 0)), WithColSpan(NewCell(1, 0), 2)).cells;
  }
}
