/** The first half of getTabela, the same in both Apps: the text of every <td>
    of every <tr> is copied into a fixed two-dimensional String array, indexed
    [row][cell]. A Java String[][] starts out all null; here a grid cell is an
    Option, None standing for null. */
module Grid {
  import opened Failures
  import Text

  /** One HTML table: for each <tr>, in document order, the text of its <td> cells. */
  type Table = seq<seq<string>>

  /** The copy loop reads cells 0..8 of every row. */
  const CELLS_COPIED: nat := 9

  /** Both Apps' COLUNAS_TABELA and LINHAS_TABELA: the walk visits columns
      1..8 and rows 1..12. */
  const COLUNAS_TABELA: nat := 9
  const LINHAS_TABELA: nat := 13

  /** The fill loop from row i on ends in an exception (Some) or completes (None):
      a row index at or past the grid's height overruns the array, and a row
      with fewer than nine cells makes Elements.get throw. */
  function FillError(rows: Table, height: nat, i: nat): (r: Option<Error>)
    requires i <= |rows|
    ensures r.None? <==> (i == |rows| || |rows| <= height) && forall k :: i <= k < |rows| ==> |rows[k]| >= CELLS_COPIED
    ensures r.Some? ==> r.value == ArrayOverrun || r.value == MissingCell
    decreases |rows| - i
  {
    if i == |rows| then None
    else if i >= height then Some(ArrayOverrun)
    else if |rows[i]| < CELLS_COPIED then Some(MissingCell)
    else FillError(rows, height, i + 1)
  }

  /** Every row has the nine cells the copy loop reads. */
  predicate Wide(rows: Table) {
    forall k :: 0 <= k < |rows| ==> |rows[k]| >= CELLS_COPIED
  }

  /** A table the fill loop copies without an exception. */
  predicate Filled(rows: Table, height: nat) {
    |rows| <= height && Wide(rows)
  }

  /** What a completed fill leaves in grid cell [r][c]. */
  function CellAt(rows: Table, r: nat, c: nat): Option<string>
    requires Wide(rows)
  {
    if r < |rows| && c < CELLS_COPIED then Some(rows[r][c]) else None
  }

  ghost predicate Holds(grid: array2<Option<string>>, rows: Table)
    reads grid
  {
    && Filled(rows, grid.Length0)
    && forall r, c :: 0 <= r < grid.Length0 && 0 <= c < grid.Length1 ==> grid[r, c] == CellAt(rows, r, c)
  }

  /** `new String[height][width]` and the copy loop. */
  method Fill(rows: Table, height: nat, width: nat) returns (grid: array2<Option<string>>, err: Option<Error>)
    requires width >= CELLS_COPIED
    ensures fresh(grid) && grid.Length0 == height && grid.Length1 == width
    ensures err == FillError(rows, height, 0)
    ensures err.None? ==> Holds(grid, rows)
  {
    grid := new Option<string>[height, width]((r, c) => None);
    var i := 0;
    while i < |rows|
      invariant 0 <= i <= |rows| && i <= height
      invariant FillError(rows, height, 0) == FillError(rows, height, i)
      invariant forall k :: 0 <= k < i ==> |rows[k]| >= CELLS_COPIED
      invariant forall r, c :: 0 <= r < height && 0 <= c < width ==>
        grid[r, c] == (if r < i && c < CELLS_COPIED then Some(rows[r][c]) else None)
    {
      if i >= height {
        return grid, Some(ArrayOverrun);
      }
      var cols := rows[i];
      var y := 0;
      while y < CELLS_COPIED
        invariant 0 <= y <= CELLS_COPIED && y <= |cols|
        invariant forall r, c :: 0 <= r < height && 0 <= c < width ==>
          grid[r, c] == (if (r < i && c < CELLS_COPIED) || (r == i && c < y) then Some(rows[r][c]) else None)
      {
        if y >= |cols| {
          return grid, Some(MissingCell);
        }
        grid[i, y] := Some(cols[y]);
        y := y + 1;
      }
      i := i + 1;
    }
    err := None;
  }

  /** Where the walk of column col, started at row y, stops if nothing throws
      first: row 13, the first row past the table, or the first blank cell. */
  function FirstBlank(rows: Table, col: nat, y: nat): (k: nat)
    requires Wide(rows) && col < CELLS_COPIED && y <= LINHAS_TABELA
    ensures y <= k <= LINHAS_TABELA
    ensures forall j :: y <= j < k ==> j < |rows| && !Text.IsBlank(rows[j][col])
    ensures k == LINHAS_TABELA || k >= |rows| || Text.IsBlank(rows[k][col])
    decreases LINHAS_TABELA - y
  {
    if y == LINHAS_TABELA || y >= |rows| || Text.IsBlank(rows[y][col]) then y
    else FirstBlank(rows, col, y + 1)
  }

  /** How many cells the walk over columns col..8 reads as data: for each
      column, the rows from 1 up to its first blank. */
  function BlankPrefixTotal(rows: Table, col: nat): nat
    requires Wide(rows) && 1 <= col <= COLUNAS_TABELA
    decreases COLUNAS_TABELA - col
  {
    if col == COLUNAS_TABELA then 0
    else (FirstBlank(rows, col, 1) - 1) + BlankPrefixTotal(rows, col + 1)
  }
}
