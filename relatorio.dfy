/** The newer App (package relatorio.leo): getTabela turns one scraped HTML
    table into Registro records, main gathers three tables into a TreeSet, and
    imprimeExcel lays the records out as spreadsheet rows under a header.

    A table's row 0 holds the year headers of columns 1..8 and its column 0
    the month labels of rows 1..12. getTabela walks column by column, row by
    row, and stops a column at its first blank cell. */
module Relatorio {
  import opened Failures
  import Text
  import Numbers
  import Months
  import Grid
  import opened Registros
  import opened Walks

  const COLUNAS_TABELA := Grid.COLUNAS_TABELA
  const LINHAS_TABELA := Grid.LINHAS_TABELA

  /** `new String[COLUNAS_TABELA][LINHAS_TABELA]`, indexed [row][cell]: the
      grid as written has 9 rows of 13 cells. */
  const AS_WRITTEN_HEIGHT: nat := COLUNAS_TABELA
  const AS_WRITTEN_WIDTH: nat := LINHAS_TABELA

  /** The grid the walk needs, 13 rows of 9 cells, as the older App allocates it. */
  const HEIGHT: nat := LINHAS_TABELA
  const WIDTH: nat := COLUNAS_TABELA

  /** main reads tables 1, 2 and 3 of the page. */
  const TABELAS: nat := 3

  /** `new Registro(parseInt(header), getNumeroMes(label), parseDouble(cell.replace(',', '.')))`:
      the three conversions run left to right and the first to throw aborts. */
  function NovoRegistro(header: string, rotulo: string, cell: string): Result<Registro> {
    var ano := Numbers.ParseInt(header);
    if ano.None? then Err(BadYear)
    else
      var mes := Months.GetNumeroMes(rotulo);
      if mes.None? then Err(BadMonth)
      else
        var taxa := Text.ReplaceComma(cell);
        if !Numbers.IsJavaDecimal(taxa) then Err(BadRate)
        else Ok(Registro(ano.value, mes.value, taxa))
  }

  /** r is the record of the non-blank cell at row y of column col: year from
      the column's header, month from the row's label, rate the cell's text
      with its decimal comma made a point. */
  predicate IsRecordOf(r: Registro, rows: Grid.Table, col: nat, y: nat)
    requires Grid.Wide(rows) && col < Grid.CELLS_COPIED
  {
    && y < |rows|
    && !Text.IsBlank(rows[y][col])
    && Numbers.ParseInt(rows[0][col]) == Some(r.ano)
    && Months.GetNumeroMes(rows[y][0]) == Some(r.mes)
    && r.porcentagem == Text.ReplaceComma(rows[y][col])
    && Numbers.IsJavaDecimal(r.porcentagem)
  }

  /** Cell [y][col] of a grid of `height` rows filled from rows: reading it
      overruns a grid of fewer than y + 1 rows and dereferences null past the
      table's last row; a blank cell ends the column, any other is converted. */
  function Celula(rows: Grid.Table, height: nat, col: nat, y: nat): Passo<Registro>
    requires Grid.Filled(rows, height) && 1 <= col < COLUNAS_TABELA
  {
    if y >= height then Falha(ArrayOverrun)
    else if y >= |rows| then Falha(NullCell)
    else if Text.IsBlank(rows[y][col]) then Fim
    else
      match NovoRegistro(rows[0][col], rows[y][0], rows[y][col])
      case Err(e) => Falha(e)
      case Ok(r) => Novo(r)
  }

  /** A step ends the column exactly at a blank cell of the table, and adds
      the record of its cell. */
  lemma CelulaMeaning(rows: Grid.Table, height: nat, col: nat, y: nat)
    requires Grid.Filled(rows, height) && 1 <= col < COLUNAS_TABELA
    ensures Celula(rows, height, col, y).Novo? ==> IsRecordOf(Celula(rows, height, col, y).r, rows, col, y)
    ensures Celula(rows, height, col, y).Fim? <==> y < |rows| && Text.IsBlank(rows[y][col])
  {
  }

  /** The steps of column col, one per row 0..12; the walk starts at row 1. */
  function Celulas(rows: Grid.Table, height: nat, col: nat): (ps: seq<Passo<Registro>>)
    requires Grid.Filled(rows, height) && 1 <= col < COLUNAS_TABELA
    ensures |ps| == LINHAS_TABELA
  {
    seq(LINHAS_TABELA, y requires 0 <= y < LINHAS_TABELA => Celula(rows, height, col, y))
  }

  /** The steps of a column follow its cells: the walk ends at a blank one. */
  lemma CelulasFollow(rows: Grid.Table, height: nat, col: nat)
    requires Grid.Filled(rows, height) && 1 <= col < COLUNAS_TABELA
    ensures Follows(Celulas(rows, height, col), rows, col)
  {
    forall y | 1 <= y < LINHAS_TABELA {
      CelulaMeaning(rows, height, col, y);
    }
  }

  /** The walk down column col, rows 1..12. */
  function Coluna(rows: Grid.Table, height: nat, col: nat): Result<seq<Registro>>
    requires Grid.Filled(rows, height) && 1 <= col < COLUNAS_TABELA
  {
    Walk(Celulas(rows, height, col), 1)
  }

  /** The walk over columns col..8, in order. */
  function ColumnsFrom(rows: Grid.Table, height: nat, col: nat): Result<seq<Registro>>
    requires Grid.Filled(rows, height) && 1 <= col <= COLUNAS_TABELA
    decreases COLUNAS_TABELA - col
  {
    if col == COLUNAS_TABELA then Ok([])
    else Then(Coluna(rows, height, col), ColumnsFrom(rows, height, col + 1))
  }

  /** getTabela on a grid of the given height: the fill, then the walk. The
      HashSet it fills compares records by identity, so it collapses nothing;
      the records are listed in the order they are added. */
  function Tabela(rows: Grid.Table, height: nat): Result<seq<Registro>> {
    match Grid.FillError(rows, height, 0)
    case Some(e) => Err(e)
    case None => ColumnsFrom(rows, height, 1)
  }

  /** The body of getTabela's inner loop for cell [y][col] of the filled grid. */
  method LeCelula(grid: array2<Option<string>>, rows: Grid.Table, col: nat, y: nat) returns (passo: Passo<Registro>)
    requires Grid.Holds(grid, rows) && grid.Length1 >= Grid.CELLS_COPIED
    requires 1 <= col < COLUNAS_TABELA && 1 <= y < LINHAS_TABELA
    ensures passo == Celula(rows, grid.Length0, col, y)
  {
    if y >= grid.Length0 {
      return Falha(ArrayOverrun);
    }
    var cell := grid[y, col];
    assert cell == Grid.CellAt(rows, y, col);
    if cell.None? {
      return Falha(NullCell);
    }
    var texto := Text.Trim(cell.value);
    Text.BlankIffTrimEmpty(cell.value);
    if |texto| == 0 {
      return Fim;
    }
    var header, rotulo := grid[0, col], grid[y, 0];
    assert header == Some(rows[0][col]) && rotulo == Some(rows[y][0]) by {
      assert header == Grid.CellAt(rows, 0, col) && rotulo == Grid.CellAt(rows, y, 0);
    }
    var registro := NovoRegistro(header.value, rotulo.value, cell.value);
    if registro.Err? {
      return Falha(registro.error);
    }
    return Novo(registro.value);
  }

  /** The inner loop of getTabela: column col of the filled grid, from row 1
      down to its first blank cell. */
  method WalkColumn(grid: array2<Option<string>>, rows: Grid.Table, col: nat) returns (coluna: Result<seq<Registro>>)
    requires Grid.Holds(grid, rows) && grid.Length1 >= Grid.CELLS_COPIED
    requires 1 <= col < COLUNAS_TABELA
    ensures coluna == Coluna(rows, grid.Length0, col)
  {
    var height := grid.Length0;
    ghost var ps := Celulas(rows, height, col);
    ghost var whole := Walk(ps, 1);
    var acc: seq<Registro> := [];
    var y := 1;
    PrependNothing(whole);
    while y < LINHAS_TABELA
      invariant 1 <= y <= LINHAS_TABELA
      invariant whole == Prepend(acc, Walk(ps, y))
    {
      var passo := LeCelula(grid, rows, col, y);
      assert passo == ps[y];
      if passo.Falha? {
        return Err(passo.e);
      }
      if passo.Fim? {
        break;
      }
      PrependPrepend(acc, passo.r, Walk(ps, y + 1));
      acc := acc + [passo.r];
      y := y + 1;
    }
    assert acc + [] == acc;
    return Ok(acc);
  }

  /** getTabela: copy the table into a grid of height rows and width cells,
      then walk columns 1..8 and rows 1..12. */
  method GetTabela(rows: Grid.Table, height: nat, width: nat) returns (resposta: Result<seq<Registro>>)
    requires width >= Grid.CELLS_COPIED
    ensures resposta == Tabela(rows, height)
  {
    var grid, err := Grid.Fill(rows, height, width);
    if err.Some? {
      return Err(err.value);
    }
    ghost var whole := ColumnsFrom(rows, height, 1);
    assert Tabela(rows, height) == whole;
    var acc: seq<Registro> := [];
    var i := 1;
    PrependNothing(whole);
    while i < COLUNAS_TABELA
      invariant 1 <= i <= COLUNAS_TABELA
      invariant Grid.Holds(grid, rows) && grid.Length0 == height && grid.Length1 == width
      invariant whole == Prepend(acc, ColumnsFrom(rows, height, i))
    {
      var coluna := WalkColumn(grid, rows, i);
      if coluna.Err? {
        return Err(coluna.error);
      }
      PrependThen(acc, coluna, ColumnsFrom(rows, height, i + 1));
      acc := acc + coluna.value;
      i := i + 1;
    }
    assert acc + [] == acc;
    return Ok(acc);
  }

  /** A column walk that completes reads rows 1, 2, ... up to the column's
      first blank cell, or to row 13; it never reads past the table. */
  lemma ColumnLength(rows: Grid.Table, height: nat, col: nat)
    requires Grid.Filled(rows, height) && 1 <= col < COLUNAS_TABELA
    requires Coluna(rows, height, col).Ok?
    ensures var n := |Coluna(rows, height, col).value|;
      && 1 + n == Grid.FirstBlank(rows, col, 1)
      && (1 + n == LINHAS_TABELA || 1 + n < |rows|)
  {
    var ps := Celulas(rows, height, col);
    WalkIsAdded(ps, 1);
    AddedShape(ps, 1);
    CelulasFollow(rows, height, col);
    StopIsFirstBlank(ps, rows, col, 1);
  }

  /** A column walk that completes adds one record per row read, in row
      order, each made from that row's cell, its label and the column's header. */
  lemma ColumnRecords(rows: Grid.Table, height: nat, col: nat)
    requires Grid.Filled(rows, height) && 1 <= col < COLUNAS_TABELA
    requires Coluna(rows, height, col).Ok?
    ensures var out := Coluna(rows, height, col).value;
      forall j :: 0 <= j < |out| ==> IsRecordOf(out[j], rows, col, 1 + j)
  {
    var ps := Celulas(rows, height, col);
    WalkIsAdded(ps, 1);
    AddedShape(ps, 1);
    var out := Added(ps, 1);
    forall j | 0 <= j < |out|
      ensures IsRecordOf(out[j], rows, col, 1 + j)
    {
      assert ps[1 + j] == Novo(out[j]);
      CelulaMeaning(rows, height, col, 1 + j);
    }
  }

  /** The cells a column walk reads are the column's header, and the cell and
      label of each row down to the column's first blank: a table that agrees
      with another on those gives the same column, whatever it holds below the
      blank. */
  lemma CellsBelowBlankUnread(rows: Grid.Table, other: Grid.Table, height: nat, col: nat)
    requires Grid.Filled(rows, height) && Grid.Filled(other, height) && |other| == |rows|
    requires 1 <= col < COLUNAS_TABELA
    requires |rows| > 0 ==> other[0][col] == rows[0][col]
    requires forall j :: 1 <= j <= Grid.FirstBlank(rows, col, 1) && j < |rows| ==>
      other[j][col] == rows[j][col] && other[j][0] == rows[j][0]
    ensures Coluna(other, height, col) == Coluna(rows, height, col)
  {
    var ps, qs := Celulas(rows, height, col), Celulas(other, height, col);
    CelulasFollow(rows, height, col);
    StopBeforeBlank(ps, rows, col, 1);
    forall j | 1 <= j <= FirstStop(ps, 1) && j < |ps|
      ensures qs[j] == ps[j]
    {
    }
    StepsAgree(ps, qs, 1);
  }

  /** A walk over columns that completes is the concatenation of its columns. */
  lemma ColumnsFromStep(rows: Grid.Table, height: nat, col: nat)
    requires Grid.Filled(rows, height) && 1 <= col < COLUNAS_TABELA
    requires ColumnsFrom(rows, height, col).Ok?
    ensures Coluna(rows, height, col).Ok? && ColumnsFrom(rows, height, col + 1).Ok?
    ensures ColumnsFrom(rows, height, col).value ==
      Coluna(rows, height, col).value + ColumnsFrom(rows, height, col + 1).value
  {
  }

  lemma {:induction false} ColumnsFromShape(rows: Grid.Table, height: nat, col: nat)
    requires Grid.Filled(rows, height) && 1 <= col <= COLUNAS_TABELA
    requires ColumnsFrom(rows, height, col).Ok?
    ensures |ColumnsFrom(rows, height, col).value| == Grid.BlankPrefixTotal(rows, col)
    ensures forall r :: r in ColumnsFrom(rows, height, col).value ==>
      exists i, y :: col <= i < COLUNAS_TABELA && 1 <= y < LINHAS_TABELA && IsRecordOf(r, rows, i, y)
    decreases COLUNAS_TABELA - col
  {
    if col < COLUNAS_TABELA {
      ColumnsFromStep(rows, height, col);
      ColumnLength(rows, height, col);
      ColumnRecords(rows, height, col);
      ColumnsFromShape(rows, height, col + 1);
      var here := Coluna(rows, height, col).value;
      var rest := ColumnsFrom(rows, height, col + 1).value;
      forall r | r in here + rest
        ensures exists i, y :: col <= i < COLUNAS_TABELA && 1 <= y < LINHAS_TABELA && IsRecordOf(r, rows, i, y)
      {
        if r in here {
          var j :| 0 <= j < |here| && here[j] == r;
          assert IsRecordOf(r, rows, col, 1 + j);
        } else {
          assert r in rest;
        }
      }
    }
  }

  /** What getTabela returns when nothing throws: the table fitted the grid,
      it holds one record per non-blank cell read (the sum over the columns of
      the rows before their first blank, nothing collapsed), and every record
      comes from a data cell, never from row 0 or column 0, with the year of
      its column's header and the month of its row's label. */
  lemma TableShape(rows: Grid.Table, height: nat)
    requires Tabela(rows, height).Ok?
    ensures Grid.Filled(rows, height)
    ensures |Tabela(rows, height).value| == Grid.BlankPrefixTotal(rows, 1)
    ensures forall r :: r in Tabela(rows, height).value ==>
      exists i, y :: 1 <= i < COLUNAS_TABELA && 1 <= y < LINHAS_TABELA && IsRecordOf(r, rows, i, y)
  {
    ColumnsFromShape(rows, height, 1);
  }

  /** The fill overruns a grid of `height` rows once the table has more rows
      than that and the rows before it have their nine cells. */
  lemma {:induction false} FillOverruns(rows: Grid.Table, height: nat, i: nat)
    requires i <= height < |rows|
    requires forall k :: i <= k < height ==> |rows[k]| >= Grid.CELLS_COPIED
    ensures Grid.FillError(rows, height, i) == Some(ArrayOverrun)
    decreases height - i
  {
    if i < height {
      FillOverruns(rows, height, i + 1);
    }
  }

  /** getTabela as written: a table of ten or more rows, the rate tables
      among them (a header row and twelve months), overruns the 9-row grid. */
  lemma AsWrittenOverruns(rows: Grid.Table)
    requires |rows| > AS_WRITTEN_HEIGHT
    requires forall k :: 0 <= k < AS_WRITTEN_HEIGHT ==> |rows[k]| >= Grid.CELLS_COPIED
    ensures Tabela(rows, AS_WRITTEN_HEIGHT) == Err(ArrayOverrun)
  {
    FillOverruns(rows, AS_WRITTEN_HEIGHT, 0);
  }

  /** A table as the page publishes it: a header row and twelve month rows of
      nine cells, years in the header, month names in column 0, and a rate or
      a blank in every data cell. */
  predicate IsRateTable(rows: Grid.Table) {
    && |rows| == LINHAS_TABELA
    && Grid.Wide(rows)
    && (forall i :: 1 <= i < COLUNAS_TABELA ==> Numbers.ParseInt(rows[0][i]).Some?)
    && (forall y :: 1 <= y < LINHAS_TABELA ==> Months.GetNumeroMes(rows[y][0]).Some?)
    && (forall y, i :: 1 <= y < LINHAS_TABELA && 1 <= i < COLUNAS_TABELA ==>
          Text.IsBlank(rows[y][i]) || Numbers.IsJavaDecimal(Text.ReplaceComma(rows[y][i])))
  }

  /** On a rate table and the 13-row grid, no cell of a column throws. */
  lemma {:induction false} RateColumnReads(rows: Grid.Table, col: nat, y: nat)
    requires IsRateTable(rows) && 1 <= col < COLUNAS_TABELA && 1 <= y <= LINHAS_TABELA
    ensures Walk(Celulas(rows, HEIGHT, col), y).Ok?
    decreases LINHAS_TABELA - y
  {
    var ps := Celulas(rows, HEIGHT, col);
    if y < LINHAS_TABELA {
      assert !ps[y].Falha?;
      RateColumnReads(rows, col, y + 1);
    }
  }

  lemma {:induction false} RateColumnsRead(rows: Grid.Table, col: nat)
    requires IsRateTable(rows) && 1 <= col <= COLUNAS_TABELA
    ensures ColumnsFrom(rows, HEIGHT, col).Ok?
    decreases COLUNAS_TABELA - col
  {
    if col < COLUNAS_TABELA {
      RateColumnReads(rows, col, 1);
      RateColumnsRead(rows, col + 1);
    }
  }

  /** getTabela on the 13-row grid the walk needs reads every rate table
      without an exception. */
  lemma CorrectedReadsFullTable(rows: Grid.Table)
    requires IsRateTable(rows)
    ensures Tabela(rows, HEIGHT).Ok?
  {
    RateColumnsRead(rows, 1);
  }

  /** A spreadsheet cell as imprimeExcel fills it: setCellValue of a String,
      of an int, or of the rate's double (kept as the text it was parsed from). */
  datatype Valor = Texto(texto: string) | Numero(numero: int) | Decimal(decimal: string)

  /** One sheet row: cells 0, 1 and 2. */
  datatype Linha = Linha(ano: Valor, mes: Valor, taxa: Valor)

  /** Row 0 of the sheet. */
  const CABECALHO: Linha := Linha(Texto("Ano"), Texto("Mês"), Texto("Taxa (%)"))

  /** The row of one record: year, month, rate. */
  function LinhaDe(r: Registro): Linha {
    Linha(Numero(r.ano), Numero(r.mes), Decimal(r.porcentagem))
  }

  /** The rows of the records, one each, in the set's iteration order. */
  function Linhas(rs: seq<Registro>): (ls: seq<Linha>)
    ensures |ls| == |rs|
    ensures forall i :: 0 <= i < |rs| ==> ls[i] == LinhaDe(rs[i])
  {
    seq(|rs|, i requires 0 <= i < |rs| => LinhaDe(rs[i]))
  }

  /** Sheet rows whose year and month are numbers and run strictly
      ascending: by year, then by month within a year. */
  predicate LinhasAscendem(ls: seq<Linha>) {
    forall i, j :: 0 <= i < j < |ls| ==>
      && ls[i].ano.Numero? && ls[i].mes.Numero? && ls[j].ano.Numero? && ls[j].mes.Numero?
      && (ls[i].ano.numero < ls[j].ano.numero ||
          (ls[i].ano.numero == ls[j].ano.numero && ls[i].mes.numero < ls[j].mes.numero))
  }

  /** The rows of records run strictly ascending by year and month exactly
      when the records are ascending under compareTo, as a TreeSet keeps them. */
  lemma LinhasOrdenadas(rs: seq<Registro>)
    ensures LinhasAscendem(Linhas(rs)) <==> Ascending(rs)
  {
    var ls := Linhas(rs);
    if LinhasAscendem(ls) {
      forall i, j | 0 <= i < j < |rs|
        ensures CompareTo(rs[i], rs[j]) < 0
      {
        assert ls[i] == LinhaDe(rs[i]) && ls[j] == LinhaDe(rs[j]);
      }
    }
  }

  /** The sheet imprimeExcel builds: the header row, then a row per record. */
  function Planilha(rs: seq<Registro>): seq<Linha> {
    [CABECALHO] + Linhas(rs)
  }

  /** Reading a sheet back: the record of a data row, if it has one. */
  function LeLinha(l: Linha): Option<Registro> {
    match l
    case Linha(Numero(a), Numero(m), Decimal(t)) => Some(Registro(a, m, t))
    case _ => None
  }

  function LeCorpo(ls: seq<Linha>): Option<seq<Registro>>
    decreases |ls|
  {
    if ls == [] then Some([])
    else
      match (LeLinha(ls[0]), LeCorpo(ls[1..]))
      case (Some(r), Some(rs)) => Some([r] + rs)
      case _ => None
  }

  /** A sheet under the header row, read back into its records. */
  function LePlanilha(p: seq<Linha>): Option<seq<Registro>> {
    if p == [] || p[0] != CABECALHO then None else LeCorpo(p[1..])
  }

  lemma {:induction false} LeCorpoLinhas(rs: seq<Registro>)
    ensures LeCorpo(Linhas(rs)) == Some(rs)
    decreases |rs|
  {
    if rs != [] {
      var ls := Linhas(rs);
      assert ls[1..] == Linhas(rs[1..]);
      LeCorpoLinhas(rs[1..]);
      assert rs == [rs[0]] + rs[1..];
    }
  }

  /** The sheet loses nothing: the records, in order, can be read back from it. */
  lemma PlanilhaRoundTrip(rs: seq<Registro>)
    ensures LePlanilha(Planilha(rs)) == Some(rs)
  {
    assert Planilha(rs)[1..] == Linhas(rs);
    LeCorpoLinhas(rs);
  }

  /** Records held in a TreeSet give a sheet whose data rows run strictly
      ascending by year, then month: one row per (year, month). */
  lemma PlanilhaOrdenada(rs: seq<Registro>)
    requires Ascending(rs)
    ensures var p := Planilha(rs);
      forall i, j :: 1 <= i < j < |p| ==>
        && p[i].ano.Numero? && p[i].mes.Numero? && p[j].ano.Numero? && p[j].mes.Numero?
        && (p[i].ano.numero < p[j].ano.numero ||
            (p[i].ano.numero == p[j].ano.numero && p[i].mes.numero < p[j].mes.numero))
  {
    var p := Planilha(rs);
    forall i, j | 1 <= i < j < |p|
      ensures p[i] == LinhaDe(rs[i - 1]) && p[j] == LinhaDe(rs[j - 1])
    {
    }
  }

  /** imprimeExcel: row 0 gets the header, then each record, in the set's
      order, gets the next row. */
  method ImprimeExcel(registros: seq<Registro>) returns (planilha: seq<Linha>)
    ensures planilha == Planilha(registros)
    ensures |planilha| == |registros| + 1 && planilha[0] == CABECALHO
    ensures forall i :: 0 <= i < |registros| ==> planilha[i + 1] == LinhaDe(registros[i])
  {
    planilha := [CABECALHO];
    for i := 0 to |registros|
      invariant planilha == Planilha(registros[..i])
    {
      assert Planilha(registros[..i + 1]) == Planilha(registros[..i]) + [LinhaDe(registros[i])];
      planilha := planilha + [LinhaDe(registros[i])];
    }
    assert registros[..|registros|] == registros;
  }

  /** The page as main sees it: its tables in document order, each as the
      cell texts of its rows. */
  type Pagina = seq<Grid.Table>

  /** main's loop from table a1 on, with todos the TreeSet so far: tables 1, 2
      and 3 are read in turn, getTabela filling a grid of the given height,
      and added to the set; a page with too few tables makes Elements.get
      throw. */
  function Reune(page: Pagina, height: nat, a1: nat, todos: seq<Registro>): (r: Result<seq<Registro>>)
    requires Ascending(todos) && 1 <= a1 <= TABELAS + 1
    ensures r.Ok? ==> Ascending(r.value)
    decreases TABELAS + 1 - a1
  {
    if a1 == TABELAS + 1 then Ok(todos)
    else if a1 >= |page| then Err(MissingTable)
    else
      match Tabela(page[a1], height)
      case Err(e) => Err(e)
      case Ok(t) => Reune(page, height, a1 + 1, AddAll(todos, t))
  }

  /** main, getTabela filling a grid of the given height: gather the tables,
      then lay out the sheet. The program as written allocates
      AS_WRITTEN_HEIGHT rows; HEIGHT is the grid the walk needs. */
  function Relatorio(page: Pagina, height: nat): Result<seq<Linha>> {
    match Reune(page, height, 1, [])
    case Err(e) => Err(e)
    case Ok(todos) => Ok(Planilha(todos))
  }

  /** main, with getTabela allocating a grid of height rows and width cells. */
  method Executa(page: Pagina, height: nat, width: nat) returns (resultado: Result<seq<Linha>>)
    requires width >= Grid.CELLS_COPIED
    ensures resultado == Relatorio(page, height)
  {
    ghost var whole := Reune(page, height, 1, []);
    var todos: seq<Registro> := [];
    var a1 := 1;
    while a1 <= TABELAS
      invariant 1 <= a1 <= TABELAS + 1 && Ascending(todos)
      invariant whole == Reune(page, height, a1, todos)
    {
      if a1 >= |page| {
        return Err(MissingTable);
      }
      var tabela := GetTabela(page[a1], height, width);
      if tabela.Err? {
        return Err(tabela.error);
      }
      todos := AddAll(todos, tabela.value);
      a1 := a1 + 1;
    }
    var planilha := ImprimeExcel(todos);
    return Ok(planilha);
  }

  /** main as written, with the 9 x 13 grid: as soon as the page has a table 1
      of ten or more full rows, as every published rate table is, the run
      throws ArrayIndexOutOfBoundsException and no sheet is written. */
  lemma MainAsWrittenOverruns(page: Pagina)
    requires |page| > 1 && |page[1]| > AS_WRITTEN_HEIGHT
    requires forall k :: 0 <= k < AS_WRITTEN_HEIGHT ==> |page[1][k]| >= Grid.CELLS_COPIED
    ensures Relatorio(page, AS_WRITTEN_HEIGHT) == Err(ArrayOverrun)
  {
    AsWrittenOverruns(page[1]);
  }

  /** main with the 13-row grid: on a page whose tables 1..3 are rate tables
      the run completes, and the sheet is the header row then the records,
      ascending by year and month. */
  lemma MainCorrectedCompletes(page: Pagina)
    requires |page| > TABELAS && IsRateTable(page[1]) && IsRateTable(page[2]) && IsRateTable(page[3])
    ensures Relatorio(page, HEIGHT).Ok?
    ensures Relatorio(page, HEIGHT).value[0] == CABECALHO
  {
    CorrectedReadsFullTable(page[1]);
    CorrectedReadsFullTable(page[2]);
    CorrectedReadsFullTable(page[3]);
  }

  /** What main gathers: the page has tables 1..3, each read without an
      exception, and the TreeSet holds, ascending, one record per (year, month)
      found in them, the first one read when tables overlap. */
  lemma MainGathers(page: Pagina, height: nat)
    requires Reune(page, height, 1, []).Ok?
    ensures |page| > TABELAS
    ensures Tabela(page[1], height).Ok? && Tabela(page[2], height).Ok? && Tabela(page[3], height).Ok?
    ensures Represents(Reune(page, height, 1, []).value,
      Tabela(page[1], height).value + Tabela(page[2], height).value + Tabela(page[3], height).value)
  {
    var t1, t2, t3 := Tabela(page[1], height).value, Tabela(page[2], height).value, Tabela(page[3], height).value;
    var s1 := AddAll([], t1);
    var s2 := AddAll(s1, t2);
    AddAllFromEmpty(t1);
    AddAllRepresents(s1, t1, t2);
    AddAllRepresents(s2, t1 + t2, t3);
  }
}
