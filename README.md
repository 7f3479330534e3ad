# Leo: SELIC rate report, modelled in Dafny

Leo scrapes the monthly SELIC rate tables from a Receita Federal web page and
writes them to a spreadsheet. Each HTML table has year headers in row 0 and
Portuguese month names in column 0. Each data cell holds a rate with a decimal
comma, or is blank.

The repository holds two versions of the program. This project models both.

- **The newer App** (`relatorio.leo.App`, module `Relatorio`):
  - `getTabela` copies a table into a `String[][]` grid.
  - It then walks columns 1..8, rows 1..12, stopping each column at its first
    blank cell.
  - Each cell read becomes a `Registro` (year, month, rate) in a `HashSet`.
  - `main` adds tables 1, 2 and 3 of the page to a `TreeSet` ordered by
    `compareTo` (year, then month).
  - `imprimeExcel` writes a header row, then one row per record in the set's
    order.
- **The older App** (default package, module `Legacy`):
  - The walk is the same, but there are no records.
  - Each cell read appends three strings (year header, two-digit month, rate
    text) to a shared `String[3][500]` buffer.
  - The append goes at the index held in the static counter
    `contadorRegistros`, which then moves on.
  - `main` reads tables 3, 2 and 1 in that order.
  - `imprimeExcel` writes one row per buffer entry below the counter, with no
    header.

Shared pieces:

| Module | What it holds |
|---|---|
| `Failures` | the exceptions that can abort a run, as an `Error` datatype, with `Result` and `Option` |
| `Text` | Java's `trim().isEmpty()`, `replace(',', '.')` and case-insensitive character matching |
| `Numbers` | `Integer.parseInt`, with 32-bit bounds, and the syntax `Double.parseDouble` accepts |
| `Months` | the pt_BR month-name table and the newer `getNumeroMes` |
| `Grid` | the copy of `<tr>`/`<td>` text into a fixed two-dimensional array (`array2`, null cells as `None`) |
| `Walks` | the column walk, one cell (`Passo`) at a time |
| `Registros` | `Registro`, `compareTo`, and the `TreeSet` as an ascending sequence |

How the model is built:

- Code that changes state in place is modelled as methods over arrays and
  fields, each proved against a specification function:
  - the grid fill;
  - both Apps' cell loops;
  - the older App's buffer writes and counter (class `Legacy.App`);
  - both `imprimeExcel` loops;
  - both `main` loops.
- Those functions' properties are lemmas.
- The newer `main` takes the grid height as a parameter:
  - the 9 rows the program allocates, where it throws on every published
    table (see "## Findings");
  - the 13 rows the walk needs.
- Details the model keeps from the code:
  - The sheet header is `Ano`, `Mês`, `Taxa (%)`, not an English one.
  - In the newer App a failed file write is logged and `imprimeExcel` returns
    `false`; the run does not fail.
  - In the older App a failed file write prints the stack trace and skips
    `wb.close()`, and `imprimeExcel` returns `true` in every case.
  - The older App writes no header row.
  - The older App falls back to the current month when a label does not
    parse.

## Model

| member | source | states |
|---|---|---|
| Text.BlankIffTrimEmpty | Leo/src/main/java/relatorio/leo/App.java:112 | the blank test that ends a column holds exactly when `trim()` leaves an empty string |
| Text.BlankIffAllTrimmable | Leo/src/main/java/App.java:84 | a cell is blank exactly when every character is at most U+0020 |
| Text.ReplaceComma | Leo/src/main/java/relatorio/leo/App.java:118 | the result has the input's length; each comma becomes a point and every other character is kept |
| Text.ReplaceCommaNormalises | Leo/src/main/java/relatorio/leo/App.java:118 | no comma is left, non-comma characters are untouched, and a second replace changes nothing |
| Numbers.ParseInt | Leo/src/main/java/relatorio/leo/App.java:116 | a header is accepted exactly when it is an optional sign followed by one or more decimal digits and nothing else, and the value they denote fits a 32-bit int; the result is that value |
| Numbers.ParseShowInt | Leo/src/main/java/relatorio/leo/App.java:116 | `parseInt` reads back the decimal text of every int, so any year the page prints is accepted |
| Numbers.CommaRateNeedsNormalising | Leo/src/main/java/relatorio/leo/App.java:118 | a rate `d,d` is refused by `parseDouble` as it stands and accepted once the comma is made a point |
| Months.FindMonth | Leo/src/main/java/relatorio/leo/App.java:54-56 | the month found is the first whose full name matches up to case; none found means no name matches |
| Months.GetNumeroMes | Leo/src/main/java/relatorio/leo/App.java:166-168 | a label resolves only to a month in 1..12 |
| Months.MonthNamesDistinct | Leo/src/main/java/relatorio/leo/App.java:54-56 | no two pt_BR month names match each other up to case |
| Months.GetNumeroMesExact | Leo/src/main/java/relatorio/leo/App.java:166-168 | a label resolves to month m exactly when it spells m's full name up to case; any other label fails |
| Months.TwoDigits | Leo/src/main/java/App.java:141-143 | the `MM` format of a month is two characters, the first `0` or `1` |
| Months.TwoDigitsParses | Leo/src/main/java/App.java:141-143 | the two digits read back as the month |
| Legacy.MesPorPrefixoAcha | Leo/src/main/java/App.java:131-136 | the month the parse finds has a full name that begins the label; when none is found, no month name begins it |
| Legacy.PrefixExcludes | Leo/src/main/java/App.java:136 | a label begins with at most one month's full name |
| Legacy.MesDoRotuloExato | Leo/src/main/java/App.java:131-136 | the `MMMM` parse gives month m exactly when the label begins, up to case, with m's full name |
| Legacy.ExactNameAgrees | Leo/src/main/java/App.java:129-144 | on a label that spells a full month name, the older and the newer parse agree |
| Legacy.GetNumeroMes | Leo/src/main/java/App.java:129-144 | the result is always two characters, the first `0` or `1`, even when the parse fails |
| Legacy.GetNumeroMesValor | Leo/src/main/java/App.java:133-143 | the two digits read back as the label's month, or as the current month when the label names none |
| Grid.FillError | Leo/src/main/java/App.java:71-78 | the fill completes exactly when the table has no more rows than the grid and every row has nine cells; otherwise it overruns or misses a cell |
| Grid.Fill | Leo/src/main/java/relatorio/leo/App.java:96-106 | a fresh grid of the given size; the fill's exception is `FillError`'s; on success cell [r][c] holds the text of cell c of row r for c < 9 and is null elsewhere |
| Grid.FirstBlank | Leo/src/main/java/relatorio/leo/App.java:110-114 | where a column walk stops: every row before it is inside the table and non-blank; at it, the column is blank, the table ended, or row 13 was reached |
| Walks.AddedShape | Leo/src/main/java/App.java:82-94 | what a walk adds is, in order, the values of its steps from the start up to the first that does not add |
| Walks.WalkIsAdded | Leo/src/main/java/relatorio/leo/App.java:109-121 | a walk completes exactly when it does not throw, and then returns what it added |
| Walks.StepsAgree | Leo/src/main/java/relatorio/leo/App.java:110-114 | two columns whose steps agree up to the first stop walk alike |
| Walks.StopIsFirstBlank | Leo/src/main/java/relatorio/leo/App.java:112-114 | a walk that does not throw stops at the column's first blank cell, row 13, or the end of the table |
| Walks.StopBeforeBlank | Leo/src/main/java/App.java:84-87 | whatever happens, a walk stops at or before the column's first blank |
| Registros.CompareTo | Leo/src/main/java/relatorio/leo/App.java:40-46 | zero exactly on equal (year, month); negative exactly when the year is earlier, or equal with an earlier month; always -1, 0 or 1 |
| Registros.CompareToAntisymmetric | Leo/src/main/java/relatorio/leo/App.java:40-46 | swapping the operands negates the result |
| Registros.CompareToTransitive | Leo/src/main/java/relatorio/leo/App.java:40-46 | less-than, equality and less-or-equal under `compareTo` are transitive |
| Registros.AscendingKeysUnique | Leo/src/main/java/relatorio/leo/App.java:66 | a set ordered by `compareTo` holds at most one record per (year, month) |
| Registros.Add | Leo/src/main/java/relatorio/leo/App.java:69 | `TreeSet.add` keeps the order and adds x's (year, month); with that key present nothing changes, otherwise the set grows by x alone |
| Registros.FirstWithKey | Leo/src/main/java/relatorio/leo/App.java:69 | finds a record of the sequence with the key exactly when the key occurs in it |
| Registros.AddAllRepresents | Leo/src/main/java/relatorio/leo/App.java:66-70 | adding records one by one keeps the set ascending, with the keys of all inserted records and, for each key, the first record inserted |
| Registros.AddAllFromEmpty | Leo/src/main/java/relatorio/leo/App.java:66-70 | `addAll` into an empty `TreeSet` gives that representation of the records added |
| Relatorio.CelulaMeaning | Leo/src/main/java/relatorio/leo/App.java:112-118 | a cell ends its column exactly when it is blank; a record it adds has the header's year, the label's month and the cell's rate with a point |
| Relatorio.CelulasFollow | Leo/src/main/java/relatorio/leo/App.java:109-114 | a column's steps end exactly at blank cells and read only inside the table |
| Relatorio.LeCelula | Leo/src/main/java/relatorio/leo/App.java:112-118 | reading one cell of the filled grid yields that cell's step: overrun past the grid, null past the table, end at a blank, or the record or its conversion error |
| Relatorio.WalkColumn | Leo/src/main/java/relatorio/leo/App.java:110-120 | the inner loop returns the column's walk: its records in row order, or the first exception |
| Relatorio.GetTabela | Leo/src/main/java/relatorio/leo/App.java:91-124 | `getTabela` on a grid of the given height returns the fill's exception, or the columns' walks in column order |
| Relatorio.ColumnLength | Leo/src/main/java/relatorio/leo/App.java:109-121 | a column that completes yields one record per row before its first blank, and never reads past the table |
| Relatorio.ColumnRecords | Leo/src/main/java/relatorio/leo/App.java:110-118 | record j of a column comes from row j + 1 of that column |
| Relatorio.CellsBelowBlankUnread | Leo/src/main/java/relatorio/leo/App.java:112-114 | cells below a column's first blank have no effect on what it yields |
| Relatorio.ColumnsFromStep | Leo/src/main/java/relatorio/leo/App.java:109-121 | a completed walk over the columns is the first column's records followed by the rest |
| Relatorio.ColumnsFromShape | Leo/src/main/java/relatorio/leo/App.java:109-121 | from column col on, one record per non-blank cell before each column's first blank, each from a data cell of those columns |
| Relatorio.TableShape | Leo/src/main/java/relatorio/leo/App.java:91-124 | a table read without an exception fitted the grid; its records number the non-blank prefix total and come from data cells, never row 0 or column 0 |
| Relatorio.FillOverruns | Leo/src/main/java/relatorio/leo/App.java:99-106 | once the table has more rows than the grid, the fill overruns it |
| Relatorio.AsWrittenOverruns | Leo/src/main/java/relatorio/leo/App.java:96 | with the grid as allocated, any table of ten or more full rows throws `ArrayIndexOutOfBoundsException` |
| Relatorio.RateColumnReads | Leo/src/main/java/relatorio/leo/App.java:110-118 | on a well-formed rate table and the 13-row grid, no cell of a column throws |
| Relatorio.RateColumnsRead | Leo/src/main/java/relatorio/leo/App.java:109-121 | on such a table, no column throws |
| Relatorio.CorrectedReadsFullTable | Leo/src/main/java/relatorio/leo/App.java:91-124 | with the 13 x 9 grid, `getTabela` reads every well-formed rate table without an exception |
| Relatorio.LinhasOrdenadas | Leo/src/main/java/relatorio/leo/App.java:140-147 | the data rows run strictly ascending by year, then month, exactly when the records are ascending under `compareTo` |
| Relatorio.LeCorpoLinhas | Leo/src/main/java/relatorio/leo/App.java:140-147 | the data rows read back into the records |
| Relatorio.PlanilhaRoundTrip | Leo/src/main/java/relatorio/leo/App.java:134-147 | the sheet, header included, reads back into the records in order: nothing lost or reordered |
| Relatorio.PlanilhaOrdenada | Leo/src/main/java/relatorio/leo/App.java:66-72 | rows written from a `TreeSet` run strictly ascending by year, then month |
| Relatorio.ImprimeExcel | Leo/src/main/java/relatorio/leo/App.java:127-147 | the sheet is the header row, then one row per record in the set's order; with no records, only the header |
| Relatorio.Reune | Leo/src/main/java/relatorio/leo/App.java:66-70 | the set `main` gathers stays ascending under `compareTo` |
| Relatorio.Executa | Leo/src/main/java/relatorio/leo/App.java:64-73 | `main`, with `getTabela` allocating a grid of any given height, produces the specified report: tables 1..3 gathered, then the sheet, or the first exception |
| Relatorio.MainAsWrittenOverruns | Leo/src/main/java/relatorio/leo/App.java:64-73 | `main` as written, with the 9-row grid, throws `ArrayIndexOutOfBoundsException` whenever table 1 has ten or more full rows, so no sheet is written |
| Relatorio.MainCorrectedCompletes | Leo/src/main/java/relatorio/leo/App.java:64-73 | with the 13-row grid, `main` completes on any page whose tables 1..3 are well-formed rate tables, and the sheet starts with the header row |
| Relatorio.MainGathers | Leo/src/main/java/relatorio/leo/App.java:64-70 | at any grid height, a completed gather means the page has tables 1..3, each read without an exception; the set holds one record per (year, month) found, the first one read |
| Legacy.CelulasFollow | Leo/src/main/java/App.java:81-87 | a column's steps end exactly at blank cells and read only inside the table |
| Legacy.CelulaMeaning | Leo/src/main/java/App.java:84-91 | a cell that is read is inside the table and non-blank, giving its header, label and text; a cell throws (null) exactly when its row is past the table |
| Legacy.ColunaStops | Leo/src/main/java/App.java:82-87 | a column stops at or before its first blank: exactly there if nothing throws, and past the table's last row if it throws |
| Legacy.ColunaEntries | Leo/src/main/java/App.java:82-93 | a column's readings come one per row from row 1 down, each from its own row |
| Legacy.SaidaShape | Leo/src/main/java/App.java:81-95 | a walk over the columns that does not throw reads one entry per non-blank cell before each column's first blank, each from a data cell |
| Legacy.SobrepoeMantem | Leo/src/main/java/App.java:89-93 | writing from index at leaves every entry below at, and every entry after the last written, unchanged |
| Legacy.Grava | Leo/src/main/java/App.java:89-93 | the 500-slot buffer takes a prefix of the readings and never goes past its end; the write completes exactly when the walk completes and fits; otherwise, if the walk itself did not throw, the buffer overruns |
| Legacy.EscreveDesdeGrava | Leo/src/main/java/App.java:82-94 | writing a column reading by reading equals its walk cut off where the buffer ends |
| Legacy.EscreveColunasGrava | Leo/src/main/java/App.java:81-95 | writing the columns in turn equals the walk over all of them cut off where the buffer ends |
| Legacy.EscreveTabelaGrava | Leo/src/main/java/App.java:65-96 | `getTabela` on the bounded buffer writes what it would write on an unbounded one, up to the first entry that does not fit |
| Legacy.EscreveTabelaCabe | Leo/src/main/java/App.java:89-93 | `getTabela` writes nothing past the buffer's last index |
| Legacy.EscreveTabelaConta | Leo/src/main/java/App.java:81-95 | when `getTabela` does not throw, the counter grows by exactly the number of non-blank cells before each column's first blank |
| Legacy.EntradasVerbatim | Leo/src/main/java/App.java:89-91 | every entry comes from one non-blank data cell: header and rate copied verbatim, with no comma conversion, and the month through `getNumeroMes` |
| Legacy.TresGravacoes | Leo/src/main/java/App.java:33-43 | three tables written one after another all complete exactly when none throws and together they fit the buffer; then everything read is written, in order |
| Legacy.RelatorioConcatena | Leo/src/main/java/App.java:28-46 | `main` completes exactly when the page has table 3, none of tables 3, 2, 1 throws and together they fit 500 entries; the sheet is then table 3's entries, table 2's, then table 1's, unsorted |
| Legacy.LeCelula | Leo/src/main/java/App.java:84-87 | reading a cell of the 13 x 9 grid yields its step: null past the table, end at a blank, otherwise the reading |
| Legacy.App.constructor | Leo/src/main/java/App.java:25 | the counter starts at 0 |
| Legacy.App.Escreve | Leo/src/main/java/App.java:89-93 | with room left, slots 0-2 at the counter get the entry, nothing else changes, and the counter moves on by one; past the end, it throws before anything changes |
| Legacy.App.AnexaColuna | Leo/src/main/java/App.java:82-94 | after one column, the counter has moved by what the column wrote; those entries sit from the old counter on, every other entry is unchanged, and the exception is the column's |
| Legacy.App.ProximaColuna | Leo/src/main/java/App.java:81-95 | one turn of the column loop appends the column's entries after the earlier columns'; the loop either stops with the exception or carries on |
| Legacy.App.AnexaColunas | Leo/src/main/java/App.java:81-95 | the column loop appends columns 1..8 after the old counter, leaves every other entry, and ends with the first exception |
| Legacy.App.GetTabela | Leo/src/main/java/App.java:65-96 | `getTabela` moves the counter by what it writes and places those entries from the old counter on; other entries are unchanged, and a fill exception writes nothing |
| Legacy.App.ImprimeExcel | Leo/src/main/java/App.java:99-115 | one sheet row per buffer entry below the counter, in index order, with no header; it throws exactly when the counter is past the buffer |
| Legacy.AdicionaTabela | Leo/src/main/java/App.java:34-35 | reading table k appends its entries after those already written, cut off where the buffer ends |
| Legacy.LeTabelas | Leo/src/main/java/App.java:33-43 | tables 3, 2, 1 are read in that order, each from where the last left the counter; the first exception ends the run |
| Legacy.Executa | Leo/src/main/java/App.java:28-46 | `main` produces the specified sheet, or the first exception |

## Left out

- Fetching the page: `getDocumento`, Jsoup, the URL and `select("table")`/`select("tr")`/`select("td")`.
  The page is a parameter: its tables, each as the text of the cells of its rows.
  A missing table is modelled as `MissingTable`. A `null` document from a failed fetch in the older App is not modelled.
- Writing the file: Apache POI, the workbook, `FileOutputStream`, and the `boolean` that `imprimeExcel` returns.
  The sheet is returned as a value, the rows it would hold.
- Logging (`slf4j`, `printStackTrace`): it has no effect on the result.
- The clock: the older `getNumeroMes` falls back to the month of the `Calendar` it creates.
  That month is the parameter `mesCorrente`.
- Locale data: the pt_BR full month names are written out as a table.
  The older App's `SimpleDateFormat` uses the default locale; the model assumes it is pt_BR.
  It also accepts abbreviated names and other lenient forms; the model accepts a full name at the start of the label, up to case.
- Rates: the rate of a `Registro` is kept as the normalised text. `Double.parseDouble` is modelled by the syntax it accepts. Hexadecimal floating-point literals are refused, and the double value is not modelled.
- Numbers.ParseInt: only the ASCII digits 0-9 are accepted. Java's `Character.digit` also accepts other Unicode decimal digits (Arabic-Indic, for example); the page prints years in ASCII.
- Case folding: only A-Z and Ç, the letters of the month names, are folded.
- Relatorio.Tabela: the newer `getTabela` collects records in a `HashSet` that compares by identity. Nothing is collapsed, and the records reach `addAll` in the order they were read; the actual hash-order iteration is not modelled.
- Legacy.App.ImprimeExcel: the buffer's cells start as `""`, not `null`, so unwritten entries are not modelled. The program never reads an entry at or past the counter.
- Legacy.App.ImprimeExcel: `createRichTextString(...).toString()` is modelled as the identity.
- Concurrency: none in the source.

## Findings

| source | as written | input that shows it | evidently intended | confidence | as-written member | corrected member |
|---|---|---|---|---|---|---|
| Leo/src/main/java/relatorio/leo/App.java:96 | `getTabela` allocates `new String[COLUNAS_TABELA][LINHAS_TABELA]`, 9 rows of 13 cells, but indexes it [row][cell] at lines 104 and 112 | any table of ten or more rows of nine cells, e.g. a published rate table: a header row and twelve month rows | a 13 x 9 grid (`new String[LINHAS_TABELA][COLUNAS_TABELA]`), as the older App allocates it at Leo/src/main/java/App.java:68 | not executed | Relatorio.AsWrittenOverruns | Relatorio.CorrectedReadsFullTable |
