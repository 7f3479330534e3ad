/** The older App (default package). getTabela walks a table as the newer one
    does, but instead of building records it appends three strings per
    non-blank cell (year header, two-digit month, rate text) to a shared
    String[3][500] buffer, at the index kept in the static counter
    contadorRegistros. main reads tables 3, 2 and 1 into the buffer and
    imprimeExcel writes one sheet row per entry. */
module Legacy {
  import opened Failures
  import Text
  import Numbers
  import Months
  import Grid
  import opened Walks

  const COLUNAS_TABELA := Grid.COLUNAS_TABELA
  const LINHAS_TABELA := Grid.LINHAS_TABELA

  /** main's buffer: `new String[3][500]`. */
  const SLOTS: nat := 3
  const CAPACIDADE: nat := 500

  // ---------------------------------------------------------------------
  // getNumeroMes: SimpleDateFormat("MMMM") then SimpleDateFormat("MM")

  /** `text.regionMatches(true, 0, name, 0, name.length())`: the texto begins
      with the name, up to case. */
  predicate ComecaCom(texto: string, nome: string) {
    |texto| >= |nome| && Text.EqualsIgnoreCase(texto[..|nome|], nome)
  }

  /** The first month, after the k-th, whose full name begins the texto. */
  function MesPorPrefixo(texto: string, k: nat): (r: Option<int>)
    requires k <= 12
    ensures r.Some? ==> k < r.value <= 12
    decreases 12 - k
  {
    if k == 12 then None
    else if ComecaCom(texto, Months.MONTH_NAMES[k]) then Some(k + 1)
    else MesPorPrefixo(texto, k + 1)
  }

  /** The month found is one whose name begins the texto, and when none is
      found no month after the k-th has a name that begins it. */
  lemma {:induction false} MesPorPrefixoAcha(texto: string, k: nat)
    requires k <= 12
    ensures var r := MesPorPrefixo(texto, k);
      && (r.Some? ==> ComecaCom(texto, Months.MONTH_NAMES[r.value - 1]))
      && (r.None? ==> forall j :: k <= j < 12 ==> !ComecaCom(texto, Months.MONTH_NAMES[j]))
    decreases 12 - k
  {
    if k < 12 && !ComecaCom(texto, Months.MONTH_NAMES[k]) {
      MesPorPrefixoAcha(texto, k + 1);
    }
  }

  /** The first three letters of a text, lower-cased. */
  function Inicio(t: string): (p: string)
    requires |t| >= 3
    ensures |p| == 3
  {
    [Text.ToLower(t[0]), Text.ToLower(t[1]), Text.ToLower(t[2])]
  }

  /** The month whose name begins with the three letters p, or 0. */
  function MesDoInicio(p: string): int {
    if p == "jan" then 1 else if p == "fev" then 2 else if p == "mar" then 3
    else if p == "abr" then 4 else if p == "mai" then 5 else if p == "jun" then 6
    else if p == "jul" then 7 else if p == "ago" then 8 else if p == "set" then 9
    else if p == "out" then 10 else if p == "nov" then 11 else if p == "dez" then 12
    else 0
  }

  /** The first three letters of a month's name tell which month it is. */
  lemma InicioIdentifies(k: int)
    requires 0 <= k < 12
    ensures |Months.MONTH_NAMES[k]| >= 3 && MesDoInicio(Inicio(Months.MONTH_NAMES[k])) == k + 1
  {
    var inicios := ["jan", "fev", "mar", "abr", "mai", "jun", "jul", "ago", "set", "out", "nov", "dez"];
    assert Inicio(Months.MONTH_NAMES[k]) == inicios[k];
  }

  /** A text that begins with a month's name, up to case, begins with its three letters. */
  lemma InicioOf(texto: string, k: int)
    requires 0 <= k < 12 && ComecaCom(texto, Months.MONTH_NAMES[k])
    ensures |texto| >= 3 && MesDoInicio(Inicio(texto)) == k + 1
  {
    InicioIdentifies(k);
    var nome := Months.MONTH_NAMES[k];
    forall i | 0 <= i < 3
      ensures Text.ToLower(texto[i]) == Text.ToLower(nome[i])
    {
      assert Text.CharEqualsIgnoreCase(texto[..|nome|][i], nome[i]);
    }
    assert Inicio(texto) == Inicio(nome);
  }

  /** A text that begins with one month's name begins with no other's. */
  lemma PrefixExcludes(texto: string, a: int, b: int)
    requires 0 <= a < 12 && 0 <= b < 12 && a != b
    requires ComecaCom(texto, Months.MONTH_NAMES[a])
    ensures !ComecaCom(texto, Months.MONTH_NAMES[b])
  {
    InicioOf(texto, a);
    if ComecaCom(texto, Months.MONTH_NAMES[b]) {
      InicioOf(texto, b);
    }
  }

  /** The month the "MMMM" parse sets: the one whose full name begins the
      texto, up to case; None stands for the ParseException. Of all names
      that begin the texto the parse takes the longest, and there is at most one. */
  function MesDoRotulo(texto: string): (r: Option<int>)
    ensures r.Some? ==> Months.IsMonth(r.value)
  {
    MesPorPrefixo(texto, 0)
  }

  /** A texto parses to month m exactly when it begins with m's full name. */
  lemma MesDoRotuloExato(texto: string, m: int)
    requires Months.IsMonth(m)
    ensures MesDoRotulo(texto) == Some(m) <==> ComecaCom(texto, Months.MONTH_NAMES[m - 1])
  {
    var r := MesDoRotulo(texto);
    MesPorPrefixoAcha(texto, 0);
    if ComecaCom(texto, Months.MONTH_NAMES[m - 1]) && r.Some? && r.value != m {
      PrefixExcludes(texto, m - 1, r.value - 1);
    }
  }

  /** Both Apps read a texto that spells a month's full name as that month. */
  lemma ExactNameAgrees(texto: string)
    requires Months.GetNumeroMes(texto).Some?
    ensures MesDoRotulo(texto) == Months.GetNumeroMes(texto)
  {
    var m := Months.GetNumeroMes(texto).value;
    Months.GetNumeroMesExact(texto, m);
    assert texto[..|texto|] == texto;
    MesDoRotuloExato(texto, m);
  }

  /** getNumeroMes: the parsed month, or the current month when the parse
      fails (the Calendar keeps the time it was created with), formatted as
      two digits. mesCorrente is that current month. */
  function GetNumeroMes(nome: string, mesCorrente: int): (r: string)
    requires Months.IsMonth(mesCorrente)
    ensures |r| == 2 && (r[0] == '0' || r[0] == '1')
  {
    Months.TwoDigits(MesDoRotulo(nome).GetOr(mesCorrente))
  }

  /** The two digits getNumeroMes returns read back as the label's month, or
      as the current month when the label names none. */
  lemma GetNumeroMesValor(nome: string, mesCorrente: int)
    requires Months.IsMonth(mesCorrente)
    ensures MesDoRotulo(nome).Some? ==> Numbers.ParseInt(GetNumeroMes(nome, mesCorrente)) == MesDoRotulo(nome)
    ensures MesDoRotulo(nome).None? ==> Numbers.ParseInt(GetNumeroMes(nome, mesCorrente)) == Some(mesCorrente)
  {
    Months.TwoDigitsParses(MesDoRotulo(nome).GetOr(mesCorrente));
  }
  // ---------------------------------------------------------------------
  // getTabela's walk, on an unbounded buffer

  /** What the walk reads for non-blank cell [y][col]: the column's header,
      the row's label and the cell's text, before getNumeroMes. */
  datatype Lida = Lida(ano: string, rotulo: string, taxa: string)

  /** The reading of non-blank cell [y][col]. */
  function LidaDe(rows: Grid.Table, col: nat, y: nat): Lida
    requires Grid.Wide(rows) && 1 <= col < COLUNAS_TABELA && y < |rows|
  {
    Lida(rows[0][col], rows[y][0], rows[y][col])
  }

  /** Cell [y][col] of the 13-row grid: null past the table's last row, a
      blank ends the column, any other is read. */
  function Celula(rows: Grid.Table, col: nat, y: nat): Passo<Lida>
    requires Grid.Filled(rows, LINHAS_TABELA) && 1 <= col < COLUNAS_TABELA
  {
    if y >= |rows| then Falha(NullCell)
    else if Text.IsBlank(rows[y][col]) then Fim
    else Novo(LidaDe(rows, col, y))
  }

  function Celulas(rows: Grid.Table, col: nat): (ps: seq<Passo<Lida>>)
    requires Grid.Filled(rows, LINHAS_TABELA) && 1 <= col < COLUNAS_TABELA
    ensures |ps| == LINHAS_TABELA
  {
    seq(LINHAS_TABELA, y requires 0 <= y < LINHAS_TABELA => Celula(rows, col, y))
  }

  /** The steps of a column follow its cells: the walk ends at a blank one. */
  lemma CelulasFollow(rows: Grid.Table, col: nat)
    requires Grid.Filled(rows, LINHAS_TABELA) && 1 <= col < COLUNAS_TABELA
    ensures Follows(Celulas(rows, col), rows, col)
  {
  }

  /** A step reads a cell of the table, or throws only on a row past the table. */
  lemma CelulaMeaning(rows: Grid.Table, col: nat, y: nat)
    requires Grid.Filled(rows, LINHAS_TABELA) && 1 <= col < COLUNAS_TABELA
    ensures Celula(rows, col, y).Novo? ==>
      y < |rows| && !Text.IsBlank(rows[y][col]) && Celula(rows, col, y).r == LidaDe(rows, col, y)
    ensures Celula(rows, col, y).Falha? <==> y >= |rows|
    ensures Celula(rows, col, y).Falha? ==> Celula(rows, col, y).e == NullCell
  {
  }

  /** Where a column's walk stops: at its first blank when it does not
      throw, and past the table's last row when it does. */
  lemma ColunaStops(rows: Grid.Table, col: nat)
    requires Grid.Filled(rows, LINHAS_TABELA) && 1 <= col < COLUNAS_TABELA
    ensures var ps := Celulas(rows, col);
      var ls := Added(ps, 1);
      && 1 + |ls| <= Grid.FirstBlank(rows, col, 1)
      && (Thrown(ps, 1).None? ==> 1 + |ls| == Grid.FirstBlank(rows, col, 1))
      && (Thrown(ps, 1).Some? ==> Thrown(ps, 1) == Some(NullCell) && |rows| <= 1 + |ls|)
  {
    var ps := Celulas(rows, col);
    CelulasFollow(rows, col);
    AddedShape(ps, 1);
    StopBeforeBlank(ps, rows, col, 1);
    var k := FirstStop(ps, 1);
    if Thrown(ps, 1).None? {
      StopIsFirstBlank(ps, rows, col, 1);
    } else {
      CelulaMeaning(rows, col, k);
    }
  }

  /** The readings of one column come one per row from row 1 down, each from
      its own row: nothing below a blank is read. */
  lemma ColunaEntries(rows: Grid.Table, col: nat)
    requires Grid.Filled(rows, LINHAS_TABELA) && 1 <= col < COLUNAS_TABELA
    ensures var ls := Added(Celulas(rows, col), 1);
      && (ls == [] || |ls| < |rows|)
      && forall j :: 0 <= j < |ls| && 1 + j < |rows| ==> ls[j] == LidaDe(rows, col, 1 + j)
  {
    var ps := Celulas(rows, col);
    AddedShape(ps, 1);
    var ls := Added(ps, 1);
    if ls != [] {
      assert ps[1 + (|ls| - 1)] == Novo(ls[|ls| - 1]);
      CelulaMeaning(rows, col, |ls|);
    }
    forall j | 0 <= j < |ls| && 1 + j < |rows|
      ensures ls[j] == LidaDe(rows, col, 1 + j)
    {
      assert ps[1 + j] == Novo(ls[j]);
      CelulaMeaning(rows, col, 1 + j);
    }
  }

  /** The walk over columns col..8: what it reads, in order, and the
      exception it ends in, if any. What a column read before throwing stays. */
  function Saida(rows: Grid.Table, col: nat): (seq<Lida>, Option<Error>)
    requires Grid.Filled(rows, LINHAS_TABELA) && 1 <= col <= COLUNAS_TABELA
    decreases COLUNAS_TABELA - col
  {
    if col == COLUNAS_TABELA then ([], None)
    else
      var ps := Celulas(rows, col);
      if Thrown(ps, 1).Some? then (Added(ps, 1), Thrown(ps, 1))
      else
        var rest := Saida(rows, col + 1);
        (Added(ps, 1) + rest.0, rest.1)
  }

  /** A walk over the columns that does not throw reads one entry per
      non-blank cell (the sum over the columns of the rows before their
      first blank), each from a data cell, never row 0 or column 0. */
  lemma {:induction false} SaidaShape(rows: Grid.Table, col: nat)
    requires Grid.Filled(rows, LINHAS_TABELA) && 1 <= col <= COLUNAS_TABELA
    requires Saida(rows, col).1.None?
    ensures |Saida(rows, col).0| == Grid.BlankPrefixTotal(rows, col)
    ensures forall l :: l in Saida(rows, col).0 ==>
      exists i, y :: (col <= i < COLUNAS_TABELA && 1 <= y < |rows| && !Text.IsBlank(rows[y][i]) &&
        l == LidaDe(rows, i, y))
    decreases COLUNAS_TABELA - col
  {
    if col < COLUNAS_TABELA {
      var ps := Celulas(rows, col);
      ColunaStops(rows, col);
      ColunaEntries(rows, col);
      SaidaShape(rows, col + 1);
      var here, rest := Added(ps, 1), Saida(rows, col + 1).0;
      forall l | l in here + rest
        ensures exists i, y :: (col <= i < COLUNAS_TABELA && 1 <= y < |rows| && !Text.IsBlank(rows[y][i]) &&
          l == LidaDe(rows, i, y))
      {
        if l in here {
          var j :| 0 <= j < |here| && here[j] == l;
          assert 1 + j < Grid.FirstBlank(rows, col, 1);
          assert !Text.IsBlank(rows[1 + j][col]);
        } else {
          assert l in rest;
        }
      }
    }
  }

  /** getTabela on a buffer with room for everything: the fill, which throws
      before anything is read, then the walk. */
  function Leitura(rows: Grid.Table): (seq<Lida>, Option<Error>) {
    match Grid.FillError(rows, LINHAS_TABELA, 0)
    case Some(e) => ([], Some(e))
    case None => Saida(rows, 1)
  }

  // ---------------------------------------------------------------------
  // The buffer's contents

  /** One buffer entry: what slots 0, 1 and 2 hold at one index. */
  datatype Entrada = Entrada(ano: string, mes: string, taxa: string)

  /** The entry written for a reading: header and rate as read, the label
      through getNumeroMes. */
  function Formata(l: Lida, mesCorrente: int): Entrada
    requires Months.IsMonth(mesCorrente)
  {
    Entrada(l.ano, GetNumeroMes(l.rotulo, mesCorrente), l.taxa)
  }

  /** The entries written for readings ls, in order. */
  function Formatadas(ls: seq<Lida>, mesCorrente: int): (es: seq<Entrada>)
    requires Months.IsMonth(mesCorrente)
    ensures |es| == |ls|
  {
    seq(|ls|, j requires 0 <= j < |ls| => Formata(ls[j], mesCorrente))
  }

  /** Formatting readings a + b formats a, then b. */
  lemma FormatadasConcat(a: seq<Lida>, b: seq<Lida>, mesCorrente: int)
    requires Months.IsMonth(mesCorrente)
    ensures Formatadas(a + b, mesCorrente) == Formatadas(a, mesCorrente) + Formatadas(b, mesCorrente)
  {
  }

  /** v with the entries w written from index at on; what falls past the end
      of v is dropped. */
  function Sobrepoe(v: seq<Entrada>, at: nat, w: seq<Entrada>): (r: seq<Entrada>)
    ensures |r| == |v|
  {
    seq(|v|, j requires 0 <= j < |v| => if at <= j < at + |w| then w[j - at] else v[j])
  }

  /** Writing nothing changes nothing. */
  lemma SobrepoeNada(v: seq<Entrada>, at: nat)
    ensures Sobrepoe(v, at, []) == v
  {
  }

  /** Writing w from index at leaves every entry below at, and every entry
      past the last one written, as it was. */
  lemma SobrepoeMantem(v: seq<Entrada>, at: nat, w: seq<Entrada>)
    ensures forall j :: 0 <= j < |v| && j < at ==> Sobrepoe(v, at, w)[j] == v[j]
    ensures forall j :: at + |w| <= j < |v| ==> Sobrepoe(v, at, w)[j] == v[j]
    ensures forall j :: at <= j < at + |w| && j < |v| ==> Sobrepoe(v, at, w)[j] == w[j - at]
  {
  }

  /** Writing one more entry is an update at the next index. */
  lemma SobrepoeMais(v: seq<Entrada>, at: nat, w: seq<Entrada>, x: Entrada)
    requires at + |w| < |v|
    ensures Sobrepoe(v, at, w)[at + |w| := x] == Sobrepoe(v, at, w + [x])
  {
  }

  /** Writing a, then b right after it, writes a + b. */
  lemma SobrepoeSobrepoe(v: seq<Entrada>, at: nat, a: seq<Entrada>, b: seq<Entrada>)
    ensures Sobrepoe(Sobrepoe(v, at, a), at + |a|, b) == Sobrepoe(v, at, a + b)
  {
  }

  /** What is written from index 0 is read back from index 0. */
  lemma SobrepoeLe(v: seq<Entrada>, w: seq<Entrada>)
    requires |w| <= |v|
    ensures Sobrepoe(v, 0, w)[..|w|] == w
  {
  }

  /** The buffer after one more entry: what it held, the entries of the
      readings ls written from at, then the entry of l right after them. */
  lemma EscritaMais(antes: seq<Entrada>, depois: seq<Entrada>, v0: seq<Entrada>, at: nat,
                    ls: seq<Lida>, pos: nat, l: Lida, mesCorrente: int)
    requires Months.IsMonth(mesCorrente) && pos == at + |ls| && pos < |v0|
    requires antes == Sobrepoe(v0, at, Formatadas(ls, mesCorrente))
    requires depois == antes[pos := Formata(l, mesCorrente)]
    ensures depois == Sobrepoe(v0, at, Formatadas(ls + [l], mesCorrente))
  {
    SobrepoeMais(v0, at, Formatadas(ls, mesCorrente), Formata(l, mesCorrente));
    FormatadasConcat(ls, [l], mesCorrente);
  }

  /** The buffer after one more column: what it held, the entries of the
      readings feito written from at, then those of c right after them. */
  lemma EscritaSegue(antes: seq<Entrada>, depois: seq<Entrada>, v0: seq<Entrada>, at: nat,
                     feito: seq<Lida>, pos: nat, c: seq<Lida>, mesCorrente: int)
    requires Months.IsMonth(mesCorrente) && pos == at + |feito|
    requires antes == Sobrepoe(v0, at, Formatadas(feito, mesCorrente))
    requires depois == Sobrepoe(antes, pos, Formatadas(c, mesCorrente))
    ensures depois == Sobrepoe(v0, at, Formatadas(feito + c, mesCorrente))
  {
    SobrepoeSobrepoe(v0, at, Formatadas(feito, mesCorrente), Formatadas(c, mesCorrente));
    FormatadasConcat(feito, c, mesCorrente);
  }

  // ---------------------------------------------------------------------
  // The bounded buffer

  /** How many of n entries fit into a buffer row of cap slots from index
      at: all of them, or as many as there is room for. */
  function Cabem(at: nat, cap: nat, n: nat): (k: nat)
    ensures k <= n
    ensures k == 0 || at + k <= cap
    ensures k < n ==> at + k >= cap
  {
    if at >= cap then 0 else if n <= cap - at then n else cap - at
  }

  /** Appending a then b writes the same as appending a + b. */
  lemma CabemSplit(at: nat, cap: nat, a: nat, b: nat)
    ensures Cabem(at, cap, a + b) ==
      if Cabem(at, cap, a) < a then Cabem(at, cap, a) else a + Cabem(at + a, cap, b)
  {
  }

  /** What a walk that read l on an unbounded buffer writes into a buffer row
      of cap slots from index at: the readings that fit, and the exception
      it ends in, the overrun of the first that does not fit or else the
      walk's own. */
  function Grava<T>(at: nat, cap: nat, l: (seq<T>, Option<Error>)): (g: (seq<T>, Option<Error>))
    ensures |g.0| <= |l.0| && g.0 == l.0[..|g.0|]
    ensures g.0 == [] || at + |g.0| <= cap
    ensures g.1.None? <==> l.1.None? && (l.0 == [] || at + |l.0| <= cap)
    ensures g.1.None? ==> g.0 == l.0
    ensures g.1.Some? && l.1.None? ==> g.1 == Some(ArrayOverrun)
  {
    var k := Cabem(at, cap, |l.0|);
    (l.0[..k], if k < |l.0| then Some(ArrayOverrun) else l.1)
  }

  /** Writing one column's outcome c and then, if it did not throw, the rest:
      the first exception, from either the walk or the buffer, ends it. */
  lemma GravaPasso<T>(at: nat, cap: nat, c: (seq<T>, Option<Error>), rest: (seq<T>, Option<Error>))
    ensures var g := Grava(at, cap, c);
      var h := Grava(at + |c.0|, cap, rest);
      Grava(at, cap, if c.1.Some? then c else (c.0 + rest.0, rest.1)) ==
        if g.1.Some? then g else (c.0 + h.0, h.1)
  {
    CabemSplit(at, cap, |c.0|, |rest.0|);
    var k := Cabem(at, cap, |c.0|);
    if c.1.None? {
      if k < |c.0| {
        assert (c.0 + rest.0)[..k] == c.0[..k];
      } else {
        var k2 := Cabem(at + |c.0|, cap, |rest.0|);
        assert (c.0 + rest.0)[..|c.0| + k2] == c.0 + rest.0[..k2];
      }
    }
  }

  /** acc followed by what r wrote, r's exception passing through. */
  function Segue<T>(acc: seq<T>, r: (seq<T>, Option<Error>)): (seq<T>, Option<Error>) {
    (acc + r.0, r.1)
  }

  lemma SegueNada<T>(r: (seq<T>, Option<Error>))
    ensures Segue([], r) == r
  {
    assert [] + r.0 == r.0;
  }

  lemma SegueFim<T>(acc: seq<T>, e: Option<Error>)
    ensures Segue(acc, ([], e)) == (acc, e)
  {
    assert acc + [] == acc;
  }

  /** The inner loop of getTabela from row y on, the counter being at: each
      step that reads writes its reading at the counter, or throws when the
      counter is past the buffer. What it writes, and the exception. */
  function EscreveDesde<T>(ps: seq<Passo<T>>, y: nat, at: nat, cap: nat): (seq<T>, Option<Error>)
    decreases |ps| - y
  {
    if y >= |ps| then ([], None)
    else
      match ps[y]
      case Fim => ([], None)
      case Falha(e) => ([], Some(e))
      case Novo(r) =>
        if at >= cap then ([], Some(ArrayOverrun))
        else Segue([r], EscreveDesde(ps, y + 1, at + 1, cap))
  }

  /** One reading written: it joins what was written before. */
  lemma EscreveUm<T>(acc: seq<T>, ps: seq<Passo<T>>, y: nat, at: nat, cap: nat)
    requires y < |ps| && ps[y].Novo? && at < cap
    ensures Segue(acc, EscreveDesde(ps, y, at, cap)) == Segue(acc + [ps[y].r], EscreveDesde(ps, y + 1, at + 1, cap))
  {
    var rest := EscreveDesde(ps, y + 1, at + 1, cap);
    assert acc + ([ps[y].r] + rest.0) == (acc + [ps[y].r]) + rest.0;
  }

  /** A column written reading by reading is the column's walk cut off where
      the buffer ends. */
  lemma {:induction false} EscreveDesdeGrava<T>(ps: seq<Passo<T>>, y: nat, at: nat, cap: nat)
    requires y <= |ps|
    ensures EscreveDesde(ps, y, at, cap) == Grava(at, cap, (Added(ps, y), Thrown(ps, y)))
    decreases |ps| - y
  {
    if y < |ps| && ps[y].Novo? {
      EscreveDesdeGrava(ps, y + 1, at + 1, cap);
      var r, tail := ps[y].r, Added(ps, y + 1);
      assert Added(ps, y) == [r] + tail;
      assert Thrown(ps, y) == Thrown(ps, y + 1);
      if at < cap {
        var k := Cabem(at + 1, cap, |tail|);
        assert Cabem(at, cap, 1 + |tail|) == 1 + k;
        assert ([r] + tail)[..1 + k] == [r] + tail[..k];
      }
    }
  }

  /** The steps of columns 0..8 of the filled grid; column 0 holds the
      labels and is never walked. */
  function Colunas(rows: Grid.Table): (cols: seq<seq<Passo<Lida>>>)
    requires Grid.Filled(rows, LINHAS_TABELA)
    ensures |cols| == COLUNAS_TABELA
  {
    seq(COLUNAS_TABELA, c requires 0 <= c < COLUNAS_TABELA => if c == 0 then [] else Celulas(rows, c))
  }

  /** The column loop of getTabela over the steps cols of the columns, from
      column i on, the counter being at. */
  function EscreveColunas<T>(cols: seq<seq<Passo<T>>>, i: nat, at: nat, cap: nat): (seq<T>, Option<Error>)
    decreases |cols| - i
  {
    if i >= |cols| then ([], None)
    else
      var w := EscreveDesde(cols[i], 1, at, cap);
      if w.1.Some? then w
      else Segue(w.0, EscreveColunas(cols, i + 1, at + |w.0|, cap))
  }

  /** One column written, from counter at to counter depois: it joins what
      was written before, and ends the loop if it threw. */
  lemma ColunaSegue<T>(whole: (seq<T>, Option<Error>), cols: seq<seq<Passo<T>>>, feito: seq<T>, i: nat, at: nat, cap: nat,
                       c: (seq<T>, Option<Error>), depois: nat)
    requires i < |cols| && whole == Segue(feito, EscreveColunas(cols, i, at, cap))
    requires c == EscreveDesde(cols[i], 1, at, cap) && depois == at + |c.0|
    ensures c.1.Some? ==> whole == Segue(feito, c)
    ensures c.1.None? ==> whole == Segue(feito + c.0, EscreveColunas(cols, i + 1, depois, cap))
  {
    var rest := EscreveColunas(cols, i + 1, depois, cap);
    assert feito + (c.0 + rest.0) == (feito + c.0) + rest.0;
  }

  /** One step of the column loop over the bounded buffer: if column i's
      writes are its outcome c cut off, and the later columns' are r cut off
      after them, then the loop from i on writes c, then r, cut off. */
  lemma ColunasPasso<T>(cols: seq<seq<Passo<T>>>, i: nat, ps: seq<Passo<T>>, at: nat, cap: nat,
                        c: (seq<T>, Option<Error>), r: (seq<T>, Option<Error>))
    requires i < |cols| && cols[i] == ps && EscreveDesde(ps, 1, at, cap) == Grava(at, cap, c)
    requires EscreveColunas(cols, i + 1, at + |c.0|, cap) == Grava(at + |c.0|, cap, r)
    ensures EscreveColunas(cols, i, at, cap) == Grava(at, cap, if c.1.Some? then c else (c.0 + r.0, r.1))
  {
    GravaPasso(at, cap, c, r);
  }

  /** One step of Saida: column col's walk, then, if it did not throw, the rest. */
  lemma SaidaPasso(rows: Grid.Table, col: nat, c: (seq<Lida>, Option<Error>))
    requires Grid.Filled(rows, LINHAS_TABELA) && 1 <= col < COLUNAS_TABELA
    requires c == (Added(Celulas(rows, col), 1), Thrown(Celulas(rows, col), 1))
    ensures Saida(rows, col) == if c.1.Some? then c else (c.0 + Saida(rows, col + 1).0, Saida(rows, col + 1).1)
  {
  }

  /** The columns written reading by reading are the walk over them cut off
      where the buffer ends. */
  lemma {:induction false} EscreveColunasGrava(rows: Grid.Table, col: nat, at: nat, cap: nat)
    requires Grid.Filled(rows, LINHAS_TABELA) && 1 <= col <= COLUNAS_TABELA
    ensures EscreveColunas(Colunas(rows), col, at, cap) == Grava(at, cap, Saida(rows, col))
    decreases COLUNAS_TABELA - col
  {
    if col < COLUNAS_TABELA {
      var ps, cols := Celulas(rows, col), Colunas(rows);
      assert cols[col] == ps;
      var c := (Added(ps, 1), Thrown(ps, 1));
      EscreveDesdeGrava(ps, 1, at, cap);
      EscreveColunasGrava(rows, col + 1, at + |c.0|, cap);
      SaidaPasso(rows, col, c);
      ColunasPasso(cols, col, ps, at, cap, c, Saida(rows, col + 1));
    }
  }

  /** getTabela with the counter at: the fill, which throws before anything
      is written, then the column loop. */
  function EscreveTabela(rows: Grid.Table, at: nat, cap: nat): (seq<Lida>, Option<Error>) {
    match Grid.FillError(rows, LINHAS_TABELA, 0)
    case Some(e) => ([], Some(e))
    case None => EscreveColunas(Colunas(rows), 1, at, cap)
  }

  /** getTabela on a bounded buffer writes what it would write on an
      unbounded one, up to the first reading that does not fit, which throws. */
  lemma EscreveTabelaGrava(rows: Grid.Table, at: nat, cap: nat)
    ensures EscreveTabela(rows, at, cap) == Grava(at, cap, Leitura(rows))
  {
    if Grid.FillError(rows, LINHAS_TABELA, 0).None? {
      EscreveColunasGrava(rows, 1, at, cap);
    }
  }

  /** getTabela writes nothing past the end of the buffer. */
  lemma EscreveTabelaCabe(rows: Grid.Table, at: nat, cap: nat)
    ensures var w := EscreveTabela(rows, at, cap).0;
      w == [] || at + |w| <= cap
  {
    EscreveTabelaGrava(rows, at, cap);
  }

  /** getTabela, when it does not throw, writes exactly what the walk reads:
      one entry per non-blank cell before its column's first blank, so the
      counter grows by the sum over columns 1..8 of those cells. */
  lemma EscreveTabelaConta(rows: Grid.Table, at: nat, cap: nat)
    requires EscreveTabela(rows, at, cap).1.None?
    ensures Grid.Filled(rows, LINHAS_TABELA) && Leitura(rows).1.None?
    ensures EscreveTabela(rows, at, cap).0 == Leitura(rows).0
    ensures |EscreveTabela(rows, at, cap).0| == Grid.BlankPrefixTotal(rows, 1)
  {
    EscreveTabelaGrava(rows, at, cap);
    SaidaShape(rows, 1);
  }

  /** Entry e is what getTabela writes for one non-blank data cell of rows:
      slot 0 the column's header and slot 2 the cell's text, both verbatim,
      and slot 1 getNumeroMes of the row's label. */
  ghost predicate VemDaCelula(rows: Grid.Table, e: Entrada, mesCorrente: int)
    requires Months.IsMonth(mesCorrente)
  {
    exists i, y ::
      && 1 <= i < COLUNAS_TABELA && 1 <= y < |rows| && |rows[0]| > i && |rows[y]| > i
      && !Text.IsBlank(rows[y][i])
      && e == Entrada(rows[0][i], GetNumeroMes(rows[y][0], mesCorrente), rows[y][i])
  }

  lemma FormataVemDaCelula(rows: Grid.Table, l: Lida, mesCorrente: int)
    requires Months.IsMonth(mesCorrente) && Grid.Filled(rows, LINHAS_TABELA)
    requires exists i, y :: (1 <= i < COLUNAS_TABELA && 1 <= y < |rows| && !Text.IsBlank(rows[y][i]) &&
      l == LidaDe(rows, i, y))
    ensures VemDaCelula(rows, Formata(l, mesCorrente), mesCorrente)
  {
    var i, y :| 1 <= i < COLUNAS_TABELA && 1 <= y < |rows| && !Text.IsBlank(rows[y][i]) && l == LidaDe(rows, i, y);
    assert Formata(l, mesCorrente) == Entrada(rows[0][i], GetNumeroMes(rows[y][0], mesCorrente), rows[y][i]);
  }

  /** Every entry of a table read without an exception comes from one
      non-blank data cell, its header and rate copied verbatim. */
  lemma EntradasVerbatim(rows: Grid.Table, mesCorrente: int)
    requires Months.IsMonth(mesCorrente) && Leitura(rows).1.None?
    ensures Grid.Filled(rows, LINHAS_TABELA)
    ensures var es := Formatadas(Leitura(rows).0, mesCorrente);
      forall k :: 0 <= k < |es| ==> VemDaCelula(rows, es[k], mesCorrente)
  {
    assert Grid.FillError(rows, LINHAS_TABELA, 0).None?;
    SaidaShape(rows, 1);
    var ls := Leitura(rows).0;
    assert ls == Saida(rows, 1).0;
    var es := Formatadas(ls, mesCorrente);
    forall k | 0 <= k < |es|
      ensures VemDaCelula(rows, es[k], mesCorrente)
    {
      assert ls[k] in ls;
      FormataVemDaCelula(rows, ls[k], mesCorrente);
    }
  }

  /** The page as main sees it: its tables in document order. */
  type Pagina = seq<Grid.Table>

  /** main: tables 3, 2 and 1 appended to the 3 x 500 buffer in that order,
      each from where the last left the counter, then one sheet row per
      entry; the first exception ends the program. */
  function Relatorio(page: Pagina, mesCorrente: int): Result<seq<Entrada>>
    requires Months.IsMonth(mesCorrente)
  {
    if |page| <= 3 then Err(MissingTable)
    else
      var w3 := Grava(0, CAPACIDADE, Leitura(page[3]));
      if w3.1.Some? then Err(w3.1.value)
      else
        var w2 := Grava(|w3.0|, CAPACIDADE, Leitura(page[2]));
        if w2.1.Some? then Err(w2.1.value)
        else
          var w1 := Grava(|w3.0| + |w2.0|, CAPACIDADE, Leitura(page[1]));
          if w1.1.Some? then Err(w1.1.value)
          else Ok(Formatadas(w3.0 + w2.0 + w1.0, mesCorrente))
  }

  /** Three walks l3, l2, l1 written one after another from index 0: all
      complete exactly when none throws and together they fit, and then
      everything read is written, in order. */
  lemma TresGravacoes<T>(l3: (seq<T>, Option<Error>), l2: (seq<T>, Option<Error>), l1: (seq<T>, Option<Error>),
                         cap: nat, g3: (seq<T>, Option<Error>), g2: (seq<T>, Option<Error>), g1: (seq<T>, Option<Error>))
    requires g3 == Grava(0, cap, l3) && g2 == Grava(|g3.0|, cap, l2) && g1 == Grava(|g3.0| + |g2.0|, cap, l1)
    ensures g3.1.None? && g2.1.None? && g1.1.None? <==>
      l3.1.None? && l2.1.None? && l1.1.None? && |l3.0| + |l2.0| + |l1.0| <= cap
    ensures g3.1.None? && g2.1.None? && g1.1.None? ==> g3.0 + g2.0 + g1.0 == l3.0 + l2.0 + l1.0
  {
  }

  /** main's sheet: it completes exactly when the page has the tables, none
      of their walks throws and the three fit the buffer together; then its
      rows are table 3's readings, then table 2's, then table 1's, unsorted,
      each through getNumeroMes. */
  lemma RelatorioConcatena(page: Pagina, mesCorrente: int)
    requires Months.IsMonth(mesCorrente)
    ensures Relatorio(page, mesCorrente).Ok? <==>
      && |page| > 3
      && Leitura(page[3]).1.None? && Leitura(page[2]).1.None? && Leitura(page[1]).1.None?
      && |Leitura(page[3]).0| + |Leitura(page[2]).0| + |Leitura(page[1]).0| <= CAPACIDADE
    ensures Relatorio(page, mesCorrente).Ok? ==>
      Relatorio(page, mesCorrente).value ==
        Formatadas(Leitura(page[3]).0 + Leitura(page[2]).0 + Leitura(page[1]).0, mesCorrente)
  {
    if |page| > 3 {
      var w3 := Grava(0, CAPACIDADE, Leitura(page[3]));
      var w2 := Grava(|w3.0|, CAPACIDADE, Leitura(page[2]));
      var w1 := Grava(|w3.0| + |w2.0|, CAPACIDADE, Leitura(page[1]));
      TresGravacoes(Leitura(page[3]), Leitura(page[2]), Leitura(page[1]), CAPACIDADE, w3, w2, w1);
    }
  }

  // ---------------------------------------------------------------------
  // The program's state

  /** Reading cell [y][col] of the filled 13 x 9 grid: a null cell throws on
      `toString()`, a blank one ends the column, any other is read. */
  method LeCelula(grid: array2<Option<string>>, rows: Grid.Table, col: nat, y: nat) returns (passo: Passo<Lida>)
    requires Grid.Holds(grid, rows) && grid.Length0 == LINHAS_TABELA && grid.Length1 >= Grid.CELLS_COPIED
    requires 1 <= col < COLUNAS_TABELA && 1 <= y < LINHAS_TABELA
    ensures passo == Celula(rows, col, y)
  {
    var cell := grid[y, col];
    assert cell == Grid.CellAt(rows, y, col);
    if cell.None? {
      return Falha(NullCell);
    }
    var texto := Text.Trim(cell.value);
    Text.BlankIffTrimEmpty(cell.value);
    if |texto| == 0 {
      return Fim;
    }
    var header, rotulo := grid[0, col], grid[y, 0];
    assert header == Grid.CellAt(rows, 0, col) && rotulo == Grid.CellAt(rows, y, 0);
    return Novo(Lida(header.value, rotulo.value, cell.value));
  }

  /** The buffer read index by index: entry j is what slots 0, 1 and 2 hold
      at index j. */
  ghost function Vista(buffer: array2<string>): (v: seq<Entrada>)
    requires buffer.Length0 == SLOTS
    reads buffer
    ensures |v| == buffer.Length1
  {
    seq(buffer.Length1, j requires 0 <= j < buffer.Length1 reads buffer =>
      Entrada(buffer[0, j], buffer[1, j], buffer[2, j]))
  }

  /** The class's static state: contadorRegistros, the index of the next
      free buffer entry. */
  class App {
    var contadorRegistros: nat

    /** Class initialisation: `contadorRegistros = 0`. */
    constructor()
      ensures contadorRegistros == 0
    {
      contadorRegistros := 0;
    }

    /** `tabelaFormatada[s][contadorRegistros] = ...` for the three slots,
        then `contadorRegistros++`: an index past the buffer throws before
        anything is written. */
    method Escreve(tabelaFormatada: array2<string>, entrada: Entrada) returns (erro: Option<Error>)
      requires tabelaFormatada.Length0 == SLOTS
      modifies this, tabelaFormatada
      ensures erro.Some? <==> old(contadorRegistros) >= tabelaFormatada.Length1
      ensures erro.Some? ==> erro == Some(ArrayOverrun) && contadorRegistros == old(contadorRegistros)
      ensures erro.Some? ==> Vista(tabelaFormatada) == old(Vista(tabelaFormatada))
      ensures erro.None? ==> contadorRegistros == old(contadorRegistros) + 1
      ensures erro.None? ==>
        Vista(tabelaFormatada) == old(Vista(tabelaFormatada))[old(contadorRegistros) := entrada]
    {
      var c := contadorRegistros;
      if c >= tabelaFormatada.Length1 {
        return Some(ArrayOverrun);
      }
      ghost var antes := Vista(tabelaFormatada);
      tabelaFormatada[0, c] := entrada.ano;
      tabelaFormatada[1, c] := entrada.mes;
      tabelaFormatada[2, c] := entrada.taxa;
      contadorRegistros := c + 1;
      assert Vista(tabelaFormatada) == antes[c := entrada];
      return None;
    }

    /** The inner loop of getTabela for column col of the filled grid: each
        non-blank cell's entry goes to index contadorRegistros of the buffer,
        which then moves on. */
    method AnexaColuna(grid: array2<Option<string>>, rows: Grid.Table, col: nat,
                       tabelaFormatada: array2<string>, mesCorrente: int, ghost cols: seq<seq<Passo<Lida>>>)
      returns (erro: Option<Error>)
      requires Grid.Holds(grid, rows) && grid.Length0 == LINHAS_TABELA && grid.Length1 >= Grid.CELLS_COPIED
      requires 1 <= col < COLUNAS_TABELA && Months.IsMonth(mesCorrente)
      requires tabelaFormatada.Length0 == SLOTS && cols == Colunas(rows)
      modifies this, tabelaFormatada
      ensures var w := EscreveDesde(cols[col], 1, old(contadorRegistros), tabelaFormatada.Length1);
        && contadorRegistros == old(contadorRegistros) + |w.0|
        && erro == w.1
        && Vista(tabelaFormatada) ==
             Sobrepoe(old(Vista(tabelaFormatada)), old(contadorRegistros), Formatadas(w.0, mesCorrente))
    {
      ghost var ps := cols[col];
      assert ps == Celulas(rows, col);
      ghost var at := contadorRegistros;
      ghost var v0 := Vista(tabelaFormatada);
      var cap := tabelaFormatada.Length1;
      ghost var whole := EscreveDesde(ps, 1, at, cap);
      ghost var escrito: seq<Lida> := [];
      SobrepoeNada(v0, at);
      SegueNada(whole);
      var y := 1;
      while y < LINHAS_TABELA
        invariant 1 <= y <= LINHAS_TABELA
        invariant contadorRegistros == at + |escrito|
        invariant Vista(tabelaFormatada) == Sobrepoe(v0, at, Formatadas(escrito, mesCorrente))
        invariant whole == Segue(escrito, EscreveDesde(ps, y, contadorRegistros, cap))
      {
        var passo := LeCelula(grid, rows, col, y);
        assert passo == ps[y];
        if passo.Falha? {
          SegueFim(escrito, Some(passo.e));
          return Some(passo.e);
        }
        if passo.Fim? {
          break;
        }
        var entrada := Formata(passo.r, mesCorrente);
        ghost var vAntes := Vista(tabelaFormatada);
        ghost var pos := contadorRegistros;
        if contadorRegistros >= cap {
          SegueFim(escrito, Some(ArrayOverrun));
        } else {
          EscreveUm(escrito, ps, y, contadorRegistros, cap);
        }
        var e := Escreve(tabelaFormatada, entrada);
        if e.Some? {
          return e;
        }
        EscritaMais(vAntes, Vista(tabelaFormatada), v0, at, escrito, pos, passo.r, mesCorrente);
        escrito := escrito + [passo.r];
        y := y + 1;
      }
      SegueFim(escrito, None);
      return None;
    }

    /** The column loop of getTabela over the filled grid: the entries of
        columns 1..8 appended to the buffer, column by column. */
    method AnexaColunas(grid: array2<Option<string>>, rows: Grid.Table, tabelaFormatada: array2<string>,
                        mesCorrente: int, ghost cols: seq<seq<Passo<Lida>>>) returns (erro: Option<Error>)
      requires Grid.Holds(grid, rows) && grid.Length0 == LINHAS_TABELA && grid.Length1 == COLUNAS_TABELA
      requires tabelaFormatada.Length0 == SLOTS && Months.IsMonth(mesCorrente) && cols == Colunas(rows)
      modifies this, tabelaFormatada
      ensures var w := EscreveColunas(cols, 1, old(contadorRegistros), tabelaFormatada.Length1);
        && contadorRegistros == old(contadorRegistros) + |w.0|
        && erro == w.1
        && Vista(tabelaFormatada) ==
             Sobrepoe(old(Vista(tabelaFormatada)), old(contadorRegistros), Formatadas(w.0, mesCorrente))
    {
      ghost var v0 := Vista(tabelaFormatada);
      ghost var at := contadorRegistros;
      var cap := tabelaFormatada.Length1;
      SobrepoeNada(v0, at);
      ghost var whole := EscreveColunas(cols, 1, at, cap);
      ghost var feito: seq<Lida> := [];
      SegueNada(whole);
      var i := 1;
      while i < COLUNAS_TABELA
        invariant 1 <= i <= COLUNAS_TABELA
        invariant contadorRegistros == at + |feito|
        invariant Vista(tabelaFormatada) == Sobrepoe(v0, at, Formatadas(feito, mesCorrente))
        invariant whole == Segue(feito, EscreveColunas(cols, i, contadorRegistros, cap))
        modifies this, tabelaFormatada
      {
        var e, c := ProximaColuna(grid, rows, i, tabelaFormatada, mesCorrente, cols, v0, at, feito, whole);
        if e.Some? {
          return e;
        }
        feito := feito + c.0;
        i := i + 1;
      }
      SegueFim(feito, None);
      return None;
    }

    /** One turn of the column loop: column i's entries go after those of
        the columns before it (feito), and the loop either stops with the
        exception or carries on with column i + 1. */
    method ProximaColuna(grid: array2<Option<string>>, rows: Grid.Table, i: nat, tabelaFormatada: array2<string>,
                         mesCorrente: int, ghost cols: seq<seq<Passo<Lida>>>, ghost v0: seq<Entrada>, ghost at: nat,
                         ghost feito: seq<Lida>, ghost whole: (seq<Lida>, Option<Error>))
      returns (e: Option<Error>, ghost c: (seq<Lida>, Option<Error>))
      requires Grid.Holds(grid, rows) && grid.Length0 == LINHAS_TABELA && grid.Length1 == COLUNAS_TABELA
      requires 1 <= i < COLUNAS_TABELA
      requires tabelaFormatada.Length0 == SLOTS && Months.IsMonth(mesCorrente) && cols == Colunas(rows)
      requires contadorRegistros == at + |feito|
      requires Vista(tabelaFormatada) == Sobrepoe(v0, at, Formatadas(feito, mesCorrente))
      requires whole == Segue(feito, EscreveColunas(cols, i, contadorRegistros, tabelaFormatada.Length1))
      modifies this, tabelaFormatada
      ensures e == c.1 && contadorRegistros == at + |feito + c.0|
      ensures Vista(tabelaFormatada) == Sobrepoe(v0, at, Formatadas(feito + c.0, mesCorrente))
      ensures e.Some? ==> whole == (feito + c.0, e)
      ensures e.None? ==> whole == Segue(feito + c.0, EscreveColunas(cols, i + 1, contadorRegistros, tabelaFormatada.Length1))
    {
      var cap := tabelaFormatada.Length1;
      ghost var antes := contadorRegistros;
      ghost var vAntes := Vista(tabelaFormatada);
      c := EscreveDesde(cols[i], 1, antes, cap);
      e := AnexaColuna(grid, rows, i, tabelaFormatada, mesCorrente, cols);
      EscritaSegue(vAntes, Vista(tabelaFormatada), v0, at, feito, antes, c.0, mesCorrente);
      ColunaSegue(whole, cols, feito, i, antes, cap, c, contadorRegistros);
    }

    /** getTabela: copy the table into a 13 x 9 grid, then append the entries
        of columns 1..8 to the buffer. */
    method GetTabela(rows: Grid.Table, tabelaFormatada: array2<string>, mesCorrente: int) returns (erro: Option<Error>)
      requires tabelaFormatada.Length0 == SLOTS && Months.IsMonth(mesCorrente)
      modifies this, tabelaFormatada
      ensures var w := EscreveTabela(rows, old(contadorRegistros), tabelaFormatada.Length1);
        && contadorRegistros == old(contadorRegistros) + |w.0|
        && erro == w.1
        && Vista(tabelaFormatada) ==
             Sobrepoe(old(Vista(tabelaFormatada)), old(contadorRegistros), Formatadas(w.0, mesCorrente))
    {
      var grid, falha := Grid.Fill(rows, LINHAS_TABELA, COLUNAS_TABELA);
      if falha.Some? {
        SobrepoeNada(Vista(tabelaFormatada), contadorRegistros);
        return falha;
      }
      erro := AnexaColunas(grid, rows, tabelaFormatada, mesCorrente, Colunas(rows));
    }

    /** imprimeExcel: sheet row i holds the three slots of entry i, for i
        below the counter, and there is no header row. */
    method ImprimeExcel(tabelaString: array2<string>) returns (planilha: Result<seq<Entrada>>)
      requires tabelaString.Length0 == SLOTS
      ensures planilha.Ok? <==> contadorRegistros <= tabelaString.Length1
      ensures planilha.Ok? ==> planilha.value == Vista(tabelaString)[..contadorRegistros]
      ensures planilha.Err? ==> planilha.error == ArrayOverrun
    {
      var linhas: seq<Entrada> := [];
      var i := 0;
      while i < contadorRegistros
        invariant 0 <= i <= contadorRegistros && i <= tabelaString.Length1
        invariant linhas == Vista(tabelaString)[..i]
      {
        if i >= tabelaString.Length1 {
          return Err(ArrayOverrun);
        }
        linhas := linhas + [Entrada(tabelaString[0, i], tabelaString[1, i], tabelaString[2, i])];
        i := i + 1;
      }
      return Ok(linhas);
    }
  }

  /** `tabelaHTML = htmlPagina.select("table").get(k)` then getTabela: the
      entries of table k are appended after those of the readings written
      so far, cut off where the buffer ends. */
  method AdicionaTabela(app: App, page: Pagina, k: nat, tabelaFormatada: array2<string>, mesCorrente: int,
                        ghost v0: seq<Entrada>, ghost feito: seq<Lida>, ghost pos: nat)
    returns (erro: Option<Error>, ghost w: (seq<Lida>, Option<Error>))
    requires k < |page| && Months.IsMonth(mesCorrente)
    requires tabelaFormatada.Length0 == SLOTS && tabelaFormatada.Length1 == CAPACIDADE
    requires app.contadorRegistros == pos == |feito|
    requires Vista(tabelaFormatada) == Sobrepoe(v0, 0, Formatadas(feito, mesCorrente))
    modifies app, tabelaFormatada
    ensures w == Grava(pos, CAPACIDADE, Leitura(page[k])) && erro == w.1
    ensures app.contadorRegistros == pos + |w.0|
    ensures Vista(tabelaFormatada) == Sobrepoe(v0, 0, Formatadas(feito + w.0, mesCorrente))
  {
    w := EscreveTabela(page[k], pos, CAPACIDADE);
    ghost var vAntes := Vista(tabelaFormatada);
    erro := app.GetTabela(page[k], tabelaFormatada, mesCorrente);
    EscritaSegue(vAntes, Vista(tabelaFormatada), v0, 0, feito, pos, w.0, mesCorrente);
    EscreveTabelaGrava(page[k], pos, CAPACIDADE);
  }

  /** The three `getTabela` calls of main, for tables 3, 2 and 1 in that
      order, each after the entries of those before it; the first exception
      ends main. */
  method LeTabelas(app: App, page: Pagina, tabelaFormatada: array2<string>, mesCorrente: int, ghost v0: seq<Entrada>)
    returns (erro: Option<Error>, ghost w3: (seq<Lida>, Option<Error>), ghost w2: (seq<Lida>, Option<Error>),
             ghost w1: (seq<Lida>, Option<Error>))
    requires |page| > 3 && Months.IsMonth(mesCorrente)
    requires tabelaFormatada.Length0 == SLOTS && tabelaFormatada.Length1 == CAPACIDADE
    requires app.contadorRegistros == 0 && Vista(tabelaFormatada) == v0
    modifies app, tabelaFormatada
    ensures w3 == Grava(0, CAPACIDADE, Leitura(page[3]))
    ensures w2 == Grava(|w3.0|, CAPACIDADE, Leitura(page[2]))
    ensures w1 == Grava(|w3.0| + |w2.0|, CAPACIDADE, Leitura(page[1]))
    ensures erro == if w3.1.Some? then w3.1 else if w2.1.Some? then w2.1 else w1.1
    ensures erro.None? ==> app.contadorRegistros == |w3.0 + w2.0 + w1.0|
    ensures erro.None? ==> Vista(tabelaFormatada) == Sobrepoe(v0, 0, Formatadas(w3.0 + w2.0 + w1.0, mesCorrente))
  {
    SobrepoeNada(v0, 0);
    erro, w3 := AdicionaTabela(app, page, 3, tabelaFormatada, mesCorrente, v0, [], 0);
    w2 := Grava(|w3.0|, CAPACIDADE, Leitura(page[2]));
    w1 := Grava(|w3.0| + |w2.0|, CAPACIDADE, Leitura(page[1]));
    if erro.None? {
      assert [] + w3.0 == w3.0;
      erro, w2 := AdicionaTabela(app, page, 2, tabelaFormatada, mesCorrente, v0, w3.0, |w3.0|);
      if erro.None? {
        erro, w1 := AdicionaTabela(app, page, 1, tabelaFormatada, mesCorrente, v0, w3.0 + w2.0, |w3.0| + |w2.0|);
      }
    }
  }

  /** main, with the clock's month as a parameter. */
  method Executa(page: Pagina, mesCorrente: int) returns (resultado: Result<seq<Entrada>>)
    requires Months.IsMonth(mesCorrente)
    ensures resultado == Relatorio(page, mesCorrente)
  {
    var tabelaStringFormatada := new string[SLOTS, CAPACIDADE]((s, i) => "");
    var app := new App();
    if |page| <= 3 {
      return Err(MissingTable);
    }
    ghost var v0 := Vista(tabelaStringFormatada);
    var erro, w3, w2, w1 := LeTabelas(app, page, tabelaStringFormatada, mesCorrente, v0);
    if erro.Some? {
      return Err(erro.value);
    }
    SobrepoeLe(v0, Formatadas(w3.0 + w2.0 + w1.0, mesCorrente));
    resultado := app.ImprimeExcel(tabelaStringFormatada);
  }
}
