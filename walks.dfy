/** The second half of getTabela, the same in both Apps, seen one cell at a
    time: for a column, each row's cell either ends the column (it is blank),
    throws, or adds something (a Registro in the newer App, a buffer entry in
    the older one). The walk reads the cells in row order until the first one
    that does not add. */
module Walks {
  import opened Failures
  import Text
  import Grid

  /** What one cell of the walk does: end the column, throw, or add r. */
  datatype Passo<T> = Fim | Falha(e: Error) | Novo(r: T)

  /** acc followed by what r produced; an exception passes through. */
  function Prepend<T>(acc: seq<T>, r: Result<seq<T>>): Result<seq<T>> {
    match r
    case Ok(v) => Ok(acc + v)
    case Err(e) => Err(e)
  }

  /** Run a, then b; the first exception aborts. */
  function Then<T>(a: Result<seq<T>>, b: Result<seq<T>>): Result<seq<T>> {
    match a
    case Err(e) => Err(e)
    case Ok(x) => Prepend(x, b)
  }

  /** The walk from step y on, when an exception discards what was added:
      the values of the steps up to the first stop, or that stop's exception. */
  function Walk<T>(ps: seq<Passo<T>>, y: nat): Result<seq<T>>
    requires y <= |ps|
    decreases |ps| - y
  {
    if y == |ps| then Ok([])
    else
      match ps[y]
      case Fim => Ok([])
      case Falha(e) => Err(e)
      case Novo(r) => Prepend([r], Walk(ps, y + 1))
  }

  /** The first step at or after y that does not add, or |ps|. */
  function FirstStop<T>(ps: seq<Passo<T>>, y: nat): (k: nat)
    requires y <= |ps|
    ensures y <= k <= |ps|
    ensures forall j :: y <= j < k ==> ps[j].Novo?
    ensures k == |ps| || !ps[k].Novo?
    decreases |ps| - y
  {
    if y == |ps| || !ps[y].Novo? then y else FirstStop(ps, y + 1)
  }

  /** What the walk from step y adds before it stops, whether or not it then
      throws: the older App keeps what it wrote before an exception. */
  function Added<T>(ps: seq<Passo<T>>, y: nat): seq<T>
    requires y <= |ps|
    decreases |ps| - y
  {
    if y == |ps| || !ps[y].Novo? then [] else [ps[y].r] + Added(ps, y + 1)
  }

  /** The exception the walk from step y ends in, if it ends in one. */
  function Thrown<T>(ps: seq<Passo<T>>, y: nat): Option<Error>
    requires y <= |ps|
  {
    var k := FirstStop(ps, y);
    if k < |ps| && ps[k].Falha? then Some(ps[k].e) else None
  }

  /** The walk adds the values of the steps from y up to its first stop, in order. */
  lemma {:induction false} AddedShape<T>(ps: seq<Passo<T>>, y: nat)
    requires y <= |ps|
    ensures y + |Added(ps, y)| == FirstStop(ps, y)
    ensures forall j :: 0 <= j < |Added(ps, y)| ==> ps[y + j] == Novo(Added(ps, y)[j])
    decreases |ps| - y
  {
    if y < |ps| && ps[y].Novo? {
      AddedShape(ps, y + 1);
      var out, rest := Added(ps, y), Added(ps, y + 1);
      forall j | 0 <= j < |out|
        ensures ps[y + j] == Novo(out[j])
      {
        if j > 0 {
          assert out[j] == rest[j - 1];
        }
      }
    }
  }

  /** A walk whose exception discards its values completes exactly when it
      does not throw, and then returns what it added. */
  lemma {:induction false} WalkIsAdded<T>(ps: seq<Passo<T>>, y: nat)
    requires y <= |ps|
    ensures Walk(ps, y) == if Thrown(ps, y).Some? then Err(Thrown(ps, y).value) else Ok(Added(ps, y))
    decreases |ps| - y
  {
    if y < |ps| && ps[y].Novo? {
      WalkIsAdded(ps, y + 1);
    }
  }

  /** The walk looks at no step past its first stop. */
  lemma {:induction false} StepsAgree<T>(ps: seq<Passo<T>>, qs: seq<Passo<T>>, y: nat)
    requires y <= |ps| == |qs|
    requires forall j :: y <= j <= FirstStop(ps, y) && j < |ps| ==> qs[j] == ps[j]
    ensures FirstStop(qs, y) == FirstStop(ps, y)
    ensures Added(qs, y) == Added(ps, y) && Thrown(qs, y) == Thrown(ps, y)
    ensures Walk(qs, y) == Walk(ps, y)
    decreases |ps| - y
  {
    if y < |ps| && ps[y].Novo? {
      StepsAgree(ps, qs, y + 1);
    }
  }

  lemma PrependNothing<T>(r: Result<seq<T>>)
    ensures Prepend([], r) == r
  {
    if r.Ok? {
      assert [] + r.value == r.value;
    }
  }

  lemma PrependPrepend<T>(acc: seq<T>, r: T, c: Result<seq<T>>)
    ensures Prepend(acc, Prepend([r], c)) == Prepend(acc + [r], c)
  {
    if c.Ok? {
      assert acc + ([r] + c.value) == (acc + [r]) + c.value;
    }
  }

  lemma PrependThen<T>(acc: seq<T>, c: Result<seq<T>>, x: Result<seq<T>>)
    requires c.Ok?
    ensures Prepend(acc, Then(c, x)) == Prepend(acc + c.value, x)
  {
    if x.Ok? {
      assert acc + (c.value + x.value) == (acc + c.value) + x.value;
    }
  }

  /** ps are the steps of column col of rows, rows 0..12: a step ends the
      column exactly at a blank cell of the table, and one that adds reads a
      cell of the table. */
  predicate Follows<T>(ps: seq<Passo<T>>, rows: Grid.Table, col: nat)
    requires Grid.Wide(rows) && col < Grid.CELLS_COPIED
  {
    && |ps| == Grid.LINHAS_TABELA
    && forall y :: 1 <= y < |ps| ==>
         && (ps[y].Fim? <==> y < |rows| && Text.IsBlank(rows[y][col]))
         && (ps[y].Novo? ==> y < |rows|)
  }

  /** Where a walk down a column stops, if it does not throw, is the column's
      first blank cell, row 13, or the first row past the table. */
  lemma {:induction false} StopIsFirstBlank<T>(ps: seq<Passo<T>>, rows: Grid.Table, col: nat, y: nat)
    requires Grid.Wide(rows) && col < Grid.CELLS_COPIED && Follows(ps, rows, col)
    requires 1 <= y <= Grid.LINHAS_TABELA && Thrown(ps, y).None?
    ensures FirstStop(ps, y) == Grid.FirstBlank(rows, col, y)
    decreases Grid.LINHAS_TABELA - y
  {
    if y < Grid.LINHAS_TABELA && ps[y].Novo? {
      StopIsFirstBlank(ps, rows, col, y + 1);
    }
  }

  /** Whatever happens, the walk down a column stops at or before its first blank. */
  lemma {:induction false} StopBeforeBlank<T>(ps: seq<Passo<T>>, rows: Grid.Table, col: nat, y: nat)
    requires Grid.Wide(rows) && col < Grid.CELLS_COPIED && Follows(ps, rows, col)
    requires 1 <= y <= Grid.LINHAS_TABELA
    ensures FirstStop(ps, y) <= Grid.FirstBlank(rows, col, y)
    decreases Grid.LINHAS_TABELA - y
  {
    if y < Grid.LINHAS_TABELA && ps[y].Novo? {
      StopBeforeBlank(ps, rows, col, y + 1);
    }
  }
}
