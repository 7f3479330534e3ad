/** Registro of the newer App and the TreeSet<Registro> into which main
    gathers the tables. Registro's compareTo orders by year, then month, and
    ignores the rate; a TreeSet keeps its elements ascending under compareTo and
    add leaves the set unchanged when an element comparing equal is present.
    The TreeSet is modelled by the ascending sequence of its elements. */
module Registros {
  import opened Failures

  /** One record: year, month and rate. The rate is the normalised text that
      Double.parseDouble reads; its double value is not modelled. */
  datatype Registro = Registro(ano: int, mes: int, porcentagem: string)

  /** The (year, month) pair compareTo looks at. */
  function Key(r: Registro): (int, int) {
    (r.ano, r.mes)
  }

  /** Lexicographic order on (year, month): the order the report promises. */
  predicate KeyBefore(a: Registro, b: Registro) {
    a.ano < b.ano || (a.ano == b.ano && a.mes < b.mes)
  }

  /** Integer.compare. */
  function IntegerCompare(x: int, y: int): int {
    if x < y then -1 else if x == y then 0 else 1
  }

  /** Registro.compareTo: years first, months only on a tie of years. */
  function CompareTo(a: Registro, b: Registro): (c: int)
    ensures c == 0 <==> Key(a) == Key(b)
    ensures c < 0 <==> KeyBefore(a, b)
    ensures c > 0 <==> KeyBefore(b, a)
    ensures -1 <= c <= 1
  {
    var compare := IntegerCompare(a.ano, b.ano);
    if compare == 0 then IntegerCompare(a.mes, b.mes) else compare
  }

  lemma CompareToAntisymmetric(a: Registro, b: Registro)
    ensures CompareTo(a, b) == -CompareTo(b, a)
  {
  }

  lemma CompareToTransitive(a: Registro, b: Registro, c: Registro)
    ensures CompareTo(a, b) < 0 && CompareTo(b, c) < 0 ==> CompareTo(a, c) < 0
    ensures CompareTo(a, b) == 0 && CompareTo(b, c) == 0 ==> CompareTo(a, c) == 0
    ensures CompareTo(a, b) <= 0 && CompareTo(b, c) <= 0 ==> CompareTo(a, c) <= 0
  {
  }

  /** The order a TreeSet keeps: strictly ascending under compareTo. */
  predicate Ascending(s: seq<Registro>) {
    forall i, j :: 0 <= i < j < |s| ==> CompareTo(s[i], s[j]) < 0
  }

  function Keys(s: seq<Registro>): set<(int, int)> {
    set r | r in s :: Key(r)
  }

  lemma KeysCons(y: Registro, s: seq<Registro>)
    ensures Keys([y] + s) == {Key(y)} + Keys(s)
  {
    assert forall z :: z in [y] + s <==> z == y || z in s;
  }

  /** An ascending sequence holds at most one record per (year, month). */
  lemma AscendingKeysUnique(s: seq<Registro>, i: int, j: int)
    requires Ascending(s)
    requires 0 <= i < |s| && 0 <= j < |s| && Key(s[i]) == Key(s[j])
    ensures i == j
  {
  }

  /** A record ordered before every element of an ascending sequence can go
      in front of it. */
  lemma AscendingCons(h: Registro, t: seq<Registro>)
    requires Ascending(t)
    requires forall y :: y in t ==> CompareTo(h, y) < 0
    ensures Ascending([h] + t)
  {
    var u := [h] + t;
    forall i, j | 0 <= i < j < |u|
      ensures CompareTo(u[i], u[j]) < 0
    {
      assert u[j] == t[j - 1];
      if i == 0 {
        assert t[j - 1] in t;
      } else {
        assert u[i] == t[i - 1];
      }
    }
  }

  /** The head of an ascending sequence is ordered before the rest of it. */
  lemma HeadBeforeTail(s: seq<Registro>, y: Registro)
    requires Ascending(s) && s != [] && y in s[1..]
    ensures CompareTo(s[0], y) < 0
  {
    var i :| 0 <= i < |s[1..]| && s[1..][i] == y;
    assert s[i + 1] == y;
  }

  /** A record ordered before the head of an ascending sequence is ordered
      before all of it, so its (year, month) is not in it. */
  lemma BeforeHead(x: Registro, s: seq<Registro>)
    requires Ascending(s) && s != [] && CompareTo(x, s[0]) < 0
    ensures Ascending([x] + s)
    ensures Key(x) !in Keys(s)
  {
    forall y | y in s
      ensures CompareTo(x, y) < 0
    {
      var i :| 0 <= i < |s| && s[i] == y;
      assert i == 0 || CompareTo(s[0], s[i]) < 0;
    }
    AscendingCons(x, s);
  }

  /** The keys of a non-empty sequence: its head's and those of the rest. */
  lemma KeysHead(s: seq<Registro>)
    requires s != []
    ensures Keys(s) == {Key(s[0])} + Keys(s[1..])
  {
    assert s == [s[0]] + s[1..];
    KeysCons(s[0], s[1..]);
  }

  /** The head of an ascending sequence can go in front of anything drawn
      from its tail and from records ordered after it. */
  lemma HeadBeforeRest(s: seq<Registro>, x: Registro, rest: seq<Registro>)
    requires Ascending(s) && s != [] && CompareTo(x, s[0]) > 0
    requires Ascending(rest)
    requires forall y :: y in rest ==> y in s[1..] || y == x
    ensures Ascending([s[0]] + rest)
  {
    forall y | y in rest
      ensures CompareTo(s[0], y) < 0
    {
      if y in s[1..] {
        HeadBeforeTail(s, y);
      }
    }
    AscendingCons(s[0], rest);
  }

  lemma AfterHead(s: seq<Registro>, x: Registro, rest: seq<Registro>)
    requires Ascending(s) && s != [] && CompareTo(x, s[0]) > 0
    requires Ascending(rest)
    requires forall y :: y in rest ==> y in s[1..] || y == x
    requires Keys(rest) == Keys(s[1..]) + {Key(x)}
    ensures Ascending([s[0]] + rest)
    ensures Keys([s[0]] + rest) == Keys(s) + {Key(x)}
    ensures Key(x) in Keys(s) <==> Key(x) in Keys(s[1..])
  {
    HeadBeforeRest(s, x, rest);
    KeysHead(s);
    KeysCons(s[0], rest);
  }

  /** TreeSet.add: x goes in at its place in the order, unless a record with
      the same (year, month) is already present, in which case nothing changes. */
  function Add(s: seq<Registro>, x: Registro): (r: seq<Registro>)
    requires Ascending(s)
    ensures Ascending(r)
    ensures Keys(r) == Keys(s) + {Key(x)}
    ensures Key(x) in Keys(s) ==> r == s
    ensures Key(x) !in Keys(s) ==> |r| == |s| + 1
    ensures forall y :: y in r <==> y in s || (y == x && Key(x) !in Keys(s))
  {
    if s == [] then [x]
    else if CompareTo(x, s[0]) < 0 then
      BeforeHead(x, s);
      KeysCons(x, s);
      [x] + s
    else if CompareTo(x, s[0]) == 0 then
      assert s[0] in s;
      s
    else
      var rest := Add(s[1..], x);
      AfterHead(s, x, rest);
      assert s == [s[0]] + s[1..];
      [s[0]] + rest
  }

  /** Collection.addAll on a TreeSet: the records added one by one, in order. */
  function AddAll(s: seq<Registro>, xs: seq<Registro>): (r: seq<Registro>)
    requires Ascending(s)
    ensures Ascending(r)
    decreases |xs|
  {
    if xs == [] then s else AddAll(Add(s, xs[0]), xs[1..])
  }

  /** The first record of xs with the given (year, month), if any. */
  function FirstWithKey(xs: seq<Registro>, k: (int, int)): (r: Option<Registro>)
    ensures r.Some? ==> r.value in xs && Key(r.value) == k
    ensures r.None? <==> k !in Keys(xs)
  {
    if xs == [] then None
    else if Key(xs[0]) == k then Some(xs[0])
    else
      assert Keys(xs) == {Key(xs[0])} + Keys(xs[1..]) by {
        assert xs == [xs[0]] + xs[1..];
      }
      FirstWithKey(xs[1..], k)
  }

  lemma {:induction false} FirstWithKeyAppend(xs: seq<Registro>, x: Registro, k: (int, int))
    ensures FirstWithKey(xs + [x], k) ==
      if k in Keys(xs) then FirstWithKey(xs, k) else if k == Key(x) then Some(x) else None
  {
    if xs == [] {
      assert xs + [x] == [x];
    } else if Key(xs[0]) == k {
      assert (xs + [x])[0] == xs[0];
      assert xs[0] in xs;
    } else {
      var t := xs[1..];
      assert (xs + [x])[0] == xs[0] && (xs + [x])[1..] == t + [x];
      FirstWithKeyAppend(t, x, k);
      KeysCons(xs[0], t);
      assert xs == [xs[0]] + t;
    }
  }

  /** s is what a TreeSet holds after the records of ins were added to an
      empty one: ascending, the same (year, month) pairs, and for each pair the
      record that was inserted first. */
  ghost predicate Represents(s: seq<Registro>, ins: seq<Registro>) {
    && Ascending(s)
    && Keys(s) == Keys(ins)
    && forall y :: y in s ==> FirstWithKey(ins, Key(y)) == Some(y)
  }

  lemma AddRepresents(s: seq<Registro>, ins: seq<Registro>, x: Registro)
    requires Represents(s, ins)
    ensures Represents(Add(s, x), ins + [x])
  {
    var r := Add(s, x);
    assert Keys(ins + [x]) == Keys(ins) + {Key(x)} by {
      assert forall y :: y in ins + [x] <==> y in ins || y == x;
    }
    forall y | y in r
      ensures FirstWithKey(ins + [x], Key(y)) == Some(y)
    {
      FirstWithKeyAppend(ins, x, Key(y));
    }
  }

  lemma {:induction false} AddAllRepresents(s: seq<Registro>, ins: seq<Registro>, xs: seq<Registro>)
    requires Represents(s, ins)
    ensures Represents(AddAll(s, xs), ins + xs)
    decreases |xs|
  {
    if xs == [] {
      assert ins + xs == ins;
    } else {
      AddRepresents(s, ins, xs[0]);
      AddAllRepresents(Add(s, xs[0]), ins + [xs[0]], xs[1..]);
      AddAllStep(s, ins, xs);
    }
  }

  lemma AddAllStep(s: seq<Registro>, ins: seq<Registro>, xs: seq<Registro>)
    requires Ascending(s) && xs != []
    ensures AddAll(s, xs) == AddAll(Add(s, xs[0]), xs[1..])
    ensures (ins + [xs[0]]) + xs[1..] == ins + xs
  {
    assert xs == [xs[0]] + xs[1..];
    assert (ins + [xs[0]]) + xs[1..] == ins + ([xs[0]] + xs[1..]);
  }

  /** What main's TreeSet holds after addAll of the given records, in order,
      into an empty one: records strictly ascending by (year, month), one per
      (year, month) that occurs, and that one the first inserted. */
  lemma AddAllFromEmpty(xs: seq<Registro>)
    ensures Represents(AddAll([], xs), xs)
  {
    AddAllRepresents([], [], xs);
    assert [] + xs == xs;
  }
}
