/** The month-name resolver: getNumeroMes. Both Apps read the month of a row
    from its label in column 0 by parsing it as a full month name of the
    pt_BR locale ("MMMM"), case-insensitively in the newer App. The locale's
    name table is written out here. */
module Months {
  import opened Failures
  import Text
  import Numbers

  /** Full month names of the pt_BR locale, January first. */
  const MONTH_NAMES: seq<string> :=
    ["janeiro", "fevereiro", "março", "abril", "maio", "junho",
     "julho", "agosto", "setembro", "outubro", "novembro", "dezembro"]

  predicate IsMonth(m: int) {
    1 <= m <= 12
  }

  /** The first month after the k-th whose full name the text spells. */
  function FindMonth(name: string, k: nat): (r: Option<int>)
    requires k <= 12
    ensures r.Some? ==> k < r.value <= 12 && Text.EqualsIgnoreCase(name, MONTH_NAMES[r.value - 1])
    ensures r.Some? ==> forall j :: k <= j < r.value - 1 ==> !Text.EqualsIgnoreCase(name, MONTH_NAMES[j])
    ensures r.None? ==> forall j :: k <= j < 12 ==> !Text.EqualsIgnoreCase(name, MONTH_NAMES[j])
    decreases 12 - k
  {
    if k == 12 then None
    else if Text.EqualsIgnoreCase(name, MONTH_NAMES[k]) then Some(k + 1)
    else FindMonth(name, k + 1)
  }

  /** getNumeroMes of the newer App: the ordinal of the month whose full name
      the label spells, ignoring case; None stands for the DateTimeParseException
      thrown on any other label. */
  function GetNumeroMes(name: string): (r: Option<int>)
    ensures r.Some? ==> IsMonth(r.value)
  {
    FindMonth(name, 0)
  }

  /** No two month names match each other, whatever their case. */
  lemma MonthNamesDistinct()
    ensures forall a, b :: 0 <= a < b < 12 ==> !Text.EqualsIgnoreCase(MONTH_NAMES[a], MONTH_NAMES[b])
  {
    forall a, b | 0 <= a < b < 12
      ensures !Text.EqualsIgnoreCase(MONTH_NAMES[a], MONTH_NAMES[b])
    {
      if |MONTH_NAMES[a]| == |MONTH_NAMES[b]| {
        var i := if a == 5 && b == 6 then 2 else 0;
        assert !Text.CharEqualsIgnoreCase(MONTH_NAMES[a][i], MONTH_NAMES[b][i]);
      }
    }
  }

  /** Matching up to case is transitive through a common text. */
  lemma MatchSameName(text: string, a: int, b: int)
    requires 0 <= a < 12 && 0 <= b < 12
    requires Text.EqualsIgnoreCase(text, MONTH_NAMES[a])
    requires Text.EqualsIgnoreCase(text, MONTH_NAMES[b])
    ensures a == b
  {
    var x, y := MONTH_NAMES[a], MONTH_NAMES[b];
    assert Text.EqualsIgnoreCase(x, y) by {
      assert forall i :: 0 <= i < |x| ==> Text.ToLower(x[i]) == Text.ToLower(text[i]);
    }
    MonthNamesDistinct();
  }

  /** The resolver's contract: a label resolves to month m exactly when it
      spells m's name up to case, so every other label is refused. */
  lemma GetNumeroMesExact(name: string, m: int)
    requires IsMonth(m)
    ensures GetNumeroMes(name) == Some(m) <==> Text.EqualsIgnoreCase(name, MONTH_NAMES[m - 1])
  {
    var r := GetNumeroMes(name);
    if Text.EqualsIgnoreCase(name, MONTH_NAMES[m - 1]) && r.Some? {
      MatchSameName(name, r.value - 1, m - 1);
    }
  }

  /** SimpleDateFormat("MM"): the two-digit, zero-padded month number. */
  function TwoDigits(m: int): (r: string)
    requires IsMonth(m)
    ensures |r| == 2 && (r[0] == '0' || r[0] == '1')
  {
    [Numbers.DigitChar(m / 10), Numbers.DigitChar(m % 10)]
  }

  /** The two digits read back as the month. */
  lemma TwoDigitsParses(m: int)
    requires IsMonth(m)
    ensures Numbers.ParseInt(TwoDigits(m)) == Some(m)
  {
    var r := TwoDigits(m);
    assert r[..1] == [r[0]] && r[..1][..0] == [];
    assert Numbers.DigitsValue(r[..1]) == m / 10;
    assert Numbers.DigitsValue(r) == m;
  }
}
