/** The two number parsers of the newer App: Integer.parseInt on a year header
    and Double.parseDouble on a normalised rate. Java's int is 32 bits wide, so
    parseInt fails outside [INT_MIN, INT_MAX]. Only whether parseDouble accepts
    its text is modelled; the rate itself stays text (see Registros). */
module Numbers {
  import opened Failures
  import Text

  const INT_MIN: int := -0x8000_0000
  const INT_MAX: int := 0x7FFF_FFFF

  predicate IsDigit(c: char) {
    '0' <= c <= '9'
  }

  predicate AllDigits(s: string) {
    forall i :: 0 <= i < |s| ==> IsDigit(s[i])
  }

  function DigitChar(d: nat): (c: char)
    requires d < 10
    ensures IsDigit(c) && c as int - '0' as int == d
  {
    ('0' as int + d) as char
  }

  /** The value of a string of decimal digits, most significant first. */
  function DigitsValue(ds: string): nat
    requires AllDigits(ds)
  {
    if ds == [] then 0
    else DigitsValue(ds[..|ds| - 1]) * 10 + (ds[|ds| - 1] as int - '0' as int)
  }

  predicate IsSign(c: char) {
    c == '+' || c == '-'
  }

  /** Where the digits of an integer text start: after its sign, if any. */
  function DigitsStart(s: string): (k: nat)
    requires |s| > 0
    ensures k <= 1
  {
    if IsSign(s[0]) then 1 else 0
  }

  /** The integer syntax parseInt accepts: an optional sign, then one or
      more decimal digits and nothing else. */
  predicate IsIntText(s: string) {
    && |s| > 0
    && DigitsStart(s) < |s|
    && forall i :: DigitsStart(s) <= i < |s| ==> IsDigit(s[i])
  }

  /** The value an integer text denotes: its digits, negated after a '-'. */
  function IntValue(s: string): int
    requires IsIntText(s)
  {
    var v := DigitsValue(s[DigitsStart(s)..]) as int;
    if s[0] == '-' then -v else v
  }

  /** Integer.parseInt(s): an optional '+' or '-' followed by at least one
      decimal digit, whose value fits in a Java int. */
  function ParseInt(s: string): (r: Option<int>)
    ensures r.Some? <==> IsIntText(s) && INT_MIN <= IntValue(s) <= INT_MAX
    ensures r.Some? ==> r.value == IntValue(s)
  {
    if s == [] then None
    else
      var signed := s[0] == '-' || s[0] == '+';
      var ds := if signed then s[1..] else s;
      if ds == [] || !AllDigits(ds) then None
      else
        var v: int := if s[0] == '-' then -(DigitsValue(ds) as int) else DigitsValue(ds);
        if INT_MIN <= v <= INT_MAX then Some(v) else None
  }

  /** Integer.toString on a non-negative value: the reference against which
      ParseInt is checked. */
  function ShowNat(n: nat): (s: string)
    decreases n
  {
    if n < 10 then [DigitChar(n)] else ShowNat(n / 10) + [DigitChar(n % 10)]
  }

  function ShowInt(n: int): string {
    if n < 0 then "-" + ShowNat(-n) else ShowNat(n)
  }

  lemma {:induction false} ShowNatValue(n: nat)
    ensures |ShowNat(n)| > 0 && AllDigits(ShowNat(n))
    ensures DigitsValue(ShowNat(n)) == n
  {
    if n >= 10 {
      ShowNatValue(n / 10);
      var s := ShowNat(n);
      assert s[..|s| - 1] == ShowNat(n / 10);
    }
  }

  /** parseInt reads back every int that toString writes. */
  lemma ParseShowInt(n: int)
    requires INT_MIN <= n <= INT_MAX
    ensures ParseInt(ShowInt(n)) == Some(n)
  {
    ShowNatValue(if n < 0 then -n else n);
    if n < 0 {
      assert ShowInt(n)[1..] == ShowNat(-n);
    }
  }

  /** The first index at or after i that does not hold a digit. */
  function SkipDigits(s: string, i: nat): (j: nat)
    requires i <= |s|
    ensures i <= j <= |s|
    ensures forall k :: i <= k < j ==> IsDigit(s[k])
    ensures j == |s| || !IsDigit(s[j])
    decreases |s| - i
  {
    if i == |s| || !IsDigit(s[i]) then i else SkipDigits(s, i + 1)
  }

  /** Where an optional exponent (e or E, an optional sign, at least one digit)
      that may start at k ends; None when an exponent is started but has no digit. */
  function ExponentEnd(b: string, k: nat): (r: Option<nat>)
    requires k <= |b|
    ensures r.Some? ==> k <= r.value <= |b|
    ensures r.Some? && r.value > k ==> b[k] == 'e' || b[k] == 'E'
  {
    if k < |b| && (b[k] == 'e' || b[k] == 'E') then
      var p := if k + 1 < |b| && (b[k + 1] == '+' || b[k + 1] == '-') then k + 2 else k + 1;
      var q := SkipDigits(b, p);
      if q > p then Some(q) else None
    else Some(k)
  }

  /** Digits, an optional point and digits (at least one digit in all), an
      optional exponent and an optional f, F, d or D suffix. */
  predicate IsDecimalBody(b: string) {
    var j := SkipDigits(b, 0);
    var dot := j < |b| && b[j] == '.';
    var k := if dot then SkipDigits(b, j + 1) else j;
    var digits := if dot then k - 1 else k;
    var m := ExponentEnd(b, k);
    digits > 0 && m.Some? &&
    (m.value == |b| || (m.value == |b| - 1 && b[m.value] in "fFdD"))
  }

  /** The texts Double.parseDouble accepts (hexadecimal literals aside):
      after trim(), an optional sign, then NaN, Infinity or a decimal body. */
  predicate IsJavaDecimal(s: string) {
    var t := Text.Trim(s);
    var body := if |t| > 0 && (t[0] == '+' || t[0] == '-') then t[1..] else t;
    body == "NaN" || body == "Infinity" || IsDecimalBody(body)
  }

  /** On text without spaces that starts with a digit, parseDouble accepts
      exactly the decimal bodies. */
  lemma DecimalOfUnsigned(s: string)
    requires |s| > 0 && IsDigit(s[0])
    requires forall i :: 0 <= i < |s| ==> !Text.IsTrimmable(s[i])
    ensures IsJavaDecimal(s) <==> IsDecimalBody(s)
  {
    Text.TrimNoTrimmable(s);
    assert s != "NaN" && s != "Infinity" by {
      assert "NaN"[0] == 'N' && "Infinity"[0] == 'I';
    }
  }

  lemma PointFormIsDecimal(a: string, b: string)
    requires |a| > 0 && AllDigits(a) && AllDigits(b)
    ensures IsDecimalBody(a + "." + b)
  {
    var d := a + "." + b;
    assert d[|a|] == '.';
    assert SkipDigits(d, 0) == |a|;
    assert forall i :: |a| + 1 <= i < |d| ==> d[i] == b[i - |a| - 1];
    assert SkipDigits(d, |a| + 1) == |d|;
    assert ExponentEnd(d, |d|) == Some(|d|);
  }

  lemma CommaFormIsNotDecimal(a: string, b: string)
    requires |a| > 0 && AllDigits(a)
    ensures !IsDecimalBody(a + "," + b)
  {
    var c := a + "," + b;
    assert c[|a|] == ',';
    assert SkipDigits(c, 0) == |a|;
    assert ExponentEnd(c, |a|) == Some(|a|);
  }

  lemma NumberHasNoTrimmable(a: string, sep: char, b: string)
    requires |a| > 0 && AllDigits(a) && AllDigits(b) && sep > ' '
    ensures (a + [sep] + b)[0] == a[0]
    ensures forall i :: 0 <= i < |a + [sep] + b| ==> !Text.IsTrimmable((a + [sep] + b)[i])
  {
  }

  lemma CommaBecomesPoint(a: string, b: string)
    requires AllDigits(a) && AllDigits(b)
    ensures Text.ReplaceComma(a + "," + b) == a + "." + b
  {
    var raw := a + "," + b;
    var r := Text.ReplaceComma(raw);
    assert forall i :: 0 <= i < |raw| ==> (raw[i] == ',' <==> i == |a|);
    assert forall i :: 0 <= i < |raw| ==> r[i] == (a + "." + b)[i];
  }

  /** A rate written with a decimal comma, such as "1,5", is refused by
      parseDouble as it stands and accepted once the comma is made a point. */
  lemma CommaRateNeedsNormalising(a: string, b: string)
    requires |a| > 0 && AllDigits(a) && AllDigits(b)
    ensures !IsJavaDecimal(a + "," + b)
    ensures IsJavaDecimal(Text.ReplaceComma(a + "," + b))
  {
    var raw := a + "," + b;
    var dotted := a + "." + b;
    CommaBecomesPoint(a, b);
    NumberHasNoTrimmable(a, ',', b);
    NumberHasNoTrimmable(a, '.', b);
    DecimalOfUnsigned(raw);
    DecimalOfUnsigned(dotted);
    PointFormIsDecimal(a, b);
    CommaFormIsNotDecimal(a, b);
  }
}
