/** The string operations both Apps apply to cell text: Java's String.trim()
    and isEmpty() (the blank-cell test that ends a column), String.replace(',', '.')
    (decimal-comma normalisation) and the case-insensitive character match used
    by the month parser. A Dafny char is a Unicode scalar value, where Java's
    is a UTF-16 code unit; the two agree on every char these operations test. */
module Text {

  /** String.trim() removes every leading and trailing char whose code is at most U+0020. */
  predicate IsTrimmable(c: char) {
    c <= ' '
  }

  /** The first index at or after i whose char trim() keeps, or |s|. */
  function TextStart(s: string, i: nat): (j: nat)
    requires i <= |s|
    ensures i <= j <= |s|
    ensures forall k :: i <= k < j ==> IsTrimmable(s[k])
    ensures j == |s| || !IsTrimmable(s[j])
    decreases |s| - i
  {
    if i == |s| || !IsTrimmable(s[i]) then i else TextStart(s, i + 1)
  }

  /** The end of the kept text: one past the last index before e, and not
      before st, whose char trim() keeps. */
  function TextEnd(s: string, st: nat, e: nat): (j: nat)
    requires st <= e <= |s|
    ensures st <= j <= e
    ensures forall k :: j <= k < e ==> IsTrimmable(s[k])
    ensures j == st || !IsTrimmable(s[j - 1])
    decreases e - st
  {
    if e == st || !IsTrimmable(s[e - 1]) then e else TextEnd(s, st, e - 1)
  }

  /** String.trim(): the text between the first and the last char it keeps. */
  function Trim(s: string): (r: string)
  {
    var st := TextStart(s, 0);
    s[st..TextEnd(s, st, |s|)]
  }

  /** `cell.trim().isEmpty()`, the test that ends a column in getTabela:
      every char of the cell is one trim() removes. */
  predicate IsBlank(s: string) {
    s == [] || (IsTrimmable(s[0]) && IsBlank(s[1..]))
  }

  /** A cell is blank exactly when every one of its chars is one trim() removes. */
  lemma {:induction false} BlankIffAllTrimmable(s: string)
    ensures IsBlank(s) <==> forall i :: 0 <= i < |s| ==> IsTrimmable(s[i])
  {
    if s != [] {
      BlankIffAllTrimmable(s[1..]);
      assert forall i :: 1 <= i < |s| ==> s[i] == s[1..][i - 1];
    }
  }

  /** The blank test is trim().isEmpty(). */
  lemma BlankIffTrimEmpty(s: string)
    ensures IsBlank(s) <==> |Trim(s)| == 0
  {
    BlankIffAllTrimmable(s);
    var st := TextStart(s, 0);
    if st < |s| {
      assert !IsTrimmable(s[st]);
      assert TextEnd(s, st, |s|) > st;
    }
  }

  /** Trimming text that holds no trimmable char changes nothing. */
  lemma TrimNoTrimmable(s: string)
    requires forall i :: 0 <= i < |s| ==> !IsTrimmable(s[i])
    ensures Trim(s) == s
  {
  }

  /** String.replace(',', '.'): the decimal-comma normalisation of a rate cell. */
  function ReplaceComma(s: string): (r: string)
    ensures |r| == |s|
    ensures forall i :: 0 <= i < |s| ==> r[i] == (if s[i] == ',' then '.' else s[i])
  {
    if s == [] then []
    else [if s[0] == ',' then '.' else s[0]] + ReplaceComma(s[1..])
  }

  /** After the normalisation no comma is left, and the text is otherwise the same. */
  lemma {:induction false} ReplaceCommaNormalises(s: string)
    ensures ',' !in ReplaceComma(s)
    ensures forall i :: 0 <= i < |s| && s[i] != ',' ==> ReplaceComma(s)[i] == s[i]
    ensures ReplaceComma(ReplaceComma(s)) == ReplaceComma(s)
  {
    var r := ReplaceComma(s);
    if ',' in r {
      var k :| 0 <= k < |r| && r[k] == ',';
    }
    assert ReplaceComma(r) == r;
  }

  /** Character.toLowerCase restricted to the letters of the month names: A-Z and Ç. */
  function ToLower(c: char): (r: char)
    ensures 'A' <= c <= 'Z' ==> 'a' <= r <= 'z'
    ensures !('A' <= c <= 'Z') && c != 'Ç' ==> r == c
  {
    if 'A' <= c <= 'Z' then (c as int + 32) as char
    else if c == 'Ç' then 'ç'
    else c
  }

  /** The character match of a case-insensitive parser. */
  predicate CharEqualsIgnoreCase(a: char, b: char) {
    ToLower(a) == ToLower(b)
  }

  predicate EqualsIgnoreCase(a: string, b: string) {
    |a| == |b| && forall i :: 0 <= i < |a| ==> CharEqualsIgnoreCase(a[i], b[i])
  }
}
