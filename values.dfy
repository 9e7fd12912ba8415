/**
 * Cell-level parsing for the temperature files: the missing-value test, the
 * numeric conversion, truncation of a month number, and the ordered chain of
 * date formats a month is read from. The library parsers themselves
 * (`float`, `datetime.fromisoformat`, `datetime.strptime`) are parameters.
 */
module Values {
  import opened Wrappers
  import opened Text

  /** A calendar month, as `datetime.month` returns it. */
  type Month = m: int | 1 <= m <= 12 witness 1

  /**
   * The library parsers the pipeline calls, each reduced to what the pipeline uses:
   * the month of a parsed date, or the value of a parsed number; `None` where the
   * library raises `ValueError`.
   */
  datatype Parsers = Parsers(
    fromIsoFormat: string -> Option<Month>,
    strptime: (string, string) -> Option<Month>,
    toNumber: string -> Option<real>)

  /** The explicit date formats, in the order they are tried. */
  const DateFormats: seq<string> :=
    ["%Y-%m-%d", "%d/%m/%Y", "%Y/%m/%d", "%d-%m-%Y", "%m/%d/%Y", "%Y%m%d"]

  // ----- missing values and numbers -----

  /** The cell holds nothing: no value, only whitespace, or some casing of "nan". */
  predicate IsMissing(value: Option<string>) {
    match value
    case None => true
    case Some(v) =>
      var s := Strip(v);
      s == "" || Lower(s) == "nan"
  }

  /** `w` is "nan" in some mix of upper and lower case. */
  predicate IsNanSpelling(w: string) {
    |w| == 3 && (w[0] == 'n' || w[0] == 'N') && (w[1] == 'a' || w[1] == 'A') && (w[2] == 'n' || w[2] == 'N')
  }

  /** A present cell is missing exactly when it is all whitespace or a spelling of "nan" between whitespace. */
  lemma IsMissingIff(v: string)
    ensures IsMissing(Some(v)) <==> (forall k :: 0 <= k < |v| ==> IsSpace(v[k])) || IsNanSpelling(Strip(v))
  {
    var s := Strip(v);
    if |s| == 3 {
      assert Lower(s) == [LowerChar(s[0]), LowerChar(s[1]), LowerChar(s[2])];
    } else {
      assert |Lower(s)| != |"nan"|;
    }
  }

  /** Blank cells are missing. */
  lemma BlankIsMissing()
    ensures IsMissing(None) && IsMissing(Some("")) && IsMissing(Some("  "))
  {
    IsMissingIff("  ");
  }

  /** Every casing of "nan", with any whitespace around it, is missing. */
  lemma NanSpellingIsMissing(w: string)
    requires IsNanSpelling(Strip(w))
    ensures IsMissing(Some(w))
  {
    IsMissingIff(w);
  }

  /** A spelling of "nan" has no whitespace to strip. */
  lemma BareNanSpelling(w: string)
    requires IsNanSpelling(w)
    ensures Strip(w) == w && IsNanSpelling(Strip(w))
  {
    assert TrimStart(w) == w;
    assert TrimEnd(w) == w;
  }

  /** The three usual spellings of "nan" are missing. */
  lemma NanIsMissing()
    ensures IsMissing(Some("NaN")) && IsMissing(Some("nan")) && IsMissing(Some("NAN"))
  {
    BareNanSpelling("NaN");
    BareNanSpelling("nan");
    BareNanSpelling("NAN");
    NanSpellingIsMissing("NaN");
    NanSpellingIsMissing("nan");
    NanSpellingIsMissing("NAN");
  }

  /** Text with a digit in it is not "nan". */
  lemma NoDigitInNan(w: string, j: int)
    requires 0 <= j < |w| && '0' <= w[j] <= '9'
    ensures w != "nan"
  {
    if |w| == 3 {
      assert "nan"[0] == 'n' && "nan"[1] == 'a' && "nan"[2] == 'n';
    }
  }

  /** Stripping keeps every character that is not whitespace. */
  lemma NonSpaceKept(v: string, k: int) returns (j: int)
    requires 0 <= k < |v| && !IsSpace(v[k])
    ensures 0 <= j < |Strip(v)| && Strip(v)[j] == v[k]
  {
    var t := TrimStart(v);
    var o := |v| - |t|;
    assert o <= k;
    assert t[k - o] == v[k];
    j := k - o;
  }

  /** A cell with a digit in it is present, whatever whitespace surrounds it. */
  lemma DigitIsPresent(v: string, k: int)
    requires 0 <= k < |v| && '0' <= v[k] <= '9'
    ensures !IsMissing(Some(v))
  {
    var j := NonSpaceKept(v, k);
    assert Lower(Strip(v))[j] == v[k];
    NoDigitInNan(Lower(Strip(v)), j);
  }

  /** The temperature in a cell: absent when the cell is missing or does not parse. */
  function ToFloat(value: string, toNumber: string -> Option<real>): (r: Option<real>)
    ensures IsMissing(Some(value)) ==> r == None
    ensures !IsMissing(Some(value)) ==> r == toNumber(Strip(value))
  {
    if IsMissing(Some(value)) then None else toNumber(Strip(value))
  }

  /** Python's `int(x)` on a float: truncation toward zero. */
  function Trunc(x: real): (r: int)
    ensures 0.0 <= x ==> r as real <= x < r as real + 1.0
    ensures x < 0.0 ==> r as real - 1.0 < x <= r as real
  {
    if 0.0 <= x then x.Floor else -((-x).Floor)
  }

  /** A month read as a plain number from a cell: the float value truncated toward zero, not range-checked. */
  function MonthNumber(cell: string, p: Parsers): (r: Option<int>)
    ensures r.Some? <==> ToFloat(cell, p.toNumber).Some?
    ensures r.Some? ==> r.value == Trunc(ToFloat(cell, p.toNumber).value)
  {
    match ToFloat(cell, p.toNumber)
    case None => None
    case Some(m) => Some(Trunc(m))
  }

  // ----- dates -----

  /** Python's `s.replace(c, "")`. */
  function RemoveChar(s: string, c: char): (r: string)
    ensures c !in r
    ensures |r| <= |s|
    ensures forall x :: x in r <==> x in s && x != c
  {
    if s == [] then []
    else if s[0] == c then RemoveChar(s[1..], c)
    else [s[0]] + RemoveChar(s[1..], c)
  }

  /** Removing from a concatenation removes from each part, so the kept characters keep their order. */
  lemma {:induction false} RemoveCharAppend(s: string, t: string, c: char)
    ensures RemoveChar(s + t, c) == RemoveChar(s, c) + RemoveChar(t, c)
  {
    if s != [] {
      assert (s + t)[0] == s[0] && (s + t)[1..] == s[1..] + t;
      RemoveCharAppend(s[1..], t, c);
    } else {
      assert s + t == t;
    }
  }

  /** A single character is dropped when it is `c` and kept otherwise. */
  lemma RemoveCharSingle(x: char, c: char)
    ensures RemoveChar([x], c) == if x == c then [] else [x]
  {
    assert [x][1..] == [];
    assert RemoveChar([x][1..], c) == [];
  }

  /** The format at index `k` is the first in `formats` that parses `s`. */
  ghost predicate FirstFormatAt(s: string, formats: seq<string>, strptime: (string, string) -> Option<Month>, k: int) {
    0 <= k < |formats| && strptime(s, formats[k]).Some?
    && forall j :: 0 <= j < k ==> strptime(s, formats[j]).None?
  }

  /** A first success in the tail of the formats is a first success in the whole list when the head fails. */
  lemma FirstFormatShift(s: string, formats: seq<string>, strptime: (string, string) -> Option<Month>, r: Option<Month>)
    requires formats != [] && strptime(s, formats[0]).None?
    requires r.Some? ==> exists k :: FirstFormatAt(s, formats[1..], strptime, k) && r == strptime(s, formats[1..][k])
    ensures r.Some? ==> exists k :: FirstFormatAt(s, formats, strptime, k) && r == strptime(s, formats[k])
  {
    if r.Some? {
      var k :| FirstFormatAt(s, formats[1..], strptime, k) && r == strptime(s, formats[1..][k]);
      assert FirstFormatAt(s, formats, strptime, k + 1);
    }
  }

  /** The month of the first format in `formats` that parses `s`. */
  function FirstFormat(s: string, formats: seq<string>, strptime: (string, string) -> Option<Month>): (r: Option<Month>)
    ensures r.None? <==> forall k :: 0 <= k < |formats| ==> strptime(s, formats[k]).None?
    ensures r.Some? ==> exists k :: FirstFormatAt(s, formats, strptime, k) && r == strptime(s, formats[k])
  {
    if formats == [] then None
    else match strptime(s, formats[0])
      case Some(m) =>
        assert FirstFormatAt(s, formats, strptime, 0);
        Some(m)
      case None =>
        var r := FirstFormat(s, formats[1..], strptime);
        FirstFormatShift(s, formats, strptime, r);
        r
  }

  /**
   * The month of a date text: blank gives none; otherwise ISO-8601 (with every 'Z'
   * removed) is tried first, then each explicit format in order.
   */
  function ParseMonthFromDate(text: string, p: Parsers): (r: Option<Month>)
    ensures Strip(text) == "" ==> r == None
    ensures Strip(text) != "" && p.fromIsoFormat(RemoveChar(Strip(text), 'Z')).Some? ==>
      r == p.fromIsoFormat(RemoveChar(Strip(text), 'Z'))
    ensures Strip(text) != "" && p.fromIsoFormat(RemoveChar(Strip(text), 'Z')).None? ==>
      r == FirstFormat(Strip(text), DateFormats, p.strptime)
  {
    var s := Strip(text);
    if s == "" then None
    else match p.fromIsoFormat(RemoveChar(s, 'Z'))
      case Some(m) => Some(m)
      case None => FirstFormat(s, DateFormats, p.strptime)
  }

  /** The month of a cell: read as a date, else as a plain month number. */
  function ResolveMonth(cell: string, p: Parsers): (r: Option<int>)
    ensures ParseMonthFromDate(cell, p).Some? ==> r == Some(ParseMonthFromDate(cell, p).value as int)
    ensures ParseMonthFromDate(cell, p).None? ==> r == MonthNumber(cell, p)
  {
    match ParseMonthFromDate(cell, p)
    case Some(m) => Some(m as int)
    case None => MonthNumber(cell, p)
  }
}
