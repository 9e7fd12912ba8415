/**
 * Locating the station, temperature, date and month columns of a header row by
 * case-insensitive keyword search, the first matching header winning.
 */
module Columns {
  import opened Wrappers
  import opened Text

  const StationKeywords: seq<string> := ["station", "site"]
  const TempKeywords: seq<string> := ["temp", "temperature"]
  const DateKeywords: seq<string> := ["date", "time", "datetime"]
  const MonthKeywords: seq<string> := ["month"]

  /** A header as it is searched: stripped and lower-cased. */
  function Normalize(header: string): string {
    Lower(Strip(header))
  }

  /** Every header normalized, in order. */
  function NormalizeAll(headers: seq<string>): (r: seq<string>)
    ensures |r| == |headers|
    ensures forall i :: 0 <= i < |headers| ==> r[i] == Normalize(headers[i])
  {
    seq(|headers|, i requires 0 <= i < |headers| => Normalize(headers[i]))
  }

  /** One of the keywords, tried in order, occurs in `text`. */
  predicate AnyKeywordIn(text: string, keywords: seq<string>) {
    keywords != [] && (Contains(text, keywords[0]) || AnyKeywordIn(text, keywords[1..]))
  }

  lemma {:induction false} AnyKeywordInIff(text: string, keywords: seq<string>)
    ensures AnyKeywordIn(text, keywords) <==> exists k :: 0 <= k < |keywords| && Contains(text, keywords[k])
  {
    if keywords != [] {
      AnyKeywordInIff(text, keywords[1..]);
      if AnyKeywordIn(text, keywords[1..]) {
        var k :| 0 <= k < |keywords[1..]| && Contains(text, keywords[1..][k]);
        assert keywords[k + 1] == keywords[1..][k];
      }
      forall k | 1 <= k < |keywords| ensures keywords[k] == keywords[1..][k - 1] { }
    }
  }

  /** The index of the first normalized header that contains one of the keywords. */
  function FirstMatch(lowered: seq<string>, keywords: seq<string>): (r: Option<nat>)
    ensures r.Some? ==> r.value < |lowered| && AnyKeywordIn(lowered[r.value], keywords)
    ensures r.Some? ==> forall j :: 0 <= j < r.value ==> !AnyKeywordIn(lowered[j], keywords)
    ensures r.None? <==> forall j :: 0 <= j < |lowered| ==> !AnyKeywordIn(lowered[j], keywords)
  {
    if lowered == [] then None
    else if AnyKeywordIn(lowered[0], keywords) then Some(0)
    else match FirstMatch(lowered[1..], keywords)
      case None => None
      case Some(i) => Some(i + 1)
  }

  /** The nested scan: headers left to right, and within a header the keywords in order. */
  method SearchKeywords(lowered: seq<string>, keywords: seq<string>) returns (r: Option<nat>)
    ensures r == FirstMatch(lowered, keywords)
  {
    for i := 0 to |lowered|
      invariant forall j :: 0 <= j < i ==> !AnyKeywordIn(lowered[j], keywords)
    {
      for k := 0 to |keywords|
        invariant AnyKeywordIn(lowered[i], keywords) == AnyKeywordIn(lowered[i], keywords[k..])
      {
        assert keywords[k..][1..] == keywords[k + 1..];
        if Contains(lowered[i], keywords[k]) {
          return Some(i);
        }
      }
      assert keywords[|keywords|..] == [];
    }
    return None;
  }

  /** The first header whose normalized text contains one of the keywords. */
  method FindCol(headers: seq<string>, keywords: seq<string>) returns (r: Option<nat>)
    ensures r == FirstMatch(NormalizeAll(headers), keywords)
    ensures r.Some? ==> r.value < |headers|
  {
    var lowered := NormalizeAll(headers);
    r := SearchKeywords(lowered, keywords);
  }

  /** The four column positions a file's layout is decided from. */
  datatype ColumnIndexes = ColumnIndexes(station: Option<nat>, temp: Option<nat>, date: Option<nat>, month: Option<nat>)

  /** Every present index names a column of the header row. */
  predicate WithinHeaders(cols: ColumnIndexes, headers: seq<string>) {
    (cols.station.Some? ==> cols.station.value < |headers|)
    && (cols.temp.Some? ==> cols.temp.value < |headers|)
    && (cols.date.Some? ==> cols.date.value < |headers|)
    && (cols.month.Some? ==> cols.month.value < |headers|)
  }

  /**
   * The columns of a header row. Each field is `FirstMatch` over the normalised headers with that
   * field's keyword group: station or site, temp or temperature, date, time or datetime, and month.
   * The first-match meaning of each field is the contract of `FirstMatch`.
   */
  function ResolveColumns(headers: seq<string>): (r: ColumnIndexes)
    ensures WithinHeaders(r, headers)
  {
    var lowered := NormalizeAll(headers);
    ColumnIndexes(
      FirstMatch(lowered, StationKeywords), FirstMatch(lowered, TempKeywords),
      FirstMatch(lowered, DateKeywords), FirstMatch(lowered, MonthKeywords))
  }
}
