/**
 * Turning one CSV file, already split into records, into (station, month,
 * temperature) observations. The layout is decided once from the header row:
 * "long" (a station and a temperature column) or "wide" (a date-like column and
 * one column per station).
 */
module Extraction {
  import opened Wrappers
  import opened Text
  import opened Values
  import opened Columns

  /** One temperature reading of one station in one month. */
  datatype Observation = Observation(station: string, month: int, temp: real)

  /** Every header stripped, as the file's header row is before any column is looked up. */
  function StripAll(row: seq<string>): (r: seq<string>)
    ensures |r| == |row|
    ensures forall i :: 0 <= i < |row| ==> r[i] == Strip(row[i])
  {
    seq(|row|, i requires 0 <= i < |row| => Strip(row[i]))
  }

  /** A station and a temperature column were both found: the file is in the long shape. */
  predicate IsLongShape(cols: ColumnIndexes) {
    cols.station.Some? && cols.temp.Some?
  }

  // ----- long shape -----

  /** The month of a long-shape row: the date column when it parses, else the month column read as a number. */
  function LongRowMonth(cols: ColumnIndexes, row: seq<string>, p: Parsers): Option<int> {
    var fromDate := if cols.date.Some? && cols.date.value < |row| then ParseMonthFromDate(row[cols.date.value], p) else None;
    if fromDate.Some? then Some(fromDate.value as int)
    else if cols.month.Some? && cols.month.value < |row| then MonthNumber(row[cols.month.value], p)
    else None
  }

  /** The observation a long-shape row yields, if any. */
  function LongRowObservation(cols: ColumnIndexes, row: seq<string>, p: Parsers): (r: Option<Observation>)
    requires IsLongShape(cols)
    ensures r.Some? ==> r.value.station != ""
    ensures r.Some? ==> cols.station.value < |row| && r.value.station == Strip(row[cols.station.value])
    ensures r.Some? ==> cols.temp.value < |row| && ToFloat(row[cols.temp.value], p.toNumber) == Some(r.value.temp)
    ensures r.Some? ==> LongRowMonth(cols, row, p) == Some(r.value.month)
  {
    if row == [] then None
    else
      var station := if cols.station.value < |row| then Strip(row[cols.station.value]) else "";
      if station == "" then None
      else match LongRowMonth(cols, row, p)
        case None => None
        case Some(month) =>
          var t := if cols.temp.value < |row| then ToFloat(row[cols.temp.value], p.toNumber) else None;
          match t
          case None => None
          case Some(v) => Some(Observation(station, month, v))
  }

  /** The observations of the data rows of a long-shape file, in row order. */
  function LongRows(cols: ColumnIndexes, rows: seq<seq<string>>, p: Parsers): (r: seq<Observation>)
    requires IsLongShape(cols)
    ensures |r| <= |rows|
    ensures forall k :: 0 <= k < |r| ==> r[k].station != ""
  {
    if rows == [] then []
    else LongRows(cols, rows[..|rows| - 1], p) + OptionToSeq(LongRowObservation(cols, rows[|rows| - 1], p))
  }

  // ----- wide shape -----

  /** The column months are read from in the wide shape: the date column, else the month column, else the first. */
  function DateLikeIndex(cols: ColumnIndexes): (r: nat)
    ensures cols.date.Some? ==> r == cols.date.value
    ensures cols.date.None? && cols.month.Some? ==> r == cols.month.value
    ensures cols.date.None? && cols.month.None? ==> r == 0
  {
    if cols.date.Some? then cols.date.value
    else if cols.month.Some? then cols.month.value
    else 0
  }

  /** The station a wide-shape column stands for: its header, or `Station_<i>` when the header is blank. */
  function StationName(headers: seq<string>, i: nat): (r: string)
    requires i < |headers|
    ensures r != []
    ensures Strip(headers[i]) != "" ==> r == Strip(headers[i])
    ensures Strip(headers[i]) == "" ==> r == "Station_" + NatToString(i)
  {
    if Strip(headers[i]) != "" then Strip(headers[i]) else "Station_" + NatToString(i)
  }

  /** The station name of every column of a wide-shape header row. */
  function StationNames(headers: seq<string>): (r: seq<string>)
    ensures |r| == |headers|
    ensures forall i :: 0 <= i < |r| ==> r[i] == StationName(headers, i) && r[i] != []
  {
    seq(|headers|, i requires 0 <= i < |headers| => StationName(headers, i))
  }

  /** Every cell of a row read as a temperature. */
  function CellReadings(row: seq<string>, p: Parsers): (r: seq<Option<real>>)
    ensures |r| == |row|
    ensures forall i :: 0 <= i < |r| ==> r[i] == ToFloat(row[i], p.toNumber)
  {
    seq(|row|, i requires 0 <= i < |row| => ToFloat(row[i], p.toNumber))
  }

  /** A column holds a reading of a station in a wide-shape row: not the date-like column, present and parsable. */
  predicate IsStationReading(dateLike: nat, readings: seq<Option<real>>, i: nat) {
    i != dateLike && i < |readings| && readings[i].Some?
  }

  /** The columns below `n` that hold a station reading, in column order. */
  function ReadingColumns(dateLike: nat, readings: seq<Option<real>>, n: nat): (c: seq<nat>)
    ensures |c| <= (if dateLike < n then n - 1 else n)
    ensures forall k :: 0 <= k < |c| ==> c[k] < n && IsStationReading(dateLike, readings, c[k])
    ensures forall i: nat :: i < n && IsStationReading(dateLike, readings, i) ==> i in c
    ensures forall j, k :: 0 <= j < k < |c| ==> c[j] < c[k]
  {
    if n == 0 then []
    else if IsStationReading(dateLike, readings, n - 1) then ReadingColumns(dateLike, readings, n - 1) + [n - 1]
    else ReadingColumns(dateLike, readings, n - 1)
  }

  /** The observations the given columns of a wide-shape row yield, in `month`. */
  function ColumnObservations(names: seq<string>, readings: seq<Option<real>>, month: int, cols: seq<nat>): (r: seq<Observation>)
    requires forall k :: 0 <= k < |cols| ==> cols[k] < |names| && cols[k] < |readings| && readings[cols[k]].Some?
    ensures |r| == |cols|
  {
    seq(|cols|, k requires 0 <= k < |cols| => Observation(names[cols[k]], month, readings[cols[k]].value))
  }

  /** One more column adds its observation at the end. */
  lemma ColumnObservationsSnoc(names: seq<string>, readings: seq<Option<real>>, month: int, cols: seq<nat>, i: nat)
    requires forall k :: 0 <= k < |cols| ==> cols[k] < |names| && cols[k] < |readings| && readings[cols[k]].Some?
    requires i < |names| && i < |readings| && readings[i].Some?
    ensures ColumnObservations(names, readings, month, cols + [i])
      == ColumnObservations(names, readings, month, cols) + [Observation(names[i], month, readings[i].value)]
  {
  }

  /** The month of a wide-shape row, read from its date-like cell. */
  function WideRowMonth(dateLike: nat, row: seq<string>, p: Parsers): Option<int> {
    if dateLike < |row| then ResolveMonth(row[dateLike], p) else None
  }

  /** The observations of one wide-shape row: none without a month, else one per station reading, in column order. */
  function WideRowObservations(headers: seq<string>, dateLike: nat, row: seq<string>, p: Parsers): (r: seq<Observation>)
    requires dateLike < |headers|
    ensures |r| <= |headers| - 1
    ensures forall k :: 0 <= k < |r| ==> r[k].station != ""
  {
    if row == [] then []
    else match WideRowMonth(dateLike, row, p)
      case None => []
      case Some(month) =>
        var names := StationNames(headers);
        ColumnObservations(names, CellReadings(row, p), month, ReadingColumns(dateLike, CellReadings(row, p), |headers|))
  }

  /** The observations of the data rows of a wide-shape file, row by row. */
  function WideRows(headers: seq<string>, dateLike: nat, rows: seq<seq<string>>, p: Parsers): (r: seq<Observation>)
    requires dateLike < |headers|
    ensures |r| <= |rows| * (|headers| - 1)
    ensures forall k :: 0 <= k < |r| ==> r[k].station != ""
  {
    if rows == [] then []
    else
      var prev := WideRows(headers, dateLike, rows[..|rows| - 1], p);
      var last := WideRowObservations(headers, dateLike, rows[|rows| - 1], p);
      assert (|rows| - 1) * (|headers| - 1) + (|headers| - 1) == |rows| * (|headers| - 1);
      prev + last
  }

  // ----- one file -----

  /** The observations of one file: nothing without a non-empty header row, else by the shape its header decides. */
  function FileObservations(records: seq<seq<string>>, p: Parsers): (r: seq<Observation>)
    ensures forall k :: 0 <= k < |r| ==> r[k].station != ""
  {
    if records == [] then []
    else
      var headers := StripAll(records[0]);
      if headers == [] then []
      else
        var cols := ResolveColumns(headers);
        if IsLongShape(cols) then LongRows(cols, records[1..], p)
        else WideRows(headers, DateLikeIndex(cols), records[1..], p)
  }

  // ----- properties -----

  /** The date column decides a long-shape row's month whenever it parses; the month column is only a fallback. */
  lemma LongMonthDateFirst(cols: ColumnIndexes, row: seq<string>, p: Parsers)
    requires IsLongShape(cols)
    ensures cols.date.Some? && cols.date.value < |row| && ParseMonthFromDate(row[cols.date.value], p).Some? ==>
      forall o :: LongRowObservation(cols, row, p) == Some(o) ==> o.month == ParseMonthFromDate(row[cols.date.value], p).value as int
    ensures (cols.date.None? || cols.date.value >= |row| || ParseMonthFromDate(row[cols.date.value], p).None?) ==>
      forall o :: LongRowObservation(cols, row, p) == Some(o) ==>
        cols.month.Some? && cols.month.value < |row| && MonthNumber(row[cols.month.value], p) == Some(o.month)
  {
  }

  /** A long-shape row with a non-blank station, a month and a temperature yields exactly that observation. */
  lemma LongRowComplete(cols: ColumnIndexes, row: seq<string>, p: Parsers)
    requires IsLongShape(cols)
    requires cols.station.value < |row| && Strip(row[cols.station.value]) != ""
    requires LongRowMonth(cols, row, p).Some?
    requires cols.temp.value < |row| && ToFloat(row[cols.temp.value], p.toNumber).Some?
    ensures LongRowObservation(cols, row, p)
      == Some(Observation(Strip(row[cols.station.value]), LongRowMonth(cols, row, p).value,
                          ToFloat(row[cols.temp.value], p.toNumber).value))
  {
  }

  /** A row too short to hold the station or temperature column yields nothing, rather than failing. */
  lemma LongShortRow(cols: ColumnIndexes, row: seq<string>, p: Parsers)
    requires IsLongShape(cols)
    requires cols.station.value >= |row| || cols.temp.value >= |row|
    ensures LongRowObservation(cols, row, p) == None
  {
  }

  /** Every station reading of a wide-shape row with a month yields an observation named after its column. */
  lemma WideRowComplete(headers: seq<string>, dateLike: nat, row: seq<string>, p: Parsers, i: nat)
    requires dateLike < |headers| && i < |headers| && i != dateLike && i < |row|
    requires WideRowMonth(dateLike, row, p).Some? && ToFloat(row[i], p.toNumber).Some?
    ensures Observation(StationName(headers, i), WideRowMonth(dateLike, row, p).value, ToFloat(row[i], p.toNumber).value)
      in WideRowObservations(headers, dateLike, row, p)
  {
    var readings := CellReadings(row, p);
    var cols := ReadingColumns(dateLike, readings, |headers|);
    assert IsStationReading(dateLike, readings, i);
    var k :| 0 <= k < |cols| && cols[k] == i;
    assert WideRowObservations(headers, dateLike, row, p)[k]
      == Observation(StationName(headers, i), WideRowMonth(dateLike, row, p).value, ToFloat(row[i], p.toNumber).value);
  }

  /** Every observation of a wide-shape row comes from one station column read in the row's month. */
  lemma WideRowSound(headers: seq<string>, dateLike: nat, row: seq<string>, p: Parsers, o: Observation)
    requires dateLike < |headers|
    requires o in WideRowObservations(headers, dateLike, row, p)
    ensures WideRowMonth(dateLike, row, p) == Some(o.month)
    ensures exists i :: (0 <= i < |headers| && i < |row| && i != dateLike
      && ToFloat(row[i], p.toNumber) == Some(o.temp) && o.station == StationName(headers, i))
  {
    var readings := CellReadings(row, p);
    var cols := ReadingColumns(dateLike, readings, |headers|);
    var r := WideRowObservations(headers, dateLike, row, p);
    var k :| 0 <= k < |r| && r[k] == o;
    var i := cols[k];
    assert IsStationReading(dateLike, readings, i);
    assert 0 <= i < |headers| && i < |row| && i != dateLike && ToFloat(row[i], p.toNumber) == Some(o.temp);
  }

  /** A header row that names a station and a temperature column makes the whole file long-shaped. */
  lemma LongShapeChosen(records: seq<seq<string>>, p: Parsers)
    requires records != [] && records[0] != []
    ensures IsLongShape(ResolveColumns(StripAll(records[0]))) ==>
      FileObservations(records, p) == LongRows(ResolveColumns(StripAll(records[0])), records[1..], p)
    ensures !IsLongShape(ResolveColumns(StripAll(records[0]))) ==>
      FileObservations(records, p) == WideRows(StripAll(records[0]), DateLikeIndex(ResolveColumns(StripAll(records[0]))), records[1..], p)
  {
  }

  // ----- the generator -----

  /** The month of a long-shape row: the date column first, then the month column read as a number. */
  method LongMonth(cols: ColumnIndexes, row: seq<string>, p: Parsers) returns (month: Option<int>)
    ensures month == LongRowMonth(cols, row, p)
  {
    month := None;
    if cols.date.Some? && cols.date.value < |row| {
      var d := ParseMonthFromDate(row[cols.date.value], p);
      month := if d.Some? then Some(d.value as int) else None;
    }
    if month.None? && cols.month.Some? && cols.month.value < |row| {
      var m := ToFloat(row[cols.month.value], p.toNumber);
      month := if m.Some? then Some(Trunc(m.value)) else None;
    }
  }

  /** The body of the long-shape row loop: the observation one row yields, `None` where the loop moves on. */
  method LongRow(cols: ColumnIndexes, row: seq<string>, p: Parsers) returns (o: Option<Observation>)
    requires IsLongShape(cols)
    ensures o == LongRowObservation(cols, row, p)
  {
    if row == [] {
      return None;
    }
    var station := if cols.station.value < |row| then Strip(row[cols.station.value]) else "";
    if station == "" {
      return None;
    }
    var month := LongMonth(cols, row, p);
    if month.None? {
      return None;
    }
    var t := if cols.temp.value < |row| then ToFloat(row[cols.temp.value], p.toNumber) else None;
    if t.None? {
      return None;
    }
    return Some(Observation(station, month.value, t.value));
  }

  /** One more row adds the observation that row yields, if any. */
  lemma LongRowsSnoc(cols: ColumnIndexes, rows: seq<seq<string>>, r: int, p: Parsers)
    requires IsLongShape(cols) && 0 <= r < |rows|
    ensures LongRows(cols, rows[..r + 1], p) == LongRows(cols, rows[..r], p) + OptionToSeq(LongRowObservation(cols, rows[r], p))
  {
    assert rows[..r + 1][..r] == rows[..r];
  }

  /** The long-shape row loop: one observation per row with a station, a month and a temperature. */
  method ExtractLong(cols: ColumnIndexes, rows: seq<seq<string>>, p: Parsers) returns (obs: seq<Observation>)
    requires IsLongShape(cols)
    ensures obs == LongRows(cols, rows, p)
  {
    obs := [];
    for r := 0 to |rows|
      invariant obs == LongRows(cols, rows[..r], p)
    {
      LongRowsSnoc(cols, rows, r, p);
      var o := LongRow(cols, rows[r], p);
      if o.Some? {
        obs := obs + [o.value];
      }
    }
    assert rows[..|rows|] == rows;
  }

  /** The month of a wide-shape row: its date-like cell read as a date, else as a month number. */
  method WideMonth(dateLike: nat, row: seq<string>, p: Parsers) returns (month: Option<int>)
    ensures month == WideRowMonth(dateLike, row, p)
  {
    month := None;
    if dateLike < |row| {
      var d := ParseMonthFromDate(row[dateLike], p);
      month := if d.Some? then Some(d.value as int) else None;
      if month.None? {
        var m := ToFloat(row[dateLike], p.toNumber);
        month := if m.Some? then Some(Trunc(m.value)) else None;
      }
    }
  }

  /** The station-column loop of a wide-shape row whose month is known. */
  method StationCells(headers: seq<string>, dateLike: nat, row: seq<string>, month: int, p: Parsers) returns (obs: seq<Observation>)
    ensures obs == ColumnObservations(StationNames(headers), CellReadings(row, p), month,
      ReadingColumns(dateLike, CellReadings(row, p), |headers|))
  {
    obs := [];
    ghost var names := StationNames(headers);
    ghost var readings := CellReadings(row, p);
    for i := 0 to |headers|
      invariant obs == ColumnObservations(names, readings, month, ReadingColumns(dateLike, readings, i))
    {
      ghost var cols := ReadingColumns(dateLike, readings, i);
      if i == dateLike || i >= |row| {
        continue;
      }
      var station := StationName(headers, i);
      var t := ToFloat(row[i], p.toNumber);
      if t.None? {
        continue;
      }
      assert t == readings[i] && station == names[i];
      assert ReadingColumns(dateLike, readings, i + 1) == cols + [i];
      ColumnObservationsSnoc(names, readings, month, cols, i);
      obs := obs + [Observation(station, month, t.value)];
    }
  }

  /** The body of the wide-shape row loop: one observation per station column with a reading. */
  method WideRow(headers: seq<string>, dateLike: nat, row: seq<string>, p: Parsers) returns (obs: seq<Observation>)
    requires dateLike < |headers|
    ensures obs == WideRowObservations(headers, dateLike, row, p)
  {
    if row == [] {
      return [];
    }
    var month := WideMonth(dateLike, row, p);
    if month.None? {
      return [];
    }
    obs := StationCells(headers, dateLike, row, month.value, p);
  }

  /** The wide-shape row loop, the date-like column never read as a station. */
  method ExtractWide(headers: seq<string>, dateLike: nat, rows: seq<seq<string>>, p: Parsers) returns (obs: seq<Observation>)
    requires dateLike < |headers|
    ensures obs == WideRows(headers, dateLike, rows, p)
  {
    obs := [];
    for r := 0 to |rows|
      invariant obs == WideRows(headers, dateLike, rows[..r], p)
    {
      assert rows[..r + 1][..r] == rows[..r];
      var rowObs := WideRow(headers, dateLike, rows[r], p);
      obs := obs + rowObs;
    }
    assert rows[..|rows|] == rows;
  }

  /**
   * The observations of one file, records being its CSV rows: nothing when the file or its header row is empty,
   * else the long or the wide row loop as the header decides.
   */
  method IterTemperatureObservations(records: seq<seq<string>>, p: Parsers) returns (obs: seq<Observation>)
    ensures obs == FileObservations(records, p)
    ensures forall k :: 0 <= k < |obs| ==> obs[k].station != ""
  {
    if records == [] {
      return [];
    }
    var headers := StripAll(records[0]);
    if headers == [] {
      return [];
    }
    var stationIdx := FindCol(headers, StationKeywords);
    var tempIdx := FindCol(headers, TempKeywords);
    var dateIdx := FindCol(headers, DateKeywords);
    var monthIdx := FindCol(headers, MonthKeywords);
    var cols := ColumnIndexes(stationIdx, tempIdx, dateIdx, monthIdx);
    assert cols == ResolveColumns(headers);
    if stationIdx.Some? && tempIdx.Some? {
      obs := ExtractLong(cols, records[1..], p);
      return;
    }
    var dateLike := if dateIdx.Some? then dateIdx.value else if monthIdx.Some? then monthIdx.value else 0;
    obs := ExtractWide(headers, dateLike, records[1..], p);
  }
}
