/**
 * What the three report files say: the seasonal averages, the station(s) with
 * the largest temperature range, and the most stable and most variable
 * station(s). Ties within 1e-9 are all reported, in ascending name order.
 */
module Reports {
  import opened Text
  import opened Seasons
  import opened Stats
  import opened Aggregation

  /** The tolerance within which two ranges or two deviations count as tied: 1e-9. */
  const Eps: real := 0.000000001

  function Abs(x: real): (r: real)
    ensures r >= 0.0 && (r == x || r == -x)
  {
    if x < 0.0 then -x else x
  }

  // ----- the seasonal averages -----

  /** One line of the averages report: a season's mean temperature, or `NaN` when it has no readings. */
  datatype SeasonAverage = Average(season: Season, mean: real) | NotAvailable(season: Season)

  /**
   * The averages report, one line per season in the order Summer, Autumn, Winter, Spring; a season
   * missing from the totals counts as `(0.0, 0)`.
   */
  method SeasonalAverages(totals: map<Season, SeasonTotal>) returns (lines: seq<SeasonAverage>)
    ensures |lines| == |AllSeasons|
    ensures forall i :: 0 <= i < |lines| ==> lines[i].season == AllSeasons[i]
    ensures forall i :: 0 <= i < |lines| ==>
      (lines[i].NotAvailable? <==> AllSeasons[i] !in totals || totals[AllSeasons[i]].count == 0)
    ensures forall i :: 0 <= i < |lines| && lines[i].Average? ==>
      lines[i].mean * totals[AllSeasons[i]].count as real == totals[AllSeasons[i]].sum
  {
    lines := [];
    for i := 0 to |AllSeasons|
      invariant |lines| == i
      invariant forall k :: 0 <= k < i ==> lines[k].season == AllSeasons[k]
      invariant forall k :: 0 <= k < i ==>
        (lines[k].NotAvailable? <==> AllSeasons[k] !in totals || totals[AllSeasons[k]].count == 0)
      invariant forall k :: 0 <= k < i && lines[k].Average? ==>
        lines[k].mean * totals[AllSeasons[k]].count as real == totals[AllSeasons[k]].sum
    {
      var season := AllSeasons[i];
      var t := if season in totals then totals[season] else SeasonTotal(0.0, 0);
      if t.count != 0 {
        lines := lines + [Average(season, t.sum / t.count as real)];
      } else {
        lines := lines + [NotAvailable(season)];
      }
    }
  }

  // ----- ties around the best value -----

  /** One item of the `ranges` or `stdevs` dictionary: a station and its value. */
  datatype Entry = Entry(station: string, value: real)

  /** The stations of the entries, in order. */
  function EntryStations(es: seq<Entry>): (r: seq<string>)
    ensures |r| == |es| && forall i :: 0 <= i < |es| ==> r[i] == es[i].station
  {
    seq(|es|, i requires 0 <= i < |es| => es[i].station)
  }

  /** Python's `max(d.values())`. */
  function MaxValue(es: seq<Entry>): (m: real)
    requires es != []
    ensures exists i :: 0 <= i < |es| && es[i].value == m
    ensures forall i :: 0 <= i < |es| ==> es[i].value <= m
  {
    if |es| == 1 then es[0].value
    else
      var m := MaxValue(es[..|es| - 1]);
      assert forall i :: 0 <= i < |es| - 1 ==> es[..|es| - 1][i] == es[i];
      if es[|es| - 1].value > m then es[|es| - 1].value else m
  }

  /** Python's `min(d.values())`. */
  function MinValue(es: seq<Entry>): (m: real)
    requires es != []
    ensures exists i :: 0 <= i < |es| && es[i].value == m
    ensures forall i :: 0 <= i < |es| ==> m <= es[i].value
  {
    if |es| == 1 then es[0].value
    else
      var m := MinValue(es[..|es| - 1]);
      assert forall i :: 0 <= i < |es| - 1 ==> es[..|es| - 1][i] == es[i];
      if es[|es| - 1].value < m then es[|es| - 1].value else m
  }

  /** `[st for st, v in d.items() if abs(v - target) <= eps]`. */
  function Select(es: seq<Entry>, target: real): seq<string> {
    if es == [] then []
    else
      var e := es[|es| - 1];
      Select(es[..|es| - 1], target) + (if Abs(e.value - target) <= Eps then [e.station] else [])
  }

  /** A station is selected exactly when one of its entries lies within the tolerance of the target. */
  lemma {:induction false} SelectMembers(es: seq<Entry>, target: real, n: string)
    ensures n in Select(es, target) <==> exists i :: 0 <= i < |es| && es[i].station == n && Abs(es[i].value - target) <= Eps
  {
    if es != [] {
      var init := es[..|es| - 1];
      SelectMembers(init, target, n);
      assert forall i :: 0 <= i < |init| ==> init[i] == es[i];
      if n in Select(es, target) && n !in Select(init, target) {
        assert es[|es| - 1].station == n && Abs(es[|es| - 1].value - target) <= Eps;
      }
    }
  }

  /** Selecting among entries of distinct stations repeats no station. */
  lemma {:induction false} SelectDistinct(es: seq<Entry>, target: real)
    requires Distinct(EntryStations(es))
    ensures Distinct(Select(es, target))
  {
    if es != [] {
      var init := es[..|es| - 1];
      var e := es[|es| - 1];
      assert EntryStations(init) == EntryStations(es)[..|es| - 1];
      SelectDistinct(init, target);
      forall i | 0 <= i < |init| ensures init[i].station != e.station {
        assert EntryStations(es)[i] != EntryStations(es)[|es| - 1];
      }
      SelectMembers(init, target, e.station);
    }
  }

  /** Being within the tolerance of the maximum is being at most the tolerance below every entry. */
  lemma NearMaxIff(es: seq<Entry>, i: int)
    requires 0 <= i < |es|
    ensures Abs(es[i].value - MaxValue(es)) <= Eps <==> forall j :: 0 <= j < |es| ==> es[j].value - es[i].value <= Eps
  {
    var k :| 0 <= k < |es| && es[k].value == MaxValue(es);
    if forall j :: 0 <= j < |es| ==> es[j].value - es[i].value <= Eps {
      assert es[k].value - es[i].value <= Eps;
    }
  }

  /** Being within the tolerance of the minimum is being at most the tolerance above every entry. */
  lemma NearMinIff(es: seq<Entry>, i: int)
    requires 0 <= i < |es|
    ensures Abs(es[i].value - MinValue(es)) <= Eps <==> forall j :: 0 <= j < |es| ==> es[i].value - es[j].value <= Eps
  {
    var k :| 0 <= k < |es| && es[k].value == MinValue(es);
    if forall j :: 0 <= j < |es| ==> es[i].value - es[j].value <= Eps {
      assert es[i].value - es[k].value <= Eps;
    }
  }

  /** The selected stations sorted by name, with no repetitions. */
  lemma SortedSelection(es: seq<Entry>, target: real)
    requires Distinct(EntryStations(es))
    ensures StrictlySorted(SortStrings(Select(es, target)))
    ensures forall n :: n in SortStrings(Select(es, target)) <==> n in Select(es, target)
  {
    SelectDistinct(es, target);
    SortStringsMembers(Select(es, target));
    SortStringsDistinct(Select(es, target));
    SortedDistinctIsStrict(SortStrings(Select(es, target)));
  }

  /** The entries are the items of the dictionary `vals`, one per key. */
  ghost predicate EntriesOf(es: seq<Entry>, vals: map<string, real>) {
    Distinct(EntryStations(es))
    && (forall n :: n in vals <==> n in EntryStations(es))
    && (forall i :: 0 <= i < |es| ==> es[i].station in vals && es[i].value == vals[es[i].station])
  }

  /** `n`'s value is at most the tolerance below every other value of `vals`. */
  ghost predicate TopWithin(vals: map<string, real>, n: string) {
    n in vals && forall m :: m in vals ==> vals[m] - vals[n] <= Eps
  }

  /** `n`'s value is at most the tolerance above every other value of `vals`. */
  ghost predicate BottomWithin(vals: map<string, real>, n: string) {
    n in vals && forall m :: m in vals ==> vals[n] - vals[m] <= Eps
  }

  /** There are no entries exactly when the dictionary is empty. */
  lemma EntriesEmpty(es: seq<Entry>, vals: map<string, real>)
    requires EntriesOf(es, vals)
    ensures es == [] <==> vals == map[]
  {
    if es != [] {
      assert es[0].station in vals;
    } else {
      assert EntryStations(es) == [];
      assert vals.Keys == {};
    }
  }

  /** A station tied with the maximum is at most the tolerance below every other one, and conversely. */
  lemma SelectMaxMember(es: seq<Entry>, vals: map<string, real>, n: string)
    requires EntriesOf(es, vals) && es != []
    ensures n in Select(es, MaxValue(es)) <==> TopWithin(vals, n)
  {
    var target := MaxValue(es);
    SelectMembers(es, target, n);
    if n in Select(es, target) {
      var i :| 0 <= i < |es| && es[i].station == n && Abs(es[i].value - target) <= Eps;
      NearMaxIff(es, i);
      forall m | m in vals ensures vals[m] - vals[n] <= Eps {
        var j :| 0 <= j < |es| && EntryStations(es)[j] == m;

        assert es[j].value - es[i].value <= Eps;
      }
    }
    if TopWithin(vals, n) {
      var i :| 0 <= i < |es| && EntryStations(es)[i] == n;
      NearMaxIff(es, i);
    }
  }

  /** The stations tied with the maximum are those at most the tolerance below every other one, and there is one. */
  lemma SelectMaxIff(es: seq<Entry>, vals: map<string, real>)
    requires EntriesOf(es, vals) && es != []
    ensures forall n :: n in Select(es, MaxValue(es)) <==> TopWithin(vals, n)
    ensures Select(es, MaxValue(es)) != []
  {
    forall n ensures n in Select(es, MaxValue(es)) <==> TopWithin(vals, n) {
      SelectMaxMember(es, vals, n);
    }
    var k :| 0 <= k < |es| && es[k].value == MaxValue(es);
    SelectMembers(es, MaxValue(es), es[k].station);
  }

  /** A station tied with the minimum is at most the tolerance above every other one, and conversely. */
  lemma SelectMinMember(es: seq<Entry>, vals: map<string, real>, n: string)
    requires EntriesOf(es, vals) && es != []
    ensures n in Select(es, MinValue(es)) <==> BottomWithin(vals, n)
  {
    var target := MinValue(es);
    SelectMembers(es, target, n);
    if n in Select(es, target) {
      var i :| 0 <= i < |es| && es[i].station == n && Abs(es[i].value - target) <= Eps;
      NearMinIff(es, i);
      forall m | m in vals ensures vals[n] - vals[m] <= Eps {
        var j :| 0 <= j < |es| && EntryStations(es)[j] == m;

        assert es[i].value - es[j].value <= Eps;
      }
    }
    if BottomWithin(vals, n) {
      var i :| 0 <= i < |es| && EntryStations(es)[i] == n;
      NearMinIff(es, i);
    }
  }

  /** The stations tied with the minimum are those at most the tolerance above every other one, and there is one. */
  lemma SelectMinIff(es: seq<Entry>, vals: map<string, real>)
    requires EntriesOf(es, vals) && es != []
    ensures forall n :: n in Select(es, MinValue(es)) <==> BottomWithin(vals, n)
    ensures Select(es, MinValue(es)) != []
  {
    forall n ensures n in Select(es, MinValue(es)) <==> BottomWithin(vals, n) {
      SelectMinMember(es, vals, n);
    }
    var k :| 0 <= k < |es| && es[k].value == MinValue(es);
    SelectMembers(es, MinValue(es), es[k].station);
  }

  /** The report order of the entries tied with the largest value: sorted names, each once, at least one. */
  lemma TopGroup(es: seq<Entry>, vals: map<string, real>)
    requires EntriesOf(es, vals) && es != []
    ensures var group := SortStrings(Select(es, MaxValue(es)));
      group != [] && StrictlySorted(group) && forall n :: n in group <==> TopWithin(vals, n)
  {
    SelectMaxIff(es, vals);
    SortedSelection(es, MaxValue(es));
    SortStringsMembers(Select(es, MaxValue(es)));
  }

  /** The report order of the entries tied with the smallest value: sorted names, each once, at least one. */
  lemma BottomGroup(es: seq<Entry>, vals: map<string, real>)
    requires EntriesOf(es, vals) && es != []
    ensures var group := SortStrings(Select(es, MinValue(es)));
      group != [] && StrictlySorted(group) && forall n :: n in group <==> BottomWithin(vals, n)
  {
    SelectMinIff(es, vals);
    SortedSelection(es, MinValue(es));
    SortStringsMembers(Select(es, MinValue(es)));
  }

  // ----- the station dictionary the last two reports read -----

  /** `names` lists the dictionary's keys once each, in insertion order, and every station's extremes are consistent. */
  ghost predicate Catalogue(names: seq<string>, stations: map<string, StationStats>)
    reads stations.Values
  {
    Distinct(names)
    && (forall n :: n in stations <==> n in names)
    && (forall n :: n in stations ==> stations[n].Valid())
  }

  // ----- the largest temperature range -----

  /** `ranges`: every station with at least one reading and its range, as a dictionary. */
  ghost function RangeMap(stations: map<string, StationStats>): map<string, real>
    reads stations.Values
  {
    map n | n in stations && stations[n].Valid() && stations[n].temps != [] :: stations[n].Range()
  }

  /** `ranges` is empty exactly when no station has a reading. */
  lemma RangeMapEmpty(stations: map<string, StationStats>)
    requires forall n :: n in stations ==> stations[n].Valid()
    ensures RangeMap(stations) == map[] <==> forall n :: n in stations ==> stations[n].temps == []
  {
    if RangeMap(stations) == map[] {
      forall n | n in stations ensures stations[n].temps == [] {
        assert n !in RangeMap(stations);
      }
    } else {
      var n :| n in RangeMap(stations);
    }
  }

  /** The items of `ranges` in dictionary order. */
  ghost function RangeEntries(names: seq<string>, stations: map<string, StationStats>): seq<Entry>
    reads stations.Values
    requires forall n :: n in names ==> n in stations && stations[n].Valid()
    decreases |names|
  {
    if names == [] then []
    else
      var n := names[|names| - 1];
      RangeEntries(names[..|names| - 1], stations)
        + (if stations[n].temps != [] then [Entry(n, stations[n].Range())] else [])
  }

  /** Each range entry is a listed station with readings, paired with its range. */
  lemma {:induction false} RangeEntriesSound(names: seq<string>, stations: map<string, StationStats>)
    requires forall n :: n in names ==> n in stations && stations[n].Valid()
    ensures forall i :: 0 <= i < |RangeEntries(names, stations)| ==>
      var e := RangeEntries(names, stations)[i];
      e.station in names && stations[e.station].temps != [] && e.value == stations[e.station].Range()
    decreases |names|
  {
    if names != [] {
      var init := names[..|names| - 1];
      assert names == init + [names[|names| - 1]];
      RangeEntriesSound(init, stations);
    }
  }

  /** Every listed station with readings has a range entry. */
  lemma {:induction false} RangeEntriesComplete(names: seq<string>, stations: map<string, StationStats>)
    requires forall n :: n in names ==> n in stations && stations[n].Valid()
    ensures forall n :: n in names && stations[n].temps != [] ==> n in EntryStations(RangeEntries(names, stations))
    decreases |names|
  {
    if names != [] {
      var init := names[..|names| - 1];
      var last := names[|names| - 1];
      assert names == init + [last];
      RangeEntriesComplete(init, stations);
      var es := RangeEntries(init, stations);
      var tail := if stations[last].temps != [] then [Entry(last, stations[last].Range())] else [];
      assert RangeEntries(names, stations) == es + tail;
      assert EntryStations(es + tail) == EntryStations(es) + EntryStations(tail);
      forall n | n in names && stations[n].temps != [] ensures n in EntryStations(RangeEntries(names, stations)) {
        if n == last {
          assert EntryStations(tail) == [last];
        } else {
          assert n in init;
        }
      }
    }
  }

  /** Listing each station once gives each at most one range entry. */
  lemma {:induction false} RangeEntriesDistinct(names: seq<string>, stations: map<string, StationStats>)
    requires forall n :: n in names ==> n in stations && stations[n].Valid()
    requires Distinct(names)
    ensures Distinct(EntryStations(RangeEntries(names, stations)))
    decreases |names|
  {
    if names != [] {
      var init := names[..|names| - 1];
      var last := names[|names| - 1];
      assert names == init + [last];
      RangeEntriesDistinct(init, stations);
      RangeEntriesSound(init, stations);
      var es := RangeEntries(init, stations);
      if stations[last].temps != [] {
        var es' := es + [Entry(last, stations[last].Range())];
        assert EntryStations(es') == EntryStations(es) + [last];
        forall i | 0 <= i < |es| ensures es[i].station != last {
          var k :| 0 <= k < |init| && init[k] == es[i].station;
          assert names[k] != names[|names| - 1];
        }
      }
    }
  }

  /** The range entries are exactly the items of `ranges`. */
  lemma RangeEntriesOf(names: seq<string>, stations: map<string, StationStats>)
    requires Catalogue(names, stations)
    ensures EntriesOf(RangeEntries(names, stations), RangeMap(stations))
  {
    RangeEntriesSound(names, stations);
    RangeEntriesComplete(names, stations);
    RangeEntriesDistinct(names, stations);
  }

  /** One line of the range report: a station with its range, maximum and minimum. */
  datatype RangeLine = RangeLine(station: string, range: real, maxTemp: real, minTemp: real)

  /** The range report: the no-data message, or one line per station tied for the largest range. */
  datatype RangeReport = NoRangeData | RangeWinners(lines: seq<RangeLine>)

  function RangeLineStations(lines: seq<RangeLine>): (r: seq<string>)
    ensures |r| == |lines| && forall k :: 0 <= k < |lines| ==> r[k] == lines[k].station
  {
    seq(|lines|, k requires 0 <= k < |lines| => lines[k].station)
  }

  /** The line shows its station's range, largest and smallest reading. */
  ghost predicate DescribesRange(line: RangeLine, stations: map<string, StationStats>)
    reads stations.Values
  {
    var n := line.station;
    n in stations && stations[n].Valid() && stations[n].temps != []
    && line.range == stations[n].Range()
    && line.maxTemp == SeqMax(stations[n].temps) && line.minTemp == SeqMin(stations[n].temps)
  }

  /** What the range report is decided from: whether `ranges` is empty, and its sorted ties with the largest range. */
  lemma RangeOutcome(names: seq<string>, stations: map<string, StationStats>)
    requires Catalogue(names, stations)
    ensures var ranges := RangeEntries(names, stations);
      (ranges == [] <==> forall n :: n in stations ==> stations[n].temps == [])
      && (ranges != [] ==>
        var order := SortStrings(Select(ranges, MaxValue(ranges)));
        order != [] && StrictlySorted(order) && forall n :: n in order <==> TopWithin(RangeMap(stations), n))
  {
    var ranges := RangeEntries(names, stations);
    RangeEntriesOf(names, stations);
    EntriesEmpty(ranges, RangeMap(stations));
    RangeMapEmpty(stations);
    if ranges != [] {
      TopGroup(ranges, RangeMap(stations));
    }
  }

  /** The loop over the dictionary that builds `ranges`. */
  method CollectRanges(names: seq<string>, stations: map<string, StationStats>) returns (ranges: seq<Entry>)
    requires Catalogue(names, stations)
    ensures ranges == RangeEntries(names, stations)
  {
    ranges := [];
    for i := 0 to |names|
      invariant ranges == RangeEntries(names[..i], stations)
    {
      assert names[..i + 1][..i] == names[..i];
      var st := stations[names[i]];
      if st.temps != [] {
        ranges := ranges + [Entry(names[i], st.maxTemp.value - st.minTemp.value)];
      }
    }
    assert names[..|names|] == names;
  }

  /** The line printed for a station with readings: its range, maximum and minimum. */
  ghost function RangeLineOf(n: string, stations: map<string, StationStats>): RangeLine
    reads stations.Values
    requires n in RangeMap(stations)
  {
    var st := stations[n];
    RangeLine(n, st.maxTemp.value - st.minTemp.value, st.maxTemp.value, st.minTemp.value)
  }

  /** The lines printed for the given stations, in the order given. */
  ghost function RangeLinesFor(order: seq<string>, stations: map<string, StationStats>): seq<RangeLine>
    reads stations.Values
    requires forall n :: n in order ==> n in RangeMap(stations)
    decreases |order|
  {
    if order == [] then []
    else RangeLinesFor(order[..|order| - 1], stations) + [RangeLineOf(order[|order| - 1], stations)]
  }

  /** Each line names the station at its place and shows that station's range and extremes. */
  lemma {:induction false} RangeLinesForSpec(order: seq<string>, stations: map<string, StationStats>)
    requires forall n :: n in order ==> n in RangeMap(stations)
    ensures RangeLineStations(RangeLinesFor(order, stations)) == order
    ensures forall k :: 0 <= k < |order| ==> DescribesRange(RangeLinesFor(order, stations)[k], stations)
    decreases |order|
  {
    if order != [] {
      var init := order[..|order| - 1];
      var last := order[|order| - 1];
      assert last in order;
      RangeLinesForSpec(init, stations);
      var st := stations[last];
      ExtremesEnclose(st.temps, st.minTemp, st.maxTemp);
      assert DescribesRange(RangeLineOf(last, stations), stations);
    }
  }

  /** The range report as the dictionary determines it. */
  ghost function RangeReportOf(names: seq<string>, stations: map<string, StationStats>): RangeReport
    reads stations.Values
    requires Catalogue(names, stations)
  {
    var ranges := RangeEntries(names, stations);
    if ranges == [] then NoRangeData
    else
      RangeOutcome(names, stations);
      RangeWinners(RangeLinesFor(SortStrings(Select(ranges, MaxValue(ranges))), stations))
  }

  /** The report says there is no data exactly when no station has a reading. */
  lemma RangeReportEmpty(names: seq<string>, stations: map<string, StationStats>)
    requires Catalogue(names, stations)
    ensures RangeReportOf(names, stations).NoRangeData? <==> forall n :: n in stations ==> stations[n].temps == []
  {
    RangeOutcome(names, stations);
  }

  /**
   * Otherwise it lists, in strictly ascending name order and at least once, exactly the stations whose range
   * is within the tolerance of the largest range, that is, no more than the tolerance below every
   * station's range, each with its own range, maximum and minimum.
   */
  lemma RangeReportWinners(names: seq<string>, stations: map<string, StationStats>)
    requires Catalogue(names, stations)
    ensures var report := RangeReportOf(names, stations);
      report.RangeWinners? ==>
        report.lines != [] && StrictlySorted(RangeLineStations(report.lines))
        && (forall n :: n in RangeLineStations(report.lines) <==> TopWithin(RangeMap(stations), n))
        && (forall k :: 0 <= k < |report.lines| ==> DescribesRange(report.lines[k], stations))
  {
    var ranges := RangeEntries(names, stations);
    if ranges != [] {
      RangeOutcome(names, stations);
      RangeLinesForSpec(SortStrings(Select(ranges, MaxValue(ranges))), stations);
    }
  }

  /** The loop that prints the winners, in the order given. */
  method RangeLines(order: seq<string>, stations: map<string, StationStats>) returns (lines: seq<RangeLine>)
    requires forall n :: n in order ==> n in RangeMap(stations)
    ensures lines == RangeLinesFor(order, stations)
  {
    lines := [];
    for j := 0 to |order|
      invariant lines == RangeLinesFor(order[..j], stations)
    {
      assert order[..j + 1][..j] == order[..j];
      assert order[j] in RangeMap(stations);
      var st := stations[order[j]];
      lines := lines + [RangeLine(order[j], st.maxTemp.value - st.minTemp.value, st.maxTemp.value, st.minTemp.value)];
    }
    assert order[..|order|] == order;
  }

  /** `write_largest_temp_range`: the no-data message, or the sorted ties with the largest range. */
  method LargestTempRange(names: seq<string>, stations: map<string, StationStats>) returns (report: RangeReport)
    requires Catalogue(names, stations)
    ensures report == RangeReportOf(names, stations)
  {
    if |stations| == 0 {
      RangeOutcome(names, stations);
      return NoRangeData;
    }
    var ranges := CollectRanges(names, stations);
    if ranges == [] {
      return NoRangeData;
    }
    RangeOutcome(names, stations);
    var maxRange := MaxValue(ranges);
    var winners := Select(ranges, maxRange);
    var order := SortStrings(winners);
    var lines := RangeLines(order, stations);
    report := RangeWinners(lines);
  }

  // ----- the most stable and most variable stations -----

  /** `stdevs`: every station with at least two readings and the population standard deviation of its readings. */
  ghost function StdevMap(stations: map<string, StationStats>, pstdev: seq<real> -> real): map<string, real>
    reads stations.Values
  {
    map n | n in stations && |stations[n].temps| >= 2 :: pstdev(stations[n].temps)
  }

  /** The items of `stdevs` in dictionary order. */
  ghost function StdevEntries(names: seq<string>, stations: map<string, StationStats>, pstdev: seq<real> -> real): seq<Entry>
    reads stations.Values
    requires forall n :: n in names ==> n in stations
    decreases |names|
  {
    if names == [] then []
    else
      var n := names[|names| - 1];
      StdevEntries(names[..|names| - 1], stations, pstdev)
        + (if |stations[n].temps| >= 2 then [Entry(n, pstdev(stations[n].temps))] else [])
  }

  /** Each deviation entry is a listed station with two readings or more, paired with its deviation. */
  lemma {:induction false} StdevEntriesSound(names: seq<string>, stations: map<string, StationStats>, pstdev: seq<real> -> real)
    requires forall n :: n in names ==> n in stations
    ensures forall i :: 0 <= i < |StdevEntries(names, stations, pstdev)| ==>
      var e := StdevEntries(names, stations, pstdev)[i];
      e.station in names && |stations[e.station].temps| >= 2 && e.value == pstdev(stations[e.station].temps)
    decreases |names|
  {
    if names != [] {
      var init := names[..|names| - 1];
      assert names == init + [names[|names| - 1]];
      StdevEntriesSound(init, stations, pstdev);
    }
  }

  /** Every listed station with two readings or more has a deviation entry. */
  lemma {:induction false} StdevEntriesComplete(names: seq<string>, stations: map<string, StationStats>, pstdev: seq<real> -> real)
    requires forall n :: n in names ==> n in stations
    ensures forall n :: n in names && |stations[n].temps| >= 2 ==> n in EntryStations(StdevEntries(names, stations, pstdev))
    decreases |names|
  {
    if names != [] {
      var init := names[..|names| - 1];
      var last := names[|names| - 1];
      assert names == init + [last];
      StdevEntriesComplete(init, stations, pstdev);
      var es := StdevEntries(init, stations, pstdev);
      var tail := if |stations[last].temps| >= 2 then [Entry(last, pstdev(stations[last].temps))] else [];
      assert StdevEntries(names, stations, pstdev) == es + tail;
      assert EntryStations(es + tail) == EntryStations(es) + EntryStations(tail);
      forall n | n in names && |stations[n].temps| >= 2 ensures n in EntryStations(StdevEntries(names, stations, pstdev)) {
        if n == last {
          assert EntryStations(tail) == [last];
        } else {
          assert n in init;
        }
      }
    }
  }

  /** Listing each station once gives each at most one deviation entry. */
  lemma {:induction false} StdevEntriesDistinct(names: seq<string>, stations: map<string, StationStats>, pstdev: seq<real> -> real)
    requires forall n :: n in names ==> n in stations
    requires Distinct(names)
    ensures Distinct(EntryStations(StdevEntries(names, stations, pstdev)))
    decreases |names|
  {
    if names != [] {
      var init := names[..|names| - 1];
      var last := names[|names| - 1];
      assert names == init + [last];
      StdevEntriesDistinct(init, stations, pstdev);
      StdevEntriesSound(init, stations, pstdev);
      var es := StdevEntries(init, stations, pstdev);
      if |stations[last].temps| >= 2 {
        var es' := es + [Entry(last, pstdev(stations[last].temps))];
        assert EntryStations(es') == EntryStations(es) + [last];
        forall i | 0 <= i < |es| ensures es[i].station != last {
          var k :| 0 <= k < |init| && init[k] == es[i].station;
          assert names[k] != names[|names| - 1];
        }
      }
    }
  }

  /** `stdevs` is empty exactly when no station has two readings. */
  lemma StdevMapEmpty(stations: map<string, StationStats>, pstdev: seq<real> -> real)
    ensures StdevMap(stations, pstdev) == map[] <==> forall n :: n in stations ==> |stations[n].temps| < 2
  {
    if StdevMap(stations, pstdev) == map[] {
      forall n | n in stations ensures |stations[n].temps| < 2 {
        assert n !in StdevMap(stations, pstdev);
      }
    } else {
      var n :| n in StdevMap(stations, pstdev);
    }
  }

  /** The deviation entries are exactly the items of `stdevs`. */
  lemma StdevEntriesOf(names: seq<string>, stations: map<string, StationStats>, pstdev: seq<real> -> real)
    requires Catalogue(names, stations)
    ensures EntriesOf(StdevEntries(names, stations, pstdev), StdevMap(stations, pstdev))
  {
    StdevEntriesSound(names, stations, pstdev);
    StdevEntriesComplete(names, stations, pstdev);
    StdevEntriesDistinct(names, stations, pstdev);
  }

  /** Every name of a sorted selection of entries is the name of an entry. */
  lemma GroupMembers(es: seq<Entry>, target: real)
    ensures forall n :: n in SortStrings(Select(es, target)) ==> n in EntryStations(es)
  {
    SortStringsMembers(Select(es, target));
    forall n | n in SortStrings(Select(es, target)) ensures n in EntryStations(es) {
      SelectMembers(es, target, n);
    }
  }

  /** The stations of either group of the stability report are stations of the dictionary. */
  lemma StabilityGroupsKnown(names: seq<string>, stations: map<string, StationStats>, pstdev: seq<real> -> real)
    requires forall n :: n in names ==> n in stations
    ensures var es := StdevEntries(names, stations, pstdev);
      es != [] ==>
        (forall n :: n in SortStrings(Select(es, MinValue(es))) ==> n in stations)
        && (forall n :: n in SortStrings(Select(es, MaxValue(es))) ==> n in stations)
  {
    var es := StdevEntries(names, stations, pstdev);
    StdevEntriesSound(names, stations, pstdev);
    if es != [] {
      GroupMembers(es, MinValue(es));
      GroupMembers(es, MaxValue(es));
    }
  }

  /** One line of the stability report: a station and its standard deviation. */
  datatype StdLine = StdLine(station: string, stdev: real)

  /** The stability report: the not-enough-data message, or the most stable and the most variable stations. */
  datatype StabilityReport = NotEnoughData | StabilityGroups(mostStable: seq<StdLine>, mostVariable: seq<StdLine>)

  function StdLineStations(lines: seq<StdLine>): (r: seq<string>)
    ensures |r| == |lines| && forall k :: 0 <= k < |lines| ==> r[k] == lines[k].station
  {
    seq(|lines|, k requires 0 <= k < |lines| => lines[k].station)
  }

  /** The lines printed for the given stations, in the order given. */
  ghost function StdLinesFor(order: seq<string>, stations: map<string, StationStats>, pstdev: seq<real> -> real): seq<StdLine>
    reads stations.Values
    requires forall n :: n in order ==> n in stations
    decreases |order|
  {
    if order == [] then []
    else
      var n := order[|order| - 1];
      StdLinesFor(order[..|order| - 1], stations, pstdev) + [StdLine(n, pstdev(stations[n].temps))]
  }

  /** Each line names the station at its place and shows the deviation of that station's readings. */
  lemma {:induction false} StdLinesForSpec(order: seq<string>, stations: map<string, StationStats>, pstdev: seq<real> -> real)
    requires forall n :: n in order ==> n in stations
    ensures StdLineStations(StdLinesFor(order, stations, pstdev)) == order
    ensures forall k :: 0 <= k < |order| ==>
      StdLinesFor(order, stations, pstdev)[k].stdev == pstdev(stations[order[k]].temps)
    decreases |order|
  {
    if order != [] {
      StdLinesForSpec(order[..|order| - 1], stations, pstdev);
    }
  }

  /** The line shows its station's deviation, and the station has two readings or more. */
  ghost predicate ShowsStdev(line: StdLine, stations: map<string, StationStats>, pstdev: seq<real> -> real)
    reads stations.Values
  {
    line.station in StdevMap(stations, pstdev) && line.stdev == StdevMap(stations, pstdev)[line.station]
  }

  /** The stability report as the dictionary determines it. */
  ghost function StabilityReportOf(names: seq<string>, stations: map<string, StationStats>, pstdev: seq<real> -> real): StabilityReport
    reads stations.Values
    requires Catalogue(names, stations)
  {
    var es := StdevEntries(names, stations, pstdev);
    if es == [] then NotEnoughData
    else
      StabilityGroupsKnown(names, stations, pstdev);
      StabilityGroups(
        StdLinesFor(SortStrings(Select(es, MinValue(es))), stations, pstdev),
        StdLinesFor(SortStrings(Select(es, MaxValue(es))), stations, pstdev))
  }

  /** The report says there is not enough data exactly when no station has two readings. */
  lemma StabilityReportEmpty(names: seq<string>, stations: map<string, StationStats>, pstdev: seq<real> -> real)
    requires Catalogue(names, stations)
    ensures StabilityReportOf(names, stations, pstdev).NotEnoughData? <==>
      forall n :: n in stations ==> |stations[n].temps| < 2
  {
    StdevEntriesOf(names, stations, pstdev);
    EntriesEmpty(StdevEntries(names, stations, pstdev), StdevMap(stations, pstdev));
    StdevMapEmpty(stations, pstdev);
  }

  /**
   * Otherwise the most stable group lists, in strictly ascending name order and at least once, exactly the
   * stations whose deviation is within the tolerance of the smallest, each with its deviation.
   */
  lemma StabilityReportMostStable(names: seq<string>, stations: map<string, StationStats>, pstdev: seq<real> -> real)
    requires Catalogue(names, stations)
    ensures var report := StabilityReportOf(names, stations, pstdev);
      report.StabilityGroups? ==>
        var lines := report.mostStable;
        lines != [] && StrictlySorted(StdLineStations(lines))
        && (forall n :: n in StdLineStations(lines) <==> BottomWithin(StdevMap(stations, pstdev), n))
        && (forall k :: 0 <= k < |lines| ==> ShowsStdev(lines[k], stations, pstdev))
  {
    var es := StdevEntries(names, stations, pstdev);
    if es != [] {
      StdevEntriesOf(names, stations, pstdev);
      BottomGroup(es, StdevMap(stations, pstdev));
      var order := SortStrings(Select(es, MinValue(es)));
      StdLinesForSpec(order, stations, pstdev);
      var lines := StdLinesFor(order, stations, pstdev);
      forall k | 0 <= k < |lines| ensures ShowsStdev(lines[k], stations, pstdev) {
        assert lines[k].station == order[k];
        assert order[k] in order;
      }
    }
  }

  /**
   * Otherwise the most variable group lists, in strictly ascending name order and at least once, exactly the
   * stations whose deviation is within the tolerance of the largest, each with its deviation.
   */
  lemma StabilityReportMostVariable(names: seq<string>, stations: map<string, StationStats>, pstdev: seq<real> -> real)
    requires Catalogue(names, stations)
    ensures var report := StabilityReportOf(names, stations, pstdev);
      report.StabilityGroups? ==>
        var lines := report.mostVariable;
        lines != [] && StrictlySorted(StdLineStations(lines))
        && (forall n :: n in StdLineStations(lines) <==> TopWithin(StdevMap(stations, pstdev), n))
        && (forall k :: 0 <= k < |lines| ==> ShowsStdev(lines[k], stations, pstdev))
  {
    var es := StdevEntries(names, stations, pstdev);
    if es != [] {
      StdevEntriesOf(names, stations, pstdev);
      TopGroup(es, StdevMap(stations, pstdev));
      var order := SortStrings(Select(es, MaxValue(es)));
      StdLinesForSpec(order, stations, pstdev);
      var lines := StdLinesFor(order, stations, pstdev);
      forall k | 0 <= k < |lines| ensures ShowsStdev(lines[k], stations, pstdev) {
        assert lines[k].station == order[k];
        assert order[k] in order;
      }
    }
  }

  /** The loop over the dictionary that builds `stdevs`. */
  method CollectStdevs(names: seq<string>, stations: map<string, StationStats>, pstdev: seq<real> -> real)
    returns (stdevs: seq<Entry>)
    requires Catalogue(names, stations)
    ensures stdevs == StdevEntries(names, stations, pstdev)
  {
    stdevs := [];
    for i := 0 to |names|
      invariant stdevs == StdevEntries(names[..i], stations, pstdev)
    {
      assert names[..i + 1][..i] == names[..i];
      var st := stations[names[i]];
      if |st.temps| >= 2 {
        stdevs := stdevs + [Entry(names[i], pstdev(st.temps))];
      }
    }
    assert names[..|names|] == names;
  }

  /** A loop that prints one group, in the order given. */
  method StdLines(order: seq<string>, stations: map<string, StationStats>, pstdev: seq<real> -> real)
    returns (lines: seq<StdLine>)
    requires forall n :: n in order ==> n in stations
    ensures lines == StdLinesFor(order, stations, pstdev)
  {
    lines := [];
    for j := 0 to |order|
      invariant lines == StdLinesFor(order[..j], stations, pstdev)
    {
      assert order[..j + 1][..j] == order[..j];
      assert order[j] in order;
      lines := lines + [StdLine(order[j], pstdev(stations[order[j]].temps))];
    }
    assert order[..|order|] == order;
  }

  /** The stations whose deviation is within the tolerance of `target`, printed in ascending name order. */
  method GroupLines(stdevs: seq<Entry>, target: real, stations: map<string, StationStats>, pstdev: seq<real> -> real)
    returns (lines: seq<StdLine>)
    requires forall n :: n in SortStrings(Select(stdevs, target)) ==> n in stations
    ensures lines == StdLinesFor(SortStrings(Select(stdevs, target)), stations, pstdev)
  {
    var group := Select(stdevs, target);
    lines := StdLines(SortStrings(group), stations, pstdev);
  }

  /** `write_stability`: the not-enough-data message, or the sorted ties at the smallest and at the largest deviation. */
  method Stability(names: seq<string>, stations: map<string, StationStats>, pstdev: seq<real> -> real)
    returns (report: StabilityReport)
    requires Catalogue(names, stations)
    ensures report == StabilityReportOf(names, stations, pstdev)
  {
    var stdevs := CollectStdevs(names, stations, pstdev);
    if stdevs == [] {
      return NotEnoughData;
    }
    StabilityGroupsKnown(names, stations, pstdev);
    var minSd := MinValue(stdevs);
    var maxSd := MaxValue(stdevs);
    var mostStable := GroupLines(stdevs, minSd, stations, pstdev);
    var mostVariable := GroupLines(stdevs, maxSd, stations, pstdev);
    report := StabilityGroups(mostStable, mostVariable);
  }
}
