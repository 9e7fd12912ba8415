/**
 * Folding every observation of every file into per-station statistics and
 * per-season (sum, count) totals.
 */
module Aggregation {
  import opened Wrappers
  import opened Text
  import opened Values
  import opened Seasons
  import opened Extraction
  import opened Stats

  /** A season's running `(sum, count)` pair. */
  datatype SeasonTotal = SeasonTotal(sum: real, count: nat)

  /** The observations of all files, file after file, each in its own order. */
  function AllObservations(files: seq<seq<seq<string>>>, p: Parsers): (r: seq<Observation>)
    ensures forall k :: 0 <= k < |r| ==> r[k].station != ""
  {
    if files == [] then []
    else AllObservations(files[..|files| - 1], p) + FileObservations(files[|files| - 1], p)
  }

  /** The temperatures observed at one station, in observation order. */
  function TempsOf(obs: seq<Observation>, name: string): (r: seq<real>)
    ensures |r| <= |obs|
  {
    if obs == [] then []
    else
      var o := obs[|obs| - 1];
      TempsOf(obs[..|obs| - 1], name) + (if o.station == name then [o.temp] else [])
  }

  /** The stations observed, each once, in the order they first appear. */
  function StationOrder(obs: seq<Observation>): seq<string> {
    if obs == [] then []
    else
      var prev := StationOrder(obs[..|obs| - 1]);
      var o := obs[|obs| - 1];
      if o.station in prev then prev else prev + [o.station]
  }

  /** Each observed station is listed exactly once, and nothing else is. */
  lemma {:induction false} StationOrderSpec(obs: seq<Observation>)
    ensures Distinct(StationOrder(obs))
    ensures forall n :: n in StationOrder(obs) <==> exists k :: 0 <= k < |obs| && obs[k].station == n
  {
    if obs != [] {
      var init := obs[..|obs| - 1];
      StationOrderSpec(init);
      assert forall k :: 0 <= k < |obs| - 1 ==> init[k] == obs[k];
    }
  }

  /** The sum and the number of the temperatures observed in months of season `s`. */
  function SeasonTotalOf(obs: seq<Observation>, s: Season): (r: SeasonTotal)
    ensures r.count <= |obs|
  {
    if obs == [] then SeasonTotal(0.0, 0)
    else
      StepTotal(SeasonTotalOf(obs[..|obs| - 1], s), s, obs[|obs| - 1])
  }

  /** The total of season `s` after observation `o`: grown by its temperature when `o` falls in `s`. */
  function StepTotal(t: SeasonTotal, s: Season, o: Observation): SeasonTotal {
    if SeasonForMonth(o.month) == s then SeasonTotal(t.sum + o.temp, t.count + 1) else t
  }

  /** The totals every run starts from: each of the four seasons at `(0.0, 0)`. */
  const InitialTotals: map<Season, SeasonTotal> :=
    map[Summer := SeasonTotal(0.0, 0), Autumn := SeasonTotal(0.0, 0),
        Winter := SeasonTotal(0.0, 0), Spring := SeasonTotal(0.0, 0)]

  /** The number of readings kept for the given stations together. */
  function ReadingCount(obs: seq<Observation>, names: seq<string>): nat {
    if names == [] then 0
    else ReadingCount(obs, names[..|names| - 1]) + |TempsOf(obs, names[|names| - 1])|
  }

  /** A station never observed has no readings. */
  lemma {:induction false} TempsOfUnseen(obs: seq<Observation>, name: string)
    requires forall k :: 0 <= k < |obs| ==> obs[k].station != name
    ensures TempsOf(obs, name) == []
  {
    if obs != [] {
      TempsOfUnseen(obs[..|obs| - 1], name);
    }
  }

  /** The station order and the station keys after the observations `seen`. */
  ghost predicate OrderKept(seen: seq<Observation>, names: seq<string>, stations: map<string, StationStats>) {
    names == StationOrder(seen) && (forall n :: n in stations <==> n in names)
  }

  /** Every season's total after the observations `seen`. */
  ghost predicate TotalsKept(seen: seq<Observation>, totals: map<Season, SeasonTotal>) {
    forall s: Season :: s in totals && totals[s] == SeasonTotalOf(seen, s)
  }

  /**
   * Every station's statistics after the observations `seen`: its own object (`owner` names the
   * station each object belongs to), holding exactly the station's readings and their extremes.
   */
  ghost predicate StationsKept(seen: seq<Observation>, stations: map<string, StationStats>, owner: map<StationStats, string>)
    reads owner.Keys
  {
    forall n :: n in stations ==>
      stations[n] in owner && owner[stations[n]] == n
      && stations[n].temps == TempsOf(seen, n) && TracksExtremes(stations[n].temps, stations[n].minTemp, stations[n].maxTemp)
  }

  /** The sum of all temperatures observed. */
  function TempSum(obs: seq<Observation>): real {
    if obs == [] then 0.0 else TempSum(obs[..|obs| - 1]) + obs[|obs| - 1].temp
  }

  /** Every observation is counted in exactly one season, so the season totals add up to all observations. */
  lemma {:induction false} SeasonTotalsAddUp(obs: seq<Observation>)
    ensures SeasonTotalOf(obs, Summer).count + SeasonTotalOf(obs, Autumn).count
      + SeasonTotalOf(obs, Winter).count + SeasonTotalOf(obs, Spring).count == |obs|
    ensures SeasonTotalOf(obs, Summer).sum + SeasonTotalOf(obs, Autumn).sum
      + SeasonTotalOf(obs, Winter).sum + SeasonTotalOf(obs, Spring).sum == TempSum(obs)
  {
    if obs != [] {
      SeasonTotalsAddUp(obs[..|obs| - 1]);
    }
  }

  /** A season's count is zero exactly when no observation falls in one of its months. */
  lemma {:induction false} SeasonCountZero(obs: seq<Observation>, s: Season)
    ensures SeasonTotalOf(obs, s).count == 0 <==> forall k :: 0 <= k < |obs| ==> SeasonForMonth(obs[k].month) != s
  {
    if obs != [] {
      var init := obs[..|obs| - 1];
      SeasonCountZero(init, s);
      assert forall k :: 0 <= k < |init| ==> init[k] == obs[k];
    }
  }

  /** One more observation adds one reading to the listed stations exactly when its station is listed. */
  lemma {:induction false} ReadingCountSnoc(obs: seq<Observation>, o: Observation, names: seq<string>)
    requires Distinct(names)
    ensures ReadingCount(obs + [o], names) == ReadingCount(obs, names) + (if o.station in names then 1 else 0)
  {
    SnocSteps(obs, o);
    if names != [] {
      var init := names[..|names| - 1];
      assert names == init + [names[|names| - 1]];
      ReadingCountSnoc(obs, o, init);
    }
  }

  /** Every observation is kept by exactly one station: the stations' readings add up to all observations. */
  lemma {:induction false} ReadingsAddUp(obs: seq<Observation>)
    ensures ReadingCount(obs, StationOrder(obs)) == |obs|
  {
    if obs != [] {
      var init := obs[..|obs| - 1];
      var o := obs[|obs| - 1];
      assert obs == init + [o];
      var order := StationOrder(init);
      ReadingsAddUp(init);
      StationOrderSpec(init);
      ReadingCountSnoc(init, o, order);
      SnocSteps(init, o);
      if o.station !in order {
        TempsOfUnseen(init, o.station);
        assert (order + [o.station])[..|order|] == order;
      }
    }
  }

  /** The state of the fold after the observations `seen`. */
  ghost predicate Aggregated(seen: seq<Observation>, names: seq<string>, stations: map<string, StationStats>,
                             totals: map<Season, SeasonTotal>, owner: map<StationStats, string>)
    reads owner.Keys
  {
    OrderKept(seen, names, stations) && TotalsKept(seen, totals) && StationsKept(seen, stations, owner)
  }

  /** The starting totals are the totals of no observations. */
  lemma InitialTotalsKept()
    ensures TotalsKept([], InitialTotals)
  {
    forall s: Season ensures s in InitialTotals && InitialTotals[s] == SeasonTotalOf([], s) {
      match s
      case Summer =>
      case Autumn =>
      case Winter =>
      case Spring =>
    }
  }

  /** Adding an observation to its season's total keeps every total up to date. */
  lemma TotalsStep(seen: seq<Observation>, totals: map<Season, SeasonTotal>, o: Observation)
    requires TotalsKept(seen, totals)
    ensures TotalsKept(seen + [o], totals[SeasonForMonth(o.month) := StepTotal(totals[SeasonForMonth(o.month)], SeasonForMonth(o.month), o)])
  {
    SnocSteps(seen, o);
  }

  /** Appending a station at its first observation keeps the order of first appearance. */
  lemma OrderStep(seen: seq<Observation>, names: seq<string>, stations: map<string, StationStats>, o: Observation, st: StationStats)
    requires OrderKept(seen, names, stations)
    ensures o.station in stations ==> OrderKept(seen + [o], names, stations)
    ensures o.station !in stations ==> OrderKept(seen + [o], names + [o.station], stations[o.station := st])
  {
    SnocSteps(seen, o);
  }

  /** One step of each specification function is one more observation at the end. */
  lemma SnocSteps(seen: seq<Observation>, o: Observation)
    ensures (seen + [o])[..|seen|] == seen
    ensures forall n :: TempsOf(seen + [o], n) == TempsOf(seen, n) + (if o.station == n then [o.temp] else [])
    ensures StationOrder(seen + [o]) == if o.station in StationOrder(seen) then StationOrder(seen) else StationOrder(seen) + [o.station]
    ensures forall s :: SeasonTotalOf(seen + [o], s) == StepTotal(SeasonTotalOf(seen, s), s, o)
  {
    assert (seen + [o])[..|seen|] == seen;
  }

  /** The body of the fold: one observation added to its station, created first if new, and to its season. */
  method AddObservation(o: Observation, names: seq<string>, stations: map<string, StationStats>,
                        totals: map<Season, SeasonTotal>, ghost seen: seq<Observation>, ghost owner: map<StationStats, string>)
    returns (names': seq<string>, stations': map<string, StationStats>, totals': map<Season, SeasonTotal>,
             ghost owner': map<StationStats, string>)
    requires Aggregated(seen, names, stations, totals, owner)
    modifies owner.Keys
    ensures Aggregated(seen + [o], names', stations', totals', owner')
    ensures owner.Keys <= owner'.Keys && fresh(owner'.Keys - owner.Keys)
  {
    SnocSteps(seen, o);
    names', stations', totals', owner' := names, stations, totals, owner;
    if o.station !in stations' {
      var st := new StationStats.New();
      OrderStep(seen, names, stations, o, st);
      stations' := stations'[o.station := st];
      names' := names' + [o.station];
      owner' := owner'[st := o.station];
      StationOrderSpec(seen);
      TempsOfUnseen(seen, o.station);
    } else {
      OrderStep(seen, names, stations, o, stations[o.station]);
    }
    var target := stations'[o.station];
    target.Add(o.temp);
    forall n | n in stations'
      ensures stations'[n] in owner' && owner'[stations'[n]] == n
      ensures stations'[n].temps == TempsOf(seen + [o], n)
      ensures TracksExtremes(stations'[n].temps, stations'[n].minTemp, stations'[n].maxTemp)
    {
      if n != o.station {
        assert stations'[n] != target;
      }
    }
    var season := SeasonForMonth(o.month);
    TotalsStep(seen, totals, o);
    var t := totals'[season];
    totals' := totals'[season := SeasonTotal(t.sum + o.temp, t.count + 1)];
  }

  /** Taking one more element of `obs` appends it. */
  lemma PrefixSnoc<T>(seen: seq<T>, obs: seq<T>, k: nat)
    requires k < |obs|
    ensures seen + obs[..k + 1] == (seen + obs[..k]) + [obs[k]]
  {
    assert obs[..k + 1] == obs[..k] + [obs[k]];
  }

  /** The observations of one more file come after those of the files before it. */
  lemma AllObservationsSnoc(files: seq<seq<seq<string>>>, f: nat, p: Parsers)
    requires f < |files|
    ensures AllObservations(files[..f + 1], p) == AllObservations(files[..f], p) + FileObservations(files[f], p)
  {
    assert files[..f + 1][..f] == files[..f];
  }

  /** The fold's invariant gives what `load_all_data` returns: one object per station, the totals of all four seasons. */
  lemma AggregatedResult(all: seq<Observation>, names: seq<string>, stations: map<string, StationStats>,
                         totals: map<Season, SeasonTotal>, owner: map<StationStats, string>)
    requires Aggregated(all, names, stations, totals, owner)
    ensures names == StationOrder(all)
    ensures forall n :: n in stations <==> n in names
    ensures forall n, m :: n in stations && m in stations && n != m ==> stations[n] != stations[m]
    ensures forall n :: n in stations ==> stations[n].Valid() && stations[n].temps == TempsOf(all, n)
    ensures totals.Keys == {Summer, Autumn, Winter, Spring}
    ensures forall s :: s in totals ==> totals[s] == SeasonTotalOf(all, s)
  {
    assert forall s :: s in totals <==> s in {Summer, Autumn, Winter, Spring} by {
      forall s ensures s in totals <==> s in {Summer, Autumn, Winter, Spring} {
        match s
        case Summer =>
        case Autumn =>
        case Winter =>
        case Spring =>
      }
    }
  }

  /** The inner loop of the fold: the observations of one file added one by one. */
  method AddObservations(obs: seq<Observation>, names: seq<string>, stations: map<string, StationStats>,
                         totals: map<Season, SeasonTotal>, ghost seen: seq<Observation>, ghost owner: map<StationStats, string>)
    returns (names': seq<string>, stations': map<string, StationStats>, totals': map<Season, SeasonTotal>,
             ghost owner': map<StationStats, string>)
    requires Aggregated(seen, names, stations, totals, owner)
    modifies owner.Keys
    ensures Aggregated(seen + obs, names', stations', totals', owner')
    ensures owner.Keys <= owner'.Keys && fresh(owner'.Keys - owner.Keys)
  {
    names', stations', totals', owner' := names, stations, totals, owner;
    assert seen + obs[..0] == seen;
    for k := 0 to |obs|
      invariant Aggregated(seen + obs[..k], names', stations', totals', owner')
      invariant owner.Keys <= owner'.Keys && fresh(owner'.Keys - owner.Keys)
    {
      names', stations', totals', owner' := AddObservation(obs[k], names', stations', totals', seen + obs[..k], owner');
      PrefixSnoc(seen, obs, k);
    }
    assert obs[..|obs|] == obs;
  }

  /**
   * `load_all_data` on files already split into records: every observation of every file, in order,
   * is added to its station's statistics (a station is created at its first observation) and to the
   * total of its month's season.
   */
  method LoadAllData(files: seq<seq<seq<string>>>, p: Parsers)
    returns (names: seq<string>, stations: map<string, StationStats>, totals: map<Season, SeasonTotal>)
    ensures names == StationOrder(AllObservations(files, p))
    ensures forall n :: n in stations <==> n in names
    ensures forall n, m :: n in stations && m in stations && n != m ==> stations[n] != stations[m]
    ensures forall n :: n in stations ==> stations[n].Valid() && stations[n].temps == TempsOf(AllObservations(files, p), n)
    ensures totals.Keys == {Summer, Autumn, Winter, Spring}
    ensures forall s :: s in totals ==> totals[s] == SeasonTotalOf(AllObservations(files, p), s)
  {
    names := [];
    stations := map[];
    totals := InitialTotals;
    ghost var owner: map<StationStats, string> := map[];
    InitialTotalsKept();
    for f := 0 to |files|
      invariant Aggregated(AllObservations(files[..f], p), names, stations, totals, owner)
      invariant fresh(owner.Keys)
    {
      var obs := IterTemperatureObservations(files[f], p);
      names, stations, totals, owner := AddObservations(obs, names, stations, totals, AllObservations(files[..f], p), owner);
      AllObservationsSnoc(files, f, p);
    }
    assert files[..|files|] == files;
    AggregatedResult(AllObservations(files, p), names, stations, totals, owner);
  }
}
