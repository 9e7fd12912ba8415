/**
 * The running statistics kept per station: every temperature seen, plus the
 * smallest and largest of them, updated as each reading arrives.
 */
module Stats {

  /** A float that may also be `math.inf` or `-math.inf`, the starting values of the running minimum and maximum. */
  datatype Bound = NegInf | Finite(value: real) | PosInf

  /** `t < b` for a finite `t`. */
  predicate BelowBound(t: real, b: Bound) {
    b.PosInf? || (b.Finite? && t < b.value)
  }

  /** `t > b` for a finite `t`. */
  predicate AboveBound(t: real, b: Bound) {
    b.NegInf? || (b.Finite? && t > b.value)
  }

  /** The smallest element of a non-empty sequence. */
  function SeqMin(s: seq<real>): (m: real)
    requires s != []
    ensures m in s
    ensures forall k :: 0 <= k < |s| ==> m <= s[k]
  {
    if |s| == 1 then s[0]
    else
      var m := SeqMin(s[..|s| - 1]);
      if s[|s| - 1] < m then s[|s| - 1] else m
  }

  /** The largest element of a non-empty sequence. */
  function SeqMax(s: seq<real>): (m: real)
    requires s != []
    ensures m in s
    ensures forall k :: 0 <= k < |s| ==> s[k] <= m
  {
    if |s| == 1 then s[0]
    else
      var m := SeqMax(s[..|s| - 1]);
      if s[|s| - 1] > m then s[|s| - 1] else m
  }

  /** The running minimum and maximum agree with the readings: infinite while there are none, else their extremes. */
  predicate TracksExtremes(temps: seq<real>, lo: Bound, hi: Bound) {
    if temps == [] then lo == PosInf && hi == NegInf
    else lo == Finite(SeqMin(temps)) && hi == Finite(SeqMax(temps))
  }

  /** The minimum after one more reading. */
  function LowerBound(lo: Bound, t: real): Bound {
    if BelowBound(t, lo) then Finite(t) else lo
  }

  /** The maximum after one more reading. */
  function UpperBound(hi: Bound, t: real): Bound {
    if AboveBound(t, hi) then Finite(t) else hi
  }

  /** Updating the minimum and the maximum with a new reading keeps them the extremes of the grown list. */
  lemma AddKeepsExtremes(temps: seq<real>, lo: Bound, hi: Bound, t: real)
    requires TracksExtremes(temps, lo, hi)
    ensures TracksExtremes(temps + [t], LowerBound(lo, t), UpperBound(hi, t))
  {
    if temps != [] {
      assert (temps + [t])[..|temps|] == temps;
    }
  }

  /** With at least one reading, the minimum and maximum are readings and enclose every reading. */
  lemma ExtremesEnclose(temps: seq<real>, lo: Bound, hi: Bound)
    requires TracksExtremes(temps, lo, hi) && temps != []
    ensures lo.Finite? && hi.Finite?
    ensures lo.value in temps && hi.value in temps
    ensures forall k :: 0 <= k < |temps| ==> lo.value <= temps[k] <= hi.value
    ensures lo.value <= hi.value
  {
  }

  /** One station's readings: `temps`, `min_temp` and `max_temp`. */
  class StationStats {
    var temps: seq<real>
    var minTemp: Bound
    var maxTemp: Bound

    /** The minimum and maximum are those of the readings. */
    predicate Valid()
      reads this
    {
      TracksExtremes(temps, minTemp, maxTemp)
    }

    /** `max_temp - min_temp` of a station with readings: the spread of its readings. */
    function Range(): (r: real)
      reads this
      requires Valid() && temps != []
      ensures r == SeqMax(temps) - SeqMin(temps)
      ensures r >= 0.0
    {
      ExtremesEnclose(temps, minTemp, maxTemp);
      maxTemp.value - minTemp.value
    }

    /** A station with no readings yet: minimum `+inf`, maximum `-inf`. */
    constructor New()
      ensures temps == [] && minTemp == PosInf && maxTemp == NegInf
      ensures Valid()
    {
      temps := [];
      minTemp := PosInf;
      maxTemp := NegInf;
    }

    /** Appends a reading and lowers the minimum or raises the maximum when it goes beyond them. */
    method Add(t: real)
      modifies this
      ensures temps == old(temps) + [t]
      ensures minTemp == LowerBound(old(minTemp), t)
      ensures maxTemp == UpperBound(old(maxTemp), t)
      ensures old(Valid()) ==> Valid()
    {
      if Valid() {
        AddKeepsExtremes(temps, minTemp, maxTemp, t);
      }
      temps := temps + [t];
      if BelowBound(t, minTemp) {
        minTemp := Finite(t);
      }
      if AboveBound(t, maxTemp) {
        maxTemp := Finite(t);
      }
    }
  }
}
