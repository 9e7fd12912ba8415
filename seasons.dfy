/** The fixed Southern-Hemisphere seasons and the month-to-season rule. */
module Seasons {

  datatype Season = Summer | Autumn | Winter | Spring

  /** The seasons in the order the averages are reported. */
  const AllSeasons: seq<Season> := [Summer, Autumn, Winter, Spring]

  /** The season of each month, January first. */
  const MonthSeasons: seq<Season> :=
    [Summer, Summer, Autumn, Autumn, Autumn, Winter, Winter, Winter, Spring, Spring, Spring, Summer]

  /**
   * The season of a month number. The rule is total: any number outside 1..12
   * falls through to Spring.
   */
  function SeasonForMonth(month: int): (r: Season)
    ensures 1 <= month <= 12 ==> r == MonthSeasons[month - 1]
    ensures !(1 <= month <= 12) ==> r == Spring
  {
    if month in {12, 1, 2} then Summer
    else if month in {3, 4, 5} then Autumn
    else if month in {6, 7, 8} then Winter
    else Spring
  }

  /** Every season is listed once in the reporting order. */
  lemma AllSeasonsComplete(s: Season)
    ensures s in AllSeasons
    ensures |AllSeasons| == 4 && forall i, j :: 0 <= i < j < 4 ==> AllSeasons[i] != AllSeasons[j]
  {
  }
}
