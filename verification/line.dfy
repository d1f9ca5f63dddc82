/**
 The metro line: a fixed, ordered list of stations. Each station carries the whole
 number of seconds the train spends before moving on to the next one; the final
 station carries zero.
 */
module Line {

  datatype Station = Station(name: string, timeToNext: nat)

  /** The names of the stations of the line, in travel order. */
  const Names: seq<string> := [
    "Central Station", "City Square", "Riverside", "University", "Tech Park",
    "Old Town", "Market Street", "Harbor", "Sunset Boulevard", "Terminal"
  ]

  /** Bounds of the randomly drawn time between two stations, inclusive. */
  const MinLegSecs: nat := 5
  const MaxLegSecs: nat := 8

  /** A line as the program builds it: not empty, every leg between the bounds,
      and the final station marked by a zero time. */
  ghost predicate WellFormed(stations: seq<Station>)
  {
    && |stations| > 0
    && stations[|stations| - 1].timeToNext == 0
    && forall i :: 0 <= i < |stations| - 1 ==>
         MinLegSecs <= stations[i].timeToNext <= MaxLegSecs
  }

  /** The line built at start-up from the nine drawn legs. */
  function MetroLine(legs: seq<nat>): (stations: seq<Station>)
    requires |legs| == |Names| - 1
    requires forall i :: 0 <= i < |legs| ==> MinLegSecs <= legs[i] <= MaxLegSecs
    ensures WellFormed(stations)
    ensures |stations| == |Names|
    ensures forall i :: 0 <= i < |stations| ==> stations[i].name == Names[i]
    ensures forall i :: 0 <= i < |legs| ==> stations[i].timeToNext == legs[i]
  {
    seq(|Names|, i requires 0 <= i < |Names| =>
      Station(Names[i], if i < |legs| then legs[i] else 0))
  }
}
