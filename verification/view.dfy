/**
 What the window shows, derived from the state alone: a colour per station and a
 status line. Both read the clock once, through the same `now`.
 */
module View {

  import opened Wrappers
  import opened Clock
  import opened Line
  import opened Metro

  /** Grey for stations already passed, white for those still ahead, green for
      the current one, which flashes red while the blink flag is fresh. */
  datatype Color = Grey | White | Green | Red

  /** The status line: arrival at the end of the line, or the whole seconds left
      at the current station, naming the next station once it is close. */
  datatype Status = Arrived | Eta(seconds: nat, arrivingSoonAt: Option<string>)

  /** The colour of station `station` on the drawn line. */
  function StationColor(stations: seq<Station>, s: State, station: nat, now: Millis): (c: Color)
    requires station < |stations|
    ensures c == Grey <==> station < s.index
    ensures c == White <==> station > s.index
    ensures c == Red <==>
              && station == s.index && !AtTerminal(stations, s)
              && s.isBlinking && Since(now, s.lastBlinkTime) < RedWindowMs
  {
    if station == s.index then
      if s.index < |stations| - 1 && s.isBlinking && Since(now, s.lastBlinkTime) < RedWindowMs
      then Red
      else Green
    else if station < s.index then Grey
    else White
  }

  /** The colours of the whole line, one per station in order. */
  function LineColors(stations: seq<Station>, s: State, now: Millis): (colors: seq<Color>)
    requires Valid(stations, s)
    ensures |colors| == |stations|
    // passed stations grey, the current one lit, the rest white
    ensures forall i :: 0 <= i < s.index ==> colors[i] == Grey
    ensures colors[s.index] in {Green, Red}
    ensures colors[s.index] == Red <==>
              !AtTerminal(stations, s) && s.isBlinking && Since(now, s.lastBlinkTime) < RedWindowMs
    ensures forall i :: s.index < i < |colors| ==> colors[i] == White
  {
    seq(|stations|, i requires 0 <= i < |stations| => StationColor(stations, s, i, now))
  }

  /** The status line at `now`. */
  function StatusLine(stations: seq<Station>, s: State, now: Millis): (st: Status)
    requires Valid(stations, s)
    ensures st.Arrived? <==> AtTerminal(stations, s)
    ensures st.Eta? ==>
              var left := TimeLeftSecs(stations, s.index, Since(now, s.startTime));
              && st.seconds == (if left < 0 then 0 else left)
              && (st.arrivingSoonAt.Some? <==> left <= ArrivingSoonSecs)
              && (st.arrivingSoonAt.Some? ==> st.arrivingSoonAt.value == stations[s.index + 1].name)
  {
    if s.index < |stations| - 1 then
      var left := TimeLeftSecs(stations, s.index, Since(now, s.startTime));
      var seconds := if left < 0 then 0 else left;
      if left <= ArrivingSoonSecs then Eta(seconds, Some(stations[s.index + 1].name))
      else Eta(seconds, None)
    else
      Arrived
  }

  /** The status reads "arrived" exactly when every station before the last is
      drawn grey. */
  lemma ArrivedIffLineGreyed(stations: seq<Station>, s: State, now: Millis)
    requires Valid(stations, s)
    ensures var colors := LineColors(stations, s, now);
      StatusLine(stations, s, now).Arrived? <==>
        forall i :: 0 <= i < |stations| - 1 ==> colors[i] == Grey
  {
    var colors := LineColors(stations, s, now);
    if !AtTerminal(stations, s) {
      assert colors[s.index] != Grey;
    }
  }

  /** A tick moves the train on exactly when the status shown just before it, at
      the same instant, counts down to zero seconds while naming the next station. */
  lemma AdvanceIffEtaZero(stations: seq<Station>, s: State, now: Millis)
    requires Valid(stations, s)
    ensures var st := StatusLine(stations, s, now);
      Tick(stations, s, now).index == s.index + 1 <==>
        st.Eta? && st.seconds == 0 && st.arrivingSoonAt.Some?
  {
  }

  /** On a tick that keeps the train where it is, a red flash right after it comes
      with an "arriving soon" status line. */
  lemma RedMeansArrivingSoon(stations: seq<Station>, s: State, now: Millis)
    requires Valid(stations, s)
    requires Tick(stations, s, now).index == s.index
    requires StationColor(stations, Tick(stations, s, now), s.index, now) == Red
    ensures StatusLine(stations, Tick(stations, s, now), now).arrivingSoonAt.Some?
  {
  }

  /**
   The blink check reads the time since arrival before the train moves on, so on
   the tick that brings it to a new station it weighs the new station's time
   against the old station's elapsed seconds. On the line of nine five-second
   legs, a train leaving its first station exactly on time with the flag last
   toggled 300 ms earlier reaches the second station drawn red, while the status
   line shows five seconds left and no arrival warning.
   */
  lemma ArrivalFlashesRed()
    ensures var stations := MetroLine([5, 5, 5, 5, 5, 5, 5, 5, 5]);
      var r := Tick(stations, State(0, 0, 4700, false), 5000);
      && r.index == 1
      && StationColor(stations, r, 1, 5000) == Red
      && StatusLine(stations, r, 5000) == Eta(5, None)
  {
  }
}
