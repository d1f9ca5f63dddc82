/**
 The train-progress state machine. The state records which station the train is
 at, when it got there, when the blink flag last toggled, and the flag itself.
 One tick, given the single clock reading `now`, moves the train on when its time
 at the current station is up and drives the blink flag during the final seconds.
 */
module Metro {

  import opened Clock
  import opened Line

  datatype State = State(
    index: nat,               // the station the train is at
    startTime: Millis,        // when the train reached it
    lastBlinkTime: Millis,    // when the blink flag last toggled
    isBlinking: bool)

  /** The whole application: the line, which never changes, and the state. */
  datatype App = App(stations: seq<Station>, state: State)

  /** The state refers to a station of a non-empty line. */
  predicate Valid(stations: seq<Station>, s: State)
  {
    0 < |stations| && s.index < |stations|
  }

  predicate AtTerminal(stations: seq<Station>, s: State)
  {
    s.index == |stations| - 1
  }

  /** The time at the current station is up: at least its `timeToNext` whole
      seconds have passed since the train arrived. */
  predicate Due(stations: seq<Station>, s: State, now: Millis)
    requires Valid(stations, s)
  {
    Since(now, s.startTime) >= stations[s.index].timeToNext * MsPerSec
  }

  /** Seconds still to spend at station `index` after `elapsed` milliseconds there,
      counted in whole elapsed seconds; negative once overdue. */
  function TimeLeftSecs(stations: seq<Station>, index: nat, elapsed: Millis): (left: int)
    requires index < |stations|
    ensures left <= 0 <==> elapsed >= stations[index].timeToNext * MsPerSec
    ensures left <= ArrivingSoonSecs <==>
              elapsed >= (stations[index].timeToNext - ArrivingSoonSecs) * MsPerSec
  {
    AtLeastSecsIffWholeSecs(elapsed, stations[index].timeToNext);
    AtLeastSecsIffWholeSecs(elapsed, stations[index].timeToNext - ArrivingSoonSecs);
    stations[index].timeToNext - WholeSecs(elapsed)
  }

  /** The state at start-up, on the line built from the drawn legs. */
  function New(legs: seq<nat>, now: Millis): (app: App)
    requires |legs| == |Names| - 1
    requires forall i :: 0 <= i < |legs| ==> MinLegSecs <= legs[i] <= MaxLegSecs
    ensures app.stations == MetroLine(legs)
    ensures WellFormed(app.stations) && Valid(app.stations, app.state)
    ensures app.state.index == 0 && !app.state.isBlinking
    ensures app.state.startTime == now && app.state.lastBlinkTime == now
  {
    App(MetroLine(legs), State(0, now, now, false))
  }

  /**
   One timer tick. The time since arrival is read once, before the train may move
   on, and the blink check afterwards compares the time of the station the train is
   now at against that same reading, even when the train has just moved on.
   */
  function Tick(stations: seq<Station>, s: State, now: Millis): (r: State)
    requires Valid(stations, s)
    ensures Valid(stations, r)
    // the train moves on by exactly one station, exactly when its time is up and
    // it is not at the end of the line; the phase clock restarts with it
    ensures r.index == s.index + 1 <==> Due(stations, s, now) && !AtTerminal(stations, s)
    ensures r.index == s.index + 1 ==> r.startTime == now
    ensures r.index != s.index + 1 ==> r.index == s.index && r.startTime == s.startTime
    // the blink flag toggles, and its clock restarts, exactly when the train is
    // short of the end, at most two seconds from leaving, and 250 ms have passed
    ensures r.lastBlinkTime != s.lastBlinkTime <==>
              && !AtTerminal(stations, r)
              && TimeLeftSecs(stations, r.index, Since(now, s.startTime)) <= ArrivingSoonSecs
              && Since(now, s.lastBlinkTime) >= BlinkSpacingMs
    ensures r.lastBlinkTime != s.lastBlinkTime ==> r.lastBlinkTime == now && r.isBlinking == !s.isBlinking
    // the flag is only ever set within those final two seconds
    ensures r.isBlinking ==>
              && !AtTerminal(stations, r)
              && TimeLeftSecs(stations, r.index, Since(now, s.startTime)) <= ArrivingSoonSecs
  {
    var elapsed := Since(now, s.startTime);
    var advance := Due(stations, s, now) && !AtTerminal(stations, s);
    var index := if advance then s.index + 1 else s.index;
    var startTime := if advance then now else s.startTime;
    if index < |stations| - 1 then
      if TimeLeftSecs(stations, index, elapsed) <= ArrivingSoonSecs then
        if Since(now, s.lastBlinkTime) >= BlinkSpacingMs then
          State(index, startTime, now, !s.isBlinking)
        else
          State(index, startTime, s.lastBlinkTime, s.isBlinking)
      else
        State(index, startTime, s.lastBlinkTime, false)
    else
      State(index, startTime, s.lastBlinkTime, false)
  }

  /** The final station absorbs the train: a tick there leaves it, and its phase
      clock, where they are and clears the blink flag. */
  lemma TerminalIsAbsorbing(stations: seq<Station>, s: State, now: Millis)
    requires Valid(stations, s) && AtTerminal(stations, s)
    ensures var r := Tick(stations, s, now);
      && r.index == s.index && r.startTime == s.startTime
      && r.lastBlinkTime == s.lastBlinkTime && !r.isBlinking
  {
  }

  /** Away from the final two seconds the flag is cleared and its clock kept. */
  lemma NoBlinkFarFromDeparture(stations: seq<Station>, s: State, now: Millis)
    requires Valid(stations, s)
    requires var r := Tick(stations, s, now);
      !AtTerminal(stations, r) && TimeLeftSecs(stations, r.index, Since(now, s.startTime)) > ArrivingSoonSecs
    ensures var r := Tick(stations, s, now);
      !r.isBlinking && r.lastBlinkTime == s.lastBlinkTime
  {
  }

  /** Within the final two seconds but under 250 ms after the last toggle, the
      flag and its clock are both left alone. */
  lemma BlinkHeldBetweenToggles(stations: seq<Station>, s: State, now: Millis)
    requires Valid(stations, s)
    requires var r := Tick(stations, s, now);
      && !AtTerminal(stations, r)
      && TimeLeftSecs(stations, r.index, Since(now, s.startTime)) <= ArrivingSoonSecs
      && Since(now, s.lastBlinkTime) < BlinkSpacingMs
    ensures var r := Tick(stations, s, now);
      r.isBlinking == s.isBlinking && r.lastBlinkTime == s.lastBlinkTime
  {
  }
}
