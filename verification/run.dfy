/**
 Sequences of ticks. The timer delivers ticks at instants that never go back; a
 run folds `Tick` over those instants.
 */
module Run {

  import opened Clock
  import opened Line
  import opened Metro

  /** The latest instant the state has recorded. */
  function Latest(s: State): (t: Millis)
    ensures s.startTime <= t && s.lastBlinkTime <= t
    ensures t == s.startTime || t == s.lastBlinkTime
  {
    if s.startTime <= s.lastBlinkTime then s.lastBlinkTime else s.startTime
  }

  /** `times` never goes back, starting no earlier than `from`. */
  predicate Chronological(from: Millis, times: seq<Millis>)
    decreases |times|
  {
    |times| == 0 || (from <= times[0] && Chronological(times[0], times[1..]))
  }

  /** The state after one tick at each instant of `times`, in order. Each tick moves
      the train on by at most one station, and never past the end of the line. */
  function Run(stations: seq<Station>, s: State, times: seq<Millis>): (r: State)
    requires Valid(stations, s)
    ensures Valid(stations, r)
    ensures s.index <= r.index <= s.index + |times|
    decreases |times|
  {
    if |times| == 0 then s else Run(stations, Tick(stations, s, times[0]), times[1..])
  }

  /** Once at the final station the train stays there for good, its phase clock
      stands still, and after any tick the blink flag is off. */
  lemma {:induction false} TerminalAbsorbsRun(stations: seq<Station>, s: State, times: seq<Millis>)
    requires Valid(stations, s) && AtTerminal(stations, s)
    ensures var r := Run(stations, s, times);
      && r.index == s.index && r.startTime == s.startTime
      && (|times| > 0 ==> !r.isBlinking)
    decreases |times|
  {
    if |times| > 0 {
      var next := Tick(stations, s, times[0]);
      TerminalAbsorbsRun(stations, next, times[1..]);
    }
  }

  /** A tick schedule that brings the train from `s` to the final station: one tick
      as each station's time runs out, one per remaining station, and no run can do
      it with fewer ticks. */
  function DriveToTerminal(stations: seq<Station>, s: State): (times: seq<Millis>)
    requires Valid(stations, s)
    ensures Chronological(Latest(s), times)
    ensures |times| == |stations| - 1 - s.index
    ensures AtTerminal(stations, Run(stations, s, times))
    decreases |stations| - s.index
  {
    if AtTerminal(stations, s) then []
    else
      var now := Latest(s) + stations[s.index].timeToNext * MsPerSec;
      var next := Tick(stations, s, now);
      var rest := DriveToTerminal(stations, next);
      var times := [now] + rest;
      assert times[1..] == rest;
      times
  }

  /**
   Three stations with five, four and zero seconds, starting at instant 0: a tick at
   5 s moves the train to the second station, a tick at 9 s to the last, and a
   tick just before either moment moves nothing.
   */
  lemma ThreeStationScenario()
    ensures var stations := [Station("A", 5), Station("B", 4), Station("C", 0)];
      var s0 := State(0, 0, 0, false);
      var s1 := Tick(stations, s0, 5000);
      var s2 := Tick(stations, s1, 9000);
      && Tick(stations, s0, 4999).index == 0
      && s1.index == 1 && s1.startTime == 5000
      && Tick(stations, s1, 8999).index == 1
      && s2.index == 2 && AtTerminal(stations, s2)
  {
  }
}
