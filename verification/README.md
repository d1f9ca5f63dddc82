# Metro line animation — a Dafny model

The program is a small desktop widget that animates a train running along a
line of ten stations. A timer ticks every 100 ms. On each tick the train
moves on to the next station once its time at the current station is up. During
the last two seconds before it leaves, a blink flag toggles at most every 250 ms.
The window draws each station in a colour and shows a status line with the
seconds left and, near departure, the name of the next station.

This project models that core as pure functions over an immutable state. It
treats the clock as a parameter: an instant is a whole number of milliseconds.

- `wrappers.dfy` — `Option`.
- `clock.dfy` — instants and durations in milliseconds, the saturating
  `duration_since`, truncation to whole seconds, and the 250 ms / 125 ms / 2 s
  constants.
- `line.dfy` — `Station`, the well-formedness of a line (every leg 5 to 8 s, the
  last station's time 0), and the line built at start-up.
- `metro.dfy` — the state (`index`, `startTime`, `lastBlinkTime`,
  `isBlinking`), start-up, and `Tick`.
- `view.dfy` — station colours (`Grey | White | Green | Red`) and the status line
  (`Arrived | Eta(seconds, arrivingSoonAt)`), plus lemmas that relate them to `Tick`.
- `run.dfy` — folding `Tick` over an instant sequence that never goes back,
  with a liveness construction and the three-station scenario.

Two details of the source are kept on purpose:
- `update` reads the elapsed time once, before the train may move on. The blink
  check then subtracts that old reading from the new station's time.
  `View.ArrivalFlashesRed` shows the visible effect: on the tick that reaches a
  new station, the station can flash red while the status line still shows its
  full five seconds.
- `time_left` is signed and goes negative once the train is overdue. The status
  line clamps it at zero.

The train makes one trip to the final station and stays there. There is no
terminal wait, rerouting or return trip.

## Model

| member | source | states |
|---|---|---|
| `Line.MetroLine` | src/main.rs:57-68 | the start-up line has ten stations with the program's names, each drawn leg 5..=8 s, and a terminal time of 0, so it is well formed |
| `Metro.New` | src/main.rs:54-80 | the line is exactly the start-up line built from the drawn legs (ten named stations); the initial state is at station 0, not blinking, with both clocks at the start instant, and it refers to a station of that line |
| `Metro.TimeLeftSecs` | src/main.rs:101 | whole seconds left are at most 2 exactly when at least `timeToNext - 2` seconds have passed in milliseconds, and at most 0 exactly when the whole `timeToNext` has passed |
| `Metro.Tick` | src/main.rs:86-116 | the index stays in range and moves by exactly one exactly when the elapsed ms reach `timeToNext*1000` and the train is not at the last station; `startTime` becomes `now` then and is otherwise unchanged; the flag toggles and `lastBlinkTime := now` exactly when the train is short of the end, the stale time-left is at most 2 and 250 ms have passed; the flag is only ever set within that window |
| `Metro.TerminalIsAbsorbing` | src/main.rs:92-112 | at the last station a tick changes neither the index nor `startTime` nor `lastBlinkTime`, and clears the flag |
| `Metro.NoBlinkFarFromDeparture` | src/main.rs:100-109 | short of the end with more than 2 s left (by the stale reading), the flag ends cleared and its clock unchanged |
| `Metro.BlinkHeldBetweenToggles` | src/main.rs:102-106 | within the last 2 s but under 250 ms after the last toggle, the flag and its clock are both unchanged |
| `Clock.AtLeastSecsIffWholeSecs` | src/main.rs:92-101 | comparing elapsed milliseconds with `Duration::from_secs(t)` agrees with comparing the truncated `as_secs()` with `t` |
| `View.StationColor` | src/main.rs:124-144 | stations before the current one are grey, those after it white; the current one is red exactly when it is not the last, the flag is set and under 125 ms have passed since the toggle; otherwise green |
| `View.LineColors` | src/main.rs:124-144 | the drawn line is a grey prefix up to the current station, the current station red exactly when it is not the last, the flag is set and under 125 ms have passed since the toggle (green otherwise), and a white suffix |
| `View.StatusLine` | src/main.rs:170-182 | "arrived" exactly at the last station; otherwise the ETA is `max(0, time_left)`, and the next station's name appears exactly when `time_left <= 2` |
| `View.ArrivedIffLineGreyed` | src/main.rs:124-182 | the status reads "arrived" exactly when every station before the last is drawn grey |
| `View.AdvanceIffEtaZero` | src/main.rs:92-176 | a tick moves the train on exactly when the status at that instant shows 0 seconds with an arrival warning |
| `View.RedMeansArrivingSoon` | src/main.rs:100-176 | after a tick that keeps the train in place, a red current station comes with an "arriving soon" status |
| `View.ArrivalFlashesRed` | src/main.rs:90-105 | because of the stale elapsed reading, on a real start-up line the tick reaching station 1 can leave it red while the status shows 5 s and no warning |
| `Run.Run` | src/main.rs:88-112 | over any tick sequence the index stays in range, never decreases, and grows by at most one per tick |
| `Run.TerminalAbsorbsRun` | src/main.rs:92-112 | from the last station, any run keeps the index and `startTime`, and after at least one tick the flag is off |
| `Run.DriveToTerminal` | src/main.rs:89-97 | from any state, a non-decreasing schedule of exactly one tick per remaining station reaches the last station; by `Run.Run` none shorter can |
| `Run.ThreeStationScenario` | src/main.rs:89-97 | with stations of 5, 4 and 0 s from instant 0: index 1 at 5 s, index 2 (terminal) at 9 s, and no move at 4.999 s or 8.999 s |

## Left out

- The iced GUI: `StationButtonStyle`, widgets, sizes, spacing, `title` and `main`. These are rendering through an external toolkit.
- The colour's RGB float components. A four-value `Color` enumeration stands in for them.
- `subscription` and its 100 ms timer. `Run.Run` accepts any instants instead.
- `rand::thread_rng().gen_range(5..=8)`. The drawn legs are a parameter of `Line.MetroLine`, with the 5..=8 bounds as a precondition.
- `Instant::now()` as a real clock. The source reads it up to four times within one tick and up to twice per view: once for the current station's colour (src/main.rs:129) and once for the status line (src/main.rs:171). The model uses a single `now` per tick, so it leaves out the few microseconds between those readings. `View.LineColors` and `View.StatusLine` take `now` separately, and they see the same instant only when the caller passes the same value to both.
- `Instant::duration_since` saturates at zero in the Rust standard library, and `Clock.Since` does the same. Older Rust versions panicked instead, and the model does not include that panic.
- Fixed integer widths. `time_to_next` is a `u32`, and `as_secs() as i64` would wrap only after about 2^63 seconds. The model uses unbounded `nat` and `int`, because no reachable value comes close to either limit.
- The text of the `format!` strings. `View.Status` carries the same information: the ETA, the optional next-station name, or arrival.
- Out-of-range indexing and an empty line. The program panics on an empty line or an out-of-range index (`stations[...]` at src/main.rs:89 and 171). `Metro.Valid` excludes both.
