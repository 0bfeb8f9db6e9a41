/** The status light's timing: solid while a key is active, otherwise a blink whose
    period depends on the board and on the wireless link. */
module Led {
  import opened Ints

  /** Blink half-periods in milliseconds. */
  const FAST_BLINK: u32 := 250    // wireless, waiting for pairing
  const SLOW_BLINK: u32 := 2000   // wireless, connected
  const HEARTBEAT: u32 := 1000    // wired

  /** The light's own state: whether the blink is in its on phase, and when it last
      toggled. */
  datatype LedState = LedState(on: bool, lastToggle: u32)

  /** What one update writes to the light driver. */
  datatype LedCommand =
    | NoWrite             // the light keeps whatever it shows
    | KeyActive           // solid: a key is pressed
    | Blink(on: bool)     // a blink toggle to the given phase

  datatype LedOutcome = LedOutcome(state: LedState, command: LedCommand)

  function Period(wireless: bool, connected: bool): (p: u32)
    ensures FAST_BLINK <= p <= SLOW_BLINK
    ensures p == FAST_BLINK <==> wireless && !connected
    ensures p == SLOW_BLINK <==> wireless && connected
    ensures !wireless ==> p == HEARTBEAT
  {
    if wireless then (if connected then SLOW_BLINK else FAST_BLINK) else HEARTBEAT
  }

  /** One update at time `now`. An active key drives the light on and leaves the blink
      state alone; otherwise the blink toggles, and records `now`, exactly when at least
      one period has elapsed since the last toggle (modulo the 32-bit clock). */
  function Update(s: LedState, keyActive: bool, now: u32, period: u32): (o: LedOutcome)
    ensures keyActive ==> o == LedOutcome(s, KeyActive)
    ensures !keyActive ==> (o.state != s <==> Elapsed(now, s.lastToggle) >= period)
    ensures o.state != s ==> o.state == LedState(!s.on, now) && o.command == Blink(!s.on)
    ensures o.state == s && !keyActive ==> o.command == NoWrite
  {
    if keyActive then LedOutcome(s, KeyActive)
    else if Elapsed(now, s.lastToggle) >= period then
      LedOutcome(LedState(!s.on, now), Blink(!s.on))
    else LedOutcome(s, NoWrite)
  }

  /** The light's state after updates at the times `times`, no key being active. */
  function Idle(s: LedState, times: seq<u32>, period: u32): LedState
    decreases |times|
  {
    if times == [] then s else Idle(Update(s, false, times[0], period).state, times[1..], period)
  }

  /** Consecutive toggles are at least one period apart: after updates at times that all
      lie less than a period after the last toggle, nothing has changed. */
  lemma {:induction false} NoToggleWithinPeriod(s: LedState, times: seq<u32>, period: u32)
    requires forall i :: 0 <= i < |times| ==> Elapsed(times[i], s.lastToggle) < period
    ensures Idle(s, times, period) == s
    decreases |times|
  {
    if times != [] {
      NoToggleWithinPeriod(s, times[1..], period);
    }
  }

  /** Each toggle records its time, so an update in the same millisecond as a toggle
      never toggles again, whatever the period. */
  lemma NoDoubleToggle(s: LedState, now: u32, period: u32)
    requires 0 < period
    requires Update(s, false, now, period).state != s
    ensures Update(Update(s, false, now, period).state, false, now, period).state
            == Update(s, false, now, period).state
  {
  }
}
