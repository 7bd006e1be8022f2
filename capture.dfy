/** The capture state machine: a recorder that accepts key presses and releases
    while running and not paused, buffers hold durations, inter-event latencies
    and raw press timestamps, and is driven through start, pause, resume, stop
    and reset and by a watchdog that enforces the maximum duration and the idle
    timeout. Times are seconds since the epoch, passed in as `now`; key codes
    arrive already extracted, `None` when the key has none. */
module Capture {
  import opened Sorting
  import opened Analytics

  datatype Option<T> = None | Some(value: T)

  /** Python's int() of a float: truncation toward zero. */
  function Trunc(x: real): (r: int)
    ensures x >= 0.0 ==> r as real <= x < r as real + 1.0
    ensures x < 0.0 ==> r as real - 1.0 < x <= r as real
  {
    if x >= 0.0 then x.Floor else -((-x).Floor)
  }

  /** A Python float used as a condition: unset or zero is false. */
  predicate IsSet(t: Option<real>) {
    t.Some? && t.value != 0.0
  }

  class Recorder {
    var maxDurationSec: int
    var idleTimeoutSec: int

    var running: bool
    var paused: bool

    var startedAtIso: Option<string>
    var startTs: Option<real>
    var lastEventTs: Option<real>

    var totalEvents: int
    var holds: seq<HoldEvent>
    var latencies: seq<LatencyEvent>
    /** Pending presses: the time of the latest unmatched press of each key code. */
    var pressTimes: map<int, real>
    var pressTimestampsMs: seq<real>

    /** The latest time an operation recorded: accepted presses and releases,
        starts and resumes advance it; the watchdog and the duration query do not. */
    ghost var clock: real

    /** Exactly one press timestamp per counted event; at most one latency per
        event; every hold and every pending press used up a distinct press. */
    ghost predicate Counted()
      reads this
    {
      && |pressTimestampsMs| == totalEvents
      && |latencies| <= totalEvents
      && |holds| + |pressTimes| <= totalEvents
    }

    /** Everything recorded lies in the past of `clock`, press timestamps are
        ascending and no hold or latency is negative. Every operation keeps this
        as long as the times it is given never go back. */
    ghost predicate Chronological()
      reads this
    {
      && Ascending(pressTimestampsMs)
      && (|pressTimestampsMs| > 0 ==> pressTimestampsMs[|pressTimestampsMs| - 1] <= clock * 1000.0)
      && (forall vk :: vk in pressTimes ==> pressTimes[vk] <= clock)
      && (forall i :: 0 <= i < |holds| ==> holds[i].holdMs >= 0.0)
      && (forall i :: 0 <= i < |latencies| ==> latencies[i].latencyMs >= 0.0)
      && (lastEventTs.Some? ==> lastEventTs.value <= clock)
      && (startTs.Some? ==> startTs.value <= clock)
    }

    /** The class invariant: the counting relations hold whatever times the
        recorder is given. */
    ghost predicate Valid()
      reads this
    {
      Counted()
    }

    /** Events are accepted only while running and not paused. */
    predicate Accepting()
      reads this
    {
      running && !paused
    }

    /** A new recorder is not running, starts paused and holds nothing. */
    constructor (maxDurationSec: int := 120, idleTimeoutSec: int := 10)
      ensures Valid() && Chronological()
      ensures this.maxDurationSec == maxDurationSec && this.idleTimeoutSec == idleTimeoutSec
      ensures !running && paused
      ensures startedAtIso.None? && startTs.None? && lastEventTs.None?
      ensures totalEvents == 0 && holds == [] && latencies == [] && pressTimes == map[] && pressTimestampsMs == []
      ensures clock == 0.0
    {
      this.maxDurationSec := maxDurationSec;
      this.idleTimeoutSec := idleTimeoutSec;
      running := false;
      paused := true;
      startedAtIso := None;
      startTs := None;
      lastEventTs := None;
      totalEvents := 0;
      holds := [];
      latencies := [];
      pressTimes := map[];
      pressTimestampsMs := [];
      clock := 0.0;
    }

    /** A copy of the raw press timestamps: one per counted event, ascending. */
    function PressTimestampsMs(): (r: seq<real>)
      reads this
      requires Valid()
      ensures |r| == totalEvents
      ensures Chronological() ==> Sorted(r)
    {
      AscendingIsSorted(pressTimestampsMs);
      pressTimestampsMs
    }

    /** Key press at time `now`. An accepted press counts one event, records (or
        overwrites) the key's pending press, appends its timestamp in ms and, when
        an earlier event exists, the latency since it; holds are untouched. */
    method OnPress(vk: Option<int>, now: real)
      requires Valid()
      modifies this
      ensures Valid()
      ensures maxDurationSec == old(maxDurationSec) && idleTimeoutSec == old(idleTimeoutSec)
      ensures old(Chronological()) && old(clock) <= now ==> Chronological()
      ensures !old(Accepting()) || vk.None? ==> unchanged(this)
      ensures old(Accepting()) && vk.Some? ==>
        && totalEvents == old(totalEvents) + 1
        && pressTimes == old(pressTimes)[vk.value := now]
        && pressTimestampsMs == old(pressTimestampsMs) + [now * 1000.0]
        && latencies == old(latencies) +
             (if old(lastEventTs).Some? then [LatencyEvent((now - old(lastEventTs).value) * 1000.0)] else [])
        && lastEventTs == Some(now)
        && holds == old(holds)
        && running == old(running) && paused == old(paused)
        && startedAtIso == old(startedAtIso) && startTs == old(startTs)
        && clock == now
    {
      if !running || paused {
        return;
      }
      if vk.None? {
        return;
      }
      var code := vk.value;
      totalEvents := totalEvents + 1;
      pressTimes := pressTimes[code := now];
      pressTimestampsMs := pressTimestampsMs + [now * 1000.0];
      var gap := if lastEventTs.Some? then [LatencyEvent((now - lastEventTs.value) * 1000.0)] else [];
      latencies := latencies + gap;
      lastEventTs := Some(now);
      clock := now;
    }

    /** Key release at time `now`. An accepted release of a key with a pending
        press removes that press and appends one hold of the elapsed time; with
        no pending press the holds stay as they are. Either way the latencies,
        the event count and the press timestamps stay as they are, and the last
        event time becomes `now`. */
    method OnRelease(vk: Option<int>, now: real)
      requires Valid()
      modifies this
      ensures Valid()
      ensures maxDurationSec == old(maxDurationSec) && idleTimeoutSec == old(idleTimeoutSec)
      ensures old(Chronological()) && old(clock) <= now ==> Chronological()
      ensures !old(Accepting()) || vk.None? ==> unchanged(this)
      ensures old(Accepting()) && vk.Some? ==>
        && (vk.value in old(pressTimes) ==>
              && pressTimes == old(pressTimes) - {vk.value}
              && holds == old(holds) + [HoldEvent(vk.value, (now - old(pressTimes)[vk.value]) * 1000.0)])
        && (vk.value !in old(pressTimes) ==> pressTimes == old(pressTimes) && holds == old(holds))
        && lastEventTs == Some(now)
        && totalEvents == old(totalEvents)
        && latencies == old(latencies) && pressTimestampsMs == old(pressTimestampsMs)
        && running == old(running) && paused == old(paused)
        && startedAtIso == old(startedAtIso) && startTs == old(startTs)
        && clock == now
    {
      if !running || paused {
        return;
      }
      if vk.None? {
        return;
      }
      var code := vk.value;
      if code in pressTimes {
        var t0 := pressTimes[code];
        pressTimes := pressTimes - {code};
        holds := holds + [HoldEvent(code, (now - t0) * 1000.0)];
      }
      lastEventTs := Some(now);
      clock := now;
    }

    /** Replaces the maximum duration and the idle timeout, as the settings are
        applied before each start; nothing else changes. */
    method Configure(maxDurationSec: int, idleTimeoutSec: int)
      requires Valid()
      modifies this
      ensures Valid()
      ensures old(Chronological()) ==> Chronological()
      ensures this.maxDurationSec == maxDurationSec && this.idleTimeoutSec == idleTimeoutSec
      ensures running == old(running) && paused == old(paused)
      ensures startedAtIso == old(startedAtIso) && startTs == old(startTs) && lastEventTs == old(lastEventTs)
      ensures totalEvents == old(totalEvents) && holds == old(holds) && latencies == old(latencies)
      ensures pressTimes == old(pressTimes) && pressTimestampsMs == old(pressTimestampsMs)
      ensures clock == old(clock)
    {
      this.maxDurationSec := maxDurationSec;
      this.idleTimeoutSec := idleTimeoutSec;
    }

    /** Starting an already running recorder does nothing. Otherwise it stops
        any capture, keeps the buffered data, records the start, and runs
        unpaused. */
    method Start(startedAtIso: string, now: real)
      requires Valid()
      modifies this
      ensures Valid()
      ensures maxDurationSec == old(maxDurationSec) && idleTimeoutSec == old(idleTimeoutSec)
      ensures old(Chronological()) && old(clock) <= now ==> Chronological()
      ensures old(running) ==> unchanged(this)
      ensures !old(running) ==>
        && running && !paused
        && this.startedAtIso == Some(startedAtIso) && startTs == Some(now)
        && lastEventTs == old(lastEventTs)
        && totalEvents == old(totalEvents) && holds == old(holds) && latencies == old(latencies)
        && pressTimes == old(pressTimes) && pressTimestampsMs == old(pressTimestampsMs)
        && clock == now
    {
      if running {
        return;
      }
      Reset(false);
      this.startedAtIso := Some(startedAtIso);
      startTs := Some(now);
      clock := now;
      running := true;
      paused := false;
    }

    /** Sets the paused flag, whatever the state; nothing else changes. */
    method Pause()
      requires Valid()
      modifies this
      ensures Valid()
      ensures maxDurationSec == old(maxDurationSec) && idleTimeoutSec == old(idleTimeoutSec)
      ensures old(Chronological()) ==> Chronological()
      ensures paused
      ensures running == old(running)
      ensures startedAtIso == old(startedAtIso) && startTs == old(startTs) && lastEventTs == old(lastEventTs)
      ensures totalEvents == old(totalEvents) && holds == old(holds) && latencies == old(latencies)
      ensures pressTimes == old(pressTimes) && pressTimestampsMs == old(pressTimestampsMs)
      ensures clock == old(clock)
    {
      paused := true;
    }

    /** While running: clears the paused flag and restarts the idle timer at
        `now`. Otherwise nothing changes. */
    method Resume(now: real)
      requires Valid()
      modifies this
      ensures Valid()
      ensures maxDurationSec == old(maxDurationSec) && idleTimeoutSec == old(idleTimeoutSec)
      ensures old(Chronological()) && old(clock) <= now ==> Chronological()
      ensures !old(running) ==> unchanged(this)
      ensures old(running) ==>
        && running && !paused && lastEventTs == Some(now)
        && startedAtIso == old(startedAtIso) && startTs == old(startTs)
        && totalEvents == old(totalEvents) && holds == old(holds) && latencies == old(latencies)
        && pressTimes == old(pressTimes) && pressTimestampsMs == old(pressTimestampsMs)
        && clock == now
    {
      if running {
        paused := false;
        lastEventTs := Some(now);
        clock := now;
      }
    }

    /** Clears the running flag and sets the paused flag; the buffers, the
        timestamps and the event count stay as they are. */
    method Stop()
      requires Valid()
      modifies this
      ensures Valid()
      ensures maxDurationSec == old(maxDurationSec) && idleTimeoutSec == old(idleTimeoutSec)
      ensures old(Chronological()) ==> Chronological()
      ensures !running && paused
      ensures startedAtIso == old(startedAtIso) && startTs == old(startTs) && lastEventTs == old(lastEventTs)
      ensures totalEvents == old(totalEvents) && holds == old(holds) && latencies == old(latencies)
      ensures pressTimes == old(pressTimes) && pressTimestampsMs == old(pressTimestampsMs)
      ensures clock == old(clock)
    {
      paused := true;
      running := false;
    }

    /** Stops, and with `clearData` also empties every buffer and the pending
        presses, zeroes the event count and forgets the start and the last
        event. */
    method Reset(clearData: bool := true)
      requires Valid()
      modifies this
      ensures Valid()
      ensures maxDurationSec == old(maxDurationSec) && idleTimeoutSec == old(idleTimeoutSec)
      ensures old(Chronological()) ==> Chronological()
      ensures !running && paused
      ensures clearData ==>
        && totalEvents == 0 && holds == [] && latencies == [] && pressTimes == map[] && pressTimestampsMs == []
        && startedAtIso.None? && startTs.None? && lastEventTs.None?
      ensures !clearData ==>
        && startedAtIso == old(startedAtIso) && startTs == old(startTs) && lastEventTs == old(lastEventTs)
        && totalEvents == old(totalEvents) && holds == old(holds) && latencies == old(latencies)
        && pressTimes == old(pressTimes) && pressTimestampsMs == old(pressTimestampsMs)
      ensures clock == old(clock)
    {
      Stop();
      if clearData {
        ClearData();
      }
    }

    /** The clearing half of a reset: empties every buffer and the pending
        presses, zeroes the event count and forgets the start and the last
        event; the flags and the limits stay as they are. */
    method ClearData()
      modifies this
      ensures Valid() && Chronological()
      ensures maxDurationSec == old(maxDurationSec) && idleTimeoutSec == old(idleTimeoutSec)
      ensures running == old(running) && paused == old(paused)
      ensures totalEvents == 0 && holds == [] && latencies == [] && pressTimes == map[] && pressTimestampsMs == []
      ensures startedAtIso.None? && startTs.None? && lastEventTs.None?
      ensures clock == old(clock)
    {
      totalEvents := 0;
      holds := [];
      latencies := [];
      pressTimes := map[];
      pressTimestampsMs := [];
      startedAtIso := None;
      startTs := None;
      lastEventTs := None;
    }

    /** Whole seconds elapsed since the start: 0 when never started (or started
        at time 0); otherwise the elapsed time truncated toward zero, which under
        a clock that never goes back is its floor. */
    function DurationSecs(now: real): (r: int)
      reads this
      ensures !IsSet(startTs) ==> r == 0
      ensures IsSet(startTs) && now >= startTs.value ==>
        0 <= r && r as real <= now - startTs.value < r as real + 1.0
      ensures IsSet(startTs) && now < startTs.value ==> r <= 0
    {
      if !IsSet(startTs) then 0 else Trunc(now - startTs.value)
    }

    /** The watchdog's first check: a start is recorded, a maximum duration is
        configured and it has elapsed by `now`. */
    predicate MaxDurationReached(now: real)
      reads this
    {
      IsSet(startTs) && maxDurationSec > 0 && now - startTs.value >= maxDurationSec as real
    }

    /** The watchdog's second check: an event time is recorded, an idle timeout
        is configured, capture is not paused and the timeout has elapsed. */
    predicate IdleTimeoutReached(now: real)
      reads this
    {
      IsSet(lastEventTs) && idleTimeoutSec > 0 && !paused && now - lastEventTs.value >= idleTimeoutSec as real
    }

    /** One pass of the watchdog loop at time `now`. The loop runs only while the
        recorder is running; a reached maximum duration stops it and ends the
        loop; otherwise a reached idle timeout pauses it. `live` tells whether
        the loop goes on. */
    method WatchdogTick(now: real) returns (live: bool)
      requires Valid()
      modifies this
      ensures Valid()
      ensures maxDurationSec == old(maxDurationSec) && idleTimeoutSec == old(idleTimeoutSec)
      ensures old(Chronological()) && old(clock) <= now ==> Chronological()
      ensures !old(running) ==> !live && unchanged(this)
      ensures old(running) && old(MaxDurationReached(now)) ==> !live && !running && paused
      ensures old(running) && !old(MaxDurationReached(now)) && old(IdleTimeoutReached(now)) ==>
        live && running && paused
      ensures old(running) && !old(MaxDurationReached(now)) && !old(IdleTimeoutReached(now)) ==>
        live && unchanged(this)
      ensures startedAtIso == old(startedAtIso) && startTs == old(startTs) && lastEventTs == old(lastEventTs)
      ensures totalEvents == old(totalEvents) && holds == old(holds) && latencies == old(latencies)
      ensures pressTimes == old(pressTimes) && pressTimestampsMs == old(pressTimestampsMs)
      ensures clock == old(clock)
    {
      if !running {
        return false;
      }
      if MaxDurationReached(now) {
        Stop();
        return false;
      }
      if IdleTimeoutReached(now) {
        Pause();
      }
      live := true;
    }
  }

  // ---------------------------------------------------------------------------
  // Sessions driven through the recorder's operations
  // ---------------------------------------------------------------------------

  /** A press and release of key 65 while recording leave exactly one hold, of
      code 65 and of the elapsed time, and no latency: only key codes and
      timings are stored. */
  method PressAndRelease(startedAt: real, t0: real, t1: real)
    returns (holds: seq<HoldEvent>, latencies: seq<LatencyEvent>, events: int)
    requires 0.0 <= startedAt <= t0 <= t1
    ensures |holds| == 1 && holds[0] == HoldEvent(65, (t1 - t0) * 1000.0) && holds[0].holdMs >= 0.0
    ensures |latencies| == 0
    ensures events == 1
  {
    var r := new Recorder();
    r.Start("session", startedAt);
    r.OnPress(Some(65), t0);
    r.OnRelease(Some(65), t1);
    holds, latencies, events := r.holds, r.latencies, r.totalEvents;
  }

  /** After a pause, presses and releases leave the buffers as they are; after
      resuming, a press is counted again, with a latency since the resume. */
  method PauseThenResume(t0: real, t1: real, t2: real, t3: real)
    returns (eventsWhilePaused: int, eventsAfterResume: int, latencies: seq<LatencyEvent>)
    requires 0.0 <= t0 <= t1 <= t2 <= t3
    ensures eventsWhilePaused == 0
    ensures eventsAfterResume == 1
    ensures |latencies| == 1 && latencies[0] == LatencyEvent((t3 - t2) * 1000.0)
  {
    var r := new Recorder();
    r.Start("session", t0);
    r.Pause();
    r.OnPress(Some(65), t1);
    r.OnRelease(Some(65), t1);
    eventsWhilePaused := r.totalEvents;
    r.Resume(t2);
    r.OnPress(Some(65), t3);
    eventsAfterResume := r.totalEvents;
    latencies := r.latencies;
  }

  /** With the maximum duration configured just before the start, as the
      settings are applied, the watchdog stops the recorder once it has
      elapsed and later presses are not counted. */
  method MaxDurationStops(maxDurationSec: int, t0: real, t1: real, t2: real)
    returns (live: bool, running: bool, events: int)
    requires maxDurationSec > 0
    requires 0.0 < t0 && t0 + maxDurationSec as real <= t1 <= t2
    ensures !live && !running && events == 0
  {
    var r := new Recorder();
    r.Configure(maxDurationSec, 10);
    r.Start("session", t0);
    live := r.WatchdogTick(t1);
    r.OnPress(Some(65), t2);
    running, events := r.running, r.totalEvents;
  }

  /** With no event for the idle timeout, the watchdog pauses a running
      recorder and keeps polling. */
  method IdleTimeoutPauses(idleTimeoutSec: int, t0: real, t1: real, t2: real)
    returns (live: bool, running: bool, paused: bool)
    requires idleTimeoutSec > 0
    requires 0.0 < t0 <= t1 && t1 + idleTimeoutSec as real <= t2 < t0 + 120.0
    ensures live && running && paused
  {
    var r := new Recorder(120, idleTimeoutSec);
    r.Start("session", t0);
    r.OnPress(Some(65), t1);
    live := r.WatchdogTick(t2);
    running, paused := r.running, r.paused;
  }
}
