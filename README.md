# Keystroke-dynamics capture and statistics, modelled in Dafny

This project models the timing core of a keystroke-dynamics recorder. It never
sees characters, only numeric key codes and timestamps. The core has two parts.

- **Statistics engine** (`app/kdyn/analytics.py`), modules `Sorting` and
  `Analytics`. It provides the linear-interpolation percentile, the median,
  burst grouping of press timestamps and the `Metrics` snapshot. The snapshot
  holds medians, p95, a per-key breakdown sorted by key code, and the burst
  count and average burst length.
- **Capture state machine** (`app/kdyn/recorder.py`), module `Capture`. It is
  the class `Recorder`, with running/paused flags, start and last-event times,
  an event counter, three append-only buffers (holds, latencies, press
  timestamps) and a map of pending presses. It has the press and release
  callbacks, `start`, `pause`, `resume`, `stop`, `reset`, `duration_secs`, and
  one pass of the watchdog loop.

Files:

- `sorting.dfy` holds the sorted copy (`Sort`, proved to be a sorted
  permutation and unique) and the minimum and maximum of a sample.
- `analytics.dfy` holds the statistics engine.
- `capture.dfy` holds the recorder and a few sessions driven through its
  methods.

Modelling choices:

- The records `HoldEvent`, `LatencyEvent` and `Metrics`
  (`app/kdyn/analytics.py:6-28`) are the datatypes of the same names, field
  for field. Each `per_key` dictionary (`app/kdyn/analytics.py:80-85`) is a
  `KeyStats` value with the same four fields.
- Numbers are `real`. Python's `int(k)` for `k >= 0` is `k.Floor`.
  `int(time.time() - start_ts)` is truncation toward zero (`Capture.Trunc`).
- The wall clock becomes a parameter `now`, in seconds.
- The key code arrives already extracted, as `Option<int>`.
- `statistics.median` becomes `Analytics.Median`, the middle of the sorted copy.
- `compute_bursts` keeps its loop: `Analytics.ComputeBursts` is a method,
  proved equal to the specification function `BurstSummary`.
- `aggregate` keeps its grouping loop and its per-key loop:
  `Analytics.Aggregate` is a method, proved equal to the specification function
  `MetricsOf`. Because `MetricsOf` is a function, aggregating the same buffers
  twice gives the same `Metrics`.
- The maximum duration and idle timeout are fields of `Recorder`. The
  constructor sets them. The settings window assigns them again before each
  start (`app/kdyn/gui.py:246-247`); `Recorder.Configure` models that
  assignment. Every other operation leaves them as they are.
- `reset` clears the data in its second half; `Recorder.ClearData` models that
  half and `Recorder.Reset` calls it, as `reset` clears after calling `stop`.
- The recorder's class invariant `Valid()` is proved to hold after every
  operation, whatever times are passed in. It says:
  one press timestamp per counted event, at most one latency per event, and
  holds plus pending presses at most the number of events.
- A second invariant, `Chronological()`, is kept whenever the times passed in
  never go back. It says that each press timestamp is at least the one before
  it and that no hold or latency is negative. A ghost field `clock` holds the latest time an operation recorded: accepted presses and releases, `Start` and `Resume` advance it; `WatchdogTick` and `DurationSecs` read a time without recording it.

Where the code and its description differ, the model follows the code:

- `start` keeps the buffered data. It calls `reset(clear_data=False)`
  (`app/kdyn/recorder.py:95`), so it does not clear the buffers.
- A release adds no latency and does not count as an event
  (`app/kdyn/recorder.py:62-73`). Only a press appends a latency.
- `stop` leaves the paused flag set (`app/kdyn/recorder.py:112`).
- `resume` acts whenever the recorder is running, paused or not. Each time, it
  restarts the idle timer at `now`.
- The watchdog tests `start_ts` and `last_event_ts` for truth. A recorded time
  of exactly 0.0 therefore counts as unset (`Capture.IsSet`).
- For presses `[0, 100, 200, 800, 1000, 1600]` and threshold 700 ms, the test
  at `tests/test_analytics.py:7-10` expects `(2, 3.0)`. Every gap there is under
  700 ms, so `compute_bursts` returns `(1, 6.0)`. `Analytics.SampleBursts`
  proves `(1, 6.0)`.

## Model

| member | source | states |
|---|---|---|
| `Sorting.Sort` | app/kdyn/analytics.py:34 | the sorted copy is in ascending order and is a permutation of the input |
| `Sorting.SortIsSortedPermutation` | app/kdyn/analytics.py:34 | the sorted copy is the only ascending sequence with the input's values |
| `Analytics.Percentile` | app/kdyn/analytics.py:31-42 | specification function: 0.0 for no data, otherwise the interpolation over the sorted copy; its properties are stated by `PercentileBounds` and `PercentileIgnoresOrder` |
| `Analytics.Interpolate` | app/kdyn/analytics.py:35 | specification function: the rank k = (n-1)·p, which lies in [0, n-1] for p in [0, 1], passed to `InterpolateAt`; its properties are stated by `InterpolateBounds` |
| `Analytics.InterpolateAt` | app/kdyn/analytics.py:36-42 | specification function: f = floor k, c = min(f+1, n-1); v[f] when f = c, else v[f]·(c-k) + v[c]·(k-f) |
| `Analytics.PercentileBounds` | app/kdyn/analytics.py:31-42 | 0.0 for an empty sample; otherwise between the sample's minimum and maximum; the minimum at p = 0, the maximum at p = 1, and the element itself for a one-element sample |
| `Analytics.InterpolateBounds` | app/kdyn/analytics.py:35-42 | over a sorted sample the interpolated value lies between the first and last order statistic, and equals them at p = 0 and p = 1 |
| `Analytics.PercentileIgnoresOrder` | app/kdyn/analytics.py:34 | two samples with the same multiset of values have the same percentile |
| `Analytics.MedianIsHalfPercentile` | app/kdyn/analytics.py:70-71 | the median equals the 0.5 interpolation percentile and lies between the sample's minimum and maximum |
| `Analytics.Median` | app/kdyn/analytics.py:70-71 | specification function: `statistics.median`, the middle of the sorted copy of a non-empty sample; related to the percentile by `MedianIsHalfPercentile` |
| `Analytics.Middle` | app/kdyn/analytics.py:70-71 | specification function: for a sorted sample, the middle element for odd length and the mean of the two middle elements for even length |
| `Analytics.MedianOrZero` | app/kdyn/analytics.py:70-71 | specification function: the median, or 0.0 for an empty sample |
| `Analytics.Bursts` | app/kdyn/analytics.py:52-60 | the runs number one more than the gaps of at least the threshold (none for no presses) |
| `Analytics.BurstsPartition` | app/kdyn/analytics.py:52-60 | every run holds at least one press and the run lengths add up to the number of presses |
| `Analytics.BurstSummary` | app/kdyn/analytics.py:50-61 | specification function: (0, 0.0) for no presses, otherwise the number of runs and presses per run; its properties are stated by `BurstSummaryProperties` |
| `Analytics.BurstSummaryProperties` | app/kdyn/analytics.py:45-61 | (0, 0.0) for no presses; otherwise count = 1 + number of gaps at or above the threshold, count at most the number of presses, average = presses / count and at least 1; one press gives (1, 1.0) |
| `Analytics.ComputeBursts` | app/kdyn/analytics.py:45-61 | the loop (threshold 700 ms by default) returns the burst summary: (0, 0.0) for no presses, otherwise 1 + breaks and presses / bursts |
| `Analytics.NoBreaks` | app/kdyn/analytics.py:54-56 | when every gap is under the threshold there is no break |
| `Analytics.SampleBursts` | tests/test_analytics.py:7-10 | the test's presses with threshold 700 give (1, 6.0) |
| `Analytics.Codes` | app/kdyn/analytics.py:79 | the breakdown's codes are strictly ascending and are exactly the codes of the holds |
| `Analytics.SortedCodes` | app/kdyn/analytics.py:79 | sorting the grouped codes yields a strictly ascending sequence of exactly those codes |
| `Analytics.HoldsOf` | app/kdyn/analytics.py:75-77 | the hold durations of one key code in recorded order, never more than there are holds |
| `Analytics.KeyStatsOf` | app/kdyn/analytics.py:80-85 | specification function: one breakdown entry, the code with the count, median and p95 of its durations |
| `Analytics.KeyStatsFor` | app/kdyn/analytics.py:79-85 | one breakdown entry per given code, in the given order |
| `Analytics.PerKey` | app/kdyn/analytics.py:75-85 | specification function: the breakdown over the ascending distinct codes; its properties are stated by `PerKeyOrder`, `PerKeyEntry` and `PerKeyCountsSum` |
| `Analytics.GroupByCode` | app/kdyn/analytics.py:75-77 | the grouping loop's keys are the codes of the holds, each mapped to that code's hold durations in recorded order |
| `Analytics.BreakdownOf` | app/kdyn/analytics.py:78-85 | the per-key loop emits the breakdown: for each code in ascending order, its count, median and p95 |
| `Analytics.PerKeyOrder` | app/kdyn/analytics.py:75-85 | one breakdown entry per distinct hold code, strictly ascending by code |
| `Analytics.PerKeyEntry` | app/kdyn/analytics.py:80-85 | each entry's count is the number of that code's holds, at least 1, and its median and p95 lie between that code's shortest and longest hold |
| `Analytics.PerKeyCountsSum` | app/kdyn/analytics.py:75-85 | the breakdown's counts add up to the number of holds |
| `Analytics.HoldValues` | app/kdyn/analytics.py:67 | the hold durations, one per hold, in recorded order |
| `Analytics.LatencyValues` | app/kdyn/analytics.py:68 | the latency values, one per latency, in recorded order |
| `Analytics.MetricsOf` | app/kdyn/analytics.py:89-101 | specification function: the Metrics snapshot of the buffers; its properties are stated by `AggregateProperties` |
| `Analytics.Aggregate` | app/kdyn/analytics.py:64-102 | the aggregation returns the Metrics snapshot of the buffers |
| `Analytics.AggregateProperties` | app/kdyn/analytics.py:67-101 | session fields, event count, hold and latency counts pass through; an empty buffer's median and p95 are 0.0; a non-empty latency buffer's median and p95 lie within its range; the burst fields follow the burst summary; breakdown counts sum to the holds |
| `Analytics.SampleMetrics` | tests/test_analytics.py:12-18 | the test's session gives median hold 100, median latency 75, p95 latency 97.5 (so 0 < p95 <= 100), and one entry for code 65 with count 5, median 100 and p95 109 |
| `Capture.Trunc` | app/kdyn/recorder.py:136 | Python's int() of a float truncates toward zero: the floor for a non-negative value, the ceiling for a negative one |
| `Capture.IsSet` | app/kdyn/recorder.py:134 | a time used as a condition: true only when recorded and not 0.0 |
| `Capture.Recorder.Counted` | app/kdyn/recorder.py:48-73 | one press timestamp per counted event, at most one latency per event, and holds plus pending presses at most the event count |
| `Capture.Recorder.Chronological` | app/kdyn/recorder.py:48-73 | press timestamps ascending, nothing recorded later than the latest time an operation recorded, no negative hold or latency |
| `Capture.Recorder.Valid` | app/kdyn/recorder.py:14-32 | the class invariant: `Counted`; established by the constructor and kept by every operation |
| `Capture.Recorder.constructor` | app/kdyn/recorder.py:14-32 | a new recorder has the given limits, is not running, is paused, has no times and holds nothing |
| `Capture.Recorder.PressTimestampsMs` | app/kdyn/recorder.py:34-36 | the copy holds one timestamp per counted event, in ascending order while times never go back |
| `Capture.Recorder.OnPress` | app/kdyn/recorder.py:48-60 | ignored when not running, paused or without a key code; otherwise counts the event, sets the pending press, appends the timestamp in ms, appends the latency only when a previous event exists, sets the last event time; holds unchanged; keeps the invariants |
| `Capture.Recorder.OnRelease` | app/kdyn/recorder.py:62-73 | ignored when not running, paused or without a key code; otherwise a pending press of the key is removed and exactly one hold of the elapsed ms appended, or holds are unchanged when none is pending; latencies, event count and press timestamps unchanged; last event time set |
| `Capture.Recorder.Configure` | app/kdyn/gui.py:246-247 | sets the maximum duration and the idle timeout to the given values and changes nothing else; keeps the invariants |
| `Capture.Recorder.Start` | app/kdyn/recorder.py:92-101 | no change when already running; otherwise running and unpaused with the start recorded, and all buffered data kept |
| `Capture.Recorder.Pause` | app/kdyn/recorder.py:103-104 | sets the paused flag and changes nothing else (so pausing twice is pausing once) |
| `Capture.Recorder.Resume` | app/kdyn/recorder.py:106-109 | when running, clears the paused flag and sets the last event time to now; otherwise no change |
| `Capture.Recorder.Stop` | app/kdyn/recorder.py:111-119 | clears running and sets paused, leaving every buffer and time as it was (so stopping twice is stopping once) |
| `Capture.Recorder.Reset` | app/kdyn/recorder.py:121-131 | stops; with clear_data (the default) also empties every buffer and the pending presses, zeroes the event count and clears the start and last event times; without it keeps them |
| `Capture.Recorder.ClearData` | app/kdyn/recorder.py:123-131 | empties every buffer and the pending presses, zeroes the event count, clears the start and last event times, leaves flags and limits as they are; establishes both invariants |
| `Capture.Recorder.DurationSecs` | app/kdyn/recorder.py:133-136 | 0 when the start time is unset or 0; otherwise the whole seconds elapsed, the floor of now minus start when now is not earlier |
| `Capture.Recorder.MaxDurationReached` | app/kdyn/recorder.py:80-81 | the first watchdog test: the start time is set, the maximum duration is positive and has elapsed by now |
| `Capture.Recorder.IdleTimeoutReached` | app/kdyn/recorder.py:85-86 | the second watchdog test: the last event time is set, the idle timeout is positive, capture is not paused and the timeout has elapsed by now |
| `Capture.Recorder.WatchdogTick` | app/kdyn/recorder.py:79-88 | not running: the loop ends; maximum duration reached: stops and ends the loop; otherwise idle timeout reached while unpaused: pauses and goes on; otherwise no change; buffers untouched |
| `Capture.PressAndRelease` | tests/test_privacy.py:4-19 | a press and release of key 65 leave exactly one hold, of code 65 and a non-negative duration, and no latency |
| `Capture.PauseThenResume` | app/kdyn/recorder.py:103-109 | events while paused are not counted; after resume a press is counted with the latency since the resume |
| `Capture.MaxDurationStops` | app/kdyn/recorder.py:80-84 | once the maximum duration has elapsed the watchdog stops the recorder and a later press is not counted |
| `Capture.IdleTimeoutPauses` | app/kdyn/recorder.py:85-88 | after the idle timeout without events the watchdog pauses a running recorder and keeps polling |

## Left out

- The keyboard hook, `pynput.keyboard.Listener` (`app/kdyn/recorder.py:77`, `114-118`), is left out. It is a foreign library, so the `_listener` field and its detaching in `stop` are not modelled.
- `_vk_of` (`app/kdyn/recorder.py:38-46`) is left out. It probes key objects dynamically; the callbacks take the key code as `Option<int>`, `None` when it has none.
- The background thread, the `threading.Event` flags (plain booleans here), `time.sleep` and the `while` loop of `_run` are left out. Their point is concurrency. Only one pass of the loop is modelled, as `WatchdogTick`.
- The source takes no lock. The key callbacks run on the listener thread, the watchdog on its own thread and `start`, `stop` and `reset` on the caller's thread, all on the same fields. The model treats each callback, each watchdog pass and each lifecycle call as one atomic step; `Valid()` and the watchdog properties are proved under that assumption, which the source does not enforce. For example, a `reset` between the counter increment and the appends of a press (`app/kdyn/recorder.py:55-57`) leaves a press timestamp with a zero event count, and a watchdog `stop` after a press has passed its guard (`app/kdyn/recorder.py:49`) lets that press be recorded after the stop.
- Logging is left out.
- `time.time()` is left out: every operation that reads it takes `now` as a parameter.
- Capture.Recorder.WatchdogTick: uses one `now` for both clock reads of a loop pass, where the source reads the clock twice.
- Analytics.Percentile: requires 0 <= p <= 1. Outside [0, 1] the source extrapolates, indexes negatively or raises IndexError, depending on (n-1)·p. Every caller passes 0.95.
- Analytics.Median: requires a non-empty sample. `statistics.median` raises on an empty one, and `aggregate` never passes one.
- Python floating-point rounding is left out. Arithmetic is exact over `real`, so the model says nothing about rounding error.
- Capture.Recorder.PressTimestampsMs: promises ascending timestamps and non-negative holds and latencies (`Chronological`) only while the times passed in never go back. The source makes no promise for a clock that jumps backwards.
- Attaching the capture source can fail. The model does not surface that failure from `start`, because the source does not.
- Apart from the assignment of the two limits before a start, which `Recorder.Configure` models, `app/kdyn/gui.py`, `app/kdyn/settings.py`, `app/kdyn/notify.py`, `app/kdyn/logging_conf.py`, `app/main.py` and the report writer are not part of this model. They are presentation, configuration, HTTP and file I/O around the core.
