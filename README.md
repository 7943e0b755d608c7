# Zaif price watcher: the per-minute candle window

This project models `ZaifWatcher`, the core of a small price-alert daemon for
the Zaif exchange. The daemon receives trade ticks over a WebSocket. It keeps
a window of OHLC candles (open, high, low, close): at most `minute_range`
candles, and at least one once a tick has arrived. A candle is opened each
time a tick's minute is later than the previous tick's minute, so a minute
with no tick gets no candle, and the window can span more minutes than it
holds candles. After every tick it raises an alert when the window's greatest price
divided by its least price exceeds a configured `ratio`.

The model has five modules:

- `Wrappers` (wrappers.dfy): `Option` and `Result`.
- `Candles` (candles.dfy): the `Candle` record. The source's dictionary keys
  "max" and "min" are the fields `high` and `low` here. The module also has
  the OHLC ordering `WellFormed`, the seeding and folding of a tick, and the
  reductions `MaxHigh` and `MinLow` with the facts proved about them.
- `Window` (window.dfy): the watcher's state as a value (`WatcherState`). It
  holds the update rule as a pure transition (`Step`), runs of several
  ticks (`Run`), the state invariant (`Valid`) and the lemmas that state
  what an update promises.
- `Watcher` (watcher.dfy): the class `ZaifWatcher`. Its fields are the
  source's own: `minuteRange`, `prices`, `lastTime` and `lastPrice`.
  `Update` changes them in place, in the same steps as the source. That
  includes setting the previous candle's close when a new minute starts, and
  the fold that runs right after the very first seeding. `Update` is proved
  to end in the state `Window.Step` describes. `Max`, `Min` and `IsAvailable`
  are read-only functions. Because they are functions, calling them again
  with no update in between returns the same value.
- `Alerting` (alerting.dfy): the alert test of the message handler, and the
  handler's critical section without its I/O (`OnMessage`).

Design points of the model:

- Prices and times are integers. A time is a whole minute, supplied by the
  caller.
- `Step` describes a new minute declaratively: append the seeded candle,
  then drop the oldest candle if the window holds more than `minuteRange`.
  The source also re-assigns the previous candle's close to `last_price`.
  `Valid` says the last candle always closes at `lastPrice`, so that
  re-assignment changes nothing. `ZaifWatcher.Update` carries out the
  re-assignment and proves it is a no-op.
- `lastPrice` is an `Option`. The source only creates the attribute on the
  first update.
- The capacity is `Capacity(minuteRange)`, which is `minuteRange` when that
  is at least 1 and 1 otherwise. Eviction happens only when a new minute
  starts. A non-positive `minute_range` therefore leaves a window of one
  candle. On such a window `is_available()` is true only for
  `minute_range == 0`, and only before the first tick
  (`Window.ZeroRangeNeverAvailable`).
- A tick whose minute is earlier than the previous one is not rejected. The
  test at main.py:71 sends it into the same-minute branch. So it is folded
  into the last candle, and `lastTime` moves back to its minute. As a
  result, a later tick of an already-seen minute opens a second candle for
  that minute. `Window.LateTickReopensMinute` shows this.
- The alert test is not gated on `is_available()`. `Alerting.ThinWindowAlerts`
  shows an alert from a window holding one candle.
- Python raises `ZeroDivisionError` when the least low is 0. The model
  returns `Failure(DivisionByZero)` in that case. A negative least low
  divides normally, as in Python.

## Model

| member | source | states |
|---|---|---|
| `Candles.Seed` | main.py:63-68 | the candle a minute opens with is well-formed (low <= open, close <= high) |
| `Candles.Fold` | main.py:87-91 | folding a price keeps the open, makes the price the close, makes high the larger and low the smaller of old value and price, and preserves well-formedness |
| `Candles.MaxHigh` | main.py:101 | the result is the `high` of some candle and at least every candle's `high` |
| `Candles.MinLow` | main.py:104 | the result is the `low` of some candle and at most every candle's `low` |
| `Candles.MinLowAtMostMaxHigh` | main.py:100-104 | on a non-empty window of well-formed candles, min() <= max() |
| `Candles.MaxHighFoldLast` | main.py:87-88 | folding a price into the last candle makes the greatest high the larger of the old greatest high and the price |
| `Candles.MinLowFoldLast` | main.py:87-89 | folding a price into the last candle makes the least low the smaller of the old least low and the price |
| `Window.Init` | main.py:55-58 | a new watcher has an empty window, no last time, and satisfies the invariant |
| `Window.Step` | main.py:60-94 | every update preserves the invariant: length within capacity, all candles well-formed, the last candle closing at `lastPrice`, empty exactly when no tick was seen; it records the tick's minute and price |
| `Window.Run` | main.py:60-94 | any sequence of updates keeps the invariant and leaves the last tick's minute and price recorded |
| `Window.FirstUpdate` | main.py:62-68 | the first update yields exactly one candle with open = high = low = close = price, and records the time and price |
| `Window.SameMinute` | main.py:86-91 | a tick not later than the last minute keeps the length and every candle but the last; the last keeps its open, takes high = max, low = min, close = price |
| `Window.SameMinuteQueries` | main.py:86-91 | after a same-minute tick, max() is the larger of the old max() and the price, and min() the smaller of the old min() and the price |
| `Window.NewMinute` | main.py:71-84 | a later minute appends exactly one seeded candle; the others are the old ones in order, less index 0 exactly when the window was at capacity; the previous candle closes at the price recorded before this tick |
| `Window.IsAvailable` | main.py:97-98 | on a valid state with a positive range, available exactly when the window is at capacity; never for a negative range |
| `Window.ZeroRangeNeverAvailable` | main.py:97-98 | with a range of zero, no update leaves the window available |
| `Window.AvailableStaysAvailable` | main.py:97-98 | with `minute_range >= 1`, once the window holds `minute_range` candles every later update keeps it so |
| `Window.SingleMinute` | main.py:86-91 | ticks confined to one minute leave one candle, opened at the first price and closed at the last, with max() and min() the greatest and least price seen |
| `Window.LateTickReopensMinute` | main.py:71-93 | an earlier-minute tick is folded into the last candle and moves the last time back, so the minute already seen gets a second candle |
| `Watcher.ZaifWatcher.constructor` | main.py:55-58 | the new object is in the initial state and valid |
| `Watcher.ZaifWatcher.Update` | main.py:60-94 | the in-place update, including the close re-assignment, keeps the object valid and ends in the state `Window.Step` gives for the old state |
| `Watcher.ZaifWatcher.IsAvailable` | main.py:97-98 | agrees with `Window.IsAvailable` on the object's state: on a valid watcher with a positive range, available exactly when the window is at capacity; never for a negative range |
| `Watcher.ZaifWatcher.Max` | main.py:100-101 | fails with EmptyWindow exactly on an empty window; otherwise the greatest high over all candles |
| `Watcher.ZaifWatcher.Min` | main.py:103-104 | fails with EmptyWindow exactly on an empty window; otherwise the least low over all candles |
| `Alerting.Alert` | main.py:41 | fails with EmptyWindow exactly on an empty window (max() is evaluated first); otherwise fails with DivisionByZero exactly when min() is 0; otherwise the strict comparison of max() / min() with the ratio |
| `Alerting.AlertScaled` | main.py:41 | with a positive min(), the alert fires exactly when max() > ratio * min() |
| `Alerting.AlertAfterUpdate` | main.py:40-41 | after any update the alert test never fails as empty; it fails only on a zero min() |
| `Alerting.AlertBelowOne` | main.py:41 | with positive prices and a ratio below 1, every tick alerts |
| `Alerting.ThinWindowAlerts` | main.py:40-41 | a window of one candle out of five can alert: the test is not gated on availability |
| `Alerting.EvictionScenario` | main.py:71-84 | with capacity 3 and ticks 100, 105 (minute 0), 108, 90, 80 (minutes 1-3) the oldest candle is evicted, max() = 108, min() = 80, and ratio 1.1 alerts |
| `Alerting.OnMessage` | main.py:40-41 | the handler updates the window and returns exactly the alert decision, which is never EmptyWindow |

## Left out

- The WebSocket connection, `run_forever` and the open/close/error logging callbacks (main.py:18-34, 50-51): network I/O.
- Loading `setting.json` and building the waker URL (main.py:14-16): file I/O and configuration; `minute_range` and `ratio` are parameters.
- The `requests.post` to the waker service (main.py:42-47): an outbound HTTP call. Only the boolean decision is modelled.
- The `Lock` around the handler (main.py:23, 37, 48): concurrency. The critical section is modelled as one sequential call. In the source, an exception from `max()`, `min()` or the division leaves that lock held.
- `json.loads` of the message and `datetime.now().replace(...)` (main.py:38-39): parsing and the wall clock. The handler takes an integer price and an integer minute.
- Floating point: prices are integers and the ratio test is exact real division, with no rounding.
- `Candles.MaxHigh`, `Candles.MinLow`: they return the extreme value. Python's `max`/`min` with `key` returns the first candle that attains it, then reads the field, which gives the same number.
