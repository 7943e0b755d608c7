/** The watcher's state as a value, and the update rule as a pure transition
    on it. The class in module Watcher is proved to follow this transition;
    the lemmas here state what the update promises. */
module Window {
  import opened Wrappers
  import opened Candles

  /** `minuteRange` is the configured window length, `prices` the candles
      oldest first, `lastTime` the minute of the previous tick (None before
      the first one) and `lastPrice` its price (unset before the first one). */
  datatype WatcherState = WatcherState(
    minuteRange: int,
    prices: seq<Candle>,
    lastTime: Option<int>,
    lastPrice: Option<int>)

  /** The errors the queries raise: `max`/`min` over an empty window, and the
      division of the alert test by a least low of zero. */
  datatype WindowError = EmptyWindow | DivisionByZero

  /** One tick as the handler hands it over: a price and a whole minute. */
  datatype Tick = Tick(price: int, minute: int)

  /** How many candles the window can hold: a new minute evicts once there
      are more than `minuteRange`, and the newest candle is never evicted. */
  function Capacity(minuteRange: int): nat
  {
    if minuteRange < 1 then 1 else minuteRange
  }

  /** What holds of every state the watcher reaches. */
  predicate Valid(s: WatcherState)
  {
    && (s.lastTime.None? <==> s.prices == [])
    && (s.lastPrice.None? <==> s.prices == [])
    && |s.prices| <= Capacity(s.minuteRange)
    && AllWellFormed(s.prices)
    && (s.prices != [] ==> Last(s.prices).close == s.lastPrice.value)
  }

  /** The state the constructor creates. */
  function Init(minuteRange: int): (s: WatcherState)
    ensures Valid(s)
    ensures s.minuteRange == minuteRange && s.prices == [] && s.lastTime.None?
  {
    WatcherState(minuteRange, [], None, None)
  }

  /** A new minute: append its candle, then drop the oldest candle if the
      window has grown past `minuteRange`. */
  function Roll(prices: seq<Candle>, c: Candle, minuteRange: int): seq<Candle>
  {
    var grown := prices + [c];
    if minuteRange < |grown| then grown[1..] else grown
  }

  /** The same minute: fold the price into the last candle. */
  function FoldLast(prices: seq<Candle>, price: int): seq<Candle>
    requires prices != []
  {
    prices[..|prices| - 1] + [Fold(Last(prices), price)]
  }

  /** The update rule: the first tick seeds the window, a later minute rolls
      it, and any other tick (same minute, or an earlier one) folds into the
      last candle; the tick's minute and price are recorded in every case. */
  function Step(s: WatcherState, price: int, time: int): (r: WatcherState)
    requires Valid(s)
    ensures Valid(r)
    ensures r.minuteRange == s.minuteRange
    ensures r.lastTime == Some(time) && r.lastPrice == Some(price)
  {
    var prices :=
      if s.lastTime.None? then [Seed(price)]
      else if s.lastTime.value < time then Roll(s.prices, Seed(price), s.minuteRange)
      else FoldLast(s.prices, price);
    assert AllWellFormed(prices) by {
      if s.lastTime.Some? && s.lastTime.value < time {
        var grown := s.prices + [Seed(price)];
        assert AllWellFormed(grown);
        assert forall i :: 0 <= i < |grown| - 1 ==> grown[1..][i] == grown[i + 1];
      } else if s.lastTime.Some? {
        assert forall i :: 0 <= i < |s.prices| - 1 ==> prices[i] == s.prices[i];
        assert WellFormed(Last(s.prices));
      }
    }
    WatcherState(s.minuteRange, prices, Some(time), Some(price))
  }

  /** The state after a sequence of ticks, the last tick applied last. */
  function Run(s: WatcherState, ticks: seq<Tick>): (r: WatcherState)
    requires Valid(s)
    ensures Valid(r) && r.minuteRange == s.minuteRange
    ensures ticks != [] ==> r.lastTime == Some(Last(ticks).minute) && r.lastPrice == Some(Last(ticks).price)
    decreases |ticks|
  {
    if ticks == [] then s
    else Step(Run(s, ticks[..|ticks| - 1]), Last(ticks).price, Last(ticks).minute)
  }

  /** Running one more tick is one more step. */
  lemma RunSnoc(s: WatcherState, ticks: seq<Tick>, t: Tick)
    requires Valid(s)
    ensures Run(s, ticks + [t]) == Step(Run(s, ticks), t.price, t.minute)
  {
    assert (ticks + [t])[..|ticks|] == ticks;
  }

  /** The fullness check: exactly `minuteRange` candles. On a reachable
      state with a positive range that is a window at capacity; a negative
      range is never available. */
  function IsAvailable(s: WatcherState): (b: bool)
    ensures Valid(s) && 1 <= s.minuteRange ==> (b <==> |s.prices| == Capacity(s.minuteRange))
    ensures s.minuteRange < 0 ==> !b
  {
    s.minuteRange == |s.prices|
  }

  /** The greatest price among a non-empty sequence of ticks. */
  function MaxPrice(ticks: seq<Tick>): int
    requires ticks != []
  {
    if |ticks| == 1 then ticks[0].price else MaxOf(MaxPrice(ticks[..|ticks| - 1]), Last(ticks).price)
  }

  /** The least price among a non-empty sequence of ticks. */
  function MinPrice(ticks: seq<Tick>): int
    requires ticks != []
  {
    if |ticks| == 1 then ticks[0].price else MinOf(MinPrice(ticks[..|ticks| - 1]), Last(ticks).price)
  }

  /** The first tick yields one candle whose four fields are its price. */
  lemma FirstUpdate(minuteRange: int, price: int, time: int)
    ensures Step(Init(minuteRange), price, time)
      == WatcherState(minuteRange, [Candle(price, price, price, price)], Some(time), Some(price))
  {
  }

  /** A tick whose minute is not later than the previous one keeps the length
      and every candle but the last; the last keeps its open, its high and low
      widen to the price and its close becomes the price. */
  lemma SameMinute(s: WatcherState, price: int, time: int)
    requires Valid(s) && s.lastTime.Some? && time <= s.lastTime.value
    ensures var before := s.prices; var after := Step(s, price, time).prices;
      && |after| == |before|
      && after[..|after| - 1] == before[..|before| - 1]
      && Last(after).open == Last(before).open
      && Last(after).high == MaxOf(Last(before).high, price)
      && Last(after).low == MinOf(Last(before).low, price)
      && Last(after).close == price
  {
    var after := Step(s, price, time).prices;
    assert after[..|after| - 1] == s.prices[..|s.prices| - 1];
  }

  /** Within a minute the queries track the tick: the greatest high becomes
      the larger of itself and the price, the least low the smaller. */
  lemma SameMinuteQueries(s: WatcherState, price: int, time: int)
    requires Valid(s) && s.lastTime.Some? && time <= s.lastTime.value
    ensures var after := Step(s, price, time).prices;
      && MaxHigh(after) == MaxOf(MaxHigh(s.prices), price)
      && MinLow(after) == MinOf(MinLow(s.prices), price)
  {
    MaxHighFoldLast(s.prices, price);
    MinLowFoldLast(s.prices, price);
  }

  /** A later minute appends exactly one candle seeded with the price; the
      candles before it are the old ones in order, less the oldest exactly
      when the window had grown past `minuteRange`; the candle before the new
      one closes at the price recorded before this tick. */
  lemma NewMinute(s: WatcherState, price: int, time: int)
    requires Valid(s) && s.lastTime.Some? && s.lastTime.value < time
    ensures var before := s.prices; var after := Step(s, price, time).prices;
      var evicted := if s.minuteRange < |before| + 1 then 1 else 0;
      && Last(after) == Seed(price)
      && |after| == |before| + 1 - evicted
      && after[..|after| - 1] == before[evicted..]
      && (evicted == 1 <==> |before| == Capacity(s.minuteRange))
      && (|after| >= 2 ==> after[|after| - 2].close == s.lastPrice.value)
  {
    var before := s.prices;
    var after := Step(s, price, time).prices;
    var grown := before + [Seed(price)];
    if s.minuteRange < |grown| {
      assert after == grown[1..];
      assert after[..|after| - 1] == before[1..];
    } else {
      assert after[..|after| - 1] == before;
    }
  }

  /** Once the window is full, every tick keeps it full: a new minute evicts
      exactly one candle for the one it adds. */
  lemma AvailableStaysAvailable(s: WatcherState, price: int, time: int)
    requires Valid(s) && s.minuteRange >= 1 && IsAvailable(s)
    ensures IsAvailable(Step(s, price, time))
  {
    if s.lastTime.Some? && s.lastTime.value < time {
      NewMinute(s, price, time);
    }
  }

  /** With a range of zero the window is available only before the first
      tick: every update leaves one candle. */
  lemma ZeroRangeNeverAvailable(s: WatcherState, price: int, time: int)
    requires Valid(s) && s.minuteRange == 0
    ensures !IsAvailable(Step(s, price, time))
  {
  }

  /** Ticks confined to one minute leave exactly one candle, opened at the
      first price, closed at the last, whose high and low are the greatest
      and least price seen. */
  lemma {:induction false} SingleMinute(minuteRange: int, ticks: seq<Tick>, t: int)
    requires ticks != []
    requires forall i :: 0 <= i < |ticks| ==> ticks[i].minute == t
    ensures var r := Run(Init(minuteRange), ticks);
      && |r.prices| == 1
      && r.prices[0].open == ticks[0].price
      && r.prices[0].close == Last(ticks).price
      && MaxHigh(r.prices) == MaxPrice(ticks)
      && MinLow(r.prices) == MinPrice(ticks)
  {
    var init := Init(minuteRange);
    if |ticks| == 1 {
      assert ticks[..0] == [];
      assert Run(init, ticks) == Step(init, ticks[0].price, ticks[0].minute);
    } else {
      var prefix := ticks[..|ticks| - 1];
      assert forall i :: 0 <= i < |prefix| ==> prefix[i] == ticks[i];
      SingleMinute(minuteRange, prefix, t);
      var before := Run(init, prefix);
      assert before.lastTime == Some(t);
      SameMinute(before, Last(ticks).price, Last(ticks).minute);
    }
  }

  /** A tick whose minute is earlier than the previous one is folded into the
      last candle and moves `lastTime` back, so a later tick of the minute
      already seen opens a second candle for it: three ticks over two
      minutes leave two candles, the first carrying the early tick. */
  lemma LateTickReopensMinute()
    ensures var r := Run(Init(5), [Tick(10, 5), Tick(20, 4), Tick(30, 5)]);
      r.prices == [Candle(10, 20, 10, 20), Seed(30)] && r.lastTime == Some(5)
  {
    var s0 := Init(5);
    assert Run(s0, []) == s0;
    RunSnoc(s0, [], Tick(10, 5));
    RunSnoc(s0, [Tick(10, 5)], Tick(20, 4));
    RunSnoc(s0, [Tick(10, 5), Tick(20, 4)], Tick(30, 5));
    var s1 := Step(s0, 10, 5);
    var s2 := Step(s1, 20, 4);
    assert s2.prices == [Candle(10, 20, 10, 20)];
  }
}
