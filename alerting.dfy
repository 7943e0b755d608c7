/** The alert decision of the tick handler: after the update, alert when the
    window's greatest high divided by its least low exceeds the ratio. */
module Alerting {
  import opened Wrappers
  import opened Candles
  import opened Window
  import opened Watcher

  /** The quotient of the two queries exceeds the ratio. */
  function Exceeds(hi: int, lo: int, ratio: real): bool
    requires lo != 0
  {
    (hi as real) / (lo as real) > ratio
  }

  /** The test `max() / min() > ratio`: `max()` is evaluated first, so an
      empty window fails as empty; a least low of zero fails the division. */
  function Alert(s: WatcherState, ratio: real): (r: Result<bool, WindowError>)
    ensures r == Failure(EmptyWindow) <==> s.prices == []
    ensures s.prices != [] ==> (r == Failure(DivisionByZero) <==> MinLow(s.prices) == 0)
    ensures r.Success? ==> (r.value <==> Exceeds(MaxHigh(s.prices), MinLow(s.prices), ratio))
  {
    if s.prices == [] then Failure(EmptyWindow)
    else if MinLow(s.prices) == 0 then Failure(DivisionByZero)
    else Success(Exceeds(MaxHigh(s.prices), MinLow(s.prices), ratio))
  }

  /** Dividing by a positive number and comparing is comparing the scaled bound. */
  lemma DivExceeds(hi: real, lo: real, ratio: real)
    requires lo > 0.0
    ensures hi / lo > ratio <==> hi > ratio * lo
  {
    var q := hi / lo;
    assert q * lo == hi;
    if q > ratio {
      assert (q - ratio) * lo > 0.0;
    } else {
      assert (ratio - q) * lo >= 0.0;
    }
  }

  /** With a positive least low the test is the division-free comparison
      `max > ratio * min`. */
  lemma AlertScaled(s: WatcherState, ratio: real)
    requires s.prices != [] && MinLow(s.prices) > 0
    ensures Alert(s, ratio) == Success(MaxHigh(s.prices) as real > ratio * MinLow(s.prices) as real)
  {
    DivExceeds(MaxHigh(s.prices) as real, MinLow(s.prices) as real, ratio);
  }

  /** After any update the window is non-empty, so the test never fails as
      empty; it fails only when the least low is zero. */
  lemma AlertAfterUpdate(s: WatcherState, price: int, time: int, ratio: real)
    requires Window.Valid(s)
    ensures var r := Step(s, price, time);
      Alert(r, ratio).Failure? <==> MinLow(r.prices) == 0
  {
  }

  /** With positive prices and a ratio below one, every tick alerts. */
  lemma AlertBelowOne(s: WatcherState, ratio: real)
    requires Window.Valid(s) && s.prices != [] && MinLow(s.prices) > 0 && ratio < 1.0
    ensures Alert(s, ratio) == Success(true)
  {
    MinLowAtMostMaxHigh(s.prices);
    AlertScaled(s, ratio);
    assert ratio * (MinLow(s.prices) as real) < MinLow(s.prices) as real;
  }

  /** The alert test is not gated on a full window: two ticks of one minute,
      100 then 120, alert at ratio 1.1 with one candle of five. */
  lemma ThinWindowAlerts()
    ensures var r := Run(Init(5), [Tick(100, 0), Tick(120, 0)]);
      !IsAvailable(r) && Alert(r, 1.1) == Success(true)
  {
    var s0 := Init(5);
    assert Run(s0, []) == s0;
    RunSnoc(s0, [], Tick(100, 0));
    RunSnoc(s0, [Tick(100, 0)], Tick(120, 0));
    assert [] + [Tick(100, 0)] == [Tick(100, 0)] && [Tick(100, 0)] + [Tick(120, 0)] == [Tick(100, 0), Tick(120, 0)];
    var r := Step(Step(s0, 100, 0), 120, 0);
    assert r.prices == [Candle(100, 120, 100, 120)];
    DivExceeds(120.0, 100.0, 1.1);
  }

  /** The window of the scenario below, one step at a time. */
  lemma ScenarioSteps()
    ensures var s2 := Step(Step(Init(3), 100, 0), 105, 0);
      s2.prices == [Candle(100, 105, 100, 105)] && s2.lastTime == Some(0) && s2.lastPrice == Some(105)
    ensures var s3 := Step(Step(Step(Init(3), 100, 0), 105, 0), 108, 1);
      var s4 := Step(s3, 90, 2);
      s4.prices == [Candle(100, 105, 100, 105), Seed(108), Seed(90)]
      && Step(s4, 80, 3).prices == [Seed(108), Seed(90), Seed(80)]
  {
    var s2 := Step(Step(Init(3), 100, 0), 105, 0);
    var s3 := Step(s2, 108, 1);
    assert s3.prices == [Candle(100, 105, 100, 105), Seed(108)];
    var s4 := Step(s3, 90, 2);
    assert s4.prices == [Candle(100, 105, 100, 105), Seed(108), Seed(90)];
  }

  /** The run of the scenario below is its five steps in order. */
  lemma ScenarioRun()
    ensures Run(Init(3), [Tick(100, 0), Tick(105, 0), Tick(108, 1), Tick(90, 2), Tick(80, 3)])
      == Step(Step(Step(Step(Step(Init(3), 100, 0), 105, 0), 108, 1), 90, 2), 80, 3)
  {
    var s0 := Init(3);
    var t1, t2, t3 := Tick(100, 0), Tick(105, 0), Tick(108, 1);
    var t4, t5 := Tick(90, 2), Tick(80, 3);
    assert Run(s0, []) == s0;
    assert [] + [t1] == [t1] && [t1] + [t2] == [t1, t2] && [t1, t2] + [t3] == [t1, t2, t3];
    assert [t1, t2, t3] + [t4] == [t1, t2, t3, t4] && [t1, t2, t3, t4] + [t5] == [t1, t2, t3, t4, t5];
    RunSnoc(s0, [], t1);
    RunSnoc(s0, [t1], t2);
    RunSnoc(s0, [t1, t2], t3);
    RunSnoc(s0, [t1, t2, t3], t4);
    RunSnoc(s0, [t1, t2, t3, t4], t5);
  }

  /** Capacity 3, ticks 100 and 105 at minute 0, then 108, 90 and 80 at
      minutes 1, 2, 3: the candle of minute 0 is evicted, the window holds
      the candles of minutes 1 to 3, its greatest high is 108, its least low
      80, and 108 / 80 > 1.1 alerts. */
  lemma EvictionScenario()
    ensures var r := Run(Init(3), [Tick(100, 0), Tick(105, 0), Tick(108, 1), Tick(90, 2), Tick(80, 3)]);
      && r.prices == [Seed(108), Seed(90), Seed(80)]
      && IsAvailable(r)
      && MaxHigh(r.prices) == 108 && MinLow(r.prices) == 80
      && Alert(r, 1.1) == Success(true)
  {
    ScenarioRun();
    ScenarioSteps();
    var r := Run(Init(3), [Tick(100, 0), Tick(105, 0), Tick(108, 1), Tick(90, 2), Tick(80, 3)]);
    assert r.prices == [Seed(108), Seed(90), Seed(80)];
    assert MaxHigh(r.prices) == 108 && MinLow(r.prices) == 80;
    DivExceeds(108.0, 80.0, 1.1);
  }

  /** The handler's critical section without its transport and alert call:
      update the window with the tick, then decide. */
  method OnMessage(zw: ZaifWatcher, price: int, minute: int, ratio: real) returns (alert: Result<bool, WindowError>)
    requires zw.Valid()
    modifies zw
    ensures zw.Valid() && zw.State() == Step(old(zw.State()), price, minute)
    ensures alert == Alert(zw.State(), ratio)
    ensures alert != Failure(EmptyWindow)
  {
    zw.Update(price, minute);
    ghost var after := zw.State();
    assert after.prices != [];
    var hi := zw.Max();
    var lo := zw.Min();
    // the window is non-empty after an update, so neither query raises
    assert hi == Success(MaxHigh(after.prices)) && lo == Success(MinLow(after.prices));
    if lo.value == 0 {
      alert := Failure(DivisionByZero);
    } else {
      alert := Success(Exceeds(hi.value, lo.value, ratio));
    }
  }
}
