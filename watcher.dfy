/** The watcher object: a window of per-minute candles that `Update` changes
    in place, and the read-only queries over it. */
module Watcher {
  import opened Wrappers
  import opened Candles
  import opened Window

  class ZaifWatcher {
    const minuteRange: int
    var prices: seq<Candle>
    var lastTime: Option<int>
    var lastPrice: Option<int>

    /** The fields as a value of the pure model. */
    function State(): WatcherState
      reads this
    {
      WatcherState(minuteRange, prices, lastTime, lastPrice)
    }

    ghost predicate Valid()
      reads this
    {
      Window.Valid(State())
    }

    constructor (minuteRange: int)
      ensures Valid() && State() == Init(minuteRange)
    {
      this.minuteRange := minuteRange;
      lastTime := None;
      prices := [];
      lastPrice := None;
    }

    /** The update in the source's own steps: seed on the first call; on a
        later minute append, close the previous candle at the last recorded
        price and evict the oldest candle if there are too many; otherwise
        (also right after seeding) fold the price into the last candle. */
    method Update(price: int, time: int)
      requires Valid()
      modifies this
      ensures Valid()
      ensures State() == Step(old(State()), price, time)
    {
      if lastTime == None {
        prices := prices + [Seed(price)];
      }
      if lastTime != None && lastTime.value < time {
        prices := prices + [Seed(price)];
        var n := |prices|;
        // the previous candle already closes at lastPrice, so this leaves it as it was
        assert prices[n - 2].close == lastPrice.value;
        prices := prices[n - 2 := prices[n - 2].(close := lastPrice.value)];
        if minuteRange < |prices| {
          prices := prices[1..];
        }
      } else {
        var n := |prices|;
        prices := prices[n - 1 := Fold(prices[n - 1], price)];
      }
      lastTime := Some(time);
      lastPrice := Some(price);
    }

    /** Whether the window holds exactly `minuteRange` candles. */
    function IsAvailable(): (b: bool)
      reads this
      ensures b <==> Window.IsAvailable(State())
      ensures Valid() && 1 <= minuteRange ==> (b <==> |prices| == Capacity(minuteRange))
      ensures minuteRange < 0 ==> !b
    {
      minuteRange == |prices|
    }

    /** The greatest high of the window; an empty window raises. */
    function Max(): (r: Result<int, WindowError>)
      reads this
      ensures r.Failure? <==> prices == []
      ensures r.Failure? ==> r.error == EmptyWindow
      ensures r.Success? ==> exists i :: 0 <= i < |prices| && prices[i].high == r.value
      ensures r.Success? ==> forall i :: 0 <= i < |prices| ==> prices[i].high <= r.value
    {
      if prices == [] then Failure(EmptyWindow) else Success(MaxHigh(prices))
    }

    /** The least low of the window; an empty window raises. */
    function Min(): (r: Result<int, WindowError>)
      reads this
      ensures r.Failure? <==> prices == []
      ensures r.Failure? ==> r.error == EmptyWindow
      ensures r.Success? ==> exists i :: 0 <= i < |prices| && prices[i].low == r.value
      ensures r.Success? ==> forall i :: 0 <= i < |prices| ==> r.value <= prices[i].low
    {
      if prices == [] then Failure(EmptyWindow) else Success(MinLow(prices))
    }
  }
}
