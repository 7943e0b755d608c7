/** One per-minute OHLC record of the watcher's window, and the reductions
    the watcher's queries perform over a window of them. */
module Candles {

  /** A minute bucket. The source stores it as a dictionary whose keys
      "max" and "min" are the fields `high` and `low` here. */
  datatype Candle = Candle(open: int, high: int, low: int, close: int)

  /** The OHLC ordering: the opening and the closing price lie in [low, high]. */
  predicate WellFormed(c: Candle)
  {
    c.low <= c.open <= c.high && c.low <= c.close <= c.high
  }

  predicate AllWellFormed(s: seq<Candle>)
  {
    forall i :: 0 <= i < |s| ==> WellFormed(s[i])
  }

  function Last<T>(s: seq<T>): T
    requires s != []
  {
    s[|s| - 1]
  }

  function MaxOf(a: int, b: int): int { if a < b then b else a }

  function MinOf(a: int, b: int): int { if a < b then a else b }

  /** The candle a minute opens with: every field is the opening tick's price. */
  function Seed(price: int): (c: Candle)
    ensures WellFormed(c)
  {
    Candle(price, price, price, price)
  }

  /** A further tick of the same minute: the range widens to take in the
      price, the open stays, the price becomes the provisional close. */
  function Fold(c: Candle, price: int): (r: Candle)
    ensures r.open == c.open && r.close == price
    ensures c.high <= r.high && price <= r.high && (r.high == c.high || r.high == price)
    ensures r.low <= c.low && r.low <= price && (r.low == c.low || r.low == price)
    ensures WellFormed(c) ==> WellFormed(r)
  {
    c.(high := MaxOf(c.high, price), low := MinOf(c.low, price), close := price)
  }

  /** The greatest `high` of a non-empty window. */
  function MaxHigh(s: seq<Candle>): (m: int)
    requires s != []
    ensures exists i :: 0 <= i < |s| && s[i].high == m
    ensures forall i :: 0 <= i < |s| ==> s[i].high <= m
  {
    if |s| == 1 then s[0].high
    else
      var rest := MaxHigh(s[1..]);
      assert forall i :: 1 <= i < |s| ==> s[i] == s[1..][i - 1];
      if rest < s[0].high then s[0].high else rest
  }

  /** The least `low` of a non-empty window. */
  function MinLow(s: seq<Candle>): (m: int)
    requires s != []
    ensures exists i :: 0 <= i < |s| && s[i].low == m
    ensures forall i :: 0 <= i < |s| ==> m <= s[i].low
  {
    if |s| == 1 then s[0].low
    else
      var rest := MinLow(s[1..]);
      assert forall i :: 1 <= i < |s| ==> s[i] == s[1..][i - 1];
      if s[0].low < rest then s[0].low else rest
  }

  /** Over a window of well-formed candles the least low never exceeds the greatest high. */
  lemma MinLowAtMostMaxHigh(s: seq<Candle>)
    requires s != [] && AllWellFormed(s)
    ensures MinLow(s) <= MaxHigh(s)
  {
    assert WellFormed(s[0]);
  }

  /** Folding a price into the last candle moves the greatest high to the
      larger of the old greatest high and that price. */
  lemma MaxHighFoldLast(s: seq<Candle>, price: int)
    requires s != []
    ensures var t := s[..|s| - 1] + [Fold(Last(s), price)];
      MaxHigh(t) == if MaxHigh(s) < price then price else MaxHigh(s)
  {
    var n := |s|;
    var t := s[..n - 1] + [Fold(Last(s), price)];
    assert |t| == n && t[n - 1] == Fold(s[n - 1], price);
    assert forall i :: 0 <= i < n - 1 ==> t[i] == s[i];
    var i :| 0 <= i < n && s[i].high == MaxHigh(s);
    assert s[i].high <= t[i].high;
    var j :| 0 <= j < n && t[j].high == MaxHigh(t);
    assert t[j].high <= s[j].high || t[j].high == price;
  }

  /** Folding a price into the last candle moves the least low to the
      smaller of the old least low and that price. */
  lemma MinLowFoldLast(s: seq<Candle>, price: int)
    requires s != []
    ensures var t := s[..|s| - 1] + [Fold(Last(s), price)];
      MinLow(t) == if price < MinLow(s) then price else MinLow(s)
  {
    var n := |s|;
    var t := s[..n - 1] + [Fold(Last(s), price)];
    assert |t| == n && t[n - 1] == Fold(s[n - 1], price);
    assert forall i :: 0 <= i < n - 1 ==> t[i] == s[i];
    var i :| 0 <= i < n && s[i].low == MinLow(s);
    assert t[i].low <= s[i].low;
    var j :| 0 <= j < n && t[j].low == MinLow(t);
    assert s[j].low <= t[j].low || t[j].low == price;
  }
}
