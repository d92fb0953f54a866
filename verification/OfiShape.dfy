/** The order-flow signal in plain terms: what one tick adds to it, which way it trades, and how much. */
module OfiShape {
  import opened Messages
  import opened Ofi

  /** Pressure a bid adds: its size when the price has risen, the change in size when it stays, less the size that
      was there when it has fallen. */
  function BidPressure(p: int, q: int, p': int, q': int): int {
    if p' > p then q' else if p' == p then q' - q else -q
  }

  /** The flow of one tick is the pressure of the bid less that of the ask, where a falling ask presses down. */
  lemma IncrementIs(a: Top, b: Top)
    ensures
      var x: int, y: int := a.askPrice, b.askPrice;
      Increment(a, b) ==
      BidPressure(a.bidPrice, a.bidSize, b.bidPrice, b.bidSize) - BidPressure(-x, a.askSize, -y, b.askSize)
  {
  }

  /** A bid no lower and no smaller, against an ask no lower and no larger, never lowers the flow. */
  lemma MorePressure(a: Top, b: Top, c: Top)
    requires c.bidPrice >= b.bidPrice && c.bidSize >= b.bidSize && c.askPrice >= b.askPrice && c.askSize <= b.askSize
    ensures Increment(a, c) >= Increment(a, b)
  {
    IncrementIs(a, b);
    IncrementIs(a, c);
  }

  /** MAIN RESULT. The windowed flow buys at the ask exactly from 1500 upward and sells at the bid exactly from -1500
      downward; the lot is 100, from twice that strength 200, from three times 300. */
  lemma DecideIs(ofi: int, bid: nat, ask: nat)
    requires bid < 0x1_0000_0000 && ask < 0x1_0000_0000
    ensures
      var d := Decide(ofi, bid, ask);
      && (d.Some? && !d.value.sell <==> ofi >= 1500) && (d.Some? && d.value.sell <==> ofi <= -1500)
      && (ofi >= 1500 ==>
            d.value.price == ask && d.value.size == if ofi >= 4500 then 300 else if ofi >= 3000 then 200 else 100)
      && (ofi <= -1500 ==>
            d.value.price == bid && d.value.size == if ofi <= -4500 then 300 else if ofi <= -3000 then 200 else 100)
  {
  }

  /** With the two sides of the book exchanged in role, the flow is the opposite one. */
  lemma Opposite(a: Top, b: Top, a': Top, b': Top)
    requires a'.bidSize == a.askSize && a'.askSize == a.bidSize && b'.bidSize == b.askSize && b'.askSize == b.bidSize
    requires a'.bidPrice - b'.bidPrice == b.askPrice - a.askPrice
    requires a'.askPrice - b'.askPrice == b.bidPrice - a.bidPrice
    ensures Increment(a', b') == -Increment(a, b)
  {
  }

  /** MAIN RESULT. Over a whole stream: a tick is traded only when it and the one before are valid with a positive bid
      below the ask, and then as the last `window` flows of the stream add up, this tick's own the newest. */
  lemma StreamDecision(window: nat, ticks: seq<Tick>)
    requires window > 0 && ticks != []
    ensures
      var n := |ticks| - 1;
      var t, d := ticks[n], GoldenDecision(GoldenRun(window, ticks[..n]), ticks[n]);
      var open := n > 0 && forall k | n - 1 <= k <= n ::
                    ticks[k].valid && 0 < ticks[k].top.bidPrice < ticks[k].top.askPrice;
      if !open then d.None?
      else
        && Increments(ticks) == Increments(ticks[..n]) + [Increment(ticks[n - 1].top, t.top)]
        && d == Decide(Sum((seq(window, _ => 0) + Increments(ticks))[|Increments(ticks)|..]),
                       t.top.bidPrice, t.top.askPrice)
  {
    hide Decide, Sum, Increment;
    var n := |ticks| - 1;
    WindowIsLastIncrements(window, ticks[..n]);
    WindowIsLastIncrements(window, ticks);
  }
}
