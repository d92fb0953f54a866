/** Average-cost books over exact money: one position, the strategy legs that share an instrument, and
    the conservation law behind both. Quantities and money are reals; a share count is a whole one. */
module Accounting {

  function AbsR(x: real): (r: real)
    ensures r >= 0.0 && (r == x || r == 0.0 - x)
  {
    if x >= 0.0 then x else 0.0 - x
  }

  function MinR(x: real, y: real): real { if x <= y then x else y }
  function MaxR(x: real, y: real): real { if x >= y then x else y }

  /** Signed quantity, average entry price of what is open, and profit already booked. */
  datatype Position = Position(qty: real, avg: real, realized: real)

  const FLAT := Position(0.0, 0.0, 0.0)

  function Unrealized(p: Position, mark: real): real { p.qty * (mark - p.avg) }

  /** Profit booked and open. */
  function Worth(p: Position, mark: real): real { p.realized + Unrealized(p, mark) }

  /** Profit booked less the cost of what is open. */
  function Balance(p: Position): real { p.realized - p.qty * p.avg }

  /** Opening, or adding on the side already held. */
  predicate Adds(p: Position, signed: real) { p.qty == 0.0 || (p.qty > 0.0) == (signed > 0.0) }

  predicate SameSide(a: real, b: real) { (a > 0.0 && b > 0.0) || (a < 0.0 && b < 0.0) }

  /** What a fill must do: the shares and the cash move, profit is booked only by closing, closing part
      of a position leaves its average entry price alone, closing all of it clears that price, and
      flipping through zero opens at the fill price. */
  predicate FillOutcome(p: Position, signed: real, price: real, p': Position) {
    && p'.qty == p.qty + signed
    && Balance(p') == Balance(p) - signed * price
    && (Adds(p, signed) ==> p'.realized == p.realized)
    && (!Adds(p, signed) ==>
      p'.avg == if p'.qty == 0.0 then 0.0 else if SameSide(p'.qty, p.qty) then p.avg else price)
  }

  /** The part of a position, signed like it, that an opposite fill closes. */
  function Closing(p: Position, signed: real): real {
    if AbsR(signed) <= AbsR(p.qty) then 0.0 - signed else p.qty
  }

  function Gain(perShare: real, shares: real): real { perShare * shares }

  /** The average-cost arithmetic; undefined when flat and filling nothing, where it divides by zero. */
  function AverageCost(p: Position, signed: real, price: real): Position
    requires p.qty != 0.0 || signed != 0.0
  {
    var qty := p.qty + signed;
    if Adds(p, signed) then Position(qty, (p.avg * p.qty + price * signed) / qty, p.realized)
    else
      Position(qty, if qty == 0.0 then 0.0 else if (qty > 0.0) == (p.qty > 0.0) then p.avg else price,
               p.realized + Gain(price - p.avg, Closing(p, signed)))
  }

  lemma Quotient(x: real, y: real)
    requires y != 0.0
    ensures y * (x / y) == x
  {
  }

  lemma BlendedCost(p: Position, signed: real, price: real)
    requires (p.qty != 0.0 || signed != 0.0) && Adds(p, signed)
    ensures FillOutcome(p, signed, price, AverageCost(p, signed, price))
  {
    var p' := AverageCost(p, signed, price);
    Quotient(p.avg * p.qty + price * signed, p'.qty);
  }

  lemma ClosedPart(p: Position, signed: real, price: real)
    requires !Adds(p, signed)
    ensures FillOutcome(p, signed, price, AverageCost(p, signed, price))
  {
    if AbsR(signed) <= AbsR(p.qty) {
      assert (price - p.avg) * (0.0 - signed) == p.avg * signed - price * signed;
    } else {
      assert (price - p.avg) * p.qty == price * p.qty - p.avg * p.qty;
    }
  }

  /** Two outcomes of the same fill are the same position. */
  lemma OutcomeUnique(p: Position, signed: real, price: real, x: Position, y: Position)
    requires p.qty != 0.0 || signed != 0.0
    requires FillOutcome(p, signed, price, x) && FillOutcome(p, signed, price, y)
    ensures x == y
  {
    if Adds(p, signed) {
      assert x.realized == y.realized && x.qty == y.qty != 0.0;
      Cancel(x.qty, x.avg, y.avg);
    }
  }

  lemma Cancel(k: real, x: real, y: real)
    requires k != 0.0 && k * x == k * y
    ensures x == y
  {
    assert k * (x - y) == 0.0;
  }

  lemma AverageCostMeets(p: Position, signed: real, price: real)
    requires p.qty != 0.0 || signed != 0.0
    ensures FillOutcome(p, signed, price, AverageCost(p, signed, price))
  {
    if Adds(p, signed) {
      BlendedCost(p, signed, price);
    } else {
      ClosedPart(p, signed, price);
    }
  }

  /** MAIN RESULT. The average-cost arithmetic does what a fill must do, and nothing else does. */
  lemma AverageCostIff(p: Position, signed: real, price: real, p': Position)
    requires p.qty != 0.0 || signed != 0.0
    ensures FillOutcome(p, signed, price, p') <==> p' == AverageCost(p, signed, price)
  {
    AverageCostMeets(p, signed, price);
    if FillOutcome(p, signed, price, p') {
      OutcomeUnique(p, signed, price, p', AverageCost(p, signed, price));
    }
  }

  /** The position after a fill: the one outcome there is. */
  ghost function Filled(p: Position, signed: real, price: real): (p': Position)
    requires p.qty != 0.0 || signed != 0.0
    ensures FillOutcome(p, signed, price, p')
  {
    AverageCostMeets(p, signed, price);
    var p' :| FillOutcome(p, signed, price, p');
    p'
  }

  lemma FilledIsAverageCost(p: Position, signed: real, price: real)
    requires p.qty != 0.0 || signed != 0.0
    ensures Filled(p, signed, price) == AverageCost(p, signed, price)
  {
    AverageCostIff(p, signed, price, Filled(p, signed, price));
  }

  // ---- runs --------------------------------------------------------------------------------------

  /** One fill of one instrument, credited to the leg whose strategy asked for it. */
  datatype Fill = Fill(leg: nat, signed: real, price: real)

  /** A leg skips a zero fill while flat, where the account's book would divide by zero. */
  ghost function LegFilled(p: Position, signed: real, price: real): Position {
    if p.qty == 0.0 && signed == 0.0 then p else Filled(p, signed, price)
  }

  function Bought(fills: seq<Fill>): real {
    if fills == [] then 0.0 else Bought(fills[..|fills| - 1]) + fills[|fills| - 1].signed
  }

  /** Money received less money paid. */
  function Cash(fills: seq<Fill>): real {
    if fills == [] then 0.0
    else Cash(fills[..|fills| - 1]) - fills[|fills| - 1].signed * fills[|fills| - 1].price
  }

  ghost function Held(fills: seq<Fill>): Position {
    if fills == [] then FLAT
    else LegFilled(Held(fills[..|fills| - 1]), fills[|fills| - 1].signed, fills[|fills| - 1].price)
  }

  /** One fill moves quantity and cash, whatever branch it takes. */
  lemma FillConserves(p: Position, signed: real, price: real)
    ensures
      var p' := LegFilled(p, signed, price);
      p'.qty == p.qty + signed && Balance(p') == Balance(p) - signed * price
  {
  }

  lemma {:induction false} Conserved(fills: seq<Fill>)
    ensures Held(fills).qty == Bought(fills) && Balance(Held(fills)) == Cash(fills)
  {
    if fills != [] {
      var before, i := fills[..|fills| - 1], fills[|fills| - 1];
      Conserved(before);
      FillConserves(Held(before), i.signed, i.price);
    }
  }

  lemma WorthSplits(p: Position, mark: real)
    ensures Worth(p, mark) == Balance(p) + p.qty * mark
  {
    assert p.qty * (mark - p.avg) == p.qty * mark - p.qty * p.avg;
  }

  /** MAIN RESULT. Through any adds, closes and flips through zero, the holding is what was bought,
      booked profit less the cost of what is open is the cash flow, and so profit at any mark is the
      cash plus the holding at that mark. */
  lemma {:induction false} ProfitIsCashFlow(fills: seq<Fill>, mark: real)
    ensures Held(fills).qty == Bought(fills) && Balance(Held(fills)) == Cash(fills)
    ensures Worth(Held(fills), mark) == Cash(fills) + Held(fills).qty * mark
  {
    hide Held, Cash, Bought, Worth, Balance;
    Conserved(fills);
    WorthSplits(Held(fills), mark);
  }

  // ---- legs of one instrument -----------------------------------------------------------------------

  /** A leg reports no open profit at mark zero, which it takes for "no mark". */
  function LegUnrealized(p: Position, mark: real): real {
    if p.qty == 0.0 || mark == 0.0 then 0.0
    else if p.qty > 0.0 then (mark - p.avg) * p.qty
    else (p.avg - mark) * AbsR(p.qty)
  }

  function LegWorth(p: Position, mark: real): real { p.realized + LegUnrealized(p, mark) }

  function LegsWorth(legs: seq<Position>, mark: real): real {
    if legs == [] then 0.0 else LegsWorth(legs[1..], mark) + LegWorth(legs[0], mark)
  }

  function LegsQty(legs: seq<Position>): real {
    if legs == [] then 0.0 else LegsQty(legs[1..]) + legs[0].qty
  }

  function LegsBalance(legs: seq<Position>): real {
    if legs == [] then 0.0 else LegsBalance(legs[1..]) + Balance(legs[0])
  }

  /** What the open holdings of the legs cost. */
  function LegsCost(legs: seq<Position>): real {
    if legs == [] then 0.0 else LegsCost(legs[1..]) + legs[0].qty * legs[0].avg
  }

  /** The legs after these fills, each fill booked by its own leg. */
  ghost function Legs(fills: seq<Fill>, n: nat): (legs: seq<Position>)
    requires forall i <- fills :: i.leg < n
    ensures |legs| == n
  {
    if fills == [] then seq(n, _ => FLAT)
    else
      var before, i := Legs(fills[..|fills| - 1], n), fills[|fills| - 1];
      before[i.leg := LegFilled(before[i.leg], i.signed, i.price)]
  }

  lemma {:induction false} LegReplaced(legs: seq<Position>, k: nat, p: Position)
    requires k < |legs|
    ensures LegsQty(legs[k := p]) == LegsQty(legs) - legs[k].qty + p.qty
    ensures LegsBalance(legs[k := p]) == LegsBalance(legs) - Balance(legs[k]) + Balance(p)
  {
    if k == 0 {
      assert legs[k := p][1..] == legs[1..];
    } else {
      LegReplaced(legs[1..], k - 1, p);
      assert legs[k := p][1..] == legs[1..][k - 1 := p];
    }
  }

  lemma {:induction false} AllFlat(n: nat)
    ensures LegsQty(seq(n, _ => FLAT)) == 0.0 && LegsBalance(seq(n, _ => FLAT)) == 0.0
  {
    if n > 0 {
      AllFlat(n - 1);
      assert seq(n, _ => FLAT)[1..] == seq(n - 1, _ => FLAT);
    }
  }

  lemma LegQtyStep(legs: seq<Position>, p: Position, i: Fill)
    requires i.leg < |legs| && LegsQty(legs) == p.qty
    ensures LegsQty(legs[i.leg := LegFilled(legs[i.leg], i.signed, i.price)]) == LegFilled(p, i.signed, i.price).qty
  {
    LegReplaced(legs, i.leg, LegFilled(legs[i.leg], i.signed, i.price));
  }

  lemma LegBalanceStep(legs: seq<Position>, p: Position, i: Fill)
    requires i.leg < |legs| && LegsBalance(legs) == Balance(p)
    ensures
      LegsBalance(legs[i.leg := LegFilled(legs[i.leg], i.signed, i.price)]) == Balance(LegFilled(p, i.signed, i.price))
  {
    var leg := legs[i.leg];
    LegReplaced(legs, i.leg, LegFilled(leg, i.signed, i.price));
    FillConserves(leg, i.signed, i.price);
    FillConserves(p, i.signed, i.price);
  }

  /** Splitting the fills among legs loses no shares and no cash. */
  lemma {:induction false} LegTotals(fills: seq<Fill>, n: nat)
    requires forall i <- fills :: i.leg < n
    ensures LegsQty(Legs(fills, n)) == Held(fills).qty && LegsBalance(Legs(fills, n)) == Balance(Held(fills))
  {
    if fills == [] {
      AllFlat(n);
    } else {
      var before, i := fills[..|fills| - 1], fills[|fills| - 1];
      LegTotals(before, n);
      LegQtyStep(Legs(before, n), Held(before), i);
      LegBalanceStep(Legs(before, n), Held(before), i);
    }
  }

  /** What one leg reports, against its cash flow. */
  lemma LegReport(p: Position, mark: real)
    ensures LegWorth(p, mark) == Balance(p) + p.qty * mark + (if mark == 0.0 then p.qty * p.avg else 0.0)
  {
    WorthSplits(p, mark);
    if p.qty < 0.0 && mark != 0.0 {
      assert AbsR(p.qty) == 0.0 - p.qty;
      assert (p.avg - mark) * (0.0 - p.qty) == p.qty * (mark - p.avg);
    }
  }

  lemma {:induction false} LegsReport(legs: seq<Position>, mark: real)
    ensures
      LegsWorth(legs, mark) == LegsBalance(legs) + LegsQty(legs) * mark + (if mark == 0.0 then LegsCost(legs) else 0.0)
  {
    if legs != [] {
      LegsReport(legs[1..], mark);
      LegReport(legs[0], mark);
      var rest, one := LegsQty(legs[1..]), legs[0].qty;
      assert (rest + one) * mark == rest * mark + one * mark;
    }
  }

  lemma SumIff(legs: seq<Position>, p: Position, mark: real)
    requires LegsQty(legs) == p.qty && LegsBalance(legs) == Balance(p)
    ensures LegsWorth(legs, mark) == Worth(p, mark) <==> mark != 0.0 || LegsCost(legs) == 0.0
  {
    LegsReport(legs, mark);
    WorthSplits(p, mark);
  }

  /** MAIN RESULT. The legs of one instrument add up to the account's profit on it, exactly when there
      is a mark or their open holdings cost nothing in total. */
  lemma LegsSumToAccountIff(fills: seq<Fill>, n: nat, mark: real)
    requires forall i <- fills :: i.leg < n
    ensures
      LegsWorth(Legs(fills, n), mark) == Worth(Held(fills), mark) <==> mark != 0.0 || LegsCost(Legs(fills, n)) == 0.0
  {
    LegTotals(fills, n);
    SumIff(Legs(fills, n), Held(fills), mark);
  }

  /** A leg that holds anything shows it: one share bought at 10 is worth nothing to its leg without a
      mark, and a loss of 10 to the account at mark zero. */
  lemma NoMarkDisagrees()
    ensures
      var fills := [Fill(0, 1.0, 10.0)];
      LegsWorth(Legs(fills, 1), 0.0) != Worth(Held(fills), 0.0)
  {
    OneShare();
    assert LegsWorth([ONE_SHARE], 0.0) == 0.0 by {
      assert [ONE_SHARE][1..] == [];
    }
  }

  /** One share bought at 10. */
  const ONE_SHARE := Position(1.0, 10.0, 0.0)

  lemma OneShare()
    ensures Held([Fill(0, 1.0, 10.0)]) == ONE_SHARE && Legs([Fill(0, 1.0, 10.0)], 1) == [ONE_SHARE]
  {
    var fills := [Fill(0, 1.0, 10.0)];
    assert fills[..0] == [];
    AverageCostIff(FLAT, 1.0, 10.0, ONE_SHARE);
    FilledIsAverageCost(FLAT, 1.0, 10.0);
  }

  // ---- one strategy's leg -------------------------------------------------------------------------

  /** A closing fill with absolute quantities, as both books compute it. */
  /** Closing with an absolute quantity and the sign of what is held. */
  lemma ClosesSigned(p: Position, signed: real, price: real)
    requires !Adds(p, signed)
    ensures
      var qty, closed := p.qty + signed, MinR(AbsR(signed), AbsR(p.qty));
      AverageCost(p, signed, price) ==
      Position(qty, if qty == 0.0 then 0.0 else if (qty > 0.0) == (p.qty > 0.0) then p.avg else price,
               p.realized + Gain(price - p.avg, if p.qty > 0.0 then closed else 0.0 - closed))
  {
    hide Gain;
    var closed := MinR(AbsR(signed), AbsR(p.qty));
    assert Closing(p, signed) == if p.qty > 0.0 then closed else 0.0 - closed;
  }

  lemma GainSigned(perShare: real, shares: real, long: bool)
    ensures perShare * shares * (if long then 1.0 else -1.0) == Gain(perShare, if long then shares else 0.0 - shares)
  {
  }

  /** The same by what is left over after closing. */
  lemma ClosesAbs(p: Position, signed: real, price: real)
    requires !Adds(p, signed)
    ensures
      var closed := MinR(AbsR(signed), AbsR(p.qty));
      AverageCost(p, signed, price) ==
      Position(p.qty + signed,
               if AbsR(signed) - closed > 0.0 then price else if p.qty + signed == 0.0 then 0.0 else p.avg,
               p.realized + Gain(price - p.avg, if p.qty > 0.0 then closed else 0.0 - closed))
  {
    hide Gain, AverageCost, Closing;
    ClosesSigned(p, signed, price);
  }

  lemma GainShort(perShare: real, shares: real)
    ensures Gain(perShare, shares) == perShare * shares && Gain(0.0 - perShare, 0.0 - shares) == perShare * shares
  {
  }

  /** An adding fill with absolute quantities, as both books compute it. */
  lemma AddsAbs(p: Position, signed: real, price: real)
    requires Adds(p, signed) && (p.qty != 0.0 || signed != 0.0)
    ensures AbsR(p.qty + signed) == AbsR(p.qty) + AbsR(signed) > 0.0
    ensures (p.avg * AbsR(p.qty) + price * AbsR(signed)) / AbsR(p.qty + signed) == AverageCost(p, signed, price).avg
  {
    var num, qty := p.avg * p.qty + price * signed, p.qty + signed;
    if qty < 0.0 {
      assert p.avg * AbsR(p.qty) + price * AbsR(signed) == 0.0 - num;
      Negated(num, qty);
    }
  }

  lemma Negated(num: real, den: real)
    requires den != 0.0
    ensures (0.0 - num) / (0.0 - den) == num / den
  {
    var r := num / den;
    assert r * den == num;
    assert r * (0.0 - den) == 0.0 - num;
  }

  class Leg {
    var fills: nat
    var inventory: real
    var avgCostUsd: real
    var realizedUsd: real
    var feesUsd: real
    var lastPxUsd: real

    ghost function Holding(): Position
      reads this
    {
      Position(inventory, avgCostUsd, realizedUsd)
    }

    constructor ()
      ensures Holding() == FLAT && fills == 0 && feesUsd == 0.0
    {
      fills, inventory, avgCostUsd, realizedUsd, feesUsd, lastPxUsd := 0, 0.0, 0.0, 0.0, 0.0, 0.0;
    }

    method OnFill(buy: bool, size: real, priceTicks: int, feeUsd: real)
      modifies this
      ensures Holding() == LegFilled(old(Holding()), if buy then size else 0.0 - size, priceTicks as real / 10000.0)
      ensures fills == old(fills) + 1 && feesUsd == old(feesUsd) + feeUsd && lastPxUsd == priceTicks as real / 10000.0
    {
      var px := priceTicks as real / 10000.0;
      fills := fills + 1;
      feesUsd := feesUsd + feeUsd;
      lastPxUsd := px;
      var signed := if buy then size else 0.0 - size;
      if inventory != 0.0 && (inventory > 0.0) != (signed > 0.0) {
        Close(signed, px);
      } else {
        AddOn(signed, px);
      }
    }

    /** Closing against an opposite position books profit; anything left opens the other side. */
    method Close(signed: real, px: real)
      requires !Adds(Holding(), signed)
      modifies `inventory, `avgCostUsd, `realizedUsd
      ensures Holding() == Filled(old(Holding()), signed, px)
    {
      hide Gain, AverageCost, Closing, Filled;
      ClosesAbs(Holding(), signed, px);
      FilledIsAverageCost(Holding(), signed, px);
      var closed := MinR(AbsR(signed), AbsR(inventory));
      if inventory > 0.0 {
        GainShort(px - avgCostUsd, closed);
        realizedUsd := realizedUsd + (px - avgCostUsd) * closed;
      } else {
        GainShort(avgCostUsd - px, closed);
        assert 0.0 - (avgCostUsd - px) == px - avgCostUsd;
        realizedUsd := realizedUsd + (avgCostUsd - px) * closed;
      }
      var remaining := AbsR(signed) - closed;
      inventory := inventory + signed;
      if remaining > 0.0 {
        avgCostUsd := px;
      } else if inventory == 0.0 {
        avgCostUsd := 0.0;
      }
    }

    /** Opening or adding re-averages the entry price. */
    method AddOn(signed: real, px: real)
      requires Adds(Holding(), signed)
      modifies `inventory, `avgCostUsd
      ensures Holding() == LegFilled(old(Holding()), signed, px)
    {
      var total := AbsR(inventory) + AbsR(signed);
      if total != 0.0 {
        AddsAbs(Holding(), signed, px);
        FilledIsAverageCost(Holding(), signed, px);
        avgCostUsd := (avgCostUsd * AbsR(inventory) + px * AbsR(signed)) / total;
      }
      inventory := inventory + signed;
    }

    /** The open profit of the holding at a mark; without one it is not known, and reads zero. */
    function UnrealizedUsd(markUsd: real): (r: real)
      reads this
      ensures markUsd != 0.0 ==> r == Worth(Holding(), markUsd) - realizedUsd
      ensures markUsd == 0.0 ==> r == 0.0
    {
      if inventory == 0.0 || markUsd == 0.0 then 0.0
      else if inventory > 0.0 then (markUsd - avgCostUsd) * inventory
      else (avgCostUsd - markUsd) * AbsR(inventory)
    }
  }
}
