/** What the stream generator draws: which message for which draw, and why its books never cross. */
module ReplayShape {
  import opened Messages
  import opened Replay

  /** MAIN RESULT. Which message a pass emits. Below 0.55, or with fewer than eight orders live, and a reference free:
      an Add of the drawn size, one to four cents off 150 dollars on its own side. Else, with an order live:
      below 0.70 an execution of half of one, at least a share; below 0.82 a cancellation of all or a third of
      it; below 0.92 its deletion; above, with a reference free, its replacement under a new one. */
  lemma EmitsAs(g: Gen, c: Draw)
    requires Sound(g) && Possible(g, c) && |Next(g, c).msgs| > |g.msgs|
    ensures
      var m, some := Added(g, c), |g.live| > 0;
      var adds := (c.r < 0.55 || |g.live| < 8) && |g.free| > 0;
      && Next(g, c).msgs == g.msgs + [m]
      && (m.kind.Add? <==> adds) && (m.kind.Execute? <==> !adds && some && c.r < 0.70)
      && (m.kind.Cancel? <==> !adds && some && 0.70 <= c.r < 0.82)
      && (m.kind.Delete? <==> !adds && some && 0.82 <= c.r < 0.92)
      && (m.kind.Replace? <==> !adds && some && 0.92 <= c.r && |g.free| > 0)
      && (m.kind.Add? || m.kind.Execute? || m.kind.Cancel? || m.kind.Delete? || m.kind.Replace?)
    ensures
      var m := Added(g, c);
      && (m.kind.Add? ==>
            && m.side == c.side && m.shares == c.addShares && m.ref == g.free[|g.free| - 1]
            && m.price == if m.side.Bid? then 1_500_000 - 100 * c.level else 1_500_000 + 100 * c.level)
      && (!m.kind.Add? ==> m.ref == c.ref && c.ref in g.live)
      && (m.kind.Execute? ==> var had := g.live[c.ref].shares; m.shares == if had < 2 then 1 else had / 2)
      && (m.kind.Cancel? ==>
            var had := g.live[c.ref].shares; m.shares == if c.cancelAll then had else if had < 3 then 1 else had / 3)
      && (m.kind.Replace? ==>
            && m.newRef == g.free[|g.free| - 1] && m.shares == c.replaceShares
            && m.price == if g.live[c.ref].side.Bid? then 1_500_000 - 100 * c.level else 1_500_000 + 100 * c.level)
  {
    AddedLast(g, c);
    match Chosen(g, c) {
      case DoAdd => assert Added(g, c).kind.Add?;
      case DoExecute => assert Added(g, c).kind.Execute?;
      case DoCancel => assert Added(g, c).kind.Cancel?;
      case DoDelete => assert Added(g, c).kind.Delete?;
      case DoReplace => assert Added(g, c).kind.Replace?;
      case DoNothing =>
    }
  }

  /** A bid is priced one to four cents below 150 dollars, an ask one to four above. */
  predicate OnItsSide(o: Order) {
    if o.side.Bid? then 1_499_600 <= o.price <= 1_499_900 else 1_500_100 <= o.price <= 1_500_400
  }

  predicate Uncrossed(live: map<nat, Order>) { forall ref | ref in live :: OnItsSide(live[ref]) }

  lemma Kept(live: map<nat, Order>, ref: nat, o: Order)
    requires Uncrossed(live)
    ensures Uncrossed(live - {ref}) && (ref in live ==> OnItsSide(live[ref]))
    ensures OnItsSide(o) ==> Uncrossed(live[ref := o])
  {
  }

  lemma PickedPrice(side: Side, level: nat, shares: nat)
    requires 1 <= level <= 4
    ensures OnItsSide(Order(side, PickPrice(side, level), shares))
  {
  }

  lemma ReducedUncrossed(g: Gen, ref: nat, q: nat)
    requires Uncrossed(g.live) && ref in g.live
    ensures Uncrossed(Reduced(g, ref, q).live)
  {
    hide Uncrossed;
    Kept(g.live, ref, g.live[ref]);
    Kept(g.live, ref, g.live[ref].(shares := if q < g.live[ref].shares then g.live[ref].shares - q else 0));
  }

  lemma NextUncrossed(g: Gen, c: Draw)
    requires Sound(g) && Possible(g, c) && Uncrossed(g.live)
    ensures Uncrossed(Next(g, c).live)
  {
    hide Uncrossed, OnItsSide, Sound, PickPrice;
    match Chosen(g, c) {
      case DoAdd =>
        PickedPrice(c.side, c.level, c.addShares);
        Kept(g.live, g.free[|g.free| - 1], Order(c.side, PickPrice(c.side, c.level), c.addShares));
      case DoExecute =>
        var ex := Half(g.live[c.ref].shares);
        ReducedUncrossed(Emit(g, Msg(Execute, 0, c.ref, Bid, ex, 0, c.ref)), c.ref, ex);
      case DoCancel =>
        var cx := if c.cancelAll then g.live[c.ref].shares else Third(g.live[c.ref].shares);
        ReducedUncrossed(Emit(g, Msg(Cancel, 0, c.ref, Bid, cx, 0, c.ref)), c.ref, cx);
      case DoDelete => Kept(g.live, c.ref, g.live[c.ref]);
      case DoReplace =>
        var side := g.live[c.ref].side;
        var o := Order(side, PickPrice(side, c.level), c.replaceShares);
        PickedPrice(side, c.level, c.replaceShares);
        Kept(g.live, c.ref, o);
        Kept(g.live - {c.ref}, g.free[|g.free| - 1], o);
      case DoNothing =>
    }
  }

  /** MAIN RESULT. So the generated book is never locked or crossed, and its spread is two to eight cents. */
  lemma {:induction false} NeverCrosses(g: Gen, draws: seq<Draw>)
    requires Initial(g) && Plays(g, draws)
    ensures Uncrossed(After(g, draws).live)
  {
    hide Possible, Next, Uncrossed;
    if draws == [] {
      NothingCrossed();
    } else {
      var before := draws[..|draws| - 1];
      NeverCrosses(g, before);
      BookHoldsLiveOrders(g, before, 4);
      NextUncrossed(After(g, before), draws[|before|]);
    }
  }

  lemma NothingCrossed()
    ensures Uncrossed(map[])
  {
  }
}
