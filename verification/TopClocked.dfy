/** The datapath as an assembly of its clocked blocks. */
module TopClocked {
  import B = Book
  import opened Depth
  import P = ParserRtl
  import PC = ParserClocked
  import R = BookRtl
  import BC = BookClocked
  import M = Imbalance
  import K = Risk
  import opened Top

  class TickToTradeTop {
    const parser: PC.ItchParser
    const book: BC.OrderBookRtl
    const strategy: M.StrategyImbalanceRtl
    const gate: K.RiskCheckRtl
    var mid1: nat
    var mid2: nat
    var riskValid: bool
    var risk: M.Decision
    var verdict: K.Verdict
    var beatValid: bool
    var beat: M.Decision

    ghost predicate Valid()
      reads this, parser, book, book.entries
    {
      parser.Valid() && book.Valid() && book.InRange() && book.n == LEVELS
    }

    ghost function State(): (s: Regs)
      requires Valid()
      reads this, parser, book, book.entries, strategy, gate
      ensures WellFormed(s)
    {
      Regs(parser.State(), book.State(), strategy.State(), mid1, mid2, gate.position,
           riskValid, risk, verdict, beatValid, beat)
    }

    constructor (mem: array<Entry>, rd: Entry)
      requires mem.Length >= 2 && BC.FieldsFit(rd) && forall i | 0 <= i < mem.Length :: BC.FieldsFit(mem[i])
      ensures Valid() && IsReset(State()) && mid1 == 0 && mid2 == 0 && book.entries == mem
    {
      parser := new PC.ItchParser();
      book := new BC.OrderBookRtl(mem, rd, LEVELS);
      strategy := new M.StrategyImbalanceRtl();
      gate := new K.RiskCheckRtl();
      mid1, mid2 := 0, 0;
      riskValid, risk, verdict := false, M.Decision(false, 0, 0), K.Verdict(false, K.Ok);
      beatValid, beat := false, M.Decision(false, 0, 0);
    }

    /** One clock edge of every block, each seeing the others' outputs of the cycle before. */
    method Clock(i: Pins)
      requires Valid()
      modifies this, parser, book, book.entries, strategy, gate
      ensures Valid() && State() == Next(old(State()), i)
    {
      hide P.Next, R.Next, M.Next, K.MidBits, K.Gate, K.NextPosition;
      var shown, _, _ := book.Outputs();
      var d, held, ready := parser.out, parser.mValid, book.phase.Idle?;
      ClockOrders(shown, i.halt);
      book.Clock(R.Port(held, d.code, d.ref, d.newRef, d.side, d.shares, d.price));
      parser.Clock(P.Port(i.tvalid, i.tdata, i.tlast, ready));
    }

    /** The blocks behind the book: the order path, the risk gate and the strategy. */
    method ClockOrders(shown: B.Snapshot, halt: bool)
      modifies `mid1, `mid2, `riskValid, `risk, `verdict, `beatValid, `beat, strategy, gate
      ensures
        var fires, order := old(strategy.valid), old(strategy.out);
        var offer := K.Offer(fires, order, old(mid2), halt);
        && verdict == K.Gate(old(gate.position), offer) && gate.position == K.NextPosition(old(gate.position), offer)
        && riskValid == verdict.accepted && risk == order && beatValid == old(riskValid) && beat == old(risk)
      ensures mid1 == K.MidBits(shown) && mid2 == old(mid1) && strategy.State() == M.Next(old(strategy.State()), shown)
    {
      var order, fires := strategy.out, strategy.valid;
      beatValid, beat := riskValid, risk;
      verdict := gate.Clock(K.Offer(fires, order, mid2, halt));
      riskValid, risk := verdict.accepted, order;
      mid1, mid2 := K.MidBits(shown), mid1;
      strategy.Clock(shown);
    }
  }
}
