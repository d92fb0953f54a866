/** The two quote engines as clocked objects: input registers, an instance of the pipelined divider,
    and registered outputs. One method per clock edge. */
module QuotingClocked {
  import opened Bits
  import opened Ofi
  import opened Quoting
  import D = Divider

  class StrategyMarketMaker {
    var num: Quad
    var den: Quad
    var s1Valid: bool
    var inventory: Int32
    const divider: D.PipeDivu
    var quoteValid: bool
    var quote: Quote

    ghost predicate Valid() {
      divider.Valid() && divider.w == DIV_W
    }

    ghost function State(): (e: Engine)
      requires Valid()
      reads this, divider.stages
      ensures |e.pipe| == DIV_W
    {
      Engine(D.Operands(s1Valid, num, den, Low32(inventory)), divider.stages[..], quoteValid, quote)
    }

    constructor ()
      ensures Valid() && fresh(divider) && fresh(divider.stages) && State() == ResetEngine()
    {
      num, den, s1Valid, inventory := 0, 0, false, 0;
      divider := new D.PipeDivu(DIV_W);
      quoteValid, quote := false, NO_QUOTE;
    }

    method Clock(m: Market)
      requires Valid()
      modifies this, divider.stages
      ensures State() == EngineNext(old(State()), Stage1(m, 0))
    {
      EdgeOut();
      LoadWords(m);
    }

    /** Stage 1: the words of this tick. */
    method LoadWords(m: Market)
      requires Valid()
      modifies `num, `den, `s1Valid, `inventory
      ensures State() == old(State()).(s1 := Stage1(m, 0))
    {
      num := Low64(m.top.bidPrice * m.top.askSize + m.top.askPrice * m.top.bidSize);
      den := m.top.bidSize + m.top.askSize;
      s1Valid := QuotableBits(m);
      inventory := m.inventory;
    }

    /** The divider and the output registers take the stage-1 words of the previous cycle. */
    method EdgeOut()
      requires Valid()
      modifies `quoteValid, `quote, divider.stages
      ensures State() == EngineNext(old(State()), old(State()).s1)
    {
      var done := divider.stages[DIV_W - 1];
      divider.Clock(D.Operands(s1Valid, num, den, Low32(inventory)));
      quoteValid := done.valid;
      if done.valid {
        quote := Stage2(done.quot, done.payload);
      }
    }
  }

  class StrategyOfiMaker {
    var prev: Top
    var havePrev: bool
    const taps: array<int>
    var sum: int
    var num: Quad
    var den: Quad
    var s1Valid: bool
    var payload: nat
    const divider: D.PipeDivu
    var quoteValid: bool
    var quote: Quote

    ghost predicate Valid() {
      divider.Valid() && divider.w == DIV_W && taps.Length == OFI_WINDOW
    }

    ghost function FlowState(): Flow
      reads this, taps
    {
      Flow(prev, havePrev, taps[..], sum)
    }

    ghost function State(): (e: Engine)
      requires Valid()
      reads this, divider.stages
      ensures |e.pipe| == DIV_W
    {
      Engine(D.Operands(s1Valid, num, den, payload), divider.stages[..], quoteValid, quote)
    }

    constructor ()
      ensures Valid() && fresh(divider) && fresh(divider.stages) && fresh(taps)
      ensures State() == ResetEngine() && FlowState() == ResetFlow()
    {
      prev, havePrev, sum := NO_TOP, false, 0;
      taps := new int[OFI_WINDOW](_ => 0);
      num, den, s1Valid, payload := 0, 0, false, 0;
      divider := new D.PipeDivu(DIV_W);
      quoteValid, quote := false, NO_QUOTE;
    }

    method Clock(m: Market)
      requires Valid()
      modifies this, taps, divider.stages
      ensures FlowState() == FlowNext(old(FlowState()), m)
      ensures State() == EngineNext(old(State()), MakerStage1(old(FlowState()), old(State()).s1, m))
    {
      var newSum := SumAfter(m);
      EdgeOut();
      if !QuotableBits(m) {
        havePrev := false;
        s1Valid := false;
      } else {
        LoadWords(m, Tilt(newSum));
        AdvanceFlow(m.top, newSum);
      }
    }

    /** The combinational next sum: oldest tap out, newest increment in. */
    method SumAfter(m: Market) returns (s: int)
      requires Valid()
      ensures s == NewSum(FlowState(), m)
    {
      s := if havePrev then Signed48(sum - taps[0] + IncrementBits(prev, m.top)) else sum;
    }

    /** Stage 1 of a quotable book. */
    method LoadWords(m: Market, tilt: int)
      requires Valid() && QuotableBits(m)
      modifies `num, `den, `payload, `s1Valid
      ensures State() == old(State()).(s1 := Stage1(m, tilt))
    {
      num := Low64(m.top.bidPrice * m.top.askSize + m.top.askPrice * m.top.bidSize);
      den := m.top.bidSize + m.top.askSize;
      payload := Pack(tilt, m.inventory);
      s1Valid := true;
    }

    /** The divider and the output registers take the stage-1 words of the previous cycle. */
    method EdgeOut()
      requires Valid()
      modifies `quoteValid, `quote, divider.stages
      ensures State() == EngineNext(old(State()), old(State()).s1)
    {
      var done := divider.stages[DIV_W - 1];
      divider.Clock(D.Operands(s1Valid, num, den, payload));
      quoteValid := done.valid;
      if done.valid {
        quote := Stage2(done.quot, done.payload);
      }
    }

    /** Advance the OFI window on a quotable book. */
    method AdvanceFlow(top: Top, newSum: int)
      requires Valid()
      modifies `prev, `havePrev, `sum, taps
      ensures
        var f := old(FlowState());
        FlowState() == if f.havePrev then Flow(top, true, Push(f.taps, IncrementBits(f.prev, top)), newSum)
                       else f.(prev := top, havePrev := true)
    {
      if havePrev {
        sum := newSum;
        ShiftTaps(taps, IncrementBits(prev, top));
      }
      prev, havePrev := top, true;
    }
  }
}
