/** The whole golden chain: parser, book, imbalance strategy and risk check, one evaluation per message. */
module Phase2 {
  import opened Bits
  import opened Messages
  import I = Itch
  import B = Book
  import G = BookGolden
  import opened Imbalance
  import opened Risk

  const ORDER_DEPTH: nat := 256

  /** An accepted decision with the index of its message and the mid it was checked against. */
  datatype Accepted = Accepted(index: nat, decision: Decision, mid: nat)
  datatype Rejected = Rejected(index: nat, reason: Reason)

  datatype Chain = Chain(book: B.Book, prevValid: bool, position: int, decisions: seq<Accepted>, rejects: seq<Rejected>)

  function Start(): Chain { Chain(B.Empty(ORDER_DEPTH), false, 0, [], []) }

  /** What the evaluation after one message proposes, and the verdict on it. */
  datatype Outcome = NoProposal | Proposal(decision: Decision, mid: nat, verdict: Verdict)

  function Evaluated(book: B.Book, prevValid: bool, position: int): Outcome {
    var s := B.View(book.bid, book.ask, NLEVELS);
    var d := Rule(prevValid, s);
    if d.None? then NoProposal else Proposal(d.value, Mid(s), Check(position, d.value, Mid(s), false))
  }

  function Step(c: Chain, i: nat, m: Msg): Chain
    requires c.book.table != []
  {
    var book := B.Apply(c.book, NLEVELS, m);
    var moved := c.(book := book, prevValid := B.View(book.bid, book.ask, NLEVELS).valid);
    match Evaluated(book, c.prevValid, c.position)
    case NoProposal => moved
    case Proposal(d, mid, v) =>
      if v.accepted
      then moved.(position := c.position + SignedSize(d), decisions := c.decisions + [Accepted(i, d, mid)])
      else moved.(rejects := c.rejects + [Rejected(i, v.reason)])
  }

  function Run(msgs: seq<Msg>): (c: Chain)
    ensures |c.book.table| == ORDER_DEPTH
  {
    if msgs == [] then Start() else Step(Run(msgs[..|msgs| - 1]), |msgs| - 1, msgs[|msgs| - 1])
  }

  function SizeSum(ds: seq<Accepted>): int {
    if ds == [] then 0 else SizeSum(ds[..|ds| - 1]) + SignedSize(ds[|ds| - 1].decision)
  }

  /** What holds of the trace after any stream. */
  ghost predicate Disciplined(c: Chain) {
    && c.position == SizeSum(c.decisions) && Abs(c.position) <= MAX_POSITION
    && (forall k | 0 <= k < |c.rejects| :: c.rejects[k].reason == PositionLimit)
    && (forall k | 0 <= k < |c.decisions| ::
          Abs(c.decisions[k].decision.price - c.decisions[k].mid) <= (MAX_SPREAD + 1) / 2
          && BASE_LOT <= c.decisions[k].decision.size <= MAX_LOT)
  }

  lemma AcceptDisciplined(c: Chain, a: Accepted, position: int)
    requires Disciplined(c) && position == c.position + SignedSize(a.decision) && Abs(position) <= MAX_POSITION
    requires Abs(a.decision.price - a.mid) <= (MAX_SPREAD + 1) / 2 && BASE_LOT <= a.decision.size <= MAX_LOT
    ensures Disciplined(c.(position := position, decisions := c.decisions + [a]))
  {
    assert (c.decisions + [a])[..|c.decisions|] == c.decisions;
  }

  /** An evaluated proposal keeps close to its mid and can only fail on the position limit. */
  lemma ProposalChecked(book: B.Book, prevValid: bool, position: int)
    requires Evaluated(book, prevValid, position).Proposal?
    ensures
      var o := Evaluated(book, prevValid, position);
      && Abs(o.decision.price - o.mid) <= (MAX_SPREAD + 1) / 2 && BASE_LOT <= o.decision.size <= MAX_LOT
      && (o.verdict.accepted <==> Abs(position + SignedSize(o.decision)) <= MAX_POSITION)
      && (!o.verdict.accepted ==> o.verdict.reason == PositionLimit)
  {
    DecisionNearMid(prevValid, B.View(book.bid, book.ask, NLEVELS));
  }

  lemma StepDisciplined(c: Chain, i: nat, m: Msg)
    requires c.book.table != [] && Disciplined(c)
    ensures Disciplined(Step(c, i, m))
  {
    var book := B.Apply(c.book, NLEVELS, m);
    var o := Evaluated(book, c.prevValid, c.position);
    if o.Proposal? {
      ProposalChecked(book, c.prevValid, c.position);
      var moved := c.(book := book, prevValid := B.View(book.bid, book.ask, NLEVELS).valid);
      if o.verdict.accepted {
        AcceptDisciplined(moved, Accepted(i, o.decision, o.mid), c.position + SignedSize(o.decision));
      }
    }
  }

  /** MAIN RESULT. In the trace of every message stream each reject is for the position limit, each
      accepted price lies within half the widest spread of its mid, and the final position is the
      signed sum of the accepted sizes, within the limit. */
  lemma {:induction false} ChainDisciplined(msgs: seq<Msg>)
    ensures Disciplined(Run(msgs))
  {
    if msgs != [] {
      ChainDisciplined(msgs[..|msgs| - 1]);
      StepDisciplined(Run(msgs[..|msgs| - 1]), |msgs| - 1, msgs[|msgs| - 1]);
    }
  }

  lemma {:induction false} RunBook(msgs: seq<Msg>)
    ensures Run(msgs).book == B.Run(ORDER_DEPTH, NLEVELS, msgs)
  {
    if msgs != [] { RunBook(msgs[..|msgs| - 1]); }
  }

  /** The validity the chain remembers is that of the book before the message. */
  lemma RemembersValid(msgs: seq<Msg>)
    ensures
      var book := B.Run(ORDER_DEPTH, NLEVELS, msgs);
      Run(msgs).prevValid <==> book.bid != [] && book.ask != []
  {
    RunBook(msgs);
    if msgs != [] { RunBook(msgs[..|msgs| - 1]); }
  }

  /** What one evaluation of snapshot s adds to a trace: nothing without a decision, else the decision to the accepted
      ones or its reason to the rejects, by the integer check with trading on. */
  ghost predicate Adds(c: Chain, c': Chain, i: nat, prevValid: bool, position: int, s: B.Snapshot) {
    var d, mid := Rule(prevValid, s), (s.bidPrice + s.askPrice) / 2;
    && (d.None? ==> c'.decisions == c.decisions && c'.rejects == c.rejects)
    && (d.Some? ==>
          var v := Check(position, d.value, mid, false);
          && c'.decisions == c.decisions + (if v.accepted then [Accepted(i, d.value, mid)] else [])
          && c'.rejects == c.rejects + if v.accepted then [] else [Rejected(i, v.reason)])
  }

  lemma StepAdds(c: Chain, i: nat, m: Msg)
    requires c.book.table != []
    ensures
      var after := B.Apply(c.book, NLEVELS, m);
      Adds(c, Step(c, i, m), i, c.prevValid, c.position, B.View(after.bid, after.ask, NLEVELS))
  {
    hide Rule, Check, B.View, B.Apply;
    assert c.decisions + [] == c.decisions && c.rejects + [] == c.rejects;
  }

  /** MAIN RESULT. What each message adds to the trace: the evaluation of the golden book after it, given whether the
      golden book before it had both sides, at the position all accepted sizes add up to; and nothing else is ever
      added. */
  lemma ChainIs(msgs: seq<Msg>, m: Msg)
    ensures
      var before, after := B.Run(ORDER_DEPTH, NLEVELS, msgs), B.Run(ORDER_DEPTH, NLEVELS, msgs + [m]);
      var both, s := before.bid != [] && before.ask != [], B.View(after.bid, after.ask, NLEVELS);
      Adds(Run(msgs), Run(msgs + [m]), |msgs|, both, SizeSum(Run(msgs).decisions), s)
  {
    hide Adds, B.View, Step, B.Apply;
    assert (msgs + [m])[..|msgs|] == msgs;
    RunBook(msgs);
    RemembersValid(msgs);
    PositionIsSum(msgs);
    StepAdds(Run(msgs), |msgs|, m);
  }

  lemma PositionIsSum(msgs: seq<Msg>)
    ensures Run(msgs).position == SizeSum(Run(msgs).decisions)
  {
    ChainDisciplined(msgs);
  }

  /** The chain over a byte stream; None when the parser raises. */
  method RunStream(stream: I.Bytes) returns (r: Option<(seq<Accepted>, seq<Rejected>, int)>)
    ensures
      var msgs := I.ParseStream(stream);
      if msgs.None? then r.None?
      else var c := Run(msgs.value); r == Some((c.decisions, c.rejects, c.position))
  {
    var parsed := I.ParseStreamLoop(stream);
    if parsed.None? {
      return None;
    }
    var decisions, rejects, position := RunMessages(parsed.value);
    r := Some((decisions, rejects, position));
  }

  lemma RunExtends(msgs: seq<Msg>, i: nat)
    requires i < |msgs|
    ensures Run(msgs[..i + 1]) == Step(Run(msgs[..i]), i, msgs[i])
  {
    assert msgs[..i + 1][..i] == msgs[..i];
  }

  lemma NothingRun()
    ensures Run([]) == Start()
  {
  }

  method RunMessages(msgs: seq<Msg>) returns (decisions: seq<Accepted>, rejects: seq<Rejected>, position: int)
    ensures decisions == Run(msgs).decisions && rejects == Run(msgs).rejects && position == Run(msgs).position
  {
    hide Step, Evaluated, Holds, Ready, Run;
    NothingRun();
    var book, strat, risk := Stages();
    decisions, rejects := [], [];
    ghost var c := Start();
    for i := 0 to |msgs|
      invariant Ready(book, strat, risk) && fresh(book.Repr()) && fresh(strat) && fresh(risk)
      invariant c == Run(msgs[..i]) && Holds(book, strat, risk, decisions, rejects, c)
    {
      RunExtends(msgs, i);
      decisions, rejects := OnMessage(book, strat, risk, i, msgs[i], decisions, rejects, c);
      c := Run(msgs[..i + 1]);
    }
    assert msgs[..|msgs|] == msgs;
    position := Final(book, strat, risk, decisions, rejects, c);
  }

  /** The objects at the start of a run. */
  method Stages() returns (book: G.OrderBookM2, strat: StrategyImbalance, risk: RiskCheck)
    ensures Ready(book, strat, risk) && fresh(book.Repr()) && fresh(strat) && fresh(risk)
    ensures Holds(book, strat, risk, [], [], Start())
  {
    book := new G.OrderBookM2(ORDER_DEPTH, NLEVELS);
    strat := new StrategyImbalance();
    risk := new RiskCheck();
  }

  method Final(book: G.OrderBookM2, strat: StrategyImbalance, risk: RiskCheck,
               decisions: seq<Accepted>, rejects: seq<Rejected>, ghost c: Chain)
    returns (position: int)
    requires Ready(book, strat, risk) && Holds(book, strat, risk, decisions, rejects, c)
    ensures position == c.position && decisions == c.decisions && rejects == c.rejects
  {
    position := risk.position;
  }

  /** The three stages are in order and share no state. */
  ghost predicate Ready(book: G.OrderBookM2, strat: StrategyImbalance, risk: RiskCheck)
    reads book, book.entries, book.entryValid, book.bid, book.ask
  {
    book.Valid() && book.depth == ORDER_DEPTH && book.n == NLEVELS && {strat as object, risk} !! book.Repr()
  }

  /** The objects and the lists built so far are in the state of the chain. */
  ghost predicate Holds(book: G.OrderBookM2, strat: StrategyImbalance, risk: RiskCheck,
                        decisions: seq<Accepted>, rejects: seq<Rejected>, c: Chain)
    requires Ready(book, strat, risk)
    reads book, book.entries, book.entryValid, book.bid, book.ask, book.Repr(), strat, risk
  {
    && book.Value() == c.book && strat.prevValid == c.prevValid && risk.position == c.position
    && decisions == c.decisions && rejects == c.rejects
  }

  /** One turn of the message loop. */
  method OnMessage(book: G.OrderBookM2, strat: StrategyImbalance, risk: RiskCheck, i: nat, m: Msg,
                   decisions: seq<Accepted>, rejects: seq<Rejected>, ghost c: Chain)
    returns (decisions': seq<Accepted>, rejects': seq<Rejected>)
    requires Ready(book, strat, risk) && Holds(book, strat, risk, decisions, rejects, c) && c.book.table != []
    modifies book.Repr(), strat, risk
    ensures Ready(book, strat, risk) && fresh(book.Repr() - old(book.Repr()))
    ensures Holds(book, strat, risk, decisions', rejects', Step(c, i, m))
  {
    decisions', rejects' := decisions, rejects;
    book.Apply(m);
    var o := Evaluate(book, strat, risk);
    if o.Proposal? {
      if o.verdict.accepted {
        decisions' := decisions + [Accepted(i, o.decision, o.mid)];
      } else {
        rejects' := rejects + [Rejected(i, o.verdict.reason)];
      }
    }
  }

  /** Snapshot, strategy and risk check after one message. */
  method Evaluate(book: G.OrderBookM2, strat: StrategyImbalance, risk: RiskCheck) returns (o: Outcome)
    requires book.Valid() && book.n == NLEVELS
    requires {strat as object, risk} !! book.Repr()
    modifies strat, risk
    ensures o == Evaluated(book.Value(), old(strat.prevValid), old(risk.position))
    ensures strat.prevValid == B.View(book.Value().bid, book.Value().ask, NLEVELS).valid
    ensures
      risk.position == old(risk.position) + if o.Proposal? && o.verdict.accepted then SignedSize(o.decision) else 0
  {
    var s := book.Snapshot();
    var d := strat.Evaluate(s);
    if d.None? {
      return NoProposal;
    }
    var mid := (s.bidPrice + s.askPrice) / 2;
    var v := risk.CheckOrder(d.value, mid, false);
    o := Proposal(d.value, mid, v);
  }
}
