# Tick-to-trade, verified

This project models a tick-to-trade datapath twice over and proves the two levels equal. The lower level
is the clocked hardware: a byte-serial ITCH 5.0 parser, a multi-level order book with registered reads, an
imbalance strategy, an order-flow-imbalance (OFI) strategy, two quote engines built round a pipelined
divider, a risk gate and the bus bridge that feeds it all. The upper level is the untimed golden model that
the hardware is compared with. Beside them stand the generator of the golden model's test streams, the
whole golden chain, and the host's average-cost accounting with the market maker that trades through it.

The two levels meet in `Core`: the bridge and the datapath are wired together as on the device, and for every
host that writes whole messages and looks for room before each write, what the device captures is what the
golden trading pipeline (`Trader`) makes of the golden books of that host's messages. `Liveness` and
`Core.DeviceSettles` bound how long a message can stay unapplied.

That two levels agree does not say what they compute. Beside each main operation stands an account of it that uses
none of its helpers, mostly with the source's numbers written out: `Orders` and `Touch` for the book, `WireFormat` for
the parser, `ImbalanceRule`, `OfiShape` and `QuoteShape` for the decisions and quotes, `Risk.VerdictIs` for the
gate, `Bridge.ReadsAnswer` for what a bus read returns, and `PortfolioShape`, `MakerShape` and `ReplayShape` for
the host's figures and the generator.

Every clocked block appears in two forms. A datatype of registers with a `Next` function carries the
theorems about runs; a class with the same registers as fields, memories as arrays, and a `Clock` method
per block performs the update in place and is proved equal to `Next`. The golden objects are classes too,
proved against functions on values. Fixed widths are written out over the integers (`Bits`): a 32-bit
field is a value below 2^32, wrap-around is `% 2^32`, and a signed field is read by `Signed32`.

| module | what it holds |
|---|---|
| `Bits`, `Messages` | widths; message kinds and wire codes of NASDAQ TotalView-ITCH 5.0, sections 4.3 to 4.5 |
| `Depth`, `Book` | what a top-N price list is; the golden book on values and the exactness of its cache |
| `Orders`, `Touch` | the book's orders as a map changed by each message kind; what the snapshot shows of them |
| `BookGolden` | the golden book in place, over arrays |
| `BookRtl`, `BookClocked` | the book's registers and FSM, the refinement; the clocked object |
| `Divider` | the restoring divider, its stage invariant and pipeline |
| `Ofi`, `OfiShape` | sliding-window OFI, golden and clocked; the signal in plain terms |
| `Quoting`, `QuotingClocked`, `QuoteShape` | market maker and OFI maker, golden and clocked; the quotes in plain arithmetic |
| `Itch`, `ParserRtl`, `ParserFrames`, `ParserClocked` | golden parser; byte-serial parser; frames of any length |
| `WireFormat` | the eight messages byte by byte |
| `Synth`, `Replay`, `ReplayShape` | message encoder; random order-flow generator; what it draws |
| `Imbalance`, `ImbalanceRule` | strategy, golden and clocked; the rule in plain arithmetic |
| `Risk`, `Phase2` | risk gate, the whole golden chain |
| `Top`, `TopClocked`, `Liveness` | the hardware datapath end to end; how soon it catches up |
| `Trader` | rule, cooldown and risk check as one function of the book views |
| `Bridge`, `BridgeClocked` | host bridge: ring FIFO, egress capture, bus state machines |
| `Core`, `CoreClocked` | bridge and datapath wired together: what a host writes and what it reads back |
| `Accounting`, `Portfolios`, `PortfolioState`, `PortfolioShape` | average-cost books over the reals, legs, account, kill switch; what its figures mean |
| `Maker`, `MakerShape` | the host's market maker and its backtest; its quotes and fills in plain arithmetic |

Where the code and its documentation differ, the model follows the code:

* `f1/cl_tick_to_trade_core.sv:15` places the captured decisions at 0x300; the code reads them at 0x400
  (line 199).
* `host/market_maker.py:84` promises the hardware's quotes bit for bit. It refuses one-sided books that the
  hardware quotes, and does not clamp negative prices; `Maker.MirrorsGoldenIff` says exactly when it keeps
  the promise, `Maker.OneSidedBookDiffers` and `Maker.NegativePriceDiffers` show it broken.
* A frame of one byte is judged in hardware by the type byte the frame before left behind, and frames beyond 65
  bytes by the start of their last block of 64; `ParserFrames.EmittedAlikeIff` says when that agrees with the
  golden parser, and `ParserFrames.OneByteFrames` shows it wrong both ways.
* The divider needs no bound on its divisor: the remainder never exceeds the numerator bits consumed so
  far, so no stage loses a bit (`Divider.StepInvariant`). A zero divisor gives a zero quotient.
* The quote engines treat two sizes that add up to 2^32 as an empty book, cut the numerator to 64 bits and
  prices to 32, and add the position guard in 32 bits. `Quoting.SameQuoteIff` is the exact condition under
  which a tick is quoted as in the golden model; `Quoting.FullSizesDisagree`, `Quoting.LongNumeratorDisagrees`,
  `Quoting.HighPricesDisagree` and `Quoting.GuardWraps` are inputs that break it, one for each part.
* The mid of the risk collar is a 32-bit sum shifted right: it loses its carry when bid and ask add up to
  2^32 or more (`Risk.ImbalanceOrderVerdict`), and then blocks good orders (`Risk.LostCarryBlocks`).
* With order references that alias in the 256-slot table, the displayed cache is not the top-N of the
  table. `Book.CacheIsExact` says what it is instead, and `Book.TopNOfTableIff` and `Book.AliasingAddIff`
  exactly when the two agree.

## Model

| member | source | states |
|---|---|---|
| Book.InsertKeepsTopN | sim/golden/order_book_m2.py:44-64 | inserting one order into an exact top-N list gives the exact top-N list of the enlarged collection: merge, shift, drop and ignore all right |
| Book.RebuildIsTopN | sim/golden/order_book_m2.py:104-114 | folding the table in index order yields the exact top-N list of its valid entries |
| Depth.TopNUnique | sim/golden/order_book_m2.py:34-64 | a collection of orders has only one top-N list, so exactness pins prices, sizes and length |
| Book.ApplyKeepsExact | sim/golden/order_book_m2.py:124-167 | every message kind keeps both caches exact, the skipped rescan included |
| Book.SkippedRescanKeepsSide | sim/golden/order_book_m2.py:116-121 | when no displayed price is touched, leaving the cache alone is as good as rebuilding it |
| Book.CacheIsExact | sim/golden/order_book_m2.py:124-167 | after every message stream each cache is exactly the best N prices of the valid entries plus the orders an aliasing Add overwrote since the last rescan |
| Book.IncrementalEqualsRebuild | sim/golden/order_book_m2.py:104-167 | without aliasing the incrementally kept book equals the one rebuilt from its table, after every stream |
| Book.NoAliasingNoShadow | sim/golden/order_book_m2.py:128-135 | streams that never overwrite a valid slot leave no overwritten orders behind |
| Book.TopNOfTableIff | sim/golden/order_book_m2.py:124-167 | with aliasing, a side shows what a rebuild of its table would exactly when the orders overwritten since the last rescan do not show in that rebuilt list: no shares at its prices, and worse than all of it elsewhere |
| Book.AliasingAddIff | sim/golden/order_book_m2.py:128-135 | an Add that overwrites an order keeps the book equal to its rebuild exactly when, before the call, that order was off display, or its level is pushed off, or it held no shares beside others |
| Book.AliasingLeavesStaleLevel | sim/golden/order_book_m2.py:128-135 | two Adds whose references alias: the first one's price stays on display |
| Book.RescanForgetsShadow | sim/golden/order_book_m2.py:104-114 | any rescan makes both sides the top-N of the table again |
| Orders.ApplyFollowsIff | sim/golden/order_book_m2.py:124-167 | one message of any of the eight kinds turns a table of exactly the resting orders into a table of exactly the resting orders after it (Adds rest, Cancel, Execute and Execute-with-Price take shares and remove an exhausted order, Delete removes, Replace moves under a new reference keeping the side, Trade and unknown references change nothing), exactly unless it stores an order in the slot of another |
| Orders.TableHoldsOrders | sim/golden/order_book_m2.py:124-167 | so after every stream without such collisions, judged by the account alone, the table is the account |
| Orders.DisplayShowsOrders | sim/golden/order_book_m2.py:104-167 | and with fresh references both sides show the best N prices of the resting orders, volumes summed |
| Touch.BidSide | sim/golden/order_book_m2.py:44-64 | bid prices fall, each has all shares bid there, none beats the first, and a bid not shown is below a full list |
| Touch.AskSide | sim/golden/order_book_m2.py:44-64 | the same of asks, whose prices rise |
| Touch.SnapshotIsTouch | sim/golden/order_book_m2.py:170-182 | bid price the highest bid or 0, ask price the lowest ask or 2^32 - 1, sizes all shares there, valid with both, level sizes zero-padded |
| Touch.RescanIff | sim/golden/order_book_m2.py:116-144 | an exact book rescans for a reduction or deletion exactly when the order's price is on display |
| Touch.SharesTaken | sim/golden/order_book_m2.py:146-157 | Cancel, Execute and Execute-with-Price each take min(shares resting, shares named) from the order's own price and side, and nothing elsewhere |
| BookGolden.SideCache.Insert | sim/golden/order_book_m2.py:44-64 | the in-place insertion loop over price, size and count arrays performs the insertion on values |
| BookGolden.SideCache.OpenGap | sim/golden/order_book_m2.py:57-64 | the backward shift opens the slot, dropping the last level when full |
| BookGolden.SideCache.WorstPrice | sim/golden/order_book_m2.py:72-74 | the worst displayed price, and slot 0 of an empty side |
| BookGolden.OrderBookM2.constructor | sim/golden/order_book_m2.py:94-101 | a new book is the empty one |
| BookGolden.OrderBookM2.Rescan | sim/golden/order_book_m2.py:104-114 | the rescan loop rebuilds both sides from the table and touches nothing else |
| BookGolden.OrderBookM2.AffectsDisplayed | sim/golden/order_book_m2.py:116-121 | the object's displayed check is that of the value |
| BookGolden.OrderBookM2.Apply | sim/golden/order_book_m2.py:124-167 | the in-place update of table and caches is the function the theorems are about |
| BookGolden.OrderBookM2.Snapshot | sim/golden/order_book_m2.py:173-182 | best prices and sizes, validity, and the zero-padded depth lists |
| BookGolden.OrderBookM2.LevelSizes | sim/golden/order_book_m2.py:170-171 | the size column of one side, zero-padded to N levels |
| BookRtl.InsertOnWrapped | rtl/order_book_m2.sv:86-111 | keeping level sizes modulo 2^32 commutes with insertion |
| BookRtl.SameCheck | rtl/order_book_m2.sv:155-164 | the hardware's displayed check on wrapped levels is the golden one |
| BookRtl.SameEdit | rtl/order_book_m2.sv:190-260 | the LOOKUP write-back is the golden edit, Replace onto its own slot included |
| BookRtl.LookupStep | rtl/order_book_m2.sv:249-275 | LOOKUP either finishes the message or starts a rescan from address 0, exactly when the golden book rescans |
| BookRtl.ScanAddressing | rtl/order_book_m2.sv:208-289 | the data folded next is that of the address requested now, with its own enable |
| BookRtl.ScanStep | rtl/order_book_m2.sv:277-289 | despite the read latency the scan folds each address's own entry exactly once |
| BookRtl.RescanCommits | rtl/order_book_m2.sv:286-296 | the cycle that leaves RESCAN publishes the golden book after the message |
| BookRtl.RtlRefinesGolden | rtl/order_book_m2.sv:118-302 | from reset, for all messages and gaps: in every cycle the display is the golden book of the completed messages (sizes modulo 2^32), and in IDLE valid bits and entries are the golden table |
| BookRtl.RescanLasts | rtl/order_book_m2.sv:277-297 | a rescan lasts exactly depth + 2 cycles, whatever the message port does |
| BookRtl.ReadyReturns | rtl/order_book_m2.sv:137-300 | an accepted message holds ready low for exactly its number of busy cycles and then shows its golden effect |
| BookClocked.SideInsert | rtl/order_book_m2.sv:86-111 | the loop over level registers is insertion on wrapped levels |
| BookClocked.OrderBookRtl.constructor | rtl/order_book_m2.sv:216-226 | over a memory and read register of any contents, reset clears state, levels and valid bits and touches neither |
| BookClocked.OrderBookRtl.Clock | rtl/order_book_m2.sv:216-302 | one clock of the object is one step of the state machine |
| BookClocked.OrderBookRtl.Outputs | rtl/order_book_m2.sv:118-132 | snapshot and per-level prices of both sides as the level registers give them |
| BookClocked.OrderBookRtl.LevelOutputs | rtl/order_book_m2.sv:124-132 | the generate loop: populated lanes, then the filler price and no size |
| BookClocked.OrderBookRtl.AffectsDisplayed | rtl/order_book_m2.sv:155-164 | the combinational check over the level registers |
| Divider.StepInvariant | rtl/pipe_divu.sv:50-61 | each stage keeps consumed prefix == quotient * divisor + remainder with remainder below divisor, for every divisor |
| Divider.DividesExactly | rtl/pipe_divu.sv:32-61 | W stages give the exact quotient and remainder; divisor zero gives quotient zero |
| Divider.StageHolds | rtl/pipe_divu.sv:42-66 | every stage holds the operands of its own age, that many steps on |
| Divider.PipelineDivides | rtl/pipe_divu.sv:32-70 | at one pair per cycle the output is the exact quotient of the pair W clocks ago with its own valid bit and payload |
| Divider.PipeDivu.Clock | rtl/pipe_divu.sv:42-66 | the in-place stage update is the pipeline step |
| Ofi.WindowIsLastIncrements | sim/golden/ofi.py:42-62 | the buffer is always the last WINDOW increments of the whole stream, zero-filled, kept across bad books |
| Ofi.OFIGolden.Step | sim/golden/ofi.py:42-62 | the object's step is the value step and returns its decision |
| Ofi.RunningSumIsWindowSum | rtl/strategy_ofi.sv:56-101 | in every reachable state the 48-bit sum is the plain sum of the taps, and the taps are the golden window: no width overflows up to a window of 16384 |
| Ofi.WindowLimitIff | rtl/strategy_ofi.sv:56-101 | the register holds the window sum on every stream exactly for windows up to that limit; a steadily rising market overflows any larger one |
| Ofi.RtlDecisionIsGolden | rtl/strategy_ofi.sv:42-126 | every decision shown is the golden decision of two cycles earlier |
| Ofi.StrategyOfi.Clock | rtl/strategy_ofi.sv:75-113 | the two-stage register update is the step |
| OfiShape.IncrementIs | sim/golden/ofi.py:10-17 | the flow of a tick is the pressure of the bid less that of the ask: the new size after an improvement, the change in size at the same price, less the old size after a retreat |
| OfiShape.MorePressure | sim/golden/ofi.py:10-17 | a bid no lower and no smaller against an ask no lower and no larger never lowers the flow |
| OfiShape.Opposite | sim/golden/ofi.py:10-17 | with bid and ask exchanged in role the flow is the opposite one |
| OfiShape.DecideIs | sim/golden/ofi.py:32-62 | buys at the ask exactly from 1500, sells at the bid exactly from -1500; lots of 100, 200 and 300 |
| OfiShape.StreamDecision | sim/golden/ofi.py:42-62 | over a stream a tick is traded only when it and the one before are normal, and then by the sum of the stream's last WINDOW flows |
| Quoting.MicropriceBetween | sim/golden/mm_rtl.py:18-19 | the truncated microprice lies between the two touch prices |
| Quoting.OFIMakerGolden.GetQuote | sim/golden/ofi_maker.py:41-70 | the object's quote and window update |
| Quoting.SameValidityIff | rtl/strategy_market_maker.sv:59-60 | hardware and golden model quote the same books exactly when the sizes of a quotable book do not add up to 2^32 |
| Quoting.SameMicropriceIff | rtl/strategy_market_maker.sv:56-58 | the 64-bit numerator gives the golden microprice exactly when it does not overflow |
| Quoting.SameQuoteIff | rtl/strategy_market_maker.sv:52-101 | for every tick the hardware quote is the golden one exactly when, if quotable, its sizes do not add up to 2^32, inventory keeps one quote clear of the 32-bit limits, and posted prices fit 32 bits, or are not positive when the numerator exceeds 64 bits |
| Quoting.QuotesAgreeIff | rtl/strategy_ofi_maker.sv:81-159 | the same when engine and model work with different tilts: nothing posted may then be priced above zero |
| Quoting.FullSizesDisagree | rtl/strategy_market_maker.sv:59-60 | two sizes of 2^31: the golden model quotes, the hardware does not |
| Quoting.LongNumeratorDisagrees | rtl/strategy_market_maker.sv:56-58 | a book both accept whose numerator needs 65 bits is quoted differently |
| Quoting.HighPricesDisagree | rtl/strategy_market_maker.sv:97-98 | a book at the top of the price range whose golden ask needs 33 bits |
| Quoting.GuardWraps | rtl/strategy_market_maker.sv:93-95 | at the largest inventory the wrapped guard still bids |
| Quoting.EngineLatency | rtl/strategy_market_maker.sv:52-116 | for any operand stream the output is the second stage of the operands 66 cycles ago with their own quotient and payload |
| Quoting.MarketMakerIsGolden | rtl/strategy_market_maker.sv:52-116 | on every stream the engine shows, 66 cycles on, what it computes for that tick and its own inventory, and that is the golden quote exactly when that one tick fits, whatever the others are |
| Quoting.OfiMakerShows | rtl/strategy_ofi_maker.sv:58-159 | on every stream the OFI maker shows what it computes for that tick with its own tilt, and that is the golden quote exactly when the tick fits both tilts |
| Quoting.TiltsAgree | rtl/strategy_ofi_maker.sv:58-109 | engine and model tilt a quotable tick alike as long as no quotable book up to it had sizes adding up to 2^32 |
| Quoting.OfiMakerIsGolden | rtl/strategy_ofi_maker.sv:58-159 | unless full sizes came before, the OFI maker shows the golden quote of the tick 66 cycles earlier exactly when that tick fits |
| QuotingClocked.StrategyMarketMaker.Clock | rtl/strategy_market_maker.sv:52-116 | input registers, divider and output registers in one in-place clock |
| QuotingClocked.StrategyOfiMaker.Clock | rtl/strategy_ofi_maker.sv:81-159 | the same with taps, running sum and tilt |
| QuoteShape.TiltIs | sim/golden/ofi_maker.py:34-39 | the tilt is a quarter of the windowed flow rounded down, between -150 and 150 |
| QuoteShape.MicropriceIs | sim/golden/mm_rtl.py:18-19 | the microprice is the bid plus the spread's share that the bid size has of both sizes |
| QuoteShape.QuoteIs | sim/golden/mm_rtl.py:13-38 | which books are quoted, and the quote: 100 shares 200 ticks either side of the microprice less two ticks a share held plus the tilt, the side that could pass 1000 withheld, no price below zero |
| QuoteShape.TiltLifts | sim/golden/ofi_maker.py:58-70 | a larger tilt never lowers a posted price |
| QuoteShape.InventoryLowers | sim/golden/mm_rtl.py:20-38 | more inventory never raises the bid, nor an ask that stays quoted |
| QuoteShape.MakerWindow | sim/golden/ofi_maker.py:41-56 | which books shift their flow into the maker's window, and that others only interrupt it |
| QuoteShape.MakerLeans | sim/golden/ofi_maker.py:41-70 | more buying pressure in the window never lowers a price the OFI maker posts |
| QuoteShape.MakerQuoteIs | sim/golden/ofi_maker.py:41-70 | and the quote it posts, in figures, from the window's sum |
| Itch.ParseStreamLoop | sim/golden/itch_parser.py:97-111 | the offset loop returns the recursive parse of the stream, and raises where that does |
| Itch.StreamAt | sim/golden/itch_parser.py:97-111 | one frame is consumed and the rest of the stream parsed from its end; a cut-off frame ends the stream |
| WireFormat.ParsesAs | sim/golden/itch_parser.py:50-94 | what a message of 36 bytes or more parses to by its first byte, every field as a sum over its bytes at its offset, 'S' selling |
| WireFormat.ParsesShort | sim/golden/itch_parser.py:73-94 | the same of Delete, Cancel, Execute and Replace at their own lengths |
| WireFormat.EncodesSide | sim/synth_itch.py:32-114 | the encoder writes 'B' and 'S' and the letter of the kind |
| ParserRtl.CaptureStep | rtl/itch_parser.sv:94-150 | after every byte each shift register holds the field bytes seen so far, whatever it held before |
| ParserRtl.OutputIsGolden | rtl/itch_parser.sv:194-204 | at the last byte of a supported message of full length the outputs are the fields parse_message slices, and the locate code of bytes 1 and 2 |
| ParserRtl.LastByte | rtl/itch_parser.sv:155-213 | the last byte of a frame of 2 to 64 bytes, a supported one not cut short, emits exactly when the golden parser returns a message, and raises the unsupported flag exactly when it skips one |
| ParserRtl.ParserIsGolden | rtl/itch_parser.sv:50-213 | from any register contents, for all gaps and stalls, on frames of 2 to 64 bytes with the supported ones at full length, the messages emitted are in order and once each those parse_message gives, with their locate codes |
| ParserRtl.UnsupportedIff | rtl/itch_parser.sv:169-207 | on the same frames the unsupported flag is up exactly in the cycle after the last byte of a message the golden parser skips |
| ParserFrames.EmitsByKey | rtl/itch_parser.sv:155-213 | frames of any length: one message is emitted, in order, for exactly the frames whose key byte (the type register while the last byte comes in) is a supported type, and with that type |
| ParserFrames.UnsupportedByKey | rtl/itch_parser.sv:169-207 | frames of any length: the unsupported flag is up exactly in the cycle after a frame with any other key |
| ParserFrames.EmittedAlikeIff | rtl/itch_parser.sv:188-207 | exactly when a frame is emitted where the golden parser returns a message: from 2 to 65 bytes unless that one raises; for one byte and for longer frames by the byte that is judged instead of the first |
| ParserFrames.SameTypes | rtl/itch_parser.sv:155-213 | on frames of 2 to 65 bytes, truncated ones included, as many messages are emitted as the golden parser returns, of the same types in the same order, unless it raises |
| ParserFrames.OneByteFrames | rtl/itch_parser.sv:188-207 | after a Delete a lone unsupported byte yields a message; after an unsupported message a lone Delete byte yields none |
| ParserClocked.ItchParser.Clock | rtl/itch_parser.sv:155-213 | the byte-by-byte register update is the step |
| Synth.ValueOfBytes | sim/synth_itch.py:24-30 | big-endian encoding of an n-byte field decodes to the value |
| Synth.BytesOfValue | sim/synth_itch.py:24-30 | and every byte string is the encoding of its value at its length |
| Synth.MessageRoundTrip | sim/synth_itch.py:32-114 | parsing the encoding of any message of the eight types gives the message back |
| Synth.PayloadFits | sim/synth_itch.py:32-114 | every encoded message is one the hardware parser can take |
| Synth.StreamOfFrames | sim/synth_itch.py:29-30 | parsing concatenated frames is parsing each frame |
| Synth.FramedStreamIsGolden | sim/golden/itch_parser.py:97-111 | parse_stream of a framed file is what the per-message golden parser emits |
| Synth.StreamRoundTrip | sim/synth_itch.py:24-114 | parse_stream of any concatenation of encoded messages returns exactly those messages in order |
| Synth.SynthITCH.Tick | sim/synth_itch.py:24-27 | six bytes whose big-endian value is the advanced clock, exactly while that is within 48 bits |
| Synth.SynthITCH.Build | sim/synth_itch.py:32-114 | the frame of the message at the advanced clock, or raising when the time or a field its own kind packs does not fit |
| Replay.NextSound | sim/replay_gen.py:46-97 | every choice keeps live and free references disjoint, within 1..255 and at least 8 in all, though Replace leaks references |
| Replay.EmitsIff | sim/replay_gen.py:46-97 | a pass of the loop emits one message unless no reference is free and the draw asks for a replacement; then it changes nothing |
| Replay.NextMirrors | sim/replay_gen.py:46-97 | applying the emitted message to a book whose table is the live map gives the table of the new live map, and an Add never meets an occupied slot |
| Replay.BookHoldsLiveOrders | sim/replay_gen.py:30-99 | after every run of draws the golden table is the generator's live map and no message aliased |
| Replay.CacheShowsLiveOrders | sim/replay_gen.py:30-99 | and both caches equal a rebuild from those live orders |
| Replay.StreamBuildsLiveBook | sim/replay_gen.py:30-99 | parsing the generated bytes gives the messages back, and playing them builds the live book |
| Replay.ReplayGen.BuildSynthetic | sim/replay_gen.py:30-99 | the generator loop emits the encoding of the run it made, of the length asked for unless the draws run out, and raises for no length a 48-bit clock can hold |
| Replay.ReplayGen.Draws | sim/replay_gen.py:46-97 | one pass's branches update the live map and the free list as the step says |
| ReplayShape.EmitsAs | sim/replay_gen.py:40-97 | which message a draw makes, with its thresholds, references, shares and price |
| ReplayShape.NeverCrosses | sim/replay_gen.py:40-97 | after every run all live bids lie one to four cents below 150 dollars and all asks one to four above |
| Imbalance.BuySellExclusive | sim/golden/strategy_imbalance.py:61-82 | buy and sell conditions never hold together |
| Imbalance.DecisionNearMid | sim/golden/strategy_imbalance.py:61-82 | a decision takes the far touch and is within half the maximum spread, rounded up, of the mid |
| ImbalanceRule.RuleIs | sim/golden/strategy_imbalance.py:47-82 | on the eight sizes written out: BUY at the ask exactly when the weighted bids exceed one and a half times the weighted asks, SELL at a positive bid exactly in the reverse case, on a valid book after a valid one with a positive spread of at most 1000; lots 100, 200 and 250 |
| ImbalanceRule.MoreBids | sim/golden/strategy_imbalance.py:47-82 | more bid size at any level keeps a BUY, at no smaller a lot, and makes no SELL |
| ImbalanceRule.Mirrored | sim/golden/strategy_imbalance.py:47-82 | exchanging the sizes of the sides exchanges the direction, at the same lot |
| Imbalance.StrategyImbalance.Evaluate | sim/golden/strategy_imbalance.py:61-82 | the object applies the rule to this snapshot and the previous snapshot's validity |
| Imbalance.CrossMultiplyExact | rtl/strategy_imbalance.sv:65-117 | the cross-multiplied comparisons and lot sizes do not overflow |
| Imbalance.CooldownCounts | rtl/strategy_imbalance.sv:144-167 | the counter is always the time left since the last pulse |
| Imbalance.PulseIsGolden | rtl/strategy_imbalance.sv:65-167 | a pulse shows exactly when the golden rule decides on the book of two cycles ago and no pulse was shown within the cooldown; it then shows that decision |
| Imbalance.PulsesApart | rtl/strategy_imbalance.sv:144-167 | pulses are at least COOLDOWN_CYCLES + 1 cycles apart |
| Imbalance.StrategyImbalanceRtl.Clock | rtl/strategy_imbalance.sv:122-167 | the two-stage register update is the step |
| Imbalance.WeightedSum | rtl/strategy_imbalance.sv:65-72 | the weighting loop over level lanes is the weighted sum in 64 bits |
| Risk.RiskCheck.CheckOrder | sim/phase2_golden.py:43-63 | verdict, reason priority and position update of the integer check |
| Risk.VerdictIs | sim/phase2_golden.py:43-63 | accepted exactly when not halted, size at most 500, price within 5000 of the reference and the position after within 1000; else the reason is the first of these that fails |
| Risk.GateIs | rtl/risk_check.sv:61-95 | the same of the 32-bit gate from any position within the limit, and the register moves by the signed size of what is accepted and nothing else |
| Risk.GateIsCheck | rtl/risk_check.sv:61-87 | at any position within the limit the 32-bit gate gives the integer verdict and reason; an accepted position has not wrapped |
| Risk.PositionRun | rtl/risk_check.sv:61-95 | on every order stream the register is the golden position, the signed sum of accepted sizes, and within the limit |
| Risk.GateRunIsGolden | rtl/risk_check.sv:61-95 | hence the gate accepts and explains every next order as the integer check does |
| Risk.ImbalanceOrderVerdict | rtl/tick_to_trade_top.sv:160-189 | an imbalance order is never too large, and is in the price band of its own 32-bit mid exactly when bid + ask is below 2^32 |
| Risk.LostCarryBlocks | rtl/tick_to_trade_top.sv:160-189 | an order one tick from its true mid that the lost carry blocks for its price |
| Risk.RiskCheckRtl.Clock | rtl/risk_check.sv:61-95 | from a position within the limit: the verdict is the integer check, the register moves by the accepted signed size and stays within the limit; in general it is the gate |
| Phase2.ProposalChecked | sim/phase2_golden.py:77-87 | a proposed order is rejected only for the position limit, exactly when it would exceed it |
| Phase2.ChainDisciplined | sim/phase2_golden.py:66-95 | in the trace of every stream each reject is for the position limit, each accepted price is near its mid, and the position is the signed sum of accepted sizes |
| Phase2.ChainIs | sim/phase2_golden.py:66-95 | what each message adds to the trace: the evaluation of the golden book after it, given whether that before it was valid, checked at the position all accepted sizes add up to; nothing else is added |
| Phase2.RemembersValid | sim/golden/strategy_imbalance.py:61-66 | the validity the strategy remembers is that of the golden book before the message |
| Phase2.RunBook | sim/phase2_golden.py:66-95 | the chain's book is the golden book of the stream |
| Phase2.RunStream | sim/phase2_golden.py:66-95 | the loop over parsed messages returns the chain's decisions, rejects and position |
| Phase2.Evaluate | sim/phase2_golden.py:78-83 | strategy and risk objects together give the outcome on the current snapshot |
| Top.BlocksRun | rtl/tick_to_trade_top.sv:66-213 | inside the top level each block runs as it would alone on the ports the wiring gives it |
| Top.MidAligned | rtl/tick_to_trade_top.sv:163-172 | the twice-registered mid is that of the snapshot two cycles ago, the one the strategy decides on |
| Top.HandedOver | rtl/tick_to_trade_top.sv:66-123 | the messages the parser delivers are exactly those the book accepts, through every stall |
| Top.LagBound | rtl/tick_to_trade_top.sv:66-123 | the book is at most two messages behind those received: one in work, one held by the parser |
| Top.ShownIsGoldenPrefix | rtl/tick_to_trade_top.sv:66-123 | from reset, in every cycle the displayed book is the golden book of the messages received, save at most the last two |
| Top.DecisionOnShot | rtl/tick_to_trade_top.sv:133-172 | a decision is shown exactly when the rule makes one on the snapshot two cycles ago outside the cooldown; it is that one, beside that snapshot's own mid |
| Top.BeatIsAcceptedOrder | rtl/tick_to_trade_top.sv:191-270 | an output beat is exactly an order the gate accepted two cycles earlier |
| Top.EndToEnd | rtl/tick_to_trade_top.sv:66-270 | bytes to orders: a decision is shown exactly when the golden rule makes one, outside the cooldown, on the golden book shown two cycles earlier; the gate's verdict is the integer check against that book's mid, and the position is the bounded sum of accepted sizes |
| Liveness.WorkStep | rtl/tick_to_trade_top.sv:66-123 | every cycle either takes in a byte or does one of the cycles of work left in book and parser, however the book's scan stands |
| Liveness.QuietSettles | rtl/tick_to_trade_top.sv:66-123 | after any stream of frames the parser can take, 2 * depth + 7 cycles without a byte are enough for the display to be the golden book of every message received, none left behind |
| Trader.PulseIsFire | rtl/strategy_imbalance.sv:122-167 | the pulses of the strategy registers are the decisions of the golden rule under its cooldown, defined from the book views alone |
| Trader.TakenAreOrders | rtl/tick_to_trade_top.sv:125-213 | in every cycle the orders the gate has let through are exactly those that rule, cooldown and integer risk check make of the book views so far, each checked at the position of the orders before it |
| Trader.HaltTakesNothing | rtl/risk_check.sv:61-95 | in every run, a cycle with halt set takes no order, leaves the position register, and is followed by no beat two cycles later |
| Trader.HaltedOrders | sim/phase2_golden.py:43-63 | while halt stays set the pipeline makes no more orders |
| TopClocked.TickToTradeTop.constructor | rtl/tick_to_trade_top.sv:66-270 | a new assembly stands in the reset state the end-to-end results start from, for any table depth of two or more |
| TopClocked.TickToTradeTop.Clock | rtl/tick_to_trade_top.sv:66-270 | the composed objects clock as the composed state |
| Bridge.FifoStep | f1/cl_tick_to_trade_core.sv:94-108 | one clock keeps pointer and count consistent and acts as a queue |
| Bridge.FifoOrder | f1/cl_tick_to_trade_core.sv:81-108 | in every reachable state the bytes handed on, then those queued, are the accepted pushes in order |
| Bridge.ReadsAnswer | f1/cl_tick_to_trade_core.sv:191-247 | after any bus traffic a read taken and not answered is held: a local one valid with the register map's word at its address as of the cycle that took it, a forwarded one presenting its address until the inner bus answers and then holding that answer |
| Bridge.StatusBits | f1/cl_tick_to_trade_core.sv:218-223 | the status word bit by bit, and the count register |
| Bridge.WritesHeld | f1/cl_tick_to_trade_core.sv:149-189 | after any bus traffic a write taken and not answered presents its address and data where it is forwarded, is valid for answer where it is local, and pushes only its own data and only at the ingress register |
| Bridge.HostItem | f1/cl_tick_to_trade_core.sv:165-173 | a write to 0x200 carries its low byte, and the last-byte flag in bit 8 |
| Bridge.NothingLost | f1/cl_tick_to_trade_core.sv:149-222 | a host that, between a write response and the next write, has received a status word without the full bit loses no byte |
| Bridge.WritesArriveInOrder | f1/cl_tick_to_trade_core.sv:81-189 | what such a host wrote is what was handed on, what is queued, and at most one byte on its way |
| Bridge.EgressHoldsFirst | f1/cl_tick_to_trade_core.sv:110-132 | the buffer holds exactly the first min(DEC_CAP, k) of k decision beats, and overflow is set exactly when k is larger |
| Bridge.ReadBack | f1/cl_tick_to_trade_core.sv:191-247 | the answers to reads of the three words of a decision captured when the read was taken are its action, price and size |
| BridgeClocked.ClTickToTradeCore.constructor | f1/cl_tick_to_trade_core.sv:94-212 | reset empties both memories' pointers and idles both bus sides, whatever the memories hold |
| BridgeClocked.ClTickToTradeCore.Clock | f1/cl_tick_to_trade_core.sv:94-247 | the four clocked blocks, run in place, are one step |
| BridgeClocked.ClTickToTradeCore.ReadLocal | f1/cl_tick_to_trade_core.sv:218-231 | the local register map |
| Core.HalvesRun | f1/cl_tick_to_trade_core.sv:51-79 | wired together, bridge and datapath each run on the pins the other drives |
| Core.StreamedIsFramed | f1/cl_tick_to_trade_core.sv:84-92 | the bytes the parser receives, framed by its last-byte flag, are those the FIFO hands on |
| Core.ReceivedFromHost | f1/cl_tick_to_trade_core.sv:81-189 | for a host that looks for room before it writes and writes frames of 2 to 64 bytes, supported ones at full length, the messages received are a first part of the golden messages of what it wrote |
| Core.BeatsAreTaken | f1/cl_tick_to_trade_core.sv:110-132 | the decision beats are, in order and once each, the orders the risk gate let through until two cycles ago |
| Core.CapturesGoldenOrders | f1/cl_tick_to_trade_core.sv:51-132 | for every such host and any bus traffic: the capture buffer holds the first 128 orders that the golden rule, its cooldown and the integer risk check make, cycle by cycle, of the golden books of the host's own messages as far as completed by then, and overflow tells whether there were more |
| Core.HostReadsGoldenOrder | f1/cl_tick_to_trade_core.sv:191-247 | the answer on the bus to a read at 0x400 + 16 k + 4 j, for an order captured when the read was taken, is word j of golden order k: action, price, size |
| Core.ScheduleStep | rtl/tick_to_trade_top.sv:66-123 | the golden books go through the host's messages in order, at most one a cycle |
| Core.LoadStep | f1/cl_tick_to_trade_core.sv:81-108 | without a write, every cycle with anything queued, pending or in work brings the end closer, whatever the bus does otherwise |
| Core.DeviceSettles | f1/cl_tick_to_trade_core.sv:51-108 | after 67 * depth + 333 cycles without an ingress write, such a host finds displayed the golden book of all messages it wrote |
| CoreClocked.ClTickToTrade.constructor | f1/cl_tick_to_trade_core.sv:51-132 | a new device over memories of any contents stands in the state the device results start from |
| CoreClocked.ClTickToTrade.Clock | f1/cl_tick_to_trade_core.sv:51-132 | the two halves, clocked in place on each other's outputs, are one step of the device |
| Accounting.AverageCostIff | host/portfolio.py:117-132 | the average-cost arithmetic is the only one that moves the shares and the cash, books profit only on closing, keeps the average on a partial close, clears it on a full one and restarts it on a flip |
| Accounting.ProfitIsCashFlow | host/portfolio.py:117-166 | after any fills, realized - position * average is the cash flow, and profit at any mark is cash plus position * mark |
| Accounting.LegsSumToAccountIff | host/strategy_registry.py:78-110 | the legs' realized and unrealized profit add up to that of one account for all fills, exactly when the mark is nonzero or their open cost is zero |
| Accounting.NoMarkDisagrees | host/strategy_registry.py:105-110 | one share held at mark zero: nothing to its leg, a loss to the account |
| Accounting.Leg.OnFill | host/strategy_registry.py:78-103 | the leg's in-place booking is the same average-cost step, and a zero fill of a flat leg is ignored |
| Accounting.Leg.UnrealizedUsd | host/strategy_registry.py:105-110 | at a mark, the worth of the holding less its booked profit; without one, zero |
| Portfolios.EquityIsCashPlusExposure | host/portfolio.py:98-170 | for any fills and marks over any symbols, equity is the cash moved plus net exposure at the marks |
| Portfolios.TicketsAddUp | host/portfolio.py:98-160 | after any marks, fills and reconciliations, the profits of the fills, one log entry each, add up to the realized total of the books |
| Portfolios.BookTracksFills | host/portfolio.py:68-132 | each symbol's book holds the shares and cash of that symbol's fills, reseeded averages notwithstanding |
| Portfolios.LegsSumToBookIff | host/strategy_registry.py:78-110 | the legs trading a symbol add up to the account's book of it at its mark, under the same exact condition |
| Portfolios.HaltedIffDropped | host/portfolio.py:197-207 | the switch is set exactly when at some fill recorded equity was the limit or more below max(0, best so far), for any limit; the daily-loss test adds no case |
| Portfolios.StaysHalted | host/portfolio.py:197-207 | no later fill clears it |
| PortfolioShape.FillMoves | host/portfolio.py:98-132 | a buy adds its size to the position and a sale takes it away |
| PortfolioShape.SlippageIs | host/portfolio.py:137-143 | slippage is the price difference on every share, positive exactly when a buy paid more or a sale got less than asked |
| PortfolioShape.FeeIs | host/portfolio.py:134-136 | the broker's fee when known, else so many ten-thousandths of the notional; a dollar is 10000 ticks |
| PortfolioShape.MarkIsLastMid | host/portfolio.py:68-73 | whatever is traded, a symbol is marked at the last mid recorded for it |
| PortfolioShape.ReconcileIs | host/portfolio.py:81-95 | aligning takes the broker's position, keeps realized profit, clears a flat book's average, and marks at the broker's mark when given |
| PortfolioShape.ReasonIsLastTrip | host/portfolio.py:197-207 | the reason shown is that of the last fill that tripped the switch: daily loss at or below minus the limit, else drawdown |
| PortfolioShape.NoReasonBefore | host/portfolio.py:197-207 | and there is none before the first such fill |
| PortfolioState.SymbolBook.Fill | host/portfolio.py:117-132 | opening, adding, closing and flipping in place is the average-cost step |
| PortfolioState.Portfolio.MarkPrice | host/portfolio.py:68-73 | marks one book, seeding a flat average, changes no other, and keeps the trade log adding up to the realized total |
| PortfolioState.Portfolio.SetPosition | host/portfolio.py:81-95 | aligns one book with the broker's position, leaving realized profit, which the trade log still adds up to |
| PortfolioState.Portfolio.OnFill | host/portfolio.py:98-160 | books the fill and the fee, checks the switch, records equity and realized profit and logs the trade with its profit and slippage; the realized total moves by exactly the profit logged, so the log goes on adding up to it; false, with nothing booked, where the average would divide by zero |
| PortfolioState.Portfolio.Check | host/portfolio.py:197-207 | keeps the switch, its reason and the peak what the recorded equities make them |
| PortfolioState.Portfolio.EquityNow | host/portfolio.py:158-166 | the two sums over the dictionary are the equity of its books |
| Maker.MarketMaker.GetQuote | host/market_maker.py:71-119 | the quote, its refusals and its position guard, in whole ticks or in rounded real arithmetic |
| MakerShape.HostQuoteIs | host/market_maker.py:71-119 | which markets are refused, exactly when a side is posted, and the whole-tick prices from spread, sizes, skew and half spread |
| MakerShape.RoundedQuoteIs | host/market_maker.py:100-107 | the rounding path posts within half a tick of the skewed fair price less and plus the half spread |
| MakerShape.FairIs | host/market_maker.py:64-69 | the fair price divides the spread as the bid size divides the sizes |
| Maker.NeverCrossed | host/market_maker.py:109-113 | a two-sided quote is never crossed or locked, along either path |
| Maker.FloatWithinOneTick | host/market_maker.py:83-107 | with whole skew ticks the rounded path puts each side on the integer quote or one tick above |
| Maker.MirrorsGoldenIff | host/market_maker.py:79-119 | exactly when the host's quote is the golden one |
| Maker.OneSidedBookDiffers | host/market_maker.py:79-81 | a one-sided book the golden model quotes and the host refuses |
| Maker.NegativePriceDiffers | host/market_maker.py:94-119 | a long inventory that makes the host post a negative price |
| Maker.PositionCappedIff | host/backtest.py:157-178 | for all quote streams and fills the position stays within max_position, after every tick and between its two fills, exactly for configurations whose quote size and cap are not negative |
| MakerShape.TickMoves | host/backtest.py:157-178 | one tick buys the hit bid's size at the bid price and sells the hit ask's size at the ask price, moves nothing else, and ends marked at the next mid |
| MakerShape.TickFees | host/backtest.py:168-175 | its fees are so many ten-thousandths of what those fills traded |
| Maker.AccountPosition | host/backtest.py:161-163 | the inventory quoted with is the account's own position |
| Maker.NetIsCashHoldingFees | host/backtest.py:157-178 | each plotted figure is cash moved plus holding at the mark less fees |
| Maker.FillsAreBooked | host/backtest.py:168-175 | the fill count is that of the fills booked in the account |
| Maker.RunMaker | host/backtest.py:157-178 | the loop leaves the account with exactly the books, fees, fill count and curve of its events, and stops where quoting divides by zero |

## Left out

* Random numbers: the generator's draws and the backtest's fill draws are parameters; every sequence is covered.
* Python exceptions are an absent result (`None`, `false`); what a caller does with a raised error is not modelled.
* Memory contents at reset are arbitrary; the reset line itself, clocks, metastability and timing are not modelled.
* `& MASK` on a table index is modelled as the remainder by the depth, equal for the powers of two the hardware allows.
- Synth.SynthITCH.Build: stands for the eight builder methods, selected by the message kind, because they differ only in their field lists.
- ParserRtl.OutputIsGolden: compares every golden field but Delete's shares, because the hardware leaves the previous value there; the book never reads it (`Top.ApplyAlike`).
- ParserRtl.ParserIsGolden: likewise leaves Delete's stale shares uncompared; and it takes frames of 2 to 64 bytes, supported ones at full length, because beyond them registers hold stale or overwritten field bytes. `ParserFrames` says which of the others are emitted, not what their fields are.
- ParserRtl.UnsupportedIff: takes the same frames; `ParserFrames.UnsupportedByKey` covers the rest.
* Tracking numbers, symbols, attributions and match numbers are encoded but not compared after parsing; no parser reads them.
* The OFI path of the top level (`strat_sel`), the latency counter and the passthrough of its registers: the bridge's forwarding handshake is modelled, what answers it is not.
* `waddr_l`, `wdata_l` and `raddr_l` of the bridge are written but never read.
* Clock-domain crossings, `rtl/mc_glue.sv`, the three-clock top, `rtl/multi_symbol_book.sv` and `rtl/market_maker_top.sv`.
* The first order book (`rtl/order_book_top.sv`), which the multi-level one supersedes.
- PortfolioState.Portfolio.OnFill: keeps the two curves and the trade log in exact reals, without the rounding to cents, the wall-clock time and the compute latency the log also carries.
* Host money is in exact reals: rounding of floats and the statistics made from the trade log are not modelled.
* `set_quote`, `gross_room` and the reports of the portfolio; `StrategyBook`'s lookup of a leg by name and its rounded totals.
- Maker.MarketMaker.GetQuote: with `rtl_exact` off it rounds exact reals, not floats.
- Maker.RunMaker: without the drawdown and Sharpe-like metrics computed from its curve.
* The other backtests.
* Brokers, feeds, dashboards and servers.
