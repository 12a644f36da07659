# luno-io order book, in Dafny

This project models the core of luno-io, a JavaScript client for the Luno
exchange's streaming market data. It also proves properties of that model.

At its centre is the order book (`lib/luno-book.js`), which is fed the
exchange's messages one at a time:

- A snapshot is a message that carries both an ask list and a bid list. It
  replaces the whole book and makes it live.
- An incremental message is applied only while the book is live, and only
  when its sequence number is the decimal successor of the current one.
  It applies its create, then its trades, then its delete.
- An out-of-sequence message flushes the book.
- The book answers queries about its resting orders:
  - best prices, with exclusion lists and ±infinity for an empty side;
  - the trading direction of a currency pair;
  - bid and ask depth;
  - marketability of an order;
  - the ticker;
  - a sorted projection of the whole book.

Around the book the project models:

- the order record and its factory (`lib/luno-order.js`);
- the fixed-point helpers that turn decimal text into satoshis and back, plus
  the ticker built from a projection (`lib/luno-util.js`);
- the immutable currency value (`lib/luno-currency.js`);
- the executer's position-reconciliation loop and price-improvement rules
  (`lib/executer.js`).

Modules and files:

| file | module | models |
|---|---|---|
| wrappers.dfy | Wrappers | `Option`, and `ExtInt` (integers with ±infinity for `Number.POSITIVE_INFINITY` / `NEGATIVE_INFINITY`) |
| decimal.dfy | Decimal | decimal text: `Number#toString` of integers, `parseInt`, `Number(text)` on `[-]digits[.digits]` |
| feed.dfy | Feed | the messages coming in and the projection going out |
| util.dfy | LunoUtil | `lib/luno-util.js` |
| order.dfy | LunoOrder | `lib/luno-order.js` |
| currency.dfy | LunoCurrency | `lib/luno-currency.js` |
| book.dfy | LunoBook | the state machine of `lib/luno-book.js` |
| book_queries.dfy | LunoBookQueries | the read-only queries of `lib/luno-book.js` |
| executer.dfy | Executer | the reconciliation helpers of `lib/executer.js` |

Units and representation:

- Every amount is an integer: prices in cents (1/100 ZAR) and volumes in
  satoshis (1/10^8 XBT).
- The book's state change is specified by a pure transition, `LunoBook.Step`.
  The class `LunoBook.Book` performs that change in place, field by field,
  and its `State` method is proved to end in exactly the state `Step`
  describes.
- The book's event emitter is an append-only event log held on the book.
- The executer's calls to `stopOrder` are an append-only list of cancelled ids.
- The reconciliation loop splices its `OpenOrderList` in place, as the source
  does.

Where the tests and the code disagree:

- `processTradeUpdate` returns nothing in the source (`lib/luno-order.js:39-43`),
  while the book reads the volume of its result and the tests expect the order
  itself back. The model returns the order; the as-written version sits beside
  it (see "## Findings").
- `toSimple` is called by the projection but not defined. The projection lists
  integer records (`Feed.SimpleOrder`).
- `convertSatoshisToDecimalString` renders four decimals, and a delete naming
  an unknown order removes the last one. The book, the order and the ticker
  model the intended behaviour: eight decimals, and a delete that removes
  nothing. The as-written members sit beside the corrected ones, and
  "## Findings" records each discrepancy. For prices, which are whole cents,
  the two renderings read back to the same value
  (`LunoUtil.AsWrittenKeepsPrices`), so `getMinAsk` and `getMaxBid` lose
  nothing there.

## Model

| member | source | states |
|---|---|---|
| LunoBook.InitialValid | lib/luno-book.js:7-9 | a new book is not live and satisfies the book invariant (orders exist exactly while live; a live book has a cursor and both logs) |
| LunoBook.Book.constructor | lib/luno-book.js:7-9 | a new book is not live, holds no orders, cursor, timestamp or logs, and has emitted nothing |
| LunoBook.Entry | lib/luno-book.js:36-54 | the order the book holds for a snapshot entry is exactly what the order factory builds from the entry with its type forced to the side |
| LunoBook.Entries | lib/luno-book.js:40-54 | one order per entry, in list order |
| LunoBook.Book.AppendEntries | lib/luno-book.js:36-54 | the entries' orders are appended to the order list and nothing else changes |
| LunoBook.Book.SetInitial | lib/luno-book.js:56-67 | the book ends in the snapshot state: asks tagged ASK then bids tagged BID, the message's cursor, the timestamp (null when falsy), empty logs, live, one 'initialized' event |
| LunoBook.CheckSequenceSuccessor | lib/luno-book.js:69-71 | on a numeric cursor n, a sequence is accepted if and only if it is the decimal text of n + 1 |
| LunoBook.CheckSequenceRefusesOthers | lib/luno-book.js:69-71 | a repeated or skipped sequence number is refused |
| Decimal.ParseIntToString | lib/luno-book.js:70 | parseInt reads back the decimal text of every integer |
| Decimal.IntToStringInjective | lib/luno-book.js:70 | distinct integers have distinct decimal texts |
| LunoBook.FindIndex | lib/luno-book.js:12 | findIndex gives an index whose order has the id, or -1 |
| LunoBook.FindIndexFirst | lib/luno-book.js:12 | the index found is the first match, and -1 only when no order has the id |
| LunoBook.HasOrderIff | lib/luno-book.js:12 | findIndex finds the id exactly when some order has it |
| LunoBook.Book.FindOrder | lib/luno-book.js:12 | the search loop returns what findIndex returns |
| LunoBook.TradePrice | lib/luno-book.js:23 | no price exactly when the base is zero; otherwise the price per coin in cents is rounded to the nearest cent |
| LunoBook.Book.ProcessTradeUpdate | lib/luno-book.js:11-26 | orders and logs end as the trade transition `ApplyTrade` describes; cursor, timestamp, liveness and events are unchanged |
| LunoBook.Book.ProcessTradeUpdates | lib/luno-book.js:28-30 | the trades are applied first to last, as `ApplyTrades` describes |
| LunoBook.TradeTakesBase | lib/luno-book.js:11-26 | a trade takes exactly its base out of the resting volume and appends one record: its volume, the message timestamp, its price, and is_buy = (the matched order is an ask) |
| LunoBook.TradeRemovesIffFilled | lib/luno-book.js:14-19 | the matched order leaves the book, and its id is logged, exactly when the trade takes all its volume; otherwise only that order's volume changes |
| LunoBook.TradesTakeBases | lib/luno-book.js:28-30 | a list of trades takes out the sum of its bases, appends one record per trade, and only extends the logs |
| LunoBook.Book.DeleteOrder | lib/luno-book.js:126-129 | orders and logs end as the corrected delete `Delete` describes; nothing else changes |
| LunoBook.DeleteEffect | lib/luno-book.js:126-129 | a delete removes the first order with the id (its volume leaves the book, the other orders stay in order) or nothing when no order has it; the id is logged either way |
| LunoBook.DeleteAgreesWhenPresent | lib/luno-book.js:127-128 | when the id is in the book, the delete as written and the corrected delete agree |
| LunoBook.DeleteAsWrittenDropsLast | lib/luno-book.js:127 | as written, deleting an unknown id drops the last order |
| LunoBook.Book.Update | lib/luno-book.js:116-138 | the update branch ends in `ApplyUpdate`: create, then trades, then delete, then the cursor and timestamp, then the events |
| LunoBook.Book.State | lib/luno-book.js:109-144 | the book ends in the state, and returns the value, that `Step` gives; the book invariant is kept |
| LunoBook.Book.FlushBook | lib/luno-book.js:192-202 | flush returns true and forgets orders, cursor and timestamp exactly when live; a book that is not live is unchanged |
| LunoBook.Book.IsLive | lib/luno-book.js:204-206 | the book is live exactly when it holds an order list |
| LunoBook.Book.DeletedOrders | lib/luno-book.js:188-190 | returns the book's removed-id log, which is defined exactly when the trade log is |
| LunoBook.StepValid | lib/luno-book.js:109-148 | every transition keeps the book invariant |
| LunoBook.SnapshotReplaces | lib/luno-book.js:56-67 | a snapshot is accepted in any state and its result does not depend on that state (apart from the event log); it installs exactly its asks and bids, the message's cursor, its timestamp (null when 0), empty logs, and appends one 'initialized' event |
| LunoBook.NotLiveIgnores | lib/luno-book.js:113-144 | an incremental message to a book that is not live is refused and changes nothing |
| LunoBook.OutOfSequenceFlushes | lib/luno-book.js:139-142 | an incremental message out of sequence is refused and flushes the book: orders, cursor and timestamp are forgotten, the logs are kept |
| LunoBook.AcceptedAdvancesCursor | lib/luno-book.js:116-131 | an incremental message is accepted exactly when the book is live and the sequence is n + 1, and it then moves the cursor to n + 1 |
| LunoBook.ReplayFlushes | lib/luno-book.js:69-71 | replaying an accepted update is refused and flushes the book |
| LunoBook.FlushIdempotent | lib/luno-book.js:192-202 | flush succeeds exactly on a live book, a second flush finds nothing live, and the logs survive |
| LunoBook.UpdateEffect | lib/luno-book.js:117-138 | an accepted update takes the message's cursor and timestamp, emits 'update' then orderCreated with the created order, appends one trade record per trade, and only extends the removed-id log |
| LunoBook.UpdateVolume | lib/luno-book.js:117-125 | without a delete, an update changes the resting volume by the created order's volume minus the traded bases |
| LunoBookQueries.MinAsk | lib/luno-book.js:158-167 | the fold is at most every ask that is not excluded, is one of them, and is +infinity exactly when none qualifies |
| LunoBookQueries.MaxBid | lib/luno-book.js:277-284 | the fold is at least every bid that is not excluded, is one of them, and is -infinity exactly when none qualifies |
| LunoBookQueries.GetMinAskPrice | lib/luno-book.js:158-167 | undefined exactly when the book holds no orders, otherwise the least ask fold |
| LunoBookQueries.BidAskDirection | lib/luno-book.js:242-253 | null without options, BID exactly for ZAR to XBT, ASK exactly for XBT to ZAR, otherwise undefined |
| LunoBookQueries.BestPrice | lib/luno-book.js:255-286 | undefined without orders; otherwise the best bid and ask of the whole book without options, the least ask toward ASK, the greatest bid toward BID, undefined for another pair |
| LunoBookQueries.BestBidIsGreatest | lib/luno-book.js:277-284 | toward BID the best price is at least every bid that is not excluded, and -infinity exactly when there is none |
| LunoBookQueries.RoundToHundredth | lib/luno-book.js:225 | Math.round(x * 100) / 100 on satoshis gives a multiple of 10^6 within half of it |
| LunoBookQueries.GetBidDepth | lib/luno-book.js:208-217 | defined exactly when the book is live and a non-zero threshold is given; then the bid fold |
| LunoBookQueries.GetAskDepth | lib/luno-book.js:219-228 | defined exactly when the book is live and a non-zero threshold is given; then the ask fold |
| LunoBookQueries.BidDepthExtremes | lib/luno-book.js:208-217 | with no lower bound the bid depth is the whole counting bid volume; above every price it is 0 |
| LunoBookQueries.BidDepthMonotone | lib/luno-book.js:214 | over volumes that are not negative, lowering the threshold never lowers the bid depth |
| LunoBookQueries.BidDepthWitness | lib/luno-book.js:208-217 | a non-zero bid depth has a counting bid at or above the threshold |
| LunoBookQueries.AskDepthExactOnHundredths | lib/luno-book.js:219-228 | on volumes that are whole hundredths of a coin, the per-step rounding changes nothing: the ask depth equals the exact sum |
| LunoBookQueries.AskDepthError | lib/luno-book.js:225 | the rounded ask depth is within half a hundredth of a coin per order of the exact sum |
| LunoBookQueries.IsOrderMarketable | lib/luno-book.js:230-240 | undefined exactly for an order with no type |
| LunoBookQueries.AskMarketableIff | lib/luno-book.js:231-234 | on a live book, an ask is marketable if and only if some bid is priced at or above it and (when it has a volume) the bids so priced cover its volume |
| LunoBookQueries.BidMarketableIff | lib/luno-book.js:235-238 | on a live book, a bid is marketable if and only if some ask is priced at or below it and (when it has a volume) the rounded ask depth covers its volume |
| LunoBookQueries.GetOrder | lib/luno-book.js:150-156 | find gives an order exactly when one has the id, and then the first such order |
| LunoBookQueries.GetDeletedOrders | lib/luno-book.js:188-190 | the removed-id log, defined whenever the book is live |
| LunoBookQueries.WithBuyingDefaults | lib/luno-book.js:174 | a currency the caller gives is kept and a missing one becomes 'ZAR' (from) or 'XBT' (to); the exclusion list and the price pass through unchanged |
| LunoBookQueries.GetTicker | lib/luno-book.js:169-186 | undefined exactly when the book is not live; otherwise the least ask, the timestamp, the best price under the buying defaults as the bid, and a last trade and a rolling volume exactly when there are trades: the last record's price and the summed volume of all records |
| LunoBookQueries.TickerBidIsBestBid | lib/luno-book.js:174 | without a currency pair, the ticker's bid is the greatest bid not on the caller's exclusion list, under ZAR to XBT |
| LunoBookQueries.TradesVolumeAppend | lib/luno-book.js:180-182 | each new trade record adds its volume to the ticker's volume |
| LunoBookQueries.StrLessIrreflexive | lib/luno-book.js:81 | no id sorts before itself under string comparison |
| LunoBookQueries.StrLessTransitive | lib/luno-book.js:81 | string comparison is transitive |
| LunoBookQueries.StrLessTotal | lib/luno-book.js:81 | of two distinct ids, one sorts before the other |
| LunoBookQueries.BeforeIrreflexive | lib/luno-book.js:78-98 | the comparator never puts an order before itself |
| LunoBookQueries.BeforeTransitive | lib/luno-book.js:78-98 | the comparator is transitive |
| LunoBookQueries.SortSideCorrect | lib/luno-book.js:78-98 | the sorted side is sorted by the comparator and is a permutation of the side |
| LunoBookQueries.SidesPartition | lib/luno-book.js:76-89 | every order is on exactly one side |
| LunoBookQueries.Simplified | lib/luno-book.js:87 | one projected record per order, in order |
| LunoBookQueries.Projection | lib/luno-book.js:73-107 | null exactly when the book is not live; otherwise the book's cursor, timestamp and trades |
| LunoBookQueries.ProjectionSorted | lib/luno-book.js:73-107 | asks ascend by price and bids descend, ties by ascending id; each side is a permutation of that side's orders; every order is projected once |
| LunoUtil.SatoshisPerCoinIsPow10 | lib/luno-util.js:5 | the conversion factor is 10^8 |
| LunoUtil.RoundHalfUp | lib/luno-util.js:5 | Math.round: the nearest integer, a tie going up |
| LunoUtil.RoundHalfUpExact | lib/luno-util.js:5 | rounding a whole number changes nothing |
| Decimal.ParseLayout | lib/luno-util.js:5 | the decimal text `[-]ip[.frac]` reads as exactly its digits |
| LunoUtil.ToSatoshisExact | lib/luno-util.js:4-6 | an amount with at most eight decimals converts exactly to satoshis |
| LunoUtil.FiveTenThousandthsExample | test/luno-util.spec.js:12-16 | '0.0005' is 50000 satoshis |
| LunoUtil.TwelveFiftyTwoExample | test/luno-util.spec.js:19-42 | '12.52' is 1252000000 satoshis, and 1252000000 renders as '12.52' |
| LunoUtil.ReadsAndRendersBack | lib/luno-util.js:4-10 | a canonical decimal text reads as its satoshis, which render as the text again |
| LunoUtil.TextRoundTrip | lib/luno-util.js:4-10 | text with at most `places` decimals, no trailing zero and no negative zero survives the trip to satoshis and back |
| LunoUtil.SatoshisRoundTrip | lib/luno-util.js:4-10 | a whole number of the last rendered place survives the trip to text and back |
| LunoUtil.SatoshisToDecimalStringRoundTrip | lib/luno-util.js:8-10 | the corrected rendering reads back to every satoshi amount |
| LunoUtil.AsWrittenRoundsToFourPlaces | lib/luno-util.js:9 | the rendering as written reads back to a multiple of 10^4 satoshis within half of it |
| LunoUtil.AsWrittenLosesDigits | test/luno-util.spec.js:32-34 | as written 102389700 satoshis renders as '1.0239', and the corrected rendering gives '1.023897' |
| LunoUtil.MinAskSatoshis | lib/luno-util.js:12-16 | the least ask price in satoshis, +infinity exactly for no asks |
| LunoUtil.MaxBidSatoshis | lib/luno-util.js:18-22 | the greatest bid price in satoshis, -infinity exactly for no bids |
| LunoUtil.GetMinAskValue | lib/luno-util.js:12-16 | getMinAsk's text is 'Infinity' for no asks, otherwise it reads back to the least ask price |
| LunoUtil.GetMaxBidValue | lib/luno-util.js:18-22 | getMaxBid's text is '-Infinity' for no bids, otherwise it reads back to the greatest bid price |
| LunoUtil.MakeTicker | lib/luno-util.js:24-35 | undefined exactly for a missing book; otherwise getMinAsk and getMaxBid of the book as ask and bid, the book's timestamp and the two fixed placeholders |
| LunoUtil.AsWrittenKeepsPrices | lib/luno-util.js:9-21 | a whole-cent price reads back unchanged from both the four-place and the eight-place rendering |
| LunoOrder.ReducedVolume | lib/luno-order.js:36-38 | the reduction, by way of the corrected text rendering, is exactly old minus change |
| LunoOrder.Reduce | lib/luno-order.js:36-38 | the reduction the order and the book perform is old minus change |
| LunoOrder.ReducedVolumeAsWritten | lib/luno-order.js:37 | as written the reduced volume is the difference rounded to a multiple of 10^4 satoshis |
| LunoOrder.AsWrittenExactOnFourPlaces | lib/luno-order.js:36-38 | as written the reduction is exact when both amounts have at most four decimals |
| LunoOrder.AsWrittenLosesSatoshis | test/luno-order.spec.js:244-255 | '1.0245' reduced by '0.000603' keeps 1.0239 as written, and the corrected reduction gives 1.023897 |
| LunoOrder.AsWrittenBelowHalfUnit | lib/luno-order.js:36-38 | as written, a remainder under half of 0.0001 coin reads back as 0 |
| LunoOrder.AsWrittenEmptiesOrder | lib/luno-book.js:14-18 | 0.0001 coin reduced by 0.00006 keeps 0 as written, so the book would remove the order as filled; the corrected reduction keeps 0.00004 |
| LunoOrder.Order.constructor | lib/luno-order.js:5-7 | a new order has every field undefined |
| LunoOrder.Order.SetVolume | lib/luno-order.js:11-13 | the getter returns the volume set, and no other field changes |
| LunoOrder.Order.SetId | lib/luno-order.js:17-20 | returns true; the getter returns the id set, and no other field changes |
| LunoOrder.Order.SetPrice | lib/luno-order.js:24-26 | the getter returns the price set, and no other field changes |
| LunoOrder.Order.SetType | lib/luno-order.js:30-32 | the getter returns the type set, and no other field changes |
| LunoOrder.Order.IsId | lib/luno-order.js:21-23 | exact equality with the stored id; an order without an id matches nothing |
| LunoOrder.Order.ReduceVolume | lib/luno-order.js:36-38 | a defined volume drops by exactly the change; an undefined one stays undefined (see "## Left out"); other fields are kept |
| LunoOrder.Order.ProcessTradeUpdate | lib/luno-order.js:39-43 | returns the order; reduces its volume by the base exactly when the trade names it; nothing else changes |
| LunoOrder.Order.ProcessTradeUpdateAsWritten | lib/luno-order.js:39-43 | as written, the same change of volume, but nothing is returned, so there is no order on which the book can call getVolume |
| LunoOrder.OptionsId | lib/luno-order.js:50-54 | `id` when truthy, else `order_id` when truthy, else none; never the empty id |
| LunoOrder.MakeOrder | lib/luno-order.js:47-66 | a fresh order holding exactly the supplied fields (`FromOptions`) |
| LunoCurrency.NumberOfDecimals | lib/luno-currency.js:9-16 | 2 for ZAR, 8 for XBT, undefined otherwise |
| LunoCurrency.ToSmallestUnits | lib/luno-currency.js:18-20 | floor(amount * 10^decimals), NaN exactly when the amount or the decimals are missing |
| LunoCurrency.Create | lib/luno-currency.js:4-7 | a value in the given currency holding the truncated amount |
| LunoCurrency.CreateDefault | lib/luno-currency.js:4 | the defaults are amount 0 in ZAR |
| LunoCurrency.CurrencyIdKept | lib/luno-currency.js:4-40 | getCurrencyId gives back the currency the value was built with, and add, with an amount or with another value, keeps it |
| LunoCurrency.FixedTextShape | lib/luno-currency.js:42-48 | toString has exactly the currency's number of decimals and reads back to the minor amount |
| LunoCurrency.RebuildKeepsAmount | lib/luno-currency.js:28-31 | rebuilding a value from its text keeps the amount |
| LunoCurrency.AddSumsMinorUnits | lib/luno-currency.js:26-32 | add keeps the currency; its minor amount is the receiver's plus the argument's own truncated amount |
| LunoCurrency.AddMoneySums | test/luno-currency.spec.js:90-92 | adding a value of the same currency adds its minor amount exactly |
| LunoCurrency.AddZero | lib/luno-currency.js:26-32 | adding zero gives an equal value |
| LunoCurrency.TruncatesRand | test/luno-currency.spec.js:28-29 | '0.099' ZAR is 9 cents |
| LunoCurrency.TruncatesBitcoin | test/luno-currency.spec.js:70-71 | '0.000000019' XBT is 1 satoshi |
| LunoCurrency.HalfCentsVanish | test/luno-currency.spec.js:49-50 | 0.005 + 0.005 ZAR is 0 cents |
| LunoCurrency.TruncatedSum | test/luno-currency.spec.js:52-53 | 0.015 + 100.005 ZAR is 10001 cents |
| LunoCurrency.RendersTwoDecimals | test/luno-currency.spec.js:40-43 | 100 ZAR renders as '100.00' |
| Decimal.ParseIntLayout | lib/executer.js:175 | parseInt of a decimal text is its signed integer part |
| Executer.SamePositionIgnoresFraction | lib/executer.js:174-176 | '1200.50' and '1200' on one side are the same position; '1201', or the other side, is not |
| Executer.VolumeOnOrderNonNegative | lib/executer.js:178-185 | with volumes that are not negative, the matching volume is not negative |
| Executer.NoMatchNoVolume | lib/executer.js:178-185 | without a matching order the matching volume is 0 |
| Executer.NewestMatching | lib/executer.js:192-197 | the pick, when there is one, is a matching order of the list |
| Executer.NewestMatchingExists | lib/executer.js:192-197 | there is a pick exactly when some order matches |
| Executer.NewestMatchingIsNewest | lib/executer.js:192-197 | the pick has the greatest creation timestamp among the matches, and is the first of them unless its timestamp is 0 |
| Executer.WithoutMatching | lib/executer.js:201-202 | splicing out a matching order takes its volume off the matching volume |
| Executer.WithoutKeepsOthers | lib/executer.js:201 | splicing out a matching order leaves the other orders as they were |
| Executer.ReconcileCovers | lib/executer.js:187-205 | for a wanted volume that is not negative: the result is a number, not negative, and exactly what the remaining matching orders fall short of the wanted volume; orders at other positions all stay, every other order either stays or is cancelled, and every cancellation names an id |
| Executer.ReconcileNegativeTarget | lib/executer.js:191-204 | a negative wanted volume ends in NaN, and the last cancellation passes an undefined id |
| Executer.ReconcileCoveredIsNoop | lib/executer.js:188-204 | when the matching volume does not exceed the wanted volume nothing is cancelled and the result is wanted minus matching |
| Executer.ReconcileCancelsNewestFirst | lib/executer.js:192-201 | the first order cancelled is the newest matching one |
| Executer.ResumeCancels | lib/executer.js:192-202 | one round of the loop cancels the newest match and lowers the volume by its volume |
| Executer.ResumeGivesUp | lib/executer.js:192-202 | a round that finds no match passes an undefined id, splices out the last order, and ends in NaN |
| Executer.ResumeCovered | lib/executer.js:191-204 | once covered, the loop stops with the shortfall |
| Executer.Executer.CancelOrdersAndCalculateNewOrder | lib/executer.js:187-205 | the list is spliced in place to the remaining orders, the cancelled ids are appended, and the result is what `Reconcile` gives |
| Executer.ImprovedBid | lib/executer.js:78-81 | the bid moves up one unit, and stays strictly below the ask, exactly when the spread is more than one unit |
| Executer.ImprovedAsk | lib/executer.js:91-94 | the ask moves down one unit, and stays strictly above the bid, exactly when the spread is more than one unit |
| Executer.BestBuyPrice | lib/executer.js:72-83 | undefined exactly without a book; otherwise the improved whole bid with two decimals |
| Executer.BestSellPrice | lib/executer.js:85-96 | undefined exactly without a book; otherwise the improved whole ask with two decimals |
| Executer.FixedTwoReadsBack | lib/executer.js:82 | the two-decimal price text reads back to its whole number |
| Executer.WholeCoins | lib/executer.js:78 | parseInt of a rendered satoshi amount is its whole coins, truncated toward zero |
| Executer.WholeBidOfBook | lib/executer.js:77-78 | the whole bid is the greatest bid price in whole currency units, NaN for no bids |
| Executer.WholeAskOfBook | lib/executer.js:90-91 | the whole ask is the least ask price in whole currency units, NaN for no asks |

## Left out

- Websocket, HTTP client, authentication and reconnect plumbing (`lib/luno-connector.js`, `lib/luno-trader.js`): I/O.
- The executer outside the helpers above: order placement, marketability checks, the ticker cache and position updates. These are network calls and callback plumbing.
- The event emitter itself (listener registration, the emitter shared through the prototype). Only the sequence of emitted events is modelled, as a log on the book.
- `debug` and `console.log` output.
- Floating point. Amounts are integer cents and satoshis, and contracts state exact integer results:
  - the trade price `(counter / base).toFixed(2)` is an exact rational rounded half away from zero;
  - the ticker's `parseFloat`/`toFixed(3)` volume sum is an exact integer sum;
  - float bid-depth sums, and float error in `Math.floor(parseFloat(amount) * 10^n)`, are not modelled either.
- LunoBookQueries.BestPrice: without options it returns the best bid and ask as a pair. Dividing their sum by 2 (and the NaN for empty sides) is not modelled.
- LunoBookQueries.GetTicker: the rolling volume is the exact satoshi sum, not the three-decimal float text.
- LunoBook.ApplyTrade: it requires that the trade names a resting order. The source dereferences undefined there and crashes.
- LunoBook.ApplyTrade: it subtracts the base exactly. As written, the four-place rendering can leave a partly filled order at 0, and the book then removes it and logs it as deleted. `LunoOrder.AsWrittenEmptiesOrder` shows this on the order; no book-level member models it.
- LunoBookQueries.GetOrder: it requires the book to hold an order list. The source throws otherwise.
- Malformed messages: asks, bids or creates without id, price or volume, and creates without a type, are outside the preconditions (`EntryWellFormed`, `CreateWellFormed`).
- Identity and aliasing: the book holds orders as values, and orderCreated carries a copy. The source shares one mutable order object.
- JavaScript truthiness of the text "0" and the number 0:
  - numeric fields are decoded integers, and 0 counts as absent where the book tests truthiness;
  - a price threshold of 0 is absent.
- Object.assign copying keys whose value is undefined.
- Number parsing is modelled on `[-]digits[.digits]` only:
  - exponents, leading '+', '.5', 'Infinity' text and white space are not modelled;
  - `parseInt` is modelled without white space;
  - integers beyond 2^53 are exact here.
- Strings are sequences of characters. The projection's id comparison is on characters, not UTF-16 code units.
- LunoOrder.Order.ReduceVolume: an undefined volume stays undefined (None). The source stores NaN there (`Math.round(1e8 * undefined)` read back by `parseFloat`), and NaN is not `undefined`. So for such an order, traded once, the `typeof order.getVolume() === 'undefined'` tests at lib/luno-book.js:232 and 236 fail, `depth >= NaN` is false and isOrderMarketable returns false. `LunoBookQueries.IsOrderMarketable`, reading no volume, treats the order as deep enough instead.
- LunoOrder.Order.ProcessTradeUpdate: the same merge of NaN into undefined, for a trade naming an order without a volume.
- LunoOrder.Order.ProcessTradeUpdateAsWritten: the same merge of NaN into undefined, for a trade naming an order without a volume.
- LunoOrder.Order.SetVolume: it stores the satoshi integer. The source's `parseFloat` of coin text happens when a message is decoded.
- Executer.ReconcileNegativeTarget: it is proved only for lists whose volumes are not negative.
- NaN limit volumes in the executer's open orders: volumes are decoded integers.
- `stopOrder`'s callback is not modelled; a cancellation is the id appended to the executer's list.
- `toSimple`, which the source calls but does not define: the projection lists integer records instead of formatted text.

## Findings

| source | as written | input that shows it | evidently intended | confidence | as-written member | corrected member |
|---|---|---|---|---|---|---|
| lib/luno-util.js:9 | `convertSatoshisToDecimalString` rounds to 4 decimals, so `reduceVolume` (lib/luno-order.js:37) drops satoshis | 102389700 satoshis gives '1.0239'; an order of '1.0245' reduced by '0.000603' keeps 1.0239 ; and an order of 10000 satoshis traded 6000 reads back as 0, so lib/luno-book.js:15-18 removes it and logs it as deleted | '1.023897' and 1.023897, as test/luno-util.spec.js:33 and test/luno-order.spec.js:255 expect; every satoshi survives the round trip, and the order keeps 4000 satoshis | high, not executed | LunoUtil.SatoshisToDecimalStringAsWritten, LunoUtil.AsWrittenLosesDigits, LunoOrder.ReducedVolumeAsWritten, LunoOrder.AsWrittenLosesSatoshis, LunoOrder.AsWrittenEmptiesOrder | LunoUtil.SatoshisToDecimalString, LunoUtil.SatoshisToDecimalStringRoundTrip, LunoOrder.ReducedVolume |
| lib/luno-book.js:127 | a delete for an id the book does not hold runs `splice(-1, 1)` and removes the last order | book with ask 'a' and bid 'b', delete_update naming 'c': 'b' is removed | the delete removes nothing when the id is unknown (and logs the id as before) | medium, not executed | LunoBook.DeleteAsWritten, LunoBook.DeleteAsWrittenDropsLast | LunoBook.Delete, LunoBook.DeleteEffect, LunoBook.DeleteAgreesWhenPresent |
| lib/luno-order.js:39-43 | `processTradeUpdate` returns nothing, so `updatedOrder.getVolume()` at lib/luno-book.js:15 reads a property of undefined | any trade naming a resting order, such as the trade with order_id '23298343' and base '0.000603' against an order of '1.0245' | the order itself comes back, as test/luno-order.spec.js:249-269 expects (`to.be.a('luno-order')`), and the book goes on to test its volume | high, not executed | LunoOrder.Order.ProcessTradeUpdateAsWritten | LunoOrder.Order.ProcessTradeUpdate, LunoBook.Book.ProcessTradeUpdate, LunoBook.TradeRemovesIffFilled |
