/** The read-only queries of lib/luno-book.js: folds over the resting orders
    of a book state.  Prices are in cents and volumes in satoshis, as in the
    book; the infinities of JavaScript are the extended integers. */
module LunoBookQueries {
  import opened Wrappers
  import opened Decimal
  import opened Feed
  import opened LunoUtil
  import opened LunoBook
  import LunoOrder

  /** The options object the queries take: a currency pair, a list of order
      ids to leave out, and a price threshold (None when absent or 0). */
  datatype PriceOptions = PriceOptions(
    fromCurrency: Option<string>,
    toCurrency: Option<string>,
    exclude: Option<seq<string>>,
    price: Option<ExtInt>)

  /** `options && options.exclude && options.exclude.indexOf(id) !== -1` */
  predicate Excluded(options: Option<PriceOptions>, id: string)
  {
    options.Some? && options.value.exclude.Some? && id in options.value.exclude.value
  }

  /** An order the fold over one side takes into account. */
  predicate Counts(o: Resting, kind: OrderType, options: Option<PriceOptions>)
  {
    o.kind == kind && !Excluded(options, o.id)
  }

  // ---------------------------------------------------------------------
  // Best prices

  /** The reduce of getMinAskPrice: Math.min over the asks that count,
      seeded with +inf. */
  function MinAsk(orders: seq<Resting>, options: Option<PriceOptions>): (r: ExtInt)
    ensures forall i :: 0 <= i < |orders| && Counts(orders[i], ASK, options) ==> r.Le(Finite(orders[i].price))
    ensures r == PosInf <==> forall i :: 0 <= i < |orders| ==> !Counts(orders[i], ASK, options)
    ensures r != PosInf ==>
      exists i :: 0 <= i < |orders| && Counts(orders[i], ASK, options) && r == Finite(orders[i].price)
    decreases |orders|
  {
    if orders == [] then PosInf
    else
      var rest := MinAsk(orders[..|orders| - 1], options);
      var last := orders[|orders| - 1];
      assert forall i :: 0 <= i < |orders| - 1 ==> orders[..|orders| - 1][i] == orders[i];
      if Counts(last, ASK, options) then Min(rest, Finite(last.price)) else rest
  }

  /** The reduce of the BID direction of getBestPrice: Math.max over the bids
      that count, seeded with -inf. */
  function MaxBid(orders: seq<Resting>, options: Option<PriceOptions>): (r: ExtInt)
    ensures forall i :: 0 <= i < |orders| && Counts(orders[i], BID, options) ==> Finite(orders[i].price).Le(r)
    ensures r == NegInf <==> forall i :: 0 <= i < |orders| ==> !Counts(orders[i], BID, options)
    ensures r != NegInf ==>
      exists i :: 0 <= i < |orders| && Counts(orders[i], BID, options) && r == Finite(orders[i].price)
    decreases |orders|
  {
    if orders == [] then NegInf
    else
      var rest := MaxBid(orders[..|orders| - 1], options);
      var last := orders[|orders| - 1];
      assert forall i :: 0 <= i < |orders| - 1 ==> orders[..|orders| - 1][i] == orders[i];
      if Counts(last, BID, options) then Max(rest, Finite(last.price)) else rest
  }

  /** getMinAskPrice: undefined while the book holds no orders. */
  function GetMinAskPrice(d: BookData, options: Option<PriceOptions>): (r: Option<ExtInt>)
    ensures r.None? <==> d.orders.None?
    ensures r.Some? ==> r.value == MinAsk(d.orders.value, options)
  {
    if d.orders.Some? then Some(MinAsk(d.orders.value, options)) else None
  }

  /** What getBidAskDirection returns: null, 'BID', 'ASK' or undefined. */
  datatype Direction = NoOptions | Toward(side: OrderType) | Unknown

  /** getBidAskDirection: buying XBT with ZAR meets the bids, selling XBT
      for ZAR the asks. */
  function BidAskDirection(options: Option<PriceOptions>): (r: Direction)
    ensures r == NoOptions <==> options.None?
    ensures r == Toward(BID) <==>
      options.Some? && options.value.fromCurrency == Some("ZAR") && options.value.toCurrency == Some("XBT")
    ensures r == Toward(ASK) <==>
      options.Some? && options.value.fromCurrency == Some("XBT") && options.value.toCurrency == Some("ZAR")
  {
    match options
    case None => NoOptions
    case Some(o) =>
      if o.fromCurrency == Some("ZAR") && o.toCurrency == Some("XBT") then Toward(BID)
      else if o.fromCurrency == Some("XBT") && o.toCurrency == Some("ZAR") then Toward(ASK)
      else Unknown
  }

  /** A best price: the midpoint of the best bid and ask, or one price. */
  datatype Quote = Midpoint(bid: ExtInt, ask: ExtInt) | At(price: ExtInt)

  /** getBestPrice: the midpoint of the whole book with no options, the least
      ask toward ASK, the greatest bid toward BID (both without the excluded
      ids), undefined for another pair or a book without orders. */
  function BestPrice(d: BookData, options: Option<PriceOptions>): (r: Option<Quote>)
    ensures d.orders.None? ==> r.None?
    ensures d.orders.Some? ==> match BidAskDirection(options)
      case NoOptions => r == Some(Midpoint(MaxBid(d.orders.value, None), MinAsk(d.orders.value, None)))
      case Toward(ASK) => r == Some(At(MinAsk(d.orders.value, options)))
      case Toward(BID) => r == Some(At(MaxBid(d.orders.value, options)))
      case Unknown => r.None?
  {
    if d.orders.None? then None
    else
      var orders := d.orders.value;
      match BidAskDirection(options)
      case NoOptions => Some(Midpoint(MaxBid(orders, None), MinAsk(orders, None)))
      case Toward(ASK) => Some(At(MinAsk(orders, options)))
      case Toward(BID) => Some(At(MaxBid(orders, options)))
      case Unknown => None
  }

  /** The options buying uses: {fromCurrency: 'ZAR', toCurrency: 'XBT'}. */
  const Buying: Option<PriceOptions> := Some(PriceOptions(Some("ZAR"), Some("XBT"), None, None))

  /** The best price toward BID is the greatest bid price that counts, -inf
      when none does. */
  lemma BestBidIsGreatest(d: BookData, exclude: Option<seq<string>>)
    requires d.orders.Some?
    ensures var options := Some(PriceOptions(Some("ZAR"), Some("XBT"), exclude, None));
            var orders := d.orders.value;
            match BestPrice(d, options)
            case Some(At(b)) =>
              (b == NegInf <==> forall i :: 0 <= i < |orders| ==> orders[i].kind != BID || Excluded(options, orders[i].id)) &&
              (forall i :: 0 <= i < |orders| && orders[i].kind == BID && !Excluded(options, orders[i].id) ==>
                 orders[i].price <= b.n || b == PosInf)
            case _ => false
  {
    var options := Some(PriceOptions(Some("ZAR"), Some("XBT"), exclude, None));
    var b := MaxBid(d.orders.value, options);
    assert BestPrice(d, options) == Some(At(b));
    forall i | 0 <= i < |d.orders.value| && d.orders.value[i].kind == BID && !Excluded(options, d.orders.value[i].id)
      ensures d.orders.value[i].price <= b.n || b == PosInf
    {
      assert Counts(d.orders.value[i], BID, options);
    }
  }

  // ---------------------------------------------------------------------
  // Depth

  /** `options && options.price`: a threshold is given and is not 0. */
  predicate HasThreshold(options: Option<PriceOptions>)
  {
    options.Some? && options.value.price.Some? && options.value.price.value != Finite(0)
  }

  /** The reduce of getBidDepth: the volume of the counting bids priced at
      or above the threshold. */
  function BidDepthOf(orders: seq<Resting>, threshold: ExtInt, options: Option<PriceOptions>): int
    decreases |orders|
  {
    if orders == [] then 0
    else
      var rest := BidDepthOf(orders[..|orders| - 1], threshold, options);
      var last := orders[|orders| - 1];
      if Counts(last, BID, options) && threshold.Le(Finite(last.price)) then rest + last.volume else rest
  }

  /** Math.round(x * 100) / 100 on a volume in coins, in satoshis: the
      nearest multiple of 10^6, halves up. */
  function RoundToHundredth(satoshis: int): (r: int)
    ensures r % 1_000_000 == 0
    ensures -1_000_000 <= 2 * (satoshis - r) < 1_000_000
  {
    var k := RoundHalfUp(satoshis, 1_000_000);
    assert (k * 1_000_000) % 1_000_000 == 0 by {
      DivModUnique(k * 1_000_000, 1_000_000, k, 0);
    }
    k * 1_000_000
  }

  /** The reduce of getAskDepth: the volume of the counting asks priced at or
      below the threshold, rounded to 0.01 coin after every addition. */
  function AskDepthOf(orders: seq<Resting>, threshold: ExtInt, options: Option<PriceOptions>): int
    decreases |orders|
  {
    if orders == [] then 0
    else
      var rest := AskDepthOf(orders[..|orders| - 1], threshold, options);
      var last := orders[|orders| - 1];
      if Counts(last, ASK, options) && Finite(last.price).Le(threshold) then RoundToHundredth(rest + last.volume) else rest
  }

  /** getBidDepth: undefined unless the book is live and a threshold is given. */
  function GetBidDepth(d: BookData, options: Option<PriceOptions>): (r: Option<int>)
    requires Valid(d)
    ensures r.Some? <==> d.live && HasThreshold(options)
    ensures r.Some? ==> r.value == BidDepthOf(d.orders.value, options.value.price.value, options)
  {
    if d.live && HasThreshold(options) then Some(BidDepthOf(d.orders.value, options.value.price.value, options)) else None
  }

  /** getAskDepth: undefined unless the book is live and a threshold is given. */
  function GetAskDepth(d: BookData, options: Option<PriceOptions>): (r: Option<int>)
    requires Valid(d)
    ensures r.Some? <==> d.live && HasThreshold(options)
    ensures r.Some? ==> r.value == AskDepthOf(d.orders.value, options.value.price.value, options)
  {
    if d.live && HasThreshold(options) then Some(AskDepthOf(d.orders.value, options.value.price.value, options)) else None
  }

  /** The volume of the counting orders of one side: the reference the depths
      are compared with. */
  function SideVolume(orders: seq<Resting>, kind: OrderType, options: Option<PriceOptions>): int
    decreases |orders|
  {
    if orders == [] then 0
    else
      var rest := SideVolume(orders[..|orders| - 1], kind, options);
      var last := orders[|orders| - 1];
      if Counts(last, kind, options) then rest + last.volume else rest
  }

  /** With no lower bound the bid depth is the whole bid side; above every
      price it is 0. */
  lemma {:induction false} BidDepthExtremes(orders: seq<Resting>, options: Option<PriceOptions>)
    ensures BidDepthOf(orders, NegInf, options) == SideVolume(orders, BID, options)
    ensures BidDepthOf(orders, PosInf, options) == 0
    decreases |orders|
  {
    if orders != [] {
      BidDepthExtremes(orders[..|orders| - 1], options);
    }
  }

  /** Lowering the threshold never makes the bid depth smaller (volumes are
      not negative). */
  lemma {:induction false} BidDepthMonotone(orders: seq<Resting>, low: ExtInt, high: ExtInt, options: Option<PriceOptions>)
    requires low.Le(high)
    requires forall i :: 0 <= i < |orders| ==> orders[i].volume >= 0
    ensures BidDepthOf(orders, high, options) <= BidDepthOf(orders, low, options)
    decreases |orders|
  {
    if orders != [] {
      var last := orders[|orders| - 1];
      assert forall i :: 0 <= i < |orders| - 1 ==> orders[..|orders| - 1][i] == orders[i];
      BidDepthMonotone(orders[..|orders| - 1], low, high, options);
      if high.Le(Finite(last.price)) {
        LeTransitive(low, high, Finite(last.price));
      }
    }
  }

  /** A positive bid depth means some counting bid is priced at or above the
      threshold. */
  lemma {:induction false} BidDepthWitness(orders: seq<Resting>, threshold: ExtInt, options: Option<PriceOptions>)
    requires BidDepthOf(orders, threshold, options) != 0
    ensures exists i :: 0 <= i < |orders| && Counts(orders[i], BID, options) && threshold.Le(Finite(orders[i].price))
    decreases |orders|
  {
    var last := orders[|orders| - 1];
    if !(Counts(last, BID, options) && threshold.Le(Finite(last.price))) {
      BidDepthWitness(orders[..|orders| - 1], threshold, options);
      var i :| 0 <= i < |orders| - 1 && Counts(orders[..|orders| - 1][i], BID, options) &&
               threshold.Le(Finite(orders[..|orders| - 1][i].price));
      assert orders[..|orders| - 1][i] == orders[i];
    }
  }

  /** The ask depth is a whole number of hundredths of a coin, and when every
      counting ask volume is one, it is the exact sum. */
  lemma {:induction false} AskDepthExactOnHundredths(orders: seq<Resting>, threshold: ExtInt, options: Option<PriceOptions>)
    requires forall i :: 0 <= i < |orders| ==> orders[i].volume % 1_000_000 == 0
    ensures AskDepthOf(orders, threshold, options) % 1_000_000 == 0
    ensures AskDepthOf(orders, threshold, options) == AskDepthReference(orders, threshold, options)
    decreases |orders|
  {
    if orders != [] {
      var init := orders[..|orders| - 1];
      var last := orders[|orders| - 1];
      HundredthsPrefix(orders, init);
      AskDepthExactOnHundredths(init, threshold, options);
      AskStep(AskDepthOf(init, threshold, options), last.volume,
              Counts(last, ASK, options) && Finite(last.price).Le(threshold));
    }
  }

  lemma HundredthsPrefix(orders: seq<Resting>, init: seq<Resting>)
    requires orders != [] && init == orders[..|orders| - 1]
    requires forall i :: 0 <= i < |orders| ==> orders[i].volume % 1_000_000 == 0
    ensures forall i :: 0 <= i < |init| ==> init[i].volume % 1_000_000 == 0
    ensures orders[|orders| - 1].volume % 1_000_000 == 0
  {
  }

  /** One step of the ask depth on whole hundredths: exact. */
  lemma AskStep(a: int, v: int, counts: bool)
    requires a % 1_000_000 == 0 && v % 1_000_000 == 0
    ensures var r := if counts then RoundToHundredth(a + v) else a;
            r % 1_000_000 == 0 && r == (if counts then a + v else a)
  {
    if counts {
      RoundSumOfHundredths(a, v);
    }
  }

  /** A sum of whole hundredths of a coin is not changed by the rounding. */
  lemma RoundSumOfHundredths(a: int, b: int)
    requires a % 1_000_000 == 0 && b % 1_000_000 == 0
    ensures (a + b) % 1_000_000 == 0 && RoundToHundredth(a + b) == a + b
  {
    var k := a / 1_000_000 + b / 1_000_000;
    DivModUnique(a + b, 1_000_000, k, 0);
    RoundHalfUpExact(k, 1_000_000);
  }

  /** The exact ask depth, without rounding. */
  function AskDepthReference(orders: seq<Resting>, threshold: ExtInt, options: Option<PriceOptions>): int
    decreases |orders|
  {
    if orders == [] then 0
    else
      var rest := AskDepthReference(orders[..|orders| - 1], threshold, options);
      var last := orders[|orders| - 1];
      if Counts(last, ASK, options) && Finite(last.price).Le(threshold) then rest + last.volume else rest
  }

  /** Every rounding step moves the ask depth by at most half a hundredth of
      a coin. */
  lemma {:induction false} AskDepthError(orders: seq<Resting>, threshold: ExtInt, options: Option<PriceOptions>)
    ensures var e := AskDepthOf(orders, threshold, options) - AskDepthReference(orders, threshold, options);
            -500_000 * |orders| <= e <= 500_000 * |orders|
    decreases |orders|
  {
    if orders != [] {
      AskDepthError(orders[..|orders| - 1], threshold, options);
    }
  }

  // ---------------------------------------------------------------------
  // Marketability

  /** isDeepEnough: a missing depth or a missing volume is deep enough. */
  predicate DeepEnough(depth: Option<int>, volume: Option<int>)
  {
    depth.None? || volume.None? || depth.value >= volume.value
  }

  /** The threshold options a depth query gets from an order's price. */
  function AtPrice(price: Option<int>): Option<PriceOptions>
  {
    Some(PriceOptions(None, None, None, if price.Some? && price.value != 0 then Some(Finite(price.value)) else None))
  }

  /** isOrderMarketable: an ask is marketable when its price is at most the
      best bid and the bids at or above its price cover its volume; a bid
      when its price is at least the least ask and the asks at or below it
      cover its volume.  An order of neither type gives undefined. */
  function IsOrderMarketable(d: BookData, order: LunoOrder.OrderFields): (r: Option<bool>)
    requires Valid(d)
    ensures r.None? <==> order.kind.None?
  {
    match order.kind
    case None => None
    case Some(ASK) =>
      var deep := DeepEnough(GetBidDepth(d, AtPrice(order.price)), order.volume);
      Some(order.price.Some? &&
           (match BestPrice(d, Buying) case Some(At(b)) => Finite(order.price.value).Le(b) case _ => false) &&
           deep)
    case Some(BID) =>
      var deep := DeepEnough(GetAskDepth(d, AtPrice(order.price)), order.volume);
      Some(order.price.Some? &&
           (match GetMinAskPrice(d, None) case Some(a) => a.Le(Finite(order.price.value)) case None => false) &&
           deep)
  }

  /** On a live book, an ask of price p and volume v is marketable exactly
      when some bid is priced at p or more and the bids so priced hold at
      least v; an ask without a volume needs only the price. */
  lemma AskMarketableIff(d: BookData, id: Option<string>, p: int, v: Option<int>)
    requires Valid(d) && d.live && p != 0
    ensures var orders := d.orders.value;
            IsOrderMarketable(d, LunoOrder.OrderFields(id, v, Some(p), Some(ASK))) ==
            Some((exists i :: 0 <= i < |orders| && orders[i].kind == BID && orders[i].price >= p) &&
                 (v.None? || BidDepthOf(orders, Finite(p), None) >= v.value))
  {
    var orders := d.orders.value;
    var b := MaxBid(orders, None);
    assert BestPrice(d, Buying) == Some(At(b));
    assert GetBidDepth(d, AtPrice(Some(p))) == Some(BidDepthOf(orders, Finite(p), AtPrice(Some(p))));
    BidDepthIgnoresThresholdOptions(orders, Finite(p), AtPrice(Some(p)));
    if Finite(p).Le(b) {
      var i :| 0 <= i < |orders| && Counts(orders[i], BID, None) && b == Finite(orders[i].price);
      assert orders[i].kind == BID && orders[i].price >= p;
    }
    if exists i :: 0 <= i < |orders| && orders[i].kind == BID && orders[i].price >= p {
      var i :| 0 <= i < |orders| && orders[i].kind == BID && orders[i].price >= p;
      assert Counts(orders[i], BID, None);
    }
  }

  /** On a live book, a bid of price p and volume v is marketable exactly
      when some ask is priced at p or less and the asks so priced hold, as
      rounded, at least v; a bid without a volume needs only the price. */
  lemma BidMarketableIff(d: BookData, id: Option<string>, p: int, v: Option<int>)
    requires Valid(d) && d.live && p != 0
    ensures var orders := d.orders.value;
            IsOrderMarketable(d, LunoOrder.OrderFields(id, v, Some(p), Some(BID))) ==
            Some((exists i :: 0 <= i < |orders| && orders[i].kind == ASK && orders[i].price <= p) &&
                 (v.None? || AskDepthOf(orders, Finite(p), None) >= v.value))
  {
    var orders := d.orders.value;
    var a := MinAsk(orders, None);
    assert GetMinAskPrice(d, None) == Some(a);
    assert GetAskDepth(d, AtPrice(Some(p))) == Some(AskDepthOf(orders, Finite(p), AtPrice(Some(p))));
    AskDepthIgnoresThresholdOptions(orders, Finite(p), AtPrice(Some(p)));
    if a.Le(Finite(p)) {
      var i :| 0 <= i < |orders| && Counts(orders[i], ASK, None) && a == Finite(orders[i].price);
      assert orders[i].kind == ASK && orders[i].price <= p;
    }
    if exists i :: 0 <= i < |orders| && orders[i].kind == ASK && orders[i].price <= p {
      var i :| 0 <= i < |orders| && orders[i].kind == ASK && orders[i].price <= p;
      assert Counts(orders[i], ASK, None);
    }
  }

  /** Options without an exclusion list exclude nothing. */
  lemma {:induction false} BidDepthIgnoresThresholdOptions(orders: seq<Resting>, threshold: ExtInt, options: Option<PriceOptions>)
    requires options.Some? && options.value.exclude.None?
    ensures BidDepthOf(orders, threshold, options) == BidDepthOf(orders, threshold, None)
    decreases |orders|
  {
    if orders != [] {
      BidDepthIgnoresThresholdOptions(orders[..|orders| - 1], threshold, options);
    }
  }

  lemma {:induction false} AskDepthIgnoresThresholdOptions(orders: seq<Resting>, threshold: ExtInt, options: Option<PriceOptions>)
    requires options.Some? && options.value.exclude.None?
    ensures AskDepthOf(orders, threshold, options) == AskDepthOf(orders, threshold, None)
    decreases |orders|
  {
    if orders != [] {
      AskDepthIgnoresThresholdOptions(orders[..|orders| - 1], threshold, options);
    }
  }

  // ---------------------------------------------------------------------
  // Orders, deleted ids, ticker

  /** getOrder: the first order with the id (the source needs the book's
      order list to exist). */
  function GetOrder(d: BookData, id: string): (r: Option<Resting>)
    requires d.orders.Some?
    ensures r.Some? <==> exists i :: 0 <= i < |d.orders.value| && d.orders.value[i].id == id
    ensures r.Some? ==> (r.value.id == id &&
      exists i :: 0 <= i < |d.orders.value| && r.value == d.orders.value[i] &&
                  forall j :: 0 <= j < i ==> d.orders.value[j].id != id)
  {
    HasOrderIff(d.orders.value, id);
    FindIndexFirst(d.orders.value, id);
    var i := FindIndex(d.orders.value, id);
    if i >= 0 then Some(d.orders.value[i]) else None
  }

  /** getDeletedOrders: the removed-id log, undefined before the first snapshot. */
  function GetDeletedOrders(d: BookData): (r: Option<seq<string>>)
    requires Valid(d)
    ensures d.live ==> r.Some?
    ensures r == d.removed
  {
    d.removed
  }

  /** What getTicker returns. */
  datatype BookTicker = BookTicker(
    ask: ExtInt,
    timestamp: Option<int>,
    bid: Option<Quote>,
    rolling24HourVolume: Option<int>,
    lastTrade: Option<Option<int>>)

  /** Object.assign({fromCurrency: 'ZAR', toCurrency: 'XBT'}, options). */
  function WithBuyingDefaults(options: Option<PriceOptions>): (r: Option<PriceOptions>)
    ensures r.Some? && r.value.fromCurrency.Some? && r.value.toCurrency.Some?
    ensures options.Some? ==> r.value.exclude == options.value.exclude && r.value.price == options.value.price
    ensures options.Some? && options.value.fromCurrency.Some? ==> r.value.fromCurrency == options.value.fromCurrency
    ensures (options.None? || options.value.fromCurrency.None?) ==> r.value.fromCurrency == Some("ZAR")
    ensures options.Some? && options.value.toCurrency.Some? ==> r.value.toCurrency == options.value.toCurrency
    ensures (options.None? || options.value.toCurrency.None?) ==> r.value.toCurrency == Some("XBT")
    ensures options.None? ==> r.value.exclude.None? && r.value.price.None?
  {
    match options
    case None => Buying
    case Some(o) =>
      Some(o.(fromCurrency := if o.fromCurrency.Some? then o.fromCurrency else Some("ZAR"),
              toCurrency := if o.toCurrency.Some? then o.toCurrency else Some("XBT")))
  }

  /** The trade volumes, summed. */
  function TradesVolume(trades: seq<Trade>): int
    decreases |trades|
  {
    if trades == [] then 0 else TradesVolume(trades[..|trades| - 1]) + trades[|trades| - 1].volume
  }

  /** getTicker: on a live book, the least ask, the timestamp, the best price
      under the buying defaults, and, once there are trades, the last trade's
      price and the summed traded volume. */
  function GetTicker(d: BookData, options: Option<PriceOptions>): (r: Option<BookTicker>)
    requires Valid(d)
    ensures r.None? <==> !d.live
    ensures r.Some? ==> r.value.ask == MinAsk(d.orders.value, options) && r.value.timestamp == d.timestamp
    ensures r.Some? ==> (r.value.lastTrade.None? <==> d.trades.value == [])
    ensures r.Some? && d.trades.value != [] ==> r.value.lastTrade == Some(d.trades.value[|d.trades.value| - 1].price)
    ensures r.Some? ==> (r.value.rolling24HourVolume.None? <==> d.trades.value == [])
    ensures r.Some? && d.trades.value != [] ==> r.value.rolling24HourVolume == Some(TradesVolume(d.trades.value))
    ensures r.Some? ==> r.value.bid == BestPrice(d, WithBuyingDefaults(options))
  {
    if !d.live then None
    else
      var trades := d.trades.value;
      Some(BookTicker(
        MinAsk(d.orders.value, options),
        d.timestamp,
        BestPrice(d, WithBuyingDefaults(options)),
        if trades == [] then None else Some(TradesVolume(trades)),
        if trades == [] then None else Some(trades[|trades| - 1].price)))
  }

  /** Without a currency pair in the options the ticker's bid is the greatest
      counting bid. */
  lemma TickerBidIsBestBid(d: BookData, exclude: Option<seq<string>>)
    requires Valid(d) && d.live
    ensures var options := Some(PriceOptions(None, None, exclude, None));
            GetTicker(d, options).value.bid == Some(At(MaxBid(d.orders.value, Some(PriceOptions(Some("ZAR"), Some("XBT"), exclude, None)))))
  {
  }

  /** Each appended trade record adds its volume to the ticker's sum. */
  lemma {:induction false} TradesVolumeAppend(trades: seq<Trade>, t: Trade)
    ensures TradesVolume(trades + [t]) == TradesVolume(trades) + t.volume
  {
    assert (trades + [t])[..|trades|] == trades;
  }

  // ---------------------------------------------------------------------
  // The projection: state() with no message

  /** String comparison with <: lexicographic on the characters. */
  predicate StrLess(a: string, b: string)
    decreases |a|
  {
    if a == [] then b != []
    else if b == [] then false
    else if a[0] != b[0] then a[0] < b[0]
    else StrLess(a[1..], b[1..])
  }

  lemma {:induction false} StrLessIrreflexive(a: string)
    ensures !StrLess(a, a)
    decreases |a|
  {
    if a != [] {
      StrLessIrreflexive(a[1..]);
    }
  }

  lemma {:induction false} StrLessTransitive(a: string, b: string, c: string)
    requires StrLess(a, b) && StrLess(b, c)
    ensures StrLess(a, c)
    decreases |a|
  {
    if a != [] && b != [] && c != [] && a[0] == b[0] && b[0] == c[0] {
      StrLessTransitive(a[1..], b[1..], c[1..]);
    }
  }

  lemma {:induction false} StrLessTotal(a: string, b: string)
    ensures a == b || StrLess(a, b) || StrLess(b, a)
    decreases |a|
  {
    if a != [] && b != [] && a[0] == b[0] {
      StrLessTotal(a[1..], b[1..]);
      if a[1..] == b[1..] {
        assert a == [a[0]] + a[1..] && b == [b[0]] + b[1..];
      }
    }
  }

  /** The sort comparator returns -1: asks by ascending price, bids by
      descending price, equal prices by ascending id. */
  predicate Before(kind: OrderType, a: Resting, b: Resting)
  {
    (if kind == ASK then a.price < b.price else a.price > b.price) ||
    (a.price == b.price && StrLess(a.id, b.id))
  }

  lemma BeforeIrreflexive(kind: OrderType, a: Resting)
    ensures !Before(kind, a, a)
  {
    StrLessIrreflexive(a.id);
  }

  lemma BeforeTransitive(kind: OrderType, a: Resting, b: Resting, c: Resting)
    requires Before(kind, a, b) && Before(kind, b, c)
    ensures Before(kind, a, c)
  {
    if a.price == b.price && b.price == c.price {
      StrLessTransitive(a.id, b.id, c.id);
    }
  }

  /** No element is preceded by a later one. */
  predicate SortedBy(kind: OrderType, s: seq<Resting>)
  {
    forall i, j :: 0 <= i < j < |s| ==> !Before(kind, s[j], s[i])
  }

  /** One side of the book, in book order (the filter). */
  function Side(orders: seq<Resting>, kind: OrderType): (r: seq<Resting>)
    ensures forall i :: 0 <= i < |r| ==> r[i].kind == kind
    decreases |orders|
  {
    if orders == [] then []
    else if orders[|orders| - 1].kind == kind then Side(orders[..|orders| - 1], kind) + [orders[|orders| - 1]]
    else Side(orders[..|orders| - 1], kind)
  }

  /** Inserts x before the first element it comes before. */
  function Insert(kind: OrderType, x: Resting, s: seq<Resting>): seq<Resting>
    decreases |s|
  {
    if s == [] then [x]
    else if Before(kind, x, s[0]) then [x] + s
    else [s[0]] + Insert(kind, x, s[1..])
  }

  /** The sort of one side. */
  function SortSide(kind: OrderType, s: seq<Resting>): seq<Resting>
    decreases |s|
  {
    if s == [] then [] else Insert(kind, s[|s| - 1], SortSide(kind, s[..|s| - 1]))
  }

  lemma {:induction false} InsertPermutes(kind: OrderType, x: Resting, s: seq<Resting>)
    ensures multiset(Insert(kind, x, s)) == multiset(s) + multiset{x}
    decreases |s|
  {
    if s != [] && !Before(kind, x, s[0]) {
      InsertPermutes(kind, x, s[1..]);
      assert s == [s[0]] + s[1..];
    }
  }

  lemma {:induction false} InsertSorted(kind: OrderType, x: Resting, s: seq<Resting>)
    requires SortedBy(kind, s)
    ensures SortedBy(kind, Insert(kind, x, s))
    decreases |s|
  {
    if s == [] {
    } else if Before(kind, x, s[0]) {
      forall k | 0 <= k < |s|
        ensures !Before(kind, s[k], x)
      {
        if Before(kind, s[k], x) {
          BeforeTransitive(kind, s[k], x, s[0]);
          if k == 0 {
            BeforeIrreflexive(kind, s[0]);
          }
        }
      }
      PrependSorted(kind, x, s);
    } else {
      var rest := s[1..];
      assert SortedBy(kind, rest) by {
        forall i, j | 0 <= i < j < |rest|
          ensures !Before(kind, rest[j], rest[i])
        {
          assert rest[i] == s[i + 1] && rest[j] == s[j + 1];
        }
      }
      InsertSorted(kind, x, rest);
      var tail := Insert(kind, x, rest);
      forall k | 0 <= k < |tail|
        ensures !Before(kind, tail[k], s[0])
      {
        InsertElements(kind, x, rest, k);
      }
      PrependSorted(kind, s[0], tail);
    }
  }

  /** Every element of the insertion is x or an element of s. */
  lemma {:induction false} InsertElements(kind: OrderType, x: Resting, s: seq<Resting>, k: nat)
    requires k < |Insert(kind, x, s)|
    ensures Insert(kind, x, s)[k] == x || exists m :: 0 <= m < |s| && Insert(kind, x, s)[k] == s[m]
    decreases |s|
  {
    if s != [] && !Before(kind, x, s[0]) && k > 0 {
      InsertElements(kind, x, s[1..], k - 1);
      if Insert(kind, x, s)[k] != x {
        var m :| 0 <= m < |s[1..]| && Insert(kind, x, s[1..])[k - 1] == s[1..][m];
        assert Insert(kind, x, s)[k] == s[m + 1];
      }
    }
  }

  /** An element no later element comes before, in front of a sorted list. */
  lemma PrependSorted(kind: OrderType, y: Resting, t: seq<Resting>)
    requires SortedBy(kind, t)
    requires forall k :: 0 <= k < |t| ==> !Before(kind, t[k], y)
    ensures SortedBy(kind, [y] + t)
  {
    var r := [y] + t;
    forall i, j | 0 <= i < j < |r|
      ensures !Before(kind, r[j], r[i])
    {
      assert r[j] == t[j - 1];
      if i > 0 {
        assert r[i] == t[i - 1];
      }
    }
  }

  /** The sorted side is sorted, and holds exactly the side's orders. */
  lemma {:induction false} SortSideCorrect(kind: OrderType, s: seq<Resting>)
    ensures SortedBy(kind, SortSide(kind, s))
    ensures multiset(SortSide(kind, s)) == multiset(s)
    decreases |s|
  {
    if s != [] {
      SortSideCorrect(kind, s[..|s| - 1]);
      InsertSorted(kind, s[|s| - 1], SortSide(kind, s[..|s| - 1]));
      InsertPermutes(kind, s[|s| - 1], SortSide(kind, s[..|s| - 1]));
      assert s == s[..|s| - 1] + [s[|s| - 1]];
    }
  }

  /** Every order is on exactly one side. */
  lemma {:induction false} SidesPartition(orders: seq<Resting>)
    ensures multiset(Side(orders, ASK)) + multiset(Side(orders, BID)) == multiset(orders)
    decreases |orders|
  {
    if orders != [] {
      SidesPartition(orders[..|orders| - 1]);
      assert orders == orders[..|orders| - 1] + [orders[|orders| - 1]];
    }
  }

  /** toSimple, as integer fields. */
  function Simple(o: Resting): SimpleOrder
  {
    SimpleOrder(o.id, o.price, o.volume, o.kind)
  }

  function Simplified(s: seq<Resting>): (r: seq<SimpleOrder>)
    ensures |r| == |s| && forall i :: 0 <= i < |s| ==> r[i] == Simple(s[i])
    decreases |s|
  {
    if s == [] then [] else Simplified(s[..|s| - 1]) + [Simple(s[|s| - 1])]
  }

  /** _getState: null without orders, otherwise both sides sorted, the
      cursor, the timestamp and the trades. */
  function Projection(d: BookData): (r: Option<BookState>)
    requires Valid(d)
    ensures r.None? <==> !d.live
    ensures r.Some? ==> r.value.sequence == d.sequence.value && r.value.timestamp == d.timestamp &&
                        r.value.trades == d.trades.value
  {
    if d.orders.None? then None
    else
      var orders := d.orders.value;
      Some(BookState(
        Simplified(SortSide(ASK, Side(orders, ASK))),
        Simplified(SortSide(BID, Side(orders, BID))),
        d.sequence.value,
        d.timestamp,
        d.trades.value))
  }

  /** The projection lists each side sorted, as a permutation of that side's
      orders, and lists every order of the book once. */
  lemma ProjectionSorted(d: BookData)
    requires Valid(d) && d.live
    ensures var orders := d.orders.value;
            var asks := SortSide(ASK, Side(orders, ASK));
            var bids := SortSide(BID, Side(orders, BID));
            && Projection(d).value.asks == Simplified(asks)
            && Projection(d).value.bids == Simplified(bids)
            && SortedBy(ASK, asks) && SortedBy(BID, bids)
            && multiset(asks) == multiset(Side(orders, ASK))
            && multiset(bids) == multiset(Side(orders, BID))
            && multiset(asks) + multiset(bids) == multiset(orders)
            && |Projection(d).value.asks| + |Projection(d).value.bids| == |orders|
  {
    var orders := d.orders.value;
    SortSideCorrect(ASK, Side(orders, ASK));
    SortSideCorrect(BID, Side(orders, BID));
    SidesPartition(orders);
    var asks := SortSide(ASK, Side(orders, ASK));
    var bids := SortSide(BID, Side(orders, BID));
    assert |multiset(asks)| + |multiset(bids)| == |multiset(orders)|;
  }
}
