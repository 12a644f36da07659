/** The position-reconciliation helpers of lib/executer.js.  A position is a
    wanted order (side, limit price, volume); the open orders already on the
    exchange that sit at the same position count towards it.  While they
    exceed the wanted volume, the newest of them is cancelled; what is left
    to order is returned.  Cancelling an order on the exchange is recorded
    as its id appended to the executer's list of cancelled ids.  Volumes are
    in satoshis, already decoded from the exchange's decimal text. */
module Executer {
  import opened Wrappers
  import opened Decimal
  import opened Feed
  import opened LunoUtil

  /** An open order as the exchange lists it. */
  datatype OpenOrder = OpenOrder(
    orderId: string,
    kind: OrderType,
    limitPrice: string,
    limitVolume: int,
    creationTimestamp: nat)

  /** A wanted position: side, limit price text and volume. */
  datatype Position = Position(kind: OrderType, price: string, volume: int)

  /** isOpenOrderSamePosition: the same side, and the same integer part of
      the price (parseInt); a price without one (NaN) matches nothing. */
  predicate SamePosition(o: OpenOrder, position: Position)
  {
    o.kind == position.kind && ParseInt(o.limitPrice).Some? && ParseInt(o.limitPrice) == ParseInt(position.price)
  }

  lemma DigitsOfPrices()
    ensures DigitsValue("1200") == 1200 && DigitsValue("1201") == 1201
  {
    assert "1200"[..3] == "120" && "1201"[..3] == "120";
    assert "120"[..2] == "12" && "12"[..1] == "1" && "1"[..0] == "";
  }

  lemma ParseWholePrices()
    ensures ParseInt("1200.50") == Some(1200) && ParseInt("1200") == Some(1200) && ParseInt("1201") == Some(1201)
  {
    DigitsOfPrices();
    ParseIntUnsigned("1200", ".50");
    assert "1200" + ".50" == "1200.50";
    ParseIntUnsigned("1200", "");
    assert "1200" + "" == "1200";
    ParseIntUnsigned("1201", "");
    assert "1201" + "" == "1201";
  }

  /** Only the integer part of the price decides: '1200.50' and '1200' are
      the same position, '1201' is another, and so is the other side. */
  lemma SamePositionIgnoresFraction(id: string, volume: int, t: nat)
    ensures SamePosition(OpenOrder(id, BID, "1200.50", volume, t), Position(BID, "1200", 0))
    ensures !SamePosition(OpenOrder(id, BID, "1201", volume, t), Position(BID, "1200", 0))
    ensures !SamePosition(OpenOrder(id, ASK, "1200", volume, t), Position(BID, "1200", 0))
  {
    ParseWholePrices();
  }

  /** calculateVolumeOnOrder: the volume of the open orders at the position. */
  function VolumeOnOrder(orders: seq<OpenOrder>, position: Position): int
    decreases |orders|
  {
    if orders == [] then 0
    else
      var rest := VolumeOnOrder(orders[..|orders| - 1], position);
      var last := orders[|orders| - 1];
      if SamePosition(last, position) then rest + last.limitVolume else rest
  }

  /** The orders of the list that are not at the position. */
  function Others(orders: seq<OpenOrder>, position: Position): seq<OpenOrder>
    decreases |orders|
  {
    if orders == [] then []
    else
      var rest := Others(orders[..|orders| - 1], position);
      var last := orders[|orders| - 1];
      if SamePosition(last, position) then rest else rest + [last]
  }

  /** The reduce that picks the order to cancel: the matching order with the
      greatest creation timestamp, the first of them on a tie; a timestamp of
      0 is falsy and is replaced by any later match. */
  function NewestMatching(orders: seq<OpenOrder>, position: Position): (r: Option<nat>)
    ensures r.Some? ==> r.value < |orders| && SamePosition(orders[r.value], position)
    decreases |orders|
  {
    if orders == [] then None
    else
      var acc := NewestMatching(orders[..|orders| - 1], position);
      var last := orders[|orders| - 1];
      if SamePosition(last, position) &&
         (acc.None? || orders[acc.value].creationTimestamp == 0 ||
          last.creationTimestamp > orders[acc.value].creationTimestamp)
      then Some(|orders| - 1)
      else acc
  }

  /** The pick exists exactly when some order matches. */
  lemma {:induction false} NewestMatchingExists(orders: seq<OpenOrder>, position: Position)
    ensures NewestMatching(orders, position).None? <==>
              forall j :: 0 <= j < |orders| ==> !SamePosition(orders[j], position)
    decreases |orders|
  {
    if orders != [] {
      var init := orders[..|orders| - 1];
      assert forall j :: 0 <= j < |init| ==> init[j] == orders[j];
      NewestMatchingExists(init, position);
    }
  }

  /** The pick is the newest matching order, and the first of the newest
      unless their timestamp is 0. */
  lemma {:induction false} NewestMatchingIsNewest(orders: seq<OpenOrder>, position: Position)
    requires NewestMatching(orders, position).Some?
    ensures var i := NewestMatching(orders, position).value;
            (forall j :: 0 <= j < |orders| && SamePosition(orders[j], position) ==>
               orders[j].creationTimestamp <= orders[i].creationTimestamp) &&
            (orders[i].creationTimestamp > 0 ==>
               forall j :: 0 <= j < i && SamePosition(orders[j], position) ==>
                 orders[j].creationTimestamp < orders[i].creationTimestamp)
    decreases |orders|
  {
    var init := orders[..|orders| - 1];
    var acc := NewestMatching(init, position);
    assert forall j :: 0 <= j < |init| ==> init[j] == orders[j];
    if acc.Some? {
      NewestMatchingIsNewest(init, position);
    } else {
      NewestMatchingExists(init, position);
    }
  }

  /** The list with its element at i spliced out. */
  function Without(orders: seq<OpenOrder>, i: nat): seq<OpenOrder>
    requires i < |orders|
  {
    orders[..i] + orders[i + 1..]
  }

  /** Splicing a matching order out takes its volume off the matching
      volume. */
  lemma {:induction false} WithoutMatching(orders: seq<OpenOrder>, i: nat, position: Position)
    requires i < |orders| && SamePosition(orders[i], position)
    ensures VolumeOnOrder(Without(orders, i), position) == VolumeOnOrder(orders, position) - orders[i].limitVolume
    decreases |orders|
  {
    var init := orders[..|orders| - 1];
    var w := Without(orders, i);
    if i == |orders| - 1 {
      assert w == init;
    } else {
      var last := orders[|orders| - 1];
      var shorter := Without(init, i);
      assert init[i] == orders[i];
      WithoutMatching(init, i, position);
      assert w == shorter + [last];
      LastSplit(w, shorter, last);
      var step := if SamePosition(last, position) then last.limitVolume else 0;
      assert VolumeOnOrder(w, position) == VolumeOnOrder(shorter, position) + step;
      assert VolumeOnOrder(orders, position) == VolumeOnOrder(init, position) + step;
    }
  }

  /** ... and leaves the other orders as they were. */
  lemma {:induction false} WithoutKeepsOthers(orders: seq<OpenOrder>, i: nat, position: Position)
    requires i < |orders| && SamePosition(orders[i], position)
    ensures Others(Without(orders, i), position) == Others(orders, position)
    decreases |orders|
  {
    var init := orders[..|orders| - 1];
    var w := Without(orders, i);
    if i == |orders| - 1 {
      assert w == init;
    } else {
      var last := orders[|orders| - 1];
      var shorter := Without(init, i);
      assert init[i] == orders[i];
      WithoutKeepsOthers(init, i, position);
      assert w == shorter + [last];
      LastSplit(w, shorter, last);
      var step := if SamePosition(last, position) then [] else [last];
      assert Others(w, position) == Others(shorter, position) + step;
      assert Others(orders, position) == Others(init, position) + step;
    }
  }

  lemma LastSplit(w: seq<OpenOrder>, shorter: seq<OpenOrder>, last: OpenOrder)
    requires w == shorter + [last]
    ensures w != [] && w[..|w| - 1] == shorter && w[|w| - 1] == last
  {
  }

  predicate NonNegative(orders: seq<OpenOrder>)
  {
    forall j :: 0 <= j < |orders| ==> orders[j].limitVolume >= 0
  }

  lemma WithoutNonNegative(orders: seq<OpenOrder>, i: nat)
    requires i < |orders| && NonNegative(orders)
    ensures NonNegative(Without(orders, i))
  {
    var w := Without(orders, i);
    forall j | 0 <= j < |w|
      ensures w[j].limitVolume >= 0
    {
      assert w[j] == if j < i then orders[j] else orders[j + 1];
    }
  }

  lemma {:induction false} VolumeOnOrderNonNegative(orders: seq<OpenOrder>, position: Position)
    requires NonNegative(orders)
    ensures VolumeOnOrder(orders, position) >= 0
    decreases |orders|
  {
    if orders != [] {
      var init := orders[..|orders| - 1];
      assert NonNegative(init) by {
        assert forall j :: 0 <= j < |init| ==> init[j] == orders[j];
      }
      VolumeOnOrderNonNegative(init, position);
    }
  }

  /** The end of _cancelOrdersAndCalculateNewOrder: the orders left, the
      ids passed to stopOrder in order (None for the undefined id of the
      empty accumulator) and the satoshis still to order (None for NaN). */
  datatype Reconciled = Reconciled(remaining: seq<OpenOrder>, cancelled: seq<Option<string>>, shortfall: Option<int>)

  /** The list without its last element: splice(-1, 1), which leaves an
      empty list as it is. */
  function DropLast(orders: seq<OpenOrder>): seq<OpenOrder>
  {
    if orders == [] then [] else orders[..|orders| - 1]
  }

  /** What _cancelOrdersAndCalculateNewOrder does: while the matching volume
      exceeds the wanted volume, the newest matching order is stopped and
      spliced out.  With no matching order left the reduce yields its empty
      accumulator: indexOf gives -1, the last order is spliced out, and the
      volume becomes NaN, which ends the loop. */
  function Reconcile(orders: seq<OpenOrder>, position: Position): (r: Reconciled)
    decreases |orders|
  {
    var volume := VolumeOnOrder(orders, position);
    if volume <= position.volume then Reconciled(orders, [], Some(position.volume - volume))
    else
      match NewestMatching(orders, position)
      case None => Reconciled(DropLast(orders), [None], None)
      case Some(i) =>
        var next := Reconcile(Without(orders, i), position);
        next.(cancelled := [Some(orders[i].orderId)] + next.cancelled)
  }

  /** Without a matching order there is no volume. */
  lemma {:induction false} NoMatchNoVolume(orders: seq<OpenOrder>, position: Position)
    requires NewestMatching(orders, position).None?
    ensures VolumeOnOrder(orders, position) == 0
    decreases |orders|
  {
    if orders != [] {
      NoMatchNoVolume(orders[..|orders| - 1], position);
    }
  }

  /** For a wanted volume that is not negative (what the executer passes):
      the shortfall is a number, not negative, and exactly what the orders
      left fall short of the wanted volume; only matching orders are
      cancelled, all of them with their ids, and every order is either kept
      or cancelled. */
  lemma {:induction false} ReconcileCovers(orders: seq<OpenOrder>, position: Position)
    requires position.volume >= 0
    ensures var r := Reconcile(orders, position);
            r.shortfall.Some? && r.shortfall.value >= 0 &&
            r.shortfall.value == position.volume - VolumeOnOrder(r.remaining, position) &&
            Others(r.remaining, position) == Others(orders, position) &&
            |r.remaining| + |r.cancelled| == |orders| &&
            forall k :: 0 <= k < |r.cancelled| ==> r.cancelled[k].Some?
    decreases |orders|
  {
    if VolumeOnOrder(orders, position) > position.volume {
      if NewestMatching(orders, position).None? {
        NoMatchNoVolume(orders, position);
      } else {
        var i := NewestMatching(orders, position).value;
        WithoutKeepsOthers(orders, i, position);
        ReconcileCovers(Without(orders, i), position);
      }
    }
  }

  /** With volumes that are not negative, a negative wanted volume always
      ends in NaN, after every matching order and then one more order from
      the end of the list were spliced out. */
  lemma {:induction false} ReconcileNegativeTarget(orders: seq<OpenOrder>, position: Position)
    requires position.volume < 0 && NonNegative(orders)
    ensures var r := Reconcile(orders, position);
            r.shortfall.None? && r.cancelled != [] && r.cancelled[|r.cancelled| - 1].None?
    decreases |orders|
  {
    VolumeOnOrderNonNegative(orders, position);
    if NewestMatching(orders, position).Some? {
      var i := NewestMatching(orders, position).value;
      WithoutNonNegative(orders, i);
      ReconcileNegativeTarget(Without(orders, i), position);
    }
  }

  /** When the open orders do not exceed the wanted volume nothing is
      cancelled. */
  lemma ReconcileCoveredIsNoop(orders: seq<OpenOrder>, position: Position)
    requires VolumeOnOrder(orders, position) <= position.volume
    ensures Reconcile(orders, position) == Reconciled(orders, [], Some(position.volume - VolumeOnOrder(orders, position)))
  {
  }

  /** The first order cancelled is the newest matching one. */
  lemma ReconcileCancelsNewestFirst(orders: seq<OpenOrder>, position: Position)
    requires position.volume >= 0
    requires VolumeOnOrder(orders, position) > position.volume
    ensures NewestMatching(orders, position).Some?
    ensures var i := NewestMatching(orders, position).value;
            Reconcile(orders, position).cancelled != [] &&
            Reconcile(orders, position).cancelled[0] == Some(orders[i].orderId) &&
            forall j :: 0 <= j < |orders| && SamePosition(orders[j], position) ==>
              orders[j].creationTimestamp <= orders[i].creationTimestamp
  {
    if NewestMatching(orders, position).None? {
      NoMatchNoVolume(orders, position);
    }
    NewestMatchingIsNewest(orders, position);
  }

  /** The outcome of the loop resumed on `orders`, with `stopped` already
      passed to stopOrder. */
  function Resume(orders: seq<OpenOrder>, stopped: seq<Option<string>>, position: Position): Reconciled
  {
    var r := Reconcile(orders, position);
    Reconciled(r.remaining, stopped + r.cancelled, r.shortfall)
  }

  /** One round of the loop that finds a matching order. */
  lemma ResumeCancels(orders: seq<OpenOrder>, stopped: seq<Option<string>>, position: Position, i: nat)
    requires VolumeOnOrder(orders, position) > position.volume
    requires NewestMatching(orders, position) == Some(i)
    ensures VolumeOnOrder(Without(orders, i), position) == VolumeOnOrder(orders, position) - orders[i].limitVolume
    ensures Resume(orders, stopped, position) == Resume(Without(orders, i), stopped + [Some(orders[i].orderId)], position)
  {
    WithoutMatching(orders, i, position);
    var next := Reconcile(Without(orders, i), position);
    assert stopped + ([Some(orders[i].orderId)] + next.cancelled) == (stopped + [Some(orders[i].orderId)]) + next.cancelled;
  }

  /** The round that finds none: the loop ends in NaN. */
  lemma ResumeGivesUp(orders: seq<OpenOrder>, stopped: seq<Option<string>>, position: Position)
    requires VolumeOnOrder(orders, position) > position.volume
    requires NewestMatching(orders, position).None?
    ensures Resume(orders, stopped, position) == Reconciled(DropLast(orders), stopped + [None], None)
  {
  }

  /** The loop condition fails: nothing more is cancelled. */
  lemma ResumeCovered(orders: seq<OpenOrder>, stopped: seq<Option<string>>, position: Position)
    requires VolumeOnOrder(orders, position) <= position.volume
    ensures Resume(orders, stopped, position) == Reconciled(orders, stopped, Some(position.volume - VolumeOnOrder(orders, position)))
  {
    assert stopped + [] == stopped;
  }

  /** The list of open orders the exchange returned; the reconciliation
      splices it in place. */
  class OpenOrderList {
    var orders: seq<OpenOrder>

    constructor (orders: seq<OpenOrder>)
      ensures this.orders == orders
    {
      this.orders := orders;
    }
  }

  class Executer {
    /** The ids passed to stopOrder, in order. */
    var cancelled: seq<Option<string>>

    constructor ()
      ensures cancelled == []
    {
      cancelled := [];
    }

    /** _cancelOrdersAndCalculateNewOrder */
    method CancelOrdersAndCalculateNewOrder(openOrders: OpenOrderList, position: Position) returns (shortfall: Option<int>)
      modifies this, openOrders
      ensures openOrders.orders == Reconcile(old(openOrders.orders), position).remaining
      ensures cancelled == old(cancelled) + Reconcile(old(openOrders.orders), position).cancelled
      ensures shortfall == Reconcile(old(openOrders.orders), position).shortfall
    {
      var volumeOnOrder: Option<int> := Some(VolumeOnOrder(openOrders.orders, position));
      var satoshisToOrder := position.volume;
      ghost var goal := Resume(openOrders.orders, cancelled, position);
      assert old(cancelled) + Reconcile(old(openOrders.orders), position).cancelled == goal.cancelled;
      while volumeOnOrder.Some? && volumeOnOrder.value > satoshisToOrder
        invariant volumeOnOrder.Some? ==>
          volumeOnOrder.value == VolumeOnOrder(openOrders.orders, position) &&
          Resume(openOrders.orders, cancelled, position) == goal
        invariant volumeOnOrder.None? ==> goal == Reconciled(openOrders.orders, cancelled, None)
        decreases if volumeOnOrder.Some? then |openOrders.orders| + 1 else 0
      {
        var newest := NewestMatching(openOrders.orders, position);
        if newest.None? {
          ResumeGivesUp(openOrders.orders, cancelled, position);
          cancelled := cancelled + [None];
          openOrders.orders := DropLast(openOrders.orders);
          volumeOnOrder := None;
        } else {
          var index := newest.value;
          var orderToCancel := openOrders.orders[index];
          ResumeCancels(openOrders.orders, cancelled, position, index);
          cancelled := cancelled + [Some(orderToCancel.orderId)];
          openOrders.orders := Without(openOrders.orders, index);
          volumeOnOrder := Some(volumeOnOrder.value - orderToCancel.limitVolume);
        }
      }
      if volumeOnOrder.Some? {
        ResumeCovered(openOrders.orders, cancelled, position);
      }
      shortfall := if volumeOnOrder.Some? then Some(satoshisToOrder - volumeOnOrder.value) else None;
    }
  }

  // ---------------------------------------------------------------------
  // Price improvement

  /** bestBidPrice.toFixed(2) of a whole number; NaN for a missing one. */
  function FixedTwo(n: Option<int>): string
  {
    if n.Some? then IntToString(n.value) + ".00" else "NaN"
  }

  /** The integer parts (parseInt) of the ticker's bid and ask texts. */
  function WholeBid(book: BookState): Option<int>
  {
    ParseInt(MakeTicker(Some(book)).value.bid)
  }

  function WholeAsk(book: BookState): Option<int>
  {
    ParseInt(MakeTicker(Some(book)).value.ask)
  }

  /** The bid one unit better when the spread is more than a unit wide. */
  function ImprovedBid(bid: Option<int>, ask: Option<int>): (r: Option<int>)
    ensures r.Some? <==> bid.Some?
    ensures bid.Some? && ask.Some? && ask.value - bid.value > 1 ==>
              bid.value < r.value < ask.value && r.value == bid.value + 1
    ensures !(bid.Some? && ask.Some? && ask.value - bid.value > 1) ==> r == bid
  {
    if bid.Some? && ask.Some? && ask.value - bid.value > 1 then Some(bid.value + 1) else bid
  }

  /** The ask one unit better when the spread is more than a unit wide. */
  function ImprovedAsk(bid: Option<int>, ask: Option<int>): (r: Option<int>)
    ensures r.Some? <==> ask.Some?
    ensures bid.Some? && ask.Some? && ask.value - bid.value > 1 ==>
              bid.value < r.value < ask.value && r.value == ask.value - 1
    ensures !(bid.Some? && ask.Some? && ask.value - bid.value > 1) ==> r == ask
  {
    if bid.Some? && ask.Some? && ask.value - bid.value > 1 then Some(ask.value - 1) else ask
  }

  /** getBestBuyPrice: undefined without an order book. */
  method BestBuyPrice(book: Option<BookState>) returns (price: Option<string>)
    ensures price.None? <==> book.None?
    ensures book.Some? ==> price == Some(FixedTwo(ImprovedBid(WholeBid(book.value), WholeAsk(book.value))))
  {
    if book.None? {
      return None;
    }
    var ticker := MakeTicker(book).value;
    var bestBidPrice := ParseInt(ticker.bid);
    var ask := ParseInt(ticker.ask);
    if bestBidPrice.Some? && ask.Some? && ask.value - bestBidPrice.value > 1 {
      bestBidPrice := Some(bestBidPrice.value + 1);
    }
    price := Some(FixedTwo(bestBidPrice));
  }

  /** getBestSellPrice: undefined without an order book. */
  method BestSellPrice(book: Option<BookState>) returns (price: Option<string>)
    ensures price.None? <==> book.None?
    ensures book.Some? ==> price == Some(FixedTwo(ImprovedAsk(WholeBid(book.value), WholeAsk(book.value))))
  {
    if book.None? {
      return None;
    }
    var ticker := MakeTicker(book).value;
    var bestAskPrice := ParseInt(ticker.ask);
    var bid := ParseInt(ticker.bid);
    if bestAskPrice.Some? && bid.Some? && bestAskPrice.value - bid.value > 1 {
      bestAskPrice := Some(bestAskPrice.value - 1);
    }
    price := Some(FixedTwo(bestAskPrice));
  }

  /** The rendered price reads back to the whole number it was made from. */
  lemma FixedTwoReadsBack(n: int)
    ensures ParseInt(FixedTwo(Some(n))) == Some(n)
  {
    var magnitude: nat := if n < 0 then -n else n;
    IntToStringLayout(n);
    ParseIntLayout(n < 0, magnitude, "00");
    assert FixedTwo(Some(n)) == Layout(n < 0, magnitude, "00");
  }

  /** parseInt of convertSatoshisToDecimalString: the whole coins, truncated
      toward zero. */
  lemma WholeCoins(satoshis: int)
    ensures ParseInt(SatoshisToDecimalString(satoshis)) == Some(WithSign(satoshis < 0, Magnitude(satoshis) / SatoshisPerCoin))
  {
    var m := Magnitude(satoshis);
    SatoshisPerCoinIsPow10();
    assert RoundHalfUp(m, Pow10(0)) == m by {
      assert Pow10(0) == 1;
      RoundHalfUpExact(m, 1);
    }
    var q := WholePart(m, 8);
    var frac := StripTrailingZeros(PadDigits(FractionPart(m, 8), 8));
    assert SatoshisToDecimalString(satoshis) == Layout(satoshis < 0 && m > 0, q, frac);
    ParseIntLayout(satoshis < 0 && m > 0, q, frac);
  }

  /** The whole bid the buy rule starts from is the greatest bid price in
      whole currency units (cents / 100, truncated); with no bids it is
      missing (parseInt('-Infinity') is NaN). */
  lemma WholeBidOfBook(book: BookState)
    ensures book.bids == [] ==> WholeBid(book).None?
    ensures book.bids != [] ==>
      exists i :: 0 <= i < |book.bids| &&
        (forall j :: 0 <= j < |book.bids| ==> book.bids[j].price <= book.bids[i].price) &&
        WholeBid(book) == Some(WithSign(book.bids[i].price < 0, Magnitude(book.bids[i].price) / 100))
  {
    var r := MaxBidSatoshis(book.bids);
    if book.bids == [] {
      assert MakeTicker(Some(book)).value.bid == "-Infinity";
      assert "-Infinity"[1..] == "Infinity";
    } else {
      var i :| 0 <= i < |book.bids| && r == Finite(PriceSatoshis(book.bids[i].price));
      assert MakeTicker(Some(book)).value.bid == SatoshisToDecimalString(r.n);
      WholeCoins(r.n);
      WholeOfPriceSatoshis(book.bids[i].price);
      forall j | 0 <= j < |book.bids|
        ensures book.bids[j].price <= book.bids[i].price
      {
        assert PriceSatoshis(book.bids[j].price) <= PriceSatoshis(book.bids[i].price);
      }
    }
  }

  /** The whole ask the sell rule starts from is the least ask price in
      whole currency units; with no asks it is missing (parseInt('Infinity')
      is NaN). */
  lemma WholeAskOfBook(book: BookState)
    ensures book.asks == [] ==> WholeAsk(book).None?
    ensures book.asks != [] ==>
      exists i :: 0 <= i < |book.asks| &&
        (forall j :: 0 <= j < |book.asks| ==> book.asks[i].price <= book.asks[j].price) &&
        WholeAsk(book) == Some(WithSign(book.asks[i].price < 0, Magnitude(book.asks[i].price) / 100))
  {
    var r := MinAskSatoshis(book.asks);
    if book.asks == [] {
      assert MakeTicker(Some(book)).value.ask == "Infinity";
    } else {
      var i :| 0 <= i < |book.asks| && r == Finite(PriceSatoshis(book.asks[i].price));
      assert MakeTicker(Some(book)).value.ask == SatoshisToDecimalString(r.n);
      WholeCoins(r.n);
      WholeOfPriceSatoshis(book.asks[i].price);
      forall j | 0 <= j < |book.asks|
        ensures book.asks[i].price <= book.asks[j].price
      {
        assert PriceSatoshis(book.asks[i].price) <= PriceSatoshis(book.asks[j].price);
      }
    }
  }

  lemma WholeOfPriceSatoshis(cents: int)
    ensures Magnitude(PriceSatoshis(cents)) / SatoshisPerCoin == Magnitude(cents) / 100
    ensures (PriceSatoshis(cents) < 0) == (cents < 0)
  {
    var m := Magnitude(cents);
    assert Magnitude(PriceSatoshis(cents)) == m * 1_000_000;
    DivModUnique(m * 1_000_000, SatoshisPerCoin, m / 100, (m % 100) * 1_000_000);
  }
}
