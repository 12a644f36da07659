/** The values that cross the book's boundary: feed messages coming in and
    the book projection going out.  Amounts are already decoded from the
    feed's decimal text into integer minor units: every price is in cents
    (1/100 of the fiat currency) and every volume in satoshis (1/10^8 of the
    crypto asset).  An optional field is None when the message leaves it out
    or, for the numeric fields of an order, when it is falsy (numeric 0). */
module Feed {
  import opened Wrappers

  /** The side of a resting order: the type field, 'ASK' or 'BID'. */
  datatype OrderType = ASK | BID

  /** The fields an order is built from: a snapshot entry (which names its
      identifier `id`) or a create update (which names it `order_id`). */
  datatype OrderOptions = OrderOptions(
    id: Option<string>,
    orderId: Option<string>,
    price: Option<int>,
    volume: Option<int>,
    kind: Option<OrderType>)

  /** One element of trade_updates: `base` satoshis traded against
      `counter` cents. */
  datatype TradeUpdate = TradeUpdate(orderId: string, base: int, counter: int)

  /** A feed message.  Whether it is a snapshot or an incremental update is
      decided by the fields present, as the book does it. */
  datatype Message = Message(
    sequence: string,
    asks: Option<seq<OrderOptions>>,
    bids: Option<seq<OrderOptions>>,
    timestamp: Option<int>,
    createUpdate: Option<OrderOptions>,
    tradeUpdates: Option<seq<TradeUpdate>>,
    deleteUpdate: Option<string>)

  /** A snapshot is a message that carries both an ask list and a bid list. */
  predicate IsSnapshot(m: Message) {
    m.asks.Some? && m.bids.Some?
  }

  /** An order as the projection lists it. */
  datatype SimpleOrder = SimpleOrder(id: string, price: int, volume: int, kind: OrderType)

  /** A trade record: traded volume (satoshis), the message timestamp, the unit
      price (cents per whole coin; None when the traded volume is zero and the
      quotient is not finite) and whether the resting order was an ask. */
  datatype Trade = Trade(volume: int, timestamp: Option<int>, price: Option<int>, isBuy: bool)

  /** The projection of a live book: sorted sides, the cursor and the trades. */
  datatype BookState = BookState(
    asks: seq<SimpleOrder>,
    bids: seq<SimpleOrder>,
    sequence: string,
    timestamp: Option<int>,
    trades: seq<Trade>)
}
