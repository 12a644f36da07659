/** The order-book state machine of lib/luno-book.js.  The book is fed the
    exchange's messages one at a time: a snapshot (a message with both an ask
    list and a bid list) replaces everything and makes the book live; an
    incremental message is applied only while live and only when its
    sequence is the decimal successor of the current one, and then applies
    its create, its trades and its delete in that order; an incremental
    message out of sequence flushes the book.

    The state change is specified by the pure transition `Step`; the class
    `Book` performs it in place, field by field, and is proved to end in the
    state `Step` describes.  Resting orders are held as values, and every
    notification the book broadcasts is appended to an event log. */
module LunoBook {
  import opened Wrappers
  import opened Decimal
  import opened Feed
  import opened LunoUtil
  import LunoOrder

  /** A resting order: every field the book relies on is present. */
  datatype Resting = Resting(id: string, kind: OrderType, price: int, volume: int)

  /** The notifications of the book's event emitter, in the order emitted:
      marketChange 'initialized', marketChange 'update', orderCreated. */
  datatype Event = Initialized | Updated | OrderCreated(order: Resting)

  /** Everything the book holds.  `orders`, `sequence` and `timestamp` are
      undefined (None) before the first snapshot and after a flush; the
      trade and removed-id logs are undefined only before the first
      snapshot. */
  datatype BookData = BookData(
    live: bool,
    orders: Option<seq<Resting>>,
    sequence: Option<string>,
    timestamp: Option<int>,
    trades: Option<seq<Trade>>,
    removed: Option<seq<string>>,
    events: seq<Event>)

  /** The book as the constructor leaves it. */
  const Initial: BookData := BookData(false, None, None, None, None, None, [])

  /** The invariant the book keeps: the order list exists exactly while the
      book is live, and a live book has a cursor and both logs. */
  ghost predicate Valid(d: BookData)
  {
    && (d.live <==> d.orders.Some?)
    && (d.live ==> d.sequence.Some? && d.trades.Some?)
    && (d.trades.Some? <==> d.removed.Some?)
  }

  lemma InitialValid()
    ensures Valid(Initial) && !Initial.live
  {
  }

  // ---------------------------------------------------------------------
  // Building orders from message entries

  /** A snapshot entry the book can hold: it names its order and gives its
      price and volume. */
  predicate EntryWellFormed(o: OrderOptions)
  {
    LunoOrder.OptionsId(o).Some? && o.price.Some? && o.volume.Some?
  }

  predicate AllWellFormed(entries: seq<OrderOptions>)
  {
    forall i :: 0 <= i < |entries| ==> EntryWellFormed(entries[i])
  }

  /** The order LunoOrder builds from an entry, with its type forced to `kind`
      (the snapshot tags every entry of its ask list ASK and of its bid list BID). */
  function Entry(o: OrderOptions, kind: OrderType): (r: Resting)
    requires EntryWellFormed(o)
    ensures LunoOrder.FromOptions(Some(o.(kind := Some(kind)))) ==
            LunoOrder.OrderFields(Some(r.id), Some(r.volume), Some(r.price), Some(r.kind))
  {
    Resting(LunoOrder.OptionsId(o).value, kind, o.price.value, o.volume.value)
  }

  /** The orders a list of entries gives, in list order. */
  function Entries(entries: seq<OrderOptions>, kind: OrderType): (r: seq<Resting>)
    requires AllWellFormed(entries)
    ensures |r| == |entries|
    ensures forall i :: 0 <= i < |entries| ==> r[i] == Entry(entries[i], kind)
  {
    if entries == [] then []
    else Entries(entries[..|entries| - 1], kind) + [Entry(entries[|entries| - 1], kind)]
  }

  lemma EntriesSnoc(entries: seq<OrderOptions>, i: int, kind: OrderType)
    requires 0 <= i < |entries| && AllWellFormed(entries)
    ensures AllWellFormed(entries[..i]) && AllWellFormed(entries[..i + 1])
    ensures Entries(entries[..i + 1], kind) == Entries(entries[..i], kind) + [Entry(entries[i], kind)]
  {
    assert entries[..i + 1][..i] == entries[..i];
  }

  // ---------------------------------------------------------------------
  // The sequence cursor

  /** _checkSequence: the decimal text of parseInt(current) + 1 must equal
      the message's sequence; parseInt of a non-number is NaN, and NaN + 1
      prints as "NaN". */
  function CheckSequence(current: string, next: string): bool
  {
    match ParseInt(current)
    case Some(n) => IntToString(n + 1) == next
    case None => next == "NaN"
  }

  /** On a numeric cursor, exactly the successor is accepted. */
  lemma CheckSequenceSuccessor(n: int, next: string)
    ensures CheckSequence(IntToString(n), next) <==> next == IntToString(n + 1)
  {
    ParseIntToString(n);
  }

  /** In particular a repeated or skipped sequence number is refused. */
  lemma CheckSequenceRefusesOthers(n: int, m: int)
    requires m != n + 1
    ensures !CheckSequence(IntToString(n), IntToString(m))
  {
    ParseIntToString(n);
    if IntToString(m) == IntToString(n + 1) {
      IntToStringInjective(m, n + 1);
    }
  }

  // ---------------------------------------------------------------------
  // Finding an order

  /** findIndex by identifier: the index of a match, or -1 (which match is
      stated by FindIndexFirst). */
  function FindIndex(orders: seq<Resting>, id: string): (r: int)
    ensures -1 <= r < |orders|
    ensures r >= 0 ==> orders[r].id == id
    decreases |orders|
  {
    if orders == [] then -1
    else if orders[0].id == id then 0
    else
      var k := FindIndex(orders[1..], id);
      if k == -1 then -1 else k + 1
  }

  /** findIndex returns the first match, and -1 only when nothing matches. */
  lemma {:induction false} FindIndexFirst(orders: seq<Resting>, id: string)
    ensures var r := FindIndex(orders, id);
            (forall j :: 0 <= j < r ==> orders[j].id != id) &&
            (r == -1 ==> forall j :: 0 <= j < |orders| ==> orders[j].id != id)
    decreases |orders|
  {
    if orders != [] && orders[0].id != id {
      FindIndexFirst(orders[1..], id);
      assert forall j :: 0 <= j < |orders| - 1 ==> orders[1..][j] == orders[j + 1];
    }
  }

  /** An index that is the first match, or -1 when nothing matches, is what
      findIndex returns. */
  lemma FindIndexUnique(orders: seq<Resting>, id: string, index: int)
    requires -1 <= index < |orders|
    requires index >= 0 ==> orders[index].id == id
    requires forall j :: 0 <= j < index ==> orders[j].id != id
    requires index == -1 ==> forall j :: 0 <= j < |orders| ==> orders[j].id != id
    ensures index == FindIndex(orders, id)
  {
    FindIndexFirst(orders, id);
  }

  /** The order is in the book: findIndex finds it. */
  predicate HasOrder(orders: seq<Resting>, id: string)
  {
    FindIndex(orders, id) >= 0
  }

  lemma HasOrderIff(orders: seq<Resting>, id: string)
    ensures HasOrder(orders, id) <==> exists i :: 0 <= i < |orders| && orders[i].id == id
  {
    FindIndexFirst(orders, id);
  }

  /** The sequence without its element at i (splice(i, 1)). */
  function RemoveAt<T>(s: seq<T>, i: int): seq<T>
    requires 0 <= i < |s|
  {
    s[..i] + s[i + 1..]
  }

  // ---------------------------------------------------------------------
  // Trades

  /** The orders and the two logs a trade touches. */
  datatype Ledger = Ledger(orders: seq<Resting>, trades: seq<Trade>, removed: seq<string>)

  /** (counter / base).toFixed(2) in cents: counter cents over base satoshis
      is counter * 10^8 / base cents per coin, rounded half away from zero;
      a zero base gives no finite price. */
  function TradePrice(counter: int, base: int): (r: Option<int>)
    ensures r.None? <==> base == 0
    ensures base > 0 && counter >= 0 ==>
      -base <= 2 * (counter * SatoshisPerCoin - r.value * base) < base
  {
    if base == 0 then None
    else
      var negative := (counter < 0) != (base < 0);
      var magnitude := RoundHalfUp(Magnitude(counter) * SatoshisPerCoin, Magnitude(base));
      Some(if negative then -magnitude else magnitude)
  }

  /** _processTradeUpdate: the first order with the trade's identifier loses
      `base` satoshis of volume (exactly: LunoOrder.ReducedVolume); at zero it
      leaves the book and its id is logged; every trade is logged with its volume, the message timestamp,
      its price and whether the resting order was an ask. */
  function ApplyTrade(l: Ledger, t: TradeUpdate, timestamp: Option<int>): Ledger
    requires HasOrder(l.orders, t.orderId)
  {
    var i := FindIndex(l.orders, t.orderId);
    var order := l.orders[i];
    var volume := order.volume - t.base;
    var record := Trade(t.base, timestamp, TradePrice(t.counter, t.base), order.kind == ASK);
    if volume == 0 then
      Ledger(RemoveAt(l.orders, i), l.trades + [record], l.removed + [t.orderId])
    else
      Ledger(l.orders[i := order.(volume := volume)], l.trades + [record], l.removed)
  }

  /** Every trade of the list names an order present when its turn comes. */
  predicate TradesApplicable(l: Ledger, tus: seq<TradeUpdate>, timestamp: Option<int>)
    decreases |tus|
  {
    tus == [] ||
    (HasOrder(l.orders, tus[0].orderId) && TradesApplicable(ApplyTrade(l, tus[0], timestamp), tus[1..], timestamp))
  }

  /** _processTradeUpdates: the trades, first to last. */
  function ApplyTrades(l: Ledger, tus: seq<TradeUpdate>, timestamp: Option<int>): Ledger
    requires TradesApplicable(l, tus, timestamp)
    decreases |tus|
  {
    if tus == [] then l
    else ApplyTrades(ApplyTrade(l, tus[0], timestamp), tus[1..], timestamp)
  }

  // ---------------------------------------------------------------------
  // Deletes

  /** A delete as written: splice(findIndex(...), 1) and log the id.  An
      unknown id makes findIndex return -1, and splice(-1, 1) removes the
      last order instead. */
  function DeleteAsWritten(l: Ledger, id: string): Ledger
  {
    var i := FindIndex(l.orders, id);
    if i >= 0 then Ledger(RemoveAt(l.orders, i), l.trades, l.removed + [id])
    else if l.orders != [] then Ledger(l.orders[..|l.orders| - 1], l.trades, l.removed + [id])
    else Ledger(l.orders, l.trades, l.removed + [id])
  }

  /** A delete: the named order leaves the book and its id is logged; an
      unknown id removes nothing. */
  function Delete(l: Ledger, id: string): Ledger
  {
    var i := FindIndex(l.orders, id);
    if i >= 0 then Ledger(RemoveAt(l.orders, i), l.trades, l.removed + [id])
    else Ledger(l.orders, l.trades, l.removed + [id])
  }

  /** delete_update, when the message has one. */
  function DeleteStep(l: Ledger, m: Message): Ledger
  {
    if m.deleteUpdate.Some? then Delete(l, m.deleteUpdate.value) else l
  }

  // ---------------------------------------------------------------------
  // The transition

  /** The new state and the value `state(msg)` returns. */
  datatype Outcome = Outcome(data: BookData, accepted: bool)

  /** flush: a live book forgets its orders, cursor and timestamp and stops
      being live; the logs stay.  A book that is not live is left alone. */
  function Flush(d: BookData): Outcome
  {
    if d.live then Outcome(d.(live := false, orders := None, sequence := None, timestamp := None), true)
    else Outcome(d, false)
  }

  /** _setInitialState: the asks (tagged ASK) then the bids (tagged BID), the
      message's cursor and timestamp (null when falsy), empty logs. */
  function SetInitialState(d: BookData, m: Message): BookData
    requires IsSnapshot(m) && AllWellFormed(m.asks.value) && AllWellFormed(m.bids.value)
  {
    BookData(
      true,
      Some(Entries(m.asks.value, ASK) + Entries(m.bids.value, BID)),
      Some(m.sequence),
      if m.timestamp == Some(0) then None else m.timestamp,
      Some([]),
      Some([]),
      d.events + [Initialized])
  }

  /** The order a create update adds, if there is one. */
  function Created(m: Message): Option<Resting>
    requires m.createUpdate.Some? ==> CreateWellFormed(m.createUpdate.value)
  {
    match m.createUpdate
    case Some(c) => Some(Entry(c, c.kind.value))
    case None => None
  }

  predicate CreateWellFormed(o: OrderOptions)
  {
    EntryWellFormed(o) && o.kind.Some?
  }

  /** The orders and logs after the create, before the trades. */
  function AfterCreate(orders: seq<Resting>, trades: seq<Trade>, removed: seq<string>, created: Option<Resting>): Ledger
  {
    match created
    case Some(o) => Ledger(orders + [o], trades, removed)
    case None => Ledger(orders, trades, removed)
  }

  /** What a live book with an accepted cursor needs of an incremental
      message: a complete create update, and trades that name resting orders. */
  predicate UpdateApplicable(d: BookData, m: Message)
    requires Valid(d) && d.live
  {
    && (m.createUpdate.Some? ==> CreateWellFormed(m.createUpdate.value))
    && TradesApplicable(AfterCreate(d.orders.value, d.trades.value, d.removed.value, Created(m)),
                        Trades(m), m.timestamp)
  }

  /** trade_updates, none when absent. */
  function Trades(m: Message): seq<TradeUpdate>
  {
    if m.tradeUpdates.Some? then m.tradeUpdates.value else []
  }

  /** The orders and logs after the create, the trades and the delete. */
  function UpdatedLedger(d: BookData, m: Message): Ledger
    requires Valid(d) && d.live && UpdateApplicable(d, m)
  {
    DeleteStep(ApplyTrades(AfterCreate(d.orders.value, d.trades.value, d.removed.value, Created(m)), Trades(m), m.timestamp), m)
  }

  /** The events of an accepted update: 'update', then orderCreated for a create. */
  function UpdateEvents(created: Option<Resting>): seq<Event>
  {
    [Updated] + (if created.Some? then [OrderCreated(created.value)] else [])
  }

  /** The update branch of state(msg): create, then trades, then delete; then
      the cursor and the timestamp; then the events. */
  function ApplyUpdate(d: BookData, m: Message): BookData
    requires Valid(d) && d.live && UpdateApplicable(d, m)
  {
    var l := UpdatedLedger(d, m);
    BookData(true, Some(l.orders), Some(m.sequence), m.timestamp, Some(l.trades), Some(l.removed),
             d.events + UpdateEvents(Created(m)))
  }

  /** What state(msg) needs of a message to be defined in the given state. */
  predicate Acceptable(d: BookData, m: Message)
    requires Valid(d)
  {
    if IsSnapshot(m) then AllWellFormed(m.asks.value) && AllWellFormed(m.bids.value)
    else d.live && CheckSequence(d.sequence.value, m.sequence) ==> UpdateApplicable(d, m)
  }

  /** state(msg) for a message. */
  function Step(d: BookData, m: Message): Outcome
    requires Valid(d) && Acceptable(d, m)
  {
    if IsSnapshot(m) then Outcome(SetInitialState(d, m), true)
    else if !d.live then Outcome(d, false)
    else if CheckSequence(d.sequence.value, m.sequence) then Outcome(ApplyUpdate(d, m), true)
    else Outcome(Flush(d).data, false)
  }

  // ---------------------------------------------------------------------
  // The book object

  class Book {
    var live: bool
    var orders: Option<seq<Resting>>
    var sequence: Option<string>
    var timestamp: Option<int>
    var trades: Option<seq<Trade>>
    var removed: Option<seq<string>>
    var events: seq<Event>

    function Data(): BookData
      reads this
    {
      BookData(live, orders, sequence, timestamp, trades, removed, events)
    }

    constructor ()
      ensures Data() == Initial
    {
      live := false;
      orders := None;
      sequence := None;
      timestamp := None;
      trades := None;
      removed := None;
      events := [];
    }

    /** isLive */
    function IsLive(): (r: bool)
      reads this
      requires Valid(Data())
      ensures r <==> orders.Some?
    {
      live
    }

    /** getDeletedOrders */
    function DeletedOrders(): (r: Option<seq<string>>)
      reads this
      requires Valid(Data())
      ensures r.Some? <==> trades.Some?
      ensures r == removed
    {
      removed
    }

    /** _appendOrder for every entry of a list, tagged with `kind`. */
    method AppendEntries(entries: seq<OrderOptions>, kind: OrderType)
      requires orders.Some? && AllWellFormed(entries)
      modifies this
      ensures orders == Some(old(orders).value + Entries(entries, kind))
      ensures Data() == old(Data()).(orders := orders)
    {
      var i := 0;
      ghost var start := orders.value;
      assert Entries(entries[..0], kind) == [];
      assert start + [] == start;
      while i < |entries|
        invariant 0 <= i <= |entries|
        invariant AllWellFormed(entries[..i])
        invariant orders == Some(start + Entries(entries[..i], kind))
        invariant Data() == old(Data()).(orders := orders)
      {
        EntriesSnoc(entries, i, kind);
        assert start + Entries(entries[..i], kind) + [Entry(entries[i], kind)] ==
               start + Entries(entries[..i + 1], kind);
        orders := Some(orders.value + [Entry(entries[i], kind)]);
        i := i + 1;
      }
      assert entries[..i] == entries;
    }

    method SetInitial(m: Message)
      requires IsSnapshot(m) && AllWellFormed(m.asks.value) && AllWellFormed(m.bids.value)
      modifies this
      ensures Data() == SetInitialState(old(Data()), m)
    {
      orders := Some([]);
      AppendEntries(m.asks.value, ASK);
      assert [] + Entries(m.asks.value, ASK) == Entries(m.asks.value, ASK);
      AppendEntries(m.bids.value, BID);
      timestamp := if m.timestamp == Some(0) then None else m.timestamp;
      sequence := Some(m.sequence);
      trades := Some([]);
      removed := Some([]);
      live := true;
      events := events + [Initialized];
    }

    /** findIndex over the resting orders. */
    method FindOrder(id: string) returns (index: int)
      requires orders.Some?
      ensures index == FindIndex(orders.value, id)
    {
      var os := orders.value;
      index := 0;
      while index < |os| && os[index].id != id
        invariant 0 <= index <= |os|
        invariant forall j :: 0 <= j < index ==> os[j].id != id
      {
        index := index + 1;
      }
      if index == |os| {
        index := -1;
      }
      FindIndexUnique(os, id, index);
    }

    function CurrentLedger(): Ledger
      reads this
      requires orders.Some? && trades.Some? && removed.Some?
    {
      Ledger(orders.value, trades.value, removed.value)
    }

    method ProcessTradeUpdate(t: TradeUpdate, ts: Option<int>)
      requires orders.Some? && trades.Some? && removed.Some?
      requires HasOrder(orders.value, t.orderId)
      modifies this
      ensures orders.Some? && trades.Some? && removed.Some?
      ensures CurrentLedger() == ApplyTrade(old(CurrentLedger()), t, ts)
      ensures live == old(live) && sequence == old(sequence) && timestamp == old(timestamp) && events == old(events)
    {
      var index := FindOrder(t.orderId);
      var order := orders.value[index];
      var volume := LunoOrder.Reduce(order.volume, t.base);
      if volume == 0 {
        orders := Some(RemoveAt(orders.value, index));
        removed := Some(removed.value + [t.orderId]);
      } else {
        orders := Some(orders.value[index := order.(volume := volume)]);
      }
      trades := Some(trades.value + [Trade(t.base, ts, TradePrice(t.counter, t.base), order.kind == ASK)]);
    }

    method ProcessTradeUpdates(tus: seq<TradeUpdate>, ts: Option<int>)
      requires orders.Some? && trades.Some? && removed.Some?
      requires TradesApplicable(CurrentLedger(), tus, ts)
      modifies this
      ensures orders.Some? && trades.Some? && removed.Some?
      ensures CurrentLedger() == ApplyTrades(old(CurrentLedger()), tus, ts)
      ensures live == old(live) && sequence == old(sequence) && timestamp == old(timestamp) && events == old(events)
    {
      var i := 0;
      while i < |tus|
        invariant 0 <= i <= |tus|
        invariant orders.Some? && trades.Some? && removed.Some?
        invariant TradesApplicable(CurrentLedger(), tus[i..], ts)
        invariant ApplyTrades(CurrentLedger(), tus[i..], ts) == ApplyTrades(old(CurrentLedger()), tus, ts)
        invariant live == old(live) && sequence == old(sequence) && timestamp == old(timestamp) && events == old(events)
      {
        assert tus[i..][0] == tus[i] && tus[i..][1..] == tus[i + 1..];
        ProcessTradeUpdate(tus[i], ts);
        i := i + 1;
      }
    }

    /** The delete update: the named order leaves the book and the id is logged. */
    method DeleteOrder(id: string)
      requires orders.Some? && trades.Some? && removed.Some?
      modifies this
      ensures orders.Some? && trades.Some? && removed.Some?
      ensures CurrentLedger() == Delete(old(CurrentLedger()), id)
      ensures live == old(live) && sequence == old(sequence) && timestamp == old(timestamp) && events == old(events)
    {
      ghost var before := CurrentLedger();
      var index := FindOrder(id);
      if index >= 0 {
        orders := Some(RemoveAt(orders.value, index));
      }
      removed := Some(removed.value + [id]);
      assert CurrentLedger() == Ledger(if index >= 0 then RemoveAt(before.orders, index) else before.orders,
                                       before.trades, before.removed + [id]);
    }

    /** The update branch of state(msg). */
    method Update(m: Message)
      requires Valid(Data()) && live && UpdateApplicable(Data(), m)
      modifies this
      ensures Data() == ApplyUpdate(old(Data()), m)
    {
      ghost var d := Data();
      var created := Created(m);
      if created.Some? {
        orders := Some(orders.value + [created.value]);
      }
      assert CurrentLedger() == AfterCreate(d.orders.value, d.trades.value, d.removed.value, created);
      ProcessTradeUpdates(Trades(m), m.timestamp);
      if m.deleteUpdate.Some? {
        DeleteOrder(m.deleteUpdate.value);
      }
      assert CurrentLedger() == UpdatedLedger(d, m);
      timestamp := m.timestamp;
      sequence := Some(m.sequence);
      events := events + [Updated];
      if created.Some? {
        events := events + [OrderCreated(created.value)];
      }
      assert events == d.events + UpdateEvents(created);
    }

    /** state(msg) */
    method State(m: Message) returns (accepted: bool)
      requires Valid(Data()) && Acceptable(Data(), m)
      modifies this
      ensures Outcome(Data(), accepted) == Step(old(Data()), m)
      ensures Valid(Data())
    {
      if IsSnapshot(m) {
        SetInitial(m);
        accepted := true;
      } else if live {
        if CheckSequence(sequence.value, m.sequence) {
          Update(m);
          accepted := true;
        } else {
          var _ := FlushBook();
          accepted := false;
        }
      } else {
        accepted := false;
      }
      StepValid(old(Data()), m);
    }

    /** flush */
    method FlushBook() returns (flushed: bool)
      modifies this
      ensures Outcome(Data(), flushed) == Flush(old(Data()))
    {
      if live {
        live := false;
        orders := None;
        sequence := None;
        timestamp := None;
        flushed := true;
      } else {
        flushed := false;
      }
    }
  }

  // ---------------------------------------------------------------------
  // Properties of the transition

  /** Every transition keeps the book's invariant. */
  lemma StepValid(d: BookData, m: Message)
    requires Valid(d) && Acceptable(d, m)
    ensures Valid(Step(d, m).data)
  {
  }

  /** A snapshot is always accepted and replaces the whole book: the result
      does not depend on the state it was applied to, apart from the event
      log, which gains 'initialized'. */
  lemma SnapshotReplaces(d1: BookData, d2: BookData, m: Message)
    requires Valid(d1) && Valid(d2) && IsSnapshot(m) && Acceptable(d1, m)
    ensures Acceptable(d2, m)
    ensures Step(d1, m).accepted && Step(d1, m).data.live
    ensures Step(d1, m).data.(events := []) == Step(d2, m).data.(events := [])
    ensures Step(d1, m).data.events == d1.events + [Initialized]
    ensures Step(d1, m).data.orders == Some(Entries(m.asks.value, ASK) + Entries(m.bids.value, BID))
    ensures Step(d1, m).data.trades == Some([]) && Step(d1, m).data.removed == Some([])
    ensures Step(d1, m).data.sequence == Some(m.sequence)
    ensures m.timestamp == Some(0) ==> Step(d1, m).data.timestamp.None?
    ensures m.timestamp != Some(0) ==> Step(d1, m).data.timestamp == m.timestamp
  {
  }

  /** Before the first snapshot (or after a flush) an incremental message is
      refused and changes nothing. */
  lemma NotLiveIgnores(d: BookData, m: Message)
    requires Valid(d) && !d.live && !IsSnapshot(m)
    ensures Acceptable(d, m)
    ensures Step(d, m) == Outcome(d, false)
  {
  }

  /** A message out of sequence is refused and flushes a live book: orders,
      cursor and timestamp are forgotten, the logs are kept. */
  lemma OutOfSequenceFlushes(d: BookData, m: Message)
    requires Valid(d) && d.live && !IsSnapshot(m) && !CheckSequence(d.sequence.value, m.sequence)
    ensures Acceptable(d, m)
    ensures !Step(d, m).accepted
    ensures Step(d, m).data == d.(live := false, orders := None, sequence := None, timestamp := None)
  {
  }

  /** An accepted update moves the cursor from n to n + 1. */
  lemma AcceptedAdvancesCursor(d: BookData, m: Message, n: int)
    requires Valid(d) && Acceptable(d, m) && !IsSnapshot(m)
    requires d.sequence == Some(IntToString(n))
    ensures Step(d, m).accepted <==> d.live && m.sequence == IntToString(n + 1)
    ensures Step(d, m).accepted ==> Step(d, m).data.sequence == Some(IntToString(n + 1))
  {
    CheckSequenceSuccessor(n, m.sequence);
  }

  /** Replaying an accepted update is refused, and flushes the book. */
  lemma ReplayFlushes(d: BookData, m: Message, n: int)
    requires Valid(d) && Acceptable(d, m) && !IsSnapshot(m)
    requires d.sequence == Some(IntToString(n)) && Step(d, m).accepted
    ensures Valid(Step(d, m).data) && Acceptable(Step(d, m).data, m)
    ensures Step(Step(d, m).data, m) == Outcome(Flush(Step(d, m).data).data, false)
    ensures !Step(Step(d, m).data, m).accepted && !Step(Step(d, m).data, m).data.live
  {
    AcceptedAdvancesCursor(d, m, n);
    StepValid(d, m);
    CheckSequenceRefusesOthers(n + 1, n + 1);
  }

  /** Flushing twice is flushing once: the second flush finds nothing live. */
  lemma FlushIdempotent(d: BookData)
    requires Valid(d)
    ensures Valid(Flush(d).data) && !Flush(d).data.live
    ensures Flush(d).accepted <==> d.live
    ensures Flush(Flush(d).data) == Outcome(Flush(d).data, false)
    ensures Flush(d).data.trades == d.trades && Flush(d).data.removed == d.removed
  {
  }

  // ---------------------------------------------------------------------
  // Volume bookkeeping

  /** The volume resting in the book, in satoshis. */
  function TotalVolume(orders: seq<Resting>): int
  {
    if orders == [] then 0 else orders[0].volume + TotalVolume(orders[1..])
  }

  /** The volume the trades of a list take. */
  function TradedVolume(tus: seq<TradeUpdate>): int
  {
    if tus == [] then 0 else tus[0].base + TradedVolume(tus[1..])
  }

  lemma {:induction false} TotalVolumeUpdate(orders: seq<Resting>, i: int, volume: int)
    requires 0 <= i < |orders|
    ensures TotalVolume(orders[i := orders[i].(volume := volume)]) == TotalVolume(orders) - orders[i].volume + volume
    decreases |orders|
  {
    if i > 0 {
      TotalVolumeUpdate(orders[1..], i - 1, volume);
      assert orders[i := orders[i].(volume := volume)][1..] == orders[1..][i - 1 := orders[i].(volume := volume)];
    }
  }

  lemma {:induction false} TotalVolumeRemove(orders: seq<Resting>, i: int)
    requires 0 <= i < |orders|
    ensures TotalVolume(RemoveAt(orders, i)) == TotalVolume(orders) - orders[i].volume
    decreases |orders|
  {
    if i == 0 {
      assert RemoveAt(orders, 0) == orders[1..];
    } else {
      TotalVolumeRemove(orders[1..], i - 1);
      assert RemoveAt(orders, i)[1..] == RemoveAt(orders[1..], i - 1);
    }
  }

  /** A trade takes exactly its base volume out of the book, and is logged. */
  lemma TradeTakesBase(l: Ledger, t: TradeUpdate, timestamp: Option<int>)
    requires HasOrder(l.orders, t.orderId)
    ensures TotalVolume(ApplyTrade(l, t, timestamp).orders) == TotalVolume(l.orders) - t.base
    ensures ApplyTrade(l, t, timestamp).trades ==
            l.trades + [Trade(t.base, timestamp, TradePrice(t.counter, t.base), l.orders[FindIndex(l.orders, t.orderId)].kind == ASK)]
  {
    var i := FindIndex(l.orders, t.orderId);
    if l.orders[i].volume - t.base == 0 {
      TotalVolumeRemove(l.orders, i);
    } else {
      TotalVolumeUpdate(l.orders, i, l.orders[i].volume - t.base);
    }
  }

  /** The matched order leaves the book, and its id enters the removed log,
      exactly when the trade takes all of its volume; otherwise it stays in
      place with the reduced volume. */
  lemma TradeRemovesIffFilled(l: Ledger, t: TradeUpdate, timestamp: Option<int>)
    requires HasOrder(l.orders, t.orderId)
    ensures var i := FindIndex(l.orders, t.orderId);
            var r := ApplyTrade(l, t, timestamp);
            (l.orders[i].volume == t.base <==> r.removed == l.removed + [t.orderId]) &&
            (l.orders[i].volume == t.base <==> |r.orders| == |l.orders| - 1) &&
            (l.orders[i].volume == t.base ==> r.orders == l.orders[..i] + l.orders[i + 1..]) &&
            (l.orders[i].volume != t.base ==>
               r.removed == l.removed &&
               r.orders == l.orders[i := l.orders[i].(volume := l.orders[i].volume - t.base)])
  {
  }

  /** All the trades of a message take their volumes out of the book, one
      trade record each. */
  lemma {:induction false} TradesTakeBases(l: Ledger, tus: seq<TradeUpdate>, timestamp: Option<int>)
    requires TradesApplicable(l, tus, timestamp)
    ensures TotalVolume(ApplyTrades(l, tus, timestamp).orders) == TotalVolume(l.orders) - TradedVolume(tus)
    ensures |ApplyTrades(l, tus, timestamp).trades| == |l.trades| + |tus|
    ensures ApplyTrades(l, tus, timestamp).trades[..|l.trades|] == l.trades
    ensures l.removed <= ApplyTrades(l, tus, timestamp).removed
    decreases |tus|
  {
    if tus != [] {
      var next := ApplyTrade(l, tus[0], timestamp);
      TradeTakesBase(l, tus[0], timestamp);
      TradesTakeBases(next, tus[1..], timestamp);
      var r := ApplyTrades(next, tus[1..], timestamp);
      assert r.trades[..|l.trades|] == r.trades[..|next.trades|][..|l.trades|];
    }
  }

  // ---------------------------------------------------------------------
  // Deletes

  /** When the id is in the book the delete as written and the corrected
      delete agree. */
  lemma DeleteAgreesWhenPresent(l: Ledger, id: string)
    requires HasOrder(l.orders, id)
    ensures DeleteAsWritten(l, id) == Delete(l, id)
  {
  }

  /** The corrected delete takes out the first order with the id, or nothing
      when no order has it; the id is logged either way. */
  lemma DeleteEffect(l: Ledger, id: string)
    ensures Delete(l, id).removed == l.removed + [id]
    ensures Delete(l, id).trades == l.trades
    ensures HasOrder(l.orders, id) ==>
              TotalVolume(Delete(l, id).orders) == TotalVolume(l.orders) - l.orders[FindIndex(l.orders, id)].volume &&
              |Delete(l, id).orders| == |l.orders| - 1 &&
              Delete(l, id).orders == l.orders[..FindIndex(l.orders, id)] + l.orders[FindIndex(l.orders, id) + 1..]
    ensures !HasOrder(l.orders, id) ==> Delete(l, id).orders == l.orders
  {
    if HasOrder(l.orders, id) {
      TotalVolumeRemove(l.orders, FindIndex(l.orders, id));
    }
  }

  /** As written, deleting an id the book does not hold drops the last
      order: the book holds ask "a" and bid "b", a delete names "c", and "b"
      is gone. */
  lemma DeleteAsWrittenDropsLast()
    ensures var a := Resting("a", ASK, 100000, 100000000);
            var b := Resting("b", BID, 90000, 50000000);
            var l := Ledger([a, b], [], []);
            DeleteAsWritten(l, "c").orders == [a] && Delete(l, "c").orders == [a, b]
  {
    var a := Resting("a", ASK, 100000, 100000000);
    var b := Resting("b", BID, 90000, 50000000);
    assert [a, b][1..] == [b] && [b][1..] == [];
    assert FindIndex([a, b], "c") == -1;
  }

  // ---------------------------------------------------------------------
  // Accepted updates

  /** An accepted update applies the create, then the trades, then the
      delete; takes the message's cursor and timestamp; keeps both logs as
      prefixes; and emits 'update', then orderCreated with the created order. */
  lemma UpdateEffect(d: BookData, m: Message)
    requires Valid(d) && d.live && !IsSnapshot(m) && CheckSequence(d.sequence.value, m.sequence)
    requires UpdateApplicable(d, m)
    ensures Acceptable(d, m) && Step(d, m).accepted
    ensures var r := Step(d, m).data;
            && r.live && r.sequence == Some(m.sequence) && r.timestamp == m.timestamp
            && r.events == d.events + [Updated] + (if m.createUpdate.Some? then [OrderCreated(Created(m).value)] else [])
            && d.trades.value <= r.trades.value
            && |r.trades.value| == |d.trades.value| + |Trades(m)|
            && d.removed.value <= r.removed.value
  {
    var l0 := AfterCreate(d.orders.value, d.trades.value, d.removed.value, Created(m));
    TradesTakeBases(l0, Trades(m), m.timestamp);
    var l1 := ApplyTrades(l0, Trades(m), m.timestamp);
    assert l1.trades[..|l0.trades|] == l0.trades;
    if m.deleteUpdate.Some? {
      DeleteEffect(l1, m.deleteUpdate.value);
    }
  }

  /** Volume bookkeeping of an accepted update: the created order's volume
      comes in, every trade takes out its base, a delete takes out the
      deleted order's volume. */
  lemma UpdateVolume(d: BookData, m: Message)
    requires Valid(d) && d.live && UpdateApplicable(d, m) && m.deleteUpdate.None?
    ensures TotalVolume(UpdatedLedger(d, m).orders) ==
            TotalVolume(d.orders.value) + (if m.createUpdate.Some? then Created(m).value.volume else 0) - TradedVolume(Trades(m))
  {
    var l0 := AfterCreate(d.orders.value, d.trades.value, d.removed.value, Created(m));
    TradesTakeBases(l0, Trades(m), m.timestamp);
    if m.createUpdate.Some? {
      TotalVolumeAppend(d.orders.value, Created(m).value);
    }
  }

  lemma {:induction false} TotalVolumeAppend(orders: seq<Resting>, o: Resting)
    ensures TotalVolume(orders + [o]) == TotalVolume(orders) + o.volume
    decreases |orders|
  {
    if orders != [] {
      TotalVolumeAppend(orders[1..], o);
      assert (orders + [o])[1..] == orders[1..] + [o];
    }
  }
}
