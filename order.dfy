/** The order record of lib/luno-order.js: a mutable object with one setter
    and one getter per field, exact identifier matching and volume reduction
    in satoshi units, and the LunoOrder factory that fills it from options
    by successive setter calls.  Volumes are held in satoshis and prices in
    cents; a field never set is undefined (None). */
module LunoOrder {
  import opened Wrappers
  import opened Decimal
  import opened Feed
  import opened LunoUtil

  /** The four fields of an order, as a value. */
  datatype OrderFields = OrderFields(
    id: Option<string>,
    volume: Option<int>,
    price: Option<int>,
    kind: Option<OrderType>)

  /** reduceVolume on the satoshi amounts: the difference is rendered as a
      decimal string and read back, so it is exact only if the rendering keeps
      every satoshi. */
  function ReducedVolume(volume: int, change: int): (r: int)
    ensures r == volume - change
  {
    var difference := volume - change;
    var parsed := StringToSatoshis(SatoshisToDecimalString(difference));
    SatoshisToDecimalStringRoundTrip(difference);
    assert parsed == Some(difference);
    parsed.value
  }

  /** The reduction performed on a stored volume; callers see only its result. */
  method Reduce(volume: int, change: int) returns (r: int)
    ensures r == volume - change
  {
    r := ReducedVolume(volume, change);
  }

  /** reduceVolume as written, through the four-place rendering: the result is
      the difference rounded to a multiple of 10^4 satoshis. */
  function ReducedVolumeAsWritten(volume: int, change: int): (r: int)
    ensures r % 10000 == 0
    ensures -10000 <= 2 * (r - (volume - change)) <= 10000
  {
    var difference := volume - change;
    var parsed := StringToSatoshis(SatoshisToDecimalStringAsWritten(difference));
    AsWrittenRoundsToFourPlaces(difference);
    parsed.value
  }

  /** As written, the reduction is exact when both amounts have at most four
      fractional digits. */
  lemma AsWrittenExactOnFourPlaces(volume: int, change: int)
    requires volume % 10000 == 0 && change % 10000 == 0
    ensures ReducedVolumeAsWritten(volume, change) == volume - change
  {
    var difference := volume - change;
    assert Pow10(4) == 10000;
    DifferenceOfMultiples(volume, change);
    SatoshisRoundTrip(difference, 4);
    assert StringToSatoshis(SatoshisToDecimalStringAsWritten(difference)) == Some(difference);
  }

  lemma DifferenceOfMultiples(a: int, b: int)
    requires a % 10000 == 0 && b % 10000 == 0
    ensures (a - b) % 10000 == 0
  {
    DivModUnique(a - b, 10000, a / 10000 - b / 10000, 0);
  }

  /** '1.0245' reduced by '0.000603' is 1.023897; as written the order keeps
      1.0239. */
  lemma AsWrittenLosesSatoshis()
    ensures ReducedVolumeAsWritten(102450000, 60300) == 102390000
    ensures ReducedVolume(102450000, 60300) == 102389700
  {
    FourPlacesExample();
    ReadFourPlaces();
    assert 102450000 - 60300 == 102389700;
  }

  /** As written, a partly filled order can be left with nothing: 0.0001
      reduced by 0.00006 keeps 0.00004, which renders as '0.0000' and reads
      back as 0, so the book then removes the order as filled. */
  lemma AsWrittenEmptiesOrder()
    ensures ReducedVolumeAsWritten(10000, 6000) == 0
    ensures ReducedVolume(10000, 6000) == 4000
  {
    AsWrittenBelowHalfUnit(10000, 6000);
  }

  /** As written, any remainder under half of 0.0001 coin reads back as 0. */
  lemma AsWrittenBelowHalfUnit(volume: int, change: int)
    requires 0 <= volume - change < 5000
    ensures ReducedVolumeAsWritten(volume, change) == 0
  {
    NearMultipleIsZero(ReducedVolumeAsWritten(volume, change), volume - change);
  }

  lemma NearMultipleIsZero(r: int, x: int)
    requires r % 10000 == 0 && -10000 <= 2 * (r - x) <= 10000
    requires 0 <= x < 5000
    ensures r == 0
  {
    DivModUnique(r, 10000, r / 10000, 0);
  }

  /** '1.0239' is 102390000 satoshis. */
  lemma ReadFourPlaces()
    ensures StringToSatoshis("1.0239") == Some(102390000)
  {
    assert "1.0239" == Layout(false, 1, "0239");
    Digits0239();
    assert Pow10(4) == 10000;
    assert Mantissa(1, "0239") == 10239;
    ParseLayout(false, 1, "0239");
    ToSatoshisExact(Decimal(false, 10239, 4));
  }

  class Order {
    var id: Option<string>
    var volume: Option<int>
    var price: Option<int>
    var kind: Option<OrderType>

    /** A new order: every field undefined. */
    constructor ()
      ensures Fields() == OrderFields(None, None, None, None)
    {
      id := None;
      volume := None;
      price := None;
      kind := None;
    }

    function Fields(): OrderFields
      reads this
    {
      OrderFields(id, volume, price, kind)
    }

    function GetVolume(): Option<int>
      reads this
    {
      volume
    }

    function GetId(): Option<string>
      reads this
    {
      id
    }

    function GetPrice(): Option<int>
      reads this
    {
      price
    }

    function GetType(): Option<OrderType>
      reads this
    {
      kind
    }

    method SetVolume(v: int)
      modifies this
      ensures GetVolume() == Some(v)
      ensures Fields() == old(Fields()).(volume := Some(v))
    {
      volume := Some(v);
    }

    method SetId(newId: string) returns (ok: bool)
      modifies this
      ensures ok
      ensures GetId() == Some(newId)
      ensures Fields() == old(Fields()).(id := Some(newId))
    {
      id := Some(newId);
      ok := true;
    }

    method SetPrice(p: int)
      modifies this
      ensures GetPrice() == Some(p)
      ensures Fields() == old(Fields()).(price := Some(p))
    {
      price := Some(p);
    }

    method SetType(t: OrderType)
      modifies this
      ensures GetType() == Some(t)
      ensures Fields() == old(Fields()).(kind := Some(t))
    {
      kind := Some(t);
    }

    /** Exact, case-sensitive identifier comparison; an order without an
        identifier matches nothing. */
    predicate IsId(other: string)
      reads this
      ensures IsId(other) <==> id.Some? && id.value == other
    {
      id == Some(other)
    }

    /** reduceVolume: the volume drops by `change` satoshis; an undefined
        volume stays undefined (NaN in JavaScript). */
    method ReduceVolume(change: int)
      modifies this
      ensures old(volume).Some? ==> volume == Some(old(volume).value - change)
      ensures old(volume).None? ==> volume.None?
      ensures id == old(id) && price == old(price) && kind == old(kind)
    {
      if volume.Some? {
        var reduced := Reduce(volume.value, change);
        volume := Some(reduced);
      }
    }

    /** processTradeUpdate: only a trade naming this order reduces its volume.
        It returns the order itself, as the book and the tests use it. */
    method ProcessTradeUpdate(t: TradeUpdate) returns (self: Order)
      modifies this
      ensures self == this
      ensures old(IsId(t.orderId)) && old(volume).Some? ==> volume == Some(old(volume).value - t.base)
      ensures !old(IsId(t.orderId)) || old(volume).None? ==> volume == old(volume)
      ensures id == old(id) && price == old(price) && kind == old(kind)
    {
      if IsId(t.orderId) {
        ReduceVolume(t.base);
      }
      self := this;
    }

    /** processTradeUpdate as written: the volume changes as above, but the
        method returns nothing (undefined), so the book's next call on the
        result has no order to read the volume from. */
    method ProcessTradeUpdateAsWritten(t: TradeUpdate) returns (r: Option<Order>)
      modifies this
      ensures r.None?
      ensures old(IsId(t.orderId)) && old(volume).Some? ==> volume == Some(old(volume).value - t.base)
      ensures !old(IsId(t.orderId)) || old(volume).None? ==> volume == old(volume)
      ensures id == old(id) && price == old(price) && kind == old(kind)
    {
      if IsId(t.orderId) {
        ReduceVolume(t.base);
      }
      r := None;
    }
  }

  /** The identifier the factory picks: `id` when truthy, else `order_id`
      when truthy, else none. */
  function OptionsId(options: OrderOptions): (r: Option<string>)
    ensures r.Some? ==> r.value != ""
    ensures options.id.Some? && options.id.value != "" ==> r == options.id
    ensures (options.id.None? || options.id.value == "") ==>
              r == (if options.orderId.Some? && options.orderId.value != "" then options.orderId else None)
  {
    if options.id.Some? && options.id.value != "" then options.id
    else if options.orderId.Some? && options.orderId.value != "" then options.orderId
    else None
  }

  /** What the factory builds from its options (None for no options). */
  function FromOptions(options: Option<OrderOptions>): OrderFields
  {
    match options
    case None => OrderFields(None, None, None, None)
    case Some(o) => OrderFields(OptionsId(o), o.volume, o.price, o.kind)
  }

  /** The factory: each field is set only when its option is supplied. */
  method MakeOrder(options: Option<OrderOptions>) returns (order: Order)
    ensures fresh(order)
    ensures order.Fields() == FromOptions(options)
  {
    order := new Order();
    if options.Some? {
      var o := options.value;
      if o.id.Some? && o.id.value != "" {
        var _ := order.SetId(o.id.value);
      } else if o.orderId.Some? && o.orderId.value != "" {
        var _ := order.SetId(o.orderId.value);
      }
      if o.volume.Some? {
        order.SetVolume(o.volume.value);
      }
      if o.price.Some? {
        order.SetPrice(o.price.value);
      }
      if o.kind.Some? {
        order.SetType(o.kind.value);
      }
    }
  }
}
