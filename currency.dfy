/** The currency value of lib/luno-currency.js: an amount held in the minor
    units of its currency (cents for ZAR, satoshis for XBT).  The value is
    immutable: `add` builds a new one.  An amount that is not a number (an
    unknown currency, or text that does not read as a number) is the
    JavaScript NaN, modelled as a missing minor amount. */
module LunoCurrency {
  import opened Wrappers
  import opened Decimal

  datatype CurrencyId = ZAR | XBT | Other(name: string)

  /** _getNumberOfDecimals: 2 for ZAR, 8 for XBT, undefined otherwise. */
  function NumberOfDecimals(c: CurrencyId): (n: Option<nat>)
    ensures c == ZAR ==> n == Some(2)
    ensures c == XBT ==> n == Some(8)
    ensures c.Other? ==> n == None
  {
    match c
    case ZAR => Some(2)
    case XBT => Some(8)
    case Other(_) => None
  }

  /** _convertToSmallestUnits: floor(amount * 10^decimals), NaN when the
      amount or the number of decimals is missing. */
  function ToSmallestUnits(amount: Option<Decimal>, c: CurrencyId): (r: Option<int>)
    ensures r.Some? <==> amount.Some? && NumberOfDecimals(c).Some?
    ensures r.Some? ==>
      var scaled := Signed(amount.value) * Pow10(NumberOfDecimals(c).value);
      var unit := Pow10(amount.value.scale);
      r.value * unit <= scaled < r.value * unit + unit
  {
    match (amount, NumberOfDecimals(c))
    case (Some(d), Some(n)) => Some(Signed(d) * Pow10(n) / Pow10(d.scale))
    case _ => None
  }

  /** A currency value. */
  datatype Money = Money(currency: CurrencyId, minor: Option<int>)

  /** The constructor: the amount is truncated to the currency's minor units. */
  function Create(amount: Option<Decimal>, c: CurrencyId): (m: Money)
    ensures m.currency == c
    ensures m.minor == ToSmallestUnits(amount, c)
    ensures Valid(m)
  {
    Money(c, ToSmallestUnits(amount, c))
  }

  /** The constructor with its defaults: amount 0, currency ZAR. */
  function CreateDefault(): (m: Money)
    ensures m == Money(ZAR, Some(0))
  {
    Create(Some(Decimal(false, 0, 0)), ZAR)
  }

  /** getCurrencyId */
  function CurrencyIdOf(m: Money): (c: CurrencyId)
  {
    m.currency
  }

  /** getCurrencyId gives back the currency a value was built with, and add
      (with an amount or with another value) never changes it. */
  lemma CurrencyIdKept(amount: Option<Decimal>, c: CurrencyId, m: Money, other: Money)
    ensures CurrencyIdOf(Create(amount, c)) == c
    ensures CurrencyIdOf(Add(m, amount)) == CurrencyIdOf(m)
    ensures CurrencyIdOf(AddMoney(m, other)) == CurrencyIdOf(m)
  {
  }

  /** Only a known currency holds a number: what the constructor builds. */
  predicate Valid(m: Money)
  {
    m.minor.Some? ==> NumberOfDecimals(m.currency).Some?
  }

  /** toFixed(n) of u / 10^n, which has at most n decimals in the first place. */
  function FixedText(u: int, n: nat): string
  {
    var magnitude: nat := if u < 0 then -u else u;
    Layout(u < 0, WholePart(magnitude, n), PadDigits(FractionPart(magnitude, n), n))
  }

  /** toString: minor / 10^decimals with exactly `decimals` fractional digits
      (toFixed), "NaN" for a missing amount. */
  function ToString(m: Money): string
  {
    match (m.minor, NumberOfDecimals(m.currency))
    case (Some(u), Some(n)) => FixedText(u, n)
    case _ => "NaN"
  }

  /** add: the other amount is truncated to minor units on its own, added to
      this amount, rendered, and read back into a new value of the same
      currency. */
  function Add(m: Money, amount: Option<Decimal>): Money
  {
    var sum := match (ToSmallestUnits(amount, m.currency), m.minor)
               case (Some(a), Some(b)) => Some(a + b)
               case _ => None;
    Create(ParseDecimal(ToString(Money(m.currency, sum))), m.currency)
  }

  /** add with another currency value as the argument: JavaScript reads it
      through its toString. */
  function AddMoney(m: Money, other: Money): Money
  {
    Add(m, ParseDecimal(ToString(other)))
  }

  // ---------------------------------------------------------------------
  // Properties

  /** The fixed text has exactly n fractional digits (none when n is 0) and
      reads back to u at scale n. */
  lemma FixedTextShape(u: int, n: nat)
    ensures var magnitude: nat := if u < 0 then -u else u;
            var frac := PadDigits(FractionPart(magnitude, n), n);
            |frac| == n && AllDigits(frac) &&
            FixedText(u, n) == Layout(u < 0, WholePart(magnitude, n), frac)
    ensures ParseDecimal(FixedText(u, n)) == Some(Decimal(u < 0, if u < 0 then -u else u, n))
  {
    var magnitude: nat := if u < 0 then -u else u;
    var frac := PadDigits(FractionPart(magnitude, n), n);
    var ip := WholePart(magnitude, n);
    assert ParseDecimal(Layout(u < 0, ip, frac)) == Some(Decimal(u < 0, Mantissa(ip, frac), n)) by {
      ParseLayout(u < 0, ip, frac);
    }
    assert Mantissa(ip, frac) == magnitude by {
      PadDigitsValue(FractionPart(magnitude, n), n);
      WholeAndFraction(magnitude, n);
    }
  }

  /** Rebuilding a value from its text keeps the amount: the step `add`
      relies on. */
  lemma RebuildKeepsAmount(m: Money)
    requires Valid(m)
    ensures Create(ParseDecimal(ToString(m)), m.currency) == m
  {
    if m.minor.Some? {
      var n := NumberOfDecimals(m.currency).value;
      var u := m.minor.value;
      FixedTextShape(u, n);
      var d := Decimal(u < 0, if u < 0 then -u else u, n);
      assert Signed(d) == u;
      DivModUnique(u * Pow10(n), Pow10(n), u, 0);
    } else {
      assert ParseDecimal("NaN") == None;
    }
  }

  /** add sums the two minor amounts, the argument truncated on its own; the
      currency is kept. */
  lemma AddSumsMinorUnits(m: Money, amount: Option<Decimal>)
    ensures Add(m, amount).currency == m.currency
    ensures Add(m, amount).minor ==
      match (ToSmallestUnits(amount, m.currency), m.minor)
      case (Some(a), Some(b)) => Some(a + b)
      case _ => None
  {
    var sum := match (ToSmallestUnits(amount, m.currency), m.minor)
               case (Some(a), Some(b)) => Some(a + b)
               case _ => None;
    var total := Money(m.currency, sum);
    assert Add(m, amount) == Create(ParseDecimal(ToString(total)), m.currency);
    assert Valid(total);
    RebuildKeepsAmount(total);
  }

  /** Adding another value of the same currency adds its minor amount exactly. */
  lemma AddMoneySums(m: Money, other: Money)
    requires other.currency == m.currency
    requires m.minor.Some? && other.minor.Some? && NumberOfDecimals(m.currency).Some?
    ensures AddMoney(m, other) == Money(m.currency, Some(m.minor.value + other.minor.value))
  {
    RebuildKeepsAmount(other);
    AddSumsMinorUnits(m, ParseDecimal(ToString(other)));
  }

  /** The receiver of add is a value: nothing about it changes, and adding
      zero gives an equal value. */
  lemma AddZero(m: Money)
    requires m.minor.Some? && NumberOfDecimals(m.currency).Some?
    ensures Add(m, Some(Decimal(false, 0, 0))) == m
  {
    var zero := Decimal(false, 0, 0);
    assert Signed(zero) == 0 && Pow10(zero.scale) == 1;
    assert ToSmallestUnits(Some(zero), m.currency) == Some(0);
    AddSumsMinorUnits(m, Some(zero));
  }

  // ---------------------------------------------------------------------
  // The documented examples

  /** '0.099' ZAR is 9 cents: the third decimal is cut off, not rounded. */
  lemma TruncatesRand()
    ensures Create(Some(Decimal(false, 99, 3)), ZAR).minor == Some(9)
  {
    assert Pow10(2) == 100 && Pow10(3) == 1000;
    DivModUnique(9900, 1000, 9, 900);
  }

  /** '0.000000019' XBT is one satoshi. */
  lemma TruncatesBitcoin()
    ensures Create(Some(Decimal(false, 19, 9)), XBT).minor == Some(1)
  {
    assert Pow10(8) == 100000000 && Pow10(9) == 1000000000;
    DivModUnique(1900000000, 1000000000, 1, 900000000);
  }

  /** 0.005 + 0.005 ZAR: each half cent is cut off before the sum. */
  lemma HalfCentsVanish()
    ensures Add(Create(Some(Decimal(false, 5, 3)), ZAR), Some(Decimal(false, 5, 3))).minor == Some(0)
  {
    var halfCent := Decimal(false, 5, 3);
    assert ToSmallestUnits(Some(halfCent), ZAR) == Some(0) by {
      assert Pow10(2) == 100 && Pow10(3) == 1000;
      DivModUnique(500, 1000, 0, 500);
    }
    AddSumsMinorUnits(Create(Some(halfCent), ZAR), Some(halfCent));
  }

  /** 0.015 + 100.005 ZAR: 1 cent + 10000 cents. */
  lemma TruncatedSum()
    ensures Add(Create(Some(Decimal(false, 15, 3)), ZAR), Some(Decimal(false, 100005, 3))).minor == Some(10001)
  {
    assert ToSmallestUnits(Some(Decimal(false, 15, 3)), ZAR) == Some(1) by {
      assert Pow10(2) == 100 && Pow10(3) == 1000;
      DivModUnique(1500, 1000, 1, 500);
    }
    assert ToSmallestUnits(Some(Decimal(false, 100005, 3)), ZAR) == Some(10000) by {
      assert Pow10(2) == 100 && Pow10(3) == 1000;
      DivModUnique(10000500, 1000, 10000, 500);
    }
    AddSumsMinorUnits(Create(Some(Decimal(false, 15, 3)), ZAR), Some(Decimal(false, 100005, 3)));
  }

  /** 100 ZAR renders as '100.00'. */
  lemma RendersTwoDecimals()
    ensures ToString(Money(ZAR, Some(10000))) == "100.00"
  {
    assert WholePart(10000, 2) == 100 && FractionPart(10000, 2) == 0 by {
      assert Pow10(2) == 100;
    }
    assert PadDigits(0, 2) == "00" by {
      assert DigitsValue("00") == 0 by {
        assert "00"[..1] == "0" && "0"[..0] == "";
      }
      PadDigitsOfValue("00");
    }
    assert NatToString(100) == "100";
  }
}
