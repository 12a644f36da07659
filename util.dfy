/** The fixed-point helpers of lib/luno-util.js: decimal amounts to integer
    satoshis and back, the best prices of a book projection, and the ticker
    built from them. */
module LunoUtil {
  import opened Wrappers
  import opened Decimal
  import opened Feed

  /** Satoshis in one whole coin: the factor 1e8 of the conversions. */
  const SatoshisPerCoin: nat := 100_000_000

  lemma SatoshisPerCoinIsPow10()
    ensures SatoshisPerCoin == Pow10(8)
  {
  }

  /** Math.round(n / d): the nearest integer, a tie going up. */
  function RoundHalfUp(n: int, d: nat): (r: int)
    requires d > 0
    ensures -(d as int) <= 2 * (n - r * d) < d
    ensures n >= 0 ==> r >= 0
  {
    var r := (2 * n + d) / (2 * d);
    assert r * (2 * d) <= 2 * n + d < r * (2 * d) + 2 * d;
    r
  }

  lemma RoundHalfUpExact(k: int, d: nat)
    requires d > 0
    ensures RoundHalfUp(k * d, d) == k
  {
    DivModUnique(2 * (k * d) + d, 2 * d, k, d);
  }

  /** convertStringToSatoshis on an amount already read as a number:
      Math.round(1e8 * amount). */
  function ToSatoshis(amount: Decimal): int
  {
    RoundHalfUp(Signed(amount) * SatoshisPerCoin, Pow10(amount.scale))
  }

  /** convertStringToSatoshis on text: NaN (None) when the text is not a number. */
  function StringToSatoshis(text: string): Option<int>
  {
    match ParseDecimal(text)
    case Some(d) => Some(ToSatoshis(d))
    case None => None
  }

  /** convertSatoshisToDecimalString, generalised over the number of decimal
      places: satoshis / 1e8 rounded to `places` decimals the way toFixed
      rounds (ties away from zero), trailing zeros and a negative zero dropped
      the way parseFloat(...).toString() drops them. */
  function RenderSatoshis(satoshis: int, places: nat): string
    requires places <= 8
  {
    RenderUnits(satoshis < 0, RoundHalfUp(Magnitude(satoshis), Pow10(8 - places)), places)
  }

  function Magnitude(x: int): nat
  {
    if x < 0 then -x else x
  }

  /** The text of a number of units of the last place: the whole part, and
      the fraction without trailing zeros; no sign on zero. */
  function RenderUnits(negative: bool, units: nat, places: nat): string
  {
    Layout(negative && units > 0, WholePart(units, places), StripTrailingZeros(PadDigits(FractionPart(units, places), places)))
  }

  /** convertSatoshisToDecimalString as written: four decimal places. */
  function SatoshisToDecimalStringAsWritten(satoshis: int): string
  {
    RenderSatoshis(satoshis, 4)
  }

  /** convertSatoshisToDecimalString as its tests use it: every satoshi kept. */
  function SatoshisToDecimalString(satoshis: int): string
  {
    RenderSatoshis(satoshis, 8)
  }

  /** The same on extended integers: the infinities render as JavaScript does. */
  function ExtToDecimalString(e: ExtInt): string
  {
    match e
    case PosInf => "Infinity"
    case NegInf => "-Infinity"
    case Finite(n) => SatoshisToDecimalString(n)
  }

  // ---------------------------------------------------------------------
  // Round trips

  lemma FractionPositive(frac: string)
    requires AllDigits(frac) && frac != [] && frac[|frac| - 1] != '0'
    ensures DigitsValue(frac) >= 1
  {
    var init := frac[..|frac| - 1];
    assert AllDigits(init);
    assert DigitsValue(frac) == DigitsValue(init) * 10 + DigitValue(frac[|frac| - 1]);
  }

  /** A magnitude with a sign in front. */
  function WithSign(negative: bool, magnitude: nat): int
  {
    if negative then -(magnitude as int) else magnitude
  }

  lemma MulAssoc(a: int, b: int, c: int)
    ensures a * (b * c) == (a * b) * c
  {
  }

  lemma MulDistrib(a: int, b: int, c: int, d: int)
    ensures (a * b + c) * d == a * (b * d) + c * d
  {
  }

  lemma MulStrict(a: int, b: int, c: int)
    requires 0 <= a < b && c > 0
    ensures a * c < b * c
  {
    MulAtLeast(b - a, c);
    assert b * c - a * c == (b - a) * c;
  }

  /** Shifting a mantissa shifts its whole part and its fraction. */
  lemma ShiftedMantissa(ip: nat, frac: string, j: nat)
    requires AllDigits(frac)
    ensures Shifted(Mantissa(ip, frac), j) == Shifted(ip, |frac| + j) + Shifted(DigitsValue(frac), j)
  {
    Pow10Add(|frac|, j);
    MulDistrib(ip, Pow10(|frac|), DigitsValue(frac), Pow10(j));
  }

  /** With at most eight fractional digits the conversion is exact. */
  lemma ToSatoshisExact(amount: Decimal)
    requires amount.scale <= 8
    ensures ToSatoshis(amount) == WithSign(amount.negative, Shifted(amount.mantissa, 8 - amount.scale))
  {
    var s := Signed(amount);
    var k := s * Pow10(8 - amount.scale);
    assert s * SatoshisPerCoin == k * Pow10(amount.scale) by {
      Pow10Add(8 - amount.scale, amount.scale);
      MulAssoc(s, Pow10(8 - amount.scale), Pow10(amount.scale));
    }
    RoundHalfUpExact(k, Pow10(amount.scale));
  }

  /** Rendering a signed whole multiple of the last place is exact: the
      rounding step returns the multiple itself. */
  lemma RenderMultiple(negative: bool, q: nat, places: nat)
    requires places <= 8
    ensures RenderSatoshis(WithSign(negative, Shifted(q, 8 - places)), places) == RenderUnits(negative, q, places)
  {
    var unit := Pow10(8 - places);
    var x := WithSign(negative, Shifted(q, 8 - places));
    assert Magnitude(x) == q * unit;
    RoundHalfUpExact(q, unit);
    if q > 0 {
      MulAtLeast(q, unit);
    }
    assert (x < 0) == (negative && q > 0);
  }

  /** Scaling a mantissa with |frac| fractional digits to `places` digits:
      the whole part and the padded fraction separate again. */
  lemma Rescale(ip: nat, frac: string, places: nat)
    requires places <= 8 && AllDigits(frac) && |frac| <= places
    ensures var q := Shifted(Mantissa(ip, frac), places - |frac|);
            WholePart(q, places) == ip &&
            FractionPart(q, places) == Shifted(DigitsValue(frac), places - |frac|) &&
            Shifted(Mantissa(ip, frac), 8 - |frac|) == Shifted(q, 8 - places)
  {
    var k := |frac|;
    var v := DigitsValue(frac);
    var q := Shifted(Mantissa(ip, frac), places - k);
    ShiftedMantissa(ip, frac, places - k);
    assert k + (places - k) == places;
    DigitsValueBound(frac);
    ShiftedBelow(v, k, places);
    SplitShifted(q, ip, Shifted(v, places - k), places);
    RescaleShift(Mantissa(ip, frac), k, places);
  }

  /** v < 10^k shifted by places - k stays below 10^places. */
  lemma ShiftedBelow(v: nat, k: nat, places: nat)
    requires k <= places && v < Pow10(k)
    ensures Shifted(v, places - k) < Pow10(places)
  {
    Pow10Add(k, places - k);
    MulStrict(v, Pow10(k), Pow10(places - k));
  }

  /** q = ip * 10^places + r with r < 10^places splits into ip and r. */
  lemma SplitShifted(q: nat, ip: nat, r: nat, places: nat)
    requires q == Shifted(ip, places) + r && r < Pow10(places)
    ensures WholePart(q, places) == ip && FractionPart(q, places) == r
  {
    DivModUnique(q, Pow10(places), ip, r);
  }

  lemma ShiftCongruence(m: nat, k: nat, places: nat, q: nat)
    requires k <= places <= 8 && Shifted(m, places - k) == q
    ensures Shifted(m, 8 - k) == Shifted(q, 8 - places)
  {
    RescaleShift(m, k, places);
  }

  /** Shifting by places - k and then by 8 - places is shifting by 8 - k. */
  lemma RescaleShift(m: nat, k: nat, places: nat)
    requires k <= places <= 8
    ensures Shifted(m, 8 - k) == Shifted(Shifted(m, places - k), 8 - places)
  {
    Pow10Add(places - k, 8 - places);
    MulAssoc(m, Pow10(places - k), Pow10(8 - places));
  }

  /** The fraction of a rescaled mantissa, padded, is the fraction
      followed by zeros. */
  lemma PaddedFraction(frac: string, places: nat)
    requires AllDigits(frac) && |frac| <= places
    requires frac == [] || frac[|frac| - 1] != '0'
    ensures StripTrailingZeros(PadDigits(Shifted(DigitsValue(frac), places - |frac|), places)) == frac
  {
    var v := DigitsValue(frac);
    var j: nat := places - |frac|;
    var padded := PadDigits(Shifted(v, j), places);
    assert padded == frac + Zeros(j) by {
      PadDigitsShift(v, |frac|, j);
      PadDigitsOfValue(frac);
    }
    StripAppendedZeros(frac, j);
  }

  lemma RescalePositive(ip: nat, frac: string, places: nat)
    requires AllDigits(frac) && |frac| <= places
    requires frac == [] || frac[|frac| - 1] != '0'
    requires ip > 0 || frac != []
    ensures Shifted(Mantissa(ip, frac), places - |frac|) > 0
  {
    if frac != [] {
      FractionPositive(frac);
    }
    assert Mantissa(ip, frac) > 0;
    MulAtLeast(Mantissa(ip, frac), Pow10(places - |frac|));
  }

  /** The units of a decimal text with no trailing zero in its fraction,
      rendered, give the text back. */
  lemma RenderUnitsOfText(negative: bool, ip: nat, frac: string, places: nat)
    requires places <= 8
    requires AllDigits(frac) && |frac| <= places
    requires frac == [] || frac[|frac| - 1] != '0'
    requires negative ==> ip > 0 || frac != []
    ensures RenderUnits(negative, Shifted(Mantissa(ip, frac), places - |frac|), places) == Layout(negative, ip, frac)
  {
    Rescale(ip, frac, places);
    PaddedFraction(frac, places);
    if negative {
      RescalePositive(ip, frac, places);
    }
  }

  /** The rendered fraction of q carries the value of q's fractional part. */
  lemma FractionOfRender(q: nat, places: nat)
    ensures var frac := StripTrailingZeros(PadDigits(FractionPart(q, places), places));
            AllDigits(frac) && |frac| <= places &&
            (frac == [] || frac[|frac| - 1] != '0') &&
            FractionPart(q, places) == Shifted(DigitsValue(frac), places - |frac|)
  {
    var fp := FractionPart(q, places);
    var padded := PadDigits(fp, places);
    var frac := StripTrailingZeros(padded);
    var j: nat := places - |frac|;
    assert AllDigits(frac) by {
      assert forall i :: 0 <= i < |frac| ==> frac[i] == padded[i];
    }
    assert fp == Shifted(DigitsValue(frac), j) by {
      StripTrailingZerosShape(padded);
      PadDigitsValue(fp, places);
      ValueWithZeros(padded, frac, j);
    }
  }

  /** Digits followed by j zeros are worth the digits shifted by j places. */
  lemma ValueWithZeros(padded: string, frac: string, j: nat)
    requires AllDigits(frac) && padded == frac + Zeros(j)
    ensures AllDigits(padded) && DigitsValue(padded) == Shifted(DigitsValue(frac), j)
  {
    DigitsValueAppend(frac, Zeros(j));
    ZerosValue(j);
  }

  /** The text RenderUnits produces for q, read back as a mantissa and
      rescaled to `places` digits, is q again. */
  lemma UnitsOfRender(q: nat, places: nat)
    ensures var frac := StripTrailingZeros(PadDigits(FractionPart(q, places), places));
            AllDigits(frac) && |frac| <= places &&
            (frac == [] || frac[|frac| - 1] != '0') &&
            Shifted(Mantissa(WholePart(q, places), frac), places - |frac|) == q
  {
    var frac := StripTrailingZeros(PadDigits(FractionPart(q, places), places));
    FractionOfRender(q, places);
    ShiftedMantissa(WholePart(q, places), frac, places - |frac|);
    WholeAndFraction(q, places);
    assert |frac| + (places - |frac|) == places;
  }

  /** The text RenderUnits produces reads back to the signed units, scaled to satoshis. */
  lemma ReadRenderedUnits(negative: bool, q: nat, places: nat)
    requires places <= 8
    ensures ParseDecimal(RenderUnits(negative, q, places)).Some?
    ensures ToSatoshis(ParseDecimal(RenderUnits(negative, q, places)).value)
         == WithSign(negative && q > 0, Shifted(q, 8 - places))
  {
    var ip := WholePart(q, places);
    var frac := StripTrailingZeros(PadDigits(FractionPart(q, places), places));
    UnitsOfRender(q, places);
    assert RenderUnits(negative, q, places) == Layout(negative && q > 0, ip, frac);
    ReadLayout(negative && q > 0, ip, frac, places, q);
  }

  /** A laid-out decimal whose mantissa, rescaled to `places` digits, is q
      reads back to q units of the last place. */
  lemma ReadLayout(negative: bool, ip: nat, frac: string, places: nat, q: nat)
    requires places <= 8 && AllDigits(frac) && |frac| <= places
    requires Shifted(Mantissa(ip, frac), places - |frac|) == q
    ensures ParseDecimal(Layout(negative, ip, frac)) == Some(Decimal(negative, Mantissa(ip, frac), |frac|))
    ensures ToSatoshis(Decimal(negative, Mantissa(ip, frac), |frac|)) == WithSign(negative, Shifted(q, 8 - places))
  {
    ParseLayout(negative, ip, frac);
    ShiftCongruence(Mantissa(ip, frac), |frac|, places, q);
    ToSatoshisExact(Decimal(negative, Mantissa(ip, frac), |frac|));
  }

  /** A decimal text with at most `places` fractional digits, no trailing zero
      in the fraction and no negative zero survives the trip to satoshis and
      back unchanged. */
  lemma TextRoundTrip(negative: bool, ip: nat, frac: string, places: nat)
    requires places <= 8
    requires AllDigits(frac) && |frac| <= places
    requires frac == [] || frac[|frac| - 1] != '0'
    requires negative ==> ip > 0 || frac != []
    ensures ParseDecimal(Layout(negative, ip, frac)).Some?
    ensures RenderSatoshis(ToSatoshis(ParseDecimal(Layout(negative, ip, frac)).value), places)
         == Layout(negative, ip, frac)
  {
    var m := Mantissa(ip, frac);
    var d := Decimal(negative, m, |frac|);
    assert ParseDecimal(Layout(negative, ip, frac)) == Some(d) by {
      ParseLayout(negative, ip, frac);
    }
    var q := Shifted(m, places - |frac|);
    var x := WithSign(negative, Shifted(q, 8 - places));
    assert ToSatoshis(d) == x by {
      ToSatoshisExact(d);
      Rescale(ip, frac, places);
    }
    assert RenderSatoshis(x, places) == RenderUnits(negative, q, places) by {
      RenderMultiple(negative, q, places);
    }
    RenderUnitsOfText(negative, ip, frac, places);
  }

  /** An amount divisible by 10^(8 - places) is a signed whole number of units. */
  lemma AsUnits(satoshis: int, places: nat) returns (q: nat)
    requires places <= 8
    requires satoshis % Pow10(8 - places) == 0
    ensures satoshis == WithSign(satoshis < 0, Shifted(q, 8 - places))
    ensures satoshis < 0 ==> q > 0
  {
    var unit := Pow10(8 - places);
    var m := Magnitude(satoshis);
    var d := satoshis / unit;
    assert satoshis == d * unit;
    var k: int := if satoshis < 0 then -d else d;
    assert m == k * unit by {
      if satoshis < 0 {
        MulNegate(d, unit);
      }
    }
    DivModUnique(m, unit, k, 0);
    DivNatural(m, unit);
    q := m / unit;
    assert Shifted(q, 8 - places) == m;
  }

  lemma MulNegate(a: int, b: int)
    ensures (-a) * b == -(a * b)
  {
  }

  /** A satoshi amount that is a whole number of the last rendered place
      survives the trip to text and back unchanged. */
  lemma SatoshisRoundTrip(satoshis: int, places: nat)
    requires places <= 8
    requires satoshis % Pow10(8 - places) == 0
    ensures ParseDecimal(RenderSatoshis(satoshis, places)).Some?
    ensures ToSatoshis(ParseDecimal(RenderSatoshis(satoshis, places)).value) == satoshis
  {
    var q := AsUnits(satoshis, places);
    RenderMultiple(satoshis < 0, q, places);
    ReadRenderedUnits(satoshis < 0, q, places);
  }

  /** The corrected rendering loses nothing: every satoshi amount reads back. */
  lemma SatoshisToDecimalStringRoundTrip(satoshis: int)
    ensures StringToSatoshis(SatoshisToDecimalString(satoshis)) == Some(satoshis)
  {
    SatoshisRoundTrip(satoshis, 8);
  }

  /** The rendering as written reads back to the nearest 10^4 satoshis. */
  lemma AsWrittenRoundsToFourPlaces(satoshis: int)
    ensures StringToSatoshis(SatoshisToDecimalStringAsWritten(satoshis)).Some?
    ensures var r := StringToSatoshis(SatoshisToDecimalStringAsWritten(satoshis)).value;
            r % 10000 == 0 && -10000 <= 2 * (r - satoshis) <= 10000
  {
    var unit := Pow10(4);
    assert unit == 10000;
    var m := Magnitude(satoshis);
    var q: nat := RoundHalfUp(m, unit);
    var rounded := WithSign(satoshis < 0, Shifted(q, 4));
    assert RenderSatoshis(satoshis, 4) == RenderUnits(satoshis < 0, q, 4);
    RenderMultiple(satoshis < 0, q, 4);
    SignedMultiple(satoshis < 0, q, 4);
    SatoshisRoundTrip(rounded, 4);
    RoundedDistance(satoshis, q, Shifted(q, 4));
  }

  /** A signed multiple of 10^k is divisible by 10^k. */
  lemma SignedMultiple(negative: bool, q: nat, k: nat)
    ensures WithSign(negative, Shifted(q, k)) % Pow10(k) == 0
  {
    var u := Pow10(k);
    if negative {
      MulNegate(q as int, u);
      DivModUnique(-(q * u), u, -(q as int), 0);
    } else {
      DivModUnique(q * u, u, q, 0);
    }
  }

  /** The rounded magnitude, signed again, is within half of 10^4 of the
      amount. */
  lemma RoundedDistance(satoshis: int, q: nat, shifted: nat)
    requires Pow10(4) == 10000
    requires q == RoundHalfUp(Magnitude(satoshis), Pow10(4)) && shifted == Shifted(q, 4)
    ensures var r := WithSign(satoshis < 0, shifted);
            -10000 <= 2 * (r - satoshis) <= 10000
  {
    var m := Magnitude(satoshis);
    assert -10000 <= 2 * (m - q * 10000) < 10000;
  }

  /** 102389700 satoshis: four places lose the last two significant digits
      that the eight-place rendering keeps. */
  lemma AsWrittenLosesDigits()
    ensures SatoshisToDecimalStringAsWritten(102389700) == "1.0239"
    ensures SatoshisToDecimalString(102389700) == "1.023897"
  {
    FourPlacesExample();
    EightPlacesExample();
  }

  /** A canonical decimal text that denotes x satoshis reads as x, and x
      renders as the text again. */
  lemma ReadsAndRendersBack(text: string, negative: bool, ip: nat, frac: string, places: nat, x: int)
    requires places <= 8
    requires AllDigits(frac) && |frac| <= places
    requires frac == [] || frac[|frac| - 1] != '0'
    requires negative ==> ip > 0 || frac != []
    requires text == Layout(negative, ip, frac)
    requires ToSatoshis(Decimal(negative, Mantissa(ip, frac), |frac|)) == x
    ensures StringToSatoshis(text) == Some(x)
    ensures RenderSatoshis(x, places) == text
  {
    ParseLayout(negative, ip, frac);
    TextRoundTrip(negative, ip, frac, places);
  }

  /** '0.0005' is 50000 satoshis. */
  lemma FiveTenThousandthsExample()
    ensures StringToSatoshis("0.0005") == Some(50000)
  {
    assert "0.0005" == Layout(false, 0, "0005") by {
      assert NatToString(0) == "0";
    }
    assert Mantissa(0, "0005") == 5 by {
      assert "0005"[..3] == "000" && "000"[..2] == "00" && "00"[..1] == "0" && "0"[..0] == "";
    }
    assert ToSatoshis(Decimal(false, 5, 4)) == 50000 by {
      assert Pow10(4) == 10000;
      ToSatoshisExact(Decimal(false, 5, 4));
    }
    ReadsAndRendersBack("0.0005", false, 0, "0005", 4, 50000);
  }

  /** '12.52' is 1252000000 satoshis, and both renderings give '12.52' back. */
  lemma TwelveFiftyTwoExample()
    ensures StringToSatoshis("12.52") == Some(1252000000)
    ensures SatoshisToDecimalString(1252000000) == "12.52"
    ensures SatoshisToDecimalStringAsWritten(1252000000) == "12.52"
  {
    TwelveFiftyTwoText();
    ReadsAndRendersBack("12.52", false, 12, "52", 8, 1252000000);
    ReadsAndRendersBack("12.52", false, 12, "52", 4, 1252000000);
  }

  lemma TwelveFiftyTwoText()
    ensures "12.52" == Layout(false, 12, "52") && AllDigits("52")
    ensures ToSatoshis(Decimal(false, Mantissa(12, "52"), 2)) == 1252000000
  {
    assert "12.52" == Layout(false, 12, "52") by {
      assert NatToString(12) == "12";
    }
    assert Mantissa(12, "52") == 1252 by {
      assert "52"[..1] == "5" && "5"[..0] == "";
      assert Pow10(2) == 100;
    }
    assert ToSatoshis(Decimal(false, 1252, 2)) == 1252000000 by {
      assert Pow10(6) == 1000000;
      ToSatoshisExact(Decimal(false, 1252, 2));
    }
  }

  lemma FourPlacesExample()
    ensures SatoshisToDecimalStringAsWritten(102389700) == "1.0239"
  {
    FourPlacesRounding();
    FourPlacesSplit();
    FourPlacesFraction();
    assert RenderUnits(false, 10239, 4) == "1.0239";
  }

  lemma FourPlacesRounding()
    ensures RoundHalfUp(102389700, Pow10(4)) == 10239
  {
    assert Pow10(4) == 10000;
    DivModUnique(2 * 102389700 + 10000, 2 * 10000, 10239, 9400);
  }

  lemma FourPlacesSplit()
    ensures WholePart(10239, 4) == 1 && FractionPart(10239, 4) == 239
  {
    assert Pow10(4) == 10000;
    DivModUnique(10239, 10000, 1, 239);
  }

  lemma Digits0239()
    ensures DigitsValue("0239") == 239
  {
    assert "0"[..0] == "" && DigitsValue("0") == 0;
    assert "02"[..1] == "0" && DigitsValue("02") == 2;
    assert "023"[..2] == "02" && DigitsValue("023") == 23;
    assert "0239"[..3] == "023";
  }

  lemma FourPlacesFraction()
    ensures StripTrailingZeros(PadDigits(239, 4)) == "0239"
  {
    Digits0239();
    PadDigitsOfValue("0239");
    assert "0239" + Zeros(0) == "0239";
    StripAppendedZeros("0239", 0);
  }

  lemma PaddedExample()
    ensures PadDigits(2389700, 8) == "02389700"
  {
    assert "02389700"[..7] == "0238970" && "0238970"[..6] == "023897" && "023897"[..5] == "02389";
    assert "02389"[..4] == "0238" && "0238"[..3] == "023" && "023"[..2] == "02";
    assert "02"[..1] == "0" && "0"[..0] == "";
    assert DigitsValue("02389700") == 2389700;
    PadDigitsOfValue("02389700");
  }

  lemma EightPlacesExample()
    ensures SatoshisToDecimalString(102389700) == "1.023897"
  {
    assert SatoshisToDecimalString(102389700) == RenderUnits(false, 102389700, 8) by {
      assert Pow10(0) == 1;
      RoundHalfUpExact(102389700, 1);
    }
    EightPlacesUnits();
  }

  lemma EightPlacesUnits()
    ensures RenderUnits(false, 102389700, 8) == "1.023897"
  {
    assert WholePart(102389700, 8) == 1 && FractionPart(102389700, 8) == 2389700 by {
      assert Pow10(8) == 100000000;
      DivModUnique(102389700, 100000000, 1, 2389700);
    }
    PaddedExample();
    assert StripTrailingZeros("02389700") == "023897" by {
      assert "023897" + Zeros(2) == "02389700";
      StripAppendedZeros("023897", 2);
    }
  }

  // ---------------------------------------------------------------------
  // Best prices of a projection

  /** The satoshi value of a projected price: the price text has two
      decimals, so it is the price in cents times 10^6. */
  function PriceSatoshis(cents: int): int
  {
    cents * 1_000_000
  }

  /** The reduce of getMinAsk: the least ask price in satoshis, +inf when there is none. */
  function MinAskSatoshis(asks: seq<SimpleOrder>): (r: ExtInt)
    ensures forall i :: 0 <= i < |asks| ==> r.Le(Finite(PriceSatoshis(asks[i].price)))
    ensures r == PosInf <==> asks == []
    ensures r != PosInf ==> exists i :: 0 <= i < |asks| && r == Finite(PriceSatoshis(asks[i].price))
    decreases |asks|
  {
    if asks == [] then PosInf
    else
      var r := Min(MinAskSatoshis(asks[..|asks| - 1]), Finite(PriceSatoshis(asks[|asks| - 1].price)));
      assert forall i :: 0 <= i < |asks| - 1 ==> asks[..|asks| - 1][i] == asks[i];
      r
  }

  /** The reduce of getMaxBid: the greatest bid price in satoshis, -inf when there is none. */
  function MaxBidSatoshis(bids: seq<SimpleOrder>): (r: ExtInt)
    ensures forall i :: 0 <= i < |bids| ==> Finite(PriceSatoshis(bids[i].price)).Le(r)
    ensures r == NegInf <==> bids == []
    ensures r != NegInf ==> exists i :: 0 <= i < |bids| && r == Finite(PriceSatoshis(bids[i].price))
    decreases |bids|
  {
    if bids == [] then NegInf
    else
      var r := Max(MaxBidSatoshis(bids[..|bids| - 1]), Finite(PriceSatoshis(bids[|bids| - 1].price)));
      assert forall i :: 0 <= i < |bids| - 1 ==> bids[..|bids| - 1][i] == bids[i];
      r
  }

  function GetMinAsk(book: BookState): string
  {
    ExtToDecimalString(MinAskSatoshis(book.asks))
  }

  function GetMaxBid(book: BookState): string
  {
    ExtToDecimalString(MaxBidSatoshis(book.bids))
  }

  /** The text getMinAsk returns reads back to the least ask price. */
  lemma GetMinAskValue(book: BookState)
    ensures book.asks == [] ==> GetMinAsk(book) == "Infinity"
    ensures book.asks != [] ==>
      exists i :: 0 <= i < |book.asks| &&
        StringToSatoshis(GetMinAsk(book)) == Some(PriceSatoshis(book.asks[i].price)) &&
        forall j :: 0 <= j < |book.asks| ==> book.asks[i].price <= book.asks[j].price
  {
    if book.asks != [] {
      var r := MinAskSatoshis(book.asks);
      SatoshisToDecimalStringRoundTrip(r.n);
      var i :| 0 <= i < |book.asks| && r == Finite(PriceSatoshis(book.asks[i].price));
      assert forall j :: 0 <= j < |book.asks| ==> book.asks[i].price <= book.asks[j].price by {
        forall j | 0 <= j < |book.asks|
          ensures book.asks[i].price <= book.asks[j].price
        {
          assert PriceSatoshis(book.asks[i].price) <= PriceSatoshis(book.asks[j].price);
        }
      }
    }
  }

  /** The text getMaxBid returns reads back to the greatest bid price. */
  lemma GetMaxBidValue(book: BookState)
    ensures book.bids == [] ==> GetMaxBid(book) == "-Infinity"
    ensures book.bids != [] ==>
      exists i :: 0 <= i < |book.bids| &&
        StringToSatoshis(GetMaxBid(book)) == Some(PriceSatoshis(book.bids[i].price)) &&
        forall j :: 0 <= j < |book.bids| ==> book.bids[j].price <= book.bids[i].price
  {
    if book.bids != [] {
      var r := MaxBidSatoshis(book.bids);
      SatoshisToDecimalStringRoundTrip(r.n);
      var i :| 0 <= i < |book.bids| && r == Finite(PriceSatoshis(book.bids[i].price));
      assert forall j :: 0 <= j < |book.bids| ==> book.bids[j].price <= book.bids[i].price by {
        forall j | 0 <= j < |book.bids|
          ensures book.bids[j].price <= book.bids[i].price
        {
          assert PriceSatoshis(book.bids[j].price) <= PriceSatoshis(book.bids[i].price);
        }
      }
    }
  }

  /** Prices are whole cents, so the four-place rendering as written reads
      every price back unchanged: for getMinAsk and getMaxBid the two
      renderings give the same value. */
  lemma AsWrittenKeepsPrices(cents: int)
    ensures StringToSatoshis(SatoshisToDecimalStringAsWritten(PriceSatoshis(cents))) == Some(PriceSatoshis(cents))
    ensures StringToSatoshis(SatoshisToDecimalString(PriceSatoshis(cents))) == Some(PriceSatoshis(cents))
  {
    var x := PriceSatoshis(cents);
    assert Pow10(4) == 10000;
    DivModUnique(x, 10000, cents * 100, 0);
    SatoshisRoundTrip(x, 4);
    SatoshisToDecimalStringRoundTrip(x);
  }

  // ---------------------------------------------------------------------
  // The ticker of a projection

  datatype Ticker = Ticker(ask: string, timestamp: Option<int>, bid: string,
                           rolling24HourVolume: string, lastTrade: string)

  /** The two fields makeTicker fills with fixed placeholder text. */
  const PlaceholderVolume: string := "12.52"
  const PlaceholderLastTrade: string := "950.00"

  function MakeTicker(book: Option<BookState>): (t: Option<Ticker>)
    ensures t.None? <==> book.None?
    ensures t.Some? ==> t.value.timestamp == book.value.timestamp
    ensures t.Some? ==> t.value.ask == GetMinAsk(book.value) && t.value.bid == GetMaxBid(book.value)
    ensures t.Some? ==> (t.value.rolling24HourVolume == PlaceholderVolume &&
                         t.value.lastTrade == PlaceholderLastTrade)
  {
    match book
    case None => None
    case Some(b) => Some(Ticker(GetMinAsk(b), b.timestamp, GetMaxBid(b), PlaceholderVolume, PlaceholderLastTrade))
  }
}
