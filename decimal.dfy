/** Decimal text and the JavaScript number built-ins the repository relies on:
    Number#toString on integers, parseInt(s, 10), the coercion of a decimal
    string to a number (Number(s), parseFloat(s)), and the text layout that
    toFixed produces.  Numbers are exact here: a decimal is a sign, a natural
    mantissa and a scale (mantissa / 10^scale), so no binary rounding occurs. */
module Decimal {
  import opened Wrappers

  // ---------------------------------------------------------------------
  // Digits

  predicate IsDigit(c: char) { '0' <= c <= '9' }

  predicate AllDigits(s: string) { forall i :: 0 <= i < |s| ==> IsDigit(s[i]) }

  function DigitValue(c: char): (d: nat)
    requires IsDigit(c)
    ensures d < 10
  {
    (c as int) - ('0' as int)
  }

  function DigitChar(d: nat): (c: char)
    requires d < 10
    ensures IsDigit(c) && DigitValue(c) == d
  {
    (('0' as int) + d) as char
  }

  lemma DigitCharOfValue(c: char)
    requires IsDigit(c)
    ensures DigitChar(DigitValue(c)) == c
  {
  }

  function Pow10(k: nat): (r: nat)
    ensures r >= 1
  {
    if k == 0 then 1 else 10 * Pow10(k - 1)
  }

  lemma {:induction false} Pow10Add(a: nat, b: nat)
    ensures Pow10(a + b) == Pow10(a) * Pow10(b)
  {
    if b > 0 {
      Pow10Add(a, b - 1);
      assert Pow10(a + b) == 10 * Pow10(a + b - 1);
    }
  }

  lemma Pow10Monotone(a: nat, b: nat)
    requires a <= b
    ensures Pow10(a) <= Pow10(b)
  {
    Pow10Add(a, b - a);
  }

  /** Division with a unique quotient and remainder. */
  lemma MulAtLeast(k: int, b: int)
    requires k >= 1 && b > 0
    ensures k * b >= b
  {
  }

  lemma DivModUnique(x: int, b: int, q: int, r: int)
    requires b > 0 && 0 <= r < b && x == q * b + r
    ensures x / b == q && x % b == r
  {
    var q0, r0 := x / b, x % b;
    assert x == q0 * b + r0;
    if q0 < q {
      assert (q - q0) * b == r0 - r;
      MulAtLeast(q - q0, b);
      assert false;
    } else if q0 > q {
      assert (q0 - q) * b == r - r0;
      MulAtLeast(q0 - q, b);
      assert false;
    }
  }

  lemma Regroup(a: int, p: int, b: int, d: int)
    ensures (a * p + b) * 10 + d == a * (p * 10) + (b * 10 + d)
  {
  }

  /** The value of a string of decimal digits, most significant first. */
  function DigitsValue(s: string): nat
    requires AllDigits(s)
    decreases |s|
  {
    if s == [] then 0 else DigitsValue(s[..|s| - 1]) * 10 + DigitValue(s[|s| - 1])
  }

  lemma {:induction false} DigitsValueBound(s: string)
    requires AllDigits(s)
    ensures DigitsValue(s) < Pow10(|s|)
    decreases |s|
  {
    if s != [] {
      DigitsValueBound(s[..|s| - 1]);
    }
  }

  lemma {:induction false} DigitsValueAppend(a: string, b: string)
    requires AllDigits(a) && AllDigits(b)
    ensures AllDigits(a + b)
    ensures DigitsValue(a + b) == DigitsValue(a) * Pow10(|b|) + DigitsValue(b)
    decreases |b|
  {
    if b == [] {
      assert a + b == a;
    } else {
      var b' := b[..|b| - 1];
      assert (a + b)[..|a + b| - 1] == a + b';
      DigitsValueAppend(a, b');
      assert b[..|b| - 1] == b';
      Regroup(DigitsValue(a), Pow10(|b'|), DigitsValue(b'), DigitValue(b[|b| - 1]));
    }
  }

  /** A string of `count` zero digits. */
  function Zeros(count: nat): (s: string)
    ensures |s| == count && AllDigits(s)
    ensures forall i :: 0 <= i < count ==> s[i] == '0'
  {
    if count == 0 then [] else Zeros(count - 1) + ['0']
  }

  lemma {:induction false} ZerosValue(count: nat)
    ensures DigitsValue(Zeros(count)) == 0
  {
    if count > 0 {
      assert Zeros(count)[..count - 1] == Zeros(count - 1);
      ZerosValue(count - 1);
    }
  }

  // ---------------------------------------------------------------------
  // Natural numbers as text (Number#toString)

  /** A digit string without redundant leading zeros. */
  predicate NoLeadingZero(s: string) { |s| >= 1 && (s[0] == '0' ==> |s| == 1) }

  function NatToString(n: nat): (s: string)
    ensures AllDigits(s) && |s| >= 1
  {
    if n < 10 then [DigitChar(n)] else NatToString(n / 10) + [DigitChar(n % 10)]
  }

  lemma {:induction false} NatToStringValue(n: nat)
    ensures DigitsValue(NatToString(n)) == n
  {
    if n >= 10 {
      var s := NatToString(n);
      assert s[..|s| - 1] == NatToString(n / 10);
      NatToStringValue(n / 10);
    }
  }

  lemma {:induction false} NatToStringLeading(n: nat)
    ensures n >= 1 ==> NatToString(n)[0] != '0'
  {
    if n >= 10 {
      NatToStringLeading(n / 10);
    }
  }

  lemma NatToStringCanonical(n: nat)
    ensures NoLeadingZero(NatToString(n))
  {
    NatToStringLeading(n);
  }

  lemma {:induction false} LeadingDigitPositive(s: string)
    requires AllDigits(s) && |s| >= 1 && s[0] != '0'
    ensures DigitsValue(s) >= 1
    decreases |s|
  {
    if |s| > 1 {
      LeadingDigitPositive(s[..|s| - 1]);
    }
  }

  /** Every canonical digit string is the text of its value. */
  lemma {:induction false} StringToNat(s: string)
    requires AllDigits(s) && NoLeadingZero(s)
    ensures NatToString(DigitsValue(s)) == s
    decreases |s|
  {
    if |s| > 1 {
      var p := s[..|s| - 1];
      LeadingDigitPositive(p);
      StringToNat(p);
      var v := DigitsValue(s);
      DivModUnique(v, 10, DigitsValue(p), DigitValue(s[|s| - 1]));
      DigitCharOfValue(s[|s| - 1]);
      assert s == p + [s[|s| - 1]];
    } else {
      DigitCharOfValue(s[0]);
    }
  }

  // ---------------------------------------------------------------------
  // Fixed-width digit strings (the fraction of toFixed)

  /** The last `width` decimal digits of n, with leading zeros. */
  function PadDigits(n: nat, width: nat): (s: string)
    ensures |s| == width && AllDigits(s)
  {
    if width == 0 then [] else PadDigits(n / 10, width - 1) + [DigitChar(n % 10)]
  }

  lemma {:induction false} PadDigitsValue(n: nat, width: nat)
    requires n < Pow10(width)
    ensures DigitsValue(PadDigits(n, width)) == n
  {
    if width > 0 {
      var s := PadDigits(n, width);
      assert s[..width - 1] == PadDigits(n / 10, width - 1);
      PadDigitsValue(n / 10, width - 1);
    }
  }

  lemma {:induction false} PadDigitsOfValue(s: string)
    requires AllDigits(s)
    ensures PadDigits(DigitsValue(s), |s|) == s
    decreases |s|
  {
    if s != [] {
      var p := s[..|s| - 1];
      PadDigitsOfValue(p);
      DivModUnique(DigitsValue(s), 10, DigitsValue(p), DigitValue(s[|s| - 1]));
      DigitCharOfValue(s[|s| - 1]);
      assert s == p + [s[|s| - 1]];
    }
  }

  /** Scaling by 10^shift appends `shift` zero digits. */
  lemma {:induction false} PadDigitsShift(a: nat, width: nat, shift: nat)
    ensures PadDigits(a * Pow10(shift), width + shift) == PadDigits(a, width) + Zeros(shift)
  {
    if shift > 0 {
      var y := a * Pow10(shift - 1);
      assert a * Pow10(shift) == 10 * y;
      DivModUnique(10 * y, 10, y, 0);
      PadDigitsShift(a, width, shift - 1);
    }
  }

  /** Drops trailing '0' characters (what parseFloat(x).toString() does to a fraction). */
  function StripTrailingZeros(s: string): (r: string)
    ensures |r| <= |s| && r == s[..|r|]
    ensures r == [] || r[|r| - 1] != '0'
  {
    if s != [] && s[|s| - 1] == '0' then StripTrailingZeros(s[..|s| - 1]) else s
  }

  lemma {:induction false} StripTrailingZerosShape(s: string)
    ensures s == StripTrailingZeros(s) + Zeros(|s| - |StripTrailingZeros(s)|)
    decreases |s|
  {
    if s != [] && s[|s| - 1] == '0' {
      var p := s[..|s| - 1];
      StripTrailingZerosShape(p);
      var r := StripTrailingZeros(p);
      assert Zeros(|s| - |r|) == Zeros(|p| - |r|) + ['0'];
      assert s == p + ['0'];
    }
  }

  lemma {:induction false} StripAppendedZeros(f: string, count: nat)
    requires f == [] || f[|f| - 1] != '0'
    ensures StripTrailingZeros(f + Zeros(count)) == f
  {
    if count > 0 {
      assert (f + Zeros(count))[..|f| + count - 1] == f + Zeros(count - 1);
      StripAppendedZeros(f, count - 1);
    } else {
      assert f + Zeros(0) == f;
    }
  }

  // ---------------------------------------------------------------------
  // Integers as text and parseInt

  /** Number#toString of an integer. */
  function IntToString(i: int): string
  {
    if i < 0 then "-" + NatToString(-i) else NatToString(i)
  }

  /** Length of the longest prefix of s made of digits. */
  function DigitRun(s: string): (k: nat)
    ensures k <= |s| && AllDigits(s[..k])
    ensures k < |s| ==> !IsDigit(s[k])
  {
    if s != [] && IsDigit(s[0]) then
      var k := 1 + DigitRun(s[1..]);
      assert s[..k] == [s[0]] + s[1..][..k - 1];
      k
    else 0
  }

  lemma {:induction false} DigitRunOf(d: string, rest: string)
    requires AllDigits(d)
    requires rest == [] || !IsDigit(rest[0])
    ensures DigitRun(d + rest) == |d|
    decreases |d|
  {
    if d != [] {
      assert (d + rest)[1..] == d[1..] + rest;
      DigitRunOf(d[1..], rest);
    }
  }

  /** parseInt(s, 10): an optional sign and the longest run of digits after it;
      no digits at all is NaN (None).  Leading white space is not modelled. */
  function ParseInt(s: string): Option<int>
  {
    var signed := |s| > 0 && (s[0] == '-' || s[0] == '+');
    var body := if signed then s[1..] else s;
    var k := DigitRun(body);
    if k == 0 then None
    else if |s| > 0 && s[0] == '-' then Some(-(DigitsValue(body[..k]) as int))
    else Some(DigitsValue(body[..k]))
  }

  // ---------------------------------------------------------------------
  // Decimal values and their text

  /** (-1 if negative) * mantissa / 10^scale. */
  datatype Decimal = Decimal(negative: bool, mantissa: nat, scale: nat)

  /** The signed mantissa: the value times 10^scale. */
  function Signed(d: Decimal): int
  {
    if d.negative then -(d.mantissa as int) else d.mantissa
  }

  /** The text `[-]ip[.frac]`: an integer part and an optional fraction. */
  function Layout(negative: bool, ip: nat, frac: string): string
  {
    Sign(negative) + NatToString(ip) + (if frac == [] then "" else "." + frac)
  }

  /** Position of the first '.' in s, or |s| when there is none. */
  function DotIndex(s: string): (p: nat)
    ensures p <= |s|
    ensures forall i :: 0 <= i < p ==> s[i] != '.'
    ensures p < |s| ==> s[p] == '.'
  {
    if s == [] then 0
    else if s[0] == '.' then 0
    else 1 + DotIndex(s[1..])
  }

  lemma {:induction false} DotIndexOf(a: string, rest: string)
    requires AllDigits(a)
    requires rest != [] && rest[0] == '.'
    ensures DotIndex(a + rest) == |a|
    decreases |a|
  {
    if a != [] {
      assert (a + rest)[1..] == a[1..] + rest;
      DotIndexOf(a[1..], rest);
    }
  }

  lemma DotIndexNone(a: string)
    requires AllDigits(a)
    ensures DotIndex(a) == |a|
  {
    if DotIndex(a) < |a| {
      assert IsDigit(a[DotIndex(a)]);
    }
  }

  /** a * 10^k: a shifted k decimal places to the left. */
  function Shifted(a: nat, k: nat): nat
  {
    a * Pow10(k)
  }

  /** The whole units of q at `places` decimal places. */
  function WholePart(q: nat, places: nat): nat
  {
    var p := Pow10(places);
    DivNatural(q, p);
    q / p
  }

  /** The quotient of naturals is natural. */
  lemma DivNatural(q: nat, p: nat)
    requires p >= 1
    ensures q / p >= 0
  {
  }

  /** The fractional digits of q at `places` decimal places, as a number. */
  function FractionPart(q: nat, places: nat): (r: nat)
    ensures r < Pow10(places)
  {
    q % Pow10(places)
  }

  lemma WholeAndFraction(q: nat, places: nat)
    ensures q == WholePart(q, places) * Pow10(places) + FractionPart(q, places)
  {
  }

  /** The mantissa of `ip.frac` at scale |frac|: ip * 10^|frac| + frac. */
  function Mantissa(ip: nat, frac: string): nat
    requires AllDigits(frac)
  {
    ip * Pow10(|frac|) + DigitsValue(frac)
  }

  /** The number an unsigned decimal string denotes: `digits[.digits]`. */
  function ParseUnsigned(body: string): Option<Decimal>
  {
    var p := DotIndex(body);
    var ip := body[..p];
    var frac := if p < |body| then body[p + 1..] else [];
    if |ip| >= 1 && AllDigits(ip) && AllDigits(frac) && (p < |body| ==> |frac| >= 1) then
      Some(Decimal(false, Mantissa(DigitsValue(ip), frac), |frac|))
    else None
  }

  /** The number a decimal string coerces to (Number(s), parseFloat(s)),
      on the strings `[-]digits[.digits]`; anything else is NaN (None). */
  function ParseDecimal(s: string): Option<Decimal>
  {
    if |s| > 0 && s[0] == '-' then
      match ParseUnsigned(s[1..])
      case Some(d) => Some(d.(negative := true))
      case None => None
    else ParseUnsigned(s)
  }

  lemma ParseUnsignedInteger(ip: nat)
    ensures ParseUnsigned(NatToString(ip)) == Some(Decimal(false, ip, 0))
  {
    var digits := NatToString(ip);
    DotIndexNone(digits);
    assert digits[..|digits|] == digits;
    NatToStringValue(ip);
  }

  lemma ParseUnsignedFraction(ip: nat, frac: string)
    requires AllDigits(frac) && frac != []
    ensures ParseUnsigned(NatToString(ip) + "." + frac)
         == Some(Decimal(false, Mantissa(ip, frac), |frac|))
    ensures IsDigit((NatToString(ip) + "." + frac)[0])
  {
    var digits := NatToString(ip);
    var body := digits + "." + frac;
    assert body == digits + ("." + frac);
    DotIndexOf(digits, "." + frac);
    assert body[..|digits|] == digits;
    assert body[|digits| + 1..] == frac;
    NatToStringValue(ip);
  }

  function Sign(negative: bool): string
  {
    if negative then "-" else ""
  }

  lemma ParseSigned(negative: bool, body: string, d: Decimal)
    requires body != [] && IsDigit(body[0])
    requires ParseUnsigned(body) == Some(d)
    ensures ParseDecimal(Sign(negative) + body) == Some(d.(negative := negative))
  {
    if negative {
      assert (Sign(negative) + body)[1..] == body;
    } else {
      assert Sign(negative) + body == body;
    }
  }

  lemma LayoutShape(negative: bool, ip: nat, frac: string)
    ensures frac == [] ==> Layout(negative, ip, frac) == Sign(negative) + NatToString(ip)
    ensures frac != [] ==> Layout(negative, ip, frac) == Sign(negative) + (NatToString(ip) + "." + frac)
  {
  }

  lemma ParseLayoutInteger(negative: bool, ip: nat)
    ensures ParseDecimal(Layout(negative, ip, [])) == Some(Decimal(negative, ip, 0))
  {
    var digits := NatToString(ip);
    assert IsDigit(digits[0]);
    LayoutShape(negative, ip, []);
    ParseUnsignedInteger(ip);
    ParseSigned(negative, digits, Decimal(false, ip, 0));
  }

  lemma ParseLayoutFraction(negative: bool, ip: nat, frac: string)
    requires AllDigits(frac) && frac != []
    ensures ParseDecimal(Layout(negative, ip, frac))
         == Some(Decimal(negative, Mantissa(ip, frac), |frac|))
  {
    var body := NatToString(ip) + "." + frac;
    var d := Decimal(false, Mantissa(ip, frac), |frac|);
    ParseUnsignedFraction(ip, frac);
    assert ParseUnsigned(body) == Some(d);
    assert IsDigit(body[0]);
    ParseSigned(negative, body, d);
    LayoutShape(negative, ip, frac);
    assert Layout(negative, ip, frac) == Sign(negative) + body;
  }

  /** Reading back a laid-out decimal gives exactly its digits. */
  lemma ParseLayout(negative: bool, ip: nat, frac: string)
    requires AllDigits(frac)
    ensures ParseDecimal(Layout(negative, ip, frac))
         == Some(Decimal(negative, Mantissa(ip, frac), |frac|))
  {
    if frac == [] {
      ParseLayoutInteger(negative, ip);
    } else {
      ParseLayoutFraction(negative, ip, frac);
    }
  }

  lemma ParseIntUnsigned(digits: string, tail: string)
    requires AllDigits(digits) && digits != []
    requires tail == [] || !IsDigit(tail[0])
    ensures ParseInt(digits + tail) == Some(DigitsValue(digits) as int)
    ensures ParseInt("-" + digits + tail) == Some(-(DigitsValue(digits) as int))
  {
    ParseIntDigits(digits, tail);
    ParseIntMinusDigits(digits, tail);
  }

  lemma ParseIntDigits(digits: string, tail: string)
    requires AllDigits(digits) && digits != []
    requires tail == [] || !IsDigit(tail[0])
    ensures ParseInt(digits + tail) == Some(DigitsValue(digits) as int)
  {
    var s := digits + tail;
    assert s[0] == digits[0] && IsDigit(s[0]);
    DigitRunOf(digits, tail);
    assert s[..|digits|] == digits;
  }

  lemma ParseIntMinusDigits(digits: string, tail: string)
    requires AllDigits(digits) && digits != []
    requires tail == [] || !IsDigit(tail[0])
    ensures ParseInt("-" + digits + tail) == Some(-(DigitsValue(digits) as int))
  {
    var body := digits + tail;
    ConcatAssoc("-", digits, tail);
    MinusParse(body, DigitsValue(digits) as int) by {
      DigitRunOf(digits, tail);
      assert body[..|digits|] == digits;
      ParseIntDigits(digits, tail);
    }
  }

  lemma ConcatAssoc<T>(a: seq<T>, b: seq<T>, c: seq<T>)
    ensures a + b + c == a + (b + c)
  {
  }

  /** A minus sign in front of digits parseInt reads negates them. */
  lemma MinusParse(body: string, n: int)
    requires body != [] && IsDigit(body[0]) && ParseInt(body) == Some(n)
    ensures ParseInt(['-'] + body) == Some(-n)
  {
    var s := ['-'] + body;
    assert s[1..] == body;
  }

  /** parseInt reads the integer part of a laid-out decimal. */
  lemma ParseIntLayout(negative: bool, ip: nat, frac: string)
    ensures ParseInt(Layout(negative, ip, frac)) == Some(if negative then -(ip as int) else ip)
  {
    var digits := NatToString(ip);
    var tail: string := if frac == [] then "" else "." + frac;
    assert tail == [] || tail[0] == '.';
    NatToStringValue(ip);
    if negative {
      assert Layout(negative, ip, frac) == "-" + digits + tail;
      ParseIntMinusDigits(digits, tail);
    } else {
      assert Layout(negative, ip, frac) == digits + tail;
      ParseIntDigits(digits, tail);
    }
  }

  lemma IntToStringLayout(i: int)
    ensures IntToString(i) == Layout(i < 0, if i < 0 then -i else i, [])
  {
  }

  /** parseInt inverts Number#toString on integers. */
  lemma ParseIntToString(i: int)
    ensures ParseInt(IntToString(i)) == Some(i)
  {
    IntToStringLayout(i);
    ParseIntLayout(i < 0, if i < 0 then -i else i, []);
  }

  /** Number#toString is injective on integers. */
  lemma IntToStringInjective(i: int, j: int)
    requires IntToString(i) == IntToString(j)
    ensures i == j
  {
    ParseIntToString(i);
    ParseIntToString(j);
  }
}
