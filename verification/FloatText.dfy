/**
 * Binary floating point numbers (IEEE 754, sections 3.4 and 3.5), their exact decimal text, and
 * the text printf's %f makes of them when snprintf cuts it off.
 */
module FloatText {
  import Decimal
  import WireFormat

  /** How many bits hold the fraction and how many the exponent. */
  datatype Format = Format(fraction: nat, exponent: nat)

  const SINGLE := Format(23, 8)
  const DOUBLE := Format(52, 11)

  /** A finite number is its mantissa divided by two to the scale. */
  datatype Real =
    | Finite(negative: bool, mantissa: nat, scale: nat)
    | Infinite(negative: bool)
    | NotANumber(negative: bool)

  function Power2(k: nat): (p: nat)
    ensures p > 0
  {
    if k == 0 then 1 else 2 * Power2(k - 1)
  }

  function Power5(k: nat): (p: nat)
    ensures p > 0
  {
    if k == 0 then 1 else 5 * Power5(k - 1)
  }

  /** In lowest terms. */
  function Reduced(negative: bool, mantissa: nat, scale: nat): (r: Real)
    ensures r.Finite?
    decreases scale
  {
    if scale > 0 && mantissa % 2 == 0 then Reduced(negative, mantissa / 2, scale - 1)
    else Finite(negative, mantissa, scale)
  }

  /** With a hidden one unless the exponent is zero. */
  function MantissaOf(f: Format, exponent: nat, fraction: nat): nat {
    if exponent == 0 then fraction else Power2(f.fraction) + fraction
  }

  function ShiftOf(exponent: nat): nat {
    if exponent == 0 then 0 else exponent - 1
  }

  /** The smallest positive number is one divided by two to this. */
  function UnitOf(f: Format): nat
    requires f.exponent > 1
  {
    Power2(f.exponent - 1) + f.fraction - 2
  }

  /** The number a bit pattern stands for. */
  function RealOf(f: Format, bits: nat): Real
    requires f.exponent > 1
  {
    var fraction := bits % Power2(f.fraction);
    var exponent := bits / Power2(f.fraction) % Power2(f.exponent);
    var negative := bits / Power2(f.fraction + f.exponent) % 2 == 1;
    if exponent == Power2(f.exponent) - 1 then
      if fraction == 0 then Infinite(negative) else NotANumber(negative)
    else
      var mantissa, shift, unit := MantissaOf(f, exponent, fraction), ShiftOf(exponent), UnitOf(f);
      if shift >= unit then Finite(negative, mantissa * Power2(shift - unit), 0)
      else Reduced(negative, mantissa, unit - shift)
  }

  // ---- decimal text

  function Sign(negative: bool): string {
    if negative then "-" else ""
  }

  function Quotient(n: nat, d: nat): nat
    requires d > 0
  {
    n / d
  }

  function Remainder(n: nat, d: nat): (r: nat)
    requires d > 0
    ensures r < d
  {
    n % d
  }

  lemma DigitsPlain(n: nat)
    ensures '.' !in Decimal.Digits(n) && '\0' !in Decimal.Digits(n)
  {
  }

  /** The part before the point. */
  function Whole(negative: bool, n: nat): (s: string)
    ensures |s| == |Sign(negative)| + |Decimal.Digits(n)| && '.' !in s && '\0' !in s
  {
    DigitsPlain(n);
    Sign(negative) + Decimal.Digits(n)
  }

  /** The part behind it, in units of the last place. */
  function Places(n: nat, places: nat): (s: string)
    requires places > 0
    ensures |s| == places && '.' !in s && '\0' !in s
  {
    var rest := Remainder(n, Decimal.Power10(places));
    Decimal.DigitsLength(rest, places);
    Decimal.ZeroFill(places, Decimal.Digits(rest))
  }

  function Dotted(whole: string, places: string): (s: string)
    ensures '\0' !in whole && '\0' !in places ==> '\0' !in s
  {
    whole + "." + places
  }

  /** n / 10^places with all its places. */
  function Fixed(negative: bool, n: nat, places: nat): (s: string)
    requires places > 0
    ensures '\0' !in s
  {
    Dotted(Whole(negative, Quotient(n, Decimal.Power10(places))), Places(n, places))
  }

  /** Reading it back: the digits on both sides of the point give n, and a minus sign stands in front
      exactly of a negative number. */
  lemma FixedReadsBack(negative: bool, n: nat, places: nat)
    requires places > 0
    ensures var s, sign := Fixed(negative, n, places), if negative then 1 else 0;
            var w := |s| - places - 1;
            && sign < w && s[w] == '.' && (s[0] == '-' <==> negative)
            && Decimal.AllDigits(s[sign..w]) && Decimal.AllDigits(s[w + 1..])
            && Decimal.ParseDigits(s[sign..w]) * Decimal.Power10(places) + Decimal.ParseDigits(s[w + 1..]) == n
  {
    var q, r := Quotient(n, Decimal.Power10(places)), Remainder(n, Decimal.Power10(places));
    QuotientRemainder(n, Decimal.Power10(places));
    Decimal.DigitsParse(q);
    Decimal.DigitsParse(r);
    Decimal.ZeroFillParses(places, Decimal.Digits(r));
    var s, sign := Fixed(negative, n, places), if negative then 1 else 0;
    hide Decimal.ParseDigits, Decimal.Power10, Quotient, Remainder, Decimal.ZeroFill, Decimal.Digits;
    assert s == Sign(negative) + Decimal.Digits(q) + "." + Places(n, places);
    AroundPoint(Sign(negative), Decimal.Digits(q), Places(n, places));
  }

  lemma AroundPoint(sign: string, whole: string, places: string)
    requires whole != []
    ensures var s := sign + whole + "." + places;
            var w := |sign| + |whole|;
            s[|sign|..w] == whole && s[w] == '.' && s[w + 1..] == places
            && s[0] == if sign == [] then whole[0] else sign[0]
  {
  }

  lemma QuotientRemainder(n: nat, d: nat)
    requires d > 0
    ensures Quotient(n, d) * d + Remainder(n, d) == n
  {
  }

  /** a / b rounded to the nearest integer, to the even one of two. */
  function Nearest(a: nat, b: nat): nat
    requires b > 0
  {
    var q, r := a / b, a % b;
    if 2 * r > b || (2 * r == b && q % 2 == 1) then q + 1 else q
  }

  lemma NearestIsClosest(a: nat, b: nat)
    requires b > 0
    ensures var q := Nearest(a, b);
            var twice := 2 * (q * b - a);
            0 <= b + twice && twice <= b && (twice == b || b + twice == 0 ==> q % 2 == 0)
  {
    assert a == b * (a / b) + a % b;
    assert (a / b + 1) * b == b * (a / b) + b;
  }

  function SpecialText(r: Real): (s: string)
    requires !r.Finite?
    ensures '\0' !in s && |s| <= 4
  {
    Sign(r.negative) + if r.Infinite? then "inf" else "nan"
  }

  /** %f: six places, rounded. */
  function SixPlaces(r: Real): (s: string)
    ensures '\0' !in s
  {
    if r.Finite? then Fixed(r.negative, Nearest(r.mantissa * 1_000_000, Power2(r.scale)), 6) else SpecialText(r)
  }

  function PlacesOf(scale: nat): nat {
    if scale < 6 then 6 else scale
  }

  /** mantissa / 2^scale in units of the last place. */
  function Scaled(mantissa: nat, scale: nat): nat {
    mantissa * (Power5(scale) * Decimal.Power10(PlacesOf(scale) - scale))
  }

  /** The number itself: as many places as it needs, at least six. */
  function ExactText(r: Real): string {
    if r.Finite? then Fixed(r.negative, Scaled(r.mantissa, r.scale), PlacesOf(r.scale)) else SpecialText(r)
  }

  lemma {:induction false} PowersMultiply(k: nat)
    ensures Power5(k) * Power2(k) == Decimal.Power10(k)
  {
    if k > 0 {
      PowersMultiply(k - 1);
      var a, b := Power5(k - 1), Power2(k - 1);
      assert (5 * a) * (2 * b) == 10 * (a * b);
    }
  }

  lemma {:induction false} PowersAdd(j: nat, k: nat)
    ensures Decimal.Power10(j) * Decimal.Power10(k) == Decimal.Power10(j + k)
    decreases k
  {
    if k > 0 {
      PowersAdd(j, k - 1);
      TenTimes(Decimal.Power10(j), k - 1);
    }
  }

  lemma TenTimes(m: nat, k: nat)
    ensures m * Decimal.Power10(k + 1) == 10 * (m * Decimal.Power10(k))
  {
    var p := Decimal.Power10(k);
    assert m * (10 * p) == 10 * (m * p);
  }

  /** Nothing is rounded: mantissa / 2^scale == Scaled / 10^places. */
  lemma {:induction false} ScaledIsExact(mantissa: nat, scale: nat)
    ensures Scaled(mantissa, scale) * Power2(scale) == mantissa * Decimal.Power10(PlacesOf(scale))
  {
    hide Power2, Power5, Decimal.Power10;
    var rest := PlacesOf(scale) - scale;
    PowersMultiply(scale);
    PowersAdd(scale, rest);
    Reorder(mantissa, Power5(scale), Decimal.Power10(rest), Power2(scale));
  }

  lemma Reorder(m: nat, a: nat, b: nat, c: nat)
    ensures m * (a * b) * c == m * ((a * c) * b) && a * b * c == (a * c) * b
  {
    assert m * (a * b) * c == m * ((a * b) * c);
  }

  // ---- cut off by snprintf

  /** What a buffer of `limit` bytes keeps of a text. */
  function Limited(text: string, limit: nat): (s: string)
    requires limit > 0
    ensures s <= text && |s| == (if |text| < limit then |text| else limit - 1)
    ensures '\0' !in text ==> '\0' !in s
  {
    if |text| < limit then text else text[..limit - 1]
  }

  /** Six places suffice, and the digits before them have room. */
  predicate Survives(r: Real, limit: nat)
    requires limit > 9
  {
    r.Finite? ==>
      && r.scale <= 6
      && Quotient(r.mantissa, Power2(r.scale)) < Decimal.Power10(limit - 8 - |Sign(r.negative)|)
  }

  lemma SmallPowers(k: nat)
    requires k <= 6
    ensures Decimal.Power10(6) == 1_000_000
    ensures Power5(k) * Decimal.Power10(6 - k) * Power2(k) == 1_000_000
  {
    assert Decimal.Power10(6) == 1_000_000;
    hide Power2, Power5, Decimal.Power10;
    PowersMultiply(k);
    PowersAdd(k, 6 - k);
    Reorder(1, Power5(k), Decimal.Power10(6 - k), Power2(k));
  }

  /** Dividing numerator and denominator by a common factor. */
  lemma Cancelled(m: nat, c: nat, d: nat)
    requires c > 0 && d > 0
    ensures c * d > 0 && m * c / (c * d) == m / d
  {
    var q, r := m / d, m % d;
    assert m == d * q + r && 0 <= r < d;
    assert m * c == (c * d) * q + c * r;
    assert c * r < c * d by { Below(c, r, d); }
    WireFormat.DivModUnique(m * c, c * d, q, c * r);
  }

  lemma Below(c: nat, r: nat, d: nat)
    requires c > 0 && r < d
    ensures c * r < c * d
  {
    assert c * d - c * r == c * (d - r);
  }

  lemma NearestExact(a: nat, b: nat, q: nat)
    requires b > 0 && a == b * q
    ensures Nearest(a, b) == q
  {
    WireFormat.DivModUnique(a, b, q, 0);
  }

  /** Where six places suffice, %f rounds nothing. */
  lemma SixPlacesSuffice(r: Real)
    requires r.Finite? && r.scale <= 6
    ensures SixPlaces(r) == ExactText(r)
    ensures Quotient(Scaled(r.mantissa, r.scale), Decimal.Power10(6)) == Quotient(r.mantissa, Power2(r.scale))
  {
    hide Fixed;
    var c, d, n := Power5(r.scale) * Decimal.Power10(6 - r.scale), Power2(r.scale), Scaled(r.mantissa, r.scale);
    SmallPowers(r.scale);
    ScaledIsExact(r.mantissa, r.scale);
    NearestExact(r.mantissa * 1_000_000, d, n);
    Cancelled(r.mantissa, c, d);
  }

  /** A text cut from six places is never one of more places. */
  lemma DotsDiffer(a: string, b: string, a': string, b': string, n: nat)
    requires '.' !in a && '.' !in a' && '.' !in b' && |b| > |b'| && n <= |a'| + 1 + |b'|
    ensures Dotted(a, b) != Dotted(a', b')[..n]
  {
    var s, t := Dotted(a, b), Dotted(a', b');
    assert s[|a|] == '.';
    assert forall i :: 0 <= i < |t| && t[i] == '.' ==> i == |a'|;
  }

  lemma MorePlacesDiffer(r: Real, limit: nat)
    requires r.Finite? && r.scale > 6 && limit > 9
    ensures Limited(SixPlaces(r), limit) != ExactText(r)
  {
    hide Whole, Places, Scaled, Nearest, Power2, Decimal.Power10;
    var n, m := Scaled(r.mantissa, r.scale), Nearest(r.mantissa * 1_000_000, Power2(r.scale));
    var kept := Limited(SixPlaces(r), limit);
    assert kept == SixPlaces(r)[..|kept|];
    DotsDiffer(Whole(r.negative, Quotient(n, Decimal.Power10(r.scale))), Places(n, r.scale),
               Whole(r.negative, Quotient(m, Decimal.Power10(6))), Places(m, 6), |kept|);
  }

  lemma SixPlacesLength(r: Real, limit: nat)
    requires limit > 9 && r.Finite? && r.scale <= 6
    ensures |SixPlaces(r)| < limit <==> Survives(r, limit)
  {
    hide Power2, Decimal.Power10, Decimal.Digits, Scaled, Quotient;
    SixPlacesSuffice(r);
    Decimal.DigitsLength(Quotient(r.mantissa, Power2(r.scale)), limit - 8 - |Sign(r.negative)|);
    hide SixPlaces;
  }

  /** The cut-off text is the number itself exactly when six places suffice and its whole part has room. */
  lemma LimitedExactly(r: Real, limit: nat)
    requires limit > 9
    ensures Limited(SixPlaces(r), limit) == ExactText(r) <==> Survives(r, limit)
  {
    if r.Finite? && r.scale > 6 {
      MorePlacesDiffer(r, limit);
    } else if r.Finite? {
      hide SixPlaces, ExactText, Survives;
      SixPlacesSuffice(r);
      SixPlacesLength(r, limit);
    }
  }

  /** Lowest terms: nothing is left to halve, and the value is kept. */
  lemma {:induction false} ReducedKeeps(negative: bool, mantissa: nat, scale: nat)
    ensures var r := Reduced(negative, mantissa, scale);
            && r.negative == negative && r.scale <= scale && (r.scale > 0 ==> r.mantissa % 2 == 1)
            && mantissa == r.mantissa * Power2(scale - r.scale)
    decreases scale
  {
    var r := Reduced(negative, mantissa, scale);
    if scale > 0 && mantissa % 2 == 0 {
      ReducedKeeps(negative, mantissa / 2, scale - 1);
      Double(r.mantissa, scale - 1 - r.scale);
    } else {
      assert Power2(0) == 1;
    }
  }

  lemma Double(m: nat, k: nat)
    ensures m * Power2(k + 1) == 2 * (m * Power2(k))
  {
    var p := Power2(k);
    assert m * (2 * p) == 2 * (m * p);
  }

  // ---- the number a pattern stands for, by its fields

  /** Sign, exponent and fraction side by side. */
  function BitsOf(f: Format, negative: bool, exponent: nat, fraction: nat): nat {
    ((if negative then 1 else 0) * Power2(f.exponent) + exponent) * Power2(f.fraction) + fraction
  }

  lemma {:induction false} PowersOfTwoAdd(j: nat, k: nat)
    ensures Power2(j) * Power2(k) == Power2(j + k)
    decreases k
  {
    if k > 0 {
      PowersOfTwoAdd(j, k - 1);
      Double(Power2(j), k - 1);
    }
  }

  lemma SplitField(upper: nat, size: nat, lower: nat)
    requires lower < size
    ensures (upper * size + lower) / size == upper && (upper * size + lower) % size == lower
  {
    WireFormat.DivModUnique(upper * size + lower, size, upper, lower);
  }

  /** Cutting off one field after the other is cutting off both at once. */
  lemma SplitFields(sign: nat, a: nat, exponent: nat, b: nat, fraction: nat)
    requires exponent < a && fraction < b
    ensures b * a > 0 && ((sign * a + exponent) * b + fraction) / (b * a) == sign
  {
    Joined(sign, a, exponent, b, fraction);
    SplitField(sign, b * a, exponent * b + fraction);
  }

  lemma Joined(sign: nat, a: nat, exponent: nat, b: nat, fraction: nat)
    requires exponent < a && fraction < b
    ensures (sign * a + exponent) * b + fraction == sign * (b * a) + (exponent * b + fraction)
    ensures exponent * b + fraction < b * a
  {
    var x := sign * a;
    assert (x + exponent) * b == x * b + exponent * b;
    assert x * b == sign * (b * a);
    var rest := a - exponent;
    assert b * a == b * (exponent + rest) == b * exponent + b * rest;
    WireFormat.MultipleOf(b, rest);
  }

  /** The fields are found where they were put. */
  lemma FieldsFound(f: Format, negative: bool, exponent: nat, fraction: nat)
    requires fraction < Power2(f.fraction) && exponent < Power2(f.exponent)
    ensures var bits := BitsOf(f, negative, exponent, fraction);
            && bits % Power2(f.fraction) == fraction
            && bits / Power2(f.fraction) % Power2(f.exponent) == exponent
            && bits / Power2(f.fraction + f.exponent) % 2 == (if negative then 1 else 0)
  {
    var sign, a, b := if negative then 1 else 0, Power2(f.exponent), Power2(f.fraction);
    PowersOfTwoAdd(f.fraction, f.exponent);
    hide Power2;
    SplitField(sign * a + exponent, b, fraction);
    SplitField(sign, a, exponent);
    SplitFields(sign, a, exponent, b, fraction);
  }

  lemma RealOfPattern(f: Format, negative: bool, exponent: nat, fraction: nat)
    requires f.exponent > 1 && fraction < Power2(f.fraction) && exponent < Power2(f.exponent) - 1
    ensures var mantissa, shift, unit := MantissaOf(f, exponent, fraction), ShiftOf(exponent), UnitOf(f);
            RealOf(f, BitsOf(f, negative, exponent, fraction))
            == if shift >= unit then Finite(negative, mantissa * Power2(shift - unit), 0)
               else Reduced(negative, mantissa, unit - shift)
  {
    FieldsFound(f, negative, exponent, fraction);
    hide BitsOf, Power2;
  }

  /** The value the standard gives a finite pattern: with a hidden one unless the exponent is zero,
      times two to the exponent, in units of the smallest number. */
  lemma RealOfFields(f: Format, negative: bool, exponent: nat, fraction: nat)
    requires f.exponent > 1 && fraction < Power2(f.fraction) && exponent < Power2(f.exponent) - 1
    ensures var r := RealOf(f, BitsOf(f, negative, exponent, fraction));
            && r.Finite? && r.negative == negative
            && MantissaOf(f, exponent, fraction) * Power2(ShiftOf(exponent)) * Power2(r.scale)
               == r.mantissa * Power2(UnitOf(f))
  {
    RealOfPattern(f, negative, exponent, fraction);
    hide RealOf, BitsOf, MantissaOf, ShiftOf, UnitOf;
    ValueKept(negative, MantissaOf(f, exponent, fraction), ShiftOf(exponent), UnitOf(f));
  }

  lemma ValueKept(negative: bool, m: nat, shift: nat, unit: nat)
    ensures var r := if shift >= unit then Finite(negative, m * Power2(shift - unit), 0)
                     else Reduced(negative, m, unit - shift);
            && r.Finite? && r.negative == negative
            && m * Power2(shift) * Power2(r.scale) == r.mantissa * Power2(unit)
  {
    assert Power2(0) == 1;
    if shift >= unit {
      PowersOfTwoAdd(shift - unit, unit);
      hide Power2;
      Factors(m, Power2(shift - unit), Power2(unit), 1);
    } else {
      ReducedKeeps(negative, m, unit - shift);
      var r := Reduced(negative, m, unit - shift);
      PowersOfTwoAdd(unit - shift - r.scale, shift);
      PowersOfTwoAdd(unit - r.scale, r.scale);
      hide Power2, Reduced;
      Factors(r.mantissa, Power2(unit - shift - r.scale), Power2(shift), Power2(r.scale));
    }
  }

  lemma Factors(m: nat, a: nat, b: nat, c: nat)
    ensures (m * a) * b * c == m * ((a * b) * c) && (m * a) * b == m * (a * b)
  {
    assert (m * a) * b == m * (a * b);
    var x := a * b;
    assert (m * x) * c == m * (x * c);
  }

  // ---- the two formats, in numbers

  lemma PowersInNumbers()
    ensures Power2(7) == 128 && Power2(8) == 256 && Power2(23) == 0x80_0000 && Power2(31) == 0x8000_0000
    ensures Power2(10) == 1024 && Power2(11) == 2048 && Power2(52) == 0x10_0000_0000_0000
    ensures Power2(63) == 0x8000_0000_0000_0000
  {
    assert Power2(3) == 8 && Power2(5) == 32;
    PowersOfTwoAdd(3, 4);
    PowersOfTwoAdd(4, 4);
    PowersOfTwoAdd(5, 5);
    PowersOfTwoAdd(5, 6);
    PowersOfTwoAdd(8, 8);
    PowersOfTwoAdd(16, 7);
    PowersOfTwoAdd(23, 8);
    PowersOfTwoAdd(23, 23);
    PowersOfTwoAdd(46, 6);
    PowersOfTwoAdd(52, 11);
  }

  lemma FieldsValue(f: Format, bits: nat, negative: bool, exponent: nat, fraction: nat)
    requires f.exponent > 1 && bits % Power2(f.fraction) == fraction
    requires bits / Power2(f.fraction) % Power2(f.exponent) == exponent
    requires bits / Power2(f.fraction + f.exponent) % 2 == if negative then 1 else 0
    ensures var r := RealOf(f, bits);
            && r.negative == negative
            && (if exponent == Power2(f.exponent) - 1 then if fraction == 0 then r.Infinite? else r.NotANumber?
                else && r.Finite?
                     && (if exponent == 0 then 2 * fraction else (Power2(f.fraction) + fraction) * Power2(exponent))
                        * Power2(r.scale) == r.mantissa * Power2(UnitOf(f) + 1))
  {
    hide Power2, UnitOf;
    if exponent != Power2(f.exponent) - 1 {
      var m, shift, r := MantissaOf(f, exponent, fraction), ShiftOf(exponent), RealOf(f, bits);
      ValueKept(negative, m, shift, UnitOf(f));
      hide RealOf, Reduced;
      Doubled(m, shift, r.scale, r.mantissa, UnitOf(f));
    }
  }

  /** A finite FLOAT: one bit of sign, eight of exponent with bias 127, 23 of fraction.  With the hidden one
      its value is (2^23 + fraction) * 2^(exponent - 150). */
  lemma SingleValue(bits: nat)
    requires bits < 0x1_0000_0000
    ensures var r, exponent, fraction := RealOf(SINGLE, bits), bits / 0x80_0000 % 256, bits % 0x80_0000;
            && r.negative == (bits >= 0x8000_0000)
            && (if exponent == 255 then if fraction == 0 then r.Infinite? else r.NotANumber?
                else && r.Finite?
                     && (if exponent == 0 then 2 * fraction else (0x80_0000 + fraction) * Power2(exponent))
                        * Power2(r.scale) == r.mantissa * Power2(150))
  {
    hide Power2, RealOf;
    PowersInNumbers();
    FieldsValue(SINGLE, bits, bits >= 0x8000_0000, bits / 0x80_0000 % 256, bits % 0x80_0000);
  }

  /** A finite DOUBLE: eleven bits of exponent with bias 1023, 52 of fraction. */
  lemma DoubleValue(bits: nat)
    requires bits < 0x1_0000_0000_0000_0000
    ensures var r := RealOf(DOUBLE, bits);
            var exponent, fraction := bits / 0x10_0000_0000_0000 % 2048, bits % 0x10_0000_0000_0000;
            && r.negative == (bits >= 0x8000_0000_0000_0000)
            && (if exponent == 2047 then if fraction == 0 then r.Infinite? else r.NotANumber?
                else && r.Finite?
                     && (if exponent == 0 then 2 * fraction else (0x10_0000_0000_0000 + fraction) * Power2(exponent))
                        * Power2(r.scale) == r.mantissa * Power2(1075))
  {
    hide Power2, RealOf;
    PowersInNumbers();
    FieldsValue(DOUBLE, bits, bits >= 0x8000_0000_0000_0000, bits / 0x10_0000_0000_0000 % 2048,
                bits % 0x10_0000_0000_0000);
  }

  lemma Doubled(m: nat, shift: nat, scale: nat, mantissa: nat, unit: nat)
    requires m * Power2(shift) * Power2(scale) == mantissa * Power2(unit)
    ensures m * Power2(shift + 1) * Power2(scale) == mantissa * Power2(unit + 1)
    ensures shift == 0 ==> 2 * m * Power2(scale) == mantissa * Power2(unit + 1)
  {
    Double(m, shift);
    Double(mantissa, unit);
    var x, y := m * Power2(shift), Power2(scale);
    assert (2 * x) * y == 2 * (x * y);
    assert Power2(0) == 1;
  }
}
