/** Decimal text as printf writes it (%d and %0wd), and reading it back. */
module Decimal {
  function Digit(d: nat): char
    requires d < 10
  {
    (d + 48) as char
  }

  function Digits(n: nat): (s: string)
    ensures s != []
    ensures forall i :: 0 <= i < |s| ==> '0' <= s[i] <= '9'
    ensures |s| == 1 ==> n < 10
  {
    if n < 10 then [Digit(n)] else Digits(n / 10) + [Digit(n % 10)]
  }

  /** %d */
  function Text(v: int): (s: string)
    ensures s != []
    ensures forall i :: 0 <= i < |s| ==> '0' <= s[i] <= '9' || s[i] == '-'
    ensures |s| == 1 ==> 0 <= v < 10
  {
    if v < 0 then "-" + Digits(-v) else Digits(v)
  }

  function ZeroFill(width: nat, s: string): (r: string)
    ensures |r| == if |s| < width then width else |s|
    ensures (forall i :: 0 <= i < |s| ==> '0' <= s[i] <= '9') ==> forall i :: 0 <= i < |r| ==> '0' <= r[i] <= '9'
    decreases width - |s|
  {
    if |s| < width then ZeroFill(width, "0" + s) else s
  }

  /** %0wd */
  function Padded(width: nat, v: int): (s: string)
    ensures s != []
    ensures forall i :: 0 <= i < |s| ==> '0' <= s[i] <= '9' || (v < 0 && s[i] == '-')
  {
    if v < 0 then "-" + ZeroFill(if width > 0 then width - 1 else 0, Digits(-v)) else ZeroFill(width, Digits(v))
  }

  function ParseDigits(s: string): nat
    requires forall i :: 0 <= i < |s| ==> '0' <= s[i] <= '9'
  {
    if s == [] then 0 else 10 * ParseDigits(s[..|s| - 1]) + (s[|s| - 1] as int - 48)
  }

  function Parse(s: string): int
    requires s != [] && forall i :: 0 <= i < |s| ==> '0' <= s[i] <= '9' || (i == 0 && s[i] == '-')
  {
    if s[0] == '-' then 0 - ParseDigits(s[1..]) else ParseDigits(s)
  }

  lemma {:induction false} DigitsParse(n: nat)
    ensures ParseDigits(Digits(n)) == n
  {
    var s := Digits(n);
    if n >= 10 {
      DigitsParse(n / 10);
      assert s[..|s| - 1] == Digits(n / 10);
    } else {
      assert s[..0] == [];
    }
  }

  /** Rendering loses nothing. */
  lemma TextParses(v: int)
    ensures forall i :: 0 <= i < |Text(v)| ==> '0' <= Text(v)[i] <= '9' || (i == 0 && Text(v)[i] == '-')
    ensures Parse(Text(v)) == v
  {
    if v < 0 {
      DigitsParse(-v);
      assert Text(v)[1..] == Digits(-v);
    } else {
      DigitsParse(v);
    }
  }

  predicate AllDigits(s: string) {
    forall i :: 0 <= i < |s| ==> '0' <= s[i] <= '9'
  }

  lemma {:induction false} LeadingZero(s: string)
    requires AllDigits(s)
    ensures AllDigits("0" + s) && ParseDigits("0" + s) == ParseDigits(s)
  {
    var t := "0" + s;
    if s == [] {
      assert t[..0] == [];
    } else {
      LeadingZero(s[..|s| - 1]);
      assert t[..|t| - 1] == "0" + s[..|s| - 1];
    }
  }

  /** Zero filling keeps the number. */
  lemma {:induction false} ZeroFillParses(width: nat, s: string)
    requires AllDigits(s)
    ensures AllDigits(ZeroFill(width, s)) && ParseDigits(ZeroFill(width, s)) == ParseDigits(s)
    decreases width - |s|
  {
    if |s| < width {
      LeadingZero(s);
      ZeroFillParses(width, "0" + s);
    }
  }

  /** Padding a number keeps it, and makes it as wide as asked, or as wide as it is. */
  lemma PaddedParses(width: nat, v: nat)
    ensures var s := Padded(width, v);
            AllDigits(s) && ParseDigits(s) == v && |s| == if |Digits(v)| < width then width else |Digits(v)|
  {
    DigitsParse(v);
    ZeroFillParses(width, Digits(v));
  }

  lemma DigitsAllDigits(n: nat)
    ensures AllDigits(Digits(n))
  {
  }

  lemma MinusInFront(width: nat, v: nat)
    requires v > 0 && width > 0
    ensures Padded(width, 0 - v) == ['-'] + ZeroFill(width - 1, Digits(v))
    ensures Padded(width, 0 - v)[1..] == ZeroFill(width - 1, Digits(v))
  {
    hide ZeroFill, Digits;
  }

  /** The same of a negative number, its sign in front. */
  lemma PaddedNegative(width: nat, v: nat)
    requires v > 0 && width > 0
    ensures var s := Padded(width, 0 - v);
            && s[0] == '-' && AllDigits(s[1..]) && ParseDigits(s[1..]) == v
            && |s| == if |Digits(v)| + 1 < width then width else |Digits(v)| + 1
  {
    hide Padded, ZeroFill, Digits, ParseDigits, AllDigits;
    DigitsParse(v);
    assert AllDigits(Digits(v)) by {
      DigitsAllDigits(v);
    }
    ZeroFillParses(width - 1, Digits(v));
    MinusInFront(width, v);
  }

  lemma TextInjective(v: int, w: int)
    requires Text(v) == Text(w)
    ensures v == w
  {
    TextParses(v);
    TextParses(w);
  }

  function Power10(k: nat): (p: nat)
    ensures p > 0
  {
    if k == 0 then 1 else 10 * Power10(k - 1)
  }

  lemma {:induction false} DigitsLength(n: nat, k: nat)
    requires k > 0
    ensures |Digits(n)| <= k <==> n < Power10(k)
  {
    assert Power10(k) == 10 * Power10(k - 1) && Power10(k - 1) > 0 && Power10(0) == 1;
    if n >= 10 && k > 1 {
      DigitsLength(n / 10, k - 1);
    }
  }
}
