/**
 * How the texts of MySQL's temporal and floating point columns are laid out: reading them back at
 * fixed places gives the numbers they were made of.
 */
module TextLayout {
  import opened Decimal
  import opened RowCodec
  import FloatText

  /** The digits from one place to another spell n. */
  predicate Spells(s: string, from: nat, to: nat, n: nat) {
    from < to <= |s| && AllDigits(s[from..to]) && ParseDigits(s[from..to]) == n
  }

  /** Three numbers with the separator between them, the last two of two digits each. */
  predicate ThreeNumbers(s: string, sep: char, a: nat, b: nat, c: nat) {
    var w := |s| - 6;
    && w > 0
    && Spells(s, 0, w, a) && s[w] == sep && Spells(s, w + 1, w + 3, b)
    && s[w + 3] == sep && Spells(s, w + 4, w + 6, c)
  }

  /** The sections of a text put together from a, a separator, b and c. */
  lemma Sections(a: string, sep: char, b: string, c: string)
    ensures var s, i, j := a + [sep] + b + c, |a|, |a| + 1 + |b|;
            s[..i] == a && s[0..i] == a && s[i] == sep && s[i + 1..j] == b && s[j..] == c
  {
  }

  lemma Three(sep: char, x: string, y: string, z: string)
    requires AllDigits(x) && AllDigits(y) && AllDigits(z) && x != [] && |y| == |z| == 2
    ensures ThreeNumbers(x + [sep] + y + [sep] + z, sep, ParseDigits(x), ParseDigits(y), ParseDigits(z))
  {
    hide ParseDigits, AllDigits;
    var s, w := x + [sep] + y + [sep] + z, |x|;
    Sections(x, sep, y, [sep] + z);
    assert s == x + [sep] + y + ([sep] + z);
    Sections(x + [sep] + y, sep, z, []);
    assert s == x + [sep] + y + [sep] + z + [];
  }

  lemma TwoDigits(n: nat)
    requires n < 100
    ensures |Digits(n)| <= 2
  {
    assert Power10(2) == 100 by { assert Power10(1) == 10; }
    DigitsLength(n, 2);
  }

  lemma FourDigits(n: nat)
    requires n < 10_000
    ensures |Digits(n)| <= 4
  {
    assert Power10(4) == 10_000 by { assert Power10(2) == 100; }
    DigitsLength(n, 4);
  }

  /** yyyy-mm-dd, the year as wide as it needs to be, at least four digits. */
  lemma DateReadsBack(year: nat, month: nat, day: nat)
    requires month < 100 && day < 100
    ensures var s := DashedDate(year, month, day);
            ThreeNumbers(s, '-', year, month, day) && |s| >= 10 && (year < 10_000 ==> |s| == 10)
  {
    PaddedParses(4, year);
    PaddedParses(2, month);
    PaddedParses(2, day);
    TwoDigits(month);
    TwoDigits(day);
    if year < 10_000 {
      FourDigits(year);
    }
    hide Padded, ThreeNumbers;
    Three('-', Padded(4, year), Padded(2, month), Padded(2, day));
  }

  /** hh:mm:ss, the hours as wide as they need to be, at least two digits. */
  lemma ClockReadsBack(hour: nat, minute: nat, second: nat)
    requires minute < 100 && second < 100
    ensures var s := Clock(hour, minute, second);
            ThreeNumbers(s, ':', hour, minute, second) && |s| >= 8 && (hour < 100 ==> |s| == 8)
  {
    PaddedParses(2, hour);
    PaddedParses(2, minute);
    PaddedParses(2, second);
    TwoDigits(minute);
    TwoDigits(second);
    if hour < 100 {
      TwoDigits(hour);
    }
    hide Padded, ThreeNumbers;
    Three(':', Padded(2, hour), Padded(2, minute), Padded(2, second));
  }

  /** The text of each temporal value, its fields where they belong: yyyy-mm-dd hh:mm:ss. */
  lemma TemporalTexts(tm: MysqlTime)
    requires tm.year < 0x8000 && tm.month < 100 && tm.day < 100
    requires tm.hour < 0x8000_0000 && tm.minute < 100 && tm.second < 100
    ensures ThreeNumbers(DateText(tm), '-', tm.year, tm.month, tm.day)
    ensures ThreeNumbers(ClockText(tm), ':', tm.hour, tm.minute, tm.second)
    ensures var s, w := DateTimeText(tm), |DateText(tm)|;
            w >= 10 && s[..w] == DateText(tm) && s[w] == ' ' && s[w + 1..] == ClockText(tm)
  {
    DateReadsBack(tm.year, tm.month, tm.day);
    ClockReadsBack(tm.hour, tm.minute, tm.second);
    hide DashedDate, Clock, ThreeNumbers;
  }

  /** A fraction of a second: a point and six digits, or nothing. */
  lemma FractionReadsBack(micros: nat)
    requires micros < 1_000_000
    ensures var s := Fraction(micros);
            if micros == 0 then s == "" else |s| == 7 && s[0] == '.' && Spells(s, 1, 7, micros)
  {
    if micros != 0 {
      assert Power10(6) == 1_000_000 by { assert Power10(3) == 1000; }
      DigitsLength(micros, 6);
      DigitsParse(micros);
      ZeroFillParses(6, Digits(micros));
      assert Fraction(micros)[1..7] == ZeroFill(6, Digits(micros));
    }
  }

  /** The own text of every temporal value: date, blank, clock with the days folded into the hours, and
      fraction; a minus sign in front of a TIME that is negative and not zero. */
  lemma OwnTemporalTexts(t: ColumnType, v: Value)
    requires Fits(t, v)
    ensures v.DateValue? ==>
              OwnText(t, v) == Padded(4, v.year) + "-" + Padded(2, v.month as int) + "-" + Padded(2, v.day as int)
    ensures v.TimeValue? ==>
              OwnText(t, v) == (if v.negative && !ZeroTime(v) then "-" else "")
                               + (Padded(2, 24 * v.days + v.hour as int) + ":" + Padded(2, v.minute as int)
                                  + ":" + Padded(2, v.second as int))
                               + Fraction(v.micros)
    ensures v.DateTimeValue? ==>
              OwnText(t, v) == (Padded(4, v.year) + "-" + Padded(2, v.month as int) + "-" + Padded(2, v.day as int))
                               + " "
                               + (Padded(2, v.hour as int) + ":" + Padded(2, v.minute as int)
                                  + ":" + Padded(2, v.second as int))
                               + Fraction(v.micros)
  {
    hide Padded, Fraction, FloatText.RealOf, FloatText.ExactText, Text, ToChars;
  }
}
