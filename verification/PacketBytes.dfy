/**
 * What the bytes of a packet mean to the decoder, spelled out byte by byte, whoever encoded them.
 */
module PacketBytes {
  import opened Optional
  import opened WireFormat
  import opened RowCodec
  import Decimal
  import FloatText

  function At(p: bytes, i: nat): nat
    requires i < |p|
  {
    p[i] as int
  }

  /** Little-endian numbers. */
  lemma WordBytes(p: bytes, i: nat)
    ensures i + 1 <= |p| ==> Word(p, i, 1) == At(p, i)
    ensures i + 2 <= |p| ==> Word(p, i, 2) == At(p, i) + 256 * At(p, i + 1)
    ensures i + 3 <= |p| ==> Word(p, i, 3) == At(p, i) + 256 * At(p, i + 1) + 65536 * At(p, i + 2)
    ensures i + 4 <= |p| ==>
              Word(p, i, 4) == At(p, i) + 256 * At(p, i + 1) + 65536 * At(p, i + 2) + 16777216 * At(p, i + 3)
  {
    hide Word, At;
    if i + 1 <= |p| {
      UnsignedFirst(p, i, 1);
    }
    if i + 2 <= |p| {
      UnsignedFirst(p, i, 2);
      UnsignedFirst(p, i + 1, 1);
    }
    if i + 3 <= |p| {
      UnsignedFirst(p, i, 3);
      UnsignedFirst(p, i + 1, 2);
      UnsignedFirst(p, i + 2, 1);
    }
    if i + 4 <= |p| {
      UnsignedFirst(p, i, 4);
      UnsignedFirst(p, i + 1, 3);
      UnsignedFirst(p, i + 2, 2);
      UnsignedFirst(p, i + 3, 1);
    }
  }

  lemma UnsignedFirst(p: bytes, i: nat, k: nat)
    requires 0 < k && i + k <= |p|
    ensures Word(p, i, k) == At(p, i) + 256 * Word(p, i + 1, k - 1)
    ensures k == 1 ==> Word(p, i, k) == At(p, i)
  {
    assert p[i..i + k][1..] == p[i + 1..i + k];
  }

  lemma LongWordBytes(p: bytes, i: nat)
    requires i + 8 <= |p|
    ensures Word(p, i, 8) == Word(p, i, 4) + 4294967296 * Word(p, i + 4, 4)
  {
    hide Word;
    UnsignedFirst(p, i, 8);
    UnsignedFirst(p, i + 1, 7);
    UnsignedFirst(p, i + 2, 6);
    UnsignedFirst(p, i + 3, 5);
    WordBytes(p, i);
  }

  /** The first byte of a length tells its width; the four-byte form is eight bytes wide. */
  lemma LengthBytes(p: bytes, i: nat)
    requires i < |p|
    ensures var wide := if p[i] == 252 then 3 else if p[i] == 253 then 4 else if p[i] >= 254 then 9 else 1;
            if i + wide > |p| then LengthAt(p, i) == None
            else LengthAt(p, i) == Some(Parsed(
                   if p[i] < 251 then At(p, i)
                   else if p[i] == 251 then 0xFFFF_FFFF_FFFF_FFFF
                   else if p[i] == 252 then At(p, i + 1) + 256 * At(p, i + 2)
                   else if p[i] == 253 then At(p, i + 1) + 256 * At(p, i + 2) + 65536 * At(p, i + 3)
                   else At(p, i + 1) + 256 * At(p, i + 2) + 65536 * At(p, i + 3) + 16777216 * At(p, i + 4),
                   i + wide))
  {
    hide Word;
    WordBytes(p, i + 1);
  }

  lemma ShortLengthAt(p: bytes, i: nat)
    requires i < |p| && p[i] < 251
    ensures LengthAt(p, i) == Some(Parsed(At(p, i), i + 1))
  {
  }

  // ---- fields

  /** Integers: a TINY is unsigned, the wider ones are negative when the top bit of the last byte is set. */
  lemma IntegerBytes(p: bytes, i: nat)
    ensures i + 1 <= |p| ==> FieldAt(Tiny, p, i) == Some(Parsed(Decimal.Text(At(p, i)), i + 1))
    ensures i + 2 <= |p| ==>
              FieldAt(Short, p, i) == Some(Parsed(Decimal.Text(
                At(p, i) + 256 * At(p, i + 1) - if p[i + 1] >= 128 then 65536 else 0), i + 2))
    ensures i + 4 <= |p| ==>
              FieldAt(Long, p, i) == Some(Parsed(Decimal.Text(
                At(p, i) + 256 * At(p, i + 1) + 65536 * At(p, i + 2) + 16777216 * At(p, i + 3)
                - if p[i + 3] >= 128 then 4294967296 else 0), i + 4))
    ensures i + 8 <= |p| ==>
              FieldAt(LongLong, p, i) == Some(Parsed(Decimal.Text(
                At(p, i) + 256 * At(p, i + 1) + 65536 * At(p, i + 2) + 16777216 * At(p, i + 3)
                + 4294967296 * (At(p, i + 4) + 256 * At(p, i + 5) + 65536 * At(p, i + 6) + 16777216 * At(p, i + 7))
                - if p[i + 7] >= 128 then 18446744073709551616 else 0), i + 8))
  {
    hide Word, Decimal.Text;
    WordBytes(p, i);
    if i + 8 <= |p| {
      WordBytes(p, i + 4);
      LongWordBytes(p, i);
    }
  }

  /** A FLOAT or DOUBLE: the number of the little-endian pattern with six places, its first 31 or 63
      characters. */
  lemma RealBytes(p: bytes, i: nat)
    ensures i + 4 <= |p| ==>
              var bits := At(p, i) + 256 * At(p, i + 1) + 65536 * At(p, i + 2) + 16777216 * At(p, i + 3);
              Printed(FieldAt(Float, p, i), FloatText.SixPlaces(FloatText.RealOf(FloatText.SINGLE, bits)), 31, i + 4)
    ensures i + 8 <= |p| ==>
              var bits := At(p, i) + 256 * At(p, i + 1) + 65536 * At(p, i + 2) + 16777216 * At(p, i + 3)
                          + 4294967296 * (At(p, i + 4) + 256 * At(p, i + 5) + 65536 * At(p, i + 6)
                                          + 16777216 * At(p, i + 7));
              Printed(FieldAt(Double, p, i), FloatText.SixPlaces(FloatText.RealOf(FloatText.DOUBLE, bits)), 63, i + 8)
  {
    hide Word, FloatText.SixPlaces, FloatText.RealOf;
    WordBytes(p, i);
    if i + 8 <= |p| {
      WordBytes(p, i + 4);
      LongWordBytes(p, i);
    }
  }

  /** The first characters of the text come out, as many as there is room for. */
  predicate Printed(r: Option<Parsed<string>>, text: string, room: nat, next: nat) {
    && r.Some? && r.value.next == next
    && r.value.value == text[..if |text| < room then |text| else room]
  }

  /** yyyy-mm-dd */
  function DateOf(year: int, month: nat, day: nat): string {
    Decimal.Padded(4, year) + "-" + Decimal.Padded(2, month) + "-" + Decimal.Padded(2, day)
  }

  /** hh:mm:ss */
  function ClockOf(hour: int, minute: nat, second: nat): string {
    Decimal.Padded(2, hour) + ":" + Decimal.Padded(2, minute) + ":" + Decimal.Padded(2, second)
  }

  /** A small field shows itself; a large one is negative. */
  lemma Texts(tm: MysqlTime)
    requires tm.month < 256 && tm.day < 256 && tm.minute < 256 && tm.second < 256
    requires tm.year < TWO_32 && tm.hour < TWO_32
    ensures DateText(tm) == DateOf(if tm.year < 0x8000_0000 then tm.year else tm.year - TWO_32, tm.month, tm.day)
    ensures ClockText(tm) == ClockOf(if tm.hour < 0x8000_0000 then tm.hour else tm.hour - TWO_32, tm.minute, tm.second)
    ensures DateTimeText(tm) == DateText(tm) + " " + ClockText(tm)
  {
    hide Decimal.Padded;
  }

  function YearAt(p: bytes, i: nat): int
    requires i + 2 <= |p|
  {
    At(p, i) + 256 * At(p, i + 1) - if p[i + 1] >= 128 then 65536 else 0
  }

  lemma YearBytes(p: bytes, i: nat)
    requires i + 4 <= |p|
    ensures var tm, year := DateFields(p, i), YearAt(p, i);
            && tm == MysqlTime(if year < 0 then year + TWO_32 else year, At(p, i + 2), At(p, i + 3), 0, 0, 0)
            && -0x8000 <= year < 0x8000
  {
    hide Word;
    WordBytes(p, i);
  }

  lemma Zeros()
    ensures Decimal.Padded(2, 0) == "00" && Decimal.Padded(4, 0) == "0000"
  {
    assert Decimal.Digits(0) == "0";
    assert Decimal.ZeroFill(2, "0") == Decimal.ZeroFill(2, "00") == "00";
    assert Decimal.ZeroFill(4, "00") == Decimal.ZeroFill(4, "000") == Decimal.ZeroFill(4, "0000");
  }

  /** The zero date and the zero clock. */
  lemma ZeroTexts()
    ensures DateOf(0, 0, 0) == "0000-00-00" && ClockOf(0, 0, 0) == "00:00:00"
  {
    Zeros();
    hide Decimal.Padded;
    assert "0000" + "-" + "00" + "-" + "00" == "0000-00-00";
    assert "00" + ":" + "00" + ":" + "00" == "00:00:00";
  }

  lemma DateStruct(p: bytes, i: nat)
    requires i < |p| && p[i] < 251
    ensures p[i] == 0 ==> DateAt(p, i) == Some(Parsed(ZERO_TIME, i + 1))
    ensures p[i] > 0 && i + 5 <= |p| && i + 1 + At(p, i) <= |p| ==>
              DateAt(p, i) == Some(Parsed(DateFields(p, i + 1), i + 1 + At(p, i)))
  {
    ShortLengthAt(p, i);
    hide LengthAt, DateFields;
  }

  lemma TimeStruct(p: bytes, i: nat)
    requires i < |p| && p[i] < 251
    ensures p[i] == 0 ==> TimeAt(p, i) == Some(Parsed(ZERO_TIME, i + 1))
    ensures p[i] > 0 && i + (if p[i] > 8 then 13 else 9) <= |p| && i + 1 + At(p, i) <= |p| ==>
              TimeAt(p, i) == Some(Parsed(MysqlTime(0, 0, 0, (At(p, i + 6) + 24 * Word(p, i + 2, 4)) % TWO_32,
                                                    At(p, i + 7), At(p, i + 8)), i + 1 + At(p, i)))
  {
    ShortLengthAt(p, i);
    hide LengthAt, Word;
  }

  lemma DateTimeStruct(p: bytes, i: nat)
    requires i < |p| && p[i] < 251
    ensures p[i] == 0 ==> DateTimeAt(p, i) == Some(Parsed(ZERO_TIME, i + 1))
    ensures p[i] > 0 && i + 1 + At(p, i) <= |p|
            && i + (if p[i] > 7 then 12 else if p[i] > 4 then 8 else 5) <= |p| ==>
              var date := DateFields(p, i + 1);
              DateTimeAt(p, i) == Some(Parsed(
                if p[i] > 4 then date.(hour := At(p, i + 5), minute := At(p, i + 6), second := At(p, i + 7)) else date,
                i + 1 + At(p, i)))
  {
    ShortLengthAt(p, i);
    hide LengthAt, DateFields;
  }

  lemma TemporalFields(p: bytes, i: nat, tm: MysqlTime, next: nat)
    ensures DateAt(p, i) == Some(Parsed(tm, next)) ==> FieldAt(Date, p, i) == Some(Parsed(DateText(tm), next))
    ensures TimeAt(p, i) == Some(Parsed(tm, next)) ==> FieldAt(Time, p, i) == Some(Parsed(ClockText(tm), next))
    ensures DateTimeAt(p, i) == Some(Parsed(tm, next)) ==>
              FieldAt(Datetime, p, i) == FieldAt(Timestamp, p, i) == Some(Parsed(DateTimeText(tm), next))
  {
    hide DateAt, TimeAt, DateTimeAt, DashedDate, Clock;
  }

  /** A DATE: length, year in two bytes, month, day; the length alone for the zero date. */
  lemma DateBytes(p: bytes, i: nat)
    requires i < |p| && p[i] < 251
    ensures p[i] == 0 ==> FieldAt(Date, p, i) == Some(Parsed(DateOf(0, 0, 0), i + 1))
    ensures p[i] > 0 && i + 5 <= |p| && i + 1 + At(p, i) <= |p| ==>
              FieldAt(Date, p, i) == Some(Parsed(
                DateOf(YearAt(p, i + 1), At(p, i + 3), At(p, i + 4)), i + 1 + At(p, i)))
  {
    hide FieldAt, DateText, DateAt, DateFields, DateOf, YearAt;
    DateStruct(p, i);
    if p[i] == 0 {
      TemporalFields(p, i, ZERO_TIME, i + 1);
      Texts(ZERO_TIME);
    } else if i + 5 <= |p| {
      TemporalFields(p, i, DateFields(p, i + 1), i + 1 + At(p, i));
      YearBytes(p, i + 1);
      Texts(DateFields(p, i + 1));
    }
  }

  /** A TIME: length, sign, days in four bytes, hours, minutes, seconds, fraction; the length alone for
      zero.  The sign and the fraction are not looked at, and the days are folded into the hours, which
      are a signed 32-bit number. */
  lemma TimeBytes(p: bytes, i: nat)
    requires i < |p| && p[i] < 251
    ensures p[i] == 0 ==> FieldAt(Time, p, i) == Some(Parsed(ClockOf(0, 0, 0), i + 1))
    ensures p[i] > 0 && i + (if p[i] > 8 then 13 else 9) <= |p| && i + 1 + At(p, i) <= |p| ==>
              var hours := (At(p, i + 6) + 24 * (At(p, i + 2) + 256 * At(p, i + 3) + 65536 * At(p, i + 4)
                                                 + 16777216 * At(p, i + 5))) % 4294967296;
              FieldAt(Time, p, i) == Some(Parsed(
                ClockOf(if hours < 2147483648 then hours else hours - 4294967296, At(p, i + 7), At(p, i + 8)),
                i + 1 + At(p, i)))
  {
    hide FieldAt, ClockText, TimeAt, ClockOf, Word;
    TimeStruct(p, i);
    if p[i] == 0 {
      TemporalFields(p, i, ZERO_TIME, i + 1);
      Texts(ZERO_TIME);
    } else if i + 9 <= |p| {
      WordBytes(p, i + 2);
      var tm := MysqlTime(0, 0, 0, (At(p, i + 6) + 24 * Word(p, i + 2, 4)) % TWO_32, At(p, i + 7), At(p, i + 8));
      TemporalFields(p, i, tm, i + 1 + At(p, i));
      Texts(tm);
    }
  }

  /** A DATETIME or TIMESTAMP: length, year in two bytes, month, day, and if it is longer than four
      hours, minutes, seconds; the length alone for zero. */
  lemma DateTimeBytes(t: ColumnType, p: bytes, i: nat)
    requires (t.Datetime? || t.Timestamp?) && i < |p| && p[i] < 251
    ensures p[i] == 0 ==> FieldAt(t, p, i) == Some(Parsed(DateOf(0, 0, 0) + " " + ClockOf(0, 0, 0), i + 1))
    ensures p[i] > 0 && i + 1 + At(p, i) <= |p|
            && i + (if p[i] > 7 then 12 else if p[i] > 4 then 8 else 5) <= |p| ==>
              FieldAt(t, p, i) == Some(Parsed(
                DateOf(YearAt(p, i + 1), At(p, i + 3), At(p, i + 4)) + " "
                + (if p[i] > 4 then ClockOf(At(p, i + 5), At(p, i + 6), At(p, i + 7)) else ClockOf(0, 0, 0)),
                i + 1 + At(p, i)))
  {
    hide FieldAt, DateText, ClockText, DateTimeText, DateTimeAt, DateFields, DateOf, ClockOf, YearAt;
    DateTimeStruct(p, i);
    if p[i] == 0 {
      TemporalFields(p, i, ZERO_TIME, i + 1);
      Texts(ZERO_TIME);
    } else if i + 5 <= |p| && (p[i] > 4 ==> i + 8 <= |p|) {
      YearBytes(p, i + 1);
      var date := DateFields(p, i + 1);
      var tm := if p[i] > 4 then date.(hour := At(p, i + 5), minute := At(p, i + 6), second := At(p, i + 7)) else date;
      TemporalFields(p, i, tm, i + 1 + At(p, i));
      Texts(tm);
    }
  }

  /** Any other type: a length, and as many bytes, each one character. */
  lemma TextBytes(t: ColumnType, p: bytes, i: nat)
    requires t in {LengthPrefixed, Int24, Year} && i < |p| && p[i] < 251
    ensures var r, n := FieldAt(t, p, i), At(p, i);
            if i + 1 + n > |p| then r == None
            else && r.Some? && r.value.next == i + 1 + n && |r.value.value| == n
                 && forall k :: 0 <= k < n ==> r.value.value[k] as int == At(p, i + 1 + k)
  {
  }

  // ---- the header

  const BITS: seq<nat> := [1, 2, 4, 8, 16, 32, 64, 128]

  /** The NULL flag of a column: the first two bits of the packet are no flags. */
  lemma NullFlag(p: bytes, column: nat)
    requires (column + 2) / 8 < |p|
    ensures NullAt(p, column) <==> At(p, (column + 2) / 8) / BITS[(column + 2) % 8] % 2 == 1
  {
    assert Bit(1) == 2 && Bit(2) == 4 && Bit(3) == 8 && Bit(4) == 16 && Bit(5) == 32 && Bit(6) == 64 && Bit(7) == 128;
  }

  /** The header is the fewest bytes that hold two bits and one for each column. */
  lemma HeaderIsLeast(row: Row)
    ensures var h, n := |Bitmap(row)|, |row|; 8 * h >= n + 2 && 8 * (h - 1) < n + 2
  {
  }

  /** The first field follows it. */
  lemma FieldsFollowHeader(types: seq<ColumnType>, p: bytes)
    ensures DecodeRow(types, p) ==
            if (|types| + 9) / 8 > |p| then None else CellsFrom(types, p, 0, (|types| + 9) / 8)
  {
  }

  /** A packet of TINY columns without a NULL: byte by byte behind the header. */
  lemma TinyRow(types: seq<ColumnType>, p: bytes)
    requires forall t :: t in types ==> t == Tiny
    requires |p| == (|types| + 9) / 8 + |types| && forall j :: 0 <= j < |types| ==> !NullAt(p, j)
    ensures var r := DecodeRow(types, p);
            && r.Some? && r.value.next == |p|
            && forall j :: 0 <= j < |types| ==> r.value.value[j] == Some(Decimal.Text(At(p, (|types| + 9) / 8 + j)))
  {
    FieldsFollowHeader(types, p);
    TinyCells(types, p, 0, (|types| + 9) / 8);
  }

  lemma {:induction false} TinyCells(types: seq<ColumnType>, p: bytes, j: nat, i: nat)
    requires forall t :: t in types ==> t == Tiny
    requires (|types| + 9) / 8 <= |p| && j <= |types| && i + (|types| - j) <= |p|
    requires forall c :: 0 <= c < |types| ==> !NullAt(p, c)
    ensures var r := CellsFrom(types, p, j, i);
            && r.Some? && r.value.next == i + (|types| - j)
            && forall k :: 0 <= k < |types| - j ==> r.value.value[k] == Some(Decimal.Text(At(p, i + k)))
    decreases |types| - j
  {
    hide NullAt, Decimal.Text, FieldAt;
    if j < |types| {
      assert types[j] in types;
      IntegerBytes(p, i);
      TinyCells(types, p, j + 1, i + 1);
      var rest, r := CellsFrom(types, p, j + 1, i + 1), CellsFrom(types, p, j, i);
      assert r == Some(Parsed([Some(Decimal.Text(At(p, i)))] + rest.value.value, rest.value.next));
      hide CellsFrom;
    }
  }

  // ---- how long a row is

  /** The bytes of a field. */
  function Width(t: ColumnType, v: Value): nat
    requires Fits(t, v)
  {
    match t
    case Tiny => 1
    case Short => 2
    case Long => 4
    case LongLong => 8
    case Float => 4
    case Double => 8
    case Date => if v.year == 0 && v.month == 0 && v.day == 0 then 1 else 5
    case Time => if ZeroTime(v) then 1 else if v.micros == 0 then 9 else 13
    case Int24 => 4
    case Year => 2
    case LengthPrefixed =>
      |v.b| + if |v.b| < 251 then 1 else if |v.b| < 0x1_0000 then 3 else if |v.b| < 0x100_0000 then 4 else 9
    case _ =>
      if v.micros != 0 then 12
      else if v.hour != 0 || v.minute != 0 || v.second != 0 then 8
      else if v.year != 0 || v.month != 0 || v.day != 0 then 5
      else 1
  }

  function Widths(types: seq<ColumnType>, row: Row, j: nat): nat
    requires RowFits(types, row) && j <= |row|
    decreases |row| - j
  {
    if j == |row| then 0
    else (if row[j].Some? then Width(types[j], row[j].value) else 0) + Widths(types, row, j + 1)
  }

  lemma FieldWidth(t: ColumnType, v: Value)
    requires Fits(t, v)
    ensures |Encode(t, v)| == Width(t, v)
  {
    hide LittleEndian;
  }

  lemma {:induction false} FieldWidths(types: seq<ColumnType>, row: Row, j: nat)
    requires RowFits(types, row) && j <= |row|
    ensures |EncodeFrom(types, row, j)| == Widths(types, row, j)
    decreases |row| - j
  {
    hide Encode, Width, Fits;
    if j < |row| {
      FieldWidths(types, row, j + 1);
      if row[j].Some? {
        FieldWidth(types[j], row[j].value);
      }
    }
  }

  /** A row's packet is the header and its fields that are not NULL, and decoding it reads all of it. */
  lemma RowWidth(types: seq<ColumnType>, row: Row)
    requires RowFits(types, row) && RowDecodes(types, row)
    ensures |EncodeRow(types, row)| == (|types| + 9) / 8 + Widths(types, row, 0)
    ensures var r := DecodeRow(types, EncodeRow(types, row));
            r.Some? && r.value.next == (|types| + 9) / 8 + Widths(types, row, 0)
  {
    FieldWidths(types, row, 0);
    RowRoundTrip(types, row);
    hide DecodeRow, EncodeFrom, Widths;
  }
}
