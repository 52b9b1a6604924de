/**
 * Rows of a MySQL binary result set ("Binary Protocol Resultset Row"): how the server
 * encodes them, how the driver decodes them into text, and that the second undoes the first.
 */
module RowCodec {
  import opened Optional
  import opened WireFormat
  import Decimal
  import FloatText

  /** The column types the decoder tells apart.  Int24 and Year have no case of their own there;
      LengthPrefixed stands for every type whose values carry their length. */
  datatype ColumnType =
    | Tiny | Short | Long | LongLong
    | Float | Double
    | Timestamp | Datetime | Time | Date
    | Int24 | Year
    | LengthPrefixed

  datatype Value =
    | Integer(v: int)
    | RealValue(bits: nat)
    | DateValue(year: nat, month: byte, day: byte)
    | DateTimeValue(year: nat, month: byte, day: byte, hour: byte, minute: byte, second: byte, micros: nat)
    | TimeValue(negative: bool, days: nat, hour: byte, minute: byte, second: byte, micros: nat)
    | Bytes(b: bytes)

  type Row = seq<Option<Value>>

  // ---- decoding, as the driver does it

  /** The fields of MYSQL_TIME that are ever shown. */
  datatype MysqlTime = MysqlTime(year: nat, month: nat, day: nat, hour: nat, minute: nat, second: nat)

  const ZERO_TIME := MysqlTime(0, 0, 0, 0, 0, 0)

  function ToChars(b: bytes): (s: string)
    ensures |s| == |b| && forall i :: 0 <= i < |b| ==> s[i] as int == b[i] as int
  {
    seq(|b|, i requires 0 <= i < |b| => b[i] as int as char)
  }

  function TimeAt(p: bytes, i: nat): Option<Parsed<MysqlTime>> {
    var l := LengthAt(p, i);
    if l.None? then None
    else
      var length, to := l.value.value % TWO_32, l.value.next;
      if length == 0 then Some(Parsed(ZERO_TIME, to))
      else if to + (if length > 8 then 12 else 8) > |p| || to + length > |p| then None
      else
        var hour := (p[to + 5] as int + 24 * Word(p, to + 1, 4)) % TWO_32;
        Some(Parsed(MysqlTime(0, 0, 0, hour, p[to + 6] as int, p[to + 7] as int), to + length))
  }

  function DateTimeAt(p: bytes, i: nat): Option<Parsed<MysqlTime>> {
    var l := LengthAt(p, i);
    if l.None? then None
    else
      var length, to := l.value.value % TWO_32, l.value.next;
      if length == 0 then Some(Parsed(ZERO_TIME, to))
      else if to + (if length > 7 then 11 else if length > 4 then 7 else 4) > |p| || to + length > |p| then None
      else
        var date := DateFields(p, to);
        Some(Parsed(if length > 4
                    then date.(hour := p[to + 4] as int, minute := p[to + 5] as int, second := p[to + 6] as int)
                    else date, to + length))
  }

  function DateAt(p: bytes, i: nat): Option<Parsed<MysqlTime>> {
    var l := LengthAt(p, i);
    if l.None? then None
    else
      var length, to := l.value.value % TWO_32, l.value.next;
      if length == 0 then Some(Parsed(ZERO_TIME, to))
      else if to + 4 > |p| || to + length > |p| then None
      else Some(Parsed(DateFields(p, to), to + length))
  }

  /** The year is read as a signed 16-bit number and kept in an unsigned 32-bit one. */
  function DateFields(p: bytes, to: nat): MysqlTime
    requires to + 4 <= |p|
  {
    MysqlTime(Pattern(Signed(Word(p, to, 2), TWO_16), TWO_32), p[to + 2] as int, p[to + 3] as int, 0, 0, 0)
  }

  function Clock(h: int, m: int, s: int): string {
    Decimal.Padded(2, h) + ":" + Decimal.Padded(2, m) + ":" + Decimal.Padded(2, s)
  }

  function DashedDate(y: int, m: int, d: int): string {
    Decimal.Padded(4, y) + "-" + Decimal.Padded(2, m) + "-" + Decimal.Padded(2, d)
  }

  /** %d shows an unsigned 32-bit field as a signed number. */
  function AsInt(n: nat): int {
    Signed(n, TWO_32)
  }

  function ClockText(tm: MysqlTime): string {
    Clock(AsInt(tm.hour), AsInt(tm.minute), AsInt(tm.second))
  }

  function DateText(tm: MysqlTime): string {
    DashedDate(AsInt(tm.year), AsInt(tm.month), AsInt(tm.day))
  }

  function DateTimeText(tm: MysqlTime): string {
    DateText(tm) + " " + ClockText(tm)
  }

  function IntegerAt(p: bytes, i: nat, width: nat, full: nat): Option<Parsed<string>> {
    if i + width <= |p| then Some(Parsed(Decimal.Text(Signed(Word(p, i, width), full)), i + width)) else None
  }

  /** A floating point number, printed with six places into a buffer of `limit`. */
  function RealAt(p: bytes, i: nat, width: nat, format: FloatText.Format, limit: nat): Option<Parsed<string>>
    requires format.exponent > 1 && limit > 0
  {
    if i + width <= |p| then Some(Parsed(RealText(format, Word(p, i, width), limit), i + width)) else None
  }

  function RealText(format: FloatText.Format, bits: nat, limit: nat): (s: string)
    requires format.exponent > 1 && limit > 0
    ensures '\0' !in s
  {
    FloatText.Limited(FloatText.SixPlaces(FloatText.RealOf(format, bits)), limit)
  }

  function BytesAt(p: bytes, i: nat): Option<Parsed<string>> {
    var l := LengthAt(p, i);
    if l.None? || l.value.next + l.value.value > |p| then None
    else
      var end := l.value.next + l.value.value;
      Some(Parsed(ToChars(p[l.value.next..end]), end))
  }

  function Rendered(tm: Option<Parsed<MysqlTime>>, render: MysqlTime -> string): Option<Parsed<string>> {
    if tm.None? then None else Some(Parsed(render(tm.value.value), tm.value.next))
  }

  /** The text of one field that is not NULL, and the position behind it; None when the decoder
      would leave the packet. */
  function FieldAt(t: ColumnType, p: bytes, i: nat): (r: Option<Parsed<string>>)
    ensures r.Some? ==> r.value.next <= |p|
  {
    match t
    case Tiny => if i < |p| then Some(Parsed(Decimal.Text(p[i] as int), i + 1)) else None
    case Short => IntegerAt(p, i, 2, TWO_16)
    case Long => IntegerAt(p, i, 4, TWO_32)
    case LongLong => IntegerAt(p, i, 8, TWO_64)
    case Float => RealAt(p, i, 4, FloatText.SINGLE, 32)
    case Double => RealAt(p, i, 8, FloatText.DOUBLE, 64)
    case Timestamp => Rendered(DateTimeAt(p, i), DateTimeText)
    case Datetime => Rendered(DateTimeAt(p, i), DateTimeText)
    case Time => Rendered(TimeAt(p, i), ClockText)
    case Date => Rendered(DateAt(p, i), DateText)
    case _ => BytesAt(p, i)
  }

  function Bit(b: nat): (bit: nat)
    ensures bit > 0
  {
    if b == 0 then 1 else 2 * Bit(b - 1)
  }

  lemma BitTable()
    ensures Bit(7) == 128 && Bit(8) == 256
  {
    assert Bit(2) == 4 && Bit(4) == 16 && Bit(6) == 64;
  }

  /** Bytewise and with a single bit. */
  predicate TestBit(x: byte, bit: nat)
    requires bit > 0
  {
    (x as int / bit) % 2 == 1
  }

  function HeaderSize(columns: nat): nat {
    (columns + 9) / 8
  }

  /** NULL flags start at bit 2 of the first byte. */
  predicate NullAt(p: bytes, column: nat)
    requires (column + 2) / 8 < |p|
  {
    TestBit(p[(column + 2) / 8], Bit((column + 2) % 8))
  }

  function CellsFrom(types: seq<ColumnType>, p: bytes, j: nat, i: nat): (r: Option<Parsed<seq<Option<string>>>>)
    requires j <= |types| && HeaderSize(|types|) <= |p|
    ensures r.Some? ==> |r.value.value| == |types| - j
    decreases |types| - j
  {
    if j == |types| then Some(Parsed([], i))
    else if NullAt(p, j) then
      var rest := CellsFrom(types, p, j + 1, i);
      if rest.None? then None else Some(Parsed([None] + rest.value.value, rest.value.next))
    else
      var field := FieldAt(types[j], p, i);
      if field.None? then None
      else
        var rest := CellsFrom(types, p, j + 1, field.value.next);
        if rest.None? then None else Some(Parsed([Some(field.value.value)] + rest.value.value, rest.value.next))
  }

  /** The texts and NULLs of a row, and the position where decoding ends. */
  function DecodeRow(types: seq<ColumnType>, p: bytes): (r: Option<Parsed<seq<Option<string>>>>)
    ensures r.Some? ==> |r.value.value| == |types|
  {
    if HeaderSize(|types|) > |p| then None else CellsFrom(types, p, 0, HeaderSize(|types|))
  }

  // ---- encoding, as the protocol has it

  /** Which values a column of the type holds; an integer column may be signed or unsigned. */
  predicate Fits(t: ColumnType, v: Value) {
    match t
    case Tiny => v.Integer? && -128 <= v.v < 256
    case Short => v.Integer? && -0x8000 <= v.v < TWO_16
    case Long => v.Integer? && -0x8000_0000 <= v.v < TWO_32
    case LongLong => v.Integer? && -0x8000_0000_0000_0000 <= v.v < TWO_64
    case Float => v.RealValue? && v.bits < TWO_32
    case Double => v.RealValue? && v.bits < TWO_64
    case Timestamp => v.DateTimeValue? && v.year < 0x8000 && v.micros < 1_000_000
    case Datetime => v.DateTimeValue? && v.year < 0x8000 && v.micros < 1_000_000
    case Time => v.TimeValue? && 24 * v.days + v.hour as int < 0x8000_0000 && v.micros < 1_000_000
    case Date => v.DateValue? && v.year < 0x8000
    case Int24 => v.Integer? && -0x80_0000 <= v.v < TWO_24
    case Year => v.Integer? && 0 <= v.v < TWO_16
    case LengthPrefixed => v.Bytes? && |v.b| < TWO_32
  }

  function EncodeDateTime(v: Value): bytes
    requires v.DateTimeValue?
  {
    var date := LittleEndian(2, v.year) + [v.month, v.day];
    var clock := [v.hour, v.minute, v.second];
    if v == DateTimeValue(0, 0, 0, 0, 0, 0, 0) then [0]
    else if clock == [0, 0, 0] && v.micros == 0 then [4] + date
    else if v.micros == 0 then [7] + date + clock
    else [11] + date + clock + LittleEndian(4, v.micros)
  }

  predicate ZeroTime(v: Value)
    requires v.TimeValue?
  {
    v.days == 0 && v.hour == 0 && v.minute == 0 && v.second == 0 && v.micros == 0
  }

  function EncodeTime(v: Value): bytes
    requires v.TimeValue?
  {
    var sign: byte := if v.negative then 1 else 0;
    var clock := [sign] + LittleEndian(4, v.days) + [v.hour, v.minute, v.second];
    if ZeroTime(v) then [0]
    else if v.micros == 0 then [8] + clock
    else [12] + clock + LittleEndian(4, v.micros)
  }

  function Encode(t: ColumnType, v: Value): bytes
    requires Fits(t, v)
  {
    match t
    case Tiny => [Pattern(v.v, 256) as byte]
    case Short => LittleEndian(2, Pattern(v.v, TWO_16))
    case Long => LittleEndian(4, Pattern(v.v, TWO_32))
    case LongLong => LittleEndian(8, Pattern(v.v, TWO_64))
    case Float => LittleEndian(4, v.bits)
    case Double => LittleEndian(8, v.bits)
    case Timestamp => EncodeDateTime(v)
    case Datetime => EncodeDateTime(v)
    case Time => EncodeTime(v)
    case Date => if v == DateValue(0, 0, 0) then [0] else [4] + LittleEndian(2, v.year) + [v.month, v.day]
    case Int24 => LittleEndian(4, Pattern(v.v, TWO_32))
    case Year => LittleEndian(2, v.v)
    case LengthPrefixed => LengthEncoded(|v.b|) + v.b
  }

  // ---- texts

  /** Digits behind the seconds, if there is anything to show. */
  function Fraction(micros: nat): string {
    if micros == 0 then "" else "." + Decimal.ZeroFill(6, Decimal.Digits(micros))
  }

  /** The value's own text, with its sign and all its digits. */
  function OwnText(t: ColumnType, v: Value): string
    requires Fits(t, v)
  {
    match v
    case Integer(n) => Decimal.Text(n)
    case RealValue(bits) =>
      FloatText.ExactText(FloatText.RealOf(if t.Float? then FloatText.SINGLE else FloatText.DOUBLE, bits))
    case DateValue(y, m, d) => DashedDate(y, m as int, d as int)
    case DateTimeValue(y, mo, d, h, mi, s, micros) =>
      DashedDate(y, mo as int, d as int) + " " + Clock(h as int, mi as int, s as int) + Fraction(micros)
    case TimeValue(negative, days, h, m, s, micros) =>
      (if negative && !ZeroTime(v) then "-" else "")
      + Clock(24 * days + h as int, m as int, s as int) + Fraction(micros)
    case Bytes(b) => ToChars(b)
  }

  /** The values whose own text the reader gets. */
  predicate Survives(t: ColumnType, v: Value)
    requires Fits(t, v)
  {
    match t
    case Tiny => v.v >= 0
    case Short => v.v < 0x8000
    case Long => v.v < 0x8000_0000
    case LongLong => v.v < 0x8000_0000_0000_0000
    case Float => FloatText.Survives(FloatText.RealOf(FloatText.SINGLE, v.bits), 32)
    case Double => FloatText.Survives(FloatText.RealOf(FloatText.DOUBLE, v.bits), 64)
    case Timestamp => v.micros == 0
    case Datetime => v.micros == 0
    case Time => v.micros == 0 && (v.negative ==> ZeroTime(v))
    case Date => true
    case Int24 => false
    case Year => false
    case LengthPrefixed => true
  }

  /** What the reader gets: a TINY unsigned, wider integers signed, floating point numbers with six
      places and cut off, times without sign and fraction. */
  function Shown(t: ColumnType, v: Value): string
    requires Fits(t, v)
  {
    match v
    case Integer(n) =>
      Decimal.Text(match t
                   case Tiny => Pattern(n, 256)
                   case Short => Signed(Pattern(n, TWO_16), TWO_16)
                   case Long => Signed(Pattern(n, TWO_32), TWO_32)
                   case LongLong => Signed(Pattern(n, TWO_64), TWO_64)
                   case _ => n)
    case RealValue(bits) =>
      if t.Float? then RealText(FloatText.SINGLE, bits, 32) else RealText(FloatText.DOUBLE, bits, 64)
    case DateValue(y, m, d) => DashedDate(y, m as int, d as int)
    case DateTimeValue(y, mo, d, h, mi, s, _) =>
      DashedDate(y, mo as int, d as int) + " " + Clock(h as int, mi as int, s as int)
    case TimeValue(_, days, h, m, s, _) => Clock(24 * days + h as int, m as int, s as int)
    case Bytes(b) => ToChars(b)
  }

  predicate RowFits(types: seq<ColumnType>, row: Row) {
    |row| == |types| && forall j :: 0 <= j < |row| ==> row[j].Some? ==> Fits(types[j], row[j].value)
  }

  /** The number whose binary digits, lowest first, are the given ones. */
  function FromBits(bits: seq<bool>): (n: nat)
    ensures n < Bit(|bits|)
  {
    if bits == [] then 0 else (if bits[0] then 1 else 0) + 2 * FromBits(bits[1..])
  }

  function BitmapByte(row: Row, k: nat): byte {
    var bits := seq(8, b => var c := 8 * k - 2 + b; 0 <= c < |row| && row[c].None?);
    BitTable();
    FromBits(bits) as byte
  }

  function Bitmap(row: Row): bytes {
    seq(HeaderSize(|row|), k requires 0 <= k => BitmapByte(row, k))
  }

  function EncodeFrom(types: seq<ColumnType>, row: Row, j: nat): bytes
    requires RowFits(types, row) && j <= |row|
    decreases |row| - j
  {
    if j == |row| then []
    else (if row[j].Some? then Encode(types[j], row[j].value) else []) + EncodeFrom(types, row, j + 1)
  }

  function EncodeRow(types: seq<ColumnType>, row: Row): bytes
    requires RowFits(types, row)
  {
    Bitmap(row) + EncodeFrom(types, row, 0)
  }

  function ShownRow(types: seq<ColumnType>, row: Row): (cells: seq<Option<string>>)
    requires RowFits(types, row)
    ensures |cells| == |row|
  {
    seq(|row|, c requires 0 <= c < |row| => if row[c].None? then None else Some(Shown(types[c], row[c].value)))
  }

  function OwnRow(types: seq<ColumnType>, row: Row): (cells: seq<Option<string>>)
    requires RowFits(types, row)
    ensures |cells| == |row|
  {
    seq(|row|, c requires 0 <= c < |row| => if row[c].None? then None else Some(OwnText(types[c], row[c].value)))
  }

  // ---- decoding undoes encoding, field by field

  /** The decoder has a case for the type, or its values carry their length. */
  predicate Decodes(t: ColumnType) {
    !t.Int24? && !t.Year?
  }

  predicate RowDecodes(types: seq<ColumnType>, row: Row)
    requires |row| == |types|
  {
    forall c :: 0 <= c < |row| ==> row[c].Some? ==> Decodes(types[c])
  }

  /** The field encoded at i comes out as `text`, and decoding stops right behind it. */
  ghost predicate ComesOut(t: ColumnType, v: Value, p: bytes, i: nat, text: string)
    requires Fits(t, v)
  {
    FieldAt(t, p, i) == Some(Parsed(text, i + |Encode(t, v)|))
  }

  /** Exactly when one field comes out as the value it holds, wherever it stands in a packet. */
  lemma FieldRoundTripsExactly(t: ColumnType, v: Value, pre: bytes, post: bytes)
    requires Fits(t, v)
    ensures ComesOut(t, v, pre + Encode(t, v) + post, |pre|, OwnText(t, v)) <==> Survives(t, v)
  {
    if t.Int24? {
      Int24Fails(v, pre, post);
    } else if t.Year? {
      YearFails(v, pre, post);
    } else {
      hide FieldAt, Encode, OwnText, Survives, Shown;
      FieldShows(t, v, pre, post);
      ShownIsOwnExactly(t, v);
    }
  }

  /** What comes out of every other field. */
  lemma FieldShows(t: ColumnType, v: Value, pre: bytes, post: bytes)
    requires Fits(t, v) && Decodes(t)
    ensures ComesOut(t, v, pre + Encode(t, v) + post, |pre|, Shown(t, v))
  {
    hide EncodeDateTime, EncodeTime, DateTimeAt, TimeAt, DateAt, IntegerAt, RealAt, BytesAt;
    hide Clock, DashedDate, RealText, LittleEndian, LengthEncoded;
    Powers256();
    match t
    case Tiny => assert (pre + Encode(t, v) + post)[|pre|] == Encode(t, v)[0];
    case Short => IntegerShows(v.v, 2, TWO_16, pre, post);
    case Long => IntegerShows(v.v, 4, TWO_32, pre, post);
    case LongLong => IntegerShows(v.v, 8, TWO_64, pre, post);
    case Float => RealShows(v.bits, 4, FloatText.SINGLE, 32, pre, post);
    case Double => RealShows(v.bits, 8, FloatText.DOUBLE, 64, pre, post);
    case Timestamp => DateTimeShows(t, v, pre, post);
    case Datetime => DateTimeShows(t, v, pre, post);
    case Time => TimeShows(v, pre, post);
    case Date => DateShows(v, pre, post);
    case LengthPrefixed => BytesRoundTrip(v, pre, post);
  }

  /** What is shown is the value's own text exactly when the value survives. */
  lemma ShownIsOwnExactly(t: ColumnType, v: Value)
    requires Fits(t, v) && Decodes(t)
    ensures Shown(t, v) == OwnText(t, v) <==> Survives(t, v)
  {
    hide Clock, DashedDate, Fraction, FloatText.RealOf, FloatText.SixPlaces, FloatText.ExactText;
    hide FloatText.Survives, FloatText.Limited, Decimal.Text;
    match v
    case Integer(n) =>
      forall m | Decimal.Text(m) == Decimal.Text(n) ensures m == n {
        Decimal.TextInjective(m, n);
      }
    case RealValue(bits) =>
      FloatText.LimitedExactly(FloatText.RealOf(FloatText.SINGLE, bits), 32);
      FloatText.LimitedExactly(FloatText.RealOf(FloatText.DOUBLE, bits), 64);
    case DateTimeValue(y, mo, d, h, mi, s, micros) =>
      FractionShows(DashedDate(y, mo as int, d as int) + " " + Clock(h as int, mi as int, s as int), micros);
    case TimeValue(_, days, h, m, s, micros) =>
      SignShows(24 * days + h as int, m as int, s as int, micros);
      FractionShows(Clock(24 * days + h as int, m as int, s as int), micros);
    case _ =>
  }

  lemma FractionShows(text: string, micros: nat)
    ensures text == text + Fraction(micros) <==> micros == 0
  {
  }

  lemma SignShows(h: nat, m: nat, s: nat, micros: nat)
    ensures Clock(h, m, s) != "-" + Clock(h, m, s) + Fraction(micros)
  {
    assert ("-" + Clock(h, m, s) + Fraction(micros))[0] == '-';
    assert Clock(h, m, s)[0] == Decimal.Padded(2, h)[0];
  }

  /** Two times that differ only in their sign come out alike. */
  lemma SignDropped(v: Value)
    requires Fits(Time, v) && !ZeroTime(v)
    ensures var w := v.(negative := !v.negative);
            Fits(Time, w) && Shown(Time, v) == Shown(Time, w) && OwnText(Time, v) != OwnText(Time, w)
  {
    hide Clock, Fraction;
    var w := v.(negative := !v.negative);
    assert |OwnText(Time, v)| != |OwnText(Time, w)|;
  }

  /** An integer column of any width: what comes out is the number read as a signed one. */
  lemma IntegerShows(v: int, width: nat, full: nat, pre: bytes, post: bytes)
    requires full == Power256(width) && 0 <= 2 * v + full && v < full
    ensures var e := LittleEndian(width, Pattern(v, full));
            IntegerAt(pre + e + post, |pre|, width, full)
            == Some(Parsed(Decimal.Text(Signed(Pattern(v, full), full)), |pre| + width))
  {
    var e := LittleEndian(width, Pattern(v, full));
    WordInside(pre, e, post, 0, width);
    assert e[0..width] == e;
    LittleEndianRoundTrip(width, Pattern(v, full));
  }

  /** It is the number itself exactly when that is in the lower half of the unsigned range. */
  lemma IntegerRoundTripsExactly(v: int, width: nat, full: nat, pre: bytes, post: bytes)
    requires full == Power256(width) && 0 <= 2 * v + full && v < full
    ensures var e := LittleEndian(width, Pattern(v, full));
            IntegerAt(pre + e + post, |pre|, width, full) == Some(Parsed(Decimal.Text(v), |pre| + width))
            <==> 2 * v < full
  {
    hide IntegerAt, Decimal.Text;
    IntegerShows(v, width, full, pre, post);
    var shown := Signed(Pattern(v, full), full);
    if Decimal.Text(shown) == Decimal.Text(v) {
      Decimal.TextInjective(shown, v);
    }
  }

  lemma RealShows(bits: nat, width: nat, format: FloatText.Format, limit: nat, pre: bytes, post: bytes)
    requires bits < Power256(width) && format.exponent > 1 && limit > 0
    ensures RealAt(pre + LittleEndian(width, bits) + post, |pre|, width, format, limit)
         == Some(Parsed(RealText(format, bits, limit), |pre| + width))
  {
    var e := LittleEndian(width, bits);
    WordInside(pre, e, post, 0, width);
    assert e[0..width] == e;
    LittleEndianRoundTrip(width, bits);
  }

  /** A short length byte in front of a temporal value. */
  lemma ShortLength(pre: bytes, e: bytes, post: bytes)
    requires e != [] && e[0] < 251
    ensures LengthAt(pre + e + post, |pre|) == Some(Parsed(e[0] as int, |pre| + 1))
    ensures forall k :: 0 <= k < |e| ==> (pre + e + post)[|pre| + k] == e[k]
  {
  }

  lemma DateFieldsRoundTrip(pre: bytes, e: bytes, post: bytes, year: nat, month: byte, day: byte)
    requires |e| >= 5 && e[0] < 251 && year < 0x8000 && e[1..5] == LittleEndian(2, year) + [month, day]
    ensures DateFields(pre + e + post, |pre| + 1) == MysqlTime(year, month as int, day as int, 0, 0, 0)
  {
    hide LengthAt;
    ShortLength(pre, e, post);
    WordInside(pre, e, post, 1, 2);
    DateBytes(e, LittleEndian(2, year), month, day);
    Powers256();
    LittleEndianRoundTrip(2, year);
    hide LittleEndian, Power256, Unsigned;
  }

  lemma DateBytes(e: bytes, year: bytes, month: byte, day: byte)
    requires |e| >= 5 && |year| == 2 && e[1..5] == year + [month, day]
    ensures e[1..3] == year && e[3] == month && e[4] == day
  {
    var d := year + [month, day];
    assert d[..2] == year && d[2] == month && d[3] == day;
    assert e[1..5][..2] == e[1..3] && e[1..5][2] == e[3] && e[1..5][3] == e[4];
  }

  lemma DateShows(v: Value, pre: bytes, post: bytes)
    requires Fits(Date, v)
    ensures ComesOut(Date, v, pre + Encode(Date, v) + post, |pre|, Shown(Date, v))
  {
    hide DashedDate;
    var e := Encode(Date, v);
    ShortLength(pre, e, post);
    if e != [0] {
      DateFieldsRoundTrip(pre, e, post, v.year, v.month, v.day);
    }
  }

  lemma DateTimeParses(v: Value, pre: bytes, post: bytes)
    requires Fits(Datetime, v)
    ensures var tm := MysqlTime(v.year, v.month as int, v.day as int, v.hour as int, v.minute as int, v.second as int);
            var e := EncodeDateTime(v);
            DateTimeAt(pre + e + post, |pre|) == Some(Parsed(tm, |pre| + |e|))
  {
    var e := EncodeDateTime(v);
    ShortLength(pre, e, post);
    if e != [0] {
      DateTimeShape(v);
      DateFieldsRoundTrip(pre, e, post, v.year, v.month, v.day);
    }
  }

  lemma DateTimeShape(v: Value)
    requires Fits(Datetime, v) && EncodeDateTime(v) != [0]
    ensures var e := EncodeDateTime(v);
            && |e| == 1 + e[0] as int && e[0] in {4, 7, 11}
            && e[1..5] == LittleEndian(2, v.year) + [v.month, v.day]
            && (if e[0] == 4 then v.hour == v.minute == v.second == 0
                else e[5] == v.hour && e[6] == v.minute && e[7] == v.second)
  {
  }

  lemma DateTimeShows(t: ColumnType, v: Value, pre: bytes, post: bytes)
    requires (t.Datetime? || t.Timestamp?) && Fits(t, v)
    ensures ComesOut(t, v, pre + Encode(t, v) + post, |pre|, Shown(t, v))
  {
    hide EncodeDateTime, DashedDate, Clock, DateTimeAt;
    DateTimeParses(v, pre, post);
    var tm := MysqlTime(v.year, v.month as int, v.day as int, v.hour as int, v.minute as int, v.second as int);
    assert AsInt(tm.year) == tm.year && AsInt(tm.hour) == tm.hour;
  }

  lemma TimeShape(v: Value)
    requires Fits(Time, v) && EncodeTime(v) != [0]
    ensures var e := EncodeTime(v);
            && |e| == 1 + e[0] as int && e[0] in {8, 12}
            && e[2..6] == LittleEndian(4, v.days)
            && e[6] == v.hour && e[7] == v.minute && e[8] == v.second
  {
    hide LittleEndian;
    var sign: byte := if v.negative then 1 else 0;
    ClockShape([8], sign, LittleEndian(4, v.days), [v.hour, v.minute, v.second], []);
    ClockShape([12], sign, LittleEndian(4, v.days), [v.hour, v.minute, v.second], LittleEndian(4, v.micros));
  }

  lemma ClockShape(length: bytes, sign: byte, days: bytes, clock: bytes, rest: bytes)
    requires |length| == 1 && |days| == 4 && |clock| == 3
    ensures var e := length + ([sign] + days + clock) + rest;
            e[0] == length[0] && e[2..6] == days && e[6] == clock[0] && e[7] == clock[1] && e[8] == clock[2]
    ensures rest == [] ==> length + ([sign] + days + clock) + rest == length + ([sign] + days + clock)
  {
  }

  lemma TimeParses(v: Value, pre: bytes, post: bytes)
    requires Fits(Time, v)
    ensures var tm := MysqlTime(0, 0, 0, 24 * v.days + v.hour as int, v.minute as int, v.second as int);
            var e := EncodeTime(v);
            TimeAt(pre + e + post, |pre|) == Some(Parsed(tm, |pre| + |e|))
  {
    var e := EncodeTime(v);
    ShortLength(pre, e, post);
    if e != [0] {
      TimeShape(v);
      hide EncodeTime, LengthAt, TimeAt, Word;
      DaysParse(v, pre, e, post);
      LongTimeAt(pre + e + post, |pre|, e[0] as int);
    }
  }

  lemma LongTimeAt(p: bytes, i: nat, length: nat)
    requires length in {8, 12} && i + 1 + length <= |p| && LengthAt(p, i) == Some(Parsed(length, i + 1))
    ensures var hour := (p[i + 6] as int + 24 * Word(p, i + 2, 4)) % TWO_32;
            TimeAt(p, i) == Some(Parsed(MysqlTime(0, 0, 0, hour, p[i + 7] as int, p[i + 8] as int), i + 1 + length))
  {
    hide LengthAt;
  }

  lemma DaysParse(v: Value, pre: bytes, e: bytes, post: bytes)
    requires Fits(Time, v) && |e| >= 6 && e[2..6] == LittleEndian(4, v.days)
    ensures Word(pre + e + post, |pre| + 2, 4) == v.days
  {
    WordInside(pre, e, post, 2, 4);
    LittleEndianRoundTrip(4, v.days);
    Powers256();
  }

  lemma TimeShows(v: Value, pre: bytes, post: bytes)
    requires Fits(Time, v)
    ensures ComesOut(Time, v, pre + Encode(Time, v) + post, |pre|, Shown(Time, v))
  {
    hide EncodeTime, TimeAt, Clock;
    TimeParses(v, pre, post);
  }

  lemma Regrouped(pre: bytes, l: bytes, b: bytes, post: bytes)
    ensures var p, start := pre + (l + b) + post, |pre| + |l|;
            p == pre + l + (b + post) && p[start..start + |b|] == b
  {
  }

  lemma BytesRoundTrip(v: Value, pre: bytes, post: bytes)
    requires Fits(LengthPrefixed, v)
    ensures ComesOut(LengthPrefixed, v, pre + Encode(LengthPrefixed, v) + post, |pre|, ToChars(v.b))
  {
    hide LengthAt, LengthEncoded, ToChars;
    var l := LengthEncoded(|v.b|);
    LengthRoundTrip(|v.b|, pre, v.b + post);
    Regrouped(pre, l, v.b, post);
  }

  /** A four-byte integer read as a string: the one-, two- and three-byte texts that end where the
      integer ends all end in its sign byte, which is no character of a number. */
  lemma Int24Fails(v: Value, pre: bytes, post: bytes)
    requires Fits(Int24, v)
    ensures !ComesOut(Int24, v, pre + Encode(Int24, v) + post, |pre|, Decimal.Text(v.v))
  {
    var n := Pattern(v.v, TWO_32);
    var e := LittleEndian(4, n);
    SignByte(n);
    StringFieldEnd(pre, e, post);
  }

  lemma SignByte(n: nat)
    requires n < TWO_24 || TWO_32 - 0x80_0000 <= n < TWO_32
    ensures LittleEndian(4, n)[3] in {0, 255}
  {
    assert LittleEndian(4, n)[3] == LittleEndian(3, n / 256)[2] == LittleEndian(2, n / 256 / 256)[1]
        == LittleEndian(1, n / 256 / 256 / 256)[0];
  }

  /** A two-byte integer read as a string: the only text that ends in the right place is its high byte. */
  lemma YearFails(v: Value, pre: bytes, post: bytes)
    requires Fits(Year, v)
    ensures !ComesOut(Year, v, pre + Encode(Year, v) + post, |pre|, Decimal.Text(v.v))
  {
    var e := LittleEndian(2, v.v);
    assert e[1] == LittleEndian(1, v.v / 256)[0];
    StringFieldEnd(pre, e, post);
  }

  /** A length-prefixed text that ends exactly behind e ends in the last byte of e. */
  lemma StringFieldEnd(pre: bytes, e: bytes, post: bytes)
    requires |e| >= 2
    ensures var r := BytesAt(pre + e + post, |pre|);
            r.Some? && r.value.next == |pre| + |e| && r.value.value != []
            ==> r.value.value[|r.value.value| - 1] == e[|e| - 1] as int as char
                && |r.value.value| < |e|
  {
    var p := pre + e + post;
    assert p[|pre| + |e| - 1] == e[|e| - 1];
  }

  // ---- rows

  lemma HalveBoth(low: nat, n: nat, m: nat)
    requires low < 2 && m > 0
    ensures (low + 2 * n) / (2 * m) == n / m
  {
    var q, r := n / m, n % m;
    assert n == m * q + r;
    assert low + 2 * n == (2 * m) * q + (low + 2 * r);
    DivModUnique(low + 2 * n, 2 * m, q, low + 2 * r);
  }

  lemma {:induction false} BitOf(bits: seq<bool>, b: nat)
    requires b < |bits|
    ensures (FromBits(bits) / Bit(b)) % 2 == 1 <==> bits[b]
  {
    if b > 0 {
      BitOf(bits[1..], b - 1);
      HalveBoth(if bits[0] then 1 else 0, FromBits(bits[1..]), Bit(b - 1));
    }
  }

  lemma BitmapRoundTrip(row: Row, column: nat, fields: bytes)
    requires column < |row|
    ensures NullAt(Bitmap(row) + fields, column) <==> row[column].None?
  {
    var k, b := (column + 2) / 8, (column + 2) % 8;
    var bits := seq(8, b => var c := 8 * k - 2 + b; 0 <= c < |row| && row[c].None?);
    assert (Bitmap(row) + fields)[k] == BitmapByte(row, k);
    assert BitmapByte(row, k) as int == FromBits(bits);
    BitOf(bits, b);
    assert column == 8 * k - 2 + b;
  }

  /** One more column in front. */
  lemma CellsStep(types: seq<ColumnType>, row: Row, p: bytes, j: nat, i: nat, next: nat)
    requires RowFits(types, row) && j < |row| && HeaderSize(|types|) <= |p|
    requires NullAt(p, j) <==> row[j].None?
    requires row[j].None? ==> next == i
    requires row[j].Some? ==>
               && ComesOut(types[j], row[j].value, p, i, Shown(types[j], row[j].value))
               && next == i + |Encode(types[j], row[j].value)|
    requires CellsFrom(types, p, j + 1, next) == Some(Parsed(ShownRow(types, row)[j + 1..], |p|))
    ensures CellsFrom(types, p, j, i) == Some(Parsed(ShownRow(types, row)[j..], |p|))
  {
    hide FieldAt, Encode, Fits, Shown;
    assert ShownRow(types, row)[j..] == [ShownRow(types, row)[j]] + ShownRow(types, row)[j + 1..];
  }

  lemma SplitAt(p: bytes, i: nat, e: bytes, rest: bytes)
    requires i <= |p| && p[i..] == e + rest
    ensures p == p[..i] + e + rest
    ensures i + |e| <= |p| && p[i + |e|..] == rest
  {
  }

  lemma {:induction false} CellsRoundTrip(types: seq<ColumnType>, row: Row, p: bytes, i: nat, j: nat)
    requires RowFits(types, row) && j <= |row| && HeaderSize(|types|) <= |p| && i <= |p|
    requires forall c :: j <= c < |row| ==> row[c].Some? ==> Decodes(types[c])
    requires forall c :: 0 <= c < |row| ==> (NullAt(p, c) <==> row[c].None?)
    requires p[i..] == EncodeFrom(types, row, j)
    ensures CellsFrom(types, p, j, i) == Some(Parsed(ShownRow(types, row)[j..], |p|))
    decreases |row| - j
  {
    hide FieldAt, Encode, Fits, Shown, ComesOut, NullAt;
    if j == |row| {
      assert ShownRow(types, row)[j..] == [];
      assert |p[i..]| == 0;
    } else {
      var e, rest := if row[j].None? then [] else Encode(types[j], row[j].value), EncodeFrom(types, row, j + 1);
      SplitAt(p, i, e, rest);
      if row[j].Some? {
        FieldShows(types[j], row[j].value, p[..i], rest);
      }
      CellsRoundTrip(types, row, p, i + |e|, j + 1);
      CellsStep(types, row, p, j, i, i + |e|);
    }
  }

  /** Decoding an encoded row gives exactly its NULLs and what its values show, and stops at the
      packet's end. */
  lemma RowRoundTrip(types: seq<ColumnType>, row: Row)
    requires RowFits(types, row)
    requires RowDecodes(types, row)
    ensures DecodeRow(types, EncodeRow(types, row)) == Some(Parsed(ShownRow(types, row), |EncodeRow(types, row)|))
  {
    var p := EncodeRow(types, row);
    forall c | 0 <= c < |row| ensures NullAt(p, c) <==> row[c].None? {
      BitmapRoundTrip(row, c, EncodeFrom(types, row, 0));
    }
    CellsRoundTrip(types, row, p, HeaderSize(|types|), 0);
    assert ShownRow(types, row)[0..] == ShownRow(types, row);
  }

  /** Every value of the row that is not NULL is one that survives. */
  ghost predicate RowSurvives(types: seq<ColumnType>, row: Row)
    requires RowFits(types, row)
  {
    forall c :: 0 <= c < |row| ==> row[c].Some? ==> Survives(types[c], row[c].value)
  }

  /** The reader gets the row's own values exactly when each of them survives. */
  lemma ShownRowExactly(types: seq<ColumnType>, row: Row)
    requires RowFits(types, row)
    requires RowDecodes(types, row)
    ensures ShownRow(types, row) == OwnRow(types, row) <==> RowSurvives(types, row)
  {
    hide Shown, OwnText, Survives, Fits;
    var shown, own := ShownRow(types, row), OwnRow(types, row);
    forall c | 0 <= c < |row| && row[c].Some? ensures shown[c] == own[c] <==> Survives(types[c], row[c].value) {
      ShownIsOwnExactly(types[c], row[c].value);
    }
    assert forall c :: 0 <= c < |row| && row[c].None? ==> shown[c] == own[c];
  }

  /** A row survives the wire exactly when each of its values does. */
  lemma RowRoundTripsExactly(types: seq<ColumnType>, row: Row)
    requires RowFits(types, row)
    requires RowDecodes(types, row)
    ensures DecodeRow(types, EncodeRow(types, row)) == Some(Parsed(OwnRow(types, row), |EncodeRow(types, row)|))
            <==> RowSurvives(types, row)
  {
    hide DecodeRow, EncodeRow, ShownRow, OwnRow;
    RowRoundTrip(types, row);
    ShownRowExactly(types, row);
  }
}
