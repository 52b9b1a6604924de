/**
 * The binary result set of a prepared MySQL statement: a private copy of the packets, a
 * cursor into it, and one buffer per column holding the row fetched last.
 */
module BinaryResult {
  import opened Optional
  import opened WireFormat
  import opened RowCodec
  import opened RowCache
  import Decimal
  import FloatText

  // ---- column buffers

  /** `data` is the whole allocation; its size plays the part of `alloc`. */
  datatype ResultBuffer = ResultBuffer(data: string, length: nat, isnull: bool)

  const INITIAL_ALLOC := 1024

  /** A C string: everything before the first NUL. */
  function CString(data: string): string {
    if data == [] || data[0] == '\0' then [] else [data[0]] + CString(data[1..])
  }

  /** What a read makes of a buffer. */
  function CellOf(b: ResultBuffer): Option<string> {
    if b.isnull then None
    else if 0 < b.length <= |b.data| then Some(b.data[..b.length])
    else Some(CString(b.data))
  }

  /** snprintf into a buffer: at most `limit` characters, the last of them NUL. */
  function Printed(data: string, limit: nat, text: string): (r: string)
    requires 0 < limit <= |data|
    ensures |r| == |data|
  {
    var kept := FloatText.Limited(text, limit);
    kept + ['\0'] + data[|kept| + 1..]
  }

  lemma {:induction false} CStringStops(text: string, rest: string)
    requires '\0' !in text
    ensures CString(text + ['\0'] + rest) == text
  {
    var s := text + ['\0'] + rest;
    if text != [] {
      assert s[1..] == text[1..] + ['\0'] + rest;
      CStringStops(text[1..], rest);
    }
  }

  /** Numbers and temporal texts fit their snprintf limits. */
  lemma TextFits(v: int, k: nat)
    requires k > 0 && v < Decimal.Power10(k) && 0 < v + Decimal.Power10(k)
    ensures |Decimal.Text(v)| <= k + 1 && (v >= 0 ==> |Decimal.Text(v)| <= k)
    ensures forall w :: 0 < w <= k ==> |Decimal.Padded(w, v)| <= k + 1
  {
    Decimal.DigitsLength(if v < 0 then -v else v, k);
  }

  // ---- the copied packets

  class PacketNode {
    const data: bytes
    var next: PacketNode?

    constructor (data: bytes)
      ensures this.data == data && next == null
    {
      this.data := data;
      next := null;
    }
  }

  /** The i-th node, null at the end. */
  ghost function NodeAt(nodes: seq<PacketNode>, i: nat): PacketNode? {
    if i < |nodes| then nodes[i] else null
  }

  ghost predicate Linked(nodes: seq<PacketNode>)
    reads nodes
  {
    forall i :: 0 <= i < |nodes| ==> nodes[i].next == NodeAt(nodes, i + 1)
  }

  ghost predicate LastIsNew(nodes: seq<PacketNode>) {
    forall i :: 0 <= i < |nodes| - 1 ==> nodes[i] != nodes[|nodes| - 1]
  }

  /** The last node, null if there is none. */
  ghost function LastOf(nodes: seq<PacketNode>): PacketNode? {
    if nodes == [] then null else nodes[|nodes| - 1]
  }

  /** One more node behind `cursor`, the last. */
  method Append(cursor: PacketNode?, data: bytes, ghost nodes: seq<PacketNode>) returns (next: PacketNode)
    requires Linked(nodes) && LastIsNew(nodes) && cursor == LastOf(nodes)
    modifies if cursor == null then {} else {cursor}
    ensures fresh(next) && next.data == data
    ensures Linked(nodes + [next]) && LastIsNew(nodes + [next])
  {
    next := new PacketNode(data);
    if cursor != null {
      cursor.next := next;
    }
  }

  /** Copies the list from `head` on, node by node. */
  method CopyPackets(head: PacketNode?, ghost source: seq<PacketNode>)
      returns (copy: PacketNode?, ghost nodes: seq<PacketNode>)
    requires Linked(source) && head == NodeAt(source, 0)
    ensures Linked(nodes) && copy == NodeAt(nodes, 0)
    ensures |nodes| == |source| && forall i :: 0 <= i < |source| ==> nodes[i].data == source[i].data
    ensures forall i :: 0 <= i < |nodes| ==> fresh(nodes[i])
  {
    copy, nodes := null, [];
    NothingLinked();
    hide Linked, LastIsNew;
    var curr, cursor: PacketNode? := head, null;
    while curr != null
      invariant |nodes| <= |source| && curr == NodeAt(source, |nodes|)
      invariant Linked(source) && Linked(nodes) && LastIsNew(nodes)
      invariant forall i :: 0 <= i < |nodes| ==> fresh(nodes[i]) && nodes[i].data == source[i].data
      invariant copy == NodeAt(nodes, 0) && cursor == LastOf(nodes)
      decreases |source| - |nodes|
    {
      var next := Append(cursor, curr.data, nodes);
      if cursor == null {
        copy := next;
      }
      cursor := next;
      nodes := nodes + [next];
      NextInList(source, |nodes| - 1);
      curr := curr.next;
    }
  }

  lemma NothingLinked()
    ensures Linked([]) && LastIsNew([])
  {
  }

  lemma NextInList(nodes: seq<PacketNode>, i: nat)
    requires Linked(nodes) && i < |nodes|
    ensures nodes[i].next == NodeAt(nodes, i + 1)
  {
  }

  function HashFrom(names: seq<string>, cells: seq<Option<string>>, n: nat): map<string, Option<string>>
    requires n <= |names| == |cells|
  {
    if n == 0 then map[] else HashFrom(names, cells, n - 1)[names[n - 1] := cells[n - 1]]
  }

  /** Exactly the columns' names are keys. */
  lemma {:induction false} HashKeys(names: seq<string>, cells: seq<Option<string>>, n: nat, name: string)
    requires n <= |names| == |cells|
    ensures name in HashFrom(names, cells, n) <==> name in names[..n]
  {
    if n > 0 {
      HashKeys(names, cells, n - 1, name);
      assert names[..n] == names[..n - 1] + [names[n - 1]];
    }
  }

  /** Under each name the last column of that name. */
  lemma {:induction false} HashHoldsLastColumn(names: seq<string>, cells: seq<Option<string>>, n: nat, c: nat)
    requires c < n <= |names| == |cells| && forall d :: c < d < n ==> names[d] != names[c]
    ensures names[c] in HashFrom(names, cells, n) && HashFrom(names, cells, n)[names[c]] == cells[c]
  {
    if c < n - 1 {
      HashHoldsLastColumn(names, cells, n - 1, c);
    }
  }

  class MySqlBinaryResult {
    const types: seq<ColumnType>
    const names: seq<string>
    const rows: nat
    const pool: array<ResultBuffer>
    const mysqldata: PacketNode?
    var rowno: nat
    var cursor: PacketNode?
    ghost const nodes: seq<PacketNode>
    ghost const table: seq<seq<Option<string>>>
    ghost var buffered: Option<nat>

    /** `table` is what decoding each packet directly gives. */
    ghost predicate Decoded() {
      forall k :: 0 <= k < |nodes| == |table| ==>
           var r := DecodeRow(types, nodes[k].data);
           r.Some? && r.value.value == table[k]
    }

    /** The packet list is whole and decodes, and the buffers have room for any number. */
    ghost predicate Wired()
      reads pool, nodes
    {
      && |table| == |nodes| && Decoded()
      && (forall k :: 0 <= k < |table| ==> |table[k]| == |types|)
      && |names| == |types|
      && |nodes| == rows
      && Linked(nodes)
      && mysqldata == NodeAt(nodes, 0)
      && (rows > 0 ==> pool.Length == |types|)
      && (forall c :: 0 <= c < pool.Length ==> |pool[c].data| >= INITIAL_ALLOC)
    }

    ghost predicate Holds(cells: seq<Option<string>>)
      reads pool
    {
      pool.Length == |cells| && forall c :: 0 <= c < |cells| ==> CellOf(pool[c]) == cells[c]
    }

    /** The cursor stands at the row the position names, null exactly at the end, and the buffers
        hold the row fetched last. */
    ghost predicate Valid()
      reads this, pool, nodes
    {
      && Wired()
      && rowno <= rows
      && cursor == NodeAt(nodes, rowno)
      && (buffered.Some? ==> buffered.value < rows && Holds(table[buffered.value]))
    }

    ghost function ShapeOf(): Shape {
      Shape(rows, |types|, true)
    }

    ghost function CacheOf(): Cache
      reads this
    {
      Cache(rowno, buffered)
    }

    /** Copies the client library's list of packets, `source` from its `head`.  The library counts
        as many rows as it lists.  `memory` is what the new buffers happen to hold. */
    constructor (types: seq<ColumnType>, names: seq<string>, rows: nat, head: PacketNode?,
                 ghost source: seq<PacketNode>, memory: nat -> ResultBuffer)
      requires forall c :: |memory(c).data| == INITIAL_ALLOC && memory(c).length == 0
      requires |names| == |types|
      requires Linked(source) && head == NodeAt(source, 0)
      requires |source| == rows
      requires forall k :: 0 <= k < |source| ==> DecodeRow(types, source[k].data).Some?
      ensures Valid() && CacheOf() == START.cache
      ensures this.types == types && this.names == names && this.rows == rows
      ensures rows > 0 ==> pool.Length == |types|
      ensures forall c :: 0 <= c < pool.Length ==> pool[c] == memory(c) && |pool[c].data| == 1024
      ensures |nodes| == |source| && forall k :: 0 <= k < |source| ==> nodes[k].data == source[k].data
      ensures fresh(pool) && forall n :: n in nodes ==> fresh(n)
    {
      NothingLinked();
      hide DecodeRow, CellOf, Linked;
      this.types := types;
      this.names := names;
      this.rows := rows;
      rowno, buffered := 0, None;
      var copy: PacketNode?, columns := null, 0;
      ghost var list: seq<PacketNode> := [];
      if rows > 0 {
        copy, list := CopyPackets(head, source);
        columns := |types|;
      }
      mysqldata, cursor, nodes := copy, copy, list;
      table := seq(|list|, k requires 0 <= k < |list| => DecodeRow(types, list[k].data).value.value);
      var buffers := new ResultBuffer[columns]((c: nat) => memory(c));
      assert forall c :: 0 <= c < buffers.Length ==> buffers[c] == memory(c);
      pool := buffers;
    }

    // ---- one field

    /** snprintf of a text into the buffer of column c. */
    method Print(c: nat, limit: nat, text: string)
      requires c < pool.Length && 0 < limit <= |pool[c].data|
      requires '\0' !in text && !pool[c].isnull
      modifies pool
      ensures forall d :: 0 <= d < pool.Length && d != c ==> pool[d] == old(pool[d])
      ensures |pool[c].data| == |old(pool[c].data)| && CellOf(pool[c]) == Some(FloatText.Limited(text, limit))
    {
      var data, kept := pool[c].data, FloatText.Limited(text, limit);
      pool[c] := ResultBuffer(Printed(data, limit, text), 0, false);
      CStringStops(kept, data[|kept| + 1..]);
    }

    method FetchInteger(t: ColumnType, p: bytes, c: nat, row: nat) returns (next: nat)
      requires t in {Tiny, Short, Long, LongLong} && FieldAt(t, p, row).Some?
      requires c < pool.Length && |pool[c].data| >= INITIAL_ALLOC && !pool[c].isnull
      modifies pool
      ensures forall d :: 0 <= d < pool.Length && d != c ==> pool[d] == old(pool[d])
      ensures |pool[c].data| >= |old(pool[c].data)| && Fetched(t, p, row, next, CellOf(pool[c]))
    {
      IntegerFits(t, p, row);
      match t
      case Tiny =>
        Print(c, 5, Decimal.Text(p[row] as int));
        next := row + 1;
      case Short =>
        Print(c, 8, Decimal.Text(Signed(Word(p, row, 2), TWO_16)));
        next := row + 2;
      case Long =>
        Print(c, 16, Decimal.Text(Signed(Word(p, row, 4), TWO_32)));
        next := row + 4;
      case LongLong =>
        Print(c, 32, Decimal.Text(Signed(Word(p, row, 8), TWO_64)));
        next := row + 8;
    }

    /** fetch_result_float and fetch_result_double: the text is cut off where the buffer's share ends. */
    method FetchReal(t: ColumnType, p: bytes, c: nat, row: nat) returns (next: nat)
      requires t in {Float, Double} && FieldAt(t, p, row).Some?
      requires c < pool.Length && |pool[c].data| >= INITIAL_ALLOC && !pool[c].isnull
      modifies pool
      ensures forall d :: 0 <= d < pool.Length && d != c ==> pool[d] == old(pool[d])
      ensures |pool[c].data| >= |old(pool[c].data)| && Fetched(t, p, row, next, CellOf(pool[c]))
    {
      hide FloatText.RealOf, FloatText.SixPlaces, FloatText.Limited, CellOf;
      if t.Float? {
        Print(c, 32, FloatText.SixPlaces(FloatText.RealOf(FloatText.SINGLE, Word(p, row, 4))));
        next := row + 4;
      } else {
        Print(c, 64, FloatText.SixPlaces(FloatText.RealOf(FloatText.DOUBLE, Word(p, row, 8))));
        next := row + 8;
      }
    }

    method FetchTemporal(t: ColumnType, p: bytes, c: nat, row: nat) returns (next: nat)
      requires t in {Timestamp, Datetime, Time, Date} && FieldAt(t, p, row).Some?
      requires c < pool.Length && |pool[c].data| >= INITIAL_ALLOC && !pool[c].isnull
      modifies pool
      ensures forall d :: 0 <= d < pool.Length && d != c ==> pool[d] == old(pool[d])
      ensures |pool[c].data| >= |old(pool[c].data)| && Fetched(t, p, row, next, CellOf(pool[c]))
    {
      hide ClockText, DateText, DateTimeText, TimeAt, DateAt, DateTimeAt, CellOf;
      var tm: MysqlTime;
      if t.Time? {
        tm, next := ReadBinaryTime(p, row);
        TemporalFits(tm);
        Print(c, 128, ClockText(tm));
      } else if t.Date? {
        tm, next := ReadBinaryDate(p, row);
        TemporalFits(tm);
        Print(c, 128, DateText(tm));
      } else {
        tm, next := ReadBinaryDateTime(p, row);
        TemporalFits(tm);
        Print(c, 128, DateTimeText(tm));
      }
    }

    /** Length-prefixed data; the buffer grows when it has no room for it and a NUL. */
    method FetchBin(t: ColumnType, p: bytes, c: nat, row: nat) returns (next: nat)
      requires t in {Int24, Year, LengthPrefixed} && FieldAt(t, p, row).Some?
      requires c < pool.Length && |pool[c].data| >= INITIAL_ALLOC && !pool[c].isnull
      modifies pool
      ensures forall d :: 0 <= d < pool.Length && d != c ==> pool[d] == old(pool[d])
      ensures |pool[c].data| >= |old(pool[c].data)| && Fetched(t, p, row, next, CellOf(pool[c]))
      ensures |pool[c].data| >= |CellOf(pool[c]).value| + 1
    {
      var length, start := NetFieldLength(p, row);
      var data := pool[c].data;
      if |data| < length + 1 {
        data := seq(length + 1, _ => '\0');
      }
      var text := ToChars(p[start..start + length]);
      data := text + ['\0'] + data[length + 1..];
      pool[c] := ResultBuffer(data, length, false);
      next := start + length;
      assert data[..length] == text;
    }

    // ---- one row

    lemma PacketDecodes(k: nat)
      requires Wired() && k < rows
      ensures var p, h := nodes[k].data, HeaderSize(|types|);
              h <= |p| && CellsFrom(types, p, 0, h).Some? && CellsFrom(types, p, 0, h).value.value == table[k]
    {
    }

    /** Decodes the packet under the cursor into the buffers and moves the cursor on. */
    method FetchRow()
      requires Wired() && cursor == NodeAt(nodes, rowno)
      modifies this`cursor, pool
      ensures Wired()
      ensures rowno < rows ==> Holds(table[rowno]) && cursor == NodeAt(nodes, rowno + 1)
      ensures rowno >= rows ==> cursor == old(cursor) && pool[..] == old(pool[..])
    {
      hide FieldAt, CellsFrom, CellOf, Decoded, DecodeRow, HeaderSize;
      if cursor == null {
        return;
      }
      PacketDecodes(rowno);
      var _ := FillBuffers(cursor.data, table[rowno]);
      cursor := cursor.next;
    }

    /** The walk over the columns of one packet; `row` ends where decoding the packet ends. */
    method FillBuffers(p: bytes, ghost cells: seq<Option<string>>) returns (row: nat)
      requires pool.Length == |types| == |cells|
      requires forall c :: 0 <= c < pool.Length ==> |pool[c].data| >= INITIAL_ALLOC
      requires HeaderSize(|types|) <= |p|
      requires var r := CellsFrom(types, p, 0, HeaderSize(|types|)); r.Some? && r.value.value == cells
      modifies pool
      ensures Holds(cells) && forall c :: 0 <= c < pool.Length ==> |pool[c].data| >= INITIAL_ALLOC
      ensures row == CellsFrom(types, p, 0, HeaderSize(|types|)).value.next
    {
      hide FieldAt, CellsFrom, CellOf, Bit;
      var nulls, bit := 0, 4;
      row := HeaderSize(|types|);
      ghost var done: seq<Option<string>> := [];
      var j := 0;
      FirstBits();
      while j < |types|
        invariant 0 <= j <= |types|
        invariant nulls == (j + 2) / 8 && bit == Bit((j + 2) % 8)
        invariant CellsFrom(types, p, j, row).Some? && |done| == j
        invariant cells == done + CellsFrom(types, p, j, row).value.value
        invariant CellsFrom(types, p, 0, HeaderSize(|types|)).value.next == CellsFrom(types, p, j, row).value.next
        invariant forall c :: 0 <= c < j ==> CellOf(pool[c]) == done[c]
        invariant forall c :: 0 <= c < pool.Length ==> |pool[c].data| >= INITIAL_ALLOC
      {
        row := FetchColumn(p, j, nulls, bit, row);
        done := done + [CellOf(pool[j])];
        BitDoubles((j + 2) % 8);
        bit := bit * 2 % 256;
        if bit == 0 {
          bit := 1;
          nulls := nulls + 1;
        }
        j := j + 1;
      }
      CellsEnd(types, p, row);
    }

    /** Column j, whose NULL flag is the bit `bit` of the byte `nulls`, inside the row's header. */
    method FetchColumn(p: bytes, j: nat, nulls: nat, bit: nat, row: nat) returns (next: nat)
      requires j < |types| == pool.Length && |pool[j].data| >= INITIAL_ALLOC
      requires HeaderSize(|types|) <= |p| && CellsFrom(types, p, j, row).Some?
      requires nulls == (j + 2) / 8 && bit == Bit((j + 2) % 8)
      modifies pool
      ensures forall d :: 0 <= d < pool.Length && d != j ==> pool[d] == old(pool[d])
      ensures nulls < HeaderSize(|types|) && |pool[j].data| >= |old(pool[j].data)|
      ensures var rest := CellsFrom(types, p, j + 1, next);
              && rest.Some?
              && CellsFrom(types, p, j, row) == Some(Parsed([CellOf(pool[j])] + rest.value.value, rest.value.next))
    {
      hide FieldAt, CellOf, Bit;
      if TestBit(p[nulls], bit) {
        pool[j] := pool[j].(isnull := true);
        NullCell(pool[j]);
        next := row;
      } else {
        pool[j] := pool[j].(isnull := false);
        next := FetchField(types[j], p, j, row);
      }
    }

    method FetchField(t: ColumnType, p: bytes, c: nat, row: nat) returns (next: nat)
      requires FieldAt(t, p, row).Some?
      requires c < pool.Length && |pool[c].data| >= INITIAL_ALLOC && !pool[c].isnull
      modifies pool
      ensures forall d :: 0 <= d < pool.Length && d != c ==> pool[d] == old(pool[d])
      ensures |pool[c].data| >= |old(pool[c].data)| && Fetched(t, p, row, next, CellOf(pool[c]))
    {
      match t
      case Tiny => next := FetchInteger(t, p, c, row);
      case Short => next := FetchInteger(t, p, c, row);
      case Long => next := FetchInteger(t, p, c, row);
      case LongLong => next := FetchInteger(t, p, c, row);
      case Float => next := FetchReal(t, p, c, row);
      case Double => next := FetchReal(t, p, c, row);
      case Timestamp => next := FetchTemporal(t, p, c, row);
      case Datetime => next := FetchTemporal(t, p, c, row);
      case Time => next := FetchTemporal(t, p, c, row);
      case Date => next := FetchTemporal(t, p, c, row);
      case _ => next := FetchBin(t, p, c, row);
    }

    // ---- reads and moves

    /** The next row into the buffers. */
    method Advance()
      requires Valid() && rowno < rows
      modifies this`rowno, this`cursor, this`buffered, pool
      ensures Valid() && rowno == old(rowno) + 1 && buffered == Some(old(rowno))
    {
      hide Wired, Holds, Decoded, CellOf;
      FetchRow();
      buffered := Some(rowno);
      rowno := rowno + 1;
    }

    /** read(ResultRow&) */
    method ReadRow() returns (ok: bool, row: seq<Option<string>>)
      requires Valid()
      modifies this, pool
      ensures Valid()
      ensures CacheOf() == Next(ShapeOf(), old(CacheOf()), Call.ReadRow)
      ensures ok == (old(rowno) < rows) && (ok ==> row == table[old(rowno)] && rowno == old(rowno) + 1)
    {
      hide Decoded, CellOf;
      if rowno >= rows {
        return false, [];
      }
      Advance();
      row := [];
      var n := 0;
      while n < |types|
        invariant 0 <= n <= |types| && row == table[old(rowno)][..n]
        modifies {}
      {
        row := row + [CellOf(pool[n])];
        n := n + 1;
      }
      ok := true;
    }

    /** read(ResultRowHash&) */
    method ReadHash() returns (ok: bool, hash: map<string, Option<string>>)
      requires Valid()
      modifies this, pool
      ensures Valid()
      ensures CacheOf() == Next(ShapeOf(), old(CacheOf()), Call.ReadRow)
      ensures ok == (old(rowno) < rows) && (ok ==> rowno == old(rowno) + 1)
      ensures ok ==> hash == HashFrom(names, table[old(rowno)], |names|)
    {
      hide Decoded, CellOf;
      hash := map[];
      if rowno >= rows {
        return false, hash;
      }
      Advance();
      var n := 0;
      while n < |types|
        invariant 0 <= n <= |types| && hash == HashFrom(names, table[old(rowno)], n)
        modifies {}
      {
        hash := hash[names[n] := CellOf(pool[n])];
        n := n + 1;
      }
      ok := true;
    }

    /** read(r, c, length): None stands for the null pointer. */
    method ReadCell(r: nat, c: nat) returns (data: Option<string>)
      requires Valid()
      modifies this, pool
      ensures Valid()
      ensures CacheOf() == Next(ShapeOf(), old(CacheOf()), Call.ReadCell(r, c))
      ensures !InRange(ShapeOf(), r, c) ==> data == None
      ensures var k := Served(ShapeOf(), old(CacheOf()), Call.ReadCell(r, c));
              InRange(ShapeOf(), r, c) && k.Some? ==> data == table[k.value][c]
      ensures rowno == if r < rows && c < |types| then r + 1 else old(rowno)
      ensures r < rows && c < |types| && r + 1 != old(rowno) ==> data == table[r][c]
      ensures InRange(ShapeOf(), r, c) && r + 1 == old(rowno) ==>
                pool[..] == old(pool[..]) && data == CellOf(old(pool[c]))
    {
      hide Decoded, CellOf, Linked;
      if r >= rows || c >= |types| {
        return None;
      }
      if r + 1 != rowno {
        if r == 0 {
          Rewind();
        } else if r != rowno {
          Seek(r);
        }
        FetchRow();
        rowno := r + 1;
        buffered := Some(r);
      }
      data := CellOf(pool[c]);
    }

    lemma NextNode(i: nat)
      requires Wired() && NodeAt(nodes, i) != null
      ensures NodeAt(nodes, i).next == NodeAt(nodes, i + 1)
    {
    }

    method Seek(n: nat)
      requires Valid()
      modifies this`rowno, this`cursor
      ensures Valid() && CacheOf() == Next(ShapeOf(), old(CacheOf()), Call.Seek(n))
      ensures rowno == if n < rows then n else old(rowno)
    {
      hide Decoded, Holds, Linked;
      if n >= rows {
        return;
      }
      rowno := n;
      cursor := mysqldata;
      var m := n;
      while cursor != null && m > 0
        invariant 0 <= m <= n == rowno && cursor == NodeAt(nodes, n - m)
        decreases m
        modifies this`cursor
      {
        NextNode(n - m);
        m := m - 1;
        cursor := cursor.next;
      }
    }

    method Rewind()
      requires Valid()
      modifies this`rowno, this`cursor
      ensures Valid() && CacheOf() == Next(ShapeOf(), old(CacheOf()), Call.Rewind)
      ensures rowno == 0
    {
      cursor := mysqldata;
      rowno := 0;
    }
  }

  /** The reader's loop: from any position it gets exactly the remaining rows, in order. */
  method ReadRemaining(res: MySqlBinaryResult) returns (all: seq<seq<Option<string>>>)
    requires res.Valid()
    modifies res, res.pool
    ensures res.Valid() && res.rowno == res.rows && all == res.table[old(res.rowno)..]
  {
    hide MySqlBinaryResult.Decoded, MySqlBinaryResult.Holds, Linked;
    all := [];
    var more, row := res.ReadRow();
    while more
      invariant res.Valid()
      invariant if more then old(res.rowno) < res.rowno && row == res.table[res.rowno - 1]
                             && all == res.table[old(res.rowno)..res.rowno - 1]
                else res.rowno == res.rows && all == res.table[old(res.rowno)..]
      decreases more, res.rows - res.rowno
    {
      all := all + [row];
      more, row := res.ReadRow();
    }
  }

  // ---- from the server's rows to the reader's

  /** The packets of the rows, listed in order. */
  method Packets(types: seq<ColumnType>, rows: seq<Row>) returns (head: PacketNode?, ghost nodes: seq<PacketNode>)
    requires forall k :: 0 <= k < |rows| ==> RowFits(types, rows[k])
    ensures Linked(nodes) && head == NodeAt(nodes, 0)
    ensures |nodes| == |rows| && forall k :: 0 <= k < |rows| ==> nodes[k].data == EncodeRow(types, rows[k])
  {
    NothingLinked();
    hide Linked, LastIsNew, EncodeRow, RowFits;
    head, nodes := null, [];
    var last: PacketNode?, n := null, 0;
    while n < |rows|
      invariant 0 <= n == |nodes| <= |rows|
      invariant Linked(nodes) && LastIsNew(nodes) && last == LastOf(nodes) && head == NodeAt(nodes, 0)
      invariant forall k :: 0 <= k < n ==> fresh(nodes[k]) && nodes[k].data == EncodeRow(types, rows[k])
    {
      var next := Append(last, EncodeRow(types, rows[n]), nodes);
      if last == null {
        head := next;
      }
      last := next;
      nodes := nodes + [next];
      n := n + 1;
    }
  }

  /** Whatever rows the server sends, reading the whole result gives what each of them shows, and that is
      the row itself exactly if all its values survive. */
  method ReadBack(types: seq<ColumnType>, names: seq<string>, rows: seq<Row>, memory: nat -> ResultBuffer)
      returns (all: seq<seq<Option<string>>>)
    requires |names| == |types|
    requires forall k :: 0 <= k < |rows| ==> RowFits(types, rows[k]) && RowDecodes(types, rows[k])
    requires forall c :: |memory(c).data| == INITIAL_ALLOC && memory(c).length == 0
    ensures |all| == |rows|
    ensures forall k :: 0 <= k < |rows| ==>
              && all[k] == ShownRow(types, rows[k])
              && (all[k] == OwnRow(types, rows[k]) <==> RowSurvives(types, rows[k]))
  {
    hide EncodeRow, DecodeRow, ShownRow, OwnRow, RowSurvives, RowFits, Linked, MySqlBinaryResult.Holds;
    var head, source := Packets(types, rows);
    forall k | 0 <= k < |rows|
      ensures var r := DecodeRow(types, source[k].data);
              r.Some? && r.value.value == ShownRow(types, rows[k])
    {
      RowRoundTrip(types, rows[k]);
    }
    var res := new MySqlBinaryResult(types, names, |rows|, head, source, memory);
    all := ReadRemaining(res);
    assert res.table[0..] == res.table;
    forall k | 0 <= k < |rows|
      ensures all[k] == ShownRow(types, rows[k])
      ensures all[k] == OwnRow(types, rows[k]) <==> RowSurvives(types, rows[k])
    {
      ShownRowExactly(types, rows[k]);
    }
  }

  // ---- reading temporal values

  method ReadBinaryTime(p: bytes, pos: nat) returns (tm: MysqlTime, next: nat)
    requires TimeAt(p, pos).Some?
    ensures TimeAt(p, pos) == Some(Parsed(tm, next)) && InUint32(tm)
  {
    var length, to := NetFieldLength(p, pos);
    length := length % TWO_32;
    if length == 0 {
      return ZERO_TIME, to;
    }
    var day, hour := Word(p, to + 1, 4), p[to + 5] as int;
    if day != 0 {
      hour := (hour + day * 24) % TWO_32;
    }
    tm := MysqlTime(0, 0, 0, hour, p[to + 6] as int, p[to + 7] as int);
    next := to + length;
  }

  method ReadBinaryDateTime(p: bytes, pos: nat) returns (tm: MysqlTime, next: nat)
    requires DateTimeAt(p, pos).Some?
    ensures DateTimeAt(p, pos) == Some(Parsed(tm, next)) && InUint32(tm)
  {
    var length, to := NetFieldLength(p, pos);
    length := length % TWO_32;
    if length == 0 {
      return ZERO_TIME, to;
    }
    tm := DateFields(p, to);
    DateFieldsFit(p, to);
    if length > 4 {
      tm := tm.(hour := p[to + 4] as int, minute := p[to + 5] as int, second := p[to + 6] as int);
    }
    next := to + length;
  }

  method ReadBinaryDate(p: bytes, pos: nat) returns (tm: MysqlTime, next: nat)
    requires DateAt(p, pos).Some?
    ensures DateAt(p, pos) == Some(Parsed(tm, next)) && InUint32(tm)
  {
    var length, to := NetFieldLength(p, pos);
    length := length % TWO_32;
    if length == 0 {
      return ZERO_TIME, to;
    }
    tm := DateFields(p, to);
    DateFieldsFit(p, to);
    next := to + length;
  }

  ghost predicate InUint32(tm: MysqlTime) {
    && tm.year < TWO_32 && tm.month < TWO_32 && tm.day < TWO_32
    && tm.hour < TWO_32 && tm.minute < TWO_32 && tm.second < TWO_32
  }

  lemma DateFieldsFit(p: bytes, to: nat)
    requires to + 4 <= |p|
    ensures InUint32(DateFields(p, to))
  {
    WordBound(p, to, 2);
    Powers256();
  }

  /** The field of type t at `row` comes out as `cell`, and the next one starts at `next`. */
  ghost predicate Fetched(t: ColumnType, p: bytes, row: nat, next: nat, cell: Option<string>) {
    cell.Some? && FieldAt(t, p, row) == Some(Parsed(cell.value, next))
  }

  lemma CellsEnd(types: seq<ColumnType>, p: bytes, i: nat)
    requires HeaderSize(|types|) <= |p|
    ensures CellsFrom(types, p, |types|, i) == Some(Parsed([], i))
  {
  }

  lemma NullCell(b: ResultBuffer)
    requires b.isnull
    ensures CellOf(b) == None
  {
  }

  lemma FirstBits()
    ensures Bit(2) == 4 && Bit(0) == 1
  {
  }

  lemma BitDoubles(b: nat)
    requires b < 8
    ensures if b == 7 then Bit(b) * 2 % 256 == 0 else Bit(b) * 2 % 256 == Bit(b + 1)
  {
    BitTable();
  }

  lemma Powers10()
    ensures Decimal.Power10(3) == 1000 && Decimal.Power10(5) == 100_000 && Decimal.Power10(10) == 10_000_000_000
    ensures Decimal.Power10(19) == 10_000_000_000_000_000_000
  {
  }

  /** No integer rendering reaches its snprintf limit. */
  lemma IntegerFits(t: ColumnType, p: bytes, i: nat)
    requires t in {Tiny, Short, Long, LongLong} && FieldAt(t, p, i).Some?
    ensures |FieldAt(t, p, i).value.value| < (match t case Tiny => 5 case Short => 8 case Long => 16 case _ => 32)
  {
    Powers10();
    Powers256();
    match t
    case Tiny => TextFits(p[i] as int, 3);
    case Short =>
      WordBound(p, i, 2);
      TextFits(Signed(Word(p, i, 2), TWO_16), 5);
    case Long =>
      WordBound(p, i, 4);
      TextFits(Signed(Word(p, i, 4), TWO_32), 10);
    case LongLong =>
      WordBound(p, i, 8);
      TextFits(Signed(Word(p, i, 8), TWO_64), 19);
  }

  lemma WordBound(p: bytes, i: nat, k: nat)
    requires i + k <= |p|
    ensures Word(p, i, k) < Power256(k)
  {
    UnsignedBound(p[i..i + k]);
  }

  lemma {:induction false} UnsignedBound(b: bytes)
    ensures Unsigned(b) < Power256(|b|)
  {
    if b != [] {
      UnsignedBound(b[1..]);
    }
  }

  ghost predicate Plain(s: string, limit: nat) {
    '\0' !in s && |s| <= limit
  }

  lemma PlainConcat(a: string, m: nat, b: string, n: nat)
    requires Plain(a, m) && Plain(b, n)
    ensures Plain(a + b, m + n)
  {
  }

  lemma PlainPadded(w: nat, n: nat)
    requires n < TWO_32 && 0 < w <= 10
    ensures Plain(Decimal.Padded(w, AsInt(n)), 11)
  {
    Powers10();
    TextFits(AsInt(n), 10);
  }

  lemma PlainThree(a: string, x: string, b: string, c: string)
    requires Plain(a, 11) && Plain(x, 1) && Plain(b, 11) && Plain(c, 11)
    ensures Plain(a + x + b + x + c, 35)
  {
  }

  /** No temporal rendering reaches its limit of 128. */
  lemma TemporalFits(tm: MysqlTime)
    requires InUint32(tm)
    ensures Plain(ClockText(tm), 127) && Plain(DateText(tm), 127) && Plain(DateTimeText(tm), 127)
  {
    hide Decimal.Padded, AsInt;
    PlainPadded(4, tm.year);
    PlainPadded(2, tm.month);
    PlainPadded(2, tm.day);
    PlainPadded(2, tm.hour);
    PlainPadded(2, tm.minute);
    PlainPadded(2, tm.second);
    PlainThree(Decimal.Padded(4, AsInt(tm.year)), "-", Decimal.Padded(2, AsInt(tm.month)),
               Decimal.Padded(2, AsInt(tm.day)));
    PlainThree(Decimal.Padded(2, AsInt(tm.hour)), ":", Decimal.Padded(2, AsInt(tm.minute)),
               Decimal.Padded(2, AsInt(tm.second)));
    PlainConcat(DateText(tm), 35, " ", 1);
    PlainConcat(DateText(tm) + " ", 36, ClockText(tm), 35);
  }
}
