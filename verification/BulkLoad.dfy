/**
 * SQLite's bulk loader: lines from a StringIO, cut into fields at tabs, bound to the
 * parameters of an insert statement and stepped.
 */
module BulkLoad {
  import opened Optional
  import opened Pieces
  import StringBuffer

  type Bindings = seq<Option<string>>

  /** Binding a parameter the statement does not have fails, and the failure is ignored.
      Parameters count from 1. */
  function BindAt(binds: Bindings, col: nat, v: Option<string>): (r: Bindings)
    ensures |r| == |binds|
  {
    if 1 <= col <= |binds| then binds[col - 1 := v] else binds
  }

  /** A field of one character is bound as NULL, any other as text. */
  function Field(f: string): Option<string> {
    if |f| == 1 then None else Some(f)
  }

  /** The first fields bound in order, NULL in the parameters that are left. */
  function Bound(columns: nat, fields: seq<string>): (binds: Bindings)
    ensures |binds| == columns
    ensures forall i :: 0 <= i < columns ==> binds[i] == if i < |fields| then Field(fields[i]) else None
  {
    seq(columns, i requires 0 <= i => if i < |fields| then Field(fields[i]) else None)
  }

  /** The line as a C string. */
  function CText(line: string): string {
    line[..IndexOf('\0', line)]
  }

  function CharAt(line: string, i: nat): char {
    if i < |line| then line[i] else '\0'
  }

  /** What one line binds. */
  function BoundLine(columns: nat, line: string): (binds: Bindings)
    ensures |binds| == columns
  {
    Bound(columns, Cut('\t', CText(line)))
  }

  function BoundLines(columns: nat, lines: seq<string>): (rows: seq<Bindings>)
    ensures |rows| == |lines|
    ensures forall i :: 0 <= i < |lines| ==> rows[i] == BoundLine(columns, lines[i])
  {
    seq(|lines|, i requires 0 <= i < |lines| => BoundLine(columns, lines[i]))
  }

  /** What a whole input binds, row by row. */
  function Loaded(columns: nat, input: string): seq<Bindings> {
    BoundLines(columns, Cut('\n', input))
  }

  // ---- the loops

  /** Scanning the line for its NUL scans the C string to its end. */
  lemma {:induction false} CTextChars(line: string)
    ensures |CText(line)| <= |line| && CharAt(line, |CText(line)|) == '\0'
    ensures forall i :: 0 <= i < |CText(line)| ==> CharAt(line, i) == CText(line)[i] != '\0'
  {
  }

  lemma {:induction false} CTextSlice(line: string, from: nat, to: nat)
    requires from <= to <= |CText(line)|
    ensures to <= |line| && line[from..to] == CText(line)[from..to]
  {
  }

  lemma {:induction false} BoundNext(columns: nat, fields: seq<string>, f: string)
    ensures Bound(columns, fields + [f]) == BindAt(Bound(columns, fields), |fields| + 1, Field(f))
  {
  }

  /** The nested pointer loops over one line. */
  method BindLine(columns: nat, line: string) returns (binds: Bindings)
    ensures binds == BoundLine(columns, line)
  {
    hide Cut, Bound, CText, CharAt, IndexOf;
    CTextChars(line);
    ghost var text := CText(line);
    ghost var fields: seq<string> := [];
    binds := seq(columns, _ => None);
    BoundNothing(columns);
    var col, start := 0, 0;
    assert text[0..] == text;
    while CharAt(line, start) != '\0'
      invariant 0 <= start <= |text| && col == |fields|
      invariant Cut('\t', text) == fields + Cut('\t', text[start..])
      invariant binds == Bound(columns, fields)
      decreases |text| - start
    {
      var end := start;
      while CharAt(line, end) != '\0' && CharAt(line, end) != '\t'
        invariant start <= end <= |text|
        invariant forall i :: start <= i < end ==> text[i] != '\t'
        decreases |text| - end
      {
        end := end + 1;
      }
      CutNext('\t', text, start, end);
      CTextSlice(line, start, end);
      BoundNext(columns, fields, text[start..end]);
      col := col + 1;
      if end - start == 1 {
        binds := BindAt(binds, col, None);
      } else {
        binds := BindAt(binds, col, Some(line[start..end]));
      }
      fields := fields + [text[start..end]];
      start := if CharAt(line, end) != '\0' then end + 1 else end;
    }
    assert start == |text| && text[start..] == [];
    CutNothing();
    while col < columns
      invariant col >= |fields| && binds == Bound(columns, fields)
    {
      col := col + 1;
      BoundStays(columns, fields, col);
      binds := BindAt(binds, col, None);
    }
  }

  lemma {:induction false} BoundNothing(columns: nat)
    ensures Bound(columns, []) == seq(columns, _ => None)
  {
  }

  lemma {:induction false} CutNothing()
    ensures Cut('\t', []) == []
  {
  }

  lemma {:induction false} BoundStays(columns: nat, fields: seq<string>, col: nat)
    requires col > |fields|
    ensures BindAt(Bound(columns, fields), col, None) == Bound(columns, fields)
  {
  }

  /** Sqlite3Handle::write.  Step number `failing`, if any, fails; then the call throws, and the rows
      before it stay inserted. */
  method WriteRows(io: StringBuffer.StringIO, columns: nat, failing: Option<nat>)
      returns (ok: bool, rows: nat, inserted: seq<Bindings>)
    requires io.Valid() && columns > 0
    modifies io
    ensures io.Valid()
    ensures var all := Loaded(columns, old(io.View().pending));
            if failing.Some? && failing.value < |all| then !ok && inserted == all[..failing.value]
            else ok && inserted == all && rows == |all| && io.View().pending == []
  {
    hide Cut, BoundLine, BoundLines, StringBuffer.StringIO.View, StringBuffer.StringIO.Valid;
    ghost var lines := Cut('\n', io.View().pending);
    ghost var all := BoundLines(columns, lines);
    rows, inserted := 0, [];
    assert lines[0..] == lines;
    var more, line := NextLine(io, lines, 0);
    while more
      invariant io.Valid() && io.data == old(io.data)
      invariant 0 <= rows <= |lines| && inserted == all[..rows]
      invariant failing.Some? ==> rows <= failing.value
      invariant if more then rows < |lines| && line == lines[rows] && Cut('\n', io.View().pending) == lines[rows + 1..]
                else rows == |lines| && io.View().pending == []
      decreases |lines| - rows
    {
      var binds := BindLine(columns, line);
      if failing == Some(rows) {
        return false, rows, inserted;
      }
      inserted := inserted + [binds];
      rows := rows + 1;
      more, line := NextLine(io, lines, rows);
    }
    ok := true;
  }

  /** readline, in terms of the lines of the whole input, of which `done` are read. */
  method NextLine(io: StringBuffer.StringIO, ghost lines: seq<string>, ghost done: nat)
      returns (more: bool, line: string)
    requires io.Valid() && done <= |lines| && Cut('\n', io.View().pending) == lines[done..]
    modifies io
    ensures io.Valid() && io.data == old(io.data)
    ensures if more then done < |lines| && line == lines[done] && Cut('\n', io.View().pending) == lines[done + 1..]
            else done == |lines| && io.View().pending == []
  {
    LinesUnfold(io.View());
    assert done < |lines| ==> lines[done..][1..] == lines[done + 1..];
    hide Cut, IndexOf, StringBuffer.Line;
    more, line := io.Readline();
  }

  /** What a readline takes off the lines still to come. */
  lemma {:induction false} LinesUnfold(q: StringBuffer.Queue)
    ensures var lines := Cut('\n', q.pending);
            match StringBuffer.Line(q)
            case None => q.pending == [] && lines == []
            case Some(line) =>
              && lines != [] && lines[0] == line
              && lines[1..] == Cut('\n', StringBuffer.Next(q, StringBuffer.ReadLine).pending)
  {
  }

  // ---- printing and loading

  type Table = seq<seq<string>>

  /** Fields joined by tabs, each row ended by a newline. */
  function Print(table: Table): string
    requires forall i :: 0 <= i < |table| ==> table[i] != []
  {
    if table == [] then [] else Join('\t', table[0]) + ['\n'] + Print(table[1..])
  }

  function Wanted(table: Table): (rows: seq<Bindings>)
    ensures |rows| == |table|
  {
    seq(|table|, i requires 0 <= i < |table| => AllText(table[i]))
  }

  function AllText(row: seq<string>): (binds: Bindings)
    ensures |binds| == |row|
  {
    seq(|row|, i requires 0 <= i < |row| => Some(row[i]))
  }

  /** No separator and no NUL inside. */
  predicate Clean(f: string) {
    '\t' !in f && '\n' !in f && '\0' !in f
  }

  /** The rows the format can carry. */
  predicate Loadable(row: seq<string>) {
    && row != [] && row[|row| - 1] != []
    && forall i :: 0 <= i < |row| ==> Clean(row[i]) && |row[i]| != 1
  }

  predicate CleanRow(row: seq<string>) {
    row != [] && forall i :: 0 <= i < |row| ==> Clean(row[i])
  }

  lemma {:induction false} JoinClean(row: seq<string>)
    requires CleanRow(row)
    ensures '\n' !in Join('\t', row) && '\0' !in Join('\t', row)
  {
    if |row| > 1 {
      JoinClean(row[1..]);
    }
  }

  /** A row of clean fields arrives as all its fields, less a last one that is empty. */
  lemma {:induction false} CleanRowBinds(columns: nat, row: seq<string>)
    requires CleanRow(row)
    ensures BoundLine(columns, Join('\t', row))
         == Bound(columns, if row[|row| - 1] == [] then row[..|row| - 1] else row)
  {
    var line := Join('\t', row);
    JoinClean(row);
    IndexOfIs('\0', line, |line|);
    assert CText(line) == line;
    forall i | 0 <= i < |row| ensures '\t' !in row[i] {
      assert Clean(row[i]);
    }
    JoinSplits('\t', row);
    CutIsSplit('\t', line);
  }

  /** What a row of clean fields binds to any number of parameters: NULL for a field of one character and for
      every parameter behind the last field, which does not count if it is empty; the field for the rest. */
  lemma {:induction false} RowBinds(columns: nat, row: seq<string>, i: nat)
    requires CleanRow(row) && i < columns
    ensures var n := if row[|row| - 1] == [] then |row| - 1 else |row|;
            BoundLine(columns, Join('\t', row))[i] == if i >= n || |row[i]| == 1 then None else Some(row[i])
  {
    CleanRowBinds(columns, row);
    hide BoundLine, Join;
  }

  /** A line ends at its first NUL. */
  lemma {:induction false} NulEndsLine(columns: nat, a: string, b: string)
    requires '\0' !in a
    ensures BoundLine(columns, a + "\0" + b) == BoundLine(columns, a)
  {
    IndexOfIs('\0', a + "\0" + b, |a|);
    IndexOfIs('\0', a, |a|);
    assert (a + "\0" + b)[..|a|] == a == a[..|a|];
  }

  /** An input is taken line by line; a newline at its end starts no other line. */
  lemma {:induction false} LineByLine(columns: nat, line: string, rest: string)
    requires '\n' !in line
    ensures Loaded(columns, line + "\n" + rest) == [BoundLine(columns, line)] + Loaded(columns, rest)
    ensures Loaded(columns, line) == if line == [] then [] else [BoundLine(columns, line)]
  {
    hide BoundLine;
    CutFirst('\n', line, rest);
    if line != [] {
      IndexOfIs('\n', line, |line|);
      assert line[..|line|] == line;
    }
  }

  lemma {:induction false} RowBindsExactly(row: seq<string>)
    requires CleanRow(row)
    ensures BoundLine(|row|, Join('\t', row)) == AllText(row) <==> Loadable(row)
  {
    hide BoundLine, Join, Bound;
    CleanRowBinds(|row|, row);
    var last := |row| - 1;
    var binds := BoundLine(|row|, Join('\t', row));
    if row[last] == [] {
      assert binds[last] == None && AllText(row)[last] == Some(row[last]);
    } else {
      forall i | 0 <= i < |row| ensures binds[i] == AllText(row)[i] <==> |row[i]| != 1 {
        assert AllText(row)[i] == Some(row[i]);
      }
    }
  }

  predicate CleanTable(table: Table) {
    forall i :: 0 <= i < |table| ==> CleanRow(table[i])
  }

  lemma {:induction false} PrintedLines(table: Table)
    requires CleanTable(table)
    ensures Cut('\n', Print(table)) ==
            seq(|table|, i requires 0 <= i < |table| && CleanTable(table) => Join('\t', table[i]))
  {
    if table != [] {
      JoinClean(table[0]);
      assert forall i :: 0 <= i < |table| - 1 ==> table[1..][i] == table[i + 1];
      PrintedLines(table[1..]);
      CutFirst('\n', Join('\t', table[0]), Print(table[1..]));
    }
  }

  /** Whatever the input, bound texts are clean. */
  lemma {:induction false} BoundClean(columns: nat, input: string, r: nat, c: nat)
    requires r < |Loaded(columns, input)| && c < columns && Loaded(columns, input)[r][c].Some?
    ensures Clean(Loaded(columns, input)[r][c].value)
  {
    var line := Cut('\n', input)[r];
    var text := CText(line);
    var f := Cut('\t', text)[c];
    CutKeeps('\t', text, c);
    assert forall x :: x in f ==> x in text && x in line;
    assert '\0' !in text;
    assert '\n' !in line && '\t' !in f;
  }

  /** Printing a table and loading it binds exactly its fields, if and only if every row is one the
      format can carry: no field holds a separator or NUL or has length one, and the last is not empty. */
  lemma {:induction false} TableRoundTripsExactly(columns: nat, table: Table)
    requires columns > 0 && forall i :: 0 <= i < |table| ==> |table[i]| == columns
    ensures Loaded(columns, Print(table)) == Wanted(table) <==> forall i :: 0 <= i < |table| ==> Loadable(table[i])
  {
    var loaded := Loaded(columns, Print(table));
    if loaded == Wanted(table) {
      forall r | 0 <= r < |table| ensures CleanRow(table[r]) {
        forall c | 0 <= c < columns ensures Clean(table[r][c]) {
          assert loaded[r] == Wanted(table)[r] == AllText(table[r]);
          assert loaded[r][c] == Some(table[r][c]);
          BoundClean(columns, Print(table), r, c);
        }
      }
    }
    if CleanTable(table) {
      PrintedLines(table);
      forall i | 0 <= i < |table| ensures loaded[i] == Wanted(table)[i] <==> Loadable(table[i]) {
        RowBindsExactly(table[i]);
      }
    } else {
      var i :| 0 <= i < |table| && !CleanRow(table[i]);
      assert !Loadable(table[i]);
    }
  }

  /** What is written to an empty buffer is what is pending. */
  lemma {:induction false} PendingFirst(text: string)
    ensures StringBuffer.Next(StringBuffer.Queue([], false), StringBuffer.Op.Write(text)).pending == text
  {
    assert [] + text == text;
  }

  /** A caller's whole load: print a table into a fresh buffer and write it to a table of as many columns. */
  method LoadTable(columns: nat, table: Table) returns (rows: nat, inserted: seq<Bindings>)
    requires columns > 0 && forall i :: 0 <= i < |table| ==> |table[i]| == columns
    ensures inserted == Wanted(table) <==> forall i :: 0 <= i < |table| ==> Loadable(table[i])
    ensures rows == |inserted| && (inserted == Wanted(table) ==> rows == |table|)
  {
    hide Loaded, Print, Loadable;
    var io := new StringBuffer.StringIO();
    io.Write(Print(table));
    PendingFirst(Print(table));
    var ok;
    ok, rows, inserted := WriteRows(io, columns, None);
    TableRoundTripsExactly(columns, table);
  }
}
