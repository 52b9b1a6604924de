/**
 * The text result set of a MySQL query: rows stay in the client library, which has its own
 * cursor, and the result keeps a pointer to the row fetched last.
 */
module TextResult {
  import opened Optional
  import opened RowCache

  type TextRow = seq<Option<string>>

  /** What reading a cell comes to: the cell, null when NULL or out of range, or an access through the
      pointer to the row fetched last while it is not set. */
  datatype Reading = Cell(data: Option<string>) | UnsetPointer

  class MySqlResult {
    const table: seq<TextRow>
    const columns: nat
    var rowno: nat
    /** The library's cursor: the row its next fetch returns; at the end it stays there. */
    var libraryCursor: nat
    /** None before the first fetch, when the pointer is not set. */
    var rowdata: Option<TextRow>
    ghost var buffered: Option<nat>

    ghost predicate Valid()
      reads this
    {
      && (forall r :: 0 <= r < |table| ==> |table[r]| == columns)
      && libraryCursor == (if rowno < |table| then rowno else |table|)
      && (if buffered.None? then rowdata == None
          else buffered.value < |table| && rowdata == Some(table[buffered.value]))
    }

    /** Unlike the binary result, seek takes any position. */
    ghost function ShapeOf(): Shape {
      Shape(|table|, columns, false)
    }

    ghost function CacheOf(): Cache
      reads this
    {
      Cache(rowno, buffered)
    }

    constructor (table: seq<TextRow>, columns: nat)
      requires forall r :: 0 <= r < |table| ==> |table[r]| == columns
      ensures Valid() && CacheOf() == START.cache && this.table == table && this.columns == columns
    {
      this.table, this.columns := table, columns;
      rowno, libraryCursor, rowdata, buffered := 0, 0, None, None;
    }

    /** mysql_fetch_row: the row under the cursor, and the cursor moves on. */
    method Fetch()
      requires libraryCursor < |table|
      modifies this`libraryCursor, this`rowdata, this`buffered
      ensures rowdata == Some(table[old(libraryCursor)]) && buffered == Some(old(libraryCursor))
      ensures libraryCursor == old(libraryCursor) + 1
    {
      rowdata, buffered := Some(table[libraryCursor]), Some(libraryCursor);
      libraryCursor := libraryCursor + 1;
    }

    method ReadRow() returns (ok: bool, row: TextRow)
      requires Valid()
      modifies this
      ensures Valid() && CacheOf() == Next(ShapeOf(), old(CacheOf()), Call.ReadRow)
      ensures ok == (old(rowno) < |table|) && (ok ==> row == table[old(rowno)] && rowno == old(rowno) + 1)
    {
      ok, row := false, [];
      if rowno < |table| {
        rowno := rowno + 1;
        Fetch();
        var n := 0;
        while n < columns
          invariant 0 <= n <= columns && row == rowdata.value[..n]
          modifies {}
        {
          row := row + [rowdata.value[n]];
          n := n + 1;
        }
        ok := true;
      }
    }

    method ReadCell(r: nat, c: nat) returns (reading: Reading)
      requires Valid()
      modifies this
      ensures Valid() && CacheOf() == Next(ShapeOf(), old(CacheOf()), Call.ReadCell(r, c))
      ensures var k := Served(ShapeOf(), old(CacheOf()), Call.ReadCell(r, c));
              reading == if !InRange(ShapeOf(), r, c) then Cell(None)
                         else if k.Some? then Cell(table[k.value][c])
                         else UnsetPointer
      ensures rowno == if r < |table| && c < columns then r + 1 else old(rowno)
      ensures r < |table| && c < columns && r + 1 != old(rowno) ==> reading == Cell(table[r][c])
      ensures reading.UnsetPointer? <==> InRange(ShapeOf(), r, c) && r + 1 == old(rowno) && old(buffered).None?
    {
      if r >= |table| || c >= columns {
        return Cell(None);
      }
      if r + 1 != rowno {
        if r == 0 {
          Rewind();
        } else if r != rowno {
          Seek(r);
        }
        Fetch();
        rowno := r + 1;
      }
      if rowdata.None? {
        return UnsetPointer;
      }
      reading := Cell(rowdata.value[c]);
    }

    method Seek(r: nat)
      requires Valid()
      modifies this`rowno, this`libraryCursor
      ensures Valid() && CacheOf() == Next(ShapeOf(), old(CacheOf()), Call.Seek(r))
      ensures rowno == r
    {
      libraryCursor := if r < |table| then r else |table|;
      rowno := r;
    }

    method Rewind()
      requires Valid()
      modifies this`rowno, this`libraryCursor
      ensures Valid() && CacheOf() == Next(ShapeOf(), old(CacheOf()), Call.Rewind)
      ensures rowno == 0
    {
      rowno := 0;
      libraryCursor := 0;
    }
  }
}
