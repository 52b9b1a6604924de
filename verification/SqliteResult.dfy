/**
 * SQLite results: a statement steps through its rows and copies them into a result, which is
 * then read at will.  A statement run again fills the same result anew.
 */
module SqliteResult {
  import opened Optional

  type Record = seq<Option<string>>

  /** A column of the row just stepped to, by its storage class; a null pointer is None. */
  datatype Column =
    | Null
    | Blob(data: Option<string>)
    | Number(text: Option<string>)

  /** An empty text or blob has no pointer, but it is not NULL. */
  function ValueOf(c: Column): Option<string> {
    match c
    case Null => None
    case Blob(data) => if data.Some? then data else Some("")
    case Number(text) => text
  }

  function RecordOf(row: seq<Column>): (r: Record)
    ensures |r| == |row|
  {
    seq(|row|, c requires 0 <= c < |row| => ValueOf(row[c]))
  }

  function Records(steps: seq<seq<Column>>): (rs: seq<Record>)
    ensures |rs| == |steps|
  {
    seq(|steps|, r requires 0 <= r < |steps| => RecordOf(steps[r]))
  }

  /** A cell is null exactly if its storage class is NULL or a number has no text; an empty text or blob is
      the empty text, and everything else is itself. */
  lemma CellNullExactly(steps: seq<seq<Column>>, r: nat, c: nat)
    requires r < |steps| && c < |steps[r]|
    ensures var column, cell := steps[r][c], Records(steps)[r][c];
            && (cell == None <==> column == Null || column == Number(None))
            && (column == Blob(None) ==> cell == Some(""))
            && (column.Blob? && column.data.Some? ==> cell == column.data)
            && (column.Number? && column.text.Some? ==> cell == column.text)
  {
  }

  class Sqlite3Result {
    const cols: nat
    var rowdata: seq<Record>
    var rowno: nat
    var rows: nat
    var affectedRows: nat

    /** Complete: one record for each row. */
    ghost predicate Valid()
      reads this
    {
      rows == |rowdata| && forall r :: 0 <= r < |rowdata| ==> |rowdata[r]| == cols
    }

    /** Being filled: the record under construction, if begun, is the last one. */
    ghost predicate Filling()
      reads this
    {
      && rows == rowno <= |rowdata| <= rowno + 1
      && forall r :: 0 <= r < |rowdata| ==> |rowdata[r]| == cols
    }

    constructor (cols: nat)
      ensures this.cols == cols && rowdata == [] && rowno == rows == affectedRows == 0
    {
      this.cols := cols;
      rowdata, rowno, rows, affectedRows := [], 0, 0, 0;
    }

    method Clear()
      modifies this
      ensures rowdata == [] && rowno == rows == affectedRows == 0
    {
      rowno, rows, affectedRows := 0, 0, 0;
      rowdata := [];
    }

    method Write(c: nat, value: Option<string>)
      requires Filling() && c < cols
      modifies this`rowdata
      ensures Filling() && |rowdata| == rowno + 1 && rowdata[..rowno] == old(rowdata[..rowno])
      ensures rowdata[rowno][c] == value
      ensures old(|rowdata|) > rowno ==> rowdata[rowno] == old(rowdata[rowno])[c := value]
    {
      if |rowdata| <= rowno {
        rowdata := rowdata + [seq(cols, _ => None)];
      }
      rowdata := rowdata[rowno := rowdata[rowno][c := value]];
    }

    method Flush()
      modifies this`rowno, this`rows
      ensures rowno == old(rowno) + 1 && rows == old(rows) + 1
    {
      rowno := rowno + 1;
      rows := rows + 1;
    }

    function Rows(): nat
      reads this
    {
      if cols > 0 then rows else affectedRows
    }

    method Rewind()
      modifies this`rowno
      ensures rowno == 0
    {
      rowno := 0;
    }

    method Seek(r: nat)
      modifies this`rowno
      ensures rowno == r
    {
      rowno := r;
    }

    method ReadRow() returns (ok: bool, row: Record)
      requires Valid()
      modifies this`rowno
      ensures Valid()
      ensures ok == (old(rowno) < |rowdata|)
      ensures if ok then row == rowdata[old(rowno)] && rowno == old(rowno) + 1 else rowno == old(rowno)
    {
      ok, row := false, [];
      if rowno < rows {
        row := rowdata[rowno];
        rowno := rowno + 1;
        ok := true;
      }
    }

    method ReadCell(r: nat, c: nat) returns (data: Option<string>)
      requires Valid()
      ensures data == if r < |rowdata| && c < cols then rowdata[r][c] else None
    {
      if r >= rows || c >= cols {
        return None;
      }
      data := rowdata[r][c];
    }
  }

  /** The reader's loop: from any position it gets exactly the remaining rows, in order. */
  method ReadRemaining(res: Sqlite3Result) returns (all: seq<Record>)
    requires res.Valid()
    modifies res`rowno
    ensures res.Valid()
    ensures all == if old(res.rowno) < |res.rowdata| then res.rowdata[old(res.rowno)..] else []
  {
    all := [];
    var more, row := res.ReadRow();
    while more
      invariant res.Valid()
      invariant if more then old(res.rowno) < res.rowno <= |res.rowdata| && row == res.rowdata[res.rowno - 1]
                             && all == res.rowdata[old(res.rowno)..res.rowno - 1]
                else all == if old(res.rowno) < |res.rowdata| then res.rowdata[old(res.rowno)..] else []
      decreases more, |res.rowdata| - res.rowno
    {
      all := all + [row];
      more, row := res.ReadRow();
    }
  }

  class Sqlite3Statement {
    const columns: nat
    const parameters: nat
    var result: Sqlite3Result?

    constructor (columns: nat, parameters: nat)
      ensures this.columns == columns && this.parameters == parameters && result == null
    {
      this.columns, this.parameters := columns, parameters;
      result := null;
    }

    /** Whatever the result held before, it holds exactly the rows of this run. */
    method Execute(bound: nat, steps: seq<seq<Column>>, done: bool, changes: nat) returns (ok: bool)
      requires result != null ==> result.cols == columns
      requires forall r :: 0 <= r < |steps| ==> |steps[r]| == columns
      requires columns == 0 ==> steps == []
      modifies this, result
      ensures ok == (bound == parameters && done)
      ensures bound != parameters ==> result == old(result)
      ensures bound == parameters ==> result != null && result.cols == columns && result.Valid()
      ensures bound == parameters ==> result.rowdata == Records(steps)
      ensures old(result) != null ==> result == old(result)
      ensures ok ==> result.rowno == 0 && result.Rows() == if columns > 0 then |steps| else changes
    {
      if bound != parameters {
        return false;
      }
      if result != null {
        result.Clear();
      } else {
        result := new Sqlite3Result(columns);
      }
      var res := result;
      var k := 0;
      while k < |steps|
        invariant 0 <= k <= |steps| && result == res && res.cols == columns
        invariant res.rowno == res.rows == k && res.rowdata == Records(steps)[..k]
        modifies res
      {
        LoadRow(res, steps[k]);
        res.Flush();
        k := k + 1;
      }
      if !done {
        return false;
      }
      res.Rewind();
      res.affectedRows := changes;
      ok := true;
    }

    /** The columns of one stepped row into the result's next record. */
    static method LoadRow(res: Sqlite3Result, row: seq<Column>)
      requires |row| == res.cols > 0
      requires res.rows == res.rowno == |res.rowdata|
      requires forall r :: 0 <= r < |res.rowdata| ==> |res.rowdata[r]| == res.cols
      modifies res`rowdata
      ensures res.rowdata == old(res.rowdata) + [RecordOf(row)]
    {
      var n := 0;
      while n < res.cols
        invariant 0 <= n <= res.cols && res.Filling()
        invariant n > 0 ==> |res.rowdata| == res.rowno + 1
        invariant res.rowdata[..res.rowno] == old(res.rowdata)
        invariant n > 0 ==> res.rowdata[res.rowno][..n] == RecordOf(row)[..n]
      {
        match row[n] {
          case Null => res.Write(n, None);
          case Blob(data) => res.Write(n, if data.Some? then data else Some(""));
          case Number(text) => res.Write(n, text);
        }
        n := n + 1;
      }
      assert res.rowdata[res.rowno] == RecordOf(row);
      assert res.rowdata == res.rowdata[..res.rowno] + [res.rowdata[res.rowno]];
    }
  }
}
