/**
 * The one-row cache both MySQL results keep: a position, and the row that was fetched last.
 * A cell is served from the fetched row without another fetch when the position says that it
 * is the row just before.  Positions also move without a fetch, and then it need not be.
 */
module RowCache {
  import opened Optional

  /** `buffered` is the row fetched last, if any. */
  datatype Cache = Cache(rowno: nat, buffered: Option<nat>)

  /** A result's size, and whether its `seek` ignores positions at or past the end. */
  datatype Shape = Shape(rows: nat, columns: nat, boundedSeek: bool)

  datatype Call =
    | ReadRow
    | ReadCell(r: nat, c: nat)
    | Seek(n: nat)
    | Rewind

  predicate InRange(shape: Shape, r: nat, c: nat) {
    r < shape.rows && c < shape.columns
  }

  /** Whether the call fetches a row. */
  predicate Fetches(shape: Shape, s: Cache, call: Call) {
    match call
    case ReadRow => s.rowno < shape.rows
    case ReadCell(r, c) => InRange(shape, r, c) && r + 1 != s.rowno
    case _ => false
  }

  /** Whether the call is a seek that moves the position. */
  predicate Seeks(shape: Shape, call: Call) {
    call.Seek? && (shape.boundedSeek ==> call.n < shape.rows)
  }

  function Next(shape: Shape, s: Cache, call: Call): Cache {
    match call
    case ReadRow => if Fetches(shape, s, call) then Cache(s.rowno + 1, Some(s.rowno)) else s
    case ReadCell(r, c) => if Fetches(shape, s, call) then Cache(r + 1, Some(r)) else s
    case Seek(n) => if Seeks(shape, call) then s.(rowno := n) else s
    case Rewind => s.(rowno := 0)
  }

  /** The row whose values a read returns; None when there is nothing to return. */
  function Served(shape: Shape, s: Cache, call: Call): Option<nat> {
    match call
    case ReadRow => if Fetches(shape, s, call) then Some(s.rowno) else None
    case ReadCell(r, c) =>
      if !InRange(shape, r, c) then None else if Fetches(shape, s, call) then Some(r) else s.buffered
    case _ => None
  }

  // ---- where a call leaves the position, in terms of the row the next read returns

  function Upcoming(shape: Shape, s: Cache): Option<nat> {
    Served(shape, s, ReadRow)
  }

  /** Reading goes on behind the cell's row, with the row sought, or with the first row; a call out of
      range moves nothing. */
  lemma ReadingGoesOn(shape: Shape, s: Cache, call: Call)
    ensures var next := Upcoming(shape, Next(shape, s, call));
            match call
            case ReadRow =>
              if s.rowno < shape.rows then next == if s.rowno + 1 < shape.rows then Some(s.rowno + 1) else None
              else Next(shape, s, call) == s
            case ReadCell(r, c) =>
              if r < shape.rows && c < shape.columns then next == if r + 1 < shape.rows then Some(r + 1) else None
              else Next(shape, s, call) == s
            case Seek(n) =>
              if n < shape.rows then next == Some(n)
              else if shape.boundedSeek then Next(shape, s, call) == s else next == None
            case Rewind => next == if shape.rows > 0 then Some(0) else None
  {
  }

  /** What was fetched last stays what it is but for a call that fetches: a row read fetches the row it
      returns, a cell read the row of its cell unless that is the row before the position. */
  lemma FetchedLast(shape: Shape, s: Cache, call: Call)
    ensures Next(shape, s, call).buffered ==
            match call
            case ReadRow => if s.rowno < shape.rows then Some(s.rowno) else s.buffered
            case ReadCell(r, c) =>
              if r < shape.rows && c < shape.columns && s.rowno != r + 1 then Some(r) else s.buffered
            case _ => s.buffered
  {
  }

  // ---- whole runs

  /** `sought`: the position was last set by a seek, and nothing was fetched since. */
  datatype Tracked = Tracked(cache: Cache, sought: bool)

  const START := Tracked(Cache(0, None), false)

  function Track(shape: Shape, t: Tracked, call: Call): Tracked {
    Tracked(Next(shape, t.cache, call),
            Seeks(shape, call) || (t.sought && !call.Rewind? && !Fetches(shape, t.cache, call)))
  }

  function TrackAll(shape: Shape, t: Tracked, calls: seq<Call>): Tracked
    decreases |calls|
  {
    if calls == [] then t else TrackAll(shape, Track(shape, t, calls[0]), calls[1..])
  }

  /** Unless a seek is pending, the row before the position is the one in the buffer. */
  ghost predicate Coherent(shape: Shape, t: Tracked) {
    && (!t.sought ==> t.cache.rowno > 0 ==> t.cache.buffered == Some(t.cache.rowno - 1))
    && (t.cache.buffered.Some? ==> t.cache.buffered.value < shape.rows)
    && (shape.boundedSeek ==> t.cache.rowno <= shape.rows)
  }

  lemma {:induction false} StaysCoherent(shape: Shape, t: Tracked, calls: seq<Call>)
    requires Coherent(shape, t)
    ensures Coherent(shape, TrackAll(shape, t, calls))
    decreases |calls|
  {
    if calls != [] {
      StaysCoherent(shape, Track(shape, t, calls[0]), calls[1..]);
    }
  }

  /** After any run of calls, asking for a cell in range is answered from the right row, except
      for the row just before a pending seek's target, which is answered from the buffer as it is. */
  lemma CellComesFromItsRowExactly(shape: Shape, calls: seq<Call>, r: nat, c: nat)
    requires InRange(shape, r, c)
    ensures var t := TrackAll(shape, START, calls);
            Served(shape, t.cache, ReadCell(r, c)) == Some(r)
            <==> !(t.sought && t.cache.rowno == r + 1 && t.cache.buffered != Some(r))
  {
    StaysCoherent(shape, START, calls);
  }

  /** The exception does occur: fetch row 0, seek past row 1, ask for row 1. */
  lemma SeekMisleads(shape: Shape)
    requires shape.rows > 2 && shape.columns > 0
    ensures Served(shape, TrackAll(shape, START, [ReadRow, Seek(2)]).cache, ReadCell(1, 0)) == Some(0)
  {
  }

  /** The rows that n consecutive row reads return. */
  function Drain(shape: Shape, s: Cache, n: nat): seq<Option<nat>>
    decreases n
  {
    if n == 0 then [] else [Served(shape, s, ReadRow)] + Drain(shape, Next(shape, s, ReadRow), n - 1)
  }

  /** Reading on from any position yields exactly the remaining rows in order, and then nothing. */
  lemma {:induction false} DrainYieldsTheRest(shape: Shape, s: Cache, n: nat)
    ensures |Drain(shape, s, n)| == n
    ensures forall i :: 0 <= i < n ==>
              Drain(shape, s, n)[i] == if s.rowno + i < shape.rows then Some(s.rowno + i) else None
    decreases n
  {
    if n > 0 {
      DrainYieldsTheRest(shape, Next(shape, s, ReadRow), n - 1);
    }
  }
}
