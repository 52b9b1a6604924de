/**
 * StringIO: a growable byte buffer with a write position and a read position, read in chunks
 * or line by line.
 */
module StringBuffer {
  import opened Optional
  import opened Pieces

  // ---- what the buffer is, abstractly

  /** What is still to be read.  `overrun`: the last line read had no newline, and the read position
      stands one behind the write position. */
  datatype Queue = Queue(pending: string, overrun: bool)

  datatype Op =
    | Write(text: string)
    | Take(size: nat)
    | ReadLine
    | Truncate

  const CHUNK := 16384

  /** A write behind an overrun loses its first character. */
  function Next(q: Queue, op: Op): Queue {
    match op
    case Write(text) =>
      if text == [] then q else if q.overrun then Queue(text[1..], false) else Queue(q.pending + text, false)
    case Take(size) => q.(pending := q.pending[|Taken(q, size)|..])
    case ReadLine =>
      if q.pending == [] then q
      else
        var k := IndexOf('\n', q.pending);
        if k < |q.pending| then Queue(q.pending[k + 1..], false) else Queue([], true)
    case Truncate => Queue([], false)
  }

  function Taken(q: Queue, size: nat): (chunk: string)
    ensures |chunk| <= |q.pending| && chunk == q.pending[..|chunk|]
  {
    if size < |q.pending| then q.pending[..size] else q.pending
  }

  /** The line a readline returns. */
  function Line(q: Queue): Option<string> {
    if q.pending == [] then None else Some(q.pending[..IndexOf('\n', q.pending)])
  }

  /** The bytes an operation removes; a line counts with the newline behind it, if it had one. */
  function Removed(q: Queue, op: Op): string {
    match op
    case Write(_) => []
    case Take(size) => Taken(q, size)
    case ReadLine =>
      if q.pending == [] then []
      else
        var k := IndexOf('\n', q.pending);
        if k < |q.pending| then q.pending[..k + 1] else q.pending
    case Truncate => q.pending
  }

  /** Everything ever written, and everything handed out or dropped by a truncate. */
  datatype Ledger = Ledger(queue: Queue, written: string, removed: string)

  function Enter(l: Ledger, op: Op): Ledger {
    Ledger(Next(l.queue, op), l.written + (if op.Write? then op.text else []), l.removed + Removed(l.queue, op))
  }

  /** The books after a run that starts with an empty buffer. */
  function After(ops: seq<Op>): Ledger {
    if ops == [] then Ledger(Queue([], false), [], []) else Enter(After(ops[..|ops| - 1]), ops[|ops| - 1])
  }

  ghost predicate NothingLost(l: Ledger) {
    l.written == l.removed + l.queue.pending
  }

  /** One call on a queue that never loses anything. */
  function Held(held: string, op: Op): string {
    match op
    case Write(text) => held + text
    case Take(size) => if size < |held| then held[size..] else []
    case ReadLine => if '\n' in held then held[IndexOf('\n', held) + 1..] else []
    case Truncate => []
  }

  /** What such a queue would hold after these calls. */
  function Ideal(ops: seq<Op>): string {
    if ops == [] then [] else Held(Ideal(ops[..|ops| - 1]), ops[|ops| - 1])
  }

  /** The call reads a last line that no newline ends. */
  predicate TakesTail(held: string, op: Op) {
    op.ReadLine? && held != [] && '\n' !in held
  }

  predicate ReadsTail(ops: seq<Op>, i: nat)
    requires i < |ops|
  {
    TakesTail(Ideal(ops[..i]), ops[i])
  }

  /** Some call read such a line, and no truncate followed. */
  ghost predicate TailRead(ops: seq<Op>) {
    exists i :: 0 <= i < |ops| && ReadsTail(ops, i) && Truncate !in ops[i..]
  }

  /** Behind a last line that no newline ends, once it is read, nothing is written before a truncate. */
  ghost predicate Careful(ops: seq<Op>) {
    forall j :: 0 <= j < |ops| && ops[j].Write? && ops[j].text != [] ==> !TailRead(ops[..j])
  }

  lemma {:induction false} CarefulStep(ops: seq<Op>, op: Op)
    ensures Careful(ops + [op]) <==> Careful(ops) && (op.Write? && op.text != [] ==> !TailRead(ops))
  {
    hide TailRead;
    var all := ops + [op];
    assert forall j :: 0 <= j <= |ops| ==> all[..j] == ops[..j];
    assert ops[..|ops|] == ops && all[|ops|] == op;
    if Careful(all) {
      forall j | 0 <= j < |ops| && ops[j].Write? && ops[j].text != [] ensures !TailRead(ops[..j]) {
        assert all[j] == ops[j] && all[..j] == ops[..j];
      }
    }
  }

  lemma {:induction false} TailReadStep(ops: seq<Op>, op: Op)
    ensures TailRead(ops + [op]) <==>
              !op.Truncate? && (TailRead(ops) || TakesTail(Ideal(ops), op))
  {
    hide Ideal;
    var all, n := ops + [op], |ops|;
    assert all[..n] == ops && all[n] == op;
    if TailRead(all) {
      var i :| 0 <= i < |all| && ReadsTail(all, i) && Truncate !in all[i..];
      assert all[i..][n - i] == op;
      if i < n {
        assert all[..i] == ops[..i] && all[i..] == ops[i..] + [op];
        assert ReadsTail(ops, i);
      }
    }
    if TailRead(ops) && !op.Truncate? {
      var i :| 0 <= i < |ops| && ReadsTail(ops, i) && Truncate !in ops[i..];
      assert all[..i] == ops[..i] && all[i..] == ops[i..] + [op];
      assert ReadsTail(all, i);
    }
    if TakesTail(Ideal(ops), op) {
      assert ReadsTail(all, n) && all[n..] == [op];
    }
  }

  /** The books never show more than was written, and what they show is in order until a byte is lost. */
  ghost predicate Balanced(l: Ledger) {
    && |l.removed| + |l.queue.pending| <= |l.written|
    && (|l.removed| + |l.queue.pending| == |l.written| ==> NothingLost(l))
    && (l.queue.overrun ==> l.queue.pending == [])
  }

  lemma {:induction false} RemovedIsTaken(q: Queue, op: Op)
    requires !op.Write?
    ensures q.pending == Removed(q, op) + Next(q, op).pending
    ensures (q.overrun ==> q.pending == []) ==> (Next(q, op).overrun ==> Next(q, op).pending == [])
  {
  }

  lemma {:induction false} WriteBalances(l: Ledger, text: string)
    requires Balanced(l)
    ensures var r := Enter(l, Op.Write(text));
            Balanced(r) && (NothingLost(r) <==> NothingLost(l) && !(text != [] && l.queue.overrun))
  {
    hide IndexOf;
    assert l.removed + [] == l.removed;
    if !l.queue.overrun {
      assert l.removed + l.queue.pending + text == l.removed + (l.queue.pending + text);
    }
  }

  lemma {:induction false} ReadBalances(l: Ledger, op: Op)
    requires Balanced(l) && !op.Write?
    ensures Balanced(Enter(l, op)) && (NothingLost(Enter(l, op)) <==> NothingLost(l))
  {
    RemovedIsTaken(l.queue, op);
    hide Removed, Next;
    assert l.written + [] == l.written;
    assert l.removed + (Removed(l.queue, op) + Next(l.queue, op).pending)
        == l.removed + Removed(l.queue, op) + Next(l.queue, op).pending;
  }

  /** Only a write behind an overrun loses anything. */
  lemma EnterBalances(l: Ledger, op: Op)
    requires Balanced(l)
    ensures Balanced(Enter(l, op))
    ensures NothingLost(Enter(l, op)) <==> NothingLost(l) && !(op.Write? && op.text != [] && l.queue.overrun)
  {
    hide Balanced, NothingLost, Enter;
    if op.Write? {
      WriteBalances(l, op.text);
    } else {
      ReadBalances(l, op);
    }
  }

  /** As long as nothing is lost the queue is the ideal one, and it overruns where a tail was read. */
  ghost predicate AsIdeal(ops: seq<Op>) {
    After(ops).queue == Queue(Ideal(ops), TailRead(ops))
  }

  lemma {:induction false} NextIsIdeal(held: string, overrun: bool, op: Op)
    requires (overrun ==> held == []) && !(op.Write? && op.text != [] && overrun)
    ensures Next(Queue(held, overrun), op) == Queue(Held(held, op), !op.Truncate? && (overrun || TakesTail(held, op)))
  {
    assert held + [] == held;
    assert IndexOf('\n', held) < |held| <==> '\n' in held;
  }

  lemma {:induction false} LastCall(ops: seq<Op>, op: Op)
    ensures After(ops + [op]) == Enter(After(ops), op) && Ideal(ops + [op]) == Held(Ideal(ops), op)
  {
    hide Enter, Held;
    var all := ops + [op];
    assert all[..|all| - 1] == ops && all[|all| - 1] == op;
  }

  lemma {:induction false} IdealStep(ops: seq<Op>, op: Op)
    requires AsIdeal(ops) && Balanced(After(ops))
    requires !(op.Write? && op.text != [] && TailRead(ops))
    ensures AsIdeal(ops + [op])
  {
    LastCall(ops, op);
    TailReadStep(ops, op);
    hide After, Ideal, TailRead, Next, Held, TakesTail;
    NextIsIdeal(Ideal(ops), TailRead(ops), op);
  }

  lemma {:induction false} RunExactly(ops: seq<Op>)
    ensures Balanced(After(ops))
    ensures NothingLost(After(ops)) <==> Careful(ops)
    ensures Careful(ops) ==> AsIdeal(ops)
    decreases |ops|
  {
    if ops != [] {
      var init, op := ops[..|ops| - 1], ops[|ops| - 1];
      assert ops == init + [op];
      RunExactly(init);
      EnterBalances(After(init), op);
      CarefulStep(init, op);
      hide Careful, NothingLost, Balanced, TailRead, Enter;
      if Careful(init) && !(op.Write? && op.text != [] && TailRead(init)) {
        IdealStep(init, op);
      }
    }
  }

  /** Over every run: what was handed out or truncated and what is pending are together exactly what was
      written, if and only if the caller never writes behind the unterminated last line it has read. */
  lemma {:induction false} QueueExactly(ops: seq<Op>)
    ensures NothingLost(After(ops)) <==> Careful(ops)
  {
    RunExactly(ops);
  }

  /** What is lost by the first careless write: its first character, and nothing else. */
  lemma {:induction false} FirstCarelessWrite(ops: seq<Op>, text: string)
    requires Careful(ops) && TailRead(ops) && text != []
    ensures var l, l' := After(ops), After(ops + [Op.Write(text)]);
            && NothingLost(l) && l.queue.pending == []
            && l'.queue == Queue(text[1..], false) && l'.removed == l.removed && l'.written == l.written + text
  {
    RunExactly(ops);
    LastCall(ops, Op.Write(text));
    hide After, TailRead;
  }

  predicate Terminated(text: string) {
    text == [] || text[|text| - 1] == '\n'
  }

  lemma {:induction false} IdealTerminated(ops: seq<Op>)
    requires forall i :: 0 <= i < |ops| && ops[i].Write? ==> Terminated(ops[i].text)
    ensures Terminated(Ideal(ops))
    decreases |ops|
  {
    if ops != [] {
      IdealTerminated(ops[..|ops| - 1]);
    }
  }

  /** A caller who only writes whole lines loses nothing. */
  lemma {:induction false} WholeLinesSafe(ops: seq<Op>)
    requires forall i :: 0 <= i < |ops| && ops[i].Write? ==> Terminated(ops[i].text)
    ensures NothingLost(After(ops))
  {
    forall i | 0 <= i < |ops| ensures !ReadsTail(ops, i) {
      IdealTerminated(ops[..i]);
    }
    forall j | 0 <= j < |ops| ensures !TailRead(ops[..j]) {
      forall i | 0 <= i < j ensures !ReadsTail(ops[..j], i) {
        assert ops[..j][..i] == ops[..i] && !ReadsTail(ops, i);
      }
    }
    QueueExactly(ops);
  }

  /** Write "a", read the line, write "b": the b is lost. */
  lemma {:induction false} LossReachable()
    ensures var l := After([Op.Write("a"), ReadLine, Op.Write("b")]);
            l.written == "ab" && l.removed == "a" && l.queue.pending == []
  {
    var ops := [Op.Write("a"), ReadLine, Op.Write("b")];
    assert ops[..2] == [Op.Write("a"), ReadLine] && ops[..2][..1] == [Op.Write("a")];
    assert ops[..2][..1][..0] == [];
    assert After(ops[..2][..1]) == Ledger(Queue("a", false), "a", []);
    assert After(ops[..2]) == Ledger(Queue([], true), "a", "a");
  }

  // ---- the class

  lemma TakenParts(q: Queue, size: nat)
    ensures q.pending == Taken(q, size) + Next(q, Take(size)).pending
    ensures |Taken(q, size)| == size || (|Taken(q, size)| < size && Next(q, Take(size)).pending == [])
  {
  }

  lemma LineParts(q: Queue)
    requires !q.overrun || q.pending == []
    ensures Line(q).Some? <==> q.pending != []
    ensures Line(q).Some? ==>
              var next := Next(q, ReadLine);
              '\n' !in Line(q).value
              && q.pending == if next.overrun then Line(q).value else Line(q).value + "\n" + next.pending
  {
    var k := IndexOf('\n', q.pending);
    if k < |q.pending| {
      assert q.pending == q.pending[..k] + "\n" + q.pending[k + 1..];
    }
  }

  /** A chunk: what it hands out and what it leaves. */
  lemma ChunkTaken(data: seq<char>, rpos: nat, wpos: nat, size: nat)
    requires rpos < wpos <= |data|
    ensures var q := Queue(data[rpos..wpos], false);
            var n := if size < wpos - rpos then size else wpos - rpos;
            && Taken(q, size) == data[rpos..rpos + n]
            && Next(q, Take(size)) == Queue(data[rpos + n..wpos], false)
  {
    var n := if size < wpos - rpos then size else wpos - rpos;
    assert data[rpos..wpos][..n] == data[rpos..rpos + n] && data[rpos..wpos][n..] == data[rpos + n..wpos];
  }

  lemma NothingTaken(q: Queue, size: nat)
    requires q.pending == []
    ensures Taken(q, size) == [] && Next(q, Take(size)) == q
  {
  }

  /** A line found by its end: what readline hands out and what it leaves. */
  lemma LineTaken(data: seq<char>, rpos: nat, pos: nat, wpos: nat)
    requires rpos <= pos <= wpos <= |data| && rpos < wpos
    requires (forall i :: rpos <= i < pos ==> data[i] != '\n') && (pos < wpos ==> data[pos] == '\n')
    ensures var q := Queue(data[rpos..wpos], false);
            && Line(q) == Some(data[rpos..pos])
            && Next(q, ReadLine) == if pos < wpos then Queue(data[pos + 1..wpos], false) else Queue([], true)
  {
    var pending := data[rpos..wpos];
    IndexOfIs('\n', pending, pos - rpos);
    hide IndexOf;
    assert pending[..pos - rpos] == data[rpos..pos];
    if pos < wpos {
      assert pending[pos - rpos + 1..] == data[pos + 1..wpos];
    }
  }

  /** memcpy */
  method CopyTo(buffer: array<char>, chunk: string)
    requires |chunk| <= buffer.Length
    modifies buffer
    ensures buffer[..|chunk|] == chunk && buffer[|chunk|..] == old(buffer[|chunk|..])
  {
    forall i | 0 <= i < |chunk| {
      buffer[i] := chunk[i];
    }
  }

  class StringIO {
    var data: array<char>
    var wpos: nat
    var rpos: nat
    ghost var total: nat

    /** `total` counts every byte ever written. */
    ghost predicate Valid()
      reads this, data
    {
      wpos <= data.Length && rpos <= wpos + 1 && data.Length <= 1024 + 3 * total
    }

    ghost function View(): Queue
      requires Valid()
      reads this, data
    {
      Queue(if rpos <= wpos then data[rpos..wpos] else [], rpos == wpos + 1)
    }

    constructor ()
      ensures Valid() && fresh(data) && View() == After([]).queue && total == 0
    {
      rpos, wpos := 0, 0;
      data := new char[1024];
      total := 0;
    }

    constructor FromText(v: string)
      ensures Valid() && fresh(data) && View() == Queue(v, false) && total == |v|
    {
      var buffer := new char[|v| * 2 + 1];
      forall i | 0 <= i < |v| {
        buffer[i] := v[i];
      }
      data := buffer;
      rpos, wpos := 0, |v|;
      total := |v|;
      new;
      assert data[0..|v|] == v;
    }

    /** Room for n more characters; what was written is kept. */
    method Reserve(n: nat)
      requires Valid()
      modifies this`data
      ensures data == old(data) || fresh(data)
      ensures wpos + n <= data.Length <= 1024 + 3 * (total + n)
      ensures data[..wpos] == old(data[..wpos])
    {
      if data.Length < wpos + n {
        var bigger := new char[data.Length + n * 2 + 1];
        forall i | 0 <= i < data.Length {
          bigger[i] := data[i];
        }
        data := bigger;
      }
    }

    method Write(v: string)
      requires Valid()
      modifies this, data
      ensures Valid() && (data == old(data) || fresh(data))
      ensures View() == Next(old(View()), Op.Write(v)) && total == old(total) + |v|
    {
      ghost var kept := data[..wpos];
      Reserve(|v|);
      forall i | 0 <= i < |v| {
        data[wpos + i] := v[i];
      }
      wpos := wpos + |v|;
      total := total + |v|;
      assert data[..wpos] == kept + v;
      if rpos <= |kept| {
        assert data[rpos..wpos] == (kept + v)[rpos..] == kept[rpos..] + v;
      } else if v != [] {
        assert data[rpos..wpos] == (kept + v)[rpos..] == v[1..];
      }
    }

    /** read() */
    method Read() returns (chunk: string)
      requires Valid()
      modifies this
      ensures Valid() && data == old(data) && total == old(total)
      ensures View() == Next(old(View()), Take(CHUNK)) && chunk == Taken(old(View()), CHUNK)
      ensures old(View().pending) == chunk + View().pending
      ensures |chunk| == 16384 || (|chunk| < 16384 && View().pending == [])
    {
      TakenParts(View(), CHUNK);
      chunk := "";
      if rpos < wpos {
        var max := wpos - rpos;
        var size := if max > CHUNK then CHUNK else max;
        ChunkTaken(data[..], rpos, wpos, CHUNK);
        chunk := data[rpos..rpos + size];
        rpos := rpos + size;
      }
    }

    /** read(buffer, size) */
    method ReadInto(buffer: array<char>, size: nat) returns (n: nat)
      requires Valid() && size <= buffer.Length && buffer != data
      modifies this, buffer
      ensures Valid() && data == old(data) && total == old(total)
      ensures View() == Next(old(View()), Take(size))
      ensures n <= size && buffer[..n] == Taken(old(View()), size) && buffer[n..] == old(buffer[n..])
      ensures old(View().pending) == buffer[..n] + View().pending && (n == size || View().pending == [])
    {
      TakenParts(View(), size);
      hide Next, Taken;
      n := 0;
      if rpos >= wpos {
        NothingTaken(View(), size);
      } else {
        var max := wpos - rpos;
        n := if size > max then max else size;
        ChunkTaken(data[..], rpos, wpos, size);
        CopyTo(buffer, data[rpos..rpos + n]);
        rpos := rpos + n;
      }
    }

    /** The scan of readline: the first newline, or the end. */
    method FindNewline() returns (pos: nat)
      requires Valid() && rpos <= wpos
      ensures rpos <= pos <= wpos && (forall i :: rpos <= i < pos ==> data[i] != '\n')
      ensures pos < wpos ==> data[pos] == '\n'
    {
      pos := rpos;
      while pos < wpos && data[pos] != '\n'
        invariant rpos <= pos <= wpos
        invariant forall i :: rpos <= i < pos ==> data[i] != '\n'
      {
        pos := pos + 1;
      }
    }

    method Readline() returns (ok: bool, line: string)
      requires Valid()
      modifies this
      ensures Valid() && data == old(data) && total == old(total)
      ensures View() == Next(old(View()), ReadLine)
      ensures ok == Line(old(View())).Some? && (ok ==> line == Line(old(View())).value)
      ensures ok <==> old(View().pending) != []
      ensures ok ==> '\n' !in line
      ensures ok ==> old(View().pending) == if View().overrun then line else line + "\n" + View().pending
    {
      LineParts(View());
      ok, line := false, "";
      if rpos < wpos {
        hide IndexOf, Next, Line;
        var pos := FindNewline();
        line := data[rpos..pos];
        LineTaken(data[..], rpos, pos, wpos);
        rpos := pos + 1;
        ok := true;
      }
    }

    method Truncate()
      requires Valid()
      modifies this
      ensures Valid() && data == old(data) && total == old(total) && View() == Next(old(View()), Op.Truncate)
    {
      wpos, rpos := 0, 0;
    }
  }
}
