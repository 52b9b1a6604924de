/**
 * What the flat statements of TransactionHandle mean: a machine of properly nested
 * transactions, a simulation between the two over every run, and the recursive meaning
 * of nested blocks.
 */
module NestedTransactions {
  import opened Optional
  import opened SavepointServer
  import opened TransactionHandle

  // ---- nested transactions, ideally

  /** `frames` are the open named blocks, outermost first, each with the database at its begin.
      `before` is the database to return to when everything is rolled back. */
  datatype Nest<Db> =
    | Outside(db: Db)
    | Inside(before: Db, now: Db, unnamed: bool, frames: seq<Savepoint<Db>>)

  function NamesOf<Db>(frames: seq<Savepoint<Db>>): seq<string> {
    seq(|frames|, i requires 0 <= i < |frames| => frames[i].name)
  }

  /** Whether a block called `name` may be opened inside the blocks `path`. */
  predicate MayOpen(rule: Rule, path: seq<string>, name: string) {
    rule.Replace? ==> name !in path
  }

  /** Whether a block called `name`, directly inside the blocks `path`, may be rolled back: the
      savepoint it leaves behind must not hide its parent's, unless closing the parent closes
      the whole transaction. */
  predicate MayUndo(rule: Rule, unnamed: bool, path: seq<string>, name: string) {
    rule.Shadow? && path != [] && path[|path| - 1] == name ==> |path| == 1 && !unnamed
  }

  /** What becomes of a call: its nesting or its name is not allowed, the server rejects its write, or
      the machine goes on. */
  datatype Turn<Db> = Forbidden | Rejected | Went(nest: Nest<Db>)

  /** One call on the ideal machine. */
  function NestStep<Db>(rule: Rule, n: Nest<Db>, op: Op<Db>): Turn<Db> {
    match n
    case Outside(db) =>
      (match op
       case Execute(write) => if write(db).None? then Rejected else Went(Outside(write(db).value))
       case Begin => Went(Inside(db, db, true, []))
       case BeginNamed(name) => Went(Inside(db, db, false, [Savepoint(name, db)]))
       case _ => Forbidden)
    case Inside(before, now, unnamed, frames) =>
      match op
      case Execute(write) => if write(now).None? then Rejected else Went(n.(now := write(now).value))
      case Begin => Forbidden
      case Commit => Went(Outside(now))
      case Rollback => Went(Outside(before))
      case BeginNamed(name) =>
        if MayOpen(rule, NamesOf(frames), name) then Went(n.(frames := frames + [Savepoint(name, now)]))
        else Forbidden
      case CommitNamed(name) =>
        if frames == [] || frames[|frames| - 1].name != name then Forbidden
        else Went(Pop(n, now))
      case RollbackNamed(name) =>
        if frames == [] || frames[|frames| - 1].name != name then Forbidden
        else if !MayUndo(rule, unnamed, NamesOf(frames[..|frames| - 1]), name) then Forbidden
        else Went(Pop(n, frames[|frames| - 1].snapshot))
  }

  /** Leaves the innermost block; the outermost one takes the transaction with it. */
  function Pop<Db>(n: Nest<Db>, result: Db): Nest<Db>
    requires n.Inside? && n.frames != []
  {
    if |n.frames| == 1 && !n.unnamed then Outside(result)
    else n.(now := result, frames := n.frames[..|n.frames| - 1])
  }

  function NestRun<Db>(rule: Rule, n: Nest<Db>, ops: seq<Op<Db>>): Turn<Db>
    decreases |ops|
  {
    if ops == [] then Went(n)
    else
      var next := NestStep(rule, n, ops[0]);
      if next.Went? then NestRun(rule, next.nest, ops[1..]) else next
  }

  // ---- the simulation

  /** Every open block finds its own savepoint: the youngest savepoint with the innermost block's
      name has that block's snapshot, and beneath it the same holds of the enclosing blocks.
      Savepoints left over from rolled back blocks may lie anywhere in between.  Of the block that
      closes the whole transaction (`alone`: nothing encloses it) only a name is needed. */
  ghost predicate Resolves<Db>(unnamed: bool, frames: seq<Savepoint<Db>>, saves: seq<Savepoint<Db>>)
    decreases |frames|
  {
    frames == [] ||
    var inner := frames[|frames| - 1];
    var k := Topmost(saves, inner.name);
    var alone := |frames| == 1 && !unnamed;
    && k >= 0
    && (!alone ==> saves[k] == inner)
    && Resolves(unnamed, frames[..|frames| - 1], saves[..k])
  }

  ghost predicate Distinct(path: seq<string>) {
    forall i, j :: 0 <= i < j < |path| ==> path[i] != path[j]
  }

  /** The real handle and server stand for the ideal state `n`. */
  ghost predicate Simulates<Db>(rule: Rule, n: Nest<Db>, f: Facade<Db>) {
    match n
    case Outside(db) => f == Fresh(db)
    case Inside(before, now, unnamed, frames) =>
      && f.trx == NamesOf(frames)
      && f.conn.nesting == |frames| + (if unnamed then 1 else 0)
      && f.conn.nesting > 0
      && f.conn.server == Server(before, now, true, f.conn.server.saves)
      && (!unnamed ==> frames[0].snapshot == before)
      && (rule.Replace? ==> Distinct(NamesOf(frames)))
      && Resolves(unnamed, frames, f.conn.server.saves)
  }

  /** The positions `at` of the open blocks' savepoints on the server's stack. */
  ghost predicate OnStack<Db>(unnamed: bool, frames: seq<Savepoint<Db>>, saves: seq<Savepoint<Db>>, at: seq<nat>) {
    && |at| == |frames|
    && (forall i :: 0 <= i < |at| ==> at[i] < |saves| && saves[at[i]].name == frames[i].name)
    && (forall i, j :: 0 <= i < j < |at| ==> at[i] < at[j])
    && (forall i :: 0 <= i < |at| && (i > 0 || unnamed) ==> saves[at[i]] == frames[i])
    && (at != [] ==> at[|at| - 1] == Topmost(saves, frames[|frames| - 1].name))
  }

  lemma {:induction false} OnStackOnce<Db>(unnamed: bool, frames: seq<Savepoint<Db>>, saves: seq<Savepoint<Db>>,
                                           at: seq<nat>, k: nat)
    requires frames != [] && k < |saves| && OnStack(unnamed, frames[..|frames| - 1], saves[..k], at)
    requires k == Topmost(saves, frames[|frames| - 1].name)
    requires |frames| > 1 || unnamed ==> saves[k] == frames[|frames| - 1]
    ensures OnStack(unnamed, frames, saves, at + [k])
  {
  }

  /** In every simulated state the open blocks are a subsequence of the server's stack, each standing
      for the savepoint it created, and the innermost one's is the youngest of its name. */
  lemma {:induction false} OpenBlocksOnStack<Db>(unnamed: bool, frames: seq<Savepoint<Db>>, saves: seq<Savepoint<Db>>)
    requires Resolves(unnamed, frames, saves)
    ensures exists at :: OnStack(unnamed, frames, saves, at)
    decreases |frames|
  {
    if frames == [] {
      assert OnStack(unnamed, frames, saves, []);
    } else {
      var k := Topmost(saves, frames[|frames| - 1].name);
      OpenBlocksOnStack(unnamed, frames[..|frames| - 1], saves[..k]);
      var at :| OnStack(unnamed, frames[..|frames| - 1], saves[..k], at);
      OnStackOnce(unnamed, frames, saves, at, k);
    }
  }

  /** A younger savepoint with another name hides nothing from the innermost block. */
  lemma ResolvesBeneath<Db>(unnamed: bool, frames: seq<Savepoint<Db>>, saves: seq<Savepoint<Db>>, s: Savepoint<Db>)
    requires Resolves(unnamed, frames, saves)
    requires frames != [] ==> frames[|frames| - 1].name != s.name || (|frames| == 1 && !unnamed)
    ensures Resolves(unnamed, frames, saves + [s])
  {
    if frames != [] {
      assert (saves + [s])[..|saves|] == saves;
      var k := Topmost(saves, frames[|frames| - 1].name);
      assert (saves + [s])[..k] == saves[..k];
    }
  }

  /** Destroying savepoints that belong to no open block hides nothing from the open blocks. */
  lemma {:induction false} ResolvesWithout<Db>(unnamed: bool, frames: seq<Savepoint<Db>>,
                                               saves: seq<Savepoint<Db>>, name: string)
    requires Resolves(unnamed, frames, saves) && name !in NamesOf(frames)
    ensures Resolves(unnamed, frames, Without(saves, name))
    decreases |frames|
  {
    if frames != [] {
      var init, inner := frames[..|frames| - 1], frames[|frames| - 1];
      assert NamesOf(frames)[|frames| - 1] == inner.name;
      WithoutKeepsTopmost(saves, name, inner.name);
      NamesOfParts(frames);
      hide Topmost, Without, NamesOf;
      ResolvesWithout(unnamed, init, saves[..Topmost(saves, inner.name)], name);
    }
  }

  /** Opening a block. */
  lemma OpenKeepsResolving<Db>(rule: Rule, unnamed: bool, frames: seq<Savepoint<Db>>,
                               saves: seq<Savepoint<Db>>, s: Savepoint<Db>)
    requires Resolves(unnamed, frames, saves) && MayOpen(rule, NamesOf(frames), s.name)
    ensures Resolves(unnamed, frames + [s], Establish(rule, saves, s))
  {
    if rule.Replace? {
      ResolvesWithout(unnamed, frames, saves, s.name);
    }
    var beneath := if rule.Replace? then Without(saves, s.name) else saves;
    assert Establish(rule, saves, s)[..|beneath|] == beneath;
    assert (frames + [s])[..|frames|] == frames;
  }

  /** Rolling a block back: its savepoint stays, and the enclosing blocks still find theirs. */
  lemma UndoKeepsResolving<Db>(unnamed: bool, frames: seq<Savepoint<Db>>, saves: seq<Savepoint<Db>>)
    requires frames != [] && Resolves(unnamed, frames, saves)
    requires var outer := frames[..|frames| - 1];
             outer != [] && outer[|outer| - 1].name == frames[|frames| - 1].name ==> |outer| == 1 && !unnamed
    ensures var k := Topmost(saves, frames[|frames| - 1].name);
            Resolves(unnamed, frames[..|frames| - 1], saves[..k + 1])
  {
    var k := Topmost(saves, frames[|frames| - 1].name);
    assert saves[..k + 1] == saves[..k] + [saves[k]];
    ResolvesBeneath(unnamed, frames[..|frames| - 1], saves[..k], saves[k]);
  }

  lemma NamesOfParts<Db>(frames: seq<Savepoint<Db>>)
    requires frames != []
    ensures NamesOf(frames)[..|frames| - 1] == NamesOf(frames[..|frames| - 1])
    ensures NamesOf(frames) == NamesOf(frames[..|frames| - 1]) + [frames[|frames| - 1].name]
  {
  }

  lemma UndoKeepsResolvingHere<Db>(rule: Rule, unnamed: bool, frames: seq<Savepoint<Db>>, saves: seq<Savepoint<Db>>)
    requires frames != [] && Resolves(unnamed, frames, saves)
    requires rule.Replace? ==> Distinct(NamesOf(frames))
    requires MayUndo(rule, unnamed, NamesOf(frames[..|frames| - 1]), frames[|frames| - 1].name)
    ensures var k := Topmost(saves, frames[|frames| - 1].name);
            Resolves(unnamed, frames[..|frames| - 1], saves[..k + 1])
  {
    NamesOfParts(frames);
    var names := NamesOf(frames);
    if rule.Replace? && |frames| > 1 {
      assert names[|frames| - 2] != names[|frames| - 1];
    }
    UndoKeepsResolving(unnamed, frames, saves);
  }

  /** The handle that opens a transaction with its first named block. */
  lemma FirstBegin<Db>(rule: Rule, db: Db, name: string)
    ensures Step(rule, Fresh(db), BeginNamed(name))
         == Outcome(Facade([name], Conn(1, Server(db, db, true, [Savepoint(name, db)]))), true)
  {
    assert Establish(rule, [], Savepoint(name, db)) == [Savepoint(name, db)];
    assert [] + [name] == [name];
  }

  lemma FirstBlockSimulates<Db>(rule: Rule, db: Db, s: Savepoint<Db>)
    requires s.snapshot == db
    ensures Simulates(rule, Inside(db, db, false, [s]), Facade([s.name], Conn(1, Server(db, db, true, [s]))))
  {
    assert NamesOf([s]) == [s.name];
    assert [s][..0] == [];
  }

  /** Calls outside every transaction. */
  lemma StepOutside<Db>(rule: Rule, n: Nest<Db>, f: Facade<Db>, op: Op<Db>)
    requires n.Outside? && Simulates(rule, n, f) && NestStep(rule, n, op).Went?
    ensures Callable(f.trx, op) && Step(rule, f, op).ok
    ensures Simulates(rule, NestStep(rule, n, op).nest, Step(rule, f, op).state)
  {
    if op.BeginNamed? {
      hide Simulates, Step;
      FirstBegin(rule, n.db, op.name);
      FirstBlockSimulates(rule, n.db, Savepoint(op.name, n.db));
      assert f == Fresh(n.db) by {
        OutsideIsFresh(rule, n, f);
      }
    }
  }

  lemma OutsideIsFresh<Db>(rule: Rule, n: Nest<Db>, f: Facade<Db>)
    requires n.Outside? && Simulates(rule, n, f)
    ensures f == Fresh(n.db)
  {
  }

  lemma StepOpen<Db>(rule: Rule, n: Nest<Db>, f: Facade<Db>, op: Op<Db>)
    requires n.Inside? && op.BeginNamed? && Simulates(rule, n, f) && NestStep(rule, n, op).Went?
    ensures Step(rule, f, op).ok && Simulates(rule, NestStep(rule, n, op).nest, Step(rule, f, op).state)
  {
    hide Resolves, Topmost, Establish, NamesOf;
    var s, saves := Savepoint(op.name, n.now), f.conn.server.saves;
    OpenKeepsResolving(rule, n.unnamed, n.frames, saves, s);
    NamesOfParts(n.frames + [s]);
    assert (n.frames + [s])[..|n.frames|] == n.frames;
  }

  /** The innermost block finds its own savepoint, and beneath it the enclosing blocks find theirs. */
  lemma ResolvesInner<Db>(unnamed: bool, frames: seq<Savepoint<Db>>, saves: seq<Savepoint<Db>>)
    requires frames != [] && Resolves(unnamed, frames, saves)
    ensures var inner := frames[|frames| - 1];
            var k := Topmost(saves, inner.name);
            && k >= 0
            && (|frames| > 1 || unnamed ==> saves[k] == inner)
            && Resolves(unnamed, frames[..|frames| - 1], saves[..k])
  {
  }

  /** Named closes whose savepoint is there. */
  lemma CloseNamed<Db>(rule: Rule, c: Conn<Db>, name: string)
    requires c.server.inTransaction && Topmost(c.server.saves, name) >= 0
    ensures var s, k := c.server, Topmost(c.server.saves, name);
            && DriverStep(rule, c, CommitNamed(name))
            == Outcome(if c.nesting == 1 then Conn(0, Idle(s.working))
                       else Conn(c.nesting - 1, s.(saves := s.saves[..k])), true)
            && DriverStep(rule, c, RollbackNamed(name))
            == Outcome(if c.nesting == 1 then Conn(0, Idle(s.committed))
                       else Conn(c.nesting - 1, s.(working := s.saves[k].snapshot, saves := s.saves[..k + 1])), true)
  {
  }

  /** The state behind a named close that ends the transaction, and behind one that does not. */
  lemma Closed<Db>(rule: Rule, n: Nest<Db>, f: Facade<Db>, result: Db, saves: seq<Savepoint<Db>>)
    requires n.Inside? && n.frames != [] && Simulates(rule, n, f)
    requires Resolves(n.unnamed, n.frames[..|n.frames| - 1], saves)
    ensures f.trx != []
    ensures var last := |n.frames| == 1 && !n.unnamed;
            var c := if last then Conn(0, Idle(result))
                     else Conn(f.conn.nesting - 1, f.conn.server.(working := result, saves := saves));
            && (last <==> f.conn.nesting == 1)
            && Simulates(rule, Pop(n, result), Facade(f.trx[..|f.trx| - 1], c))
  {
    hide Resolves, NamesOf;
    NamesOfParts(n.frames);
  }

  /** What the innermost block's savepoint is good for. */
  lemma InnermostFound<Db>(rule: Rule, n: Nest<Db>, f: Facade<Db>)
    requires n.Inside? && n.frames != [] && Simulates(rule, n, f)
    ensures var inner, s := n.frames[|n.frames| - 1], f.conn.server;
            var k := Topmost(s.saves, inner.name);
            && s.inTransaction && s.working == n.now && k >= 0
            && (f.conn.nesting == 1 ==> s.committed == inner.snapshot)
            && (f.conn.nesting != 1 ==> s.saves[k].snapshot == inner.snapshot)
            && Resolves(n.unnamed, n.frames[..|n.frames| - 1], s.saves[..k])
            && (MayUndo(rule, n.unnamed, NamesOf(n.frames[..|n.frames| - 1]), inner.name) ==>
                  Resolves(n.unnamed, n.frames[..|n.frames| - 1], s.saves[..k + 1]))
  {
    hide Resolves, Topmost, NamesOf, MayUndo, Distinct;
    ResolvesInner(n.unnamed, n.frames, f.conn.server.saves);
    if MayUndo(rule, n.unnamed, NamesOf(n.frames[..|n.frames| - 1]), n.frames[|n.frames| - 1].name) {
      UndoKeepsResolvingHere(rule, n.unnamed, n.frames, f.conn.server.saves);
    }
  }

  lemma StepCommitNamed<Db>(rule: Rule, n: Nest<Db>, f: Facade<Db>, op: Op<Db>)
    requires n.Inside? && op.CommitNamed? && Simulates(rule, n, f) && NestStep(rule, n, op).Went?
    ensures Callable(f.trx, op) && Step(rule, f, op).ok
    ensures Simulates(rule, NestStep(rule, n, op).nest, Step(rule, f, op).state)
  {
    hide DriverStep, Resolves, Topmost, NamesOf, Simulates, MayUndo, Pop;
    InnermostFound(rule, n, f);
    CloseNamed(rule, f.conn, op.name);
    Closed(rule, n, f, n.now, f.conn.server.saves[..Topmost(f.conn.server.saves, op.name)]);
  }

  lemma StepRollbackNamed<Db>(rule: Rule, n: Nest<Db>, f: Facade<Db>, op: Op<Db>)
    requires n.Inside? && op.RollbackNamed? && Simulates(rule, n, f) && NestStep(rule, n, op).Went?
    ensures Callable(f.trx, op) && Step(rule, f, op).ok
    ensures Simulates(rule, NestStep(rule, n, op).nest, Step(rule, f, op).state)
  {
    hide DriverStep, Resolves, Topmost, NamesOf, Simulates, MayUndo, Pop;
    InnermostFound(rule, n, f);
    CloseNamed(rule, f.conn, op.name);
    Closed(rule, n, f, n.frames[|n.frames| - 1].snapshot,
           f.conn.server.saves[..Topmost(f.conn.server.saves, op.name) + 1]);
  }

  /** One call the ideal machine allows: it fails exactly if the server rejects its write, and
      otherwise the states still match.  A rejected write leaves the whole handle as it was. */
  lemma StepSimulates<Db>(rule: Rule, n: Nest<Db>, f: Facade<Db>, op: Op<Db>)
    requires Simulates(rule, n, f) && !NestStep(rule, n, op).Forbidden?
    ensures Callable(f.trx, op) && Step(rule, f, op).ok == NestStep(rule, n, op).Went?
    ensures Step(rule, f, op).ok ==> Simulates(rule, NestStep(rule, n, op).nest, Step(rule, f, op).state)
    ensures !Step(rule, f, op).ok ==> Step(rule, f, op).state == f
  {
    if n.Outside? {
      if NestStep(rule, n, op).Went? {
        StepOutside(rule, n, f, op);
      }
    } else if op.BeginNamed? {
      StepOpen(rule, n, f, op);
    } else if op.CommitNamed? {
      StepCommitNamed(rule, n, f, op);
    } else if op.RollbackNamed? {
      StepRollbackNamed(rule, n, f, op);
    }
  }

  /** Inside a transaction the committed database changes only with the close that ends it. */
  lemma OnlyTheLastClosePublishes<Db>(rule: Rule, n: Nest<Db>, f: Facade<Db>, op: Op<Db>)
    requires n.Inside? && Simulates(rule, n, f) && NestStep(rule, n, op).Went?
    ensures Callable(f.trx, op)
    ensures var after := Step(rule, f, op).state.conn.server;
            after.committed != f.conn.server.committed ==> !after.inTransaction && NestStep(rule, n, op).nest.Outside?
  {
    StepSimulates(rule, n, f, op);
  }

  /** Every run the ideal machine allows: on the real handle it fails exactly where the server rejects a
      write, and otherwise ends in a matching state; so does each of its prefixes. */
  lemma {:induction false} RunSimulates<Db>(rule: Rule, n: Nest<Db>, f: Facade<Db>, ops: seq<Op<Db>>)
    requires Simulates(rule, n, f) && !NestRun(rule, n, ops).Forbidden?
    ensures Run(rule, f, ops).Some? == NestRun(rule, n, ops).Went?
    ensures Run(rule, f, ops).Some? ==> Simulates(rule, NestRun(rule, n, ops).nest, Run(rule, f, ops).value)
    decreases |ops|
  {
    if ops != [] {
      StepSimulates(rule, n, f, ops[0]);
      if NestStep(rule, n, ops[0]).Went? {
        RunSimulates(rule, NestStep(rule, n, ops[0]).nest, Step(rule, f, ops[0]).state, ops[1..]);
      }
    }
  }

  // ---- blocks and their meaning

  datatype Ending = Keep | Undo

  /** A program of writes and named blocks, each block ending in a commit or a rollback. */
  datatype Program<!Db> =
    | Nothing
    | Write(write: Db -> Option<Db>)
    | Then(first: Program<Db>, second: Program<Db>)
    | Block(name: string, body: Program<Db>, ending: Ending)

  /** Recursive meaning: a kept block does what its body does, an undone block does nothing.  None if
      the server rejects a write on the way. */
  function Meaning<Db>(p: Program<Db>, db: Db): Option<Db> {
    match p
    case Nothing => Some(db)
    case Write(write) => write(db)
    case Then(first, second) =>
      var m := Meaning(first, db);
      if m.None? then None else Meaning(second, m.value)
    case Block(_, body, ending) =>
      var m := Meaning(body, db);
      if m.Some? && ending.Undo? then Some(db) else m
  }

  /** The calls a caller makes. */
  function Calls<Db>(p: Program<Db>): seq<Op<Db>> {
    match p
    case Nothing => []
    case Write(write) => [Execute(write)]
    case Then(first, second) => Calls(first) + Calls(second)
    case Block(name, body, ending) =>
      [BeginNamed(name)] + Calls(body) + [EndOf(name, ending)]
  }

  function EndOf<Db>(name: string, ending: Ending): Op<Db> {
    if ending.Keep? then CommitNamed(name) else RollbackNamed(name)
  }

  /** The naming discipline each same-name rule needs, inside the open blocks `path`. */
  predicate NamesOk<Db>(rule: Rule, unnamed: bool, path: seq<string>, p: Program<Db>)
    decreases p
  {
    match p
    case Nothing => true
    case Write(_) => true
    case Then(first, second) => NamesOk(rule, unnamed, path, first) && NamesOk(rule, unnamed, path, second)
    case Block(name, body, ending) =>
      && MayOpen(rule, path, name)
      && (ending.Undo? ==> MayUndo(rule, unnamed, path, name))
      && NamesOk(rule, unnamed, path + [name], body)
  }

  /** No block has the name of a block around it; blocks side by side may share a name. */
  predicate NamesDistinct<Db>(path: seq<string>, p: Program<Db>)
    decreases p
  {
    match p
    case Nothing => true
    case Write(_) => true
    case Then(first, second) => NamesDistinct(path, first) && NamesDistinct(path, second)
    case Block(name, body, _) => name !in path && NamesDistinct(path + [name], body)
  }

  lemma {:induction false} DistinctNamesAreOk<Db>(rule: Rule, unnamed: bool, path: seq<string>, p: Program<Db>)
    requires NamesDistinct(path, p)
    ensures NamesOk(rule, unnamed, path, p)
    decreases p
  {
    match p
    case Nothing =>
    case Write(_) =>
    case Then(first, second) =>
      DistinctNamesAreOk(rule, unnamed, path, first);
      DistinctNamesAreOk(rule, unnamed, path, second);
    case Block(name, body, _) =>
      DistinctNamesAreOk(rule, unnamed, path + [name], body);
  }

  ghost function PathOf<Db>(n: Nest<Db>): seq<string> {
    if n.Outside? then [] else NamesOf(n.frames)
  }

  ghost function Current<Db>(n: Nest<Db>): Db {
    if n.Outside? then n.db else n.now
  }

  ghost function WithCurrent<Db>(n: Nest<Db>, db: Db): Nest<Db> {
    if n.Outside? then Outside(db) else n.(now := db)
  }

  ghost predicate UnnamedOf<Db>(n: Nest<Db>) {
    n.Inside? && n.unnamed
  }

  ghost function TurnOf<Db>(n: Nest<Db>, m: Option<Db>): Turn<Db> {
    if m.None? then Rejected else Went(WithCurrent(n, m.value))
  }

  lemma {:induction false} NestRunAppend<Db>(rule: Rule, n: Nest<Db>, a: seq<Op<Db>>, b: seq<Op<Db>>)
    ensures var t := NestRun(rule, n, a);
            NestRun(rule, n, a + b) == if t.Went? then NestRun(rule, t.nest, b) else t
    decreases |a|
  {
    if a == [] {
      assert a + b == b;
    } else {
      assert (a + b)[1..] == a[1..] + b;
      if NestStep(rule, n, a[0]).Went? {
        NestRunAppend(rule, NestStep(rule, n, a[0]).nest, a[1..], b);
      }
    }
  }

  ghost predicate WellFormed<Db>(n: Nest<Db>) {
    n.Inside? && !n.unnamed ==> n.frames != [] && n.frames[0].snapshot == n.before
  }

  lemma NestRunBracket<Db>(rule: Rule, n: Nest<Db>, open: Op<Db>, calls: seq<Op<Db>>, close: Op<Db>, m: Nest<Db>)
    requires NestStep(rule, n, open) == Went(m)
    ensures var t := NestRun(rule, m, calls);
            NestRun(rule, n, [open] + calls + [close]) == if t.Went? then NestStep(rule, t.nest, close) else t
  {
    NestRunAppend(rule, m, calls, [close]);
    assert [open] + calls + [close] == [open] + (calls + [close]);
    assert ([open] + (calls + [close]))[1..] == calls + [close];
    var t := NestRun(rule, m, calls);
    if t.Went? {
      NestRunOne(rule, t.nest, close);
    }
  }

  lemma NestRunOne<Db>(rule: Rule, n: Nest<Db>, op: Op<Db>)
    ensures NestRun(rule, n, [op]) == NestStep(rule, n, op)
  {
    assert [op][1..] == [];
    var t := NestStep(rule, n, op);
    assert NestRun(rule, n, [op]) == if t.Went? then NestRun(rule, t.nest, []) else t;
  }

  /** The state inside a block just opened. */
  ghost function Opened<Db>(n: Nest<Db>, name: string): Nest<Db> {
    var s := Savepoint(name, Current(n));
    if n.Outside? then Inside(n.db, n.db, false, [s]) else n.(frames := n.frames + [s])
  }

  lemma OpenedBy<Db>(rule: Rule, n: Nest<Db>, name: string)
    requires WellFormed(n) && MayOpen(rule, PathOf(n), name)
    ensures var m := Opened(n, name);
            && NestStep(rule, n, BeginNamed(name)) == Went(m)
            && PathOf(m) == PathOf(n) + [name] && UnnamedOf(m) == UnnamedOf(n) && WellFormed(m)
            && Current(m) == Current(n)
  {
  }

  lemma ClosedBy<Db>(rule: Rule, n: Nest<Db>, name: string, db: Db, ending: Ending)
    requires WellFormed(n)
    requires ending.Undo? ==> MayUndo(rule, UnnamedOf(n), PathOf(n), name)
    ensures NestStep(rule, WithCurrent(Opened(n, name), db), EndOf(name, ending))
         == Went(WithCurrent(n, if ending.Keep? then db else Current(n)))
  {
  }

  /** The ideal machine allows the calls of a well-named program and ends where the meaning says. */
  lemma {:induction false} CallsMean<Db>(rule: Rule, n: Nest<Db>, p: Program<Db>)
    requires WellFormed(n) && NamesOk(rule, UnnamedOf(n), PathOf(n), p)
    ensures NestRun(rule, n, Calls(p)) == TurnOf(n, Meaning(p, Current(n)))
    decreases p
  {
    match p
    case Nothing =>
    case Write(write) => NestRunOne(rule, n, Execute(write));
    case Then(first, second) =>
      CallsMean(rule, n, first);
      NestRunAppend(rule, n, Calls(first), Calls(second));
      var m := Meaning(first, Current(n));
      if m.Some? {
        CallsMean(rule, WithCurrent(n, m.value), second);
      }
    case Block(name, body, ending) =>
      var m, result := Opened(n, name), Meaning(body, Current(n));
      OpenedBy(rule, n, name);
      CallsMean(rule, m, body);
      NestRunBracket(rule, n, BeginNamed(name), Calls(body), EndOf(name, ending), m);
      if result.Some? {
        ClosedBy(rule, n, name, result.value, ending);
      }
  }

  /** What a handle is left in by a program that starts and ends outside every transaction. */
  ghost function FreshOf<Db>(m: Option<Db>): Option<Facade<Db>> {
    if m.None? then None else Some(Fresh(m.value))
  }

  /** Meaning preservation: the flat statements of a well-named program fail exactly if the server
      rejects one of its writes, and otherwise leave exactly the database of its recursive meaning,
      committed, with no transaction open. */
  lemma MeaningPreserved<Db>(rule: Rule, p: Program<Db>, db: Db)
    requires NamesOk(rule, false, [], p)
    ensures Run(rule, Fresh(db), Calls(p)) == FreshOf(Meaning(p, db))
  {
    CallsMean(rule, Outside(db), p);
    RunSimulates(rule, Outside(db), Fresh(db), Calls(p));
  }

  /** The same inside an unnamed begin, closed by an unnamed commit or rollback. */
  lemma UnnamedMeaningPreserved<Db>(rule: Rule, p: Program<Db>, db: Db, ending: Ending)
    requires NamesOk(rule, true, [], p)
    ensures var m := Meaning(p, db);
            Run(rule, Fresh(db), [Begin] + Calls(p) + [if ending.Keep? then Commit else Rollback])
            == FreshOf(if m.Some? && ending.Undo? then Some(db) else m)
  {
    var close := if ending.Keep? then Commit else Rollback;
    var m := Inside(db, db, true, []);
    CallsMean(rule, m, p);
    NestRunBracket(rule, Outside(db), Begin, Calls(p), close, m);
    RunSimulates(rule, Outside(db), Fresh(db), [Begin] + Calls(p) + [close]);
  }

  // ---- callers

  /** A transaction is open on top of the committed database `db`. */
  ghost predicate Unpublished<Db>(f: Facade<Db>, db: Db) {
    f.conn.server.inTransaction && f.conn.server.committed == db
  }

  lemma RejectedKeeps<Db>(rule: Rule, n: Nest<Db>, f: Facade<Db>, write: Db -> Option<Db>)
    requires Simulates(rule, n, f)
    ensures var o := Step(rule, f, Execute(write)); n.Inside? && !o.ok ==> Unpublished(o.state, n.before)
  {
  }

  /** A caller that makes the calls of a program on a handle, wherever that handle stands, and stops
      when one throws; inside a transaction nothing is committed then. */
  method PerformFrom<Db>(h: Handle<Db>, p: Program<Db>, ghost n: Nest<Db>) returns (ok: bool)
    requires WellFormed(n) && Simulates(h.h.rule, n, h.View())
    requires NamesOk(h.h.rule, UnnamedOf(n), PathOf(n), p)
    modifies h, h.h
    ensures ok == Meaning(p, Current(n)).Some?
    ensures ok ==> Simulates(h.h.rule, WithCurrent(n, Meaning(p, Current(n)).value), h.View())
    ensures !ok && n.Inside? ==> Unpublished(h.View(), n.before)
    decreases p
  {
    hide Simulates, Step, Unpublished;
    match p
    case Nothing => ok := true;
    case Write(write) =>
      StepSimulates(h.h.rule, n, h.View(), Execute(write));
      RejectedKeeps(h.h.rule, n, h.View(), write);
      ok := h.ExecuteWrite(write);
    case Then(first, second) =>
      ok := PerformFrom(h, first, n);
      if ok {
        ok := PerformFrom(h, second, WithCurrent(n, Meaning(first, Current(n)).value));
      }
    case Block(name, body, ending) =>
      ghost var m := Opened(n, name);
      OpenedBy(h.h.rule, n, name);
      StepSimulates(h.h.rule, n, h.View(), BeginNamed(name));
      ok := h.BeginNamed(name);
      ok := PerformFrom(h, body, m);
      if ok {
        ghost var done := WithCurrent(m, Meaning(body, Current(n)).value);
        ClosedBy(h.h.rule, n, name, Meaning(body, Current(n)).value, ending);
        StepSimulates(h.h.rule, done, h.View(), EndOf(name, ending));
        if ending.Keep? {
          ok := h.CommitNamed(name);
        } else {
          ok := h.RollbackNamed(name);
        }
      }
  }

  /** The promise to a caller: a program performed on a handle outside every transaction leaves
      exactly its recursive meaning committed, or throws exactly if the server rejects a write. */
  method Perform<Db>(h: Handle<Db>, p: Program<Db>, ghost db: Db) returns (ok: bool)
    requires h.View() == Fresh(db) && NamesOk(h.h.rule, false, [], p)
    modifies h, h.h
    ensures ok == Meaning(p, db).Some?
    ensures ok ==> h.View() == Fresh(Meaning(p, db).value)
  {
    ok := PerformFrom(h, p, Outside(db));
  }

  /** All or nothing: a block whose caller answers a rejected write with an unnamed rollback commits its
      whole meaning, or leaves the database and the handle as they were. */
  method PerformAtomically<Db>(h: Handle<Db>, name: string, body: Program<Db>, ghost db: Db) returns (ok: bool)
    requires h.View() == Fresh(db) && NamesOk(h.h.rule, false, [name], body)
    modifies h, h.h
    ensures ok == Meaning(body, db).Some?
    ensures h.View() == Fresh(if ok then Meaning(body, db).value else db)
  {
    ghost var n := Outside(db);
    OpenedBy(h.h.rule, n, name);
    StepSimulates(h.h.rule, n, h.View(), BeginNamed(name));
    hide Simulates, NestStep, Meaning;
    assert PathOf(Opened(n, name)) == [name];
    ok := h.BeginNamed(name);
    ok := PerformFrom(h, body, Opened(n, name));
    if ok {
      ghost var after := Meaning(body, db).value;
      ClosedBy(h.h.rule, n, name, after, Keep);
      StepSimulates(h.h.rule, WithCurrent(Opened(n, name), after), h.View(), EndOf(name, Keep));
      ok := h.CommitNamed(name);
      OutsideIsFresh(h.h.rule, Outside(after), h.View());
    } else {
      var _ := h.RollbackWork();
    }
  }

  // ---- callers that go on after a rejected write

  /** What a program comes to when every block answers a rejected write inside it with a rollback to the
      block's own begin, and goes on behind the block: the database, and whether a write outside all
      blocks was rejected. */
  function Salvage<Db>(p: Program<Db>, db: Db): Outcome<Db> {
    match p
    case Nothing => Outcome(db, true)
    case Write(write) => if write(db).Some? then Outcome(write(db).value, true) else Outcome(db, false)
    case Then(first, second) =>
      var o := Salvage(first, db);
      if o.ok then Salvage(second, o.state) else o
    case Block(_, body, ending) =>
      var o := Salvage(body, db);
      Outcome(if o.ok && ending.Keep? then o.state else db, true)
  }

  /** Every block may be rolled back by name. */
  predicate UndoNamesOk<Db>(rule: Rule, unnamed: bool, path: seq<string>, p: Program<Db>)
    decreases p
  {
    match p
    case Nothing => true
    case Write(_) => true
    case Then(first, second) => UndoNamesOk(rule, unnamed, path, first) && UndoNamesOk(rule, unnamed, path, second)
    case Block(name, body, _) =>
      MayOpen(rule, path, name) && MayUndo(rule, unnamed, path, name) && UndoNamesOk(rule, unnamed, path + [name], body)
  }

  /** Where no write is rejected, salvaging is performing. */
  lemma {:induction false} SalvageMeans<Db>(p: Program<Db>, db: Db)
    requires Meaning(p, db).Some?
    ensures Salvage(p, db) == Outcome(Meaning(p, db).value, true)
    decreases p
  {
    match p
    case Nothing =>
    case Write(_) =>
    case Then(first, second) =>
      SalvageMeans(first, db);
      SalvageMeans(second, Meaning(first, db).value);
    case Block(_, body, _) =>
      SalvageMeans(body, db);
  }

  /** A caller that catches what is thrown inside a block and rolls the block back by its name.  Wherever the
      handle stands, it then stands there again, with what was salvaged. */
  method PerformSalvaging<Db>(h: Handle<Db>, p: Program<Db>, ghost n: Nest<Db>) returns (ok: bool)
    requires WellFormed(n) && Simulates(h.h.rule, n, h.View())
    requires UndoNamesOk(h.h.rule, UnnamedOf(n), PathOf(n), p)
    modifies h, h.h
    ensures ok == Salvage(p, Current(n)).ok
    ensures Simulates(h.h.rule, WithCurrent(n, Salvage(p, Current(n)).state), h.View())
    decreases p
  {
    hide Simulates, Step;
    match p
    case Nothing => ok := true;
    case Write(write) =>
      StepSimulates(h.h.rule, n, h.View(), Execute(write));
      ok := h.ExecuteWrite(write);
    case Then(first, second) =>
      ok := PerformSalvaging(h, first, n);
      if ok {
        ok := PerformSalvaging(h, second, WithCurrent(n, Salvage(first, Current(n)).state));
      }
    case Block(name, body, ending) =>
      ghost var m, o := Opened(n, name), Salvage(body, Current(n));
      OpenedBy(h.h.rule, n, name);
      StepSimulates(h.h.rule, n, h.View(), BeginNamed(name));
      ok := h.BeginNamed(name);
      ok := PerformSalvaging(h, body, m);
      ghost var done := WithCurrent(m, o.state);
      if ok && ending.Keep? {
        ClosedBy(h.h.rule, n, name, o.state, Keep);
        StepSimulates(h.h.rule, done, h.View(), CommitNamed(name));
        ok := h.CommitNamed(name);
      } else {
        ClosedBy(h.h.rule, n, name, o.state, Undo);
        StepSimulates(h.h.rule, done, h.View(), RollbackNamed(name));
        ok := h.RollbackNamed(name);
      }
  }

  /** Outside every transaction: rejected writes or not, exactly what was salvaged is committed, no
      transaction is open and no name is left. */
  method PerformCatching<Db>(h: Handle<Db>, p: Program<Db>, ghost db: Db) returns (ok: bool)
    requires h.View() == Fresh(db) && UndoNamesOk(h.h.rule, false, [], p)
    modifies h, h.h
    ensures Outcome(h.View(), ok) == Outcome(Fresh(Salvage(p, db).state), Salvage(p, db).ok)
  {
    ok := PerformSalvaging(h, p, Outside(db));
  }
}
