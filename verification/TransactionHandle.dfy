/**
 * Transactions as the library offers them: the per-driver handles, which turn named
 * begin/commit/rollback into flat SQL with the help of one counter, and the facade
 * `Handle`, which keeps the names of the open transactions beside them.  The three
 * drivers run the same code and differ only in their server's same-name rule.
 *
 * The functions describe one call as a step on values; the classes at the end of the
 * module are proved against them.
 */
module TransactionHandle {
  import opened Optional
  import opened SavepointServer

  /** A driver handle: its counter and the server session behind it. */
  datatype Conn<Db> = Conn(nesting: int, server: Server<Db>)

  /** A facade: the names of the open transactions, and its driver handle. */
  datatype Facade<Db> = Facade(trx: seq<string>, conn: Conn<Db>)

  /** The state a call leaves behind; `ok` is false when a statement failed and the call threw. */
  datatype Outcome<S> = Outcome(state: S, ok: bool)

  datatype Op<!Db> =
    | Execute(write: Db -> Option<Db>)
    | Begin
    | Commit
    | Rollback
    | BeginNamed(name: string)
    | CommitNamed(name: string)
    | RollbackNamed(name: string)

  function Fresh<Db>(db: Db): Facade<Db> {
    Facade([], Conn(0, Idle(db)))
  }

  // ---- the driver handles

  function Send<Db>(rule: Rule, c: Conn<Db>, stmt: Statement): Outcome<Conn<Db>> {
    match Exec(rule, c.server, stmt)
    case None => Outcome(c, false)
    case Some(s) => Outcome(c.(server := s), true)
  }

  function DriverExecute<Db>(c: Conn<Db>, write: Db -> Option<Db>): Outcome<Conn<Db>> {
    match Apply(c.server, write)
    case None => Outcome(c, false)
    case Some(s) => Outcome(c.(server := s), true)
  }

  function DriverBegin<Db>(rule: Rule, c: Conn<Db>): Outcome<Conn<Db>> {
    var o := Send(rule, c, BeginWork);
    if o.ok then Outcome(o.state.(nesting := c.nesting + 1), true) else o
  }

  /** Unnamed commit and rollback close everything. */
  function DriverClose<Db>(rule: Rule, c: Conn<Db>, stmt: Statement): Outcome<Conn<Db>> {
    var o := Send(rule, c, stmt);
    if o.ok then Outcome(o.state.(nesting := 0), true) else o
  }

  function DriverBeginNamed<Db>(rule: Rule, c: Conn<Db>, name: string): Outcome<Conn<Db>> {
    var entered := if c.nesting == 0 then DriverBegin(rule, c) else Outcome(c, true);
    if !entered.ok then entered
    else
      var c' := if c.nesting == 0 then entered.state.(nesting := 0) else c;
      var o := Send(rule, c', SetSavepoint(name));
      if o.ok then Outcome(o.state.(nesting := c'.nesting + 1), true) else o
  }

  /** Named commit (`inner` releases, `outer` commits) and named rollback. */
  function DriverCloseNamed<Db>(rule: Rule, c: Conn<Db>, inner: Statement, outer: Statement): Outcome<Conn<Db>> {
    var o := Send(rule, c, inner);
    if !o.ok then o
    else
      var c' := o.state.(nesting := c.nesting - 1);
      if c'.nesting == 0 then DriverClose(rule, c', outer) else Outcome(c', true)
  }

  function DriverStep<Db>(rule: Rule, c: Conn<Db>, op: Op<Db>): Outcome<Conn<Db>> {
    match op
    case Execute(write) => DriverExecute(c, write)
    case Begin => DriverBegin(rule, c)
    case Commit => DriverClose(rule, c, CommitWork)
    case Rollback => DriverClose(rule, c, RollbackWork)
    case BeginNamed(name) => DriverBeginNamed(rule, c, name)
    case CommitNamed(name) => DriverCloseNamed(rule, c, ReleaseSavepoint(name), CommitWork)
    case RollbackNamed(name) => DriverCloseNamed(rule, c, RollbackToSavepoint(name), RollbackWork)
  }

  // ---- the facade

  /** Popping a name off an empty list is undefined in the source. */
  predicate Callable<Db>(trx: seq<string>, op: Op<Db>) {
    op.CommitNamed? || op.RollbackNamed? ==> trx != []
  }

  function Names<Db>(trx: seq<string>, op: Op<Db>): seq<string>
    requires Callable(trx, op)
  {
    match op
    case BeginNamed(name) => trx + [name]
    case CommitNamed(_) => trx[..|trx| - 1]
    case RollbackNamed(_) => trx[..|trx| - 1]
    case Commit => []
    case Rollback => []
    case _ => trx
  }

  /** The facade moves its list of names before it calls the driver. */
  function Step<Db>(rule: Rule, f: Facade<Db>, op: Op<Db>): Outcome<Facade<Db>>
    requires Callable(f.trx, op)
  {
    var o := DriverStep(rule, f.conn, op);
    Outcome(Facade(Names(f.trx, op), o.state), o.ok)
  }

  /** A whole run; None as soon as a call is not allowed or fails. */
  function Run<Db>(rule: Rule, f: Facade<Db>, ops: seq<Op<Db>>): Option<Facade<Db>>
    decreases |ops|
  {
    if ops == [] then Some(f)
    else if !Callable(f.trx, ops[0]) then None
    else
      var o := Step(rule, f, ops[0]);
      if o.ok then Run(rule, o.state, ops[1..]) else None
  }

  // ---- facade, counter and server stay in step

  /** `unnamed` tells whether an unnamed begin opened the current transaction. */
  ghost predicate InStep<Db>(f: Facade<Db>, unnamed: bool) {
    && f.conn.nesting == |f.trx| + (if unnamed then 1 else 0)
    && (f.conn.nesting > 0 <==> f.conn.server.inTransaction)
  }

  ghost function UnnamedNext<Db>(unnamed: bool, op: Op<Db>): bool {
    op.Begin? || (unnamed && !op.Commit? && !op.Rollback?)
  }

  ghost function UnnamedAfter<Db>(unnamed: bool, ops: seq<Op<Db>>): bool
    decreases |ops|
  {
    if ops == [] then unnamed else UnnamedAfter(UnnamedNext(unnamed, ops[0]), ops[1..])
  }

  /** Over every failure-free run, whatever names the caller passes. */
  lemma {:induction false} FacadeStaysInStep<Db>(rule: Rule, f: Facade<Db>, unnamed: bool, ops: seq<Op<Db>>)
    requires InStep(f, unnamed) && Run(rule, f, ops).Some?
    ensures InStep(Run(rule, f, ops).value, UnnamedAfter(unnamed, ops))
    decreases |ops|
  {
    if ops != [] {
      var o := Step(rule, f, ops[0]);
      FacadeStaysInStep(rule, o.state, UnnamedNext(unnamed, ops[0]), ops[1..]);
    }
  }

  // ---- one call, whatever the state

  /** Which calls the server lets through. */
  ghost predicate Accepted<Db>(c: Conn<Db>, op: Op<Db>) {
    match op
    case Execute(write) => write(if c.server.inTransaction then c.server.working else c.server.committed).Some?
    case Begin => !c.server.inTransaction
    case Commit => c.server.inTransaction
    case Rollback => c.server.inTransaction
    case BeginNamed(_) => c.server.inTransaction <==> c.nesting != 0
    case CommitNamed(name) => c.server.inTransaction && exists s :: s in c.server.saves && s.name == name
    case RollbackNamed(name) => c.server.inTransaction && exists s :: s in c.server.saves && s.name == name
  }

  /** A call throws exactly if the server does not let it through, and then counter and server, with
      working copy and savepoints, stay as they were. */
  lemma ThrowsExactly<Db>(rule: Rule, f: Facade<Db>, op: Op<Db>)
    requires Callable(f.trx, op)
    ensures Step(rule, f, op).ok <==> Accepted(f.conn, op)
    ensures !Step(rule, f, op).ok ==> Step(rule, f, op).state.conn == f.conn
  {
    var s := f.conn.server;
    if op.CommitNamed? || op.RollbackNamed? {
      if Topmost(s.saves, op.name) >= 0 {
        assert s.saves[Topmost(s.saves, op.name)] in s.saves;
      }
    }
  }

  /** Thrown or not: one name more, one name less whatever name is given, none, or the same. */
  lemma NamesMove<Db>(rule: Rule, f: Facade<Db>, op: Op<Db>)
    requires Callable(f.trx, op)
    ensures var trx := Step(rule, f, op).state.trx;
            && (op.Execute? || op.Begin? ==> trx == f.trx)
            && (op.BeginNamed? ==> trx == f.trx + [op.name])
            && (op.CommitNamed? || op.RollbackNamed? ==> exists last :: f.trx == trx + [last])
            && (op.Commit? || op.Rollback? ==> trx == [])
  {
    if op.CommitNamed? || op.RollbackNamed? {
      assert f.trx == f.trx[..|f.trx| - 1] + [f.trx[|f.trx| - 1]];
    }
  }

  /** A call that goes through moves the counter by one, or to zero, and leaves a transaction open
      exactly if it opened one or closed neither all nor the last level of one. */
  lemma CounterMoves<Db>(rule: Rule, f: Facade<Db>, op: Op<Db>)
    requires Callable(f.trx, op) && Step(rule, f, op).ok
    ensures var c, c' := f.conn, Step(rule, f, op).state.conn;
            match op
            case Execute(_) => c'.nesting == c.nesting && c'.server.inTransaction == c.server.inTransaction
            case Begin => c'.nesting == c.nesting + 1 && c'.server.inTransaction
            case Commit => c'.nesting == 0 && !c'.server.inTransaction
            case Rollback => c'.nesting == 0 && !c'.server.inTransaction
            case BeginNamed(_) => c'.nesting == c.nesting + 1 && c'.server.inTransaction
            case _ => c'.nesting == c.nesting - 1 && (c'.server.inTransaction <==> c'.nesting != 0)
  {
  }

  /** What a call that goes through does to the committed database and the working copy. */
  lemma DatabasesMove<Db>(rule: Rule, f: Facade<Db>, op: Op<Db>)
    requires Callable(f.trx, op) && Step(rule, f, op).ok
    ensures var s, s', last := f.conn.server, Step(rule, f, op).state.conn.server, f.conn.nesting == 1;
            match op
            case Execute(write) =>
              if s.inTransaction then s'.committed == s.committed && Some(s'.working) == write(s.working)
              else s'.committed == s'.working && Some(s'.committed) == write(s.committed)
            case Begin => s'.committed == s'.working == s.committed
            case Commit => s'.committed == s'.working == s.working
            case Rollback => s'.committed == s'.working == s.committed
            case BeginNamed(_) =>
              s'.committed == s.committed && s'.working == if s.inTransaction then s.working else s.committed
            case CommitNamed(_) => s'.working == s.working && s'.committed == if last then s.working else s.committed
            case RollbackNamed(name) =>
              && s'.committed == s.committed
              && if last then s'.working == s.committed
                 else exists k :: 0 <= k < |s.saves| && s.saves[k].name == name && s'.working == s.saves[k].snapshot
                                  && forall j :: k < j < |s.saves| ==> s.saves[j].name != name
  {
  }

  /** And to the savepoints: an opened block's lies on top, with the database it began with; a commit
      drops the youngest of its name and all above it, a rollback those above it. */
  lemma SavepointsMove<Db>(rule: Rule, f: Facade<Db>, op: Op<Db>)
    requires Callable(f.trx, op) && Step(rule, f, op).ok
    ensures var s, s' := f.conn.server, Step(rule, f, op).state.conn.server;
            match op
            case Execute(_) => s'.saves == if s.inTransaction then s.saves else []
            case BeginNamed(name) =>
              && s'.saves != [] && s'.saves[|s'.saves| - 1] == Savepoint(name, s'.working)
              && (rule.Shadow? && s.inTransaction ==> s'.saves[..|s'.saves| - 1] == s.saves)
              && (!s.inTransaction ==> |s'.saves| == 1)
              && (rule.Replace? && s.inTransaction ==> s'.saves[..|s'.saves| - 1] == Without(s.saves, name))
            case CommitNamed(name) =>
              !s'.inTransaction
              || exists k :: 0 <= k < |s.saves| && s.saves[k].name == name && s'.saves == s.saves[..k]
                             && forall j :: k < j < |s.saves| ==> s.saves[j].name != name
            case RollbackNamed(name) =>
              !s'.inTransaction
              || exists k :: 0 <= k < |s.saves| && s.saves[k].name == name && s'.saves == s.saves[..k + 1]
                             && forall j :: k < j < |s.saves| ==> s.saves[j].name != name
            case _ => s'.saves == []
  {
  }

  /** Names and counter come out of step exactly by a named call that throws: the facade has moved its
      names, the driver has not moved its counter. */
  lemma ThrownCallOutOfStepExactly<Db>(rule: Rule, f: Facade<Db>, unnamed: bool, op: Op<Db>)
    requires InStep(f, unnamed) && Callable(f.trx, op) && !Step(rule, f, op).ok
    ensures InStep(Step(rule, f, op).state, unnamed) <==> !(op.BeginNamed? || op.CommitNamed? || op.RollbackNamed?)
  {
    ThrowsExactly(rule, f, op);
  }

  // ---- the classes

  /** PgHandle, MySqlHandle and Sqlite3Handle. */
  class Driver<Db> {
    const rule: Rule
    var trNesting: int
    var server: Server<Db>

    constructor (rule: Rule, db: Db)
      ensures View() == Conn(0, Idle(db)) && this.rule == rule
    {
      this.rule := rule;
      trNesting := 0;
      server := Idle(db);
    }

    ghost function View(): Conn<Db>
      reads this
    {
      Conn(trNesting, server)
    }

    method SendStatement(stmt: Statement) returns (ok: bool)
      modifies this
      ensures Outcome(View(), ok) == Send(rule, old(View()), stmt)
    {
      var reply := Exec(rule, server, stmt);
      match reply
      case None => ok := false;
      case Some(s) =>
        server := s;
        ok := true;
    }

    method ExecuteWrite(write: Db -> Option<Db>) returns (ok: bool)
      modifies this
      ensures Outcome(View(), ok) == DriverStep(rule, old(View()), Execute(write))
    {
      var reply := Apply(server, write);
      match reply
      case None => ok := false;
      case Some(s) =>
        server := s;
        ok := true;
    }

    method BeginWork() returns (ok: bool)
      modifies this
      ensures Outcome(View(), ok) == DriverStep(rule, old(View()), Begin)
    {
      ok := SendStatement(Statement.BeginWork);
      if ok {
        trNesting := trNesting + 1;
      }
    }

    method CommitWork() returns (ok: bool)
      modifies this
      ensures Outcome(View(), ok) == DriverStep(rule, old(View()), Commit)
    {
      ok := SendStatement(Statement.CommitWork);
      if ok {
        trNesting := 0;
      }
    }

    method RollbackWork() returns (ok: bool)
      modifies this
      ensures Outcome(View(), ok) == DriverStep(rule, old(View()), Rollback)
    {
      ok := SendStatement(Statement.RollbackWork);
      if ok {
        trNesting := 0;
      }
    }

    method BeginNamed(name: string) returns (ok: bool)
      modifies this
      ensures Outcome(View(), ok) == DriverStep(rule, old(View()), Op.BeginNamed(name))
    {
      if trNesting == 0 {
        ok := BeginWork();
        if !ok {
          return;
        }
        trNesting := 0;
      }
      ok := SendStatement(SetSavepoint(name));
      if ok {
        trNesting := trNesting + 1;
      }
    }

    method CommitNamed(name: string) returns (ok: bool)
      modifies this
      ensures Outcome(View(), ok) == DriverStep(rule, old(View()), Op.CommitNamed(name))
    {
      ok := SendStatement(ReleaseSavepoint(name));
      if ok {
        trNesting := trNesting - 1;
        if trNesting == 0 {
          ok := CommitWork();
        }
      }
    }

    method RollbackNamed(name: string) returns (ok: bool)
      modifies this
      ensures Outcome(View(), ok) == DriverStep(rule, old(View()), Op.RollbackNamed(name))
    {
      ok := SendStatement(RollbackToSavepoint(name));
      if ok {
        trNesting := trNesting - 1;
        if trNesting == 0 {
          ok := RollbackWork();
        }
      }
    }
  }

  /** The facade. */
  class Handle<Db> {
    var trx: seq<string>
    const h: Driver<Db>

    constructor (driver: Driver<Db>)
      ensures trx == [] && h == driver
    {
      trx := [];
      h := driver;
    }

    ghost function View(): Facade<Db>
      reads this, h
    {
      Facade(trx, h.View())
    }

    method ExecuteWrite(write: Db -> Option<Db>) returns (ok: bool)
      modifies h
      ensures Outcome(View(), ok) == Step(h.rule, old(View()), Execute(write))
    {
      ok := h.ExecuteWrite(write);
    }

    method BeginWork() returns (ok: bool)
      modifies h
      ensures Outcome(View(), ok) == Step(h.rule, old(View()), Begin)
    {
      ok := h.BeginWork();
    }

    method CommitWork() returns (ok: bool)
      modifies this, h
      ensures Outcome(View(), ok) == Step(h.rule, old(View()), Commit)
    {
      trx := [];
      ok := h.CommitWork();
    }

    method RollbackWork() returns (ok: bool)
      modifies this, h
      ensures Outcome(View(), ok) == Step(h.rule, old(View()), Rollback)
    {
      trx := [];
      ok := h.RollbackWork();
    }

    method BeginNamed(name: string) returns (ok: bool)
      modifies this, h
      ensures Outcome(View(), ok) == Step(h.rule, old(View()), Op.BeginNamed(name))
    {
      trx := trx + [name];
      ok := h.BeginNamed(name);
    }

    method CommitNamed(name: string) returns (ok: bool)
      requires trx != []
      modifies this, h
      ensures Outcome(View(), ok) == Step(h.rule, old(View()), Op.CommitNamed(name))
    {
      trx := trx[..|trx| - 1];
      ok := h.CommitNamed(name);
    }

    method RollbackNamed(name: string) returns (ok: bool)
      requires trx != []
      modifies this, h
      ensures Outcome(View(), ok) == Step(h.rule, old(View()), Op.RollbackNamed(name))
    {
      trx := trx[..|trx| - 1];
      ok := h.RollbackNamed(name);
    }
  }
}
