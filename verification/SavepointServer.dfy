/**
 * The database server as a transaction handle sees it: a committed database, the
 * session's working copy, and the stack of savepoints of the open transaction.
 * The statements follow sections 16.4 to 16.7 of ISO/IEC 9075-2:1999.  The server is strict: a
 * statement that makes no sense in the current state fails.
 */
module SavepointServer {
  import opened Optional

  /** What SAVEPOINT does to an older savepoint of the same name: PostgreSQL and SQLite
      keep it underneath the new one, MySQL and the standard destroy it. */
  datatype Rule = Shadow | Replace

  datatype Savepoint<Db> = Savepoint(name: string, snapshot: Db)

  /** `saves` holds the savepoints oldest first. */
  datatype Server<Db> = Server(committed: Db, working: Db, inTransaction: bool, saves: seq<Savepoint<Db>>)

  datatype Statement =
    | BeginWork
    | CommitWork
    | RollbackWork
    | SetSavepoint(name: string)
    | ReleaseSavepoint(name: string)
    | RollbackToSavepoint(name: string)

  function Idle<Db>(db: Db): Server<Db> {
    Server(db, db, false, [])
  }

  /** The index of the youngest savepoint called `name`, or -1. */
  function Topmost<Db>(saves: seq<Savepoint<Db>>, name: string): (k: int)
    ensures -1 <= k < |saves|
    ensures k >= 0 ==> saves[k].name == name
    ensures forall j :: k < j < |saves| ==> saves[j].name != name
  {
    if saves == [] then -1
    else if saves[|saves| - 1].name == name then |saves| - 1
    else Topmost(saves[..|saves| - 1], name)
  }

  /** The savepoints that are not called `name`, in the same order. */
  function Without<Db>(saves: seq<Savepoint<Db>>, name: string): (rest: seq<Savepoint<Db>>)
    ensures forall k :: 0 <= k < |rest| ==> rest[k] in saves && rest[k].name != name
    ensures forall k :: 0 <= k < |saves| && saves[k].name != name ==> saves[k] in rest
  {
    if saves == [] then []
    else
      var last := saves[|saves| - 1];
      var init := Without(saves[..|saves| - 1], name);
      if last.name == name then init else init + [last]
  }

  function Establish<Db>(rule: Rule, saves: seq<Savepoint<Db>>, s: Savepoint<Db>): seq<Savepoint<Db>> {
    (if rule.Replace? then Without(saves, s.name) else saves) + [s]
  }

  /** One statement; None when the server rejects it. */
  function Exec<Db>(rule: Rule, s: Server<Db>, stmt: Statement): Option<Server<Db>> {
    match stmt
    case BeginWork =>
      if s.inTransaction then None else Some(Server(s.committed, s.committed, true, []))
    case CommitWork =>
      if s.inTransaction then Some(Idle(s.working)) else None
    case RollbackWork =>
      if s.inTransaction then Some(Idle(s.committed)) else None
    case SetSavepoint(name) =>
      if s.inTransaction then Some(s.(saves := Establish(rule, s.saves, Savepoint(name, s.working)))) else None
    case ReleaseSavepoint(name) =>
      // destroys the savepoint and every younger one
      var k := Topmost(s.saves, name);
      if s.inTransaction && k >= 0 then Some(s.(saves := s.saves[..k])) else None
    case RollbackToSavepoint(name) =>
      // destroys every younger savepoint but keeps the one named
      var k := Topmost(s.saves, name);
      if s.inTransaction && k >= 0
      then Some(s.(working := s.saves[k].snapshot, saves := s.saves[..k + 1]))
      else None
  }

  /** Data modification, which the server may reject: outside a transaction it is committed at once. */
  function Apply<Db>(s: Server<Db>, write: Db -> Option<Db>): Option<Server<Db>> {
    var r := write(if s.inTransaction then s.working else s.committed);
    if r.None? then None
    else if s.inTransaction then Some(s.(working := r.value))
    else Some(Idle(r.value))
  }

  /** Destroying the savepoints called `gone` moves the youngest `name`, but leaves it the same
      savepoint with the same (thinned out) savepoints beneath it. */
  lemma {:induction false} WithoutKeepsTopmost<Db>(saves: seq<Savepoint<Db>>, gone: string, name: string)
    requires gone != name && Topmost(saves, name) >= 0
    ensures var k, rest := Topmost(saves, name), Without(saves, gone);
            var k' := Topmost(rest, name);
            k' >= 0 && rest[k'] == saves[k] && rest[..k'] == Without(saves[..k], gone)
  {
    var init, last := saves[..|saves| - 1], saves[|saves| - 1];
    var rest := Without(saves, gone);
    if last.name == name {
      assert rest == Without(init, gone) + [last];
      assert rest[..|rest| - 1] == Without(init, gone);
    } else {
      WithoutKeepsTopmost(init, gone, name);
      var k := Topmost(saves, name);
      assert init[..k] == saves[..k];
      if last.name != gone {
        assert rest[..|rest| - 1] == Without(init, gone);
        var k' := Topmost(rest, name);
        assert rest[..k'] == Without(init, gone)[..k'];
      }
    }
  }
}
