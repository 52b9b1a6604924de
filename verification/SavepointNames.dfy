/**
 * Which names nested blocks may reuse, exactly.  Take any forest of named blocks.  Every program
 * with these blocks, whatever it writes and however its blocks end, has its recursive meaning if
 * and only if every path of names down the forest satisfies a condition the caller can read off
 * the open names.
 */
module SavepointNames {
  import opened Optional
  import opened SavepointServer
  import opened TransactionHandle
  import opened NestedTransactions

  /** A named block and the blocks directly inside it, in order. */
  datatype Tree = Tree(name: string, inner: seq<Tree>)

  /** The blocks of a program, without its writes and endings. */
  function Blocks<Db>(p: Program<Db>): seq<Tree> {
    match p
    case Nothing => []
    case Write(_) => []
    case Then(first, second) => Blocks(first) + Blocks(second)
    case Block(name, body, _) => [Tree(name, Blocks(body))]
  }

  /** The names of nested blocks, from a root of the forest downwards. */
  ghost predicate IsPath(forest: seq<Tree>, path: seq<string>)
    decreases |path|
  {
    path == [] || exists i :: 0 <= i < |forest| && Heads(forest[i], path)
  }

  ghost predicate Heads(t: Tree, path: seq<string>)
    requires path != []
    decreases |path|, 0
  {
    t.name == path[0] && IsPath(t.inner, path[1..])
  }

  /** The exact condition.  Where a new savepoint replaces its namesake, no name may be open twice.
      Where it shadows it, only a block and the block directly around it must differ, and not even
      that when the outer of the two closes the transaction. */
  predicate PathOk(rule: Rule, names: seq<string>) {
    match rule
    case Replace => forall i, j :: 0 <= i < j < |names| ==> names[i] != names[j]
    case Shadow => forall i :: 2 <= i < |names| ==> names[i] != names[i - 1]
  }

  ghost predicate Faithful(rule: Rule, p: Program<int>) {
    Run(rule, Fresh(0), Calls(p)) == FreshOf(Meaning(p, 0))
  }

  /** Programs with these blocks mean what they should, whatever they write and however they end. */
  ghost predicate AlwaysFaithful(rule: Rule, forest: seq<Tree>) {
    forall p: Program<int> | Blocks(p) == forest :: Faithful(rule, p)
  }

  ghost predicate PathsOk(rule: Rule, forest: seq<Tree>) {
    forall path | IsPath(forest, path) :: PathOk(rule, path)
  }

  lemma {:induction false} NamesReusedExactly(rule: Rule, forest: seq<Tree>)
    ensures AlwaysFaithful(rule, forest) <==> PathsOk(rule, forest)
  {
    if PathsOk(rule, forest) {
      forall p: Program<int> | Blocks(p) == forest ensures Faithful(rule, p) {
        PathsOkSuffice(rule, p);
      }
    } else if rule.Replace? {
      ReplacedNameFails(forest);
    } else {
      var path :| IsPath(forest, path) && !PathOk(rule, path);
      var i :| 2 <= i < |path| && path[i] == path[i - 1];
      ShadowedNameMisleads(forest, path, i);
    }
  }

  // ---- the condition suffices

  lemma {:induction false} PathsOkSuffice(rule: Rule, p: Program<int>)
    requires PathsOk(rule, Blocks(p))
    ensures Faithful(rule, p)
  {
    forall path | IsPath(Blocks(p), path) ensures PathOk(rule, [] + path) {
      assert [] + path == path;
    }
    PathsNamesOk(rule, [], p);
    MeaningPreserved(rule, p, 0);
  }

  lemma {:induction false} PathsNamesOk(rule: Rule, open: seq<string>, p: Program<int>)
    requires forall path | IsPath(Blocks(p), path) :: PathOk(rule, open + path)
    ensures NamesOk(rule, false, open, p)
    decreases p
  {
    match p
    case Nothing =>
    case Write(_) =>
    case Then(first, second) =>
      forall path | IsPath(Blocks(first), path) ensures PathOk(rule, open + path) {
        PathOfPart(Blocks(first), Blocks(second), path);
      }
      forall path | IsPath(Blocks(second), path) ensures PathOk(rule, open + path) {
        PathOfPart(Blocks(first), Blocks(second), path);
      }
      PathsNamesOk(rule, open, first);
      PathsNamesOk(rule, open, second);
    case Block(name, body, _) =>
      forall path | IsPath(Blocks(body), path) ensures PathOk(rule, open + [name] + path) {
        PathOfBlock(name, Blocks(body), path);
        assert open + ([name] + path) == open + [name] + path;
      }
      assert IsPath(Blocks(body), []) && open + [name] + [] == open + [name];
      PathOkMeans(rule, open, name);
      PathsNamesOk(rule, open + [name], body);
  }

  lemma {:induction false} PathOfPart(a: seq<Tree>, b: seq<Tree>, path: seq<string>)
    ensures IsPath(a, path) || IsPath(b, path) ==> IsPath(a + b, path)
  {
    if path != [] {
      if IsPath(a, path) {
        var i :| 0 <= i < |a| && Heads(a[i], path);
        assert (a + b)[i] == a[i];
      } else if IsPath(b, path) {
        var i :| 0 <= i < |b| && Heads(b[i], path);
        assert (a + b)[|a| + i] == b[i];
      }
    }
  }

  lemma {:induction false} PathOfBlock(name: string, inner: seq<Tree>, path: seq<string>)
    requires IsPath(inner, path)
    ensures IsPath([Tree(name, inner)], [name] + path)
  {
    assert ([name] + path)[1..] == path;
    assert Heads([Tree(name, inner)][0], [name] + path);
  }

  lemma {:induction false} PathOkMeans(rule: Rule, open: seq<string>, name: string)
    requires PathOk(rule, open + [name])
    ensures MayOpen(rule, open, name) && MayUndo(rule, false, open, name)
  {
    var path := open + [name];
    assert path[|open|] == name && forall i :: 0 <= i < |open| ==> path[i] == open[i];
  }

  // ---- the condition is needed: programs to show it

  const INCREMENT: int -> Option<int> := x => Some(x + 1)

  /** The blocks of a forest, all committed, without a write. */
  function Plain(forest: seq<Tree>): Program<int> {
    if forest == [] then Nothing
    else Then(Block(forest[0].name, Plain(forest[0].inner), Keep), Plain(forest[1..]))
  }

  /** The same, except that along a path every body starts by counting one up, and that block i of the
      path and the one around it are rolled back. */
  ghost function Along(forest: seq<Tree>, path: seq<string>, i: nat): Program<int>
    requires IsPath(forest, path) && i < |path|
    decreases forest
  {
    var t := forest[0];
    if Heads(t, path) then
      var inner := if i == 0 then Plain(t.inner) else Along(t.inner, path[1..], i - 1);
      Then(Block(t.name, Then(Write(INCREMENT), inner), if i <= 1 then Undo else Keep), Plain(forest[1..]))
    else
      PathFurther(forest, path);
      Then(Block(t.name, Plain(t.inner), Keep), Along(forest[1..], path, i))
  }

  lemma {:induction false} PathFurther(forest: seq<Tree>, path: seq<string>)
    requires path != [] && IsPath(forest, path)
    ensures forest != [] && (!Heads(forest[0], path) ==> IsPath(forest[1..], path))
  {
    var i :| 0 <= i < |forest| && Heads(forest[i], path);
    assert i > 0 ==> forest[1..][i - 1] == forest[i];
  }

  lemma {:induction false} PlainProgram(forest: seq<Tree>, db: int)
    ensures Blocks(Plain(forest)) == forest && Meaning(Plain(forest), db) == Some(db)
    ensures NamesOk(Shadow, false, [], Plain(forest))
    decreases forest
  {
    if forest != [] {
      PlainProgram(forest[0].inner, db);
      PlainProgram(forest[1..], db);
      PlainNames([forest[0].name], forest[0].inner);
      assert [] + [forest[0].name] == [forest[0].name];
    }
  }

  lemma {:induction false} PlainNames(open: seq<string>, forest: seq<Tree>)
    ensures NamesOk(Shadow, false, open, Plain(forest))
    decreases forest
  {
    if forest != [] {
      PlainNames(open + [forest[0].name], forest[0].inner);
      PlainNames(open, forest[1..]);
    }
  }

  ghost function Inner(t: Tree, path: seq<string>, i: nat): Program<int>
    requires i < |path| && Heads(t, path)
  {
    if i == 0 then Plain(t.inner) else Along(t.inner, path[1..], i - 1)
  }

  ghost function OnPath(t: Tree, path: seq<string>, i: nat): Program<int>
    requires i < |path| && Heads(t, path)
  {
    Block(t.name, Then(Write(INCREMENT), Inner(t, path, i)), if i <= 1 then Undo else Keep)
  }

  /** The program of a forest starts with its first tree's block. */
  lemma {:induction false} AlongUnfold(forest: seq<Tree>, path: seq<string>, i: nat)
    requires IsPath(forest, path) && i < |path|
    ensures forest != []
    ensures if Heads(forest[0], path) then
              Along(forest, path, i) == Then(OnPath(forest[0], path, i), Plain(forest[1..]))
            else
              && IsPath(forest[1..], path)
              && Along(forest, path, i)
                 == Then(Block(forest[0].name, Plain(forest[0].inner), Keep), Along(forest[1..], path, i))
  {
    PathFurther(forest, path);
  }

  lemma {:induction false} BlockBlocks(t: Tree, body: Program<int>, ending: Ending)
    requires Blocks(body) == t.inner
    ensures Blocks(Block(t.name, body, ending)) == [t]
  {
  }

  lemma {:induction false} OnPathBlocks(t: Tree, path: seq<string>, i: nat)
    requires i < |path| && Heads(t, path) && Blocks(Inner(t, path, i)) == t.inner
    ensures Blocks(OnPath(t, path, i)) == [t]
  {
    hide Heads, IsPath, Inner, Along;
    var body := Then(Write(INCREMENT), Inner(t, path, i));
    assert Blocks(body) == t.inner;
    BlockBlocks(t, body, if i <= 1 then Undo else Keep);
  }

  lemma {:induction false} AlongBlocks(forest: seq<Tree>, path: seq<string>, i: nat)
    requires IsPath(forest, path) && i < |path|
    ensures Blocks(Along(forest, path, i)) == forest
    decreases forest
  {
    hide Along, OnPath, Plain, IsPath;
    AlongUnfold(forest, path, i);
    var t, rest := forest[0], forest[1..];
    assert forest == [t] + rest;
    PlainProgram(rest, 0);
    PlainProgram(t.inner, 0);
    if !Heads(t, path) {
      AlongBlocks(rest, path, i);
      BlockBlocks(t, Plain(t.inner), Keep);
    } else {
      if i > 0 {
        AlongBlocks(t.inner, path[1..], i - 1);
      }
      OnPathBlocks(t, path, i);
    }
  }

  lemma {:induction false} AlongMeans(forest: seq<Tree>, path: seq<string>, i: nat, db: int)
    requires IsPath(forest, path) && i < |path|
    ensures Meaning(Along(forest, path, i), db) == Some(if i <= 1 then db else db + i - 1)
    decreases forest
  {
    hide Along;
    AlongUnfold(forest, path, i);
    var t, rest := forest[0], forest[1..];
    if Heads(t, path) {
      var inner := Inner(t, path, i);
      if i == 0 {
        PlainProgram(t.inner, db + 1);
      } else {
        AlongMeans(t.inner, path[1..], i - 1, db + 1);
      }
      assert Meaning(Then(Write(INCREMENT), inner), db) == Meaning(inner, db + 1);
      PlainProgram(rest, if i <= 1 then db else db + i - 1);
    } else {
      PlainProgram(t.inner, db);
      AlongMeans(rest, path, i, db);
    }
  }

  // ---- how their runs go

  lemma {:induction false} RunAppend<Db>(rule: Rule, f: Facade<Db>, a: seq<Op<Db>>, b: seq<Op<Db>>)
    ensures Run(rule, f, a + b) == if Run(rule, f, a).None? then None else Run(rule, Run(rule, f, a).value, b)
    decreases |a|
  {
    if a == [] {
      assert a + b == b;
    } else {
      assert (a + b)[0] == a[0] && (a + b)[1..] == a[1..] + b;
      if Callable(f.trx, a[0]) && Step(rule, f, a[0]).ok {
        RunAppend(rule, Step(rule, f, a[0]).state, a[1..], b);
      }
    }
  }

  function RunOne<Db>(rule: Rule, f: Option<Facade<Db>>, op: Op<Db>): Option<Facade<Db>> {
    if f.None? || !Callable(f.value.trx, op) || !Step(rule, f.value, op).ok then None
    else Some(Step(rule, f.value, op).state)
  }

  lemma {:induction false} RunSingle<Db>(rule: Rule, f: Facade<Db>, op: Op<Db>)
    ensures Run(rule, f, [op]) == RunOne(rule, Some(f), op)
  {
  }

  lemma {:induction false} RunBlock(rule: Rule, f: Facade<int>, g: Facade<int>,
                                    name: string, body: Program<int>, ending: Ending)
    requires RunOne(rule, Some(f), BeginNamed(name)) == Some(g)
    ensures Run(rule, f, Calls(Block(name, body, ending)))
         == RunOne(rule, Run(rule, g, Calls(body)), EndOf(name, ending))
  {
    var open, close, inner := BeginNamed(name), EndOf(name, ending), Calls(body);
    var calls := [open] + inner + [close];
    assert calls[0] == open && calls[1..] == inner + [close];
    RunAppend(rule, g, inner, [close]);
    if Run(rule, g, inner).Some? {
      RunSingle(rule, Run(rule, g, inner).value, close);
    }
  }

  /** A state inside a transaction. */
  ghost predicate Nested(f: Facade<int>) {
    f.conn.nesting >= 1 && f.conn.server.inTransaction
  }

  lemma {:induction false} RunCounting(rule: Rule, f: Facade<int>, inner: Program<int>)
    requires Nested(f)
    ensures Run(rule, f, Calls(Then(Write(INCREMENT), inner)))
         == Run(rule, Working(f, f.conn.server.working + 1, []), Calls(inner))
  {
    var write := Execute(INCREMENT);
    RunAppend(rule, f, [write], Calls(inner));
    RunSingle(rule, f, write);
    assert INCREMENT(f.conn.server.working) == Some(f.conn.server.working + 1);
    assert f.conn.server.saves + [] == f.conn.server.saves;
  }

  /** The state with another database and more savepoints. */
  ghost function Working(f: Facade<int>, db: int, extra: seq<Savepoint<int>>): Facade<int> {
    f.(conn := f.conn.(server := f.conn.server.(working := db, saves := f.conn.server.saves + extra)))
  }

  // ---- where a savepoint replaces its namesake

  /** Every block of the forest has a name that neither the given names nor a block around it have. */
  predicate AllNew(names: seq<string>, forest: seq<Tree>)
    decreases forest
  {
    forest != [] ==>
      && forest[0].name !in names
      && AllNew(names + [forest[0].name], forest[0].inner)
      && AllNew(names, forest[1..])
  }

  lemma {:induction false} AllNewPaths(names: seq<string>, forest: seq<Tree>, path: seq<string>)
    requires AllNew(names, forest) && IsPath(forest, path) && PathOk(Replace, names)
    ensures PathOk(Replace, names + path)
    decreases forest
  {
    if path == [] {
      assert names + path == names;
    } else {
      PathFurther(forest, path);
      if Heads(forest[0], path) {
        AllNewPaths(names + [path[0]], forest[0].inner, path[1..]);
        assert names + [path[0]] + path[1..] == names + path;
      } else {
        AllNewPaths(names, forest[1..], path);
      }
    }
  }

  lemma {:induction false} AllNewIsOk(forest: seq<Tree>)
    requires AllNew([], forest)
    ensures PathsOk(Replace, forest)
  {
    forall path | IsPath(forest, path) ensures PathOk(Replace, path) {
      AllNewPaths([], forest, path);
      assert [] + path == path;
    }
  }

  lemma WithoutLast(saves: seq<Savepoint<int>>, name: string)
    requires saves != []
    ensures var init, last := saves[..|saves| - 1], saves[|saves| - 1];
            Without(saves, name) == Without(init, name) + if last.name == name then [] else [last]
    ensures saves == saves[..|saves| - 1] + [saves[|saves| - 1]]
  {
  }

  lemma {:induction false} WithoutShrinks(saves: seq<Savepoint<int>>, name: string)
    ensures name in NamesOf(saves) ==> |Without(saves, name)| < |saves|
    ensures name !in NamesOf(saves) ==> Without(saves, name) == saves
    ensures |Without(saves, name)| <= |saves|
  {
    if saves != [] {
      NamesOfParts(saves);
      WithoutLast(saves, name);
      WithoutShrinks(saves[..|saves| - 1], name);
      hide NamesOf, Without;
    }
  }

  lemma {:induction false} OpenReplace(f: Facade<int>, name: string)
    requires Nested(f)
    ensures RunOne(Replace, Some(f), BeginNamed(name))
         == Some(Facade(f.trx + [name], Conn(f.conn.nesting + 1, f.conn.server.(
                   saves := Without(f.conn.server.saves, name) + [Savepoint(name, f.conn.server.working)]))))
  {
  }

  /** How a committed forest leaves the state it started from: unchanged, and all its names were new,
      or with fewer savepoints. */
  ghost predicate SameOrFewer(f: Facade<int>, forest: seq<Tree>, r: Facade<int>) {
    && Nested(r) && r.trx == f.trx && r.conn.nesting == f.conn.nesting
    && (if |r.conn.server.saves| < |f.conn.server.saves| then true
        else r == f && AllNew(NamesOf(f.conn.server.saves), forest))
  }

  lemma {:induction false} CommitInner(g: Facade<int>, name: string)
    requires Nested(g) && g.conn.nesting >= 2 && g.trx != []
    ensures var r := RunOne(Replace, Some(g), CommitNamed(name));
            r.Some? ==>
              && Topmost(g.conn.server.saves, name) >= 0
              && r.value == Facade(g.trx[..|g.trx| - 1], Conn(g.conn.nesting - 1, g.conn.server.(
                              saves := g.conn.server.saves[..Topmost(g.conn.server.saves, name)])))
  {
  }

  lemma {:induction false} TopmostLast(saves: seq<Savepoint<int>>, s: Savepoint<int>)
    ensures Topmost(saves + [s], s.name) == |saves| && (saves + [s])[..|saves|] == saves
    ensures NamesOf(saves + [s]) == NamesOf(saves) + [s.name]
  {
    assert (saves + [s])[|saves|] == s;
    NamesOfParts(saves + [s]);
  }

  /** One committed block around a forest that leaves its start the same or with fewer savepoints. */
  lemma {:induction false} BlockSameOrFewer(f: Facade<int>, t: Tree, g: Facade<int>, h: Facade<int>, r: Facade<int>)
    requires Nested(f) && RunOne(Replace, Some(f), BeginNamed(t.name)) == Some(g)
    requires SameOrFewer(g, t.inner, h) && RunOne(Replace, Some(h), CommitNamed(t.name)) == Some(r)
    ensures SameOrFewer(f, [t], r)
  {
    var saves, s := f.conn.server.saves, Savepoint(t.name, f.conn.server.working);
    OpenReplace(f, t.name);
    WithoutShrinks(saves, t.name);
    CommitInner(h, t.name);
    assert (f.trx + [t.name])[..|f.trx|] == f.trx;
    hide Topmost, Without, NamesOf, AllNew;
    if t.name !in NamesOf(saves) && h == g {
      TopmostLast(saves, s);
      assert r == f;
      AllNewBlock(NamesOf(saves), t);
    }
  }

  lemma {:induction false} AllNewBlock(names: seq<string>, t: Tree)
    requires t.name !in names && AllNew(names + [t.name], t.inner)
    ensures AllNew(names, [t])
  {
    assert [t][1..] == [];
  }

  lemma {:induction false} CommittedForest(f: Facade<int>, forest: seq<Tree>)
    requires Nested(f)
    ensures var r := Run(Replace, f, Calls(Plain(forest)));
            r.Some? ==> SameOrFewer(f, forest, r.value)
    decreases forest
  {
    if forest != [] {
      var t, rest := forest[0], forest[1..];
      OpenReplace(f, t.name);
      var g := RunOne(Replace, Some(f), BeginNamed(t.name)).value;
      CommittedForest(g, t.inner);
      RunBlock(Replace, f, g, t.name, Plain(t.inner), Keep);
      hide RunOne, Run;
      var inner, first := Run(Replace, g, Calls(Plain(t.inner))), Block(t.name, Plain(t.inner), Keep);
      var r := Run(Replace, f, Calls(first));
      RunAppend(Replace, f, Calls(first), Calls(Plain(rest)));
      if r.Some? {
        NoneStaysNone(Replace, inner, EndOf(t.name, Keep));
        BlockSameOrFewer(f, t, g, inner.value, r.value);
        CommittedForest(r.value, rest);
        if r.value == f {
          AllNewStep(NamesOf(f.conn.server.saves), forest);
        }
      }
    }
  }

  lemma {:induction false} NoneStaysNone(rule: Rule, f: Option<Facade<int>>, op: Op<int>)
    ensures f.None? ==> RunOne(rule, f, op).None?
  {
  }

  lemma {:induction false} AllNewStep(names: seq<string>, forest: seq<Tree>)
    requires forest != []
    ensures AllNew(names, [forest[0]]) && AllNew(names, forest[1..]) ==> AllNew(names, forest)
  {
  }

  lemma {:induction false} OpenFresh(rule: Rule, name: string, db: int)
    ensures RunOne(rule, Some(Fresh(db)), BeginNamed(name))
         == Some(Facade([name], Conn(1, Server(db, db, true, [Savepoint(name, db)]))))
  {
    FirstBegin(rule, db, name);
  }

  /** Closing the outermost block by a commit, when its savepoint is the youngest of its name. */
  lemma {:induction false} CommitOutermost(rule: Rule, g: Facade<int>, name: string)
    requires g.conn.nesting == 1 && g.conn.server.inTransaction && |g.trx| == 1
    ensures var r := RunOne(rule, Some(g), CommitNamed(name));
            if Topmost(g.conn.server.saves, name) >= 0 then r == Some(Fresh(g.conn.server.working)) else r.None?
  {
    assert g.trx[..0] == [];
  }

  /** A committed forest outside every transaction runs only if no name is open twice. */
  lemma {:induction false} CommittedForestOutside(forest: seq<Tree>)
    ensures var r := Run(Replace, Fresh(0), Calls(Plain(forest)));
            r.Some? ==> r == Some(Fresh(0)) && AllNew([], forest)
    decreases forest
  {
    if forest != [] {
      var t, rest := forest[0], forest[1..];
      var first, s := Block(t.name, Plain(t.inner), Keep), Savepoint(t.name, 0);
      OpenFresh(Replace, t.name, 0);
      var g := Facade([t.name], Conn(1, Server(0, 0, true, [s])));
      RunBlock(Replace, Fresh(0), g, t.name, Plain(t.inner), Keep);
      CommittedForest(g, t.inner);
      RunAppend(Replace, Fresh(0), Calls(first), Calls(Plain(rest)));
      hide RunOne, Run;
      var inner := Run(Replace, g, Calls(Plain(t.inner)));
      NoneStaysNone(Replace, inner, EndOf(t.name, Keep));
      if Run(Replace, Fresh(0), Calls(first)).Some? {
        CommitOutermost(Replace, inner.value, t.name);
        assert inner.value == g;
        assert NamesOf([s]) == [t.name] == [] + [t.name];
        CommittedForestOutside(rest);
      }
    }
  }

  lemma {:induction false} ReplacedNameFails(forest: seq<Tree>)
    requires !PathsOk(Replace, forest)
    ensures !AlwaysFaithful(Replace, forest)
  {
    PlainProgram(forest, 0);
    CommittedForestOutside(forest);
    if AllNew([], forest) {
      AllNewIsOk(forest);
    }
    assert !Faithful(Replace, Plain(forest));
  }

  // ---- where a savepoint shadows its namesake

  /** The state inside a block just opened. */
  ghost function OpenedOn(f: Facade<int>, name: string): Facade<int> {
    Facade(f.trx + [name], Conn(f.conn.nesting + 1, f.conn.server.(
             saves := f.conn.server.saves + [Savepoint(name, f.conn.server.working)])))
  }

  lemma {:induction false} OpenShadow(f: Facade<int>, name: string)
    requires Nested(f)
    ensures RunOne(Shadow, Some(f), BeginNamed(name)) == Some(OpenedOn(f, name)) && Nested(OpenedOn(f, name))
  {
  }

  /** What closing a block leaves whose body left the database `db` and, on top of the block's own
      savepoint, the savepoints `stale`. */
  ghost function CloseResult(f: Facade<int>, own: Savepoint<int>, db: int, stale: seq<Savepoint<int>>,
                             ending: Ending): Facade<int>
    requires |stale| <= 1
  {
    if ending.Keep? then Working(f, db, ([own] + stale)[..|stale|])
    else Working(f, ([own] + stale)[|stale|].snapshot, [own] + stale)
  }

  /** Of a block's own savepoint and one of the same name above it, the younger is found. */
  lemma {:induction false} YoungestFound(saves: seq<Savepoint<int>>, own: Savepoint<int>, stale: seq<Savepoint<int>>)
    requires |stale| <= 1 && (stale != [] ==> stale[0].name == own.name)
    ensures var all, k := saves + [own] + stale, |saves| + |stale|;
            && Topmost(all, own.name) == k && all[k] == ([own] + stale)[|stale|]
            && all[..k] == saves + ([own] + stale)[..|stale|] && all[..k + 1] == saves + ([own] + stale)
  {
    var all, k := saves + [own] + stale, |saves| + |stale|;
    assert all == saves + ([own] + stale);
    assert all[k].name == own.name && k == |all| - 1;
  }

  /** Closing the block just opened finds the youngest of `stale`, if they share its name. */
  lemma {:induction false} CloseOwn(f: Facade<int>, name: string, db: int, stale: seq<Savepoint<int>>, ending: Ending)
    requires Nested(f) && |stale| <= 1 && (stale != [] ==> stale[0].name == name)
    ensures RunOne(Shadow, Some(Working(OpenedOn(f, name), db, stale)), EndOf(name, ending))
         == Some(CloseResult(f, Savepoint(name, f.conn.server.working), db, stale, ending))
  {
    hide Topmost, DriverStep;
    YoungestFound(f.conn.server.saves, Savepoint(name, f.conn.server.working), stale);
    CloseNamed(Shadow, Working(OpenedOn(f, name), db, stale).conn, name);
    assert (f.trx + [name])[..|f.trx|] == f.trx;
  }

  /** A whole block, when its body is known to leave `db` and `stale`. */
  lemma {:induction false} BlockShadow(f: Facade<int>, name: string, body: Program<int>, ending: Ending,
                                       db: int, stale: seq<Savepoint<int>>)
    requires Nested(f) && |stale| <= 1 && (stale != [] ==> stale[0].name == name)
    requires Run(Shadow, OpenedOn(f, name), Calls(body)) == Some(Working(OpenedOn(f, name), db, stale))
    ensures Run(Shadow, f, Calls(Block(name, body, ending)))
         == Some(CloseResult(f, Savepoint(name, f.conn.server.working), db, stale, ending))
  {
    OpenShadow(f, name);
    RunBlock(Shadow, f, OpenedOn(f, name), name, body, ending);
    CloseOwn(f, name, db, stale, ending);
  }

  lemma {:induction false} WorkingSame(f: Facade<int>)
    ensures Working(f, f.conn.server.working, []) == f
  {
    assert f.conn.server.saves + [] == f.conn.server.saves;
  }

  /** Committed blocks without writes leave no trace. */
  lemma {:induction false} PlainRuns(f: Facade<int>, forest: seq<Tree>)
    requires Nested(f)
    ensures Run(Shadow, f, Calls(Plain(forest))) == Some(f)
    decreases forest
  {
    if forest != [] {
      var t := forest[0];
      PlainRuns(OpenedOn(f, t.name), t.inner);
      WorkingSame(OpenedOn(f, t.name));
      BlockShadow(f, t.name, Plain(t.inner), Keep, f.conn.server.working, []);
      WorkingSame(f);
      assert ([Savepoint(t.name, f.conn.server.working)] + [])[..0] == [];
      RunAppend(Shadow, f, Calls(Block(t.name, Plain(t.inner), Keep)), Calls(Plain(forest[1..])));
      PlainRuns(f, forest[1..]);
    }
  }

  /** Its run starts with that block's run. */
  lemma {:induction false} AlongStarts(f: Facade<int>, forest: seq<Tree>, path: seq<string>, i: nat)
    requires IsPath(forest, path) && i < |path|
    ensures forest != []
    ensures var r := Run(Shadow, f, Calls(Along(forest, path, i)));
            if Heads(forest[0], path) then
              var b := Run(Shadow, f, Calls(OnPath(forest[0], path, i)));
              r == if b.None? then None else Run(Shadow, b.value, Calls(Plain(forest[1..])))
            else
              var b := Run(Shadow, f, Calls(Block(forest[0].name, Plain(forest[0].inner), Keep)));
              && IsPath(forest[1..], path)
              && r == if b.None? then None else Run(Shadow, b.value, Calls(Along(forest[1..], path, i)))
  {
    hide Along;
    AlongUnfold(forest, path, i);
    if Heads(forest[0], path) {
      RunAppend(Shadow, f, Calls(OnPath(forest[0], path, i)), Calls(Plain(forest[1..])));
    } else {
      RunAppend(Shadow, f, Calls(Block(forest[0].name, Plain(forest[0].inner), Keep)),
                Calls(Along(forest[1..], path, i)));
    }
  }

  /** The inner of two namesakes, rolled back: nothing is counted, but its savepoint survives. */
  lemma {:induction false} UndoneBlock(f: Facade<int>, t: Tree, path: seq<string>)
    requires Nested(f) && path != [] && Heads(t, path)
    ensures Run(Shadow, f, Calls(OnPath(t, path, 0)))
         == Some(Working(f, f.conn.server.working, [Savepoint(path[0], f.conn.server.working)]))
  {
    hide Run, Calls;
    var w := f.conn.server.working;
    var g, own := OpenedOn(f, t.name), Savepoint(t.name, w);
    RunCounting(Shadow, g, Plain(t.inner));
    PlainRuns(Working(g, w + 1, []), t.inner);
    BlockShadow(f, t.name, Then(Write(INCREMENT), Plain(t.inner)), Undo, w + 1, []);
    assert [own] + [] == [own];
  }

  lemma {:induction false} UndoneLeavesSavepoint(f: Facade<int>, forest: seq<Tree>, path: seq<string>)
    requires Nested(f) && path != [] && IsPath(forest, path)
    ensures Run(Shadow, f, Calls(Along(forest, path, 0)))
         == Some(Working(f, f.conn.server.working, [Savepoint(path[0], f.conn.server.working)]))
    decreases forest
  {
    hide Run, Calls;
    AlongStarts(f, forest, path, 0);
    var t, w := forest[0], f.conn.server.working;
    if Heads(t, path) {
      UndoneBlock(f, t, path);
      PlainRuns(Working(f, w, [Savepoint(path[0], w)]), forest[1..]);
    } else {
      PlainBlockRuns(f, t);
      UndoneLeavesSavepoint(f, forest[1..], path);
    }
  }

  lemma {:induction false} PlainBlockRuns(f: Facade<int>, t: Tree)
    requires Nested(f)
    ensures Run(Shadow, f, Calls(Block(t.name, Plain(t.inner), Keep))) == Some(f)
  {
    PlainRuns(OpenedOn(f, t.name), t.inner);
    WorkingSame(OpenedOn(f, t.name));
    BlockShadow(f, t.name, Plain(t.inner), Keep, f.conn.server.working, []);
    WorkingSame(f);
    assert ([Savepoint(t.name, f.conn.server.working)] + [])[..0] == [];
  }

  /** `r` stands where `f` stood, in the same blocks, with the database `db`. */
  ghost predicate Back(f: Facade<int>, r: Option<Facade<int>>, db: int) {
    r.Some? ==>
      && Nested(r.value) && r.value.conn.nesting == f.conn.nesting && r.value.trx == f.trx
      && r.value.conn.server.working == db
  }

  /** The outer of two namesakes, rolled back: it finds the inner one's savepoint instead of its own. */
  lemma {:induction false} UndoneKeepsItsWrite(f: Facade<int>, t: Tree, path: seq<string>)
    requires Nested(f) && |path| >= 2 && path[1] == path[0] && Heads(t, path)
    ensures Back(f, Run(Shadow, f, Calls(OnPath(t, path, 1))), f.conn.server.working + 1)
  {
    var g, w := OpenedOn(f, t.name), f.conn.server.working;
    var g' := Working(g, w + 1, []);
    var stale := Savepoint(path[1], w + 1);
    RunCounting(Shadow, g, Along(t.inner, path[1..], 0));
    UndoneLeavesSavepoint(g', t.inner, path[1..]);
    assert Working(g', w + 1, [stale]) == Working(g, w + 1, [stale]) by {
      assert g.conn.server.saves + [] + [stale] == g.conn.server.saves + [stale];
    }
    BlockShadow(f, t.name, Then(Write(INCREMENT), Along(t.inner, path[1..], 0)), Undo, w + 1, [stale]);
  }

  lemma {:induction false} CommitKeepsWorking(g: Facade<int>, name: string)
    requires Nested(g) && g.conn.nesting >= 2 && g.trx != []
    ensures var r := RunOne(Shadow, Some(g), CommitNamed(name));
            r.Some? ==>
              && Nested(r.value) && r.value.conn.nesting == g.conn.nesting - 1
              && r.value.trx == g.trx[..|g.trx| - 1] && r.value.conn.server.working == g.conn.server.working
  {
  }

  /** A block further out, committed: what its body misled to stays. */
  lemma {:induction false} KeptAround(f: Facade<int>, t: Tree, path: seq<string>, i: nat)
    requires Nested(f) && 2 <= i < |path| && Heads(t, path)
    requires var g := Working(OpenedOn(f, t.name), f.conn.server.working + 1, []);
             Back(g, Run(Shadow, g, Calls(Inner(t, path, i))), f.conn.server.working + i)
    ensures Back(f, Run(Shadow, f, Calls(OnPath(t, path, i))), f.conn.server.working + i)
  {
    var g := OpenedOn(f, t.name);
    OpenShadow(f, t.name);
    RunBlock(Shadow, f, g, t.name, Then(Write(INCREMENT), Inner(t, path, i)), Keep);
    RunCounting(Shadow, g, Inner(t, path, i));
    var inner := Run(Shadow, Working(g, f.conn.server.working + 1, []), Calls(Inner(t, path, i)));
    if inner.Some? {
      CommitKeepsWorking(inner.value, t.name);
      assert (f.trx + [t.name])[..|f.trx|] == f.trx;
    }
  }

  lemma {:induction false} UndoneMisleads(f: Facade<int>, forest: seq<Tree>, path: seq<string>, i: nat)
    requires Nested(f) && IsPath(forest, path) && 1 <= i < |path| && path[i] == path[i - 1]
    ensures Back(f, Run(Shadow, f, Calls(Along(forest, path, i))), f.conn.server.working + i)
    decreases forest
  {
    hide Run, Calls, Along, OnPath;
    AlongStarts(f, forest, path, i);
    var t, rest := forest[0], forest[1..];
    if Heads(t, path) {
      if i == 1 {
        UndoneKeepsItsWrite(f, t, path);
      } else {
        var g := Working(OpenedOn(f, t.name), f.conn.server.working + 1, []);
        UndoneMisleads(g, t.inner, path[1..], i - 1);
        KeptAround(f, t, path, i);
      }
      var b := Run(Shadow, f, Calls(OnPath(t, path, i)));
      if b.Some? {
        PlainRuns(b.value, rest);
      }
    } else {
      PlainBlockRuns(f, t);
      UndoneMisleads(f, rest, path, i);
    }
  }

  lemma {:induction false} PlainOutside(forest: seq<Tree>, db: int)
    ensures Run(Shadow, Fresh(db), Calls(Plain(forest))) == Some(Fresh(db))
  {
    PlainProgram(forest, db);
    MeaningPreserved(Shadow, Plain(forest), db);
  }

  /** Outside every transaction: one more is counted than should be. */
  lemma {:induction false} UndoneMisleadsOutside(forest: seq<Tree>, path: seq<string>, i: nat)
    requires IsPath(forest, path) && 2 <= i < |path| && path[i] == path[i - 1]
    ensures var r := Run(Shadow, Fresh(0), Calls(Along(forest, path, i)));
            r.Some? ==> r == Some(Fresh<int>(i))
    decreases forest
  {
    AlongStarts(Fresh(0), forest, path, i);
    var t, rest := forest[0], forest[1..];
    if Heads(t, path) {
      OutermostMisleads(t, path, i);
      PlainOutside(rest, i);
    } else {
      PlainOutside([t], 0);
      var b := Run(Shadow, Fresh(0), Calls(Block(t.name, Plain(t.inner), Keep)));
      RunAppend(Shadow, Fresh(0), Calls(Block(t.name, Plain(t.inner), Keep)), Calls(Plain([t][1..])));
      assert [t][1..] == [];
      UndoneMisleadsOutside(rest, path, i);
    }
  }

  lemma {:induction false} OutermostMisleads(t: Tree, path: seq<string>, i: nat)
    requires 2 <= i < |path| && path[i] == path[i - 1] && Heads(t, path)
    ensures var r := Run(Shadow, Fresh(0), Calls(OnPath(t, path, i)));
            r.Some? ==> r == Some(Fresh<int>(i))
  {
    OpenFresh(Shadow, t.name, 0);
    var g := Facade([t.name], Conn(1, Server(0, 0, true, [Savepoint(t.name, 0)])));
    RunBlock(Shadow, Fresh(0), g, t.name, Then(Write(INCREMENT), Inner(t, path, i)), Keep);
    RunCounting(Shadow, g, Inner(t, path, i));
    UndoneMisleads(Working(g, 1, []), t.inner, path[1..], i - 1);
    var inner := Run(Shadow, Working(g, 1, []), Calls(Inner(t, path, i)));
    if inner.Some? {
      CommitOutermost(Shadow, inner.value, t.name);
    }
  }

  lemma {:induction false} ShadowedNameMisleads(forest: seq<Tree>, path: seq<string>, i: nat)
    requires IsPath(forest, path) && 2 <= i < |path| && path[i] == path[i - 1]
    ensures !AlwaysFaithful(Shadow, forest)
  {
    AlongBlocks(forest, path, i);
    AlongMeans(forest, path, i, 0);
    UndoneMisleadsOutside(forest, path, i);
    assert !Faithful(Shadow, Along(forest, path, i));
  }
}
