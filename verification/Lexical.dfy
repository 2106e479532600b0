/** The meaning a game author expects: a lexically scoped language over the cells of the
    store, without names to split or join. Compiling a program of this language and running
    it in the game state means the same. */
module Lexical {
  import opened Wrappers
  import opened Names
  import opened GameStates
  import opened GameRules
  import opened RuleParsers

  datatype Target =
    | ToGlobal(name: string)
    | ToElement(element: string, field: string)  // that field of the player the element stands for
    | ToPlayer(id: PlayerID, field: string)

  datatype Stmt =
    | Add(target: Target, value: VariableValue)
    | Message(text: string)
    | ForEach(element: string, body: seq<Stmt>)

  type Store = map<Location, VariableValue>

  datatype Result = Result(outcome: Outcome, store: Store)

  // ---------- the interpreter ----------

  function Denoted(t: Target, env: Scope): Option<Location> {
    match t
    case ToGlobal(x) => Some(Global(x))
    case ToPlayer(id, x) => Some(Player(id, x))
    case ToElement(e, x) => if e in env then Some(Player(env[e], x)) else None
  }

  function Added(m: Store, at: Location, v: VariableValue): Result {
    if at !in m then Result(Failure, m)
    else if !InRange(m[at] + v) then Result(Overflow, m)
    else
      var sum: VariableValue := m[at] + v;
      Result(Success, m[at := sum])
  }

  function Interp(p: Stmt, env: Scope, ids: seq<PlayerID>, m: Store): Result
    decreases p, 2
  {
    match p
    case Add(t, v) =>
      (match Denoted(t, env)
       case None => Result(BadName, m)
       case Some(at) => Added(m, at, v))
    case Message(_) => Result(Success, m)
    case ForEach(e, body) => InterpEach(e, body, ids, env, ids, m)
  }

  function InterpAll(ps: seq<Stmt>, env: Scope, ids: seq<PlayerID>, m: Store): Result
    decreases ps, 0
  {
    if ps == [] then Result(Success, m) else
      var first := Interp(ps[0], env, ids, m);
      if first.outcome == Success then InterpAll(ps[1..], env, ids, first.store) else first
  }

  function InterpEach(e: string, body: seq<Stmt>, todo: seq<PlayerID>, env: Scope, ids: seq<PlayerID>, m: Store)
    : Result
    decreases body, 1, |todo|
  {
    if todo == [] then Result(Success, m) else
      var first := InterpAll(body, env[e := todo[0]], ids, m);
      if first.outcome == Success then InterpEach(e, body, todo[1..], env, ids, first.store) else first
  }

  // ---------- how a program is spelled in a game file ----------

  function SpellTarget(t: Target): string {
    match t
    case ToGlobal(x) => x
    case ToElement(e, x) => e + "." + x
    case ToPlayer(id, x) => "players." + (ToString(id) + "." + x)
  }

  function Spell(p: Stmt): RuleJson {
    match p
    case Add(t, v) => AddJson(SpellTarget(t), v)
    case Message(text) => GlobalMessageJson(text)
    case ForEach(e, body) => ForEachJson("players", e, SpellAll(body))
  }

  function SpellAll(ps: seq<Stmt>): seq<RuleJson> {
    if ps == [] then [] else [Spell(ps[0])] + SpellAll(ps[1..])
  }

  // ---------- well-scoped programs ----------

  // No component of the name is an element in scope.
  predicate Uncaptured(name: string, active: set<string>) {
    AllComponents(c => c !in active, name)
  }

  predicate GoodField(x: string, active: set<string>) {
    '$' !in x && Uncaptured(x, active)
  }

  predicate GoodTarget(t: Target, active: set<string>) {
    match t
    case ToGlobal(x) => !Mentions(x, "players") && Uncaptured(x, active)
    case ToElement(e, x) => e in active && GoodField(x, active)
    case ToPlayer(id, x) => "players" !in active && ToString(id) !in active && GoodField(x, active)
  }

  predicate WellScopedStmt(p: Stmt, active: set<string>) {
    match p
    case Add(t, _) => GoodTarget(t, active)
    case Message(_) => true
    case ForEach(e, body) => '.' !in e && e !in active && WellScoped(body, active + {e})
  }

  predicate WellScoped(ps: seq<Stmt>, active: set<string>) {
    ps == [] || (WellScopedStmt(ps[0], active) && WellScoped(ps[1..], active))
  }

  // ---------- compiling ----------

  function CompiledTarget(t: Target): string {
    match t
    case ToGlobal(x) => x
    case ToElement(e, x) => "players." + ("$" + e + "." + x)
    case ToPlayer(id, x) => "players." + (ToString(id) + "." + x)
  }

  function Compiled(p: Stmt): Rule {
    match p
    case Add(t, v) => AddRule(CompiledTarget(t), v)
    case Message(text) => GlobalMessageRule(text)
    case ForEach(e, body) => ForEachRule("players", e, CompiledAll(body))
  }

  function CompiledAll(ps: seq<Stmt>): seq<Rule> {
    if ps == [] then [] else [Compiled(ps[0])] + CompiledAll(ps[1..])
  }

  function AliasesFor(active: set<string>): Aliases {
    map e | e in active :: "players.$" + e
  }

  ghost predicate DotFree(active: set<string>) {
    forall e :: e in active ==> '.' !in e
  }

  lemma UncapturedUnaliased(x: string, active: set<string>)
    requires Uncaptured(x, active)
    ensures Rewrite(c => Aliased(c, AliasesFor(active)), x) == x
  {
    var f := c => Aliased(c, AliasesFor(active));
    AllMembers(c => c !in active, Split(x));
    AllMembers(c => f(c) == c, Split(x));
    RewriteIdentity(f, x);
  }

  lemma CompileElement(e: string, x: string, active: set<string>)
    requires e in active && '.' !in e && Uncaptured(x, active)
    ensures ScopedName(e + "." + x, AliasesFor(active)) == "players." + ("$" + e + "." + x)
  {
    UncapturedUnaliased(x, active);
    RewriteAtDot(c => Aliased(c, AliasesFor(active)), e, x);
    assert ("players.$" + e) + "." + x == "players." + ("$" + e + "." + x);
  }

  lemma CompilePlayer(key: string, x: string, active: set<string>)
    requires "players" !in active && key !in active && '.' !in key && Uncaptured(x, active)
    ensures ScopedName("players." + (key + "." + x), AliasesFor(active)) == "players." + (key + "." + x)
  {
    AllAtDot(c => c !in active, key, x);
    AllAtDot(c => c !in active, "players", key + "." + x);
    assert "players" + "." + (key + "." + x) == "players." + (key + "." + x);
    UncapturedUnaliased("players." + (key + "." + x), active);
  }

  lemma CompileTarget(t: Target, active: set<string>)
    requires GoodTarget(t, active) && DotFree(active)
    ensures ScopedName(SpellTarget(t), AliasesFor(active)) == CompiledTarget(t)
  {
    match t
    case ToGlobal(x) => UncapturedUnaliased(x, active);
    case ToElement(e, x) => CompileElement(e, x, active);
    case ToPlayer(id, x) => CompilePlayer(ToString(id), x, active);
  }

  lemma AliasesForElement(active: set<string>, e: string)
    requires e !in active
    ensures WithAlias(AliasesFor(active), e) == AliasesFor(active + {e})
    ensures AliasesFor(active + {e}) - {e} == AliasesFor(active)
  {
  }

  // A well-scoped program parses to its compiled form, and leaves the aliases as they were.
  lemma {:induction false} ParseCompiles(ps: seq<Stmt>, active: set<string>)
    requires WellScoped(ps, active) && DotFree(active)
    ensures ParseList(SpellAll(ps), AliasesFor(active)) == Parsed(Some(CompiledAll(ps)), AliasesFor(active))
  {
    if ps != [] {
      match ps[0] {
        case Add(t, v) => CompileTarget(t, active);
        case Message(text) =>
        case ForEach(e, body) =>
          AliasesForElement(active, e);
          ParseCompiles(body, active + {e});
      }
      assert ParseOne(Spell(ps[0]), AliasesFor(active)) == Parsed(Some(Compiled(ps[0])), AliasesFor(active));
      ParseCompiles(ps[1..], active);
    }
  }

  // ---------- running ----------

  // The cells of a game state.
  ghost function CellsOf(s: Snapshot): Store {
    map at | at in Cells(s) && s.Read(at).Some? :: s.Read(at).value
  }

  ghost function Cells(s: Snapshot): set<Location> {
    (set x | x in s.globals :: Global(x)) +
    (set k, x | k in s.players && x in s.players[k] :: Player(IdOf(k), x))
  }

  lemma CellsRead(s: Snapshot)
    ensures forall at :: at in Cells(s) <==> s.Read(at).Some?
  {
  }

  lemma CellsReadAt(s: Snapshot, at: Location)
    ensures at in CellsOf(s) <==> s.Read(at).Some?
    ensures at in CellsOf(s) ==> CellsOf(s)[at] == s.Read(at).value
  {
  }

  lemma CellsWrite(s: Snapshot, at: Location, v: VariableValue)
    requires s.Read(at).Some?
    ensures CellsOf(s.Write(at, v)) == CellsOf(s)[at := v]
    ensures s.Write(at, v).players.Keys == s.players.Keys
    ensures s.Write(at, v).order == s.order && s.Write(at, v).scope == s.scope
  {
    WriteFrame(s, at, v);
    CellsRead(s);
    CellsRead(s.Write(at, v));
  }

  lemma CellsRescope(s: Snapshot, scope: Scope)
    ensures CellsOf(s.(scope := scope)) == CellsOf(s)
  {
  }

  lemma TargetLocated(t: Target, env: Scope)
    requires GoodTarget(t, env.Keys) && DotFree(env.Keys)
    ensures Denoted(t, env).Some? && Locate(CompiledTarget(t), env) == Denoted(t, env)
  {
    match t
    case ToGlobal(x) =>
    case ToElement(e, x) =>
      EvalDollar(e, env);
      LocatePlayer("$" + e, x, env, env[e]);
    case ToPlayer(id, x) =>
      EvalStatic(ToString(id), env);
      EvalDotFree(ToString(id), env);
      LocatePlayer(ToString(id), x, env, id);
  }

  // The compiled run and the lexical one agree: same result, same cells, even after a failure.
  ghost predicate Agree(run: Run, s: Snapshot, lexical: Result) {
    && run.outcome == lexical.outcome
    && run.outcome != BadName
    && CellsOf(run.state) == lexical.store
    && run.state.order == s.order
    && run.state.players.Keys == s.players.Keys
    && (run.outcome == Success ==> run.state.scope == s.scope)
  }

  lemma AddAgrees(s: Snapshot, at: Location, v: VariableValue)
    ensures Agree(AddAt(s, at, v), s, Added(CellsOf(s), at, v))
  {
    CellsReadAt(s, at);
    if s.Read(at).Some? && InRange(s.Read(at).value + v) {
      CellsWrite(s, at, s.Read(at).value + v);
    }
  }

  lemma AddStmtAgrees(t: Target, v: VariableValue, s: Snapshot)
    requires GoodTarget(t, s.scope.Keys) && DotFree(s.scope.Keys)
    ensures Agree(Exec(AddRule(CompiledTarget(t), v), s), s, Interp(Add(t, v), s.scope, PlayerIDs(s.order), CellsOf(s)))
  {
    TargetLocated(t, s.scope);
    AddAgrees(s, Denoted(t, s.scope).value, v);
  }

  lemma {:induction false} StmtAgrees(p: Stmt, s: Snapshot)
    requires WellScopedStmt(p, s.scope.Keys) && DotFree(s.scope.Keys)
    ensures Agree(Exec(Compiled(p), s), s, Interp(p, s.scope, PlayerIDs(s.order), CellsOf(s)))
    decreases p, 2
  {
    match p
    case Add(t, v) =>
      AddStmtAgrees(t, v, s);
    case Message(_) =>
    case ForEach(e, body) =>
      EachAgrees(e, body, PlayerIDs(s.order), s);
  }

  lemma {:induction false} AllAgree(ps: seq<Stmt>, s: Snapshot)
    requires WellScoped(ps, s.scope.Keys) && DotFree(s.scope.Keys)
    ensures Agree(ExecAll(CompiledAll(ps), s), s, InterpAll(ps, s.scope, PlayerIDs(s.order), CellsOf(s)))
    decreases ps, 0
  {
    if ps != [] {
      StmtAgrees(ps[0], s);
      if Exec(Compiled(ps[0]), s).outcome == Success {
        AllAgree(ps[1..], Exec(Compiled(ps[0]), s).state);
      }
    }
  }

  lemma {:induction false} EachAgrees(e: string, body: seq<Stmt>, todo: seq<PlayerID>, s: Snapshot)
    requires '.' !in e && e !in s.scope && WellScoped(body, s.scope.Keys + {e}) && DotFree(s.scope.Keys)
    ensures Agree(ExecForEach(e, CompiledAll(body), todo, s), s,
                  InterpEach(e, body, todo, s.scope, PlayerIDs(s.order), CellsOf(s)))
    decreases body, 1, |todo|
  {
    if todo != [] {
      var bound := s.(scope := s.scope[e := todo[0]]);
      assert bound.scope.Keys == s.scope.Keys + {e};
      CellsRescope(s, bound.scope);
      AllAgree(body, bound);
      var run := ExecAll(CompiledAll(body), bound);
      if run.outcome == Success {
        var next := run.state.(scope := run.state.scope - {e});
        assert next.scope == s.scope;
        CellsRescope(run.state, next.scope);
        EachAgrees(e, body, todo[1..], next);
      }
    }
  }

  // ---------- compile, then run ----------

  // What the server does with a game: parse its rules, run them in order until one fails.
  function RunGame(game: seq<RuleJson>, s: Snapshot): Run {
    ExecAll(Rules(ParseList(game, map[]).result), s)
  }

  // For every well-scoped program, initial store and order of players, parsing the program and
  // running the rules gives the result and the cells of the lexical interpreter.
  lemma CompileThenRun(ps: seq<Stmt>, s: Snapshot)
    requires WellScoped(ps, {}) && s.scope == map[]
    ensures Agree(RunGame(SpellAll(ps), s), s, InterpAll(ps, map[], PlayerIDs(s.order), CellsOf(s)))
  {
    assert AliasesFor({}) == map[] && s.scope.Keys == {};
    ParseCompiles(ps, {});
    AllAgree(ps, s);
  }

  // A well-scoped game never gets stuck on a name: every "$" name it meets is bound, and every
  // per-player name has a decimal between two dots.
  lemma GameNeverStuck(ps: seq<Stmt>, s: Snapshot)
    requires WellScoped(ps, {}) && s.scope == map[]
    ensures RunGame(SpellAll(ps), s).outcome != BadName
  {
    CompileThenRun(ps, s);
  }
}
