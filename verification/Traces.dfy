/** The states a run goes through, of the compiled rules and of the lexical interpreter: they
    have the same cells, one by one. */
module Traces {
  import opened Names
  import opened GameStates
  import opened GameRules
  import opened RuleParsers
  import opened Lexical

  // ---------- the states of a run of rules ----------

  // From the first state to the last.
  function Passed(r: Rule, s: Snapshot): seq<Snapshot>
    decreases r, 2
  {
    match r
    case GlobalMessageRule(_) => [s]
    case ForEachRule(list, e, rules) =>
      if list != "players" then [s] else PassedEach(e, rules, PlayerIDs(s.order), s)
    case _ => [s, Exec(r, s).state]
  }

  function PassedAll(rs: seq<Rule>, s: Snapshot): seq<Snapshot>
    decreases rs, 0
  {
    if rs == [] then [s] else
      var first := Exec(rs[0], s);
      Passed(rs[0], s) + if first.outcome == Success then PassedAll(rs[1..], first.state) else []
  }

  function PassedEach(e: string, rs: seq<Rule>, ids: seq<PlayerID>, s: Snapshot): seq<Snapshot>
    decreases rs, 1, |ids|
  {
    if ids == [] || e in s.scope then [s] else
      var bound := s.(scope := s.scope[e := ids[0]]);
      var body := ExecAll(rs, bound);
      PassedAll(rs, bound) +
      if body.outcome == Success && e in body.state.scope
      then PassedEach(e, rs, ids[1..], body.state.(scope := body.state.scope - {e})) else []
  }

  // The states of a game, parsed and run.
  function PassedGame(game: seq<RuleJson>, s: Snapshot): seq<Snapshot> {
    PassedAll(Rules(ParseList(game, map[]).result), s)
  }

  // ---------- the stores of a lexical run ----------

  function Visited(p: Stmt, env: Scope, ids: seq<PlayerID>, m: Store): seq<Store>
    decreases p, 2
  {
    match p
    case Add(_, _) => [m, Interp(p, env, ids, m).store]
    case Message(_) => [m]
    case ForEach(e, body) => VisitedEach(e, body, ids, env, ids, m)
  }

  function VisitedAll(ps: seq<Stmt>, env: Scope, ids: seq<PlayerID>, m: Store): seq<Store>
    decreases ps, 0
  {
    if ps == [] then [m] else
      var first := Interp(ps[0], env, ids, m);
      Visited(ps[0], env, ids, m) + if first.outcome == Success then VisitedAll(ps[1..], env, ids, first.store) else []
  }

  function VisitedEach(e: string, body: seq<Stmt>, todo: seq<PlayerID>, env: Scope, ids: seq<PlayerID>, m: Store)
    : seq<Store>
    decreases body, 1, |todo|
  {
    if todo == [] then [m] else
      var first := InterpAll(body, env[e := todo[0]], ids, m);
      VisitedAll(body, env[e := todo[0]], ids, m) +
      if first.outcome == Success then VisitedEach(e, body, todo[1..], env, ids, first.store) else []
  }

  // ---------- the same cells ----------

  ghost function Stores(states: seq<Snapshot>): seq<Store> {
    if states == [] then [] else [CellsOf(states[0])] + Stores(states[1..])
  }

  lemma {:induction false} StoresConcat(xs: seq<Snapshot>, ys: seq<Snapshot>)
    ensures Stores(xs + ys) == Stores(xs) + Stores(ys)
  {
    if xs == [] {
      assert xs + ys == ys;
    } else {
      assert (xs + ys)[1..] == xs[1..] + ys;
      StoresConcat(xs[1..], ys);
    }
  }

  lemma {:induction false} StoresMember(xs: seq<Snapshot>, s: Snapshot)
    requires s in xs
    ensures CellsOf(s) in Stores(xs)
  {
    if s != xs[0] {
      StoresMember(xs[1..], s);
    }
  }

  lemma StoresOne(s: Snapshot)
    ensures Stores([s]) == [CellsOf(s)]
  {
    assert [s][1..] == [];
  }

  lemma StoresTwo(s: Snapshot, t: Snapshot)
    ensures Stores([s, t]) == [CellsOf(s), CellsOf(t)]
  {
    assert [s, t] == [s] + [t];
    StoresConcat([s], [t]);
    StoresOne(s);
    StoresOne(t);
  }

  lemma {:induction false} PassesVisited(p: Stmt, s: Snapshot)
    requires WellScopedStmt(p, s.scope.Keys) && DotFree(s.scope.Keys)
    ensures Stores(Passed(Compiled(p), s)) == Visited(p, s.scope, PlayerIDs(s.order), CellsOf(s))
    decreases p, 2
  {
    match p
    case Add(_, _) =>
      StmtAgrees(p, s);
      StoresTwo(s, Exec(Compiled(p), s).state);
    case Message(_) =>
      StoresOne(s);
    case ForEach(e, body) =>
      EachPassesVisited(e, body, PlayerIDs(s.order), s);
  }

  lemma {:induction false} AllPassVisited(ps: seq<Stmt>, s: Snapshot)
    requires WellScoped(ps, s.scope.Keys) && DotFree(s.scope.Keys)
    ensures Stores(PassedAll(CompiledAll(ps), s)) == VisitedAll(ps, s.scope, PlayerIDs(s.order), CellsOf(s))
    decreases ps, 0
  {
    if ps == [] {
      StoresOne(s);
    } else {
      var first := Exec(Compiled(ps[0]), s);
      StmtAgrees(ps[0], s);
      PassesVisited(ps[0], s);
      if first.outcome == Success {
        AllPassVisited(ps[1..], first.state);
        StoresConcat(Passed(Compiled(ps[0]), s), PassedAll(CompiledAll(ps[1..]), first.state));
      } else {
        StoresConcat(Passed(Compiled(ps[0]), s), []);
      }
    }
  }

  lemma {:induction false} EachPassesVisited(e: string, body: seq<Stmt>, todo: seq<PlayerID>, s: Snapshot)
    requires '.' !in e && e !in s.scope && WellScoped(body, s.scope.Keys + {e}) && DotFree(s.scope.Keys)
    ensures Stores(PassedEach(e, CompiledAll(body), todo, s)) ==
            VisitedEach(e, body, todo, s.scope, PlayerIDs(s.order), CellsOf(s))
    decreases body, 1, |todo|
  {
    if todo == [] {
      StoresOne(s);
    } else {
      var bound := s.(scope := s.scope[e := todo[0]]);
      assert bound.scope.Keys == s.scope.Keys + {e};
      CellsRescope(s, bound.scope);
      AllAgree(body, bound);
      AllPassVisited(body, bound);
      var run := ExecAll(CompiledAll(body), bound);
      var passed := PassedAll(CompiledAll(body), bound);
      if run.outcome == Success {
        var next := run.state.(scope := run.state.scope - {e});
        assert next.scope == s.scope;
        CellsRescope(run.state, next.scope);
        EachPassesVisited(e, body, todo[1..], next);
        StoresConcat(passed, PassedEach(e, CompiledAll(body), todo[1..], next));
      } else {
        StoresConcat(passed, []);
      }
    }
  }

  // The states of a compiled well-scoped game have the cells of the lexical run, step by step.
  lemma GamePassesVisited(ps: seq<Stmt>, s: Snapshot)
    requires WellScoped(ps, {}) && s.scope == map[]
    ensures Stores(PassedGame(SpellAll(ps), s)) == VisitedAll(ps, map[], PlayerIDs(s.order), CellsOf(s))
  {
    assert AliasesFor({}) == map[] && s.scope.Keys == {};
    ParseCompiles(ps, {});
    AllPassVisited(ps, s);
  }

  // ---------- the last state is where the run ends ----------

  lemma {:induction false} PassesEnd(r: Rule, s: Snapshot)
    ensures Passed(r, s) != [] && Passed(r, s)[|Passed(r, s)| - 1] == Exec(r, s).state
    decreases r, 2
  {
    if r.ForEachRule? && r.listName == "players" {
      EachPassesEnd(r.listElementName, r.rules, PlayerIDs(s.order), s);
    }
  }

  lemma {:induction false} AllPassEnd(rs: seq<Rule>, s: Snapshot)
    ensures var passed := PassedAll(rs, s);
      passed != [] && passed[|passed| - 1] == ExecAll(rs, s).state
    decreases rs, 0
  {
    if rs != [] {
      PassesEnd(rs[0], s);
      AllPassEnd(rs[1..], Exec(rs[0], s).state);
    }
  }

  lemma {:induction false} EachPassesEnd(e: string, rs: seq<Rule>, ids: seq<PlayerID>, s: Snapshot)
    ensures var passed := PassedEach(e, rs, ids, s);
      passed != [] && passed[|passed| - 1] == ExecForEach(e, rs, ids, s).state
    decreases rs, 1, |ids|
  {
    if ids != [] && e !in s.scope {
      var bound := s.(scope := s.scope[e := ids[0]]);
      AllPassEnd(rs, bound);
      var body := ExecAll(rs, bound);
      if body.outcome == Success && e in body.state.scope {
        EachPassesEnd(e, rs, ids[1..], body.state.(scope := body.state.scope - {e}));
      }
    }
  }

  // ---------- nothing is passed over ----------

  // Every rule the run of a list comes to has all its states among those of the list.
  lemma {:induction false} PassesEveryRule(rs: seq<Rule>, k: nat, s: Snapshot)
    requires k < |rs| && ExecAll(rs[..k], s).outcome == Success
    ensures forall t :: t in Passed(rs[k], ExecAll(rs[..k], s).state) ==> t in PassedAll(rs, s)
    decreases k
  {
    if k == 0 {
      assert rs[..0] == [];
    } else {
      var next := Exec(rs[0], s).state;
      assert rs[..k][0] == rs[0] && rs[..k][1..] == rs[1..][..k - 1];
      assert ExecAll(rs[..k], s) == ExecAll(rs[1..][..k - 1], next);
      PassesEveryRule(rs[1..], k - 1, next);
    }
  }

  // Every iteration a foreach comes to has all its states among those of the foreach.
  lemma {:induction false} PassesEveryIteration(e: string, rs: seq<Rule>, ids: seq<PlayerID>, i: nat, s: Snapshot)
    requires i < |ids| && ExecForEach(e, rs, ids[..i], s).outcome == Success
    requires e !in ExecForEach(e, rs, ids[..i], s).state.scope
    ensures var before := ExecForEach(e, rs, ids[..i], s).state;
      forall t :: t in PassedAll(rs, before.(scope := before.scope[e := ids[i]])) ==> t in PassedEach(e, rs, ids, s)
    decreases i
  {
    if i == 0 {
      assert ids[..0] == [];
    } else {
      var body := ExecAll(rs, s.(scope := s.scope[e := ids[0]]));
      assert ids[..i][0] == ids[0] && ids[..i][1..] == ids[1..][..i - 1];
      PassesEveryIteration(e, rs, ids[1..], i - 1, body.state.(scope := body.state.scope - {e}));
    }
  }
}
