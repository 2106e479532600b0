/** What can be said of a game before running it: whether its additions stay in the range of
    int, and whether it succeeds. */
module Guarantees {
  import opened Names
  import opened GameStates
  import opened GameRules
  import opened RuleParsers
  import opened Lexical
  import opened ClosedForm
  import opened Traces
  import opened Trials

  // ---------- overflow ----------

  const INT_MAX := 0x7FFF_FFFF

  function Abs(x: int): nat { if x < 0 then -x else x }

  lemma {:induction false} SumNonNegative(ids: seq<PlayerID>, f: PlayerID -> int)
    requires forall id :: id in ids ==> f(id) >= 0
    ensures Sum(ids, f) >= 0
  {
    if ids != [] {
      assert ids[0] in ids;
      SumNonNegative(ids[1..], f);
    }
  }

  lemma {:induction false} ReachNonNegative(ps: seq<Stmt>, env: Scope, ids: seq<PlayerID>, c: Location)
    ensures SpentAll(ps, Magnitude(), env, ids, c) >= 0
    decreases ps, 0
  {
    if ps != [] {
      ReachNonNegative(ps[1..], env, ids, c);
      if ps[0].ForEach? {
        ReachForNonNegative(ids, ps[0].element, ps[0].body, env, ids, c);
      }
    }
  }

  lemma {:induction false} ReachForNonNegative(todo: seq<PlayerID>, e: string, body: seq<Stmt>, env: Scope,
                                               ids: seq<PlayerID>, c: Location)
    ensures Sum(todo, SpentFor(body, Magnitude(), e, env, ids, c)) >= 0
    decreases body, 1
  {
    var f := SpentFor(body, Magnitude(), e, env, ids, c);
    forall id | id in todo ensures f(id) >= 0 {
      ReachNonNegative(body, env[e := id], ids, c);
    }
    SumNonNegative(todo, f);
  }

  // Every cell has `room` left before the largest int.
  ghost predicate Within(m: Store, room: Location -> int) {
    forall c :: c in m ==> Abs(m[c]) + room(c) <= INT_MAX
  }

  ghost predicate Near(m: Store, t: Store, reach: Location -> int) {
    t.Keys == m.Keys && forall c :: c in m ==> Abs(t[c]) <= Abs(m[c]) + reach(c)
  }

  lemma NearNear(m: Store, t: Store, u: Store, first: Location -> int, second: Location -> int, both: Location -> int)
    requires Near(m, t, first) && Near(t, u, second)
    requires forall c :: c in m ==> first(c) + second(c) <= both(c)
    ensures Near(m, u, both)
  {
  }

  // No cell is ever further from where it started than the magnitudes added to it.
  lemma {:induction false} StmtStaysNear(p: Stmt, env: Scope, ids: seq<PlayerID>, m: Store)
    ensures Interp(p, env, ids, m).store in Visited(p, env, ids, m)
    ensures forall t :: t in Visited(p, env, ids, m) ==> Near(m, t, c => Spent(p, Magnitude(), env, ids, c))
    decreases p, 2
  {
    match p
    case Add(_, v) =>
      assert Near(m, m, c => Spent(p, Magnitude(), env, ids, c));
      assert Near(m, Interp(p, env, ids, m).store, c => Spent(p, Magnitude(), env, ids, c));
    case Message(_) =>
    case ForEach(e, body) =>
      EachStaysNear(e, body, ids, env, ids, m);
  }

  lemma {:induction false} AllStayNear(ps: seq<Stmt>, env: Scope, ids: seq<PlayerID>, m: Store)
    ensures InterpAll(ps, env, ids, m).store in VisitedAll(ps, env, ids, m)
    ensures forall t :: t in VisitedAll(ps, env, ids, m) ==> Near(m, t, c => SpentAll(ps, Magnitude(), env, ids, c))
    decreases ps, 0
  {
    if ps != [] {
      var first, rest := (c => Spent(ps[0], Magnitude(), env, ids, c)), (c => SpentAll(ps[1..], Magnitude(), env, ids, c));
      var all := c => SpentAll(ps, Magnitude(), env, ids, c);
      var r := Interp(ps[0], env, ids, m);
      StmtStaysNear(ps[0], env, ids, m);
      AllStayNear(ps[1..], env, ids, r.store);
      forall c | c in m ensures rest(c) >= 0 {
        ReachNonNegative(ps[1..], env, ids, c);
      }
      forall t | t in VisitedAll(ps, env, ids, m) ensures Near(m, t, all) {
        if t !in Visited(ps[0], env, ids, m) {
          NearNear(m, r.store, t, first, rest, all);
        }
      }
    }
  }

  lemma {:induction false} EachStaysNear(e: string, body: seq<Stmt>, todo: seq<PlayerID>, env: Scope,
                                         ids: seq<PlayerID>, m: Store)
    ensures InterpEach(e, body, todo, env, ids, m).store in VisitedEach(e, body, todo, env, ids, m)
    ensures forall t :: t in VisitedEach(e, body, todo, env, ids, m) ==>
              Near(m, t, c => Sum(todo, SpentFor(body, Magnitude(), e, env, ids, c)))
    decreases body, 1, |todo|
  {
    if todo != [] {
      var inner := env[e := todo[0]];
      var first := c => SpentAll(body, Magnitude(), inner, ids, c);
      var rest := c => Sum(todo[1..], SpentFor(body, Magnitude(), e, env, ids, c));
      var all := c => Sum(todo, SpentFor(body, Magnitude(), e, env, ids, c));
      var r := InterpAll(body, inner, ids, m);
      AllStayNear(body, inner, ids, m);
      EachStaysNear(e, body, todo[1..], env, ids, r.store);
      forall c | c in m ensures rest(c) >= 0 {
        ReachForNonNegative(todo[1..], e, body, env, ids, c);
      }
      forall t | t in VisitedEach(e, body, todo, env, ids, m) ensures Near(m, t, all) {
        if t !in VisitedAll(body, inner, ids, m) {
          NearNear(m, r.store, t, first, rest, all);
        }
      }
    }
  }

  // With room for the magnitudes it adds, a run never overflows.
  lemma {:induction false} NoOverflow(p: Stmt, env: Scope, ids: seq<PlayerID>, m: Store)
    requires Within(m, c => Spent(p, Magnitude(), env, ids, c))
    ensures Interp(p, env, ids, m).outcome != Overflow
    decreases p, 2
  {
    match p
    case Add(t, v) =>
      if Denoted(t, env).Some? && Denoted(t, env).value in m {
        assert Abs(m[Denoted(t, env).value]) + Spent(p, Magnitude(), env, ids, Denoted(t, env).value) <= INT_MAX;
      }
    case Message(_) =>
    case ForEach(e, body) =>
      NoOverflowEach(e, body, ids, env, ids, m);
  }

  lemma {:induction false} NoOverflowAll(ps: seq<Stmt>, env: Scope, ids: seq<PlayerID>, m: Store)
    requires Within(m, c => SpentAll(ps, Magnitude(), env, ids, c))
    ensures InterpAll(ps, env, ids, m).outcome != Overflow
    decreases ps, 0
  {
    if ps != [] {
      forall c | c in m ensures SpentAll(ps[1..], Magnitude(), env, ids, c) >= 0 {
        ReachNonNegative(ps[1..], env, ids, c);
      }
      NoOverflow(ps[0], env, ids, m);
      StmtStaysNear(ps[0], env, ids, m);
      NoOverflowAll(ps[1..], env, ids, Interp(ps[0], env, ids, m).store);
    }
  }

  lemma {:induction false} NoOverflowEach(e: string, body: seq<Stmt>, todo: seq<PlayerID>, env: Scope,
                                          ids: seq<PlayerID>, m: Store)
    requires Within(m, c => Sum(todo, SpentFor(body, Magnitude(), e, env, ids, c)))
    ensures InterpEach(e, body, todo, env, ids, m).outcome != Overflow
    decreases body, 1, |todo|
  {
    if todo != [] {
      forall c | c in m ensures Sum(todo[1..], SpentFor(body, Magnitude(), e, env, ids, c)) >= 0 {
        ReachForNonNegative(todo[1..], e, body, env, ids, c);
      }
      NoOverflowAll(body, env[e := todo[0]], ids, m);
      AllStayNear(body, env[e := todo[0]], ids, m);
      NoOverflowEach(e, body, todo[1..], env, ids, InterpAll(body, env[e := todo[0]], ids, m).store);
    }
  }

  // In every state a compiled game goes through, however it ends, no variable is further from
  // zero than its initial value and its reach.
  lemma GameStaysNear(ps: seq<Stmt>, s: Snapshot, t: Snapshot)
    requires WellScoped(ps, {}) && s.scope == map[] && s.Valid()
    requires t in PassedGame(SpellAll(ps), s)
    ensures Near(CellsOf(s), CellsOf(t), c => Reach(ps, PlayerIDs(s.order), c))
  {
    var ids, m := PlayerIDs(s.order), CellsOf(s);
    GamePassesVisited(ps, s);
    StoresMember(PassedGame(SpellAll(ps), s), t);
    AllStayNear(ps, map[], ids, m);
    forall c | c in m ensures SpentAll(ps, Magnitude(), map[], ids, c) == Reach(ps, ids, c) {
      GameSpends(ps, Magnitude(), s, c);
    }
  }

  lemma GameEndsNear(ps: seq<Stmt>, s: Snapshot)
    requires WellScoped(ps, {}) && s.scope == map[] && s.Valid()
    ensures Near(CellsOf(s), CellsOf(RunGame(SpellAll(ps), s).state), c => Reach(ps, PlayerIDs(s.order), c))
  {
    AllPassEnd(Rules(ParseList(SpellAll(ps), map[]).result), s);
    GameStaysNear(ps, s, RunGame(SpellAll(ps), s).state);
  }

  // If initial value and reach of every variable together fit an int, no addition of the
  // compiled game leaves the range of int: the game has a result.
  lemma GameStaysInRange(ps: seq<Stmt>, s: Snapshot)
    requires WellScoped(ps, {}) && s.scope == map[] && s.Valid()
    requires Fits(ps, s)
    ensures Defined(RunGame(SpellAll(ps), s))
  {
    var ids, m := PlayerIDs(s.order), CellsOf(s);
    CompileThenRun(ps, s);
    forall c | c in m ensures Abs(m[c]) + SpentAll(ps, Magnitude(), map[], ids, c) <= INT_MAX {
      GameSpends(ps, Magnitude(), s, c);
    }
    NoOverflowAll(ps, map[], ids, m);
  }

  ghost predicate Fits(ps: seq<Stmt>, s: Snapshot) {
    forall c :: c in CellsOf(s) ==> Abs(CellsOf(s)[c]) + Reach(ps, PlayerIDs(s.order), c) <= INT_MAX
  }

  // ---------- which games succeed ----------

  // The variable exists, for every player an unbound element may stand for.
  predicate Exists(t: Target, env: Scope, ids: seq<PlayerID>, keys: set<Location>) {
    match t
    case ToGlobal(x) => Global(x) in keys
    case ToPlayer(id, x) => Player(id, x) in keys
    case ToElement(e, x) =>
      if e in env then Player(env[e], x) in keys else forall id :: id in ids ==> Player(id, x) in keys
  }

  // Every Add names an existing variable, apart from those under a foreach over no players.
  predicate Checks(ps: seq<Stmt>, env: Scope, ids: seq<PlayerID>, keys: set<Location>) {
    ps == [] || (StmtChecks(ps[0], env, ids, keys) && Checks(ps[1..], env, ids, keys))
  }

  predicate StmtChecks(p: Stmt, env: Scope, ids: seq<PlayerID>, keys: set<Location>) {
    match p
    case Add(t, _) => Exists(t, env, ids, keys)
    case Message(_) => true
    case ForEach(_, body) => ids == [] || Checks(body, env, ids, keys)
  }

  lemma ExistsForEach(t: Target, e: string, env: Scope, ids: seq<PlayerID>, keys: set<Location>)
    requires ids != [] && e !in env
    ensures Exists(t, env, ids, keys) <==> forall id :: id in ids ==> Exists(t, env[e := id], ids, keys)
  {
    assert ids[0] in ids;
    if t.ToElement? && t.element == e {
      assert forall id :: id in ids ==> (Exists(t, env[e := id], ids, keys) <==> Player(id, t.field) in keys);
    } else {
      assert forall id :: id in ids ==> Exists(t, env[e := id], ids, keys) == Exists(t, env, ids, keys);
    }
  }

  predicate ChecksFor(body: seq<Stmt>, e: string, id: PlayerID, env: Scope, ids: seq<PlayerID>, keys: set<Location>) {
    Checks(body, env[e := id], ids, keys)
  }

  lemma {:induction false} ChecksForEach(ps: seq<Stmt>, e: string, env: Scope, ids: seq<PlayerID>, keys: set<Location>)
    requires ids != [] && e !in env
    ensures Checks(ps, env, ids, keys) <==> forall id :: id in ids ==> ChecksFor(ps, e, id, env, ids, keys)
    decreases ps
  {
    assert ids[0] in ids;
    if ps == [] {
      assert forall id :: id in ids ==> ChecksFor(ps, e, id, env, ids, keys);
    } else {
      ChecksForEach(ps[1..], e, env, ids, keys);
      StmtChecksForEach(ps[0], e, env, ids, keys);
      forall id | id in ids
        ensures ChecksFor(ps, e, id, env, ids, keys) <==>
                StmtChecksFor(ps[0], e, id, env, ids, keys) && ChecksFor(ps[1..], e, id, env, ids, keys)
      {
      }
    }
  }

  predicate StmtChecksFor(p: Stmt, e: string, id: PlayerID, env: Scope, ids: seq<PlayerID>, keys: set<Location>) {
    StmtChecks(p, env[e := id], ids, keys)
  }

  lemma {:induction false} StmtChecksForEach(p: Stmt, e: string, env: Scope, ids: seq<PlayerID>, keys: set<Location>)
    requires ids != [] && e !in env
    ensures StmtChecks(p, env, ids, keys) <==> forall id :: id in ids ==> StmtChecksFor(p, e, id, env, ids, keys)
    decreases p
  {
    assert ids[0] in ids;
    match p
    case Add(t, _) =>
      ExistsForEach(t, e, env, ids, keys);
      assert forall id :: id in ids ==> StmtChecksFor(p, e, id, env, ids, keys) == Exists(t, env[e := id], ids, keys);
    case Message(_) =>
      assert forall id :: id in ids ==> StmtChecksFor(p, e, id, env, ids, keys);
    case ForEach(_, body) =>
      ChecksForEach(body, e, env, ids, keys);
      assert forall id :: id in ids ==> StmtChecksFor(p, e, id, env, ids, keys) == ChecksFor(body, e, id, env, ids, keys);
  }

  // The check says whether a run, values aside, never misses a variable.
  lemma {:induction false} StmtChecksDecide(p: Stmt, env: Scope, ids: seq<PlayerID>, keys: set<Location>, c: Location)
    requires WellScopedStmt(p, env.Keys)
    ensures TrialOf(p, env, ids, keys, c).ok <==> StmtChecks(p, env, ids, keys)
    decreases p, 2
  {
    if p.ForEach? {
      ChecksDecideEach(p.element, p.body, ids, env, ids, keys, c);
      if ids != [] {
        ChecksForEach(p.body, p.element, env, ids, keys);
      }
    }
  }

  lemma {:induction false} ChecksDecideAll(ps: seq<Stmt>, env: Scope, ids: seq<PlayerID>, keys: set<Location>, c: Location)
    requires WellScoped(ps, env.Keys)
    ensures TrialAll(ps, env, ids, keys, c).ok <==> Checks(ps, env, ids, keys)
    decreases ps, 0
  {
    if ps != [] {
      StmtChecksDecide(ps[0], env, ids, keys, c);
      ChecksDecideAll(ps[1..], env, ids, keys, c);
    }
  }

  lemma {:induction false} ChecksDecideEach(e: string, body: seq<Stmt>, todo: seq<PlayerID>, env: Scope,
                                            ids: seq<PlayerID>, keys: set<Location>, c: Location)
    requires e !in env && WellScoped(body, env.Keys + {e})
    ensures TrialEach(e, body, todo, env, ids, keys, c).ok <==>
            forall id :: id in todo ==> ChecksFor(body, e, id, env, ids, keys)
    decreases body, 1, |todo|
  {
    if todo != [] {
      var inner := env[e := todo[0]];
      assert inner.Keys == env.Keys + {e};
      ChecksDecideAll(body, inner, ids, keys, c);
      ChecksDecideEach(e, body, todo[1..], env, ids, keys, c);
      assert ChecksFor(body, e, todo[0], env, ids, keys) == Checks(body, inner, ids, keys);
      assert forall id :: id in todo <==> id == todo[0] || id in todo[1..];
    }
  }

  // The check on a game against the variables of the initial state.
  ghost predicate GameChecks(ps: seq<Stmt>, s: Snapshot) {
    Checks(ps, map[], PlayerIDs(s.order), CellsOf(s).Keys)
  }

  lemma GameTrialChecks(ps: seq<Stmt>, s: Snapshot)
    requires WellScoped(ps, {})
    ensures forall c :: GameTrial(ps, s, c).ok <==> GameChecks(ps, s)
  {
    var none: Scope := map[];
    assert none.Keys == {};
    forall c ensures GameTrial(ps, s, c).ok <==> GameChecks(ps, s) {
      ChecksDecideAll(ps, none, PlayerIDs(s.order), CellsOf(s).Keys, c);
    }
  }

  // Short of an overflow, a compiled game succeeds exactly when the check holds initially.
  lemma GameSucceedsIffChecks(ps: seq<Stmt>, s: Snapshot)
    requires WellScoped(ps, {}) && s.scope == map[]
    ensures var outcome := RunGame(SpellAll(ps), s).outcome;
      outcome != Overflow ==> (outcome == Success <==> GameChecks(ps, s))
  {
    GameOverflowsExactly(ps, s);
    GameTrialChecks(ps, s);
    var c := Global("");
    assert GameTrial(ps, s, c).ok <==> GameChecks(ps, s);
  }
}
