/** Which additions a run tries, one cell at a time, whatever the values: with it, exactly when a
    game overflows, when it succeeds, and what it leaves in either case. */
module Trials {
  import opened Names
  import opened GameStates
  import opened GameRules
  import opened Lexical

  // The amounts tried on one cell, in turn; `ok` when no Add on the way misses its variable.
  datatype Trial = Trial(ok: bool, amounts: seq<int>)

  function Then(first: Trial, second: Trial): Trial {
    if first.ok then Trial(second.ok, first.amounts + second.amounts) else first
  }

  function TrialOf(p: Stmt, env: Scope, ids: seq<PlayerID>, keys: set<Location>, c: Location): Trial
    decreases p, 2
  {
    match p
    case Add(t, v) =>
      var at := Denoted(t, env);
      if at.Some? && at.value in keys then Trial(true, if at.value == c then [v] else []) else Trial(false, [])
    case Message(_) => Trial(true, [])
    case ForEach(e, body) => TrialEach(e, body, ids, env, ids, keys, c)
  }

  function TrialAll(ps: seq<Stmt>, env: Scope, ids: seq<PlayerID>, keys: set<Location>, c: Location): Trial
    decreases ps, 0
  {
    if ps == [] then Trial(true, []) else
      Then(TrialOf(ps[0], env, ids, keys, c), TrialAll(ps[1..], env, ids, keys, c))
  }

  function TrialEach(e: string, body: seq<Stmt>, todo: seq<PlayerID>, env: Scope, ids: seq<PlayerID>,
                     keys: set<Location>, c: Location): Trial
    decreases body, 1, |todo|
  {
    if todo == [] then Trial(true, []) else
      Then(TrialAll(body, env[e := todo[0]], ids, keys, c), TrialEach(e, body, todo[1..], env, ids, keys, c))
  }

  // Adding the amounts to x, one after the other, never leaves the range of int.
  predicate Steady(x: int, amounts: seq<int>)
    decreases amounts
  {
    amounts == [] || (InRange(x + amounts[0]) && Steady(x + amounts[0], amounts[1..]))
  }

  function SumOf(amounts: seq<int>): int {
    if amounts == [] then 0 else amounts[0] + SumOf(amounts[1..])
  }

  lemma {:induction false} SteadyConcat(x: int, a: seq<int>, b: seq<int>)
    ensures Steady(x, a + b) <==> Steady(x, a) && Steady(x + SumOf(a), b)
    ensures SumOf(a + b) == SumOf(a) + SumOf(b)
    decreases a
  {
    if a == [] {
      assert a + b == b;
    } else {
      assert (a + b)[1..] == a[1..] + b;
      SteadyConcat(x + a[0], a[1..], b);
    }
  }

  lemma OneAmount(x: int, v: int)
    ensures Steady(x, [v]) <==> InRange(x + v)
    ensures SumOf([v]) == v
  {
  }

  // What is steady from two values is steady from every value between them.
  lemma {:induction false} SteadyBetween(low: int, x: int, high: int, amounts: seq<int>)
    requires Steady(low, amounts) && Steady(high, amounts) && low <= x <= high
    ensures Steady(x, amounts)
    decreases amounts
  {
    if amounts != [] {
      SteadyBetween(low + amounts[0], x + amounts[0], high + amounts[0], amounts[1..]);
    }
  }

  // ---------- a run does what the trial says ----------

  ghost predicate AllSteady(m: Store, trial: Location -> Trial) {
    forall c :: c in m ==> Steady(m[c], trial(c).amounts)
  }

  // The run `r` from `m` overflows exactly when some cell is not steady. Otherwise it succeeds
  // exactly when the trial does, and has added the amounts tried, after a failure too.
  ghost predicate AsTried(m: Store, r: Result, trial: Location -> Trial) {
    && r.store.Keys == m.Keys
    && (r.outcome != Overflow <==> AllSteady(m, trial))
    && (r.outcome != Overflow ==>
          && (forall c :: r.outcome == Success <==> trial(c).ok)
          && (forall c :: c in m ==> r.store[c] == m[c] + SumOf(trial(c).amounts)))
  }

  // One cell in two runs, one after the other.
  lemma ThenSteady(x: int, a: Trial, b: Trial)
    ensures Steady(x, Then(a, b).amounts) <==> Steady(x, a.amounts) && (a.ok ==> Steady(x + SumOf(a.amounts), b.amounts))
    ensures SumOf(Then(a, b).amounts) == SumOf(a.amounts) + if a.ok then SumOf(b.amounts) else 0
  {
    SteadyConcat(x, a.amounts, b.amounts);
  }

  // All of them.
  lemma TriedInTurn(m: Store, first: Result, second: Result, a: Location -> Trial, b: Location -> Trial,
                    both: Location -> Trial)
    requires AsTried(m, first, a) && AsTried(first.store, second, b)
    requires forall c :: both(c) == Then(a(c), b(c))
    ensures AsTried(m, if first.outcome == Success then second else first, both)
  {
    forall c
      ensures c in m ==> (Steady(m[c], both(c).amounts) <==>
                Steady(m[c], a(c).amounts) && (a(c).ok ==> Steady(m[c] + SumOf(a(c).amounts), b(c).amounts)))
      ensures SumOf(both(c).amounts) == SumOf(a(c).amounts) + if a(c).ok then SumOf(b(c).amounts) else 0
      ensures both(c).ok <==> a(c).ok && b(c).ok
    {
      ThenSteady(if c in m then m[c] else 0, a(c), b(c));
    }
    if first.outcome == Success {
      TriedBoth(m, first, second, a, b, both);
    } else if first.outcome == Overflow {
      var c :| c in m && !Steady(m[c], a(c).amounts);
      assert !Steady(m[c], both(c).amounts);
    }
  }

  lemma TriedBoth(m: Store, first: Result, second: Result, a: Location -> Trial, b: Location -> Trial,
                  both: Location -> Trial)
    requires AsTried(m, first, a) && AsTried(first.store, second, b) && first.outcome == Success
    requires forall c :: c in m ==> (Steady(m[c], both(c).amounts) <==>
               Steady(m[c], a(c).amounts) && Steady(m[c] + SumOf(a(c).amounts), b(c).amounts))
    requires forall c :: SumOf(both(c).amounts) == SumOf(a(c).amounts) + SumOf(b(c).amounts)
    requires forall c :: both(c).ok <==> b(c).ok
    ensures AsTried(m, second, both)
  {
    assert AllSteady(m, both) <==> AllSteady(first.store, b) by {
      assert forall c :: c in m ==> (Steady(m[c], both(c).amounts) <==> Steady(first.store[c], b(c).amounts));
    }
  }

  lemma AddAsTried(t: Target, v: VariableValue, env: Scope, ids: seq<PlayerID>, m: Store)
    ensures AsTried(m, Interp(Add(t, v), env, ids, m), c => TrialOf(Add(t, v), env, ids, m.Keys, c))
  {
    var trial := c => TrialOf(Add(t, v), env, ids, m.Keys, c);
    var r := Interp(Add(t, v), env, ids, m);
    if Denoted(t, env).Some? && Denoted(t, env).value in m {
      var at := Denoted(t, env).value;
      OneAmount(m[at], v);
      assert trial(at).amounts == [v] && forall c :: c != at ==> trial(c).amounts == [];
    } else {
      assert forall c :: trial(c) == Trial(false, []);
    }
    assert AsTried(m, r, trial);
  }

  lemma {:induction false} StmtAsTried(p: Stmt, env: Scope, ids: seq<PlayerID>, m: Store)
    ensures AsTried(m, Interp(p, env, ids, m), c => TrialOf(p, env, ids, m.Keys, c))
    decreases p, 2
  {
    match p
    case Add(t, v) => AddAsTried(t, v, env, ids, m);
    case Message(_) =>
    case ForEach(e, body) =>
      EachAsTried(e, body, ids, env, ids, m);
      SameTrial(m, Interp(p, env, ids, m), c => TrialEach(e, body, ids, env, ids, m.Keys, c),
                c => TrialOf(p, env, ids, m.Keys, c));
  }

  lemma SameTrial(m: Store, r: Result, a: Location -> Trial, b: Location -> Trial)
    requires AsTried(m, r, a) && forall c :: a(c) == b(c)
    ensures AsTried(m, r, b)
  {
  }

  lemma {:induction false} AllAsTried(ps: seq<Stmt>, env: Scope, ids: seq<PlayerID>, m: Store)
    ensures AsTried(m, InterpAll(ps, env, ids, m), c => TrialAll(ps, env, ids, m.Keys, c))
    decreases ps, 0
  {
    if ps != [] {
      var first := Interp(ps[0], env, ids, m);
      StmtAsTried(ps[0], env, ids, m);
      AllAsTried(ps[1..], env, ids, first.store);
      TriedInTurn(m, first, InterpAll(ps[1..], env, ids, first.store),
                  c => TrialOf(ps[0], env, ids, m.Keys, c), c => TrialAll(ps[1..], env, ids, m.Keys, c),
                  c => TrialAll(ps, env, ids, m.Keys, c));
    }
  }

  lemma {:induction false} EachAsTried(e: string, body: seq<Stmt>, todo: seq<PlayerID>, env: Scope,
                                       ids: seq<PlayerID>, m: Store)
    ensures AsTried(m, InterpEach(e, body, todo, env, ids, m), c => TrialEach(e, body, todo, env, ids, m.Keys, c))
    decreases body, 1, |todo|
  {
    if todo != [] {
      var inner := env[e := todo[0]];
      var first := InterpAll(body, inner, ids, m);
      AllAsTried(body, inner, ids, m);
      EachAsTried(e, body, todo[1..], env, ids, first.store);
      TriedInTurn(m, first, InterpEach(e, body, todo[1..], env, ids, first.store),
                  c => TrialAll(body, inner, ids, m.Keys, c), c => TrialEach(e, body, todo[1..], env, ids, m.Keys, c),
                  c => TrialEach(e, body, todo, env, ids, m.Keys, c));
    }
  }

  // ---------- exactly when a game overflows ----------

  ghost function GameTrial(ps: seq<Stmt>, s: Snapshot, c: Location): Trial {
    TrialAll(ps, map[], PlayerIDs(s.order), CellsOf(s).Keys, c)
  }

  ghost predicate SteadyTrial(ps: seq<Stmt>, s: Snapshot) {
    forall c :: c in CellsOf(s) ==> Steady(CellsOf(s)[c], GameTrial(ps, s, c).amounts)
  }

  // A compiled game overflows exactly when some variable, taken by itself, leaves the range of
  // int under the amounts tried on it. Otherwise it succeeds exactly when it never misses a
  // variable, and every variable ends with the amounts tried on it added, after a failure too.
  lemma GameOverflowsExactly(ps: seq<Stmt>, s: Snapshot)
    requires WellScoped(ps, {}) && s.scope == map[]
    ensures var run := RunGame(SpellAll(ps), s);
      && CellsOf(run.state).Keys == CellsOf(s).Keys
      && (run.outcome == Overflow <==> !SteadyTrial(ps, s))
      && (run.outcome != Overflow ==>
            && (forall c :: run.outcome == Success <==> GameTrial(ps, s, c).ok)
            && (forall c :: c in CellsOf(s) ==>
                  CellsOf(run.state)[c] == CellsOf(s)[c] + SumOf(GameTrial(ps, s, c).amounts)))
  {
    CompileThenRun(ps, s);
    var ids, m := PlayerIDs(s.order), CellsOf(s);
    var trial := c => TrialAll(ps, map[], ids, m.Keys, c);
    AllAsTried(ps, map[], ids, m);
    assert AsTried(m, InterpAll(ps, map[], ids, m), trial);
    assert forall c :: trial(c) == GameTrial(ps, s, c);
    assert AllSteady(m, trial) <==> SteadyTrial(ps, s);
  }
}
