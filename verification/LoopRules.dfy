/** The loop rule: its body runs until `debug_target` is 10 (src/GameRules/GameRules.cpp). */
module LoopRules {
  import opened Wrappers
  import opened Names
  import opened GameStates
  import opened GameRules
  import opened Lexical
  import opened ClosedForm
  import opened Guarantees
  import opened Trials
  import opened Orders

  // ---------- the loop, iteration by iteration ----------

  // The run of `k` iterations, or of fewer when one does not succeed.
  function AfterIterations(body: seq<Rule>, s: Snapshot, k: nat): Run {
    if k == 0 then Run(Success, s) else
      var before := AfterIterations(body, s, k - 1);
      if before.outcome == Success then ExecAll(body, before.state) else before
  }

  function DebugTarget(s: Snapshot): Option<VariableValue> {
    s.Read(Global("debug_target"))
  }

  // After `k` iterations the loop goes on.
  predicate GoesOn(body: seq<Rule>, s: Snapshot, k: nat) {
    var run := AfterIterations(body, s, k);
    run.outcome == Success && DebugTarget(run.state).Some? && DebugTarget(run.state).value != 10
  }

  // The loop exits successfully after exactly `k` iterations.
  predicate Exits(body: seq<Rule>, s: Snapshot, k: nat) {
    var run := AfterIterations(body, s, k);
    && (forall j: nat :: j < k ==> GoesOn(body, s, j))
    && run.outcome == Success && DebugTarget(run.state) == Some(10)
  }

  // A rule of the body fails in iteration `k`.
  predicate Fails(body: seq<Rule>, s: Snapshot, k: nat) {
    (forall j: nat :: j < k ==> GoesOn(body, s, j)) && AfterIterations(body, s, k).outcome == Failure
  }

  lemma DebugTargetIsGlobal(scope: Scope)
    ensures Locate("debug_target", scope) == Some(Global("debug_target"))
  {
    NoPlayersInDebugTarget();
  }

  lemma NoPlayersInDebugTarget()
    ensures !Mentions("debug_target", "players")
  {
    assert 'p' !in "debug_target";
    forall i | 0 <= i <= |"debug_target"| ensures !("players" <= "debug_target"[i..]) {
      assert i < |"debug_target"| ==> "debug_target"[i..][0] == "debug_target"[i];
    }
  }

  // ---------- executing the loop ----------

  // A loop that never stops has no result; `bound` says when this one stops.
  method ExecuteLoopRule(body: seq<Rule>, gameState: GameState, ghost bound: nat) returns (r: RuleExecutionResult)
    requires gameState.Valid()
    requires DebugTarget(gameState.State()).Some? ==>
               Exits(body, gameState.State(), bound) || Fails(body, gameState.State(), bound)
    modifies gameState
    ensures gameState.Valid()
    ensures var s := old(gameState.State());
      if s.Read(Global("debug_target")).None? then r == RuleExecutionResult.FAILURE && gameState.State() == s
      else
        && gameState.State() == AfterIterations(body, s, bound).state
        && (r == RuleExecutionResult.SUCCESS <==> Exits(body, s, bound))
        && (r == RuleExecutionResult.SUCCESS ==> gameState.State().Read(Global("debug_target")) == Some(10))
  {
    ghost var s := gameState.State();
    DebugTargetIsGlobal(gameState.activeScopeVariables);
    var target := gameState.GetValue("debug_target");
    if target.None? {
      return RuleExecutionResult.FAILURE;
    }
    ghost var k := 0;
    while target != Some(10)
      invariant gameState.Valid() && k <= bound
      invariant AfterIterations(body, s, k) == Run(Success, gameState.State())
      invariant target == DebugTarget(gameState.State()) && target.Some?
      invariant forall j: nat :: j < k ==> GoesOn(body, s, j)
      decreases bound - k
    {
      assert GoesOn(body, s, k);
      assert k + 1 < bound ==> GoesOn(body, s, k + 1);
      assert AfterIterations(body, s, k + 1) == ExecAll(body, gameState.State());
      ExecAllKeepsKeys(body, gameState.State());
      r := ExecuteRules(body, gameState);
      k := k + 1;
      if r == RuleExecutionResult.FAILURE {
        return;
      }
      DebugTargetIsGlobal(gameState.activeScopeVariables);
      target := gameState.GetValue("debug_target");
    }
    assert k < bound ==> GoesOn(body, s, k);
    return RuleExecutionResult.SUCCESS;
  }

  // ---------- when the loop stops ----------

  // A body that is a well-scoped program passing the check on the initial state.
  ghost predicate GoodBody(ps: seq<Stmt>, s: Snapshot) {
    && WellScoped(ps, {}) && s.scope == map[] && s.Valid()
    && GameChecks(ps, s)
    && Global("debug_target") in CellsOf(s)
  }

  // `t` is the state after `k` iterations.
  ghost predicate Advanced(ps: seq<Stmt>, s: Snapshot, k: nat, t: Snapshot) {
    && t.scope == map[] && t.order == s.order && t.Valid()
    && CellsOf(t).Keys == CellsOf(s).Keys
    && forall c :: c in CellsOf(s) ==> CellsOf(t)[c] == CellsOf(s)[c] + k * NetEffect(ps, PlayerIDs(s.order), c)
  }

  // The compiled body, run on a state without elements in scope.
  lemma BodyIsGame(ps: seq<Stmt>, t: Snapshot)
    requires WellScoped(ps, {})
    ensures ExecAll(CompiledAll(ps), t) == RunGame(SpellAll(ps), t)
  {
    assert AliasesFor({}) == map[];
    ParseCompiles(ps, {});
  }

  lemma ChecksAfter(ps: seq<Stmt>, s: Snapshot, t: Snapshot)
    requires GameChecks(ps, s) && t.order == s.order && CellsOf(t).Keys == CellsOf(s).Keys
    ensures GameChecks(ps, t)
  {
  }

  lemma OneIteration(ps: seq<Stmt>, s: Snapshot, k: nat, t: Snapshot)
    requires GoodBody(ps, s) && Advanced(ps, s, k, t)
    ensures var run := ExecAll(CompiledAll(ps), t);
      && (run.outcome == Success || run.outcome == Overflow)
      && (run.outcome == Success ==> Advanced(ps, s, k + 1, run.state))
  {
    BodyIsGame(ps, t);
    CompileThenRun(ps, t);
    ChecksAfter(ps, s, t);
    GameSucceedsIffChecks(ps, t);
    if ExecAll(CompiledAll(ps), t).outcome == Success {
      GameAddsNetEffect(ps, t);
      AdvanceOnce(ps, s, k, t, ExecAll(CompiledAll(ps), t).state);
    }
  }

  lemma AdvanceOnce(ps: seq<Stmt>, s: Snapshot, k: nat, t: Snapshot, end: Snapshot)
    requires Advanced(ps, s, k, t)
    requires end.scope == map[] && end.order == t.order && end.players.Keys == t.players.Keys
    requires CellsOf(end).Keys == CellsOf(t).Keys
    requires forall c :: c in CellsOf(t) ==> CellsOf(end)[c] == CellsOf(t)[c] + NetEffect(ps, PlayerIDs(t.order), c)
    ensures Advanced(ps, s, k + 1, end)
  {
  }

  lemma Distribute(k: int, d: int)
    ensures (k + 1) * d == k * d + d
  {
  }

  ghost predicate Progress(ps: seq<Stmt>, s: Snapshot, k: nat, run: Run) {
    && (run.outcome == Success || run.outcome == Overflow)
    && (run.outcome == Success ==> Advanced(ps, s, k, run.state))
  }

  lemma AdvanceRun(ps: seq<Stmt>, s: Snapshot, k: nat, run: Run)
    requires GoodBody(ps, s) && Progress(ps, s, k, run)
    ensures Progress(ps, s, k + 1, if run.outcome == Success then ExecAll(CompiledAll(ps), run.state) else run)
  {
    if run.outcome == Success {
      OneIteration(ps, s, k, run.state);
    }
  }

  lemma StartAdvances(ps: seq<Stmt>, s: Snapshot)
    requires GoodBody(ps, s)
    ensures Progress(ps, s, 0, Run(Success, s))
  {
  }

  lemma {:induction false} Iterations(ps: seq<Stmt>, s: Snapshot, k: nat)
    requires GoodBody(ps, s)
    ensures Progress(ps, s, k, AfterIterations(CompiledAll(ps), s, k))
  {
    if k == 0 {
      StartAdvances(ps, s);
    } else {
      Iterations(ps, s, k - 1);
      AdvanceRun(ps, s, k - 1, AfterIterations(CompiledAll(ps), s, k - 1));
    }
  }

  lemma {:induction false} EarlierIterationsSucceed(body: seq<Rule>, s: Snapshot, j: nat, k: nat)
    requires j <= k && AfterIterations(body, s, k).outcome == Success
    ensures AfterIterations(body, s, j).outcome == Success
    decreases k - j
  {
    if j < k {
      EarlierIterationsSucceed(body, s, j + 1, k);
    }
  }

  function StartOf(s: Snapshot): int
    requires DebugTarget(s).Some?
  {
    DebugTarget(s).value
  }

  function StepOf(ps: seq<Stmt>, s: Snapshot): int {
    NetEffect(ps, PlayerIDs(s.order), Global("debug_target"))
  }

  lemma TargetAfter(ps: seq<Stmt>, s: Snapshot, k: nat)
    requires GoodBody(ps, s) && AfterIterations(CompiledAll(ps), s, k).outcome == Success
    ensures DebugTarget(s).Some?
    ensures DebugTarget(AfterIterations(CompiledAll(ps), s, k).state).Some?
    ensures DebugTarget(AfterIterations(CompiledAll(ps), s, k).state).value == StartOf(s) + k * StepOf(ps, s)
  {
    Iterations(ps, s, k);
    CellsReadAt(s, Global("debug_target"));
    CellsReadAt(AfterIterations(CompiledAll(ps), s, k).state, Global("debug_target"));
  }

  // `j` steps of `d` lead from `t` to 10.
  predicate Hits(t: int, d: int, j: nat) {
    t + j * d == 10
  }

  // The loop exits after k iterations exactly when they do not overflow and k is the first
  // with t + k*d = 10.
  lemma ExitsAtFirstHit(ps: seq<Stmt>, s: Snapshot, k: nat)
    requires GoodBody(ps, s)
    ensures DebugTarget(s).Some?
    ensures Exits(CompiledAll(ps), s, k) <==>
            && AfterIterations(CompiledAll(ps), s, k).outcome != Overflow
            && Hits(StartOf(s), StepOf(ps, s), k)
            && (forall j: nat :: j < k ==> !Hits(StartOf(s), StepOf(ps, s), j))
  {
    TargetAfter(ps, s, 0);
    Iterations(ps, s, k);
    var body := CompiledAll(ps);
    if AfterIterations(body, s, k).outcome == Success {
      TargetAfter(ps, s, k);
      forall j: nat | j < k ensures GoesOn(body, s, j) <==> !Hits(StartOf(s), StepOf(ps, s), j) {
        EarlierIterationsSucceed(body, s, j, k);
        TargetAfter(ps, s, j);
      }
    }
  }

  // Some number of steps of `d` leads from `t` to 10; if so, this many is the least.
  predicate Reaches(t: int, d: int) {
    t == 10 || (d != 0 && (10 - t) % d == 0 && (10 - t) / d >= 0)
  }

  function Steps(t: int, d: int): nat
    requires Reaches(t, d)
  {
    if t == 10 then 0 else (10 - t) / d
  }

  lemma OnlyHit(t: int, d: int, k: nat)
    requires Hits(t, d, k) && (t == 10 ==> k == 0)
    ensures Reaches(t, d) && k == Steps(t, d)
  {
    if t != 10 {
      DivideExactly(10 - t, d, k);
    }
  }

  lemma DivideExactly(x: int, d: int, k: int)
    requires x == k * d && d != 0
    ensures x % d == 0 && x / d == k
  {
    var q, r := x / d, x % d;
    assert (k - q) * d == r && 0 <= r < Abs(d);
    if k != q {
      MultipleIsFar(k - q, d);
    }
  }

  lemma MultipleIsFar(a: int, d: int)
    requires a != 0
    ensures Abs(a * d) >= Abs(d)
  {
  }

  lemma StepsHit(t: int, d: int)
    requires Reaches(t, d)
    ensures Hits(t, d, Steps(t, d))
    ensures forall j: nat :: j < Steps(t, d) ==> !Hits(t, d, j)
  {
  }

  // Every cell, as it is after j iterations, stays in range under the amounts of one more.
  ghost predicate SteadyAt(ps: seq<Stmt>, s: Snapshot, j: nat) {
    var ids := PlayerIDs(s.order);
    forall c :: c in CellsOf(s) ==>
      Steady(CellsOf(s)[c] + j * NetEffect(ps, ids, c), GameAmounts(ps, |s.order|, PositionOf(ids, c), c))
  }

  // One more iteration, from a state after j.
  lemma NextSucceedsExactly(ps: seq<Stmt>, s: Snapshot, j: nat, t: Snapshot)
    requires GoodBody(ps, s) && Advanced(ps, s, j, t)
    ensures ExecAll(CompiledAll(ps), t).outcome == Success <==> SteadyAt(ps, s, j)
  {
    BodyIsGame(ps, t);
    ChecksAfter(ps, s, t);
    GameSucceedsExactly(ps, t);
  }

  lemma LastIteration(ps: seq<Stmt>, s: Snapshot, k: nat)
    requires GoodBody(ps, s) && k > 0
    ensures AfterIterations(CompiledAll(ps), s, k).outcome == Success <==>
            AfterIterations(CompiledAll(ps), s, k - 1).outcome == Success && SteadyAt(ps, s, k - 1)
  {
    var before := AfterIterations(CompiledAll(ps), s, k - 1);
    Iterations(ps, s, k - 1);
    if before.outcome == Success {
      NextSucceedsExactly(ps, s, k - 1, before.state);
    }
  }

  ghost predicate SteadyUpTo(ps: seq<Stmt>, s: Snapshot, k: nat) {
    forall j: nat :: j < k ==> SteadyAt(ps, s, j)
  }

  lemma {:induction false} IterationsAreSteady(ps: seq<Stmt>, s: Snapshot, k: nat)
    requires GoodBody(ps, s)
    ensures AfterIterations(CompiledAll(ps), s, k).outcome == Success <==> SteadyUpTo(ps, s, k)
  {
    if k > 0 {
      IterationsAreSteady(ps, s, k - 1);
      LastIteration(ps, s, k);
    }
  }

  // A cell moves in one direction, so that the first and the last iteration decide.
  lemma SteadyWithin(ps: seq<Stmt>, s: Snapshot, j: nat, last: nat)
    requires SteadyAt(ps, s, 0) && SteadyAt(ps, s, last) && j <= last
    ensures SteadyAt(ps, s, j)
  {
    var ids, m := PlayerIDs(s.order), CellsOf(s);
    forall c | c in m
      ensures Steady(m[c] + j * NetEffect(ps, ids, c), GameAmounts(ps, |s.order|, PositionOf(ids, c), c))
    {
      var d, amounts := NetEffect(ps, ids, c), GameAmounts(ps, |s.order|, PositionOf(ids, c), c);
      Between(j, last, d);
      if d >= 0 {
        SteadyBetween(m[c], m[c] + j * d, m[c] + last * d, amounts);
      } else {
        SteadyBetween(m[c] + last * d, m[c] + j * d, m[c], amounts);
      }
    }
  }

  lemma Between(j: nat, last: nat, d: int)
    requires j <= last
    ensures if d >= 0 then 0 <= j * d <= last * d else last * d <= j * d <= 0
  {
  }

  // The first and the last of k iterations are steady.
  ghost predicate EndsSteady(ps: seq<Stmt>, s: Snapshot, k: nat) {
    k == 0 || (SteadyAt(ps, s, 0) && SteadyAt(ps, s, k - 1))
  }

  lemma EndsDecide(ps: seq<Stmt>, s: Snapshot, k: nat)
    ensures EndsSteady(ps, s, k) <==> SteadyUpTo(ps, s, k)
  {
    if k > 0 && EndsSteady(ps, s, k) {
      forall j: nat | j < k ensures SteadyAt(ps, s, j) {
        SteadyWithin(ps, s, j, k - 1);
      }
    }
  }

  // k iterations succeed exactly when the first and the last of them do; otherwise one overflows.
  lemma IterationsSucceedExactly(ps: seq<Stmt>, s: Snapshot, k: nat)
    requires GoodBody(ps, s)
    ensures var outcome := AfterIterations(CompiledAll(ps), s, k).outcome;
      outcome == if EndsSteady(ps, s, k) then Success else Overflow
  {
    IterationsAreSteady(ps, s, k);
    EndsDecide(ps, s, k);
    Iterations(ps, s, k);
  }

  // Total correctness. The loop exits exactly when steps of d lead from t to 10 and neither the
  // first nor the last iteration on the way overflows; it then has run that many, ends with
  // debug_target = 10, and has changed every variable by that many net effects. It never fails.
  lemma LoopTotalCorrectness(ps: seq<Stmt>, s: Snapshot)
    requires GoodBody(ps, s)
    ensures s.Read(Global("debug_target")).Some?
    ensures var body, t := CompiledAll(ps), s.Read(Global("debug_target")).value;
      var d := NetEffect(ps, PlayerIDs(s.order), Global("debug_target"));
      && ((exists k: nat :: Exits(body, s, k)) <==> Reaches(t, d) && EndsSteady(ps, s, Steps(t, d)))
      && (forall k: nat :: Exits(body, s, k) ==>
            && Reaches(t, d) && k == Steps(t, d)
            && AfterIterations(body, s, k).state.Read(Global("debug_target")) == Some(10)
            && Advanced(ps, s, k, AfterIterations(body, s, k).state))
      && (forall k: nat :: !Fails(body, s, k))
  {
    var body := CompiledAll(ps);
    ExitsAtFirstHit(ps, s, 0);
    var t, d := StartOf(s), StepOf(ps, s);
    forall k: nat | Exits(body, s, k)
      ensures Reaches(t, d) && k == Steps(t, d) && Advanced(ps, s, k, AfterIterations(body, s, k).state)
    {
      ExitsAtFirstHit(ps, s, k);
      assert k > 0 ==> !Hits(t, d, 0);
      OnlyHit(t, d, k);
      Iterations(ps, s, k);
    }
    if Reaches(t, d) {
      StepsHit(t, d);
      ExitsAtFirstHit(ps, s, Steps(t, d));
      IterationsSucceedExactly(ps, s, Steps(t, d));
    }
    forall k: nat ensures !Fails(body, s, k) {
      Iterations(ps, s, k);
    }
  }

  // Otherwise no finite number of iterations ends it: it goes on as long as the first and the
  // last are steady, and has overflowed from then on.
  lemma LoopNeverEnds(ps: seq<Stmt>, s: Snapshot, k: nat)
    requires GoodBody(ps, s) && DebugTarget(s).Some? && !Reaches(StartOf(s), StepOf(ps, s))
    ensures if EndsSteady(ps, s, k) then GoesOn(CompiledAll(ps), s, k)
            else AfterIterations(CompiledAll(ps), s, k).outcome == Overflow
  {
    IterationsSucceedExactly(ps, s, k);
    if EndsSteady(ps, s, k) {
      TargetAfter(ps, s, k);
      if Hits(StartOf(s), StepOf(ps, s), k) {
        OnlyHit(StartOf(s), StepOf(ps, s), k);
      }
    }
  }

  // A body that does not pass the check: the loop is left before its first iteration, or fails
  // in it, or overflows in it.
  lemma LoopOfUncheckedBody(ps: seq<Stmt>, s: Snapshot)
    requires WellScoped(ps, {}) && s.scope == map[] && s.Valid() && !GameChecks(ps, s) && DebugTarget(s).Some?
    ensures var body := CompiledAll(ps);
      && (forall k: nat :: Exits(body, s, k) <==> k == 0 && StartOf(s) == 10)
      && (forall k: nat :: Fails(body, s, k) <==> k == 1 && StartOf(s) != 10 && SteadyTrial(ps, s))
  {
    var body := CompiledAll(ps);
    BodyIsGame(ps, s);
    GameNeverStuck(ps, s);
    GameSucceedsIffChecks(ps, s);
    GameOverflowsExactly(ps, s);
    assert AfterIterations(body, s, 0) == Run(Success, s);
    assert AfterIterations(body, s, 1) == ExecAll(body, s);
    forall k: nat
      ensures Exits(body, s, k) <==> k == 0 && StartOf(s) == 10
      ensures Fails(body, s, k) <==> k == 1 && StartOf(s) != 10 && SteadyTrial(ps, s)
    {
      if k > 1 {
        assert !GoesOn(body, s, 1);
      } else if k == 1 {
        assert GoesOn(body, s, 0) <==> StartOf(s) != 10;
      }
    }
  }

  // There is room for k times the reach of the body.
  ghost predicate FitsTimes(ps: seq<Stmt>, s: Snapshot, k: nat) {
    forall c :: c in CellsOf(s) ==> Abs(CellsOf(s)[c]) + k * Reach(ps, PlayerIDs(s.order), c) <= INT_MAX
  }

  // No variable has moved further than k times its reach.
  ghost predicate NearAfter(ps: seq<Stmt>, s: Snapshot, k: nat, t: Snapshot) {
    && CellsOf(t).Keys == CellsOf(s).Keys && t.order == s.order
    && forall c :: c in CellsOf(s) ==>
         Abs(CellsOf(t)[c]) <= Abs(CellsOf(s)[c]) + k * Reach(ps, PlayerIDs(s.order), c)
  }

  lemma ReachesAddUp(ps: seq<Stmt>, s: Snapshot, k: nat)
    requires WellScoped(ps, {}) && s.Valid() && k > 0
    ensures forall c :: c in CellsOf(s) ==>
      var r := Reach(ps, PlayerIDs(s.order), c); r >= 0 && k * r == (k - 1) * r + r
  {
    forall c | c in CellsOf(s)
      ensures var r := Reach(ps, PlayerIDs(s.order), c); r >= 0 && k * r == (k - 1) * r + r
    {
      ReachIsNonNegative(ps, s, c);
      Distribute(k - 1, Reach(ps, PlayerIDs(s.order), c));
    }
  }

  lemma FitsFewer(ps: seq<Stmt>, s: Snapshot, k: nat)
    requires WellScoped(ps, {}) && s.Valid() && k > 0 && FitsTimes(ps, s, k)
    ensures FitsTimes(ps, s, k - 1)
  {
    ReachesAddUp(ps, s, k);
  }

  lemma OneMoreFits(ps: seq<Stmt>, s: Snapshot, k: nat, t: Snapshot)
    requires WellScoped(ps, {}) && s.Valid() && t.Valid() && t.scope == map[] && k > 0
    requires FitsTimes(ps, s, k) && NearAfter(ps, s, k - 1, t)
    ensures var run := ExecAll(CompiledAll(ps), t);
      Defined(run) && NearAfter(ps, s, k, run.state)
  {
    ReachesAddUp(ps, s, k);
    assert Fits(ps, t);
    BodyIsGame(ps, t);
    GameStaysInRange(ps, t);
    GameEndsNear(ps, t);
    ExecAllKeepsOrder(CompiledAll(ps), t);
  }

  // k iterations do not overflow when there is room for k times the reach of the body.
  lemma {:induction false} IterationsFit(ps: seq<Stmt>, s: Snapshot, k: nat)
    requires GoodBody(ps, s) && FitsTimes(ps, s, k)
    ensures var run := AfterIterations(CompiledAll(ps), s, k);
      run.outcome == Success && NearAfter(ps, s, k, run.state)
  {
    if k > 0 {
      var before := AfterIterations(CompiledAll(ps), s, k - 1);
      FitsFewer(ps, s, k);
      IterationsFit(ps, s, k - 1);
      Iterations(ps, s, k - 1);
      OneMoreFits(ps, s, k, before.state);
      Iterations(ps, s, k);
    }
  }

  lemma ReachIsNonNegative(ps: seq<Stmt>, s: Snapshot, c: Location)
    requires WellScoped(ps, {}) && s.Valid()
    ensures Reach(ps, PlayerIDs(s.order), c) >= 0
  {
    ReachNonNegative(ps, map[], PlayerIDs(s.order), c);
    GameSpends(ps, Magnitude(), s, c);
  }

  // Room for the iterations it needs is enough: the loop then exits exactly when steps of d
  // lead from t to 10.
  lemma LoopWithRoomExits(ps: seq<Stmt>, s: Snapshot)
    requires GoodBody(ps, s) && DebugTarget(s).Some?
    requires var t, d := StartOf(s), StepOf(ps, s); Reaches(t, d) ==> FitsTimes(ps, s, Steps(t, d))
    ensures (exists k: nat :: Exits(CompiledAll(ps), s, k)) <==> Reaches(StartOf(s), StepOf(ps, s))
  {
    LoopTotalCorrectness(ps, s);
    if Reaches(StartOf(s), StepOf(ps, s)) {
      IterationsFit(ps, s, Steps(StartOf(s), StepOf(ps, s)));
      IterationsSucceedExactly(ps, s, Steps(StartOf(s), StepOf(ps, s)));
    }
  }

  // A loop that exits, executed: debug_target ends as 10, and every variable has changed by as
  // many net effects of the body as it takes steps.
  method ExecuteLoopOfProgram(ps: seq<Stmt>, gameState: GameState) returns (r: RuleExecutionResult)
    requires gameState.Valid() && GoodBody(ps, gameState.State()) && DebugTarget(gameState.State()).Some?
    requires var s := gameState.State();
      Reaches(StartOf(s), StepOf(ps, s)) && EndsSteady(ps, s, Steps(StartOf(s), StepOf(ps, s)))
    modifies gameState
    ensures gameState.Valid() && r == RuleExecutionResult.SUCCESS
    ensures gameState.State().Read(Global("debug_target")) == Some(10)
    ensures var s := old(gameState.State());
      Advanced(ps, s, Steps(StartOf(s), StepOf(ps, s)), gameState.State())
  {
    ghost var s := gameState.State();
    ghost var k := Steps(StartOf(s), StepOf(ps, s));
    LoopTotalCorrectness(ps, s);
    assert Exits(CompiledAll(ps), s, k);
    r := ExecuteLoopRule(CompiledAll(ps), gameState, k);
  }

  // ---------- counting up to ten ----------

  function Counting(): seq<Stmt> {
    [Add(ToGlobal("debug_target"), 1)]
  }

  function AtEight(): Snapshot {
    Snapshot(map["debug_target" := 8], map[], [], map[])
  }

  lemma CountingIsGood()
    ensures GoodBody(Counting(), AtEight())
    ensures CellsOf(AtEight()) == map[Global("debug_target") := 8]
  {
    var none: set<string> := {};
    NoPlayersInDebugTarget();
    AllDotFree(c => c !in none, "debug_target");
    assert WellScopedStmt(Counting()[0], none) && Counting()[1..] == [];
    CellsRead(AtEight());
    forall at ensures AtEight().Read(at).Some? <==> at == Global("debug_target") {
    }
  }

  lemma CountingByOne()
    ensures NetEffect(Counting(), [], Global("debug_target")) == 1
    ensures GameAmounts(Counting(), 0, 0, Global("debug_target")) == [1]
  {
    assert Counting()[1..] == [];
    assert Total(Counting()[1..], Amount(), map[], [], 0, Global("debug_target")) == 0;
    assert ForeseenAll(Counting()[1..], Any(), 0, 0, {}, Global("debug_target")) == Trial(true, []);
  }

  // From 8 by steps of 1 the loop takes two iterations, and ends at 10.
  lemma CountsFromEightToTen()
    ensures forall k: nat :: Exits(CompiledAll(Counting()), AtEight(), k) <==> k == 2
    ensures AfterIterations(CompiledAll(Counting()), AtEight(), 2).state.Read(Global("debug_target")) == Some(10)
  {
    var ps, s := Counting(), AtEight();
    CountingIsGood();
    CountingByOne();
    assert PlayerIDs(s.order) == [];
    OneAmount(8, 1);
    OneAmount(9, 1);
    LoopTotalCorrectness(ps, s);
    var k: nat :| Exits(CompiledAll(ps), s, k);
  }
}
