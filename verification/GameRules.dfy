/** The rules of a game and their execution against a game state (src/GameRules/GameRules.cpp). */
module GameRules {
  import opened Names
  import opened GameStates

  // The rules a parser can build. LoopRule, which no parser builds, is module LoopRules.
  datatype Rule =
    | AddRule(addTarget: string, value: VariableValue)
    | GlobalMessageRule(messageValue: string)
    | InputTextRule(targettedUser: string, inputPrompt: string, resultVariable: string)
    | ForEachRule(listName: string, listElementName: string, rules: seq<Rule>)

  // SUCCESS and FAILURE are the results of `executeRule`. In the other two cases the source has
  // no result: a signed addition leaves the range of int, or a name cannot be located
  // (undefined behaviour or an exception in extractPlayerVariableInfo).
  datatype Outcome = Success | Failure | Overflow | BadName

  datatype Run = Run(outcome: Outcome, state: Snapshot)

  predicate InRange(x: int) { -0x8000_0000 <= x < 0x8000_0000 }

  // ---------- what executing a rule does ----------

  function AddAt(s: Snapshot, at: Location, v: VariableValue): Run {
    match s.Read(at)
    case None => Run(Failure, s)
    case Some(x) => if InRange(x + v) then Run(Success, s.Write(at, x + v)) else Run(Overflow, s)
  }

  // What the unfinished rule stores in place of the user's input.
  const INPUT_STUB: VariableValue := 123456789

  // The stub stores its constant, when both names name variables, and fails in any case.
  function AskInput(target: string, result: string, s: Snapshot): Run {
    match Locate(target, s.scope)
    case None => Run(BadName, s)
    case Some(user) =>
      if s.Read(user).None? then Run(Failure, s) else
        match Locate(result, s.scope)
        case None => Run(BadName, s)
        case Some(at) => Run(Failure, if s.Read(at).None? then s else s.Write(at, INPUT_STUB))
  }

  function Exec(r: Rule, s: Snapshot): Run
    decreases r, 2
  {
    match r
    case AddRule(target, v) =>
      (match Locate(target, s.scope)
       case None => Run(BadName, s)
       case Some(at) => AddAt(s, at, v))
    case GlobalMessageRule(_) => Run(Success, s)
    case InputTextRule(target, _, result) => AskInput(target, result, s)
    case ForEachRule(list, element, rules) =>
      if list != "players" then Run(Failure, s) else ExecForEach(element, rules, PlayerIDs(s.order), s)
  }

  function ExecAll(rs: seq<Rule>, s: Snapshot): Run
    decreases rs, 0
  {
    if rs == [] then Run(Success, s) else
      var first := Exec(rs[0], s);
      if first.outcome == Success then ExecAll(rs[1..], first.state) else first
  }

  // The remaining iterations, over `ids`. A failing body leaves its element bound.
  function ExecForEach(element: string, rs: seq<Rule>, ids: seq<PlayerID>, s: Snapshot): Run
    decreases rs, 1, |ids|
  {
    if ids == [] then Run(Success, s)
    else if element in s.scope then Run(Failure, s)
    else
      var body := ExecAll(rs, s.(scope := s.scope[element := ids[0]]));
      if body.outcome != Success then body
      else if element !in body.state.scope then Run(Failure, body.state)
      else ExecForEach(element, rs, ids[1..], body.state.(scope := body.state.scope - {element}))
  }

  // ---------- executing rules ----------

  datatype RuleExecutionResult = SUCCESS | FAILURE

  function ResultOf(o: Outcome): RuleExecutionResult {
    if o == Success then RuleExecutionResult.SUCCESS else RuleExecutionResult.FAILURE
  }

  predicate Defined(run: Run) {
    run.outcome == Success || run.outcome == Failure
  }

  method ExecuteAddRule(addTarget: string, value: VariableValue, gameState: GameState)
    returns (r: RuleExecutionResult)
    requires gameState.Valid() && Locate(addTarget, gameState.activeScopeVariables).Some?
    requires var x := gameState.State().Read(Locate(addTarget, gameState.activeScopeVariables).value);
      x.Some? ==> -0x8000_0000 <= x.value + value <= 0x7FFF_FFFF
    modifies gameState
    ensures gameState.Valid()
    ensures var s, at := old(gameState.State()), Locate(addTarget, old(gameState.activeScopeVariables)).value;
      if s.Read(at).None? then r == RuleExecutionResult.FAILURE && gameState.State() == s
      else r == RuleExecutionResult.SUCCESS && gameState.State() == s.Write(at, s.Read(at).value + value)
    ensures var run := Exec(AddRule(addTarget, value), old(gameState.State()));
      r == ResultOf(run.outcome) && gameState.State() == run.state
  {
    var got := gameState.GetValue(addTarget);
    if got.None? {
      return RuleExecutionResult.FAILURE;
    }
    var newTargetValue: VariableValue := got.value + value;
    WriteFrame(gameState.State(), Locate(addTarget, gameState.activeScopeVariables).value, newTargetValue);
    var wasSet := gameState.SetValue(addTarget, newTargetValue);
    if wasSet == SetVariableResult.FAILURE {
      return RuleExecutionResult.FAILURE;
    }
    return RuleExecutionResult.SUCCESS;
  }

  method ExecuteGlobalMessageRule(messageValue: string, gameState: GameState) returns (r: RuleExecutionResult)
    ensures r == RuleExecutionResult.SUCCESS
  {
    return RuleExecutionResult.SUCCESS;
  }

  method ExecuteInputTextRule(target: string, prompt: string, resultVariable: string, gameState: GameState)
    returns (r: RuleExecutionResult)
    requires gameState.Valid() && Locate(target, gameState.activeScopeVariables).Some?
    requires gameState.State().Read(Locate(target, gameState.activeScopeVariables).value).Some? ==>
               Locate(resultVariable, gameState.activeScopeVariables).Some?
    modifies gameState
    ensures gameState.Valid() && r == RuleExecutionResult.FAILURE
    ensures var s, scope := old(gameState.State()), old(gameState.activeScopeVariables);
      gameState.State() ==
      if s.Read(Locate(target, scope).value).Some? && s.Read(Locate(resultVariable, scope).value).Some?
      then s.Write(Locate(resultVariable, scope).value, 123456789) else s
    ensures gameState.State() == Exec(InputTextRule(target, prompt, resultVariable), old(gameState.State())).state
  {
    var user := gameState.GetValue(target);
    if user.None? {
      return RuleExecutionResult.FAILURE;
    }
    var wasSet := gameState.SetValue(resultVariable, INPUT_STUB);
    if wasSet == SetVariableResult.FAILURE {
      return RuleExecutionResult.FAILURE;
    }
    return RuleExecutionResult.FAILURE;
  }

  method ExecuteRule(rule: Rule, gameState: GameState) returns (r: RuleExecutionResult)
    requires gameState.Valid() && Defined(Exec(rule, gameState.State()))
    modifies gameState
    ensures gameState.Valid()
    ensures var run := Exec(rule, old(gameState.State()));
      r == ResultOf(run.outcome) && gameState.State() == run.state
    decreases rule, 2
  {
    match rule
    case AddRule(target, v) =>
      r := ExecuteAddRule(target, v, gameState);
    case GlobalMessageRule(text) =>
      r := ExecuteGlobalMessageRule(text, gameState);
    case InputTextRule(target, prompt, result) =>
      r := ExecuteInputTextRule(target, prompt, result, gameState);
    case ForEachRule(list, element, rules) =>
      r := ExecuteForEachRule(list, element, rules, gameState);
  }

  method ExecuteForEachRule(listName: string, element: string, rules: seq<Rule>, gameState: GameState)
    returns (r: RuleExecutionResult)
    requires gameState.Valid() && Defined(Exec(ForEachRule(listName, element, rules), gameState.State()))
    modifies gameState
    ensures gameState.Valid()
    ensures var run := Exec(ForEachRule(listName, element, rules), old(gameState.State()));
      r == ResultOf(run.outcome) && gameState.State() == run.state
    decreases rules, 1
  {
    if listName != "players" {
      return RuleExecutionResult.FAILURE;
    }
    var ids := gameState.GetPlayerIDs();
    ghost var run := ExecForEach(element, rules, ids, gameState.State());
    for i := 0 to |ids|
      invariant gameState.Valid()
      invariant ExecForEach(element, rules, ids[i..], gameState.State()) == run
    {
      assert ids[i..][0] == ids[i] && ids[i..][1..] == ids[i + 1..];
      var wasSet := gameState.SetActiveScopeVariable(element, ids[i]);
      if wasSet == SetVariableResult.FAILURE {
        return RuleExecutionResult.FAILURE;
      }
      r := ExecuteRules(rules, gameState);
      if r == RuleExecutionResult.FAILURE {
        return;
      }
      var wasUnset := gameState.UnsetActiveScopeVariable(element);
      if wasUnset == SetVariableResult.FAILURE {
        return RuleExecutionResult.FAILURE;
      }
    }
    return RuleExecutionResult.SUCCESS;
  }

  // The loop over a list of rules: of a game's top-level rules, of a foreach body, of a loop body.
  method ExecuteRules(rules: seq<Rule>, gameState: GameState) returns (r: RuleExecutionResult)
    requires gameState.Valid() && Defined(ExecAll(rules, gameState.State()))
    modifies gameState
    ensures gameState.Valid()
    ensures var run := ExecAll(rules, old(gameState.State()));
      r == ResultOf(run.outcome) && gameState.State() == run.state
    decreases rules, 0
  {
    ghost var run := ExecAll(rules, gameState.State());
    for i := 0 to |rules|
      invariant gameState.Valid()
      invariant ExecAll(rules[i..], gameState.State()) == run
    {
      assert rules[i..][0] == rules[i] && rules[i..][1..] == rules[i + 1..];
      r := ExecuteRule(rules[i], gameState);
      if r == RuleExecutionResult.FAILURE {
        return;
      }
    }
    return RuleExecutionResult.SUCCESS;
  }

  // ---------- what every run keeps ----------

  // No run changes the global key set, the player set, any player's key set or the player order.
  ghost predicate SameKeys(s: Snapshot, t: Snapshot) {
    && t.order == s.order
    && t.players.Keys == s.players.Keys
    && (forall at :: t.Read(at).Some? <==> s.Read(at).Some?)
  }

  lemma AddAtKeepsKeys(s: Snapshot, at: Location, v: VariableValue)
    ensures SameKeys(s, AddAt(s, at, v).state)
  {
  }

  lemma AskInputKeepsKeys(target: string, result: string, s: Snapshot)
    ensures SameKeys(s, AskInput(target, result, s).state)
  {
    var at := Locate(result, s.scope);
    if at.Some? && s.Read(at.value).Some? {
      WriteFrame(s, at.value, INPUT_STUB);
    }
  }

  lemma {:induction false} ExecKeepsKeys(r: Rule, s: Snapshot)
    ensures SameKeys(s, Exec(r, s).state)
    decreases r, 2
  {
    match r
    case AddRule(target, v) =>
      if Locate(target, s.scope).Some? {
        AddAtKeepsKeys(s, Locate(target, s.scope).value, v);
      }
    case GlobalMessageRule(_) =>
    case InputTextRule(target, _, result) =>
      AskInputKeepsKeys(target, result, s);
    case ForEachRule(list, element, rules) =>
      ExecForEachKeepsKeys(element, rules, PlayerIDs(s.order), s);
  }

  lemma {:induction false} ExecAllKeepsKeys(rs: seq<Rule>, s: Snapshot)
    ensures SameKeys(s, ExecAll(rs, s).state)
    decreases rs, 0
  {
    if rs != [] {
      ExecKeepsKeys(rs[0], s);
      ExecAllKeepsKeys(rs[1..], Exec(rs[0], s).state);
    }
  }

  lemma RescopeReads(s: Snapshot, scope: Scope)
    ensures forall at :: s.(scope := scope).Read(at) == s.Read(at)
  {
  }

  lemma {:induction false} ExecForEachKeepsKeys(element: string, rs: seq<Rule>, ids: seq<PlayerID>, s: Snapshot)
    ensures SameKeys(s, ExecForEach(element, rs, ids, s).state)
    decreases rs, 1, |ids|
  {
    if ids != [] {
      var bound := s.(scope := s.scope[element := ids[0]]);
      RescopeReads(s, bound.scope);
      ExecAllKeepsKeys(rs, bound);
      var body := ExecAll(rs, bound);
      var next := body.state.(scope := body.state.scope - {element});
      RescopeReads(body.state, next.scope);
      ExecForEachKeepsKeys(element, rs, ids[1..], next);
    }
  }

  lemma ExecKeepsOrder(r: Rule, s: Snapshot)
    ensures Exec(r, s).state.order == s.order
  {
    ExecKeepsKeys(r, s);
  }

  lemma ExecAllKeepsOrder(rs: seq<Rule>, s: Snapshot)
    ensures ExecAll(rs, s).state.order == s.order
  {
    ExecAllKeepsKeys(rs, s);
  }
}
