/** What a run leaves in the active-scope map, for every rule tree. */
module ScopeBalance {
  import opened Names
  import opened GameStates
  import opened GameRules

  // ---------- success restores the scope ----------

  lemma {:induction false} SuccessRestoresScope(r: Rule, s: Snapshot)
    requires Exec(r, s).outcome == Success
    ensures Exec(r, s).state.scope == s.scope
    decreases r, 2
  {
    if r.ForEachRule? {
      ForEachRestoresScope(r.listElementName, r.rules, PlayerIDs(s.order), s);
    }
  }

  lemma {:induction false} AllRestoreScope(rs: seq<Rule>, s: Snapshot)
    requires ExecAll(rs, s).outcome == Success
    ensures ExecAll(rs, s).state.scope == s.scope
    decreases rs, 0
  {
    if rs != [] {
      SuccessRestoresScope(rs[0], s);
      AllRestoreScope(rs[1..], Exec(rs[0], s).state);
    }
  }

  lemma {:induction false} ForEachRestoresScope(e: string, rs: seq<Rule>, ids: seq<PlayerID>, s: Snapshot)
    requires ExecForEach(e, rs, ids, s).outcome == Success
    ensures ExecForEach(e, rs, ids, s).state.scope == s.scope
    decreases rs, 1, |ids|
  {
    if ids != [] {
      var bound := s.(scope := s.scope[e := ids[0]]);
      AllRestoreScope(rs, bound);
      var next := ExecAll(rs, bound).state;
      assert bound.scope - {e} == s.scope;
      ForEachRestoresScope(e, rs, ids[1..], next.(scope := next.scope - {e}));
    }
  }

  // The failure branch of unsetActiveScopeVariable is unreachable: a body that succeeds leaves
  // its own element, and only the elements it found, bound.
  lemma UnsetNeverFails(e: string, rs: seq<Rule>, id: PlayerID, s: Snapshot)
    requires ExecAll(rs, s.(scope := s.scope[e := id])).outcome == Success
    ensures ExecAll(rs, s.(scope := s.scope[e := id])).state.scope == s.scope[e := id]
  {
    AllRestoreScope(rs, s.(scope := s.scope[e := id]));
  }

  // ---------- runs in two parts ----------

  // The rules before the k-th run first; the rest only when they succeed.
  lemma {:induction false} ExecAllInParts(rs: seq<Rule>, k: nat, s: Snapshot)
    requires k <= |rs|
    ensures ExecAll(rs, s) ==
            var first := ExecAll(rs[..k], s);
            if first.outcome == Success then ExecAll(rs[k..], first.state) else first
  {
    if k > 0 {
      assert rs[..k][0] == rs[0] && rs[..k][1..] == rs[1..][..k - 1] && rs[k..] == rs[1..][k - 1..];
      if Exec(rs[0], s).outcome == Success {
        ExecAllInParts(rs[1..], k - 1, Exec(rs[0], s).state);
      }
    }
  }

  // The first i iterations run first; the rest only when they succeed.
  lemma {:induction false} ExecForEachInParts(e: string, rs: seq<Rule>, ids: seq<PlayerID>, i: nat, s: Snapshot)
    requires i <= |ids|
    ensures ExecForEach(e, rs, ids, s) ==
            var first := ExecForEach(e, rs, ids[..i], s);
            if first.outcome == Success then ExecForEach(e, rs, ids[i..], first.state) else first
    decreases i
  {
    if i > 0 {
      assert ids[..i][0] == ids[0] && ids[..i][1..] == ids[1..][..i - 1] && ids[i..] == ids[1..][i - 1..];
      var body := ExecAll(rs, s.(scope := s.scope[e := ids[0]]));
      if e !in s.scope && body.outcome == Success && e in body.state.scope {
        ExecForEachInParts(e, rs, ids[1..], i - 1, body.state.(scope := body.state.scope - {e}));
      }
    }
  }

  // ---------- failure stops at one rule and leaves the path to it ----------

  // The place of a rule in a tree, and the iteration of each foreach around it.
  datatype Position = Here | Into(iteration: nat, index: nat, rest: Position)

  // The rule itself fails in `s`, leaving `end`: not one inside it.
  predicate FailsItself(r: Rule, s: Snapshot, end: Snapshot) {
    match r
    case AddRule(target, _) =>
      var at := Locate(target, s.scope);
      at.Some? && s.Read(at.value).None? && end == s
    case GlobalMessageRule(_) => false
    case InputTextRule(target, _, result) =>
      AskInput(target, result, s) == Run(Failure, end)
    case ForEachRule(list, e, _) => (list != "players" || (s.order != [] && e in s.scope)) && end == s
  }

  // The run of `r` from `s` fails at `p`, in the state `end`: the iterations before and the
  // rules before, on the way to it, all succeed, and the rule there fails itself.
  predicate StopsAt(r: Rule, p: Position, s: Snapshot, end: Snapshot)
    decreases p, 0
  {
    match p
    case Here => FailsItself(r, s, end)
    case Into(i, k, rest) =>
      && r.ForEachRule? && r.listName == "players" && i < |s.order|
      && StopsInBody(r.listElementName, r.rules, PlayerIDs(s.order), i, k, rest, s, end)
  }

  predicate StopsInBody(e: string, rs: seq<Rule>, ids: seq<PlayerID>, i: nat, k: nat, rest: Position,
                        s: Snapshot, end: Snapshot)
    requires i < |ids|
    decreases rest, 2
  {
    var before := ExecForEach(e, rs, ids[..i], s);
    && before.outcome == Success && e !in before.state.scope
    && StopsInList(rs, k, rest, before.state.(scope := before.state.scope[e := ids[i]]), end)
  }

  predicate StopsInList(rs: seq<Rule>, k: nat, rest: Position, s: Snapshot, end: Snapshot)
    decreases rest, 1
  {
    && k < |rs|
    && var before := ExecAll(rs[..k], s);
      before.outcome == Success && StopsAt(rs[k], rest, before.state, end)
  }

  // A run that stops at a position fails with that state.
  lemma {:induction false} StopIsFailure(r: Rule, p: Position, s: Snapshot, end: Snapshot)
    requires StopsAt(r, p, s, end)
    ensures Exec(r, s) == Run(Failure, end)
    decreases p, 0
  {
    if p.Into? {
      StopInBodyIsFailure(r.listElementName, r.rules, PlayerIDs(s.order), p.iteration, p.index, p.rest, s, end);
    } else if r.ForEachRule? && r.listName == "players" {
      assert PlayerIDs(s.order) != [];
    }
  }

  lemma {:induction false} StopInBodyIsFailure(e: string, rs: seq<Rule>, ids: seq<PlayerID>, i: nat, k: nat,
                                               rest: Position, s: Snapshot, end: Snapshot)
    requires i < |ids| && StopsInBody(e, rs, ids, i, k, rest, s, end)
    ensures ExecForEach(e, rs, ids, s) == Run(Failure, end)
    decreases rest, 2
  {
    ExecForEachInParts(e, rs, ids, i, s);
    var before := ExecForEach(e, rs, ids[..i], s).state;
    StopInListIsFailure(rs, k, rest, before.(scope := before.scope[e := ids[i]]), end);
    assert ids[i..][0] == ids[i];
  }

  lemma {:induction false} StopInListIsFailure(rs: seq<Rule>, k: nat, rest: Position, s: Snapshot, end: Snapshot)
    requires StopsInList(rs, k, rest, s, end)
    ensures ExecAll(rs, s) == Run(Failure, end)
    decreases rest, 1
  {
    ExecAllInParts(rs, k, s);
    StopIsFailure(rs[k], rest, ExecAll(rs[..k], s).state, end);
    assert rs[k..][0] == rs[k];
  }

  // A failing run stops at a position.
  lemma {:induction false} FindStop(r: Rule, s: Snapshot) returns (p: Position)
    requires Exec(r, s).outcome == Failure
    ensures StopsAt(r, p, s, Exec(r, s).state)
    decreases r, 2
  {
    p := Here;
    if r.ForEachRule? && !FailsItself(r, s, s) {
      var i, k, rest := FindStopInBody(r.listElementName, r.rules, PlayerIDs(s.order), s);
      p := Into(i, k, rest);
    }
  }

  lemma {:induction false} FindStopInList(rs: seq<Rule>, s: Snapshot) returns (k: nat, rest: Position)
    requires ExecAll(rs, s).outcome == Failure
    ensures StopsInList(rs, k, rest, s, ExecAll(rs, s).state)
    decreases rs, 0
  {
    if Exec(rs[0], s).outcome == Success {
      k, rest := FindStopInList(rs[1..], Exec(rs[0], s).state);
      StopsLaterInList(rs, k, rest, s, ExecAll(rs, s).state);
      k := k + 1;
    } else {
      k := 0;
      rest := FindStop(rs[0], s);
      assert rs[..0] == [];
    }
  }

  lemma StopsLaterInList(rs: seq<Rule>, k: nat, rest: Position, s: Snapshot, end: Snapshot)
    requires rs != [] && Exec(rs[0], s).outcome == Success
    requires StopsInList(rs[1..], k, rest, Exec(rs[0], s).state, end)
    ensures StopsInList(rs, k + 1, rest, s, end)
  {
    assert rs[..k + 1][0] == rs[0] && rs[..k + 1][1..] == rs[1..][..k];
  }

  lemma {:induction false} FindStopInBody(e: string, rs: seq<Rule>, ids: seq<PlayerID>, s: Snapshot)
    returns (i: nat, k: nat, rest: Position)
    requires ExecForEach(e, rs, ids, s).outcome == Failure && e !in s.scope
    ensures i < |ids| && StopsInBody(e, rs, ids, i, k, rest, s, ExecForEach(e, rs, ids, s).state)
    decreases rs, 1, |ids|
  {
    var bound := s.(scope := s.scope[e := ids[0]]);
    var body := ExecAll(rs, bound);
    if body.outcome == Success {
      AllRestoreScope(rs, bound);
      var next := body.state.(scope := body.state.scope - {e});
      i, k, rest := FindStopInBody(e, rs, ids[1..], next);
      StopsInLaterIteration(e, rs, ids, i, k, rest, s, next, ExecForEach(e, rs, ids, s).state);
      i := i + 1;
    } else {
      k, rest := FindStopInList(rs, bound);
      i := 0;
      assert ids[..0] == [];
    }
  }

  lemma StopsInLaterIteration(e: string, rs: seq<Rule>, ids: seq<PlayerID>, i: nat, k: nat, rest: Position,
                              s: Snapshot, next: Snapshot, end: Snapshot)
    requires i + 1 < |ids| && e !in s.scope
    requires var body := ExecAll(rs, s.(scope := s.scope[e := ids[0]]));
      body.outcome == Success && e in body.state.scope && next == body.state.(scope := body.state.scope - {e})
    requires StopsInBody(e, rs, ids[1..], i, k, rest, next, end)
    ensures StopsInBody(e, rs, ids, i + 1, k, rest, s, end)
  {
    assert ids[..i + 1][0] == ids[0] && ids[..i + 1][1..] == ids[1..][..i] && ids[i + 1] == ids[1..][i];
  }

  // The elements bound on the way to a position.
  function Bindings(r: Rule, p: Position, ids: seq<PlayerID>): Scope {
    match p
    case Here => map[]
    case Into(i, k, rest) =>
      if r.ForEachRule? && i < |ids| && k < |r.rules|
      then map[r.listElementName := ids[i]] + Bindings(r.rules[k], rest, ids) else map[]
  }

  lemma {:induction false} StopLeavesBindings(r: Rule, p: Position, s: Snapshot, end: Snapshot)
    requires StopsAt(r, p, s, end)
    ensures end.scope == s.scope + Bindings(r, p, PlayerIDs(s.order))
    decreases p
  {
    match p
    case Here =>
      assert s.scope + map[] == s.scope;
      if r.InputTextRule? {
        AskInputKeepsScope(r.targettedUser, r.resultVariable, s);
      }
    case Into(i, k, rest) =>
      var e, ids := r.listElementName, PlayerIDs(s.order);
      var before := ExecForEach(e, r.rules, ids[..i], s).state;
      ForEachRestoresScope(e, r.rules, ids[..i], s);
      ExecForEachKeepsOrder(e, r.rules, ids[..i], s);
      var bound := before.(scope := before.scope[e := ids[i]]);
      assert StopsInList(r.rules, k, rest, bound, end);
      var reached := ExecAll(r.rules[..k], bound).state;
      AllRestoreScope(r.rules[..k], bound);
      ExecAllKeepsOrder(r.rules[..k], bound);
      StopLeavesBindings(r.rules[k], rest, reached, end);
      var inner := Bindings(r.rules[k], rest, ids);
      assert s.scope[e := ids[i]] + inner == s.scope + (map[e := ids[i]] + inner);
  }

  lemma AskInputKeepsScope(target: string, result: string, s: Snapshot)
    ensures AskInput(target, result, s).state.scope == s.scope
  {
  }

  lemma ExecForEachKeepsOrder(e: string, rs: seq<Rule>, ids: seq<PlayerID>, s: Snapshot)
    ensures ExecForEach(e, rs, ids, s).state.order == s.order
  {
    ExecForEachKeepsKeys(e, rs, ids, s);
  }

  // A run fails exactly when it stops at a rule: one that fails itself, with every iteration and
  // every rule before it successful. The scope then is the initial one plus exactly the bindings
  // of the foreachs around that rule.
  lemma FailureLeavesPath(r: Rule, s: Snapshot, end: Snapshot)
    ensures Exec(r, s) == Run(Failure, end) ==> exists p :: StopsAt(r, p, s, end)
    ensures forall p :: StopsAt(r, p, s, end) ==>
              && Exec(r, s) == Run(Failure, end)
              && end.scope == s.scope + Bindings(r, p, PlayerIDs(s.order))
  {
    if Exec(r, s) == Run(Failure, end) {
      var p := FindStop(r, s);
      assert StopsAt(r, p, s, end);
    }
    forall p | StopsAt(r, p, s, end)
      ensures Exec(r, s) == Run(Failure, end) && end.scope == s.scope + Bindings(r, p, PlayerIDs(s.order))
    {
      StopIsFailure(r, p, s, end);
      StopLeavesBindings(r, p, s, end);
    }
  }

  // The same for the rules of a game.
  lemma GameFailureLeavesPath(rs: seq<Rule>, s: Snapshot, end: Snapshot)
    ensures ExecAll(rs, s) == Run(Failure, end) ==> exists k: nat, p :: StopsInList(rs, k, p, s, end)
    ensures forall k: nat, p :: StopsInList(rs, k, p, s, end) ==>
              && ExecAll(rs, s) == Run(Failure, end)
              && end.scope == s.scope + Bindings(rs[k], p, PlayerIDs(s.order))
  {
    if ExecAll(rs, s) == Run(Failure, end) {
      var k, p := FindStopInList(rs, s);
      assert StopsInList(rs, k, p, s, end);
    }
    forall k: nat, p | StopsInList(rs, k, p, s, end)
      ensures ExecAll(rs, s) == Run(Failure, end) && end.scope == s.scope + Bindings(rs[k], p, PlayerIDs(s.order))
    {
      StopInListIsFailure(rs, k, p, s, end);
      AllRestoreScope(rs[..k], s);
      ExecAllKeepsOrder(rs[..k], s);
      StopLeavesBindings(rs[k], p, ExecAll(rs[..k], s).state, end);
    }
  }

  // ---------- only one rule ----------

  // The position at which a run stops is unique.
  lemma {:induction false} StopIsUnique(r: Rule, p: Position, q: Position, s: Snapshot, end: Snapshot)
    requires StopsAt(r, p, s, end) && StopsAt(r, q, s, end)
    ensures p == q
    decreases p
  {
    if p.Into? && q.Into? {
      var e, rs, ids := r.listElementName, r.rules, PlayerIDs(s.order);
      if p.iteration < q.iteration {
        LaterIterationExcluded(e, rs, ids, p, q, s, end);
      } else if q.iteration < p.iteration {
        LaterIterationExcluded(e, rs, ids, q, p, s, end);
      } else {
        var before := ExecForEach(e, rs, ids[..p.iteration], s).state;
        var bound := before.(scope := before.scope[e := ids[p.iteration]]);
        if p.index < q.index {
          LaterRuleExcluded(rs, p, q, bound, end);
        } else if q.index < p.index {
          LaterRuleExcluded(rs, q, p, bound, end);
        } else {
          StopIsUnique(rs[p.index], p.rest, q.rest, ExecAll(rs[..p.index], bound).state, end);
        }
      }
    } else if p.Into? {
      HereExcludesInto(r, p, s, end);
    } else if q.Into? {
      HereExcludesInto(r, q, s, end);
    }
  }

  lemma HereExcludesInto(r: Rule, p: Position, s: Snapshot, end: Snapshot)
    requires p.Into? && StopsAt(r, p, s, end)
    ensures !FailsItself(r, s, end)
  {
    ForEachRestoresScope(r.listElementName, r.rules, PlayerIDs(s.order)[..p.iteration], s);
  }

  lemma LaterRuleExcluded(rs: seq<Rule>, p: Position, q: Position, s: Snapshot, end: Snapshot)
    requires p.Into? && q.Into? && p.index < q.index
    requires StopsInList(rs, p.index, p.rest, s, end) && q.index < |rs|
    ensures !StopsInList(rs, q.index, q.rest, s, end)
  {
    assert rs[..q.index][..p.index] == rs[..p.index];
    assert StopsInList(rs[..q.index], p.index, p.rest, s, end);
    StopInListIsFailure(rs[..q.index], p.index, p.rest, s, end);
  }

  lemma LaterIterationExcluded(e: string, rs: seq<Rule>, ids: seq<PlayerID>, p: Position, q: Position,
                               s: Snapshot, end: Snapshot)
    requires p.Into? && q.Into? && p.iteration < q.iteration < |ids|
    requires StopsInBody(e, rs, ids, p.iteration, p.index, p.rest, s, end)
    ensures !StopsInBody(e, rs, ids, q.iteration, q.index, q.rest, s, end)
  {
    assert ids[..q.iteration][..p.iteration] == ids[..p.iteration];
    StopInBodyIsFailure(e, rs, ids[..q.iteration], p.iteration, p.index, p.rest, s, end);
  }

  // ---------- a foreach inside itself ----------

  function Elements(rs: seq<Rule>): set<string> {
    if rs == [] then {} else
      (match rs[0]
       case ForEachRule(_, e, rules) => {e} + Elements(rules)
       case _ => {}) + Elements(rs[1..])
  }

  predicate NestsDistinctNames(rs: seq<Rule>) {
    rs == [] ||
    ((match rs[0]
      case ForEachRule(_, e, rules) => e !in Elements(rules) && NestsDistinctNames(rules)
      case _ => true) && NestsDistinctNames(rs[1..]))
  }

  // With a player, a run that succeeds binds no name twice: a program that nests an element
  // name inside itself never succeeds.
  lemma {:induction false} SuccessNestsDistinctNames(rs: seq<Rule>, s: Snapshot)
    requires s.order != [] && ExecAll(rs, s).outcome == Success
    ensures Elements(rs) !! s.scope.Keys && NestsDistinctNames(rs)
  {
    if rs != [] {
      var next := Exec(rs[0], s).state;
      if rs[0].ForEachRule? {
        var bound := s.(scope := s.scope[rs[0].listElementName := PlayerIDs(s.order)[0]]);
        assert ExecForEach(rs[0].listElementName, rs[0].rules, PlayerIDs(s.order), s).outcome == Success;
        SuccessNestsDistinctNames(rs[0].rules, bound);
      }
      SuccessRestoresScope(rs[0], s);
      ExecKeepsOrder(rs[0], s);
      SuccessNestsDistinctNames(rs[1..], next);
    }
  }
}
