/** The order in which the players are enumerated: when it decides nothing, and exactly when a
    game succeeds, in one order and in all of them. */
module Orders {
  import opened Names
  import opened GameStates
  import opened GameRules
  import opened Lexical
  import opened ClosedForm
  import opened Guarantees
  import opened Trials

  // ---------- what does not depend on the order ----------

  function Members(xs: seq<PlayerID>): set<PlayerID> {
    if xs == [] then {} else {xs[0]} + Members(xs[1..])
  }

  lemma {:induction false} MembersAreElements(xs: seq<PlayerID>)
    ensures forall id :: id in Members(xs) <==> id in xs
    ensures NoDuplicates(xs) ==> |Members(xs)| == |xs|
  {
    if xs != [] {
      MembersAreElements(xs[1..]);
      assert NoDuplicates(xs) ==> xs[0] !in xs[1..];
    }
  }

  lemma SameMembersSameLength(xs: seq<PlayerID>, ys: seq<PlayerID>)
    requires NoDuplicates(xs) && NoDuplicates(ys) && forall id :: id in xs <==> id in ys
    ensures |xs| == |ys|
  {
    MembersAreElements(xs);
    MembersAreElements(ys);
    assert Members(xs) == Members(ys);
  }

  lemma {:induction false} TotalIgnoresOrder(ps: seq<Stmt>, g: Measure, env: Scope, xs: seq<PlayerID>, ys: seq<PlayerID>,
                                             depth: nat, c: Location)
    requires |xs| == |ys| && forall id :: id in xs <==> id in ys
    ensures Total(ps, g, env, xs, depth, c) == Total(ps, g, env, ys, depth, c)
    decreases ps
  {
    if ps != [] {
      TotalIgnoresOrder(ps[1..], g, env, xs, ys, depth, c);
      if ps[0].ForEach? {
        TotalIgnoresOrder(ps[0].body, g, env, xs, ys, depth + 1, c);
      }
    }
  }

  lemma {:induction false} ChecksIgnoreOrder(ps: seq<Stmt>, env: Scope, xs: seq<PlayerID>, ys: seq<PlayerID>,
                                             keys: set<Location>)
    requires |xs| == |ys| && forall id :: id in xs <==> id in ys
    ensures Checks(ps, env, xs, keys) == Checks(ps, env, ys, keys)
    decreases ps
  {
    if ps != [] {
      ChecksIgnoreOrder(ps[1..], env, xs, ys, keys);
      if ps[0].ForEach? {
        ChecksIgnoreOrder(ps[0].body, env, xs, ys, keys);
      }
    }
  }

  // The cells, with the player set, determine the variables of a state.
  lemma CellsDetermine(s: Snapshot, t: Snapshot)
    requires CellsOf(s) == CellsOf(t) && s.players.Keys == t.players.Keys
    ensures s.globals == t.globals && s.players == t.players
  {
    CellsRead(s);
    CellsRead(t);
    assert forall at :: s.Read(at) == t.Read(at) by {
      forall at ensures s.Read(at) == t.Read(at) {
        assert at in CellsOf(s) <==> at in CellsOf(t);
      }
    }
    forall x ensures (x in s.globals <==> x in t.globals) && (x in s.globals ==> s.globals[x] == t.globals[x]) {
      assert s.Read(Global(x)) == t.Read(Global(x));
    }
    forall k | k in s.players ensures s.players[k] == t.players[k] {
      forall x ensures (x in s.players[k] <==> x in t.players[k]) &&
                       (x in s.players[k] ==> s.players[k][x] == t.players[k][x])
      {
        assert s.Read(Player(IdOf(k), x)) == t.Read(Player(IdOf(k), x));
      }
    }
  }

  lemma SameCells(s: Snapshot, order: seq<PlayerKey>)
    ensures CellsOf(s.(order := order)) == CellsOf(s)
  {
  }

  // Two enumeration orders of the same players that do not overflow give the same result, and
  // on success the same variables.
  lemma SameResultShortOfOverflow(ps: seq<Stmt>, s: Snapshot, order: seq<PlayerKey>)
    requires WellScoped(ps, {}) && s.scope == map[] && s.Valid() && s.(order := order).Valid()
    ensures var a, b := RunGame(SpellAll(ps), s), RunGame(SpellAll(ps), s.(order := order));
      a.outcome != Overflow && b.outcome != Overflow ==>
        && a.outcome == b.outcome
        && (a.outcome == Success ==> a.state.globals == b.state.globals && a.state.players == b.state.players)
  {
    var t := s.(order := order);
    var xs, ys := PlayerIDs(s.order), PlayerIDs(t.order);
    var a, b := RunGame(SpellAll(ps), s), RunGame(SpellAll(ps), t);
    PlayerIDsEnumerate(s);
    PlayerIDsEnumerate(t);
    SameMembersSameLength(xs, ys);
    SameCells(s, order);
    ChecksIgnoreOrder(ps, map[], xs, ys, CellsOf(s).Keys);
    GameSucceedsIffChecks(ps, s);
    GameSucceedsIffChecks(ps, t);
    CompileThenRun(ps, s);
    CompileThenRun(ps, t);
    if a.outcome == Success && b.outcome == Success {
      GameAddsNetEffect(ps, s);
      GameAddsNetEffect(ps, t);
      forall c | c in CellsOf(s) ensures CellsOf(a.state)[c] == CellsOf(b.state)[c] {
        TotalIgnoresOrder(ps, Amount(), map[], xs, ys, 0, c);
      }
      CellsDetermine(a.state, b.state);
    }
  }

  lemma FitsInEveryOrder(ps: seq<Stmt>, s: Snapshot, order: seq<PlayerKey>)
    requires s.Valid() && s.(order := order).Valid() && Fits(ps, s)
    ensures Fits(ps, s.(order := order))
  {
    var t := s.(order := order);
    PlayerIDsEnumerate(s);
    PlayerIDsEnumerate(t);
    SameMembersSameLength(PlayerIDs(s.order), PlayerIDs(t.order));
    SameCells(s, order);
    forall c | c in CellsOf(t) ensures Abs(CellsOf(t)[c]) + Reach(ps, PlayerIDs(t.order), c) <= INT_MAX {
      TotalIgnoresOrder(ps, Magnitude(), map[], PlayerIDs(s.order), PlayerIDs(t.order), 0, c);
    }
  }

  // The game has a result, which another order of the players does not change.
  ghost predicate SameResult(ps: seq<Stmt>, s: Snapshot, order: seq<PlayerKey>) {
    var a, b := RunGame(SpellAll(ps), s), RunGame(SpellAll(ps), s.(order := order));
    && Defined(a) && a.outcome == b.outcome
    && (a.outcome == Success ==> a.state.globals == b.state.globals && a.state.players == b.state.players)
  }

  // In every order a game has a result, and the same one, exactly when every variable, taken by
  // itself, is steady under the amounts tried on it in every order; whether it checks or not.
  lemma OrderNeverMattersExactly(ps: seq<Stmt>, s: Snapshot)
    requires WellScoped(ps, {}) && s.scope == map[] && s.Valid()
    ensures (forall order :: s.(order := order).Valid() ==> SameResult(ps, s, order)) <==>
            (forall order :: s.(order := order).Valid() ==> SteadyTrial(ps, s.(order := order)))
  {
    assert s.(order := s.order) == s;
    forall order | s.(order := order).Valid()
      ensures SameResult(ps, s, order) <==> SteadyTrial(ps, s) && SteadyTrial(ps, s.(order := order))
    {
      GameNeverStuck(ps, s);
      GameOverflowsExactly(ps, s);
      GameOverflowsExactly(ps, s.(order := order));
      SameResultShortOfOverflow(ps, s, order);
    }
  }

  // With room for what a game adds, in one order or any other, its result does not depend on
  // the order, and neither do the variables it leaves.
  lemma OrderDoesNotMatter(ps: seq<Stmt>, s: Snapshot, order: seq<PlayerKey>)
    requires WellScoped(ps, {}) && s.scope == map[] && s.Valid() && s.(order := order).Valid()
    requires Fits(ps, s)
    ensures SameResult(ps, s, order)
  {
    FitsInEveryOrder(ps, s, order);
    GameStaysInRange(ps, s);
    GameStaysInRange(ps, s.(order := order));
    SameResultShortOfOverflow(ps, s, order);
  }

  // ---------- what a run tries on one cell, by the position of its player ----------

  // An Add to `t` touches the cell; `own` are the elements standing for the cell's player.
  predicate Touches(t: Target, own: set<string>, c: Location) {
    match t
    case ToGlobal(x) => c == Global(x)
    case ToPlayer(id, x) => c == Player(id, x)
    case ToElement(e, x) => c.Player? && c.field == x && e in own
  }

  // The trial of a run with n players, the one of the cell being the j-th, when whether a
  // variable exists depends on the target alone.
  function Foreseen(p: Stmt, has: Target -> bool, n: nat, j: nat, own: set<string>, c: Location): Trial
    decreases p, 2
  {
    match p
    case Add(t, v) => if has(t) then Trial(true, if Touches(t, own, c) then [v] else []) else Trial(false, [])
    case Message(_) => Trial(true, [])
    case ForEach(e, body) => ForeseenEach(e, body, has, 0, n, j, own, c)
  }

  function ForeseenAll(ps: seq<Stmt>, has: Target -> bool, n: nat, j: nat, own: set<string>, c: Location): Trial
    decreases ps, 0
  {
    if ps == [] then Trial(true, []) else
      Then(Foreseen(ps[0], has, n, j, own, c), ForeseenAll(ps[1..], has, n, j, own, c))
  }

  function ForeseenEach(e: string, body: seq<Stmt>, has: Target -> bool, i: nat, n: nat, j: nat, own: set<string>,
                        c: Location): Trial
    decreases body, 1, n - i
  {
    if i >= n then Trial(true, []) else
      Then(ForeseenAll(body, has, n, j, if i == j then own + {e} else own, c),
           ForeseenEach(e, body, has, i + 1, n, j, own, c))
  }

  // The elements standing for the player of the cell, and the position of that player.
  function Own(env: Scope, c: Location): set<string> {
    set e | e in env && c.Player? && env[e] == c.id
  }

  function PositionOf(ids: seq<PlayerID>, c: Location): (j: nat)
    ensures j <= |ids|
    ensures j < |ids| ==> c.Player? && ids[j] == c.id
    ensures forall i :: 0 <= i < j ==> !(c.Player? && ids[i] == c.id)
  {
    if ids == [] || (c.Player? && ids[0] == c.id) then 0 else 1 + PositionOf(ids[1..], c)
  }

  lemma OwnAfterBinding(env: Scope, e: string, ids: seq<PlayerID>, i: nat, c: Location)
    requires e !in env && i < |ids| && NoDuplicates(ids)
    ensures Own(env[e := ids[i]], c) == if i == PositionOf(ids, c) then Own(env, c) + {e} else Own(env, c)
  {
    var j := PositionOf(ids, c);
    assert c.Player? && ids[i] == c.id <==> i == j;
  }

  // `has` tells which variables exist; or all do that the run comes to.
  ghost predicate Tells(has: Target -> bool, ids: seq<PlayerID>, keys: set<Location>, ok: bool) {
    || (ok && forall t :: has(t))
    || (forall t, env: Scope :: Denoted(t, env).Some? && (t.ToElement? ==> env[t.element] in ids) ==>
          (has(t) <==> Denoted(t, env).value in keys))
  }

  ghost predicate EnvOf(env: Scope, ids: seq<PlayerID>) {
    forall e :: e in env ==> env[e] in ids
  }

  lemma AddForeseen(t: Target, v: VariableValue, has: Target -> bool, env: Scope, ids: seq<PlayerID>,
                    keys: set<Location>, c: Location)
    requires GoodTarget(t, env.Keys) && EnvOf(env, ids)
    requires Tells(has, ids, keys, TrialOf(Add(t, v), env, ids, keys, c).ok)
    ensures TrialOf(Add(t, v), env, ids, keys, c) == Foreseen(Add(t, v), has, |ids|, PositionOf(ids, c), Own(env, c), c)
  {
    var at := Denoted(t, env).value;
    assert Touches(t, Own(env, c), c) <==> c == at;
    assert has(t) <==> at in keys;
  }

  // The trial of a run, as far as `has` tells it.
  lemma {:induction false} StmtForeseen(p: Stmt, has: Target -> bool, env: Scope, ids: seq<PlayerID>,
                                        keys: set<Location>, c: Location)
    requires WellScopedStmt(p, env.Keys) && NoDuplicates(ids) && EnvOf(env, ids)
    requires Tells(has, ids, keys, TrialOf(p, env, ids, keys, c).ok)
    ensures TrialOf(p, env, ids, keys, c) == Foreseen(p, has, |ids|, PositionOf(ids, c), Own(env, c), c)
    decreases p, 2
  {
    match p
    case Add(t, v) => AddForeseen(t, v, has, env, ids, keys, c);
    case Message(_) =>
    case ForEach(e, body) =>
      assert ids[0..] == ids;
      EachForeseen(e, body, has, 0, env, ids, keys, c);
  }

  lemma {:induction false} AllForeseen(ps: seq<Stmt>, has: Target -> bool, env: Scope, ids: seq<PlayerID>,
                                       keys: set<Location>, c: Location)
    requires WellScoped(ps, env.Keys) && NoDuplicates(ids) && EnvOf(env, ids)
    requires Tells(has, ids, keys, TrialAll(ps, env, ids, keys, c).ok)
    ensures TrialAll(ps, env, ids, keys, c) == ForeseenAll(ps, has, |ids|, PositionOf(ids, c), Own(env, c), c)
    decreases ps, 0
  {
    if ps != [] {
      StmtForeseen(ps[0], has, env, ids, keys, c);
      AllForeseen(ps[1..], has, env, ids, keys, c);
    }
  }

  lemma {:induction false} EachForeseen(e: string, body: seq<Stmt>, has: Target -> bool, i: nat, env: Scope,
                                        ids: seq<PlayerID>, keys: set<Location>, c: Location)
    requires e !in env && WellScoped(body, env.Keys + {e}) && NoDuplicates(ids) && EnvOf(env, ids) && i <= |ids|
    requires Tells(has, ids, keys, TrialEach(e, body, ids[i..], env, ids, keys, c).ok)
    ensures TrialEach(e, body, ids[i..], env, ids, keys, c) ==
            ForeseenEach(e, body, has, i, |ids|, PositionOf(ids, c), Own(env, c), c)
    decreases body, 1, |ids| - i
  {
    if i < |ids| {
      var inner := env[e := ids[i]];
      assert inner.Keys == env.Keys + {e} && ids[i..][0] == ids[i] && ids[i..][1..] == ids[i + 1..];
      AllForeseen(body, has, inner, ids, keys, c);
      EachForeseen(e, body, has, i + 1, env, ids, keys, c);
      OwnAfterBinding(env, e, ids, i, c);
    }
  }

  // ---------- exactly when a game succeeds ----------

  function Any(): Target -> bool {
    t => true
  }

  // The amounts a game adds to a cell whose player is the j-th of n.
  function GameAmounts(ps: seq<Stmt>, n: nat, j: nat, c: Location): seq<int> {
    ForeseenAll(ps, Any(), n, j, {}, c).amounts
  }

  ghost predicate SteadyInOrder(ps: seq<Stmt>, s: Snapshot) {
    forall c :: c in CellsOf(s) ==>
      Steady(CellsOf(s)[c], GameAmounts(ps, |s.order|, PositionOf(PlayerIDs(s.order), c), c))
  }

  lemma TrialOfChecked(ps: seq<Stmt>, s: Snapshot, c: Location)
    requires WellScoped(ps, {}) && s.Valid() && GameChecks(ps, s)
    ensures GameTrial(ps, s, c).amounts == GameAmounts(ps, |s.order|, PositionOf(PlayerIDs(s.order), c), c)
  {
    var none: Scope := map[];
    assert none.Keys == {} && Own(none, c) == {};
    GameTrialChecks(ps, s);
    PlayerIDsEnumerate(s);
    assert GameTrial(ps, s, c).ok && forall t :: Any()(t);
    AllForeseen(ps, Any(), none, PlayerIDs(s.order), CellsOf(s).Keys, c);
  }

  // A compiled game succeeds exactly when it checks and every cell, taken by itself, stays in
  // range under the amounts added to it.
  lemma GameSucceedsExactly(ps: seq<Stmt>, s: Snapshot)
    requires WellScoped(ps, {}) && s.scope == map[] && s.Valid()
    ensures RunGame(SpellAll(ps), s).outcome == Success <==> GameChecks(ps, s) && SteadyInOrder(ps, s)
  {
    GameSucceedsIffChecks(ps, s);
    GameOverflowsExactly(ps, s);
    if GameChecks(ps, s) {
      forall c ensures GameTrial(ps, s, c).amounts == GameAmounts(ps, |s.order|, PositionOf(PlayerIDs(s.order), c), c) {
        TrialOfChecked(ps, s, c);
      }
    }
  }

  // Every global, and every player's variable with that player in every position.
  ghost predicate SteadyInEveryOrder(ps: seq<Stmt>, s: Snapshot) {
    forall c, j: nat :: c in CellsOf(s) && (if c.Player? then j < |s.order| else j == |s.order|) ==>
      Steady(CellsOf(s)[c], GameAmounts(ps, |s.order|, j, c))
  }

  // A game succeeds in every order of its players exactly when it checks and every cell is
  // steady with its player in every position.
  lemma EveryOrderSucceedsExactly(ps: seq<Stmt>, s: Snapshot)
    requires WellScoped(ps, {}) && s.scope == map[] && s.Valid()
    ensures (forall order :: s.(order := order).Valid() ==>
               RunGame(SpellAll(ps), s.(order := order)).outcome == Success) <==>
            GameChecks(ps, s) && SteadyInEveryOrder(ps, s)
  {
    if GameChecks(ps, s) && SteadyInEveryOrder(ps, s) {
      forall order | s.(order := order).Valid()
        ensures RunGame(SpellAll(ps), s.(order := order)).outcome == Success
      {
        SteadyThenSucceeds(ps, s, order);
      }
    }
    if forall order :: s.(order := order).Valid() ==> RunGame(SpellAll(ps), s.(order := order)).outcome == Success {
      assert s.(order := s.order) == s;
      GameSucceedsExactly(ps, s);
      forall c, j: nat | c in CellsOf(s) && (if c.Player? then j < |s.order| else j == |s.order|)
        ensures Steady(CellsOf(s)[c], GameAmounts(ps, |s.order|, j, c))
      {
        var order := OrderWith(s, c, j);
        assert RunGame(SpellAll(ps), s.(order := order)).outcome == Success;
        SameCells(s, order);
        GameSucceedsExactly(ps, s.(order := order));
      }
    }
  }

  lemma SteadyThenSucceeds(ps: seq<Stmt>, s: Snapshot, order: seq<PlayerKey>)
    requires WellScoped(ps, {}) && s.scope == map[] && s.Valid() && s.(order := order).Valid()
    requires GameChecks(ps, s) && SteadyInEveryOrder(ps, s)
    ensures RunGame(SpellAll(ps), s.(order := order)).outcome == Success
  {
    var t := s.(order := order);
    var ids := PlayerIDs(t.order);
    PlayerIDsEnumerate(s);
    PlayerIDsEnumerate(t);
    SameMembersSameLength(PlayerIDs(s.order), ids);
    SameCells(s, order);
    ChecksIgnoreOrder(ps, map[], PlayerIDs(s.order), ids, CellsOf(s).Keys);
    forall c | c in CellsOf(t)
      ensures Steady(CellsOf(t)[c], GameAmounts(ps, |t.order|, PositionOf(ids, c), c))
    {
      PositionOfCell(t, c);
    }
    GameSucceedsExactly(ps, t);
  }

  // The player of an existing cell has a position.
  lemma PositionOfCell(s: Snapshot, c: Location)
    requires s.Valid() && c in CellsOf(s)
    ensures var j := PositionOf(PlayerIDs(s.order), c);
      if c.Player? then j < |s.order| else j == |s.order|
  {
    CellsReadAt(s, c);
    PlayerIDsEnumerate(s);
    if c.Player? {
      assert c.id in PlayerIDs(s.order);
    }
  }

  // Some order has the player of the cell in position j: two players change places.
  lemma OrderWith(s: Snapshot, c: Location, j: nat) returns (order: seq<PlayerKey>)
    requires s.Valid() && c in CellsOf(s) && (if c.Player? then j < |s.order| else j == |s.order|)
    ensures s.(order := order).Valid() && |order| == |s.order| && PositionOf(PlayerIDs(order), c) == j
  {
    var i := PositionOf(PlayerIDs(s.order), c);
    PositionOfCell(s, c);
    order := s.order;
    if c.Player? {
      order := s.order[i := s.order[j]][j := s.order[i]];
      SwapEnumerates(s.order, s.players.Keys, i, j);
      PlayerIDsEnumerate(s.(order := order));
      assert PlayerIDs(order)[j] == c.id;
    }
  }

  lemma SwapEnumerates(order: seq<PlayerKey>, keys: set<PlayerKey>, i: nat, j: nat)
    requires Enumerates(order, keys) && i < |order| && j < |order|
    ensures Enumerates(order[i := order[j]][j := order[i]], keys)
  {
    var swapped := order[i := order[j]][j := order[i]];
    forall k ensures k in swapped <==> k in keys {
      if k in order {
        var l :| 0 <= l < |order| && order[l] == k;
        assert swapped[if l == i then j else if l == j then i else l] == k;
      }
    }
  }

  // ---------- the order can decide whether a game overflows ----------

  // Every player's x grows by 1, and that of player 1 shrinks again each time.
  function SeeSawBody(): seq<Stmt> {
    [Add(ToElement("p", "x"), 1), Add(ToPlayer(1, "x"), -1)]
  }

  // Before that, the x of player 1 becomes the largest int.
  function SeeSaw(): seq<Stmt> {
    [Add(ToPlayer(1, "x"), 0x7FFF_FFFF), ForEach("p", SeeSawBody())]
  }

  const ZERO: VariableMap := map["x" := 0]

  function TwoPlayers(order: seq<PlayerKey>): Snapshot {
    Snapshot(map[], map[KeyOf(1) := ZERO, KeyOf(2) := ZERO], order, map[])
  }

  lemma SeeSawIsWellScoped()
    ensures WellScoped(SeeSaw(), {})
  {
    AllDotFree(c => c !in {"p"}, "x");
    var none: set<string> := {};
    AllDotFree(c => c !in none, "x");
    assert ToString(1) == "1";
    var body := SeeSawBody();
    assert none + {"p"} == {"p"};
    assert WellScopedStmt(body[0], {"p"}) && WellScopedStmt(body[1], {"p"});
    assert WellScoped(body[1..], {"p"});
    assert WellScoped(body, {"p"});
    assert WellScopedStmt(SeeSaw()[0], none) && WellScopedStmt(SeeSaw()[1], none);
    assert WellScoped(SeeSaw()[1..], none);
  }

  lemma TwoPlayersCells(order: seq<PlayerKey>)
    ensures CellsOf(TwoPlayers(order)) == map[Player(1, "x") := 0, Player(2, "x") := 0]
  {
    var s := TwoPlayers(order);
    CellsRead(s);
    assert KeyOf(1) != KeyOf(2);
    forall at ensures s.Read(at).Some? <==> at == Player(1, "x") || at == Player(2, "x") {
    }
  }

  lemma SeeSawChecks(s: Snapshot)
    requires s.Valid() && s == TwoPlayers(s.order)
    ensures GameChecks(SeeSaw(), s)
  {
    TwoPlayersCells(s.order);
    PlayerIDsEnumerate(s);
    var ids, keys, body := PlayerIDs(s.order), CellsOf(s).Keys, SeeSawBody();
    forall id | id in ids ensures id == 1 || id == 2 {
      assert KeyOf(id) in s.players;
    }
    assert StmtChecks(body[0], map[], ids, keys) && StmtChecks(body[1], map[], ids, keys);
    assert Checks(body[1..], map[], ids, keys);
    assert Checks(body, map[], ids, keys);
    assert StmtChecks(SeeSaw()[0], map[], ids, keys) && StmtChecks(SeeSaw()[1], map[], ids, keys);
    assert Checks(SeeSaw()[1..], map[], ids, keys);
  }

  // What one iteration adds to the cell: when it is the turn of its player, and otherwise.
  function TurnAmounts(turn: bool, c: Location): seq<int> {
    if c == Player(1, "x") then (if turn then [1, -1] else [-1]) else if turn then [1] else []
  }

  lemma SeeSawTurn(j: nat, own: set<string>, c: Location)
    requires c.Player? && c.field == "x"
    ensures ForeseenAll(SeeSawBody(), Any(), 2, j, own, c) == Trial(true, TurnAmounts("p" in own, c))
  {
    var body := SeeSawBody();
    assert body[1..][1..] == [];
    assert ForeseenAll(body[1..], Any(), 2, j, own, c) == Then(Foreseen(body[1], Any(), 2, j, own, c), Trial(true, []));
  }

  lemma SeeSawInTurn(j: nat, c: Location)
    requires c.Player? && c.field == "x" && j < 2
    ensures GameAmounts(SeeSaw(), 2, j, c) ==
            (if c == Player(1, "x") then [0x7FFF_FFFF] else []) + (TurnAmounts(j == 0, c) + TurnAmounts(j == 1, c))
  {
    var body := SeeSawBody();
    SeeSawTurn(j, {}, c);
    SeeSawTurn(j, {} + {"p"}, c);
    assert ForeseenEach("p", body, Any(), 2, 2, j, {}, c) == Trial(true, []);
    assert ForeseenEach("p", body, Any(), 1, 2, j, {}, c) == Trial(true, TurnAmounts(j == 1, c) + []);
    assert ForeseenEach("p", body, Any(), 0, 2, j, {}, c) ==
           Trial(true, TurnAmounts(j == 0, c) + TurnAmounts(j == 1, c));
    SeeSawStarts(j, c);
  }

  lemma SeeSawStarts(j: nat, c: Location)
    ensures GameAmounts(SeeSaw(), 2, j, c) ==
            (if c == Player(1, "x") then [0x7FFF_FFFF] else []) +
            ForeseenEach("p", SeeSawBody(), Any(), 0, 2, j, {}, c).amounts
  {
    var rest := SeeSaw()[1..];
    assert rest == [SeeSaw()[1]] && rest[1..] == [];
    assert ForeseenAll(rest, Any(), 2, j, {}, c) == Then(Foreseen(rest[0], Any(), 2, j, {}, c), Trial(true, []));
  }

  // The amounts for the players, by their positions.
  lemma SeeSawFirst()
    ensures GameAmounts(SeeSaw(), 2, 0, Player(1, "x")) == [0x7FFF_FFFF, 1, -1, -1]
  {
    SeeSawInTurn(0, Player(1, "x"));
    assert [1, -1] + [-1] == [1, -1, -1];
  }

  lemma SeeSawLast()
    ensures GameAmounts(SeeSaw(), 2, 1, Player(1, "x")) == [0x7FFF_FFFF, -1, 1, -1]
  {
    SeeSawInTurn(1, Player(1, "x"));
    assert [-1] + [1, -1] == [-1, 1, -1];
  }

  lemma SeeSawOther()
    ensures GameAmounts(SeeSaw(), 2, 0, Player(2, "x")) == [1]
  {
    SeeSawInTurn(0, Player(2, "x"));
  }

  lemma SeeSawPositions(first: PlayerID, second: PlayerID, c: Location)
    requires c.Player? && first != second && (c.id == first || c.id == second)
    ensures PlayerIDs([KeyOf(first), KeyOf(second)]) == [first, second]
    ensures PositionOf([first, second], c) == if c.id == first then 0 else 1
  {
    assert [first, second][1..] == [second];
  }

  lemma TwoPlayersValid()
    ensures TwoPlayers([KeyOf(1), KeyOf(2)]).Valid() && TwoPlayers([KeyOf(2), KeyOf(1)]).Valid()
  {
    assert KeyOf(1) != KeyOf(2);
  }

  lemma FirstOverflows()
    ensures !SteadyInOrder(SeeSaw(), TwoPlayers([KeyOf(1), KeyOf(2)]))
  {
    var s := TwoPlayers([KeyOf(1), KeyOf(2)]);
    TwoPlayersCells(s.order);
    SeeSawFirst();
    var c := Player(1, "x");
    SeeSawPositions(1, 2, c);
    assert [0x7FFF_FFFF, 1, -1, -1][1..] == [1, -1, -1];
    assert c in CellsOf(s) && !Steady(CellsOf(s)[c], [0x7FFF_FFFF, 1, -1, -1]);
  }

  lemma FirstSteady()
    ensures Steady(0, [0x7FFF_FFFF, -1, 1, -1])
  {
    OneAmount(0x7FFF_FFFF, -1);
    assert [-1, 1, -1][1..] == [1, -1] && [1, -1][1..] == [-1];
    assert [0x7FFF_FFFF, -1, 1, -1][1..] == [-1, 1, -1];
  }

  lemma OthersSteady()
    ensures Steady(0, GameAmounts(SeeSaw(), 2, 1, Player(1, "x")))
    ensures Steady(0, GameAmounts(SeeSaw(), 2, 0, Player(2, "x")))
  {
    SeeSawLast();
    SeeSawOther();
    FirstSteady();
    OneAmount(0, 1);
  }

  lemma FirstFits()
    ensures SteadyInOrder(SeeSaw(), TwoPlayers([KeyOf(2), KeyOf(1)]))
  {
    var s := TwoPlayers([KeyOf(2), KeyOf(1)]);
    TwoPlayersCells(s.order);
    SeeSawPositions(2, 1, Player(1, "x"));
    SeeSawPositions(2, 1, Player(2, "x"));
    OthersSteady();
  }

  // With player 1 first the game overflows; with player 2 first it succeeds.
  lemma OrderDecidesOverflow()
    ensures WellScoped(SeeSaw(), {})
    ensures TwoPlayers([KeyOf(1), KeyOf(2)]).Valid() && TwoPlayers([KeyOf(2), KeyOf(1)]).Valid()
    ensures RunGame(SpellAll(SeeSaw()), TwoPlayers([KeyOf(1), KeyOf(2)])).outcome == Overflow
    ensures RunGame(SpellAll(SeeSaw()), TwoPlayers([KeyOf(2), KeyOf(1)])).outcome == Success
  {
    var s, t := TwoPlayers([KeyOf(1), KeyOf(2)]), TwoPlayers([KeyOf(2), KeyOf(1)]);
    SeeSawIsWellScoped();
    TwoPlayersValid();
    SeeSawChecks(s);
    SeeSawChecks(t);
    FirstOverflows();
    FirstFits();
    GameSucceedsExactly(SeeSaw(), s);
    GameSucceedsExactly(SeeSaw(), t);
    GameSucceedsIffChecks(SeeSaw(), s);
  }

  // The same after an Add to a variable that does not exist, which makes both orders fail the
  // check: the first overflows nevertheless, the second fails.
  lemma OrderDecidesFailure()
    ensures var ps := SeeSaw() + [Add(ToGlobal("y"), 1)];
      && WellScoped(ps, {})
      && RunGame(SpellAll(ps), TwoPlayers([KeyOf(1), KeyOf(2)])).outcome == Overflow
      && RunGame(SpellAll(ps), TwoPlayers([KeyOf(2), KeyOf(1)])).outcome == Failure
  {
    var s, t := TwoPlayers([KeyOf(1), KeyOf(2)]), TwoPlayers([KeyOf(2), KeyOf(1)]);
    MissingIsWellScoped();
    OrderDecidesOverflow();
    TwoPlayersCells(s.order);
    TwoPlayersCells(t.order);
    MissingFailsLast(SeeSaw(), "y", s);
    MissingFailsLast(SeeSaw(), "y", t);
  }

  lemma MissingIsWellScoped()
    ensures WellScoped(SeeSaw() + [Add(ToGlobal("y"), 1)], {})
  {
    var none: set<string> := {};
    SeeSawIsWellScoped();
    AllDotFree(c => c !in none, "y");
    assert GoodTarget(ToGlobal("y"), none);
    WellScopedAppend(SeeSaw(), Add(ToGlobal("y"), 1), none);
  }

  lemma {:induction false} WellScopedAppend(ps: seq<Stmt>, p: Stmt, active: set<string>)
    requires WellScoped(ps, active) && WellScopedStmt(p, active)
    ensures WellScoped(ps + [p], active)
    decreases |ps|
  {
    if ps != [] {
      assert (ps + [p])[1..] == ps[1..] + [p];
      WellScopedAppend(ps[1..], p, active);
    }
  }

  lemma {:induction false} RunAppend(ps: seq<Stmt>, p: Stmt, env: Scope, ids: seq<PlayerID>, m: Store)
    ensures var r := InterpAll(ps, env, ids, m);
      InterpAll(ps + [p], env, ids, m) == if r.outcome == Success then Interp(p, env, ids, r.store) else r
    decreases |ps|
  {
    if ps != [] {
      assert (ps + [p])[1..] == ps[1..] + [p];
      RunAppend(ps[1..], p, env, ids, Interp(ps[0], env, ids, m).store);
    } else {
      assert ps + [p] == [p] && [p][1..] == [];
    }
  }

  // An Add to a global that does not exist, after a game.
  lemma MissingFailsLast(ps: seq<Stmt>, x: string, s: Snapshot)
    requires WellScoped(ps, {}) && WellScoped(ps + [Add(ToGlobal(x), 1)], {}) && s.scope == map[]
    requires Global(x) !in CellsOf(s)
    ensures var outcome := RunGame(SpellAll(ps), s).outcome;
      RunGame(SpellAll(ps + [Add(ToGlobal(x), 1)]), s).outcome == if outcome == Success then Failure else outcome
  {
    var ids, m := PlayerIDs(s.order), CellsOf(s);
    CompileThenRun(ps, s);
    CompileThenRun(ps + [Add(ToGlobal(x), 1)], s);
    RunAppend(ps, Add(ToGlobal(x), 1), map[], ids, m);
    AllAsTried(ps, map[], ids, m);
  }
}
