/** Playing a game: parse its rules, set up the state for the connected users, run the rules
    until one fails (src/GameServer/GameServer.cpp, the execute command). */
module Games {
  import opened Names
  import opened GameStates
  import opened GameRules
  import opened RuleParsers
  import opened Lexical
  import opened ClosedForm
  import opened Guarantees
  import opened Orders
  import opened Trials
  import opened Networking

  // A state as the constructor of GameState leaves it.
  ghost predicate Initial(s: Snapshot, variables: VariableMap, ids: seq<PlayerID>, perPlayer: VariableMap) {
    && s.Valid() && s.scope == map[] && s.globals == variables
    && (forall id: PlayerID :: KeyOf(id) in s.players <==> id in ids)
    && (forall k :: k in s.players ==> s.players[k] == perPlayer)
  }

  // ---------- the check against the schema of a game ----------

  // The target is a declared variable.
  predicate InSchema(t: Target, globals: set<string>, fields: set<string>, ids: seq<PlayerID>) {
    match t
    case ToGlobal(x) => x in globals
    case ToElement(_, x) => x in fields
    case ToPlayer(id, x) => id in ids && x in fields
  }

  // Every Add names a declared variable, apart from those under a foreach over no players.
  predicate SchemaChecks(ps: seq<Stmt>, globals: set<string>, fields: set<string>, ids: seq<PlayerID>) {
    ps == [] || (StmtSchemaChecks(ps[0], globals, fields, ids) && SchemaChecks(ps[1..], globals, fields, ids))
  }

  predicate StmtSchemaChecks(p: Stmt, globals: set<string>, fields: set<string>, ids: seq<PlayerID>) {
    match p
    case Add(t, _) => InSchema(t, globals, fields, ids)
    case Message(_) => true
    case ForEach(_, body) => ids == [] || SchemaChecks(body, globals, fields, ids)
  }

  lemma InitialCells(s: Snapshot, variables: VariableMap, ids: seq<PlayerID>, perPlayer: VariableMap)
    requires Initial(s, variables, ids, perPlayer)
    ensures forall x :: Global(x) in CellsOf(s) <==> x in variables
    ensures forall id: PlayerID, x :: Player(id, x) in CellsOf(s) <==> id in ids && x in perPlayer
    ensures forall id :: id in PlayerIDs(s.order) <==> id in ids
    ensures PlayerIDs(s.order) == [] <==> ids == []
  {
    CellsRead(s);
    PlayerIDsEnumerate(s);
    if ids != [] {
      assert ids[0] in ids;
    }
    if PlayerIDs(s.order) != [] {
      assert PlayerIDs(s.order)[0] in PlayerIDs(s.order);
    }
  }

  lemma {:induction false} ChecksAreSchemaChecks(ps: seq<Stmt>, active: set<string>, s: Snapshot, variables: VariableMap,
                                                 ids: seq<PlayerID>, perPlayer: VariableMap)
    requires Initial(s, variables, ids, perPlayer) && WellScoped(ps, active) && (ids == [] ==> active == {})
    ensures Checks(ps, map[], PlayerIDs(s.order), CellsOf(s).Keys) <==>
            SchemaChecks(ps, variables.Keys, perPlayer.Keys, ids)
    decreases ps
  {
    if ps != [] {
      ChecksAreSchemaChecks(ps[1..], active, s, variables, ids, perPlayer);
      InitialCells(s, variables, ids, perPlayer);
      match ps[0] {
        case Add(t, _) => ExistsInSchema(t, s, variables, ids, perPlayer);
        case Message(_) =>
        case ForEach(e, body) =>
          if ids != [] {
            ChecksAreSchemaChecks(body, active + {e}, s, variables, ids, perPlayer);
          }
      }
    }
  }

  lemma ExistsInSchema(t: Target, s: Snapshot, variables: VariableMap, ids: seq<PlayerID>, perPlayer: VariableMap)
    requires Initial(s, variables, ids, perPlayer) && (t.ToElement? ==> ids != [])
    ensures Exists(t, map[], PlayerIDs(s.order), CellsOf(s).Keys) <==>
            StmtSchemaChecks(Add(t, 0), variables.Keys, perPlayer.Keys, ids)
  {
    InitialCells(s, variables, ids, perPlayer);
    if t.ToElement? {
      assert ids[0] in ids;
    }
  }

  // The variables, as cells, that a game starts with.
  predicate Declared(c: Location, variables: VariableMap, ids: seq<PlayerID>, perPlayer: VariableMap) {
    match c
    case Global(x) => x in variables
    case Player(id, x) => id in ids && x in perPlayer
  }

  function InitialValue(c: Location, variables: VariableMap, perPlayer: VariableMap): int {
    match c
    case Global(x) => if x in variables then variables[x] else 0
    case Player(_, x) => if x in perPlayer then perPlayer[x] else 0
  }

  lemma CellsAreDeclared(s: Snapshot, variables: VariableMap, ids: seq<PlayerID>, perPlayer: VariableMap)
    requires Initial(s, variables, ids, perPlayer)
    ensures forall c :: c in CellsOf(s) <==> Declared(c, variables, ids, perPlayer)
    ensures forall c :: c in CellsOf(s) ==> CellsOf(s)[c] == InitialValue(c, variables, perPlayer)
  {
    InitialCells(s, variables, ids, perPlayer);
    CellsRead(s);
    forall c ensures c in CellsOf(s) <==> Declared(c, variables, ids, perPlayer) {
      if c.Global? {
        assert Global(c.name) in CellsOf(s) <==> c.name in variables;
      } else {
        assert Player(c.id, c.field) in CellsOf(s) <==> c.id in ids && c.field in perPlayer;
      }
    }
  }

  // Short of an overflow, a game succeeds exactly when it checks against its declared variables.
  lemma GameSucceedsIffSchemaChecks(ps: seq<Stmt>, s: Snapshot, variables: VariableMap, ids: seq<PlayerID>,
                                    perPlayer: VariableMap)
    requires WellScoped(ps, {}) && Initial(s, variables, ids, perPlayer)
    ensures var outcome := RunGame(SpellAll(ps), s).outcome;
      outcome != Overflow ==>
        (outcome == Success <==> SchemaChecks(ps, variables.Keys, perPlayer.Keys, ids))
  {
    GameSucceedsIffChecks(ps, s);
    ChecksAreSchemaChecks(ps, {}, s, variables, ids, perPlayer);
  }

  // ---------- playing ----------

  function UserIDs(users: seq<User>): (ids: seq<PlayerID>)
    ensures |ids| == |users| && forall i :: 0 <= i < |users| ==> ids[i] == users[i].userConnection.id
  {
    seq(|users|, i requires 0 <= i < |users| => users[i].userConnection.id)
  }

  // The players are the connected users, by the decimals of their connections.
  ghost predicate PlayedBy(players: set<PlayerKey>, users: seq<User>) {
    forall k :: k in players <==> exists i :: 0 <= i < |users| && ToString(users[i].userConnection.id) == k
  }

  // A game that has a result from every initial state ends as its run from one of them, the
  // order of the players being any.
  method PlayGame(game: seq<RuleJson>, variables: VariableMap, perPlayer: VariableMap, users: seq<User>)
    returns (gameState: GameState, result: RuleExecutionResult, ghost start: Snapshot)
    requires forall s :: Initial(s, variables, UserIDs(users), perPlayer) ==> Defined(RunGame(game, s))
    ensures fresh(gameState) && gameState.Valid()
    ensures Initial(start, variables, UserIDs(users), perPlayer)
    ensures gameState.State() == RunGame(game, start).state && result == ResultOf(RunGame(game, start).outcome)
    ensures PlayedBy(gameState.playerVariableMaps.Keys, users)
  {
    var parser := new RuleParser();
    var topLevelRules := parser.ParseRules(game);
    var playerIDs := [];
    for i := 0 to |users|
      invariant playerIDs == UserIDs(users)[..i]
    {
      playerIDs := playerIDs + [users[i].userConnection.id];
    }
    assert playerIDs == UserIDs(users);
    gameState := new GameState(variables, playerIDs, perPlayer);
    start := gameState.State();
    StartIsInitial(start, variables, playerIDs, perPlayer);
    ExecAllKeepsKeys(topLevelRules, start);
    InitialPlayers(start, variables, users, perPlayer);
    result := ExecuteRules(topLevelRules, gameState);
  }

  lemma InitialPlayers(s: Snapshot, variables: VariableMap, users: seq<User>, perPlayer: VariableMap)
    requires Initial(s, variables, UserIDs(users), perPlayer)
    ensures PlayedBy(s.players.Keys, users)
  {
    var ids := UserIDs(users);
    forall k ensures k in s.players <==> exists i :: 0 <= i < |users| && ToString(users[i].userConnection.id) == k {
      if k in s.players {
        assert KeyOf(IdOf(k)) == k;
        var i :| 0 <= i < |ids| && ids[i] == IdOf(k);
        assert ToString(users[i].userConnection.id) == k;
      }
      if i :| 0 <= i < |users| && ToString(users[i].userConnection.id) == k {
        assert ids[i] in ids && KeyOf(ids[i]) == k;
      }
    }
  }

  // Every declared variable ends as its initial value plus its net effect.
  ghost predicate HasAdded(ps: seq<Stmt>, variables: VariableMap, ids: seq<PlayerID>, perPlayer: VariableMap, end: Snapshot) {
    forall c :: Declared(c, variables, ids, perPlayer) ==>
      end.Read(c).Some? && end.Read(c).value == InitialValue(c, variables, perPlayer) + NetEffect(ps, ids, c)
  }

  // A well-scoped game that has a result succeeds exactly when it checks against its declared
  // variables, and then every variable has its net effect added.
  lemma GameThatEnds(ps: seq<Stmt>, s: Snapshot, variables: VariableMap, ids: seq<PlayerID>, perPlayer: VariableMap)
    requires WellScoped(ps, {}) && Initial(s, variables, ids, perPlayer) && Defined(RunGame(SpellAll(ps), s))
    ensures var run := RunGame(SpellAll(ps), s);
      && (run.outcome == Success <==> SchemaChecks(ps, variables.Keys, perPlayer.Keys, ids))
      && (run.outcome == Success ==> HasAdded(ps, variables, PlayerIDs(s.order), perPlayer, run.state))
  {
    GameSucceedsIffSchemaChecks(ps, s, variables, ids, perPlayer);
    var run := RunGame(SpellAll(ps), s);
    if run.outcome == Success {
      GameAddsNetEffect(ps, s);
      CellsRead(run.state);
      CellsAreDeclared(s, variables, ids, perPlayer);
      InitialCells(s, variables, ids, perPlayer);
      forall c | Declared(c, variables, PlayerIDs(s.order), perPlayer) ensures c in CellsOf(s) {
        assert Declared(c, variables, ids, perPlayer);
      }
    }
  }

  // A well-scoped game with room for what it adds has a result, which is that.
  lemma WellScopedGame(ps: seq<Stmt>, s: Snapshot, variables: VariableMap, ids: seq<PlayerID>, perPlayer: VariableMap)
    requires WellScoped(ps, {}) && Initial(s, variables, ids, perPlayer) && Fits(ps, s)
    ensures var run := RunGame(SpellAll(ps), s);
      && Defined(run)
      && (run.outcome == Success <==> SchemaChecks(ps, variables.Keys, perPlayer.Keys, ids))
      && (run.outcome == Success ==> HasAdded(ps, variables, PlayerIDs(s.order), perPlayer, run.state))
  {
    GameStaysInRange(ps, s);
    GameThatEnds(ps, s, variables, ids, perPlayer);
  }

  lemma StartIsInitial(s: Snapshot, variables: VariableMap, ids: seq<PlayerID>, perPlayer: VariableMap)
    requires s.Valid() && s.scope == map[] && s.globals == variables
    requires forall k :: k in s.players <==> exists j :: 0 <= j < |ids| && KeyOf(ids[j]) == k
    requires forall k :: k in s.players ==> s.players[k] == perPlayer
    ensures Initial(s, variables, ids, perPlayer)
  {
  }

  // ---------- games with a result ----------

  function Schema(globals: set<string>, fields: set<string>, ids: seq<PlayerID>): Target -> bool {
    t => InSchema(t, globals, fields, ids)
  }

  // The amounts a game tries on a cell whose player is the j-th connected one.
  function TriedAt(ps: seq<Stmt>, variables: VariableMap, ids: seq<PlayerID>, perPlayer: VariableMap, j: nat, c: Location)
    : seq<int>
  {
    ForeseenAll(ps, Schema(variables.Keys, perPlayer.Keys, ids), |ids|, j, {}, c).amounts
  }

  // Every declared variable, taken by itself, stays in the range of int under the amounts tried
  // on it, with its player in every position.
  ghost predicate StaysInRange(ps: seq<Stmt>, variables: VariableMap, ids: seq<PlayerID>, perPlayer: VariableMap) {
    forall c, j: nat :: Declared(c, variables, ids, perPlayer) && (if c.Player? then j < |ids| else j == |ids|) ==>
      Steady(InitialValue(c, variables, perPlayer), TriedAt(ps, variables, ids, perPlayer, j, c))
  }

  lemma SchemaTells(s: Snapshot, variables: VariableMap, ids: seq<PlayerID>, perPlayer: VariableMap)
    requires Initial(s, variables, ids, perPlayer)
    ensures Tells(Schema(variables.Keys, perPlayer.Keys, ids), PlayerIDs(s.order), CellsOf(s).Keys, false)
  {
    InitialCells(s, variables, ids, perPlayer);
    var has, xs, keys := Schema(variables.Keys, perPlayer.Keys, ids), PlayerIDs(s.order), CellsOf(s).Keys;
    forall t, env: Scope | Denoted(t, env).Some? && (t.ToElement? ==> env[t.element] in xs)
      ensures has(t) <==> Denoted(t, env).value in keys
    {
      match t
      case ToGlobal(x) =>
      case ToPlayer(id, x) =>
      case ToElement(e, x) => assert env[e] in ids;
    }
  }

  lemma TrialOfInitial(ps: seq<Stmt>, s: Snapshot, variables: VariableMap, ids: seq<PlayerID>, perPlayer: VariableMap,
                       c: Location)
    requires WellScoped(ps, {}) && Initial(s, variables, ids, perPlayer) && NoDuplicates(ids)
    ensures |s.order| == |ids|
    ensures GameTrial(ps, s, c).amounts ==
            TriedAt(ps, variables, ids, perPlayer, PositionOf(PlayerIDs(s.order), c), c)
  {
    var none: Scope := map[];
    assert none.Keys == {} && Own(none, c) == {};
    InitialCells(s, variables, ids, perPlayer);
    PlayerIDsEnumerate(s);
    SameMembersSameLength(PlayerIDs(s.order), ids);
    SchemaTells(s, variables, ids, perPlayer);
    AllForeseen(ps, Schema(variables.Keys, perPlayer.Keys, ids), none, PlayerIDs(s.order), CellsOf(s).Keys, c);
  }

  // The initial state with the players in the order of `ids`.
  function InitialState(variables: VariableMap, ids: seq<PlayerID>, perPlayer: VariableMap): Snapshot {
    var keys := seq(|ids|, i requires 0 <= i < |ids| => KeyOf(ids[i]));
    Snapshot(variables, map k | k in keys :: perPlayer, keys, map[])
  }

  lemma InitialStateIsInitial(variables: VariableMap, ids: seq<PlayerID>, perPlayer: VariableMap)
    requires NoDuplicates(ids)
    ensures Initial(InitialState(variables, ids, perPlayer), variables, ids, perPlayer)
    ensures PlayerIDs(InitialState(variables, ids, perPlayer).order) == ids
  {
    var keys := InitialState(variables, ids, perPlayer).order;
    assert forall i :: 0 <= i < |ids| ==> IdOf(keys[i]) == ids[i];
    forall id: PlayerID ensures KeyOf(id) in keys <==> id in ids {
      assert IdOf(KeyOf(id)) == id;
      if id in ids {
        var i :| 0 <= i < |ids| && ids[i] == id;
        assert keys[i] == KeyOf(id);
      }
    }
  }

  // A game has a result from each of its initial states, in every order of the players, exactly
  // when its declared variables stay in range.
  lemma EveryInitialStateHasResult(ps: seq<Stmt>, variables: VariableMap, ids: seq<PlayerID>, perPlayer: VariableMap)
    requires WellScoped(ps, {}) && NoDuplicates(ids)
    ensures (forall s :: Initial(s, variables, ids, perPlayer) ==> Defined(RunGame(SpellAll(ps), s))) <==>
            StaysInRange(ps, variables, ids, perPlayer)
  {
    if StaysInRange(ps, variables, ids, perPlayer) {
      forall s | Initial(s, variables, ids, perPlayer) ensures Defined(RunGame(SpellAll(ps), s)) {
        InRangeThenDefined(ps, s, variables, ids, perPlayer);
      }
    }
    if forall s :: Initial(s, variables, ids, perPlayer) ==> Defined(RunGame(SpellAll(ps), s)) {
      forall c, j: nat | Declared(c, variables, ids, perPlayer) && (if c.Player? then j < |ids| else j == |ids|)
        ensures Steady(InitialValue(c, variables, perPlayer), TriedAt(ps, variables, ids, perPlayer, j, c))
      {
        DefinedThenSteady(ps, variables, ids, perPlayer, c, j);
      }
    }
  }

  lemma InRangeThenDefined(ps: seq<Stmt>, s: Snapshot, variables: VariableMap, ids: seq<PlayerID>, perPlayer: VariableMap)
    requires WellScoped(ps, {}) && Initial(s, variables, ids, perPlayer) && NoDuplicates(ids)
    requires StaysInRange(ps, variables, ids, perPlayer)
    ensures Defined(RunGame(SpellAll(ps), s))
  {
    CellsAreDeclared(s, variables, ids, perPlayer);
    forall c | c in CellsOf(s) ensures Steady(CellsOf(s)[c], GameTrial(ps, s, c).amounts) {
      TrialOfInitial(ps, s, variables, ids, perPlayer, c);
      PositionOfCell(s, c);
    }
    GameNeverStuck(ps, s);
    GameOverflowsExactly(ps, s);
  }

  lemma DefinedThenSteady(ps: seq<Stmt>, variables: VariableMap, ids: seq<PlayerID>, perPlayer: VariableMap,
                          c: Location, j: nat)
    requires WellScoped(ps, {}) && NoDuplicates(ids) && Declared(c, variables, ids, perPlayer)
    requires if c.Player? then j < |ids| else j == |ids|
    requires forall s :: Initial(s, variables, ids, perPlayer) ==> Defined(RunGame(SpellAll(ps), s))
    ensures Steady(InitialValue(c, variables, perPlayer), TriedAt(ps, variables, ids, perPlayer, j, c))
  {
    var t := InitialStateWith(variables, ids, perPlayer, c, j);
    CellsAreDeclared(t, variables, ids, perPlayer);
    GameOverflowsExactly(ps, t);
    TrialOfInitial(ps, t, variables, ids, perPlayer, c);
  }

  // Some initial state has the player of the cell in position j.
  lemma InitialStateWith(variables: VariableMap, ids: seq<PlayerID>, perPlayer: VariableMap, c: Location, j: nat)
    returns (t: Snapshot)
    requires NoDuplicates(ids) && Declared(c, variables, ids, perPlayer)
    requires if c.Player? then j < |ids| else j == |ids|
    ensures Initial(t, variables, ids, perPlayer) && PositionOf(PlayerIDs(t.order), c) == j
  {
    var s := InitialState(variables, ids, perPlayer);
    InitialStateIsInitial(variables, ids, perPlayer);
    CellsAreDeclared(s, variables, ids, perPlayer);
    var order := OrderWith(s, c, j);
    t := s.(order := order);
  }

  // ---------- games with room ----------

  // Every declared variable has room for its reach; in terms of the declarations and the
  // connected users only.
  ghost predicate HasRoom(ps: seq<Stmt>, variables: VariableMap, ids: seq<PlayerID>, perPlayer: VariableMap) {
    forall c :: Declared(c, variables, ids, perPlayer) ==>
      Abs(InitialValue(c, variables, perPlayer)) + Reach(ps, ids, c) <= INT_MAX
  }

  // A game with room has room in each of its initial states, whatever the order of the players;
  // and in each only if in all.
  lemma InitialStatesFit(ps: seq<Stmt>, s: Snapshot, variables: VariableMap, ids: seq<PlayerID>, perPlayer: VariableMap)
    requires Initial(s, variables, ids, perPlayer) && NoDuplicates(ids)
    ensures Fits(ps, s) <==> HasRoom(ps, variables, ids, perPlayer)
  {
    CellsAreDeclared(s, variables, ids, perPlayer);
    forall c ensures Reach(ps, PlayerIDs(s.order), c) == Reach(ps, ids, c) {
      SumsInAnyOrder(ps, s, variables, ids, perPlayer, c);
    }
  }

  // Room is enough to stay in range.
  lemma RoomStaysInRange(ps: seq<Stmt>, variables: VariableMap, ids: seq<PlayerID>, perPlayer: VariableMap)
    requires WellScoped(ps, {}) && NoDuplicates(ids) && HasRoom(ps, variables, ids, perPlayer)
    ensures StaysInRange(ps, variables, ids, perPlayer)
  {
    forall s | Initial(s, variables, ids, perPlayer) ensures Defined(RunGame(SpellAll(ps), s)) {
      InitialStatesFit(ps, s, variables, ids, perPlayer);
      GameStaysInRange(ps, s);
    }
    EveryInitialStateHasResult(ps, variables, ids, perPlayer);
  }

  // Every global, and every variable of every connected user, ends as its initial value plus its
  // net effect.
  ghost predicate AddedTo(ps: seq<Stmt>, end: Snapshot, variables: VariableMap, users: seq<User>, perPlayer: VariableMap) {
    var ids := PlayerIDs(end.order);
    && (forall x :: x in variables ==>
          x in end.globals && end.globals[x] == variables[x] + NetEffect(ps, ids, Global(x)))
    && (forall u, x :: u in users && x in perPlayer ==>
          var k := KeyOf(u.userConnection.id);
          k in end.players && x in end.players[k] &&
          end.players[k][x] == perPlayer[x] + NetEffect(ps, ids, Player(u.userConnection.id, x)))
  }

  // A well-scoped game that stays in range, played to the end by users with distinct
  // connections.
  method PlayProgram(ps: seq<Stmt>, variables: VariableMap, perPlayer: VariableMap, users: seq<User>)
    returns (gameState: GameState, result: RuleExecutionResult)
    requires WellScoped(ps, {}) && StaysInRange(ps, variables, UserIDs(users), perPlayer)
    requires forall i, j :: 0 <= i < j < |users| ==> users[i].userConnection != users[j].userConnection
    ensures fresh(gameState) && gameState.Valid()
    ensures PlayedBy(gameState.playerVariableMaps.Keys, users)
    ensures var ids := PlayerIDs(gameState.playerOrder);
      && (result == RuleExecutionResult.SUCCESS <==> SchemaChecks(ps, variables.Keys, perPlayer.Keys, ids))
      && (result == RuleExecutionResult.SUCCESS ==> AddedTo(ps, gameState.State(), variables, users, perPlayer))
  {
    ghost var ids := UserIDs(users);
    EveryInitialStateHasResult(ps, variables, ids, perPlayer);
    ghost var start: Snapshot;
    gameState, result, start := PlayGame(SpellAll(ps), variables, perPlayer, users);
    ProgramPlayed(ps, start, variables, users, perPlayer);
  }

  // The run of a game from an initial state, in terms of the players in that state.
  lemma ProgramPlayed(ps: seq<Stmt>, s: Snapshot, variables: VariableMap, users: seq<User>, perPlayer: VariableMap)
    requires WellScoped(ps, {}) && Initial(s, variables, UserIDs(users), perPlayer) && Defined(RunGame(SpellAll(ps), s))
    ensures var run := RunGame(SpellAll(ps), s);
      var ids := PlayerIDs(run.state.order);
      && (run.outcome == Success <==> SchemaChecks(ps, variables.Keys, perPlayer.Keys, ids))
      && (run.outcome == Success ==> AddedTo(ps, run.state, variables, users, perPlayer))
  {
    var run, ids := RunGame(SpellAll(ps), s), UserIDs(users);
    GameThatEnds(ps, s, variables, ids, perPlayer);
    RunKeepsOrder(SpellAll(ps), s);
    CheckInAnyOrder(ps, s, variables, ids, perPlayer);
    if run.outcome == Success {
      AddedToEach(ps, run.state, variables, PlayerIDs(s.order), perPlayer);
      InitialCells(s, variables, ids, perPlayer);
      forall u | u in users ensures u.userConnection.id in PlayerIDs(s.order) {
        var i :| 0 <= i < |users| && users[i] == u;
        assert ids[i] in ids;
      }
    }
  }

  lemma RunKeepsOrder(game: seq<RuleJson>, s: Snapshot)
    ensures RunGame(game, s).state.order == s.order
  {
    ExecAllKeepsOrder(Rules(ParseList(game, map[]).result), s);
  }

  lemma {:induction false} SchemaIgnoresOrder(ps: seq<Stmt>, globals: set<string>, fields: set<string>,
                                              xs: seq<PlayerID>, ys: seq<PlayerID>)
    requires (forall id :: id in xs <==> id in ys) && (xs == [] <==> ys == [])
    ensures SchemaChecks(ps, globals, fields, xs) == SchemaChecks(ps, globals, fields, ys)
    decreases ps
  {
    if ps != [] {
      SchemaIgnoresOrder(ps[1..], globals, fields, xs, ys);
      if ps[0].ForEach? {
        SchemaIgnoresOrder(ps[0].body, globals, fields, xs, ys);
      }
    }
  }

  lemma CheckInAnyOrder(ps: seq<Stmt>, s: Snapshot, variables: VariableMap, ids: seq<PlayerID>, perPlayer: VariableMap)
    requires Initial(s, variables, ids, perPlayer)
    ensures SchemaChecks(ps, variables.Keys, perPlayer.Keys, PlayerIDs(s.order)) ==
            SchemaChecks(ps, variables.Keys, perPlayer.Keys, ids)
  {
    InitialCells(s, variables, ids, perPlayer);
    SchemaIgnoresOrder(ps, variables.Keys, perPlayer.Keys, PlayerIDs(s.order), ids);
  }

  // The same, variable by variable.
  lemma AddedToEach(ps: seq<Stmt>, end: Snapshot, variables: VariableMap, ids: seq<PlayerID>, perPlayer: VariableMap)
    requires HasAdded(ps, variables, ids, perPlayer, end)
    ensures forall x :: x in variables ==>
              x in end.globals && end.globals[x] == variables[x] + NetEffect(ps, ids, Global(x))
    ensures forall id, x :: id in ids && x in perPlayer ==>
              KeyOf(id) in end.players && x in end.players[KeyOf(id)] &&
              end.players[KeyOf(id)][x] == perPlayer[x] + NetEffect(ps, ids, Player(id, x))
  {
    forall x | x in variables
      ensures x in end.globals && end.globals[x] == variables[x] + NetEffect(ps, ids, Global(x))
    {
      assert Declared(Global(x), variables, ids, perPlayer);
    }
    forall id, x | id in ids && x in perPlayer
      ensures KeyOf(id) in end.players && x in end.players[KeyOf(id)] &&
              end.players[KeyOf(id)][x] == perPlayer[x] + NetEffect(ps, ids, Player(id, x))
    {
      assert Declared(Player(id, x), variables, ids, perPlayer);
    }
  }

  // The sums do not depend on the order of the players.
  lemma SumsInAnyOrder(ps: seq<Stmt>, s: Snapshot, variables: VariableMap, ids: seq<PlayerID>, perPlayer: VariableMap, c: Location)
    requires Initial(s, variables, ids, perPlayer) && NoDuplicates(ids)
    ensures Reach(ps, PlayerIDs(s.order), c) == Reach(ps, ids, c)
    ensures NetEffect(ps, PlayerIDs(s.order), c) == NetEffect(ps, ids, c)
  {
    InitialCells(s, variables, ids, perPlayer);
    PlayerIDsEnumerate(s);
    SameMembersSameLength(PlayerIDs(s.order), ids);
    TotalIgnoresOrder(ps, Magnitude(), map[], PlayerIDs(s.order), ids, 0, c);
    TotalIgnoresOrder(ps, Amount(), map[], PlayerIDs(s.order), ids, 0, c);
  }

  lemma TwoPlayersInitial(order: seq<PlayerKey>)
    requires TwoPlayers(order).Valid()
    ensures Initial(TwoPlayers(order), map[], [1, 2], ZERO)
  {
    forall id: PlayerID ensures KeyOf(id) in TwoPlayers(order).players <==> id in [1, 2] {
      assert IdOf(KeyOf(id)) == id && IdOf(KeyOf(1)) == 1 && IdOf(KeyOf(2)) == 2;
    }
  }

  // Whether a game overflows can depend on the order in which its players are enumerated.
  lemma OrderDecidesGame()
    ensures exists s, t ::
      && Initial(s, map[], [1, 2], ZERO) && RunGame(SpellAll(SeeSaw()), s).outcome == Overflow
      && Initial(t, map[], [1, 2], ZERO) && RunGame(SpellAll(SeeSaw()), t).outcome == Success
  {
    OrderDecidesOverflow();
    var s, t := TwoPlayers([KeyOf(1), KeyOf(2)]), TwoPlayers([KeyOf(2), KeyOf(1)]);
    TwoPlayersInitial(s.order);
    TwoPlayersInitial(t.order);
  }
}
