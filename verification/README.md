# Social gaming: a model of the game-rule language and of the server sessions

`dafny verify dfyconfig.toml` checks the whole project.

## The game-rule language

A game file holds rules. `RuleParser` compiles them; inside a `foreach` it rewrites every dotted
component equal to the element name into `players.$element`, with a map of aliases that grows and
shrinks around the recursive parse. At run time `ForEachRule` binds `$element` to a player id in a
second scope map, `GameState` turns `players.$element.field` into `players.<decimal id>.field`,
cuts the id out of the string again and reads or writes a map keyed by decimal strings.

- `Names.dfy`: splitting and joining dotted names, `to_string` and `stoul` of player ids.
- `GameStates.dfy`: class `GameState` with its string loops, proved against component-wise
  functions; `Snapshot`, the value of a game state; the laws of the store.
- `GameRules.dfy`: the rules and the methods that execute them, proved against `Exec`, `ExecAll`
  and `ExecForEach`.
- `ScopeBalance.dfy`: what any run, of any rule tree, leaves in the active-scope map.
- `RuleParser.dfy`: class `RuleParser`, proved against `ParseList`; the aliases parsing leaves.
- `Lexical.dfy`: a lexically scoped interpreter over the cells of the store that has no names to
  split or join, the spelling of its programs in a game file, and the main theorem
  `CompileThenRun`: parsing and running the spelled program gives the result and the cells of the
  interpreter, after a failure too.
- `Scoping.dfy`: which names compiling changes, that spelled names are unambiguous, and two ways
  in which programs outside the well-scoped ones get stuck.
- `ClosedForm.dfy`: what a successful game adds to each variable.
- `Traces.dfy`: the states a run passes, each with the cells of the lexical run at that step.
- `Trials.dfy`: the amounts a run tries on one variable, values aside; with them, exactly when a game
  overflows, when it succeeds, and what it leaves, after a failure too.
- `Guarantees.dfy`: a bound at every step, no overflow, the exact static check for success.
- `Orders.dfy`: the order in which the players are enumerated: when it decides nothing, and exactly
  when a game succeeds, in one order and in all.
- `LoopRules.dfy`: the loop rule, with total correctness for compiled bodies.
- `Games.dfy`: a game from its rules and the connected users to the final state; exactly when it has
  a result in every order of the players, and how it is then played to the end.

A run has four outcomes. `Success` and `Failure` are those of `executeRule`. `Overflow` stands for
a signed addition that leaves the range of `int`, and `BadName` for a name on which
`extractPlayerVariableInfo` is undefined or throws; the source has no result there. The methods
require a run with a result; the theorems speak of all four.

A program is *well-scoped* (`WellScoped`) when nested element names are distinct and free of dots,
global names do not contain `players`, field names contain no `$`, and no component of a global
name, of a field name or of a statically named player's name is an element in scope. The last part
is what the compiler needs and no more: a name is compiled to itself exactly when none of its
components is an element in scope (`CompileKeepsExactlyUncaptured`), and an element called like a
player's id makes the game throw (`ElementCapturesPlayerId`).

The iteration order of the unordered map of players is a field of the state, chosen
nondeterministically when players are inserted. It can decide whether a game overflows:
`OrderDecidesGame` has a well-scoped game and two initial states of it that differ in the order
alone, one overflowing and one succeeding; in `OrderDecidesFailure` one overflows and one fails.
`OrderNeverMattersExactly` says when every order has a result, and the same one, whether the game
passes its check or not, and `EveryInitialStateHasResult` says it in terms of the declared variables
and the position of a player. `OrderDoesNotMatter` gives a simpler bound that is enough.

## The server sessions

`Networking.dfy` is a step system: a channel has a queue of texts, the asynchronous writes
outstanding on its websocket and a pending read; the server has the map of connected channels; the
game server has two more lists of the same connections. Completions are nondeterministic events,
and an event that is not possible does not happen, so every sequence of events is a run.
`SessionServer.dfy` has the classes `Channel`, `Server` and `GameServer`, whose methods and
completion callbacks are each proved to do one step. `ServerRuns.dfy` proves what holds in every
reachable state. What was routed, delivered, read and returned is read off the events of a run, not
stored in the state.

## Where comments and code differ

The comment of `processScopedVariables` (src/JsonParser/RuleParser.cpp:27-32) says that
`XYZ.player.input` becomes `XYZ.players.$player.input`. It does, but no such name can be used:
`extractPlayerVariableInfo` looks for an id right after the first dot (`QualifiedElementIsBad`).
With two or more components before the element the name may be usable, and then it is a field of the
player in its second component: `a.7.player.input` becomes `a.7.players.$player.input`, field
`players.<id>.input` of player 7 (`QualifiedElementOfPlayer`). `LongQualifiedElement` says exactly
when.

## Model

| member | source | states |
|---|---|---|
| Names.JoinSplit | src/JsonParser/RuleParser.cpp:34-54 | joining the components the loop cuts out gives the name back, with leading, trailing and doubled dots |
| Names.SplitJoin | src/JsonParser/RuleParser.cpp:34-54 | splitting a joined list of dot-free components gives the list back |
| Names.StoulToString | src/GameState/GameState.cpp:308 | `stoul` undoes `to_string` on every player id |
| Names.ToStringInjective | src/GameState/GameState.cpp:43 | different ids have different keys |
| Names.StoulExactly | src/GameState/GameState.cpp:308 | `stoul` on every string: blanks, at most one sign, digits and other text; it throws without digits and out of range, and negates modulo 2^64 after a minus sign |
| Names.DigitsInOrder | src/GameState/GameState.cpp:43 | decimals have the most significant digit first |
| GameStates.EvalPrefix | src/GameState/GameState.cpp:240-244 | text before the first `$` is copied, whatever dots it has |
| GameStates.EvalVariable | src/GameState/GameState.cpp:256-278 | a component `$x` becomes the decimal of the id bound to x, and the name is evaluable only if x is bound |
| GameStates.ElementNameEvaluates | src/GameState/GameState.cpp:240-282 | `players.$p.x` evaluates to `players.7.x` when p stands for 7 |
| GameStates.UnboundHasNoLocation | src/GameState/GameState.cpp:264-267 | a per-player name with an unbound `$` name has no location: the empty string it evaluates to has no player id |
| GameStates.PlayerIDsEnumerate | src/GameState/GameState.cpp:90-99 | the ids listed are those of the stored players, each once |
| GameStates.WriteFrame | src/GameState/GameState.cpp:158-168 | a write is read back at its cell, changes no other cell and keeps every key |
| GameStates.SameCell | src/GameState/GameState.cpp:48-87 | two names of existing variables share a cell exactly when they denote the same location |
| GameStates.LocatePlayer | src/GameState/GameState.cpp:295-319 | `players.m.f` denotes field f of the player whose decimal m evaluates to |
| GameStates.LocatedExactly | src/GameState/GameState.cpp:295-319 | a per-player name of at least three components has a location exactly when every `$` name is bound and the second component evaluates to a number `stoul` accepts; the rest is the field |
| GameStates.ShortNameHasNoLocation | src/GameState/GameState.cpp:305-316 | a per-player name of one or two components has no location, whatever is bound |
| GameStates.RuntimeNameMeetsStaticName | src/GameState/GameState.cpp:57-63 | `players.$p.x` and `players.7.y` denote one cell exactly when p stands for 7 and x is y |
| GameStates.GameState.constructor | src/GameState/GameState.cpp:27-45 | one map of initial variables per distinct id, duplicates collapsed, in any iteration order |
| GameStates.GameState.InsertPlayer | src/GameState/GameState.cpp:42-44 | an insertion keeps an entry already there and may put a new key anywhere in the order |
| GameStates.GameState.GetVariable | src/GameState/GameState.cpp:145-155 | the value of a global variable, or none |
| GameStates.GameState.SetVariable | src/GameState/GameState.cpp:158-168 | changes an existing global variable only; fails, changing nothing, for a missing one |
| GameStates.GameState.GetPlayerVariable | src/GameState/GameState.cpp:171-188 | the value of a player's variable, or none |
| GameStates.GameState.SetPlayerVariable | src/GameState/GameState.cpp:191-207 | changes an existing variable of an existing player only; fails, changing nothing, otherwise |
| GameStates.GameState.SetActiveScopeVariable | src/GameState/GameState.cpp:103-112 | binds a name not yet in scope; fails, changing nothing, otherwise |
| GameStates.GameState.UnsetActiveScopeVariable | src/GameState/GameState.cpp:115-124 | unbinds a name in scope; fails, changing nothing, otherwise |
| GameStates.GameState.GetActiveScopeVariable | src/GameState/GameState.cpp:127-138 | the id bound to a name, or none |
| GameStates.GameState.GetPlayerIDs | src/GameState/GameState.cpp:90-99 | the ids of the players in iteration order |
| GameStates.GameState.ParseRuntimeVariables | src/GameState/GameState.cpp:222-283 | the iterator loop is the component-wise evaluation when every `$` name is bound, the empty string otherwise, and ends |
| GameStates.ExtractPlayerVariableInfo | src/GameState/GameState.cpp:295-319 | the id between the first two dots and the rest of the name |
| GameStates.GameState.GetValue | src/GameState/GameState.cpp:48-66 | reads the cell the raw name denotes under the active scope |
| GameStates.GameState.SetValue | src/GameState/GameState.cpp:69-87 | writes that cell and no other, exactly when it exists |
| GameRules.ExecuteAddRule | src/GameRules/GameRules.cpp:20-35 | the cell the target denotes holds its old value plus the amount and nothing else changes; fails, changing nothing, exactly when there is no such cell |
| GameRules.ExecuteGlobalMessageRule | src/GameRules/GameRules.cpp:47-52 | always succeeds |
| GameRules.ExecuteForEachRule | src/GameRules/GameRules.cpp:147-177 | result and final state, with the bindings and effects a failure leaves |
| GameRules.ExecuteInputTextRule | src/GameRules/GameRules.cpp:104-133 | stores 123456789 in the result variable when both it and the target exist, changes nothing otherwise, and fails either way |
| GameRules.ExecuteRule | src/GameRules/include/GameRules.h:27-30 | result and final state of any rule the parser builds |
| GameRules.ExecuteRules | src/GameRules/GameRules.cpp:162-168 | a list of rules runs in order and stops at the first failure |
| GameRules.ExecAllKeepsKeys | src/GameRules/GameRules.cpp:147-177 | no run changes the set of variables, of players, of any player's variables, or the order of players |
| ScopeBalance.AllRestoreScope | src/GameRules/GameRules.cpp:156-174 | a successful run leaves the active-scope map as it was |
| ScopeBalance.UnsetNeverFails | src/GameRules/GameRules.cpp:170-173 | after a successful body the element is still bound, so unsetting it cannot fail |
| ScopeBalance.FailureLeavesPath | src/GameRules/GameRules.cpp:158-168 | a run fails exactly when it stops at a rule of the tree that fails itself, all iterations and rules before it having succeeded; the scope is then the initial one plus exactly the bindings of the foreachs around that rule |
| ScopeBalance.GameFailureLeavesPath | src/GameServer/GameServer.cpp:162-175 | the same for the rules of a game |
| ScopeBalance.StopIsUnique | src/GameRules/GameRules.cpp:158-168 | there is only one such rule and iteration |
| ScopeBalance.SuccessNestsDistinctNames | src/GameState/GameState.cpp:104-108 | with a player, a program that nests an element name inside itself, or reuses one in scope, never succeeds |
| RuleParsers.RuleParser.ProcessScopedVariables | src/JsonParser/RuleParser.cpp:25-55 | the iterator loop replaces every component that has an alias, and keeps the empty name |
| RuleParsers.RuleParser.ParseAddRule | src/JsonParser/RuleParser.cpp:111-134 | an add rule with its target compiled under the active aliases |
| RuleParsers.RuleParser.ParseGlobalMessageRule | src/JsonParser/RuleParser.cpp:136-156 | a message rule with its text |
| RuleParsers.RuleParser.ParseInputTextRule | src/JsonParser/RuleParser.cpp:205-230 | an input-text rule with target and result variable compiled under the active aliases |
| RuleParsers.RuleParser.ParseForEachRule | src/JsonParser/RuleParser.cpp:158-201 | rule and aliases after a foreach: null for a list other than players, otherwise its body parsed with the element active, which is inactive afterwards |
| RuleParsers.RuleParser.ParseRules | src/JsonParser/RuleParser.cpp:62-105 | rules and aliases after a list: empty as soon as one rule fails to parse |
| RuleParsers.ListParses | src/JsonParser/RuleParser.cpp:71-101 | a list parses, to as many rules, exactly when each is an add, a message, an input-text or a foreach over players |
| RuleParsers.ParsedAt | src/JsonParser/RuleParser.cpp:71-101 | in a list that parses, each rule at its index: kind, compiled names, value, prompt and text, under the aliases without the elements entered before it |
| RuleParsers.UnparsedChildEmptiesBody | src/JsonParser/RuleParser.cpp:189-191 | a foreach whose child fails to parse is still built, with an empty body |
| RuleParsers.ParseScopeLaw | src/JsonParser/RuleParser.cpp:187-194 | afterwards exactly the elements of the foreach rules entered are gone from the aliases, whether or not child rules failed |
| RuleParsers.ParseKeepsAliases | src/JsonParser/RuleParser.cpp:187-194 | the aliases are unchanged exactly when none of those elements was active before |
| Lexical.CompileTarget | src/JsonParser/RuleParser.cpp:25-55 | a well-scoped target compiles to its runtime name |
| Lexical.ParseCompiles | src/JsonParser/RuleParser.cpp:62-201 | a well-scoped program parses completely, rule by rule, and leaves the aliases as they were |
| Lexical.TargetLocated | src/GameState/GameState.cpp:222-319 | the compiled name denotes the cell the target means: all its `$` names are bound and a decimal id stands between two dots |
| Lexical.EachAgrees | src/GameRules/GameRules.cpp:156-174 | the remaining iterations of a compiled foreach do what the lexical loop does |
| Lexical.CompileThenRun | src/GameServer/GameServer.cpp:162-175 | for every well-scoped program, initial state and player order: same outcome, same globals and per-player values as the lexical interpreter, partial effects included, and never a bad name |
| Lexical.GameNeverStuck | src/GameState/GameState.cpp:264-319 | a compiled game never meets an unbound `$` name or a per-player name without a decimal id |
| Scoping.CompileKeepsExactlyUncaptured | src/JsonParser/RuleParser.cpp:43-47 | a name compiles to itself exactly when no component of it is an element in scope |
| Scoping.SpellingIsUnambiguous | src/JsonParser/RuleParser.cpp:179-187 | two well-scoped targets spelled alike are the same |
| Scoping.QualifiedElementIsBad | src/JsonParser/RuleParser.cpp:27-32 | a name with one component before an element's compiles to a name without a location |
| Scoping.LongQualifiedElement | src/JsonParser/RuleParser.cpp:27-32 | with more components before the element, it compiles to a name that has a location exactly when all its `$` names are bound and the second component evaluates to a number; it is then a field of that player |
| Scoping.QualifiedElementOfPlayer | src/JsonParser/RuleParser.cpp:27-32 | `a.7.player.input` compiles to a usable name: field `players.<id>.input` of player 7, with the id the element stands for |
| Scoping.ElementCapturesPlayerId | src/JsonParser/RuleParser.cpp:38-47 | with any player, a foreach whose element is called like the id of a player it names gets stuck |
| Scoping.AskingAnElement | src/JsonParser/RuleParser.cpp:205-230 | an input-text rule to an element e for `e.x` has target `players.$e` and result variable `players.$e.x`, anywhere in a list that parses |
| Scoping.AskingPlayersIsBad | src/GameState/GameState.cpp:305-316 | with any player, a foreach that asks each player so gets stuck: its target has no field to cut out |
| ClosedForm.SumOfTotals | src/GameRules/GameRules.cpp:156-174 | one more foreach around a body sums the body's effect over the players, in closed form |
| ClosedForm.GameAddsNetEffect | src/GameRules/GameRules.cpp:20-35 | a successful game ends with every variable at its initial value plus its net effect: n^k times v for an Add of v under k foreachs to a global or named player, n^(k-1) times v for every player when it goes through an element |
| Traces.GamePassesVisited | src/GameRules/GameRules.cpp:147-177 | the states the compiled run passes have, one by one, the cells the lexical interpreter visits |
| Trials.GameOverflowsExactly | src/GameRules/GameRules.cpp:20-35 | any well-scoped game overflows exactly when some variable, taken alone, leaves the range of int under the amounts tried on it in turn; otherwise it succeeds exactly when it never misses a variable, and every variable ends with the amounts tried on it added, after a failure too |
| Traces.PassesEveryRule | src/GameRules/GameRules.cpp:162-168 | the states a list passes include those of every rule the run comes to |
| Traces.PassesEveryIteration | src/GameRules/GameRules.cpp:156-174 | the states a foreach passes include those of every iteration the run comes to |
| Guarantees.GameStaysNear | src/GameRules/GameRules.cpp:27 | in every state the compiled run passes, however the game ends, each variable is within its initial magnitude plus the weighted sum of magnitudes added to it |
| Guarantees.GameStaysInRange | src/GameRules/GameRules.cpp:27 | if that bound fits an int for every variable, no addition overflows |
| Guarantees.GameSucceedsIffChecks | src/GameRules/GameRules.cpp:20-35 | short of overflow a game succeeds exactly when each Add, apart from those under a foreach over no players, names an existing variable of the initial state |
| Orders.OrderNeverMattersExactly | src/GameState/GameState.cpp:90-99 | every order of the players has a result, the same one, with the same variables on success, exactly when in every order each variable, taken alone, stays in range under the amounts tried on it; for games that pass the check and games that do not |
| Orders.OrderDoesNotMatter | src/GameState/GameState.cpp:90-99 | with room for what a game adds, every enumeration order has a result, the same one, and on success leaves the same variables |
| Orders.SameResultShortOfOverflow | src/GameState/GameState.cpp:90-99 | without room: two orders that both do not overflow give the same result, and on success the same variables |
| Orders.GameSucceedsExactly | src/GameRules/GameRules.cpp:20-35 | a game succeeds exactly when it checks and each variable, taken alone, stays in range under the amounts added to it in turn |
| Orders.EveryOrderSucceedsExactly | src/GameState/GameState.cpp:90-99 | a game succeeds in every order exactly when it checks and each variable stays in range with its player in any position |
| Orders.OrderDecidesOverflow | src/GameRules/GameRules.cpp:27 | a well-scoped game that overflows with player 1 first and succeeds with player 2 first |
| Orders.OrderDecidesFailure | src/GameRules/GameRules.cpp:20-35 | a well-scoped game that fails its check: it overflows with player 1 first and fails with player 2 first |
| Orders.CellsDetermine | src/GameState/include/GameState.h:55-56 | the cells and the player set determine both maps of the state |
| LoopRules.ExecuteLoopRule | src/GameRules/GameRules.cpp:63-80 | fails at once without debug_target; otherwise, for a loop that stops, the state after the iterations it runs, successful exactly when debug_target is then 10 for the first time |
| LoopRules.ExitsAtFirstHit | src/GameRules/GameRules.cpp:69-77 | the loop exits after k iterations exactly when they do not overflow and k is the first with t + k*d = 10 |
| LoopRules.IterationsSucceedExactly | src/GameRules/GameRules.cpp:69-77 | k iterations succeed exactly when in the first and in the last of them every variable, taken alone, stays in range; otherwise one overflows |
| LoopRules.LoopTotalCorrectness | src/GameRules/GameRules.cpp:63-80 | it exits exactly when t is 10 or d divides 10 - t with a quotient that is not negative, and in the first and the last of that many iterations every variable, taken alone, stays in range; it runs that many and changes every variable by that many net effects; it never fails |
| LoopRules.LoopNeverEnds | src/GameRules/GameRules.cpp:69-77 | without such a quotient it goes on after k iterations exactly as long as the first and the last of them stay in range, and has overflowed otherwise |
| LoopRules.LoopOfUncheckedBody | src/GameRules/GameRules.cpp:63-80 | a body that fails its check: the loop exits only if t is 10 at once, and fails, in its first iteration, exactly when t is not 10 and that iteration does not overflow |
| LoopRules.IterationsFit | src/GameRules/GameRules.cpp:69-77 | k iterations do not overflow when every variable has room for k times its reach |
| LoopRules.LoopWithRoomExits | src/GameRules/GameRules.cpp:63-80 | a simpler bound that is enough: with room for the iterations it takes, the loop exits exactly when t is 10 or d divides 10 - t with a quotient that is not negative |
| LoopRules.ExecuteLoopOfProgram | src/GameRules/GameRules.cpp:63-80 | executing a loop that exits, by the exact condition, succeeds with debug_target = 10 and every variable changed by that many net effects |
| LoopRules.CountsFromEightToTen | src/GameRules/GameRules.cpp:69-77 | from 8 by steps of 1 the loop takes two iterations and ends at 10 |
| Games.GameSucceedsIffSchemaChecks | src/GameState/GameState.cpp:27-45 | for the state set up for the players, the check is one on the declared variables: syntactic, apart from which players exist |
| Games.PlayGame | src/GameServer/GameServer.cpp:153-175 | parse, set up for the connected users and run: the players are exactly the decimals of the users' connections, and the outcome and final state are those of the game's run from an initial state, in any order of the players |
| Games.WellScopedGame | src/GameServer/GameServer.cpp:162-175 | a well-scoped game with room for what it adds has a result; it succeeds exactly when the schema check holds, and then every declared variable, global or of a player, has its net effect added |
| Games.InitialStatesFit | src/GameState/GameState.cpp:27-45 | whether there is room in an initial state is decided by the declared variables and the users alone, whatever the order of the players |
| Games.EveryInitialStateHasResult | src/GameState/GameState.cpp:90-99 | a game has a result from every initial state, in every order of the players, exactly when each declared variable, taken alone and with its player in any position, stays in range under the amounts tried on it |
| Games.RoomStaysInRange | src/GameRules/GameRules.cpp:27 | room for the reach of every declared variable is enough for that |
| Games.PlayProgram | src/GameServer/GameServer.cpp:153-175 | a well-scoped game that meets that condition, played by users with distinct connections: success exactly when the schema check holds for them, and then every global and every variable of every user has its net effect added |
| Games.OrderDecidesGame | src/GameState/GameState.cpp:90-99 | one game, two initial states that differ in the order of the players: one overflows, one succeeds |
| SessionServer.GameServer.OnConnect | src/GameServer/GameServer.cpp:51-56 | both lists get the new connection last |
| SessionServer.GameServer.OnDisconnect | src/GameServer/GameServer.cpp:58-63 | the connection leaves both lists |
| SessionServer.GameServer.RemoveDisconnectedUser | src/GameServer/GameServer.cpp:41-49 | the users without those of the connection, whether or not there is one |
| SessionServer.GameServer.BuildOutgoing | src/GameServer/GameServer.cpp:100-106 | one message per client, in order |
| SessionServer.Channel.Send | lib/networking/src/Server.cpp:128-146 | queues a non-empty text and starts a write only when it is the only one |
| SessionServer.Channel.AfterWrite | lib/networking/src/Server.cpp:149-168 | one step: after an error a disconnect, otherwise the next write |
| SessionServer.Channel.AfterRead | lib/networking/src/Server.cpp:171-185 | one step: the message is queued and the next read starts, or a disconnect |
| SessionServer.Server.Accept | lib/networking/src/Server.cpp:105-117 | one step: the channel is registered and reads, or nothing happens |
| SessionServer.Server.RegisterChannel | lib/networking/src/Server.cpp:345-350 | the channel enters the map, and the handler is told |
| SessionServer.Server.Receive | lib/networking/src/Server.cpp:377-382 | returns all waiting messages and leaves none |
| SessionServer.Server.Send | lib/networking/src/Server.cpp:385-393 | one step: each message goes to its channel, if connected |
| SessionServer.Server.Disconnect | lib/networking/src/Server.cpp:396-404 | one step: the handler is told and the channel leaves the map; nothing for an unknown connection |
| ServerRuns.AcceptedRegisters | lib/networking/src/Server.cpp:105-117 | in every reachable state a new connection enters the map and both lists and is read from; a failed handshake changes nothing |
| ServerRuns.WrittenDelivers | lib/networking/src/Server.cpp:158-167 | in every reachable state a write that completes well delivers the front text, takes it off the queue and starts the next |
| ServerRuns.FailedWriteLeaves | lib/networking/src/Server.cpp:150-156 | after a write error the queue stays and nothing is written; a connected channel leaves the server |
| ServerRuns.ReadArrives | lib/networking/src/Server.cpp:175-180 | a read that completes well adds its message, and the next is pending |
| ServerRuns.FailedReadLeaves | lib/networking/src/Server.cpp:181-183 | after a read error none is pending; a connected channel leaves the server |
| ServerRuns.DisconnectLeaves | lib/networking/src/Server.cpp:396-404 | a connected channel is marked, leaves the map and both lists, which keep their order, and the handler is told once; nothing for another connection |
| ServerRuns.SendQueues | lib/networking/src/Server.cpp:385-393 | the non-empty texts to a connected channel are queued in order, and the first waiting one is being written |
| ServerRuns.CompletionsDeliverAll | lib/networking/src/Server.cpp:158-167 | without a write error, as many good completions as texts wait deliver every text routed |
| ServerRuns.ChannelIsFifo | lib/networking/src/Server.cpp:128-168 | in every reachable state the delivered texts followed by the queue are the non-empty texts routed to the channel: a prefix, without loss, duplicate or reordering |
| ServerRuns.WriteDiscipline | lib/networking/src/Server.cpp:128-168 | at most one write is outstanding, for the front of the queue; texts wait with none outstanding exactly after a write error |
| ServerRuns.NothingWrittenAfterError | lib/networking/src/Server.cpp:150-156 | after a write error no write is outstanding and nothing more is delivered, whatever follows |
| ServerRuns.ConnectedNeverStalls | lib/networking/src/Server.cpp:128-185 | a connected channel always has a read pending and, while texts wait, exactly the write of the first outstanding |
| ServerRuns.ViewsAlwaysAgree | lib/networking/src/Server.cpp:345-404 | after every event the connected channels, the clients and the users are the same connections, both lists without duplicates and in the same order; each connection got one connect callback, then exactly one disconnect callback if it is gone |
| ServerRuns.BroadcastReachesConnected | src/GameServer/GameServer.cpp:209-212 | a broadcast text is routed once to every connected channel and to no other |
| ServerRuns.MessagesAreConserved | lib/networking/src/Server.cpp:175-181 | every message read is returned once, in order of arrival, or still waits |

## Left out

- Reading game files: JSON lexing, root elements, and what makes a rule malformed (one case of `RuleJson` stands for all of it). A value of an add rule is an `int` here; integers outside `int`, which the conversion narrows without an error, and floats and booleans, which it accepts too, are not modelled.
- The validity check of a loaded game, which turns away an empty rule list or variable map.
- `input-text` in well-scoped programs: the rule always fails, and the target that names a user has no field to read. `GameRules.dfy`, `ScopeBalance.dfy` and `RuleParser.dfy` cover it.
- GameRules.ExecuteRule: has no loop rules, which the parser never builds; a loop is a rule on its own, with a loop-free body, in `LoopRules.dfy`.
- The `stopCondition` of a loop, which the source ignores too.
- Message interpolation, logging, chat commands and changes of nicknames.
- Programs that are not well-scoped have no lexical meaning here; their runs are covered by the laws of `GameRules.dfy`, `ScopeBalance.dfy` and `RuleParser.dfy` alone.
- Sockets, HTTP and the websocket library: completions are events. Connection ids are fresh, so reuse of an address after a channel is gone is not modelled.
- The commands `quit` and `shutdown` and the server loop around `update`.
