/** The game state: global variables, per-player variables keyed by decimal ids, and the
    loop elements in scope (src/GameState/GameState.cpp). */
module GameStates {
  import opened Wrappers
  import opened Names

  // C++ `int`
  type VariableValue = x: int | -0x8000_0000 <= x < 0x8000_0000
  type VariableMap = map<string, VariableValue>
  type Scope = map<string, PlayerID>

  datatype SetVariableResult = SUCCESS | FAILURE

  // ---------- runtime names, component by component ----------

  // A component is evaluated from its first '$' on.
  predicate ComponentBound(c: string, scope: Scope) {
    var d := Find(c, 0, '$');
    d < |c| ==> c[d + 1..] in scope
  }

  function EvalComponent(c: string, scope: Scope): string {
    var d := Find(c, 0, '$');
    if d < |c| && c[d + 1..] in scope then c[..d] + ToString(scope[c[d + 1..]]) else c
  }

  predicate AllBound(name: string, scope: Scope) {
    AllComponents(c => ComponentBound(c, scope), name)
  }

  function Evaluated(name: string, scope: Scope): string {
    Rewrite(c => EvalComponent(c, scope), name)
  }

  lemma EvalAtDot(head: string, rest: string, scope: Scope)
    requires '.' !in head
    ensures AllBound(head + "." + rest, scope) <==> ComponentBound(head, scope) && AllBound(rest, scope)
    ensures Evaluated(head + "." + rest, scope) == EvalComponent(head, scope) + "." + Evaluated(rest, scope)
  {
    AllAtDot(c => ComponentBound(c, scope), head, rest);
    RewriteAtDot(c => EvalComponent(c, scope), head, rest);
  }

  lemma EvalDotFree(c: string, scope: Scope)
    requires '.' !in c
    ensures AllBound(c, scope) <==> ComponentBound(c, scope)
    ensures Evaluated(c, scope) == EvalComponent(c, scope)
  {
    AllDotFree(c => ComponentBound(c, scope), c);
    RewriteDotFree(c => EvalComponent(c, scope), c);
  }

  lemma ComponentPrefix(p: string, c: string, scope: Scope)
    requires '$' !in p
    ensures ComponentBound(p + c, scope) <==> ComponentBound(c, scope)
    ensures EvalComponent(p + c, scope) == p + EvalComponent(c, scope)
  {
    FindAfterPrefix(p, c, '$');
    var d := Find(c, 0, '$');
    if d < |c| {
      assert (p + c)[|p| + d + 1..] == c[d + 1..];
      assert (p + c)[..|p| + d] == p + c[..d];
      if c[d + 1..] in scope {
        Assoc(p, c[..d], ToString(scope[c[d + 1..]]));
      }
    }
  }

  lemma EvalPrefixAtDot(p: string, head: string, rest: string, scope: Scope)
    requires '$' !in p && '.' !in p && '.' !in head
    ensures AllBound(p + (head + "." + rest), scope) <==> AllBound(head + "." + rest, scope)
    ensures Evaluated(p + (head + "." + rest), scope) == p + Evaluated(head + "." + rest, scope)
  {
    ComponentPrefix(p, head, scope);
    Assoc(p, head, ".");
    Assoc(p, head + ".", rest);
    EvalAtDot(p + head, rest, scope);
    EvalAtDot(head, rest, scope);
    Assoc(p, EvalComponent(head, scope), ".");
    Assoc(p, EvalComponent(head, scope) + ".", Evaluated(rest, scope));
  }

  lemma EvalPrefixDotless(p: string, t: string, scope: Scope)
    requires '$' !in p && '.' !in p
    ensures AllBound(p + t, scope) <==> AllBound(t, scope)
    ensures Evaluated(p + t, scope) == p + Evaluated(t, scope)
  {
    var e := Find(t, 0, '.');
    if e < |t| {
      CutAtFirst(t, 0, '.');
      assert t[0..] == t;
      EvalPrefixAtDot(p, t[0..e], t[e + 1..], scope);
    } else {
      ComponentPrefix(p, t, scope);
      EvalDotFree(p + t, scope);
      EvalDotFree(t, scope);
    }
  }

  // Text before the first '$' is copied.
  lemma {:induction false} EvalPrefix(p: string, t: string, scope: Scope)
    requires '$' !in p
    ensures AllBound(p + t, scope) <==> AllBound(t, scope)
    ensures Evaluated(p + t, scope) == p + Evaluated(t, scope)
    decreases |p|
  {
    var d := Find(p, 0, '.');
    if d < |p| {
      EvalPrefixStep(p[..d], p[d + 1..], t, scope);
      EvalPrefix(p[d + 1..], t, scope);
      Assoc(p[..d] + ".", p[d + 1..], Evaluated(t, scope));
      assert p == p[..d] + "." + p[d + 1..];
      assert p + t == p[..d] + "." + (p[d + 1..] + t);
    } else {
      EvalPrefixDotless(p, t, scope);
    }
  }

  lemma EvalPrefixStep(head: string, rest: string, t: string, scope: Scope)
    requires '$' !in head && '.' !in head
    ensures AllBound(head + "." + (rest + t), scope) <==> AllBound(rest + t, scope)
    ensures Evaluated(head + "." + (rest + t), scope) == head + "." + Evaluated(rest + t, scope)
  {
    EvalAtDot(head, rest + t, scope);
    assert Find(head, 0, '$') == |head|;
  }

  lemma EvalDollar(x: string, scope: Scope)
    ensures ComponentBound("$" + x, scope) <==> x in scope
    ensures x in scope ==> EvalComponent("$" + x, scope) == ToString(scope[x])
  {
  }

  // A component "$x" is replaced by the decimal of the id bound to x.
  lemma EvalVariable(x: string, u: string, scope: Scope)
    requires '.' !in x && (u == "" || u[0] == '.')
    ensures AllBound("$" + x + u, scope) <==> x in scope && AllBound(u, scope)
    ensures x in scope ==> Evaluated("$" + x + u, scope) == ToString(scope[x]) + Evaluated(u, scope)
  {
    EvalDollar(x, scope);
    EvalBeforeDot("$" + x, u, scope);
  }

  lemma EvalBeforeDot(c: string, u: string, scope: Scope)
    requires '.' !in c && (u == "" || u[0] == '.')
    ensures AllBound(c + u, scope) <==> ComponentBound(c, scope) && AllBound(u, scope)
    ensures Evaluated(c + u, scope) == EvalComponent(c, scope) + Evaluated(u, scope)
  {
    if u == "" {
      assert c + u == c;
      EvalDotFree(c, scope);
      EvalDotFree("", scope);
    } else {
      var v := u[1..];
      assert u == "." + v && c + u == c + "." + v;
      EvalAtDot(c, v, scope);
      EvalPrefix(".", v, scope);
      Assoc(EvalComponent(c, scope), ".", Evaluated(v, scope));
    }
  }

  lemma EvalStatic(name: string, scope: Scope)
    requires '$' !in name
    ensures AllBound(name, scope) && Evaluated(name, scope) == name
  {
    EvalPrefix(name, "", scope);
    EvalDotFree("", scope);
    assert name + "" == name;
  }

  lemma EvalVariableAt(raw: string, start: nat, scope: Scope)
    requires start < |raw| && raw[start] == '$'
    ensures var end := Find(raw, start, '.');
      var x := raw[start + 1..end];
      && (AllBound(raw[start..], scope) <==> x in scope && AllBound(raw[end..], scope))
      && (x in scope ==> Evaluated(raw[start..], scope) == ToString(scope[x]) + Evaluated(raw[end..], scope))
  {
    var end := Find(raw, start, '.');
    assert raw[start] != '.';
    assert raw[start..] == "$" + raw[start + 1..end] + raw[end..];
    EvalVariable(raw[start + 1..end], raw[end..], scope);
  }

  lemma EvalBetween(raw: string, end: nat, name: string, scope: Scope)
    requires end <= |raw|
    ensures var start := Find(raw, end, '$');
      && (AllBound(raw[end..], scope) <==> AllBound(raw[start..], scope))
      && name + Evaluated(raw[end..], scope) == (name + raw[end..start]) + Evaluated(raw[start..], scope)
  {
    var start := Find(raw, end, '$');
    assert raw[end..] == raw[end..start] + raw[start..];
    EvalPrefix(raw[end..start], raw[start..], scope);
    Assoc(name, raw[end..start], Evaluated(raw[start..], scope));
  }

  // ---------- locations ----------

  // One cell of the store.
  datatype Location = Global(name: string) | Player(id: PlayerID, field: string)

  // Split "players.789.input" into 789 and "input"; None where the source is undefined
  // (fewer than two dots) or throws (no number between them).
  function PlayerInfo(name: string): Option<Location> {
    var d := Find(name, 0, '.');
    if d == |name| then None else
      var e := Find(name, d + 1, '.');
      if e == |name| || Stoul(name[d + 1..e]).None? then None
      else Some(Player(Stoul(name[d + 1..e]).value, name[e + 1..]))
  }

  // The name the source goes on with: empty when some "$x" is unbound, which nobody checks.
  function RuntimeName(raw: string, scope: Scope): string {
    if AllBound(raw, scope) then Evaluated(raw, scope) else ""
  }

  // The cell a raw nested name denotes under a scope; None where the source is undefined or throws.
  function Locate(raw: string, scope: Scope): Option<Location> {
    if Mentions(raw, "players") then PlayerInfo(RuntimeName(raw, scope)) else Some(Global(raw))
  }

  // A per-player name with an unbound "$x" has no location.
  lemma UnboundHasNoLocation(raw: string, scope: Scope)
    requires Mentions(raw, "players") && !AllBound(raw, scope)
    ensures Locate(raw, scope) == None
  {
  }

  // ---------- the value of a game state ----------

  datatype Snapshot = Snapshot(
    globals: VariableMap,
    players: map<PlayerKey, VariableMap>,
    order: seq<PlayerKey>,  // the iteration order of the unordered map `players`
    scope: Scope)
  {
    ghost predicate Valid() {
      Enumerates(order, players.Keys)
    }

    function Read(at: Location): Option<VariableValue> {
      match at
      case Global(x) => if x in globals then Some(globals[x]) else None
      case Player(id, x) =>
        if KeyOf(id) in players && x in players[KeyOf(id)] then Some(players[KeyOf(id)][x]) else None
    }

    function Write(at: Location, v: VariableValue): Snapshot
      requires Read(at).Some?
    {
      match at
      case Global(x) => this.(globals := globals[x := v])
      case Player(id, x) =>
        var variables: VariableMap := players[KeyOf(id)][x := v];
        this.(players := players[KeyOf(id) := variables])
    }
  }

  // `xs` lists the set `keys`, each member once.
  ghost predicate Enumerates<T(!new)>(xs: seq<T>, keys: set<T>) {
    && NoDuplicates(xs)
    && (forall x :: x in xs <==> x in keys)
  }

  predicate NoDuplicates<T(==)>(xs: seq<T>) {
    forall i, j :: 0 <= i < j < |xs| ==> xs[i] != xs[j]
  }

  // `getPlayerIDs`
  function PlayerIDs(order: seq<PlayerKey>): (ids: seq<PlayerID>)
    ensures |ids| == |order|
    ensures forall i :: 0 <= i < |ids| ==> KeyOf(ids[i]) == order[i]
  {
    seq(|order|, i requires 0 <= i < |order| => IdOf(order[i]))
  }

  // Each stored player is listed exactly once, by number.
  lemma PlayerIDsEnumerate(s: Snapshot)
    requires s.Valid()
    ensures NoDuplicates(PlayerIDs(s.order))
    ensures forall id: PlayerID :: id in PlayerIDs(s.order) <==> KeyOf(id) in s.players
  {
  }

  // ---------- store laws ----------

  // A write changes its own cell and no other, and keeps every key.
  lemma WriteFrame(s: Snapshot, at: Location, v: VariableValue)
    requires s.Read(at).Some?
    ensures var s' := s.Write(at, v);
      && s'.Read(at) == Some(v)
      && (forall b :: b != at ==> s'.Read(b) == s.Read(b))
      && s'.players.Keys == s.players.Keys && s'.order == s.order && s'.scope == s.scope
  {
  }

  // A value written at one existing cell is read at another exactly when they are the same.
  lemma SameLocation(s: Snapshot, la: Location, lb: Location)
    requires s.Read(la).Some? && s.Read(lb).Some?
    ensures la == lb <==> forall v: VariableValue :: s.Write(la, v).Read(lb) == Some(v)
  {
    var other: VariableValue := if s.Read(lb).value == 0 then 1 else 0;
    WriteFrame(s, la, other);
    if la == lb {
      forall v: VariableValue ensures s.Write(la, v).Read(lb) == Some(v) {
        WriteFrame(s, la, v);
      }
    }
  }

  // Two names of existing variables share a cell exactly when they denote the same location.
  lemma SameCell(s: Snapshot, a: string, b: string)
    ensures var la, lb := Locate(a, s.scope), Locate(b, s.scope);
      la.Some? && lb.Some? && s.Read(la.value).Some? && s.Read(lb.value).Some? ==>
        (la == lb <==> forall v: VariableValue :: s.Write(la.value, v).Read(lb.value) == Some(v))
  {
    var la, lb := Locate(a, s.scope), Locate(b, s.scope);
    if la.Some? && lb.Some? && s.Read(la.value).Some? && s.Read(lb.value).Some? {
      SameLocation(s, la.value, lb.value);
    }
  }

  // `players.$p.x` evaluates to `players.7.x` when p stands for 7, and is kept without a "$".
  lemma ElementNameEvaluates(p: string, x: string, scope: Scope)
    requires '.' !in p && '$' !in x
    ensures AllBound("players.$" + p + "." + x, scope) <==> p in scope
    ensures p in scope ==> Evaluated("players.$" + p + "." + x, scope) == "players." + (ToString(scope[p]) + "." + x)
    ensures AllBound(x, scope) && Evaluated(x, scope) == x
  {
    var component := "$" + p;
    EvalStatic(x, scope);
    EvalStatic("players", scope);
    EvalDotFree("players", scope);
    EvalDollar(p, scope);
    EvalAtDot(component, x, scope);
    EvalAtDot("players", component + "." + x, scope);
    assert "players." == "players" + ".";
    PlayersFirst(p, x);
    if p in scope {
      Assoc(ToString(scope[p]), ".", x);
    }
  }

  lemma PlayersFirst(p: string, x: string)
    ensures "players.$" + p + "." + x == "players" + "." + ("$" + p + "." + x)
  {
    assert "players.$" == "players" + "." + "$";
    assert "players" + "." + "$" + p + "." + x == "players" + "." + ("$" + p + "." + x);
  }

  // The location of a per-player name with at least three components: it has one exactly when
  // every "$x" is bound and the second component evaluates to a number; the rest is the field.
  lemma LocatedExactly(head: string, middle: string, field: string, scope: Scope)
    requires '.' !in head && '.' !in middle
    requires Mentions(head + "." + (middle + "." + field), "players")
    ensures Locate(head + "." + (middle + "." + field), scope) ==
            if AllBound(head + "." + (middle + "." + field), scope)
            then PlayerAt(Stoul(EvalComponent(middle, scope)), Evaluated(field, scope)) else None
  {
    var rest := middle + "." + field;
    EvalAtDot(head, rest, scope);
    EvalAtDot(middle, field, scope);
    EvalKeepsDotless(head, scope);
    EvalKeepsDotless(middle, scope);
    PlayerInfoOf(EvalComponent(head, scope), EvalComponent(middle, scope), Evaluated(field, scope));
    assert Find("", 0, '.') == 0;
  }

  function PlayerAt(id: Option<PlayerID>, field: string): Option<Location> {
    match id
    case None => None
    case Some(i) => Some(Player(i, field))
  }

  lemma EvalKeepsDotless(c: string, scope: Scope)
    requires '.' !in c
    ensures '.' !in EvalComponent(c, scope)
  {
    var d := Find(c, 0, '$');
    if d < |c| && c[d + 1..] in scope {
      var digits := ToString(scope[c[d + 1..]]);
      assert '.' !in digits;
      assert forall x :: x in c[..d] + digits ==> x in c || x in digits;
    }
  }

  lemma PlayerInfoOf(head: string, middle: string, field: string)
    requires '.' !in head && '.' !in middle
    ensures PlayerInfo(head + "." + (middle + "." + field)) == PlayerAt(Stoul(middle), field)
  {
    TwoDots(head, middle, field);
    PlayerInfoCut(head + "." + (middle + "." + field), |head|, |head| + 1 + |middle|, middle, field);
  }

  predicate CutsInto(name: string, d: nat, e: nat, middle: string, field: string) {
    && Find(name, 0, '.') == d < |name| && Find(name, d + 1, '.') == e < |name|
    && name[d + 1..e] == middle && name[e + 1..] == field
  }

  lemma PlayerInfoCut(name: string, d: nat, e: nat, middle: string, field: string)
    requires CutsInto(name, d, e, middle, field)
    ensures PlayerInfo(name) == PlayerAt(Stoul(middle), field)
  {
  }

  lemma TwoDots(head: string, middle: string, field: string)
    requires '.' !in head && '.' !in middle
    ensures CutsInto(head + "." + (middle + "." + field), |head|, |head| + 1 + |middle|, middle, field)
  {
    var tail := "." + field;
    assert middle + "." + field == middle + tail;
    FindAfterPrefix(head, "." + (middle + tail), '.');
    Assoc(head, ".", middle + tail);
    SecondDot(head + ".", middle, tail);
  }

  // A per-player name with fewer components has no location.
  lemma ShortNameHasNoLocation(head: string, last: string, scope: Scope)
    requires '.' !in head && '.' !in last
    ensures Mentions(head, "players") ==> Locate(head, scope) == None
    ensures Mentions(head + "." + last, "players") ==> Locate(head + "." + last, scope) == None
  {
    EvalDotFree(head, scope);
    EvalDotFree(last, scope);
    EvalAtDot(head, last, scope);
    EvalKeepsDotless(head, scope);
    EvalKeepsDotless(last, scope);
    OneDot(EvalComponent(head, scope), EvalComponent(last, scope));
    assert Find("", 0, '.') == 0;
  }

  lemma OneDot(head: string, last: string)
    requires '.' !in head && '.' !in last
    ensures PlayerInfo(head) == None && PlayerInfo(head + "." + last) == None
  {
    FindAfterPrefix(head, "." + last, '.');
    Assoc(head, ".", last);
    FindShift(head + ".", last, 0, '.');
  }

  // "players.<middle>.<field>" denotes a player's cell when the middle evaluates to an id.
  lemma LocatePlayer(middle: string, field: string, scope: Scope, id: PlayerID)
    requires '.' !in middle && '$' !in field
    requires ComponentBound(middle, scope) && EvalComponent(middle, scope) == ToString(id)
    ensures Locate("players." + (middle + "." + field), scope) == Some(Player(id, field))
  {
    var raw := "players." + (middle + "." + field);
    assert raw[0..] == raw && "players" <= raw;
    assert "players" + "." == "players.";
    EvalAtDot("players", middle + "." + field, scope);
    EvalAtDot(middle, field, scope);
    EvalStatic(field, scope);
    EvalStatic("players", scope);
    EvalDotFree("players", scope);
    StoulToString(id);
    LocatedExactly("players", middle, field, scope);
  }

  lemma SecondDot(start: string, key: string, tail: string)
    requires '.' !in key && |tail| > 0 && tail[0] == '.'
    ensures var name := start + (key + tail);
      && Find(name, |start|, '.') == |start| + |key|
      && name[|start|..|start| + |key|] == key
      && name[|start| + |key| + 1..] == tail[1..]
  {
    FindAfterPrefix(key, tail, '.');
    FindShift(start, key + tail, 0, '.');
    SlicesAround(start, key, tail);
  }

  lemma SlicesAround(start: string, key: string, tail: string)
    requires |tail| > 0
    ensures (start + (key + tail))[|start|..|start| + |key|] == key
    ensures (start + (key + tail))[|start| + |key| + 1..] == tail[1..]
  {
  }

  // "players.$p.x" and "players.7.x" name one cell exactly when p stands for player 7.
  lemma RuntimeNameMeetsStaticName(p: string, id: PlayerID, x: string, y: string, scope: Scope)
    requires '.' !in p && p in scope && '$' !in x && '$' !in y
    ensures Locate("players." + ("$" + p + "." + x), scope) == Locate("players." + (ToString(id) + "." + y), scope)
            <==> scope[p] == id && x == y
  {
    var c := "$" + p;
    assert c[1..] == p && c[..0] == "";
    LocatePlayer(c, x, scope, scope[p]);
    EvalStatic(ToString(id), scope);
    EvalDotFree(ToString(id), scope);
    LocatePlayer(ToString(id), y, scope, id);
  }

  // ---------- the class ----------

  class GameState {
    var variableMap: VariableMap
    var playerVariableMaps: map<PlayerKey, VariableMap>
    var playerOrder: seq<PlayerKey>
    var activeScopeVariables: Scope

    ghost predicate Valid()
      reads this
    {
      State().Valid()
    }

    ghost function State(): Snapshot
      reads this
    {
      Snapshot(variableMap, playerVariableMaps, playerOrder, activeScopeVariables)
    }

    constructor (variables: VariableMap, playerIDs: seq<PlayerID>, perPlayerVariables: VariableMap)
      ensures Valid()
      ensures variableMap == variables && activeScopeVariables == map[]
      ensures forall k :: k in playerVariableMaps <==> exists j :: 0 <= j < |playerIDs| && KeyOf(playerIDs[j]) == k
      ensures forall k :: k in playerVariableMaps ==> playerVariableMaps[k] == perPlayerVariables
    {
      variableMap := variables;
      activeScopeVariables := map[];
      playerVariableMaps := map[];
      playerOrder := [];
      new;
      for i := 0 to |playerIDs|
        invariant variableMap == variables && activeScopeVariables == map[]
        invariant Valid()
        invariant forall k :: k in playerVariableMaps <==> exists j :: 0 <= j < i && KeyOf(playerIDs[j]) == k
        invariant forall k :: k in playerVariableMaps ==> playerVariableMaps[k] == perPlayerVariables
      {
        InsertPlayer(KeyOf(playerIDs[i]), perPlayerVariables);
      }
    }

    // `unordered_map::insert`: a new key goes anywhere in the iteration order; a key already
    // there stays as it is.
    method InsertPlayer(key: PlayerKey, variables: VariableMap)
      requires Valid()
      modifies this`playerVariableMaps, this`playerOrder
      ensures Valid()
      ensures playerVariableMaps ==
              if key in old(playerVariableMaps) then old(playerVariableMaps) else old(playerVariableMaps)[key := variables]
    {
      if key !in playerVariableMaps {
        var at :| 0 <= at <= |playerOrder|;
        InsertionEnumerates(playerOrder, playerVariableMaps.Keys, at, key);
        playerOrder := playerOrder[..at] + [key] + playerOrder[at..];
        playerVariableMaps := playerVariableMaps[key := variables];
      }
    }

    method GetVariable(name: string) returns (r: Option<VariableValue>)
      ensures r == State().Read(Global(name))
      ensures r == if name in variableMap then Some(variableMap[name]) else None
    {
      if name !in variableMap {
        return None;
      }
      return Some(variableMap[name]);
    }

    method SetVariable(name: string, v: VariableValue) returns (r: SetVariableResult)
      modifies this
      ensures r == SUCCESS <==> old(State()).Read(Global(name)).Some?
      ensures State() == if r == SUCCESS then old(State()).Write(Global(name), v) else old(State())
      ensures r == SUCCESS <==> name in old(variableMap)
      ensures variableMap == if r == SUCCESS then old(variableMap)[name := v] else old(variableMap)
      ensures unchanged(this`playerVariableMaps, this`playerOrder, this`activeScopeVariables)
    {
      if name !in variableMap {
        return FAILURE;
      }
      variableMap := variableMap - {name};
      variableMap := variableMap[name := v];
      return SUCCESS;
    }

    method GetPlayerVariable(id: PlayerID, name: string) returns (r: Option<VariableValue>)
      ensures r == State().Read(Player(id, name))
      ensures var key := ToString(id);
        r == if key in playerVariableMaps && name in playerVariableMaps[key] then Some(playerVariableMaps[key][name])
             else None
    {
      if KeyOf(id) !in playerVariableMaps {
        return None;
      }
      var variables := playerVariableMaps[KeyOf(id)];
      if name !in variables {
        return None;
      }
      return Some(variables[name]);
    }

    method SetPlayerVariable(id: PlayerID, name: string, v: VariableValue) returns (r: SetVariableResult)
      modifies this
      ensures r == SUCCESS <==> old(State()).Read(Player(id, name)).Some?
      ensures State() == if r == SUCCESS then old(State()).Write(Player(id, name), v) else old(State())
      ensures var key, players := KeyOf(id), old(playerVariableMaps);
        && (r == SUCCESS <==> key in players && name in players[key])
        && (r == FAILURE ==> playerVariableMaps == players)
        && (r == SUCCESS ==>
              var variables: VariableMap := players[key][name := v]; playerVariableMaps == players[key := variables])
      ensures unchanged(this`variableMap, this`playerOrder, this`activeScopeVariables)
    {
      if KeyOf(id) !in playerVariableMaps {
        return FAILURE;
      }
      var variables := playerVariableMaps[KeyOf(id)];
      if name !in variables {
        return FAILURE;
      }
      variables := variables - {name};
      variables := variables[name := v];
      assert variables == playerVariableMaps[KeyOf(id)][name := v];
      playerVariableMaps := playerVariableMaps[KeyOf(id) := variables];
      return SUCCESS;
    }

    method GetActiveScopeVariable(name: string) returns (r: Option<PlayerID>)
      ensures r == if name in activeScopeVariables then Some(activeScopeVariables[name]) else None
    {
      if name !in activeScopeVariables {
        return None;
      }
      return Some(activeScopeVariables[name]);
    }

    method SetActiveScopeVariable(name: string, id: PlayerID) returns (r: SetVariableResult)
      modifies this
      ensures r == SUCCESS <==> name !in old(State()).scope
      ensures State() == if r == SUCCESS then old(State()).(scope := old(State()).scope[name := id]) else old(State())
    {
      if name in activeScopeVariables {
        return FAILURE;
      }
      activeScopeVariables := activeScopeVariables[name := id];
      return SUCCESS;
    }

    method UnsetActiveScopeVariable(name: string) returns (r: SetVariableResult)
      modifies this
      ensures r == SUCCESS <==> name in old(State()).scope
      ensures State() == if r == SUCCESS then old(State()).(scope := old(State()).scope - {name}) else old(State())
    {
      if name !in activeScopeVariables {
        return FAILURE;
      }
      activeScopeVariables := activeScopeVariables - {name};
      return SUCCESS;
    }

    method GetPlayerIDs() returns (ids: seq<PlayerID>)
      ensures ids == PlayerIDs(playerOrder)
    {
      ids := [];
      for i := 0 to |playerOrder|
        invariant ids == PlayerIDs(playerOrder)[..i]
      {
        StoulOfKey(playerOrder[i]);
        ids := ids + [Stoul(playerOrder[i]).value];
      }
    }

    // Replace each "$x" of a dotted name by the decimal of the player id bound to x;
    // the empty string when any is unbound.
    method ParseRuntimeVariables(raw: string) returns (name: string)
      ensures AllBound(raw, activeScopeVariables) ==> name == Evaluated(raw, activeScopeVariables)
      ensures !AllBound(raw, activeScopeVariables) ==> name == ""
    {
      var scope := activeScopeVariables;
      var start := Find(raw, 0, '$');
      EvalBetween(raw, 0, "", scope);
      assert raw[0..] == raw && "" + raw[0..start] == raw[..start];
      assert "" + Evaluated(raw, scope) == Evaluated(raw, scope);
      EvalDotFree("", scope);
      if start == |raw| {
        return raw;
      }
      name := raw[..start];
      while start < |raw|
        invariant start <= |raw| && (start < |raw| ==> raw[start] == '$')
        invariant AllBound(raw, scope) <==> AllBound(raw[start..], scope)
        invariant AllBound(raw, scope) ==> Evaluated(raw, scope) == name + Evaluated(raw[start..], scope)
        decreases |raw| - start
      {
        var end := Find(raw, start, '.');
        var variable := raw[start + 1..end];
        EvalVariableAt(raw, start, scope);
        var bound := GetActiveScopeVariable(variable);
        if bound.None? {
          return "";
        }
        Assoc(name, ToString(bound.value), Evaluated(raw[end..], scope));
        name := name + ToString(bound.value);
        start := Find(raw, end, '$');
        EvalBetween(raw, end, name, scope);
        name := name + raw[end..start];
      }
    }

    method GetValue(raw: string) returns (r: Option<VariableValue>)
      requires Locate(raw, activeScopeVariables).Some?
      ensures r == State().Read(Locate(raw, activeScopeVariables).value)
    {
      if !Mentions(raw, "players") {
        r := GetVariable(raw);
        return;
      }
      var name := ParseRuntimeVariables(raw);
      var id, variable := ExtractPlayerVariableInfo(name);
      r := GetPlayerVariable(id, variable);
    }

    method SetValue(raw: string, v: VariableValue) returns (r: SetVariableResult)
      requires Locate(raw, activeScopeVariables).Some?
      modifies this
      ensures var at := Locate(raw, old(activeScopeVariables)).value;
        && (r == SUCCESS <==> old(State()).Read(at).Some?)
        && State() == if r == SUCCESS then old(State()).Write(at, v) else old(State())
    {
      if !Mentions(raw, "players") {
        r := SetVariable(raw, v);
        return;
      }
      var name := ParseRuntimeVariables(raw);
      var id, variable := ExtractPlayerVariableInfo(name);
      r := SetPlayerVariable(id, variable, v);
    }
  }

  method ExtractPlayerVariableInfo(name: string) returns (id: PlayerID, variable: string)
    requires PlayerInfo(name).Some?
    ensures PlayerInfo(name) == Some(Player(id, variable))
  {
    var start := Find(name, 0, '.') + 1;
    var end := Find(name, start, '.');
    id := Stoul(name[start..end]).value;
    variable := name[end + 1..];
  }

  lemma InsertionEnumerates<T(!new)>(xs: seq<T>, keys: set<T>, at: nat, x: T)
    requires Enumerates(xs, keys) && at <= |xs| && x !in keys
    ensures Enumerates(xs[..at] + [x] + xs[at..], keys + {x})
  {
  }
}
