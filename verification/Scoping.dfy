/** Why programs are written the way module Lexical takes them: which names compiling changes,
    what a spelled name can mean, and what goes wrong outside the well-scoped programs. */
module Scoping {
  import opened Wrappers
  import opened Names
  import opened GameStates
  import opened GameRules
  import opened RuleParsers
  import opened Lexical

  // ---------- which names compiling changes ----------

  // A captured component makes the name longer: compiling leaves a name alone exactly when no
  // component of it is an element in scope.
  lemma CompileKeepsExactlyUncaptured(name: string, active: set<string>)
    requires name != ""
    ensures ScopedName(name, AliasesFor(active)) == name <==> Uncaptured(name, active)
  {
    if Uncaptured(name, active) {
      UncapturedUnaliased(name, active);
    } else {
      CaptureLengthens(c => Aliased(c, AliasesFor(active)), c => c !in active, Split(name));
      JoinSplit(name);
    }
  }

  lemma {:induction false} CaptureLengthens(f: string -> string, kept: string -> bool, cs: seq<string>)
    requires |cs| > 0
    requires forall c :: |f(c)| >= |c| && (!kept(c) ==> |f(c)| > |c|)
    ensures |Join(Mapped(f, cs))| >= |Join(cs)|
    ensures !All(kept, cs) ==> |Join(Mapped(f, cs))| > |Join(cs)|
  {
    assert Mapped(f, cs)[0] == f(cs[0]) && Mapped(f, cs)[1..] == Mapped(f, cs[1..]);
    if |cs| == 1 {
      assert All(kept, cs[1..]);
    } else {
      CaptureLengthens(f, kept, cs[1..]);
    }
  }

  // ---------- what a spelled name can mean ----------

  // Element `e` standing for player `a`, every other one for player `b`.
  function EnvWith(active: set<string>, e: string, a: PlayerID, b: PlayerID): Scope {
    map d | d in active :: if d == e then a else b
  }

  lemma SameDenotation(t: Target, u: Target, active: set<string>, env: Scope)
    requires GoodTarget(t, active) && GoodTarget(u, active) && DotFree(active)
    requires SpellTarget(t) == SpellTarget(u) && env.Keys == active
    ensures Denoted(t, env).Some? && Denoted(t, env) == Denoted(u, env)
  {
    CompileTarget(t, active);
    CompileTarget(u, active);
    TargetLocated(t, env);
    TargetLocated(u, env);
  }

  // Well-scoped names are unambiguous: two targets spelled alike are the same.
  lemma SpellingIsUnambiguous(t: Target, u: Target, active: set<string>)
    requires GoodTarget(t, active) && GoodTarget(u, active) && DotFree(active)
    requires SpellTarget(t) == SpellTarget(u)
    ensures t == u
  {
    if t.ToElement? {
      ElementIsUnambiguous(t, u, active);
    } else if u.ToElement? {
      ElementIsUnambiguous(u, t, active);
    } else {
      SameDenotation(t, u, active, EnvWith(active, "", 0, 0));
    }
  }

  lemma ElementIsUnambiguous(t: Target, u: Target, active: set<string>)
    requires GoodTarget(t, active) && GoodTarget(u, active) && DotFree(active)
    requires SpellTarget(t) == SpellTarget(u) && t.ToElement?
    ensures t == u
  {
    SameDenotation(t, u, active, EnvWith(active, t.element, 0, 1));
    SameDenotation(t, u, active, EnvWith(active, t.element, 1, 0));
  }

  // ---------- components before an element ----------

  // A captured component puts "players" into the compiled name.
  lemma {:induction false} CaptureMentionsPlayers(name: string, active: set<string>)
    requires !Uncaptured(name, active)
    ensures Mentions(Rewrite(c => Aliased(c, AliasesFor(active)), name), "players")
    decreases |name|
  {
    var f := c => Aliased(c, AliasesFor(active));
    var d := Find(name, 0, '.');
    if d < |name| {
      CutAtFirst(name, 0, '.');
      var head, rest := name[0..d], name[d + 1..];
      assert name[0..] == name;
      AllAtDot(c => c !in active, head, rest);
      RewriteAtDot(f, head, rest);
      if head in active {
        MentionsAtStart("players.$" + head, "." + Rewrite(f, rest));
        Assoc(f(head), ".", Rewrite(f, rest));
      } else {
        CaptureMentionsPlayers(rest, active);
        MentionsLater(f(head) + ".", Rewrite(f, rest));
      }
    } else {
      AllDotFree(c => c !in active, name);
      RewriteDotFree(f, name);
      MentionsAtStart("players.$" + name, "");
      assert "players.$" + name + "" == f(name);
    }
  }

  lemma MentionsAtStart(s: string, rest: string)
    requires "players" <= s
    ensures Mentions(s + rest, "players")
  {
    assert (s + rest)[0..] == s + rest;
  }

  lemma MentionsLater(start: string, s: string)
    requires Mentions(s, "players")
    ensures Mentions(start + s, "players")
  {
    var i :| 0 <= i <= |s| && "players" <= s[i..];
    assert (start + s)[|start| + i..] == s[i..];
  }

  // A name with one component before an element's compiles, but has no location: the source
  // looks for a player id right after the first dot.
  lemma QualifiedElementIsBad(head: string, e: string, x: string, active: set<string>, scope: Scope)
    requires '.' !in head && head !in active && e in active && '.' !in e
    ensures Locate(ScopedName(head + "." + (e + "." + x), AliasesFor(active)), scope) == None
  {
    var f := c => Aliased(c, AliasesFor(active));
    var field := "$" + e + "." + Rewrite(f, x);
    RewriteAtDot(f, e, x);
    RewriteAtDot(f, head, e + "." + x);
    PlayersFirst(e, Rewrite(f, x));
    assert f(head) == head;
    MentionsAtStart("players." + field, "");
    assert "players." + field + "" == "players" + "." + field;
    MentionsLater(head + ".", "players" + "." + field);
    LocatedExactly(head, "players", field, scope);
    PlayersIsNoId(scope);
  }

  lemma PlayersIsNoId(scope: Scope)
    ensures Stoul(EvalComponent("players", scope)) == None
  {
    assert Find("players", 0, '$') == 7;
    assert "players"[0] == 'p';
  }

  // With more components before the element the compiled name has a location exactly when all
  // its "$x" are bound and the second component evaluates to a player id.
  lemma LongQualifiedElement(head: string, middle: string, rest: string, active: set<string>, scope: Scope)
    requires '.' !in head && head !in active && '.' !in middle && middle !in active
    requires !Uncaptured(rest, active)
    ensures var f := c => Aliased(c, AliasesFor(active));
      var raw := ScopedName(head + "." + (middle + "." + rest), AliasesFor(active));
      Locate(raw, scope) ==
      if AllBound(raw, scope) then PlayerAt(Stoul(EvalComponent(middle, scope)), Evaluated(Rewrite(f, rest), scope))
      else None
  {
    var f := c => Aliased(c, AliasesFor(active));
    RewriteAtDot(f, middle, rest);
    RewriteAtDot(f, head, middle + "." + rest);
    assert f(head) == head && f(middle) == middle;
    CaptureMentionsPlayers(rest, active);
    MentionsLater(middle + ".", Rewrite(f, rest));
    MentionsLater(head + ".", middle + "." + Rewrite(f, rest));
    LocatedExactly(head, middle, Rewrite(f, rest), scope);
  }

  // So `a.7.player.input` compiles to a usable name: a field of player 7 whose name holds the
  // id the element stands for.
  lemma QualifiedElementOfPlayer(head: string, id: PlayerID, e: string, x: string, active: set<string>, scope: Scope)
    requires '.' !in head && '$' !in head && head !in active && ToString(id) !in active
    requires e in active && e in scope && '.' !in e && '$' !in x && Uncaptured(x, active)
    ensures Locate(ScopedName(head + "." + (ToString(id) + "." + (e + "." + x)), AliasesFor(active)), scope) ==
            Some(Player(id, "players" + "." + (ToString(scope[e]) + "." + x)))
  {
    var f, middle := (c => Aliased(c, AliasesFor(active))), ToString(id);
    var field := "players" + "." + ("$" + e + "." + x);
    ElementField(e, x, active, scope);
    RewriteAtDot(f, middle, e + "." + x);
    RewriteAtDot(f, head, middle + "." + (e + "." + x));
    assert f(head) == head && f(middle) == middle;
    AllAtDot(c => c !in active, e, x);
    LongQualifiedElement(head, middle, e + "." + x, active, scope);
    EvalStatic(head, scope);
    EvalStatic(middle, scope);
    EvalDotFree(head, scope);
    EvalDotFree(middle, scope);
    EvalAtDot(head, middle + "." + field, scope);
    EvalAtDot(middle, field, scope);
    StoulToString(id);
  }

  lemma ElementField(e: string, x: string, active: set<string>, scope: Scope)
    requires e in active && e in scope && '.' !in e && '$' !in x && Uncaptured(x, active)
    ensures var field := "players" + "." + ("$" + e + "." + x);
      && Rewrite(c => Aliased(c, AliasesFor(active)), e + "." + x) == field
      && AllBound(field, scope)
      && Evaluated(field, scope) == "players" + "." + (ToString(scope[e]) + "." + x)
  {
    var f := c => Aliased(c, AliasesFor(active));
    RewriteAtDot(f, e, x);
    UncapturedUnaliased(x, active);
    PlayersFirst(e, x);
    EvalDollar(e, scope);
    EvalStatic(x, scope);
    EvalStatic("players", scope);
    EvalDotFree("players", scope);
    EvalAtDot("$" + e, x, scope);
    EvalAtDot("players", "$" + e + "." + x, scope);
  }

  // Why a well-scoped program keeps element names apart from the ids it names: an element
  // called like a player's id captures that id, and the game gets stuck with any player.
  lemma ElementCapturesPlayerId(id: PlayerID, x: string, v: VariableValue, s: Snapshot)
    requires s.scope == map[] && s.order != []
    ensures RunGame(SpellAll([ForEach(ToString(id), [Add(ToPlayer(id, x), v)])]), s).outcome == BadName
  {
    var e := ToString(id);
    CapturedGame(id, x, v);
    var add := AddRule(CapturedName(e, x), v);
    var bound := s.(scope := s.scope[e := PlayerIDs(s.order)[0]]);
    CapturedNameIsBad(e, x, bound.scope);
    FirstRuleDecides(add, bound);
    FirstRuleDecides(ForEachRule("players", e, [add]), s);
  }

  function CapturedName(e: string, x: string): string {
    ScopedName("players." + (e + "." + x), AliasesFor({e}))
  }

  lemma CapturedNameIsBad(e: string, x: string, scope: Scope)
    requires '.' !in e && e != "players"
    ensures Locate(CapturedName(e, x), scope) == None
  {
    QualifiedElementIsBad("players", e, x, {e}, scope);
    assert "players" + "." == "players.";
  }

  lemma CapturedGame(id: PlayerID, x: string, v: VariableValue)
    ensures var e := ToString(id);
      '.' !in e && e != "players" &&
      ParseList(SpellAll([ForEach(e, [Add(ToPlayer(id, x), v)])]), map[]).result ==
      Some([ForEachRule("players", e, [AddRule(CapturedName(e, x), v)])])
  {
    var e := ToString(id);
    var add := Add(ToPlayer(id, x), v);
    assert IsDigit(e[0]) && !IsDigit("players"[0]);
    AliasesForElement({}, e);
    assert AliasesFor({}) == map[] && {} + {e} == {e};
    ParseOnlyOne(add, AliasesFor({e}), AddRule(CapturedName(e, x), v));
    ParseOnlyOne(ForEach(e, [add]), map[], ForEachRule("players", e, [AddRule(CapturedName(e, x), v)]));
  }

  lemma ParseOnlyOne(p: Stmt, aliases: Aliases, r: Rule)
    requires ParseOne(Spell(p), aliases).result == Some(r)
    ensures SpellAll([p]) == [Spell(p)]
    ensures ParseList(SpellAll([p]), aliases).result == Some([r])
  {
    assert SpellAll([p][1..]) == [];
    SingleParses(Spell(p), aliases);
  }

  lemma FirstRuleDecides(r: Rule, s: Snapshot)
    requires Exec(r, s).outcome != Success
    ensures ExecAll([r], s) == Exec(r, s)
  {
  }

  // ---------- asking for input ----------

  // An element and a field of it, as an input-text rule names them.
  lemma ElementNames(e: string, x: string, active: set<string>)
    requires e in active && '.' !in e && e != "" && Uncaptured(x, active)
    ensures ScopedName(e, AliasesFor(active)) == "players.$" + e
    ensures ScopedName(e + "." + x, AliasesFor(active)) == "players.$" + e + "." + x
  {
    RewriteDotFree(c => Aliased(c, AliasesFor(active)), e);
    CompileElement(e, x, active);
    PlayersFirst(e, x);
    assert "players." + ("$" + e + "." + x) == "players" + "." + ("$" + e + "." + x);
  }

  // In any list that parses, a rule asking an element in scope for a field of it has the
  // element as its target, and the field as its result variable.
  lemma AskingAnElement(js: seq<RuleJson>, i: nat, e: string, x: string, prompt: string, active: set<string>)
    requires ParseList(js, AliasesFor(active)).result.Some? && i < |js|
    requires js[i] == InputTextJson(e, prompt, e + "." + x)
    requires e in active - Entered(js[..i]) && '.' !in e && e != "" && Uncaptured(x, active - Entered(js[..i]))
    ensures i < |ParseList(js, AliasesFor(active)).result.value|
    ensures ParseList(js, AliasesFor(active)).result.value[i] ==
            InputTextRule("players.$" + e, prompt, "players.$" + e + "." + x)
  {
    var left := active - Entered(js[..i]);
    ParsedAt(js, AliasesFor(active), i);
    assert AliasesFor(active) - Entered(js[..i]) == AliasesFor(left);
    ElementNames(e, x, left);
  }

  // A game that asks every player for a field gets stuck with any player: its target has no
  // field for the source to cut out.
  lemma AskingPlayersIsBad(e: string, x: string, prompt: string, s: Snapshot)
    requires '.' !in e && e != "" && Uncaptured(x, {e}) && s.scope == map[] && s.order != []
    ensures RunGame([ForEachJson("players", e, [InputTextJson(e, prompt, e + "." + x)])], s).outcome == BadName
  {
    var ask := InputTextRule("players.$" + e, prompt, "players.$" + e + "." + x);
    var bound := s.(scope := s.scope[e := PlayerIDs(s.order)[0]]);
    AskingParses(e, x, prompt);
    ElementHasNoLocation(e, bound.scope);
    FirstRuleDecides(ask, bound);
    FirstRuleDecides(ForEachRule("players", e, [ask]), s);
  }

  lemma ElementHasNoLocation(e: string, scope: Scope)
    requires '.' !in e
    ensures Locate("players.$" + e, scope) == None
  {
    MentionsAtStart("players", ".$" + e);
    assert "players" + "." + ("$" + e) == "players.$" + e;
    assert "players" + (".$" + e) == "players.$" + e;
    ShortNameHasNoLocation("players", "$" + e, scope);
  }

  lemma AskingParses(e: string, x: string, prompt: string)
    requires '.' !in e && e != "" && Uncaptured(x, {e})
    ensures ParseList([ForEachJson("players", e, [InputTextJson(e, prompt, e + "." + x)])], map[]).result ==
            Some([ForEachRule("players", e, [InputTextRule("players.$" + e, prompt, "players.$" + e + "." + x)])])
  {
    var ask := InputTextJson(e, prompt, e + "." + x);
    var loop := ForEachJson("players", e, [ask]);
    var aliases := AliasesFor({e});
    assert WithAlias(map[], e) == aliases;
    ElementNames(e, x, {e});
    SingleParses(ask, aliases);
    SingleParses(loop, map[]);
  }

  lemma SingleParses(j: RuleJson, aliases: Aliases)
    requires ParseOne(j, aliases).result.Some?
    ensures ParseList([j], aliases).result == Some([ParseOne(j, aliases).result.value])
  {
    var js := [j];
    assert js[1..] == [] && js[0] == j;
    assert ParseList(js[1..], ParseOne(j, aliases).aliases).result == Some([]);
    assert [ParseOne(j, aliases).result.value] + [] == [ParseOne(j, aliases).result.value];
  }
}
