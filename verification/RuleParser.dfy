/** Compiling the rules of a game file: inside a foreach, every component of a variable name
    that equals the element name becomes `players.$element` (src/JsonParser/RuleParser.cpp). */
module RuleParsers {
  import opened Wrappers
  import opened Names
  import opened GameStates
  import opened GameRules

  // A rule as read from the game file, its value an int. Malformed stands for every shape no
  // branch accepts: no "rule" key, an unknown rule, a missing or an extra property, a property
  // that does not convert. The source rejects every loop.
  datatype RuleJson =
    | AddJson(to: string, value: VariableValue)
    | GlobalMessageJson(text: string)
    | InputTextJson(to: string, prompt: string, resultName: string)
    | ForEachJson(list: string, element: string, rules: seq<RuleJson>)
    | LoopJson
    | MalformedJson

  type Aliases = map<string, string>

  function Aliased(c: string, aliases: Aliases): string {
    if c in aliases then aliases[c] else c
  }

  // Every component replaced by its alias. The empty name has no component to the source.
  function ScopedName(name: string, aliases: Aliases): string {
    if name == "" then "" else Rewrite(c => Aliased(c, aliases), name)
  }

  // ---------- what parsing does ----------

  // A parse result and the aliases it leaves active. `None` is the null rule pointer, or a
  // list cut short by one.
  datatype Parsed<T> = Parsed(result: Option<T>, aliases: Aliases)

  function ParseOne(j: RuleJson, aliases: Aliases): Parsed<Rule>
    decreases j, 1
  {
    match j
    case AddJson(to, v) => Parsed(Some(AddRule(ScopedName(to, aliases), v)), aliases)
    case GlobalMessageJson(text) => Parsed(Some(GlobalMessageRule(text)), aliases)
    case InputTextJson(to, prompt, result) =>
      Parsed(Some(InputTextRule(ScopedName(to, aliases), prompt, ScopedName(result, aliases))), aliases)
    case ForEachJson(list, e, rules) =>
      if list != "players" then Parsed(None, aliases) else
        var inner := WithAlias(aliases, e);
        var body := ParseList(rules, inner);
        Parsed(Some(ForEachRule(list, e, Rules(body.result))), body.aliases - {e})
    case LoopJson => Parsed(None, aliases)
    case MalformedJson => Parsed(None, aliases)
  }

  function ParseList(js: seq<RuleJson>, aliases: Aliases): Parsed<seq<Rule>>
    decreases js, 0
  {
    if js == [] then Parsed(Some([]), aliases) else
      var first := ParseOne(js[0], aliases);
      if first.result.None? then Parsed(None, first.aliases) else
        var rest := ParseList(js[1..], first.aliases);
        if rest.result.None? then rest
        else Parsed(Some([first.result.value] + rest.result.value), rest.aliases)
  }

  // A list with a rule that fails to parse is empty.
  function Rules(result: Option<seq<Rule>>): seq<Rule> {
    match result
    case Some(rules) => rules
    case None => []
  }

  // `unordered_map::insert` keeps an entry that is already there.
  function WithAlias(aliases: Aliases, element: string): Aliases {
    if element in aliases then aliases else aliases[element := "players.$" + element]
  }

  // ---------- parsing ----------

  class RuleParser {
    var activeScopedVariableAliases: Aliases

    constructor ()
      ensures activeScopedVariableAliases == map[]
    {
      activeScopedVariableAliases := map[];
    }

    method ProcessScopedVariables(name: string) returns (newName: string)
      ensures newName == ScopedName(name, activeScopedVariableAliases)
      ensures var aliases := activeScopedVariableAliases;
        newName == if name == "" then "" else Join(Mapped(c => Aliased(c, aliases), Split(name)))
    {
      var aliases := activeScopedVariableAliases;
      ghost var rest := ScopedSuffixes(name, aliases);
      newName := "";
      var start, end := 0, 0;
      assert Continues(rest, 0, "");
      while end != |name|
        invariant start <= |name| + 1 && end <= |name|
        invariant end != |name| ==> start <= |name|
        invariant name == "" ==> newName == ""
        invariant if end != |name| then Continues(rest, start, newName) else name != "" ==> newName == rest[0]
        decreases |name| + 1 - start
      {
        end := Find(name, start, '.');
        AppendComponent(rest, name, aliases, start, newName);
        newName := newName + Aliased(name[start..end], aliases);
        if end != |name| {
          newName := newName + ".";
        }
        start := end + 1;
      }
    }

    method ParseAddRule(to: string, value: VariableValue) returns (rule: Option<Rule>)
      ensures rule == Some(AddRule(ScopedName(to, activeScopedVariableAliases), value))
    {
      var target := ProcessScopedVariables(to);
      return Some(AddRule(target, value));
    }

    method ParseGlobalMessageRule(text: string) returns (rule: Option<Rule>)
      ensures rule == Some(GlobalMessageRule(text))
    {
      return Some(GlobalMessageRule(text));
    }

    method ParseInputTextRule(to: string, prompt: string, result: string) returns (rule: Option<Rule>)
      ensures rule == Some(InputTextRule(ScopedName(to, activeScopedVariableAliases), prompt,
                                         ScopedName(result, activeScopedVariableAliases)))
    {
      var target := ProcessScopedVariables(to);
      var variable := ProcessScopedVariables(result);
      return Some(InputTextRule(target, prompt, variable));
    }

    method ParseForEachRule(list: string, element: string, rules: seq<RuleJson>) returns (rule: Option<Rule>)
      modifies this
      ensures Parsed(rule, activeScopedVariableAliases) ==
              ParseOne(ForEachJson(list, element, rules), old(activeScopedVariableAliases))
      decreases rules, 1
    {
      if list != "players" {
        return None;
      }
      var contexted := list + ".$" + element;
      if element !in activeScopedVariableAliases {
        assert "players" + ".$" == "players.$";
        activeScopedVariableAliases := activeScopedVariableAliases[element := contexted];
      }
      var body := ParseRules(rules);
      rule := Some(ForEachRule(list, element, body));
      activeScopedVariableAliases := activeScopedVariableAliases - {element};
    }

    method ParseRules(ruleList: seq<RuleJson>) returns (rules: seq<Rule>)
      modifies this
      ensures var parsed := ParseList(ruleList, old(activeScopedVariableAliases));
        rules == Rules(parsed.result) && activeScopedVariableAliases == parsed.aliases
      decreases ruleList, 0
    {
      ghost var parsed := ParseList(ruleList, activeScopedVariableAliases);
      rules := [];
      assert ruleList[0..] == ruleList;
      PrependedNothing(parsed.result);
      for i := 0 to |ruleList|
        invariant var rest := ParseList(ruleList[i..], activeScopedVariableAliases);
          parsed == Parsed(Prepended(rules, rest.result), rest.aliases)
      {
        assert ruleList[i..][0] == ruleList[i] && ruleList[i..][1..] == ruleList[i + 1..];
        var rule: Option<Rule>;
        match ruleList[i] {
          case AddJson(to, value) => rule := ParseAddRule(to, value);
          case GlobalMessageJson(text) => rule := ParseGlobalMessageRule(text);
          case InputTextJson(to, prompt, result) => rule := ParseInputTextRule(to, prompt, result);
          case ForEachJson(list, element, body) => rule := ParseForEachRule(list, element, body);
          case LoopJson => rule := None;
          case MalformedJson => return [];
        }
        if rule.None? {
          return [];
        }
        PrependedOne(rules, rule.value, ParseList(ruleList[i + 1..], activeScopedVariableAliases).result);
        rules := rules + [rule.value];
      }
    }
  }

  ghost function Prepended(rules: seq<Rule>, rest: Option<seq<Rule>>): Option<seq<Rule>> {
    match rest
    case None => None
    case Some(more) => Some(rules + more)
  }

  lemma PrependedNothing(rest: Option<seq<Rule>>)
    ensures Prepended([], rest) == rest
  {
    assert rest.Some? ==> [] + rest.value == rest.value;
  }

  lemma PrependedOne(rules: seq<Rule>, rule: Rule, rest: Option<seq<Rule>>)
    ensures Prepended(rules + [rule], rest) ==
            if rest.None? then None else Prepended(rules, Some([rule] + rest.value))
  {
    assert rest.Some? ==> (rules + [rule]) + rest.value == rules + ([rule] + rest.value);
  }

  lemma RewriteFrom(f: string -> string, name: string, start: nat)
    requires start <= |name|
    ensures var end := Find(name, start, '.');
      Rewrite(f, name[start..]) ==
      if end == |name| then f(name[start..end]) else f(name[start..end]) + "." + Rewrite(f, name[end + 1..])
  {
    var end := Find(name, start, '.');
    if end == |name| {
      assert name[start..] == name[start..end];
      RewriteDotFree(f, name[start..end]);
    } else {
      CutAtFirst(name, start, '.');
      RewriteAtDot(f, name[start..end], name[end + 1..]);
    }
  }

  // What the loop of ProcessScopedVariables still has to append from each position on.
  ghost predicate Suffixes(rest: seq<string>, name: string, aliases: Aliases) {
    |rest| == |name| + 1 &&
    forall start :: 0 <= start <= |name| ==>
      var end := Find(name, start, '.');
      var c := Aliased(name[start..end], aliases);
      rest[start] == if end == |name| then c else c + "." + rest[end + 1]
  }

  lemma ScopedSuffixes(name: string, aliases: Aliases) returns (rest: seq<string>)
    ensures Suffixes(rest, name, aliases)
    ensures name != "" ==> rest[0] == ScopedName(name, aliases)
  {
    var f := c => Aliased(c, aliases);
    rest := seq(|name| + 1, i requires 0 <= i <= |name| => Rewrite(f, name[i..]));
    assert name[0..] == name;
    forall start | 0 <= start <= |name|
      ensures var end := Find(name, start, '.');
        rest[start] == if end == |name| then f(name[start..end]) else f(name[start..end]) + "." + rest[end + 1]
    {
      RewriteFrom(f, name, start);
    }
  }

  // What the loop has appended, followed by what it still has to, is all of it.
  ghost predicate Continues(rest: seq<string>, start: nat, done: string) {
    start < |rest| && done + rest[start] == rest[0]
  }

  // One pass of the loop.
  lemma AppendComponent(rest: seq<string>, name: string, aliases: Aliases, start: nat, done: string)
    requires Suffixes(rest, name, aliases) && start <= |name| && Continues(rest, start, done)
    ensures var end := Find(name, start, '.');
      var done' := done + Aliased(name[start..end], aliases);
      if end == |name| then done' == rest[0] else Continues(rest, end + 1, done' + ".")
  {
    var end := Find(name, start, '.');
    var c := Aliased(name[start..end], aliases);
    if end < |name| {
      Assoc(done, c, ".");
      Assoc(done, c + ".", rest[end + 1]);
    }
  }

  // ---------- which lists parse ----------

  // A foreach over the players parses whatever its child rules are.
  predicate Parses(j: RuleJson) {
    j.AddJson? || j.GlobalMessageJson? || j.InputTextJson? || (j.ForEachJson? && j.list == "players")
  }

  lemma {:induction false} ListParses(js: seq<RuleJson>, aliases: Aliases)
    ensures ParseList(js, aliases).result.Some? <==> forall j :: j in js ==> Parses(j)
    ensures ParseList(js, aliases).result.Some? ==> |ParseList(js, aliases).result.value| == |js|
    decreases js
  {
    if js != [] {
      ListParses(js[1..], ParseOne(js[0], aliases).aliases);
      assert js[0] in js && (ParseOne(js[0], aliases).result.Some? <==> Parses(js[0]));
      assert forall j :: j in js <==> j == js[0] || j in js[1..];
    }
  }

  // What each rule of a list that parses becomes, under the aliases left by those before it.
  lemma {:induction false} ParsedAt(js: seq<RuleJson>, aliases: Aliases, i: nat)
    requires ParseList(js, aliases).result.Some? && i < |js|
    ensures i < |ParseList(js, aliases).result.value|
    ensures var rule, active := ParseList(js, aliases).result.value[i], aliases - Entered(js[..i]);
      match js[i]
      case AddJson(to, v) => rule == AddRule(ScopedName(to, active), v)
      case GlobalMessageJson(text) => rule == GlobalMessageRule(text)
      case InputTextJson(to, prompt, name) =>
        rule == InputTextRule(ScopedName(to, active), prompt, ScopedName(name, active))
      case ForEachJson(list, e, rules) =>
        var inner := if e in active then active else active[e := "players.$" + e];
        list == "players" && rule == ForEachRule("players", e, Rules(ParseList(rules, inner).result))
      case _ => false
    decreases js
  {
    var first := ParseOne(js[0], aliases);
    var rest := ParseList(js[1..], first.aliases).result.value;
    assert ParseList(js, aliases).result.value == [first.result.value] + rest;
    if i == 0 {
      assert js[..0] == [] && aliases - Entered([]) == aliases;
    } else {
      ParsedAt(js[1..], first.aliases, i - 1);
      FirstLeaves(js, aliases, i);
    }
  }

  lemma FirstLeaves(js: seq<RuleJson>, aliases: Aliases, i: nat)
    requires 0 < i < |js| && ParseOne(js[0], aliases).result.Some?
    ensures aliases - Entered(js[..i]) == ParseOne(js[0], aliases).aliases - Entered(js[1..][..i - 1])
  {
    assert js[..i][1..] == js[1..][..i - 1] && js[..i][0] == js[0];
    if js[0].ForEachJson? {
      ParseScopeLaw(js[0].rules, WithAlias(aliases, js[0].element));
    }
  }

  // A child rule that does not parse empties the body of its foreach, which is still built.
  lemma UnparsedChildEmptiesBody(e: string, js: seq<RuleJson>, aliases: Aliases)
    requires exists j :: j in js && !Parses(j)
    ensures ParseOne(ForEachJson("players", e, js), aliases).result == Some(ForEachRule("players", e, []))
  {
    ListParses(js, WithAlias(aliases, e));
  }

  // ---------- the aliases parsing leaves ----------

  // The elements of the foreach rules whose bodies the parser enters: it stops at the first
  // rule of a list that does not parse.
  function Entered(js: seq<RuleJson>): set<string>
  {
    if js == [] then {}
    else
      match js[0]
      case ForEachJson(list, e, rules) =>
        if list == "players" then {e} + Entered(rules) + Entered(js[1..]) else {}
      case LoopJson => {}
      case MalformedJson => {}
      case _ => Entered(js[1..])
  }

  // Whether or not child rules fail to parse, exactly the entered elements are gone afterwards.
  lemma {:induction false} ParseScopeLaw(js: seq<RuleJson>, aliases: Aliases)
    ensures ParseList(js, aliases).aliases == aliases - Entered(js)
    decreases js
  {
    if js != [] {
      if js[0].ForEachJson? && js[0].list == "players" {
        ParseScopeLaw(js[0].rules, WithAlias(aliases, js[0].element));
      }
      ParseScopeLaw(js[1..], ParseOne(js[0], aliases).aliases);
    }
  }

  lemma ParseKeepsAliases(js: seq<RuleJson>, aliases: Aliases)
    ensures ParseList(js, aliases).aliases == aliases <==> Entered(js) !! aliases.Keys
  {
    ParseScopeLaw(js, aliases);
    assert aliases - Entered(js) == aliases <==> Entered(js) !! aliases.Keys by {
      if aliases - Entered(js) == aliases {
        assert aliases.Keys == aliases.Keys - Entered(js);
      }
    }
  }
}
