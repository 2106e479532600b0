/** What a run adds to each cell, in closed form: an Add under k nested foreach rules counts
    n^k times for a global or a named player, and n^(k-1) times for every player when its
    target goes through an enclosing element. */
module ClosedForm {
  import opened Wrappers
  import opened Names
  import opened GameStates
  import opened GameRules
  import opened Lexical

  // ---------- sums over players ----------

  function Sum(ids: seq<PlayerID>, f: PlayerID -> int): int {
    if ids == [] then 0 else f(ids[0]) + Sum(ids[1..], f)
  }

  lemma {:induction false} SumPlus(ids: seq<PlayerID>, f: PlayerID -> int, g: PlayerID -> int, h: PlayerID -> int)
    requires forall id :: id in ids ==> f(id) == g(id) + h(id)
    ensures Sum(ids, f) == Sum(ids, g) + Sum(ids, h)
  {
    if ids != [] {
      assert ids[0] in ids;
      SumPlus(ids[1..], f, g, h);
    }
  }

  lemma {:induction false} SumConstant(ids: seq<PlayerID>, f: PlayerID -> int, k: int)
    requires forall id :: id in ids ==> f(id) == k
    ensures Sum(ids, f) == |ids| * k
  {
    if ids != [] {
      assert ids[0] in ids;
      SumConstant(ids[1..], f, k);
    }
  }

  lemma {:induction false} SumIndicator(ids: seq<PlayerID>, f: PlayerID -> int, x: PlayerID, k: int)
    requires NoDuplicates(ids) && forall id :: id in ids ==> f(id) == if id == x then k else 0
    ensures Sum(ids, f) == if x in ids then k else 0
  {
    if ids != [] {
      assert ids[0] in ids && ids[0] !in ids[1..];
      SumIndicator(ids[1..], f, x, k);
    }
  }

  lemma {:induction false} SumSame(ids: seq<PlayerID>, f: PlayerID -> int, g: PlayerID -> int)
    requires forall id :: id in ids ==> f(id) == g(id)
    ensures Sum(ids, f) == Sum(ids, g)
  {
    if ids != [] {
      assert ids[0] in ids;
      SumSame(ids[1..], f, g);
    }
  }

  function Pow(n: nat, k: nat): nat {
    if k == 0 then 1 else n * Pow(n, k - 1)
  }

  // ---------- what a run adds, iteration by iteration ----------

  // `g` is what is counted of each added value: the value itself, or its magnitude.
  type Measure = int -> int

  function Spent(p: Stmt, g: Measure, env: Scope, ids: seq<PlayerID>, c: Location): int
    decreases p, 1
  {
    match p
    case Add(t, v) => if Denoted(t, env) == Some(c) then g(v) else 0
    case Message(_) => 0
    case ForEach(e, body) => Sum(ids, SpentFor(body, g, e, env, ids, c))
  }

  // What one iteration adds, as a function of the player.
  function SpentFor(body: seq<Stmt>, g: Measure, e: string, env: Scope, ids: seq<PlayerID>, c: Location): PlayerID -> int
    decreases body, 1
  {
    (id: PlayerID) => SpentAll(body, g, env[e := id], ids, c)
  }

  function SpentAll(ps: seq<Stmt>, g: Measure, env: Scope, ids: seq<PlayerID>, c: Location): int
    decreases ps, 0
  {
    if ps == [] then 0 else Spent(ps[0], g, env, ids, c) + SpentAll(ps[1..], g, env, ids, c)
  }

  function Amount(): Measure { v => v }

  function Magnitude(): Measure { v => if v < 0 then -v else v }

  // A successful run adds to each cell what its iterations add.
  lemma {:induction false} RunAdds(p: Stmt, env: Scope, ids: seq<PlayerID>, m: Store)
    ensures var r := Interp(p, env, ids, m);
      && r.store.Keys == m.Keys
      && (r.outcome == Success ==> forall c :: c in m ==> r.store[c] == m[c] + Spent(p, Amount(), env, ids, c))
    decreases p, 2
  {
    if p.ForEach? {
      RunEachAdds(p.element, p.body, ids, env, ids, m);
    }
  }

  lemma {:induction false} RunAllAdds(ps: seq<Stmt>, env: Scope, ids: seq<PlayerID>, m: Store)
    ensures var r := InterpAll(ps, env, ids, m);
      && r.store.Keys == m.Keys
      && (r.outcome == Success ==> forall c :: c in m ==> r.store[c] == m[c] + SpentAll(ps, Amount(), env, ids, c))
    decreases ps, 0
  {
    if ps != [] {
      RunAdds(ps[0], env, ids, m);
      RunAllAdds(ps[1..], env, ids, Interp(ps[0], env, ids, m).store);
    }
  }

  lemma {:induction false} RunEachAdds(e: string, body: seq<Stmt>, todo: seq<PlayerID>, env: Scope,
                                       ids: seq<PlayerID>, m: Store)
    ensures var r := InterpEach(e, body, todo, env, ids, m);
      && r.store.Keys == m.Keys
      && (r.outcome == Success ==>
            forall c :: c in m ==> r.store[c] == m[c] + Sum(todo, SpentFor(body, Amount(), e, env, ids, c)))
    decreases body, 1, |todo|
  {
    if todo != [] {
      RunAllAdds(body, env[e := todo[0]], ids, m);
      RunEachAdds(e, body, todo[1..], env, ids, InterpAll(body, env[e := todo[0]], ids, m).store);
    }
  }

  // ---------- the closed form ----------

  // How often an Add to `t` under `depth` foreach rules counts for cell `c`, when the elements
  // in `env` stand for one player each.
  function Weight(t: Target, env: Scope, ids: seq<PlayerID>, depth: nat, c: Location): nat {
    match t
    case ToGlobal(x) => if c == Global(x) then Pow(|ids|, depth) else 0
    case ToPlayer(id, x) => if c == Player(id, x) then Pow(|ids|, depth) else 0
    case ToElement(e, x) =>
      if e in env then if c == Player(env[e], x) then Pow(|ids|, depth) else 0
      else if depth > 0 && c.Player? && c.field == x && c.id in ids then Pow(|ids|, depth - 1)
      else 0
  }

  function Total(ps: seq<Stmt>, g: Measure, env: Scope, ids: seq<PlayerID>, depth: nat, c: Location): int {
    if ps == [] then 0 else
      (match ps[0]
       case Add(t, v) => Weight(t, env, ids, depth, c) * g(v)
       case Message(_) => 0
       case ForEach(_, body) => Total(body, g, env, ids, depth + 1, c)) + Total(ps[1..], g, env, ids, depth, c)
  }

  // Inside `depth` foreach rules around them, the names in `active` are those bound in `env`,
  // the element `e` of one more foreach, and the `depth` inner elements.
  ghost predicate Enclosed(active: set<string>, e: string, env: Scope, depth: nat) {
    e !in env && env.Keys + {e} <= active && (depth == 0 ==> active == env.Keys + {e})
  }

  function WeightFor(t: Target, k: int, e: string, env: Scope, ids: seq<PlayerID>, depth: nat, c: Location): PlayerID -> int {
    (id: PlayerID) => Weight(t, env[e := id], ids, depth, c) * k
  }

  function TotalFor(ps: seq<Stmt>, g: Measure, e: string, env: Scope, ids: seq<PlayerID>, depth: nat, c: Location)
    : PlayerID -> int
  {
    (id: PlayerID) => Total(ps, g, env[e := id], ids, depth, c)
  }

  lemma MulAssoc(a: int, b: int, c: int)
    ensures a * (b * c) == (a * b) * c
  {
  }

  lemma SumOfWeights(t: Target, k: int, active: set<string>, e: string, env: Scope, ids: seq<PlayerID>, depth: nat,
                     c: Location)
    requires NoDuplicates(ids) && GoodTarget(t, active) && Enclosed(active, e, env, depth)
    ensures Sum(ids, WeightFor(t, k, e, env, ids, depth, c)) == Weight(t, env, ids, depth + 1, c) * k
  {
    var n := |ids|;
    var f := WeightFor(t, k, e, env, ids, depth, c);
    if t.ToElement? && t.element == e {
      if c.Player? && c.field == t.field {
        SumIndicator(ids, f, c.id, Pow(n, depth) * k);
      } else {
        SumConstant(ids, f, 0);
      }
    } else {
      var w := Weight(t, env, ids, depth, c);
      SumConstant(ids, f, w * k);
      assert Weight(t, env, ids, depth + 1, c) == n * w;
      MulAssoc(n, w, k);
    }
  }

  lemma {:induction false} SumOfTotals(ps: seq<Stmt>, g: Measure, active: set<string>, e: string, env: Scope,
                                       ids: seq<PlayerID>, depth: nat, c: Location)
    requires NoDuplicates(ids) && WellScoped(ps, active) && Enclosed(active, e, env, depth)
    ensures Sum(ids, TotalFor(ps, g, e, env, ids, depth, c)) == Total(ps, g, env, ids, depth + 1, c)
    decreases ps
  {
    var f := TotalFor(ps, g, e, env, ids, depth, c);
    if ps == [] {
      SumConstant(ids, f, 0);
    } else {
      var h := TotalFor(ps[1..], g, e, env, ids, depth, c);
      SumOfTotals(ps[1..], g, active, e, env, ids, depth, c);
      match ps[0] {
        case Add(t, v) =>
          SumOfWeights(t, g(v), active, e, env, ids, depth, c);
          SumPlus(ids, f, WeightFor(t, g(v), e, env, ids, depth, c), h);
        case Message(_) =>
          SumSame(ids, f, h);
        case ForEach(e', body) =>
          SumOfTotals(body, g, active + {e'}, e, env, ids, depth + 1, c);
          SumPlus(ids, f, TotalFor(body, g, e, env, ids, depth + 1, c), h);
      }
    }
  }

  lemma {:induction false} SpentInClosedForm(ps: seq<Stmt>, g: Measure, env: Scope, ids: seq<PlayerID>, c: Location)
    requires NoDuplicates(ids) && WellScoped(ps, env.Keys)
    ensures SpentAll(ps, g, env, ids, c) == Total(ps, g, env, ids, 0, c)
    decreases ps
  {
    if ps != [] {
      SpentInClosedForm(ps[1..], g, env, ids, c);
      if ps[0].ForEach? {
        var e, body := ps[0].element, ps[0].body;
        forall id | id in ids
          ensures SpentFor(body, g, e, env, ids, c)(id) == TotalFor(body, g, e, env, ids, 0, c)(id)
        {
          assert env[e := id].Keys == env.Keys + {e};
          SpentInClosedForm(body, g, env[e := id], ids, c);
        }
        SumSame(ids, SpentFor(body, g, e, env, ids, c), TotalFor(body, g, e, env, ids, 0, c));
        SumOfTotals(body, g, env.Keys + {e}, e, env, ids, 0, c);
      }
    }
  }

  // ---------- the effect of a game ----------

  // The n^k- and n^(k-1)-weighted sum of the values added to a cell.
  function NetEffect(ps: seq<Stmt>, ids: seq<PlayerID>, c: Location): int {
    Total(ps, Amount(), map[], ids, 0, c)
  }

  // The same sum of their magnitudes.
  function Reach(ps: seq<Stmt>, ids: seq<PlayerID>, c: Location): int {
    Total(ps, Magnitude(), map[], ids, 0, c)
  }

  lemma GameSpends(ps: seq<Stmt>, g: Measure, s: Snapshot, c: Location)
    requires WellScoped(ps, {}) && s.Valid()
    ensures SpentAll(ps, g, map[], PlayerIDs(s.order), c) == Total(ps, g, map[], PlayerIDs(s.order), 0, c)
  {
    PlayerIDsEnumerate(s);
    var none: Scope := map[];
    assert none.Keys == {};
    SpentInClosedForm(ps, g, none, PlayerIDs(s.order), c);
  }

  // A successful run of a compiled game leaves each variable at its initial value plus its net effect.
  lemma GameAddsNetEffect(ps: seq<Stmt>, s: Snapshot)
    requires WellScoped(ps, {}) && s.scope == map[] && s.Valid()
    requires RunGame(SpellAll(ps), s).outcome == Success
    ensures var end := RunGame(SpellAll(ps), s).state;
      && CellsOf(end).Keys == CellsOf(s).Keys
      && forall c :: c in CellsOf(s) ==> CellsOf(end)[c] == CellsOf(s)[c] + NetEffect(ps, PlayerIDs(s.order), c)
  {
    var ids, m := PlayerIDs(s.order), CellsOf(s);
    CompileThenRun(ps, s);
    RunAllAdds(ps, map[], ids, m);
    forall c | c in m ensures SpentAll(ps, Amount(), map[], ids, c) == NetEffect(ps, ids, c) {
      GameSpends(ps, Amount(), s, c);
    }
  }
}
