/** The rule table as the `rule` command of tm_core_cmds.c builds it and as find_files of tm_target.c closes it. */
module BuildRules {
  import opened BuildGraph
  import opened BuildRun

  // ----- The rule command -----

  /** The dependencies of a command put in front of those a rule already has, one by one. */
  function Push(deps: seq<string>, onto: seq<string>): (r: seq<string>)
    ensures forall d :: d in r <==> d in deps || d in onto
  {
    if deps == [] then onto
    else
      assert deps == [deps[0]] + deps[1..];
      Push(deps[1..], [deps[0]] + onto)
  }

  function NewRule(t: string, deps: seq<string>, recipe: Option<string>, always: bool): Info {
    Info(t, deps, recipe, Explicit, always)
  }

  function Clashes(g: seq<Info>, t: string, recipe: Option<string>): bool {
    HasRule(g, t) && recipe.Some? && RuleOf(g, t).recipe.Some?
  }

  /** The table after the command is taken for one target that does not clash. */
  function DefineOne(g: seq<Info>, t: string, deps: seq<string>, recipe: Option<string>, always: bool): seq<Info> {
    if HasRule(g, t) then
      var i := RuleOf(g, t);
      g[Find(g, t) := Info(t, Push(deps, i.deps), if recipe.Some? then recipe else i.recipe, Explicit, i.always)]
    else [NewRule(t, deps, recipe, always)] + g
  }

  /** The table after a whole command, and whether it ended without an error. */
  function Define(g: seq<Info>, ts: seq<string>, deps: seq<string>, recipe: Option<string>, always: bool): (seq<Info>, bool)
    decreases |ts|
  {
    if ts == [] then (g, true)
    else if Clashes(g, ts[0], recipe) then (g, false)
    else Define(DefineOne(g, ts[0], deps, recipe, always), ts[1..], deps, recipe, always)
  }

  ghost predicate AllExplicit(g: seq<Info>) {
    forall i :: 0 <= i < |g| ==> g[i].kind.Explicit?
  }

  /** Rules stay, their dependencies stay, and a recipe once given stays as it is. */
  ghost predicate Refines(g: seq<Info>, g': seq<Info>) {
    forall t :: HasRule(g, t) ==>
      && HasRule(g', t)
      && (forall d :: d in RuleOf(g, t).deps ==> d in RuleOf(g', t).deps)
      && (RuleOf(g, t).recipe.Some? ==> RuleOf(g', t).recipe == RuleOf(g, t).recipe)
      && RuleOf(g', t).always == RuleOf(g, t).always
  }

  lemma DefineOneKeepsUnique(g: seq<Info>, t: string, deps: seq<string>, recipe: Option<string>, always: bool)
    requires Unique(g) && AllExplicit(g)
    ensures Unique(DefineOne(g, t, deps, recipe, always)) && AllExplicit(DefineOne(g, t, deps, recipe, always))
  {
  }

  lemma UpdateFinds(g: seq<Info>, k: nat, i: Info, x: string)
    requires k < |g| && i.target == g[k].target
    ensures Find(g[k := i], x) == Find(g, x)
  {
    var h := g[k := i];
    var a, b := Find(g, x), Find(h, x);
    assert forall j :: 0 <= j < |g| ==> h[j].target == g[j].target;
    assert !(a < b) && !(b < a);
  }

  lemma ConsFinds(g: seq<Info>, i: Info, x: string)
    ensures HasRule([i] + g, x) <==> x == i.target || HasRule(g, x)
    ensures x == i.target ==> RuleOf([i] + g, x) == i
    ensures x != i.target && HasRule(g, x) ==> RuleOf([i] + g, x) == RuleOf(g, x)
  {
    assert ([i] + g)[1..] == g;
  }

  lemma DefineOneRefines(g: seq<Info>, t: string, deps: seq<string>, recipe: Option<string>, always: bool)
    requires !Clashes(g, t, recipe)
    ensures Refines(g, DefineOne(g, t, deps, recipe, always))
  {
    var g' := DefineOne(g, t, deps, recipe, always);
    forall x | HasRule(g, x)
      ensures HasRule(g', x) && (x != t ==> RuleOf(g', x) == RuleOf(g, x))
      ensures x == t ==> g'[Find(g, t)] == RuleOf(g', t)
    {
      if HasRule(g, t) {
        UpdateFinds(g, Find(g, t), g'[Find(g, t)], x);
        assert x != t ==> Find(g, x) != Find(g, t);
      } else {
        ConsFinds(g, NewRule(t, deps, recipe, always), x);
      }
    }
  }

  lemma DefineOneIsMeant(g: seq<Info>, t: string, deps: seq<string>, recipe: Option<string>, always: bool)
    ensures var g' := DefineOne(g, t, deps, recipe, always);
            HasRule(g', t) && (forall d :: d in deps ==> d in RuleOf(g', t).deps) &&
            (recipe.Some? ==> RuleOf(g', t).recipe == recipe)
  {
    var g' := DefineOne(g, t, deps, recipe, always);
    if HasRule(g, t) {
      UpdateFinds(g, Find(g, t), g'[Find(g, t)], t);
    } else {
      ConsFinds(g, NewRule(t, deps, recipe, always), t);
    }
  }

  /** What a command for these targets may change: only they get rules, dependencies and the recipe it gives, and
      only their new rules the mark it gives. */
  ghost predicate AddsTo(x: string, was: Option<Info>, now: Info, named: bool, deps: seq<string>, recipe: Option<string>, always: bool) {
    && (was.None? ==> named && now.always == always)
    && (forall d :: d in now.deps ==> (named && d in deps) || (was.Some? && d in was.value.deps))
    && (now.recipe == (if was.Some? then was.value.recipe else None) || (named && now.recipe == recipe))
  }

  function RuleFor(g: seq<Info>, x: string): Option<Info> {
    if HasRule(g, x) then Some(RuleOf(g, x)) else None
  }

  ghost predicate Adds(g: seq<Info>, g': seq<Info>, ts: seq<string>, deps: seq<string>, recipe: Option<string>, always: bool) {
    forall x :: HasRule(g', x) ==> AddsTo(x, RuleFor(g, x), RuleOf(g', x), x in ts, deps, recipe, always)
  }

  lemma DefineOneAdds(g: seq<Info>, t: string, deps: seq<string>, recipe: Option<string>, always: bool)
    ensures Adds(g, DefineOne(g, t, deps, recipe, always), [t], deps, recipe, always)
  {
    var g' := DefineOne(g, t, deps, recipe, always);
    forall x | HasRule(g', x)
      ensures AddsTo(x, RuleFor(g, x), RuleOf(g', x), x in [t], deps, recipe, always)
    {
      if HasRule(g, t) {
        UpdateFinds(g, Find(g, t), g'[Find(g, t)], x);
      } else {
        ConsFinds(g, NewRule(t, deps, recipe, always), x);
      }
    }
  }

  lemma AddsTrans(a: seq<Info>, b: seq<Info>, c: seq<Info>, t: string, ts: seq<string>, deps: seq<string>, recipe: Option<string>, always: bool)
    requires Adds(a, b, [t], deps, recipe, always) && Adds(b, c, ts, deps, recipe, always) && Refines(a, b) && Refines(b, c)
    ensures Adds(a, c, [t] + ts, deps, recipe, always)
  {
    forall x | HasRule(c, x) ensures AddsTo(x, RuleFor(a, x), RuleOf(c, x), x in [t] + ts, deps, recipe, always) {
      assert AddsTo(x, RuleFor(b, x), RuleOf(c, x), x in ts, deps, recipe, always);
      if HasRule(b, x) {
        assert AddsTo(x, RuleFor(a, x), RuleOf(b, x), x in [t], deps, recipe, always);
      }
    }
  }

  lemma RefinesTrans(a: seq<Info>, b: seq<Info>, c: seq<Info>)
    requires Refines(a, b) && Refines(b, c)
    ensures Refines(a, c)
  {
    forall t | HasRule(a, t) ensures HasRule(b, t) {
    }
  }

  /** Whatever the command does, no target gets two rules, nothing that was said is lost, and nothing is added but
      what it says for the targets it names; and if it succeeds every one of these has the dependencies and the
      recipe it gives. */
  lemma {:induction false} DefineIsMeant(g: seq<Info>, ts: seq<string>, deps: seq<string>, recipe: Option<string>, always: bool)
    requires Unique(g) && AllExplicit(g)
    ensures var (g', ok) := Define(g, ts, deps, recipe, always);
            && Unique(g') && AllExplicit(g') && Refines(g, g') && Adds(g, g', ts, deps, recipe, always)
            && (ok ==> forall t :: t in ts ==>
                  && HasRule(g', t) && (forall d :: d in deps ==> d in RuleOf(g', t).deps)
                  && (recipe.Some? ==> RuleOf(g', t).recipe == recipe))
    decreases |ts|
  {
    if ts != [] && !Clashes(g, ts[0], recipe) {
      var g1 := DefineOne(g, ts[0], deps, recipe, always);
      DefineOneKeepsUnique(g, ts[0], deps, recipe, always);
      DefineOneRefines(g, ts[0], deps, recipe, always);
      DefineOneIsMeant(g, ts[0], deps, recipe, always);
      DefineIsMeant(g1, ts[1..], deps, recipe, always);
      RefinesTrans(g, g1, Define(g1, ts[1..], deps, recipe, always).0);
      DefineOneAdds(g, ts[0], deps, recipe, always);
      AddsTrans(g, g1, Define(g1, ts[1..], deps, recipe, always).0, ts[0], ts[1..], deps, recipe, always);
      assert ts == [ts[0]] + ts[1..];
      forall t | t in ts ensures t == ts[0] || t in ts[1..] {
      }
    }
  }

  // ----- Rules for files -----

  function FileRule(t: string): Info {
    Info(t, [], None, Filename, false)
  }

  /** The table with a file rule for each of these that has no rule. */
  function AddMissing(g: seq<Info>, deps: seq<string>): seq<Info>
    decreases |deps|
  {
    if deps == [] then g
    else AddMissing(if HasRule(g, deps[0]) then g else [FileRule(deps[0])] + g, deps[1..])
  }

  function AddAllMissing(g: seq<Info>, rs: seq<Info>): seq<Info>
    decreases |rs|
  {
    if rs == [] then g else AddAllMissing(AddMissing(g, rs[0].deps), rs[1..])
  }

  /** `g'` is `g` with file rules for some of the targets in `named`, and no target has two rules. */
  ghost predicate Extends(g: seq<Info>, g': seq<Info>, named: set<string>) {
    && Unique(g') && PlainFiles(g')
    && (forall t :: HasRule(g, t) ==> HasRule(g', t) && RuleOf(g', t) == RuleOf(g, t))
    && (forall t :: HasRule(g', t) && !HasRule(g, t) ==> t in named && RuleOf(g', t) == FileRule(t))
  }

  lemma AddOneExtends(g: seq<Info>, t: string)
    requires Unique(g) && PlainFiles(g) && !HasRule(g, t)
    ensures Extends(g, [FileRule(t)] + g, {t}) && HasRule([FileRule(t)] + g, t)
  {
    forall x ensures HasRule([FileRule(t)] + g, x) <==> x == t || HasRule(g, x)
      ensures x == t ==> RuleOf([FileRule(t)] + g, x) == FileRule(t)
      ensures x != t && HasRule(g, x) ==> RuleOf([FileRule(t)] + g, x) == RuleOf(g, x)
    {
      ConsFinds(g, FileRule(t), x);
    }
  }

  lemma ExtendsTrans(a: seq<Info>, b: seq<Info>, c: seq<Info>, m: set<string>, n: set<string>)
    requires Extends(a, b, m) && Extends(b, c, n)
    ensures Extends(a, c, m + n)
  {
    forall t | HasRule(c, t) && !HasRule(a, t) ensures t in m + n && RuleOf(c, t) == FileRule(t) {
      if HasRule(b, t) {
        assert RuleOf(c, t) == RuleOf(b, t);
      }
    }
    forall t | HasRule(a, t) ensures HasRule(c, t) && RuleOf(c, t) == RuleOf(a, t) {
      assert HasRule(b, t);
    }
  }

  function Members(deps: seq<string>): set<string> {
    set d | d in deps
  }

  lemma {:induction false} AddMissingExtends(g: seq<Info>, deps: seq<string>)
    requires Unique(g) && PlainFiles(g)
    ensures Extends(g, AddMissing(g, deps), Members(deps))
    ensures forall d :: d in deps ==> HasRule(AddMissing(g, deps), d)
    decreases |deps|
  {
    if deps != [] {
      var d := deps[0];
      var g1 := if HasRule(g, d) then g else [FileRule(d)] + g;
      if !HasRule(g, d) {
        AddOneExtends(g, d);
      } else {
        assert Extends(g, g1, {d});
      }
      AddMissingExtends(g1, deps[1..]);
      ExtendsTrans(g, g1, AddMissing(g1, deps[1..]), {d}, Members(deps[1..]));
      assert {d} + Members(deps[1..]) == Members(deps);
      forall x | x in deps ensures x == d || x in deps[1..] {
      }
    }
  }

  ghost function AllDeps(rs: seq<Info>): (s: set<string>)
    ensures forall i, d :: 0 <= i < |rs| && d in rs[i].deps ==> d in s
    ensures forall d :: d in s ==> exists i :: 0 <= i < |rs| && d in rs[i].deps
  {
    set i, d | 0 <= i < |rs| && d in rs[i].deps :: d
  }

  lemma {:induction false} AddAllMissingExtends(g: seq<Info>, rs: seq<Info>)
    requires Unique(g) && PlainFiles(g)
    ensures Extends(g, AddAllMissing(g, rs), AllDeps(rs))
    ensures forall d :: d in AllDeps(rs) ==> HasRule(AddAllMissing(g, rs), d)
    decreases |rs|
  {
    if rs != [] {
      var g1 := AddMissing(g, rs[0].deps);
      AddMissingExtends(g, rs[0].deps);
      AddAllMissingExtends(g1, rs[1..]);
      ExtendsTrans(g, g1, AddAllMissing(g1, rs[1..]), Members(rs[0].deps), AllDeps(rs[1..]));
      AllDepsSplit(rs);
    }
  }

  lemma AllDepsSplit(rs: seq<Info>)
    requires rs != []
    ensures AllDeps(rs) == Members(rs[0].deps) + AllDeps(rs[1..])
  {
    forall d | d in AllDeps(rs) ensures d in rs[0].deps || d in AllDeps(rs[1..]) {
      var i :| 0 <= i < |rs| && d in rs[i].deps;
      if i > 0 {
        assert rs[1..][i - 1] == rs[i];
      }
    }
  }

  /** Closing a table whose targets have one rule each gives every dependency a rule, adds a file rule for
      exactly the dependencies that had none, and leaves the other rules as they were. */
  lemma FindFilesCloses(g: seq<Info>)
    requires Unique(g) && PlainFiles(g)
    ensures Sound(AddAllMissing(g, g)) && Extends(g, AddAllMissing(g, g), AllDeps(g))
    ensures forall t :: HasRule(AddAllMissing(g, g), t) <==> HasRule(g, t) || t in AllDeps(g)
  {
    var g' := AddAllMissing(g, g);
    AddAllMissingExtends(g, g);
    forall i, d | 0 <= i < |g'| && d in g'[i].deps ensures HasRule(g', d) {
      var t := g'[i].target;
      FindIs(g', i);
      if HasRule(g, t) {
        assert RuleOf(g, t) == g'[i];
        assert d in AllDeps(g);
      }
    }
  }
}
