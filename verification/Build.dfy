/** The rule objects of tm_target.c, the rule table and the run state, with the methods that change them. */
module Build {
  import opened BuildGraph
  import opened BuildRun
  import opened BuildRules

  datatype Mark = Unmarked | Temporary | Permanent

  class Rule {
    const target: string
    var deps: seq<string>
    var recipe: Option<string>
    var kind: Kind
    var mark: Mark
    var always: bool

    constructor (target: string, deps: seq<string>, recipe: Option<string>)
      ensures Says() == NewRule(target, deps, recipe, false) && mark == Unmarked
    {
      this.target, this.deps, this.recipe := target, deps, recipe;
      kind, mark, always := Explicit, Unmarked, false;
    }

    constructor File(target: string)
      ensures Says() == FileRule(target) && mark == Unmarked
    {
      this.target, deps, recipe := target, [], None;
      kind, mark, always := Filename, Unmarked, false;
    }

    constructor Copy(rule: Rule)
      ensures Says() == rule.Says() && mark == rule.mark
    {
      target, deps, recipe := rule.target, rule.deps, rule.recipe;
      kind, mark, always := rule.kind, rule.mark, rule.always;
    }

    ghost function Says(): Info
      reads this
    {
      Info(target, deps, recipe, kind, always)
    }
  }

  /** What the rules of a list say. */
  ghost predicate Shows(rules: seq<Rule>, g: seq<Info>)
    reads rules
  {
    |rules| == |g| && forall i :: 0 <= i < |g| ==> rules[i].Says() == g[i]
  }

  method FindRule(target: string, rules: seq<Rule>, ghost g: seq<Info>) returns (rule: Rule?)
    requires Shows(rules, g)
    ensures rule != null <==> HasRule(g, target)
    ensures rule != null ==> rule == rules[Find(g, target)] && rule.Says() == RuleOf(g, target)
  {
    var i := 0;
    rule := null;
    while i < |rules| && rule == null
      invariant i <= |rules|
      invariant rule == null ==> forall j :: 0 <= j < i ==> g[j].target != target
      invariant rule != null ==> HasRule(g, target) && rule == rules[Find(g, target)]
    {
      assert rules[i].Says() == g[i];
      if rules[i].target == target {
        FirstFound(g, i);
        rule := rules[i];
      }
      i := i + 1;
    }
  }

  lemma FirstFound(g: seq<Info>, i: nat)
    requires i < |g| && forall j :: 0 <= j < i ==> g[j].target != g[i].target
    ensures Find(g, g[i].target) == i
  {
    var k := Find(g, g[i].target);
    assert !(k < i);
  }

  ghost predicate Apart(rules: seq<Rule>) {
    forall i, j :: 0 <= i < j < |rules| ==> rules[i] != rules[j]
  }

  /** The objects say what the rules for these targets say and carry the marks those rules carry. */
  ghost predicate Copies(mapped: seq<Rule>, rules: seq<Rule>, g: seq<Info>, names: seq<string>)
    requires |rules| == |g|
    reads mapped, rules
  {
    && |mapped| == |names| && Apart(mapped)
    && forall i :: 0 <= i < |names| ==>
         && HasRule(g, names[i]) && mapped[i].Says() == RuleOf(g, names[i])
         && mapped[i].mark == rules[Find(g, names[i])].mark
  }

  lemma ChildrenSnoc(g: seq<Info>, deps: seq<string>, i: nat)
    requires i < |deps|
    ensures Children(g, deps[..i + 1]) == (if HasRule(g, deps[i]) then [deps[i]] else []) + Children(g, deps[..i])
  {
    ChildrenStep(g, deps[..i], deps[i]);
    assert deps[..i + 1] == deps[..i] + [deps[i]];
  }

  lemma {:induction false} ChildrenStep(g: seq<Info>, deps: seq<string>, d: string)
    ensures Children(g, deps + [d]) == (if HasRule(g, d) then [d] else []) + Children(g, deps)
    decreases |deps|
  {
    if deps != [] {
      ChildrenStep(g, deps[1..], d);
      assert (deps + [d])[1..] == deps[1..] + [d];
    }
  }

  lemma CopiesCons(copy: Rule, mapped: seq<Rule>, rules: seq<Rule>, g: seq<Info>, t: string, names: seq<string>)
    requires |rules| == |g| && Copies(mapped, rules, g, names) && copy !in mapped
    requires HasRule(g, t) && copy.Says() == RuleOf(g, t) && copy.mark == rules[Find(g, t)].mark
    ensures Copies([copy] + mapped, rules, g, [t] + names)
  {
  }

  lemma NoneToAdd(names: seq<string>)
    ensures [] + names == names
  {
  }

  method FindRules(targets: seq<string>, rules: seq<Rule>, ghost g: seq<Info>) returns (mapped: seq<Rule>)
    requires Shows(rules, g)
    ensures fresh(mapped) && Copies(mapped, rules, g, Children(g, targets))
  {
    mapped := [];
    var i := 0;
    assert targets[..0] == [];
    while i < |targets|
      invariant i <= |targets| && fresh(mapped)
      invariant Copies(mapped, rules, g, Children(g, targets[..i]))
    {
      mapped := MapRule(targets[i], rules, mapped, g, Children(g, targets[..i]));
      ChildrenSnoc(g, targets, i);
      i := i + 1;
    }
    assert targets[..|targets|] == targets;
  }

  method MapRule(target: string, rules: seq<Rule>, mapped: seq<Rule>, ghost g: seq<Info>, ghost names: seq<string>)
    returns (longer: seq<Rule>)
    requires Shows(rules, g) && Copies(mapped, rules, g, names)
    ensures longer == mapped || (|longer| == |mapped| + 1 && fresh(longer[0]) && longer == [longer[0]] + mapped)
    ensures Copies(longer, rules, g, (if HasRule(g, target) then [target] else []) + names)
  {
    var rule := FindRule(target, rules, g);
    longer := mapped;
    if rule != null {
      var copy := new Rule.Copy(rule);
      CopiesCons(copy, mapped, rules, g, target, names);
      longer := [copy] + mapped;
    } else {
      NoneToAdd(names);
    }
  }

  // ----- The visit -----

  /** The rules of the table are unmarked, except for the goal's own one while it is being visited. */
  ghost predicate Marked(rules: seq<Rule>, g: seq<Info>, goal: string, inside: bool)
    requires |rules| == |g|
    reads rules
  {
    forall i :: 0 <= i < |g| ==> rules[i].mark == if inside && g[i].target == goal then Temporary else Unmarked
  }

  /** The list, read from its end, has copies of the rules for these targets. */
  ghost predicate Sorts(sorted: seq<Rule>, g: seq<Info>, order: seq<string>)
    reads sorted
  {
    && |sorted| == |order|
    && forall i :: 0 <= i < |order| ==> HasRule(g, order[i]) && sorted[|order| - 1 - i].Says() == RuleOf(g, order[i])
  }

  /** What a visit of dependencies relies on. */
  ghost predicate Inside(rules: seq<Rule>, g: seq<Info>, goal: string)
    reads rules
  {
    Shows(rules, g) && Unique(g) && Marked(rules, g, goal, true)
  }

  /** What a visit of an unmarked rule relies on, the goal's own or a copy of another. */
  ghost predicate Visitable(rule: Rule, rules: seq<Rule>, g: seq<Info>, goal: string, t: string)
    reads rule, rules
  {
    && Shows(rules, g) && Unique(g) && HasRule(g, t) && rule.Says() == RuleOf(g, t)
    && Marked(rules, g, goal, rule !in rules)
    && (rule in rules ==> t == goal && rule == rules[Find(g, goal)])
  }

  /** The copies from the k-th on are still to be visited; one of the goal carries the mark of the goal. */
  ghost predicate Pending(deps: seq<Rule>, rules: seq<Rule>, g: seq<Info>, goal: string, ds: seq<string>, k: nat)
    reads deps
  {
    && |deps| == |ds| && Apart(deps) && k <= |ds|
    && forall j :: k <= j < |ds| ==>
         && deps[j] !in rules && HasRule(g, ds[j]) && deps[j].Says() == RuleOf(g, ds[j])
         && deps[j].mark == if ds[j] == goal then Temporary else Unmarked
  }

  lemma CopiesArePending(deps: seq<Rule>, rules: seq<Rule>, g: seq<Info>, goal: string, ds: seq<string>)
    requires |rules| == |g| && Copies(deps, rules, g, ds) && Marked(rules, g, goal, true)
    requires forall r :: r in deps ==> r !in rules
    ensures Pending(deps, rules, g, goal, ds, 0)
  {
  }

  lemma SortsCons(copy: Rule, sorted: seq<Rule>, g: seq<Info>, order: seq<string>, t: string)
    requires Sorts(sorted, g, order) && HasRule(g, t) && copy.Says() == RuleOf(g, t)
    ensures Sorts([copy] + sorted, g, order + [t])
  {
  }

  method VisitDep(dep: Rule, deps: seq<Rule>, k: nat, rules: seq<Rule>, sorted: seq<Rule>,
                  ghost g: seq<Info>, ghost goal: string, ghost ds: seq<string>, ghost depth: nat, ghost order: seq<string>)
    returns (n: int, longer: seq<Rule>)
    requires Inside(rules, g, goal) && k < |ds| && HasRule(g, ds[k]) && !Next(g, goal, ds[k], depth).CutOff?
    requires Pending(deps, rules, g, goal, ds, k) && dep == deps[k] && Sorts(sorted, g, order)
    modifies dep`mark
    ensures Inside(rules, g, goal) && Pending(deps, rules, g, goal, ds, k + 1)
    ensures match Next(g, goal, ds[k], depth)
            case Done(ts) => n == 0 && Sorts(longer, g, order + ts)
            case _ => n < 0
    decreases depth, 1
  {
    n, longer := TopsortVisit(dep, rules, sorted, g, goal, ds[k], depth, order);
  }

  /** The visits of the dependencies of a rule, up to the first that fails. */
  method VisitDeps(deps: seq<Rule>, rules: seq<Rule>, sorted: seq<Rule>,
                   ghost g: seq<Info>, ghost goal: string, ghost ds: seq<string>, ghost depth: nat, ghost order: seq<string>)
    returns (n: int, longer: seq<Rule>)
    requires Inside(rules, g, goal) && AllRules(g, ds) && !VisitAll(g, goal, ds, depth).CutOff?
    requires Pending(deps, rules, g, goal, ds, 0) && Sorts(sorted, g, order)
    modifies deps`mark
    ensures match VisitAll(g, goal, ds, depth)
            case Done(ts) => n == 0 && Sorts(longer, g, order + ts)
            case _ => n < 0
    decreases depth, 2
  {
    n, longer := 0, sorted;
    ghost var acc: seq<string>, rest := [], ds;
    var k := 0;
    AppendNothing(VisitAll(g, goal, ds, depth), order);
    while k < |deps| && n == 0
      invariant k <= |deps| && Inside(rules, g, goal) && Pending(deps, rules, g, goal, ds, k)
      invariant rest == ds[k..] && AllRules(g, rest)
      invariant n < 0 ==> VisitAll(g, goal, ds, depth).Back?
      invariant n == 0 ==> VisitAll(g, goal, ds, depth) == Append(acc, VisitAll(g, goal, rest, depth))
      invariant n <= 0 && (n == 0 ==> Sorts(longer, g, order + acc))
    {
      VisitAllStep(g, goal, ds, depth, k, acc);
      n, longer := VisitDep(deps[k], deps, k, rules, longer, g, goal, ds, depth, order + acc);
      if n == 0 {
        Assoc(order, acc, Next(g, goal, ds[k], depth).ts);
        acc := acc + Next(g, goal, ds[k], depth).ts;
      }
      k := k + 1;
      rest := ds[k..];
    }
    AppendNothing(CutOff, acc);
  }

  /** The visits of copies of the rules of some dependencies. */
  method VisitBelow(targets: seq<string>, rules: seq<Rule>, sorted: seq<Rule>,
                    ghost g: seq<Info>, ghost goal: string, ghost ds: seq<string>, ghost depth: nat, ghost order: seq<string>)
    returns (n: int, longer: seq<Rule>)
    requires Inside(rules, g, goal) && ds == Children(g, targets) && !VisitAll(g, goal, ds, depth).CutOff?
    requires Sorts(sorted, g, order)
    modifies {}
    ensures match VisitAll(g, goal, ds, depth)
            case Done(ts) => n == 0 && Sorts(longer, g, order + ts)
            case _ => n < 0
    decreases depth, 3
  {
    var deps := FindRules(targets, rules, g);
    CopiesArePending(deps, rules, g, goal, ds);
    n, longer := VisitDeps(deps, rules, sorted, g, goal, ds, depth, order);
  }

  lemma Assoc(a: seq<string>, b: seq<string>, c: seq<string>)
    ensures (a + b) + c == a + (b + c)
  {
  }

  method Enter(rule: Rule, rules: seq<Rule>, ghost g: seq<Info>, ghost goal: string, ghost t: string)
    requires Visitable(rule, rules, g, goal, t)
    modifies rule`mark
    ensures rule.mark == Temporary && rule.Says() == RuleOf(g, t) && Inside(rules, g, goal)
  {
    ghost var own := rule in rules;
    rule.mark := Temporary;
    if own {
      forall i | 0 <= i < |g|
        ensures rules[i].mark == if g[i].target == goal then Temporary else Unmarked
      {
        FindIs(g, i);
      }
    }
  }

  method Leave(rule: Rule, sorted: seq<Rule>, ghost g: seq<Info>, ghost order: seq<string>, ghost ts: seq<string>, ghost t: string)
    returns (longer: seq<Rule>)
    requires Sorts(sorted, g, order + ts) && HasRule(g, t) && rule.Says() == RuleOf(g, t)
    modifies rule`mark
    ensures Sorts(longer, g, order + (ts + [t])) && rule.mark == Permanent
  {
    rule.mark := Permanent;
    var copy := new Rule.Copy(rule);
    SortsCons(copy, sorted, g, order + ts, t);
    Assoc(order, ts, [t]);
    longer := [copy] + sorted;
  }

  method TopsortVisit(rule: Rule, rules: seq<Rule>, sorted: seq<Rule>,
                      ghost g: seq<Info>, ghost goal: string, ghost t: string, ghost depth: nat, ghost order: seq<string>)
    returns (n: int, longer: seq<Rule>)
    requires rule.mark == Unmarked ==>
               Visitable(rule, rules, g, goal, t) && Sorts(sorted, g, order) && !Visit(g, goal, t, depth).CutOff?
    modifies rule`mark
    ensures old(rule.mark) == Temporary ==> n < 0
    ensures old(rule.mark) == Permanent ==> n == 0 && longer == sorted
    ensures old(rule.mark) == Unmarked ==>
      match Visit(g, goal, t, depth)
      case Done(ts) => n == 0 && Sorts(longer, g, order + ts)
      case _ => n < 0
    decreases depth, 0
  {
    n, longer := 0, sorted;
    if rule.mark == Temporary {
      n := -1;
    } else if rule.mark == Unmarked {
      ghost var ds := Children(g, RuleOf(g, t).deps);
      VisitIs(g, goal, t, depth, ds);
      Enter(rule, rules, g, goal, t);
      n, longer := VisitBelow(rule.deps, rules, longer, g, goal, ds, depth - 1, order);
      if n == 0 {
        longer := Leave(rule, longer, g, order, VisitAll(g, goal, ds, depth - 1).ts, t);
      }
    }
  }

  /** The list has copies of the rules for these targets, in this order. */
  ghost predicate Lists(list: seq<Rule>, g: seq<Info>, order: seq<string>)
    reads list
  {
    && |list| == |order|
    && forall i :: 0 <= i < |order| ==> HasRule(g, order[i]) && list[i].Says() == RuleOf(g, order[i])
  }

  method RuleListReverse(sorted: seq<Rule>, ghost g: seq<Info>, ghost order: seq<string>) returns (rev: seq<Rule>)
    requires Sorts(sorted, g, order)
    ensures fresh(rev) && Apart(rev) && Lists(rev, g, order)
  {
    rev := [];
    var i := 0;
    ghost var n := |order|;
    while i < |sorted|
      invariant i <= |sorted| && fresh(rev) && Apart(rev)
      invariant EndLists(rev, g, order, i)
    {
      assert sorted[n - 1 - (n - 1 - i)].Says() == RuleOf(g, order[n - 1 - i]);
      var copy := new Rule.Copy(sorted[i]);
      rev := [copy] + rev;
      i := i + 1;
    }
  }

  /** The list has copies of the rules for the last `i` of these targets. */
  ghost predicate EndLists(list: seq<Rule>, g: seq<Info>, order: seq<string>, i: nat)
    reads list
  {
    && i <= |order| && |list| == i
    && forall j :: |order| - i <= j < |order| ==> HasRule(g, order[j]) && list[j - (|order| - i)].Says() == RuleOf(g, order[j])
  }

  /** The rules the goal depends on and the goal's own, sorted; the empty list stands for a failure. */
  method Topsort(target: string, rules: seq<Rule>, ghost g: seq<Info>) returns (list: seq<Rule>)
    requires Shows(rules, g) && Unique(g) && Marked(rules, g, target, false)
    requires Ends(g, target)
    modifies rules`mark
    ensures Shows(rules, g)
    ensures !HasRule(g, target) ==> list == []
    ensures HasRule(g, target) ==>
      match Sorted(g, target)
      case Done(ts) => Lists(list, g, ts) && Apart(list) && fresh(list)
      case _ => list == []
  {
    list := [];
    var rule := FindRule(target, rules, g);
    if rule != null {
      VisitEndsIff(g, target);
      var n, sorted := TopsortVisit(rule, rules, [], g, target, target, |g|, []);
      if n == 0 {
        ghost var ts := Sorted(g, target).ts;
        assert [] + ts == ts;
        list := RuleListReverse(sorted, g, ts);
      }
    }
  }

  // ----- The rule table -----

  datatype Outcome = NoRule | Cyclic | Stopped | Made

  class Builder {
    /** The contents of the files, and the hash of a text. */
    const files: map<string, string>
    const hash: string -> string
    var rules: seq<Rule>
    var goal: Option<string>
    var updated: seq<string>
    var cache: map<string, string>
    var log: seq<string>

    constructor (files: map<string, string>, hash: string -> string, cache: map<string, string>)
      ensures rules == [] && goal == None && Now() == Start(cache)
      ensures this.files == files && this.hash == hash
    {
      this.files, this.hash, this.cache := files, hash, cache;
      rules, goal, updated, log := [], None, [], [];
    }

    /** The table of unmarked rules says this. */
    ghost predicate Table(g: seq<Info>)
      reads this`rules, rules
    {
      Shows(rules, g) && Apart(rules) && forall r :: r in rules ==> r.mark == Unmarked
    }

    ghost function Now(): State
      reads this`updated, this`cache, this`log
    {
      State((set t | t in updated), cache, log)
    }

    /** New dependencies for a rule, each put in front. */
    static method PushDeps(rule: Rule, deps: seq<string>)
      modifies rule`deps
      ensures rule.deps == Push(deps, old(rule.deps))
    {
      var i := 0;
      while i < |deps|
        invariant i <= |deps|
        invariant Push(deps[i..], rule.deps) == Push(deps, old(rule.deps))
      {
        assert deps[i..][1..] == deps[i + 1..];
        rule.deps := [deps[i]] + rule.deps;
        i := i + 1;
      }
    }

    /** More dependencies, and perhaps a recipe, for a rule there is. */
    static method Amend(rule: Rule, deps: seq<string>, recipe: Option<string>)
      modifies rule`deps, rule`recipe, rule`kind
      ensures rule.Says() == Info(rule.target, Push(deps, old(rule.deps)),
                                  if recipe.Some? then recipe else old(rule.recipe), Explicit, rule.always)
    {
      if recipe.Some? {
        rule.recipe := recipe;
      }
      PushDeps(rule, deps);
      rule.kind := Explicit;
    }

    method AmendAt(rule: Rule, deps: seq<string>, recipe: Option<string>, ghost g: seq<Info>, ghost k: nat)
      requires Table(g) && k < |g| && rules[k] == rule
      modifies rule`deps, rule`recipe, rule`kind
      ensures Table(g[k := Info(g[k].target, Push(deps, g[k].deps), if recipe.Some? then recipe else g[k].recipe, Explicit, g[k].always)])
    {
      assert rule.Says() == g[k];
      Amend(rule, deps, recipe);
    }

    /** A copy of a rule becomes the head of the table. */
    method Prepend(rule: Rule, ghost g: seq<Info>)
      requires Table(g) && rule.mark == Unmarked
      modifies this`rules
      ensures Table([rule.Says()] + g)
      ensures |rules| > 0 && fresh(rules[0]) && rules == [rules[0]] + old(rules)
    {
      var copy := new Rule.Copy(rule);
      rules := [copy] + rules;
    }

    /** One target of a rule command; false if it would get a second recipe. */
    method DefineTarget(target: string, deps: seq<string>, recipe: Option<string>, always: bool, ghost g: seq<Info>)
      returns (ok: bool)
      requires Table(g)
      modifies this`rules, rules`deps, rules`recipe, rules`kind
      ensures ok == !Clashes(g, target, recipe)
      ensures Table(if ok then DefineOne(g, target, deps, recipe, always) else g)
      ensures rules == old(rules) || (|rules| > 0 && fresh(rules[0]) && rules == [rules[0]] + old(rules))
    {
      ok := true;
      var rule := FindRule(target, rules, g);
      if rule != null {
        if recipe.Some? && rule.recipe.Some? {
          ok := false;
        } else {
          AmendAt(rule, deps, recipe, g, Find(g, target));
        }
      } else {
        rule := new Rule(target, deps, recipe);
        if always {
          rule.always := true;
        }
        Prepend(rule, g);
      }
    }

    /** The goal is the first target that any command defines. */
    static function GoalAfter(goal: Option<string>, g: seq<Info>, targets: seq<string>, recipe: Option<string>): Option<string> {
      if goal == None && targets != [] && !Clashes(g, targets[0], recipe) then Some(targets[0]) else goal
    }

    static lemma DefineStep(g: seq<Info>, targets: seq<string>, i: nat, deps: seq<string>, recipe: Option<string>, always: bool)
      requires i < |targets|
      ensures Clashes(g, targets[i], recipe) ==> Define(g, targets[i..], deps, recipe, always) == (g, false)
      ensures !Clashes(g, targets[i], recipe) ==>
                Define(g, targets[i..], deps, recipe, always) ==
                Define(DefineOne(g, targets[i], deps, recipe, always), targets[i + 1..], deps, recipe, always)
      ensures targets[i..] != [] && targets[i..][0] == targets[i]
    {
      assert targets[i..][1..] == targets[i + 1..];
    }

    /** One pass of the loop of the command. */
    method RuleTarget(target: string, deps: seq<string>, recipe: Option<string>, always: bool, ghost g: seq<Info>)
      returns (ok: bool)
      requires Table(g)
      modifies this`rules, this`goal, rules`deps, rules`recipe, rules`kind
      ensures ok == !Clashes(g, target, recipe)
      ensures Table(if ok then DefineOne(g, target, deps, recipe, always) else g)
      ensures rules == old(rules) || (|rules| > 0 && fresh(rules[0]) && rules == [rules[0]] + old(rules))
      ensures goal == if ok && old(goal) == None then Some(target) else old(goal)
    {
      ok := DefineTarget(target, deps, recipe, always, g);
      if ok && goal == None {
        goal := Some(target);
      }
    }

    /** The `rule` command, or `rule!` if `always` holds. */
    method RuleCmd(targets: seq<string>, args: seq<string>, recipe: Option<string>, always: bool, ghost g: seq<Info>)
      returns (ok: bool)
      requires Table(g)
      modifies this`rules, this`goal, rules`deps, rules`recipe, rules`kind
      ensures Table(Define(g, targets, Reverse(args), recipe, always).0)
      ensures ok == (targets != [] && Define(g, targets, Reverse(args), recipe, always).1)
      ensures goal == GoalAfter(old(goal), g, targets, recipe)
    {
      var deps := TargetListReverse(args);
      if targets == [] {
        return false;
      }
      ok := DefineAll(targets, deps, recipe, always, g);
    }

    /** The loop of the command. */
    method DefineAll(targets: seq<string>, deps: seq<string>, recipe: Option<string>, always: bool, ghost g: seq<Info>)
      returns (ok: bool)
      requires Table(g)
      modifies this`rules, this`goal, rules`deps, rules`recipe, rules`kind
      ensures Define(g, targets, deps, recipe, always).1 == ok && Table(Define(g, targets, deps, recipe, always).0)
      ensures goal == GoalAfter(old(goal), g, targets, recipe)
    {
      ghost var now, rest := g, targets;
      ghost var end, aim := Define(g, targets, deps, recipe, always), GoalAfter(goal, g, targets, recipe);
      ok := true;
      var i := 0;
      while i < |targets| && ok
        invariant i <= |targets| && rest == targets[i..]
        invariant Table(now) && forall j :: 0 <= j < |rules| ==> rules[j] in old(rules) || fresh(rules[j])
        invariant if ok then GoalAfter(goal, now, rest, recipe) == aim else goal == aim
        invariant if ok then Define(now, rest, deps, recipe, always) == end else end == (now, false)
        decreases |targets| - i, ok
      {
        DefineStep(now, targets, i, deps, recipe, always);
        ok := RuleTarget(targets[i], deps, recipe, always, now);
        if ok {
          now := DefineOne(now, targets[i], deps, recipe, always);
          i := i + 1;
          rest := targets[i..];
        }
      }
    }

    static method TargetListReverse(targets: seq<string>) returns (rev: seq<string>)
      ensures rev == Reverse(targets)
    {
      rev := [];
      var i := 0;
      while i < |targets|
        invariant i <= |targets|
        invariant Reverse(targets[i..]) + rev == Reverse(targets)
      {
        assert targets[i..][1..] == targets[i + 1..];
        assert Reverse(targets[i + 1..]) + [targets[i]] + rev == Reverse(targets[i + 1..]) + ([targets[i]] + rev);
        rev := [targets[i]] + rev;
        i := i + 1;
      }
    }

    method FindFilesFromDeps(deps: seq<string>, ghost g: seq<Info>)
      requires Table(g)
      modifies this`rules
      ensures Table(AddMissing(g, deps))
      ensures forall j :: 0 <= j < |rules| ==> rules[j] in old(rules) || fresh(rules[j])
    {
      ghost var now := g;
      var i := 0;
      while i < |deps|
        invariant i <= |deps| && Table(now)
        invariant forall j :: 0 <= j < |rules| ==> rules[j] in old(rules) || fresh(rules[j])
        invariant AddMissing(now, deps[i..]) == AddMissing(g, deps)
      {
        assert deps[i..][1..] == deps[i + 1..];
        var rule := FindRule(deps[i], rules, now);
        if rule == null {
          rule := new Rule.File(deps[i]);
          Prepend(rule, now);
          now := [FileRule(deps[i])] + now;
        }
        i := i + 1;
      }
    }

    /** Gives every dependency without a rule a filename rule. */
    method FindFiles(ghost g: seq<Info>)
      requires Table(g)
      modifies this`rules
      ensures Table(AddAllMissing(g, g))
      ensures forall j :: 0 <= j < |rules| ==> rules[j] in old(rules) || fresh(rules[j])
    {
      ghost var now := g;
      var node := rules;
      var i := 0;
      while i < |node|
        invariant i <= |node| && Table(now) && Shows(node, g)
        invariant forall j :: 0 <= j < |rules| ==> rules[j] in old(rules) || fresh(rules[j])
        invariant AddAllMissing(now, g[i..]) == AddAllMissing(g, g)
      {
        assert g[i..][1..] == g[i + 1..] && g[i..][0] == node[i].Says();
        FindFilesFromDeps(node[i].deps, now);
        now := AddMissing(now, g[i].deps);
        i := i + 1;
      }
    }
  
    // ----- The run -----

    /** The rules, files and hash function are those of the world. */
    ghost predicate Fits(w: World)
      reads this`rules, rules
    {
      Shows(rules, w.g) && w.files == files && w.hash == hash && Sound(w.g)
    }

    method WasUpdated(target: string) returns (was: bool)
      ensures was == (target in Now().updated)
    {
      was := false;
      var i := 0;
      while i < |updated| && !was
        invariant i <= |updated|
        invariant was <==> target in updated[..i]
      {
        was := updated[i] == target;
        i := i + 1;
      }
    }

    method HashOf(rule: Rule, ghost w: World) returns (h: Option<string>)
      requires Fits(w)
      ensures h == CurrentHash(w, rule.Says())
    {
      match rule.kind
      case Explicit => h := Some(hash(if rule.recipe.Some? then rule.recipe.value else ""));
      case Filename => h := if rule.target in files then Some(hash(files[rule.target])) else None;
      case _ => h := None;
    }

    method AnyUpdated(deps: seq<string>) returns (any: bool)
      ensures any == SomeUpdated(deps, Now().updated)
    {
      any := false;
      var i := 0;
      while i < |deps| && !any
        invariant i <= |deps|
        invariant any <==> SomeUpdated(deps[..i], Now().updated)
      {
        any := WasUpdated(deps[i]);
        assert deps[..i + 1] == deps[..i] + [deps[i]];
        i := i + 1;
      }
      assert deps[..|deps|] == deps;
    }

    method NeedsUpdate(target: string, ghost w: World) returns (needs: bool)
      requires Fits(w)
      ensures needs == Needs(w, Now(), target)
    {
      var rule := FindRule(target, rules, w.g);
      if rule == null || rule.always {
        return true;
      }
      var any := AnyUpdated(rule.deps);
      if any {
        return true;
      }
      var h := HashOf(rule, w);
      needs := !(target in cache && h == Some(cache[target]));
    }

    method NeedUpdate(targets: seq<string>, ghost w: World) returns (oodate: seq<string>)
      requires Fits(w)
      ensures forall t :: t in oodate <==> t in targets && Needs(w, Now(), t)
    {
      oodate := [];
      var i := 0;
      while i < |targets|
        invariant i <= |targets|
        invariant forall t :: t in oodate <==> t in targets[..i] && Needs(w, Now(), t)
      {
        var needs := NeedsUpdate(targets[i], w);
        assert targets[..i + 1] == targets[..i] + [targets[i]];
        if needs {
          oodate := [targets[i]] + oodate;
        }
        i := i + 1;
      }
    }

    /** Records that a target was updated. */
    method Update(target: string, ghost w: World) returns (ok: bool)
      requires Fits(w)
      modifies this`updated, this`cache
      ensures HasRule(w.g, target) && CurrentHash(w, RuleOf(w.g, target)).Some? ==>
                ok && Now() == Record(w, old(Now()), RuleOf(w.g, target))
      ensures !HasRule(w.g, target) ==> !ok && Now() == old(Now())
    {
      var rule := FindRule(target, rules, w.g);
      if rule == null {
        return false;
      }
      updated := [rule.target] + updated;
      assert (set t | t in updated) == (set t | t in old(updated)) + {target};
      var h := HashOf(rule, w);
      ok := h.Some?;
      if ok {
        cache := cache[target := h.value];
      }
    }

    method ShouldRun(target: string, force: bool, ghost w: World) returns (needs: bool)
      requires Fits(w)
      ensures needs == (force || Needs(w, Now(), target))
    {
      needs := force;
      if !needs {
        needs := NeedsUpdate(target, w);
      }
    }

    /** One recipe-bearing rule that is out of date: the inner call, the recipe and the new hash, unless the
        target was updated before. */
    method RunRecipe(rule: Rule, force: bool, ghost w: World, ghost t: string, ghost done: seq<string>, ghost idle: bool)
      requires Fits(w) && force == w.force && rule.target == t && Ready(w, Now(), done, idle, t)
      requires rule.Says() == RuleOf(w.g, t) && HasRecipe(RuleOf(w.g, t)) && (w.force || Needs(w, Now(), t))
      modifies this`updated, this`cache, this`log
      ensures Now() == Step(w, old(Now()), t)
      decreases if idle then 0 else 1, 0
    {
      var oodateDeps := NeedUpdate(rule.deps, w);
      var oodateRules := FindRules(oodateDeps, rules, w.g);
      var was := WasUpdated(rule.target);
      if !was {
        AboutToRun(w, Now(), done, idle, t);
        InnerIsRunnable(w, Now(), done, idle, t, oodateDeps);
        var ok := UpdateRules(oodateRules, force, w, Children(w.g, oodateDeps), done, true);
        log := log + [rule.target];
        ok := Update(rule.target, w);
      }
    }

    /** One entry of the sorted list; false if the run is stopped by a missing file. */
    method UpdateRule(rule: Rule, force: bool, ghost w: World, ghost t: string, ghost done: seq<string>, ghost idle: bool)
      returns (ok: bool)
      requires Fits(w) && force == w.force && rule.target == t && rule !in rules
      requires Ready(w, Now(), done, idle, t) && rule.Says() == RuleOf(w.g, t)
      modifies this`updated, this`cache, this`log, rule`kind
      ensures ok == Present(w, t)
      ensures ok ==> Now() == Step(w, old(Now()), t)
      decreases if idle then 0 else 1, 1
    {
      ok := true;
      if rule.kind == Explicit {
        if rule.recipe.Some? {
          var needs := ShouldRun(rule.target, force, w);
          if needs {
            RunRecipe(rule, force, w, t, done, idle);
            rule.kind := Updated;
          }
        }
      } else if rule.kind == Filename {
        ok := rule.target in files;
        if ok {
          var needs := ShouldRun(rule.target, force, w);
          if needs {
            var recorded := Update(rule.target, w);
            rule.kind := Updated;
          }
        }
      }
    }

    /** Takes the entries of a list one by one, up to the first missing file. */
    method UpdateRules(sorted: seq<Rule>, force: bool, ghost w: World, ghost ts: seq<string>, ghost done: seq<string>, ghost idle: bool)
      returns (ok: bool)
      requires Fits(w) && force == w.force && Lists(sorted, w.g, ts) && Apart(sorted)
      requires forall i :: 0 <= i < |sorted| ==> sorted[i] !in rules
      requires Runnable(w, Now(), ts, done, idle)
      modifies this`updated, this`cache, this`log, sorted`kind
      ensures ok == AllPresent(w, ts)
      ensures ok ==> Now() == Run(w, old(Now()), ts)
      decreases if idle then 0 else 1, 2
    {
      ok := true;
      var i := 0;
      ghost var start, prefix := Now(), ts[..0];
      TakeAll(ts);
      while i < |sorted| && ok
        invariant i <= |sorted| && prefix == ts[..i]
        invariant forall j :: i <= j < |sorted| ==> sorted[j].Says() == RuleOf(w.g, ts[j])
        invariant AllRules(w.g, prefix)
        invariant if ok then AllPresent(w, prefix) && Now() == Run(w, start, prefix) else !AllPresent(w, ts)
        decreases |sorted| - i, ok
      {
        TakeEntry(w, start, ts, done, idle, i, prefix);
        ok := UpdateRule(sorted[i], force, w, ts[i], if idle then done else prefix, idle);
        i := i + 1;
        prefix := ts[..i];
      }
    }
  
    // ----- From the rules to a build -----

    /** Runs the sorted rules of a goal. */
    method RunSorted(sorted: seq<Rule>, goal: string, force: bool, ghost w: World, ghost ts: seq<string>) returns (r: Outcome)
      requires Fits(w) && force == w.force && Lists(sorted, w.g, ts) && Apart(sorted) && Now() == Start(cache)
      requires forall i :: 0 <= i < |sorted| ==> sorted[i] !in rules
      requires HasRule(w.g, goal) && Sorted(w.g, goal) == Done(ts)
      modifies this`updated, this`cache, this`log, sorted`kind
      ensures r == if FilesThere(w, goal) then Made else Stopped
      ensures r == Made ==> BuildMeans(w, goal, old(cache), Now())
    {
      BuildIsMeant(w, goal, cache, ts);
      PresentIffThere(w, goal, ts);
      var ok := UpdateRules(sorted, force, w, ts, [], false);
      r := if ok then Made else Stopped;
    }

    /** Makes the goal with the closed table. */
    method MakeClosed(goal: string, force: bool, ghost w: World) returns (r: Outcome)
      requires Table(w.g) && Fits(w) && force == w.force && Now() == Start(cache)
      requires HasRule(w.g, goal) && Ends(w.g, goal)
      modifies this`updated, this`cache, this`log, rules`mark
      ensures r == Cyclic <==> exists q :: Cycle(w.g, q) && q[0] == goal
      ensures r == Stopped ==> !FilesThere(w, goal)
      ensures r == Made ==> FilesThere(w, goal) && BuildMeans(w, goal, old(cache), Now()) && Sorted(w.g, goal).Done?
      ensures r != NoRule
    {
      SortedFailsIffCycle(w.g, goal);
      VisitEndsIff(w.g, goal);
      var sorted := Topsort(goal, rules, w.g);
      if sorted == [] {
        if Sorted(w.g, goal).Done? {
          SortedIsOrder(w.g, goal, Sorted(w.g, goal).ts);
        }
        return Cyclic;
      }
      r := RunSorted(sorted, goal, force, w, Sorted(w.g, goal).ts);
    }

    /** Makes the goal with the rules of the table. */
    method Make(goal: string, force: bool, ghost g: seq<Info>, ghost w: World) returns (r: Outcome)
      requires Table(g) && Unique(g) && AllExplicit(g) && Now() == Start(cache)
      requires w == World(AddAllMissing(g, g), files, hash, force) && Ends(w.g, goal)
      modifies this`rules, this`updated, this`cache, this`log, rules`mark
      ensures r == NoRule <==> !HasRule(g, goal)
      ensures r == Cyclic <==> HasRule(g, goal) && exists q :: Cycle(w.g, q) && q[0] == goal
      ensures r == Stopped ==> !FilesThere(w, goal)
      ensures r == Made ==> FilesThere(w, goal) && BuildMeans(w, goal, old(cache), Now())
      ensures r == Made ==> HasRule(w.g, goal) && Sorted(w.g, goal).Done?
    {
      var rule := FindRule(goal, rules, g);
      if rule == null {
        return NoRule;
      }
      FindFiles(g);
      FindFilesCloses(g);
      r := MakeClosed(goal, force, w);
    }

    /** Makes the goal twice: this builder first, then one with the same rules that loads the cache it left. */
    method MakeTwice(goal: string, force: bool, again: Builder, ghost g: seq<Info>, ghost w: World) returns (r: Outcome, r2: Outcome)
      requires Table(g) && Unique(g) && AllExplicit(g) && Now() == Start(cache) && Ends(w.g, goal)
      requires again.Table(g) && again.Now() == Start(again.cache)
      requires again != this && (forall rule :: rule in rules ==> rule !in again.rules)
      requires w == World(AddAllMissing(g, g), files, hash, false) && again.files == files && again.hash == hash
      modifies this`rules, this`updated, this`cache, this`log, rules`mark
      modifies again`rules, again`updated, again`cache, again`log, again.rules`mark
      ensures r == Made ==> r2 == Made
      ensures r == Made ==> (again.log != [] <==> SomeAlwaysRuns(w.g, goal))
      ensures r == Made && !SomeAlwaysRuns(w.g, goal) ==> again.Now() == Start(cache)
    {
      r := Make(goal, force, g, w.(force := force));
      again.cache := cache;
      r2 := again.Make(goal, false, g, w);
      if r == Made {
        FindFilesCloses(g);
        SecondBuildIsIdle(w, goal, force, old(cache), Now(), again.Now());
      }
    }
  }
}
