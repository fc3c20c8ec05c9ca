/** What a run of tm_update.c does, as steps over a cache, a set of updated targets and a log of recipes,
    and what that comes to: which recipes run, and when a second run has nothing to do. */
module BuildRun {
  import opened BuildGraph

  /** What a run cannot change: the rules, the contents of the files, the hash function and the force flag. */
  datatype World = World(g: seq<Info>, files: map<string, string>, hash: string -> string, force: bool)

  /** The targets updated so far, the stored hashes of one TMakefile, and the recipes that ran. */
  datatype State = State(updated: set<string>, cache: map<string, string>, log: seq<string>)

  // ----- One rule -----

  /** The hash a rule should have in the cache. A missing recipe is hashed as the empty string. */
  function CurrentHash(w: World, i: Info): Option<string> {
    match i.kind
    case Explicit => Some(w.hash(if i.recipe.Some? then i.recipe.value else ""))
    case Filename => if i.target in w.files then Some(w.hash(w.files[i.target])) else None
    case _ => None
  }

  predicate CacheAgrees(w: World, cache: map<string, string>, i: Info) {
    i.target in cache && CurrentHash(w, i) == Some(cache[i.target])
  }

  predicate SomeUpdated(deps: seq<string>, updated: set<string>) {
    exists d :: d in deps && d in updated
  }

  predicate Needs(w: World, s: State, t: string) {
    HasRule(w.g, t) ==>
      var i := RuleOf(w.g, t);
      i.always || SomeUpdated(i.deps, s.updated) || !CacheAgrees(w, s.cache, i)
  }

  predicate HasRecipe(i: Info) {
    i.kind.Explicit? && i.recipe.Some?
  }

  predicate IsFile(w: World, i: Info) {
    i.kind.Filename? && i.target in w.files
  }

  /** The effect of recording that a target was updated. */
  function Record(w: World, s: State, i: Info): State
    requires CurrentHash(w, i).Some?
  {
    s.(updated := s.updated + {i.target}, cache := s.cache[i.target := CurrentHash(w, i).value])
  }

  /** The effect of one entry of the sorted list. */
  function Step(w: World, s: State, t: string): State
    requires HasRule(w.g, t)
  {
    var i := RuleOf(w.g, t);
    if HasRecipe(i) && (w.force || Needs(w, s, t)) && t !in s.updated then
      Record(w, s, i).(log := s.log + [t])
    else if IsFile(w, i) && (w.force || Needs(w, s, t)) then Record(w, s, i)
    else s
  }

  function Run(w: World, s: State, ts: seq<string>): State
    requires AllRules(w.g, ts)
  {
    if ts == [] then s
    else
      AllRulesInit(w.g, ts);
      Step(w, Run(w, s, ts[..|ts| - 1]), ts[|ts| - 1])
  }

  lemma AllRulesInit(g: seq<Info>, ts: seq<string>)
    requires AllRules(g, ts) && ts != []
    ensures AllRules(g, ts[..|ts| - 1]) && HasRule(g, ts[|ts| - 1])
  {
    assert ts[|ts| - 1] in ts;
  }

  // ----- What the rule table satisfies -----

  /** Filename rules have neither dependencies nor a recipe and are not marked as always out of date. */
  predicate PlainFiles(g: seq<Info>) {
    forall i :: 0 <= i < |g| && g[i].kind.Filename? ==> g[i].deps == [] && !g[i].always
  }

  ghost predicate Sound(g: seq<Info>) {
    Unique(g) && Closed(g) && PlainFiles(g)
  }

  lemma RuleIsPlain(g: seq<Info>, t: string)
    requires PlainFiles(g) && HasRule(g, t) && RuleOf(g, t).kind.Filename?
    ensures RuleOf(g, t).deps == [] && !RuleOf(g, t).always
  {
  }

  lemma DepIsLink(g: seq<Info>, t: string, d: string)
    requires Closed(g) && HasRule(g, t) && d in RuleOf(g, t).deps
    ensures Link(g, t, d)
  {
    assert HasRule(g, d);
  }

  lemma DepsAreEarlier(g: seq<Info>, ts: seq<string>, t: string, d: string)
    requires Closed(g) && Ordered(g, ts) && t in ts && HasRule(g, t) && d in RuleOf(g, t).deps
    ensures d in ts
  {
    var i :| 0 <= i < |ts| && ts[i] == t;
    DepIsLink(g, t, d);
    assert d in ts[..i];
  }

  /** For the last entry of a list, the dependencies are among the entries before it. */
  lemma DepsOfLast(g: seq<Info>, ts: seq<string>, d: string)
    requires Closed(g) && Ordered(g, ts) && ts != []
    requires HasRule(g, ts[|ts| - 1]) && d in RuleOf(g, ts[|ts| - 1]).deps
    ensures d in ts[..|ts| - 1]
  {
    DepIsLink(g, ts[|ts| - 1], d);
  }

  lemma OrderedInit(g: seq<Info>, ts: seq<string>)
    requires Ordered(g, ts) && ts != []
    ensures Ordered(g, ts[..|ts| - 1])
  {
    var init := ts[..|ts| - 1];
    forall i, d | 0 <= i < |init| && Link(g, init[i], d) ensures d in init[..i] {
      assert init[..i] == ts[..i] && init[i] == ts[i];
    }
  }

  // ----- Repeats and inner calls do nothing -----

  /** Taking any of these entries again would change nothing. */
  ghost predicate Settled(w: World, s: State, ts: seq<string>) {
    AllRules(w.g, ts) && forall t :: t in ts ==> Step(w, s, t) == s
  }

  lemma StepTwice(w: World, s: State, t: string)
    requires PlainFiles(w.g) && HasRule(w.g, t)
    ensures Step(w, Step(w, s, t), t) == Step(w, s, t)
  {
    var i := RuleOf(w.g, t);
    if IsFile(w, i) {
      RuleIsPlain(w.g, t);
      var s' := Step(w, s, t);
      if w.force || Needs(w, s, t) {
        assert s'.updated + {t} == s'.updated;
        assert s'.cache[t := s'.cache[t]] == s'.cache;
      }
    }
  }

  lemma StepKeepsOthers(w: World, s: State, t: string, x: string)
    requires HasRule(w.g, t) && HasRule(w.g, x) && x != t && t !in RuleOf(w.g, x).deps
    requires Step(w, s, x) == s
    ensures Step(w, Step(w, s, t), x) == Step(w, s, t)
  {
    var s' := Step(w, s, t);
    var i := RuleOf(w.g, x);
    assert x in s'.updated <==> x in s.updated;
    assert x in s'.cache <==> x in s.cache;
    assert SomeUpdated(i.deps, s'.updated) == SomeUpdated(i.deps, s.updated) by {
      SameUpdated(i.deps, s.updated, s'.updated, t);
    }
    if IsFile(w, i) && (w.force || Needs(w, s, x)) {
      assert x in s.updated && s.cache[x := CurrentHash(w, i).value] == s.cache;
      assert s'.updated + {x} == s'.updated;
      assert s'.cache[x := CurrentHash(w, i).value] == s'.cache;
    }
  }

  lemma SameUpdated(deps: seq<string>, u: set<string>, u': set<string>, t: string)
    requires t !in deps && (u' == u || u' == u + {t})
    ensures SomeUpdated(deps, u') == SomeUpdated(deps, u)
  {
  }

  lemma StepSettles(w: World, s: State, ts: seq<string>)
    requires Sound(w.g) && AllRules(w.g, ts) && Ordered(w.g, ts) && ts != []
    requires Settled(w, s, ts[..|ts| - 1])
    ensures Settled(w, Step(w, s, ts[|ts| - 1]), ts)
  {
    var init, t := ts[..|ts| - 1], ts[|ts| - 1];
    assert ts == init + [t];
    OrderedInit(w.g, ts);
    var s' := Step(w, s, t);
    forall x | x in ts ensures Step(w, s', x) == s' {
      if t in init {
        assert x in init;
      } else if x == t {
        StepTwice(w, s, t);
      } else {
        LaterIsNoDep(w.g, init, x, t);
        StepKeepsOthers(w, s, t, x);
      }
    }
  }

  lemma LaterIsNoDep(g: seq<Info>, ts: seq<string>, x: string, t: string)
    requires Closed(g) && Ordered(g, ts) && x in ts && HasRule(g, x) && t !in ts
    ensures t !in RuleOf(g, x).deps
  {
    if t in RuleOf(g, x).deps {
      DepsAreEarlier(g, ts, x, t);
    }
  }

  /** After a run over a list in dependency order, no entry of the list has anything left to do. */
  lemma {:induction false} RunSettles(w: World, s: State, ts: seq<string>)
    requires Sound(w.g) && AllRules(w.g, ts) && Ordered(w.g, ts)
    ensures Settled(w, Run(w, s, ts), ts)
    decreases |ts|
  {
    if ts != [] {
      AllRulesInit(w.g, ts);
      OrderedInit(w.g, ts);
      RunSettles(w, s, ts[..|ts| - 1]);
      StepSettles(w, Run(w, s, ts[..|ts| - 1]), ts);
    }
  }

  /** A run over entries that are all settled, such as the inner call of update_rules, adds nothing. */
  lemma {:induction false} SettledRunIsIdle(w: World, s: State, ts: seq<string>, us: seq<string>)
    requires Settled(w, s, ts) && forall u :: u in us ==> u in ts
    ensures AllRules(w.g, us) && Run(w, s, us) == s
    decreases |us|
  {
    if us != [] {
      assert us[|us| - 1] in us;
      SettledRunIsIdle(w, s, ts, us[..|us| - 1]);
    }
  }

  /** The entries of a list without those that repeat an earlier one. */
  function Firsts(ts: seq<string>): (r: seq<string>)
    ensures forall t :: t in r <==> t in ts
    ensures forall i, j :: 0 <= i < j < |r| ==> r[i] != r[j]
  {
    if ts == [] then []
    else
      var init, t := ts[..|ts| - 1], ts[|ts| - 1];
      assert ts == init + [t];
      if t in init then Firsts(init) else Firsts(init) + [t]
  }

  /** Dropping the repeats keeps every entry after its dependencies. */
  lemma {:induction false} FirstsKeepOrder(g: seq<Info>, ts: seq<string>)
    requires Ordered(g, ts)
    ensures Ordered(g, Firsts(ts))
    decreases |ts|
  {
    if ts != [] {
      var init, t := ts[..|ts| - 1], ts[|ts| - 1];
      OrderedInit(g, ts);
      FirstsKeepOrder(g, init);
      if t !in init {
        forall d | Link(g, t, d) ensures d in Firsts(init) {
          assert d in ts[..|ts| - 1];
        }
        OrderedSnoc(g, Firsts(init), t);
      }
    }
  }

  /** The repeats in the sorted list make no difference to the log, the cache or the updated targets. */
  lemma {:induction false} RepeatsAreIdle(w: World, s: State, ts: seq<string>)
    requires Sound(w.g) && AllRules(w.g, ts) && Ordered(w.g, ts)
    ensures AllRules(w.g, Firsts(ts)) && Ordered(w.g, Firsts(ts)) && Run(w, s, ts) == Run(w, s, Firsts(ts))
    decreases |ts|
  {
    FirstsKeepOrder(w.g, ts);
    if ts != [] {
      var init, t := ts[..|ts| - 1], ts[|ts| - 1];
      AllRulesInit(w.g, ts);
      OrderedInit(w.g, ts);
      RepeatsAreIdle(w, s, init);
      if t in init {
        RunSettles(w, s, init);
      } else {
        RunSnoc(w, s, Firsts(init), t);
      }
    }
  }

  lemma RunSnoc(w: World, s: State, ts: seq<string>, t: string)
    requires AllRules(w.g, ts) && HasRule(w.g, t)
    ensures AllRules(w.g, ts + [t]) && Run(w, s, ts + [t]) == Step(w, Run(w, s, ts), t)
  {
    var all := ts + [t];
    assert all[..|all| - 1] == ts;
  }

  // ----- What a run comes to -----

  /** A target that has to be updated, given the hashes stored before the run and the targets updated in it:
      it has a recipe or is a file, and it is forced, always out of date, not in the cache with its current
      hash, or has a direct dependency that was updated. */
  ghost predicate OutOfDate(w: World, before: map<string, string>, updated: set<string>, t: string) {
    && HasRule(w.g, t)
    && var i := RuleOf(w.g, t);
    && (HasRecipe(i) || IsFile(w, i))
    && (w.force || i.always || SomeUpdated(i.deps, updated) || !CacheAgrees(w, before, i))
  }

  /** The cache holds the current hash of the updated targets and what it held before for the others. */
  ghost predicate CacheIs(w: World, before: map<string, string>, updated: set<string>, cache: map<string, string>) {
    forall t {:trigger t in cache} ::
      if t in updated
      then t in cache && HasRule(w.g, t) && CurrentHash(w, RuleOf(w.g, t)) == Some(cache[t])
      else (t in cache <==> t in before) && (t in cache ==> cache[t] == before[t])
  }

  /** Each recipe ran once, and after the recipes of those of its dependencies that ran. */
  ghost predicate LogIsOrdered(g: seq<Info>, log: seq<string>) {
    Distinct(log) && forall j, d :: 0 <= j < |log| && Link(g, log[j], d) && d in log ==> d in log[..j]
  }

  ghost predicate LogIs(w: World, updated: set<string>, log: seq<string>) {
    && LogIsOrdered(w.g, log)
    && forall t :: t in log <==> t in updated && HasRule(w.g, t) && HasRecipe(RuleOf(w.g, t))
  }

  ghost predicate UpdatedIs(w: World, before: map<string, string>, ts: seq<string>, updated: set<string>) {
    && (forall t :: t in updated ==> t in ts)
    && (forall t :: t in ts ==> (t in updated <==> OutOfDate(w, before, updated, t)))
  }

  ghost predicate RunMeans(w: World, before: map<string, string>, ts: seq<string>, s: State) {
    && UpdatedIs(w, before, ts, s.updated)
    && CacheIs(w, before, s.updated, s.cache)
    && LogIs(w, s.updated, s.log)
  }

  function Start(cache: map<string, string>): State {
    State({}, cache, [])
  }

  /** A run updates exactly the targets of the list that are out of date. */
  lemma {:induction false} RunIsMeant(w: World, before: map<string, string>, ts: seq<string>)
    requires Sound(w.g) && AllRules(w.g, ts) && Ordered(w.g, ts)
    ensures RunMeans(w, before, ts, Run(w, Start(before), ts))
    decreases |ts|
  {
    if ts != [] {
      var init, t := ts[..|ts| - 1], ts[|ts| - 1];
      AllRulesInit(w.g, ts);
      OrderedInit(w.g, ts);
      RunIsMeant(w, before, init);
      RunSettles(w, Start(before), init);
      StepIsMeant(w, before, ts, Run(w, Start(before), init));
    }
  }

  lemma StepIsMeant(w: World, before: map<string, string>, ts: seq<string>, s: State)
    requires Sound(w.g) && AllRules(w.g, ts) && Ordered(w.g, ts) && ts != []
    requires RunMeans(w, before, ts[..|ts| - 1], s) && Settled(w, s, ts[..|ts| - 1])
    ensures RunMeans(w, before, ts, Step(w, s, ts[|ts| - 1]))
  {
    var init, t := ts[..|ts| - 1], ts[|ts| - 1];
    assert ts == init + [t];
    AllRulesInit(w.g, ts);
    OrderedInit(w.g, ts);
    if t in init {
    } else {
      NewIsUpdated(w, before, init, t, s);
      forall d | d in RuleOf(w.g, t).deps ensures d in init {
        DepsOfLast(w.g, ts, d);
      }
      NewUpdatedIs(w, before, init, t, s);
      NewCacheIs(w, before, t, s);
      NewLogIs(w, init, t, s);
    }
  }

  /** A target met for the first time is updated if it is out of date. */
  lemma NewIsUpdated(w: World, before: map<string, string>, init: seq<string>, t: string, s: State)
    requires HasRule(w.g, t) && t !in init && RunMeans(w, before, init, s)
    ensures Step(w, s, t).updated == if OutOfDate(w, before, s.updated, t) then s.updated + {t} else s.updated
  {
    assert t !in s.updated;
    assert t in s.cache <==> t in before;
  }

  lemma NewUpdatedIs(w: World, before: map<string, string>, init: seq<string>, t: string, s: State)
    requires Closed(w.g) && Ordered(w.g, init) && AllRules(w.g, init) && HasRule(w.g, t) && t !in init
    requires UpdatedIs(w, before, init, s.updated)
    requires Step(w, s, t).updated == if OutOfDate(w, before, s.updated, t) then s.updated + {t} else s.updated
    requires forall d :: d in RuleOf(w.g, t).deps ==> d in init
    ensures UpdatedIs(w, before, init + [t], Step(w, s, t).updated)
  {
    var u, u' := s.updated, Step(w, s, t).updated;
    forall x | x in init + [t] ensures x in u' <==> OutOfDate(w, before, u', x) {
      if x != t {
        LaterIsNoDep(w.g, init, x, t);
      }
      SameUpdated(RuleOf(w.g, x).deps, u, u', t);
    }
  }

  lemma NewCacheIs(w: World, before: map<string, string>, t: string, s: State)
    requires HasRule(w.g, t) && t !in s.updated && CacheIs(w, before, s.updated, s.cache)
    ensures CacheIs(w, before, Step(w, s, t).updated, Step(w, s, t).cache)
  {
    assert RuleOf(w.g, t).target == t;
  }

  lemma NewLogIs(w: World, init: seq<string>, t: string, s: State)
    requires Closed(w.g) && Ordered(w.g, init) && HasRule(w.g, t) && t !in init
    requires LogIs(w, s.updated, s.log) && forall x :: x in s.updated ==> x in init
    requires forall d :: d in RuleOf(w.g, t).deps ==> d in init
    ensures LogIs(w, Step(w, s, t).updated, Step(w, s, t).log)
  {
    if HasRecipe(RuleOf(w.g, t)) {
      NewLogIsOrdered(w.g, init, t, s.log);
    }
  }

  lemma NewLogIsOrdered(g: seq<Info>, init: seq<string>, t: string, log: seq<string>)
    requires Closed(g) && Ordered(g, init) && HasRule(g, t) && t !in init
    requires LogIsOrdered(g, log) && forall x :: x in log ==> x in init
    requires forall d :: d in RuleOf(g, t).deps ==> d in init
    ensures LogIsOrdered(g, log + [t])
  {
    var l := log + [t];
    forall j, d | 0 <= j < |l| && Link(g, l[j], d) && d in l ensures d in l[..j] {
      if j < |log| {
        LaterIsNoDep(g, init, log[j], t);
        assert Link(g, log[j], d) && d in log && l[..j] == log[..j];
      } else {
        assert l[..j] == log;
      }
    }
  }

  // ----- The least set -----

  /** The updated targets are the least set that contains whatever is out of date with respect to it. */
  lemma {:induction false} RunIsLeast(w: World, before: map<string, string>, ts: seq<string>, v: set<string>)
    requires Sound(w.g) && AllRules(w.g, ts) && Ordered(w.g, ts)
    requires forall t :: t in ts && OutOfDate(w, before, v, t) ==> t in v
    ensures Run(w, Start(before), ts).updated <= v
    decreases |ts|
  {
    if ts != [] {
      var init, t := ts[..|ts| - 1], ts[|ts| - 1];
      AllRulesInit(w.g, ts);
      OrderedInit(w.g, ts);
      assert t in ts;
      RunIsLeast(w, before, init, v);
      var s := Run(w, Start(before), init);
      RunIsMeant(w, before, init);
      RunSettles(w, Start(before), init);
      if t !in init {
        NewIsUpdated(w, before, init, t, s);
        assert OutOfDate(w, before, s.updated, t) ==> OutOfDate(w, before, v, t);
      }
    }
  }

  // ----- A second run -----

  /** A rule that is out of date whatever the cache says. */
  predicate AlwaysRuns(g: seq<Info>, t: string) {
    HasRule(g, t) && HasRecipe(RuleOf(g, t)) && RuleOf(g, t).always
  }

  lemma AfterRunCacheAgrees(w: World, before: map<string, string>, ts: seq<string>, s: State, t: string)
    requires Sound(w.g) && AllRules(w.g, ts) && RunMeans(w, before, ts, s)
    requires t in ts && (HasRecipe(RuleOf(w.g, t)) || IsFile(w, RuleOf(w.g, t)))
    ensures CacheAgrees(w, s.cache, RuleOf(w.g, t))
  {
    assert RuleOf(w.g, t).target == t;
    assert t in s.updated <==> OutOfDate(w, before, s.updated, t);
    assert t in s.cache <==> (t in s.updated || t in before);
  }

  lemma IdleStep(w: World, s: State, t: string)
    requires HasRule(w.g, t) && PlainFiles(w.g) && !w.force && s.updated == {} && !AlwaysRuns(w.g, t)
    requires HasRecipe(RuleOf(w.g, t)) || IsFile(w, RuleOf(w.g, t)) ==> CacheAgrees(w, s.cache, RuleOf(w.g, t))
    ensures Step(w, s, t) == s
  {
    if IsFile(w, RuleOf(w.g, t)) {
      RuleIsPlain(w.g, t);
    }
  }

  /** A run without force right after a run, forced or not, changes nothing at all if no rule with a recipe
      is always out of date. */
  lemma SecondRunIsIdle(w: World, before: map<string, string>, ts: seq<string>, force: bool)
    requires Sound(w.g) && AllRules(w.g, ts) && Ordered(w.g, ts) && !w.force
    requires forall t :: t in ts ==> !AlwaysRuns(w.g, t)
    ensures var first := Run(w.(force := force), Start(before), ts);
            Run(w, Start(first.cache), ts) == Start(first.cache)
  {
    var w' := w.(force := force);
    var first := Run(w', Start(before), ts);
    var s := Start(first.cache);
    RunIsMeant(w', before, ts);
    forall t | t in ts ensures Step(w, s, t) == s {
      if HasRecipe(RuleOf(w.g, t)) || IsFile(w, RuleOf(w.g, t)) {
        AfterRunCacheAgrees(w', before, ts, first, t);
      }
      IdleStep(w, s, t);
    }
    SettledRunIsIdle(w, s, ts, ts);
  }

  /** And a second run executes a recipe exactly if some rule with a recipe is always out of date. */
  lemma SecondRunExecutesIff(w: World, before: map<string, string>, ts: seq<string>, force: bool)
    requires Sound(w.g) && AllRules(w.g, ts) && Ordered(w.g, ts) && !w.force
    ensures var first := Run(w.(force := force), Start(before), ts);
            Run(w, Start(first.cache), ts).log != [] <==> exists t :: t in ts && AlwaysRuns(w.g, t)
  {
    var first := Run(w.(force := force), Start(before), ts);
    if t :| t in ts && AlwaysRuns(w.g, t) {
      var second := Run(w, Start(first.cache), ts);
      RunIsMeant(w, first.cache, ts);
      assert OutOfDate(w, first.cache, second.updated, t);
      assert t in second.log;
    } else {
      SecondRunIsIdle(w, before, ts, force);
    }
  }

  // ----- From the goal -----

  /** A whole run updates exactly what is reachable from the goal and out of date, stores its hashes and
      leaves the others, and runs the recipes among it once each, dependencies first. */
  ghost predicate BuildMeans(w: World, goal: string, before: map<string, string>, s: State) {
    && (forall t :: t in s.updated <==> Reaches(w.g, goal, t) && OutOfDate(w, before, s.updated, t))
    && CacheIs(w, before, s.updated, s.cache)
    && LogIs(w, s.updated, s.log)
  }

  lemma BuildIsMeant(w: World, goal: string, before: map<string, string>, ts: seq<string>)
    requires Sound(w.g) && HasRule(w.g, goal) && Sorted(w.g, goal) == Done(ts)
    ensures AllRules(w.g, ts) && Ordered(w.g, ts) && BuildMeans(w, goal, before, Run(w, Start(before), ts))
  {
    SortedIsOrder(w.g, goal, ts);
    forall t | t in ts ensures HasRule(w.g, t) {
      ReachedHasRule(w.g, goal, t);
    }
    RunIsMeant(w, before, ts);
  }

  /** No reachable file is missing. */
  ghost predicate FilesThere(w: World, goal: string) {
    forall t :: Reaches(w.g, goal, t) ==> Present(w, t)
  }

  lemma PresentIffThere(w: World, goal: string, ts: seq<string>)
    requires HasRule(w.g, goal) && Sorted(w.g, goal) == Done(ts)
    ensures AllPresent(w, ts) <==> FilesThere(w, goal)
  {
    SortedIsOrder(w.g, goal, ts);
  }

  lemma ReachedHasRule(g: seq<Info>, a: string, b: string)
    requires Reaches(g, a, b)
    ensures HasRule(g, b)
  {
    var q :| Chain(g, q) && q[0] == a && q[|q| - 1] == b;
    ChainHasRules(g, q, b);
  }

  // ----- A second build -----

  /** What reaches the goal and has a recipe that is always out of date. */
  ghost predicate SomeAlwaysRuns(g: seq<Info>, goal: string) {
    exists t :: Reaches(g, goal, t) && AlwaysRuns(g, t)
  }

  /** After a build the cache has the current hash of every recipe and file it reaches. */
  lemma BuiltCacheAgrees(w: World, goal: string, before: map<string, string>, s: State, t: string)
    requires BuildMeans(w, goal, before, s) && Reaches(w.g, goal, t) && HasRule(w.g, t)
    requires HasRecipe(RuleOf(w.g, t)) || IsFile(w, RuleOf(w.g, t))
    ensures CacheAgrees(w, s.cache, RuleOf(w.g, t))
  {
    assert RuleOf(w.g, t).target == t;
    assert t in s.updated <==> OutOfDate(w, before, s.updated, t);
    assert t in s.cache <==> (t in s.updated || t in before);
  }

  /** A target that is not always out of date is not updated by a build right after a build if none of its
      dependencies is. */
  lemma NotUpdated(w: World, goal: string, force: bool, before: map<string, string>, first: State, second: State, t: string)
    requires Sound(w.g) && !w.force && Reaches(w.g, goal, t) && !AlwaysRuns(w.g, t)
    requires BuildMeans(w.(force := force), goal, before, first) && BuildMeans(w, goal, first.cache, second)
    requires forall d :: Link(w.g, t, d) ==> d !in second.updated
    ensures t !in second.updated
  {
    ReachedHasRule(w.g, goal, t);
    var i := RuleOf(w.g, t);
    if HasRecipe(i) || IsFile(w, i) {
      BuiltCacheAgrees(w.(force := force), goal, before, first, t);
      forall d | d in i.deps ensures d !in second.updated {
        DepIsLink(w.g, t, d);
      }
      if IsFile(w, i) {
        RuleIsPlain(w.g, t);
      }
    }
  }

  /** Whatever needs an earlier member of a set to be in it never is. */
  lemma {:induction false} NoneIsFirst(g: seq<Info>, ts: seq<string>, u: set<string>, k: nat)
    requires Ordered(g, ts) && k <= |ts|
    requires forall t :: t in ts && t in u ==> exists d :: Link(g, t, d) && d in u
    ensures forall t :: t in ts[..k] ==> t !in u
  {
    if k > 0 {
      NoneIsFirst(g, ts, u, k - 1);
      assert ts[..k] == ts[..k - 1] + [ts[k - 1]];
    }
  }

  lemma NothingUpdated(w: World, goal: string, force: bool, before: map<string, string>, first: State, second: State, ts: seq<string>)
    requires Sound(w.g) && !w.force && Ordered(w.g, ts)
    requires forall t :: t in ts ==> Reaches(w.g, goal, t) && !AlwaysRuns(w.g, t)
    requires BuildMeans(w.(force := force), goal, before, first) && BuildMeans(w, goal, first.cache, second)
    ensures forall t :: t in ts ==> t !in second.updated
  {
    forall t | t in ts && t in second.updated ensures exists d :: Link(w.g, t, d) && d in second.updated {
      if forall d :: Link(w.g, t, d) ==> d !in second.updated {
        NotUpdated(w, goal, force, before, first, second, t);
      }
    }
    NoneIsFirst(w.g, ts, second.updated, |ts|);
    TakeAll(ts);
  }

  lemma SomeEntry(log: seq<string>) returns (t: string)
    requires log != []
    ensures t in log
  {
    t := log[0];
  }

  lemma NothingIsStart(w: World, before: map<string, string>, s: State)
    requires s.updated == {} && CacheIs(w, before, s.updated, s.cache) && LogIs(w, s.updated, s.log)
    ensures s == Start(before)
  {
    assert s.cache == before;
    if s.log != [] {
      var t := SomeEntry(s.log);
    }
  }

  /** A build without force right after a build, forced or not, runs a recipe exactly if the goal reaches one
      that is always out of date, and otherwise changes nothing at all. */
  lemma SecondBuildIsIdle(w: World, goal: string, force: bool, before: map<string, string>, first: State, second: State)
    requires Sound(w.g) && !w.force && HasRule(w.g, goal) && Sorted(w.g, goal).Done?
    requires BuildMeans(w.(force := force), goal, before, first) && BuildMeans(w, goal, first.cache, second)
    ensures second.log != [] <==> SomeAlwaysRuns(w.g, goal)
    ensures !SomeAlwaysRuns(w.g, goal) ==> second == Start(first.cache)
  {
    if SomeAlwaysRuns(w.g, goal) {
      var t :| Reaches(w.g, goal, t) && AlwaysRuns(w.g, t);
      assert OutOfDate(w, first.cache, second.updated, t);
      assert t in second.log;
    } else {
      var ts := Sorted(w.g, goal).ts;
      SortedIsOrder(w.g, goal, ts);
      NothingUpdated(w, goal, force, before, first, second, ts);
      assert forall t :: t in second.updated ==> t in ts;
      NothingIsStart(w, first.cache, second);
    }
  }

  // ----- A build after a change -----

  /** What a build does about a target whose stored hash is not the current one, and about what depends on it. */
  lemma OldHashIsUpdated(w: World, goal: string, before: map<string, string>, s: State, t: string)
    requires BuildMeans(w, goal, before, s) && Reaches(w.g, goal, t) && HasRule(w.g, t)
    requires HasRecipe(RuleOf(w.g, t)) || IsFile(w, RuleOf(w.g, t))
    requires t in before && CurrentHash(w, RuleOf(w.g, t)) != Some(before[t])
    ensures t in s.updated && (HasRecipe(RuleOf(w.g, t)) ==> t in s.log)
    ensures DependentsRun(w, goal, s, t)
  {
    assert RuleOf(w.g, t).target == t;
    assert OutOfDate(w, before, s.updated, t);
    UpdatedRunsDependents(w, goal, before, s, t);
  }

  /** Every recipe that the goal reaches and that has `t` among its dependencies ran. */
  ghost predicate DependentsRun(w: World, goal: string, s: State, t: string) {
    forall r :: Reaches(w.g, goal, r) && HasRule(w.g, r) && HasRecipe(RuleOf(w.g, r)) && t in RuleOf(w.g, r).deps ==> r in s.log
  }

  /** Whatever is updated in a build, a file or a recipe, makes the recipes that depend on it run. */
  lemma UpdatedRunsDependents(w: World, goal: string, before: map<string, string>, s: State, t: string)
    requires BuildMeans(w, goal, before, s) && t in s.updated
    ensures DependentsRun(w, goal, s, t)
  {
    forall r | Reaches(w.g, goal, r) && HasRule(w.g, r) && HasRecipe(RuleOf(w.g, r)) && t in RuleOf(w.g, r).deps
      ensures r in s.log
    {
      assert SomeUpdated(RuleOf(w.g, r).deps, s.updated);
      assert OutOfDate(w, before, s.updated, r);
    }
  }

  /** A file whose contents have another hash than at the last build is updated, and every recipe that the goal
      reaches and that depends on it runs. */
  lemma ChangedFileIsRebuilt(w1: World, w2: World, goal: string, before: map<string, string>, first: State, second: State, f: string)
    requires BuildMeans(w1, goal, before, first) && BuildMeans(w2, goal, first.cache, second)
    requires Reaches(w1.g, goal, f) && HasRule(w1.g, f) && RuleOf(w1.g, f).kind.Filename? && f in w1.files
    requires Reaches(w2.g, goal, f) && HasRule(w2.g, f) && RuleOf(w2.g, f).kind.Filename? && f in w2.files
    requires w2.hash(w2.files[f]) != w1.hash(w1.files[f])
    ensures f in second.updated && DependentsRun(w2, goal, second, f)
  {
    assert RuleOf(w1.g, f).target == f && RuleOf(w2.g, f).target == f;
    BuiltCacheAgrees(w1, goal, before, first, f);
    OldHashIsUpdated(w2, goal, first.cache, second, f);
  }

  /** A recipe whose text has another hash than at the last build runs, and so does every recipe that depends on it. */
  lemma ChangedRecipeIsRun(w1: World, w2: World, goal: string, before: map<string, string>, first: State, second: State, t: string)
    requires BuildMeans(w1, goal, before, first) && BuildMeans(w2, goal, first.cache, second)
    requires Reaches(w1.g, goal, t) && HasRule(w1.g, t) && HasRecipe(RuleOf(w1.g, t))
    requires Reaches(w2.g, goal, t) && HasRule(w2.g, t) && HasRecipe(RuleOf(w2.g, t))
    requires w2.hash(RuleOf(w2.g, t).recipe.value) != w1.hash(RuleOf(w1.g, t).recipe.value)
    ensures t in second.log && DependentsRun(w2, goal, second, t)
  {
    BuiltCacheAgrees(w1, goal, before, first, t);
    OldHashIsUpdated(w2, goal, first.cache, second, t);
  }

  /** A target that the cache does not know, or a build that is forced: the recipe runs. */
  lemma NewOrForcedIsRun(w: World, goal: string, before: map<string, string>, s: State, t: string)
    requires BuildMeans(w, goal, before, s) && Reaches(w.g, goal, t) && HasRule(w.g, t) && HasRecipe(RuleOf(w.g, t))
    requires t !in before || w.force
    ensures t in s.log
  {
    assert RuleOf(w.g, t).target == t;
    assert OutOfDate(w, before, s.updated, t);
  }

  // ----- Runs that are not stopped -----

  /** The run is stopped at a filename rule whose file is missing. */
  predicate Present(w: World, t: string) {
    HasRule(w.g, t) && RuleOf(w.g, t).kind.Filename? ==> t in w.files
  }

  ghost predicate AllPresent(w: World, ts: seq<string>) {
    forall t :: t in ts ==> Present(w, t)
  }

  /** What is known before an entry of a list is taken: `done` was taken before and holds the dependencies of
      the entry, and if the list is one of settled entries, the entry itself. */
  ghost predicate Ready(w: World, s: State, done: seq<string>, idle: bool, t: string) {
    && Settled(w, s, done) && Ordered(w.g, done) && AllPresent(w, done)
    && HasRule(w.g, t)
    && (forall d :: d in RuleOf(w.g, t).deps ==> d in done)
    && (idle ==> t in done)
  }

  /** What update_rules relies on: the list is in dependency order, or all of it is settled. */
  ghost predicate Runnable(w: World, s: State, ts: seq<string>, done: seq<string>, idle: bool) {
    && Sound(w.g) && AllRules(w.g, ts)
    && (if idle
        then Settled(w, s, done) && Ordered(w.g, done) && AllPresent(w, done) && forall t :: t in ts ==> t in done
        else Ordered(w.g, ts))
  }

  lemma OrderedTake(g: seq<Info>, ts: seq<string>, i: nat)
    requires Ordered(g, ts) && i <= |ts|
    ensures Ordered(g, ts[..i])
  {
    var a := ts[..i];
    forall j, d | 0 <= j < |a| && Link(g, a[j], d) ensures d in a[..j] {
      assert a[..j] == ts[..j] && a[j] == ts[j];
    }
  }

  lemma EntryIsReady(w: World, s: State, ts: seq<string>, done: seq<string>, idle: bool, i: nat)
    requires Runnable(w, s, ts, done, idle) && i < |ts|
    requires AllRules(w.g, ts[..i]) && AllPresent(w, ts[..i])
    ensures Ready(w, Run(w, s, ts[..i]), if idle then done else ts[..i], idle, ts[i])
  {
    assert ts[i] in ts;
    if idle {
      SettledRunIsIdle(w, s, done, ts[..i]);
      forall d | d in RuleOf(w.g, ts[i]).deps ensures d in done {
        DepsAreEarlier(w.g, done, ts[i], d);
      }
    } else {
      OrderedTake(w.g, ts, i);
      RunSettles(w, s, ts[..i]);
      forall d | d in RuleOf(w.g, ts[i]).deps ensures d in ts[..i] {
        DepIsLink(w.g, ts[i], d);
      }
    }
  }

  lemma RunTakes(w: World, s: State, ts: seq<string>, i: nat)
    requires AllRules(w.g, ts) && i < |ts| && AllRules(w.g, ts[..i])
    ensures AllRules(w.g, ts[..i + 1]) && Run(w, s, ts[..i + 1]) == Step(w, Run(w, s, ts[..i]), ts[i])
  {
    assert ts[i] in ts;
    RunSnoc(w, s, ts[..i], ts[i]);
    assert ts[..i + 1] == ts[..i] + [ts[i]];
  }

  lemma PresentTakes(w: World, ts: seq<string>, i: nat)
    requires i < |ts| && AllPresent(w, ts[..i])
    ensures if Present(w, ts[i]) then AllPresent(w, ts[..i + 1]) else !AllPresent(w, ts)
  {
    assert ts[i] in ts;
    assert ts[..i + 1] == ts[..i] + [ts[i]];
  }

  /** One more entry of a list. */
  lemma TakeEntry(w: World, s: State, ts: seq<string>, done: seq<string>, idle: bool, i: nat, prefix: seq<string>)
    requires Runnable(w, s, ts, done, idle) && i < |ts| && prefix == ts[..i]
    requires AllRules(w.g, prefix) && AllPresent(w, prefix)
    ensures Ready(w, Run(w, s, prefix), if idle then done else prefix, idle, ts[i])
    ensures AllRules(w.g, ts[..i + 1]) && Run(w, s, ts[..i + 1]) == Step(w, Run(w, s, prefix), ts[i])
    ensures if Present(w, ts[i]) then AllPresent(w, ts[..i + 1]) else !AllPresent(w, ts)
  {
    EntryIsReady(w, s, ts, done, idle, i);
    RunTakes(w, s, ts, i);
    PresentTakes(w, ts, i);
  }

  lemma TakeAll(ts: seq<string>)
    ensures ts[..|ts|] == ts && ts[..0] == []
  {
  }

  /** A recipe that is about to run has not been taken before. */
  lemma AboutToRun(w: World, s: State, done: seq<string>, idle: bool, t: string)
    requires Ready(w, s, done, idle, t) && HasRecipe(RuleOf(w.g, t)) && (w.force || Needs(w, s, t)) && t !in s.updated
    ensures !idle
    ensures Step(w, s, t) == Record(w, s, RuleOf(w.g, t)).(log := s.log + [t])
  {
    assert |Step(w, s, t).log| == |s.log| + 1;
  }

  /** The rules of dependencies that are out of date are all settled. */
  lemma InnerIsRunnable(w: World, s: State, done: seq<string>, idle: bool, t: string, oodate: seq<string>)
    requires Sound(w.g) && Ready(w, s, done, idle, t)
    requires forall d :: d in oodate ==> d in RuleOf(w.g, t).deps
    ensures Runnable(w, s, Children(w.g, oodate), done, true)
    ensures Run(w, s, Children(w.g, oodate)) == s && AllPresent(w, Children(w.g, oodate))
  {
    SettledRunIsIdle(w, s, done, Children(w.g, oodate));
  }
}
