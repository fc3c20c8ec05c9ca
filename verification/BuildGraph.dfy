/** The rule table of tm_target.c as a graph, and the order in which a depth-first visit lists its targets. */
module BuildGraph {

  datatype Option<+T> = None | Some(value: T)

  datatype Kind = Explicit | Implicit | Filename | Updated

  /** What a rule says. */
  datatype Info = Info(target: string, deps: seq<string>, recipe: Option<string>, kind: Kind, always: bool)

  // ----- Looking rules up -----

  /** The index of the first rule for a target; |g| if there is none. */
  function Find(g: seq<Info>, t: string): (i: nat)
    ensures i <= |g| && (i < |g| ==> g[i].target == t)
    ensures forall j :: 0 <= j < i ==> g[j].target != t
  {
    if g == [] || g[0].target == t then 0 else 1 + Find(g[1..], t)
  }

  predicate HasRule(g: seq<Info>, t: string) {
    Find(g, t) < |g|
  }

  function RuleOf(g: seq<Info>, t: string): Info
    requires HasRule(g, t)
  {
    g[Find(g, t)]
  }

  /** No two rules have the same target. */
  ghost predicate Unique(g: seq<Info>) {
    forall i, j :: 0 <= i < j < |g| ==> g[i].target != g[j].target
  }

  /** Every dependency of a rule has a rule. */
  ghost predicate Closed(g: seq<Info>) {
    forall i, d :: 0 <= i < |g| && d in g[i].deps ==> HasRule(g, d)
  }

  lemma FindIs(g: seq<Info>, i: nat)
    requires Unique(g) && i < |g|
    ensures Find(g, g[i].target) == i
  {
    var j := Find(g, g[i].target);
    assert !(j < i);
  }

  function Reverse<T>(s: seq<T>): (r: seq<T>)
    ensures |r| == |s|
  {
    if s == [] then [] else Reverse(s[1..]) + [s[0]]
  }

  /** The dependencies of a target that have rules, in the order in which they are visited. */
  function Children(g: seq<Info>, deps: seq<string>): (r: seq<string>)
    ensures forall d :: d in r <==> d in deps && HasRule(g, d)
  {
    if deps == [] then []
    else Children(g, deps[1..]) + if HasRule(g, deps[0]) then [deps[0]] else []
  }

  // ----- Chains of dependencies -----

  /** `b` is a dependency of `a`, and both have rules. */
  predicate Link(g: seq<Info>, a: string, b: string) {
    HasRule(g, a) && HasRule(g, b) && b in RuleOf(g, a).deps
  }

  ghost predicate Chain(g: seq<Info>, p: seq<string>) {
    p != [] && HasRule(g, p[0]) && forall i :: 0 <= i < |p| - 1 ==> Link(g, p[i], p[i + 1])
  }

  /** A chain of at least one link that comes back to its start. */
  ghost predicate Cycle(g: seq<Info>, p: seq<string>) {
    Chain(g, p) && |p| >= 2 && p[0] == p[|p| - 1]
  }

  ghost predicate Reaches(g: seq<Info>, a: string, b: string) {
    exists p :: Chain(g, p) && p[0] == a && p[|p| - 1] == b
  }

  /** Every cycle that is reachable from the goal passes through the goal. */
  ghost predicate OnlyGoalCycles(g: seq<Info>, goal: string) {
    forall c, p :: Chain(g, c) && c[0] == goal && Cycle(g, p) && c[|c| - 1] == p[0] ==> goal in p
  }

  ghost predicate Distinct(p: seq<string>) {
    forall i, j :: 0 <= i < j < |p| ==> p[i] != p[j]
  }

  lemma ChainSlice(g: seq<Info>, p: seq<string>, i: nat, j: nat)
    requires Chain(g, p) && i < j <= |p|
    ensures Chain(g, p[i..j])
  {
    var q := p[i..j];
    forall k | 0 <= k < |q| - 1 ensures Link(g, q[k], q[k + 1]) {
      assert Link(g, p[i + k], p[i + k + 1]);
    }
    if i > 0 {
      assert Link(g, p[i - 1], p[i]);
    }
  }

  lemma ChainJoin(g: seq<Info>, p: seq<string>, q: seq<string>)
    requires Chain(g, p) && Chain(g, q) && p[|p| - 1] == q[0]
    ensures Chain(g, p + q[1..])
  {
    var r := p + q[1..];
    forall i | 0 <= i < |r| - 1 ensures Link(g, r[i], r[i + 1]) {
      if i < |p| - 1 {
        assert Link(g, p[i], p[i + 1]);
      } else {
        assert Link(g, q[i - (|p| - 1)], q[i - (|p| - 1) + 1]);
      }
    }
  }

  // ----- A chain without repeats is no longer than the table -----

  lemma {:induction false} SetOfDistinct(p: seq<string>) returns (s: set<string>)
    requires Distinct(p)
    ensures |s| == |p| && forall x :: x in s <==> x in p
    decreases |p|
  {
    if p == [] {
      s := {};
    } else {
      var rest := SetOfDistinct(p[1..]);
      s := rest + {p[0]};
      assert p[0] !in p[1..];
      assert p == [p[0]] + p[1..];
    }
  }

  lemma {:induction false} SetOfTargets(g: seq<Info>) returns (s: set<string>)
    ensures |s| <= |g| && forall x :: HasRule(g, x) ==> x in s
    decreases |g|
  {
    if g == [] {
      s := {};
    } else {
      var rest := SetOfTargets(g[1..]);
      s := rest + {g[0].target};
      assert |s| <= |rest| + 1;
    }
  }

  lemma ChainHasRules(g: seq<Info>, p: seq<string>, x: string)
    requires Chain(g, p) && x in p
    ensures HasRule(g, x)
  {
    var i :| 0 <= i < |p| && p[i] == x;
    if i > 0 {
      assert Link(g, p[i - 1], p[i]);
    }
  }

  lemma SubsetSize(a: set<string>, b: set<string>)
    requires a <= b
    ensures |a| <= |b|
  {
    assert b == a + (b - a);
  }

  lemma DistinctFits(g: seq<Info>, p: seq<string>)
    requires Chain(g, p) && Distinct(p)
    ensures |p| <= |g|
  {
    var s := SetOfDistinct(p);
    var all := SetOfTargets(g);
    forall x | x in s ensures x in all {
      ChainHasRules(g, p, x);
    }
    SubsetSize(s, all);
  }

  // ----- A depth-first visit -----

  /** What a visit comes to that may go no deeper than a bound: it is cut off there, it comes back to the goal,
      or it lists the targets in the order in which the visits of them end. */
  datatype Trip = CutOff | Back | Done(ts: seq<string>)

  function Append(acc: seq<string>, more: Trip): Trip {
    if more.Done? then Done(acc + more.ts) else more
  }

  predicate AllRules(g: seq<Info>, ts: seq<string>) {
    forall t :: t in ts ==> HasRule(g, t)
  }

  /** The visit of a target, on the way from the goal. Only the goal's own rule keeps its mark, so only the goal
      is noticed when it is met again, and a target that is reached twice is listed twice. */
  function Visit(g: seq<Info>, goal: string, t: string, depth: nat): Trip
    requires HasRule(g, t)
    decreases depth, 0
  {
    if depth == 0 then CutOff
    else
      match VisitAll(g, goal, Children(g, RuleOf(g, t).deps), depth - 1)
      case Done(ts) => Done(ts + [t])
      case stopped => stopped
  }

  function VisitAll(g: seq<Info>, goal: string, ds: seq<string>, depth: nat): Trip
    requires AllRules(g, ds)
    decreases depth, |ds|
  {
    if ds == [] then Done([])
    else
      FirstHasRule(g, ds);
      if ds[0] == goal then Back
      else
        match Visit(g, goal, ds[0], depth)
        case Done(ts) => Append(ts, VisitAll(g, goal, ds[1..], depth))
        case stopped => stopped
  }

  lemma VisitIs(g: seq<Info>, goal: string, t: string, depth: nat, ds: seq<string>)
    requires HasRule(g, t) && !Visit(g, goal, t, depth).CutOff? && ds == Children(g, RuleOf(g, t).deps)
    ensures depth > 0 && AllRules(g, ds) && !VisitAll(g, goal, ds, depth - 1).CutOff?
    ensures Visit(g, goal, t, depth) ==
            match VisitAll(g, goal, ds, depth - 1)
            case Done(ts) => Done(ts + [t])
            case stopped => stopped
  {
  }

  lemma FirstHasRule(g: seq<Info>, ds: seq<string>)
    requires AllRules(g, ds) && ds != []
    ensures HasRule(g, ds[0]) && AllRules(g, ds[1..])
  {
    assert ds[0] in ds;
  }

  /** The visit of one dependency. */
  function Next(g: seq<Info>, goal: string, d: string, depth: nat): Trip
    requires HasRule(g, d)
  {
    if d == goal then Back else Visit(g, goal, d, depth)
  }

  lemma VisitAllIs(g: seq<Info>, goal: string, ds: seq<string>, depth: nat)
    requires AllRules(g, ds) && ds != []
    ensures HasRule(g, ds[0]) && AllRules(g, ds[1..])
    ensures VisitAll(g, goal, ds, depth) ==
            match Next(g, goal, ds[0], depth)
            case Done(ts) => Append(ts, VisitAll(g, goal, ds[1..], depth))
            case stopped => stopped
  {
    FirstHasRule(g, ds);
  }

  lemma DropDrop(ds: seq<string>, k: nat)
    requires k < |ds|
    ensures ds[k..] != [] && ds[k..][0] == ds[k] && ds[k..][1..] == ds[k + 1..]
  {
  }

  lemma AppendAppend(a: seq<string>, b: seq<string>, more: Trip)
    ensures Append(a, Append(b, more)) == Append(a + b, more)
  {
    if more.Done? {
      assert a + (b + more.ts) == (a + b) + more.ts;
    }
  }

  lemma AppendNothing(more: Trip, acc: seq<string>)
    ensures Append([], more) == more && Append(acc, Done([])) == Done(acc)
  {
    assert acc + [] == acc;
    if more.Done? {
      assert [] + more.ts == more.ts;
    }
  }

  /** One more dependency visited, with `acc` listed so far. */
  lemma VisitAllStep(g: seq<Info>, goal: string, ds: seq<string>, depth: nat, k: nat, acc: seq<string>)
    requires k < |ds| && AllRules(g, ds[k..])
    ensures HasRule(g, ds[k]) && AllRules(g, ds[k + 1..])
    ensures match Next(g, goal, ds[k], depth)
            case Done(ts) =>
              Append(acc, VisitAll(g, goal, ds[k..], depth)) == Append(acc + ts, VisitAll(g, goal, ds[k + 1..], depth))
            case stopped => Append(acc, VisitAll(g, goal, ds[k..], depth)) == stopped
  {
    DropDrop(ds, k);
    VisitAllIs(g, goal, ds[k..], depth);
    if Next(g, goal, ds[k], depth).Done? {
      AppendAppend(acc, Next(g, goal, ds[k], depth).ts, VisitAll(g, goal, ds[k + 1..], depth));
    }
  }

  /** A visit that ends comes to the same at every greater depth. */
  lemma {:induction false} DeeperIsSame(g: seq<Info>, goal: string, t: string, depth: nat, more: nat)
    requires HasRule(g, t) && !Visit(g, goal, t, depth).CutOff? && depth <= more
    ensures Visit(g, goal, t, more) == Visit(g, goal, t, depth)
    decreases depth, 0
  {
    DeeperAllIsSame(g, goal, Children(g, RuleOf(g, t).deps), depth - 1, more - 1);
  }

  lemma {:induction false} DeeperAllIsSame(g: seq<Info>, goal: string, ds: seq<string>, depth: nat, more: nat)
    requires AllRules(g, ds) && !VisitAll(g, goal, ds, depth).CutOff? && depth <= more
    ensures VisitAll(g, goal, ds, more) == VisitAll(g, goal, ds, depth)
    decreases depth, |ds|
  {
    if ds != [] {
      FirstHasRule(g, ds);
      if ds[0] != goal {
        DeeperIsSame(g, goal, ds[0], depth, more);
        if Visit(g, goal, ds[0], depth).Done? {
          DeeperAllIsSame(g, goal, ds[1..], depth, more);
        }
      }
    }
  }

  // ----- What the order promises -----

  /** Every occurrence of a target comes after all its dependencies. */
  ghost predicate Ordered(g: seq<Info>, ts: seq<string>) {
    forall i, d :: 0 <= i < |ts| && Link(g, ts[i], d) ==> d in ts[..i]
  }

  lemma OrderedJoin(g: seq<Info>, a: seq<string>, b: seq<string>)
    requires Ordered(g, a) && Ordered(g, b)
    ensures Ordered(g, a + b)
  {
    var c := a + b;
    forall i, d | 0 <= i < |c| && Link(g, c[i], d) ensures d in c[..i] {
      if i < |a| {
        assert Link(g, a[i], d) && c[..i] == a[..i];
      } else {
        var j := i - |a|;
        assert Link(g, b[j], d) && c[..i] == a + b[..j];
      }
    }
  }

  lemma OrderedSnoc(g: seq<Info>, a: seq<string>, t: string)
    requires Ordered(g, a)
    requires forall d :: Link(g, t, d) ==> d in a
    ensures Ordered(g, a + [t])
  {
    var c := a + [t];
    forall i, d | 0 <= i < |c| && Link(g, c[i], d) ensures d in c[..i] {
      if i < |a| {
        assert Link(g, a[i], d) && c[..i] == a[..i];
      } else {
        assert c[..i] == a;
      }
    }
  }

  lemma ReachSelf(g: seq<Info>, a: string)
    requires HasRule(g, a)
    ensures Reaches(g, a, a)
  {
    assert Chain(g, [a]);
  }

  lemma ReachStep(g: seq<Info>, a: string, b: string, c: string)
    requires Link(g, a, b) && Reaches(g, b, c)
    ensures Reaches(g, a, c)
  {
    var q :| Chain(g, q) && q[0] == b && q[|q| - 1] == c;
    assert Chain(g, [a, b]);
    ChainJoin(g, [a, b], q);
    var r := [a, b] + q[1..];
    assert r[|r| - 1] == c;
  }

  /** What a visit of `t` promises of its list. */
  ghost predicate Listed(g: seq<Info>, goal: string, t: string, ts: seq<string>) {
    && Ordered(g, ts)
    && ts != [] && ts[|ts| - 1] == t
    && goal !in ts[..|ts| - 1]
    && forall x :: x in ts ==> Reaches(g, t, x)
  }

  /** And what the visits of some dependencies of `t` promise. */
  ghost predicate AllListed(g: seq<Info>, goal: string, t: string, ds: seq<string>, ts: seq<string>) {
    && Ordered(g, ts)
    && goal !in ts
    && (forall d :: d in ds ==> d in ts)
    && forall x :: x in ts ==> Reaches(g, t, x)
  }

  /** All of `ds` are dependencies of `t` that have rules. */
  ghost predicate Onward(g: seq<Info>, t: string, ds: seq<string>) {
    forall d :: d in ds ==> Link(g, t, d)
  }

  lemma {:induction false} VisitLists(g: seq<Info>, goal: string, t: string, depth: nat)
    requires HasRule(g, t) && Visit(g, goal, t, depth).Done?
    ensures Listed(g, goal, t, Visit(g, goal, t, depth).ts)
    decreases depth, 0
  {
    var ds := Children(g, RuleOf(g, t).deps);
    VisitAllLists(g, goal, t, ds, depth - 1);
    ListedEnd(g, goal, t, ds, VisitAll(g, goal, ds, depth - 1).ts);
  }

  lemma ListedEnd(g: seq<Info>, goal: string, t: string, ds: seq<string>, ts: seq<string>)
    requires HasRule(g, t) && ds == Children(g, RuleOf(g, t).deps) && AllListed(g, goal, t, ds, ts)
    ensures Listed(g, goal, t, ts + [t])
  {
    OrderedSnoc(g, ts, t);
    ReachSelf(g, t);
    var all := ts + [t];
    assert all[..|all| - 1] == ts;
  }

  lemma {:induction false} VisitAllLists(g: seq<Info>, goal: string, t: string, ds: seq<string>, depth: nat)
    requires AllRules(g, ds) && Onward(g, t, ds) && VisitAll(g, goal, ds, depth).Done?
    ensures AllListed(g, goal, t, ds, VisitAll(g, goal, ds, depth).ts)
    decreases depth, |ds|
  {
    if ds != [] {
      FirstHasRule(g, ds);
      VisitLists(g, goal, ds[0], depth);
      VisitAllLists(g, goal, t, ds[1..], depth);
      AllListedStep(g, goal, t, ds, Visit(g, goal, ds[0], depth).ts, VisitAll(g, goal, ds[1..], depth).ts);
    }
  }

  lemma NotLast(ts: seq<string>, x: string)
    requires ts != [] && x !in ts[..|ts| - 1] && x != ts[|ts| - 1]
    ensures x !in ts
  {
    assert ts == ts[..|ts| - 1] + [ts[|ts| - 1]];
  }

  lemma CoverJoin(ds: seq<string>, ts: seq<string>, more: seq<string>)
    requires ds != [] && ts != [] && ts[|ts| - 1] == ds[0] && forall d :: d in ds[1..] ==> d in more
    ensures forall d :: d in ds ==> d in ts + more
  {
    forall d | d in ds ensures d in ts + more {
      assert ds == [ds[0]] + ds[1..];
    }
  }

  lemma AllListedStep(g: seq<Info>, goal: string, t: string, ds: seq<string>, ts: seq<string>, more: seq<string>)
    requires ds != [] && ds[0] != goal && Link(g, t, ds[0])
    requires Listed(g, goal, ds[0], ts) && AllListed(g, goal, t, ds[1..], more)
    ensures AllListed(g, goal, t, ds, ts + more)
  {
    OrderedJoin(g, ts, more);
    NotLast(ts, goal);
    CoverJoin(ds, ts, more);
    forall x | x in ts + more ensures Reaches(g, t, x) {
      if x in ts {
        ReachStep(g, t, ds[0], x);
      }
    }
  }

  /** A visit fails only by coming back to the goal. */
  lemma {:induction false} BackIsReached(g: seq<Info>, goal: string, t: string, depth: nat) returns (q: seq<string>)
    requires HasRule(g, t) && Visit(g, goal, t, depth).Back?
    ensures Chain(g, q) && |q| >= 2 && q[0] == t && q[|q| - 1] == goal
    decreases depth, 0
  {
    q := BackIsReachedBySome(g, goal, t, Children(g, RuleOf(g, t).deps), depth - 1);
  }

  lemma {:induction false} BackIsReachedBySome(g: seq<Info>, goal: string, t: string, ds: seq<string>, depth: nat)
    returns (q: seq<string>)
    requires AllRules(g, ds) && Onward(g, t, ds) && VisitAll(g, goal, ds, depth).Back?
    ensures Chain(g, q) && |q| >= 2 && q[0] == t && q[|q| - 1] == goal
    decreases depth, |ds|
  {
    FirstHasRule(g, ds);
    if ds[0] == goal {
      assert Link(g, t, goal);
      q := [t, goal];
    } else if Visit(g, goal, ds[0], depth).Back? {
      var rest := BackIsReached(g, goal, ds[0], depth);
      assert Link(g, t, ds[0]);
      ChainJoin(g, [t, ds[0]], rest);
      q := [t, ds[0]] + rest[1..];
    } else {
      q := BackIsReachedBySome(g, goal, t, ds[1..], depth);
    }
  }

  /** A list that is closed under dependencies and holds the start of a chain holds all of it. */
  lemma {:induction false} OrderedHoldsChain(g: seq<Info>, ts: seq<string>, q: seq<string>, k: nat)
    requires Ordered(g, ts) && Chain(g, q) && q[0] in ts && k < |q|
    ensures q[k] in ts
  {
    if k > 0 {
      OrderedHoldsChain(g, ts, q, k - 1);
      var i :| 0 <= i < |ts| && ts[i] == q[k - 1];
      assert Link(g, ts[i], q[k]);
      assert q[k] in ts[..i];
    }
  }

  /** Below the goal, a visit lists its targets only if they do not lead back to the goal. */
  lemma DoneIsClear(g: seq<Info>, goal: string, t: string, depth: nat)
    requires HasRule(g, t) && t != goal && Visit(g, goal, t, depth).Done?
    ensures !Reaches(g, t, goal)
  {
    VisitLists(g, goal, t, depth);
    var ts := Visit(g, goal, t, depth).ts;
    NotLast(ts, goal);
    if Reaches(g, t, goal) {
      var q :| Chain(g, q) && q[0] == t && q[|q| - 1] == goal;
      OrderedHoldsChain(g, ts, q, |q| - 1);
    }
  }

  // ----- When a visit ends -----

  /** A visit of `a` goes on to its k-th dependency: it is not the goal, and none before it is or reaches the goal. */
  ghost predicate TakenAt(g: seq<Info>, goal: string, a: string, b: string, k: nat)
    requires HasRule(g, a)
  {
    var ds := Children(g, RuleOf(g, a).deps);
    k < |ds| && ds[k] == b && b != goal && forall j :: 0 <= j < k ==> !Reaches(g, ds[j], goal)
  }

  ghost predicate Taken(g: seq<Info>, goal: string, a: string, b: string) {
    HasRule(g, a) && exists k :: TakenAt(g, goal, a, b, k)
  }

  /** A chain that a visit of the goal follows. */
  ghost predicate Followed(g: seq<Info>, goal: string, p: seq<string>) {
    p != [] && p[0] == goal && HasRule(g, goal) && forall i :: 0 <= i < |p| - 1 ==> TakenFrom(g, goal, p, i)
  }

  ghost predicate TakenFrom(g: seq<Info>, goal: string, p: seq<string>, i: nat)
    requires i + 1 < |p|
  {
    Taken(g, goal, p[i], p[i + 1])
  }

  /** No chain that the visit follows meets a target again. */
  ghost predicate Ends(g: seq<Info>, goal: string) {
    forall p :: Followed(g, goal, p) ==> Distinct(p)
  }

  lemma TakenIsLink(g: seq<Info>, goal: string, a: string, b: string)
    requires Taken(g, goal, a, b)
    ensures Link(g, a, b) && b != goal
  {
    var k :| TakenAt(g, goal, a, b, k);
    assert b in Children(g, RuleOf(g, a).deps);
  }

  lemma FollowedIsChain(g: seq<Info>, goal: string, p: seq<string>)
    requires Followed(g, goal, p)
    ensures Chain(g, p) && forall i :: 0 < i < |p| ==> p[i] != goal
  {
    forall i | 0 <= i < |p| - 1 ensures Link(g, p[i], p[i + 1]) {
      assert TakenFrom(g, goal, p, i);
      TakenIsLink(g, goal, p[i], p[i + 1]);
    }
    forall i | 0 < i < |p| ensures p[i] != goal {
      assert TakenFrom(g, goal, p, i - 1);
      TakenIsLink(g, goal, p[i - 1], p[i]);
    }
  }

  lemma FollowedSnoc(g: seq<Info>, goal: string, p: seq<string>, d: string)
    requires Followed(g, goal, p) && Taken(g, goal, p[|p| - 1], d)
    ensures Followed(g, goal, p + [d])
  {
    var q := p + [d];
    forall i | 0 <= i < |q| - 1 ensures TakenFrom(g, goal, q, i) {
      if i < |p| - 1 {
        assert TakenFrom(g, goal, p, i);
      }
    }
  }

  /** If no chain that is followed repeats a target, the visit is not cut off at the size of the table. */
  lemma {:induction false} DeepEnough(g: seq<Info>, goal: string, p: seq<string>, depth: nat)
    requires Ends(g, goal) && Followed(g, goal, p) && HasRule(g, p[|p| - 1]) && depth + |p| > |g|
    ensures !Visit(g, goal, p[|p| - 1], depth).CutOff?
    decreases depth, 0
  {
    FollowedIsChain(g, goal, p);
    DistinctFits(g, p);
    var ds := Children(g, RuleOf(g, p[|p| - 1]).deps);
    assert ds[0..] == ds;
    DeepEnoughFrom(g, goal, p, ds, 0, depth - 1);
  }

  lemma {:induction false} DeepEnoughFrom(g: seq<Info>, goal: string, p: seq<string>, ds: seq<string>, k: nat, depth: nat)
    requires Ends(g, goal) && Followed(g, goal, p) && depth + |p| >= |g|
    requires HasRule(g, p[|p| - 1]) && ds == Children(g, RuleOf(g, p[|p| - 1]).deps)
    requires k <= |ds| && forall j :: 0 <= j < k ==> !Reaches(g, ds[j], goal)
    ensures AllRules(g, ds[k..]) && !VisitAll(g, goal, ds[k..], depth).CutOff?
    decreases depth, |ds| - k + 1
  {
    if k < |ds| {
      assert ds[k] in ds;
      VisitAllStep(g, goal, ds, depth, k, []);
      AppendNothing(VisitAll(g, goal, ds[k..], depth), []);
      if ds[k] != goal {
        assert TakenAt(g, goal, p[|p| - 1], ds[k], k);
        FollowedSnoc(g, goal, p, ds[k]);
        DeepEnough(g, goal, p + [ds[k]], depth);
        if Visit(g, goal, ds[k], depth).Done? {
          DoneIsClear(g, goal, ds[k], depth);
          DeepEnoughFrom(g, goal, p, ds, k + 1, depth);
        }
      }
    }
  }

  /** A visit that ends gets to every dependency it goes on to, and the visit of that ends too. */
  lemma TakenEnds(g: seq<Info>, goal: string, a: string, b: string, depth: nat)
    requires HasRule(g, a) && HasRule(g, b) && Taken(g, goal, a, b) && !Visit(g, goal, a, depth).CutOff?
    ensures depth > 1 && !Visit(g, goal, b, depth - 1).CutOff?
  {
    var k :| TakenAt(g, goal, a, b, k);
    var ds := Children(g, RuleOf(g, a).deps);
    assert ds[0..] == ds;
    TakenEndsFrom(g, goal, ds, 0, k, depth - 1);
  }

  lemma {:induction false} TakenEndsFrom(g: seq<Info>, goal: string, ds: seq<string>, i: nat, k: nat, depth: nat)
    requires i <= k < |ds| && AllRules(g, ds[i..]) && HasRule(g, ds[k]) && !VisitAll(g, goal, ds[i..], depth).CutOff?
    requires ds[k] != goal && forall j :: 0 <= j < k ==> !Reaches(g, ds[j], goal)
    ensures !Visit(g, goal, ds[k], depth).CutOff?
    decreases k - i
  {
    VisitAllStep(g, goal, ds, depth, i, []);
    AppendNothing(VisitAll(g, goal, ds[i..], depth), []);
    if i < k {
      ClearIsNotBack(g, goal, ds[i], depth);
      TakenEndsFrom(g, goal, ds, i + 1, k, depth);
    }
  }

  lemma ClearIsNotBack(g: seq<Info>, goal: string, t: string, depth: nat)
    requires HasRule(g, t) && !Reaches(g, t, goal)
    ensures !Next(g, goal, t, depth).Back?
  {
    if t == goal {
      ReachSelf(g, t);
    } else if Visit(g, goal, t, depth).Back? {
      var q := BackIsReached(g, goal, t, depth);
    }
  }

  predicate EndsWithin(g: seq<Info>, goal: string, t: string, depth: int) {
    depth > 0 && HasRule(g, t) && !Visit(g, goal, t, depth).CutOff?
  }

  lemma FollowedStep(g: seq<Info>, goal: string, p: seq<string>, i: nat, a: string, b: string, depth: int)
    requires Followed(g, goal, p) && i + 1 < |p| && p[i] == a && p[i + 1] == b && EndsWithin(g, goal, a, depth)
    ensures EndsWithin(g, goal, b, depth - 1)
  {
    assert TakenFrom(g, goal, p, i);
    TakenIsLink(g, goal, a, b);
    TakenEnds(g, goal, a, b, depth);
  }

  /** A visit that ends is deeper than every chain it follows is long. */
  lemma {:induction false} EndedBoundsChains(g: seq<Info>, goal: string, p: seq<string>, depth: nat, i: nat)
    requires Followed(g, goal, p) && i < |p| && EndsWithin(g, goal, goal, depth)
    ensures EndsWithin(g, goal, p[i], depth - i)
    decreases i
  {
    if i > 0 {
      EndedBoundsChains(g, goal, p, depth, i - 1);
      FollowedStep(g, goal, p, i - 1, p[i - 1], p[i], depth - i + 1);
    }
  }

  /** Going round once more, from a target that a chain meets twice. */
  lemma RoundAgain(g: seq<Info>, goal: string, p: seq<string>, i: nat, j: nat, q: seq<string>)
    requires Followed(g, goal, p) && i < j < |p| && p[i] == p[j] && q == p[..j + 1] + p[i + 1..]
    ensures Followed(g, goal, q)
  {
    forall k | 0 <= k < |q| - 1 ensures TakenFrom(g, goal, q, k) {
      var m := if k < j then k else k - j + i;
      RoundStep(p, i, j, q, k, m);
      assert TakenFrom(g, goal, p, m);
    }
  }

  lemma RoundStep(p: seq<string>, i: nat, j: nat, q: seq<string>, k: nat, m: nat)
    requires i < j < |p| && p[i] == p[j] && q == p[..j + 1] + p[i + 1..] && k + 1 < |q|
    requires m == if k < j then k else k - j + i
    ensures m + 1 < |p| && q[k] == p[m] && q[k + 1] == p[m + 1]
  {
  }

  /** A chain that meets a target again can be made as long as one likes. */
  lemma {:induction false} RoundAndRound(g: seq<Info>, goal: string, p: seq<string>, i: nat, j: nat, n: nat) returns (r: seq<string>)
    requires Followed(g, goal, p) && i < j < |p| && p[i] == p[j]
    ensures Followed(g, goal, r) && |r| >= n
    decreases n - |p|
  {
    if |p| >= n {
      r := p;
    } else {
      var q := p[..j + 1] + p[i + 1..];
      RoundAgain(g, goal, p, i, j, q);
      r := RoundAndRound(g, goal, q, i, j, n);
    }
  }

  /** And then no visit ends. */
  lemma NeverEnds(g: seq<Info>, goal: string, p: seq<string>, i: nat, j: nat, depth: nat)
    requires Followed(g, goal, p) && i < j < |p| && p[i] == p[j]
    ensures HasRule(g, goal) && Visit(g, goal, goal, depth).CutOff?
  {
    var r := RoundAndRound(g, goal, p, i, j, depth + 1);
    if !Visit(g, goal, goal, depth).CutOff? {
      EndedBoundsChains(g, goal, r, depth, |r| - 1);
    }
  }

  /** A visit of the goal ends exactly if no chain that it follows meets a target again; it then goes no deeper
      than the table is long. */
  lemma VisitEndsIff(g: seq<Info>, goal: string)
    requires HasRule(g, goal)
    ensures Ends(g, goal) <==> exists depth: nat :: !Visit(g, goal, goal, depth).CutOff?
    ensures Ends(g, goal) <==> !Visit(g, goal, goal, |g|).CutOff?
  {
    if Ends(g, goal) {
      DeepEnough(g, goal, [goal], |g|);
    } else {
      var p :| Followed(g, goal, p) && !Distinct(p);
      var i, j :| 0 <= i < j < |p| && p[i] == p[j];
      forall depth: nat ensures Visit(g, goal, goal, depth).CutOff? {
        NeverEnds(g, goal, p, i, j, depth);
      }
    }
  }

  lemma CycleMeetsGoal(g: seq<Info>, goal: string, c: seq<string>, q: seq<string>) returns (m: nat)
    requires OnlyGoalCycles(g, goal) && Chain(g, c) && c[0] == goal && Cycle(g, q) && c[|c| - 1] == q[0]
    ensures m < |q| && q[m] == goal
  {
    m :| 0 <= m < |q| && q[m] == goal;
  }

  lemma SlicesAreCycle(g: seq<Info>, p: seq<string>, i: nat, j: nat, c: seq<string>, q: seq<string>)
    requires Chain(g, p) && i < j < |p| && p[i] == p[j] && c == p[0..i + 1] && q == p[i..j + 1]
    ensures Chain(g, c) && c[0] == p[0] && Cycle(g, q) && c[|c| - 1] == q[0]
  {
    ChainSlice(g, p, 0, i + 1);
    ChainSlice(g, p, i, j + 1);
  }

  lemma RepeatMeetsGoal(g: seq<Info>, goal: string, p: seq<string>, i: nat, j: nat) returns (k: nat)
    requires OnlyGoalCycles(g, goal) && Chain(g, p) && p[0] == goal && i < j < |p| && p[i] == p[j]
    ensures i <= k <= j && p[k] == goal
  {
    var c, q := p[0..i + 1], p[i..j + 1];
    SlicesAreCycle(g, p, i, j, c, q);
    var m := CycleMeetsGoal(g, goal, c, q);
    k := i + m;
  }

  /** It ends if every cycle that the goal reaches passes through the goal. */
  lemma OnlyGoalCyclesEnd(g: seq<Info>, goal: string)
    requires OnlyGoalCycles(g, goal)
    ensures Ends(g, goal)
  {
    forall p, i, j | Followed(g, goal, p) && 0 <= i < j < |p| ensures p[i] != p[j] {
      FollowedIsChain(g, goal, p);
      if p[i] == p[j] && i > 0 {
        var k := RepeatMeetsGoal(g, goal, p, i, j);
      }
    }
  }

  /** A goal whose dependency depends on itself: the visit never ends. */
  lemma SelfLoopIsUnseen(depth: nat)
    ensures var g := [Info("a", ["b"], None, Explicit, false), Info("b", ["b"], None, Explicit, false)];
            Unique(g) && Closed(g) && HasRule(g, "a") && Visit(g, "a", "a", depth).CutOff?
  {
    var g := [Info("a", ["b"], None, Explicit, false), Info("b", ["b"], None, Explicit, false)];
    FindIs(g, 0);
    FindIs(g, 1);
    assert Children(g, ["b"]) == ["b"];
    if depth > 0 {
      SelfLoopIsCutOff(g, "a", "b", depth - 1);
    }
  }

  lemma {:induction false} SelfLoopIsCutOff(g: seq<Info>, goal: string, t: string, depth: nat)
    requires HasRule(g, t) && t != goal && Children(g, RuleOf(g, t).deps) == [t]
    ensures Visit(g, goal, t, depth).CutOff? && VisitAll(g, goal, [t], depth).CutOff?
  {
    if depth > 0 {
      SelfLoopIsCutOff(g, goal, t, depth - 1);
    }
  }

  /** If the goal comes first among its dependencies, the visit ends before it gets to the loop of the other. */
  lemma GoalFirstEnds()
    ensures var g := [Info("a", ["b", "a"], None, Explicit, false), Info("b", ["b"], None, Explicit, false)];
            Unique(g) && Closed(g) && HasRule(g, "a") && !OnlyGoalCycles(g, "a") && Ends(g, "a")
  {
    var g := [Info("a", ["b", "a"], None, Explicit, false), Info("b", ["b"], None, Explicit, false)];
    FindIs(g, 0);
    FindIs(g, 1);
    assert Link(g, "a", "b") && Link(g, "b", "b");
    assert Chain(g, ["a", "b"]) && Cycle(g, ["b", "b"]) && "a" !in ["b", "b"];
    assert Children(g, ["a"]) == ["a"];
    assert Children(g, ["b", "a"]) == ["a", "b"];
    assert Visit(g, "a", "a", 1).Back?;
    VisitEndsIff(g, "a");
  }

  // ----- The order of a whole visit -----

  /** What the visit of a goal comes to. */
  function Sorted(g: seq<Info>, goal: string): Trip
    requires HasRule(g, goal)
  {
    Visit(g, goal, goal, |g|)
  }

  /** Every visit of the goal that ends comes to that. */
  lemma SortedIsVisit(g: seq<Info>, goal: string, depth: nat)
    requires HasRule(g, goal) && !Visit(g, goal, goal, depth).CutOff?
    ensures Visit(g, goal, goal, depth) == Sorted(g, goal)
  {
    VisitEndsIff(g, goal);
    DeeperIsSame(g, goal, goal, depth, depth + |g|);
    DeeperIsSame(g, goal, goal, |g|, depth + |g|);
  }

  /** A visit that ends fails exactly when the goal depends on itself, directly or not. */
  lemma SortedFailsIffCycle(g: seq<Info>, goal: string)
    requires HasRule(g, goal) && Ends(g, goal)
    ensures Sorted(g, goal).Back? <==> exists q :: Cycle(g, q) && q[0] == goal
  {
    VisitEndsIff(g, goal);
    if Sorted(g, goal).Back? {
      var q := BackIsReached(g, goal, goal, |g|);
      assert Cycle(g, q) && q[0] == goal;
    } else if exists q :: Cycle(g, q) && q[0] == goal {
      var q :| Cycle(g, q) && q[0] == goal;
      VisitLists(g, goal, goal, |g|);
      NoWayBack(g, goal, Sorted(g, goal).ts, q);
    }
  }

  lemma NoWayBack(g: seq<Info>, goal: string, ts: seq<string>, q: seq<string>)
    requires Ordered(g, ts) && ts != [] && ts[|ts| - 1] == goal
    requires Cycle(g, q) && q[0] == goal
    ensures goal in ts[..|ts| - 1]
  {
    OrderedHoldsChain(g, ts, q, |q| - 2);
    var i :| 0 <= i < |ts| && ts[i] == q[|q| - 2];
    assert Link(g, q[|q| - 2], q[|q| - 2 + 1]);
    assert goal in ts[..i];
    assert ts[..i] <= ts[..|ts| - 1];
  }

  /** A visit that succeeds lists exactly the targets the goal reaches, each after all its dependencies, and
      the goal last and only there. */
  lemma SortedIsOrder(g: seq<Info>, goal: string, ts: seq<string>)
    requires HasRule(g, goal) && Sorted(g, goal) == Done(ts)
    ensures Ordered(g, ts)
    ensures forall x :: x in ts <==> Reaches(g, goal, x)
    ensures ts != [] && ts[|ts| - 1] == goal && goal !in ts[..|ts| - 1]
  {
    VisitLists(g, goal, goal, |g|);
    forall x | Reaches(g, goal, x) ensures x in ts {
      var q :| Chain(g, q) && q[0] == goal && q[|q| - 1] == x;
      OrderedHoldsChain(g, ts, q, |q| - 1);
    }
  }
}
