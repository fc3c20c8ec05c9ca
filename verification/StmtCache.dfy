/** The cache of prepared statements of jim-sqlite3.c: a doubly linked list, most recently released first. */
module StmtCache {

  const MAX_PREPARED_STMTS := 100

  /** What compiling SQL text comes to: an error, no statement, or one statement of `size` characters. */
  datatype Compiled = Failure | NoOp(size: nat) | Statement(size: nat)

  class Stmt {
    const sql: string
    var next: Stmt?
    var prev: Stmt?

    constructor (sql: string)
      ensures this.sql == sql && next == null && prev == null
    {
      this.sql, next, prev := sql, null, null;
    }
  }

  ghost function At(s: seq<Stmt>, i: int): Stmt? {
    if 0 <= i < |s| then s[i] else null
  }

  ghost predicate Apart(s: seq<Stmt>) {
    forall i, j :: 0 <= i < j < |s| ==> s[i] != s[j]
  }

  /** The links of these statements make a list of them. */
  ghost predicate Linked(s: seq<Stmt>)
    reads s`next, s`prev
  {
    Apart(s) && Nexts(s) && Prevs(s)
  }

  ghost predicate Nexts(s: seq<Stmt>)
    reads s`next
  {
    forall i {:trigger s[i].next} :: 0 <= i < |s| ==> s[i].next == At(s, i + 1)
  }

  ghost predicate Prevs(s: seq<Stmt>)
    reads s`prev
  {
    forall i {:trigger s[i].prev} :: 0 <= i < |s| ==> s[i].prev == At(s, i - 1)
  }

  // ----- Reading the list -----

  /** What is met by following the next links for `n` steps. */
  ghost function Forwards(p: Stmt?, n: nat, heap: set<Stmt>): seq<Stmt>
    reads heap
  {
    if n == 0 || p == null || p !in heap then [] else [p] + Forwards(p.next, n - 1, heap)
  }

  ghost function Backwards(p: Stmt?, n: nat, heap: set<Stmt>): seq<Stmt>
    reads heap
  {
    if n == 0 || p == null || p !in heap then [] else [p] + Backwards(p.prev, n - 1, heap)
  }

  ghost function Reverse(s: seq<Stmt>): (r: seq<Stmt>)
    ensures |r| == |s|
  {
    if s == [] then [] else [s[|s| - 1]] + Reverse(s[..|s| - 1])
  }

  lemma {:induction false} ForwardsIs(s: seq<Stmt>, k: nat, n: nat, heap: set<Stmt>)
    requires Linked(s) && k <= |s| && n >= |s| - k && forall p :: p in s ==> p in heap
    ensures Forwards(At(s, k), n, heap) == s[k..]
    decreases n
  {
    if k < |s| {
      assert s[k] in heap;
      ForwardsIs(s, k + 1, n - 1, heap);
      assert s[k..] == [s[k]] + s[k + 1..];
    }
  }

  lemma {:induction false} BackwardsIs(s: seq<Stmt>, k: nat, n: nat, heap: set<Stmt>)
    requires Linked(s) && k <= |s| && n >= k && forall p :: p in s ==> p in heap
    ensures Backwards(At(s, k - 1), n, heap) == Reverse(s[..k])
    decreases n
  {
    if k > 0 {
      assert s[k - 1] in heap;
      BackwardsIs(s, k - 1, n - 1, heap);
      assert s[..k][..k - 1] == s[..k - 1];
    }
  }

  // ----- Text -----

  predicate IsSpace(c: char) {
    c == ' ' || '\t' <= c <= '\r'
  }

  function Trim(s: string): (r: string)
    ensures |r| <= |s| && r == s[|s| - |r|..] && (r != "" ==> !IsSpace(r[0]))
    ensures forall i :: 0 <= i < |s| - |r| ==> IsSpace(s[i])
  {
    if s != "" && IsSpace(s[0]) then Trim(s[1..]) else s
  }

  /** A cached statement serves for this text. */
  predicate Serves(sql: string, text: string) {
    sql != "" && sql <= text && (|sql| == |text| || sql[|sql| - 1] == ';')
  }

  /** The first `n` characters of `s` and `t` are the same, and in both they are a statement of its own: there is
      nothing after them in `t`, or the last of them is a semicolon. */
  ghost predicate SameStatement(s: string, t: string, n: nat) {
    n <= |s| && n <= |t| && s[..n] == t[..n] && (n == |t| || (n > 0 && s[n - 1] == ';'))
  }

  /** Compiling depends on the first statement of the text only, and that ends at a semicolon or with the text. */
  ghost predicate Consistent(compile: string -> Compiled) {
    && (forall s :: compile(s).Statement? ==> 0 < compile(s).size <= |s|)
    && (forall s :: compile(s).NoOp? ==> compile(s).size <= |s|)
    && (forall s, t :: compile(s).Statement? && SameStatement(s, t, compile(s).size) ==> compile(t) == compile(s))
  }

  /** The statement is the whole of its text. */
  predicate Known(compile: string -> Compiled, sql: string) {
    sql != "" && compile(sql) == Statement(|sql|)
  }

  /** A cached statement that serves for a text is the one that compiling the text would give. */
  lemma HitIsWhatCompilingGives(compile: string -> Compiled, sql: string, text: string)
    requires Consistent(compile) && Known(compile, sql) && Serves(sql, text)
    ensures compile(text) == Statement(|sql|) && text[..|sql|] == sql
  {
    assert SameStatement(sql, text, |sql|);
  }

  /** And a statement that compiling has taken from a text serves for that text again exactly if it is the whole of
      it or ends at a semicolon. */
  lemma CompiledServesIff(compile: string -> Compiled, text: string)
    requires Consistent(compile) && compile(text).Statement?
    ensures var n := compile(text).size;
      0 < n <= |text| && (Serves(text[..n], text) <==> n == |text| || text[n - 1] == ';')
  {
  }

  // ----- What the operations do to the sequence of cached statements -----

  /** The position of the first statement that serves for a text. */
  function Hit(s: seq<Stmt>, text: string): (k: nat)
    ensures k <= |s| && (k < |s| ==> Serves(s[k].sql, text))
    ensures forall i :: 0 <= i < k ==> !Serves(s[i].sql, text)
  {
    if s == [] || Serves(s[0].sql, text) then 0 else 1 + Hit(s[1..], text)
  }

  function Without<T>(s: seq<T>, k: nat): (r: seq<T>)
    requires k <= |s|
    ensures |r| == if k < |s| then |s| - 1 else |s|
  {
    if k < |s| then s[..k] + s[k + 1..] else s
  }

  function Cut<T>(s: seq<T>, n: int): (r: seq<T>)
    ensures r <= s && (n >= 0 ==> |r| <= n)
  {
    if 0 <= n < |s| then s[..n] else s
  }

  ghost predicate AllKnown(compile: string -> Compiled, s: seq<Stmt>) {
    forall i :: 0 <= i < |s| ==> Known(compile, s[i].sql)
  }

  class Db {
    const compile: string -> Compiled
    var stmtList: Stmt?
    var stmtLast: Stmt?
    var nStmt: int
    var maxStmt: int
    ghost var cached: seq<Stmt>

    ghost predicate Valid()
      reads this, cached
    {
      && nStmt == |cached| && stmtList == At(cached, 0) && stmtLast == At(cached, |cached| - 1)
      && Linked(cached)
      && AllKnown(compile, cached)
    }

    constructor (compile: string -> Compiled)
      ensures Valid() && cached == [] && maxStmt == 10 && this.compile == compile
    {
      this.compile := compile;
      stmtList, stmtLast, nStmt, maxStmt, cached := null, null, 0, 10, [];
    }

    /** Read from the front the list is the sequence, and read from the back it is the reverse. */
    lemma ListIsCached(heap: set<Stmt>)
      requires Valid() && forall p :: p in cached ==> p in heap
      ensures Forwards(stmtList, nStmt, heap) == cached
      ensures Backwards(stmtLast, nStmt, heap) == Reverse(cached)
    {
      ForwardsIs(cached, 0, nStmt, heap);
      BackwardsIs(cached, |cached|, nStmt, heap);
      assert cached[0..] == cached && cached[..|cached|] == cached;
    }

    method Find(text: string) returns (p: Stmt?)
      requires Valid()
      ensures p == At(cached, Hit(cached, text))
    {
      p := stmtList;
      ghost var k := 0;
      assert cached[0..] == cached;
      while p != null && !Serves(p.sql, text)
        invariant k <= |cached| && p == At(cached, k)
        invariant Hit(cached, text) == k + Hit(cached[k..], text)
        decreases |cached| - k
      {
        assert cached[k..][1..] == cached[k + 1..];
        p := p.next;
        k := k + 1;
      }
    }

    /** The forward links go past a statement. */
    method SkipNext(p: Stmt, ghost s: seq<Stmt>, ghost w: seq<Stmt>, ghost k: nat)
      requires Linked(s) && stmtList == At(s, 0) && k < |s| && p == s[k] && Removed(s, w, k)
      modifies this`stmtList, s`next
      ensures Nexts(w) && Prevs(s) && p.next == At(s, k + 1) && stmtList == At(w, 0)
    {
      if p.prev != null {
        p.prev.next := p.next;
      } else {
        stmtList := p.next;
      }
      forall i | 0 <= i < |w| ensures w[i].next == At(w, i + 1) {
        RemovedAt(s, w, k, i);
        RemovedAt(s, w, k, i + 1);
      }
      RemovedAt(s, w, k, 0);
    }

    /** The backward links go past a statement. */
    method SkipPrev(p: Stmt, ghost s: seq<Stmt>, ghost w: seq<Stmt>, ghost k: nat)
      requires Apart(s) && Prevs(s) && stmtLast == At(s, |s| - 1) && k < |s| && p == s[k] && p.next == At(s, k + 1)
      requires Removed(s, w, k) && Nexts(w)
      modifies this`stmtLast, s`prev
      ensures Nexts(w) && Prevs(w) && stmtLast == At(w, |w| - 1)
    {
      if p.next != null {
        p.next.prev := p.prev;
      } else {
        stmtLast := p.prev;
      }
      forall i | 0 <= i < |w| ensures w[i].prev == At(w, i - 1) {
        RemovedAt(s, w, k, i);
        RemovedAt(s, w, k, i - 1);
      }
      RemovedAt(s, w, k, |w| - 1);
    }

    /** Takes a statement out of the list. */
    method Unlink(p: Stmt, ghost k: nat)
      requires Valid() && k < |cached| && p == cached[k]
      modifies this`stmtList, this`stmtLast, this`nStmt, this`cached, cached`next, cached`prev
      ensures Valid() && Removed(old(cached), cached, k)
    {
      ghost var w := Remove(compile, cached, k);
      SkipNext(p, cached, w, k);
      SkipPrev(p, cached, w, k);
      nStmt := nStmt - 1;
      cached := w;
    }
  
    /** Finds or compiles the first statement of a text. The statement it gives is out of the list, and is the
        one that compiling gives, whether or not it was cached. */
    method PrepareAndBind(text: string) returns (ok: bool, p: Stmt?, rest: string)
      requires Valid() && Consistent(compile)
      modifies this`stmtList, this`stmtLast, this`nStmt, this`cached, cached`next, cached`prev
      ensures Valid() && cached == Without(old(cached), Hit(old(cached), Trim(text)))
      ensures Compiles(Trim(text), ok, p, rest)
      ensures p != null ==> p !in cached && (p == At(old(cached), Hit(old(cached), Trim(text))) || fresh(p))
    {
      ok, p, rest := PrepareFirst(Trim(text));
    }

    /** The outcome is that of compiling the text. */
    ghost predicate Compiles(sql: string, ok: bool, p: Stmt?, rest: string) {
      match compile(sql)
      case Failure => !ok && p == null
      case NoOp(n) => ok && p == null && n <= |sql| && rest == sql[n..]
      case Statement(n) => ok && p != null && |p.sql| == n && sql == p.sql + rest && Known(compile, p.sql)
    }

    method PrepareFirst(sql: string) returns (ok: bool, p: Stmt?, rest: string)
      requires Valid() && Consistent(compile)
      modifies this`stmtList, this`stmtLast, this`nStmt, this`cached, cached`next, cached`prev
      ensures Valid() && cached == Without(old(cached), Hit(old(cached), sql))
      ensures Compiles(sql, ok, p, rest)
      ensures p != null ==> p !in cached && (p == At(old(cached), Hit(old(cached), sql)) || fresh(p))
    {
      p := Find(sql);
      if p != null {
        ok, rest := true, sql[|p.sql|..];
        Reuse(p, sql);
      } else {
        ok, p, rest := Compile(sql);
      }
    }

    /** The cached statement that serves for a text. */
    method Reuse(p: Stmt, sql: string)
      requires Valid() && Consistent(compile) && p == At(cached, Hit(cached, sql))
      modifies this`stmtList, this`stmtLast, this`nStmt, this`cached, cached`next, cached`prev
      ensures Valid() && cached == Without(old(cached), Hit(old(cached), sql)) && p !in cached
      ensures p.sql <= sql && Compiles(sql, true, p, sql[|p.sql|..])
    {
      SplitAt(sql, |p.sql|);
      ghost var k := Hit(cached, sql);
      HitIsWhatCompilingGives(compile, p.sql, sql);
      ghost var s := cached;
      Unlink(p, k);
      RemovedIsWithout(s, cached, k);
    }

    /** A new statement for a text. */
    method Compile(sql: string) returns (ok: bool, p: Stmt?, rest: string)
      requires Consistent(compile)
      ensures Compiles(sql, ok, p, rest) && (p != null ==> fresh(p))
    {
      p, rest := null, "";
      match compile(sql)
      case Failure => ok := false;
      case NoOp(n) => ok, rest := true, sql[n..];
      case Statement(n) =>
        ok, rest := true, sql[n..];
        p := new Stmt(sql[..n]);
        SplitAt(sql, n);
    }

    /** Puts a statement at the front of the list. */
    method Push(p: Stmt)
      requires Valid() && p !in cached && Known(compile, p.sql)
      modifies this`stmtList, this`stmtLast, this`nStmt, this`cached, p, cached`prev
      ensures Valid() && cached == [p] + old(cached)
    {
      p.next := stmtList;
      p.prev := null;
      if stmtList != null {
        stmtList.prev := p;
      }
      stmtList := p;
      if stmtLast == null {
        stmtLast := p;
      }
      nStmt := nStmt + 1;
      cached := [p] + cached;
    }

    /** Drops the last statement. It is never the only one, so there is a statement before it. */
    method Evict()
      requires Valid() && nStmt >= 2
      modifies this`stmtLast, this`nStmt, this`cached, cached`next
      ensures Valid() && cached == old(cached)[..|old(cached)| - 1]
    {
      stmtLast := stmtLast.prev;
      stmtLast.next := null;
      nStmt := nStmt - 1;
      cached := cached[..|cached| - 1];
    }

    /** Gives a statement back, to be dropped or cached. */
    method ReleaseStmt(p: Stmt, discard: bool)
      requires Valid() && p !in cached && Known(compile, p.sql)
      modifies this`stmtList, this`stmtLast, this`nStmt, this`cached, p, cached`prev, cached`next
      ensures Valid()
      ensures cached == if maxStmt <= 0 || discard then old(cached) else Cut([p] + old(cached), maxStmt)
    {
      if !(maxStmt <= 0 || discard) {
        Push(p);
        Shorten();
      }
    }

    /** Drops statements from the end until no more than the size that is set are left. */
    method Shorten()
      requires Valid() && maxStmt > 0
      modifies this`stmtLast, this`nStmt, this`cached, cached`next
      ensures Valid() && cached == Cut(old(cached), maxStmt)
    {
      ghost var all := cached;
      ghost var n := |all|;
      CutAll(all);
      while nStmt > maxStmt
        invariant Valid() && 0 <= n <= |all| && cached == all[..n] && (n == |all| || n >= maxStmt)
        decreases nStmt
      {
        CutLast(all, n);
        n := n - 1;
        Evict();
      }
    }

    method FlushStmtCache()
      requires Valid()
      modifies this`stmtList, this`stmtLast, this`nStmt, this`cached
      ensures Valid() && cached == []
    {
      ghost var k := 0;
      while stmtList != null
        invariant k <= |cached| && stmtList == At(cached, k) && Linked(cached)
        decreases |cached| - k
      {
        stmtList := stmtList.next;
        k := k + 1;
      }
      nStmt := 0;
      stmtLast := null;
      cached := [];
    }

    /** The `cache size` command. A new size does not shorten the list by itself, unless it is negative. */
    method CacheSize(w: int)
      requires Valid()
      modifies this`stmtList, this`stmtLast, this`nStmt, this`cached, this`maxStmt
      ensures Valid() && cached == if w < 0 then [] else old(cached)
      ensures maxStmt == if w < 0 then 0 else if w > MAX_PREPARED_STMTS then MAX_PREPARED_STMTS else w
    {
      var size := w;
      if w < 0 {
        FlushStmtCache();
        size := 0;
      } else if w > MAX_PREPARED_STMTS {
        size := MAX_PREPARED_STMTS;
      }
      maxStmt := size;
    }

    /** The list and its size, as a run of the cache sees them. */
    ghost function Now(): Cache
      reads this`cached, this`maxStmt
    {
      Cache(cached, maxStmt)
    }

    /** One step of a run. */
    method Perform(op: Op)
      requires Valid() && Consistent(compile) && (op.Put? ==> op.p !in cached && Known(compile, op.p.sql))
      modifies this, if op.Put? then {op.p} else {}, cached
      ensures Valid() && Now() == After(old(Now()), op)
    {
      match op
      case Prepare(text) => var ok, p, rest := PrepareAndBind(text);
      case Put(p, discard) => ReleaseStmt(p, discard);
      case Flush => FlushStmtCache();
      case Size(w) => CacheSize(w);
    }
  }

  lemma CutAll<T>(s: seq<T>)
    ensures s[..|s|] == s
  {
  }

  lemma CutLast<T>(s: seq<T>, n: nat)
    requires 0 < n <= |s|
    ensures s[..n][..n - 1] == s[..n - 1]
  {
  }

  lemma SplitAt(s: string, n: nat)
    requires n <= |s|
    ensures s[..n] + s[n..] == s
  {
  }

  ghost predicate Removed(s: seq<Stmt>, w: seq<Stmt>, k: nat) {
    |w| == |s| - 1 && forall i {:trigger w[i]} :: 0 <= i < |w| ==> w[i] == if i < k then s[i] else s[i + 1]
  }

  lemma Remove(compile: string -> Compiled, s: seq<Stmt>, k: nat) returns (w: seq<Stmt>)
    requires Apart(s) && AllKnown(compile, s) && k < |s|
    ensures Removed(s, w, k) && Apart(w) && AllKnown(compile, w)
  {
    w := Without(s, k);
  }

  lemma RemovedIsWithout(s: seq<Stmt>, w: seq<Stmt>, k: nat)
    requires k < |s| && Removed(s, w, k)
    ensures w == Without(s, k)
  {
    var r := Without(s, k);
    assert forall i :: 0 <= i < |r| ==> r[i] == w[i];
  }

  lemma RemovedAt(s: seq<Stmt>, w: seq<Stmt>, k: nat, i: int)
    requires k < |s| && Removed(s, w, k)
    ensures At(w, i) == if i < k then At(s, i) else At(s, i + 1)
  {
  }

  /** A statement that is released to the cache is what the next preparation of a text finds, if it was compiled
      from that text and is the whole of it or ends at a semicolon. */
  lemma ReleasedIsFound(compile: string -> Compiled, text: string, p: Stmt, cached: seq<Stmt>, n: int)
    requires Consistent(compile) && compile(text).Statement? && p.sql == text[..compile(text).size] && n > 0
    requires compile(text).size == |text| || text[compile(text).size - 1] == ';'
    ensures Hit(Cut([p] + cached, n), text) == 0
  {
    CompiledServesIff(compile, text);
    assert Cut([p] + cached, n)[0] == p;
  }

  // ----- Runs of the cache -----

  /** A step of a run: a text is prepared, a statement released, the cache flushed, or its size set. */
  datatype Op = Prepare(text: string) | Put(p: Stmt, discard: bool) | Flush | Size(w: int)

  datatype Cache = Cache(list: seq<Stmt>, max: int)

  const EMPTY := Cache([], 10)

  /** The effect of one operation, which Db.Perform ties to the methods of Db. */
  function After(c: Cache, op: Op): Cache {
    match op
    case Prepare(text) => Cache(Without(c.list, Hit(c.list, Trim(text))), c.max)
    case Put(p, discard) => if c.max <= 0 || discard then c else Cache(Cut([p] + c.list, c.max), c.max)
    case Flush => Cache([], c.max)
    case Size(w) => if w < 0 then Cache([], 0) else Cache(c.list, if w > MAX_PREPARED_STMTS then MAX_PREPARED_STMTS else w)
  }

  function RunOps(ops: seq<Op>): Cache {
    if ops == [] then EMPTY else After(RunOps(ops[..|ops| - 1]), ops[|ops| - 1])
  }

  /** Only statements that are out of the list are released. */
  ghost predicate Proper(ops: seq<Op>) {
    forall i :: 0 <= i < |ops| && ops[i].Put? ==> ops[i].p !in RunOps(ops[..i]).list
  }

  /** The time of the last release of a statement; 0 if there was none. */
  function LastPut(ops: seq<Op>, p: Stmt): (t: nat)
    ensures t <= |ops|
  {
    if ops == [] then 0
    else if ops[|ops| - 1].Put? && ops[|ops| - 1].p == p then |ops|
    else LastPut(ops[..|ops| - 1], p)
  }

  ghost predicate NewestFirst(ops: seq<Op>, list: seq<Stmt>) {
    && (forall i, j :: 0 <= i < j < |list| ==> LastPut(ops, list[i]) > LastPut(ops, list[j]))
    && (forall i :: 0 <= i < |list| ==> LastPut(ops, list[i]) > 0)
  }

  lemma ProperInit(ops: seq<Op>)
    requires Proper(ops) && ops != []
    ensures Proper(ops[..|ops| - 1])
    ensures ops[|ops| - 1].Put? ==> ops[|ops| - 1].p !in RunOps(ops[..|ops| - 1]).list
  {
    var init := ops[..|ops| - 1];
    forall i | 0 <= i < |init| && init[i].Put? ensures init[i].p !in RunOps(init[..i]).list {
      assert init[..i] == ops[..i] && ops[i].Put?;
    }
  }

  /** After any run the list is ordered by the time of release, the newest first, so that what a release cuts
      off is what was released longest ago; and it never holds more than the greatest size there may be. */
  lemma {:induction false} RunKeepsNewestFirst(ops: seq<Op>)
    requires Proper(ops)
    ensures NewestFirst(ops, RunOps(ops).list)
    ensures |RunOps(ops).list| <= MAX_PREPARED_STMTS && RunOps(ops).max <= MAX_PREPARED_STMTS
    decreases |ops|
  {
    if ops != [] {
      ProperInit(ops);
      RunKeepsNewestFirst(ops[..|ops| - 1]);
      StepKeepsNewestFirst(ops, RunOps(ops[..|ops| - 1]));
    }
  }

  lemma StepKeepsNewestFirst(ops: seq<Op>, c: Cache)
    requires ops != [] && NewestFirst(ops[..|ops| - 1], c.list)
    requires ops[|ops| - 1].Put? ==> ops[|ops| - 1].p !in c.list
    ensures NewestFirst(ops, After(c, ops[|ops| - 1]).list)
  {
    var op := ops[|ops| - 1];
    assert NewestFirst(ops, c.list) by {
      assert forall i :: 0 <= i < |c.list| ==> LastPut(ops, c.list[i]) == LastPut(ops[..|ops| - 1], c.list[i]);
    }
    match op
    case Prepare(text) => WithoutKeepsOrder(ops, c.list, Hit(c.list, Trim(text)));
    case Put(p, discard) =>
      if !(c.max <= 0 || discard) {
        NewestInFront(ops, c.list);
        CutKeepsOrder(ops, [p] + c.list, c.max);
      }
    case Flush =>
    case Size(w) =>
  }

  lemma WithoutKeepsOrder(ops: seq<Op>, list: seq<Stmt>, k: nat)
    requires NewestFirst(ops, list) && k <= |list|
    ensures NewestFirst(ops, Without(list, k))
  {
    var w := Without(list, k);
    forall i, j | 0 <= i < j < |w| ensures LastPut(ops, w[i]) > LastPut(ops, w[j]) {
      var a, b := if i < k then i else i + 1, if j < k then j else j + 1;
      assert w[i] == list[a] && w[j] == list[b];
    }
  }

  lemma CutKeepsOrder(ops: seq<Op>, list: seq<Stmt>, n: int)
    requires NewestFirst(ops, list)
    ensures NewestFirst(ops, Cut(list, n))
  {
  }

  lemma NewestInFront(ops: seq<Op>, list: seq<Stmt>)
    requires ops != [] && ops[|ops| - 1].Put? && NewestFirst(ops, list) && ops[|ops| - 1].p !in list
    ensures NewestFirst(ops, [ops[|ops| - 1].p] + list)
  {
    var p := ops[|ops| - 1].p;
    var all := [p] + list;
    forall i | 0 <= i < |list| ensures LastPut(ops, list[i]) < |ops| {
      assert list[i] != p;
    }
  }
}
