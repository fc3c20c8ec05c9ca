/** The `transaction` command of jim-sqlite3.c over a database with a stack of savepoints. */
module Transactions {

  type Data = map<string, string>

  datatype Code = Ok | Err | Other(code: int)

  datatype TType = Absent | Deferred | Exclusive | Immediate | Bad

  /** What a script may do, as far as transactions are concerned. */
  datatype Script =
    | Write(key: string, value: string)
    | Result(code: Code)
    | Then(first: Script, second: Script)
    | Catch(body: Script)
    | Transaction(ttype: TType, body: Script)

  // ----- What scripts mean -----

  /** The data, and how many times the database has been asked to begin or to commit. */
  datatype World = World(data: Data, asked: nat)

  datatype Outcome = Outcome(world: World, code: Code)

  /** Transactions are all or nothing: one that fails leaves the data as it was at its own start. The outermost
      one also fails if the database refuses to begin or to commit. */
  function Means(s: Script, w: World, nested: bool, refuses: nat -> bool): Outcome {
    match s
    case Write(k, v) => Outcome(w.(data := w.data[k := v]), Ok)
    case Result(c) => Outcome(w, c)
    case Then(a, b) =>
      var o := Means(a, w, nested, refuses);
      if o.code == Ok then Means(b, o.world, nested, refuses) else o
    case Catch(b) => Outcome(Means(b, w, nested, refuses).world, Ok)
    case Transaction(t, b) =>
      if nested then AllOrNothing(w, Means(b, w, true, refuses))
      else if t == Bad then Outcome(w, Err)
      else if refuses(w.asked) then Outcome(w.(asked := w.asked + 1), Err)
      else
        var o := Means(b, w.(asked := w.asked + 1), true, refuses);
        if o.code == Err then AllOrNothing(w, o)
        else if refuses(o.world.asked) then AllOrNothing(w, Outcome(o.world.(asked := o.world.asked + 1), Err))
        else Outcome(o.world.(asked := o.world.asked + 1), o.code)
  }

  function AllOrNothing(before: World, o: Outcome): Outcome {
    if o.code == Err then o.(world := o.world.(data := before.data)) else o
  }

  /** How a script ends, and how many times the database has been asked then: neither depends on the data. */
  function Verdict(s: Script, asked: nat, nested: bool, refuses: nat -> bool): (Code, nat) {
    match s
    case Write(_, _) => (Ok, asked)
    case Result(c) => (c, asked)
    case Then(a, b) =>
      var v := Verdict(a, asked, nested, refuses);
      if v.0 == Ok then Verdict(b, v.1, nested, refuses) else v
    case Catch(b) => (Ok, Verdict(b, asked, nested, refuses).1)
    case Transaction(t, b) =>
      if nested then Verdict(b, asked, true, refuses)
      else if t == Bad then (Err, asked)
      else if refuses(asked) then (Err, asked + 1)
      else
        var v := Verdict(b, asked + 1, true, refuses);
        if v.0 == Err then v else (if refuses(v.1) then Err else v.0, v.1 + 1)
  }

  /** The writes of a script that last: those with no failing transaction around them, later ones over earlier. */
  function Kept(s: Script, asked: nat, nested: bool, refuses: nat -> bool): Data {
    match s
    case Write(k, v) => map[k := v]
    case Result(_) => map[]
    case Then(a, b) =>
      var v := Verdict(a, asked, nested, refuses);
      Kept(a, asked, nested, refuses) + if v.0 == Ok then Kept(b, v.1, nested, refuses) else map[]
    case Catch(b) => Kept(b, asked, nested, refuses)
    case Transaction(_, b) =>
      if Verdict(s, asked, nested, refuses).0 == Err then map[]
      else Kept(b, if nested then asked else asked + 1, true, refuses)
  }

  lemma NothingKept(d: Data)
    ensures d + map[] == d
  {
  }

  lemma KeptJoin(d: Data, a: Data, b: Data)
    ensures (d + a) + b == d + (a + b) && (d + a) + map[] == d + a
  {
  }

  /** Whatever the script and the data, the script changes the data by its lasting writes and nothing else. */
  lemma {:induction false} OnlyKeptWritesLast(s: Script, w: World, nested: bool, refuses: nat -> bool)
    ensures var v := Verdict(s, w.asked, nested, refuses);
            Means(s, w, nested, refuses) == Outcome(World(w.data + Kept(s, w.asked, nested, refuses), v.1), v.0)
  {
    match s
    case Write(_, _) =>
    case Result(_) =>
    case Then(a, b) =>
      OnlyKeptWritesLast(a, w, nested, refuses);
      var v := Verdict(a, w.asked, nested, refuses);
      OnlyKeptWritesLast(b, World(w.data + Kept(a, w.asked, nested, refuses), v.1), nested, refuses);
      KeptJoin(w.data, Kept(a, w.asked, nested, refuses), if v.0 == Ok then Kept(b, v.1, nested, refuses) else map[]);
    case Catch(b) => OnlyKeptWritesLast(b, w, nested, refuses);
    case Transaction(t, b) =>
      OnlyKeptWritesLast(b, if nested then w else w.(asked := w.asked + 1), true, refuses);
      NothingKept(w.data);
  }

  /** In particular, a transaction that fails changes nothing. */
  lemma FailureChangesNothing(t: TType, b: Script, w: World, nested: bool, refuses: nat -> bool)
    ensures var o := Means(Transaction(t, b), w, nested, refuses); o.code == Err ==> o.world.data == w.data
  {
    OnlyKeptWritesLast(Transaction(t, b), w, nested, refuses);
    NothingKept(w.data);
  }

  /** Only the outermost transactions ask the database to begin or to commit. */
  lemma {:induction false} NestedScriptsDoNotAsk(s: Script, w: World, refuses: nat -> bool)
    ensures Means(s, w, true, refuses).world.asked == w.asked
  {
    match s
    case Write(_, _) =>
    case Result(_) =>
    case Then(a, b) =>
      NestedScriptsDoNotAsk(a, w, refuses);
      NestedScriptsDoNotAsk(b, Means(a, w, true, refuses).world, refuses);
    case Catch(b) => NestedScriptsDoNotAsk(b, w, refuses);
    case Transaction(_, b) => NestedScriptsDoNotAsk(b, w, refuses);
  }

  // ----- The database -----

  /** A transaction or savepoint that is open, with the data at its start. */
  datatype Frame = Begun(saved: Data) | Saved(saved: Data)

  datatype Sql = Savepoint | BeginExclusive | BeginImmediate | Release | Commit | RollbackToAndRelease | Rollback

  datatype Db = Db(data: Data, stack: seq<Frame>)

  /** The effect of a statement; None if it is an error. */
  datatype Option<T> = None | Some(value: T)

  function Top(stack: seq<Frame>): Frame
    requires stack != []
  {
    stack[|stack| - 1]
  }

  function Effect(sql: Sql, db: Db): Option<Db> {
    match sql
    case Savepoint => Some(Db(db.data, db.stack + [Saved(db.data)]))
    case BeginExclusive => if db.stack == [] then Some(Db(db.data, [Begun(db.data)])) else None
    case BeginImmediate => if db.stack == [] then Some(Db(db.data, [Begun(db.data)])) else None
    case Release =>
      if db.stack != [] && Top(db.stack).Saved? then Some(Db(db.data, db.stack[..|db.stack| - 1])) else None
    case RollbackToAndRelease =>
      if db.stack != [] && Top(db.stack).Saved? then Some(Db(Top(db.stack).saved, db.stack[..|db.stack| - 1])) else None
    case Commit => if db.stack != [] then Some(Db(db.data, [])) else None
    case Rollback => if db.stack != [] then Some(Db(db.stack[0].saved, [])) else None
  }

  const AZ_END: seq<Sql> := [Release, Commit, RollbackToAndRelease, Rollback]

  class SqliteDb {
    const refuses: nat -> bool
    var db: Db
    var asked: nat
    var nTransaction: int
    var disableAuth: int

    constructor (data: Data, refuses: nat -> bool)
      ensures db == Db(data, []) && asked == 0 && Valid() && disableAuth == 0 && this.refuses == refuses
    {
      this.refuses := refuses;
      db, asked, nTransaction, disableAuth := Db(data, []), 0, 0, 0;
    }

    /** The counter says how deep the stack of open transactions and savepoints is. */
    ghost predicate Valid()
      reads this
    {
      nTransaction == |db.stack| && forall i :: 1 <= i < |db.stack| ==> db.stack[i].Saved?
    }

    ghost function Now(): World
      reads this
    {
      World(db.data, asked)
    }

    /** Runs one statement. Beginning and committing a whole transaction may be refused. */
    method Exec(sql: Sql) returns (ok: bool)
      modifies this`db, this`asked
      ensures var asks := old(db.stack) == [] || sql == Commit;
              && asked == old(asked) + (if asks then 1 else 0)
              && ok == (Effect(sql, old(db)).Some? && !(asks && refuses(old(asked))))
              && db == if ok then Effect(sql, old(db)).value else old(db)
    {
      var e := Effect(sql, db);
      ok := e.Some?;
      if db.stack == [] || sql == Commit {
        ok := ok && !refuses(asked);
        asked := asked + 1;
      }
      if ok {
        db := e.value;
      }
    }

    /** Ends the transaction or savepoint that the command opened. */
    method TransPost(result: Code) returns (rc: Code)
      requires Valid() && nTransaction >= 1 && (nTransaction > 1 ==> Top(db.stack).Saved?)
      modifies this
      ensures Valid() && db.stack == old(db.stack)[..old(nTransaction) - 1] && disableAuth == old(disableAuth)
      ensures old(nTransaction) > 1 ==>
                Now() == World(if result == Err then Top(old(db.stack)).saved else old(db.data), old(asked)) && rc == result
      ensures old(nTransaction) == 1 && result == Err ==>
                Now() == World(old(db.stack)[0].saved, old(asked)) && rc == Err
      ensures old(nTransaction) == 1 && result != Err ==>
                if refuses(old(asked)) then Now() == World(old(db.stack)[0].saved, old(asked) + 1) && rc == Err
                else Now() == World(old(db.data), old(asked) + 1) && rc == result
    {
      rc := result;
      nTransaction := nTransaction - 1;
      var index := (if rc == Err then 2 else 0) + (if nTransaction == 0 then 1 else 0);
      disableAuth := disableAuth + 1;
      var ok := Exec(AZ_END[index]);
      if !ok {
        if rc != Err {
          rc := Err;
        }
        ok := Exec(Rollback);
      }
      disableAuth := disableAuth - 1;
    }

    /** Opens a transaction or a savepoint, unless the type is wrong or the database refuses. */
    method Begin(t: TType) returns (started: bool)
      requires Valid()
      modifies this
      ensures Valid() && disableAuth == old(disableAuth) && db.data == old(db.data)
      ensures started == (old(nTransaction) > 0 || (t != Bad && !refuses(old(asked))))
      ensures asked == old(asked) + if old(nTransaction) > 0 || t == Bad then 0 else 1
      ensures !started ==> db == old(db)
      ensures started ==> |db.stack| == old(nTransaction) + 1 && db.stack[..old(nTransaction)] == old(db.stack)
      ensures started ==> Top(db.stack).saved == db.data && (old(nTransaction) > 0 ==> Top(db.stack).Saved?)
    {
      var begin := Savepoint;
      if nTransaction == 0 && t != Absent {
        match t
        case Deferred =>
        case Exclusive => begin := BeginExclusive;
        case Immediate => begin := BeginImmediate;
        case Bad => return false;
      }
      disableAuth := disableAuth + 1;
      started := Exec(begin);
      disableAuth := disableAuth - 1;
      if started {
        nTransaction := nTransaction + 1;
      }
    }

    /** The `transaction` command. */
    method TransactionCmd(t: TType, body: Script) returns (rc: Code)
      requires Valid()
      modifies this
      ensures Valid() && db.stack == old(db.stack) && disableAuth == old(disableAuth)
      ensures Outcome(Now(), rc) == Means(Transaction(t, body), old(Now()), old(nTransaction) > 0, refuses)
      decreases body, 1
    {
      var started := Begin(t);
      if !started {
        return Err;
      }
      rc := Eval(body);
      rc := TransPost(rc);
    }

    /** Evaluates a script. */
    method Eval(s: Script) returns (rc: Code)
      requires Valid()
      modifies this
      ensures Valid() && db.stack == old(db.stack) && disableAuth == old(disableAuth)
      ensures Outcome(Now(), rc) == Means(s, old(Now()), old(nTransaction) > 0, refuses)
      decreases s, 0
    {
      match s
      case Write(k, v) =>
        db := db.(data := db.data[k := v]);
        rc := Ok;
      case Result(c) => rc := c;
      case Then(a, b) =>
        rc := Eval(a);
        if rc == Ok {
          rc := Eval(b);
        }
      case Catch(b) =>
        rc := Eval(b);
        rc := Ok;
      case Transaction(t, b) => rc := TransactionCmd(t, b);
    }
  }
}
