/** The timer queue of jim-eventloop.c: a list in the order of the times, and one pass over it while the
    handlers change it. */
module Timers {

  class TimeEvent {
    const id: int
    const when: int
    var next: TimeEvent?

    constructor (id: int, when: int)
      ensures this.id == id && this.when == when && next == null
    {
      this.id, this.when, next := id, when, null;
    }
  }

  ghost function At(s: seq<TimeEvent>, i: int): TimeEvent? {
    if 0 <= i < |s| then s[i] else null
  }

  ghost predicate Linked(s: seq<TimeEvent>)
    reads s`next
  {
    forall i {:trigger s[i].next} :: 0 <= i < |s| ==> s[i].next == At(s, i + 1)
  }

  /** Earlier, or at the same time and created earlier. */
  predicate Before(a: TimeEvent, b: TimeEvent) {
    a.when < b.when || (a.when == b.when && a.id < b.id)
  }

  ghost predicate Sorted(s: seq<TimeEvent>) {
    forall i, j :: 0 <= i < j < |s| ==> Before(s[i], s[j])
  }

  ghost predicate DistinctIds(s: seq<TimeEvent>) {
    forall i, j :: 0 <= i < j < |s| ==> s[i].id != s[j].id
  }

  ghost predicate IdsUpTo(s: seq<TimeEvent>, n: int) {
    forall i :: 0 <= i < |s| ==> s[i].id <= n
  }

  /** What holds of the sequence of timers whatever happens. */
  ghost predicate Queue(s: seq<TimeEvent>, n: int) {
    Sorted(s) && DistinctIds(s) && IdsUpTo(s, n)
  }

  // ----- Positions -----

  /** Where a timer for this time goes: before the first that is later. */
  function Place(s: seq<TimeEvent>, when: int): (k: nat)
    ensures k <= |s| && (k < |s| ==> when < s[k].when)
    ensures forall i :: 0 <= i < k ==> s[i].when <= when
  {
    if s == [] || when < s[0].when then 0 else 1 + Place(s[1..], when)
  }

  /** The position of the timer with this id. */
  function IndexOf(s: seq<TimeEvent>, id: int): (k: nat)
    ensures k <= |s| && (k < |s| ==> s[k].id == id)
    ensures forall i :: 0 <= i < k ==> s[i].id != id
  {
    if s == [] || s[0].id == id then 0 else 1 + IndexOf(s[1..], id)
  }

  function Without(s: seq<TimeEvent>, k: nat): seq<TimeEvent>
    requires k <= |s|
  {
    if k < |s| then s[..k] + s[k + 1..] else s
  }

  ghost predicate Removed(s: seq<TimeEvent>, w: seq<TimeEvent>, k: nat)
    requires k < |s|
  {
    |w| == |s| - 1 && forall i {:trigger w[i]} :: 0 <= i < |w| ==> w[i] == if i < k then s[i] else s[i + 1]
  }

  ghost predicate Inserted(s: seq<TimeEvent>, w: seq<TimeEvent>, k: nat, te: TimeEvent)
    requires k <= |s|
  {
    |w| == |s| + 1 && forall i {:trigger w[i]} :: 0 <= i < |w| ==> w[i] == if i < k then s[i] else if i == k then te else s[i - 1]
  }

  lemma RemovedKeepsQueue(s: seq<TimeEvent>, w: seq<TimeEvent>, k: nat, n: int)
    requires k < |s| && Removed(s, w, k) && Queue(s, n)
    ensures Queue(w, n)
  {
  }

  lemma InsertedKeepsQueue(s: seq<TimeEvent>, w: seq<TimeEvent>, te: TimeEvent, n: int)
    requires Queue(s, n) && te.id == n + 1 && Inserted(s, w, Place(s, te.when), te)
    ensures Queue(w, n + 1)
  {
    var k := Place(s, te.when);
    forall i | k <= i < |s| ensures te.when < s[i].when {
      assert te.when < s[k].when;
      if i > k {
        assert Before(s[k], s[i]);
      }
    }
  }

  lemma RemovedMakes(s: seq<TimeEvent>, k: nat) returns (w: seq<TimeEvent>)
    requires k < |s|
    ensures Removed(s, w, k) && w == Without(s, k)
  {
    w := Without(s, k);
  }

  lemma InsertedMakes(s: seq<TimeEvent>, k: nat, te: TimeEvent) returns (w: seq<TimeEvent>)
    requires k <= |s|
    ensures Inserted(s, w, k, te) && w == s[..k] + [te] + s[k..]
  {
    w := s[..k] + [te] + s[k..];
  }

  lemma IsApart(s: seq<TimeEvent>, n: int)
    requires Queue(s, n)
    ensures forall i, j :: 0 <= i < j < |s| ==> s[i] != s[j]
  {
  }

  lemma DropOne(s: seq<TimeEvent>, k: nat, rest: seq<TimeEvent>)
    requires 0 < k <= |s| && rest == s[k - 1..]
    ensures rest != [] && rest[0] == s[k - 1] && rest[1..] == s[k..]
  {
  }

  // ----- The timers a pass may run -----

  /** The ids of the timers that were there when ids went up to `maxId`. */
  ghost function OldIds(s: seq<TimeEvent>, maxId: int): set<int> {
    set i | 0 <= i < |s| && s[i].id <= maxId :: s[i].id
  }

  /** Whatever is there afterwards and not new was there before. */
  ghost predicate Survives(before: seq<TimeEvent>, after: seq<TimeEvent>, maxId: int) {
    forall i :: 0 <= i < |after| ==> after[i].id > maxId || after[i] in before
  }

  lemma SurvivesTrans(a: seq<TimeEvent>, b: seq<TimeEvent>, c: seq<TimeEvent>, maxId: int)
    requires Survives(a, b, maxId) && Survives(b, c, maxId)
    ensures Survives(a, c, maxId)
  {
  }

  lemma SurvivorsHaveOldIds(before: seq<TimeEvent>, after: seq<TimeEvent>, maxId: int)
    requires Survives(before, after, maxId)
    ensures OldIds(after, maxId) <= OldIds(before, maxId)
  {
    forall i | 0 <= i < |after| && after[i].id <= maxId ensures after[i].id in OldIds(before, maxId) {
      var j :| 0 <= j < |before| && before[j] == after[i];
    }
  }

  /** Taking a timer out leaves the others. */
  lemma RemovedSurvives(s: seq<TimeEvent>, k: nat, maxId: int)
    requires k < |s| && DistinctIds(s) && s[k].id <= maxId
    ensures Survives(s, Without(s, k), maxId)
    ensures OldIds(Without(s, k), maxId) < OldIds(s, maxId) && s[k].id !in OldIds(Without(s, k), maxId)
  {
    var w := Without(s, k);
    SurvivorsHaveOldIds(s, w, maxId);
    assert s[k].id in OldIds(s, maxId);
    forall i | 0 <= i < |w| ensures w[i].id != s[k].id {
      assert w[i] == if i < k then s[i] else s[i + 1];
    }
  }

  lemma InsertedSurvives(s: seq<TimeEvent>, k: nat, te: TimeEvent, maxId: int)
    requires k <= |s| && te.id > maxId
    ensures Survives(s, s[..k] + [te] + s[k..], maxId)
  {
  }

  lemma WithoutSurvives(s: seq<TimeEvent>, k: nat, maxId: int)
    requires k <= |s|
    ensures Survives(s, Without(s, k), maxId)
  {
  }

  /** The timer that fires while the clock stands still comes before all that are left. */
  lemma StaysInOrder(s: seq<TimeEvent>, after: seq<TimeEvent>, k: nat, time: int, maxId: int, fired: seq<TimeEvent>)
    requires Sorted(s) && k < |s| && s[k].id <= maxId && s[k].when <= time
    requires forall j :: 0 <= j < k && s[j].id <= maxId ==> s[j].when > time
    requires Survives(s, after, maxId) && s[k].id !in OldIds(after, maxId)
    requires Sorted(fired) && forall i, j :: 0 <= i < |fired| && 0 <= j < |s| && s[j].id <= maxId ==> Before(fired[i], s[j])
    ensures Sorted(fired + [s[k]])
    ensures forall i, j :: 0 <= i < |fired + [s[k]]| && 0 <= j < |after| && after[j].id <= maxId ==> Before((fired + [s[k]])[i], after[j])
  {
    forall j | 0 <= j < |after| && after[j].id <= maxId
      ensures Before(s[k], after[j]) && forall i :: 0 <= i < |fired| ==> Before(fired[i], after[j])
    {
      var m :| 0 <= m < |s| && s[m] == after[j];
      assert after[j].id in OldIds(after, maxId);
    }
  }

  /** How the clock may behave while a pass runs. */
  datatype Clock = Free | Steady | Frozen

  class EventLoop {
    const mode: Clock
    var clock: int
    var timeEventHead: TimeEvent?
    var timeEventNextId: int
    ghost var timers: seq<TimeEvent>

    ghost predicate Valid()
      reads this`timeEventHead, this`timeEventNextId, this`timers, timers`next
    {
      timeEventHead == At(timers, 0) && Linked(timers) && Queue(timers, timeEventNextId)
    }

    constructor (mode: Clock, clock: int)
      ensures Valid() && timers == [] && this.mode == mode && this.clock == clock && timeEventNextId == 0
    {
      this.mode, this.clock := mode, clock;
      timeEventHead, timeEventNextId, timers := null, 0, [];
    }

    /** What the clock is allowed to have done. */
    ghost predicate ClockOk(start: int)
      reads this`clock
    {
      (mode.Steady? ==> clock >= start) && (mode.Frozen? ==> clock == start)
    }

    method GetTime() returns (t: int)
      modifies this`clock
      ensures t == clock && ClockOk(old(clock))
    {
      t := *;
      if mode.Frozen? || (mode.Steady? && t < clock) {
        t := clock;
      }
      clock := t;
    }

    /** A new timer, with the next id. Timers for the same time keep the order of their creation. */
    method CreateTimeHandler(milliseconds: int) returns (id: int, ghost made: TimeEvent)
      requires Valid()
      modifies this`clock, this`timeEventHead, this`timeEventNextId, this`timers, timers`next
      ensures Valid() && id == timeEventNextId == old(timeEventNextId) + 1 && ClockOk(old(clock))
      ensures fresh(made) && made.id == id && made.when == clock + milliseconds
      ensures var k := Place(old(timers), made.when); timers == old(timers)[..k] + [made] + old(timers)[k..]
    {
      timeEventNextId := timeEventNextId + 1;
      id := timeEventNextId;
      var now := GetTime();
      var te := new TimeEvent(id, now + milliseconds);
      Insert(te);
      made := te;
    }

    method Insert(te: TimeEvent)
      requires timeEventHead == At(timers, 0) && Linked(timers) && Queue(timers, timeEventNextId - 1)
      requires te.id == timeEventNextId && te !in timers
      modifies this`timeEventHead, this`timers, timers`next, te`next
      ensures Valid()
      ensures var k := Place(old(timers), te.when); timers == old(timers)[..k] + [te] + old(timers)[k..]
    {
      ghost var s := timers;
      var prev: TimeEvent? := null;
      var e := timeEventHead;
      ghost var k, rest := 0, s;
      while e != null && !(te.when < e.when)
        invariant k <= |s| && e == At(s, k) && prev == At(s, k - 1) && rest == s[k..]
        invariant Place(s, te.when) == k + Place(rest, te.when)
        decreases |s| - k
        modifies {}
      {
        prev := e;
        e := e.next;
        k := k + 1;
        DropOne(s, k, rest);
        rest := s[k..];
      }
      LinkIn(te, prev, k);
    }

    method LinkIn(te: TimeEvent, prev: TimeEvent?, ghost k: nat)
      requires timeEventHead == At(timers, 0) && Linked(timers) && Queue(timers, timeEventNextId - 1)
      requires te.id == timeEventNextId && te !in timers && k == Place(timers, te.when) && prev == At(timers, k - 1)
      modifies this`timeEventHead, this`timers, timers`next, te`next
      ensures Valid() && timers == old(timers)[..k] + [te] + old(timers)[k..]
    {
      ghost var s := timers;
      ghost var w := InsertedMakes(s, k, te);
      IsApart(s, timeEventNextId - 1);
      if prev != null {
        te.next := prev.next;
        prev.next := te;
      } else {
        te.next := timeEventHead;
        timeEventHead := te;
      }
      timers := w;
      InsertedKeepsQueue(s, w, te, timeEventNextId - 1);
    }

    /** Takes the timer with this id out of the list. */
    method RemoveTimeHandler(id: int) returns (te: TimeEvent?)
      requires Valid()
      modifies this`timeEventHead, this`timers, timers`next
      ensures Valid() && te == At(old(timers), IndexOf(old(timers), id))
      ensures timers == Without(old(timers), IndexOf(old(timers), id))
    {
      ghost var s := timers;
      var prev: TimeEvent? := null;
      te := timeEventHead;
      ghost var k, rest := 0, s;
      while te != null && te.id != id
        invariant k <= |s| && te == At(s, k) && prev == At(s, k - 1) && rest == s[k..]
        invariant IndexOf(s, id) == k + IndexOf(rest, id)
        decreases |s| - k
        modifies {}
      {
        prev := te;
        te := te.next;
        k := k + 1;
        DropOne(s, k, rest);
        rest := s[k..];
      }
      if te != null {
        LinkOut(te, prev, k);
      }
    }

    method LinkOut(te: TimeEvent, prev: TimeEvent?, ghost k: nat)
      requires Valid() && k < |timers| && te == timers[k] && prev == At(timers, k - 1)
      modifies this`timeEventHead, this`timers, timers`next
      ensures Valid() && timers == Without(old(timers), k)
    {
      ghost var s := timers;
      ghost var w := RemovedMakes(s, k);
      IsApart(s, timeEventNextId);
      if prev == null {
        timeEventHead := te.next;
      } else {
        prev.next := te.next;
      }
      timers := w;
      RemovedKeepsQueue(s, w, k, timeEventNextId);
    }

    /** Deletes a timer: the time that was left, -1 if there is none with this id, -2 if there never was. */
    method DeleteTimeHandler(id: int) returns (remain: int)
      requires Valid()
      modifies this`clock, this`timeEventHead, this`timers, timers`next
      ensures Valid() && ClockOk(old(clock))
      ensures timers == (if id > timeEventNextId then old(timers) else Without(old(timers), IndexOf(old(timers), id)))
      ensures id > timeEventNextId ==> remain == -2
      ensures id <= timeEventNextId ==>
                var te := At(old(timers), IndexOf(old(timers), id));
                remain == if te == null then -1 else if te.when < clock then 0 else te.when - clock
    {
      if id > timeEventNextId {
        return -2;
      }
      var te := RemoveTimeHandler(id);
      if te != null {
        var now := GetTime();
        remain := te.when - now;
        remain := if remain < 0 then 0 else remain;
      } else {
        remain := -1;
      }
    }
  
    // ----- A pass -----

    /** How long the loop may sleep: until the nearest timer, or for ever (-1) if there is none. */
    method SleepTime() returns (ms: int)
      requires Valid()
      modifies this`clock
      ensures timers == [] ==> ms == -1
      ensures timers != [] ==> exists i :: 0 <= i < |timers| && ms == (if timers[i].when < clock then 0 else timers[i].when - clock)
      ensures forall i :: 0 <= i < |timers| ==> ms <= (if timers[i].when < clock then 0 else timers[i].when - clock)
    {
      ms := -1;
      if timeEventHead != null {
        var now := GetTime();
        ms := timeEventHead.when - now;
        if ms < 0 {
          ms := 0;
        }
        assert forall i :: 0 < i < |timers| ==> Before(timers[0], timers[i]);
      }
    }

    /** Any handler: it may create and delete timers as it likes. */
    method RunHandler(ghost maxId: int)
      requires Valid() && maxId <= timeEventNextId
      modifies this`clock, this`timeEventHead, this`timeEventNextId, this`timers, timers`next
      ensures Valid() && timeEventNextId >= old(timeEventNextId) && ClockOk(old(clock))
      ensures Survives(old(timers), timers, maxId)
      ensures forall i :: 0 <= i < |timers| ==> timers[i] in old(timers) || fresh(timers[i])
    {
      var n: nat := *;
      while n > 0
        invariant Valid() && timeEventNextId >= old(timeEventNextId) && ClockOk(old(clock))
        invariant Survives(old(timers), timers, maxId)
        invariant forall i :: 0 <= i < |timers| ==> timers[i] in old(timers) || fresh(timers[i])
      {
        ghost var before := timers;
        HandlerStep(maxId);
        SurvivesTrans(old(timers), before, timers, maxId);
        n := n - 1;
      }
    }

    method HandlerStep(ghost maxId: int)
      requires Valid() && maxId <= timeEventNextId
      modifies this`clock, this`timeEventHead, this`timeEventNextId, this`timers, timers`next
      ensures Valid() && timeEventNextId >= old(timeEventNextId) && ClockOk(old(clock))
      ensures Survives(old(timers), timers, maxId)
      ensures forall i :: 0 <= i < |timers| ==> timers[i] in old(timers) || fresh(timers[i])
    {
      var create, number := *, *;
      if create {
        var id, made := CreateTimeHandler(number);
        InsertedSurvives(old(timers), Place(old(timers), made.when), made, maxId);
      } else {
        var remain := DeleteTimeHandler(number);
        WithoutSurvives(old(timers), IndexOf(old(timers), number), maxId);
      }
    }

    /** Fires one timer: it leaves the list before its handler runs. */
    method Fire(te: TimeEvent, ghost k: nat, ghost maxId: int)
      requires Valid() && maxId <= timeEventNextId && k < |timers| && te == timers[k] && te.id <= maxId
      modifies this`clock, this`timeEventHead, this`timeEventNextId, this`timers, timers`next
      ensures Valid() && timeEventNextId >= old(timeEventNextId) && ClockOk(old(clock))
      ensures Survives(old(timers), timers, maxId)
      ensures OldIds(timers, maxId) < OldIds(old(timers), maxId) && te.id !in OldIds(timers, maxId)
      ensures forall i :: 0 <= i < |timers| ==> timers[i] in old(timers) || fresh(timers[i])
    {
      ghost var s := timers;
      RemovedSurvives(s, k, maxId);
      var gone := RemoveTimeHandler(te.id);
      ghost var w := timers;
      WithoutSurvives(s, k, maxId);
      RunHandler(maxId);
      SurvivesTrans(s, w, timers, maxId);
      SurvivorsHaveOldIds(w, timers, maxId);
    }
  
    /** What is known of the timers fired so far in a pass over the timers of `was`. */
    ghost predicate Fired(fired: seq<TimeEvent>, times: seq<int>, was: seq<TimeEvent>, maxId: int)
      reads this`timers
    {
      && |fired| == |times| && DistinctIds(fired)
      && (forall i :: 0 <= i < |fired| ==> fired[i] in was && fired[i].id <= maxId && fired[i].when <= times[i])
      && (forall i :: 0 <= i < |fired| ==> fired[i].id !in OldIds(timers, maxId))
    }

    /** While the clock stands still the timers fire in order. */
    ghost predicate InOrder(fired: seq<TimeEvent>, maxId: int)
      reads this`timers
    {
      && Sorted(fired)
      && forall i, j :: 0 <= i < |fired| && 0 <= j < |timers| && timers[j].id <= maxId ==> Before(fired[i], timers[j])
    }

    /** The timers before position `k` that the pass may run are all later than this. */
    ghost predicate LaterUpTo(k: nat, time: int, maxId: int)
      reads this`timers
    {
      k <= |timers| && forall j :: 0 <= j < k && timers[j].id <= maxId ==> timers[j].when > time
    }

    /** Fires a timer that is due, and notes it. */
    method FireDue(te: TimeEvent, ghost now: int, ghost k: nat, ghost maxId: int, ghost was: seq<TimeEvent>,
                   ghost start: int, ghost fired: seq<TimeEvent>, ghost times: seq<int>)
      requires Valid() && maxId <= timeEventNextId && k < |timers| && te == timers[k] && te.id <= maxId
      requires te.when <= now && Fired(fired, times, was, maxId) && Survives(was, timers, maxId)
      requires mode.Frozen? ==> InOrder(fired, maxId) && LaterUpTo(k, start, maxId) && now == start
      modifies this`clock, this`timeEventHead, this`timeEventNextId, this`timers, timers`next
      ensures Valid() && timeEventNextId >= old(timeEventNextId) && ClockOk(old(clock))
      ensures Survives(was, timers, maxId) && Fired(fired + [te], times + [now], was, maxId)
      ensures OldIds(timers, maxId) < OldIds(old(timers), maxId)
      ensures forall i :: 0 <= i < |timers| ==> timers[i] in old(timers) || fresh(timers[i])
      ensures mode.Frozen? ==> InOrder(fired + [te], maxId)
    {
      ghost var s := timers;
      assert te.id in OldIds(s, maxId);
      Fire(te, k, maxId);
      SurvivesTrans(was, s, timers, maxId);
      if mode.Frozen? {
        StaysInOrder(s, timers, k, start, maxId, fired);
      }
    }

    /** One pass: fires the timers that are due, but none that is created meanwhile, each at most once. */
    method ProcessTimers() returns (processed: nat, ghost fired: seq<TimeEvent>, ghost times: seq<int>)
      requires Valid()
      modifies this`clock, this`timeEventHead, this`timeEventNextId, this`timers, timers`next
      ensures Valid() && processed == |fired|
      ensures Fired(fired, times, old(timers), old(timeEventNextId))
      ensures Survives(old(timers), timers, old(timeEventNextId))
      ensures !mode.Free? ==> forall t :: t in old(timers) && t.when <= old(clock) ==> t !in timers
      ensures mode.Frozen? ==> Sorted(fired)
    {
      processed, fired, times := 0, [], [];
      var te, maxId := timeEventHead, timeEventNextId;
      ghost var k, was, start := 0, timers, clock;
      while te != null
        invariant Valid() && maxId <= timeEventNextId && te == At(timers, k) && processed == |fired|
        invariant Survives(was, timers, maxId) && Fired(fired, times, was, maxId) && ClockOk(start)
        invariant forall i :: 0 <= i < |timers| ==> timers[i] in was || fresh(timers[i])
        invariant k <= |timers| && (!mode.Free? ==> LaterUpTo(k, start, maxId))
        invariant mode.Frozen? ==> InOrder(fired, maxId)
        decreases OldIds(timers, maxId), |timers| - k
      {
        if te.id > maxId {
          te := te.next;
          k := k + 1;
        } else {
          var now := GetTime();
          if now >= te.when {
            FireDue(te, now, k, maxId, was, start, fired, times);
            fired, times := fired + [te], times + [now];
            te := timeEventHead;
            k := 0;
            processed := processed + 1;
          } else {
            te := te.next;
            k := k + 1;
          }
        }
      }
    }
  }
}
