/** Deadlines on top of the record map
    (include/Database/Decorators/TTLDatabaseDecorator.h): the value-level
    specification, and what a reader with a clock can and cannot see.

    Times are nanoseconds of the steady clock; each `now` is one reading of it.
 */
module Expiry {
  import opened Bytes
  import opened Lfu
  import opened Values
  import opened Keyspace

  datatype Store = Store(db: Db, ttl: map<Key, int>)

  const EMPTY_STORE: Store := Store(EMPTY_DB, map[])

  const SECOND: int := 1_000_000_000

  /** As in Keyspace, what the environment decides is part of the call.  `Change` is a
      lookup whose caller then changes the record through the pointer it got.  `sweep` lists
      the expired keys in the order the sweep deletes them, each with what
      `freqList.begin()` named at that moment. */
  datatype TimedCall =
    | InsertPlain(key: Key, value: Value, size: nat, begins: seq<nat>)
    | InsertFor(key: Key, value: Value, seconds: nat, size: nat, begins: seq<nat>, now: int)
    | UpdatePlain(key: Key, value: Value, size: nat, begins: seq<nat>)
    | UpdateFor(key: Key, value: Value, seconds: nat, size: nat, begins: seq<nat>, now: int)
    | SetTtl(key: Key, ttlSeconds: int, now: int)
    | RemoveTtl(key: Key)
    | LookUp(key: Key, now: int, begin: nat)
    | Change(key: Key, value: Value, now: int, begin: nat)
    | Remove(key: Key, begin: nat)
    | Sweep(now: int, sweep: seq<(Key, nat)>)

  datatype Result = Result(store: Store, events: seq<DbEvent>, outcome: Outcome)

  function Lift(e: Effect, ttl: map<Key, int>): Result {
    Result(Store(e.db, ttl), e.events, e.outcome)
  }

  /** After a write succeeded: look the record up again and set its deadline. */
  function ThenSetDeadline(e: Effect, ttl: map<Key, int>, k: Key, deadline: int): Result {
    if e.outcome != Ok then Lift(e, ttl)
    else
      var g := Apply(e.db, Get(k));
      if g.outcome == NotFound then Result(Store(g.db, ttl), e.events, NotFound)
      else Result(Store(g.db, ttl[k := deadline]), e.events + g.events, Ok)
  }

  predicate Expired(s: Store, k: Key, now: int) {
    k in s.ttl && now > s.ttl[k]
  }

  function ExpiredKeys(s: Store, now: int): set<Key> {
    set k | k in s.ttl && now > s.ttl[k]
  }

  /** Delete the keys of a sweep from the database, ignoring those already gone. */
  function DeleteAll(d: Db, sweep: seq<(Key, nat)>): Effect {
    if sweep == [] then Effect(d, [], Ok)
    else
      var before := DeleteAll(d, sweep[..|sweep| - 1]);
      var e := Apply(before.db, Delete(sweep[|sweep| - 1].0, sweep[|sweep| - 1].1));
      Effect(e.db, before.events + e.events, Ok)
  }

  /** Lazy expiry: the record goes, and its deadline with it unless it was gone already. */
  function DropExpired(s: Store, k: Key, begin: nat): Result {
    var e := Apply(s.db, Delete(k, begin));
    Result(Store(e.db, if e.outcome == Ok then s.ttl - {k} else s.ttl), e.events, NotFound)
  }

  function ApplyTimed(s: Store, c: TimedCall): Result {
    match c
    case InsertPlain(k, v, size, begins) => Lift(Apply(s.db, Insert(k, v, size, begins)), s.ttl)
    case InsertFor(k, v, seconds, size, begins, now) =>
      var e := Apply(s.db, Insert(k, v, size, begins));
      if seconds > 0 then ThenSetDeadline(e, s.ttl, k, now + seconds * SECOND) else Lift(e, s.ttl)
    case UpdatePlain(k, v, size, begins) => Lift(Apply(s.db, Update(k, v, size, begins)), s.ttl)
    case UpdateFor(k, v, seconds, size, begins, now) =>
      var e := Apply(s.db, Update(k, v, size, begins));
      if seconds > 0 then ThenSetDeadline(e, s.ttl, k, now + seconds * SECOND) else Lift(e, s.ttl - {k})
    case SetTtl(k, seconds, now) =>
      var g := Apply(s.db, Get(k));
      if g.outcome == NotFound then Lift(g, s.ttl)
      else Result(Store(g.db, s.ttl[k := now + seconds * SECOND]), g.events, Ok)
    case RemoveTtl(k) =>
      var g := Apply(s.db, Get(k));
      if g.outcome == NotFound then Lift(g, s.ttl) else Result(Store(g.db, s.ttl - {k}), g.events, Ok)
    case LookUp(k, now, begin) =>
      if Expired(s, k, now) then DropExpired(s, k, begin) else Lift(Apply(s.db, Get(k)), s.ttl)
    case Change(k, v, now, begin) =>
      if Expired(s, k, now) then DropExpired(s, k, begin) else Lift(Apply(s.db, Mutate(k, v)), s.ttl)
    case Remove(k, begin) =>
      var e := Apply(s.db, Delete(k, begin));
      Lift(e, if e.outcome == Ok then s.ttl - {k} else s.ttl)
    case Sweep(now, sweep) => Lift(DeleteAll(s.db, sweep), s.ttl - ExpiredKeys(s, now))
  }

  ghost predicate PossibleSweep(d: Db, sweep: seq<(Key, nat)>) {
    sweep == [] ||
    (PossibleSweep(d, sweep[..|sweep| - 1])
     && Possible(DeleteAll(d, sweep[..|sweep| - 1]).db, Delete(sweep[|sweep| - 1].0, sweep[|sweep| - 1].1)))
  }

  ghost predicate PossibleTimed(s: Store, c: TimedCall) {
    match c
    case InsertPlain(k, v, size, begins) => Possible(s.db, Insert(k, v, size, begins))
    case InsertFor(k, v, _, size, begins, _) => Possible(s.db, Insert(k, v, size, begins))
    case UpdatePlain(k, v, size, begins) => Possible(s.db, Update(k, v, size, begins))
    case UpdateFor(k, v, _, size, begins, _) => Possible(s.db, Update(k, v, size, begins))
    case LookUp(k, now, begin) => Expired(s, k, now) ==> Possible(s.db, Delete(k, begin))
    case Change(k, _, now, begin) => Expired(s, k, now) ==> Possible(s.db, Delete(k, begin))
    case Remove(k, begin) => Possible(s.db, Delete(k, begin))
    case Sweep(now, sweep) => Sweeps(s, now, sweep) && PossibleSweep(s.db, sweep)
    case _ => true
  }

  /** The sweep deletes the expired keys, in any order. */
  ghost predicate Sweeps(s: Store, now: int, sweep: seq<(Key, nat)>) {
    && (forall i :: 0 <= i < |sweep| ==> sweep[i].0 in ExpiredKeys(s, now))
    && (forall k :: k in ExpiredKeys(s, now) ==> exists i :: 0 <= i < |sweep| && sweep[i].0 == k)
  }

  // -------------------------------------------------------------- the view

  /** What is there at time `t`: the records without a deadline or not past it. */
  ghost function View(s: Store, t: int): map<Key, Value> {
    map k | k in s.db.records && (k in s.ttl ==> s.ttl[k] >= t) :: s.db.records[k]
  }

  lemma {:induction false} DeleteAllRemoves(d: Db, sweep: seq<(Key, nat)>)
    ensures DeleteAll(d, sweep).db.records == d.records - (set p | p in sweep :: p.0)
  {
    if sweep != [] {
      var rest, p := sweep[..|sweep| - 1], sweep[|sweep| - 1];
      DeleteAllRemoves(d, rest);
      assert (set q | q in sweep :: q.0) == (set q | q in rest :: q.0) + {p.0} by {
        assert forall q :: q in sweep <==> q in rest || q == p;
      }
    }
  }

  /** Active expiry is invisible: a sweep at time `now` changes no view from then on. */
  lemma SweepInvisible(s: Store, now: int, sweep: seq<(Key, nat)>, t: int)
    requires Sweeps(s, now, sweep) && t >= now
    ensures View(ApplyTimed(s, Sweep(now, sweep)).store, t) == View(s, t)
  {
    hide Apply;
    DeleteAllRemoves(s.db, sweep);
    var gone := set p | p in sweep :: p.0;
    assert gone == ExpiredKeys(s, now) by {
      forall k | k in ExpiredKeys(s, now) ensures k in gone {
        var i :| 0 <= i < |sweep| && sweep[i].0 == k;
        assert sweep[i] in sweep;
      }
    }
  }

  /** Lazy expiry is invisible too: a lookup at time `now`, whatever it finds, changes
      no view from then on; and it finds exactly what is in the view. */
  lemma GetInvisible(s: Store, k: Key, now: int, begin: nat, t: int)
    requires t >= now
    ensures View(ApplyTimed(s, LookUp(k, now, begin)).store, t) == View(s, t)
    ensures match ApplyTimed(s, LookUp(k, now, begin)).outcome
            case Found(v) => k in View(s, now) && View(s, now)[k] == v
            case _ => k !in View(s, now)
  {
    hide Touch, RemoveKey;
  }

  /** The key is out of every view from time `n` on. */
  ghost predicate Hidden(s: Store, k: Key, n: int) {
    k !in s.db.records || (k in s.ttl && s.ttl[k] < n)
  }

  lemma HiddenMeansInvisible(s: Store, k: Key, n: int)
    ensures Hidden(s, k, n) <==> forall t :: t >= n ==> k !in View(s, t)
  {
    if !Hidden(s, k, n) { assert k in View(s, n); }
  }

  /** The calls that can bring a key back into view. */
  predicate Revives(c: TimedCall, k: Key) {
    match c
    case InsertPlain(j, _, _, _) => j == k
    case InsertFor(j, _, _, _, _, _) => j == k
    case UpdatePlain(j, _, _, _) => j == k
    case UpdateFor(j, _, _, _, _, _) => j == k
    case SetTtl(j, _, _) => j == k
    case RemoveTtl(j) => j == k
    case _ => false
  }

  lemma HiddenKept(s: Store, c: TimedCall, k: Key, n: int)
    requires Hidden(s, k, n) && !Revives(c, k) && PossibleTimed(s, c)
    ensures Hidden(ApplyTimed(s, c).store, k, n)
  {
    hide InsertKey, EvictAll, Victims, Touch, RemoveKey, CanEvict, PicksOccupied, PossibleSweep;
    match c {
      case Sweep(now, sweep) =>
        DeleteAllRemoves(s.db, sweep);
        if k in ExpiredKeys(s, now) {
          var i :| 0 <= i < |sweep| && sweep[i].0 == k;
          assert sweep[i] in sweep;
        }
      case _ =>
    }
  }

  // ------------------------------------------------------------------ runs

  function RunTimed(s: Store, calls: seq<TimedCall>): Store {
    if calls == [] then s else ApplyTimed(RunTimed(s, calls[..|calls| - 1]), calls[|calls| - 1]).store
  }

  ghost predicate PossibleTimedRun(s: Store, calls: seq<TimedCall>) {
    calls == [] ||
    (PossibleTimedRun(s, calls[..|calls| - 1]) && PossibleTimed(RunTimed(s, calls[..|calls| - 1]), calls[|calls| - 1]))
  }

  /** The log of a run from the empty store. */
  function TimedLog(calls: seq<TimedCall>): seq<DbEvent> {
    if calls == [] then []
    else
      var rest := calls[..|calls| - 1];
      TimedLog(rest) + ApplyTimed(RunTimed(EMPTY_STORE, rest), calls[|calls| - 1]).events
  }

  /** In every state reachable by any run of timed calls, sweeps included, records,
      indexes and log agree. */
  lemma {:induction false} EveryTimedRunConsistent(calls: seq<TimedCall>)
    requires PossibleTimedRun(EMPTY_STORE, calls)
    ensures Consistent(RunTimed(EMPTY_STORE, calls).db, TimedLog(calls))
  {
    hide Consistent, ApplyTimed, PossibleTimed;
    if calls == [] {
      EmptyConsistent();
    } else {
      var rest := calls[..|calls| - 1];
      EveryTimedRunConsistent(rest);
      TimedConsistent(RunTimed(EMPTY_STORE, rest), TimedLog(rest), calls[|calls| - 1]);
    }
  }

  lemma EmptyConsistent()
    ensures Consistent(EMPTY_DB, [])
  {
  }

  /** A lookup in any reachable state finds a record exactly when it is stored and its
      deadline has not passed, and then returns the value last written to it. */
  lemma TimedLookUpReturnsLastWritten(calls: seq<TimedCall>, k: Key, now: int, begin: nat)
    requires PossibleTimedRun(EMPTY_STORE, calls)
    ensures var s, log := RunTimed(EMPTY_STORE, calls), TimedLog(calls);
            var o := ApplyTimed(s, LookUp(k, now, begin)).outcome;
            && (o.Found? <==> Freq(IndexEvents(log), k) > 0 && !Expired(s, k, now))
            && (o.Found? ==> k in Plain(log) && o.value == Plain(log)[k])
            && (!o.Found? ==> o == NotFound)
  {
    hide RunTimed, TimedLog, Plain, Freq, Touch, RemoveKey, IndexEvents, WellIndexed;
    EveryTimedRunConsistent(calls);
  }

  /** An expired key stays out of view through any lookups, deletions and sweeps, and
      any operations on other keys, until it is written or its deadline changed. */
  lemma {:induction false} ExpiredStaysHidden(s: Store, calls: seq<TimedCall>, k: Key, n: int, t: int)
    requires PossibleTimedRun(s, calls) && Hidden(s, k, n) && t >= n
    requires forall c :: c in calls ==> !Revives(c, k)
    ensures Hidden(RunTimed(s, calls), k, n) && k !in View(RunTimed(s, calls), t)
  {
    if calls != [] {
      var rest := calls[..|calls| - 1];
      ExpiredStaysHidden(s, rest, k, n, t);
      assert calls[|calls| - 1] in calls;
      HiddenKept(RunTimed(s, rest), calls[|calls| - 1], k, n);
    }
    HiddenMeansInvisible(RunTimed(s, calls), k, n);
  }

  lemma {:induction false} DeleteAllConsistent(d: Db, log: seq<DbEvent>, sweep: seq<(Key, nat)>)
    requires Consistent(d, log) && PossibleSweep(d, sweep)
    ensures Consistent(DeleteAll(d, sweep).db, log + DeleteAll(d, sweep).events)
  {
    hide Consistent, Apply, Possible;
    if sweep == [] {
      assert log + [] == log;
    } else {
      var rest, p := sweep[..|sweep| - 1], sweep[|sweep| - 1];
      DeleteAllConsistent(d, log, rest);
      var before := DeleteAll(d, rest);
      ApplyConsistent(before.db, log + before.events, Delete(p.0, p.1));
      var e := Apply(before.db, Delete(p.0, p.1));
      assert log + before.events + e.events == log + (before.events + e.events);
    }
  }

  lemma DeadlineConsistent(log: seq<DbEvent>, e: Effect, ttl: map<Key, int>, k: Key, deadline: int)
    requires Consistent(e.db, log + e.events)
    ensures var r := ThenSetDeadline(e, ttl, k, deadline); Consistent(r.store.db, log + r.events)
  {
    hide Consistent;
    ApplyConsistent(e.db, log + e.events, Get(k));
    var g := Apply(e.db, Get(k));
    assert log + e.events + g.events == log + (e.events + g.events);
    assert g.outcome == NotFound ==> g.db == e.db;
  }

  /** Every timed operation keeps the record map, the LFU index and the log in
      agreement. */
  lemma TimedConsistent(s: Store, log: seq<DbEvent>, c: TimedCall)
    requires Consistent(s.db, log) && PossibleTimed(s, c)
    ensures Consistent(ApplyTimed(s, c).store.db, log + ApplyTimed(s, c).events)
  {
    hide Consistent, Apply, PossibleSweep;
    match c {
      case InsertPlain(k, v, size, begins) => ApplyConsistent(s.db, log, Insert(k, v, size, begins));
      case InsertFor(k, v, seconds, size, begins, now) =>
        ApplyConsistent(s.db, log, Insert(k, v, size, begins));
        DeadlineConsistent(log, Apply(s.db, Insert(k, v, size, begins)), s.ttl, k, now + seconds * SECOND);
      case UpdatePlain(k, v, size, begins) => ApplyConsistent(s.db, log, Update(k, v, size, begins));
      case UpdateFor(k, v, seconds, size, begins, now) =>
        ApplyConsistent(s.db, log, Update(k, v, size, begins));
        DeadlineConsistent(log, Apply(s.db, Update(k, v, size, begins)), s.ttl, k, now + seconds * SECOND);
      case SetTtl(k, _, _) => ApplyConsistent(s.db, log, Get(k));
      case RemoveTtl(k) => ApplyConsistent(s.db, log, Get(k));
      case LookUp(k, now, begin) =>
        if Expired(s, k, now) { ApplyConsistent(s.db, log, Delete(k, begin)); }
        else { ApplyConsistent(s.db, log, Get(k)); }
      case Change(k, v, now, begin) =>
        if Expired(s, k, now) { ApplyConsistent(s.db, log, Delete(k, begin)); }
        else { ApplyConsistent(s.db, log, Mutate(k, v)); }
      case Remove(k, begin) => ApplyConsistent(s.db, log, Delete(k, begin));
      case Sweep(now, sweep) => DeleteAllConsistent(s.db, log, sweep);
    }
  }

  // -------------------------------------------------- deadlines left behind

  /** Writes that leave the deadline map alone: the plain ones, and an insertion with a
      TTL of 0. */
  predicate LeavesDeadlines(c: TimedCall) {
    c.InsertPlain? || c.UpdatePlain? || (c.InsertFor? && c.seconds == 0)
  }

  /** Such a write stores its value, and the key is in view at `t` exactly when no
      deadline was left in the map or that deadline allows `t`. */
  lemma PlainWriteVisibility(s: Store, c: TimedCall, t: int)
    requires LeavesDeadlines(c)
    requires ApplyTimed(s, c).outcome == Ok && c.key in ApplyTimed(s, c).store.db.records
    ensures ApplyTimed(s, c).store.db.records[c.key] == c.value
    ensures c.key in View(ApplyTimed(s, c).store, t) <==> (c.key in s.ttl ==> s.ttl[c.key] >= t)
  {
    hide InsertKey, EvictAll, Victims, Touch;
  }

  /** "No expiration", which both insertions promise for a TTL that is absent or 0, holds
      exactly when the deadline map has no entry for the key. */
  lemma NoTtlMeansForever(s: Store, c: TimedCall)
    requires LeavesDeadlines(c)
    requires ApplyTimed(s, c).outcome == Ok && c.key in ApplyTimed(s, c).store.db.records
    ensures (forall t :: c.key in View(ApplyTimed(s, c).store, t)) <==> c.key !in s.ttl
  {
    hide ApplyTimed, View;
    if c.key in s.ttl {
      PlainWriteVisibility(s, c, s.ttl[c.key] + 1);
    }
    forall t ensures c.key !in s.ttl ==> c.key in View(ApplyTimed(s, c).store, t) {
      PlainWriteVisibility(s, c, t);
    }
  }

  // ------------------------------------------- expired and not yet deleted

  /** A record out of view refuses an insertion exactly when it is stored and expired:
      it has to be looked up or swept first. */
  lemma ExpiredStillRefuses(s: Store, k: Key, v: Value, seconds: nat, size: nat, begins: seq<nat>, now: int)
    ensures k !in View(s, now) && ApplyTimed(s, InsertFor(k, v, seconds, size, begins, now)).outcome == AlreadyExists
            <==> Expired(s, k, now) && k in s.db.records
    ensures k !in View(s, now) && ApplyTimed(s, InsertPlain(k, v, size, begins)).outcome == AlreadyExists
            <==> Expired(s, k, now) && k in s.db.records
  {
    hide InsertKey, EvictAll, Victims, Touch;
  }

  /** Changing the deadline brings a record back into view exactly when it is stored and
      expired; for setTTL the new deadline must not be past either. */
  lemma ExpiredCanComeBack(s: Store, k: Key, seconds: int, now: int)
    ensures k !in View(s, now) && k in View(ApplyTimed(s, SetTtl(k, seconds, now)).store, now)
            <==> Expired(s, k, now) && k in s.db.records && seconds >= 0
    ensures k !in View(s, now) && k in View(ApplyTimed(s, RemoveTtl(k)).store, now)
            <==> Expired(s, k, now) && k in s.db.records
  {
    hide Touch;
  }

  lemma UnrollTwo(s: Index, x: nat, y: nat)
    requires Class(s.freqList, s.minFreq) != []
    requires Class(EvictFront(s, x).freqList, EvictFront(s, x).minFreq) != []
    ensures Victims(s, [x, y]) == [Victim(s), Victim(EvictFront(s, x))]
    requires s.freqList != map[] && PicksOccupied(x, EvictFront(s, x))
    requires EvictFront(s, x).freqList != map[] && PicksOccupied(y, EvictFront(EvictFront(s, x), y))
    ensures CanEvict(s, [x, y])
  {
    hide EvictFront, Class, PicksOccupied;
    EvictOnce(s, x);
    assert [x, y][..1] == [x];
  }

  lemma TwoClasses(s: Index, a: Key, b: Key)
    requires WellIndexed(s) && AimsAtMinimum(s)
    requires s.cacheNodes.Keys == {a, b} && a != b
    requires s.cacheNodes[a].freq == 2 && s.cacheNodes[b].freq == 1
    ensures CanEvict(s, [2, 0]) && Victims(s, [2, 0]) == [b, a]
  {
    hide Unlink, Ascending;
    KeyIsLinked(s, a);
    KeyIsLinked(s, b);
    FrontIsLinked(s);
    EvictFrontMoves(s, 2);
    var t := EvictFront(s, 2);
    assert Linked(t.freqList, 2, ListNode(s.keyIterators[a], a));
    NextVictim(s, 2);
    EvictFrontMoves(t, 0);
    var u := EvictFront(t, 0);
    if f :| f in u.freqList {
      OccupiedIsLinked(u.freqList, u.clock, f);
    }
    UnrollTwo(s, 2, 0);
  }

  /** Three calls after which a record just inserted without a TTL has one: the
      deadline of an earlier record of that name, which was evicted meanwhile. */
  function EvictedThenReinserted(a: Key, b: Key, v: Value): seq<TimedCall> {
    [InsertFor(a, v, 1, 0, [], 0), InsertPlain(b, v, 0, [2, 0]), InsertPlain(a, v, 0, [])]
  }

  lemma FirstTwoCalls(a: Key, b: Key, v: Value)
    requires a != b
    ensures var s1 := ApplyTimed(EMPTY_STORE, InsertFor(a, v, 1, 0, [], 0));
            var s2 := ApplyTimed(s1.store, InsertPlain(b, v, 0, [2, 0]));
            && PossibleTimed(EMPTY_STORE, InsertFor(a, v, 1, 0, [], 0))
            && PossibleTimed(s1.store, InsertPlain(b, v, 0, [2, 0]))
            && s2.store.db.records == map[] && s2.store.ttl == map[a := SECOND]
  {
    hide InsertKey, Touch, AimsAtMinimum, WellIndexed;
    var i1 := InsertKey(EMPTY, a, 0);
    EvictNone(i1);
    EmptyIndexed();
    InsertKeyIndexes(EMPTY, a, 0);
    InsertKeyNodes(EMPTY, a, 0);
    TouchSteps(i1, a);
    var i2 := Touch(i1, a);
    InsertKeyIndexes(i2, b, 0);
    InsertKeyNodes(i2, b, 0);
    TwoClasses(InsertKey(i2, b, 0), a, b);
    assert map[a := v] - KeySet([]) == map[a := v];
  }

  lemma InsertKeyNodes(s: Index, k: Key, size: nat)
    ensures InsertKey(s, k, size).cacheNodes == s.cacheNodes[k := CacheNode(1, size)]
  {
  }

  lemma StaleDeadline(a: Key, b: Key, v: Value)
    requires a != b
    ensures var calls := EvictedThenReinserted(a, b, v);
            && PossibleTimedRun(EMPTY_STORE, calls)
            && a in RunTimed(EMPTY_STORE, calls).db.records
            && forall t :: t > SECOND ==> a !in View(RunTimed(EMPTY_STORE, calls), t)
  {
    hide InsertKey, Touch, EvictAll, Victims, CanEvict;
    var calls := EvictedThenReinserted(a, b, v);
    FirstTwoCalls(a, b, v);
    var s1 := ApplyTimed(EMPTY_STORE, calls[0]).store;
    var s2 := ApplyTimed(s1, calls[1]).store;
    EvictNone(InsertKey(s2.db.index, a, 0));
    assert calls[..2] == [calls[0], calls[1]] && calls[..2][..1] == [calls[0]] && calls[..2][..1][..0] == [];
    assert RunTimed(EMPTY_STORE, calls[..2][..1]) == s1;
    assert RunTimed(EMPTY_STORE, calls[..2]) == s2;
    assert PossibleTimedRun(EMPTY_STORE, calls[..2][..1]);
    assert PossibleTimedRun(EMPTY_STORE, calls[..2]);
    assert PossibleTimed(s2, calls[2]);
  }
}
