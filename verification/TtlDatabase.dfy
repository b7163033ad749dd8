/** The TTL decorator as it runs: a deadline map beside the wrapped database, each
    method proved against module Expiry
    (include/Database/Decorators/TTLDatabaseDecorator.h). */
module TtlDatabase {
  import opened Bytes
  import opened MemoryManagement
  import opened Values
  import opened Keyspace
  import opened Transactions
  import opened Server
  import opened Expiry

  /** What a timed call makes of the system behind the decorator. */
  ghost function AfterTimed<C>(s: System<Store, C>, r: Expiry.Result): System<Store, C> {
    System(r.store, s.deps, Notify(s.deps, s.ctx, NotifiedKeys(r.events)))
  }

  class TTLDatabaseDecorator {
    const db: Database
    var ttlMap: map<Key, int>

    ghost function State(): Store
      reads this, db, db.memoryManager
    {
      Store(db.State(), ttlMap)
    }

    ghost predicate Valid()
      reads db, db.memoryManager
    {
      db.Valid()
    }

    ghost function Snapshot(): System<Store, Client>
      reads this, db, db.memoryManager, db.Contexts()
    {
      System(State(), db.recordDependencies, db.Snapshot().ctx)
    }

    /** A change to the context of one client is a change to that entry of the snapshot. */
    twostate lemma OneContextChanged(client: Client)
      requires old(Valid()) && client in db.clients && unchanged(this) && unchanged(db) && unchanged(db.memoryManager)
      requires forall c :: c in db.clients && c != client ==> unchanged(c.transactionContext)
      ensures Valid()
      ensures Snapshot() == old(Snapshot()).(ctx := old(Snapshot()).ctx[client := client.transactionContext.Value()])
    {
      db.OneContextChanged(client);
    }

    constructor (db: Database)
      ensures this.db == db && ttlMap == map[]
    {
      this.db := db;
      ttlMap := map[];
    }

    method InsertRecord(id: Key, value: Value, size: nat, readings: nat -> nat)
      returns (outcome: Outcome, ghost begins: seq<nat>)
      requires db.Valid()
      modifies db`records, db`log, db.memoryManager, db.Contexts()
      ensures db.Valid()
      ensures PossibleTimed(old(State()), InsertPlain(id, value, size, begins))
      ensures EvictedAsRead(old(db.State()), id, readings, begins, db.memoryManager.capacityBytes, db.State())
      ensures var r := ApplyTimed(old(State()), InsertPlain(id, value, size, begins));
              outcome == r.outcome && db.log == old(db.log) + r.events
              && Snapshot() == AfterTimed(old(Snapshot()), r)
    {
      hide Consistent, Apply, Possible, Notify, NotifiedKeys;
      outcome, begins := db.InsertRecord(id, value, size, readings);
    }

    method InsertRecordFor(id: Key, value: Value, ttlSeconds: nat, size: nat, readings: nat -> nat, now: int)
      returns (outcome: Outcome, ghost begins: seq<nat>)
      requires db.Valid()
      modifies `ttlMap, db`records, db`log, db.memoryManager, db.Contexts()
      ensures db.Valid()
      ensures PossibleTimed(old(State()), InsertFor(id, value, ttlSeconds, size, begins, now))
      ensures EvictedAsRead(old(db.State()), id, readings, begins, db.memoryManager.capacityBytes, db.State())
      ensures var r := ApplyTimed(old(State()), InsertFor(id, value, ttlSeconds, size, begins, now));
              outcome == r.outcome && db.log == old(db.log) + r.events
              && Snapshot() == AfterTimed(old(Snapshot()), r)
    {
      hide Consistent, Apply, Possible, Notify, NotifiedKeys;
      outcome, begins := db.InsertRecord(id, value, size, readings);
      OutcomeOfWrite(old(db.State()), Insert(id, value, size, begins));
      if outcome != Ok {
        return;
      }
      if ttlSeconds > 0 {
        ghost var e := Apply(old(db.State()), Insert(id, value, size, begins));
        outcome := SetDeadline(id, now + ttlSeconds * SECOND, e, old(db.log));
      }
    }

    method UpdateRecord(id: Key, value: Value, size: nat, readings: nat -> nat)
      returns (outcome: Outcome, ghost begins: seq<nat>)
      requires db.Valid()
      modifies db`records, db`log, db.memoryManager, db.Contexts()
      ensures db.Valid()
      ensures PossibleTimed(old(State()), UpdatePlain(id, value, size, begins))
      ensures EvictedAsRead(old(db.State()), id, readings, begins, db.memoryManager.capacityBytes, db.State())
      ensures var r := ApplyTimed(old(State()), UpdatePlain(id, value, size, begins));
              outcome == r.outcome && db.log == old(db.log) + r.events
              && Snapshot() == AfterTimed(old(Snapshot()), r)
    {
      hide Consistent, Apply, Possible, Notify, NotifiedKeys;
      outcome, begins := db.UpdateRecord(id, value, size, readings);
    }

    method UpdateRecordFor(id: Key, value: Value, ttlSeconds: nat, size: nat, readings: nat -> nat, now: int)
      returns (outcome: Outcome, ghost begins: seq<nat>)
      requires db.Valid()
      modifies `ttlMap, db`records, db`log, db.memoryManager, db.Contexts()
      ensures db.Valid()
      ensures PossibleTimed(old(State()), UpdateFor(id, value, ttlSeconds, size, begins, now))
      ensures EvictedAsRead(old(db.State()), id, readings, begins, db.memoryManager.capacityBytes, db.State())
      ensures var r := ApplyTimed(old(State()), UpdateFor(id, value, ttlSeconds, size, begins, now));
              outcome == r.outcome && db.log == old(db.log) + r.events
              && Snapshot() == AfterTimed(old(Snapshot()), r)
    {
      hide Consistent, Apply, Possible, Notify, NotifiedKeys;
      outcome, begins := db.UpdateRecord(id, value, size, readings);
      OutcomeOfWrite(old(db.State()), Update(id, value, size, begins));
      if ttlSeconds > 0 {
        ghost var e := Apply(old(db.State()), Update(id, value, size, begins));
        outcome := SetDeadline(id, now + ttlSeconds * SECOND, e, old(db.log));
      } else {
        ttlMap := ttlMap - {id};
      }
    }

    /** The second half of a write with a TTL: look the record up and set its deadline. */
    method SetDeadline(id: Key, deadline: int, ghost e: Effect, ghost log: seq<DbEvent>) returns (outcome: Outcome)
      requires db.Valid() && db.State() == e.db && db.log == log + e.events && e.outcome == Ok
      modifies `ttlMap, db`log, db.memoryManager
      ensures db.Valid()
      ensures var r := ThenSetDeadline(e, old(ttlMap), id, deadline);
              && outcome == r.outcome && State() == r.store && db.log == log + r.events
              && NotifiedKeys(r.events) == NotifiedKeys(e.events)
      ensures db.Snapshot() == old(db.Snapshot()).(store := db.State())
    {
      hide Consistent, Apply, Notify, NotifiedKeys;
      QuietCall(e.db, Get(id));
      KeysOfConcat(e.events, Apply(e.db, Get(id)).events);
      LookUpKeeps(e.db, id);
      assert log + e.events + Apply(e.db, Get(id)).events == log + (e.events + Apply(e.db, Get(id)).events);
      outcome := db.GetRecord(id);
      assert db.Snapshot().ctx == old(db.Snapshot()).ctx;
      if outcome.Found? {
        ttlMap := ttlMap[id := deadline];
        outcome := Ok;
      }
    }

    method SetTTL(id: Key, ttlSeconds: int, now: int) returns (outcome: Outcome)
      requires db.Valid()
      modifies `ttlMap, db`log, db.memoryManager
      ensures db.Valid()
      ensures var r := ApplyTimed(old(State()), SetTtl(id, ttlSeconds, now));
              outcome == r.outcome && db.log == old(db.log) + r.events
              && Snapshot() == AfterTimed(old(Snapshot()), r)
    {
      hide Consistent, Apply, Notify, NotifiedKeys;
      QuietCall(db.State(), Get(id));
      NotifyNobody(db.recordDependencies, db.Snapshot().ctx);
      LookUpKeeps(db.State(), id);
      outcome := db.GetRecord(id);
      assert db.Snapshot().ctx == old(db.Snapshot()).ctx;
      if outcome.Found? {
        ttlMap := ttlMap[id := now + ttlSeconds * SECOND];
        outcome := Ok;
      }
    }

    method RemoveTTL(id: Key) returns (outcome: Outcome)
      requires db.Valid()
      modifies `ttlMap, db`log, db.memoryManager
      ensures db.Valid()
      ensures var r := ApplyTimed(old(State()), RemoveTtl(id));
              outcome == r.outcome && db.log == old(db.log) + r.events
              && Snapshot() == AfterTimed(old(Snapshot()), r)
    {
      hide Consistent, Apply, Notify, NotifiedKeys;
      QuietCall(db.State(), Get(id));
      NotifyNobody(db.recordDependencies, db.Snapshot().ctx);
      LookUpKeeps(db.State(), id);
      outcome := db.GetRecord(id);
      assert db.Snapshot().ctx == old(db.Snapshot()).ctx;
      if outcome.Found? {
        ttlMap := ttlMap - {id};
        outcome := Ok;
      }
    }

    method GetRecord(id: Key, now: int) returns (outcome: Outcome, ghost begin: nat)
      requires db.Valid()
      modifies `ttlMap, db`records, db`log, db.memoryManager, db.Contexts()
      ensures db.Valid()
      ensures PossibleTimed(old(State()), LookUp(id, now, begin))
      ensures var r := ApplyTimed(old(State()), LookUp(id, now, begin));
              outcome == r.outcome && db.log == old(db.log) + r.events
              && Snapshot() == AfterTimed(old(Snapshot()), r)
    {
      hide Consistent, Apply, Possible, Notify, NotifiedKeys;
      begin := 0;
      if id in ttlMap && now > ttlMap[id] {
        outcome, begin := db.DeleteRecord(id);
        if outcome == Ok {
          ttlMap := ttlMap - {id};
        }
        return NotFound, begin;
      }
      QuietCall(db.State(), Get(id));
      NotifyNobody(db.recordDependencies, db.Snapshot().ctx);
      outcome := db.GetRecord(id);
      assert db.Snapshot().ctx == old(db.Snapshot()).ctx;
    }

    /** A lookup whose caller changes the record it found. */
    method ChangeRecord(id: Key, change: Value -> Value, now: int) returns (outcome: Outcome, ghost begin: nat)
      requires db.Valid()
      modifies `ttlMap, db`records, db`log, db.memoryManager, db.Contexts()
      ensures db.Valid()
      ensures PossibleTimed(old(State()), Change(id, Changed(old(db.State()), id, change), now, begin))
      ensures var r := ApplyTimed(old(State()), Change(id, Changed(old(db.State()), id, change), now, begin));
              outcome == r.outcome && db.log == old(db.log) + r.events
              && Snapshot() == AfterTimed(old(Snapshot()), r)
    {
      hide Consistent, Apply, Possible, Notify, NotifiedKeys;
      begin := 0;
      if id in ttlMap && now > ttlMap[id] {
        outcome, begin := db.DeleteRecord(id);
        if outcome == Ok {
          ttlMap := ttlMap - {id};
        }
        return NotFound, begin;
      }
      QuietCall(db.State(), Mutate(id, Changed(db.State(), id, change)));
      NotifyNobody(db.recordDependencies, db.Snapshot().ctx);
      outcome := db.MutateRecord(id, change);
      assert db.Snapshot().ctx == old(db.Snapshot()).ctx;
    }

    method DeleteRecord(id: Key) returns (outcome: Outcome, ghost begin: nat)
      requires db.Valid()
      modifies `ttlMap, db`records, db`log, db.memoryManager, db.Contexts()
      ensures db.Valid()
      ensures PossibleTimed(old(State()), Remove(id, begin))
      ensures var r := ApplyTimed(old(State()), Remove(id, begin));
              outcome == r.outcome && db.log == old(db.log) + r.events
              && Snapshot() == AfterTimed(old(Snapshot()), r)
    {
      hide Consistent, Apply, Possible, Notify, NotifiedKeys;
      outcome, begin := db.DeleteRecord(id);
      if outcome == Ok {
        ttlMap := ttlMap - {id};
      }
    }

    /** The sweep of the expiry thread: collect, forget the deadlines, delete. */
    method RemoveExpiredKeys(now: int) returns (ghost sweep: seq<(Key, nat)>)
      requires db.Valid()
      modifies `ttlMap, db`records, db`log, db.memoryManager, db.Contexts()
      ensures db.Valid()
      ensures PossibleTimed(old(State()), Sweep(now, sweep))
      ensures var r := ApplyTimed(old(State()), Sweep(now, sweep));
              db.log == old(db.log) + r.events && Snapshot() == AfterTimed(old(Snapshot()), r)
    {
      hide Consistent, Apply, Possible, Notify, NotifiedKeys, DeleteAll, PossibleSweep, Sweeps;
      var expired := CollectExpired(now);
      assert (set k | k in expired) == ExpiredKeys(State(), now);
      ForgetDeadlines(expired);
      sweep := DeleteExpired(expired);
      SweepsAll(old(State()), now, expired, sweep);
      assert State() == ApplyTimed(old(State()), Sweep(now, sweep)).store;
    }

    method CollectExpired(now: int) returns (expired: seq<Key>)
      ensures forall k :: k in expired <==> k in ttlMap && now > ttlMap[k]
    {
      expired := [];
      var rest := ttlMap.Keys;
      while rest != {}
        invariant rest <= ttlMap.Keys
        invariant forall k :: k in expired <==> k in ttlMap && k !in rest && now > ttlMap[k]
      {
        var id :| id in rest;
        rest := rest - {id};
        if now > ttlMap[id] {
          expired := expired + [id];
        }
      }
    }

    method ForgetDeadlines(expired: seq<Key>)
      modifies `ttlMap
      ensures ttlMap == old(ttlMap) - (set k | k in expired)
    {
      for i := 0 to |expired|
        invariant ttlMap == old(ttlMap) - (set k | k in expired[..i])
      {
        assert expired[..i + 1] == expired[..i] + [expired[i]];
        ttlMap := ttlMap - {expired[i]};
      }
      assert expired[..|expired|] == expired;
    }

    /** Delete the collected keys; one that is gone already is passed over. */
    method DeleteExpired(expired: seq<Key>) returns (ghost sweep: seq<(Key, nat)>)
      requires db.Valid()
      modifies db`records, db`log, db.memoryManager, db.Contexts()
      ensures db.Valid()
      ensures |sweep| == |expired| && forall i :: 0 <= i < |sweep| ==> sweep[i].0 == expired[i]
      ensures PossibleSweep(old(db.State()), sweep)
      ensures db.Snapshot() == After(old(db.Snapshot()), DeleteAll(old(db.State()), sweep))
      ensures db.log == old(db.log) + DeleteAll(old(db.State()), sweep).events
    {
      hide Consistent, Apply, Possible, Notify, NotifiedKeys, DeleteAll, PossibleSweep;
      sweep := [];
      ghost var s, log := db.Snapshot(), db.log;
      NothingSwept(s);
      for i := 0 to |expired|
        invariant db.Valid()
        invariant |sweep| == i && forall j :: 0 <= j < i ==> sweep[j].0 == expired[j]
        invariant PossibleSweep(s.store, sweep)
        invariant db.Snapshot() == After(s, DeleteAll(s.store, sweep))
        invariant db.log == log + DeleteAll(s.store, sweep).events
      {
        var outcome;
        ghost var begin;
        outcome, begin := db.DeleteRecord(expired[i]);
        SweepOneMore(s, sweep, (expired[i], begin), log);
        sweep := sweep + [(expired[i], begin)];
      }
    }
  }

  /** Deleting the collected keys in any order is a sweep. */
  lemma SweepsAll(s: Store, now: int, expired: seq<Key>, sweep: seq<(Key, nat)>)
    requires (set k | k in expired) == ExpiredKeys(s, now)
    requires |sweep| == |expired| && forall i :: 0 <= i < |sweep| ==> sweep[i].0 == expired[i]
    ensures Sweeps(s, now, sweep)
  {
    assert forall i :: 0 <= i < |sweep| ==> sweep[i].0 in expired;
    forall k | k in ExpiredKeys(s, now) ensures exists i :: 0 <= i < |sweep| && sweep[i].0 == k {
      assert k in expired;
      var i :| 0 <= i < |expired| && expired[i] == k;
      assert sweep[i].0 == k;
    }
  }

  lemma NothingSwept<C>(s: System<Db, C>)
    ensures DeleteAll(s.store, []).events == [] && After(s, DeleteAll(s.store, [])) == s && PossibleSweep(s.store, [])
  {
    NoKeys();
    NotifyNobody(s.deps, s.ctx);
  }

  lemma SweepOneMore<C>(s: System<Db, C>, sweep: seq<(Key, nat)>, p: (Key, nat), log: seq<DbEvent>)
    ensures var before, all := DeleteAll(s.store, sweep), DeleteAll(s.store, sweep + [p]);
            var e := Apply(before.db, Delete(p.0, p.1));
            && After(After(s, before), e) == After(s, all)
            && log + before.events + e.events == log + all.events
            && (PossibleSweep(s.store, sweep) && Possible(before.db, Delete(p.0, p.1)) ==>
                  PossibleSweep(s.store, sweep + [p]))
  {
    hide Apply, Possible, Notify, NotifiedKeys;
    var before := DeleteAll(s.store, sweep);
    var e := Apply(before.db, Delete(p.0, p.1));
    assert (sweep + [p])[..|sweep|] == sweep;
    KeysOfConcat(before.events, e.events);
    NotifyInTurn(s.deps, s.ctx, NotifiedKeys(before.events), NotifiedKeys(e.events));
    assert log + before.events + e.events == log + (before.events + e.events);
  }

  lemma OutcomeOfWrite(d: Db, c: Call)
    requires c.Insert? || c.Update?
    ensures Apply(d, c).outcome == Ok || (c.Insert? && Apply(d, c).outcome == AlreadyExists)
  {
  }

  lemma LookUpKeeps(d: Db, k: Key)
    ensures Apply(d, Get(k)).outcome.Found? || Apply(d, Get(k)) == Effect(d, [], NotFound)
  {
  }
}
