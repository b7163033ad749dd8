/** The database and its clients as they run: objects updated in place, each method
    proved against modules Keyspace and Transactions (include/Database/Database.h,
    include/ClientManager/Client.h and include/ClientManager/TransactionContext.h).
 */
module Server {
  import opened Bytes
  import opened Lfu
  import opened MemoryManagement
  import opened Values
  import opened Keyspace
  import opened Transactions

  class TransactionContext {
    var inTransaction: bool
    var dirty: bool
    var commands: seq<Program>
    var watchedRecords: set<Key>

    ghost function Value(): Context
      reads this
    {
      Context(inTransaction, dirty, commands, watchedRecords)
    }

    constructor ()
      ensures Value() == CLEAR
    {
      inTransaction, dirty, commands, watchedRecords := false, false, [], {};
    }

    method Clear()
      modifies this
      ensures Value() == CLEAR
      ensures !inTransaction && !dirty && commands == [] && watchedRecords == {}
    {
      inTransaction := false;
      dirty := false;
      commands := [];
      watchedRecords := {};
    }
  }

  class Client {
    const transactionContext: TransactionContext

    constructor ()
      ensures fresh(transactionContext) && transactionContext.Value() == CLEAR
    {
      transactionContext := new TransactionContext();
    }

    method OnRecordModified(key: Key)
      modifies transactionContext
      ensures transactionContext.Value() == var c := old(transactionContext.Value());
                                            if key in c.watched then c.(dirty := true) else c
    {
      if key in transactionContext.watchedRecords {
        transactionContext.dirty := true;
      }
    }

    method ClearTransaction(db: Database)
      requires db.Valid() && this in db.clients
      modifies db`recordDependencies, transactionContext
      ensures db.Valid()
      ensures db.Snapshot() == Transactions.ClearTransaction(old(db.Snapshot()), this)
    {
      hide Consistent, Unregister, UnregisterAll;
      ghost var deps := db.recordDependencies;
      var watched := transactionContext.watchedRecords;
      var rest := watched;
      NothingUnregistered(deps, watched, this);
      while rest != {}
        invariant rest <= watched && db.Valid()
        invariant transactionContext.Value() == old(transactionContext.Value())
        invariant db.recordDependencies == UnregisterAll(deps, watched - rest, this)
      {
        var watchedRecord :| watchedRecord in rest;
        UnregisterOneMore(deps, watched - rest, watchedRecord, this);
        db.UnregisterRecordObserver(watchedRecord, this);
        assert watched - (rest - {watchedRecord}) == watched - rest + {watchedRecord};
        rest := rest - {watchedRecord};
      }
      assert watched - {} == watched;
      assert db.Snapshot().ctx == old(db.Snapshot().ctx);
      label Unregistered:
      transactionContext.Clear();
      db.OneContextChanged@Unregistered(this);
    }
  }

  lemma NothingUnregistered<C>(deps: map<Key, set<C>>, watched: set<Key>, c: C)
    ensures UnregisterAll(deps, watched - watched, c) == deps
  {
  }

  /** The context of a client that was, or was not, told of a change to `key`. */
  function Told(c: Context, key: Key, told: bool): Context {
    if told && key in c.watched then c.(dirty := true) else c
  }

  lemma UnregisterOneMore<C>(deps: map<Key, set<C>>, done: set<Key>, k: Key, c: C)
    requires k !in done
    ensures Unregister(UnregisterAll(deps, done, c), k, c) == UnregisterAll(deps, done + {k}, c)
  {
  }

  lemma ConsistentIndex(d: Db, log: seq<DbEvent>)
    requires Consistent(d, log)
    ensures Agrees(d.index, IndexEvents(log)) && d.records.Keys == d.index.cacheNodes.Keys
  {
  }

  lemma InsertLog(log: seq<DbEvent>, k: Key, v: Value, victims: seq<Key>)
    ensures IndexEvents(log + ([Put(k, v)] + LostKeys(victims)))
         == IndexEvents(log) + [Inserted(k)] + Evictions(victims)
  {
    LogExtends(log, Put(k, v));
    LostKeysAreForgotten(log + [Put(k, v)], victims);
    assert log + [Put(k, v)] + LostKeys(victims) == log + ([Put(k, v)] + LostKeys(victims));
  }

  lemma NoKeys()
    ensures NotifiedKeys([]) == {}
  {
  }

  lemma KeysOfOne(e: DbEvent)
    ensures NotifiedKeys([e]) == if Notifying(e) then {e.key} else {}
  {
    assert e in [e];
  }

  lemma KeysOfInsert(k: Key, v: Value, victims: seq<Key>)
    ensures NotifiedKeys([Put(k, v)] + LostKeys(victims)) == {k}
  {
    var events := [Put(k, v)] + LostKeys(victims);
    assert events[0] == Put(k, v) && events[0] in events;
  }

  /** Telling the observers of a key twice is telling them once. */
  lemma NotifyTwice<C>(deps: map<Key, set<C>>, ctx: map<C, Context>, keys: set<Key>)
    ensures Notify(deps, Notify(deps, ctx, keys), keys) == Notify(deps, ctx, keys)
  {
    var once := Notify(deps, ctx, keys);
    forall c | c in ctx ensures Hears(deps, once, keys, c) <==> Hears(deps, ctx, keys, c) {
      assert once[c].watched == ctx[c].watched;
    }
  }

  lemma NotifyNobody<C>(deps: map<Key, set<C>>, ctx: map<C, Context>)
    ensures Notify(deps, ctx, {}) == ctx
  {
  }

  lemma KeysOfConcat(a: seq<DbEvent>, b: seq<DbEvent>)
    ensures NotifiedKeys(a + b) == NotifiedKeys(a) + NotifiedKeys(b)
  {
    forall k | k in NotifiedKeys(a) + NotifiedKeys(b) ensures k in NotifiedKeys(a + b) {
      if k in NotifiedKeys(a) {
        var e :| e in a && Notifying(e) && e.key == k;
        assert e in a + b;
      } else {
        var e :| e in b && Notifying(e) && e.key == k;
        assert e in a + b;
      }
    }
  }

  /** Telling observers in two rounds is telling them once of all the keys. */
  lemma NotifyInTurn<C>(deps: map<Key, set<C>>, ctx: map<C, Context>, x: set<Key>, y: set<Key>)
    ensures Notify(deps, Notify(deps, ctx, x), y) == Notify(deps, ctx, x + y)
  {
    var once := Notify(deps, ctx, x);
    forall c | c in ctx
      ensures Hears(deps, ctx, x + y, c) <==> Hears(deps, ctx, x, c) || Hears(deps, once, y, c)
    {
      assert once[c].watched == ctx[c].watched;
    }
  }

  /** Telling the observers of one key. */
  lemma NotifyOfOne<C>(deps: map<Key, set<C>>, ctx: map<C, Context>, key: Key, after: map<C, Context>)
    requires after.Keys == ctx.Keys
    requires forall c :: c in ctx ==> after[c] == Told(ctx[c], key, key in deps && c in deps[key])
    ensures after == Notify(deps, ctx, {key})
  {
  }

  /** Lookups, and changes through what they return, notify nobody. */
  lemma QuietCall(d: Db, call: Call)
    requires call.Get? || call.Mutate?
    ensures NotifiedKeys(Apply(d, call).events) == {}
  {
  }

  /** What one insertion of `id` evicted is what the usage counter asked for: nothing if the
      key was there, otherwise one key for each reading above capacity, until within
      capacity or empty. */
  ghost predicate EvictedAsRead(before: Db, id: Key, readings: nat -> nat, begins: seq<nat>, capacity: nat, after: Db) {
    if id in before.records then begins == [] else EvictsAsRead(readings, begins, capacity, after.records)
  }

  /** So an insertion of a new key that leaves anything stops at the first reading that is
      within capacity, and at no other. */
  lemma StopsAtFirstLowReading(before: Db, id: Key, readings: nat -> nat, begins: seq<nat>, capacity: nat, after: Db)
    requires EvictedAsRead(before, id, readings, begins, capacity, after)
    ensures id in before.records ==> begins == []
    ensures id !in before.records && after.records != map[] ==>
              forall n: nat ::
                n == |begins| <==> readings(n) <= capacity && forall i: nat :: i < n ==> readings(i) > capacity
  {
    if id !in before.records && after.records != map[] {
      forall n: nat | readings(n) <= capacity && forall i: nat :: i < n ==> readings(i) > capacity
        ensures n == |begins|
      {
        var m: nat := |begins|;
        assert readings(m) <= capacity;
      }
    }
  }

  /** What a database call makes of the system: the new state, and its observers told. */
  ghost function After<C>(s: System<Db, C>, e: Effect): System<Db, C> {
    System(e.db, s.deps, Notify(s.deps, s.ctx, NotifiedKeys(e.events)))
  }

  class Database {
    const memoryManager: MemoryManager
    var records: map<Key, Value>
    var recordDependencies: map<Key, set<Client>>
    ghost var log: seq<DbEvent>
    ghost var clients: set<Client>   // everyone who can be an observer

    ghost function State(): Db
      reads this, memoryManager
    {
      Db(records, memoryManager.State())
    }

    ghost function Contexts(): set<TransactionContext>
      reads `clients
    {
      set c | c in clients :: c.transactionContext
    }

    ghost function Snapshot(): System<Db, Client>
      reads this, memoryManager, Contexts()
    {
      System(State(), recordDependencies, map c | c in clients :: c.transactionContext.Value())
    }

    ghost predicate Valid()
      reads this, memoryManager
    {
      && Consistent(State(), log)
      && memoryManager.history == IndexEvents(log)
      && (forall k :: k in recordDependencies ==> recordDependencies[k] <= clients)
      && (forall c, d :: c in clients && d in clients && c != d ==> c.transactionContext != d.transactionContext)
    }

    /** A change to the context of one client is a change to that entry of the snapshot. */
    twostate lemma OneContextChanged(client: Client)
      requires old(Valid()) && client in clients && unchanged(this) && unchanged(memoryManager)
      requires forall c :: c in clients && c != client ==> unchanged(c.transactionContext)
      ensures Valid()
      ensures Snapshot() == old(Snapshot()).(ctx := old(Snapshot()).ctx[client := client.transactionContext.Value()])
    {
    }

    constructor (cacheSizeMB: nat)
      ensures Valid() && fresh(memoryManager)
      ensures State() == EMPTY_DB && log == [] && clients == {} && recordDependencies == map[]
    {
      memoryManager := new MemoryManager(cacheSizeMB);
      records, recordDependencies, log, clients := map[], map[], [], {};
    }

    /** A new connection; its descriptor and thread are not part of this model. */
    method Admit() returns (client: Client)
      requires Valid()
      modifies `clients
      ensures Valid() && fresh(client) && client in clients
      ensures Snapshot() == old(Snapshot()).(ctx := old(Snapshot()).ctx[client := CLEAR])
    {
      hide Consistent;
      client := new Client();
      clients := clients + {client};
    }

    method NotifyRecordObservers(recordId: Key)
      requires Valid()
      modifies Contexts()
      ensures Valid()
      ensures Snapshot() == old(Snapshot()).(ctx := Notify(recordDependencies, old(Snapshot()).ctx, {recordId}))
    {
      hide Consistent, Notify;
      ghost var before := Snapshot().ctx;
      if recordId in recordDependencies {
        var observers := recordDependencies[recordId];
        var rest := observers;
        while rest != {}
          invariant rest <= observers && Valid()
          invariant forall c :: c in clients ==>
                      c.transactionContext.Value() == Told(before[c], recordId, c in observers && c !in rest)
        {
          var observer :| observer in rest;
          observer.OnRecordModified(recordId);
          rest := rest - {observer};
        }
      }
      NotifyOfOne<Client>(recordDependencies, before, recordId, Snapshot().ctx);
    }

    /** The part of an insertion that changes the store: insert the record and evict. */
    method StoreAndEvict(id: Key, value: Value, size: nat, readings: nat -> nat) returns (ghost begins: seq<nat>)
      requires Valid() && id !in records
      modifies `records, `log, memoryManager
      ensures Valid() && Possible(old(State()), Insert(id, value, size, begins))
      ensures var e := Apply(old(State()), Insert(id, value, size, begins));
              State() == e.db && log == old(log) + e.events && e.outcome == Ok && NotifiedKeys(e.events) == {id}
      ensures EvictsAsRead(readings, begins, memoryManager.capacityBytes, records)
    {
      hide Consistent, Agrees, Lfu.InsertKey, EvictAll, Victims, CanEvict, KeySet, Evictions;
      hide NotifiedKeys, LostKeys, OverCapacity;
      ConsistentIndex(State(), log);
      memoryManager.InsertKey(id, size);
      records := records[id := value];
      records, begins := memoryManager.EvictIfNeeded(records, readings);
      ghost var e := Apply(old(State()), Insert(id, value, size, begins));
      ApplyConsistent(old(State()), old(log), Insert(id, value, size, begins));
      InsertLog(old(log), id, value, Victims(Lfu.InsertKey(old(State()).index, id, size), begins));
      KeysOfInsert(id, value, Victims(Lfu.InsertKey(old(State()).index, id, size), begins));
      log := old(log) + e.events;
      ConsistentIndex(State(), log);
    }

    /** `size` is the record's approximate size and `readings` the values of the usage
        counter; `begins` reports what `freqList.begin()` named after each eviction. */
    method InsertRecord(id: Key, value: Value, size: nat, readings: nat -> nat)
      returns (outcome: Outcome, ghost begins: seq<nat>)
      requires Valid()
      modifies `records, `log, memoryManager, Contexts()
      ensures Valid()
      ensures Possible(old(State()), Insert(id, value, size, begins))
      ensures var e := Apply(old(State()), Insert(id, value, size, begins));
              outcome == e.outcome && log == old(log) + e.events && Snapshot() == After(old(Snapshot()), e)
      ensures outcome == if id in old(records) then AlreadyExists else Ok
      ensures EvictedAsRead(old(State()), id, readings, begins, memoryManager.capacityBytes, State())
    {
      hide Consistent, InsertNew, CanEvict, Notify, NotifiedKeys, EvictsAsRead;
      ghost var ctx := Snapshot().ctx;
      if id in records {
        NotifyNobody(recordDependencies, ctx);
        NoKeys();
        return AlreadyExists, [];
      }
      begins := StoreAndEvict(id, value, size, readings);
      assert Snapshot().ctx == ctx;
      NotifyRecordObservers(id);
      return Ok, begins;
    }

    method UpdateRecord(id: Key, value: Value, size: nat, readings: nat -> nat)
      returns (outcome: Outcome, ghost begins: seq<nat>)
      requires Valid()
      modifies `records, `log, memoryManager, Contexts()
      ensures Valid()
      ensures Possible(old(State()), Update(id, value, size, begins))
      ensures EvictedAsRead(old(State()), id, readings, begins, memoryManager.capacityBytes, State())
      ensures var e := Apply(old(State()), Update(id, value, size, begins));
              outcome == e.outcome && log == old(log) + e.events && Snapshot() == After(old(Snapshot()), e)
    {
      hide Consistent, Agrees, Lfu.InsertKey, Lfu.Touch, EvictAll, Victims, CanEvict, KeySet;
      hide Notify, NotifiedKeys, LostKeys, EvictsAsRead;
      begins := [];
      ConsistentIndex(State(), log);
      if id in records {
        records := records[id := value];
        memoryManager.Touch(id);
        ApplyConsistent(old(State()), old(log), Update(id, value, size, begins));
        LogExtends(log, Overwrote(id, value));
        KeysOfOne(Overwrote(id, value));
        log := log + [Overwrote(id, value)];
        assert Snapshot().ctx == old(Snapshot().ctx);
        outcome := Ok;
      } else {
        outcome, begins := InsertRecord(id, value, size, readings);
        KeysOfInsert(id, value, Victims(Lfu.InsertKey(old(State()).index, id, size), begins));
        NotifyTwice(recordDependencies, old(Snapshot()).ctx, {id});
      }
      NotifyRecordObservers(id);
    }

    method GetRecord(id: Key) returns (outcome: Outcome)
      requires Valid()
      modifies `log, memoryManager
      ensures Valid()
      ensures var e := Apply(old(State()), Get(id));
              outcome == e.outcome && log == old(log) + e.events && State() == e.db
    {
      hide Consistent, Agrees, Lfu.Touch;
      ConsistentIndex(State(), log);
      LogExtends(log, Read(id));
      ApplyConsistent(State(), log, Get(id));
      if id in records {
        memoryManager.Touch(id);
        log := log + [Read(id)];
        return Found(records[id]);
      }
      return NotFound;
    }

    /** A lookup whose caller changes the value through the record it got. */
    method MutateRecord(id: Key, change: Value -> Value) returns (outcome: Outcome)
      requires Valid()
      modifies `records, `log, memoryManager
      ensures Valid()
      ensures var e := Apply(old(State()), Mutate(id, Changed(old(State()), id, change)));
              outcome == e.outcome && log == old(log) + e.events && State() == e.db
    {
      hide Consistent, Agrees, Lfu.Touch;
      ghost var value := Changed(State(), id, change);
      ConsistentIndex(State(), log);
      LogExtends(log, Mutated(id, value));
      ApplyConsistent(State(), log, Mutate(id, value));
      if id in records {
        memoryManager.Touch(id);
        outcome := Found(records[id]);
        records := records[id := change(records[id])];
        log := log + [Mutated(id, value)];
        return;
      }
      return NotFound;
    }

    method DeleteRecord(id: Key) returns (outcome: Outcome, ghost begin: nat)
      requires Valid()
      modifies `records, `log, memoryManager, Contexts()
      ensures Valid()
      ensures Possible(old(State()), Delete(id, begin))
      ensures var e := Apply(old(State()), Delete(id, begin));
              outcome == e.outcome && log == old(log) + e.events && Snapshot() == After(old(Snapshot()), e)
    {
      hide Consistent, Agrees, Lfu.RemoveKey, PicksOccupied, Notify, NotifiedKeys;
      begin := 0;
      ConsistentIndex(State(), log);
      if id !in records {
        NotifyNobody(recordDependencies, Snapshot().ctx);
        NoKeys();
        return NotFound, begin;
      }
      begin := memoryManager.RemoveKey(id);
      records := records - {id};
      ApplyConsistent(old(State()), old(log), Delete(id, begin));
      LogExtends(log, Dropped(id));
      KeysOfOne(Dropped(id));
      log := log + [Dropped(id)];
      assert Snapshot().ctx == old(Snapshot().ctx);
      NotifyRecordObservers(id);
      return Ok, begin;
    }

    method RegisterRecordObserver(key: Key, obs: Client) returns (ok: bool)
      requires Valid() && obs in clients
      modifies `recordDependencies
      ensures Valid()
      ensures ok <==> key in records
      ensures recordDependencies == if ok then Register(old(recordDependencies), key, obs) else old(recordDependencies)
    {
      hide Consistent;
      if key !in records {
        return false;
      }
      var observersSet := if key in recordDependencies then recordDependencies[key] else {};
      recordDependencies := recordDependencies[key := observersSet + {obs}];
      return true;
    }

    method UnregisterRecordObserver(key: Key, obs: Client)
      requires Valid()
      modifies `recordDependencies
      ensures Valid()
      ensures recordDependencies == Unregister(old(recordDependencies), key, obs)
    {
      hide Consistent;
      if key in recordDependencies {
        var observersSet := recordDependencies[key] - {obs};
        if observersSet == {} {
          recordDependencies := recordDependencies - {key};
        } else {
          recordDependencies := recordDependencies[key := observersSet];
        }
      }
    }
  }
}
