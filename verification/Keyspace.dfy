/** The record map and the LFU index together (include/Database/Database.h:23-123):
    the value-level specification, and the proof that every run of operations behaves
    like a plain map that may forget keys.
 */
module Keyspace {
  import opened Bytes
  import opened Lfu
  import opened Values

  datatype Db = Db(records: map<Key, Value>, index: Index)

  const EMPTY_DB: Db := Db(map[], EMPTY)

  /** What the environment decides is part of a call: `size` is the approximate size
      of the record, `begins` holds what `freqList.begin()` named after each eviction
      the call made (none if usage stayed within capacity), `begin` the same for a
      removal.  `Mutate` is a lookup whose caller then changes the record through the
      pointer it got, as LPUSH or HMSET do on an existing key. */
  datatype Call =
    | Insert(key: Key, value: Value, size: nat, begins: seq<nat>)
    | Update(key: Key, value: Value, size: nat, begins: seq<nat>)
    | Get(key: Key)
    | Mutate(key: Key, value: Value)
    | Delete(key: Key, begin: nat)

  datatype DbEvent =
    | Put(key: Key, value: Value)       // inserted as a new record
    | Overwrote(key: Key, value: Value)
    | Read(key: Key)
    | Mutated(key: Key, value: Value)
    | Dropped(key: Key)
    | Lost(key: Key)                    // evicted

  datatype Outcome = Ok | Found(value: Value) | AlreadyExists | NotFound

  datatype Effect = Effect(db: Db, events: seq<DbEvent>, outcome: Outcome)

  function LostKeys(keys: seq<Key>): seq<DbEvent> {
    seq(|keys|, i requires 0 <= i < |keys| => Lost(keys[i]))
  }

  /** Insert a record and evict once for each element of `begins`. */
  function InsertNew(d: Db, k: Key, v: Value, size: nat, begins: seq<nat>): Effect {
    var index := InsertKey(d.index, k, size);
    var victims := Victims(index, begins);
    Effect(Db(d.records[k := v] - KeySet(victims), EvictAll(index, begins)), [Put(k, v)] + LostKeys(victims), Ok)
  }

  function Apply(d: Db, c: Call): Effect {
    match c
    case Insert(k, v, size, begins) =>
      if k in d.records then Effect(d, [], AlreadyExists) else InsertNew(d, k, v, size, begins)
    case Update(k, v, size, begins) =>
      if k in d.records then Effect(Db(d.records[k := v], Touch(d.index, k)), [Overwrote(k, v)], Ok)
      else InsertNew(d, k, v, size, begins)
    case Get(k) =>
      if k in d.records then Effect(Db(d.records, Touch(d.index, k)), [Read(k)], Found(d.records[k]))
      else Effect(d, [], NotFound)
    case Mutate(k, v) =>
      if k in d.records then Effect(Db(d.records[k := v], Touch(d.index, k)), [Mutated(k, v)], Found(d.records[k]))
      else Effect(d, [], NotFound)
    case Delete(k, begin) =>
      if k in d.records then Effect(Db(d.records - {k}, RemoveKey(d.index, k, begin)), [Dropped(k)], Ok)
      else Effect(d, [], NotFound)
  }

  /** The environment's part of the call is possible in state `d`. */
  ghost predicate Possible(d: Db, c: Call) {
    match c
    case Insert(k, _, size, begins) => k !in d.records ==> CanEvict(InsertKey(d.index, k, size), begins)
    case Update(k, _, size, begins) => k !in d.records ==> CanEvict(InsertKey(d.index, k, size), begins)
    case Delete(k, begin) => k in d.records ==> PicksOccupied(begin, RemoveKey(d.index, k, begin))
    case _ => true
  }

  // ------------------------------------------------------- the simple thing

  /** The plain map: what the operations of the log leave when nothing is evicted. */
  function Plain(log: seq<DbEvent>): map<Key, Value> {
    if log == [] then map[]
    else
      var m := Plain(log[..|log| - 1]);
      match log[|log| - 1]
      case Put(k, v) => m[k := v]
      case Overwrote(k, v) => m[k := v]
      case Mutated(k, v) => m[k := v]
      case Dropped(k) => m - {k}
      case Read(_) => m
      case Lost(_) => m
  }

  function IndexEvent(e: DbEvent): Event {
    match e
    case Put(k, _) => Inserted(k)
    case Overwrote(k, _) => Touched(k)
    case Read(k) => Touched(k)
    case Mutated(k, _) => Touched(k)
    case Dropped(k) => Removed(k)
    case Lost(k) => Evicted(k)
  }

  /** The log as the LFU index sees it. */
  function IndexEvents(log: seq<DbEvent>): seq<Event> {
    seq(|log|, i requires 0 <= i < |log| => IndexEvent(log[i]))
  }

  ghost predicate SubMap(m: map<Key, Value>, n: map<Key, Value>) {
    forall k :: k in m ==> k in n && m[k] == n[k]
  }

  /** The state agrees with the log: the index is what the accesses say, the records
      are those of the indexed keys, and each holds what was last written to it. */
  ghost predicate Consistent(d: Db, log: seq<DbEvent>) {
    && Agrees(d.index, IndexEvents(log))
    && d.records.Keys == d.index.cacheNodes.Keys
    && SubMap(d.records, Plain(log))
  }

  lemma LogExtends(log: seq<DbEvent>, e: DbEvent)
    ensures IndexEvents(log + [e]) == IndexEvents(log) + [IndexEvent(e)]
    ensures (log + [e])[..|log|] == log
  {
    assert (log + [e])[..|log|] == log;
  }

  lemma PutConsistent(d: Db, log: seq<DbEvent>, k: Key, v: Value, size: nat)
    requires Consistent(d, log) && k !in d.records
    ensures Consistent(Db(d.records[k := v], InsertKey(d.index, k, size)), log + [Put(k, v)])
  {
    hide Agrees;
    LogExtends(log, Put(k, v));
    InsertNewKeyAgrees(d.index, IndexEvents(log), k, size);
  }

  lemma TouchConsistent(d: Db, log: seq<DbEvent>, e: DbEvent, records: map<Key, Value>)
    requires Consistent(d, log) && e.key in d.records
    requires match e
             case Overwrote(k, v) => records == d.records[k := v]
             case Mutated(k, v) => records == d.records[k := v]
             case Read(k) => records == d.records
             case _ => false
    ensures Consistent(Db(records, Touch(d.index, e.key)), log + [e])
  {
    hide Agrees;
    LogExtends(log, e);
    TouchAgrees(d.index, IndexEvents(log), e.key);
    TouchKeepsKeys(d.index, e.key);
  }

  lemma TouchKeepsKeys(s: Index, k: Key)
    requires k in s.cacheNodes
    ensures Touch(s, k).cacheNodes.Keys == s.cacheNodes.Keys
  {
    hide MoveUp;
  }

  lemma DropConsistent(d: Db, log: seq<DbEvent>, k: Key, begin: nat)
    requires Consistent(d, log) && k in d.records
    requires PicksOccupied(begin, RemoveKey(d.index, k, begin))
    ensures Consistent(Db(d.records - {k}, RemoveKey(d.index, k, begin)), log + [Dropped(k)])
  {
    LogExtends(log, Dropped(k));
    RemoveKeyAgrees(d.index, IndexEvents(log), k, begin);
    RemoveKeyDropsKey(d.index, k, begin);
  }

  lemma RemoveKeyDropsKey(s: Index, k: Key, begin: nat)
    requires k in s.cacheNodes && WellIndexed(s)
    ensures RemoveKey(s, k, begin).cacheNodes.Keys == s.cacheNodes.Keys - {k}
  {
  }

  lemma {:induction false} LostKeysAreForgotten(log: seq<DbEvent>, keys: seq<Key>)
    ensures Plain(log + LostKeys(keys)) == Plain(log)
    ensures IndexEvents(log + LostKeys(keys)) == IndexEvents(log) + Evictions(keys)
  {
    if keys == [] {
      assert log + LostKeys(keys) == log;
      assert IndexEvents(log) + Evictions(keys) == IndexEvents(log);
    } else {
      var rest, k := keys[..|keys| - 1], keys[|keys| - 1];
      LostKeysAreForgotten(log, rest);
      assert log + LostKeys(keys) == log + LostKeys(rest) + [Lost(k)];
      LogExtends(log + LostKeys(rest), Lost(k));
      assert Evictions(keys) == Evictions(rest) + [Evicted(k)];
    }
  }

  lemma EvictConsistent(d: Db, log: seq<DbEvent>, begins: seq<nat>)
    requires Consistent(d, log) && CanEvict(d.index, begins)
    ensures var victims := Victims(d.index, begins);
            Consistent(Db(d.records - KeySet(victims), EvictAll(d.index, begins)), log + LostKeys(victims))
  {
    hide Agrees, CanEvict;
    var victims := Victims(d.index, begins);
    LostKeysAreForgotten(log, victims);
    EvictAllAgrees(d.index, IndexEvents(log), begins);
    EvictAllTakesVictims(d.index, IndexEvents(log), begins);
  }

  /** Every operation, with or without evictions, keeps the state and the log in
      agreement. */
  lemma ApplyConsistent(d: Db, log: seq<DbEvent>, c: Call)
    requires Consistent(d, log) && Possible(d, c)
    ensures Consistent(Apply(d, c).db, log + Apply(d, c).events)
  {
    hide Consistent, CanEvict;
    match c {
      case Insert(k, v, size, begins) =>
        if k in d.records { assert log + [] == log; } else { InsertNewConsistent(d, log, k, v, size, begins); }
      case Update(k, v, size, begins) =>
        if k in d.records { TouchConsistent(d, log, Overwrote(k, v), d.records[k := v]); }
        else { InsertNewConsistent(d, log, k, v, size, begins); }
      case Get(k) =>
        if k in d.records { TouchConsistent(d, log, Read(k), d.records); } else { assert log + [] == log; }
      case Mutate(k, v) =>
        if k in d.records { TouchConsistent(d, log, Mutated(k, v), d.records[k := v]); }
        else { assert log + [] == log; }
      case Delete(k, begin) =>
        if k in d.records { DropConsistent(d, log, k, begin); } else { assert log + [] == log; }
    }
  }

  lemma InsertNewConsistent(d: Db, log: seq<DbEvent>, k: Key, v: Value, size: nat, begins: seq<nat>)
    requires Consistent(d, log) && k !in d.records && CanEvict(InsertKey(d.index, k, size), begins)
    ensures Consistent(InsertNew(d, k, v, size, begins).db, log + InsertNew(d, k, v, size, begins).events)
  {
    hide Consistent, CanEvict, EvictAll, Victims;
    var mid := Db(d.records[k := v], InsertKey(d.index, k, size));
    PutConsistent(d, log, k, v, size);
    EvictConsistent(mid, log + [Put(k, v)], begins);
    assert log + [Put(k, v)] + LostKeys(Victims(mid.index, begins)) == log + InsertNew(d, k, v, size, begins).events;
  }

  // ---------------------------------------------------------------- runs

  /** The state and the log after a run of calls from the empty database. */
  function Run(calls: seq<Call>): (Db, seq<DbEvent>) {
    if calls == [] then (EMPTY_DB, [])
    else
      var (d, log) := Run(calls[..|calls| - 1]);
      var e := Apply(d, calls[|calls| - 1]);
      (e.db, log + e.events)
  }

  ghost predicate PossibleRun(calls: seq<Call>) {
    calls == [] || (PossibleRun(calls[..|calls| - 1]) && Possible(Run(calls[..|calls| - 1]).0, calls[|calls| - 1]))
  }

  /** In every state reachable by any run with any evictions, all four structures and
      the log agree. */
  lemma {:induction false} EveryRunConsistent(calls: seq<Call>)
    requires PossibleRun(calls)
    ensures Consistent(Run(calls).0, Run(calls).1)
  {
    if calls != [] {
      EveryRunConsistent(calls[..|calls| - 1]);
      var (d, log) := Run(calls[..|calls| - 1]);
      ApplyConsistent(d, log, calls[|calls| - 1]);
    }
  }

  /** A lookup in any reachable state returns exactly the value last written to the
      key, or fails; and it fails only for a key that was never written, deleted
      since, or evicted. */
  lemma GetReturnsLastWritten(calls: seq<Call>, k: Key)
    requires PossibleRun(calls)
    ensures var (d, log) := Run(calls);
            match Apply(d, Get(k)).outcome
            case Found(v) => k in Plain(log) && Plain(log)[k] == v
            case o => o == NotFound && Freq(IndexEvents(log), k) == 0
  {
    EveryRunConsistent(calls);
  }

  lemma {:induction false} AbsentUntilPut(log: seq<DbEvent>, more: seq<DbEvent>, k: Key)
    requires Freq(IndexEvents(log), k) == 0
    requires forall v :: Put(k, v) !in more
    ensures Freq(IndexEvents(log + more), k) == 0
  {
    if more == [] {
      assert log + more == log;
    } else {
      var rest, e := more[..|more| - 1], more[|more| - 1];
      AbsentUntilPut(log, rest, k);
      assert log + more == log + rest + [e];
      LogExtends(log + rest, e);
      Extend(IndexEvents(log + rest), IndexEvent(e));
      assert e in more;
    }
  }

  lemma {:induction false} LogOnlyGrows(calls: seq<Call>, n: nat)
    requires n <= |calls|
    ensures Run(calls[..n]).1 <= Run(calls).1
  {
    if n == |calls| {
      assert calls[..n] == calls;
    } else {
      LogOnlyGrows(calls[..|calls| - 1], n);
      assert calls[..|calls| - 1][..n] == calls[..n];
    }
  }

  lemma {:induction false} PrefixPossible(calls: seq<Call>, n: nat)
    requires PossibleRun(calls) && n <= |calls|
    ensures PossibleRun(calls[..n])
  {
    if n == |calls| {
      assert calls[..n] == calls;
    } else {
      PrefixPossible(calls[..|calls| - 1], n);
      assert calls[..|calls| - 1][..n] == calls[..n];
    }
  }

  lemma StoredMeansInserted(d: Db, log: seq<DbEvent>, k: Key)
    requires Consistent(d, log)
    ensures k in d.records <==> Freq(IndexEvents(log), k) > 0
  {
  }

  /** A key that is gone, evicted or deleted, does not come back without an insertion
      of that key. */
  lemma NoReappearance(calls: seq<Call>, n: nat, k: Key)
    requires PossibleRun(calls) && n <= |calls|
    requires k !in Run(calls[..n]).0.records && k in Run(calls).0.records
    ensures Run(calls[..n]).1 <= Run(calls).1
    ensures exists v :: Put(k, v) in Run(calls).1[|Run(calls[..n]).1|..]
  {
    hide Consistent, Run, PossibleRun, Freq;
    PrefixPossible(calls, n);
    EveryRunConsistent(calls[..n]);
    EveryRunConsistent(calls);
    LogOnlyGrows(calls, n);
    var log, full := Run(calls[..n]).1, Run(calls).1;
    StoredMeansInserted(Run(calls[..n]).0, log, k);
    StoredMeansInserted(Run(calls).0, full, k);
    var more := full[|log|..];
    assert log + more == full;
    if forall v :: Put(k, v) !in more {
      AbsentUntilPut(log, more, k);
    }
  }

  /** The first key an insertion evicts has been read least, once, and longest ago of
      all such keys. */
  lemma FirstEvicted(d: Db, log: seq<DbEvent>, k: Key, v: Value, size: nat, begins: seq<nat>)
    requires Consistent(d, log) && k !in d.records && begins != []
    requires CanEvict(InsertKey(d.index, k, size), begins)
    ensures var victims := Victims(InsertKey(d.index, k, size), begins);
            var h := IndexEvents(log + [Put(k, v)]);
            && victims != []
            && Freq(h, victims[0]) == 1
            && (forall j :: Freq(h, j) == 1 ==> LastAccess(h, victims[0]) <= LastAccess(h, j))
  {
    LogExtends(log, Put(k, v));
    FirstVictim(d.index, IndexEvents(log), k, size);
    FirstOfVictims(InsertKey(d.index, k, size), begins);
  }

  lemma {:induction false} FirstOfVictims(s: Index, begins: seq<nat>)
    requires begins != [] && Class(s.freqList, s.minFreq) != []
    ensures Victims(s, begins) != [] && Victims(s, begins)[0] == Victim(s)
  {
    if |begins| == 1 {
      assert begins[..0] == [];
    } else {
      FirstOfVictims(s, begins[..|begins| - 1]);
    }
  }
}
