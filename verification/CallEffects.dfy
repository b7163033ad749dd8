/** What each database call does, said outright in the fields it changes: to the records
    and their frequencies (include/Database/Database.h:23-123), and to the deadlines
    (include/Database/Decorators/TTLDatabaseDecorator.h:39-198).

    Every lemma here names no function of the specification but the call it is about, so
    each is a check of modules Keyspace and Expiry, not a consequence of their wording.
 */
module CallEffects {
  import opened Bytes
  import opened Lfu
  import opened Values
  import opened Keyspace
  import opened Expiry

  // ------------------------------------------------------------ the records

  /** An insertion is refused, and changes nothing, exactly when the key is stored.
      Otherwise the new record is there with its value unless it was evicted at once, the
      others are as they were unless evicted, and nothing is evicted for nothing. */
  lemma InsertActs(d: Db, k: Key, v: Value, size: nat, begins: seq<nat>)
    ensures var e := Apply(d, Insert(k, v, size, begins));
            && (e.outcome == AlreadyExists <==> k in d.records)
            && (k in d.records ==> e.db == d && e.events == [])
            && (k !in d.records ==>
                  && e.outcome == Ok && e.events != [] && e.events[0] == Put(k, v)
                  && (forall j :: j in e.db.records ==>
                        if j == k then e.db.records[j] == v
                        else j in d.records && e.db.records[j] == d.records[j])
                  && (begins == [] ==> e.db.records == d.records[k := v] && e.events == [Put(k, v)]))
  {
    hide InsertKey, EvictAll;
    if k !in d.records && begins == [] {
      assert d.records[k := v] - {} == d.records[k := v];
      assert KeySet([]) == {} && LostKeys([]) == [];
    }
  }

  /** Each reading above capacity costs one record. */
  lemma EvictionsAreCounted(d: Db, log: seq<DbEvent>, k: Key, v: Value, size: nat, begins: seq<nat>)
    requires Consistent(d, log) && k !in d.records && CanEvict(InsertKey(d.index, k, size), begins)
    ensures |Apply(d, Insert(k, v, size, begins)).db.records| + |begins| == |d.records| + 1
  {
    hide Agrees, CanEvict, EvictAll, Victims;
    var index := InsertKey(d.index, k, size);
    var h := IndexEvents(log) + [Inserted(k)];
    InsertNewKeyAgrees(d.index, IndexEvents(log), k, size);
    EvictAllAgrees(index, h, begins);
    EvictAllTakesVictims(index, h, begins);
    InsertKeyNodes(d.index, k, size);
    var victims := Victims(index, begins);
    DistinctSize(victims);
    var all := d.records[k := v];
    assert KeySet(victims) <= all.Keys;
    assert (all - KeySet(victims)).Keys == all.Keys - KeySet(victims);
    assert all.Keys == d.records.Keys + {k};
  }

  lemma {:induction false} DistinctSize(keys: seq<Key>)
    requires forall i, j :: 0 <= i < j < |keys| ==> keys[i] != keys[j]
    ensures |KeySet(keys)| == |keys|
  {
    if keys != [] {
      var rest, k := keys[..|keys| - 1], keys[|keys| - 1];
      DistinctSize(rest);
      assert KeySet(keys) == KeySet(rest) + {k};
      assert k !in KeySet(rest);
    }
  }

  /** An update overwrites a stored key, and is an insertion for any other. */
  lemma UpdateActs(d: Db, k: Key, v: Value, size: nat, begins: seq<nat>)
    ensures var e := Apply(d, Update(k, v, size, begins));
            && e.outcome == Ok
            && (k in d.records ==> e.db.records == d.records[k := v] && e.events == [Overwrote(k, v)])
            && (k !in d.records ==> e == Apply(d, Insert(k, v, size, begins)))
  {
  }

  /** A lookup returns the stored value or fails; a change in place is a lookup that also
      leaves the new value. */
  lemma GetActs(d: Db, k: Key, v: Value)
    ensures var e := Apply(d, Get(k));
            if k in d.records
            then e.outcome == Found(d.records[k]) && e.db.records == d.records && e.events == [Read(k)]
            else e == Effect(d, [], NotFound)
    ensures var e := Apply(d, Mutate(k, v));
            if k in d.records
            then e.outcome == Found(d.records[k]) && e.db.records == d.records[k := v] && e.events == [Mutated(k, v)]
            else e == Effect(d, [], NotFound)
  {
  }

  /** A deletion takes the key and nothing else, or fails and changes nothing. */
  lemma DeleteActs(d: Db, k: Key, begin: nat)
    ensures var e := Apply(d, Delete(k, begin));
            if k in d.records then e.outcome == Ok && e.db.records == d.records - {k} && e.events == [Dropped(k)]
            else e == Effect(d, [], NotFound)
  {
  }

  /** A lookup, an update of a stored key and a change in place count as one access of
      that key; an insertion starts it at one and keeps the size it was given. */
  lemma AccessesAreCounted(d: Db, log: seq<DbEvent>, c: Call)
    requires Consistent(d, log) && !c.Delete?
    ensures c.key in d.records && !c.Insert? ==>
              && c.key in d.index.cacheNodes
              && Apply(d, c).db.index.cacheNodes
                 == d.index.cacheNodes[c.key := d.index.cacheNodes[c.key].(freq := d.index.cacheNodes[c.key].freq + 1)]
    ensures c.key !in d.records && (c.Insert? || c.Update?) && c.begins == [] ==>
              Apply(d, c).db.index.cacheNodes == d.index.cacheNodes[c.key := CacheNode(1, c.size)]
  {
    hide WellIndexed, Reflects;
    if c.key in d.records && !c.Insert? { TouchSteps(d.index, c.key); }
    if c.key !in d.records && (c.Insert? || c.Update?) && c.begins == [] {
      EvictNone(InsertKey(d.index, c.key, c.size));
    }
  }

  /** Through the TTL decorator an access is counted by every call that finds its record,
      for setTTL, removeTTL and a lookup that is not late as much as for a write of a stored
      key. A write with a TTL counts twice, since the record is looked up again before the
      deadline is set: a new record starts at frequency two, an old one gains two. */
  lemma TimedAccessesAreCounted(s: Store, log: seq<DbEvent>, c: TimedCall)
    requires Consistent(s.db, log) && !c.Sweep? && !c.Remove?
    ensures var t, stored := ApplyTimed(s, c).store.db.index.cacheNodes, c.key in s.db.records;
            var late := c.key in s.ttl && (c.LookUp? || c.Change?) && c.now > s.ttl[c.key];
            var write := c.InsertFor? || c.UpdateFor?;
            && (stored ==> c.key in s.db.index.cacheNodes)
            && (stored && !late && !write && !c.InsertPlain? ==> t == Counted(s.db.index.cacheNodes, c.key, 1))
            && (stored && c.UpdateFor? ==> t == Counted(s.db.index.cacheNodes, c.key, if c.seconds > 0 then 2 else 1))
            && (!stored && write && c.begins == [] ==>
                  t == s.db.index.cacheNodes[c.key := CacheNode(if c.seconds > 0 then 2 else 1, c.size)])
            && (!stored && (c.InsertPlain? || c.UpdatePlain?) && c.begins == [] ==>
                  t == s.db.index.cacheNodes[c.key := CacheNode(1, c.size)])
  {
    hide WellIndexed, Reflects, Touch, InsertKey, EvictAll, RemoveKey, Victims;
    var d, k := s.db, c.key;
    assert k in d.records <==> k in d.index.cacheNodes;
    if k in d.records {
      TouchCounts(d.index, k);
      TouchCounts(Touch(d.index, k), k);
    } else if (c.InsertFor? || c.UpdateFor? || c.InsertPlain? || c.UpdatePlain?) && c.begins == [] {
      NewRecord(d, log, k, c.value, c.size);
    }
  }

  /** `n` more accesses of `k`. */
  ghost function Counted(nodes: map<Key, CacheNode>, k: Key, n: nat): map<Key, CacheNode>
    requires k in nodes
  {
    nodes[k := CacheNode(nodes[k].freq + n, nodes[k].size)]
  }

  lemma TouchCounts(s: Index, k: Key)
    requires WellIndexed(s) && k in s.cacheNodes
    ensures WellIndexed(Touch(s, k)) && Touch(s, k).cacheNodes == Counted(s.cacheNodes, k, 1)
  {
    hide WellIndexed, Touch;
    TouchSteps(s, k);
  }

  lemma NewRecord(d: Db, log: seq<DbEvent>, k: Key, v: Value, size: nat)
    requires Consistent(d, log) && k !in d.records
    ensures var e := InsertNew(d, k, v, size, []).db;
            && k in e.records && e.index.cacheNodes == d.index.cacheNodes[k := CacheNode(1, size)]
            && Touch(e.index, k).cacheNodes == d.index.cacheNodes[k := CacheNode(2, size)]
  {
    hide WellIndexed, Reflects;
    var index := InsertKey(d.index, k, size);
    InsertNewKeyAgrees(d.index, IndexEvents(log), k, size);
    EvictNone(index);
    TouchCounts(index, k);
    assert KeySet([]) == {};
    assert d.records[k := v] - {} == d.records[k := v];
  }

  // ---------------------------------------------------------- the deadlines

  /** setTTL gives a stored record exactly the seconds it was asked for, counted from the
      call, and touches no other deadline; without the record it fails and changes nothing. */
  lemma SetTtlActs(s: Store, k: Key, n: int, now: int)
    ensures var r := ApplyTimed(s, SetTtl(k, n, now));
            if k in s.db.records
            then r.outcome == Ok && r.store.db.records == s.db.records
                 && r.store.ttl == s.ttl[k := now + n * 1_000_000_000]
            else r.outcome == NotFound && r.store == s && r.events == []
    ensures k in s.db.records ==>
              forall t :: k in View(ApplyTimed(s, SetTtl(k, n, now)).store, t) <==> t <= now + n * 1_000_000_000
  {
    hide Touch;
  }

  /** The same for a write with a TTL, if the record is still stored when it is set. */
  lemma WriteForActs(s: Store, c: TimedCall)
    requires (c.InsertFor? || c.UpdateFor?) && c.seconds > 0
    requires ApplyTimed(s, c).outcome == Ok
    ensures var r := ApplyTimed(s, c);
            && c.key in r.store.db.records && r.store.db.records[c.key] == c.value
            && r.store.ttl == s.ttl[c.key := c.now + c.seconds * 1_000_000_000]
            && forall t :: c.key in View(r.store, t) <==> t <= c.now + c.seconds * 1_000_000_000
  {
    hide Touch, InsertKey, EvictAll, Victims;
  }

  /** How a write with a TTL ends: refused only for an insertion of a stored key; failed only
      if the record was evicted before its deadline could be set, and then none is set. */
  lemma WriteForEnds(s: Store, c: TimedCall)
    requires c.InsertFor? || c.UpdateFor?
    ensures var r := ApplyTimed(s, c);
            && (r.outcome == AlreadyExists <==> c.InsertFor? && c.key in s.db.records)
            && (r.outcome == AlreadyExists ==> r.store == s && r.events == [])
            && (r.outcome == NotFound ==>
                  c.seconds > 0 && c.key !in s.db.records && c.key !in r.store.db.records && r.store.ttl == s.ttl)
            && (r.outcome == AlreadyExists || r.outcome == NotFound || r.outcome == Ok)
            && (c.UpdateFor? && c.key in s.db.records ==> r.outcome == Ok)
  {
    hide Touch, InsertKey, EvictAll, Victims;
  }

  /** An update with a TTL of 0 takes the deadline away: what it stored stays in every view. */
  lemma UpdateForNothingActs(s: Store, k: Key, v: Value, size: nat, begins: seq<nat>, now: int)
    ensures var r := ApplyTimed(s, UpdateFor(k, v, 0, size, begins, now));
            && r.outcome == Ok && r.store.ttl == s.ttl - {k}
            && (k in s.db.records ==> r.store.db.records == s.db.records[k := v])
            && (k in r.store.db.records ==>
                  r.store.db.records[k] == v && forall t :: k in View(r.store, t))
  {
    hide Touch, InsertKey, EvictAll, Victims;
  }

  /** An insertion with a TTL of 0, and the plain writes, leave every deadline as it is. */
  lemma PlainWritesKeepDeadlines(s: Store, k: Key, v: Value, size: nat, begins: seq<nat>, now: int)
    ensures var r := ApplyTimed(s, InsertPlain(k, v, size, begins));
            && r.store.ttl == s.ttl && r.outcome == Apply(s.db, Insert(k, v, size, begins)).outcome
            && r.store.db == Apply(s.db, Insert(k, v, size, begins)).db
            && ApplyTimed(s, InsertFor(k, v, 0, size, begins, now)) == r
    ensures var r := ApplyTimed(s, UpdatePlain(k, v, size, begins));
            && r.store.ttl == s.ttl && r.outcome == Ok && r.store.db == Apply(s.db, Update(k, v, size, begins)).db
  {
    hide Touch, InsertKey, EvictAll, Victims;
  }

  /** removeTTL puts a stored record into every view, and touches no other deadline. */
  lemma RemoveTtlActs(s: Store, k: Key)
    ensures var r := ApplyTimed(s, RemoveTtl(k));
            if k in s.db.records
            then && r.outcome == Ok && r.store.db.records == s.db.records && r.store.ttl == s.ttl - {k}
                 && forall t :: k in View(r.store, t)
            else r.outcome == NotFound && r.store == s && r.events == []
  {
    hide Touch;
  }

  /** A deletion forgets the deadline with the record, and no other deadline; of a key that
      is not stored it fails and changes nothing. */
  lemma RemoveActs(s: Store, k: Key, begin: nat)
    ensures var r := ApplyTimed(s, Remove(k, begin));
            if k in s.db.records
            then r.outcome == Ok && r.store.db.records == s.db.records - {k} && r.store.ttl == s.ttl - {k}
            else r.outcome == NotFound && r.store == s && r.events == []
  {
    hide RemoveKey;
  }

  /** A lookup, or a change in place, deletes a record exactly when it is stored and its
      deadline has passed, and then forgets the deadline; it fails for such a record and for
      one that is not stored, and otherwise returns the value. */
  lemma LookUpActs(s: Store, c: TimedCall)
    requires c.LookUp? || c.Change?
    ensures var r, late := ApplyTimed(s, c), c.key in s.ttl && c.now > s.ttl[c.key];
            && (r.outcome == NotFound <==> late || c.key !in s.db.records)
            && (late && c.key in s.db.records ==>
                  r.store.db.records == s.db.records - {c.key} && r.store.ttl == s.ttl - {c.key}
                  && r.events == [Dropped(c.key)])
            && (c.key !in s.db.records ==> r.store == s && r.events == [])
            && (!late && c.key in s.db.records ==>
                  && r.outcome == Found(s.db.records[c.key]) && r.store.ttl == s.ttl
                  && r.store.db.records == if c.LookUp? then s.db.records else s.db.records[c.key := c.value])
  {
    hide RemoveKey, Touch;
  }

  /** A sweep takes exactly the records whose deadline has passed, and forgets exactly the
      deadlines that have passed. */
  lemma SweepActs(s: Store, now: int, sweep: seq<(Key, nat)>)
    requires Sweeps(s, now, sweep)
    ensures var r := ApplyTimed(s, Sweep(now, sweep));
            && (forall k :: k in r.store.db.records <==> k in s.db.records && !(k in s.ttl && now > s.ttl[k]))
            && (forall k :: k in r.store.db.records ==> r.store.db.records[k] == s.db.records[k])
            && (forall k :: k in r.store.ttl <==> k in s.ttl && now <= s.ttl[k])
            && (forall k :: k in r.store.ttl ==> r.store.ttl[k] == s.ttl[k])
  {
    hide DeleteAll;
    DeleteAllRemoves(s.db, sweep);
    var gone := set p | p in sweep :: p.0;
    forall k ensures k in gone <==> k in s.ttl && now > s.ttl[k] {
      if k in s.ttl && now > s.ttl[k] {
        assert k in ExpiredKeys(s, now);
        var i :| 0 <= i < |sweep| && sweep[i].0 == k;
        assert sweep[i] in sweep;
      }
      if p :| p in sweep && p.0 == k {
        var i :| 0 <= i < |sweep| && sweep[i] == p;
        assert sweep[i].0 in ExpiredKeys(s, now);
      }
    }
  }

  /** A key that was deleted, by a deletion, a late lookup or a sweep, starts afresh: a plain
      write that leaves it stored puts it into every view. */
  lemma DeletedStartsAfresh(s: Store, c: TimedCall, k: Key, write: TimedCall)
    requires c.Remove? || c.LookUp? || c.Change? || (c.Sweep? && Sweeps(s, c.now, c.sweep))
    requires k in s.db.records && k !in ApplyTimed(s, c).store.db.records
    requires (write.InsertPlain? || write.UpdatePlain?) && write.key == k
    requires k in ApplyTimed(ApplyTimed(s, c).store, write).store.db.records
    ensures var t := ApplyTimed(ApplyTimed(s, c).store, write).store;
            t.db.records[k] == write.value && forall at :: k in View(t, at)
  {
    hide ApplyTimed, View;
    match c {
      case Remove(j, begin) => RemoveActs(s, j, begin);
      case Sweep(now, sweep) => SweepActs(s, now, sweep);
      case _ => LookUpActs(s, c);
    }
    WrittenWithoutDeadline(ApplyTimed(s, c).store, write);
  }

  lemma WrittenWithoutDeadline(s: Store, write: TimedCall)
    requires (write.InsertPlain? || write.UpdatePlain?) && write.key !in s.ttl && write.key !in s.db.records
    requires write.key in ApplyTimed(s, write).store.db.records
    ensures var t := ApplyTimed(s, write).store;
            t.db.records[write.key] == write.value && forall at :: write.key in View(t, at)
  {
    hide Touch, InsertKey, EvictAll, Victims;
  }
}
