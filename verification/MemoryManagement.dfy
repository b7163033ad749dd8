/** The LFU engine of src/MemoryManager.cpp as it runs: one object whose maps and
    cursor its methods update in place, each method proved against module Lfu. */
module MemoryManagement {
  import opened Bytes
  import opened Lfu

  class MemoryManager {
    const capacityBytes: nat
    var minFreq: nat
    var cacheNodes: map<Key, CacheNode>
    var freqList: map<nat, seq<ListNode>>
    var keyIterators: map<Key, nat>
    var clock: nat
    ghost var history: seq<Event>

    ghost function State(): Index
      reads this
    {
      Index(cacheNodes, freqList, keyIterators, minFreq, clock)
    }

    ghost predicate Valid()
      reads this
    {
      Agrees(State(), history)
    }

    constructor (cacheLimitMB: nat)
      ensures Valid() && history == [] && State() == EMPTY
      ensures capacityBytes == cacheLimitMB * 1024 * 1024 % TWO64
    {
      capacityBytes := cacheLimitMB * 1024 * 1024 % TWO64;
      minFreq := 0;
      cacheNodes, freqList, keyIterators, clock := map[], map[], map[], 0;
      history := [];
    }

    method InsertKey(id: Key, size: nat)
      requires Valid()
      modifies this
      ensures State() == Lfu.InsertKey(old(State()), id, size)
      ensures history == old(history) + [Inserted(id)]
      ensures Valid() <==> id !in old(cacheNodes)
    {
      hide Agrees;
      InsertKeyAgrees(State(), history, id, size);
      cacheNodes := cacheNodes[id := CacheNode(1, size)];
      freqList := freqList[1 := Class(freqList, 1) + [ListNode(clock, id)]];
      keyIterators := keyIterators[id := clock];
      clock := clock + 1;
      minFreq := 1;
      history := history + [Inserted(id)];
    }

    method Touch(id: Key)
      requires Valid()
      modifies this
      ensures Valid()
      ensures State() == Lfu.Touch(old(State()), id)
      ensures id !in old(cacheNodes) ==> State() == old(State())
      ensures history == if id in old(cacheNodes) then old(history) + [Touched(id)] else old(history)
    {
      hide WellIndexed, Reflects, Position, Unlink;
      if id !in cacheNodes {
        return;
      }
      TouchAgrees(State(), history, id);
      var oldFreq := cacheNodes[id].freq;
      var newFreq := oldFreq + 1;
      KeyIsLinked(State(), id);
      cacheNodes := cacheNodes[id := cacheNodes[id].(freq := newFreq)];
      var it := keyIterators[id];
      freqList := freqList[oldFreq := Unlink(freqList[oldFreq], it)];
      if freqList[oldFreq] == [] {
        freqList := freqList - {oldFreq};
        if minFreq == oldFreq {
          minFreq := newFreq;
        }
      }
      assert freqList == Shrink(old(freqList), oldFreq, Unlink(old(freqList)[oldFreq], it));
      freqList := freqList[newFreq := Class(freqList, newFreq) + [ListNode(clock, id)]];
      keyIterators := keyIterators[id := clock];
      clock := clock + 1;
      history := history + [Touched(id)];
    }

    /** `begin` reports which class `freqList.begin()` named when it was read. */
    method RemoveKey(id: Key) returns (begin: nat)
      requires Valid()
      modifies this
      ensures Valid()
      ensures State() == Lfu.RemoveKey(old(State()), id, begin)
      ensures id !in old(cacheNodes) ==> State() == old(State())
      ensures PicksOccupied(begin, State())
      ensures history == if id in old(cacheNodes) then old(history) + [Removed(id)] else old(history)
    {
      hide WellIndexed, Reflects, Unlink;
      begin := 0;
      if id !in cacheNodes {
        if freqList != map[] { begin :| begin in freqList; }
        return;
      }
      ghost var before := State();
      var freq := cacheNodes[id].freq;
      KeyIsLinked(State(), id);
      var it := keyIterators[id];
      freqList := freqList[freq := Unlink(freqList[freq], it)];
      if freqList[freq] == [] {
        freqList := freqList - {freq};
      }
      cacheNodes := cacheNodes - {id};
      keyIterators := keyIterators - {id};
      if freqList != map[] {
        begin :| begin in freqList;
      }
      if minFreq == freq && freq !in freqList {
        minFreq := if freqList == map[] then 0 else begin;
      }
      clock := clock + 1;
      assert freqList == Lfu.RemoveKey(before, id, begin).freqList;
      RemoveKeyAgrees(before, history, id, begin);
      history := history + [Removed(id)];
    }

    /** One round of the eviction loop, on the indexes alone. */
    method PopVictim() returns (evictKey: Key)
      requires Class(freqList, minFreq) != []
      modifies `minFreq, `cacheNodes, `freqList, `keyIterators, `clock
      ensures evictKey == Victim(old(State()))
      ensures State() == EvictFront(old(State()), minFreq)
      ensures PicksOccupied(minFreq, State())
    {
      var keysList := Class(freqList, minFreq);
      evictKey := keysList[0].key;
      keysList := keysList[1..];
      freqList := Shrink(freqList, minFreq, keysList);
      if evictKey in cacheNodes {
        cacheNodes := cacheNodes - {evictKey};
        keyIterators := keyIterators - {evictKey};
      }
      if freqList == map[] {
        minFreq := 0;
      } else {
        var begin :| begin in freqList;
        minFreq := begin;
      }
      clock := clock + 1;
    }

    /** `readings(i)` is the value the usage counter has at the i-th loop test. */
    method EvictIfNeeded<V>(records: map<Key, V>, readings: nat -> nat)
      returns (records': map<Key, V>, ghost begins: seq<nat>)
      requires Valid()
      modifies this
      ensures Valid() && CanEvict(old(State()), begins)
      ensures State() == EvictAll(old(State()), begins)
      ensures history == old(history) + Evictions(Victims(old(State()), begins))
      ensures records' == records - KeySet(Victims(old(State()), begins))
      ensures OverCapacity(readings, |begins|, capacityBytes)
      ensures forall i: nat :: i < |begins| ==> readings(i) > capacityBytes
      ensures readings(|begins|) <= capacityBytes || cacheNodes == map[]
    {
      hide Agrees, CanEvict, EvictAll, Victims, KeySet;
      ghost var s, h := State(), history;
      EvictNone(s);
      records' := records;
      begins := [];
      var round := 0;
      while readings(round) > capacityBytes && freqList != map[]
        invariant Agrees(State(), history) && CanEvict(s, begins) && |begins| == round
        invariant State() == EvictAll(s, begins) && history == h + Evictions(Victims(s, begins))
        invariant records' == records - KeySet(Victims(s, begins))
        invariant OverCapacity(readings, round, capacityBytes)
        decreases |cacheNodes|
      {
        ghost var before := State();
        AgreeingFront(before, history);
        if Class(freqList, minFreq) == [] {
          break;
        }
        var evictKey := PopVictim();
        MinusOneMore(records, KeySet(Victims(s, begins)), evictKey);
        records' := records' - {evictKey};
        round := round + 1;
        EvictOneMore(s, h, begins, minFreq);
        begins := begins + [minFreq];
        history := h + Evictions(Victims(s, begins));
      }
      AgreeingFront(State(), history);
    }
  }

  /** The first `n` readings of the usage counter all exceed the capacity. */
  ghost predicate OverCapacity(readings: nat -> nat, n: nat, capacity: nat) {
    forall i: nat :: i < n ==> readings(i) > capacity
  }

  /** A call that evicted as `begins` reports did so only for readings above capacity, and
      stopped within capacity or with nothing left. */
  ghost predicate EvictsAsRead<V>(readings: nat -> nat, begins: seq<nat>, capacity: nat, left: map<Key, V>) {
    OverCapacity(readings, |begins|, capacity) && (readings(|begins|) <= capacity || left == map[])
  }

  lemma MinusOneMore<V>(m: map<Key, V>, gone: set<Key>, k: Key)
    ensures m - gone - {k} == m - (gone + {k})
  {
  }
}
