/** The LFU engine of src/MemoryManager.cpp.

    Three redundant indexes (key to frequency, frequency to ordered list, key to
    list iterator) and a cursor `minFreq` are updated in place.  This module is the
    value-level specification: one function a step, the history of the run as the
    simple reference, and the proof that the indexes are always
    what the history says.  Module MemoryManagement has the imperative engine.
 */
module Lfu {
  import opened Bytes

  datatype CacheNode = CacheNode(freq: nat, size: nat)

  /** A node of a `std::list`: its address, which is what an iterator holds, and
      its element.  Addresses are handed out by a counter, so no two are equal. */
  datatype ListNode = ListNode(addr: nat, key: Key)

  datatype Index = Index(
    cacheNodes: map<Key, CacheNode>,
    freqList: map<nat, seq<ListNode>>,
    keyIterators: map<Key, nat>,
    minFreq: nat,
    clock: nat)

  const EMPTY: Index := Index(map[], map[], map[], 0, 0)

  // ---------------------------------------------------------------- lists

  /** The position of the node at address `a`; `|l|` when there is none. */
  function Position(l: seq<ListNode>, a: nat): (p: nat)
    ensures p <= |l|
    ensures p < |l| ==> l[p].addr == a
    ensures forall i :: 0 <= i < p ==> l[i].addr != a
  {
    if l == [] || l[0].addr == a then 0 else 1 + Position(l[1..], a)
  }

  /** `list::erase(it)`.  Erasing through an iterator of another list is undefined
      in C++; callers show that it does not happen. */
  function Unlink(l: seq<ListNode>, a: nat): seq<ListNode> {
    var p := Position(l, a);
    if p < |l| then l[..p] + l[p + 1..] else l
  }

  /** `freqList[f]`: `operator[]` yields an empty list for an absent class. */
  function Class(lists: map<nat, seq<ListNode>>, f: nat): seq<ListNode> {
    if f in lists then lists[f] else []
  }

  /** Store list `l` for class `f`, dropping the class when the list is empty. */
  function Shrink(lists: map<nat, seq<ListNode>>, f: nat, l: seq<ListNode>): map<nat, seq<ListNode>> {
    if l == [] then lists - {f} else lists[f := l]
  }

  // ---------------------------------------------------------------- steps

  function InsertKey(s: Index, id: Key, size: nat): Index {
    Index(s.cacheNodes[id := CacheNode(1, size)],
          s.freqList[1 := Class(s.freqList, 1) + [ListNode(s.clock, id)]],
          s.keyIterators[id := s.clock],
          1,
          s.clock + 1)
  }

  /** Unlink the node at `addr` from class `f` and append `m` to the next class. */
  function MoveUp(lists: map<nat, seq<ListNode>>, f: nat, addr: nat, m: ListNode): map<nat, seq<ListNode>> {
    var mid := Shrink(lists, f, Unlink(Class(lists, f), addr));
    mid[f + 1 := Class(mid, f + 1) + [m]]
  }

  function Touch(s: Index, id: Key): Index {
    if id !in s.cacheNodes || id !in s.keyIterators then s
    else
      var f := s.cacheNodes[id].freq;
      var emptied := Unlink(Class(s.freqList, f), s.keyIterators[id]) == [];
      Index(s.cacheNodes[id := s.cacheNodes[id].(freq := f + 1)],
            MoveUp(s.freqList, f, s.keyIterators[id], ListNode(s.clock, id)),
            s.keyIterators[id := s.clock],
            if emptied && s.minFreq == f then f + 1 else s.minFreq,
            s.clock + 1)
  }

  /** `begin` is what `freqList.begin()->first` yields when it is read. */
  function RemoveKey(s: Index, id: Key, begin: nat): Index {
    if id !in s.cacheNodes || id !in s.keyIterators then s
    else
      var f := s.cacheNodes[id].freq;
      var lists := Shrink(s.freqList, f, Unlink(Class(s.freqList, f), s.keyIterators[id]));
      Index(s.cacheNodes - {id},
            lists,
            s.keyIterators - {id},
            if s.minFreq == f && f !in lists then if lists == map[] then 0 else begin else s.minFreq,
            s.clock + 1)
  }

  /** The key the next round of the eviction loop takes. */
  function Victim(s: Index): Key
    requires Class(s.freqList, s.minFreq) != []
  {
    Class(s.freqList, s.minFreq)[0].key
  }

  /** One round of the eviction loop. */
  function EvictFront(s: Index, begin: nat): Index {
    var l := Class(s.freqList, s.minFreq);
    if l == [] then s
    else
      var lists := Shrink(s.freqList, s.minFreq, l[1..]);
      Index(s.cacheNodes - {l[0].key},
            lists,
            if l[0].key in s.cacheNodes then s.keyIterators - {l[0].key} else s.keyIterators,
            if lists == map[] then 0 else begin,
            s.clock + 1)
  }

  // -------------------------------------------------------------- history

  datatype Event =
    | Inserted(key: Key)
    | Touched(key: Key)
    | Removed(key: Key)
    | Evicted(key: Key)

  /** Accesses of `k` since it was last inserted, the insertion included; 0 when
      `k` is not stored. */
  function Freq(h: seq<Event>, k: Key): nat {
    if h == [] then 0
    else
      var before := Freq(h[..|h| - 1], k);
      var e := h[|h| - 1];
      if e.key != k then before
      else match e
           case Inserted(_) => 1
           case Touched(_) => if before == 0 then 0 else before + 1
           case Removed(_) => 0
           case Evicted(_) => 0
  }

  /** The time of the last insertion or access of `k`. */
  function LastAccess(h: seq<Event>, k: Key): nat {
    if h == [] then 0
    else
      var e := h[|h| - 1];
      if e.key == k && (e.Inserted? || e.Touched?) then |h| - 1 else LastAccess(h[..|h| - 1], k)
  }

  /** Node `n` is in the list of class `f`. */
  ghost predicate Linked(lists: map<nat, seq<ListNode>>, f: nat, n: ListNode) {
    f in lists && n in lists[f]
  }

  /** List nodes appear in the order of their allocation, all before `clock`. */
  ghost predicate Ascending(l: seq<ListNode>, clock: nat) {
    && (forall i :: 0 <= i < |l| ==> l[i].addr < clock)
    && (forall i, j :: 0 <= i < j < |l| ==> l[i].addr < l[j].addr)
  }

  /** Every class is a frequency, occupied, and in allocation order. */
  ghost predicate Shaped(lists: map<nat, seq<ListNode>>, clock: nat) {
    forall f :: f in lists ==> f >= 1 && lists[f] != [] && Ascending(lists[f], clock)
  }

  /** A key is in the list of its own frequency, where its iterator points, and
      nowhere else. */
  ghost predicate Indexed(nodes: map<Key, CacheNode>, iters: map<Key, nat>, lists: map<nat, seq<ListNode>>) {
    && nodes.Keys == iters.Keys
    && (forall k :: k in nodes ==> Linked(lists, nodes[k].freq, ListNode(iters[k], k)))
    && (forall f, n :: Linked(lists, f, n) ==>
          n.key in nodes && n.key in iters && nodes[n.key].freq == f && iters[n.key] == n.addr)
  }

  /** `minFreq` names an occupied class, or is 0 when there are none. */
  ghost predicate Aimed(minFreq: nat, lists: map<nat, seq<ListNode>>) {
    if lists == map[] then minFreq == 0 else minFreq in lists
  }

  /** The four structures agree with each other. */
  ghost predicate WellIndexed(s: Index) {
    && Indexed(s.cacheNodes, s.keyIterators, s.freqList)
    && Shaped(s.freqList, s.clock)
    && Aimed(s.minFreq, s.freqList)
  }

  /** The indexes hold exactly what the history says. */
  ghost predicate Reflects(s: Index, h: seq<Event>) {
    && s.clock == |h|
    && (forall k :: k in s.cacheNodes <==> Freq(h, k) > 0)
    && (forall k :: k in s.cacheNodes && k in s.keyIterators ==>
          s.cacheNodes[k].freq == Freq(h, k) && s.keyIterators[k] == LastAccess(h, k))
  }

  ghost predicate Agrees(s: Index, h: seq<Event>) {
    WellIndexed(s) && Reflects(s, h)
  }

  // ------------------------------------------------- every step keeps it

  lemma UnlinkKeepsOrder(l: seq<ListNode>, n: ListNode, clock: nat)
    requires Ascending(l, clock) && n in l
    ensures Ascending(Unlink(l, n.addr), clock)
    ensures forall m :: m in Unlink(l, n.addr) <==> m in l && m != n
  {
    var p, rest := Position(l, n.addr), Unlink(l, n.addr);
    var i :| 0 <= i < |l| && l[i] == n;
    assert p == i;
    assert |rest| == |l| - 1 && forall j :: 0 <= j < |rest| ==> rest[j] == l[if j < p then j else j + 1];
    forall m | m in l && m != n
      ensures m in rest
    {
      var j :| 0 <= j < |l| && l[j] == m;
      assert rest[if j < p then j else j - 1] == m;
    }
  }

  lemma Extend(h: seq<Event>, e: Event)
    ensures forall k :: k != e.key ==> Freq(h + [e], k) == Freq(h, k) && LastAccess(h + [e], k) == LastAccess(h, k)
    ensures (h + [e])[..|h|] == h
  {
    assert (h + [e])[..|h|] == h;
  }

  /** What appending a new node to a class does to the lists. */
  lemma AppendToClass(lists: map<nat, seq<ListNode>>, f: nat, n: ListNode)
    requires Shaped(lists, n.addr) && f >= 1
    ensures Shaped(lists[f := Class(lists, f) + [n]], n.addr + 1)
    ensures forall g, m :: Linked(lists[f := Class(lists, f) + [n]], g, m) <==>
              Linked(lists, g, m) || (g == f && m == n)
  {
    var l := Class(lists, f);
    var after := lists[f := l + [n]];
    assert (l + [n])[|l|] == n;
    forall g, m
      ensures Linked(after, g, m) <==> Linked(lists, g, m) || (g == f && m == n)
    {
      if g == f { assert m in l + [n] <==> m in l || m == n; }
    }
  }

  /** `rest` is list `l` without its node `n`. */
  ghost predicate Without(l: seq<ListNode>, n: ListNode, rest: seq<ListNode>, clock: nat) {
    Ascending(rest, clock) && forall m :: m in rest <==> m in l && m != n
  }

  /** What removing a node from its class does to the lists. */
  lemma RemoveFromClass(lists: map<nat, seq<ListNode>>, f: nat, n: ListNode, rest: seq<ListNode>, clock: nat)
    requires Shaped(lists, clock) && Linked(lists, f, n) && Without(lists[f], n, rest, clock)
    ensures Shaped(Shrink(lists, f, rest), clock)
    ensures forall g, m :: Linked(Shrink(lists, f, rest), g, m) <==> Linked(lists, g, m) && !(g == f && m == n)
  {
  }

  /** What moving a key from its class to the next one does to the lists. */
  lemma MoveUpLinks(lists: map<nat, seq<ListNode>>, f: nat, n: ListNode, m: ListNode)
    requires Shaped(lists, m.addr) && Linked(lists, f, n)
    ensures Shaped(MoveUp(lists, f, n.addr, m), m.addr + 1)
    ensures forall g, x :: Linked(MoveUp(lists, f, n.addr, m), g, x) <==>
              (Linked(lists, g, x) && !(g == f && x == n)) || (g == f + 1 && x == m)
  {
    hide Unlink, Ascending;
    var rest := Unlink(lists[f], n.addr);
    assert f >= 1 && Ascending(lists[f], m.addr);
    UnlinkKeepsOrder(lists[f], n, m.addr);
    RemoveFromClass(lists, f, n, rest, m.addr);
    AppendToClass(Shrink(lists, f, rest), f + 1, m);
  }

  /** Moving or adding a key in all three maps at once keeps them in step. */
  lemma IndexedAfterPut(nodes: map<Key, CacheNode>, iters: map<Key, nat>, lists: map<nat, seq<ListNode>>,
                        k: Key, node: CacheNode, addr: nat, after: map<nat, seq<ListNode>>)
    requires Indexed(nodes, iters, lists)
    requires forall g, m :: Linked(after, g, m) <==>
               (Linked(lists, g, m) && m.key != k) || (g == node.freq && m == ListNode(addr, k))
    ensures Indexed(nodes[k := node], iters[k := addr], after)
  {
    var nodes', iters' := nodes[k := node], iters[k := addr];
    forall j | j in nodes'
      ensures Linked(after, nodes'[j].freq, ListNode(iters'[j], j))
    {
      if j != k { assert Linked(lists, nodes[j].freq, ListNode(iters[j], j)); }
    }
  }

  lemma IndexedAfterDrop(nodes: map<Key, CacheNode>, iters: map<Key, nat>, lists: map<nat, seq<ListNode>>,
                         k: Key, after: map<nat, seq<ListNode>>)
    requires Indexed(nodes, iters, lists)
    requires forall g, m :: Linked(after, g, m) <==> Linked(lists, g, m) && m.key != k
    ensures Indexed(nodes - {k}, iters - {k}, after)
  {
    var nodes', iters' := nodes - {k}, iters - {k};
    forall j | j in nodes'
      ensures Linked(after, nodes'[j].freq, ListNode(iters'[j], j))
    {
      assert Linked(lists, nodes[j].freq, ListNode(iters[j], j));
    }
  }

  lemma AppendReflects(s: Index, h: seq<Event>, t: Index, e: Event, size: nat)
    requires Reflects(s, h) && s.cacheNodes.Keys == s.keyIterators.Keys
    requires e.Inserted? || (e.Touched? && e.key in s.cacheNodes)
    requires t.clock == s.clock + 1
    requires t.keyIterators == s.keyIterators[e.key := s.clock]
    requires var freq := if e.Inserted? then 1 else s.cacheNodes[e.key].freq + 1;
             t.cacheNodes == s.cacheNodes[e.key := CacheNode(freq, size)]
    ensures Reflects(t, h + [e])
  {
    Extend(h, e);
  }

  lemma DropReflects(s: Index, h: seq<Event>, t: Index, e: Event)
    requires Reflects(s, h) && s.cacheNodes.Keys == s.keyIterators.Keys
    requires e.Removed? || e.Evicted?
    requires t.clock == s.clock + 1
    requires t.keyIterators == s.keyIterators - {e.key} && t.cacheNodes == s.cacheNodes - {e.key}
    ensures Reflects(t, h + [e])
  {
    Extend(h, e);
  }

  lemma InsertKeyIndexes(s: Index, id: Key, size: nat)
    requires WellIndexed(s) && id !in s.cacheNodes
    ensures WellIndexed(InsertKey(s, id, size)) && AimsAtMinimum(InsertKey(s, id, size))
  {
    var t := InsertKey(s, id, size);
    AppendToClass(s.freqList, 1, ListNode(s.clock, id));
    IndexedAfterPut(s.cacheNodes, s.keyIterators, s.freqList, id, CacheNode(1, size), s.clock, t.freqList);
  }

  lemma InsertNewKeyAgrees(s: Index, h: seq<Event>, id: Key, size: nat)
    requires Agrees(s, h) && id !in s.cacheNodes
    ensures Agrees(InsertKey(s, id, size), h + [Inserted(id)])
  {
    InsertKeyIndexes(s, id, size);
    AppendReflects(s, h, InsertKey(s, id, size), Inserted(id), size);
  }

  /** Inserting keeps the agreement exactly when the key is not tracked yet, which
      is the guard of its only caller. */
  lemma InsertKeyAgrees(s: Index, h: seq<Event>, id: Key, size: nat)
    requires Agrees(s, h)
    ensures Agrees(InsertKey(s, id, size), h + [Inserted(id)]) <==> id !in s.cacheNodes
  {
    if id in s.cacheNodes {
      var t := InsertKey(s, id, size);
      var stale := ListNode(s.keyIterators[id], id);
      assert Linked(s.freqList, s.cacheNodes[id].freq, stale);
      AppendToClass(s.freqList, 1, ListNode(s.clock, id));
      assert Linked(t.freqList, s.cacheNodes[id].freq, stale);
    } else {
      InsertNewKeyAgrees(s, h, id, size);
    }
  }

  /** What a touch does to the lists. */
  lemma TouchMoves(s: Index, id: Key)
    requires WellIndexed(s) && id in s.cacheNodes
    ensures var t, f := Touch(s, id), s.cacheNodes[id].freq;
            && Shaped(t.freqList, t.clock)
            && (forall g, m :: Linked(t.freqList, g, m) <==>
                  (Linked(s.freqList, g, m) && m.key != id) || (g == f + 1 && m == ListNode(s.clock, id)))
  {
    var f := s.cacheNodes[id].freq;
    var n := ListNode(s.keyIterators[id], id);
    assert Linked(s.freqList, f, n);
    MoveUpLinks(s.freqList, f, n, ListNode(s.clock, id));
  }

  lemma TouchAims(s: Index, id: Key)
    requires WellIndexed(s) && id in s.cacheNodes
    ensures Aimed(Touch(s, id).minFreq, Touch(s, id).freqList)
  {
    hide Unlink, Indexed, Shaped;
    KeyIsLinked(s, id);
    var f := s.cacheNodes[id].freq;
    var t := Touch(s, id);
    assert f + 1 in t.freqList;
    assert s.minFreq != f ==> s.minFreq in t.freqList;
  }

  lemma TouchIndexes(s: Index, id: Key)
    requires WellIndexed(s) && id in s.cacheNodes
    ensures WellIndexed(Touch(s, id))
  {
    hide Linked, Shaped, Aimed, MoveUp, Unlink;
    var node := CacheNode(s.cacheNodes[id].freq + 1, s.cacheNodes[id].size);
    TouchMoves(s, id);
    TouchAims(s, id);
    IndexedAfterPut(s.cacheNodes, s.keyIterators, s.freqList, id, node, s.clock, Touch(s, id).freqList);
  }

  lemma SameKeys(s: Index)
    requires WellIndexed(s)
    ensures s.cacheNodes.Keys == s.keyIterators.Keys
  {
  }

  lemma TouchAgrees(s: Index, h: seq<Event>, id: Key)
    requires Agrees(s, h) && id in s.cacheNodes
    ensures Agrees(Touch(s, id), h + [Touched(id)])
  {
    hide WellIndexed, Reflects, MoveUp, Unlink;
    KeyIsLinked(s, id);
    SameKeys(s);
    TouchIndexes(s, id);
    AppendReflects(s, h, Touch(s, id), Touched(id), s.cacheNodes[id].size);
  }

  /** `begin` is a possible value of `freqList.begin()->first` in `s`. */
  ghost predicate PicksOccupied(begin: nat, s: Index) {
    s.freqList != map[] ==> begin in s.freqList
  }

  /** What a removal does to the lists. */
  lemma RemoveKeyMoves(s: Index, id: Key, begin: nat)
    requires WellIndexed(s) && id in s.cacheNodes
    ensures var t := RemoveKey(s, id, begin);
            && Shaped(t.freqList, t.clock)
            && (forall g, m :: Linked(t.freqList, g, m) <==> Linked(s.freqList, g, m) && m.key != id)
  {
    hide Unlink, Shrink;
    var f := s.cacheNodes[id].freq;
    KeyIsLinked(s, id);
    var n := ListNode(s.keyIterators[id], id);
    UnlinkKeepsOrder(s.freqList[f], n, s.clock);
    RemoveFromClass(s.freqList, f, n, Unlink(s.freqList[f], n.addr), s.clock);
    ShapedLater(RemoveKey(s, id, begin).freqList, s.clock);
    assert Class(s.freqList, f) == s.freqList[f];
    forall g, m | Linked(s.freqList, g, m) && m.key == id ensures g == f && m == n { }
  }

  lemma ShapedLater(lists: map<nat, seq<ListNode>>, clock: nat)
    requires Shaped(lists, clock)
    ensures Shaped(lists, clock + 1)
  {
  }

  lemma RemoveKeyAims(s: Index, id: Key, begin: nat)
    requires WellIndexed(s) && id in s.cacheNodes
    requires PicksOccupied(begin, RemoveKey(s, id, begin))
    ensures Aimed(RemoveKey(s, id, begin).minFreq, RemoveKey(s, id, begin).freqList)
  {
    hide Unlink, Indexed, Shaped;
    KeyIsLinked(s, id);
    var f, t := s.cacheNodes[id].freq, RemoveKey(s, id, begin);
    assert s.minFreq != f ==> s.minFreq in t.freqList;
    assert s.minFreq in t.freqList ==> t.freqList != map[];
  }

  lemma RemoveKeyIndexes(s: Index, id: Key, begin: nat)
    requires WellIndexed(s) && id in s.cacheNodes
    requires PicksOccupied(begin, RemoveKey(s, id, begin))
    ensures WellIndexed(RemoveKey(s, id, begin))
  {
    hide Linked, Shaped, Aimed, Unlink, Shrink;
    RemoveKeyMoves(s, id, begin);
    RemoveKeyAims(s, id, begin);
    IndexedAfterDrop(s.cacheNodes, s.keyIterators, s.freqList, id, RemoveKey(s, id, begin).freqList);
  }

  /** Removing the only key leaves nothing. */
  lemma LastKeyGone(s: Index, id: Key, begin: nat)
    requires WellIndexed(s) && s.cacheNodes.Keys == {id}
    ensures var t := RemoveKey(s, id, begin);
            t.cacheNodes == map[] && t.freqList == map[] && WellIndexed(t)
  {
    hide Unlink, Shrink;
    var t := RemoveKey(s, id, begin);
    assert id in s.cacheNodes;
    RemoveKeyMoves(s, id, begin);
    if f :| f in t.freqList {
      OccupiedIsLinked(t.freqList, t.clock, f);
    }
    RemoveKeyIndexes(s, id, begin);
  }

  lemma RemoveKeyAgrees(s: Index, h: seq<Event>, id: Key, begin: nat)
    requires Agrees(s, h) && id in s.cacheNodes
    requires PicksOccupied(begin, RemoveKey(s, id, begin))
    ensures Agrees(RemoveKey(s, id, begin), h + [Removed(id)])
  {
    hide WellIndexed, Reflects, Unlink, Shrink;
    SameKeys(s);
    RemoveKeyIndexes(s, id, begin);
    DropReflects(s, h, RemoveKey(s, id, begin), Removed(id));
  }

  lemma KeyIsLinked(s: Index, k: Key)
    requires WellIndexed(s) && k in s.cacheNodes
    ensures k in s.keyIterators && s.cacheNodes[k].freq in s.freqList
    ensures Linked(s.freqList, s.cacheNodes[k].freq, ListNode(s.keyIterators[k], k))
  {
  }

  lemma OccupiedIsLinked(lists: map<nat, seq<ListNode>>, clock: nat, f: nat)
    requires Shaped(lists, clock) && f in lists
    ensures lists[f] != [] && Linked(lists, f, lists[f][0])
  {
  }

  lemma NoClassNoKey(s: Index)
    requires WellIndexed(s) && s.freqList == map[]
    ensures s.cacheNodes == map[]
  {
    if k :| k in s.cacheNodes { KeyIsLinked(s, k); }
  }

  lemma AgreeingFront(s: Index, h: seq<Event>)
    requires Agrees(s, h)
    ensures s.freqList == map[] ==> s.cacheNodes == map[]
    ensures s.freqList != map[] ==>
              && s.minFreq in s.freqList && s.freqList[s.minFreq] != []
              && s.freqList[s.minFreq][0].key in s.cacheNodes
  {
    if s.freqList == map[] { NoClassNoKey(s); } else { FrontIsLinked(s); }
  }

  lemma FrontIsLinked(s: Index)
    requires WellIndexed(s) && s.freqList != map[]
    ensures s.minFreq in s.freqList && s.freqList[s.minFreq] != []
    ensures var n := s.freqList[s.minFreq][0];
            && Linked(s.freqList, s.minFreq, n) && Unlink(s.freqList[s.minFreq], n.addr) == s.freqList[s.minFreq][1..]
            && n.key in s.cacheNodes && s.cacheNodes[n.key].freq == s.minFreq && s.keyIterators[n.key] == n.addr
  {
    assert Linked(s.freqList, s.minFreq, s.freqList[s.minFreq][0]);
  }

  /** What a round of eviction does to the lists. */
  lemma EvictFrontMoves(s: Index, begin: nat)
    requires WellIndexed(s) && s.freqList != map[]
    ensures Class(s.freqList, s.minFreq) != [] && Victim(s) in s.cacheNodes
    ensures var t := EvictFront(s, begin);
            && Shaped(t.freqList, t.clock)
            && (forall g, m :: Linked(t.freqList, g, m) <==> Linked(s.freqList, g, m) && m.key != Victim(s))
  {
    FrontIsLinked(s);
    var n := s.freqList[s.minFreq][0];
    UnlinkKeepsOrder(s.freqList[s.minFreq], n, s.clock);
    RemoveFromClass(s.freqList, s.minFreq, n, s.freqList[s.minFreq][1..], s.clock);
  }

  lemma EvictFrontAgrees(s: Index, h: seq<Event>, begin: nat)
    requires Agrees(s, h) && s.freqList != map[]
    requires PicksOccupied(begin, EvictFront(s, begin))
    ensures Class(s.freqList, s.minFreq) != [] && Victim(s) in s.cacheNodes
    ensures Agrees(EvictFront(s, begin), h + [Evicted(Victim(s))])
  {
    EvictFrontMoves(s, begin);
    IndexedAfterDrop(s.cacheNodes, s.keyIterators, s.freqList, Victim(s), EvictFront(s, begin).freqList);
    DropReflects(s, h, EvictFront(s, begin), Evicted(Victim(s)));
  }

  // ------------------------------------------------------- eviction runs

  /** The index after one round of eviction for each element of `begins`, the
      value `freqList.begin()->first` had at the end of that round. */
  function EvictAll(s: Index, begins: seq<nat>): Index {
    if begins == [] then s else EvictFront(EvictAll(s, begins[..|begins| - 1]), begins[|begins| - 1])
  }

  /** The evicted keys, in order. */
  function Victims(s: Index, begins: seq<nat>): seq<Key> {
    if begins == [] then []
    else
      var before := EvictAll(s, begins[..|begins| - 1]);
      Victims(s, begins[..|begins| - 1]) +
      if Class(before.freqList, before.minFreq) == [] then [] else [Victim(before)]
  }

  /** Every round of the run starts from a non-empty index and reads an occupied class. */
  ghost predicate CanEvict(s: Index, begins: seq<nat>) {
    begins == [] ||
    (var before, begin := EvictAll(s, begins[..|begins| - 1]), begins[|begins| - 1];
     && CanEvict(s, begins[..|begins| - 1])
     && before.freqList != map[]
     && PicksOccupied(begin, EvictFront(before, begin)))
  }

  lemma EvictNone(s: Index)
    ensures CanEvict(s, []) && EvictAll(s, []) == s && Victims(s, []) == [] && Evictions([]) == [] && KeySet([]) == {}
  {
  }

  /** A run of one round. */
  lemma EvictOnce(s: Index, begin: nat)
    requires s.freqList != map[] && Class(s.freqList, s.minFreq) != [] && PicksOccupied(begin, EvictFront(s, begin))
    ensures CanEvict(s, [begin]) && EvictAll(s, [begin]) == EvictFront(s, begin) && Victims(s, [begin]) == [Victim(s)]
  {
    hide EvictFront, Class, PicksOccupied;
    assert [begin][..0] == [];
    EvictNone(s);
  }

  function Evictions(keys: seq<Key>): seq<Event> {
    seq(|keys|, i requires 0 <= i < |keys| => Evicted(keys[i]))
  }

  function KeySet(keys: seq<Key>): set<Key> {
    set k | k in keys
  }

  /** What one more round adds to a run of evictions. */
  lemma EvictOneMore(s: Index, h: seq<Event>, begins: seq<nat>, begin: nat)
    requires Agrees(s, h) && CanEvict(s, begins)
    requires EvictAll(s, begins).freqList != map[]
    requires PicksOccupied(begin, EvictFront(EvictAll(s, begins), begin))
    ensures Class(EvictAll(s, begins).freqList, EvictAll(s, begins).minFreq) != []
    ensures CanEvict(s, begins + [begin])
    ensures EvictAll(s, begins + [begin]) == EvictFront(EvictAll(s, begins), begin)
    ensures |Victims(s, begins + [begin])| == |begins| + 1
    ensures Agrees(EvictAll(s, begins + [begin]), h + Evictions(Victims(s, begins + [begin])))
    ensures KeySet(Victims(s, begins + [begin])) == KeySet(Victims(s, begins)) + {Victim(EvictAll(s, begins))}
    ensures |EvictAll(s, begins + [begin]).cacheNodes| < |EvictAll(s, begins).cacheNodes|
  {
    hide Agrees, EvictFront;
    assert (begins + [begin])[..|begins|] == begins;
    EvictAllAgrees(s, h, begins);
    EvictAllAgrees(s, h, begins + [begin]);
    var before := EvictAll(s, begins);
    EvictFrontAgrees(before, h + Evictions(Victims(s, begins)), begin);
    assert Victims(s, begins + [begin]) == Victims(s, begins) + [Victim(before)];
    EvictFrontShrinks(before, begin);
  }

  lemma EvictFrontShrinks(s: Index, begin: nat)
    requires Class(s.freqList, s.minFreq) != [] && Victim(s) in s.cacheNodes
    ensures |EvictFront(s, begin).cacheNodes| < |s.cacheNodes|
  {
    assert s.cacheNodes.Keys == EvictFront(s, begin).cacheNodes.Keys + {Victim(s)};
  }

  /** Any run of evictions keeps the agreement and takes one key a round. */
  lemma {:induction false} EvictAllAgrees(s: Index, h: seq<Event>, begins: seq<nat>)
    requires Agrees(s, h) && CanEvict(s, begins)
    ensures Agrees(EvictAll(s, begins), h + Evictions(Victims(s, begins)))
    ensures |Victims(s, begins)| == |begins|
  {
    hide Agrees;
    hide EvictFront;
    if begins == [] {
      assert h + Evictions([]) == h;
    } else {
      var rest, begin := begins[..|begins| - 1], begins[|begins| - 1];
      EvictAllAgrees(s, h, rest);
      var before, vs := EvictAll(s, rest), Victims(s, rest);
      EvictFrontAgrees(before, h + Evictions(vs), begin);
      assert h + Evictions(vs) + [Evicted(Victim(before))] == h + Evictions(vs + [Victim(before)]);
      assert Victims(s, begins) == vs + [Victim(before)];
    }
  }

  /** The victims are distinct tracked keys, and nothing else goes. */
  lemma {:induction false} EvictAllTakesVictims(s: Index, h: seq<Event>, begins: seq<nat>)
    requires Agrees(s, h) && CanEvict(s, begins)
    ensures EvictAll(s, begins).cacheNodes == s.cacheNodes - KeySet(Victims(s, begins))
    ensures forall v :: v in Victims(s, begins) ==> v in s.cacheNodes
    ensures forall i, j :: 0 <= i < j < |Victims(s, begins)| ==> Victims(s, begins)[i] != Victims(s, begins)[j]
  {
    hide Agrees;
    if begins != [] {
      var rest, begin := begins[..|begins| - 1], begins[|begins| - 1];
      EvictAllTakesVictims(s, h, rest);
      EvictAllAgrees(s, h, rest);
      var before, vs := EvictAll(s, rest), Victims(s, rest);
      EvictFrontAgrees(before, h + Evictions(vs), begin);
      assert Victims(s, begins) == vs + [Victim(before)];
    }
  }

  // ------------------------------------------------- who is evicted first

  /** The cursor names the least frequency in use. */
  ghost predicate AimsAtMinimum(s: Index) {
    forall f :: f in s.freqList ==> s.minFreq <= f
  }

  lemma InsertAimsAtMinimum(s: Index, h: seq<Event>, id: Key, size: nat)
    requires Agrees(s, h) && id !in s.cacheNodes
    ensures AimsAtMinimum(InsertKey(s, id, size))
  {
    InsertNewKeyAgrees(s, h, id, size);
  }

  lemma TouchKeepsMinimum(s: Index, id: Key)
    requires WellIndexed(s) && id in s.cacheNodes && AimsAtMinimum(s)
    ensures AimsAtMinimum(Touch(s, id))
  {
    hide Unlink, WellIndexed;
    KeyIsLinked(s, id);
    var f, t := s.cacheNodes[id].freq, Touch(s, id);
    assert forall g :: g in t.freqList ==> g in s.freqList || g == f + 1;
    assert t.minFreq != s.minFreq ==> f !in t.freqList;
  }

  /** Removing a key keeps the cursor at the least frequency unless it empties the
      cursor's class; then it does exactly when `freqList.begin()` happens to name the
      least class left. */
  lemma RemoveKeepsMinimum(s: Index, id: Key, begin: nat)
    requires WellIndexed(s) && id in s.cacheNodes && AimsAtMinimum(s)
    ensures var t := RemoveKey(s, id, begin);
            AimsAtMinimum(t) <==> s.minFreq in t.freqList || forall f :: f in t.freqList ==> begin <= f
  {
    var f := s.cacheNodes[id].freq;
    KeyIsLinked(s, id);
    hide Unlink, WellIndexed;
    var t := RemoveKey(s, id, begin);
    var rest := Unlink(s.freqList[f], s.keyIterators[id]);
    assert Class(s.freqList, f) == s.freqList[f];
    assert t.freqList == if rest == [] then s.freqList - {f} else s.freqList[f := rest];
    assert t.minFreq == if s.minFreq in t.freqList || t.freqList == map[] then t.minFreq else begin;
  }

  lemma FrontIsEarliest(s: Index, k: Key)
    requires WellIndexed(s) && k in s.cacheNodes
    ensures s.cacheNodes[k].freq in s.freqList && s.freqList[s.cacheNodes[k].freq] != []
    ensures s.freqList[s.cacheNodes[k].freq][0].addr <= s.keyIterators[k]
  {
    var l := s.freqList[s.cacheNodes[k].freq];
    assert Linked(s.freqList, s.cacheNodes[k].freq, ListNode(s.keyIterators[k], k));
    var i :| 0 <= i < |l| && l[i] == ListNode(s.keyIterators[k], k);
  }

  /** The first key evicted after an insertion has frequency 1, which is the least
      there is, and is the longest inserted of all keys not accessed since. */
  lemma FirstVictim(s: Index, h: seq<Event>, id: Key, size: nat)
    requires Agrees(s, h) && id !in s.cacheNodes
    ensures var t, h' := InsertKey(s, id, size), h + [Inserted(id)];
            && Class(t.freqList, t.minFreq) != []
            && Freq(h', Victim(t)) == 1
            && (forall k :: Freq(h', k) == 1 ==> LastAccess(h', Victim(t)) <= LastAccess(h', k))
  {
    var t, h' := InsertKey(s, id, size), h + [Inserted(id)];
    InsertNewKeyAgrees(s, h, id, size);
    FrontIsLinked(t);
    forall k | Freq(h', k) == 1
      ensures LastAccess(h', Victim(t)) <= LastAccess(h', k)
    {
      FrontIsEarliest(t, k);
    }
  }

  /** The key just inserted is its own first victim exactly when every other
      stored key has been accessed since its insertion. */
  lemma NewKeyIsFirstVictim(s: Index, h: seq<Event>, id: Key, size: nat)
    requires Agrees(s, h) && id !in s.cacheNodes
    ensures Class(InsertKey(s, id, size).freqList, 1) != []
    ensures Victim(InsertKey(s, id, size)) == id <==> forall k :: k in s.cacheNodes ==> Freq(h, k) > 1
  {
    FirstVictim(s, h, id, size);
    var t, h' := InsertKey(s, id, size), h + [Inserted(id)];
    InsertNewKeyAgrees(s, h, id, size);
    Extend(h, Inserted(id));
    var v := Victim(t);
    if k :| k in s.cacheNodes && Freq(h, k) <= 1 {
      LastAccessBefore(h, k);
      assert Freq(h', k) == 1 && LastAccess(h', k) < |h|;
    }
    if v != id { assert v in t.cacheNodes && Freq(h, v) == 1; }
  }

  lemma LastAccessBefore(h: seq<Event>, k: Key)
    requires Freq(h, k) > 0
    ensures LastAccess(h, k) < |h|
  {
  }

  /** After the first round the next victim is a least frequently used key exactly
      when `freqList.begin()` happens to name the least class left. */
  lemma NextVictim(s: Index, begin: nat)
    requires WellIndexed(s) && s.freqList != map[]
    requires EvictFront(s, begin).freqList != map[] && begin in EvictFront(s, begin).freqList
    ensures var t := EvictFront(s, begin);
            && WellIndexed(t)
            && Class(t.freqList, t.minFreq) != [] && Victim(t) in t.cacheNodes
            && t.cacheNodes[Victim(t)].freq == begin
            && ((forall k :: k in t.cacheNodes ==> t.cacheNodes[Victim(t)].freq <= t.cacheNodes[k].freq)
                <==> forall f :: f in t.freqList ==> begin <= f)
  {
    var t := EvictFront(s, begin);
    EvictFrontMoves(s, begin);
    IndexedAfterDrop(s.cacheNodes, s.keyIterators, s.freqList, Victim(s), t.freqList);
    FrontIsLinked(t);
    forall k | k in t.cacheNodes ensures t.cacheNodes[k].freq in t.freqList {
      KeyIsLinked(t, k);
    }
    if (forall k :: k in t.cacheNodes ==> begin <= t.cacheNodes[k].freq) {
      forall f | f in t.freqList ensures begin <= f {
        assert Linked(t.freqList, f, t.freqList[f][0]);
      }
    }
  }

  lemma {:induction false} EvictionsKeepOthers(h: seq<Event>, keys: seq<Key>, k: Key)
    requires k !in keys
    ensures Freq(h + Evictions(keys), k) == Freq(h, k) && LastAccess(h + Evictions(keys), k) == LastAccess(h, k)
  {
    hide Freq, LastAccess;
    if keys == [] {
      assert h + Evictions(keys) == h;
    } else {
      var rest, v := keys[..|keys| - 1], keys[|keys| - 1];
      EvictionsKeepOthers(h, rest, k);
      Extend(h + Evictions(rest), Evicted(v));
      assert h + Evictions(keys) == h + Evictions(rest) + [Evicted(v)];
    }
  }

  /** Every victim of a run, the later ones too, is the least recently accessed of the
      keys still there that were used as often. */
  lemma EveryVictimIsEarliest(s: Index, h: seq<Event>, begins: seq<nat>, i: nat)
    requires Agrees(s, h) && CanEvict(s, begins) && i < |begins|
    ensures |Victims(s, begins)| == |begins|
    ensures var v := Victims(s, begins)[i];
            forall k :: k in EvictAll(s, begins[..i]).cacheNodes && Freq(h, k) == Freq(h, v) ==>
              LastAccess(h, v) <= LastAccess(h, k)
  {
    hide Agrees, CanEvict, Freq, LastAccess, Evictions, Victims, EvictAll, KeySet;
    VictimAt(s, h, begins, i);
    var before, v := EvictAll(s, begins[..i]), Victims(s, begins)[i];
    forall k | k in before.cacheNodes && Freq(h, k) == Freq(h, v)
      ensures LastAccess(h, v) <= LastAccess(h, k)
    {
      VictimIsEarlier(s, h, begins[..i], k);
    }
  }

  /** The next victim after a run of evictions, compared with one other key. */
  lemma VictimIsEarlier(s: Index, h: seq<Event>, begins: seq<nat>, k: Key)
    requires Agrees(s, h) && CanEvict(s, begins)
    requires var t := EvictAll(s, begins);
             k in t.cacheNodes && Class(t.freqList, t.minFreq) != [] && Freq(h, k) == Freq(h, Victim(t))
    ensures LastAccess(h, Victim(EvictAll(s, begins))) <= LastAccess(h, k)
  {
    hide Agrees, CanEvict, Freq, LastAccess, Evictions, Victims, EvictAll;
    var t, vs := EvictAll(s, begins), Victims(s, begins);
    EvictAllAgrees(s, h, begins);
    EvictAllTakesVictims(s, h, begins);
    AgreeingFront(t, h + Evictions(vs));
    EvictionsKeepOthers(h, vs, k);
    EvictionsKeepOthers(h, vs, Victim(t));
    FrontOfClass(t, h + Evictions(vs), k);
  }

  /** The victim is accessed no later than any key of its class. */
  lemma FrontOfClass(s: Index, h: seq<Event>, k: Key)
    requires Agrees(s, h) && Class(s.freqList, s.minFreq) != []
    requires k in s.cacheNodes && Freq(h, k) == Freq(h, Victim(s))
    ensures LastAccess(h, Victim(s)) <= LastAccess(h, k)
  {
    hide Freq, LastAccess, Shaped, Indexed, Aimed, Reflects;
    FrontIsLinked(s);
    Recorded(s, h, k);
    Recorded(s, h, Victim(s));
    FrontIsEarliest(s, k);
  }

  lemma Recorded(s: Index, h: seq<Event>, k: Key)
    requires Agrees(s, h) && k in s.cacheNodes
    ensures k in s.keyIterators && s.cacheNodes[k].freq == Freq(h, k) && s.keyIterators[k] == LastAccess(h, k)
  {
  }

  lemma {:induction false} VictimAt(s: Index, h: seq<Event>, begins: seq<nat>, i: nat)
    requires Agrees(s, h) && CanEvict(s, begins) && i < |begins|
    ensures |Victims(s, begins)| == |begins| && CanEvict(s, begins[..i])
    ensures EvictAll(s, begins[..i]).freqList != map[]
    ensures var before := EvictAll(s, begins[..i]);
            Class(before.freqList, before.minFreq) != [] && Victims(s, begins)[i] == Victim(before)
  {
    hide Agrees, EvictFront, PicksOccupied;
    var n := |begins| - 1;
    EvictAllAgrees(s, h, begins);
    EvictAllAgrees(s, h, begins[..n]);
    AgreeingFront(EvictAll(s, begins[..n]), h + Evictions(Victims(s, begins[..n])));
    if i < n {
      VictimAt(s, h, begins[..n], i);
      assert begins[..n][..i] == begins[..i];
    }
  }

  /** Keys `b` and `c` inserted, `b` used once more, `c` twice, then `a` inserted. */
  function WarmThenNew(a: Key, b: Key, c: Key): Index {
    InsertKey(Touch(Touch(Touch(InsertKey(InsertKey(EMPTY, b, 0), c, 0), b), c), c), a, 0)
  }

  lemma WarmThenNewClasses(a: Key, b: Key, c: Key)
    requires a != b && b != c && a != c
    ensures var s := WarmThenNew(a, b, c);
            && WellIndexed(s) && AimsAtMinimum(s) && s.cacheNodes.Keys == {a, b, c}
            && s.cacheNodes[a].freq == 1 && s.cacheNodes[b].freq == 2 && s.cacheNodes[c].freq == 3
  {
    hide WellIndexed, AimsAtMinimum, MoveUp, Unlink, Class;
    EmptyIndexed();
    var s1 := InsertKey(EMPTY, b, 0);
    InsertKeyIndexes(EMPTY, b, 0);
    var s2 := InsertKey(s1, c, 0);
    InsertKeyIndexes(s1, c, 0);
    var s3 := Touch(s2, b);
    TouchSteps(s2, b);
    var s4 := Touch(s3, c);
    TouchSteps(s3, c);
    TouchSteps(s4, c);
    InsertKeyIndexes(Touch(s4, c), a, 0);
  }

  lemma EmptyIndexed()
    ensures WellIndexed(EMPTY)
  {
  }

  lemma TouchSteps(s: Index, id: Key)
    requires WellIndexed(s) && id in s.cacheNodes
    ensures WellIndexed(Touch(s, id))
    ensures Touch(s, id).cacheNodes == s.cacheNodes[id := s.cacheNodes[id].(freq := s.cacheNodes[id].freq + 1)]
  {
    hide WellIndexed, MoveUp;
    KeyIsLinked(s, id);
    TouchIndexes(s, id);
  }

  /** A reachable index in which the key used three times is evicted before the key
      used twice. */
  lemma LaterVictimNotLeastFrequent(a: Key, b: Key, c: Key)
    requires a != b && b != c && a != c
    ensures var s := WarmThenNew(a, b, c);
            && CanEvict(s, [3])
            && var t := EvictFront(s, 3);
               && Class(t.freqList, t.minFreq) != [] && Victim(t) == c
               && b in t.cacheNodes && c in t.cacheNodes && t.cacheNodes[b].freq < t.cacheNodes[c].freq
  {
    hide WarmThenNew;
    WarmThenNewClasses(a, b, c);
    ThreeClasses(WarmThenNew(a, b, c), a, b, c);
  }

  lemma ThreeClasses(s: Index, a: Key, b: Key, c: Key)
    requires WellIndexed(s) && AimsAtMinimum(s)
    requires s.cacheNodes.Keys == {a, b, c} && a != b && b != c && a != c
    requires s.cacheNodes[a].freq == 1 && s.cacheNodes[b].freq == 2 && s.cacheNodes[c].freq == 3
    ensures CanEvict(s, [3])
    ensures var t := EvictFront(s, 3);
            && Class(t.freqList, t.minFreq) != [] && Victim(t) == c
            && b in t.cacheNodes && c in t.cacheNodes && t.cacheNodes[b].freq < t.cacheNodes[c].freq
  {
    hide Unlink, Ascending;
    KeyIsLinked(s, a);
    KeyIsLinked(s, b);
    KeyIsLinked(s, c);
    FrontIsLinked(s);
    assert Victim(s) == a;
    EvictFrontMoves(s, 3);
    assert Linked(EvictFront(s, 3).freqList, 3, ListNode(s.keyIterators[c], c));
    EvictOnce(s, 3);
    NextVictim(s, 3);
  }

  // ------------------------------------------------ history is everything

  lemma {:induction false} SortedListsEqual(l: seq<ListNode>, m: seq<ListNode>, clock: nat)
    requires Ascending(l, clock) && Ascending(m, clock)
    requires forall n :: n in l <==> n in m
    ensures l == m
    decreases |l|
  {
    hide Ascending;
    BothEmpty(l, m);
    if l != [] {
      var l', m', x := l[..|l| - 1], m[..|m| - 1], l[|l| - 1];
      LastIsLast(l, m, clock);
      AllButLast(l, clock);
      AllButLast(m, clock);
      forall n ensures n in l' <==> n in m' {
        assert n in l' <==> n in l && n != x;
        assert n in m' <==> n in m && n != x;
      }
      SortedListsEqual(l', m', clock);
      assert l == l' + [x] && m == m' + [x];
    }
  }

  lemma BothEmpty(l: seq<ListNode>, m: seq<ListNode>)
    requires forall n :: n in l <==> n in m
    ensures l == [] <==> m == []
  {
    if l != [] { assert l[0] in m; }
    if m != [] { assert m[0] in l; }
  }

  lemma LastIsLast(l: seq<ListNode>, m: seq<ListNode>, clock: nat)
    requires Ascending(l, clock) && Ascending(m, clock) && l != [] && m != []
    requires forall n :: n in l <==> n in m
    ensures l[|l| - 1] == m[|m| - 1]
  {
    var x, y := l[|l| - 1], m[|m| - 1];
    assert x in m && y in l;
    var i :| 0 <= i < |m| && m[i] == x;
    var j :| 0 <= j < |l| && l[j] == y;
  }

  lemma AllButLast(l: seq<ListNode>, clock: nat)
    requires Ascending(l, clock) && l != []
    ensures Ascending(l[..|l| - 1], clock)
    ensures forall n :: n in l[..|l| - 1] <==> n in l && n != l[|l| - 1]
  {
    forall n | n in l && n != l[|l| - 1] ensures n in l[..|l| - 1] {
      var i :| 0 <= i < |l| && l[i] == n;
      assert l[..|l| - 1][i] == n;
    }
  }

  /** The history determines the lists and the iterators: the three indexes carry
      no information of their own. */
  lemma HistoryDeterminesIndex(s: Index, t: Index, h: seq<Event>)
    requires Agrees(s, h) && Agrees(t, h)
    ensures s.freqList == t.freqList && s.keyIterators == t.keyIterators
    ensures s.cacheNodes.Keys == t.cacheNodes.Keys
    ensures forall k :: k in s.cacheNodes ==> s.cacheNodes[k].freq == t.cacheNodes[k].freq
  {
    SameClasses(s, t, h);
    SameClasses(t, s, h);
  }

  lemma SameClasses(s: Index, t: Index, h: seq<Event>)
    requires Agrees(s, h) && Agrees(t, h)
    ensures forall f :: f in s.freqList ==> f in t.freqList && s.freqList[f] == t.freqList[f]
  {
    SameLinks(s, t, h);
    SameLinks(t, s, h);
    forall f | f in s.freqList
      ensures f in t.freqList && s.freqList[f] == t.freqList[f]
    {
      assert Linked(s.freqList, f, s.freqList[f][0]);
      assert Linked(t.freqList, f, s.freqList[f][0]);
      forall n ensures n in s.freqList[f] <==> n in t.freqList[f] {
        assert Linked(s.freqList, f, n) <==> Linked(t.freqList, f, n);
      }
      SortedListsEqual(s.freqList[f], t.freqList[f], s.clock);
    }
  }

  lemma SameLinks(s: Index, t: Index, h: seq<Event>)
    requires Agrees(s, h) && Agrees(t, h)
    ensures forall f, n :: Linked(s.freqList, f, n) ==> Linked(t.freqList, f, n)
  {
    forall f, n | Linked(s.freqList, f, n)
      ensures Linked(t.freqList, f, n)
    {
      assert Linked(t.freqList, t.cacheNodes[n.key].freq, ListNode(t.keyIterators[n.key], n.key));
    }
  }
}
