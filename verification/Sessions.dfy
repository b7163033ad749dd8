/** Sessions of clients from an empty server that show what module Transactions says is
    not promised: that the cases its lemmas are about can be reached, by commands the
    server has. */
module Sessions {
  import opened Bytes
  import opened Lfu
  import opened Values
  import opened Keyspace
  import opened Expiry
  import opened Transactions
  import opened Wrappers

  /** An empty server with two clients. */
  function Fresh<C(==)>(c: C, d: C): System<Store, C> {
    System(EMPTY_STORE, map[], map[c := CLEAR, d := CLEAR])
  }

  /** `run` is a run of these steps the environment allows. */
  ghost predicate IsSession<C>(run: seq<System<Store, C>>, steps: seq<Step<C>>) {
    IsRun(run, steps) && forall i :: 0 <= i < |steps| ==> PossibleStep(run[i], steps[i])
  }

  /** Two sessions, the second from where the first ends, are one. */
  lemma Joined<C>(r1: seq<System<Store, C>>, s1: seq<Step<C>>, r2: seq<System<Store, C>>, s2: seq<Step<C>>)
    requires IsSession(r1, s1) && IsSession(r2, s2) && r1[|s1|] == r2[0]
    ensures IsSession(r1 + r2[1..], s1 + s2)
  {
    hide Take, PossibleStep;
    var run, steps := r1 + r2[1..], s1 + s2;
    assert forall i :: |s1| <= i < |run| ==> run[i] == r2[i - |s1|];
  }

  // ------------------------------------------------------------- single steps

  /** SET: an update, here with the victims' classes the eviction loop reads. */
  function Set<C>(d: C, k: Key, v: Value, begins: seq<nat>): Step<C> {
    ByClient(d, Data(Asking(AskUpdate(k, v))), [[UpdatePlain(k, v, 0, begins)]])
  }

  lemma SetStep<C>(s: System<Store, C>, d: C, k: Key, v: Value, begins: seq<nat>)
    requires d in s.ctx && !s.ctx[d].inTransaction && k !in s.store.db.records
    requires CanEvict(InsertKey(s.store.db.index, k, 0), begins)
    ensures var n, e := Take(s, Set(d, k, v, begins)), InsertNew(s.store.db, k, v, 0, begins);
            && PossibleStep(s, Set(d, k, v, begins))
            && n.system == System(Store(e.db, s.store.ttl), s.deps, Notify(s.deps, s.ctx, NotifiedKeys(e.events)))
            && n.events == e.events
  {
    hide CanEvict, InsertNew, Notify, NotifiedKeys, PossibleStep, Take;
    AskingStep(s, d, AskUpdate(k, v), UpdatePlain(k, v, 0, begins));
  }

  lemma WatchStep<C>(s: System<Store, C>, c: C, k: Key)
    requires c in s.ctx && !s.ctx[c].inTransaction && k in s.store.db.records
    ensures PossibleStep(s, ByClient(c, WATCH([k]), []))
    ensures Take(s, ByClient(c, WATCH([k]), []))
         == Next(System(s.store, Register(s.deps, k, c), s.ctx[c := CLEAR.(watched := {k})]), [], Good)
  {
    hide Register;
    var t := s.(ctx := s.ctx[c := CLEAR.(watched := {k})]);
    assert [k][1..] == [] && {} + {k} == {k};
    assert WatchLoop(t.(deps := Register(s.deps, k, c)), c, []) == (t.(deps := Register(s.deps, k, c)), true);
    assert s.ctx[c := CLEAR][c := CLEAR.(watched := {k})] == s.ctx[c := CLEAR.(watched := {k})];
  }

  lemma MultiStep<C>(s: System<Store, C>, c: C)
    requires c in s.ctx && !s.ctx[c].inTransaction
    ensures PossibleStep(s, ByClient(c, MULTI(0), []))
    ensures Take(s, ByClient(c, MULTI(0), []))
         == Next(s.(ctx := s.ctx[c := s.ctx[c].(commands := [], inTransaction := true)]), [], Good)
  {
  }

  lemma QueueStep<C>(s: System<Store, C>, c: C, p: Program)
    requires c in s.ctx && s.ctx[c].inTransaction
    ensures PossibleStep(s, ByClient(c, Data(p), []))
    ensures Take(s, ByClient(c, Data(p), [])).system
         == s.(ctx := s.ctx[c := s.ctx[c].(commands := s.ctx[c].commands + [p])])
  {
  }

  lemma ExecNothingStep<C>(s: System<Store, C>, c: C)
    requires c in s.ctx && s.ctx[c].inTransaction && !s.ctx[c].dirty && s.ctx[c].commands == []
    ensures PossibleStep(s, ByClient(c, EXEC(0), [])) && Take(s, ByClient(c, EXEC(0), [])).answer == Good
  {
  }

  lemma NobodyObserves<C>(ctx: map<C, Context>, keys: set<Key>)
    ensures Notify(map[], ctx, keys) == ctx
  {
  }

  /** Events that do not notify of `a` leave a client clean that watches `a` only. */
  lemma OthersKeepClean<C>(s: System<Store, C>, c: C, a: Key, events: seq<DbEvent>)
    requires c in s.ctx && s.ctx[c].watched == {a}
    requires forall e :: e in events && Notifying(e) ==> e.key != a
    ensures var ctx := Notify(s.deps, s.ctx, NotifiedKeys(events));
            ctx.Keys == s.ctx.Keys && ctx[c] == s.ctx[c]
  {
  }

  // --------------------------------------------------- an eviction unnoticed

  /** `d` sets `a`; `c` watches it and opens a transaction; `d` sets `b`, which evicts
      `a`; `c` executes. */
  function EvictionSession<C>(c: C, d: C, a: Key, b: Key, v: Value): seq<Step<C>> {
    [Set(d, a, v, []), ByClient(c, WATCH([a]), []), ByClient(c, MULTI(0), []), Set(d, b, v, [1]),
     ByClient(c, EXEC(0), [])]
  }

  /** The database when `a` is stored, and when `b` has evicted it. */
  lemma TwoStores(a: Key, b: Key, v: Value)
    requires a != b
    ensures CanEvict(InsertKey(EMPTY, a, 0), [])
    ensures var d := InsertNew(EMPTY_DB, a, v, 0, []).db;
            && d.records == map[a := v]
            && CanEvict(InsertKey(d.index, b, 0), [1])
            && InsertNew(d, b, v, 0, [1]).db.records == map[b := v]
            && InsertNew(d, b, v, 0, [1]).events == [Put(b, v), Lost(a)]
  {
    hide CanEvict, EvictAll, Victims;
    EvictNone(InsertKey(EMPTY, a, 0));
    var i := InsertKey(InsertKey(EMPTY, a, 0), b, 0);
    assert i.freqList[1] == [ListNode(0, a), ListNode(1, b)];
    assert EvictFront(i, 1).freqList[1] == [ListNode(1, b)];
    EvictOnce(i, 1);
    assert LostKeys([a]) == [Lost(a)];
  }

  /** A client watches a key, the key is evicted, and the client's EXEC goes ahead. */
  lemma WatchedKeyEvicted<C(!new)>(c: C, d: C, a: Key, b: Key, v: Value)
    requires c != d && a != b
    ensures exists run: seq<System<Store, C>> ::
              && IsSession(run, EvictionSession(c, d, a, b, v))
              && run[0] == Fresh(c, d)
              && Take(run[1], ByClient(c, WATCH([a]), [])).answer == Good
              && a in run[3].store.db.records && a !in run[4].store.db.records
              && Take(run[4], ByClient(c, EXEC(0), [])).answer == Good
  {
    hide InsertNew, CanEvict, Take, PossibleStep, Register, Notify, NotifiedKeys;
    TwoStores(a, b, v);
    var steps := EvictionSession(c, d, a, b, v);
    var s0 := Fresh(c, d);
    SetStep(s0, d, a, v, []);
    NobodyObserves(s0.ctx, NotifiedKeys(InsertNew(s0.store.db, a, v, 0, []).events));
    var s1 := Take(s0, steps[0]).system;
    WatchStep(s1, c, a);
    var s2 := Take(s1, steps[1]).system;
    MultiStep(s2, c);
    var s3 := Take(s2, steps[2]).system;
    SetStep(s3, d, b, v, [1]);
    OthersKeepClean(s3, c, a, InsertNew(s3.store.db, b, v, 0, [1]).events);
    var s4 := Take(s3, steps[3]).system;
    ExecNothingStep(s4, c);
    var run := [s0, s1, s2, s3, s4, Take(s4, steps[4]).system];
    assert IsSession(run, steps);
  }

  // ------------------------------------------------ a change in place unnoticed

  /** A list with an item pushed to its front; other values are left alone. */
  function Pushed(v: Value, item: Str): Value {
    if v.ListValue? then ListValue([item] + v.list) else v
  }

  /** LPUSH: change the list if there is one, otherwise insert it. */
  function Pushing(k: Key, item: Str): (p: Script)
    ensures Ends(p)
  {
    var p := Do(AskChange(k, (v: Value) => Pushed(v, item)), (o: Outcome) => PushingOn(k, item, o));
    assert EndsWithin(p, 2);
    p
  }

  function PushingOn(k: Key, item: Str, o: Outcome): (p: Script)
    ensures EndsWithin(p, 1)
  {
    if o.Found? then Return([]) else Asking(AskInsert(k, ListValue([item])))
  }

  /** `d` pushes `x`; `c` watches the list and opens a transaction; `d` pushes `y`; `c`
      executes. */
  function PushSession<C>(c: C, d: C, k: Key, x: Str, y: Str): seq<Step<C>> {
    [PushFirst(d, k, x), ByClient(c, WATCH([k]), []), ByClient(c, MULTI(0), []), PushNext(d, k, x, y),
     ByClient(c, EXEC(0), [])]
  }

  function PushFirst<C>(d: C, k: Key, x: Str): Step<C> {
    ByClient(d, Data(Pushing(k, x)),
             [[Change(k, StringValue([]), 0, 0), InsertPlain(k, ListValue([x]), 0, [])]])
  }

  function PushNext<C>(d: C, k: Key, x: Str, y: Str): Step<C> {
    ByClient(d, Data(Pushing(k, y)), [[Change(k, ListValue([y, x]), 0, 0)]])
  }

  lemma PushFirstPerforms(d: Store, k: Key, x: Str)
    requires d.ttl == map[] && k !in d.db.records
    ensures var calls := [Change(k, StringValue([]), 0, 0), InsertPlain(k, ListValue([x]), 0, [])];
            && Performs(Pushing(k, x), d, calls)
            && Perform(Pushing(k, x), d, calls).ending.Returned?
            && Perform(Pushing(k, x), d, calls).store == ApplyTimed(d, calls[1]).store
  {
    hide InsertKey, InsertNew, CanEvict, EvictAll, Perform, Performs;
    var p, first, second := Pushing(k, x), Change(k, StringValue([]), 0, 0), InsertPlain(k, ListValue([x]), 0, []);
    EvictNone(InsertKey(d.db.index, k, 0));
    assert ApplyTimed(d, first) == Expiry.Result(d, [], NotFound);
    LastCall(Asking(AskInsert(k, ListValue([x]))), d, second);
    FirstCall(p, d, first, [second]);
    assert [first] + [second] == [first, second];
  }

  lemma PushFirstStep<C>(s: System<Store, C>, d: C, k: Key, x: Str)
    requires d in s.ctx && !s.ctx[d].inTransaction && s.deps == map[]
    requires s.store.ttl == map[] && k !in s.store.db.records
    ensures var t := Take(s, PushFirst(d, k, x)).system;
            && PossibleStep(s, PushFirst(d, k, x)) && t.deps == map[] && t.ctx == s.ctx && t.store.ttl == map[]
            && k in t.store.db.records && t.store.db.records[k] == ListValue([x])
  {
    hide Notify, NotifiedKeys, InsertKey, Perform, Performs, CanEvict, EvictAll, Victims;
    var calls := [Change(k, StringValue([]), 0, 0), InsertPlain(k, ListValue([x]), 0, [])];
    PushFirstPerforms(s.store, k, x);
    EvictNone(InsertKey(s.store.db.index, k, 0));
    NobodyObserves(s.ctx, NotifiedKeys(Perform(Pushing(k, x), s.store, calls).events));
  }

  lemma PushNextStep<C>(s: System<Store, C>, c: C, d: C, k: Key, x: Str, y: Str)
    requires d in s.ctx && !s.ctx[d].inTransaction && c in s.ctx && s.ctx[c].watched == {k}
    requires s.store.ttl == map[] && k in s.store.db.records && s.store.db.records[k] == ListValue([x])
    ensures var t := Take(s, PushNext(d, k, x, y)).system;
            && PossibleStep(s, PushNext(d, k, x, y)) && c in t.ctx && t.ctx[c] == s.ctx[c]
            && k in t.store.db.records && t.store.db.records[k] == ListValue([y, x])
  {
    hide Notify, NotifiedKeys, Touch, Perform, Performs;
    var p, call := Pushing(k, y), Change(k, ListValue([y, x]), 0, 0);
    var e := ApplyTimed(s.store, call);
    assert [y] + [x] == [y, x];
    assert e.events == [Mutated(k, ListValue([y, x]))];
    LastCall(p, s.store, call);
    OthersKeepClean(s, c, k, e.events);
  }

  /** A client watches a list, the list grows, and the client's EXEC goes ahead. */
  lemma WatchedListGrows<C(!new)>(c: C, d: C, k: Key, x: Str, y: Str)
    requires c != d
    ensures exists run: seq<System<Store, C>> ::
              && IsSession(run, PushSession(c, d, k, x, y))
              && run[0] == Fresh(c, d)
              && Take(run[1], ByClient(c, WATCH([k]), [])).answer == Good
              && k in run[3].store.db.records && run[3].store.db.records[k] == ListValue([x])
              && k in run[4].store.db.records && run[4].store.db.records[k] == ListValue([y, x])
              && Take(run[4], ByClient(c, EXEC(0), [])).answer == Good
  {
    hide Take, PossibleStep, Register;
    var steps := PushSession(c, d, k, x, y);
    var s0 := Fresh(c, d);
    PushFirstStep(s0, d, k, x);
    var s1 := Take(s0, steps[0]).system;
    WatchStep(s1, c, k);
    var s2 := Take(s1, steps[1]).system;
    MultiStep(s2, c);
    var s3 := Take(s2, steps[2]).system;
    PushNextStep(s3, c, d, k, x, y);
    var s4 := Take(s3, steps[3]).system;
    ExecNothingStep(s4, c);
    var run := [s0, s1, s2, s3, s4, Take(s4, steps[4]).system];
    assert IsSession(run, steps);
  }

  // --------------------------------------------- a deletion done at every EXEC

  /** INCR: look the record up, and let the exception out if there is none; otherwise
      update it, if it holds a number. */
  function Incrementing(k: Key, next: Value -> Option<Value>): (p: Script)
    ensures Ends(p)
  {
    var p := Do(AskGet(k), (o: Outcome) => IncrementingOn(k, next, o));
    assert EndsWithin(p, 2);
    p
  }

  function IncrementingOn(k: Key, next: Value -> Option<Value>, o: Outcome): (p: Script)
    ensures EndsWithin(p, 1)
  {
    if !o.Found? then Throw
    else if next(o.value).None? then Return([])
    else Asking(AskUpdate(k, next(o.value).value))
  }

  /** `c` queues INCR; then twice `d` sets the key and lets it expire after one second,
      and `c` executes two seconds later. */
  function IncrSession<C>(c: C, d: C, k: Key, v: Value, next: Value -> Option<Value>): seq<Step<C>> {
    [ByClient(c, MULTI(0), []), ByClient(c, Data(Incrementing(k, next)), [])]
    + Round(c, d, k, v, 0) + Round(c, d, k, v, 2 * SECOND)
  }

  /** EXPIRE for one second. */
  function ExpireSoon<C>(d: C, k: Key, now: int): Step<C> {
    ByClient(d, Data(Asking(AskSetTtl(k, 1))), [[SetTtl(k, 1, now)]])
  }

  function ExecLate<C>(c: C, k: Key, now: int): Step<C> {
    ByClient(c, EXEC(0), [[LookUp(k, now + 2 * SECOND, 0)]])
  }

  /** Nothing is stored and no deadline set; the history of the index may be any. */
  ghost predicate Bare(d: Store) {
    d.db.records == map[] && d.ttl == map[] && d.db.index.cacheNodes == map[] && WellIndexed(d.db.index)
  }

  /** A record stored, given a deadline, and looked up too late. */
  lemma ExpiringRound(d: Store, k: Key, v: Value, now: int)
    requires Bare(d)
    ensures CanEvict(InsertKey(d.db.index, k, 0), [])
    ensures var d1 := Store(InsertNew(d.db, k, v, 0, []).db, d.ttl);
            var d2 := ApplyTimed(d1, SetTtl(k, 1, now)).store;
            var r := ApplyTimed(d2, LookUp(k, now + 2 * SECOND, 0));
            && PossibleTimed(d2, LookUp(k, now + 2 * SECOND, 0))
            && r.events == [Dropped(k)] && r.outcome == NotFound && Bare(r.store)
  {
    hide InsertKey, Touch, WellIndexed, RemoveKey;
    var i1 := InsertKey(d.db.index, k, 0);
    EvictNone(i1);
    InsertKeyIndexes(d.db.index, k, 0);
    InsertKeyNodes(d.db.index, k, 0);
    TouchSteps(i1, k);
    assert map[k := v] - KeySet([]) == map[k := v];
    LastKeyGone(Touch(i1, k), k, 0);
    assert map[k := v] - {k} == map[] && map[k := now + SECOND] - {k} == map[];
  }

  lemma ExpireStep<C>(s: System<Store, C>, d: C, k: Key, now: int)
    requires d in s.ctx && !s.ctx[d].inTransaction && s.deps == map[]
    ensures PossibleStep(s, ExpireSoon(d, k, now))
    ensures Take(s, ExpireSoon(d, k, now)).system == s.(store := ApplyTimed(s.store, SetTtl(k, 1, now)).store)
  {
    hide Take, PossibleStep, Notify, NotifiedKeys;
    var call := SetTtl(k, 1, now);
    AskingStep(s, d, AskSetTtl(k, 1), call);
    NobodyObserves(s.ctx, NotifiedKeys(ApplyTimed(s.store, call).events));
  }

  /** EXEC of a queue with one INCR whose key has expired. */
  lemma ExecLateStep<C>(s: System<Store, C>, c: C, k: Key, now: int, next: Value -> Option<Value>)
    requires c in s.ctx && s.deps == map[]
    requires s.ctx[c] == CLEAR.(inTransaction := true, commands := [Incrementing(k, next)])
    requires var call := LookUp(k, now + 2 * SECOND, 0);
             PossibleTimed(s.store, call) && ApplyTimed(s.store, call).outcome == NotFound
    ensures var n, e := Take(s, ExecLate(c, k, now)), ApplyTimed(s.store, LookUp(k, now + 2 * SECOND, 0));
            PossibleStep(s, ExecLate(c, k, now)) && n == Next(s.(store := e.store), e.events, Error)
  {
    hide ApplyTimed, PossibleTimed, Notify, NotifiedKeys;
    var p, call := Incrementing(k, next), LookUp(k, now + 2 * SECOND, 0);
    var e := ApplyTimed(s.store, call);
    assert p.next(e.outcome) == Throw;
    LastCall(p, s.store, call);
    NobodyObserves(s.ctx, NotifiedKeys(e.events));
    assert RunQueue(s, c, [[call]]) == Next(s.(store := e.store), e.events, Error);
  }

  function Round<C>(c: C, d: C, k: Key, v: Value, now: int): seq<Step<C>> {
    [Set(d, k, v, []), ExpireSoon(d, k, now), ExecLate(c, k, now)]
  }

  /** Three steps of the session: the key is set, expires, and EXEC deletes it and stops. */
  lemma IncrRound<C(!new)>(s: System<Store, C>, c: C, d: C, k: Key, v: Value, now: int, next: Value -> Option<Value>)
    returns (run: seq<System<Store, C>>)
    requires c in s.ctx && d in s.ctx && c != d && s.deps == map[] && Bare(s.store)
    requires s.ctx[d] == CLEAR
    requires s.ctx[c] == CLEAR.(inTransaction := true, commands := [Incrementing(k, next)])
    ensures IsSession(run, Round(c, d, k, v, now)) && run[0] == s && c in run[2].ctx
    ensures Take(run[2], ExecLate(c, k, now)).events == [Dropped(k)]
    ensures Take(run[2], ExecLate(c, k, now)).answer == Error
    ensures Bare(run[3].store) && run[3] == s.(store := run[3].store)
  {
    hide Take, PossibleStep, ApplyTimed, PossibleTimed, InsertNew, CanEvict, Bare, Notify, NotifiedKeys;
    BareHasNothing(s.store, k);
    ExpiringRound(s.store, k, v, now);
    SetStep(s, d, k, v, []);
    NobodyObserves(s.ctx, NotifiedKeys(InsertNew(s.store.db, k, v, 0, []).events));
    var t := Take(s, Set(d, k, v, [])).system;
    ExpireStep(t, d, k, now);
    var u := Take(t, ExpireSoon(d, k, now)).system;
    ExecLateStep(u, c, k, now, next);
    run := [s, t, u, Take(u, ExecLate(c, k, now)).system];
  }

  lemma BareHasNothing(d: Store, k: Key)
    requires Bare(d)
    ensures k !in d.db.records
  {
  }

  lemma FreshIsBare()
    ensures Bare(EMPTY_STORE)
  {
    EmptyIndexed();
  }

  /** A queued INCR that finds its key expired deletes it and throws, at every EXEC. */
  lemma ExpiredKeyDroppedTwice<C(!new)>(c: C, d: C, k: Key, v: Value, next: Value -> Option<Value>)
    requires c != d
    ensures exists run: seq<System<Store, C>> ::
              && IsSession(run, IncrSession(c, d, k, v, next))
              && run[0] == Fresh(c, d)
              && Take(run[4], ExecLate(c, k, 0)).events == [Dropped(k)]
              && Take(run[7], ExecLate(c, k, 2 * SECOND)).events == [Dropped(k)]
              && Take(run[7], ExecLate(c, k, 2 * SECOND)).answer == Error
  {
    hide Take, PossibleStep, Bare;
    var steps := [ByClient(c, MULTI(0), []), ByClient(c, Data(Incrementing(k, next)), [])];
    var s0 := Fresh(c, d);
    FreshIsBare();
    MultiStep(s0, c);
    var s1 := Take(s0, steps[0]).system;
    QueueStep(s1, c, Incrementing(k, next));
    var s2 := Take(s1, steps[1]).system;
    assert [] + [Incrementing(k, next)] == [Incrementing(k, next)];
    var first := [s0, s1, s2];
    var second := IncrRound(s2, c, d, k, v, 0, next);
    var third := IncrRound(second[3], c, d, k, v, 2 * SECOND, next);
    Joined(first, steps, second, Round(c, d, k, v, 0));
    var run := first + second[1..];
    Joined(run, steps + Round(c, d, k, v, 0), third, Round(c, d, k, v, 2 * SECOND));
    assert run[4] == second[2] && (run + third[1..])[7] == third[2];
  }
}
