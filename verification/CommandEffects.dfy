/** What each command does, said outright in the fields it changes
    (include/CommandProcessor/CommandProcessor.h:36-53 and the four files of
    include/Database/Commands/ConcreteCommands/TransactionCommands), and the promise of
    WATCH in terms of the database calls made rather than of what is notified.
 */
module CommandEffects {
  import opened Bytes
  import opened Lfu
  import opened Values
  import opened Keyspace
  import opened Expiry
  import opened Transactions

  // ------------------------------------------------------------- the commands

  /** WATCH is refused, and changes nothing, without keys and inside a transaction.
      Otherwise it answers OK exactly if all keys are stored. */
  lemma WatchAnswers<C>(s: System<Store, C>, c: C, keys: seq<Key>, traces: seq<seq<TimedCall>>)
    requires c in s.ctx
    ensures var n := Process(s, c, WATCH(keys), traces);
            && n.events == [] && n.system.store == s.store
            && (keys == [] || s.ctx[c].inTransaction ==> n.answer == Error && n.system == s)
            && (keys != [] && !s.ctx[c].inTransaction ==>
                  n.answer == if forall k :: k in keys ==> k in s.store.db.records then Good else Error)
  {
    hide Register;
    if keys != [] && !s.ctx[c].inTransaction { LoopAnswers(s.(ctx := s.ctx[c := CLEAR]), c, keys); }
  }

  lemma {:induction false} LoopAnswers<C>(s: System<Store, C>, c: C, keys: seq<Key>)
    requires c in s.ctx
    ensures var (t, ok) := WatchLoop(s, c, keys);
            t.store == s.store && (ok <==> forall k :: k in keys ==> k in s.store.db.records)
    decreases |keys|
  {
    hide Register;
    if keys != [] {
      assert forall k :: k in keys <==> k == keys[0] || k in keys[1..];
      if keys[0] in s.store.db.records {
        LoopAnswers(s.(ctx := s.ctx[c := s.ctx[c].(watched := s.ctx[c].watched + {keys[0]})],
                       deps := Register(s.deps, keys[0], c)), c, keys[1..]);
      }
    }
  }

  /** What a WATCH leaves when `n` keys came before the first that is not stored: nobody
      else's fields change; the client is clean, and watches those keys and the one that is
      not stored; beyond what was registered before, exactly the client is registered for
      exactly those `n`. */
  lemma WatchActs<C>(s: System<Store, C>, c: C, keys: seq<Key>, n: nat, traces: seq<seq<TimedCall>>)
    requires c in s.ctx && !s.ctx[c].inTransaction && keys != [] && n <= |keys|
    requires forall j :: 0 <= j < n ==> keys[j] in s.store.db.records
    requires n < |keys| ==> keys[n] !in s.store.db.records
    ensures var t := Process(s, c, WATCH(keys), traces).system;
            && c in t.ctx && t.ctx == s.ctx[c := Context(false, false, [], t.ctx[c].watched)]
            && (forall k :: k in t.ctx[c].watched <==> exists j :: 0 <= j <= n && j < |keys| && keys[j] == k)
            && (forall k, d :: IsRegistered(t.deps, k, d)
                  <==> IsRegistered(s.deps, k, d) || (d == c && exists j :: 0 <= j < n && keys[j] == k))
  {
    hide WatchLoop;
    var start, seen := s.(ctx := s.ctx[c := CLEAR]), keys[..if n < |keys| then n + 1 else n];
    LoopActs(start, c, keys, n);
    assert {} + KeySet(seen) == KeySet(seen);
    forall k ensures k in KeySet(seen) <==> exists j :: 0 <= j <= n && j < |keys| && keys[j] == k {
      if j :| 0 <= j <= n && j < |keys| && keys[j] == k { assert seen[j] == k; }
    }
    var t := Process(s, c, WATCH(keys), traces).system;
    assert t == WatchLoop(start, c, keys).0;
    forall k, d
      ensures IsRegistered(t.deps, k, d)
              <==> IsRegistered(s.deps, k, d) || (d == c && exists j :: 0 <= j < n && keys[j] == k)
    {
      if j :| 0 <= j < n && keys[j] == k { assert keys[..n][j] == k; }
    }
  }

  ghost predicate IsRegistered<C>(deps: map<Key, set<C>>, k: Key, d: C) {
    k in deps && d in deps[k]
  }

  lemma {:induction false} LoopActs<C>(s: System<Store, C>, c: C, keys: seq<Key>, n: nat)
    requires c in s.ctx && n <= |keys|
    requires forall j :: 0 <= j < n ==> keys[j] in s.store.db.records
    requires n < |keys| ==> keys[n] !in s.store.db.records
    ensures var t := WatchLoop(s, c, keys).0;
            && c in t.ctx && t.ctx == s.ctx[c := s.ctx[c].(watched := t.ctx[c].watched)]
            && t.ctx[c].watched == s.ctx[c].watched + KeySet(keys[..if n < |keys| then n + 1 else n])
            && (forall k, d :: IsRegistered(t.deps, k, d)
                  <==> IsRegistered(s.deps, k, d) || (d == c && k in keys[..n]))
    decreases |keys|
  {
    hide KeySet;
    if keys != [] {
      var w, m, first := s.ctx[c].watched, if n < |keys| then n + 1 else n, keys[0];
      KeySetCons(keys[..m]);
      if n > 0 {
        var t := AfterFirstKey(s, c, keys);
        LoopActs(t, c, keys[1..], n - 1);
        assert keys[..m][1..] == keys[1..][..m - 1];
        assert w + ({first} + KeySet(keys[1..][..m - 1])) == w + {first} + KeySet(keys[1..][..m - 1]);
        assert keys[..n] == [first] + keys[1..][..n - 1];
      } else {
        KeySetEmpty(keys[..1][1..]);
        assert {first} + {} == {first};
      }
    } else {
      KeySetEmpty(keys);
      assert s.ctx[c].watched + {} == s.ctx[c].watched;
    }
  }

  lemma KeySetCons(keys: seq<Key>)
    ensures keys != [] ==> KeySet(keys) == {keys[0]} + KeySet(keys[1..])
  {
    if keys != [] { assert forall k :: k in keys <==> k == keys[0] || k in keys[1..]; }
  }

  lemma KeySetEmpty(keys: seq<Key>)
    requires keys == []
    ensures KeySet(keys) == {}
  {
  }

  ghost function AfterFirstKey<C>(s: System<Store, C>, c: C, keys: seq<Key>): System<Store, C>
    requires c in s.ctx && keys != []
  {
    s.(ctx := s.ctx[c := s.ctx[c].(watched := s.ctx[c].watched + {keys[0]})], deps := Register(s.deps, keys[0], c))
  }

  /** MULTI is refused, and changes nothing, inside a transaction and with arguments;
      otherwise it opens one with an empty queue and leaves what is watched, and whether it
      changed, as it was. */
  lemma MultiActs<C>(s: System<Store, C>, c: C, extra: nat, traces: seq<seq<TimedCall>>)
    requires c in s.ctx
    ensures var n := Process(s, c, MULTI(extra), traces);
            && n.events == []
            && (extra > 0 || s.ctx[c].inTransaction ==> n.answer == Error && n.system == s)
            && (extra == 0 && !s.ctx[c].inTransaction ==>
                  && n.answer == Good && n.system.store == s.store && n.system.deps == s.deps
                  && n.system.ctx == s.ctx[c := Context(true, s.ctx[c].dirty, [], s.ctx[c].watched)])
  {
  }

  /** `c` has left its transaction and watches nothing: its own fields are reset, it is
      registered for none of the keys it watched, and nobody else is affected. */
  lemma ClearingActs<C>(s: System<Store, C>, c: C)
    requires c in s.ctx
    ensures var t := ClearTransaction(s, c);
            && t.store == s.store && t.ctx == s.ctx[c := Context(false, false, [], {})]
            && (forall k :: k in s.ctx[c].watched && k in t.deps ==> c !in t.deps[k])
            && (forall k :: k !in s.ctx[c].watched ==>
                  (k in t.deps <==> k in s.deps) && (k in t.deps ==> t.deps[k] == s.deps[k]))
            && (forall k, d :: d != c ==> (k in t.deps && d in t.deps[k] <==> k in s.deps && d in s.deps[k]))
  {
    var t := ClearTransaction(s, c);
    forall k, d | d != c && k in s.deps && d in s.deps[k] ensures k in t.deps && d in t.deps[k] {
      assert d in s.deps[k] - {c};
    }
  }

  /** DISCARD is refused, and changes nothing, outside a transaction and with arguments.
      Otherwise the client is outside a transaction, clean, with an empty queue, watching
      nothing and registered for none of the keys it watched; the store is as it was, and an
      EXEC right after it is an error that changes nothing. */
  lemma DiscardActs<C>(s: System<Store, C>, c: C, extra: nat, traces: seq<seq<TimedCall>>, more: seq<seq<TimedCall>>)
    requires c in s.ctx
    ensures var n := Process(s, c, DISCARD(extra), traces);
            var t := n.system;
            && n.events == [] && t.store == s.store && c in t.ctx
            && (extra > 0 || !s.ctx[c].inTransaction ==> n.answer == Error && t == s)
            && (extra == 0 && s.ctx[c].inTransaction ==>
                  && n.answer == Good
                  && !t.ctx[c].inTransaction && !t.ctx[c].dirty && t.ctx[c].commands == [] && t.ctx[c].watched == {}
                  && (forall k :: k in s.ctx[c].watched && k in t.deps ==> c !in t.deps[k])
                  && (forall d :: d in s.ctx && d != c ==> d in t.ctx && t.ctx[d] == s.ctx[d])
                  && (forall k, d :: d != c ==> (k in t.deps && d in t.deps[k] <==> k in s.deps && d in s.deps[k]))
                  && Process(t, c, EXEC(0), more) == Next(t, [], Error))
  {
    hide UnregisterAll;
    ClearingActs(s, c);
  }

  /** EXEC is refused, and changes nothing, outside a transaction and with arguments; inside
      one, a client whose watched keys changed gets (nil), leaves the transaction as by
      DISCARD, and no record changes. */
  lemma ExecRefuses<C>(s: System<Store, C>, c: C, extra: nat, traces: seq<seq<TimedCall>>)
    requires c in s.ctx
    ensures var n := Process(s, c, EXEC(extra), traces);
            && (extra > 0 || !s.ctx[c].inTransaction ==> n == Next(s, [], Error))
            && (extra == 0 && s.ctx[c].inTransaction && s.ctx[c].dirty ==>
                  && n.answer == Nil && n.events == [] && n.system.store == s.store
                  && n.system.ctx == s.ctx[c := Context(false, false, [], {})]
                  && forall k :: k in s.ctx[c].watched && k in n.system.deps ==> c !in n.system.deps[k])
            && (n.answer == Nil <==> extra == 0 && s.ctx[c].inTransaction && s.ctx[c].dirty)
  {
    hide UnregisterAll, RunQueue;
    ClearingActs(s, c);
    QueueAnswers(s, c, traces);
  }

  /** An EXEC that runs its queue to the end answers OK exactly for an empty one, with all
      replies otherwise; the client then leaves the transaction as by DISCARD. */
  lemma ExecFinishes<C>(s: System<Store, C>, c: C, traces: seq<seq<TimedCall>>)
    requires c in s.ctx && s.ctx[c].inTransaction && !s.ctx[c].dirty && PossibleQueue(s, c, traces)
    ensures var n := Process(s, c, EXEC(0), traces);
            && (n.answer == Good <==> s.ctx[c].commands == [])
            && (n.answer != Error ==>
                  && c in n.system.ctx && n.system.ctx[c] == Context(false, false, [], {})
                  && (forall k :: k in s.ctx[c].watched && k in n.system.deps ==> c !in n.system.deps[k])
                  && (forall k, d :: d != c ==>
                        (k in n.system.deps && d in n.system.deps[k] <==> k in s.deps && d in s.deps[k])))
  {
    hide UnregisterAll, RunQueue, PossibleQueue;
    ExecAllOrSuffix(s, c, traces);
    QueueLeavesRegistrations(s, c, traces);
    var r := RunQueue(s, c, traces);
    if !r.answer.Error? { ClearingActs(r.system, c); }
  }

  lemma {:induction false} QueueLeavesRegistrations<C>(s: System<Store, C>, c: C, traces: seq<seq<TimedCall>>)
    requires c in s.ctx
    ensures var r := RunQueue(s, c, traces);
            && c in r.system.ctx && r.system.ctx[c].watched == s.ctx[c].watched && r.system.deps == s.deps
    decreases |traces|
  {
    hide Perform, NotifiedKeys, Hears;
    if s.ctx[c].commands != [] && traces != [] {
      var (t, f) := RunProgram(s, s.ctx[c].commands[0], traces[0]);
      if !f.ending.Threw? { QueueLeavesRegistrations(Popped(t, c), c, traces[1..]); }
    }
  }

  /** A data command is queued inside a transaction and changes nothing else; outside one its
      script runs, the answer is the reply it returned, and an error exactly if it threw. */
  lemma DataActs<C>(s: System<Store, C>, c: C, p: Program, traces: seq<seq<TimedCall>>)
    requires c in s.ctx && PossibleProcess(s, c, Data(p), traces)
    ensures var n := Process(s, c, Data(p), traces);
            && (s.ctx[c].inTransaction ==>
                  && n.answer == Queued && n.events == []
                  && n.system == s.(ctx := s.ctx[c := s.ctx[c].(commands := s.ctx[c].commands + [p])]))
            && (!s.ctx[c].inTransaction ==>
                  && |traces| == 1
                  && n.system.store == Perform(p, s.store, traces[0]).store && n.system.deps == s.deps
                  && (forall t :: Perform(p, s.store, traces[0]).ending == Returned(t) ==> n.answer == Replies([t]))
                  && (Perform(p, s.store, traces[0]).ending == Threw <==> n.answer == Error))
  {
    hide Notify, NotifiedKeys, Perform, Performs;
  }

  /** What a script is and how it ends: it stops at its reply or exception, and goes on from
      a call with what that call returned. */
  lemma ScriptActs(d: Store, text: Str, r: Request, next: Outcome -> Script, call: TimedCall, calls: seq<TimedCall>)
    ensures Perform(Return(text), d, []) == Performance(d, [], Returned(text))
    ensures Perform(Throw, d, []) == Performance(d, [], Threw)
    ensures var e := ApplyTimed(d, call);
            var rest := Perform(next(e.outcome), e.store, calls);
            Perform(Do(r, next), d, [call] + calls) == Performance(rest.store, e.events + rest.events, rest.ending)
  {
    hide ApplyTimed;
    FirstCall(Do(r, next), d, call, calls);
  }

  /** The call that answers a request is the one asked for. */
  lemma RequestActs(c: TimedCall, d: Db, k: Key, v: Value, change: Value -> Value, n: nat, i: int)
    ensures Answers(c, AskInsert(k, v), d) ==> c == InsertPlain(k, v, c.size, c.begins)
    ensures Answers(c, AskInsertFor(k, v, n), d) ==> c == InsertFor(k, v, n, c.size, c.begins, c.now)
    ensures Answers(c, AskUpdate(k, v), d) ==> c == UpdatePlain(k, v, c.size, c.begins)
    ensures Answers(c, AskUpdateFor(k, v, n), d) ==> c == UpdateFor(k, v, n, c.size, c.begins, c.now)
    ensures Answers(c, AskGet(k), d) ==> c == LookUp(k, c.now, c.begin)
    ensures Answers(c, AskChange(k, change), d) && k in d.records ==>
              c == Change(k, change(d.records[k]), c.now, c.begin)
    ensures Answers(c, AskChange(k, change), d) ==> c.Change? && c.key == k
    ensures Answers(c, AskDelete(k), d) ==> c == Remove(k, c.begin)
    ensures Answers(c, AskSetTtl(k, i), d) ==> c == SetTtl(k, i, c.now)
    ensures Answers(c, AskRemoveTtl(k), d) ==> c == RemoveTtl(k)
  {
  }

  // ------------------------------------------------------- no EXEC after DISCARD

  lemma OnlyMultiOpens<C>(s: System<Store, C>, step: Step<C>, c: C)
    requires c in s.ctx && (step.ByClient? ==> step.client in s.ctx)
    requires !s.ctx[c].inTransaction && !(step.ByClient? && step.client == c && step.cmd.MULTI?)
    ensures var t := Take(s, step).system; c in t.ctx && !t.ctx[c].inTransaction
  {
    hide RunQueue, WatchLoop, Perform;
    if step.ByClient? {
      match step.cmd {
        case WATCH(keys) => WatchLoopLeavesOthers(s.(ctx := s.ctx[step.client := CLEAR]), step.client, keys, c);
        case EXEC(extra) => QueueLeavesOthers(s, step.client, step.traces, c);
        case _ =>
      }
    }
  }

  /** Over any run: after a DISCARD that answered OK the client's EXEC is an error that
      changes nothing, until it sends another MULTI. */
  lemma {:induction false} ExecAfterDiscard<C>(run: seq<System<Store, C>>, steps: seq<Step<C>>, i: nat, j: nat, c: C)
    requires IsRun(run, steps) && i < j <= |steps|
    requires steps[i].ByClient? && steps[i].client == c && steps[i].cmd == DISCARD(0)
    requires Take(run[i], steps[i]).answer == Good
    requires forall m :: i < m < j ==> !(steps[m].ByClient? && steps[m].client == c && steps[m].cmd.MULTI?)
    ensures c in run[j].ctx && !run[j].ctx[c].inTransaction
    ensures forall more :: Process(run[j], c, EXEC(0), more) == Next(run[j], [], Error)
  {
    hide Take;
    if j == i + 1 {
      AfterDiscard(run[i], c, steps[i].traces);
    } else {
      ExecAfterDiscard(run, steps, i, j - 1, c);
      OnlyMultiOpens(run[j - 1], steps[j - 1], c);
    }
  }

  lemma AfterDiscard<C>(s: System<Store, C>, c: C, traces: seq<seq<TimedCall>>)
    requires c in s.ctx && Take(s, ByClient(c, DISCARD(0), traces)).answer == Good
    ensures var t := Take(s, ByClient(c, DISCARD(0), traces)).system; c in t.ctx && !t.ctx[c].inTransaction
  {
    hide UnregisterAll;
    DiscardActs(s, c, 0, traces, []);
  }

  // ------------------------------------------------------- WATCH, call by call

  /** The call, made on store `d`, counts as a change of `k`. */
  ghost predicate Changes(d: Store, c: TimedCall, k: Key) {
    match c
    case UpdatePlain(j, _, _, _) => j == k
    case UpdateFor(j, _, _, _, _, _) => j == k
    case InsertPlain(j, _, _, _) => j == k && k !in d.db.records
    case InsertFor(j, _, _, _, _, _) => j == k && k !in d.db.records
    case Remove(j, _) => j == k && k in d.db.records
    case LookUp(j, now, _) => j == k && k in d.db.records && k in d.ttl && now > d.ttl[k]
    case Change(j, _, now, _) => j == k && k in d.db.records && k in d.ttl && now > d.ttl[k]
    case Sweep(now, _) => k in d.db.records && k in d.ttl && now > d.ttl[k]
    case SetTtl(_, _, _) => false
    case RemoveTtl(_) => false
  }

  ghost predicate ChangesAny(d: Store, c: TimedCall, w: set<Key>) {
    exists k :: k in w && Changes(d, c, k)
  }

  lemma CallTouches(d: Store, c: TimedCall, w: set<Key>)
    requires c.Sweep? ==> Sweeps(d, c.now, c.sweep)
    ensures Touches(ApplyTimed(d, c).events, w) <==> ChangesAny(d, c, w)
  {
    hide Touches, ApplyTimed;
    if c.Sweep? {
      SweepTouches(d, c.now, c.sweep, w);
    } else if c.LookUp? || c.Change? {
      LookUpTouches(d, c, w);
      assert ChangesAny(d, c, w) <==> c.key in w && Changes(d, c, c.key);
    } else {
      WriteTouches(d, c, w);
      assert ChangesAny(d, c, w) <==> c.key in w && Changes(d, c, c.key);
    }
  }

  lemma WriteTouches(d: Store, c: TimedCall, w: set<Key>)
    requires !c.Sweep? && !c.LookUp? && !c.Change?
    ensures Touches(ApplyTimed(d, c).events, w) <==> c.key in w && Changes(d, c, c.key)
  {
    hide Touches, ApplyTimed;
    WriteEvents(d, c);
    TouchesOfOne(ApplyTimed(d, c).events, c.key, w);
  }

  /** All events of a write that are notified are about its key, and there is one exactly if
      the write changes it. */
  lemma WriteEvents(d: Store, c: TimedCall)
    requires !c.Sweep? && !c.LookUp? && !c.Change?
    ensures var events := ApplyTimed(d, c).events;
            && (forall e :: e in events && Notifying(e) ==> e.key == c.key)
            && (Changes(d, c, c.key) <==> events != [] && Notifying(events[0]))
            && (Changes(d, c, c.key) <==> exists e :: e in events && Notifying(e))
  {
    hide Touch, RemoveKey, InsertKey, EvictAll, Victims;
    var events := ApplyTimed(d, c).events;
    if Changes(d, c, c.key) { assert events[0] in events; }
  }

  lemma TouchesOfOne(events: seq<DbEvent>, k: Key, w: set<Key>)
    requires forall e :: e in events && Notifying(e) ==> e.key == k
    ensures Touches(events, w) <==> k in w && exists e :: e in events && Notifying(e)
  {
  }

  /** The keys a notification reaches `c` by: it watches them and is registered for them. */
  ghost function Heard<C>(s: System<Store, C>, c: C): set<Key>
    requires c in s.ctx
  {
    set k | k in s.ctx[c].watched && k in s.deps && c in s.deps[k]
  }

  lemma NotifyReaches<C>(s: System<Store, C>, c: C, events: seq<DbEvent>)
    requires c in s.ctx
    ensures var ctx := Notify(s.deps, s.ctx, NotifiedKeys(events));
            c in ctx && ctx[c] == s.ctx[c].(dirty := s.ctx[c].dirty || Touches(events, Heard(s, c)))
  {
    if Touches(events, Heard(s, c)) {
      var e :| e in events && Notifying(e) && e.key in Heard(s, c);
      assert e.key in NotifiedKeys(events);
    }
    if Hears(s.deps, s.ctx, NotifiedKeys(events), c) {
      var k :| k in NotifiedKeys(events) && k in s.deps && c in s.deps[k] && k in s.ctx[c].watched;
      var e :| e in events && Notifying(e) && e.key == k;
    }
  }

  /** Any client outside a transaction makes one call.  Whoever watches its key and is
      registered for it becomes dirty exactly by an update, the key stored or not, an
      insertion of a key that is not stored, a deletion of one that is, or a lookup of one
      that is stored past its deadline; and then its EXEC answers (nil). */
  lemma CallDirties<C>(s: System<Store, C>, d: C, r: Request, call: TimedCall, c: C, more: seq<seq<TimedCall>>)
    requires d in s.ctx && !s.ctx[d].inTransaction && Answers(call, r, s.store.db) && PossibleTimed(s.store, call)
    requires c in s.ctx && !call.Sweep?
    ensures var t := Take(s, ByClient(d, Data(Asking(r)), [[call]])).system;
            var k, stored := call.key, call.key in s.store.db.records;
            var heard := k in s.ctx[c].watched && k in s.deps && c in s.deps[k];
            && c in t.ctx && t.ctx[c] == s.ctx[c].(dirty := t.ctx[c].dirty)
            && (t.ctx[c].dirty <==>
                  || s.ctx[c].dirty
                  || (heard && (call.UpdatePlain? || call.UpdateFor?))
                  || (heard && !stored && (call.InsertPlain? || call.InsertFor?))
                  || (heard && stored && call.Remove?)
                  || (heard && stored && k in s.store.ttl
                      && (call.LookUp? || call.Change?) && call.now > s.store.ttl[k]))
            && (t.ctx[c].inTransaction && t.ctx[c].dirty ==> Process(t, c, EXEC(0), more).answer == Nil)
  {
    hide Take, Touches, ApplyTimed, PossibleTimed, Answers, Notify, NotifiedKeys;
    var w, k := Heard(s, c), call.key;
    AskingStep(s, d, r, call);
    NotifyReaches(s, c, ApplyTimed(s.store, call).events);
    CallTouches(s.store, call, w);
    assert ChangesAny(s.store, call, w) <==> k in w && Changes(s.store, call, k);
    ExecRefuses(Take(s, ByClient(d, Data(Asking(r)), [[call]])).system, c, 0, more);
  }

  /** A sweep makes `c` dirty exactly if some key it watches and is registered for is stored
      past its deadline. */
  lemma SweepDirties<C>(s: System<Store, C>, now: int, sweep: seq<(Key, nat)>, c: C, more: seq<seq<TimedCall>>)
    requires PossibleStep(s, Expire(now, sweep)) && c in s.ctx
    ensures var t := Take(s, Expire(now, sweep)).system;
            && c in t.ctx && t.ctx[c] == s.ctx[c].(dirty := t.ctx[c].dirty)
            && (t.ctx[c].dirty <==>
                  s.ctx[c].dirty
                  || exists k :: k in s.ctx[c].watched && k in s.deps && c in s.deps[k]
                                 && k in s.store.db.records && k in s.store.ttl && now > s.store.ttl[k])
            && (t.ctx[c].inTransaction && t.ctx[c].dirty ==> Process(t, c, EXEC(0), more).answer == Nil)
  {
    hide Touches, ApplyTimed, PossibleSweep, Notify, NotifiedKeys;
    NotifyReaches(s, c, ApplyTimed(s.store, Sweep(now, sweep)).events);
    SweepTouches(s.store, now, sweep, Heard(s, c));
    ExecRefuses(Take(s, Expire(now, sweep)).system, c, 0, more);
  }

  /** The calls a script makes, each with the store it finds. */
  function Trail(p: Script, d: Store, calls: seq<TimedCall>): seq<(Store, TimedCall)>
    decreases |calls|
  {
    if !p.Do? || calls == [] then []
    else
      var r := ApplyTimed(d, calls[0]);
      [(d, calls[0])] + Trail(p.next(r.outcome), r.store, calls[1..])
  }

  /** The calls the queue of `c` makes, up to the command that throws. */
  ghost function QueueTrail<C>(s: System<Store, C>, c: C, traces: seq<seq<TimedCall>>): seq<(Store, TimedCall)>
    requires c in s.ctx
    decreases |traces|
  {
    if s.ctx[c].commands == [] || traces == [] then []
    else
      var (t, f) := RunProgram(s, s.ctx[c].commands[0], traces[0]);
      Trail(s.ctx[c].commands[0], s.store, traces[0])
      + if f.ending.Threw? then [] else QueueTrail(Popped(t, c), c, traces[1..])
  }

  /** The calls a step makes. */
  ghost function StepTrail<C>(s: System<Store, C>, step: Step<C>): seq<(Store, TimedCall)>
    requires PossibleStep(s, step)
  {
    match step
    case Expire(now, sweep) => [(s.store, Sweep(now, sweep))]
    case ByClient(c, cmd, traces) =>
      match cmd
      case Data(p) => if s.ctx[c].inTransaction then [] else Trail(p, s.store, traces[0])
      case EXEC(extra) =>
        if extra == 0 && s.ctx[c].inTransaction && !s.ctx[c].dirty then QueueTrail(s, c, traces) else []
      case _ => []
  }

  /** One of the calls changes one of the keys. */
  ghost predicate SomeChange(trail: seq<(Store, TimedCall)>, w: set<Key>) {
    exists i :: 0 <= i < |trail| && ChangesAny(trail[i].0, trail[i].1, w)
  }

  lemma SomeChangeConcat(a: seq<(Store, TimedCall)>, b: seq<(Store, TimedCall)>, w: set<Key>)
    ensures SomeChange(a + b, w) <==> SomeChange(a, w) || SomeChange(b, w)
  {
    hide ChangesAny;
    var all := a + b;
    if i :| 0 <= i < |a| && ChangesAny(a[i].0, a[i].1, w) { assert all[i] == a[i]; }
    if i :| 0 <= i < |b| && ChangesAny(b[i].0, b[i].1, w) { assert all[|a| + i] == b[i]; }
  }

  lemma SomeChangeSingle(x: (Store, TimedCall), w: set<Key>)
    ensures SomeChange([x], w) <==> ChangesAny(x.0, x.1, w)
  {
    hide ChangesAny;
    assert [x][0] == x;
  }

  lemma {:induction false} TrailTouches(p: Script, d: Store, calls: seq<TimedCall>, w: set<Key>)
    requires Performs(p, d, calls)
    ensures Touches(Perform(p, d, calls).events, w) <==> SomeChange(Trail(p, d, calls), w)
    decreases |calls|
  {
    hide Touches, ApplyTimed, PossibleTimed, ChangesAny, SomeChange;
    if p.Do? {
      var r := ApplyTimed(d, calls[0]);
      var q := p.next(r.outcome);
      TrailTouches(q, r.store, calls[1..], w);
      CallTouches(d, calls[0], w);
      TouchesConcat(r.events, Perform(q, r.store, calls[1..]).events, w);
      SomeChangeSingle((d, calls[0]), w);
      SomeChangeConcat([(d, calls[0])], Trail(q, r.store, calls[1..]), w);
    } else {
      NothingChanges(w);
    }
  }

  lemma NothingChanges(w: set<Key>)
    ensures !Touches([], w) && !SomeChange([], w)
  {
  }

  lemma {:induction false} QueueTrailTouches<C>(s: System<Store, C>, c: C, traces: seq<seq<TimedCall>>, w: set<Key>)
    requires c in s.ctx && PossibleQueue(s, c, traces)
    ensures Touches(RunQueue(s, c, traces).events, w) <==> SomeChange(QueueTrail(s, c, traces), w)
    decreases |traces|
  {
    hide Touches, SomeChange, Perform, Performs, Trail, RunProgram;
    NothingChanges(w);
    if s.ctx[c].commands != [] {
      var p, calls := s.ctx[c].commands[0], traces[0];
      var (t, f) := RunProgram(s, p, calls);
      ProgramKeepsQueue(s, p, calls, c);
      TrailTouches(p, s.store, calls, w);
      if f.ending.Threw? {
        assert Trail(p, s.store, calls) + [] == Trail(p, s.store, calls);
      } else {
        var u := Popped(t, c);
        QueueTrailTouches(u, c, traces[1..], w);
        TouchesConcat(f.events, RunQueue(u, c, traces[1..]).events, w);
        SomeChangeConcat(Trail(p, s.store, calls), QueueTrail(u, c, traces[1..]), w);
      }
    }
  }

  lemma StepTrailTouches<C>(s: System<Store, C>, step: Step<C>, w: set<Key>)
    requires PossibleStep(s, step)
    ensures Touches(Take(s, step).events, w) <==> SomeChange(StepTrail(s, step), w)
  {
    hide Touches, SomeChange, ChangesAny, Perform, Performs, Trail, PossibleQueue, RunQueue, QueueTrail;
    hide ApplyTimed, PossibleSweep, Notify, NotifiedKeys;
    NothingChanges(w);
    match step {
      case Expire(now, sweep) =>
        CallTouches(s.store, Sweep(now, sweep), w);
        SomeChangeSingle((s.store, Sweep(now, sweep)), w);
      case ByClient(c, cmd, traces) =>
        match cmd {
          case Data(p) => if !s.ctx[c].inTransaction { TrailTouches(p, s.store, traces[0], w); }
          case EXEC(extra) =>
            if extra == 0 && s.ctx[c].inTransaction && !s.ctx[c].dirty { QueueTrailTouches(s, c, traces, w); }
          case _ =>
        }
    }
  }

  /** Step `m` makes a call that changes one of `w`. */
  ghost predicate ChangesAt<C>(run: seq<System<Store, C>>, steps: seq<Step<C>>, m: nat, w: set<Key>)
    requires m < |run| && m < |steps| && PossibleStep(run[m], steps[m])
  {
    SomeChange(StepTrail(run[m], steps[m]), w)
  }

  /** The promise of WATCH in terms of calls: over any possible run of any clients and the
      expiry thread, the EXEC of the transaction answers (nil) exactly if, since the WATCH,
      some call of some step, queued or not, changed one of the keys named. */
  lemma WatchPromiseByCalls<C>(run: seq<System<Store, C>>, steps: seq<Step<C>>, i: nat, j: nat, c: C, keys: seq<Key>)
    requires IsRun(run, steps) && i < j < |steps| && WatchesAt(run, steps, i, c, keys)
    requires forall m :: i < m < j ==> PossibleStep(run[m], steps[m]) && !ResetsAt(run, steps, m, c)
    requires steps[j].ByClient? && steps[j].client == c && steps[j].cmd == EXEC(0) && run[j].ctx[c].inTransaction
    ensures var w := set k | k in keys;
            Take(run[j], steps[j]).answer == Nil <==> exists m :: i < m < j && ChangesAt(run, steps, m, w)
  {
    hide Touches, Take, ResetsAt, PossibleStep, StepTrail, SomeChange, WatchesAt;
    var w := set k | k in keys;
    WatchPromise(run, steps, i, j, c, keys);
    forall m | i < m < j ensures TouchesAt(run, steps, m, w) <==> ChangesAt(run, steps, m, w) {
      StepTrailTouches(run[m], steps[m], w);
    }
  }
}
