/** Optimistic transactions: WATCH, MULTI, EXEC and DISCARD over any number of
    clients, as a state machine whose steps are whole commands.

    Sources: include/ClientManager/Client.h:121-143,
    include/ClientManager/TransactionContext.h,
    include/CommandProcessor/CommandProcessor.h:36-53, include/Database/Database.h:156-232
    and the four command files of TransactionCommands.

    Commands run on the database with deadlines of module Expiry, as src/server.cpp sets
    it up.  `C` is the identity of a client, in the program a pointer to it.
 */
module Transactions {
  import opened Bytes
  import opened Values
  import opened Keyspace
  import opened Expiry

  /** An operation a command asks of the database.  `AskChange` is a lookup whose caller
      changes the record it found in place. */
  datatype Request =
    | AskInsert(key: Key, value: Value)
    | AskInsertFor(key: Key, value: Value, ttlSeconds: nat)
    | AskUpdate(key: Key, value: Value)
    | AskUpdateFor(key: Key, value: Value, ttlSeconds: nat)
    | AskGet(key: Key)
    | AskChange(key: Key, change: Value -> Value)
    | AskDelete(key: Key)
    | AskSetTtl(key: Key, seconds: int)
    | AskRemoveTtl(key: Key)

  /** A data command as it behaves: it asks for operations, goes on according to what
      they return or whether they throw, and ends with a reply or by throwing. */
  datatype Script =
    | Return(reply: Str)
    | Throw
    | Do(request: Request, next: Outcome -> Script)

  /** Whatever the database answers, the script asks at most `n` times. */
  ghost predicate EndsWithin(p: Script, n: nat)
    decreases n
  {
    p.Do? ==> n > 0 && forall o: Outcome :: EndsWithin(p.next(o), n - 1)
  }

  ghost predicate Ends(p: Script) {
    exists n: nat :: EndsWithin(p, n)
  }

  /** A script that ends. */
  type Program = p: Script | Ends(p) witness Silent()

  function Silent(): (p: Script)
    ensures Ends(p)
  {
    assert EndsWithin(Return([]), 0);
    Return([])
  }

  datatype Ending = Returned(reply: Str) | Threw

  datatype Performance = Performance(store: Store, events: seq<DbEvent>, ending: Ending)

  /** What a change in place writes; of no account when nothing is found. */
  function Changed(d: Db, k: Key, change: Value -> Value): Value {
    if k in d.records then change(d.records[k]) else StringValue([])
  }

  /** `c` is what was asked, the environment's part added. */
  predicate Answers(c: TimedCall, r: Request, d: Db) {
    match r
    case AskInsert(k, v) => c.InsertPlain? && c.key == k && c.value == v
    case AskInsertFor(k, v, n) => c.InsertFor? && c.key == k && c.value == v && c.seconds == n
    case AskUpdate(k, v) => c.UpdatePlain? && c.key == k && c.value == v
    case AskUpdateFor(k, v, n) => c.UpdateFor? && c.key == k && c.value == v && c.seconds == n
    case AskGet(k) => c.LookUp? && c.key == k
    case AskChange(k, f) => c.Change? && c.key == k && c.value == Changed(d, k, f)
    case AskDelete(k) => c.Remove? && c.key == k
    case AskSetTtl(k, n) => c.SetTtl? && c.key == k && c.ttlSeconds == n
    case AskRemoveTtl(k) => c == RemoveTtl(k)
  }

  /** `calls` is one way for the environment to let `p` run to its end from `d`. */
  ghost predicate Performs(p: Script, d: Store, calls: seq<TimedCall>)
    decreases |calls|
  {
    match p
    case Return(_) => calls == []
    case Throw => calls == []
    case Do(r, next) =>
      && calls != [] && Answers(calls[0], r, d.db) && PossibleTimed(d, calls[0])
      && Performs(next(ApplyTimed(d, calls[0]).outcome), ApplyTimed(d, calls[0]).store, calls[1..])
  }

  function Perform(p: Script, d: Store, calls: seq<TimedCall>): Performance
    decreases |calls|
  {
    match p
    case Return(t) => Performance(d, [], Returned(t))
    case Throw => Performance(d, [], Threw)
    case Do(_, next) =>
      if calls == [] then Performance(d, [], Threw)
      else
        var r := ApplyTimed(d, calls[0]);
        var rest := Perform(next(r.outcome), r.store, calls[1..]);
        Performance(rest.store, r.events + rest.events, rest.ending)
  }

  /** Running a script is making its first call and running the rest. */
  lemma FirstCall(p: Script, d: Store, call: TimedCall, calls: seq<TimedCall>)
    requires p.Do?
    ensures var e := ApplyTimed(d, call);
            var rest := Perform(p.next(e.outcome), e.store, calls);
            && Perform(p, d, [call] + calls) == Performance(rest.store, e.events + rest.events, rest.ending)
            && (&& Answers(call, p.request, d.db) && PossibleTimed(d, call)
                && Performs(p.next(e.outcome), e.store, calls)
                ==> Performs(p, d, [call] + calls))
  {
    hide ApplyTimed, PossibleTimed, Answers;
    assert ([call] + calls)[1..] == calls;
  }

  /** The last call of a script. */
  lemma LastCall(p: Script, d: Store, call: TimedCall)
    requires p.Do? && !p.next(ApplyTimed(d, call).outcome).Do?
    ensures var e := ApplyTimed(d, call);
            var q := p.next(e.outcome);
            && Perform(p, d, [call])
               == Performance(e.store, e.events, if q.Return? then Returned(q.reply) else Threw)
            && (Answers(call, p.request, d.db) && PossibleTimed(d, call) ==> Performs(p, d, [call]))
  {
    hide ApplyTimed, PossibleTimed, Answers;
    FirstCall(p, d, call, []);
    var e := ApplyTimed(d, call);
    assert [call] + [] == [call] && e.events + [] == e.events;
  }

  // --------------------------------------------------------------- state

  /** The transaction state of one client. */
  datatype Context = Context(inTransaction: bool, dirty: bool, commands: seq<Program>, watched: set<Key>)

  const CLEAR: Context := Context(false, false, [], {})

  /** A database, who observes which key, and the state of each client. */
  datatype System<D, C> = System(store: D, deps: map<Key, set<C>>, ctx: map<C, Context>)

  datatype Answer = Good | Nil | Queued | Error | Replies(texts: seq<Str>)

  datatype Command =
    | WATCH(keys: seq<Key>)
    | MULTI(extra: nat)      // number of superfluous arguments
    | EXEC(extra: nat)
    | DISCARD(extra: nat)
    | Data(program: Program)

  datatype Next<C> = Next(system: System<Store, C>, events: seq<DbEvent>, answer: Answer)

  predicate Notifying(e: DbEvent) {
    e.Put? || e.Overwrote? || e.Dropped?
  }

  /** The keys whose observers the operations notify.  An eviction and a change through
      a record pointer notify nobody. */
  ghost function NotifiedKeys(events: seq<DbEvent>): set<Key> {
    set e | e in events && Notifying(e) :: e.key
  }

  /** Client `c` observes and watches one of `keys`. */
  ghost predicate Hears<C>(deps: map<Key, set<C>>, ctx: map<C, Context>, keys: set<Key>, c: C) {
    c in ctx && exists k :: k in keys && k in deps && c in deps[k] && k in ctx[c].watched
  }

  ghost function Notify<C>(deps: map<Key, set<C>>, ctx: map<C, Context>, keys: set<Key>): map<C, Context> {
    map c | c in ctx :: if Hears(deps, ctx, keys, c) then ctx[c].(dirty := true) else ctx[c]
  }

  ghost function Register<C>(deps: map<Key, set<C>>, k: Key, c: C): map<Key, set<C>> {
    deps[k := (if k in deps then deps[k] else {}) + {c}]
  }

  ghost function Unregister<C>(deps: map<Key, set<C>>, k: Key, c: C): map<Key, set<C>> {
    if k !in deps then deps
    else if deps[k] - {c} == {} then deps - {k} else deps[k := deps[k] - {c}]
  }

  /** Unregister `c` from all of `keys`; entries without observers go. */
  ghost function UnregisterAll<C>(deps: map<Key, set<C>>, keys: set<Key>, c: C): map<Key, set<C>> {
    map k | k in deps && !(k in keys && deps[k] - {c} == {}) :: if k in keys then deps[k] - {c} else deps[k]
  }

  ghost function ClearTransaction<D, C>(s: System<D, C>, c: C): System<D, C>
    requires c in s.ctx
  {
    System(s.store, UnregisterAll(s.deps, s.ctx[c].watched, c), s.ctx[c := CLEAR])
  }

  // ------------------------------------------------------------- commands

  /** The loop of WATCH: stops at the first key that is not stored. */
  ghost function WatchLoop<C>(s: System<Store, C>, c: C, keys: seq<Key>): (System<Store, C>, bool)
    requires c in s.ctx
    decreases |keys|
  {
    if keys == [] then (s, true)
    else
      var t := s.(ctx := s.ctx[c := s.ctx[c].(watched := s.ctx[c].watched + {keys[0]})]);
      if keys[0] !in s.store.db.records then (t, false)
      else WatchLoop(t.(deps := Register(s.deps, keys[0], c)), c, keys[1..])
  }

  /** Run a program for any caller: the database changes and observers hear of it. */
  ghost function RunProgram<C>(s: System<Store, C>, p: Script, calls: seq<TimedCall>): (System<Store, C>, Performance) {
    var f := Perform(p, s.store, calls);
    (System(f.store, s.deps, Notify(s.deps, s.ctx, NotifiedKeys(f.events))), f)
  }

  /** The queue of `c` without its head. */
  ghost function Popped<C>(s: System<Store, C>, c: C): System<Store, C>
    requires c in s.ctx && s.ctx[c].commands != []
  {
    s.(ctx := s.ctx[c := s.ctx[c].(commands := s.ctx[c].commands[1..])])
  }

  /** The loop of EXEC: run the head of the queue, and drop it unless it threw, which
      ends the loop.  `traces` has the calls of each command that runs. */
  ghost function RunQueue<C>(s: System<Store, C>, c: C, traces: seq<seq<TimedCall>>): Next<C>
    requires c in s.ctx
    decreases |traces|
  {
    if s.ctx[c].commands == [] || traces == [] then Next(s, [], Replies([]))
    else
      var (t, f) := RunProgram(s, s.ctx[c].commands[0], traces[0]);
      if f.ending.Threw? then Next(t, f.events, Error)
      else
        var rest := RunQueue(Popped(t, c), c, traces[1..]);
        Next(rest.system, f.events + rest.events,
             if rest.answer.Replies? then Replies([f.ending.reply] + rest.answer.texts) else rest.answer)
  }

  /** `traces` accounts for every command that runs, up to the first that throws. */
  ghost predicate PossibleQueue<C>(s: System<Store, C>, c: C, traces: seq<seq<TimedCall>>)
    requires c in s.ctx
    decreases |traces|
  {
    if s.ctx[c].commands == [] then traces == []
    else
      && traces != [] && Performs(s.ctx[c].commands[0], s.store, traces[0])
      && var (t, f) := RunProgram(s, s.ctx[c].commands[0], traces[0]);
         if f.ending.Threw? then |traces| == 1
         else PossibleQueue(Popped(t, c), c, traces[1..])
  }

  ghost function Exec<C>(s: System<Store, C>, c: C, traces: seq<seq<TimedCall>>): Next<C>
    requires c in s.ctx
  {
    if !s.ctx[c].inTransaction then Next(s, [], Error)
    else if s.ctx[c].dirty then Next(ClearTransaction(s, c), [], Nil)
    else
      var r := RunQueue(s, c, traces);
      if r.answer.Error? then r
      else
        assert c in r.system.ctx by { QueueKeepsClients(s, c, traces); }
        Next(ClearTransaction(r.system, c), r.events, if r.answer == Replies([]) then Good else r.answer)
  }

  lemma {:induction false} QueueKeepsClients<C>(s: System<Store, C>, c: C, traces: seq<seq<TimedCall>>)
    requires c in s.ctx
    ensures RunQueue(s, c, traces).system.ctx.Keys == s.ctx.Keys
    decreases |traces|
  {
    if s.ctx[c].commands != [] && traces != [] {
      var (t, f) := RunProgram(s, s.ctx[c].commands[0], traces[0]);
      if f.ending.Returned? {
        QueueKeepsClients(Popped(t, c), c, traces[1..]);
      }
    }
  }

  /** One command of client `c`.  `traces` is what the environment lets happen: one
      list of calls for each program that runs. */
  ghost function Process<C>(s: System<Store, C>, c: C, cmd: Command, traces: seq<seq<TimedCall>>): Next<C>
    requires c in s.ctx
  {
    match cmd
    case WATCH(keys) =>
      if keys == [] || s.ctx[c].inTransaction then Next(s, [], Error)
      else
        var (t, ok) := WatchLoop(s.(ctx := s.ctx[c := CLEAR]), c, keys);
        Next(t, [], if ok then Good else Error)
    case MULTI(extra) =>
      if extra > 0 || s.ctx[c].inTransaction then Next(s, [], Error)
      else Next(s.(ctx := s.ctx[c := s.ctx[c].(commands := [], inTransaction := true)]), [], Good)
    case EXEC(extra) => if extra > 0 then Next(s, [], Error) else Exec(s, c, traces)
    case DISCARD(extra) =>
      if extra > 0 || !s.ctx[c].inTransaction then Next(s, [], Error)
      else Next(ClearTransaction(s, c), [], Good)
    case Data(p) =>
      if s.ctx[c].inTransaction then
        Next(s.(ctx := s.ctx[c := s.ctx[c].(commands := s.ctx[c].commands + [p])]), [], Queued)
      else if traces == [] then Next(s, [], Error)
      else
        var (t, f) := RunProgram(s, p, traces[0]);
        Next(t, f.events, if f.ending.Threw? then Error else Replies([f.ending.reply]))
  }

  ghost predicate PossibleProcess<C>(s: System<Store, C>, c: C, cmd: Command, traces: seq<seq<TimedCall>>)
    requires c in s.ctx
  {
    match cmd
    case EXEC(extra) => extra == 0 && s.ctx[c].inTransaction && !s.ctx[c].dirty ==> PossibleQueue(s, c, traces)
    case Data(p) => !s.ctx[c].inTransaction ==> |traces| == 1 && Performs(p, s.store, traces[0])
    case _ => true
  }

  // ------------------------------------------------------------------ WATCH

  /** Client `c` watches exactly the keys `w`, and is registered for all of them. */
  ghost predicate Watching<C>(s: System<Store, C>, c: C, w: set<Key>) {
    && c in s.ctx && s.ctx[c].watched == w
    && forall k :: k in w ==> k in s.deps && c in s.deps[k]
  }

  /** The command makes `c` give up what it watches. */
  ghost predicate Resets<C>(s: System<Store, C>, c: C, cmd: Command, traces: seq<seq<TimedCall>>)
    requires c in s.ctx
  {
    match cmd
    case WATCH(keys) => keys != [] && !s.ctx[c].inTransaction
    case EXEC(extra) =>
      extra == 0 && s.ctx[c].inTransaction && (s.ctx[c].dirty || !RunQueue(s, c, traces).answer.Error?)
    case DISCARD(extra) => extra == 0 && s.ctx[c].inTransaction
    case _ => false
  }

  ghost predicate Touches(events: seq<DbEvent>, w: set<Key>) {
    exists e :: e in events && Notifying(e) && e.key in w
  }

  lemma {:induction false} WatchLoopWatches<C>(s: System<Store, C>, c: C, keys: seq<Key>, w: set<Key>)
    requires Watching(s, c, w) && WatchLoop(s, c, keys).1
    ensures var t := WatchLoop(s, c, keys).0;
            Watching(t, c, w + (set k | k in keys)) && t.ctx[c].dirty == s.ctx[c].dirty
            && t.ctx[c].inTransaction == s.ctx[c].inTransaction && t.store == s.store
    decreases |keys|
  {
    if keys == [] {
      assert w + (set k | k in keys) == w;
    } else {
      var t := s.(ctx := s.ctx[c := s.ctx[c].(watched := w + {keys[0]})], deps := Register(s.deps, keys[0], c));
      WatchLoopWatches(t, c, keys[1..], w + {keys[0]});
      assert w + {keys[0]} + (set k | k in keys[1..]) == w + (set k | k in keys);
    }
  }

  /** After WATCH answered OK the client watches exactly the keys named, registered
      for all of them, and is not dirty, whatever it watched before. */
  lemma WatchStartsWatching<C>(s: System<Store, C>, c: C, keys: seq<Key>, traces: seq<seq<TimedCall>>)
    requires c in s.ctx && Process(s, c, WATCH(keys), traces).answer == Good
    ensures var t := Process(s, c, WATCH(keys), traces).system;
            Watching(t, c, set k | k in keys) && !t.ctx[c].dirty && !t.ctx[c].inTransaction && t.store == s.store
  {
    WatchLoopWatches(s.(ctx := s.ctx[c := CLEAR]), c, keys, {});
    assert {} + (set k | k in keys) == set k | k in keys;
  }

  lemma NotifyDirties<C>(s: System<Store, C>, c: C, w: set<Key>, events: seq<DbEvent>)
    requires Watching(s, c, w)
    ensures var ctx := Notify(s.deps, s.ctx, NotifiedKeys(events));
            && ctx[c] == s.ctx[c].(dirty := s.ctx[c].dirty || Touches(events, w))
            && ctx.Keys == s.ctx.Keys
  {
    if Touches(events, w) {
      var e :| e in events && Notifying(e) && e.key in w;
      assert e.key in NotifiedKeys(events);
    }
    if Hears(s.deps, s.ctx, NotifiedKeys(events), c) {
      var k :| k in NotifiedKeys(events) && k in s.deps && c in s.deps[k] && k in s.ctx[c].watched;
      var e :| e in events && Notifying(e) && e.key == k;
    }
  }

  lemma TouchesConcat(a: seq<DbEvent>, b: seq<DbEvent>, w: set<Key>)
    ensures Touches(a + b, w) <==> Touches(a, w) || Touches(b, w)
  {
    if Touches(a, w) { var e :| e in a && Notifying(e) && e.key in w; assert e in a + b; }
    if Touches(b, w) { var e :| e in b && Notifying(e) && e.key in w; assert e in a + b; }
  }

  /** Running a program keeps who watches what, and makes dirty exactly those whose
      watched keys it touched. */
  lemma ProgramAndWatching<C>(s: System<Store, C>, p: Script, calls: seq<TimedCall>, c: C, w: set<Key>)
    requires Watching(s, c, w)
    ensures var (t, f) := RunProgram(s, p, calls);
            Watching(t, c, w) && t.ctx[c] == s.ctx[c].(dirty := s.ctx[c].dirty || Touches(f.events, w))
  {
    NotifyDirties(s, c, w, Perform(p, s.store, calls).events);
  }

  lemma {:induction false} QueueAndWatching<C>(s: System<Store, C>, d: C, traces: seq<seq<TimedCall>>, c: C,
                                               w: set<Key>)
    requires d in s.ctx && Watching(s, c, w)
    ensures var r := RunQueue(s, d, traces);
            && Watching(r.system, c, w)
            && (r.system.ctx[c].dirty <==> s.ctx[c].dirty || Touches(r.events, w))
            && r.system.ctx[c].inTransaction == s.ctx[c].inTransaction
            && r.system.ctx.Keys == s.ctx.Keys
    decreases |traces|
  {
    if s.ctx[d].commands != [] && traces != [] {
      var (t, f) := RunProgram(s, s.ctx[d].commands[0], traces[0]);
      ProgramAndWatching(s, s.ctx[d].commands[0], traces[0], c, w);
      if f.ending.Returned? {
        var u := Popped(t, d);
        QueueAndWatching(u, d, traces[1..], c, w);
        TouchesConcat(f.events, RunQueue(u, d, traces[1..]).events, w);
      }
    }
  }

  lemma ClearingOther<C>(s: System<Store, C>, d: C, c: C, w: set<Key>)
    requires d in s.ctx && d != c && Watching(s, c, w)
    ensures Watching(ClearTransaction(s, d), c, w) && ClearTransaction(s, d).ctx[c] == s.ctx[c]
  {
    var t := ClearTransaction(s, d);
    forall k | k in w
      ensures k in t.deps && c in t.deps[k]
    {
      assert c in s.deps[k] - {d};
    }
  }

  lemma {:induction false} WatchLoopOfOther<C>(s: System<Store, C>, d: C, keys: seq<Key>, c: C, w: set<Key>)
    requires d in s.ctx && d != c && Watching(s, c, w)
    ensures Watching(WatchLoop(s, d, keys).0, c, w) && WatchLoop(s, d, keys).0.ctx[c] == s.ctx[c]
    ensures WatchLoop(s, d, keys).0.ctx.Keys == s.ctx.Keys
    decreases |keys|
  {
    if keys != [] && keys[0] in s.store.db.records {
      var t := s.(ctx := s.ctx[d := s.ctx[d].(watched := s.ctx[d].watched + {keys[0]})],
                  deps := Register(s.deps, keys[0], d));
      WatchLoopOfOther(t, d, keys[1..], c, w);
    }
  }

  /** Any command of any client, `c` included, that does not reset `c` leaves it
      watching, and makes it dirty exactly if it changed a watched key through an
      insert, update or delete. */
  lemma CommandAndWatching<C>(s: System<Store, C>, d: C, cmd: Command, traces: seq<seq<TimedCall>>, c: C, w: set<Key>)
    requires d in s.ctx && Watching(s, c, w)
    requires d == c ==> !Resets(s, d, cmd, traces)
    ensures var n := Process(s, d, cmd, traces);
            && Watching(n.system, c, w)
            && (n.system.ctx[c].dirty <==> s.ctx[c].dirty || Touches(n.events, w))
  {
    hide RunQueue, WatchLoop, Perform;
    match cmd {
      case WATCH(keys) =>
        if keys != [] && !s.ctx[d].inTransaction { WatchLoopOfOther(s.(ctx := s.ctx[d := CLEAR]), d, keys, c, w); }
      case EXEC(extra) =>
        if extra == 0 && s.ctx[d].inTransaction {
          if s.ctx[d].dirty {
            ClearingOther(s, d, c, w);
          } else {
            QueueAndWatching(s, d, traces, c, w);
            var r := RunQueue(s, d, traces);
            if !r.answer.Error? { ClearingOther(r.system, d, c, w); }
          }
        }
      case DISCARD(extra) =>
        if extra == 0 && s.ctx[d].inTransaction { ClearingOther(s, d, c, w); }
      case Data(p) =>
        if !s.ctx[d].inTransaction && traces != [] { ProgramAndWatching(s, p, traces[0], c, w); }
      case MULTI(_) =>
    }
  }

  // ------------------------------------------------------------------ runs

  /** One step of the server: a command of a client, or a sweep of the expiry thread. */
  datatype Step<C> =
    | ByClient(client: C, cmd: Command, traces: seq<seq<TimedCall>>)
    | Expire(now: int, sweep: seq<(Key, nat)>)

  ghost function Take<C>(s: System<Store, C>, step: Step<C>): Next<C>
    requires step.ByClient? ==> step.client in s.ctx
  {
    match step
    case ByClient(c, cmd, traces) => Process(s, c, cmd, traces)
    case Expire(now, sweep) =>
      var r := ApplyTimed(s.store, Sweep(now, sweep));
      Next(System(r.store, s.deps, Notify(s.deps, s.ctx, NotifiedKeys(r.events))), r.events, Good)
  }

  /** The environment allows the step. */
  ghost predicate PossibleStep<C>(s: System<Store, C>, step: Step<C>) {
    match step
    case ByClient(c, cmd, traces) => c in s.ctx && PossibleProcess(s, c, cmd, traces)
    case Expire(now, sweep) => PossibleTimed(s.store, Sweep(now, sweep))
  }

  ghost predicate IsRun<C>(run: seq<System<Store, C>>, steps: seq<Step<C>>) {
    && |run| == |steps| + 1
    && forall i :: 0 <= i < |steps| ==>
         && (steps[i].ByClient? ==> steps[i].client in run[i].ctx)
         && run[i + 1] == Take(run[i], steps[i]).system
  }

  /** Step `i` is a WATCH of `c` that answers OK. */
  ghost predicate WatchesAt<C>(run: seq<System<Store, C>>, steps: seq<Step<C>>, i: nat, c: C, keys: seq<Key>)
    requires IsRun(run, steps) && i < |steps|
  {
    steps[i].ByClient? && steps[i].client == c && steps[i].cmd == WATCH(keys) && Take(run[i], steps[i]).answer == Good
  }

  /** Step `i` makes `c` give up what it watches. */
  ghost predicate ResetsAt<C>(run: seq<System<Store, C>>, steps: seq<Step<C>>, i: nat, c: C)
    requires IsRun(run, steps) && i < |steps|
  {
    steps[i].ByClient? && steps[i].client == c && Resets(run[i], c, steps[i].cmd, steps[i].traces)
  }

  /** Step `i` is a sweep that finds `k` stored and past its deadline. */
  ghost predicate SweptAt<C>(run: seq<System<Store, C>>, steps: seq<Step<C>>, i: nat, k: Key)
    requires i < |steps| && i < |run| && steps[i].Expire?
  {
    Expired(run[i].store, k, steps[i].now) && k in run[i].store.db.records
  }

  /** Step `i` inserts, updates or deletes a key of `w`. */
  ghost predicate TouchesAt<C>(run: seq<System<Store, C>>, steps: seq<Step<C>>, i: nat, w: set<Key>)
    requires IsRun(run, steps) && i < |steps|
  {
    Touches(Take(run[i], steps[i]).events, w)
  }

  lemma StepAndWatching<C>(s: System<Store, C>, step: Step<C>, c: C, w: set<Key>)
    requires Watching(s, c, w) && (step.ByClient? ==> step.client in s.ctx)
    requires step.ByClient? && step.client == c ==> !Resets(s, c, step.cmd, step.traces)
    ensures var n := Take(s, step);
            && Watching(n.system, c, w)
            && (n.system.ctx[c].dirty <==> s.ctx[c].dirty || Touches(n.events, w))
  {
    hide Process, Resets, Touches, Notify;
    match step {
      case ByClient(d, cmd, traces) => CommandAndWatching(s, d, cmd, traces, c, w);
      case Expire(now, sweep) => NotifyDirties(s, c, w, ApplyTimed(s.store, Sweep(now, sweep)).events);
    }
  }

  /** Over any run of any number of clients: from a WATCH that answered OK until `c`
      next resets, `c` is dirty exactly if some step since inserted, updated or deleted
      one of the keys named. */
  lemma {:induction false} DirtyMeansModified<C>(run: seq<System<Store, C>>, steps: seq<Step<C>>, i: nat, j: nat, c: C,
                                                 keys: seq<Key>)
    requires IsRun(run, steps) && i < j <= |steps|
    requires WatchesAt(run, steps, i, c, keys)
    requires forall m :: i < m < j ==> !ResetsAt(run, steps, m, c)
    ensures var w := set k | k in keys;
            && Watching(run[j], c, w)
            && (run[j].ctx[c].dirty <==> exists m :: i < m < j && TouchesAt(run, steps, m, w))
  {
    hide Touches, Resets, Watching;
    var w := set k | k in keys;
    if j == i + 1 {
      WatchStartsWatching(run[i], c, keys, steps[i].traces);
    } else {
      DirtyMeansModified(run, steps, i, j - 1, c, keys);
      assert !ResetsAt(run, steps, j - 1, c);
      StepAndWatching(run[j - 1], steps[j - 1], c, w);
      assert TouchesAt(run, steps, j - 1, w) <==> Touches(Take(run[j - 1], steps[j - 1]).events, w);
    }
  }

  /** The promise of WATCH: the next EXEC of that transaction answers (nil) exactly if
      some step since inserted, updated or deleted a watched key, and then it changes
      no record and leaves the client clear. */
  lemma WatchPromise<C>(run: seq<System<Store, C>>, steps: seq<Step<C>>, i: nat, j: nat, c: C, keys: seq<Key>)
    requires IsRun(run, steps) && i < j < |steps|
    requires WatchesAt(run, steps, i, c, keys)
    requires forall m :: i < m < j ==> !ResetsAt(run, steps, m, c)
    requires steps[j].ByClient? && steps[j].client == c && steps[j].cmd == EXEC(0) && run[j].ctx[c].inTransaction
    ensures var w := set k | k in keys;
            Take(run[j], steps[j]).answer == Nil <==> exists m :: i < m < j && TouchesAt(run, steps, m, w)
    ensures Take(run[j], steps[j]).answer == Nil ==> run[j + 1].store == run[j].store && run[j + 1].ctx[c] == CLEAR
  {
    DirtyMeansModified(run, steps, i, j, c, keys);
    QueueAnswers(run[j], c, steps[j].traces);
  }

  lemma {:induction false} QueueAnswers<C>(s: System<Store, C>, c: C, traces: seq<seq<TimedCall>>)
    requires c in s.ctx
    ensures RunQueue(s, c, traces).answer.Replies? || RunQueue(s, c, traces).answer.Error?
    decreases |traces|
  {
    if s.ctx[c].commands != [] && traces != [] {
      var (t, f) := RunProgram(s, s.ctx[c].commands[0], traces[0]);
      if f.ending.Returned? {
        QueueAnswers(Popped(t, c), c, traces[1..]);
      }
    }
  }

  lemma CleanExecGoesAhead<C>(s: System<Store, C>, c: C, traces: seq<seq<TimedCall>>)
    requires c in s.ctx && !s.ctx[c].dirty
    ensures Exec(s, c, traces).answer != Nil
  {
    QueueAnswers(s, c, traces);
  }

  // ------------------------------------------------- expiry and other gaps

  /** A lookup changes a watched key exactly when the key is stored and its deadline has
      passed: the lookup deletes it. */
  lemma LookUpTouches(d: Store, c: TimedCall, w: set<Key>)
    requires c.LookUp? || c.Change?
    ensures Touches(ApplyTimed(d, c).events, w) <==> c.key in w && Expired(d, c.key, c.now) && c.key in d.db.records
  {
    var events := ApplyTimed(d, c).events;
    if Expired(d, c.key, c.now) && c.key in d.db.records {
      assert events[0] == Dropped(c.key);
    }
  }

  lemma {:induction false} SweepDrops(d: Db, sweep: seq<(Key, nat)>, e: DbEvent)
    ensures e in DeleteAll(d, sweep).events <==>
              e.Dropped? && e.key in d.records && exists i :: 0 <= i < |sweep| && sweep[i].0 == e.key
  {
    if sweep != [] {
      var n := |sweep| - 1;
      SweepDrops(d, sweep[..n], e);
      DeleteAllRemoves(d, sweep[..n]);
      var gone := exists i :: 0 <= i < n && sweep[i].0 == e.key;
      assert gone <==> exists i :: 0 <= i < |sweep[..n]| && sweep[..n][i].0 == e.key;
      assert gone <==> e.key in set p | p in sweep[..n] :: p.0;
    }
  }

  /** A sweep changes a watched key exactly when some watched key is stored and its
      deadline has passed. */
  lemma SweepTouches(d: Store, now: int, sweep: seq<(Key, nat)>, w: set<Key>)
    requires Sweeps(d, now, sweep)
    ensures Touches(ApplyTimed(d, Sweep(now, sweep)).events, w)
            <==> exists k :: k in w && Expired(d, k, now) && k in d.db.records
  {
    hide DeleteAll;
    var events := ApplyTimed(d, Sweep(now, sweep)).events;
    if k :| k in w && Expired(d, k, now) && k in d.db.records {
      SweepDrops(d.db, sweep, Dropped(k));
      assert k in ExpiredKeys(d, now);
      assert Dropped(k) in events && Notifying(Dropped(k));
    }
    if e :| e in events && Notifying(e) && e.key in w {
      SweepDrops(d.db, sweep, e);
    }
  }

  lemma SweepStepTouches<C>(run: seq<System<Store, C>>, steps: seq<Step<C>>, m: nat, w: set<Key>)
    requires IsRun(run, steps) && m < |steps| && steps[m].Expire? && PossibleStep(run[m], steps[m])
    ensures TouchesAt(run, steps, m, w) <==> exists k :: k in w && SweptAt(run, steps, m, k)
  {
    hide Touches, PossibleSweep, Notify, NotifiedKeys;
    var d, now := run[m].store, steps[m].now;
    SweepTouches(d, now, steps[m].sweep, w);
    assert forall k :: SweptAt(run, steps, m, k) <==> Expired(d, k, now) && k in d.db.records;
  }

  /** Expiry and WATCH together: an EXEC answers (nil) if, since the WATCH, the expiry
      thread swept while a watched key was stored and past its deadline; and in a run in
      which no client steps in between it answers (nil) only then. */
  lemma SweptKeyFailsExec<C>(run: seq<System<Store, C>>, steps: seq<Step<C>>, i: nat, j: nat, c: C, keys: seq<Key>)
    requires IsRun(run, steps) && i < j < |steps|
    requires WatchesAt(run, steps, i, c, keys)
    requires forall m :: i < m < j ==> !ResetsAt(run, steps, m, c)
    requires steps[j].ByClient? && steps[j].client == c && steps[j].cmd == EXEC(0) && run[j].ctx[c].inTransaction
    requires forall m :: i < m < j && steps[m].Expire? ==> PossibleStep(run[m], steps[m])
    ensures (exists m, k :: i < m < j && steps[m].Expire? && SweptAt(run, steps, m, k) && k in keys)
              ==> Take(run[j], steps[j]).answer == Nil
    ensures (forall m :: i < m < j ==> steps[m].Expire? || !TouchesAt(run, steps, m, set k | k in keys)) ==>
              (Take(run[j], steps[j]).answer == Nil
               <==> exists m, k :: i < m < j && steps[m].Expire? && SweptAt(run, steps, m, k) && k in keys)
  {
    hide Touches, Take, ResetsAt;
    var w := set k | k in keys;
    WatchPromise(run, steps, i, j, c, keys);
    forall m | i < m < j && steps[m].Expire?
      ensures TouchesAt(run, steps, m, w) <==> exists k :: k in w && SweptAt(run, steps, m, k)
    {
      SweepStepTouches(run, steps, m, w);
    }
  }
  /** A command that makes one request and replies with nothing. */
  function Asking(r: Request): (p: Script)
    ensures EndsWithin(p, 1) && Ends(p)
  {
    var p := Do(r, (o: Outcome) => Return([]));
    assert EndsWithin(p, 1);
    p
  }

  /** A client outside a transaction sends such a command. */
  lemma AskingStep<C>(s: System<Store, C>, d: C, r: Request, call: TimedCall)
    requires d in s.ctx && !s.ctx[d].inTransaction && Answers(call, r, s.store.db) && PossibleTimed(s.store, call)
    ensures var step, e := ByClient(d, Data(Asking(r)), [[call]]), ApplyTimed(s.store, call);
            && PossibleStep(s, step)
            && Take(s, step) == Next(System(e.store, s.deps, Notify(s.deps, s.ctx, NotifiedKeys(e.events))),
                                     e.events, Replies([[]]))
  {
    hide ApplyTimed, PossibleTimed, Answers, Perform, Performs, Notify, NotifiedKeys;
    LastCall(Asking(r), s.store, call);
    assert [[call]][0] == [call];
  }

  /** What WATCH does not promise: a change made in place, as LPUSH makes it to a list
      that exists, notifies nobody, so a client that watches the key stays clean and its
      EXEC goes ahead. */
  lemma InPlaceChangeUnnoticed<C>(s: System<Store, C>, c: C, d: C, k: Key, change: Value -> Value, now: int,
                                  traces: seq<seq<TimedCall>>)
    requires Watching(s, c, {k}) && !s.ctx[c].dirty && d in s.ctx && !s.ctx[d].inTransaction
    requires k in s.store.db.records && !Expired(s.store, k, now)
    ensures var new_ := change(s.store.db.records[k]);
            var step := ByClient(d, Data(Asking(AskChange(k, change))), [[Change(k, new_, now, 0)]]);
            var t := Take(s, step).system;
            && PossibleStep(s, step)
            && k in t.store.db.records && t.store.db.records[k] == new_
            && Watching(t, c, {k}) && !t.ctx[c].dirty && Exec(t, c, traces).answer != Nil
  {
    hide Take, Exec, Performs, Perform, PossibleStep, Touches;
    var call := Change(k, change(s.store.db.records[k]), now, 0);
    AskingStep(s, d, AskChange(k, change), call);
    LookUpTouches(s.store, call, {k});
    NotifyDirties(s, c, {k}, ApplyTimed(s.store, call).events);
    CleanExecGoesAhead(Take(s, ByClient(d, Data(Asking(AskChange(k, change))), [[call]])).system, c, traces);
  }

  /** Nor does the eviction of a watched key by another key count as a change. */
  lemma EvictionUnnoticed<C>(s: System<Store, C>, c: C, d: C, k: Key, call: TimedCall, traces: seq<seq<TimedCall>>)
    requires Watching(s, c, {k}) && !s.ctx[c].dirty && d in s.ctx && !s.ctx[d].inTransaction
    requires k in s.store.db.records && call.UpdatePlain? && call.key !in s.store.db.records
    requires PossibleTimed(s.store, call) && Lost(k) in ApplyTimed(s.store, call).events
    ensures var step := ByClient(d, Data(Asking(AskUpdate(call.key, call.value))), [[call]]);
            var t := Take(s, step).system;
            && PossibleStep(s, step)
            && k !in t.store.db.records
            && Watching(t, c, {k}) && !t.ctx[c].dirty && Exec(t, c, traces).answer != Nil
  {
    hide Take, Exec, Performs, Perform, PossibleStep;
    AskingStep(s, d, AskUpdate(call.key, call.value), call);
    NotifyDirties(s, c, {k}, ApplyTimed(s.store, call).events);
    CleanExecGoesAhead(Take(s, ByClient(d, Data(Asking(AskUpdate(call.key, call.value))), [[call]])).system, c, traces);
  }

  // ------------------------------------------------------------------- EXEC

  /** The database after the first `n` of the programs `ps`, performed one after the
      other from `d`. */
  function AfterFirst(ps: seq<Program>, d: Store, traces: seq<seq<TimedCall>>, n: nat): Store
    requires n <= |ps| && n <= |traces|
  {
    if n == 0 then d else Perform(ps[n - 1], AfterFirst(ps, d, traces, n - 1), traces[n - 1]).store
  }

  /** How the n-th program ends when its predecessors have been performed. */
  function EndOf(ps: seq<Program>, d: Store, traces: seq<seq<TimedCall>>, n: nat): Ending
    requires n < |ps| && n < |traces|
  {
    Perform(ps[n], AfterFirst(ps, d, traces, n), traces[n]).ending
  }

  lemma {:induction false} AfterFirstShift(ps: seq<Program>, d: Store, traces: seq<seq<TimedCall>>, n: nat)
    requires n < |ps| && n < |traces|
    ensures AfterFirst(ps, d, traces, n + 1) == AfterFirst(ps[1..], Perform(ps[0], d, traces[0]).store, traces[1..], n)
  {
    if n > 0 {
      AfterFirstShift(ps, d, traces, n - 1);
      assert AfterFirst(ps, d, traces, n + 1) == Perform(ps[n], AfterFirst(ps, d, traces, n), traces[n]).store;
    } else {
      assert AfterFirst(ps, d, traces, 0) == d;
    }
  }

  /** Every program of `ps` returned, with the replies `texts`. */
  ghost predicate RanAll(ps: seq<Program>, d: Store, traces: seq<seq<TimedCall>>, texts: seq<Str>) {
    |traces| == |ps| == |texts| && forall i :: 0 <= i < |ps| ==> EndOf(ps, d, traces, i) == Returned(texts[i])
  }

  /** The last program run threw; those before it returned. */
  ghost predicate LastThrew(ps: seq<Program>, d: Store, traces: seq<seq<TimedCall>>) {
    && 0 < |traces| <= |ps| && EndOf(ps, d, traces, |traces| - 1) == Threw
    && forall i :: 0 <= i < |traces| - 1 ==> EndOf(ps, d, traces, i).Returned?
  }

  lemma EndsShift(ps: seq<Program>, d: Store, traces: seq<seq<TimedCall>>, i: nat)
    requires 0 < i < |traces| && i < |ps|
    ensures EndOf(ps, d, traces, i) == EndOf(ps[1..], Perform(ps[0], d, traces[0]).store, traces[1..], i - 1)
  {
    hide Perform;
    AfterFirstShift(ps, d, traces, i - 1);
  }

  /** What the first program did, put before what the others did. */
  lemma QueueCons(ps: seq<Program>, d: Store, traces: seq<seq<TimedCall>>, texts: seq<Str>)
    requires 0 < |traces| <= |ps| && Perform(ps[0], d, traces[0]).ending.Returned?
    ensures var f := Perform(ps[0], d, traces[0]);
            && AfterFirst(ps, d, traces, |traces|) == AfterFirst(ps[1..], f.store, traces[1..], |traces| - 1)
            && (RanAll(ps[1..], f.store, traces[1..], texts) ==> RanAll(ps, d, traces, [f.ending.reply] + texts))
            && (LastThrew(ps[1..], f.store, traces[1..]) ==> LastThrew(ps, d, traces))
  {
    hide Perform;
    AfterFirstShift(ps, d, traces, |traces| - 1);
    assert AfterFirst(ps, d, traces, 0) == d;
    forall i | 0 < i < |traces|
      ensures EndOf(ps, d, traces, i) == EndOf(ps[1..], Perform(ps[0], d, traces[0]).store, traces[1..], i - 1)
    {
      EndsShift(ps, d, traces, i);
    }
  }

  lemma QueueSingle(ps: seq<Program>, d: Store, traces: seq<seq<TimedCall>>)
    requires |traces| == 1 <= |ps|
    ensures AfterFirst(ps, d, traces, 1) == Perform(ps[0], d, traces[0]).store
    ensures Perform(ps[0], d, traces[0]).ending.Threw? ==> LastThrew(ps, d, traces)
  {
    hide Perform;
    assert AfterFirst(ps, d, traces, 0) == d;
  }

  lemma QueueEmpty(d: Store)
    ensures AfterFirst([], d, [], 0) == d && RanAll([], d, [], [])
  {
  }

  lemma ProgramKeepsQueue<C>(s: System<Store, C>, p: Script, calls: seq<TimedCall>, c: C)
    requires c in s.ctx
    ensures var (t, f) := RunProgram(s, p, calls);
            && f == Perform(p, s.store, calls) && t.store == f.store && c in t.ctx
            && t.ctx[c].commands == s.ctx[c].commands && t.ctx[c].inTransaction == s.ctx[c].inTransaction
  {
    hide Perform;
  }

  /** The loop of EXEC runs the queue strictly in order, each command once.  If it gets
      to the end, every command returned, the replies are theirs in order, and the
      queue is empty.  If it stops, the last command run threw, all before it returned,
      and the queue is what is left, starting with the one that threw. */
  lemma {:induction false} QueueRunsInOrder<C>(s: System<Store, C>, c: C, traces: seq<seq<TimedCall>>)
    requires c in s.ctx && PossibleQueue(s, c, traces)
    ensures var r, ps := RunQueue(s, c, traces), s.ctx[c].commands;
            && |traces| <= |ps| && c in r.system.ctx
            && r.system.store == AfterFirst(ps, s.store, traces, |traces|)
            && r.system.ctx[c].inTransaction == s.ctx[c].inTransaction
            && (r.answer.Replies? || r.answer.Error?)
            && (r.answer.Replies? ==> RanAll(ps, s.store, traces, r.answer.texts) && r.system.ctx[c].commands == [])
            && (r.answer.Error? ==> LastThrew(ps, s.store, traces) && r.system.ctx[c].commands == ps[|traces| - 1..])
    decreases |traces|
  {
    hide Perform, AfterFirst, RanAll, LastThrew, Performs, RunProgram;
    var ps := s.ctx[c].commands;
    if ps == [] {
      QueueEmpty(s.store);
    } else {
      var (t, f) := RunProgram(s, ps[0], traces[0]);
      ProgramKeepsQueue(s, ps[0], traces[0], c);
      if f.ending.Threw? {
        QueueSingle(ps, s.store, traces);
      } else {
        var u := Popped(t, c);
        QueueRunsInOrder(u, c, traces[1..]);
        var rest := RunQueue(u, c, traces[1..]);
        QueueCons(ps, s.store, traces, if rest.answer.Replies? then rest.answer.texts else []);
        assert |traces| > 1 ==> ps[1..][|traces| - 2..] == ps[|traces| - 1..];
      }
    }
  }

  /** EXEC as a whole, for a client in a clean transaction: either every command of the
      queue ran once, in order, and the client is clear again; or the last command run
      threw, those before it took full effect, and the client is still in the
      transaction with the rest of the queue. */
  lemma ExecAllOrSuffix<C>(s: System<Store, C>, c: C, traces: seq<seq<TimedCall>>)
    requires c in s.ctx && s.ctx[c].inTransaction && !s.ctx[c].dirty && PossibleQueue(s, c, traces)
    ensures var n, ps := Exec(s, c, traces), s.ctx[c].commands;
            && |traces| <= |ps| && c in n.system.ctx
            && n.system.store == AfterFirst(ps, s.store, traces, |traces|)
            && (n.answer.Good? || n.answer.Replies? || n.answer.Error?)
            && (n.answer.Good? ==> ps == [] && n.system.ctx[c] == CLEAR)
            && (n.answer.Replies? ==> RanAll(ps, s.store, traces, n.answer.texts) && n.system.ctx[c] == CLEAR)
            && (n.answer.Error? ==>
                  && LastThrew(ps, s.store, traces) && n.system.ctx[c].inTransaction
                  && n.system.ctx[c].commands == ps[|traces| - 1..])
  {
    hide AfterFirst, EndOf, PossibleQueue, RunQueue;
    QueueRunsInOrder(s, c, traces);
  }

  /** An EXEC that stopped at a throwing command drops the rest of the queue, at the next
      EXEC, which answers (nil), exactly when it had touched a key the client itself
      watches. */
  lemma ThrowAfterOwnChangeDropsRest<C>(s: System<Store, C>, c: C, w: set<Key>, traces: seq<seq<TimedCall>>)
    requires Watching(s, c, w) && s.ctx[c].inTransaction && !s.ctx[c].dirty && PossibleQueue(s, c, traces)
    requires Exec(s, c, traces).answer == Error
    ensures var n := Exec(s, c, traces);
            && c in n.system.ctx && n.system.ctx[c].commands != []
            && forall more :: Exec(n.system, c, more).answer == Nil <==> Touches(n.events, w)
    ensures var n := Exec(s, c, traces);
            Touches(n.events, w) ==>
              forall more :: Exec(n.system, c, more) == Next(ClearTransaction(n.system, c), [], Nil)
  {
    hide Touches, PossibleQueue, AfterFirst, RanAll;
    QueueRunsInOrder(s, c, traces);
    QueueAndWatching(s, c, traces, c, w);
    var t := Exec(s, c, traces).system;
    forall more
      ensures Exec(t, c, more).answer == Nil <==> t.ctx[c].dirty
    {
      QueueAnswers(t, c, more);
    }
  }

  /** Otherwise the next EXEC takes up the queue with the command that threw: whatever
      that had done before it threw stays done, and it runs again from the start. */
  lemma ThrowerRunsAgain<C>(s: System<Store, C>, c: C, w: set<Key>, traces: seq<seq<TimedCall>>,
                            more: seq<seq<TimedCall>>)
    requires Watching(s, c, w) && s.ctx[c].inTransaction && !s.ctx[c].dirty && PossibleQueue(s, c, traces)
    requires Exec(s, c, traces).answer == Error && !Touches(Exec(s, c, traces).events, w)
    requires c in Exec(s, c, traces).system.ctx && PossibleQueue(Exec(s, c, traces).system, c, more)
    ensures var ps, n := s.ctx[c].commands, |traces|;
            var t := Exec(s, c, traces).system;
            && 0 < n <= |ps| && 0 < |more| <= |ps| - n + 1
            && t.store == Perform(ps[n - 1], AfterFirst(ps, s.store, traces, n - 1), traces[n - 1]).store
            && Performs(ps[n - 1], t.store, more[0])
            && Exec(t, c, more).system.store == AfterFirst(ps[n - 1..], t.store, more, |more|)
            && Perform(ps[n - 1], t.store, more[0]).events <= Exec(t, c, more).events
  {
    hide Touches, AfterFirst, RanAll, Perform, Performs;
    QueueRunsInOrder(s, c, traces);
    QueueAndWatching(s, c, traces, c, w);
    var t, n := Exec(s, c, traces).system, |traces|;
    assert t.ctx[c].commands[0] == s.ctx[c].commands[n - 1];
    ExecAllOrSuffix(t, c, more);
    LastOfFirst(s.ctx[c].commands, s.store, traces, n);
    RunQueueStartsWith(t, c, more);
  }

  lemma LastOfFirst(ps: seq<Program>, d: Store, traces: seq<seq<TimedCall>>, n: nat)
    requires 0 < n <= |ps| && n <= |traces|
    ensures AfterFirst(ps, d, traces, n) == Perform(ps[n - 1], AfterFirst(ps, d, traces, n - 1), traces[n - 1]).store
  {
    hide Perform;
  }

  lemma RunQueueStartsWith<C>(s: System<Store, C>, c: C, traces: seq<seq<TimedCall>>)
    requires c in s.ctx && s.ctx[c].commands != [] && PossibleQueue(s, c, traces)
    ensures traces != [] && Performs(s.ctx[c].commands[0], s.store, traces[0])
    ensures Perform(s.ctx[c].commands[0], s.store, traces[0]).events <= RunQueue(s, c, traces).events
  {
    hide Perform, Performs;
  }

  // ------------------------------------------------- what every run keeps

  /** Queued commands exist only inside a transaction. */
  ghost predicate QueuesInTransactions<C>(s: System<Store, C>) {
    forall c :: c in s.ctx && s.ctx[c].commands != [] ==> s.ctx[c].inTransaction
  }

  lemma {:induction false} QueueLeavesOthers<C>(s: System<Store, C>, d: C, traces: seq<seq<TimedCall>>, c: C)
    requires d in s.ctx && c in s.ctx
    ensures var r := RunQueue(s, d, traces).system;
            && r.ctx.Keys == s.ctx.Keys
            && r.ctx[c].watched == s.ctx[c].watched && r.ctx[c].inTransaction == s.ctx[c].inTransaction
            && (c != d ==> r.ctx[c].commands == s.ctx[c].commands)
    decreases |traces|
  {
    if s.ctx[d].commands != [] && traces != [] {
      var (t, f) := RunProgram(s, s.ctx[d].commands[0], traces[0]);
      if f.ending.Returned? {
        QueueLeavesOthers(Popped(t, d), d, traces[1..], c);
      }
    }
  }

  lemma {:induction false} WatchLoopLeavesOthers<C>(s: System<Store, C>, d: C, keys: seq<Key>, c: C)
    requires d in s.ctx && c in s.ctx
    ensures var t := WatchLoop(s, d, keys).0;
            && t.ctx.Keys == s.ctx.Keys
            && t.ctx[c].commands == s.ctx[c].commands && t.ctx[c].inTransaction == s.ctx[c].inTransaction
            && (c != d ==> t.ctx[c] == s.ctx[c])
    decreases |keys|
  {
    if keys != [] && keys[0] in s.store.db.records {
      WatchLoopLeavesOthers(s.(ctx := s.ctx[d := s.ctx[d].(watched := s.ctx[d].watched + {keys[0]})],
                               deps := Register(s.deps, keys[0], d)), d, keys[1..], c);
    }
  }

  /** What a command leaves of any client `c`: inside a transaction the watched keys are
      fixed, and only a client inside one has a queue. */
  lemma CommandKeeps<C>(s: System<Store, C>, d: C, cmd: Command, traces: seq<seq<TimedCall>>, c: C)
    requires d in s.ctx && c in s.ctx
    requires s.ctx[c].commands != [] ==> s.ctx[c].inTransaction
    ensures var t := Process(s, d, cmd, traces).system;
            && t.ctx.Keys == s.ctx.Keys
            && (t.ctx[c].commands != [] ==> t.ctx[c].inTransaction)
            && (s.ctx[c].inTransaction && t.ctx[c].inTransaction ==> t.ctx[c].watched == s.ctx[c].watched)
  {
    hide RunQueue, WatchLoop, Perform;
    match cmd {
      case WATCH(keys) => WatchLoopLeavesOthers(s.(ctx := s.ctx[d := CLEAR]), d, keys, c);
      case EXEC(extra) => QueueLeavesOthers(s, d, traces, c);
      case _ =>
    }
  }

  lemma StepKeeps<C>(s: System<Store, C>, step: Step<C>, c: C)
    requires (step.ByClient? ==> step.client in s.ctx) && c in s.ctx
    requires s.ctx[c].commands != [] ==> s.ctx[c].inTransaction
    ensures var t := Take(s, step).system;
            && t.ctx.Keys == s.ctx.Keys
            && (t.ctx[c].commands != [] ==> t.ctx[c].inTransaction)
            && (s.ctx[c].inTransaction && t.ctx[c].inTransaction ==> t.ctx[c].watched == s.ctx[c].watched)
  {
    hide Process;
    if step.ByClient? { CommandKeeps(s, step.client, step.cmd, step.traces, c); }
  }

  /** Across all runs a non-empty queue implies a transaction, and no step changes the
      watched keys of a client that is inside a transaction before and after it. */
  lemma {:induction false} EveryRunKeeps<C>(run: seq<System<Store, C>>, steps: seq<Step<C>>, n: nat, c: C)
    requires IsRun(run, steps) && n < |run| && QueuesInTransactions(run[0]) && c in run[0].ctx
    ensures c in run[n].ctx && (run[n].ctx[c].commands != [] ==> run[n].ctx[c].inTransaction)
    ensures n > 0 ==>
              && c in run[n - 1].ctx
              && (run[n - 1].ctx[c].inTransaction && run[n].ctx[c].inTransaction ==>
                    run[n].ctx[c].watched == run[n - 1].ctx[c].watched)
  {
    if n > 0 {
      EveryRunKeeps(run, steps, n - 1, c);
      StepKeeps(run[n - 1], steps[n - 1], c);
    }
  }

  lemma {:induction false} PerformConsistent(p: Script, d: Store, log: seq<DbEvent>, calls: seq<TimedCall>)
    requires Consistent(d.db, log) && Performs(p, d, calls)
    ensures Consistent(Perform(p, d, calls).store.db, log + Perform(p, d, calls).events)
    decreases |calls|
  {
    hide Consistent, ApplyTimed, PossibleTimed, Answers;
    match p {
      case Return(_) => assert log + [] == log;
      case Throw => assert log + [] == log;
      case Do(_, next) =>
        TimedConsistent(d, log, calls[0]);
        var r := ApplyTimed(d, calls[0]);
        PerformConsistent(next(r.outcome), r.store, log + r.events, calls[1..]);
        assert log + r.events + Perform(next(r.outcome), r.store, calls[1..]).events
            == log + Perform(p, d, calls).events;
    }
  }
}
