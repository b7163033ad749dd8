/** Commands as they run: the processor, and WATCH, MULTI, EXEC and DISCARD, each
    proved to be one step of the state machine of module Transactions
    (include/CommandProcessor/CommandProcessor.h and the four files of
    include/Database/Commands/ConcreteCommands/TransactionCommands). */
module Commands {
  import opened Bytes
  import opened Keyspace
  import opened Expiry
  import opened Transactions
  import opened Server
  import opened TtlDatabase
  import opened Wrappers

  /** Running a script is making its first call and running the rest. */
  lemma ScriptInTurn<C>(s: System<Store, C>, p: Script, call: TimedCall, calls: seq<TimedCall>)
    requires p.Do?
    ensures var e := ApplyTimed(s.store, call);
            var rest := Perform(p.next(e.outcome), e.store, calls);
            && Perform(p, s.store, [call] + calls) == Performance(rest.store, e.events + rest.events, rest.ending)
            && RunProgram(s, p, [call] + calls).0 == RunProgram(AfterTimed(s, e), p.next(e.outcome), calls).0
            && (&& Answers(call, p.request, s.store.db) && PossibleTimed(s.store, call)
                && Performs(p.next(e.outcome), e.store, calls)
                ==> Performs(p, s.store, [call] + calls))
  {
    hide Notify, NotifiedKeys, ApplyTimed, PossibleTimed, Answers, Perform, Performs;
    FirstCall(p, s.store, call, calls);
    var e := ApplyTimed(s.store, call);
    var rest := Perform(p.next(e.outcome), e.store, calls);
    KeysOfConcat(e.events, rest.events);
    NotifyInTurn(s.deps, s.ctx, NotifiedKeys(e.events), NotifiedKeys(rest.events));
  }

  /** The commands run so far all returned. */
  ghost predicate RunningQueue<C>(s: System<Store, C>, c: C, traces: seq<seq<TimedCall>>)
    requires c in s.ctx
    decreases |traces|
  {
    traces == [] ||
    (&& s.ctx[c].commands != [] && Performs(s.ctx[c].commands[0], s.store, traces[0])
     && var (t, f) := RunProgram(s, s.ctx[c].commands[0], traces[0]);
        f.ending.Returned? && RunningQueue(Popped(t, c), c, traces[1..]))
  }

  /** The queue of a client whose head runs, and throws or returns. */
  lemma QueueOne<C>(s: System<Store, C>, c: C, calls: seq<TimedCall>)
    requires c in s.ctx && s.ctx[c].commands != [] && Performs(s.ctx[c].commands[0], s.store, calls)
    ensures var n := RunQueue(s, c, [calls]);
            var (t, f) := RunProgram(s, s.ctx[c].commands[0], calls);
            && c in t.ctx && t.ctx[c].commands == s.ctx[c].commands
            && n.events == f.events
            && (f.ending.Threw? ==> n.system == t && n.answer == Error && PossibleQueue(s, c, [calls]))
            && (f.ending.Returned? ==>
                  && n.system == Popped(t, c) && n.answer == Replies([f.ending.reply])
                  && RunningQueue(s, c, [calls]))
  {
    hide Perform, Performs, RunProgram;
    ProgramKeepsQueue(s, s.ctx[c].commands[0], calls, c);
    var (t, f) := RunProgram(s, s.ctx[c].commands[0], calls);
    assert [calls][1..] == [];
    assert RunQueue(Popped(t, c), c, []) == Next(Popped(t, c), [], Replies([]));
    assert RunningQueue(Popped(t, c), c, []);
    assert f.events + [] == f.events;
  }

  /** The first round of the loop of EXEC, and the rest. */
  lemma QueueUnrolls<C>(s: System<Store, C>, c: C, traces: seq<seq<TimedCall>>)
    requires c in s.ctx && s.ctx[c].commands != [] && traces != []
    ensures var (t, f) := RunProgram(s, s.ctx[c].commands[0], traces[0]);
            && c in t.ctx && t.ctx[c].commands == s.ctx[c].commands
            && c in Popped(t, c).ctx
            && (RunningQueue(s, c, traces) <==>
                  && Performs(s.ctx[c].commands[0], s.store, traces[0]) && f.ending.Returned?
                  && RunningQueue(Popped(t, c), c, traces[1..]))
            && (f.ending.Returned? ==>
                  && (PossibleQueue(s, c, traces) <==>
                        && Performs(s.ctx[c].commands[0], s.store, traces[0])
                        && PossibleQueue(Popped(t, c), c, traces[1..]))
                  && var rest := RunQueue(Popped(t, c), c, traces[1..]);
                     && RunQueue(s, c, traces).system == rest.system
                     && RunQueue(s, c, traces).events == f.events + rest.events
                     && (rest.answer.Replies? ==>
                           RunQueue(s, c, traces).answer == Replies([f.ending.reply] + rest.answer.texts))
                     && (!rest.answer.Replies? ==> RunQueue(s, c, traces).answer == rest.answer))
  {
    hide Perform, Performs, RunProgram;
    ProgramKeepsQueue(s, s.ctx[c].commands[0], traces[0], c);
  }

  /** One more round of the loop of EXEC. */
  lemma {:induction false} QueueSnoc<C>(s: System<Store, C>, c: C, traces: seq<seq<TimedCall>>, calls: seq<TimedCall>)
    requires c in s.ctx && RunningQueue(s, c, traces)
    requires var r := RunQueue(s, c, traces);
             c in r.system.ctx && r.system.ctx[c].commands != []
             && Performs(r.system.ctx[c].commands[0], r.system.store, calls)
    ensures var r, n := RunQueue(s, c, traces), RunQueue(s, c, traces + [calls]);
            var (t, f) := RunProgram(r.system, r.system.ctx[c].commands[0], calls);
            && r.answer.Replies? && c in t.ctx && t.ctx[c].commands == r.system.ctx[c].commands
            && n.events == r.events + f.events
            && (f.ending.Threw? ==> n.system == t && n.answer == Error && PossibleQueue(s, c, traces + [calls]))
            && (f.ending.Returned? ==>
                  && n.system == Popped(t, c) && n.answer == Replies(r.answer.texts + [f.ending.reply])
                  && RunningQueue(s, c, traces + [calls]))
    decreases |traces|
  {
    hide Perform, Performs, RunProgram, RunQueue, PossibleQueue, RunningQueue;
    if traces == [] {
      QueueStarts(s, c);
      QueueOne(s, c, calls);
      assert [] + [calls] == [calls];
    } else {
      ghost var all := traces + [calls];
      assert all[0] == traces[0] && all[1..] == traces[1..] + [calls];
      RunningMeansQueued(s, c, traces);
      var (t, f) := RunProgram(s, s.ctx[c].commands[0], traces[0]);
      QueueUnrolls(s, c, traces);
      QueueUnrolls(s, c, all);
      QueueSnoc(Popped(t, c), c, traces[1..], calls);
    }
  }

  lemma RunningMeansQueued<C>(s: System<Store, C>, c: C, traces: seq<seq<TimedCall>>)
    requires c in s.ctx && RunningQueue(s, c, traces) && traces != []
    ensures s.ctx[c].commands != []
  {
  }

  lemma QueueStarts<C>(s: System<Store, C>, c: C)
    requires c in s.ctx
    ensures RunningQueue(s, c, []) && RunQueue(s, c, []) == Next(s, [], Replies([]))
  {
  }

  lemma {:induction false} QueueFinished<C>(s: System<Store, C>, c: C, traces: seq<seq<TimedCall>>)
    requires c in s.ctx && RunningQueue(s, c, traces)
    ensures var r := RunQueue(s, c, traces);
            && c in r.system.ctx && r.answer.Replies?
            && (r.system.ctx[c].commands == [] ==> PossibleQueue(s, c, traces))
    decreases |traces|
  {
    hide Perform, Performs;
    if traces != [] {
      var (t, f) := RunProgram(s, s.ctx[c].commands[0], traces[0]);
      QueueFinished(Popped(t, c), c, traces[1..]);
    }
  }

  ghost function WatchKey<C>(s: System<Store, C>, c: C, k: Key): System<Store, C>
    requires c in s.ctx
  {
    s.(ctx := s.ctx[c := s.ctx[c].(watched := s.ctx[c].watched + {k})])
  }

  lemma WatchLoopNext<C>(s: System<Store, C>, c: C, keys: seq<Key>, i: nat)
    requires c in s.ctx && i <= |keys|
    ensures WatchLoop(s, c, keys[i..]) ==
            if i == |keys| then (s, true)
            else if keys[i] !in s.store.db.records then (WatchKey(s, c, keys[i]), false)
            else WatchLoop(WatchKey(s, c, keys[i]).(deps := Register(s.deps, keys[i], c)), c, keys[i + 1..])
  {
    if i < |keys| {
      assert keys[i..][0] == keys[i] && keys[i..][1..] == keys[i + 1..];
    }
  }

  /** The environment has no part in setting or removing a deadline. */
  lemma DeadlinesArePossible(d: Store, c: TimedCall)
    requires c.SetTtl? || c.RemoveTtl?
    ensures PossibleTimed(d, c)
  {
  }

  class CommandProcessor {
    const db: TTLDatabaseDecorator

    constructor (db: TTLDatabaseDecorator)
      ensures this.db == db
    {
      this.db := db;
    }

    /** One operation of a data command; what the environment decides is arbitrary. */
    method Ask(r: Request) returns (outcome: Outcome, ghost call: TimedCall)
      requires db.Valid()
      modifies db`ttlMap, db.db`records, db.db`log, db.db.memoryManager, db.db.Contexts()
      ensures db.Valid() && Answers(call, r, old(db.State().db)) && PossibleTimed(old(db.State()), call)
      ensures var e := ApplyTimed(old(db.State()), call);
              outcome == e.outcome && db.db.log == old(db.db.log) + e.events
              && db.Snapshot() == AfterTimed(old(db.Snapshot()), e)
    {
      hide Consistent, ApplyTimed, PossibleTimed, Notify, NotifiedKeys, Changed;
      var size: nat, readings: nat -> nat, now: int := *, *, *;
      ghost var begins: seq<nat>, begin: nat;
      match r {
        case AskInsert(k, v) =>
          outcome, begins := db.InsertRecord(k, v, size, readings);
          call := InsertPlain(k, v, size, begins);
        case AskInsertFor(k, v, n) =>
          outcome, begins := db.InsertRecordFor(k, v, n, size, readings, now);
          call := InsertFor(k, v, n, size, begins, now);
        case AskUpdate(k, v) =>
          outcome, begins := db.UpdateRecord(k, v, size, readings);
          call := UpdatePlain(k, v, size, begins);
        case AskUpdateFor(k, v, n) =>
          outcome, begins := db.UpdateRecordFor(k, v, n, size, readings, now);
          call := UpdateFor(k, v, n, size, begins, now);
        case AskGet(k) =>
          outcome, begin := db.GetRecord(k, now);
          call := LookUp(k, now, begin);
        case AskChange(k, change) =>
          ghost var value := Changed(db.State().db, k, change);
          outcome, begin := db.ChangeRecord(k, change, now);
          call := Change(k, value, now, begin);
        case AskDelete(k) =>
          outcome, begin := db.DeleteRecord(k);
          call := Remove(k, begin);
        case AskSetTtl(k, n) =>
          outcome := db.SetTTL(k, n, now);
          call := SetTtl(k, n, now);
          DeadlinesArePossible(old(db.State()), call);
        case AskRemoveTtl(k) =>
          outcome := db.RemoveTTL(k);
          call := RemoveTtl(k);
          DeadlinesArePossible(old(db.State()), call);
      }
    }

    /** A data command, run by EXEC or directly. */
    method Execute(p: Program) returns (ending: Ending, ghost calls: seq<TimedCall>)
      requires db.Valid()
      modifies db`ttlMap, db.db`records, db.db`log, db.db.memoryManager, db.db.Contexts()
      ensures db.Valid() && Performs(p, old(db.State()), calls)
      ensures ending == Perform(p, old(db.State()), calls).ending
      ensures db.db.log == old(db.db.log) + Perform(p, old(db.State()), calls).events
      ensures db.Snapshot() == RunProgram(old(db.Snapshot()), p, calls).0
    {
      hide Performs, Perform, RunProgram;
      ghost var n: nat :| EndsWithin(p, n);
      ending, calls := Run(p, n);
    }

    method Run(p: Script, ghost n: nat) returns (ending: Ending, ghost calls: seq<TimedCall>)
      requires db.Valid() && EndsWithin(p, n)
      modifies db`ttlMap, db.db`records, db.db`log, db.db.memoryManager, db.db.Contexts()
      ensures db.Valid() && Performs(p, old(db.State()), calls)
      ensures ending == Perform(p, old(db.State()), calls).ending
      ensures db.db.log == old(db.db.log) + Perform(p, old(db.State()), calls).events
      ensures db.Snapshot() == RunProgram(old(db.Snapshot()), p, calls).0
      decreases n
    {
      hide Consistent, ApplyTimed, Notify, NotifiedKeys, PossibleTimed, Answers;
      match p {
        case Return(reply) =>
          ending, calls := Returned(reply), [];
          NoKeys();
          NotifyNobody(db.db.recordDependencies, db.Snapshot().ctx);
        case Throw =>
          ending, calls := Threw, [];
          NoKeys();
          NotifyNobody(db.db.recordDependencies, db.Snapshot().ctx);
        case Do(request, next) =>
          ghost var s := db.Snapshot();
          var outcome;
          ghost var call;
          outcome, call := Ask(request);
          ending, calls := Run(next(outcome), n - 1);
          ScriptInTurn(s, p, call, calls);
          calls := [call] + calls;
      }
    }

    method Clear(client: Client)
      requires db.Valid() && client in db.db.clients
      modifies db.db`recordDependencies, client.transactionContext
      ensures db.Valid() && client in old(db.Snapshot()).ctx
      ensures db.Snapshot() == ClearTransaction(old(db.Snapshot()), client)
    {
      hide Consistent, UnregisterAll;
      client.ClearTransaction(db.db);
    }

    /** One round of the loop of WATCH. */
    method WatchOne(client: Client, key: Key) returns (ok: bool)
      requires db.Valid() && client in db.db.clients
      modifies db.db`recordDependencies, client.transactionContext
      ensures db.Valid()
      ensures var s := old(db.Snapshot());
              && (ok <==> key in s.store.db.records)
              && db.Snapshot() == if ok then WatchKey(s, client, key).(deps := Register(s.deps, key, client))
                                  else WatchKey(s, client, key)
    {
      hide Consistent, Register;
      var context := client.transactionContext;
      context.watchedRecords := context.watchedRecords + {key};
      db.OneContextChanged(client);
      label Inserted:
      ok := db.db.RegisterRecordObserver(key, client);
      assert db.Snapshot().ctx == old@Inserted(db.Snapshot().ctx);
    }

    method Watch(client: Client, keys: seq<Key>) returns (answer: Answer)
      requires db.Valid() && client in db.db.clients
      modifies db.db`recordDependencies, client.transactionContext
      ensures db.Valid()
      ensures var n := Process(old(db.Snapshot()), client, WATCH(keys), []);
              db.Snapshot() == n.system && answer == n.answer
    {
      hide Consistent, WatchLoop, Register;
      if keys == [] {
        return Error;
      }
      if client.transactionContext.inTransaction {
        return Error;
      }
      client.transactionContext.Clear();
      db.OneContextChanged(client);
      ghost var start := db.Snapshot();
      assert keys[0..] == keys;
      for i := 0 to |keys|
        invariant db.Valid()
        invariant client in db.Snapshot().ctx && client in start.ctx
        invariant WatchLoop(db.Snapshot(), client, keys[i..]) == WatchLoop(start, client, keys)
      {
        WatchLoopNext(db.Snapshot(), client, keys, i);
        var ok := WatchOne(client, keys[i]);
        if !ok {
          return Error;
        }
      }
      WatchLoopNext(db.Snapshot(), client, keys, |keys|);
      return Good;
    }

    method Multi(client: Client, extra: nat) returns (answer: Answer)
      requires db.Valid() && client in db.db.clients
      modifies client.transactionContext
      ensures db.Valid()
      ensures var n := Process(old(db.Snapshot()), client, MULTI(extra), []);
              db.Snapshot() == n.system && answer == n.answer
    {
      var context := client.transactionContext;
      if extra > 0 || context.inTransaction {
        return Error;
      }
      context.commands := [];
      context.inTransaction := true;
      db.OneContextChanged(client);
      return Good;
    }

    method Discard(client: Client, extra: nat) returns (answer: Answer)
      requires db.Valid() && client in db.db.clients
      modifies db.db`recordDependencies, client.transactionContext
      ensures db.Valid()
      ensures var n := Process(old(db.Snapshot()), client, DISCARD(extra), []);
              db.Snapshot() == n.system && answer == n.answer
    {
      if extra > 0 || !client.transactionContext.inTransaction {
        return Error;
      }
      Clear(client);
      return Good;
    }

    /** One round of the loop of EXEC: run the head of the queue and, unless it threw,
        pop it. */
    method RunHead(client: Client) returns (ending: Ending, ghost calls: seq<TimedCall>)
      requires db.Valid() && client in db.db.clients && client.transactionContext.commands != []
      modifies db`ttlMap, db.db`records, db.db`log, db.db.memoryManager, db.db.Contexts()
      ensures db.Valid() && Performs(old(client.transactionContext.commands[0]), old(db.State()), calls)
      ensures var s := old(db.Snapshot());
              var (t, f) := RunProgram(s, s.ctx[client].commands[0], calls);
              && ending == f.ending && db.db.log == old(db.db.log) + f.events
              && client in t.ctx && t.ctx[client].commands == s.ctx[client].commands
              && db.Snapshot() == if ending.Threw? then t else Popped(t, client)
    {
      hide Consistent, RunProgram, Performs, Perform;
      var context := client.transactionContext;
      ghost var before := db.Snapshot();
      var command := context.commands[0];
      ending, calls := Execute(command);
      ProgramKeepsQueue(before, command, calls, client);
      if ending.Returned? {
        label Ran:
        assert context.commands == db.Snapshot().ctx[client].commands;
        context.commands := context.commands[1..];
        db.OneContextChanged@Ran(client);
      }
    }

    /** The loop of EXEC: run the queue until it is empty or a command throws. */
    method RunCommands(client: Client) returns (response: Option<seq<Str>>, ghost traces: seq<seq<TimedCall>>)
      requires db.Valid() && client in db.db.clients
      modifies db`ttlMap, db.db`records, db.db`log, db.db.memoryManager, db.db.Contexts()
      ensures db.Valid() && PossibleQueue(old(db.Snapshot()), client, traces)
      ensures var r := RunQueue(old(db.Snapshot()), client, traces);
              && db.Snapshot() == r.system && db.db.log == old(db.db.log) + r.events
              && r.answer == if response.None? then Error else Replies(response.value)
    {
      hide Consistent, RunProgram, Performs, Perform, RunningQueue, RunQueue, PossibleQueue;
      traces := [];
      ghost var s, log := db.Snapshot(), db.db.log;
      QueueStarts(s, client);
      var replies: seq<Str> := [];
      while client.transactionContext.commands != []
        invariant db.Valid() && client in db.db.clients && client in s.ctx
        invariant RunningQueue(s, client, traces)
        invariant RunQueue(s, client, traces).system == db.Snapshot()
        invariant RunQueue(s, client, traces).answer == Replies(replies)
        invariant db.db.log == log + RunQueue(s, client, traces).events
        decreases |client.transactionContext.commands|
      {
        var ending;
        ghost var calls;
        ending, calls := RunHead(client);
        QueueSnoc(s, client, traces, calls);
        traces := traces + [calls];
        if ending.Threw? {
          return None, traces;
        }
        replies := replies + [ending.reply];
      }
      QueueFinished(s, client, traces);
      return Some(replies), traces;
    }

    /** The exclusive lock is held around the loop; a command that throws leaves the
        method, and the lock, with its queue as it stands. */
    method Exec(client: Client, extra: nat) returns (answer: Answer, ghost traces: seq<seq<TimedCall>>)
      requires db.Valid() && client in db.db.clients
      modifies db`ttlMap, db.db`records, db.db`log, db.db`recordDependencies, db.db.memoryManager, db.db.Contexts()
      ensures db.Valid()
      ensures PossibleProcess(old(db.Snapshot()), client, EXEC(extra), traces)
      ensures var n := Process(old(db.Snapshot()), client, EXEC(extra), traces);
              db.Snapshot() == n.system && answer == n.answer && db.db.log == old(db.db.log) + n.events
    {
      hide Consistent, RunQueue, PossibleQueue;
      traces := [];
      if extra > 0 || !client.transactionContext.inTransaction {
        return Error, traces;
      }
      if client.transactionContext.dirty {
        Clear(client);
        return Nil, traces;
      }
      var response;
      response, traces := RunCommands(client);
      if response == None {
        return Error, traces;
      }
      Clear(client);
      return (if response.value == [] then Good else Replies(response.value)), traces;
    }

    /** One command line, already split into a command and its arguments. */
    method ProcessCommand(cmd: Command, client: Client) returns (answer: Answer, ghost traces: seq<seq<TimedCall>>)
      requires db.Valid() && client in db.db.clients
      modifies db`ttlMap, db.db`records, db.db`log, db.db`recordDependencies, db.db.memoryManager, db.db.Contexts()
      ensures db.Valid()
      ensures PossibleProcess(old(db.Snapshot()), client, cmd, traces)
      ensures var n := Process(old(db.Snapshot()), client, cmd, traces);
              db.Snapshot() == n.system && answer == n.answer && db.db.log == old(db.db.log) + n.events
    {
      hide Consistent, RunProgram, Performs, Perform, RunQueue, PossibleQueue, WatchLoop;
      traces := [];
      match cmd {
        case WATCH(keys) => answer := Watch(client, keys);
        case MULTI(extra) => answer := Multi(client, extra);
        case EXEC(extra) => answer, traces := Exec(client, extra);
        case DISCARD(extra) => answer := Discard(client, extra);
        case Data(program) =>
          var context := client.transactionContext;
          if context.inTransaction {
            context.commands := context.commands + [program];
            db.OneContextChanged(client);
            answer := Queued;
          } else {
            var ending;
            ghost var calls;
            ending, calls := Execute(program);
            ProgramKeepsQueue(old(db.Snapshot()), program, calls, client);
            traces := [calls];
            answer := if ending.Threw? then Error else Replies([ending.reply]);
          }
      }
    }
  }
}
