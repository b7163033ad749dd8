# DStar-DB, verified

A Dafny model of the stateful core of DStar-DB, an in-memory key-value store, with
proofs of what its components promise each other. `dafny verify dfyconfig.toml` checks
everything.

| module | what it models |
|---|---|
| `Lfu`, `MemoryManagement` | the LFU engine: three redundant indexes and the `minFreq` cursor, against the history of accesses |
| `Keyspace`, `Server` | the record map kept in step with the engine, against a plain map; observers, clients and their contexts |
| `Expiry`, `TtlDatabase` | deadlines, lazy and active expiry, against what a reader with a clock can see |
| `Transactions`, `Commands` | WATCH, MULTI, EXEC and DISCARD over any number of clients, and the command processor |
| `Sessions` | sessions of clients from an empty server that reach what is not promised |
| `CallEffects`, `CommandEffects` | what each database call and each command does, field by field; the promise of WATCH in terms of calls |
| `LockGate` | the shared/exclusive lock as a protocol of steps |
| `ThreadPool` | the worker pool as a protocol of steps |
| `Codec`, `Snapshots`, `BinarySerializer` | length-prefixed encodings, tagged values and whole-store snapshots |
| `StreamIds`, `Streams`, `StreamEngine` | stream ids, ordered messages, paging and consumer groups |
| `HyperLogLog` | the register update |
| `IntegerParser` | the vendored checked integer parser |

Each component has a value-level specification, one function a step, with the theorems
about it and about all its runs; where the program updates an object in place there is
a class whose methods are proved to take exactly those steps. Whatever the environment
decides is an argument: readings of the usage counter, what `freqList.begin()` names,
the clock, the order a hash container iterates in, the hash function.

Where the code does not do what its comments say, the model follows the code, a lemma
gives the case, and another says exactly when the promise holds:

- Later evictions need not take a least frequently used key (`Lfu.NextVictim`,
  `Lfu.LaterVictimNotLeastFrequent`), and a new key may evict itself
  (`Lfu.NewKeyIsFirstVictim`).
- A record inserted without a TTL can expire, at the deadline of an evicted record of
  the same name (`Expiry.NoTtlMeansForever`, `Expiry.StaleDeadline`); a plain update of an
  expired key is lost the same way (`Expiry.PlainWriteVisibility`).
- An expired record still refuses an insertion, and a new deadline brings it back
  (`Expiry.ExpiredStillRefuses`, `Expiry.ExpiredCanComeBack`).
- WATCH misses changes made in place, and evictions (`Transactions.InPlaceChangeUnnoticed`,
  `Sessions.WatchedListGrows`, `Transactions.EvictionUnnoticed`,
  `Sessions.WatchedKeyEvicted`); what it does notice is `Transactions.WatchPromise`.
- A command that throws inside EXEC leaves the transaction open with the rest of its
  queue, which either never runs (`Transactions.ThrowAfterOwnChangeDropsRest`) or runs
  again from the command that threw (`Transactions.ThrowerRunsAgain`), so that an INCR whose
  key has expired deletes it at every EXEC (`Sessions.ExpiredKeyDroppedTwice`).
- EXEC is not isolated from operations already past the lock's gate
  (`LockGate.BodyInsideExec`), and is from all others (`LockGate.BodyRunsIfPastGate`).
- XACK answers with an error after acknowledging the ids before a malformed one
  (`StreamEngine.Xack`), and the delivery count does not count redeliveries
  (`Streams.DeliveryCountIsExact`, `Streams.RereadCountsOne`).
- After a restart new messages can get ids below those of a restored stream
  (`Streams.NewMessageVisible`, `Streams.RestartHidesMessage`).
- With the default parameter HyperLogLog uses 256 of its 16384 registers
  (`HyperLogLog.IndexIsFirstBits`), and with any it starts counting zeros b bits too low
  (`HyperLogLog.RankIsIntended`, `HyperLogLog.FirstRemainingBitIgnored`).

## Model

| member | source | states |
|---|---|---|
| Lfu.InsertKeyAgrees | src/MemoryManager.cpp:11-21 | inserting keeps all indexes equal to what the access history says exactly when the key is not tracked yet, the guard of its only caller |
| Lfu.TouchAgrees | src/MemoryManager.cpp:23-47 | a touch moves the key to the end of the next frequency class and keeps every index equal to the history |
| Lfu.RemoveKeyAgrees | src/MemoryManager.cpp:49-69 | a removal keeps every index equal to the history, whatever class `freqList.begin()` names |
| Lfu.EvictFrontAgrees | src/MemoryManager.cpp:79-105 | one round of eviction takes one tracked key and keeps every index equal to the history |
| Lfu.EvictAllAgrees | src/MemoryManager.cpp:76-106 | any run of evictions keeps the indexes equal to the history, one key a round |
| Lfu.EvictAllTakesVictims | src/MemoryManager.cpp:86-99 | the victims of a run are distinct tracked keys and nothing else leaves |
| Lfu.HistoryDeterminesIndex | src/MemoryManager.cpp:11-106 | the lists and iterators are determined by the history: each class lists exactly the keys of that frequency by last access |
| Lfu.FirstVictim | src/MemoryManager.cpp:79-90 | the first key evicted after an insertion has frequency 1, the least there is, and is the longest inserted of those not accessed since |
| Lfu.NewKeyIsFirstVictim | src/MemoryManager.cpp:79-90 | the key just inserted evicts itself first exactly when every other key has been accessed since its insertion |
| Lfu.NextVictim | src/MemoryManager.cpp:100-104 | after the first round the next victim is a least frequently used key exactly when `freqList.begin()` names the least class left |
| Lfu.EveryVictimIsEarliest | src/MemoryManager.cpp:78-90 | every victim of a run, the later ones too, is the least recently accessed of the keys still there that were used as often |
| Lfu.LaterVictimNotLeastFrequent | src/MemoryManager.cpp:78-104 | a reachable index whose second victim was used more often than a key that stays, against the comment on line 78 |
| Lfu.InsertAimsAtMinimum | src/MemoryManager.cpp:19-20 | an insertion makes `minFreq` the true minimum |
| Lfu.TouchKeepsMinimum | src/MemoryManager.cpp:37-42 | a touch keeps `minFreq` the true minimum |
| Lfu.RemoveKeepsMinimum | src/MemoryManager.cpp:67-68 | a removal keeps `minFreq` the true minimum exactly when its class survives or `freqList.begin()` names the least class |
| MemoryManagement.MemoryManager.constructor | src/MemoryManager.cpp:4-7 | an empty engine; the capacity wraps like `size_t` |
| MemoryManagement.MemoryManager.InsertKey | src/MemoryManager.cpp:11-21 | the new state is that of the specification, and valid exactly if the key was untracked |
| MemoryManagement.MemoryManager.Touch | src/MemoryManager.cpp:23-47 | the new state is that of the specification; an unknown key changes nothing |
| MemoryManagement.MemoryManager.RemoveKey | src/MemoryManager.cpp:49-69 | the new state is that of the specification for the class `freqList.begin()` named |
| MemoryManagement.MemoryManager.PopVictim | src/MemoryManager.cpp:82-104 | one round of the loop is one eviction of the specification |
| MemoryManagement.MemoryManager.EvictIfNeeded | src/MemoryManager.cpp:76-106 | terminates for any behaviour of the usage counter, evicts once for each reading above capacity, removes exactly the victims from the records, and stops only within capacity or empty |
| Keyspace.ApplyConsistent | include/Database/Database.h:23-123 | every operation, evictions included, keeps records, indexes and log in agreement |
| Keyspace.EveryRunConsistent | include/Database/Database.h:23-123 | in every state reachable by any run with any evictions records, nodes and iterators have the same keys and agree with the history, and each record holds what was last written |
| Keyspace.GetReturnsLastWritten | include/Database/Database.h:88-102 | in every reachable state a lookup returns exactly the value last written, or fails and then the key is not stored |
| Keyspace.NoReappearance | include/Database/Database.h:105-123 | a deleted or evicted key comes back only by an insertion of that key |
| Keyspace.FirstEvicted | include/Database/Database.h:36-40 | the first key an insertion evicts is the longest inserted of those not accessed since |
| Server.Database.InsertRecord | include/Database/Database.h:23-42 | insert or refuse, evict, then tell the observers; evictions only for readings above capacity |
| Server.Database.UpdateRecord | include/Database/Database.h:50-69 | overwrite and touch, or insert; the observers are told; evictions only when it inserts, and only for readings above capacity |
| Server.Database.StoreAndEvict | include/Database/Database.h:36-40 | the new record is stored and tracked, and keys go only for readings above capacity |
| Server.StopsAtFirstLowReading | src/MemoryManager.cpp:76-80 | an insertion of a new key that leaves anything evicts up to the first reading within capacity and no further |
| Server.Database.GetRecord | include/Database/Database.h:88-102 | the stored value and a touch, or a failure that changes nothing |
| Server.Database.MutateRecord | include/Database/Commands/ConcreteCommands/ListCommands/LPUSHCommand.h:22-33 | a lookup whose caller changes the value through the record: nobody is told |
| Server.Database.DeleteRecord | include/Database/Database.h:105-123 | remove from index and records and tell the observers, or fail and change nothing |
| Server.Database.RegisterRecordObserver | include/Database/Database.h:156-165 | registers for a stored key only |
| Server.Database.UnregisterRecordObserver | include/Database/Database.h:168-181 | removes one observer, and the entry with the last one |
| Server.Database.NotifyRecordObservers | include/Database/Database.h:221-232 | exactly the clients registered for the key that still watch it become dirty |
| Server.Client.OnRecordModified | include/ClientManager/Client.h:121-128 | dirty only for a watched key |
| Server.Client.ClearTransaction | include/ClientManager/Client.h:135-143 | unregisters from every watched key and clears the context |
| Server.TransactionContext.Clear | include/ClientManager/TransactionContext.h:15-21 | every field is reset |
| Expiry.SweepInvisible | include/Database/Decorators/TTLDatabaseDecorator.h:168-198 | an atomic sweep at time n leaves the view at every t >= n unchanged, whatever the order of deletions |
| Expiry.GetInvisible | include/Database/Decorators/TTLDatabaseDecorator.h:131-145 | a lookup at time n, expired or not, leaves the view at every t >= n unchanged and finds exactly what is in the view at n |
| Expiry.ExpiredStaysHidden | include/Database/Decorators/TTLDatabaseDecorator.h:39-198 | over any run an expired key stays out of view until an insert, update, setTTL or removeTTL of that key |
| Expiry.HiddenMeansInvisible | include/Database/Decorators/TTLDatabaseDecorator.h:131-145 | a key is out of every view from n on exactly when it is not stored or its deadline is before n |
| Expiry.HiddenKept | include/Database/Decorators/TTLDatabaseDecorator.h:39-198 | each operation that does not write the key or its deadline keeps it hidden |
| Expiry.TimedConsistent | include/Database/Decorators/TTLDatabaseDecorator.h:39-198 | every timed operation keeps records, indexes and log in agreement |
| Expiry.EveryTimedRunConsistent | include/Database/Decorators/TTLDatabaseDecorator.h:39-198 | in every state reachable by any run of timed operations, sweeps included, records, indexes and log agree |
| Expiry.TimedLookUpReturnsLastWritten | include/Database/Decorators/TTLDatabaseDecorator.h:131-145 | in every reachable state a lookup finds a record exactly when it is stored and its deadline has not passed, and returns the value last written |
| Expiry.ExpiredStillRefuses | include/Database/Decorators/TTLDatabaseDecorator.h:39-65 | a record out of view refuses an insertion exactly when it is stored and expired |
| Expiry.ExpiredCanComeBack | include/Database/Decorators/TTLDatabaseDecorator.h:99-128 | setTTL and removeTTL bring a record back into view exactly when it is stored and expired |
| Expiry.PlainWriteVisibility | include/Database/Decorators/TTLDatabaseDecorator.h:67-72 | a write that leaves the deadline map alone stores its value, in view at t exactly when no deadline was left for the key or that deadline allows t |
| Expiry.NoTtlMeansForever | include/Database/Decorators/TTLDatabaseDecorator.h:46-65 | an insertion with no TTL or a TTL of 0 lasts forever exactly when the deadline map has no entry for the key, against the comments on lines 43 and 46 |
| Expiry.StaleDeadline | include/Database/Decorators/TTLDatabaseDecorator.h:39-65 | a reachable run in which a record inserted without a TTL expires at the deadline of an evicted predecessor |
| TtlDatabase.TTLDatabaseDecorator.InsertRecord | include/Database/Decorators/TTLDatabaseDecorator.h:39-44 | delegates, evicting only for readings above capacity; the deadline map is untouched |
| TtlDatabase.TTLDatabaseDecorator.InsertRecordFor | include/Database/Decorators/TTLDatabaseDecorator.h:47-65 | insert, look up again, set the deadline; if the record was evicted at once the lookup fails and no deadline is set |
| TtlDatabase.TTLDatabaseDecorator.UpdateRecord | include/Database/Decorators/TTLDatabaseDecorator.h:67-72 | delegates, evicting only for readings above capacity; the deadline map is untouched |
| TtlDatabase.TTLDatabaseDecorator.UpdateRecordFor | include/Database/Decorators/TTLDatabaseDecorator.h:75-97 | update, then set the deadline or drop it for a TTL of 0 |
| TtlDatabase.TTLDatabaseDecorator.SetTTL | include/Database/Decorators/TTLDatabaseDecorator.h:99-113 | touches the record and sets its deadline, or fails |
| TtlDatabase.TTLDatabaseDecorator.RemoveTTL | include/Database/Decorators/TTLDatabaseDecorator.h:115-128 | touches the record and drops its deadline, or fails |
| TtlDatabase.TTLDatabaseDecorator.GetRecord | include/Database/Decorators/TTLDatabaseDecorator.h:131-145 | an expired key is deleted with its deadline; if it was evicted the deadline stays |
| TtlDatabase.TTLDatabaseDecorator.ChangeRecord | include/Database/Decorators/TTLDatabaseDecorator.h:131-145 | a lookup whose caller changes the record in place, unless it has expired; nobody is told of the change |
| TtlDatabase.TTLDatabaseDecorator.DeleteRecord | include/Database/Decorators/TTLDatabaseDecorator.h:148-153 | deletes record and deadline, or fails and keeps both |
| TtlDatabase.TTLDatabaseDecorator.RemoveExpiredKeys | include/Database/Decorators/TTLDatabaseDecorator.h:168-198 | forgets every expired deadline and deletes exactly those keys that are still stored |
| Transactions.WatchStartsWatching | include/Database/Commands/ConcreteCommands/TransactionCommands/WATCHCommand.h:18-28 | after WATCH answered OK the client is registered for and watches exactly the keys named, and is clean |
| Transactions.CommandAndWatching | include/CommandProcessor/CommandProcessor.h:36-53 | any command of any client that does not reset c leaves c watching, and dirties it exactly if it inserted, updated or deleted a watched key |
| Transactions.DirtyMeansModified | include/ClientManager/Client.h:121-143 | over any run of any number of clients c is dirty exactly if some step since its WATCH modified a watched key |
| Transactions.WatchPromise | include/Database/Commands/ConcreteCommands/TransactionCommands/EXECCommand.h:22-26 | the next EXEC answers (nil) exactly if a watched key was modified since WATCH, and then changes no record and clears the client |
| Transactions.InPlaceChangeUnnoticed | include/Database/Commands/ConcreteCommands/ListCommands/LPUSHCommand.h:22-33 | a change in place by any client's command leaves a watcher clean and its EXEC goes ahead |
| Sessions.WatchedListGrows | include/Database/Commands/ConcreteCommands/ListCommands/LPUSHCommand.h:22-48 | a session from an empty server in which LPUSH does that to a watched list |
| Transactions.LookUpTouches | include/Database/Decorators/TTLDatabaseDecorator.h:131-145 | a lookup counts as a change of a watched key exactly when the key is stored and its deadline has passed |
| Transactions.SweepTouches | include/Database/Decorators/TTLDatabaseDecorator.h:168-198 | a sweep counts as a change exactly when some watched key is stored and its deadline has passed |
| Transactions.SweptKeyFailsExec | include/Database/Decorators/TTLDatabaseDecorator.h:168-198 | over any run EXEC answers (nil) if a sweep since the WATCH found a watched key stored and expired, and only then if no other step modified one |
| Transactions.EvictionUnnoticed | src/MemoryManager.cpp:86-99 | the eviction of a watched key by a possible insertion leaves its watcher clean and its EXEC goes ahead |
| Sessions.WatchedKeyEvicted | src/MemoryManager.cpp:86-99 | a session from an empty server in which that happens |
| Transactions.QueueRunsInOrder | include/Database/Commands/ConcreteCommands/TransactionCommands/EXECCommand.h:32-37 | the queue runs strictly in order, each command at most once; a throwing command stays at the head of what is left |
| Transactions.ExecAllOrSuffix | include/Database/Commands/ConcreteCommands/TransactionCommands/EXECCommand.h:29-40 | either all commands ran once in order and the client is clear, or the last one run threw, its predecessors took full effect, and the client is still in the transaction with the rest |
| Transactions.ThrowAfterOwnChangeDropsRest | include/Database/Commands/ConcreteCommands/TransactionCommands/EXECCommand.h:22-37 | after an EXEC stopped by an exception the next EXEC answers (nil), and drops the rest, exactly when the first one had touched a key the client watches itself |
| Transactions.ThrowerRunsAgain | include/Database/Commands/ConcreteCommands/TransactionCommands/EXECCommand.h:32-37 | otherwise the next EXEC runs the command that threw again from the start, on a database that keeps what it had done |
| Sessions.ExpiredKeyDroppedTwice | include/Database/Commands/ConcreteCommands/StringCommands/INCRCommand.h:22-27 | a session in which a queued INCR finds its key expired, deletes it and throws, at both EXECs |
| Transactions.EveryRunKeeps | include/ClientManager/TransactionContext.h:8-21 | over any run a non-empty queue implies a transaction and watched keys do not change inside one |
| Transactions.PerformConsistent | include/Database/Database.h:23-123 | a data command, however it ends, keeps records, indexes and log in agreement |
| Commands.CommandProcessor.Execute | include/CommandProcessor/CommandProcessor.h:42 | a data command is a sequence of database calls, each chosen by what the calls before returned, up to its reply or exception |
| Commands.CommandProcessor.Ask | src/server.cpp:106-107 | one call on the TTL decorator, which every command goes through |
| Commands.CommandProcessor.WatchOne | include/Database/Commands/ConcreteCommands/TransactionCommands/WATCHCommand.h:23-27 | the key is watched, and observed if it is stored |
| Commands.CommandProcessor.Watch | include/Database/Commands/ConcreteCommands/TransactionCommands/WATCHCommand.h:12-29 | one step of the state machine; stops at the first key that is not stored |
| Commands.CommandProcessor.Multi | include/Database/Commands/ConcreteCommands/TransactionCommands/MULTICommand.h:12-27 | one step of the state machine; no nesting |
| Commands.CommandProcessor.Discard | include/Database/Commands/ConcreteCommands/TransactionCommands/DISCARDCommand.h:12-25 | one step of the state machine |
| Commands.CommandProcessor.RunHead | include/Database/Commands/ConcreteCommands/TransactionCommands/EXECCommand.h:34-36 | run the head of the queue and pop it unless it threw |
| Commands.CommandProcessor.RunCommands | include/Database/Commands/ConcreteCommands/TransactionCommands/EXECCommand.h:32-37 | the loop: every reply in order, or stopped by the command that threw |
| Commands.CommandProcessor.Exec | include/Database/Commands/ConcreteCommands/TransactionCommands/EXECCommand.h:12-42 | one step of the state machine: nil, all replies, or an error with the rest of the queue kept |
| Commands.CommandProcessor.ProcessCommand | include/CommandProcessor/CommandProcessor.h:19-60 | one step of the state machine: queue inside a transaction, run otherwise, exceptions become errors |
| CallEffects.InsertActs | include/Database/Database.h:23-42 | refused exactly for a stored key and then nothing changes; otherwise the new record is there with its value unless evicted at once, and the others are as they were unless evicted |
| CallEffects.EvictionsAreCounted | include/Database/Database.h:36-40 | each reading above capacity during an insertion costs exactly one record |
| CallEffects.UpdateActs | include/Database/Database.h:50-69 | a stored key is overwritten and nothing else changes; any other is inserted |
| CallEffects.GetActs | include/Database/Database.h:88-102 | the value is returned and no record changes, or the lookup fails; a change in place leaves the new value |
| CallEffects.DeleteActs | include/Database/Database.h:105-123 | that key goes and nothing else, or it fails and nothing changes |
| CallEffects.AccessesAreCounted | src/MemoryManager.cpp:11-47 | one more access of the key for every call that finds it; an inserted key starts at one with its size |
| CallEffects.TimedAccessesAreCounted | include/Database/Decorators/TTLDatabaseDecorator.h:39-145 | the same through the decorator, where a write with a TTL counts twice because it looks its record up again |
| CallEffects.SetTtlActs | include/Database/Decorators/TTLDatabaseDecorator.h:99-113 | a stored record stays in view until exactly `now + seconds * 1_000_000_000`; no other deadline changes; without the record nothing does |
| CallEffects.WriteForActs | include/Database/Decorators/TTLDatabaseDecorator.h:47-97 | a write with a TTL that succeeds leaves its value with that deadline, and no other deadline changes |
| CallEffects.WriteForEnds | include/Database/Decorators/TTLDatabaseDecorator.h:47-97 | it is refused exactly for an insertion of a stored key, and fails only for a record evicted before its deadline could be set, which is then not set |
| CallEffects.UpdateForNothingActs | include/Database/Decorators/TTLDatabaseDecorator.h:91-96 | an update with a TTL of 0 drops that deadline only and puts what it stored into every view |
| CallEffects.PlainWritesKeepDeadlines | include/Database/Decorators/TTLDatabaseDecorator.h:39-72 | plain writes, and an insertion with a TTL of 0, change no deadline |
| CallEffects.RemoveTtlActs | include/Database/Decorators/TTLDatabaseDecorator.h:115-128 | a stored record gets into every view; no other deadline changes |
| CallEffects.RemoveActs | include/Database/Decorators/TTLDatabaseDecorator.h:148-153 | a deletion takes the record and its deadline and no other, or fails and changes nothing |
| CallEffects.LookUpActs | include/Database/Decorators/TTLDatabaseDecorator.h:131-145 | fails exactly for a record that is late or not stored; a late one goes with its deadline; otherwise the value is returned and no deadline changes |
| CallEffects.SweepActs | include/Database/Decorators/TTLDatabaseDecorator.h:168-198 | exactly the records past their deadline go, and exactly the deadlines that have passed |
| CallEffects.DeletedStartsAfresh | include/Database/Decorators/TTLDatabaseDecorator.h:131-198 | a key taken by a deletion, a late lookup or a sweep comes back, by a plain write, into every view |
| CommandEffects.WatchAnswers | include/Database/Commands/ConcreteCommands/TransactionCommands/WATCHCommand.h:12-29 | refused without keys and inside a transaction, and then nothing changes; otherwise OK exactly if all keys are stored |
| CommandEffects.WatchActs | include/Database/Commands/ConcreteCommands/TransactionCommands/WATCHCommand.h:22-28 | the client is clean and watches the keys up to and including the first that is not stored; it is registered, beyond what was, for exactly those before it |
| CommandEffects.MultiActs | include/Database/Commands/ConcreteCommands/TransactionCommands/MULTICommand.h:12-27 | inside a transaction an error that changes nothing; otherwise opens one with an empty queue and keeps what is watched and whether it changed |
| CommandEffects.ClearingActs | include/ClientManager/Client.h:135-143 | the client's four fields are reset, it is registered for none of the keys it watched, and every other registration stays |
| CommandEffects.DiscardActs | include/Database/Commands/ConcreteCommands/TransactionCommands/DISCARDCommand.h:12-25 | after OK the client is outside a transaction, clean, with an empty queue, watching nothing and registered for nothing it watched; the store is as it was; its next EXEC is an error that changes nothing |
| CommandEffects.ExecAfterDiscard | include/Database/Commands/ConcreteCommands/TransactionCommands/DISCARDCommand.h:12-25 | over any run every EXEC after it is such an error until the client sends MULTI |
| CommandEffects.ExecRefuses | include/Database/Commands/ConcreteCommands/TransactionCommands/EXECCommand.h:14-26 | outside a transaction an error that changes nothing; (nil) exactly for a dirty client in one, which then leaves it with no record changed |
| CommandEffects.ExecFinishes | include/Database/Commands/ConcreteCommands/TransactionCommands/EXECCommand.h:29-41 | OK exactly for an empty queue; a queue run to its end leaves the client as DISCARD does |
| CommandEffects.DataActs | include/CommandProcessor/CommandProcessor.h:34-55 | queued inside a transaction with nothing else changed; outside one the answer is the reply the script returned, and an error exactly if it threw |
| CommandEffects.ScriptActs | include/CommandProcessor/CommandProcessor.h:42-49 | a script goes on from each call with what that call returned and stops at its reply or exception |
| CommandEffects.RequestActs | src/server.cpp:106-107 | the call that answers a request is the one asked for, with the key, value and seconds given |
| CommandEffects.CallDirties | include/Database/Database.h:23-123 | one call of any client makes exactly those dirty who watch its key and are registered for it, and exactly if it is an update, an insertion of an absent key, a deletion of a stored one or a late lookup; their EXEC then answers (nil) |
| CommandEffects.SweepDirties | include/Database/Decorators/TTLDatabaseDecorator.h:168-198 | a sweep makes exactly those dirty who watch, and are registered for, a key stored past its deadline; their EXEC then answers (nil) |
| CommandEffects.WatchPromiseByCalls | include/Database/Commands/ConcreteCommands/TransactionCommands/EXECCommand.h:22-26 | over any run EXEC answers (nil) exactly if since the WATCH some call of some step, queued or not, changed a watched key in one of those ways |
| LockGate.EveryInterleavingRespects | include/Database/Database.h:25-28 | over every interleaving a queued command belongs to the EXEC that holds the lock, and a plain body running meanwhile crossed its gate before the lock was taken |
| LockGate.ExecsNeverInterleave | include/Database/Commands/ConcreteCommands/TransactionCommands/EXECCommand.h:30-38 | between taking the lock and giving it back only that client's queue runs |
| LockGate.BodyRunsIfPastGate | include/Database/Database.h:25-28 | once an EXEC has taken the lock, the body of a plain operation can run before it is given back exactly if that operation had passed its gate by then |
| LockGate.IsolatedIfNobodyPastGate | include/Database/Commands/ConcreteCommands/TransactionCommands/EXECCommand.h:30-38 | so an EXEC is isolated exactly if nobody is past the gate when it takes the lock |
| LockGate.QueueMayStopAnywhere | include/Database/Commands/ConcreteCommands/TransactionCommands/EXECCommand.h:30-38 | the holder can run any number of its commands up to the length of its queue, no more, and give the lock back there, as an exception does |
| LockGate.BodyInsideExec | include/Database/Database.h:184-187 | a reachable run in which a plain body runs between two queued commands |
| ThreadPool.EveryInterleavingSafe | include/ThreadPool.h:22-72 | over every interleaving: tasks leave in the order accepted, each is run by one worker once, the mutex excludes, no wake-up is lost |
| ThreadPool.SomeoneWillLookKept | include/ThreadPool.h:28-60 | while a worker is blocked there is, for every queued task, a worker about to look or a notification still owed; a busy worker counts for none |
| ThreadPool.QueuedIsNoticed | include/ThreadPool.h:28-60 | so while a task is queued some worker is not blocked or a wake-up is still owed |
| ThreadPool.NeverStuck | include/ThreadPool.h:22-72 | some thread can always move unless the queue is empty and all workers sleep, or the pool is joined |
| ThreadPool.EnqueueIsAccepted | include/ThreadPool.h:48-61 | a task is accepted, last in the queue and with a notification owed, whenever the pool is open and the mutex free; whoever holds the mutex gives it back |
| ThreadPool.AllExitedMeansAllDone | include/ThreadPool.h:33-36 | when every worker has exited every accepted task has completed |
| ThreadPool.ShutdownTerminates | include/ThreadPool.h:63-72 | from `notify_all` on every interleaving is finite, with an explicit bound |
| Codec.ReadVectorAt | src/ValueSerializationHelper.cpp:86-99 | a vector read wherever it stands is given back and the offset ends exactly behind it |
| Codec.ReadMapAt | src/ValueSerializationHelper.cpp:70-83 | a map written in any order is given back and the offset ends exactly behind it |
| Codec.ReadStringAt | src/ValueSerializationHelper.cpp:57-67 | a string read wherever it stands is given back and the offset ends exactly behind it |
| Codec.ReadMapKeepsLast | src/ValueSerializationHelper.cpp:70-83 | from entries with repeated keys each key has the value of its last entry, and there is no other key |
| Codec.ReadStringCut | src/ValueSerializationHelper.cpp:57-67 | a string cut short is refused |
| Codec.ReadVectorCut | src/ValueSerializationHelper.cpp:86-99 | a vector cut anywhere short of its end is refused |
| Codec.ReadMapCut | src/ValueSerializationHelper.cpp:70-83 | a map cut anywhere short of its end is refused |
| Codec.StringIsSelfDelimiting | src/ValueSerializationHelper.cpp:16-21 | equal bytes, whatever follows, come from equal strings and equal rests |
| Codec.VectorIsSelfDelimiting | src/ValueSerializationHelper.cpp:36-44 | equal bytes, whatever follows, come from equal vectors and equal rests |
| Codec.MapIsSelfDelimiting | src/ValueSerializationHelper.cpp:24-33 | equal bytes, whatever follows, come from equal maps and equal rests, whatever the orders |
| Codec.SizeRoundTrip | src/ValueSerializationHelper.cpp:9-13 | eight bytes give back every `size_t` |
| Codec.StoringAnEnumeration | src/ValueSerializationHelper.cpp:75-81 | storing the entries in any order rebuilds the map |
| Codec.SizeBytes | src/ValueSerializationHelper.cpp:9-13 | eight bytes, the lowest first |
| Codec.StringBytes | src/ValueSerializationHelper.cpp:16-21 | the length in eight bytes, then the characters |
| Codec.VectorBytes | src/ValueSerializationHelper.cpp:36-44 | the number of elements, then each in order as a string |
| Codec.MapBytes | src/ValueSerializationHelper.cpp:24-33 | the number of entries, then each key followed by its value |
| Codec.ByteBuffer.AppendString | src/ValueSerializationHelper.cpp:16-21 | length, then bytes |
| Codec.ByteBuffer.AppendMap | src/ValueSerializationHelper.cpp:24-33 | size, then every entry once, in some order |
| Codec.ByteBuffer.AppendVector | src/ValueSerializationHelper.cpp:36-44 | size, then every element in order |
| Codec.Cursor.ReadSizeT | src/ValueSerializationHelper.cpp:47-54 | the number and the new offset, or refused with the offset unchanged |
| Codec.Cursor.ReadText | src/ValueSerializationHelper.cpp:57-67 | the string and the new offset, or refused |
| Codec.Cursor.ReadHash | src/ValueSerializationHelper.cpp:70-83 | the map and the new offset, or refused |
| Codec.Cursor.ReadList | src/ValueSerializationHelper.cpp:86-99 | the vector and the new offset, or refused |
| Snapshots.ValueRoundTrip | src/ValueFactory.cpp:19-69 | for all seven types, creating a value from its tag and bytes gives back what a snapshot keeps of it and uses exactly those bytes, whatever follows |
| Snapshots.ReadTaggedAt | include/Database/Serializer/SerializationHelper.h:30-43 | a tagged value read wherever it stands is given back and the read ends exactly behind it, inside the buffer |
| Snapshots.SnapshotRoundTrip | include/Database/Serializer/Strategies/BinarySerializer.h:20-100 | reading back a snapshot in any order of records and fields yields every record once and ends at the end of the data |
| Snapshots.RegistersRoundTrip | include/Database/ConcreteValues/HyperLogLogValue.h:81-119 | registers, b and m come back exactly |
| Snapshots.StreamRoundTrip | include/Database/ConcreteValues/StreamValue.h:44-98 | messages come back exactly, ids through their decimal text |
| Snapshots.RegistersRead | include/Database/ConcreteValues/HyperLogLogValue.h:96-119 | from any sizes b and each register keep the low byte, m the low four; bytes behind are ignored |
| Snapshots.StreamRead | include/Database/ConcreteValues/StreamValue.h:64-98 | messages written in any order, ids repeated or not, come back in order with the last of each id and no other |
| Snapshots.ReadTaggedTakes | include/Database/Serializer/SerializationHelper.h:31-44 | a tagged read takes the bytes its length names whatever the value makes of them, and throws exactly if they make none |
| Snapshots.TrailingBytesIgnored | include/Database/Serializer/Strategies/BinarySerializer.h:66-100 | bytes behind a snapshot are ignored |
| Snapshots.TagsAreNames | src/ValueFactory.cpp:19-69 | the tags are the seven names in ASCII |
| Snapshots.PayloadBytes | src/ValueFactory.cpp:19-69 | the bytes of each of the seven types |
| Snapshots.StoreBytes | include/Database/Serializer/Strategies/BinarySerializer.h:27-61 | the number of records, then of each the key, the type and the value |
| Snapshots.ValueCut | src/ValueFactory.cpp:19-69 | for all seven types the bytes of a value cut anywhere short of their end create none |
| Snapshots.SnapshotCut | include/Database/Serializer/Strategies/BinarySerializer.h:66-100 | a snapshot cut anywhere loads exactly the records whole in what is left and is never taken for complete; it reads past its end exactly if cut inside the bytes of a value |
| Snapshots.SpoiltSnapshot | include/Database/Serializer/SerializationHelper.h:31-44 | a record whose value cannot be created throws out of the load wherever it stands, and what came before stays loaded |
| Snapshots.UnknownTag | src/ValueFactory.cpp:19-69 | a tag other than the seven creates no value |
| BinarySerializer.RestoreRoundTrip | include/Database/Serializer/Strategies/BinarySerializer.h:20-100 | deserializing into an empty store gives exactly the persisted store if nothing is evicted, and a part of it otherwise |
| BinarySerializer.LoadedIsSubMap | include/Database/Serializer/Strategies/BinarySerializer.h:74-99 | inserting distinct records into an empty store leaves a part of them, all if nothing is evicted |
| BinarySerializer.RestoredAsItWas | include/Database/Serializer/Strategies/BinarySerializer.h:20-100 | a store without streams comes back as it was, and streams without their groups |
| BinarySerializer.SerializeValue | src/ValueFactory.cpp:19-69 | the bytes represent the value in some order |
| BinarySerializer.Serialize | include/Database/Serializer/Strategies/BinarySerializer.h:20-63 | the bytes list every record once in some order |
| BinarySerializer.DeserializeValue | src/ValueFactory.cpp:19-69 | the value, or nothing where the program throws |
| BinarySerializer.ReadTaggedValue | include/Database/Serializer/SerializationHelper.h:30-43 | the value and the new offset, refused, thrown, or past the end of the buffer |
| BinarySerializer.LoadRecord | include/Database/Serializer/Strategies/BinarySerializer.h:77-99 | one round hands one record to the database, which evicts as the usage counter reads, or leaves the loop by a return, an exception, or into what is undefined |
| BinarySerializer.Deserialize | include/Database/Serializer/Strategies/BinarySerializer.h:66-100 | inserts exactly the records the data holds up to the first that cannot be read; each insertion evicts as the usage counter reads during it; tells a complete read, an early return and an escaping exception apart |
| BinarySerializer.LoadWithinCapacity | src/MemoryManager.cpp:76-80 | an insertion of a load that starts within capacity evicts nothing |
| BinarySerializer.SerializeStream | include/Database/ConcreteValues/StreamValue.h:44-61 | the messages in order, their fields in some order |
| BinarySerializer.DeserializeStream | include/Database/ConcreteValues/StreamValue.h:64-98 | the messages, or nothing where the program throws |
| BinarySerializer.SerializeRegisters | include/Database/ConcreteValues/HyperLogLogValue.h:81-93 | b, m and the registers as sizes |
| BinarySerializer.DeserializeRegisters | include/Database/ConcreteValues/HyperLogLogValue.h:96-119 | b, m and the registers cut to their widths |
| BinarySerializer.Members | include/Database/ConcreteValues/SetValue.h:56-59 | every member once, in some order |
| StreamIds.OperatorsAreOneTotalOrder | include/Database/ConcreteValues/Stream/StreamMessage.h:14-38 | the six operators describe one strict total order |
| StreamIds.ParseToString | include/Database/ConcreteValues/Stream/StreamMessage.h:39-55 | parsing the text of an id gives it back, for all 64-bit parts |
| StreamIds.OrderIsLexicographic | include/Database/ConcreteValues/Stream/StreamMessage.h:18-34 | milliseconds first, the sequence number among equals |
| StreamIds.TextOfId | include/Database/ConcreteValues/Stream/StreamMessage.h:39-42 | the decimal digits of both parts with one byte 45 between |
| StreamIds.NumberOfText | include/Database/ConcreteValues/Stream/StreamMessage.h:39-55 | digit strings are read with the first digit the most significant |
| StreamIds.StoullReads | include/Database/ConcreteValues/Stream/StreamMessage.h:51-52 | which texts the conversion takes: blanks, a sign, digits, then anything; a minus wraps; malformed without a digit, out of range from 2^64 |
| StreamIds.ParseSplits | include/Database/ConcreteValues/Stream/StreamMessage.h:44-54 | an id is split at its first dash; without one it is malformed |
| Streams.PutAppends | include/Database/ConcreteValues/StreamValue.h:101-109 | a new message is appended and overwrites nothing exactly when its id is above the last |
| Streams.PutKeepsSorted | include/Database/ConcreteValues/StreamValue.h:101-109 | adding keeps the order, replaces a message of the same id and keeps every other |
| Streams.StreamOnlyGrows | include/Database/ConcreteValues/StreamValue.h:101-109 | over any additions of one process to any streams, with a clock that does not run back and at most 2^64 of them, every stream holds every message added to it, in order |
| Streams.NewMessageVisible | include/Database/ConcreteValues/StreamValue.h:260-268 | a reader at the end sees a new message exactly when its id is above the last one |
| Streams.RestartHidesMessage | include/Database/ConcreteValues/StreamValue.h:260-268 | a restored stream and a new process whose message a reader at the end never sees, and which in the same millisecond replaces an old one |
| Streams.BetweenIsExact | include/Database/ConcreteValues/StreamValue.h:112-122 | a range holds exactly the messages with start <= id <= end, in order |
| Streams.AfterIsExact | include/Database/ConcreteValues/StreamValue.h:125-135 | the messages a read can return are exactly those above the id, in order |
| Streams.PageIsExact | include/Database/ConcreteValues/StreamValue.h:125-135 | a page is the first `count` of them, all if there are fewer, none for a count of 0 or less |
| Streams.PagingIsComplete | include/Database/ConcreteValues/StreamValue.h:125-135 | pages joined are exactly the messages above the start id, each once, ascending |
| Streams.ReadGroupConserves | include/Database/ConcreteValues/StreamValue.h:154-168 | a group read makes its page pending for the reading consumer and keeps the books |
| Streams.ReadGroupActs | include/Database/ConcreteValues/StreamValue.h:154-168 | the reader is registered, the messages of the page are pending for it, delivered now and once, the last of them is the last delivered, and no other entry changes |
| Streams.AckConserves | include/Database/ConcreteValues/Stream/StreamConsumerGroup.h:54-58 | acknowledging removes that id only and keeps the books |
| Streams.AckedUpToFirstBad | include/Database/Commands/ConcreteCommands/StreamCommands/XACKCommand.h:43-47 | exactly the ids named before the first token that does not parse are acknowledged |
| Streams.EveryGroupRunConserves | include/Database/ConcreteValues/Stream/StreamConsumerGroup.h:36-80 | over any run an id is pending exactly if delivered and not acknowledged since, for its last consumer, who is registered, and is the id of a message |
| Streams.AddPendingConserves | include/Database/ConcreteValues/Stream/StreamConsumerGroup.h:46-51 | a delivery keeps the books for any consumer, and leaves every entry with a registered one exactly when this one is registered |
| Streams.DeliveryCountIsExact | include/Database/ConcreteValues/Stream/StreamConsumerGroup.h:46-51 | the count a delivery writes is the number of deliveries exactly when the id is not pending at the time, against the comment on line 16 |
| Streams.RereadCountsOne | include/Database/ConcreteValues/Stream/StreamConsumerGroup.h:46-51 | a run that reads a page twice and counts one delivery |
| StreamEngine.ConsumerGroup.AddConsumer | include/Database/ConcreteValues/Stream/StreamConsumerGroup.h:36-43 | the consumer is registered |
| StreamEngine.ConsumerGroup.AddPending | include/Database/ConcreteValues/Stream/StreamConsumerGroup.h:46-51 | the id is pending for that consumer, registered or not |
| StreamEngine.ConsumerGroup.Ack | include/Database/ConcreteValues/Stream/StreamConsumerGroup.h:54-58 | true exactly when the id was pending |
| StreamEngine.ConsumerGroup.GetPending | include/Database/ConcreteValues/Stream/StreamConsumerGroup.h:61-73 | the matching entries, each once, and no others |
| StreamEngine.ConsumerGroup.AddAllPending | include/Database/ConcreteValues/StreamValue.h:159-162 | every message of the page becomes pending |
| StreamEngine.StreamValue.XAdd | include/Database/ConcreteValues/StreamValue.h:101-109 | the message is stored under the id made of clock and counter |
| StreamEngine.StreamValue.XRange | include/Database/ConcreteValues/StreamValue.h:112-122 | exactly the messages of the range, in order |
| StreamEngine.StreamValue.XRead | include/Database/ConcreteValues/StreamValue.h:125-135 | at most count of the messages above the id, the first ones |
| StreamEngine.StreamValue.CreateConsumerGroup | include/Database/ConcreteValues/StreamValue.h:137-143 | a new group, or refused and nothing changed |
| StreamEngine.StreamValue.XReadGroup | include/Database/ConcreteValues/StreamValue.h:154-168 | delivers one page to one consumer of one group and leaves the other groups alone |
| StreamEngine.Xack | include/Database/Commands/ConcreteCommands/StreamCommands/XACKCommand.h:42-48 | the reply is the drop in pending entries even with repeated ids; there is one exactly when every id parses, yet the ids before a bad one are acknowledged all the same |
| HyperLogLog.RegistersAreMaxima | include/Database/ConcreteValues/HyperLogLogValue.h:40-53 | each register is the maximum rank of the elements that hash to it |
| HyperLogLog.RegistersDependOnSet | include/Database/ConcreteValues/HyperLogLogValue.h:40-53 | order and repetition of additions do not matter |
| HyperLogLog.UnionIsPointwiseMax | include/Database/ConcreteValues/HyperLogLogValue.h:40-53 | the registers of a union are the pointwise maximum |
| HyperLogLog.IndexAndRankInRange | include/Database/ConcreteValues/HyperLogLogValue.h:45-48 | the index is always a register, the rank lies in [1, 65 - 2b] |
| HyperLogLog.IndexBits | include/Database/ConcreteValues/HyperLogLogValue.h:44-45 | the bits of the index are those of the hash from 64 - b on, the first eight only |
| HyperLogLog.IndexIsFirstBits | include/Database/ConcreteValues/HyperLogLogValue.h:44-45 | the index is the first b bits exactly when b <= 8, since it is cut to a byte; b is 14 by default |
| HyperLogLog.HighRegistersUnused | include/Database/ConcreteValues/HyperLogLogValue.h:45 | with b above 8 only the first 256 registers are ever used |
| HyperLogLog.RankOfLastBits | include/Database/ConcreteValues/HyperLogLogValue.h:46-48 | the rank of any hash is the position of the first one among its last 64 - 2b bits |
| HyperLogLog.RankIsIntended | include/Database/ConcreteValues/HyperLogLogValue.h:46-48 | the rank is the position of the first one after the index exactly when the b bits skipped hold a one and start with as many zeros as the bits looked at, against the comment on line 46 |
| HyperLogLog.FirstRemainingBitIgnored | include/Database/ConcreteValues/HyperLogLogValue.h:46-48 | a hash that fails it: its first bit after the index is set and it gets the largest rank |
| HyperLogLog.HyperLogLogValue.Add | include/Database/ConcreteValues/HyperLogLogValue.h:40-53 | the registers stay those of the elements added |
| HyperLogLog.HyperLogLogValue.CountLeadingZeros | include/Database/ConcreteValues/HyperLogLogValue.h:138-148 | the number of zeros above the first one |
| IntegerParser.ParseInteger | headers/cxxopts-master/include/cxxopts.hpp:947-1015 | for every width accepts exactly the texts whose number the type can hold, no sign for unsigned types, and returns that number |
| IntegerParser.TestsAreExact | headers/cxxopts-master/include/cxxopts.hpp:993-1002 | the two overflow tests reject exactly when the next value exceeds the limit; otherwise nothing wraps |
| IntegerParser.DigitBytes | headers/cxxopts-master/include/cxxopts.hpp:966-981 | which bytes are digits in base 10 and 16, and of what value |
| IntegerParser.ValueByPlaces | headers/cxxopts-master/include/cxxopts.hpp:962-1002 | the number of a text is the sum of its digits times the powers of the base |
| IntegerParser.DenotesItsDigits | headers/cxxopts-master/include/cxxopts.hpp:956-958 | a text of digits denotes its number or minus its number, any other text nothing |
| IntegerParser.RangesOfTypes | headers/cxxopts-master/include/cxxopts.hpp:983-991 | the limits of the eight types as numbers |
| IntegerParser.NegateIsExact | headers/cxxopts-master/include/cxxopts.hpp:931-938 | negation is exact up to and including the magnitude of the minimum, and for 0 |
| IntegerParser.LimitsAreRange | headers/cxxopts-master/include/cxxopts.hpp:897-911 | a magnitude is within the limit exactly if the number is in the range of the type |

## Left out

- Sockets, the event loop, terminal handling and command history: input and output.
- Snapshot files, their background thread, and the append-only log: the serializer works on byte sequences here.
- Approximate record sizes and the allocation counter: arguments chosen by the environment.
- HyperLogLog estimation and memory formatting: floating point.
- The per-type data commands (GET, HSET, LPUSH and the like): a data command is any script of database calls that ends, each call chosen by what the ones before returned; parsing of arguments and texts of replies are not modelled.
- Record objects: a record is its value; aliasing of a record held across later operations is not modelled, only the change itself (`Server.Database.MutateRecord`). Record's own frequency, version and TTL fields are never read by this code.
- Frequencies, list lengths and the LFU clock are unbounded numbers; wrap-around of a 64-bit frequency counter is not modelled.
- Deadlines are unbounded numbers; overflow of clock arithmetic for extreme TTLs is not modelled.
- Interleavings inside one data operation or inside the sweep of expired keys: operations are whole steps, except in ThreadPool and LockGate. Lock order between the deadline mutex, the observer mutex and the database lock, and so deadlock, is not claimed.
- Tasks of the pool are assumed not to throw, and workers to be at least one.
- MemoryManagement.MemoryManager.EvictIfNeeded: the loop body is split off as `PopVictim`; the usage counter is a function of the number of readings.
- BinarySerializer.Deserialize: loads into the plain database; the program loads through the TTL decorator, whose plain insertion is the same call and sets no deadline.
- Server.Database.InsertRecord and Commands.CommandProcessor.Exec: the middle part is split off as `StoreAndEvict`, the loop as `RunCommands`.
- Streams.RestartHidesMessage: the restored stream is given; that a snapshot restores messages exactly is `Snapshots.StreamRoundTrip`.
- BinarySerializer.ReadTaggedValue: where the program would read past the end of the buffer, which is undefined, the model stops; `offset + len` is not wrapped to 64 bits, which needs lengths no encoder writes.
- Codec.Cursor.ReadText: `offset + len` is not wrapped to 64 bits; on failure the partly advanced offset and partly filled target are not described, since every caller gives them up.
- A negative `count` of xread is treated as zero pages without modelling the overflow of decrementing the least `int`.
- SplitInteger and the rest of cxxopts: the parser starts from the sign, base and digits; the limit of the 64-bit minimum is taken as 2^63.
- The constructor of HyperLogLogValue rejects b outside 4 to 16 after allocating; only valid b is modelled.
- Observers after disconnection: clients are never destroyed.
- Lookups by name that fail in XACK and XREADGROUP before a group is found: easy.
