/** The database lock as a step protocol (include/Database/Database.h:25-28,
    include/Database/Database.h:184-187 and
    include/Database/Commands/ConcreteCommands/TransactionCommands/EXECCommand.h:30-38).

    The `shared_lock` of a plain operation lives in the block of an `if` and is gone
    before the body of the operation runs: it is a gate, not a guard.  EXEC holds the
    exclusive lock while it runs its queue.
 */
module LockGate {

  type Actor = nat

  datatype Place =
    | Idle
    | InGate                  // holds the shared lock
    | PastGate                // has released it, body still to run
    | Executing(left: nat)    // holds the exclusive lock, `left` commands queued

  datatype Event =
    | Gate(actor: Actor)
    | Body(actor: Actor)
    | Locked(actor: Actor)
    | Queued(actor: Actor)
    | Unlocked(actor: Actor)

  /** Actors that are not in `places` are idle. */
  datatype Lock = Lock(places: map<Actor, Place>, log: seq<Event>)

  datatype Step =
    | EnterGate(actor: Actor)
    | LeaveGate(actor: Actor)
    | RunBody(actor: Actor)
    | LockExclusive(actor: Actor, commands: nat)
    | RunQueued(actor: Actor)
    | Unlock(actor: Actor)   // also on the way out of an exception, with commands left

  const UNUSED: Lock := Lock(map[], [])

  function PlaceOf(s: Lock, a: Actor): Place {
    if a in s.places then s.places[a] else Idle
  }

  ghost predicate ExclusiveFree(s: Lock) {
    forall a :: a in s.places ==> !s.places[a].Executing?
  }

  ghost predicate SharedFree(s: Lock) {
    forall a :: a in s.places ==> !s.places[a].InGate?
  }

  ghost predicate Enabled(s: Lock, t: Step) {
    match t
    case EnterGate(a) => PlaceOf(s, a).Idle? && ExclusiveFree(s)
    case LeaveGate(a) => PlaceOf(s, a).InGate?
    case RunBody(a) => PlaceOf(s, a).PastGate?
    case LockExclusive(a, _) => PlaceOf(s, a).Idle? && ExclusiveFree(s) && SharedFree(s)
    case RunQueued(a) => PlaceOf(s, a).Executing? && PlaceOf(s, a).left > 0
    case Unlock(a) => PlaceOf(s, a).Executing?
  }

  ghost function Apply(s: Lock, t: Step): Lock
    requires Enabled(s, t)
  {
    match t
    case EnterGate(a) => Lock(s.places[a := InGate], s.log + [Gate(a)])
    case LeaveGate(a) => Lock(s.places[a := PastGate], s.log)
    case RunBody(a) => Lock(s.places[a := Idle], s.log + [Body(a)])
    case LockExclusive(a, n) => Lock(s.places[a := Executing(n)], s.log + [Locked(a)])
    case RunQueued(a) => Lock(s.places[a := Executing(PlaceOf(s, a).left - 1)], s.log + [Queued(a)])
    case Unlock(a) => Lock(s.places[a := Idle], s.log + [Unlocked(a)])
  }

  /** Where the EXEC that has not unlocked yet took the lock; -1 when there is none. */
  function OpenLock(log: seq<Event>): (i: int)
    ensures -1 <= i < |log| && (i >= 0 ==> log[i].Locked?)
  {
    if log == [] then -1
    else match log[|log| - 1]
         case Locked(_) => |log| - 1
         case Unlocked(_) => -1
         case _ => OpenLock(log[..|log| - 1])
  }

  /** Where `a` crossed the gate for the operation whose body has not run yet; -1
      when there is none. */
  function OpenGate(log: seq<Event>, a: Actor): (i: int)
    ensures -1 <= i < |log| && (i >= 0 ==> log[i] == Gate(a))
  {
    if log == [] then -1
    else if log[|log| - 1] == Gate(a) then |log| - 1
    else if log[|log| - 1] == Body(a) then -1
    else OpenGate(log[..|log| - 1], a)
  }

  /** Event `i` of the log respects the lock: a queued command belongs to the EXEC
      that holds the lock, only one EXEC holds it at a time, and a plain body that
      runs while an EXEC holds the lock crossed its gate before the lock was taken. */
  ghost predicate Respects(log: seq<Event>, i: nat)
    requires i < |log|
  {
    var lock := OpenLock(log[..i]);
    match log[i]
    case Queued(a) => lock >= 0 && log[lock] == Locked(a)
    case Unlocked(a) => lock >= 0 && log[lock] == Locked(a)
    case Locked(_) => lock == -1
    case Gate(_) => lock == -1
    case Body(a) => 0 <= OpenGate(log[..i], a) && (lock >= 0 ==> OpenGate(log[..i], a) < lock)
  }

  ghost predicate AllRespect(log: seq<Event>) {
    forall i :: 0 <= i < |log| ==> Respects(log, i)
  }

  /** The log and the places agree on who holds the exclusive lock. */
  ghost predicate LockKnown(s: Lock) {
    && (forall a :: a in s.places && s.places[a].Executing? ==>
          OpenLock(s.log) >= 0 && s.log[OpenLock(s.log)] == Locked(a))
    && (OpenLock(s.log) >= 0 ==> !ExclusiveFree(s) && SharedFree(s))
  }

  /** The log and the places agree on who has crossed the gate. */
  ghost predicate GatesKnown(s: Lock) {
    && (forall a :: PlaceOf(s, a).InGate? || PlaceOf(s, a).PastGate? <==> OpenGate(s.log, a) >= 0)
    && (forall a :: OpenLock(s.log) >= 0 ==> OpenGate(s.log, a) < OpenLock(s.log))
  }

  ghost predicate Invariant(s: Lock) {
    AllRespect(s.log) && LockKnown(s) && GatesKnown(s)
  }

  lemma LogGrows(log: seq<Event>, e: Event)
    requires AllRespect(log) && Respects(log + [e], |log|)
    ensures AllRespect(log + [e])
  {
    forall i | 0 <= i < |log|
      ensures Respects(log + [e], i)
    {
      assert (log + [e])[..i] == log[..i];
      assert Respects(log, i);
    }
  }

  lemma NextRespects(s: Lock, t: Step)
    requires Invariant(s) && Enabled(s, t)
    ensures AllRespect(Apply(s, t).log)
  {
    if !t.LeaveGate? {
      var u := Apply(s, t);
      var e := u.log[|s.log|];
      assert u.log == s.log + [e] && u.log[..|s.log|] == s.log;
      if t.RunBody? { assert OpenGate(s.log, t.actor) >= 0; }
      LogGrows(s.log, e);
    }
  }

  lemma NextLockKnown(s: Lock, t: Step)
    requires Invariant(s) && Enabled(s, t)
    ensures LockKnown(Apply(s, t))
  {
    hide AllRespect, Respects, OpenLock, OpenGate;
    var u := Apply(s, t);
    if !t.LeaveGate? { OpenAfter(s.log, u.log[|s.log|]); }
    if t.LockExclusive? || t.RunQueued? { assert u.places[t.actor].Executing?; }
    if !t.Unlock? && !ExclusiveFree(s) {
      var a :| a in s.places && s.places[a].Executing?;
      assert u.places[a].Executing?;
    }
  }

  /** What one more event does to what is open. */
  lemma OpenAfter(log: seq<Event>, e: Event)
    ensures OpenLock(log + [e]) == if e.Locked? then |log| else if e.Unlocked? then -1 else OpenLock(log)
    ensures forall a :: OpenGate(log + [e], a)
                        == if e == Gate(a) then |log| else if e == Body(a) then -1 else OpenGate(log, a)
  {
    assert (log + [e])[..|log|] == log;
  }

  lemma NextGatesKnown(s: Lock, t: Step)
    requires Invariant(s) && Enabled(s, t)
    ensures GatesKnown(Apply(s, t))
  {
    hide AllRespect, Respects, OpenLock, OpenGate, PlaceOf;
    var u := Apply(s, t);
    PlacesAfter(s, t.actor, u.places[t.actor], u);
    if !t.LeaveGate? { OpenAfter(s.log, u.log[|s.log|]); }
  }

  lemma PlacesAfter(s: Lock, b: Actor, p: Place, u: Lock)
    requires u.places == s.places[b := p]
    ensures forall a :: PlaceOf(u, a) == if a == b then p else PlaceOf(s, a)
  {
    forall a: Actor ensures PlaceOf(u, a) == if a == b then p else PlaceOf(s, a) {
      assert a != b && a in s.places ==> u.places[a] == s.places[a];
    }
  }

  lemma InvariantKept(s: Lock, t: Step)
    requires Invariant(s) && Enabled(s, t)
    ensures Invariant(Apply(s, t))
  {
    NextRespects(s, t);
    NextLockKnown(s, t);
    NextGatesKnown(s, t);
  }

  /** `run` goes on from `s`. */
  ghost predicate GoesOn(s: Lock, run: seq<Lock>, steps: seq<Step>) {
    && |run| == |steps| + 1 && run[0] == s
    && forall i :: 0 <= i < |steps| ==> Enabled(run[i], steps[i]) && run[i + 1] == Apply(run[i], steps[i])
  }

  ghost predicate IsRun(run: seq<Lock>, steps: seq<Step>) {
    GoesOn(UNUSED, run, steps)
  }

  /** Over every interleaving of any number of clients, the queued commands of two
      EXECs never interleave, and whatever else runs meanwhile crossed its gate
      before the lock was taken. */
  lemma {:induction false} EveryInterleavingRespects(run: seq<Lock>, steps: seq<Step>, n: nat)
    requires IsRun(run, steps) && n < |run|
    ensures Invariant(run[n])
  {
    if n > 0 {
      EveryInterleavingRespects(run, steps, n - 1);
      InvariantKept(run[n - 1], steps[n - 1]);
    }
  }

  /** Between taking the lock and giving it back, only that client's queue runs. */
  lemma {:induction false} ExecsNeverInterleave(log: seq<Event>, i: nat, j: nat)
    requires AllRespect(log) && i < j < |log| && log[i].Locked?
    requires forall k :: i < k < j ==> !log[k].Unlocked?
    ensures OpenLock(log[..j]) == i
    ensures log[j].Queued? || log[j].Unlocked? ==> log[j].actor == log[i].actor
  {
    assert log[..j][..j - 1] == log[..j - 1];
    if i < j - 1 {
      ExecsNeverInterleave(log, i, j - 1);
      assert Respects(log, j - 1);
    }
    assert Respects(log, j);
  }

  /** The lock is given back wherever the queue stops, at its end or at an exception: from
      any state in which `a` has `left` commands to run it can run any number of them up to
      `left`, no more, and give the lock back then. */
  lemma {:induction false} QueueMayStopAnywhere(s: Lock, a: Actor, m: nat) returns (run: seq<Lock>)
    requires PlaceOf(s, a).Executing? && m <= PlaceOf(s, a).left
    ensures GoesOn(s, run, seq(m, _ => RunQueued(a)) + [Unlock(a)]) && PlaceOf(run[m + 1], a).Idle?
    ensures Enabled(run[m], RunQueued(a)) <==> m < PlaceOf(s, a).left
    decreases m
  {
    var next := if m == 0 then Unlock(a) else RunQueued(a);
    var t := Apply(s, next);
    if m == 0 {
      run := [s, t];
    } else {
      var later := seq(m - 1, _ => RunQueued(a)) + [Unlock(a)];
      var rest := QueueMayStopAnywhere(t, a, m - 1);
      run := [s] + rest;
      assert seq(m, _ => RunQueued(a)) + [Unlock(a)] == [next] + later;
      StepThenRun(s, next, rest, later);
    }
  }

  lemma StepThenRun(s: Lock, t: Step, rest: seq<Lock>, steps: seq<Step>)
    requires Enabled(s, t) && GoesOn(Apply(s, t), rest, steps)
    ensures GoesOn(s, [s] + rest, [t] + steps)
  {
    hide Enabled, Apply;
  }

  // ------------------------------------------- what runs while EXEC holds the lock

  /** While `a` holds the lock nobody is in the gate or executes but `a`, and who is past
      the gate was past it when `a` took the lock in state `s`. */
  ghost predicate Holds(s: Lock, a: Actor, t: Lock) {
    PlaceOf(t, a).Executing? && forall b :: KeptOut(s, a, t, b)
  }

  ghost predicate KeptOut(s: Lock, a: Actor, t: Lock, b: Actor) {
    match PlaceOf(t, b)
    case Idle => true
    case InGate => false
    case PastGate => PlaceOf(s, b).PastGate?
    case Executing(_) => b == a
  }

  lemma NobodyInside(s: Lock)
    ensures ExclusiveFree(s) ==> forall b :: !PlaceOf(s, b).Executing?
    ensures SharedFree(s) ==> forall b :: !PlaceOf(s, b).InGate?
  {
  }

  lemma LockHolds(s: Lock, a: Actor, n: nat)
    requires Enabled(s, LockExclusive(a, n))
    ensures Holds(s, a, Apply(s, LockExclusive(a, n)))
  {
    hide PlaceOf, ExclusiveFree, SharedFree;
    var t := Apply(s, LockExclusive(a, n));
    NobodyInside(s);
    PlacesAfter(s, a, Executing(n), t);
    forall b: Actor ensures KeptOut(s, a, t, b) {
      assert PlaceOf(t, b) == if b == a then Executing(n) else PlaceOf(s, b);
    }
  }

  /** Where the actor of a step is afterwards, while `a` holds the lock. */
  lemma StepWhileHeld(s: Lock, a: Actor, t: Lock, step: Step)
    requires Holds(s, a, t) && Enabled(t, step) && step != Unlock(a)
    ensures step.actor in Apply(t, step).places
    ensures var p := Apply(t, step).places[step.actor];
            && Apply(t, step).places == t.places[step.actor := p]
            && if step.actor == a then p.Executing? else step.RunBody? && p.Idle?
    ensures step.RunBody? ==> PlaceOf(t, step.actor).PastGate?
  {
    hide PlaceOf, ExclusiveFree, SharedFree;
    NobodyInside(t);
    assert KeptOut(s, a, t, step.actor);
  }

  lemma HoldsKept(s: Lock, a: Actor, t: Lock, step: Step)
    requires Holds(s, a, t) && Enabled(t, step) && step != Unlock(a)
    ensures Holds(s, a, Apply(t, step))
    ensures step.RunBody? ==> PlaceOf(s, step.actor).PastGate?
  {
    hide PlaceOf, Enabled, Apply;
    StepWhileHeld(s, a, t, step);
    var u := Apply(t, step);
    var p := u.places[step.actor];
    PlacesAfter(t, step.actor, p, u);
    forall b: Actor ensures KeptOut(s, a, u, b) {
      assert KeptOut(s, a, t, b) && PlaceOf(u, b) == if b == step.actor then p else PlaceOf(t, b);
    }
    assert KeptOut(s, a, t, step.actor);
  }

  lemma {:induction false} HoldsThroughout(s: Lock, a: Actor, run: seq<Lock>, steps: seq<Step>, i: nat)
    requires |run| > 0 && Holds(s, a, run[0]) && GoesOn(run[0], run, steps) && i < |run|
    requires forall j :: 0 <= j < i ==> steps[j] != Unlock(a)
    ensures Holds(s, a, run[i])
  {
    hide Holds, Enabled, Apply;
    if i > 0 {
      HoldsThroughout(s, a, run, steps, i - 1);
      HoldsKept(s, a, run[i - 1], steps[i - 1]);
    }
  }

  /** The body of `b` runs in `steps`, and `a` keeps the lock until then. */
  ghost predicate BodyUnderLock(a: Actor, b: Actor, steps: seq<Step>) {
    exists i :: 0 <= i < |steps| && steps[i] == RunBody(b) && forall j :: 0 <= j < i ==> steps[j] != Unlock(a)
  }

  /** Exactly when EXEC is isolated: once `a` has taken the lock, a plain body of `b` can
      run before it is given back exactly if `b` had passed its gate by then. */
  lemma BodyRunsIfPastGate(s: Lock, a: Actor, n: nat, b: Actor)
    requires Enabled(s, LockExclusive(a, n))
    ensures (exists run, steps :: GoesOn(Apply(s, LockExclusive(a, n)), run, steps) && BodyUnderLock(a, b, steps))
            <==> PlaceOf(s, b).PastGate?
  {
    hide PlaceOf;
    var t := Apply(s, LockExclusive(a, n));
    LockHolds(s, a, n);
    PlacesAfter(s, a, Executing(n), t);
    if run, steps :| GoesOn(t, run, steps) && BodyUnderLock(a, b, steps) {
      var i :| 0 <= i < |steps| && steps[i] == RunBody(b) && forall j :: 0 <= j < i ==> steps[j] != Unlock(a);
      HoldsThroughout(s, a, run, steps, i);
      HoldsKept(s, a, run[i], steps[i]);
    }
    if PlaceOf(s, b).PastGate? {
      var run, steps := [t, Apply(t, RunBody(b))], [RunBody(b)];
      assert steps[0] == RunBody(b);
      assert GoesOn(t, run, steps) && BodyUnderLock(a, b, steps);
    }
  }

  /** So EXEC is isolated from all plain operations exactly if nobody is past the gate
      when it takes the lock. */
  lemma IsolatedIfNobodyPastGate(s: Lock, a: Actor, n: nat)
    requires Enabled(s, LockExclusive(a, n))
    ensures (exists run, steps, b :: GoesOn(Apply(s, LockExclusive(a, n)), run, steps) && BodyUnderLock(a, b, steps))
            <==> exists b :: PlaceOf(s, b).PastGate?
  {
    hide GoesOn, BodyUnderLock, PlaceOf;
    var t := Apply(s, LockExclusive(a, n));
    if run, steps, b :| GoesOn(t, run, steps) && BodyUnderLock(a, b, steps) {
      BodyRunsIfPastGate(s, a, n, b);
    }
    if b :| PlaceOf(s, b).PastGate? {
      BodyRunsIfPastGate(s, a, n, b);
    }
  }

  /** The states of such a run, and the log it leaves. */
  function Overtaken(a: Actor, b: Actor): seq<Lock> {
    var log := BodyAmongQueued(a, b);
    [UNUSED,
     Lock(map[b := InGate], log[..1]),
     Lock(map[b := PastGate], log[..1]),
     Lock(map[b := PastGate, a := Executing(2)], log[..2]),
     Lock(map[b := PastGate, a := Executing(1)], log[..3]),
     Lock(map[b := Idle, a := Executing(1)], log[..4]),
     Lock(map[b := Idle, a := Executing(0)], log[..5]),
     Lock(map[b := Idle, a := Idle], log)]
  }

  function OvertakenSteps(a: Actor, b: Actor): seq<Step> {
    [EnterGate(b), LeaveGate(b), LockExclusive(a, 2), RunQueued(a), RunBody(b), RunQueued(a), Unlock(a)]
  }

  function BodyAmongQueued(a: Actor, b: Actor): seq<Event> {
    [Gate(b), Locked(a), Queued(a), Body(b), Queued(a), Unlocked(a)]
  }

  lemma OvertakenStep(a: Actor, b: Actor, i: nat)
    requires a != b && i < 7
    ensures var s, t := Overtaken(a, b)[i], OvertakenSteps(a, b)[i];
            Enabled(s, t) && Apply(s, t) == Overtaken(a, b)[i + 1]
  {
    var s, t, u := Overtaken(a, b)[i], OvertakenSteps(a, b)[i], Overtaken(a, b)[i + 1];
    assert Apply(s, t).places == u.places;
    assert Apply(s, t).log == u.log;
  }

  /** Such a body does happen: EXEC is not isolated from an operation that was past
      its gate, whose body can run between two queued commands. */
  lemma BodyInsideExec(a: Actor, b: Actor)
    requires a != b
    ensures exists run: seq<Lock>, steps: seq<Step> :: IsRun(run, steps)
              && run[|steps|].log == [Gate(b), Locked(a), Queued(a), Body(b), Queued(a), Unlocked(a)]
  {
    hide Enabled, Apply;
    var run, steps := Overtaken(a, b), OvertakenSteps(a, b);
    forall i | 0 <= i < |steps| ensures Enabled(run[i], steps[i]) && run[i + 1] == Apply(run[i], steps[i]) {
      OvertakenStep(a, b, i);
    }
    assert IsRun(run, steps);
  }
}
