/** The worker pool of include/ThreadPool.h as a step protocol.

    A step is what one thread does between two points where others can interfere.
    The critical section of a worker is split in two (take the mutex; test the
    predicate and leave), so that notifications sent without the mutex may arrive
    while a worker is testing.  Blocking in `wait` releases the mutex atomically.
 */
module ThreadPool {

  type Task = nat

  datatype Worker =
    | Ready                       // about to lock the queue mutex
    | Testing                     // holds the mutex, predicate not yet tested
    | Asleep                      // blocked in condition.wait
    | Running(task: Task, job: nat)
    | Exited

  /** How far the destructor is. */
  datatype Shutdown = Open | Stopped | Joining | Joined

  /** `queue`, `stop`, `mutexFree` and `workers` are the pool; `owed` counts the
      producers that have pushed and not yet called `notify_one`.  The last three
      fields record what happened: tasks in the order accepted, how many of them
      were dequeued, and which have completed. */
  datatype Pool = Pool(
    queue: seq<Task>,
    stop: bool,
    mutexFree: bool,
    workers: seq<Worker>,
    owed: nat,
    shutdown: Shutdown,
    accepted: seq<Task>,
    taken: nat,
    completed: set<nat>)

  datatype Step =
    | Enqueue(task: Task)
    | NotifyOne(w: nat)
    | Spurious(w: nat)
    | Lock(w: nat)
    | Decide(w: nat)
    | Finish(w: nat)
    | Stop
    | NotifyAll
    | Join

  function Initial(n: nat): Pool {
    Pool([], false, true, seq(n, _ => Ready), 0, Open, [], 0, {})
  }

  ghost predicate NoneAsleep(p: Pool) {
    forall w :: 0 <= w < |p.workers| ==> !p.workers[w].Asleep?
  }

  ghost predicate AllExited(p: Pool) {
    forall w :: 0 <= w < |p.workers| ==> p.workers[w].Exited?
  }

  ghost predicate Enabled(p: Pool, s: Step) {
    match s
    case Enqueue(_) => p.mutexFree && !p.stop  // otherwise it waits, or throws and changes nothing
    case NotifyOne(w) => p.owed > 0 && (NoneAsleep(p) || (w < |p.workers| && p.workers[w].Asleep?))
    case Spurious(w) => w < |p.workers| && p.workers[w].Asleep?
    case Lock(w) => w < |p.workers| && p.workers[w].Ready? && p.mutexFree
    case Decide(w) => w < |p.workers| && p.workers[w].Testing?
    case Finish(w) => w < |p.workers| && p.workers[w].Running?
    case Stop => p.mutexFree && p.shutdown.Open?
    case NotifyAll => p.shutdown.Stopped?
    case Join => p.shutdown.Joining? && AllExited(p)
  }

  function Wake(w: Worker): Worker {
    if w.Asleep? then Ready else w
  }

  ghost function Apply(p: Pool, s: Step): Pool
    requires Enabled(p, s)
  {
    match s
    case Enqueue(t) => p.(queue := p.queue + [t], owed := p.owed + 1, accepted := p.accepted + [t])
    case NotifyOne(w) =>
      p.(owed := p.owed - 1, workers := if NoneAsleep(p) then p.workers else p.workers[w := Ready])
    case Spurious(w) => p.(workers := p.workers[w := Ready])
    case Lock(w) => p.(mutexFree := false, workers := p.workers[w := Testing])
    case Decide(w) =>
      if !p.stop && p.queue == [] then p.(mutexFree := true, workers := p.workers[w := Asleep])
      else if p.queue == [] then p.(mutexFree := true, workers := p.workers[w := Exited])
      else p.(mutexFree := true, workers := p.workers[w := Running(p.queue[0], p.taken)],
              queue := p.queue[1..], taken := p.taken + 1)
    case Finish(w) => p.(workers := p.workers[w := Ready], completed := p.completed + {p.workers[w].job})
    case Stop => p.(stop := true, shutdown := Stopped)
    case NotifyAll => p.(shutdown := Joining,
                         workers := seq(|p.workers|, i requires 0 <= i < |p.workers| => Wake(p.workers[i])))
    case Join => p.(shutdown := Joined)
  }

  // ------------------------------------------------------------ invariant

  /** Tasks leave in the order they came: what is queued is what was accepted and
      not yet taken. */
  ghost predicate Fifo(p: Pool) {
    p.taken <= |p.accepted| && p.queue == p.accepted[p.taken..]
  }

  /** Job `j`, the j-th accepted task, is being run by worker `w`. */
  ghost predicate Runs(p: Pool, w: nat, j: nat) {
    w < |p.workers| && p.workers[w].Running? && p.workers[w].job == j
  }

  /** A job in the hands of a worker was taken, is not completed, and is in no other
      hands. */
  ghost predicate HeldOnce(p: Pool) {
    && (forall w: nat, j: nat :: Runs(p, w, j) ==>
          j < p.taken && j !in p.completed && j < |p.accepted| && p.workers[w].task == p.accepted[j])
    && (forall v: nat, w: nat, j: nat :: Runs(p, v, j) && Runs(p, w, j) ==> v == w)
    && (forall j :: j in p.completed ==> j < p.taken)
  }

  /** A taken job is completed or in someone's hands. */
  ghost predicate NoneLost(p: Pool) {
    forall j: nat :: j < p.taken ==> j in p.completed || exists w: nat :: Runs(p, w, j)
  }

  ghost predicate MutualExclusion(p: Pool) {
    && (p.mutexFree ==> forall w :: 0 <= w < |p.workers| ==> !p.workers[w].Testing?)
    && (!p.mutexFree ==> exists w :: 0 <= w < |p.workers| && p.workers[w].Testing?)
    && (forall v, w | 0 <= v < |p.workers| && 0 <= w < |p.workers| ::
          p.workers[v].Testing? && p.workers[w].Testing? ==> v == w)
  }

  ghost predicate Stopping(p: Pool) {
    && (p.stop <==> !p.shutdown.Open?)
    && (forall w :: 0 <= w < |p.workers| && p.workers[w].Exited? ==> p.stop && p.queue == [])
    && (p.shutdown.Joining? || p.shutdown.Joined? ==> NoneAsleep(p))
    && (p.shutdown.Joined? ==> AllExited(p))
  }

  /** The workers that will test the predicate without being woken. */
  function Looking(ws: seq<Worker>): nat {
    if ws == [] then 0 else (if ws[0].Ready? || ws[0].Testing? then 1 else 0) + Looking(ws[1..])
  }

  /** No lost wake-up: while some worker is blocked and `notify_all` is not due, there is
      for every queued task a worker about to look, or a notification still to come.  A
      worker busy with a task counts for none. */
  ghost predicate SomeoneWillLook(p: Pool) {
    NoneAsleep(p) || p.shutdown.Stopped? || |p.queue| <= p.owed + Looking(p.workers)
  }

  ghost predicate Invariant(p: Pool) {
    && |p.workers| > 0
    && Fifo(p) && HeldOnce(p) && NoneLost(p) && MutualExclusion(p) && Stopping(p) && SomeoneWillLook(p)
  }

  lemma InitialInvariant(n: nat)
    requires n > 0
    ensures Invariant(Initial(n))
  {
  }

  lemma FifoKept(p: Pool, s: Step)
    requires Fifo(p) && Enabled(p, s)
    ensures Fifo(Apply(p, s))
  {
    if s.Decide? && p.queue != [] {
      assert p.accepted[p.taken..][1..] == p.accepted[p.taken + 1..];
    }
  }

  /** A step hands out at most one job, the next in turn. */
  lemma RunsAfter(p: Pool, s: Step)
    requires Enabled(p, s)
    ensures forall w: nat, j: nat :: Runs(Apply(p, s), w, j) ==>
              (Runs(p, w, j) && s != Finish(w)) || (s == Decide(w) && p.queue != [] && j == p.taken)
    ensures s.Decide? && p.queue != [] ==> Apply(p, s).workers[s.w].task == p.queue[0]
    ensures forall w: nat, j: nat :: Runs(Apply(p, s), w, j) && Runs(p, w, j) ==> Apply(p, s).workers[w] == p.workers[w]
  {
    hide NoneAsleep, AllExited;
  }

  lemma HeldOnceKept(p: Pool, s: Step)
    requires Fifo(p) && HeldOnce(p) && Enabled(p, s)
    ensures HeldOnce(Apply(p, s))
  {
    hide NoneAsleep, AllExited;
    RunsAfter(p, s);
    if s.Finish? { assert Runs(p, s.w, p.workers[s.w].job); }
    if s.Decide? && p.queue != [] { assert p.queue[0] == p.accepted[p.taken]; }
  }

  lemma NoneLostKept(p: Pool, s: Step)
    requires NoneLost(p) && Enabled(p, s)
    ensures NoneLost(Apply(p, s))
  {
    var q := Apply(p, s);
    forall j: nat | j < q.taken
      ensures j in q.completed || exists w: nat :: Runs(q, w, j)
    {
      if j == p.taken {
        assert Runs(q, s.w, j);
      } else if j !in p.completed {
        var w: nat :| Runs(p, w, j);
        assert Runs(q, w, j) || j in q.completed;
      }
    }
  }

  lemma MutualExclusionKept(p: Pool, s: Step)
    requires MutualExclusion(p) && Enabled(p, s)
    ensures MutualExclusion(Apply(p, s))
  {
    var q := Apply(p, s);
    if !q.mutexFree {
      if s.Lock? {
        assert q.workers[s.w].Testing?;
      } else {
        var w :| 0 <= w < |p.workers| && p.workers[w].Testing?;
        assert q.workers[w].Testing?;
      }
    }
  }

  lemma StoppingKept(p: Pool, s: Step)
    requires Stopping(p) && Enabled(p, s)
    ensures Stopping(Apply(p, s))
  {
  }

  lemma {:induction false} LookingUpdate(ws: seq<Worker>, i: nat, w: Worker)
    requires i < |ws|
    ensures Looking(ws[i := w]) + Looking([ws[i]]) == Looking(ws) + Looking([w])
  {
    if i == 0 {
      assert ws[0 := w][1..] == ws[1..];
    } else {
      LookingUpdate(ws[1..], i - 1, w);
      assert ws[i := w][1..] == ws[1..][i - 1 := w];
    }
  }

  lemma SomeoneWillLookKept(p: Pool, s: Step)
    requires Stopping(p) && SomeoneWillLook(p) && Enabled(p, s)
    ensures SomeoneWillLook(Apply(p, s))
  {
    if (s.NotifyOne? && !NoneAsleep(p)) || s.Spurious? || s.Lock? || s.Decide? || s.Finish? {
      LookingUpdate(p.workers, s.w, Apply(p, s).workers[s.w]);
    }
  }

  /** While a task is queued some worker is not blocked, or a wake-up is still owed. */
  lemma QueuedIsNoticed(p: Pool)
    requires |p.workers| > 0 && SomeoneWillLook(p) && p.queue != []
    ensures p.owed > 0 || p.shutdown.Stopped? || exists w :: 0 <= w < |p.workers| && !p.workers[w].Asleep?
  {
    if NoneAsleep(p) {
      assert !p.workers[0].Asleep?;
    } else {
      AllAsleepNoneLooking(p.workers);
    }
  }

  lemma {:induction false} AllAsleepNoneLooking(ws: seq<Worker>)
    ensures Looking(ws) > 0 ==> exists w :: 0 <= w < |ws| && !ws[w].Asleep?
  {
    if ws != [] {
      AllAsleepNoneLooking(ws[1..]);
      if Looking(ws[1..]) > 0 {
        var w :| 0 <= w < |ws[1..]| && !ws[1..][w].Asleep?;
        assert ws[w + 1] == ws[1..][w];
      } else if Looking(ws) > 0 {
        assert !ws[0].Asleep?;
      }
    }
  }

  lemma InvariantKept(p: Pool, s: Step)
    requires Invariant(p) && Enabled(p, s)
    ensures Invariant(Apply(p, s))
  {
    FifoKept(p, s);
    HeldOnceKept(p, s);
    NoneLostKept(p, s);
    MutualExclusionKept(p, s);
    StoppingKept(p, s);
    SomeoneWillLookKept(p, s);
  }

  /** `run` is an interleaving of the threads of a pool of `n` workers. */
  ghost predicate IsRun(n: nat, run: seq<Pool>, steps: seq<Step>) {
    && |run| == |steps| + 1 && run[0] == Initial(n)
    && forall i :: 0 <= i < |steps| ==> Enabled(run[i], steps[i]) && run[i + 1] == Apply(run[i], steps[i])
  }

  /** Over every interleaving, every state keeps all of it: tasks are taken in the
      order accepted, each once, and no wake-up is lost. */
  lemma {:induction false} EveryInterleavingSafe(n: nat, run: seq<Pool>, steps: seq<Step>, i: nat)
    requires n > 0 && IsRun(n, run, steps) && i < |run|
    ensures Invariant(run[i])
  {
    if i == 0 {
      InitialInvariant(n);
    } else {
      EveryInterleavingSafe(n, run, steps, i - 1);
      InvariantKept(run[i - 1], steps[i - 1]);
    }
  }

  // --------------------------------------------- nothing hangs, all is done

  /** A step a thread of the pool takes by itself: no new task, no new shutdown, no
      spurious wake-up. */
  predicate Internal(s: Step) {
    !s.Enqueue? && !s.Stop? && !s.Spurious?
  }

  /** The pool is never stuck: some thread can move on unless the queue is empty
      and every worker sleeps in an open pool, or the pool is joined. */
  lemma NeverStuck(p: Pool)
    requires Invariant(p)
    ensures (exists s :: Internal(s) && Enabled(p, s))
            || (p.shutdown.Open? && p.queue == [] && p.owed == 0
                && forall w :: 0 <= w < |p.workers| ==> p.workers[w].Asleep?)
            || p.shutdown.Joined?
  {
    if p.queue != [] { QueuedIsNoticed(p); }
    if !p.mutexFree {
      var w :| 0 <= w < |p.workers| && p.workers[w].Testing?;
      assert Internal(Decide(w)) && Enabled(p, Decide(w));
    } else if w :| 0 <= w < |p.workers| && p.workers[w].Ready? {
      assert Internal(Lock(w)) && Enabled(p, Lock(w));
    } else if w :| 0 <= w < |p.workers| && p.workers[w].Running? {
      assert Internal(Finish(w)) && Enabled(p, Finish(w));
    } else if p.shutdown.Stopped? {
      assert Internal(NotifyAll) && Enabled(p, NotifyAll);
    } else if p.owed > 0 {
      if NoneAsleep(p) {
        assert Internal(NotifyOne(0)) && Enabled(p, NotifyOne(0));
      } else {
        var w :| 0 <= w < |p.workers| && p.workers[w].Asleep?;
        assert Internal(NotifyOne(w)) && Enabled(p, NotifyOne(w));
      }
    } else if p.shutdown.Joining? {
      assert Internal(Join) && Enabled(p, Join);
    }
  }

  /** A task is accepted whenever the pool is not stopped and nobody holds the mutex, and a
      worker that holds it always gives it back without stopping the pool; the task is then
      last in the queue and a notification is owed for it.  A stopped pool accepts none. */
  lemma EnqueueIsAccepted(p: Pool, t: Task)
    requires Invariant(p)
    ensures p.stop ==> !Enabled(p, Enqueue(t))
    ensures !p.stop && p.mutexFree ==>
              && Enabled(p, Enqueue(t))
              && Apply(p, Enqueue(t)) == p.(queue := p.queue + [t], accepted := p.accepted + [t], owed := p.owed + 1)
    ensures !p.stop && !p.mutexFree ==>
              exists w :: Enabled(p, Decide(w)) && Apply(p, Decide(w)).mutexFree && !Apply(p, Decide(w)).stop
  {
    if !p.mutexFree {
      var w :| 0 <= w < |p.workers| && p.workers[w].Testing?;
      assert Enabled(p, Decide(w));
    }
  }

  /** When every worker has exited, the destructor had stopped the pool and every
      accepted task has completed. */
  lemma AllExitedMeansAllDone(p: Pool)
    requires Invariant(p) && AllExited(p)
    ensures p.stop && forall j: nat :: j in p.completed <==> j < |p.accepted|
  {
    assert p.workers[0].Exited?;
    assert forall w, j :: !Runs(p, w, j);
    assert p.taken == |p.accepted|;
  }

  function Rank(w: Worker): nat {
    match w
    case Running(_, _) => 3
    case Ready => 2
    case Testing => 1
    case Asleep => 0
    case Exited => 0
  }

  function Ranks(ws: seq<Worker>): nat {
    if ws == [] then 0 else Rank(ws[0]) + Ranks(ws[1..])
  }

  lemma {:induction false} RanksUpdate(ws: seq<Worker>, i: nat, w: Worker)
    requires i < |ws|
    ensures Ranks(ws[i := w]) + Rank(ws[i]) == Ranks(ws) + Rank(w)
  {
    if i == 0 {
      assert ws[0 := w][1..] == ws[1..];
    } else {
      RanksUpdate(ws[1..], i - 1, w);
      assert ws[i := w][1..] == ws[1..][i - 1 := w];
    }
  }

  /** What is left to do once `notify_all` was called. */
  function Remaining(p: Pool): nat {
    p.owed + 4 * |p.queue| + Ranks(p.workers) + if p.shutdown.Joined? then 0 else 1
  }

  lemma DrainStep(p: Pool, s: Step)
    requires Invariant(p) && (p.shutdown.Joining? || p.shutdown.Joined?) && Enabled(p, s)
    ensures Remaining(Apply(p, s)) < Remaining(p)
    ensures Apply(p, s).shutdown.Joining? || Apply(p, s).shutdown.Joined?
  {
    match s {
      case Lock(w) => RanksUpdate(p.workers, w, Testing);
      case Decide(w) => RanksUpdate(p.workers, w, Apply(p, s).workers[w]);
      case Finish(w) => RanksUpdate(p.workers, w, Ready);
      case _ =>
    }
  }

  /** The destructor returns: from the moment of `notify_all` every interleaving is
      shorter than `Remaining`, and by NeverStuck it can only end joined. */
  lemma {:induction false} ShutdownTerminates(run: seq<Pool>, steps: seq<Step>)
    requires |run| == |steps| + 1
    requires forall i :: 0 <= i < |steps| ==> Enabled(run[i], steps[i]) && run[i + 1] == Apply(run[i], steps[i])
    requires Invariant(run[0]) && (run[0].shutdown.Joining? || run[0].shutdown.Joined?)
    ensures |steps| <= Remaining(run[0])
    ensures |steps| + Remaining(run[|steps|]) <= Remaining(run[0])
    decreases |steps|
  {
    if steps != [] {
      DrainStep(run[0], steps[0]);
      InvariantKept(run[0], steps[0]);
      ShutdownTerminates(run[1..], steps[1..]);
    }
  }
}
