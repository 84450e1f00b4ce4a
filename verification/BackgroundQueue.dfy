/** The background work queue of db/Env_posix.cpp: Schedule, called by any number of threads,
    and BGThread, under every interleaving.

    A step is one call on the mutex or the condition variable, or one piece of work between
    two such calls. pthread_cond_wait releases the mutex and falls asleep in one step, may wake
    up spuriously, and takes the mutex again before it returns. */
module BackgroundQueue {
  import opened Runs
  import opened Wrappers

  datatype Job = Job(code: int, arg: int)

  type ThreadId = nat

  datatype Owner = Free | Caller(t: ThreadId) | Background

  /** Where a thread stands in Schedule. From Starting to Unlocking it holds the mutex. */
  datatype Scheduler =
    | Locking(job: Job)
    | Starting(job: Job)
    | Creating(job: Job)
    | Signalling(job: Job)
    | Pushing(job: Job)
    | Unlocking

  /** Where the worker stands in BGThread. At Checking and Taken it holds the mutex. */
  datatype Worker =
    | NotCreated
    | Relocking
    | Checking
    | Asleep
    | Woken
    | Taken(job: Job)
    | Running(job: Job)

  /** scheduled lists the jobs in the order in which their calls got the mutex. */
  datatype State = State(
    mutex: Owner, started: bool, created: nat, queue: seq<Job>, worker: Worker,
    callers: map<ThreadId, Scheduler>, scheduled: seq<Job>, executed: seq<Job>)

  datatype Step =
    | Call(t: ThreadId, job: Job)
    | SchedulerMove(t: ThreadId)
    | WorkerMove
    | SpuriousWakeup

  function Init(): State {
    State(Free, false, 0, [], NotCreated, map[], [], [])
  }

  ghost predicate Enabled(s: State, step: Step) {
    match step
    case Call(t, _) => t !in s.callers
    case SchedulerMove(t) => t in s.callers && (s.callers[t].Locking? ==> s.mutex == Free)
    case WorkerMove =>
      !s.worker.NotCreated? && !s.worker.Asleep? && (s.worker.Relocking? || s.worker.Woken? ==> s.mutex == Free)
    case SpuriousWakeup => s.worker.Asleep?
  }

  ghost function MoveScheduler(s: State, t: ThreadId): State
    requires t in s.callers
  {
    match s.callers[t]
    case Locking(job) =>
      s.(mutex := Caller(t), callers := s.callers[t := Starting(job)], scheduled := s.scheduled + [job])
    case Starting(job) =>
      if s.started then s.(callers := s.callers[t := Signalling(job)])
      else s.(started := true, callers := s.callers[t := Creating(job)])
    case Creating(job) =>
      s.(created := s.created + 1, worker := if s.worker.NotCreated? then Relocking else s.worker,
         callers := s.callers[t := Signalling(job)])
    case Signalling(job) =>
      s.(worker := if s.queue == [] && s.worker.Asleep? then Woken else s.worker,
         callers := s.callers[t := Pushing(job)])
    case Pushing(job) =>
      s.(queue := s.queue + [job], callers := s.callers[t := Unlocking])
    case Unlocking =>
      s.(mutex := Free, callers := s.callers - {t})
  }

  ghost function MoveWorker(s: State): State {
    match s.worker
    case NotCreated => s
    case Relocking => s.(mutex := Background, worker := Checking)
    case Checking =>
      if s.queue == [] then s.(mutex := Free, worker := Asleep)
      else s.(queue := s.queue[1..], worker := Taken(s.queue[0]))
    case Asleep => s
    case Woken => s.(mutex := Background, worker := Checking)
    case Taken(job) => s.(mutex := Free, worker := Running(job))
    case Running(job) => s.(executed := s.executed + [job], worker := Relocking)
  }

  ghost function Apply(s: State, step: Step): State
    requires Enabled(s, step)
  {
    match step
    case Call(t, job) => s.(callers := s.callers[t := Locking(job)])
    case SchedulerMove(t) => MoveScheduler(s, t)
    case WorkerMove => MoveWorker(s)
    case SpuriousWakeup => s.(worker := Woken)
  }

  // ---------- what every reachable state satisfies ----------

  ghost predicate Holds(c: Scheduler) {
    !c.Locking?
  }

  ghost predicate MutexOk(s: State) {
    && (forall t :: t in s.callers && Holds(s.callers[t]) ==> s.mutex == Caller(t))
    && (s.mutex.Caller? ==> s.mutex.t in s.callers && Holds(s.callers[s.mutex.t]))
    && (s.mutex == Background <==> s.worker.Checking? || s.worker.Taken?)
  }

  /** The job of the caller that holds the mutex, until it is pushed. */
  ghost function InHand(s: State): Option<Job>
    requires MutexOk(s)
  {
    if s.mutex.Caller? then
      match s.callers[s.mutex.t]
      case Unlocking => None
      case c => Some(c.job)
    else None
  }

  function AsSeq(o: Option<Job>): seq<Job> {
    if o.Some? then [o.value] else []
  }

  /** The job the worker has taken and not yet finished. */
  function InFlight(s: State): seq<Job> {
    if s.worker.Taken? || s.worker.Running? then [s.worker.job] else []
  }

  /** Jobs are executed once each, in the order in which they were scheduled. */
  ghost predicate Fifo(s: State)
    requires MutexOk(s)
  {
    s.executed + InFlight(s) + s.queue + AsSeq(InHand(s)) == s.scheduled
  }

  /** At most one worker is created: by the first call, which is past that point once it unlocks. */
  ghost predicate OneWorker(s: State)
    requires MutexOk(s)
  {
    && s.created == (if s.worker.NotCreated? then 0 else 1)
    && (s.started <==> s.created == 1 || (s.mutex.Caller? && s.callers[s.mutex.t].Creating?))
    && (s.mutex.Caller? && s.callers[s.mutex.t].Creating? ==> s.created == 0)
    && (s.mutex.Caller? && (var c := s.callers[s.mutex.t]; c.Signalling? || c.Pushing? || c.Unlocking?) ==>
          s.created == 1)
    && (s.queue != [] ==> s.created == 1)
  }

  /** No lost wakeup, although the signal precedes the push: a sleeping worker means an empty
      queue, and between signal and push of a first job the worker is awake. */
  ghost predicate AwakeForWork(s: State)
    requires MutexOk(s)
  {
    && (s.queue != [] ==> !s.worker.Asleep?)
    && (s.mutex.Caller? && s.callers[s.mutex.t].Pushing? ==> !s.worker.Asleep?)
  }

  ghost predicate Inv(s: State) {
    MutexOk(s) && Fifo(s) && OneWorker(s) && AwakeForWork(s)
  }

  lemma SchedulerKeepsMutex(s: State, t: ThreadId)
    requires MutexOk(s) && Enabled(s, SchedulerMove(t))
    ensures MutexOk(MoveScheduler(s, t))
  {
  }

  lemma SchedulerKeepsFifo(s: State, t: ThreadId)
    requires MutexOk(s) && Fifo(s) && Enabled(s, SchedulerMove(t)) && MutexOk(MoveScheduler(s, t))
    ensures Fifo(MoveScheduler(s, t))
  {
    hide OneWorker, AwakeForWork;
    var n, done := MoveScheduler(s, t), s.executed + InFlight(s);
    assert s.callers[t].Pushing? ==> done + n.queue == done + s.queue + [s.callers[t].job];
  }

  lemma SchedulerKeepsWorker(s: State, t: ThreadId)
    requires MutexOk(s) && OneWorker(s) && AwakeForWork(s)
    requires Enabled(s, SchedulerMove(t)) && MutexOk(MoveScheduler(s, t))
    ensures OneWorker(MoveScheduler(s, t)) && AwakeForWork(MoveScheduler(s, t))
  {
    hide Fifo;
  }

  lemma SchedulerKeepsInv(s: State, t: ThreadId)
    requires Inv(s) && Enabled(s, SchedulerMove(t))
    ensures Inv(MoveScheduler(s, t))
  {
    hide MutexOk, Fifo, OneWorker, AwakeForWork, MoveScheduler;
    SchedulerKeepsMutex(s, t);
    SchedulerKeepsFifo(s, t);
    SchedulerKeepsWorker(s, t);
  }

  lemma WorkerKeepsInv(s: State)
    requires Inv(s) && Enabled(s, WorkerMove)
    ensures Inv(MoveWorker(s))
  {
  }

  lemma StepKeepsInv(s: State, step: Step)
    requires Inv(s) && Enabled(s, step)
    ensures Inv(Apply(s, step))
  {
    match step
    case SchedulerMove(t) => SchedulerKeepsInv(s, t);
    case WorkerMove => WorkerKeepsInv(s);
    case _ =>
  }

  // ---------- runs ----------

  ghost function Next(s: State, step: Step): Option<State> {
    if Enabled(s, step) then Some(Apply(s, step)) else None
  }

  lemma LeadsKeepsInv(s: State, steps: seq<Step>, t: State)
    requires Inv(s) && Leads(Next, s, steps, t)
    ensures Inv(t)
  {
    hide Inv, Enabled, Apply;
    forall a, step | Inv(a) && Next(a, step).Some? ensures Inv(Next(a, step).value) {
      StepKeepsInv(a, step);
    }
    LeadsKeeps(Next, a => Inv(a), s, steps, t);
  }

  /** In every run: first in, first out, nothing lost and nothing run twice; at most one worker;
      and when the mutex is free and work is queued, the worker is there and awake. */
  lemma EveryRun(steps: seq<Step>, s: State)
    requires Leads(Next, Init(), steps, s)
    ensures s.executed <= s.scheduled && s.created <= 1
    ensures s.mutex == Free ==> s.executed + InFlight(s) + s.queue == s.scheduled
    ensures s.mutex == Free && s.queue != [] ==> s.worker.Relocking? || s.worker.Woken? || s.worker.Running?
  {
    LeadsKeepsInv(Init(), steps, s);
    ExecutedInOrder(s);
  }

  // ---------- progress ----------

  function SchedulerRank(c: Scheduler): nat {
    match c
    case Locking(_) => 0
    case Unlocking => 1
    case Pushing(_) => 2
    case Signalling(_) => 3
    case Creating(_) => 4
    case Starting(_) => 5
  }

  /** A call that holds the mutex gives it up by its own moves. */
  lemma {:induction false} HolderUnlocks(s: State) returns (steps: seq<Step>, t: State)
    requires Inv(s) && s.mutex.Caller?
    ensures Leads(Next, s, steps, t) && Inv(t) && t.mutex == Free && t.scheduled == s.scheduled
    ensures forall i :: 0 <= i < |steps| ==> steps[i].SchedulerMove?
    decreases SchedulerRank(s.callers[s.mutex.t])
  {
    var step := SchedulerMove(s.mutex.t);
    var next := Apply(s, step);
    StepKeepsInv(s, step);
    if next.mutex == Free {
      steps, t := [], next;
    } else {
      assert next.mutex == s.mutex && SchedulerRank(next.callers[s.mutex.t]) < SchedulerRank(s.callers[s.mutex.t]);
      steps, t := HolderUnlocks(next);
    }
    hide Inv;
    LeadsFirst(Next, s, step, steps, t);
    steps := [step] + steps;
  }

  function WorkerRank(w: Worker): nat {
    match w
    case Taken(_) => 4
    case Running(_) => 3
    case Relocking => 2
    case Woken => 2
    case Checking => 1
    case Asleep => 0
    case NotCreated => 0
  }

  /** Left alone, the worker executes everything that is queued. */
  lemma {:induction false} WorkerDrains(s: State) returns (steps: seq<Step>, t: State)
    requires Inv(s) && !s.mutex.Caller?
    ensures Leads(Next, s, steps, t) && t.executed == t.scheduled == s.scheduled && t.queue == []
    ensures forall i :: 0 <= i < |steps| ==> steps[i] == WorkerMove
    decreases 4 * |s.queue| + WorkerRank(s.worker)
  {
    if s.queue == [] && InFlight(s) == [] {
      steps, t := [], s;
    } else {
      var next := Apply(s, WorkerMove);
      WorkerKeepsInv(s);
      steps, t := WorkerDrains(next);
      hide Inv;
      LeadsFirst(Next, s, WorkerMove, steps, t);
      steps := [WorkerMove] + steps;
    }
  }

  /** From every reachable state every scheduled job can still be executed, without further
      calls and without spurious wakeups: nothing is stuck. */
  lemma NothingIsStuck(past: seq<Step>, s: State) returns (steps: seq<Step>, t: State)
    requires Leads(Next, Init(), past, s)
    ensures Leads(Next, s, steps, t) && t.executed == s.scheduled
    ensures forall i :: 0 <= i < |steps| ==> steps[i].SchedulerMove? || steps[i] == WorkerMove
  {
    LeadsKeepsInv(Init(), past, s);
    if s.mutex.Caller? {
      var first, m := HolderUnlocks(s);
      var rest, u := WorkerDrains(m);
      hide Inv, Leads;
      LeadsConcat(Next, s, first, m, rest, u);
      steps, t := first + rest, u;
    } else {
      steps, t := WorkerDrains(s);
    }
  }

  // ---------- fair runs ----------

  /** An infinite run, in which some moments may pass without a step. */
  ghost predicate InfiniteRun(states: nat -> State, steps: nat -> Option<Step>) {
    states(0) == Init() && forall i: nat :: StepAt(states, steps, i)
  }

  ghost predicate StepAt(states: nat -> State, steps: nat -> Option<Step>, i: nat) {
    match steps(i)
    case None => states(i + 1) == states(i)
    case Some(step) => Enabled(states(i), step) && states(i + 1) == Apply(states(i), step)
  }

  ghost predicate AlwaysEnabled(states: nat -> State, step: Step, i: nat) {
    forall k: nat :: i <= k ==> Enabled(states(k), step)
  }

  ghost predicate EnabledLater(states: nat -> State, step: Step, i: nat) {
    exists k: nat :: i <= k && Enabled(states(k), step)
  }

  ghost predicate EnabledAgain(states: nat -> State, step: Step, i: nat) {
    forall m: nat :: i <= m ==> EnabledLater(states, step, m)
  }

  ghost predicate TakenLater(steps: nat -> Option<Step>, step: Step, i: nat) {
    exists k: nat :: i <= k && steps(k) == Some(step)
  }

  /** Weak fairness to callers: who can always move, moves. Strong fairness to the worker, which
      has to get the mutex: if it can move again and again, it moves. */
  ghost predicate Fair(states: nat -> State, steps: nat -> Option<Step>) {
    && (forall i: nat, t: ThreadId ::
          AlwaysEnabled(states, SchedulerMove(t), i) ==> TakenLater(steps, SchedulerMove(t), i))
    && (forall i: nat :: EnabledAgain(states, WorkerMove, i) ==> TakenLater(steps, WorkerMove, i))
  }

  /** Strong fairness to one caller. */
  ghost predicate FairTo(states: nat -> State, steps: nat -> Option<Step>, t: ThreadId) {
    forall i: nat :: EnabledAgain(states, SchedulerMove(t), i) ==> TakenLater(steps, SchedulerMove(t), i)
  }

  lemma {:induction false} InfiniteRunKeepsInv(states: nat -> State, steps: nat -> Option<Step>, i: nat)
    requires InfiniteRun(states, steps)
    ensures Inv(states(i))
  {
    hide Inv;
    if i == 0 {
      InitIsOk();
    } else {
      InfiniteRunKeepsInv(states, steps, i - 1);
      assert StepAt(states, steps, i - 1);
      if steps(i - 1).Some? {
        StepKeepsInv(states(i - 1), steps(i - 1).value);
      }
    }
  }

  lemma InitIsOk()
    ensures Inv(Init())
  {
  }

  lemma {:induction false} FirstTaken(steps: nat -> Option<Step>, step: Step, i: nat, k: nat) returns (j: nat)
    requires i <= k && steps(k) == Some(step)
    ensures i <= j <= k && steps(j) == Some(step)
    ensures forall m: nat :: i <= m < j ==> steps(m) != Some(step)
    decreases k - i
  {
    if steps(i) == Some(step) {
      j := i;
    } else {
      j := FirstTaken(steps, step, i + 1, k);
    }
  }

  /** A caller stays where it is until it moves. */
  lemma {:induction false} CallerStays(states: nat -> State, steps: nat -> Option<Step>, t: ThreadId, i: nat, j: nat)
    requires InfiniteRun(states, steps) && i <= j && t in states(i).callers
    requires forall m: nat :: i <= m < j ==> steps(m) != Some(SchedulerMove(t))
    ensures t in states(j).callers && states(j).callers[t] == states(i).callers[t]
    decreases j
  {
    if i < j {
      CallerStays(states, steps, t, i, j - 1);
      assert StepAt(states, steps, j - 1);
    }
  }

  lemma StuckHolderIsEnabled(states: nat -> State, steps: nat -> Option<Step>, t: ThreadId, i: nat)
    requires InfiniteRun(states, steps) && !TakenLater(steps, SchedulerMove(t), i)
    requires t in states(i).callers && Holds(states(i).callers[t])
    ensures AlwaysEnabled(states, SchedulerMove(t), i)
  {
    hide InfiniteRun;
    forall k: nat | i <= k ensures Enabled(states(k), SchedulerMove(t)) {
      CallerStays(states, steps, t, i, k);
    }
  }

  /** A caller that holds the mutex moves. */
  lemma HolderMoves(states: nat -> State, steps: nat -> Option<Step>, t: ThreadId, i: nat) returns (j: nat)
    requires InfiniteRun(states, steps) && Fair(states, steps)
    requires t in states(i).callers && Holds(states(i).callers[t])
    ensures i <= j && steps(j) == Some(SchedulerMove(t))
    ensures t in states(j).callers && states(j).callers[t] == states(i).callers[t]
  {
    hide InfiniteRun;
    if !TakenLater(steps, SchedulerMove(t), i) {
      StuckHolderIsEnabled(states, steps, t, i);
    }
    var k: nat :| i <= k && steps(k) == Some(SchedulerMove(t));
    j := FirstTaken(steps, SchedulerMove(t), i, k);
    CallerStays(states, steps, t, i, j);
  }

  ghost function HolderRank(s: State): nat {
    if s.mutex.Caller? && s.mutex.t in s.callers then 1 + SchedulerRank(s.callers[s.mutex.t]) else 0
  }

  lemma HolderComesCloser(s: State)
    requires Inv(s) && s.mutex.Caller?
    ensures s.mutex.t in s.callers && Holds(s.callers[s.mutex.t]) && Enabled(s, SchedulerMove(s.mutex.t))
    ensures HolderRank(MoveScheduler(s, s.mutex.t)) < HolderRank(s)
  {
    hide Fifo, OneWorker, AwakeForWork;
  }

  lemma HolderIs(s: State, t: ThreadId)
    requires Inv(s) && t in s.callers && Holds(s.callers[t])
    ensures s.mutex == Caller(t)
  {
    hide Fifo, OneWorker, AwakeForWork;
  }

  /** No caller holds the mutex for ever. */
  lemma {:induction false} CallerReleases(states: nat -> State, steps: nat -> Option<Step>, i: nat) returns (j: nat)
    requires InfiniteRun(states, steps) && Fair(states, steps)
    ensures i <= j && !states(j).mutex.Caller?
    decreases HolderRank(states(i))
  {
    hide Fair, Inv, Enabled, MoveScheduler;
    InfiniteRunKeepsInv(states, steps, i);
    if states(i).mutex.Caller? {
      var t := states(i).mutex.t;
      HolderComesCloser(states(i));
      var k := HolderMoves(states, steps, t, i);
      InfiniteRunKeepsInv(states, steps, k);
      HolderIs(states(k), t);
      HolderComesCloser(states(k));
      assert StepAt(states, steps, k);
      j := CallerReleases(states, steps, k + 1);
    } else {
      j := i;
    }
  }

  function Stage(w: Worker): nat {
    match w
    case Asleep => 4
    case NotCreated => 4
    case Relocking => 3
    case Woken => 3
    case Checking => 2
    case Taken(_) => 1
    case Running(_) => 0
  }

  /** What is left to do before job number q has been executed. */
  ghost function Work(s: State, q: nat): nat {
    if q < |s.executed| then 0 else 5 * (q + 1 - |s.executed|) + Stage(s.worker)
  }

  /** While job number q is under way the worker does not fall asleep, so every step of the worker
      is progress and no other step is a setback. */
  lemma StepWorks(s: State, step: Step, q: nat)
    requires Inv(s) && Enabled(s, step) && q < |s.scheduled|
    ensures var n := Apply(s, step);
            && s.scheduled <= n.scheduled && Work(n, q) <= Work(s, q)
            && (step == WorkerMove && Work(s, q) > 0 ==> Work(n, q) < Work(s, q))
  {
    if step.SchedulerMove? {
      hide Fifo, OneWorker, AwakeForWork;
    } else if step == WorkerMove {
      WorkerWorks(s, q);
    }
  }

  lemma WorkerWorks(s: State, q: nat)
    requires Inv(s) && Enabled(s, WorkerMove) && q < |s.scheduled|
    ensures Work(MoveWorker(s), q) <= Work(s, q)
    ensures Work(s, q) > 0 ==> Work(MoveWorker(s), q) < Work(s, q)
  {
    hide OneWorker, AwakeForWork;
    assert s.worker.Checking? && s.queue == [] ==> s.executed == s.scheduled;
  }

  lemma {:induction false} WorkShrinksOnly(states: nat -> State, steps: nat -> Option<Step>, i: nat, j: nat, q: nat)
    requires InfiniteRun(states, steps) && i <= j && q < |states(i).scheduled|
    ensures states(i).scheduled <= states(j).scheduled && Work(states(j), q) <= Work(states(i), q)
    decreases j
  {
    hide Inv, Work, Apply, Enabled;
    if i < j {
      WorkShrinksOnly(states, steps, i, j - 1, q);
      InfiniteRunKeepsInv(states, steps, j - 1);
      assert StepAt(states, steps, j - 1);
      if steps(j - 1).Some? {
        StepWorks(states(j - 1), steps(j - 1).value, q);
      }
    }
  }

  /** With job number q under way and no caller in the mutex, the worker can move. */
  lemma WorkerCanMove(s: State, q: nat)
    requires Inv(s) && !s.mutex.Caller? && q < |s.scheduled| && Work(s, q) > 0
    ensures Enabled(s, WorkerMove)
  {
  }

  lemma WorkGoesOn(states: nat -> State, steps: nat -> Option<Step>, i: nat, q: nat) returns (k: nat)
    requires InfiniteRun(states, steps) && Fair(states, steps)
    requires q < |states(i).scheduled| && Work(states(i), q) > 0
    ensures i <= k && Work(states(k), q) < Work(states(i), q)
  {
    hide Inv, Work, Apply, Enabled, InfiniteRun;
    if m: nat :| i <= m && Work(states(m), q) < Work(states(i), q) {
      k := m;
    } else {
      forall m: nat | i <= m ensures EnabledLater(states, WorkerMove, m) {
        var r := CallerReleases(states, steps, m);
        InfiniteRunKeepsInv(states, steps, r);
        WorkShrinksOnly(states, steps, i, r, q);
        WorkerCanMove(states(r), q);
      }
      assert EnabledAgain(states, WorkerMove, i);
      var m: nat :| i <= m && steps(m) == Some(WorkerMove);
      WorkShrinksOnly(states, steps, i, m, q);
      WorkerMovesAt(states, steps, m, q);
    }
  }

  lemma WorkerMovesAt(states: nat -> State, steps: nat -> Option<Step>, m: nat, q: nat)
    requires InfiniteRun(states, steps) && steps(m) == Some(WorkerMove)
    requires q < |states(m).scheduled| && Work(states(m), q) > 0
    ensures Work(states(m + 1), q) < Work(states(m), q)
  {
    hide Inv, Work, Apply, Enabled;
    InfiniteRunKeepsInv(states, steps, m);
    assert StepAt(states, steps, m);
    StepWorks(states(m), WorkerMove, q);
  }

  /** In every fair run every job that was scheduled is executed, in its place in the order. */
  lemma {:induction false} EveryJobIsExecuted(states: nat -> State, steps: nat -> Option<Step>, i: nat, q: nat)
      returns (j: nat)
    requires InfiniteRun(states, steps) && Fair(states, steps) && q < |states(i).scheduled|
    ensures i <= j && q < |states(j).executed| && states(j).executed[q] == states(i).scheduled[q]
    decreases Work(states(i), q)
  {
    hide Inv, InfiniteRun, Fair;
    if q < |states(i).executed| {
      j := i;
    } else {
      var k := WorkGoesOn(states, steps, i, q);
      WorkShrinksOnly(states, steps, i, k, q);
      j := EveryJobIsExecuted(states, steps, k, q);
    }
    InfiniteRunKeepsInv(states, steps, j);
    ExecutedInOrder(states(j));
  }

  lemma ExecutedInOrder(s: State)
    requires Inv(s)
    ensures s.executed <= s.scheduled
  {
    hide OneWorker, AwakeForWork;
    assert s.executed + InFlight(s) + s.queue + AsSeq(InHand(s))
        == s.executed + (InFlight(s) + s.queue + AsSeq(InHand(s)));
  }

  /** The mutex is free again and again. */
  lemma MutexGetsFree(states: nat -> State, steps: nat -> Option<Step>, i: nat) returns (j: nat)
    requires InfiniteRun(states, steps) && Fair(states, steps)
    ensures i <= j && states(j).mutex == Free
  {
    hide Inv, InfiniteRun, Fair, Enabled, Apply;
    j := CallerReleases(states, steps, i);
    InfiniteRunKeepsInv(states, steps, j);
    if states(j).mutex == Background {
      j := WorkerLeaves(states, steps, j);
    }
  }

  /** The worker stays where it is in the mutex until it moves. */
  lemma {:induction false} WorkerStays(states: nat -> State, steps: nat -> Option<Step>, i: nat, j: nat)
    requires InfiniteRun(states, steps) && i <= j && (states(i).worker.Checking? || states(i).worker.Taken?)
    requires forall m: nat :: i <= m < j ==> steps(m) != Some(WorkerMove)
    ensures states(j).worker == states(i).worker
    decreases j
  {
    if i < j {
      WorkerStays(states, steps, i, j - 1);
      assert StepAt(states, steps, j - 1);
    }
  }

  lemma StuckWorkerIsEnabled(states: nat -> State, steps: nat -> Option<Step>, i: nat)
    requires InfiniteRun(states, steps) && !TakenLater(steps, WorkerMove, i)
    requires states(i).worker.Checking? || states(i).worker.Taken?
    ensures EnabledAgain(states, WorkerMove, i)
  {
    hide InfiniteRun;
    forall k: nat | i <= k ensures EnabledLater(states, WorkerMove, k) {
      WorkerStays(states, steps, i, k);
      assert Enabled(states(k), WorkerMove);
    }
  }

  lemma WorkerInMutexMoves(states: nat -> State, steps: nat -> Option<Step>, i: nat) returns (j: nat)
    requires InfiniteRun(states, steps) && Fair(states, steps)
    requires states(i).worker.Checking? || states(i).worker.Taken?
    ensures i <= j && steps(j) == Some(WorkerMove) && states(j).worker == states(i).worker
  {
    hide InfiniteRun;
    if !TakenLater(steps, WorkerMove, i) {
      StuckWorkerIsEnabled(states, steps, i);
    }
    var k: nat :| i <= k && steps(k) == Some(WorkerMove);
    j := FirstTaken(steps, WorkerMove, i, k);
    WorkerStays(states, steps, i, j);
  }

  lemma {:induction false} WorkerLeaves(states: nat -> State, steps: nat -> Option<Step>, i: nat) returns (j: nat)
    requires InfiniteRun(states, steps) && Fair(states, steps) && states(i).mutex == Background
    ensures i <= j && states(j).mutex == Free
    decreases Stage(states(i).worker)
  {
    hide Fair, Inv, Enabled;
    InfiniteRunKeepsInv(states, steps, i);
    InMutex(states(i));
    var k := WorkerInMutexMoves(states, steps, i);
    InfiniteRunKeepsInv(states, steps, k);
    InMutex(states(k));
    assert StepAt(states, steps, k);
    j := k + 1;
    if states(j).mutex == Background {
      j := WorkerLeaves(states, steps, j);
    }
  }

  lemma InMutex(s: State)
    requires Inv(s)
    ensures s.mutex == Background <==> s.worker.Checking? || s.worker.Taken?
  {
    hide Fifo, OneWorker, AwakeForWork;
  }

  lemma StuckCallIsEnabled(states: nat -> State, steps: nat -> Option<Step>, t: ThreadId, i: nat)
    requires InfiniteRun(states, steps) && Fair(states, steps) && !TakenLater(steps, SchedulerMove(t), i)
    requires t in states(i).callers && states(i).callers[t].Locking?
    ensures EnabledAgain(states, SchedulerMove(t), i)
  {
    hide InfiniteRun, Fair;
    forall m: nat | i <= m ensures EnabledLater(states, SchedulerMove(t), m) {
      var r := MutexGetsFree(states, steps, m);
      CallerStays(states, steps, t, i, r);
      assert Enabled(states(r), SchedulerMove(t));
    }
  }

  /** A call that waits for the mutex gets it, and its job is executed. */
  lemma WaitingCallIsExecuted(states: nat -> State, steps: nat -> Option<Step>, t: ThreadId, i: nat)
      returns (k: nat, j: nat, q: nat)
    requires InfiniteRun(states, steps) && Fair(states, steps) && FairTo(states, steps, t)
    requires t in states(i).callers && states(i).callers[t].Locking?
    ensures i <= k < j && steps(k) == Some(SchedulerMove(t)) && q == |states(k).scheduled|
    ensures q < |states(j).executed| && states(j).executed[q] == states(i).callers[t].job
    ensures t in states(k).callers && states(k).callers[t].Locking?
  {
    hide Inv, InfiniteRun, Fair;
    if !TakenLater(steps, SchedulerMove(t), i) {
      StuckCallIsEnabled(states, steps, t, i);
    }
    var m: nat :| i <= m && steps(m) == Some(SchedulerMove(t));
    k := FirstTaken(steps, SchedulerMove(t), i, m);
    CallerStays(states, steps, t, i, k);
    LockingSchedules(states, steps, t, k);
    q := |states(k).scheduled|;
    j := EveryJobIsExecuted(states, steps, k + 1, q);
  }

  lemma LockingSchedules(states: nat -> State, steps: nat -> Option<Step>, t: ThreadId, k: nat)
    requires InfiniteRun(states, steps) && steps(k) == Some(SchedulerMove(t))
    requires t in states(k).callers && states(k).callers[t].Locking?
    ensures states(k + 1).scheduled == states(k).scheduled + [states(k).callers[t].job]
  {
    assert StepAt(states, steps, k);
  }

  /** A call that holds the mutex returns. */
  lemma {:induction false} HolderReturns(states: nat -> State, steps: nat -> Option<Step>, t: ThreadId, i: nat)
      returns (r: nat)
    requires InfiniteRun(states, steps) && Fair(states, steps)
    requires t in states(i).callers && Holds(states(i).callers[t])
    ensures i <= r && steps(r) == Some(SchedulerMove(t)) && t !in states(r + 1).callers
    decreases SchedulerRank(states(i).callers[t])
  {
    hide Fair;
    r := HolderMoves(states, steps, t, i);
    assert StepAt(states, steps, r);
    if t in states(r + 1).callers {
      r := HolderReturns(states, steps, t, r + 1);
    }
  }

  /** If moreover the mutex is not always given to others, every call of Schedule returns and has
      the job that it was made with executed. */
  lemma EveryCallIsExecuted(states: nat -> State, steps: nat -> Option<Step>, t: ThreadId, job: Job, i: nat)
      returns (k: nat, j: nat, q: nat, r: nat)
    requires InfiniteRun(states, steps) && Fair(states, steps) && FairTo(states, steps, t)
    requires steps(i) == Some(Call(t, job))
    ensures i < k < j && steps(k) == Some(SchedulerMove(t)) && q == |states(k).scheduled|
    ensures q < |states(j).executed| && states(j).executed[q] == job
    ensures k < r && steps(r) == Some(SchedulerMove(t)) && t !in states(r + 1).callers
  {
    hide Fair, FairTo;
    assert StepAt(states, steps, i);
    k, j, q := WaitingCallIsExecuted(states, steps, t, i + 1);
    StepToHolding(states, steps, t, k);
    r := HolderReturns(states, steps, t, k + 1);
  }

  lemma StepToHolding(states: nat -> State, steps: nat -> Option<Step>, t: ThreadId, k: nat)
    requires InfiniteRun(states, steps) && steps(k) == Some(SchedulerMove(t))
    requires t in states(k).callers && states(k).callers[t].Locking?
    ensures t in states(k + 1).callers && Holds(states(k + 1).callers[t])
  {
    assert StepAt(states, steps, k);
  }

  // ---------- calls and scheduled jobs ----------

  ghost predicate IsWaiting(s: State, t: ThreadId) {
    t in s.callers && s.callers[t].Locking?
  }

  /** origin[q] is the call that scheduled job number q, waiting[t] the call of t that has not got
      the mutex yet. */
  ghost predicate Accounts(steps: seq<Step>, s: State, origin: seq<nat>, waiting: map<ThreadId, nat>) {
    && |origin| == |s.scheduled|
    && (forall q :: 0 <= q < |origin| ==>
          origin[q] < |steps| && steps[origin[q]].Call? && steps[origin[q]].job == s.scheduled[q])
    && (forall t :: t in waiting <==> IsWaiting(s, t))
    && (forall t :: t in waiting ==> waiting[t] < |steps| && steps[waiting[t]] == Call(t, s.callers[t].job))
  }

  /** No call is counted twice, and none is left out. */
  ghost predicate EachCallOnce(steps: seq<Step>, origin: seq<nat>, waiting: map<ThreadId, nat>) {
    && (forall p, q :: 0 <= p < q < |origin| ==> origin[p] != origin[q])
    && (forall t, q :: t in waiting && 0 <= q < |origin| ==> waiting[t] != origin[q])
    && (forall t, u :: t in waiting && u in waiting && t != u ==> waiting[t] != waiting[u])
    && (forall c :: 0 <= c < |steps| && steps[c].Call? ==> Counted(c, origin, waiting))
  }

  ghost predicate Counted(c: nat, origin: seq<nat>, waiting: map<ThreadId, nat>) {
    c in origin || exists t :: t in waiting && waiting[t] == c
  }

  /** In every run the scheduled jobs are the jobs of distinct calls, and every call has its job
      scheduled or still waits for the mutex with it. */
  lemma {:induction false} CallsAreScheduledOnce(steps: seq<Step>, s: State)
      returns (origin: seq<nat>, waiting: map<ThreadId, nat>)
    requires Leads(Next, Init(), steps, s)
    ensures Accounts(steps, s, origin, waiting) && EachCallOnce(steps, origin, waiting)
    decreases |steps|
  {
    hide Accounts, EachCallOnce;
    if steps == [] {
      origin, waiting := [], map[];
      NothingToAccount(s);
    } else {
      var before := steps[..|steps| - 1];
      var m := LeadsLast(Next, Init(), steps, s);
      var o, w := CallsAreScheduledOnce(before, m);
      assert steps == before + [steps[|steps| - 1]];
      origin, waiting := AccountStep(before, m, steps[|steps| - 1], o, w);
    }
  }

  lemma NothingToAccount(s: State)
    requires s == Init()
    ensures Accounts([], s, [], map[]) && EachCallOnce([], [], map[])
  {
  }

  lemma AccountStep(steps: seq<Step>, m: State, step: Step, o: seq<nat>, w: map<ThreadId, nat>)
      returns (origin: seq<nat>, waiting: map<ThreadId, nat>)
    requires Enabled(m, step) && Accounts(steps, m, o, w) && EachCallOnce(steps, o, w)
    ensures Accounts(steps + [step], Apply(m, step), origin, waiting)
    ensures EachCallOnce(steps + [step], origin, waiting)
  {
    hide Accounts, EachCallOnce;
    if step.Call? {
      origin, waiting := o, w[step.t := |steps|];
      AccountCall(steps, m, step, o, w);
    } else if step.SchedulerMove? && m.callers[step.t].Locking? {
      WaitingIsCounted(steps, m, step.t, o, w);
      origin, waiting := o + [w[step.t]], w - {step.t};
      AccountLock(steps, m, step, o, w);
    } else {
      origin, waiting := o, w;
      AccountOther(steps, m, step, o, w);
    }
  }

  lemma WaitingIsCounted(steps: seq<Step>, m: State, t: ThreadId, o: seq<nat>, w: map<ThreadId, nat>)
    requires Accounts(steps, m, o, w) && IsWaiting(m, t)
    ensures t in w
  {
  }

  /** A new call waits. */
  lemma AccountCall(steps: seq<Step>, m: State, step: Step, o: seq<nat>, w: map<ThreadId, nat>)
    requires Enabled(m, step) && step.Call? && Accounts(steps, m, o, w) && EachCallOnce(steps, o, w)
    ensures var waiting := w[step.t := |steps|];
            Accounts(steps + [step], Apply(m, step), o, waiting) && EachCallOnce(steps + [step], o, waiting)
  {
    hide Counted;
    var waiting := w[step.t := |steps|];
    forall c | 0 <= c < |steps + [step]| && (steps + [step])[c].Call? ensures Counted(c, o, waiting) {
      NewCallCounted(c, |steps|, step.t, o, w);
    }
  }

  lemma NewCallCounted(c: nat, last: nat, t: ThreadId, o: seq<nat>, w: map<ThreadId, nat>)
    requires c == last || Counted(c, o, w)
    requires t !in w
    ensures Counted(c, o, w[t := last])
  {
    var waiting := w[t := last];
    if c == last {
      assert t in waiting && waiting[t] == c;
    } else if u :| u in w && w[u] == c {
      assert u in waiting && waiting[u] == c;
    }
  }

  /** A call that gets the mutex has its job scheduled. */
  lemma AccountLock(steps: seq<Step>, m: State, step: Step, o: seq<nat>, w: map<ThreadId, nat>)
    requires Enabled(m, step) && step.SchedulerMove? && m.callers[step.t].Locking? && step.t in w
    requires Accounts(steps, m, o, w) && EachCallOnce(steps, o, w)
    ensures var origin, waiting := o + [w[step.t]], w - {step.t};
            && Accounts(steps + [step], Apply(m, step), origin, waiting)
            && EachCallOnce(steps + [step], origin, waiting)
  {
    hide Counted;
    var origin, waiting := o + [w[step.t]], w - {step.t};
    forall c | 0 <= c < |steps + [step]| && (steps + [step])[c].Call? ensures Counted(c, origin, waiting) {
      MovedCallCounted(c, step.t, o, w);
    }
  }

  lemma MovedCallCounted(c: nat, t: ThreadId, o: seq<nat>, w: map<ThreadId, nat>)
    requires Counted(c, o, w) && t in w
    ensures Counted(c, o + [w[t]], w - {t})
  {
    if c in o || c == w[t] {
      assert c in o + [w[t]];
    } else {
      var u :| u in w && w[u] == c;
      assert u in w - {t} && (w - {t})[u] == c;
    }
  }

  /** Other steps schedule nothing and leave the waiting calls alone. */
  lemma WaitingStays(m: State, step: Step)
    requires Enabled(m, step) && !step.Call? && !(step.SchedulerMove? && m.callers[step.t].Locking?)
    ensures var n := Apply(m, step);
            && n.scheduled == m.scheduled
            && forall t :: (IsWaiting(n, t) <==> IsWaiting(m, t)) && (IsWaiting(m, t) ==> n.callers[t] == m.callers[t])
  {
  }

  lemma AccountOther(steps: seq<Step>, m: State, step: Step, o: seq<nat>, w: map<ThreadId, nat>)
    requires Enabled(m, step) && !step.Call? && !(step.SchedulerMove? && m.callers[step.t].Locking?)
    requires Accounts(steps, m, o, w) && EachCallOnce(steps, o, w)
    ensures Accounts(steps + [step], Apply(m, step), o, w) && EachCallOnce(steps + [step], o, w)
  {
    hide Counted, Apply;
    WaitingStays(m, step);
  }

  /** A thread may call whenever it has no call under way; one that has can move, or waits for the
      mutex, whose holder can. */
  lemma NobodyIsRefused(s: State, t: ThreadId, job: Job)
    requires Inv(s)
    ensures t !in s.callers ==> Enabled(s, Call(t, job))
    ensures t in s.callers ==>
      || Enabled(s, SchedulerMove(t))
      || (s.mutex.Caller? && Enabled(s, SchedulerMove(s.mutex.t)))
      || (s.mutex == Background && Enabled(s, WorkerMove))
  {
    hide Fifo, OneWorker, AwakeForWork;
  }
}
