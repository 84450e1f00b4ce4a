/** The limit on memory-mapped files of db/Env_posix.cpp: MmapLimiter, NewRandomAccessFile and
    the destructor of a mapped file, under every interleaving of any number of threads.

    A step is one load or store of allowed_, one call on the mutex, or one system call, whose
    outcome is arbitrary. */
module MmapLimiter {
  import opened Runs
  import opened Wrappers

  type ThreadId = nat
  type FileId = nat

  /** Where a thread stands in NewRandomAccessFile or in the destructor. The value x is what
      GetAllowed returned. From Loading to the unlocking states the thread holds the mutex. */
  datatype Thread =
    | Opening
    | Checking
    | AcquireLocking
    | AcquireLoading
    | AcquireStoring(x: int)
    | AcquireUnlocking
    | DenyUnlocking
    | Sizing
    | Mapping
    | ReleaseLocking
    | ReleaseLoading
    | ReleaseStoring(x: int)
    | ReleaseUnlocking

  /** mapped holds the files that are mapped and not yet being destroyed; plain the others. */
  datatype State = State(
    allowed: int, mutex: Owner, threads: map<ThreadId, Thread>, mapped: set<FileId>, plain: set<FileId>)

  datatype Owner = Free | Held(t: ThreadId)

  /** fd < 0, a size that cannot be read and a failed mmap are outcomes with ok false; file is
      the name of the object that new creates, when it does. */
  datatype Step =
    | Open(t: ThreadId)
    | Destroy(t: ThreadId, file: FileId)
    | Move(t: ThreadId, ok: bool, file: FileId)

  ghost function Init(limit: nat): State {
    State(limit, Free, map[], {}, {})
  }

  ghost predicate Enabled(s: State, step: Step) {
    match step
    case Open(t) => t !in s.threads
    case Destroy(t, file) => t !in s.threads && file in s.mapped
    case Move(t, _, file) =>
      && t in s.threads && file !in s.mapped && file !in s.plain
      && (s.threads[t].AcquireLocking? || s.threads[t].ReleaseLocking? ==> s.mutex == Free)
  }

  ghost function At(s: State, t: ThreadId, th: Thread): State {
    s.(threads := s.threads[t := th])
  }

  ghost function Leave(s: State, t: ThreadId): State {
    s.(threads := s.threads - {t})
  }

  ghost function Apply(s: State, step: Step): State
    requires Enabled(s, step)
  {
    match step
    case Open(t) => At(s, t, Opening)
    case Destroy(t, file) => At(s.(mapped := s.mapped - {file}), t, ReleaseLocking)
    case Move(t, ok, file) =>
      match s.threads[t]
      case Opening => if ok then At(s, t, Checking) else Leave(s, t)
      case Checking => if s.allowed <= 0 then Leave(s.(plain := s.plain + {file}), t) else At(s, t, AcquireLocking)
      case AcquireLocking => At(s.(mutex := Held(t)), t, AcquireLoading)
      case AcquireLoading => if s.allowed <= 0 then At(s, t, DenyUnlocking) else At(s, t, AcquireStoring(s.allowed))
      case AcquireStoring(x) => At(s.(allowed := x - 1), t, AcquireUnlocking)
      case AcquireUnlocking => At(s.(mutex := Free), t, Sizing)
      case DenyUnlocking => Leave(s.(mutex := Free, plain := s.plain + {file}), t)
      case Sizing => if ok then At(s, t, Mapping) else At(s, t, ReleaseLocking)
      case Mapping => if ok then Leave(s.(mapped := s.mapped + {file}), t) else At(s, t, ReleaseLocking)
      case ReleaseLocking => At(s.(mutex := Held(t)), t, ReleaseLoading)
      case ReleaseLoading => At(s, t, ReleaseStoring(s.allowed))
      case ReleaseStoring(x) => At(s.(allowed := x + 1), t, ReleaseUnlocking)
      case ReleaseUnlocking => Leave(s.(mutex := Free), t)
  }

  // ---------- tokens ----------

  /** The thread has a token: acquired and not yet handed to a mapped file or released. */
  predicate HasToken(th: Thread) {
    th.AcquireUnlocking? || th.Sizing? || th.Mapping? || th.ReleaseLocking? || th.ReleaseLoading? || th.ReleaseStoring?
  }

  predicate InMutex(th: Thread) {
    th.AcquireLoading? || th.AcquireStoring? || th.AcquireUnlocking? || th.DenyUnlocking? ||
    th.ReleaseLoading? || th.ReleaseStoring? || th.ReleaseUnlocking?
  }

  ghost function Holders(threads: map<ThreadId, Thread>): set<ThreadId> {
    set t | t in threads && HasToken(threads[t])
  }

  ghost predicate Conserved(s: State, limit: nat) {
    s.allowed + |s.mapped| + |Holders(s.threads)| == limit
  }

  /** Only the holder of the mutex is between its load and its store, with the current value; a
      denial leaves the mutex while there is still no token. */
  ghost predicate MutexOk(s: State) {
    && s.allowed >= 0
    && (s.mutex.Held? ==> s.mutex.t in s.threads && InMutex(s.threads[s.mutex.t]))
    && (forall t :: t in s.threads && InMutex(s.threads[t]) ==> s.mutex == Held(t))
    && (forall t :: t in s.threads && s.threads[t].AcquireStoring? ==> s.threads[t].x == s.allowed > 0)
    && (forall t :: t in s.threads && s.threads[t].ReleaseStoring? ==> s.threads[t].x == s.allowed)
    && (forall t :: t in s.threads && s.threads[t].DenyUnlocking? ==> s.allowed == 0)
  }

  ghost predicate Inv(s: State, limit: nat) {
    Conserved(s, limit) && MutexOk(s)
  }

  ghost function Token(threads: map<ThreadId, Thread>, t: ThreadId): nat {
    if t in threads && HasToken(threads[t]) then 1 else 0
  }

  /** A step changes the position of one thread only. */
  ghost predicate OthersStay(a: map<ThreadId, Thread>, b: map<ThreadId, Thread>, t: ThreadId) {
    forall u :: u != t ==> (u in a <==> u in b) && (u in a ==> a[u] == b[u])
  }

  lemma HoldersSize(a: map<ThreadId, Thread>, t: ThreadId)
    ensures |Holders(a)| == |Holders(a) - {t}| + Token(a, t)
  {
    hide HasToken;
    if t in Holders(a) {
      assert Holders(a) == (Holders(a) - {t}) + {t};
    } else {
      assert Holders(a) == Holders(a) - {t};
    }
  }

  lemma HoldersChange(a: map<ThreadId, Thread>, b: map<ThreadId, Thread>, t: ThreadId)
    requires OthersStay(a, b, t)
    ensures |Holders(b)| - Token(b, t) == |Holders(a)| - Token(a, t)
  {
    hide HasToken, Token;
    HoldersSize(a, t);
    HoldersSize(b, t);
    assert Holders(a) - {t} == Holders(b) - {t};
  }

  lemma StepMovesOneThread(s: State, step: Step)
    requires Enabled(s, step)
    ensures OthersStay(s.threads, Apply(s, step).threads, step.t)
  {
  }

  /** What the moving thread gains or loses is what the counter and the files lose or gain. */
  lemma StepMovesToken(s: State, step: Step)
    requires MutexOk(s) && Enabled(s, step)
    ensures var n := Apply(s, step);
            n.allowed + |n.mapped| + Token(n.threads, step.t) == s.allowed + |s.mapped| + Token(s.threads, step.t)
  {
    if step.Move? {
      if s.threads[step.t].Mapping? && step.ok {
        MappingMovesToken(s, step);
      } else {
        MoveMovesToken(s, step);
      }
    }
  }

  lemma MappingMovesToken(s: State, step: Step)
    requires Enabled(s, step) && step.Move? && s.threads[step.t].Mapping? && step.ok
    ensures var n := Apply(s, step);
            n.allowed == s.allowed && |n.mapped| == |s.mapped| + 1 && Token(n.threads, step.t) == 0
    ensures Token(s.threads, step.t) == 1
  {
    hide MutexOk;
  }

  lemma MoveMovesToken(s: State, step: Step)
    requires MutexOk(s) && Enabled(s, step) && step.Move? && !(s.threads[step.t].Mapping? && step.ok)
    ensures var n := Apply(s, step);
            n.mapped == s.mapped && n.allowed + Token(n.threads, step.t) == s.allowed + Token(s.threads, step.t)
  {
    hide InMutex;
  }

  /** Tokens are free, in mapped files, or in the hands of threads. */
  lemma StepConserves(s: State, step: Step, limit: nat)
    requires Inv(s, limit) && Enabled(s, step)
    ensures Conserved(Apply(s, step), limit)
  {
    hide Holders, MutexOk, Apply, OthersStay;
    StepMovesToken(s, step);
    StepMovesOneThread(s, step);
    HoldersChange(s.threads, Apply(s, step).threads, step.t);
  }

  predicate Acquiring(th: Thread) {
    th.Opening? || th.Checking? || th.AcquireLocking? || th.AcquireLoading? || th.AcquireStoring?
  }

  lemma AcquireKeepsMutex(s: State, step: Step)
    requires MutexOk(s) && Enabled(s, step) && step.Move?
    requires Acquiring(s.threads[step.t])
    ensures MutexOk(Apply(s, step))
  {
    hide HasToken;
  }

  lemma StepKeepsMutex(s: State, step: Step)
    requires MutexOk(s) && Enabled(s, step)
    ensures MutexOk(Apply(s, step))
  {
    hide HasToken;
    if step.Move? {
      if Acquiring(s.threads[step.t]) {
        AcquireKeepsMutex(s, step);
      } else if GivesBack(s.threads[step.t]) {
        ReleaseKeepsMutex(s, step);
      } else {
        UseKeepsMutex(s, step);
      }
    }
  }

  predicate GivesBack(th: Thread) {
    th.ReleaseLocking? || th.ReleaseLoading? || th.ReleaseStoring? || th.ReleaseUnlocking?
  }

  lemma UseKeepsMutex(s: State, step: Step)
    requires MutexOk(s) && Enabled(s, step) && step.Move?
    requires !Acquiring(s.threads[step.t]) && !GivesBack(s.threads[step.t])
    ensures MutexOk(Apply(s, step))
  {
    hide HasToken;
  }

  lemma ReleaseKeepsMutex(s: State, step: Step)
    requires MutexOk(s) && Enabled(s, step) && step.Move? && GivesBack(s.threads[step.t])
    ensures MutexOk(Apply(s, step))
  {
    hide HasToken;
  }

  lemma StepKeepsInv(s: State, step: Step, limit: nat)
    requires Inv(s, limit) && Enabled(s, step)
    ensures Inv(Apply(s, step), limit)
  {
    hide Apply, MutexOk, Conserved;
    StepConserves(s, step, limit);
    StepKeepsMutex(s, step);
  }

  ghost function Next(s: State, step: Step): Option<State> {
    if Enabled(s, step) then Some(Apply(s, step)) else None
  }

  lemma LeadsKeepsInv(s: State, steps: seq<Step>, t: State, limit: nat)
    requires Inv(s, limit) && Leads(Next, s, steps, t)
    ensures Inv(t, limit)
  {
    hide Inv, Enabled, Apply;
    forall a, step | Inv(a, limit) && Next(a, step).Some? ensures Inv(Next(a, step).value, limit) {
      StepKeepsInv(a, step, limit);
    }
    LeadsKeeps(Next, a => Inv(a, limit), s, steps, t);
  }

  /** In every interleaving, with every outcome of every system call: no token is lost or made,
      so at most limit files are mapped, and when no call is under way the free tokens are
      exactly those the mapped files leave. */
  lemma TokensConserved(limit: nat, steps: seq<Step>, s: State)
    requires Leads(Next, Init(limit), steps, s)
    ensures s.allowed >= 0 && s.allowed + |s.mapped| + |Holders(s.threads)| == limit
    ensures s.threads == map[] ==> s.allowed == limit - |s.mapped|
  {
    InitIsOk(limit);
    LeadsKeepsInv(Init(limit), steps, s, limit);
    assert s.threads == map[] ==> Holders(s.threads) == {};
  }

  lemma InitIsOk(limit: nat)
    ensures Inv(Init(limit), limit)
  {
    assert Holders(map[]) == {};
  }

  /** A file is opened without mapping, by the unlocked check or by the denial under the mutex,
      only at a moment when every token is out: in files or in the hands of threads. */
  lemma PlainOnlyWhenExhausted(limit: nat, steps: seq<Step>, s: State, step: Step)
    requires Leads(Next, Init(limit), steps, s) && Enabled(s, step) && step.Move?
    requires var n := Apply(s, step);
             n.plain != s.plain || (step.t in n.threads && n.threads[step.t].DenyUnlocking?)
    ensures |s.mapped| + |Holders(s.threads)| == limit && Apply(s, step).mapped == s.mapped
    ensures Apply(s, step).plain != s.plain ==> Apply(s, step).plain == s.plain + {step.file}
  {
    InitIsOk(limit);
    LeadsKeepsInv(Init(limit), steps, s, limit);
    hide Apply, Leads, Holders;
    PlainMeansNoToken(s, step);
  }

  lemma PlainMeansNoToken(s: State, step: Step)
    requires MutexOk(s) && Enabled(s, step) && step.Move?
    requires var n := Apply(s, step);
             n.plain != s.plain || (step.t in n.threads && n.threads[step.t].DenyUnlocking?)
    ensures s.allowed == 0 && Apply(s, step).mapped == s.mapped
    ensures Apply(s, step).plain != s.plain ==> Apply(s, step).plain == s.plain + {step.file}
  {
    hide InMutex, HasToken;
  }

  /** A file is mapped by a thread that holds a token, and then the file holds it. */
  lemma MappingTakesToken(limit: nat, steps: seq<Step>, s: State, step: Step)
    requires Leads(Next, Init(limit), steps, s) && Enabled(s, step) && step.Move?
    requires Apply(s, step).mapped != s.mapped
    ensures HasToken(s.threads[step.t]) && |s.mapped| < limit
    ensures Apply(s, step).mapped == s.mapped + {step.file} && step.t !in Apply(s, step).threads
  {
    TokensConserved(limit, steps, s);
    assert step.t in Holders(s.threads);
  }

  // ---------- how a call ends ----------

  /** No deadlock: a thread that has no call under way may make one, and one that has can move, with
      every outcome, or waits for one that can. */
  lemma NobodyIsRefused(s: State, t: ThreadId, ok: bool, file: FileId)
    requires MutexOk(s)
    ensures t !in s.threads ==> Enabled(s, Open(t)) && (file in s.mapped ==> Enabled(s, Destroy(t, file)))
    ensures t in s.threads && file !in s.mapped && file !in s.plain ==>
      || Enabled(s, Move(t, ok, file))
      || (s.mutex.Held? && s.mutex.t in s.threads && Enabled(s, Move(s.mutex.t, ok, file)))
  {
  }

  /** What thread t has met and done in a stretch of a run: a system call failed; it saw no token;
      by how much its stores lowered allowed; the files it added and took away; its steps. */
  datatype Account = Account(
    failed: bool, denied: bool, spent: int, mapped: set<FileId>, plain: set<FileId>, unmapped: set<FileId>, steps: nat)

  const NOTHING := Account(false, false, 0, {}, {}, {}, 0)

  predicate CallsSystem(th: Thread) {
    th.Opening? || th.Sizing? || th.Mapping?
  }

  predicate LooksForToken(th: Thread) {
    th.Checking? || th.AcquireLoading?
  }

  ghost function Charge(a: Account, s: State, step: Step, n: State, t: ThreadId): Account {
    if step.t != t then a
    else
      var at := step.Move? && t in s.threads;
      Account(a.failed || (at && !step.ok && CallsSystem(s.threads[t])),
              a.denied || (at && s.allowed <= 0 && LooksForToken(s.threads[t])),
              a.spent + s.allowed - n.allowed,
              a.mapped + (n.mapped - s.mapped), a.plain + (n.plain - s.plain), a.unmapped + (s.mapped - n.mapped),
              a.steps + 1)
  }

  /** The account of thread t for steps i, ..., j - 1. */
  ghost function AccountOf(states: seq<State>, steps: seq<Step>, i: nat, j: nat, t: ThreadId): Account
    requires i <= j <= |steps| && |states| == |steps| + 1
    decreases j
  {
    if i == j then NOTHING
    else Charge(AccountOf(states, steps, i, j - 1, t), states[j - 1], steps[j - 1], states[j], t)
  }

  /** The most steps that may be left. */
  function Rank(th: Thread): nat {
    match th
    case Opening => 12
    case Checking => 11
    case AcquireLocking => 10
    case AcquireLoading => 9
    case AcquireStoring(_) => 8
    case AcquireUnlocking => 7
    case DenyUnlocking => 1
    case Sizing => 6
    case Mapping => 5
    case ReleaseLocking => 4
    case ReleaseLoading => 3
    case ReleaseStoring(_) => 2
    case ReleaseUnlocking => 1
  }

  /** An open under way has added nothing; it gives a token back exactly when a system call failed
      after it had got one. */
  ghost predicate OpenGoes(th: Thread, a: Account) {
    && a.mapped == {} && a.plain == {} && a.unmapped == {}
    && a.spent == (if HasToken(th) then 1 else 0)
    && a.steps + Rank(th) <= 13
    && (a.failed <==> GivesBack(th)) && (a.denied <==> th.DenyUnlocking?)
  }

  /** How an open ends: with nothing if a system call failed; with a plain file if it saw no token;
      and otherwise with a mapped file that has cost one. */
  ghost predicate OpenEnded(a: Account, file: FileId) {
    && a.unmapped == {} && a.steps <= 13
    && if a.failed then a.mapped == {} && a.plain == {} && a.spent == 0
       else if a.denied then a.mapped == {} && a.plain == {file} && a.spent == 0
       else a.mapped == {file} && a.plain == {} && a.spent == 1
  }

  lemma OneStepOfOpen(s: State, step: Step, t: ThreadId, a: Account)
    requires MutexOk(s) && Enabled(s, step) && t in s.threads && OpenGoes(s.threads[t], a)
    ensures var n := Apply(s, step);
            var b := Charge(a, s, step, n, t);
            if t in n.threads then OpenGoes(n.threads[t], b) else step.Move? && step.t == t && OpenEnded(b, step.file)
  {
    if step.t == t {
      MoveOfOpen(s, step, a);
    } else {
      StepMovesOneThread(s, step);
    }
  }

  /** A move adds a file in three places. */
  lemma FilesOfMove(s: State, step: Step)
    requires Enabled(s, step) && step.Move?
    ensures var n, th := Apply(s, step), s.threads[step.t];
            && n.mapped - s.mapped == (if th.Mapping? && step.ok then {step.file} else {})
            && s.mapped - n.mapped == {}
            && n.plain - s.plain ==
               if th.DenyUnlocking? || (th.Checking? && s.allowed <= 0) then {step.file} else {}
  {
    hide HasToken, InMutex;
    var n := Apply(s, step);
    if n.plain != s.plain {
      assert n.plain - s.plain == {step.file};
    }
  }

  lemma MoveOfOpen(s: State, step: Step, a: Account)
    requires MutexOk(s) && Enabled(s, step) && step.Move? && OpenGoes(s.threads[step.t], a)
    ensures var n := Apply(s, step);
            var b := Charge(a, s, step, n, step.t);
            if step.t in n.threads then OpenGoes(n.threads[step.t], b) else OpenEnded(b, step.file)
  {
    hide InMutex, Apply, Charge, OpenGoes, OpenEnded;
    if Acquiring(s.threads[step.t]) {
      AcquiringMove(s, step, a);
    } else if GivesBack(s.threads[step.t]) {
      GivingBackMove(s, step, a);
    } else {
      UsingMove(s, step, a);
    }
  }

  lemma AcquiringMove(s: State, step: Step, a: Account)
    requires MutexOk(s) && Enabled(s, step) && step.Move? && OpenGoes(s.threads[step.t], a)
    requires Acquiring(s.threads[step.t])
    ensures var n := Apply(s, step);
            var b := Charge(a, s, step, n, step.t);
            if step.t in n.threads then OpenGoes(n.threads[step.t], b) else OpenEnded(b, step.file)
  {
    hide InMutex;
    FilesOfMove(s, step);
  }

  lemma UsingMove(s: State, step: Step, a: Account)
    requires MutexOk(s) && Enabled(s, step) && step.Move? && OpenGoes(s.threads[step.t], a)
    requires !Acquiring(s.threads[step.t]) && !GivesBack(s.threads[step.t])
    ensures var n := Apply(s, step);
            var b := Charge(a, s, step, n, step.t);
            if step.t in n.threads then OpenGoes(n.threads[step.t], b) else OpenEnded(b, step.file)
  {
    hide InMutex;
    FilesOfMove(s, step);
  }

  lemma GivingBackMove(s: State, step: Step, a: Account)
    requires MutexOk(s) && Enabled(s, step) && step.Move? && OpenGoes(s.threads[step.t], a)
    requires GivesBack(s.threads[step.t])
    ensures var n := Apply(s, step);
            var b := Charge(a, s, step, n, step.t);
            if step.t in n.threads then OpenGoes(n.threads[step.t], b) else OpenEnded(b, step.file)
  {
    hide InMutex;
    FilesOfMove(s, step);
  }

  lemma PathKeepsInv(limit: nat, states: seq<State>, steps: seq<Step>, i: nat)
    requires Path(Next, states, steps) && states[0] == Init(limit) && i < |states|
    ensures Inv(states[i], limit)
  {
    hide Inv, Enabled, Apply;
    InitIsOk(limit);
    forall a, step | Inv(a, limit) && Next(a, step).Some? ensures Inv(Next(a, step).value, limit) {
      StepKeepsInv(a, step, limit);
    }
    PathKeeps(Next, a => Inv(a, limit), states, steps, i);
  }

  /** In every interleaving: while an open goes on it has added no file and it has at most twelve
      steps to go; when its thread leaves, exactly one file was added, by that step, unless a system
      call of its own had failed, and the counter is lower by exactly the token of a mapped file. */
  lemma {:induction false} OpenEnds(limit: nat, states: seq<State>, steps: seq<Step>, i: nat, j: nat, t: ThreadId)
    requires Path(Next, states, steps) && states[0] == Init(limit) && i < j <= |steps| && steps[i] == Open(t)
    requires forall m :: i < m < j ==> t in states[m].threads
    ensures var a := AccountOf(states, steps, i, j, t);
            if t in states[j].threads then OpenGoes(states[j].threads[t], a)
            else steps[j - 1].Move? && steps[j - 1].t == t && OpenEnded(a, steps[j - 1].file)
    decreases j
  {
    hide OpenGoes, OpenEnded, Charge, Inv, Enabled, Apply, MutexOk;
    var s, step := states[j - 1], steps[j - 1];
    assert Next(s, step) == Some(states[j]);
    if j == i + 1 {
      OpenStarts(s, t);
    } else {
      OpenEnds(limit, states, steps, i, j - 1, t);
      PathKeepsInv(limit, states, steps, j - 1);
      InvMutex(s, limit);
      OneStepOfOpen(s, step, t, AccountOf(states, steps, i, j - 1, t));
    }
  }

  lemma InvMutex(s: State, limit: nat)
    requires Inv(s, limit)
    ensures MutexOk(s)
  {
  }

  lemma OpenStarts(s: State, t: ThreadId)
    requires Enabled(s, Open(t))
    ensures var n := Apply(s, Open(t));
            t in n.threads && OpenGoes(n.threads[t], Charge(NOTHING, s, Open(t), n, t))
  {
  }

  /** Destroying a mapped file takes that file away and in the end gives its token back. */
  ghost predicate DestroyGoes(th: Thread, a: Account, file: FileId) {
    && GivesBack(th) && a.mapped == {} && a.plain == {} && a.unmapped == {file}
    && a.spent == (if HasToken(th) then 0 else -1) && a.steps + Rank(th) <= 5
  }

  ghost predicate DestroyEnded(a: Account, file: FileId) {
    a.mapped == {} && a.plain == {} && a.unmapped == {file} && a.spent == -1 && a.steps <= 5
  }

  lemma OneStepOfDestroy(s: State, step: Step, t: ThreadId, a: Account, file: FileId)
    requires MutexOk(s) && Enabled(s, step) && t in s.threads && DestroyGoes(s.threads[t], a, file)
    ensures var n := Apply(s, step);
            var b := Charge(a, s, step, n, t);
            if t in n.threads then DestroyGoes(n.threads[t], b, file) else DestroyEnded(b, file)
  {
    hide InMutex;
    StepMovesOneThread(s, step);
    if step.t == t {
      var n := Apply(s, step);
      assert n.mapped == s.mapped && n.plain == s.plain;
      assert s.mapped - n.mapped == {} && n.plain - s.plain == {};
    }
  }

  lemma DestroyStarts(s: State, t: ThreadId, file: FileId)
    requires Enabled(s, Destroy(t, file))
    ensures var n := Apply(s, Destroy(t, file));
            t in n.threads && DestroyGoes(n.threads[t], Charge(NOTHING, s, Destroy(t, file), n, t), file)
  {
    assert s.mapped - (s.mapped - {file}) == {file};
    assert (s.mapped - {file}) - s.mapped == {};
  }

  lemma {:induction false} DestroyEnds(limit: nat, states: seq<State>, steps: seq<Step>, i: nat, j: nat, t: ThreadId,
                                       file: FileId)
    requires Path(Next, states, steps) && states[0] == Init(limit) && i < j <= |steps| && steps[i] == Destroy(t, file)
    requires forall m :: i < m < j ==> t in states[m].threads
    ensures var a := AccountOf(states, steps, i, j, t);
            if t in states[j].threads then DestroyGoes(states[j].threads[t], a, file) else DestroyEnded(a, file)
    decreases j
  {
    hide DestroyGoes, DestroyEnded, Charge, Inv, Enabled, Apply, MutexOk;
    var s, step := states[j - 1], steps[j - 1];
    assert Next(s, step) == Some(states[j]);
    if j == i + 1 {
      DestroyStarts(s, t, file);
    } else {
      DestroyEnds(limit, states, steps, i, j - 1, t, file);
      PathKeepsInv(limit, states, steps, j - 1);
      InvMutex(s, limit);
      OneStepOfDestroy(s, step, t, AccountOf(states, steps, i, j - 1, t), file);
    }
  }
}
