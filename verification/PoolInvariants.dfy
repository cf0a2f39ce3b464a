/** What every step of the thread pool keeps, and what follows for whole runs. */
module PoolInvariants {
  import opened Wrappers
  import opened Counting
  import opened ThreadPool
  import opened PoolProtocol

  /** How the counts change when one worker, and how when one producer, changes phase. */
  lemma WorkerMoves(ws: seq<Worker>, w: nat, to: Worker)
    requires w < |ws|
    ensures forall x :: Count(ws[w := to], x) + (if ws[w] == x then 1 else 0) == Count(ws, x) + if to == x then 1 else 0
  {
    forall x ensures Count(ws[w := to], x) + (if ws[w] == x then 1 else 0) == Count(ws, x) + if to == x then 1 else 0 {
      CountMove(ws, w, to, x);
    }
  }

  lemma ProducerMoves(ps: seq<Producer>, p: nat, to: Producer)
    requires p < |ps|
    ensures forall x :: Count(ps[p := to], x) + (if ps[p] == x then 1 else 0) == Count(ps, x) + if to == x then 1 else 0
  {
    forall x ensures Count(ps[p := to], x) + (if ps[p] == x then 1 else 0) == Count(ps, x) + if to == x then 1 else 0 {
      CountMove(ps, p, to, x);
    }
  }

  lemma WorkerCreated(ws: seq<Worker>)
    ensures forall x :: Count(ws + [Awake], x) == Count(ws, x) + if x == Awake then 1 else 0
  {
    forall x ensures Count(ws + [Awake], x) == Count(ws, x) + if x == Awake then 1 else 0 {
      CountAppend(ws, Awake, x);
    }
  }

  // ---- Thread accounting

  /** Threads that were created but not yet added to `threadAlive`. */
  function NotYetCounted(s: State): int {
    if s.manager.Uncounted? then 1 else 0
  }

  /** Threads that have not been accounted as exited. */
  function Unexited(s: State): int {
    Count(s.workers, Awake) + Count(s.workers, Asleep) + Count(s.workers, OweFull) + Count(s.workers, Running)
  }

  predicate Accounting(s: State) {
    && s.pool.threadAlive + NotYetCounted(s) == Unexited(s)
    && s.pool.threadBusy == Count(s.workers, OweFull) + Count(s.workers, Running)
  }

  // ---- No lost wake-up

  /** While a worker sleeps, every queued task is covered by a signal still owed, by a worker
      about to look at the queue, or by a worker that exited instead of taking a task. */
  predicate NoLostWakeup(s: State) {
    Count(s.workers, Asleep) > 0 ==>
      s.pool.queueCur <= Count(s.producers, OweEmpty) + Count(s.workers, Awake) + s.history.kills
  }

  /** While a producer sleeps, every free place is covered by a signal still owed or by a
      producer about to look at the queue. */
  predicate NoLostRoom(s: State) {
    Count(s.producers, AsleepFull) > 0 ==>
      s.pool.queueMax - s.pool.queueCur <= Count(s.workers, OweFull) + Count(s.producers, Adding)
  }

  predicate Counts(s: State) {
    Accounting(s) && NoLostWakeup(s) && NoLostRoom(s) && s.history.kills >= 0
  }

  lemma AddSectionKeepsCounts(s: State, p: nat)
    requires WellFormed(s) && Enabled(s, AddSection(p)) && Counts(s)
    ensures Counts(Next(s, AddSection(p)))
  {
    ProducerMoves(s.producers, p, NextAdd(s, p).producers[p]);
  }

  lemma WorkSectionKeepsCounts(s: State, w: nat)
    requires WellFormed(s) && Enabled(s, WorkSection(w)) && Counts(s)
    ensures Counts(Next(s, WorkSection(w)))
  {
    WorkerMoves(s.workers, w, NextWork(s, w).workers[w]);
  }

  lemma WorkerStepKeepsCounts(s: State, e: Event)
    requires e.JobSection? || e.PipeSection? || e.Die? || e.SpuriousEmpty?
    requires WellFormed(s) && Enabled(s, e) && Counts(s)
    ensures Counts(Next(s, e))
  {
    WorkerMoves(s.workers, e.w, Next(s, e).workers[e.w]);
  }

  lemma ProducerStepKeepsCounts(s: State, e: Event)
    requires e.CallAdd? || e.SpuriousFull?
    requires WellFormed(s) && Enabled(s, e) && Counts(s)
    ensures Counts(Next(s, e))
  {
    ProducerMoves(s.producers, e.p, Adding);
  }

  /** A signal either wakes a sleeper or finds nobody asleep. */
  lemma SignalMoves<T>(threads: seq<T>, asleep: T, awake: T, woken: Option<nat>)
    requires Wakes(threads, asleep, woken) && asleep != awake
    ensures var after := Wake(threads, awake, woken);
            && (forall x :: x != asleep && x != awake ==> Count(after, x) == Count(threads, x))
            && (woken.None? ==> Count(threads, asleep) == 0)
            && (woken.Some? ==> Count(after, asleep) == Count(threads, asleep) - 1 && Count(after, awake) == Count(threads, awake) + 1)
  {
    if woken.Some? {
      forall x ensures Count(threads[woken.value := awake], x) + (if asleep == x then 1 else 0) == Count(threads, x) + if awake == x then 1 else 0 {
        CountMove(threads, woken.value, awake, x);
      }
    } else {
      CountZero(threads, asleep);
    }
  }

  lemma SignalEmptyKeepsCounts(s: State, p: nat, woken: Option<nat>)
    requires WellFormed(s) && Enabled(s, SignalEmpty(p, woken)) && Counts(s)
    ensures Counts(Next(s, SignalEmpty(p, woken)))
  {
    SignalMoves(s.workers, Asleep, Awake, woken);
    ProducerMoves(s.producers, p, Outside);
  }

  lemma SignalFullKeepsCounts(s: State, w: nat, woken: Option<nat>)
    requires WellFormed(s) && Enabled(s, SignalFull(w, woken)) && Counts(s)
    ensures Counts(Next(s, SignalFull(w, woken)))
  {
    SignalMoves(s.producers, AsleepFull, Adding, woken);
    WorkerMoves(s.workers, w, Running);
  }

  lemma ManagerSignalKeepsCounts(s: State, woken: Option<nat>)
    requires WellFormed(s) && Enabled(s, ManagerSignal(woken)) && Counts(s)
    ensures Counts(Next(s, ManagerSignal(woken)))
  {
    SignalMoves(s.workers, Asleep, Awake, woken);
  }

  lemma ManageKeepsCounts(s: State)
    requires WellFormed(s) && Enabled(s, Manage) && Counts(s)
    ensures Counts(Next(s, Manage))
  {
    var s' := NextManage(s);
    assert Next(s, Manage) == s';
    assert s'.producers == s.producers && s'.pool.queueCur == s.pool.queueCur && s'.history.kills == s.history.kills;
    if s.manager.Growing? && s'.manager.Uncounted? {
      assert s'.workers == s.workers + [Awake];
      WorkerCreated(s.workers);
    } else {
      assert s'.workers == s.workers;
    }
  }

  lemma CountsKept(s: State, e: Event)
    requires WellFormed(s) && Enabled(s, e) && Counts(s)
    ensures Counts(Next(s, e))
  {
    match e
    case AddSection(p) => AddSectionKeepsCounts(s, p);
    case WorkSection(w) => WorkSectionKeepsCounts(s, w);
    case SignalEmpty(p, woken) => SignalEmptyKeepsCounts(s, p, woken);
    case SignalFull(w, woken) => SignalFullKeepsCounts(s, w, woken);
    case CallAdd(_, _) => ProducerStepKeepsCounts(s, e);
    case SpuriousFull(_) => ProducerStepKeepsCounts(s, e);
    case Manage => ManageKeepsCounts(s);
    case ManagerSignal(woken) => ManagerSignalKeepsCounts(s, woken);
    case _ => WorkerStepKeepsCounts(s, e);
  }

  // ---- The queue is a FIFO that loses nothing

  predicate Conserved(s: State)
    requires WellFormed(s)
  {
    s.history.added == s.history.taken + Contents(s.pool)
  }

  lemma ConservedKept(s: State, e: Event)
    requires WellFormed(s) && Enabled(s, e) && Conserved(s)
    ensures Conserved(Next(s, e))
  {
    match e
    case AddSection(p) =>
      AddIsEnqueue(s.pool, s.pending[p]);
    case WorkSection(w) =>
      TakeIsDequeue(s.pool);
    case Manage =>
    case _ =>
  }

  // ---- Slots

  ghost predicate Owns(s: State, i: nat, w: nat) {
    i < |s.pool.tids| && w < |s.workers| && s.pool.tids[i] == w + 1
  }

  /** Every thread that still runs has exactly one slot. */
  ghost predicate Slots(s: State) {
    && (forall i :: 0 <= i < |s.pool.tids| ==> s.pool.tids[i] <= |s.workers|)
    && (forall i, j :: 0 <= i < j < |s.pool.tids| && s.pool.tids[i] == s.pool.tids[j] ==> s.pool.tids[i] == 0)
    && (forall w :: 0 <= w < |s.workers| && s.workers[w] != Gone ==> exists i: nat :: Owns(s, i, w))
  }

  lemma ManageKeepsSlots(s: State)
    requires WellFormed(s) && Slots(s)
    requires Enabled(s, Manage)
    ensures Slots(Next(s, Manage))
    ensures forall i: nat, w: nat :: Owns(s, i, w) && s.workers[w] != Gone ==> Owns(Next(s, Manage), i, w)
  {
    var s' := NextManage(s);
    if s.manager.Growing? && s'.manager.Uncounted? {
      assert s'.workers == s.workers + [Awake];
      assert Owns(s', s.manager.i, |s.workers|);
    } else {
      assert s'.workers == s.workers && s'.pool.tids == s.pool.tids;
    }
    assert forall i: nat, w: nat :: Owns(s, i, w) && s.workers[w] != Gone ==> Owns(s', i, w);
  }

  /** Outside the manager no slot changes and no dead thread comes back. */
  lemma OthersKeepSlots(s: State, e: Event)
    requires !e.Manage?
    requires WellFormed(s) && Enabled(s, e)
    ensures var s' := Next(s, e);
            && s'.pool.tids == s.pool.tids
            && |s'.workers| == |s.workers|
            && forall w :: 0 <= w < |s.workers| && s.workers[w] == Gone ==> s'.workers[w] == Gone
  {
  }

  lemma SlotsKept(s: State, e: Event)
    requires WellFormed(s) && Enabled(s, e) && Slots(s)
    ensures Slots(Next(s, e))
    ensures forall i: nat, w: nat :: Owns(s, i, w) && s.workers[w] != Gone ==> Owns(Next(s, e), i, w)
  {
    if e == Manage {
      ManageKeepsSlots(s);
    } else {
      OthersKeepSlots(s, e);
      var s' := Next(s, e);
      assert forall i: nat, w: nat :: Owns(s, i, w) <==> Owns(s', i, w);
    }
  }

  // ---- The manager's kill budget

  /** How far the threads not yet exited, with SIGPIPE exits added back, exceed the pending kills. */
  function Margin(s: State): int {
    s.pool.threadAlive + NotYetCounted(s) - s.pool.killno + s.history.pipes
  }

  /** Kill exits and SIGPIPE exits since the manager's last snapshot. */
  function KillsSince(s: State): int {
    s.history.kills - s.history.snapKills
  }

  function PipesSince(s: State): int {
    s.history.pipes - s.history.snapPipes
  }

  /** Between its snapshot and the write of `killno` the manager's picture is only out of date by exits. */
  predicate StaleBy(s: State, snap: Snapshot) {
    && 0 <= snap.busy
    && snap.alive - KillsSince(s) - PipesSince(s) <= s.pool.threadAlive + NotYetCounted(s)
    && s.pool.killno == s.history.snapKillno - KillsSince(s)
    && 0 <= KillsSince(s)
    && 0 <= s.history.snapPipes <= s.history.pipes
    && s.history.snapKillno <= s.pool.threadMin
  }

  predicate Budget(s: State) {
    && 0 <= s.pool.killno <= s.pool.threadMin
    && 0 <= Margin(s)
    && (s.history.cleanShrinks ==> s.pool.threadMin <= Margin(s))
    && 0 <= s.history.pipes
    && match s.manager
       case Growing(snap, _, _) => StaleBy(s, snap)
       case Uncounted(snap, _, _) => StaleBy(s, snap)
       case Judging(snap) => StaleBy(s, snap)
       case Shrinking(snap) => StaleBy(s, snap) && WantsShrink(snap, s.pool.threadMin)
       case _ => true
  }

  lemma ManageKeepsBudget(s: State)
    requires WellFormed(s) && Accounting(s) && Budget(s)
    requires Enabled(s, Manage)
    ensures Budget(Next(s, Manage))
  {
  }

  /** What a shrink leaves: a busy worker in the snapshot keeps its thread, one exit since the snapshot loses one. */
  lemma ShrinkLeaves(s: State)
    requires WellFormed(s) && Accounting(s) && Budget(s) && s.manager.Shrinking?
    ensures var p := Next(s, Manage).pool;
            && p.killno == p.threadMin
            && p.threadAlive - p.killno >= p.threadMin + s.manager.snap.busy - KillsSince(s) - PipesSince(s)
            && KillsSince(s) <= s.history.snapKillno <= p.threadMin
  {
  }

  lemma ExitsKeepBudget(s: State, e: Event)
    requires e.WorkSection? || e.PipeSection?
    requires WellFormed(s) && Enabled(s, e) && Budget(s)
    ensures Budget(Next(s, e))
  {
  }

  lemma QuietStepsKeepBudget(s: State, e: Event)
    requires !e.Manage? && !e.WorkSection? && !e.PipeSection?
    requires WellFormed(s) && Enabled(s, e) && Budget(s)
    ensures Budget(Next(s, e))
  {
    var s' := Next(s, e);
    assert s'.pool.killno == s.pool.killno && s'.pool.threadMin == s.pool.threadMin;
    assert s'.pool.threadAlive == s.pool.threadAlive;
    assert s'.history == s.history || e.AddSection?;
    assert s'.manager == s.manager || (s.manager.Waking? && s'.manager.Waking?);
  }

  lemma BudgetKept(s: State, e: Event)
    requires WellFormed(s) && Enabled(s, e) && Accounting(s) && Budget(s)
    ensures Budget(Next(s, e))
  {
    if e == Manage {
      ManageKeepsBudget(s);
    } else if e.WorkSection? || e.PipeSection? {
      ExitsKeepBudget(s, e);
    } else {
      QuietStepsKeepBudget(s, e);
    }
  }
}
