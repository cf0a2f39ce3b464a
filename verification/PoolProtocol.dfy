/**
 The thread pool as a concurrent protocol. Each lock-protected section is one
 step; each condition signal, the manager's snapshot, the creation of a thread
 and the later count of it are steps of their own.

 The pool never shuts down: `main` does not leave its loop.
 */
module PoolProtocol {
  import opened Wrappers
  import opened ThreadPool

  /** A worker thread. `Exiting` no longer counts as alive but still runs; `Gone` is dead. */
  datatype Worker = Awake | Asleep | OweFull | Running | Exiting | Gone

  /** A caller of `thread_task_add`. */
  datatype Producer = Outside | Adding | AsleepFull | OweEmpty

  datatype Manager =
    | Polling
    | Growing(snap: Snapshot, i: int, add: int)
    | Uncounted(snap: Snapshot, i: int, add: int)
    | Judging(snap: Snapshot)
    | Shrinking(snap: Snapshot)
    | Waking(sent: int)

  /** What happened so far: tasks put in and taken out, exits, and the state at the last snapshot. */
  datatype History = History(
    added: seq<Task>, taken: seq<Task>,
    kills: int, pipes: int,
    snapKills: int, snapPipes: int, snapKillno: int,
    cleanShrinks: bool)

  /** Worker `w` is the thread with identifier `w + 1`. Producer `p` is adding `pending[p]`. */
  datatype State = State(
    pool: PoolValue,
    workers: seq<Worker>,
    producers: seq<Producer>, pending: seq<Task>,
    manager: Manager,
    history: History)

  predicate WellFormed(s: State) {
    RingOk(s.pool) && |s.pending| == |s.producers|
  }

  datatype Event =
    | CallAdd(p: nat, task: Task)
    | AddSection(p: nat)
    | SignalEmpty(p: nat, woken: Option<nat>)
    | SpuriousFull(p: nat)
    | WorkSection(w: nat)
    | SignalFull(w: nat, wokenProducer: Option<nat>)
    | JobSection(w: nat)
    | PipeSection(w: nat)
    | Die(w: nat)
    | SpuriousEmpty(w: nat)
    | Manage
    | ManagerSignal(woken: Option<nat>)

  /** A thread that the liveness test finds. */
  predicate Live(s: State, tid: Tid) {
    0 < tid <= |s.workers| && s.workers[tid - 1] != Gone
  }

  /** A signal wakes one sleeper when there is one. More wake-ups than that are spurious steps. */
  predicate Wakes<T(==)>(threads: seq<T>, asleep: T, woken: Option<nat>) {
    match woken
    case None => asleep !in threads
    case Some(k) => k < |threads| && threads[k] == asleep
  }

  function Wake<T(==)>(threads: seq<T>, awake: T, woken: Option<nat>): (r: seq<T>)
    requires woken.Some? ==> woken.value < |threads|
    ensures |r| == |threads|
  {
    if woken.Some? then threads[woken.value := awake] else threads
  }

  function Init(max: nat, min: nat, queMax: nat, producers: nat): (s: State)
    requires min <= max
    ensures WellFormed(s)
  {
    State(Created(max, min, queMax),
          seq(min, _ => Awake),
          seq(producers, _ => Outside), seq(producers, _ => Task(0, 0)),
          Polling,
          History([], [], 0, 0, 0, 0, 0, true))
  }

  predicate Enabled(s: State, e: Event) {
    match e
    case CallAdd(p, _) => p < |s.producers| && s.producers[p] == Outside
    case AddSection(p) => p < |s.producers| && s.producers[p] == Adding
    case SignalEmpty(p, woken) => p < |s.producers| && s.producers[p] == OweEmpty && Wakes(s.workers, Asleep, woken)
    case SpuriousFull(p) => p < |s.producers| && s.producers[p] == AsleepFull
    case WorkSection(w) => w < |s.workers| && s.workers[w] == Awake
    case SignalFull(w, woken) => w < |s.workers| && s.workers[w] == OweFull && Wakes(s.producers, AsleepFull, woken)
    case JobSection(w) => w < |s.workers| && s.workers[w] == Running
    case PipeSection(w) => w < |s.workers| && s.workers[w] == Running
    case Die(w) => w < |s.workers| && s.workers[w] == Exiting
    case SpuriousEmpty(w) => w < |s.workers| && s.workers[w] == Asleep
    case Manage => s.manager.Waking? ==> s.manager.sent >= s.pool.threadMin
    case ManagerSignal(woken) => s.manager.Waking? && s.manager.sent < s.pool.threadMin && Wakes(s.workers, Asleep, woken)
  }

  function Next(s: State, e: Event): (s': State)
    requires WellFormed(s) && Enabled(s, e)
    ensures WellFormed(s')
  {
    match e
    case CallAdd(p, task) =>
      s.(producers := s.producers[p := Adding],
         pending := s.pending[p := task])
    case AddSection(p) => NextAdd(s, p)
    case SignalEmpty(p, woken) =>
      s.(producers := s.producers[p := Outside], workers := Wake(s.workers, Awake, woken))
    case SpuriousFull(p) => s.(producers := s.producers[p := Adding])
    case WorkSection(w) => NextWork(s, w)
    case SignalFull(w, woken) =>
      s.(workers := s.workers[w := Running], producers := Wake(s.producers, Adding, woken))
    case JobSection(w) => s.(workers := s.workers[w := Awake], pool := JobDone(s.pool))
    case PipeSection(w) =>
      s.(workers := s.workers[w := Exiting], pool := HandlePipe(s.pool),
         history := s.history.(pipes := s.history.pipes + 1))
    case Die(w) => s.(workers := s.workers[w := Gone])
    case SpuriousEmpty(w) => s.(workers := s.workers[w := Awake])
    case Manage => NextManage(s)
    case ManagerSignal(woken) =>
      s.(workers := Wake(s.workers, Awake, woken), manager := Waking(s.manager.sent + 1))
  }

  function NextAdd(s: State, p: nat): (s': State)
    requires WellFormed(s) && Enabled(s, AddSection(p))
    ensures WellFormed(s')
  {
    match TryAdd(s.pool, s.pending[p])
    case None => s.(producers := s.producers[p := AsleepFull])
    case Some(pool) =>
      s.(pool := pool, producers := s.producers[p := OweEmpty],
         history := s.history.(added := s.history.added + [s.pending[p]]))
  }

  function NextWork(s: State, w: nat): (s': State)
    requires WellFormed(s) && Enabled(s, WorkSection(w))
    ensures WellFormed(s')
  {
    match WorkerTurn(s.pool)
    case Wait => s.(workers := s.workers[w := Asleep])
    case Exit(pool) =>
      s.(pool := pool, workers := s.workers[w := Exiting],
         history := s.history.(kills := s.history.kills + 1))
    case Take(pool, task) =>
      s.(pool := pool, workers := s.workers[w := OweFull],
         history := s.history.(taken := s.history.taken + [task]))
  }

  function NextManage(s: State): (s': State)
    requires WellFormed(s) && Enabled(s, Manage)
    ensures WellFormed(s')
  {
    var p := s.pool;
    match s.manager
    case Polling =>
      var snap := TakeSnapshot(p);
      s.(manager := if WantsGrowth(snap, p.threadMin, p.threadMax) then Growing(snap, 0, 0) else Judging(snap),
         history := s.history.(snapKills := s.history.kills, snapPipes := s.history.pipes, snapKillno := p.killno))
    case Growing(snap, i, add) =>
      if 0 <= i < p.threadMax && add < p.threadMin then
        if p.tids[i] == 0 || !Live(s, p.tids[i]) then
          s.(pool := StoreTid(p, i, |s.workers| + 1), workers := s.workers + [Awake], manager := Uncounted(snap, i, add))
        else s.(manager := Growing(snap, i + 1, add))
      else s.(manager := Judging(snap))
    case Uncounted(snap, i, add) =>
      s.(pool := CountThread(p), manager := Growing(snap, i + 1, add + 1))
    case Judging(snap) =>
      s.(manager := if WantsShrink(snap, p.threadMin) then Shrinking(snap) else Polling)
    case Shrinking(snap) =>
      s.(pool := OrderKills(p), manager := Waking(0),
         history := s.history.(cleanShrinks := s.history.cleanShrinks && s.history.snapKillno == 0))
    case Waking(_) => s.(manager := Polling)
  }

  /** The state after a run of events, or `None` when some event is not enabled. */
  function Exec(s: State, run: seq<Event>): (r: Option<State>)
    requires WellFormed(s)
    ensures r.Some? ==> WellFormed(r.value)
    decreases |run|
  {
    if run == [] then Some(s)
    else if Enabled(s, run[0]) then Exec(Next(s, run[0]), run[1..])
    else None
  }

  lemma {:induction false} ExecSnoc(s: State, run: seq<Event>, e: Event)
    requires WellFormed(s) && Exec(s, run).Some? && Enabled(Exec(s, run).value, e)
    ensures Exec(s, run + [e]) == Some(Next(Exec(s, run).value, e))
    decreases |run|
  {
    if run == [] {
      assert run + [e] == [e];
    } else {
      assert (run + [e])[1..] == run[1..] + [e];
      ExecSnoc(Next(s, run[0]), run[1..], e);
    }
  }
}
