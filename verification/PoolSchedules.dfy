/**
 Schedules of the thread pool, for pools of any size. Each lemma returns the
 state that its schedule reaches and says of it only what the next one needs:
 which phases its threads are in, and the counters.
 */
module PoolSchedules {
  import opened Wrappers
  import opened Counting
  import opened ThreadPool
  import opened PoolProtocol
  import opened PoolInvariants
  import opened PoolTheorems

  /** What a pool is created with, and how many threads call `thread_task_add`. */
  datatype Sizes = Sizes(max: nat, min: nat, queMax: nat, producers: nat)

  ghost predicate ReachedBy(z: Sizes, s: State) {
    z.min <= z.max && exists run: seq<Event> :: Exec(Init(z.max, z.min, z.queMax, z.producers), run) == Some(s)
  }

  predicate Sized(z: Sizes, s: State) {
    && s.pool.threadMax == z.max && s.pool.threadMin == z.min && s.pool.queueMax == z.queMax
    && |s.producers| == z.producers
  }

  lemma StepKeepsSizes(z: Sizes, s: State, e: Event)
    requires WellFormed(s) && Enabled(s, e) && Sized(z, s)
    ensures Sized(z, Next(s, e))
  {
  }

  lemma {:induction false} RunKeepsSizes(z: Sizes, s: State, run: seq<Event>)
    requires WellFormed(s) && Sized(z, s) && Exec(s, run).Some?
    ensures Sized(z, Exec(s, run).value)
    decreases |run|
  {
    hide Next, Enabled;
    if run != [] {
      StepKeepsSizes(z, s, run[0]);
      RunKeepsSizes(z, Next(s, run[0]), run[1..]);
    }
  }

  /** A state of a run from these sizes, with all that holds there. */
  ghost predicate Good(z: Sizes, s: State) {
    ReachedBy(z, s) && Inv(s) && Sized(z, s)
  }

  lemma ReachedIsGood(z: Sizes, s: State)
    requires ReachedBy(z, s)
    ensures Good(z, s)
  {
    hide Inv;
    var init := Init(z.max, z.min, z.queMax, z.producers);
    var run :| Exec(init, run) == Some(s);
    InitInv(z.max, z.min, z.queMax, z.producers);
    RunKeepsInv(init, run);
    RunKeepsSizes(z, init, run);
  }

  lemma Start(z: Sizes) returns (s: State)
    requires z.min <= z.max
    ensures Good(z, s) && s == Init(z.max, z.min, z.queMax, z.producers)
  {
    s := Init(z.max, z.min, z.queMax, z.producers);
    assert Exec(s, []) == Some(s);
    ReachedIsGood(z, s);
  }

  lemma Step(z: Sizes, s: State, e: Event) returns (t: State)
    requires Good(z, s) && WellFormed(s) && Enabled(s, e)
    ensures Good(z, t) && WellFormed(t) && t == Next(s, e)
  {
    hide Inv, Next, Enabled, Sized;
    t := Next(s, e);
    var init := Init(z.max, z.min, z.queMax, z.producers);
    var run :| Exec(init, run) == Some(s);
    ExecSnoc(init, run, e);
    ReachedIsGood(z, t);
  }

  // ---- Calm states

  /** The threads are in the given phases, no producer is busy, and no SIGPIPE exit happened. */
  predicate Calm(s: State, phases: set<Worker>, cur: nat) {
    && (forall w :: 0 <= w < |s.workers| ==> s.workers[w] in phases)
    && (forall p :: 0 <= p < |s.producers| ==> s.producers[p] == Outside)
    && s.pool.queueCur == cur && s.history.pipes == 0
  }

  /** The facts about a good state that the schedules use. */
  lemma Facts(z: Sizes, s: State)
    requires Good(z, s)
    ensures WellFormed(s) && Sized(z, s) && Accounting(s)
    ensures forall x :: Count(s.workers, x) == 0 <==> x !in s.workers
    ensures forall i :: 0 <= i < |s.pool.tids| ==> s.pool.tids[i] <= |s.workers|
  {
    forall x ensures Count(s.workers, x) == 0 <==> x !in s.workers {
      CountZero(s.workers, x);
    }
  }

  lemma NoneElse(s: State, phases: set<Worker>, cur: nat)
    requires Calm(s, phases, cur)
    ensures forall x :: x !in phases ==> x !in s.workers
    ensures AsleepFull !in s.producers
  {
  }

  /** While nobody is dead, there are at most as many threads as slots. */
  lemma SlotsBound(z: Sizes, s: State)
    requires Good(z, s) && Gone !in s.workers
    ensures |s.workers| <= z.max
  {
    hide Inv;
    ReachedIsReachable(z, s);
    PoolCeiling(s);
    LiveTidsCounted(s.workers);
    CountZero(s.workers, Gone);
  }

  lemma ReachedIsReachable(z: Sizes, s: State)
    requires Good(z, s)
    ensures Reachable(s)
  {
    var run :| Exec(Init(z.max, z.min, z.queMax, z.producers), run) == Some(s);
  }

  lemma Someone(s: State, x: Worker) returns (w: nat)
    requires Count(s.workers, x) > 0
    ensures w < |s.workers| && s.workers[w] == x
  {
    CountZero(s.workers, x);
    w :| w < |s.workers| && s.workers[w] == x;
  }

  // ---- Tasks

  /** Nothing but the queue, the workers' phases and the producers changed. */
  predicate SameRest(s: State, t: State) {
    && t.pool.tids == s.pool.tids && t.pool.killno == s.pool.killno
    && t.pool.threadAlive == s.pool.threadAlive && t.pool.threadBusy == s.pool.threadBusy
    && t.manager == s.manager
  }

  /** A task is added to an empty queue, and its signal wakes a sleeper if there is one. */
  lemma AddTask(z: Sizes, s: State, phases: set<Worker>, woken: Option<nat>) returns (t: State)
    requires Good(z, s) && Calm(s, phases, 0) && z.queMax > 0 && z.producers > 0
    requires Wakes(s.workers, Asleep, woken) && Awake in phases
    ensures Good(z, t) && Calm(t, phases, 1) && SameRest(s, t)
    ensures t.workers == Wake(s.workers, Awake, woken)
  {
    hide Good, Accounting;
    Facts(z, s);
    t := Step(z, s, CallAdd(0, Task(0, 0)));
    t := Step(z, t, AddSection(0));
    t := Step(z, t, SignalEmpty(0, woken));
  }

  /** An awake worker takes the only task and runs it. */
  lemma TakeTask(z: Sizes, s: State, phases: set<Worker>) returns (t: State)
    requires Good(z, s) && Calm(s, phases, 1) && s.pool.killno == 0 && Count(s.workers, Awake) > 0 && Running in phases
    ensures Good(z, t) && Calm(t, phases, 0) && |t.workers| == |s.workers|
    ensures SameRest(s, t.(pool := t.pool.(threadBusy := s.pool.threadBusy))) && t.pool.threadBusy == s.pool.threadBusy + 1
  {
    hide Good, Accounting;
    Facts(z, s);
    NoneElse(s, phases, 1);
    var w := Someone(s, Awake);
    t := Step(z, s, WorkSection(w));
    t := Step(z, t, SignalFull(w, None));
  }

  /** Who is awake, when nobody sleeps or owes a signal. */
  lemma AwakeCount(z: Sizes, s: State, phases: set<Worker>, cur: nat)
    requires Good(z, s) && Calm(s, phases, cur) && phases <= {Awake, Running, Exiting}
    ensures Count(s.workers, Awake) == s.pool.threadAlive + NotYetCounted(s) - s.pool.threadBusy
    ensures s.pool.threadBusy == Count(s.workers, Running)
  {
    hide Good, Calm;
    Facts(z, s);
    NoneElse(s, phases, cur);
  }

  /** Every thread gets a task. */
  lemma {:induction false} BusyAll(z: Sizes, s: State) returns (t: State)
    requires Good(z, s) && Calm(s, {Awake, Running}, 0) && s.pool.killno == 0 && s.manager == Polling
    requires z.queMax > 0 && z.producers > 0
    ensures Good(z, t) && Calm(t, {Awake, Running}, 0) && t.manager == Polling && |t.workers| == |s.workers|
    ensures t.pool.tids == s.pool.tids && t.pool.killno == 0
    ensures t.pool.threadAlive == t.pool.threadBusy == s.pool.threadAlive
    decreases s.pool.threadAlive - s.pool.threadBusy
  {
    hide Good, Calm;
    AwakeCount(z, s, {Awake, Running}, 0);
    t := s;
    if s.pool.threadBusy < s.pool.threadAlive {
      NoneElse(s, {Awake, Running}, 0);
      t := AddTask(z, s, {Awake, Running}, None);
      t := TakeTask(z, t, {Awake, Running});
      t := BusyAll(z, t);
    }
  }

  /** Every job ends. */
  lemma {:induction false} FinishAll(z: Sizes, s: State) returns (t: State)
    requires Good(z, s) && Calm(s, {Awake, Running}, 0)
    ensures Good(z, t) && Calm(t, {Awake}, 0) && |t.workers| == |s.workers|
    ensures SameRest(s, t.(pool := t.pool.(threadBusy := s.pool.threadBusy))) && t.pool.threadBusy == 0
    decreases s.pool.threadBusy
  {
    hide Good, Accounting;
    AwakeCount(z, s, {Awake, Running}, 0);
    Facts(z, s);
    t := s;
    if s.pool.threadBusy > 0 {
      var w := Someone(s, Running);
      t := Step(z, s, JobSection(w));
      t := FinishAll(z, t);
    }
  }

  /** On an empty queue every awake worker goes to sleep. */
  lemma {:induction false} SleepAll(z: Sizes, s: State) returns (t: State)
    requires Good(z, s) && Calm(s, {Awake, Asleep}, 0)
    ensures Good(z, t) && Calm(t, {Asleep}, 0) && SameRest(s, t) && |t.workers| == |s.workers|
    decreases Count(s.workers, Awake)
  {
    hide Good, Accounting;
    Facts(z, s);
    t := s;
    if Count(s.workers, Awake) > 0 {
      var w := Someone(s, Awake);
      t := Step(z, s, WorkSection(w));
      CountMove(s.workers, w, Asleep, Awake);
      t := SleepAll(z, t);
    }
  }

  /** A pending kill meets a queued task: an awake worker exits and nothing leaves the queue. */
  lemma KillOne(z: Sizes, s: State, phases: set<Worker>, w: nat) returns (t: State)
    requires Good(z, s) && Calm(s, phases, 1) && s.pool.killno > 0 && Exiting in phases
    requires w < |s.workers| && s.workers[w] == Awake
    ensures Good(z, t) && Calm(t, phases, 1) && t.workers == s.workers[w := Exiting]
    ensures t.manager == s.manager && t.pool.tids == s.pool.tids && t.pool.threadBusy == s.pool.threadBusy
    ensures t.pool.threadAlive == s.pool.threadAlive - 1 && t.pool.killno == s.pool.killno - 1
  {
    hide Good, Accounting;
    Facts(z, s);
    t := Step(z, s, WorkSection(w));
  }

  lemma {:induction false} KillMany(z: Sizes, s: State, k: nat) returns (t: State)
    requires Good(z, s) && Calm(s, {Awake, Exiting}, 1) && k <= s.pool.killno && k <= s.pool.threadAlive
    requires !s.manager.Uncounted? && s.pool.threadBusy == 0
    ensures Good(z, t) && Calm(t, {Awake, Exiting}, 1) && |t.workers| == |s.workers|
    ensures t.manager == s.manager && t.pool.tids == s.pool.tids && t.pool.threadBusy == 0
    ensures t.pool.threadAlive == s.pool.threadAlive - k && t.pool.killno == s.pool.killno - k
    decreases k
  {
    hide Good, Calm;
    t := s;
    if k > 0 {
      AwakeCount(z, s, {Awake, Exiting}, 1);
      var w := Someone(s, Awake);
      t := KillOne(z, s, {Awake, Exiting}, w);
      t := KillMany(z, t, k - 1);
    }
  }

  // ---- The manager

  /** The slots from `m` on never held a thread. */
  predicate Unused(s: State, m: nat) {
    forall k :: m <= k < |s.pool.tids| ==> s.pool.tids[k] == 0
  }

  /** One slot of the growth loop: it is passed over, or gets a thread that is then counted. */
  lemma GrowSlot(z: Sizes, s: State, phases: set<Worker>, cur: nat) returns (t: State)
    requires Good(z, s) && Calm(s, phases, cur) && Awake in phases
    requires s.manager.Growing? && 0 <= s.manager.i < z.max && s.manager.add < z.min
    ensures Good(z, t) && Calm(t, phases, cur) && t.manager.Growing? && t.manager.snap == s.manager.snap
    ensures t.manager.i == s.manager.i + 1 && s.manager.add <= t.manager.add <= s.manager.add + 1
    ensures t.pool.threadAlive - s.pool.threadAlive == |t.workers| - |s.workers| == t.manager.add - s.manager.add
    ensures t.pool.threadBusy == s.pool.threadBusy && t.pool.killno == s.pool.killno
    ensures forall k :: s.manager.i < k < z.max ==> t.pool.tids[k] == s.pool.tids[k]
    ensures s.pool.tids[s.manager.i] == 0 ==> t.manager.add == s.manager.add + 1
  {
    hide Good, Accounting;
    Facts(z, s);
    t := Step(z, s, Manage);
    if t.manager.Uncounted? {
      t := Step(z, t, Manage);
    }
    Facts(z, t);
  }

  /** The growth loop to its end. It creates all the threads it wants if enough slots are unused. */
  lemma {:induction false} GrowAll(z: Sizes, s: State, phases: set<Worker>, cur: nat, m: nat) returns (t: State)
    requires Good(z, s) && Calm(s, phases, cur) && Awake in phases
    requires s.manager.Growing? && 0 <= s.manager.i <= z.max && 0 <= s.manager.add <= z.min
    ensures Good(z, t) && Calm(t, phases, cur) && t.manager == Judging(s.manager.snap)
    ensures 0 <= |t.workers| - |s.workers| <= z.min - s.manager.add
    ensures t.pool.threadAlive - s.pool.threadAlive == |t.workers| - |s.workers|
    ensures t.pool.threadBusy == s.pool.threadBusy && t.pool.killno == s.pool.killno
    ensures Unused(s, m) && s.manager.i <= m && z.max - m >= z.min - s.manager.add ==>
              |t.workers| - |s.workers| == z.min - s.manager.add
    decreases z.max - s.manager.i
  {
    hide Good, Calm, Accounting;
    Facts(z, s);
    if s.manager.i < z.max && s.manager.add < z.min {
      t := GrowSlot(z, s, phases, cur);
      Facts(z, t);
      t := GrowAll(z, t, phases, cur, if s.manager.i < m then m else m + 1);
    } else {
      t := Judge(z, s, phases, cur);
    }
  }

  /** The growth loop ends. */
  lemma Judge(z: Sizes, s: State, phases: set<Worker>, cur: nat) returns (t: State)
    requires Good(z, s) && Calm(s, phases, cur) && s.manager.Growing? && (s.manager.i >= z.max || s.manager.add >= z.min)
    ensures Good(z, t) && t == s.(manager := Judging(s.manager.snap)) && Calm(t, phases, cur)
  {
    hide Good, Accounting;
    Facts(z, s);
    t := Step(z, s, Manage);
  }

  /** From a poll with the pool in balance to the point where the manager is about to order kills:
      its snapshot has twice `thread_min` threads and none of them busy. Growth may come first. */
  lemma PollToShrink(z: Sizes, s: State, phases: set<Worker>, cur: nat) returns (t: State)
    requires Good(z, s) && Calm(s, phases, cur) && Awake in phases && s.manager == Polling
    requires s.pool.threadAlive == 2 * z.min && s.pool.threadBusy == 0
    ensures Good(z, t) && Calm(t, phases, cur) && t.manager.Shrinking?
    ensures 0 <= |t.workers| - |s.workers| <= z.min
    ensures t.pool.threadAlive - s.pool.threadAlive == |t.workers| - |s.workers|
    ensures t.pool.threadBusy == 0 && t.pool.killno == s.pool.killno
    ensures !WantsGrowth(TakeSnapshot(s.pool), z.min, z.max) ==> |t.workers| == |s.workers|
  {
    hide Good, Accounting;
    Facts(z, s);
    t := Step(z, s, Manage);
    if t.manager.Growing? {
      t := GrowAll(z, t, phases, cur, z.max);
    }
    t := Shrink(z, t, phases, cur);
  }

  lemma Shrink(z: Sizes, s: State, phases: set<Worker>, cur: nat) returns (t: State)
    requires Good(z, s) && Calm(s, phases, cur) && s.manager.Judging? && WantsShrink(s.manager.snap, z.min)
    ensures Good(z, t) && t == s.(manager := Shrinking(s.manager.snap)) && Calm(t, phases, cur)
  {
    hide Good, Accounting;
    Facts(z, s);
    t := Step(z, s, Manage);
  }

  /** The kills are ordered. */
  lemma Order(z: Sizes, s: State, phases: set<Worker>, cur: nat) returns (t: State)
    requires Good(z, s) && Calm(s, phases, cur) && s.manager.Shrinking?
    ensures Good(z, t) && Calm(t, phases, cur) && t.manager == Waking(0) && t.pool.killno == z.min
    ensures t.workers == s.workers && SameRest(s, t.(pool := t.pool.(killno := s.pool.killno), manager := s.manager))
  {
    hide Good, Accounting;
    Facts(z, s);
    t := Step(z, s, Manage);
  }

  /** The manager's signals find nobody asleep. */
  lemma {:induction false} SignalNobody(z: Sizes, s: State, phases: set<Worker>, cur: nat) returns (t: State)
    requires Good(z, s) && Calm(s, phases, cur) && Asleep !in phases && s.manager.Waking?
    ensures Good(z, t) && Calm(t, phases, cur) && t.manager == Polling
    ensures t.workers == s.workers && SameRest(s, t.(manager := s.manager))
    decreases z.min - s.manager.sent
  {
    hide Good, Accounting;
    Facts(z, s);
    NoneElse(s, phases, cur);
    if s.manager.sent < z.min {
      t := Step(z, s, ManagerSignal(None));
      t := SignalNobody(z, t, phases, cur);
    } else {
      t := Step(z, s, Manage);
    }
  }

  // ---- To a balanced pool, from the start

  /** The manager grows a pool whose threads are all busy, and does not shrink it. */
  lemma GrowBusy(z: Sizes, s: State) returns (t: State)
    requires Good(z, s) && Calm(s, {Awake, Running}, 0) && s.manager == Polling
    requires s.pool.threadAlive == s.pool.threadBusy == z.min && 1 <= z.min && 2 * z.min < z.max && Unused(s, z.min)
    ensures Good(z, t) && Calm(t, {Awake, Running}, 0) && t.manager == Polling
    ensures t.pool.threadAlive == 2 * z.min && t.pool.killno == s.pool.killno
  {
    hide Good, Accounting;
    Facts(z, s);
    t := Step(z, s, Manage);
    assert t.manager.Growing? && Unused(t, z.min);
    t := GrowAll(z, t, {Awake, Running}, 0, z.min);
    t := Decline(z, t, {Awake, Running}, 0);
  }

  lemma Decline(z: Sizes, s: State, phases: set<Worker>, cur: nat) returns (t: State)
    requires Good(z, s) && Calm(s, phases, cur) && s.manager.Judging? && !WantsShrink(s.manager.snap, z.min)
    ensures Good(z, t) && t == s.(manager := Polling) && Calm(t, phases, cur)
  {
    hide Good, Accounting;
    Facts(z, s);
    t := Step(z, s, Manage);
  }

  /** The sizes at which the manager can ever grow and then shrink a pool that gets work. */
  predicate CanShrink(z: Sizes) {
    1 <= z.min && 2 * z.min < z.max && 1 <= z.queMax && 1 <= z.producers
  }

  /** All threads are made busy, the pool grows, the jobs end: twice `thread_min` idle threads, nothing queued. */
  lemma Balanced(z: Sizes) returns (t: State)
    requires CanShrink(z)
    ensures Good(z, t) && Calm(t, {Awake}, 0) && t.manager == Polling
    ensures t.pool.threadAlive == 2 * z.min && t.pool.threadBusy == 0 && t.pool.killno == 0
  {
    hide Good, Accounting;
    t := Start(z);
    t := BusyAll(z, t);
    t := GrowBusy(z, t);
    t := FinishAll(z, t);
  }

  // ---- A task left behind

  /** With a kill pending and everybody else asleep, a task's signal wakes a worker that exits. */
  lemma Strand(z: Sizes) returns (t: State)
    requires CanShrink(z)
    ensures Good(z, t) && Calm(t, {Asleep, Exiting}, 1) && t.manager == Polling && Asleep in t.workers
    ensures t.pool.threadBusy == 0 && t.pool.threadAlive >= 2 * z.min - 1
    ensures 2 * z.min >= 10 || 3 * z.min >= z.max ==> t.pool.threadAlive == 2 * z.min - 1
  {
    hide Good, Accounting;
    t := Balanced(z);
    t := PollToShrink(z, t, {Awake}, 0);
    t := Order(z, t, {Awake}, 0);
    t := SignalNobody(z, t, {Awake}, 0);
    WiderPhases(t, {Awake}, {Awake, Asleep}, 0);
    t := SleepAll(z, t);
    t := LastSignal(z, t);
  }

  lemma WiderPhases(s: State, phases: set<Worker>, more: set<Worker>, cur: nat)
    requires Calm(s, phases, cur) && phases <= more
    ensures Calm(s, more, cur)
  {
  }

  lemma LastSignal(z: Sizes, s: State) returns (t: State)
    requires Good(z, s) && Calm(s, {Asleep}, 0) && s.manager == Polling && s.pool.killno > 0
    requires s.pool.threadAlive >= 2 && s.pool.threadBusy == 0 && z.queMax > 0 && z.producers > 0
    ensures Good(z, t) && Calm(t, {Asleep, Exiting}, 1) && t.manager == Polling && Asleep in t.workers
    ensures t.pool.threadBusy == 0 && t.pool.threadAlive == s.pool.threadAlive - 1
  {
    hide Good;
    Facts(z, s);
    NoneElse(s, {Asleep}, 0);
    var phases := {Awake, Asleep, Exiting};
    t := AddTask(z, s, phases, Some(0));
    t := KillOne(z, t, phases, 0);
    Facts(z, t);
    assert t.workers == s.workers[0 := Exiting];
    assert |s.workers| >= 2 && t.workers[1] == Asleep by {
      CountBound(s.workers, Asleep);
    }
  }

  lemma {:induction false} CountBound<T>(s: seq<T>, x: T)
    ensures Count(s, x) <= |s|
  {
    if s != [] {
      CountBound(s[..|s| - 1], x);
    }
  }

  // ---- A pool without threads

  /** With a task queued, growth is answered by kills until a round of the manager creates no thread while
      `thread_min` kills are pending; the next orders are then given on an old snapshot. */
  lemma {:induction false} Drain(z: Sizes, s: State) returns (t: State)
    requires Good(z, s) && Calm(s, {Awake, Exiting}, 1) && s.manager == Polling && 1 <= z.min
    requires s.pool.threadAlive == 2 * z.min && s.pool.threadBusy == 0
    ensures Good(z, t) && Calm(t, {Awake, Exiting}, 1) && t.pool.threadAlive == 0 && t.pool.threadBusy == 0
    ensures !t.manager.Uncounted?
    decreases z.max - |s.workers|, if s.pool.killno == z.min then 0 else 1
  {
    hide Good, Calm;
    t := PollToShrink(z, s, {Awake, Exiting}, 1);
    var created := |t.workers| - |s.workers|;
    if created == 0 && s.pool.killno == z.min {
      t := KillMany(z, t, z.min);
      t := Order(z, t, {Awake, Exiting}, 1);
      t := KillMany(z, t, z.min);
    } else {
      t := Order(z, t, {Awake, Exiting}, 1);
      t := SignalNobody(z, t, {Awake, Exiting}, 1);
      t := KillMany(z, t, created);
      NoneElse(t, {Awake, Exiting}, 1);
      SlotsBound(z, t);
      t := Drain(z, t);
    }
  }

  lemma Empty(z: Sizes) returns (t: State)
    requires CanShrink(z)
    ensures Good(z, t) && Calm(t, {Exiting}, 1) && t.pool.threadAlive == 0
  {
    hide Good, Accounting;
    t := Balanced(z);
    NoneElse(t, {Awake}, 0);
    t := AddTask(z, t, {Awake}, None);
    WiderPhases(t, {Awake}, {Awake, Exiting}, 1);
    t := Drain(z, t);
    Facts(z, t);
    AwakeCount(z, t, {Awake, Exiting}, 1);
  }
}
