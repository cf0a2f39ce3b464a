/**
 Two things a thread pool should not do and can: rest over a queued task, and
 kill its last thread without any SIGPIPE. For each, the sizes of pool, queue
 and set of callers at which some run does it.
 */
module PoolFailures {
  import opened Wrappers
  import opened Counting
  import opened ThreadPool
  import opened PoolProtocol
  import opened PoolInvariants
  import opened PoolTheorems
  import opened PoolSchedules

  // ---- Why other sizes are safe

  /** A pool that cannot grow past twice `thread_min` never has so many threads, and so orders no kill. */
  predicate Small(s: State) {
    var p := s.pool;
    && p.killno == 0 && s.history.kills == 0 && p.threadMax <= 2 * p.threadMin
    && p.threadAlive < 2 * p.threadMin
    && match s.manager
       case Polling => true
       case Growing(snap, _, add) => GrowthFits(s, snap, add) && add <= p.threadMin
       case Uncounted(snap, _, add) => GrowthFits(s, snap, add) && add < p.threadMin
       case Judging(snap) => snap.alive < 2 * p.threadMin && snap.busy >= 0
       case _ => false
  }

  predicate GrowthFits(s: State, snap: Snapshot, add: int) {
    snap.busy >= 0 && snap.alive + s.pool.threadMin < s.pool.threadMax && s.pool.threadAlive <= snap.alive + add
  }

  lemma SmallKept(s: State, e: Event)
    requires WellFormed(s) && Enabled(s, e) && Accounting(s) && Small(s)
    ensures Small(Next(s, e))
  {
    if e == Manage {
      SmallManages(s);
    } else {
      var s' := Next(s, e);
      assert s'.manager == s.manager && s'.pool.threadAlive <= s.pool.threadAlive;
    }
  }

  lemma SmallManages(s: State)
    requires WellFormed(s) && Enabled(s, Manage) && Accounting(s) && Small(s)
    ensures Small(NextManage(s))
  {
  }

  /** Without places or without callers nothing is ever queued, and no worker gets past the empty queue. */
  predicate Idle(s: State) {
    s.pool.queueCur == 0 && (s.pool.queueMax == 0 || s.producers == []) && s.history.kills == 0
  }

  lemma IdleKept(s: State, e: Event)
    requires WellFormed(s) && Enabled(s, e) && Idle(s)
    ensures Idle(Next(s, e))
  {
  }

  /** A pool with a `thread_min` of zero never creates a thread. */
  predicate Unmanned(s: State) {
    s.workers == [] && s.pool.threadMin == 0 && (s.manager.Growing? ==> s.manager.add >= 0) && !s.manager.Uncounted?
  }

  lemma UnmannedKept(s: State, e: Event)
    requires WellFormed(s) && Enabled(s, e) && Unmanned(s)
    ensures Unmanned(Next(s, e))
  {
  }

  /** Threads are only lost to kills and to SIGPIPE. */
  predicate Staffed(s: State) {
    s.pool.threadAlive + s.history.kills + s.history.pipes >= s.pool.threadMin
  }

  lemma StaffedKept(s: State, e: Event)
    requires WellFormed(s) && Enabled(s, e) && Staffed(s)
    ensures Staffed(Next(s, e))
  {
  }

  predicate Harmless(s: State) {
    (Small(s) || Idle(s) || Unmanned(s)) && Staffed(s)
  }

  lemma {:induction false} HarmlessRun(s: State, run: seq<Event>)
    requires Inv(s) && Harmless(s) && Exec(s, run).Some?
    ensures Harmless(Exec(s, run).value)
    decreases |run|
  {
    hide Next, Enabled, Small, Idle, Unmanned, Staffed;
    if run != [] {
      StepKeepsInv(s, run[0]);
      StaffedKept(s, run[0]);
      if Small(s) {
        SmallKept(s, run[0]);
      } else if Idle(s) {
        IdleKept(s, run[0]);
      } else {
        UnmannedKept(s, run[0]);
      }
      HarmlessRun(Next(s, run[0]), run[1..]);
    }
  }

  lemma OtherSizesHarmless(z: Sizes, s: State)
    requires ReachedBy(z, s) && !CanShrink(z)
    ensures Harmless(s)
  {
    var init := Init(z.max, z.min, z.queMax, z.producers);
    var run :| Exec(init, run) == Some(s);
    InitInv(z.max, z.min, z.queMax, z.producers);
    HarmlessRun(init, run);
  }

  // ---- A task left behind

  predicate LeavesTask(s: State) {
    AtRest(s) && s.pool.queueCur > 0
  }

  lemma NobodyElse(z: Sizes, s: State)
    requires Good(z, s) && Calm(s, {Asleep, Exiting}, 1) && Asleep in s.workers
    ensures LeavesTask(s)
  {
    hide Good;
    Facts(z, s);
    CountZero(s.producers, Adding);
    CountZero(s.producers, OweEmpty);
  }

  /** A pool can come to rest over a queued task exactly when it may grow past twice its minimum, the minimum
      is not zero, its queue has a place, and somebody adds tasks. */
  lemma LeavesTaskIff(z: Sizes)
    requires z.min <= z.max
    ensures (exists s :: ReachedBy(z, s) && LeavesTask(s)) <==> CanShrink(z)
  {
    if CanShrink(z) {
      var t := Strand(z);
      NobodyElse(z, t);
      assert ReachedBy(z, t) && LeavesTask(t);
    } else {
      forall s | ReachedBy(z, s) ensures !LeavesTask(s) {
        NeverLeavesTask(z, s);
      }
    }
  }

  lemma NeverLeavesTask(z: Sizes, s: State)
    requires ReachedBy(z, s) && !CanShrink(z)
    ensures !LeavesTask(s)
  {
    hide ReachedBy;
    OtherSizesHarmless(z, s);
    if LeavesTask(s) {
      ReachedIsGood(z, s);
      ReachedIsReachable(z, s);
      NoDeadlock(s);
      CountZero(s.workers, Asleep);
    }
  }

  // ---- A task left behind for good

  /** At rest over a task, and the manager neither grows nor shrinks the pool. */
  predicate Stranded(s: State) {
    && s.pool.queueCur > 0 && Asleep in s.workers
    && (forall w :: 0 <= w < |s.workers| ==> s.workers[w] in {Asleep, Exiting, Gone})
    && (forall p :: 0 <= p < |s.producers| ==> s.producers[p] in {Outside, AsleepFull})
    && (s.manager == Polling || s.manager == Judging(TakeSnapshot(s.pool)))
    && !WantsGrowth(TakeSnapshot(s.pool), s.pool.threadMin, s.pool.threadMax)
    && !WantsShrink(TakeSnapshot(s.pool), s.pool.threadMin)
  }

  /** A new task, or a wake-up that no signal caused. */
  predicate FromOutside(e: Event) {
    e.CallAdd? || e.SpuriousFull? || e.SpuriousEmpty?
  }

  lemma StrandedStep(s: State, e: Event)
    requires WellFormed(s) && Enabled(s, e) && Stranded(s) && !FromOutside(e)
    ensures Stranded(Next(s, e)) && Next(s, e).pool == s.pool
  {
    if e.Die? {
      var k :| 0 <= k < |s.workers| && s.workers[k] == Asleep;
      assert Next(s, e).workers[k] == Asleep;
    }
  }

  /** However long the pool runs on, its rounds of the manager included, that task stays where it is. */
  lemma {:induction false} StrandedForGood(s: State, run: seq<Event>)
    requires WellFormed(s) && Stranded(s) && Exec(s, run).Some?
    requires forall k :: 0 <= k < |run| ==> !FromOutside(run[k])
    ensures Stranded(Exec(s, run).value) && Exec(s, run).value.pool == s.pool
    decreases |run|
  {
    hide Next, Enabled, Stranded;
    if run != [] {
      StrandedStep(s, run[0]);
      StrandedForGood(Next(s, run[0]), run[1..]);
    }
  }

  /** The sizes at which the manager's next round does not come to the rescue. */
  predicate CanStrand(z: Sizes) {
    CanShrink(z) && (z.min >= 6 || z.max < 3 * z.min)
  }

  lemma StrandedSizes(z: Sizes, s: State)
    requires ReachedBy(z, s) && Stranded(s)
    ensures CanStrand(z)
  {
    hide ReachedBy;
    ReachedIsGood(z, s);
    Facts(z, s);
    CountZero(s.producers, Adding);
    CountZero(s.producers, OweEmpty);
    if !CanShrink(z) {
      NeverLeavesTask(z, s);
    }
  }

  lemma StrandIsForGood(z: Sizes) returns (t: State)
    requires CanStrand(z)
    ensures ReachedBy(z, t) && Stranded(t)
  {
    t := Strand(z);
    Facts(z, t);
  }

  /** A pool can be left with a task that only a new task can free exactly when, besides, it starts with at
      least six threads or has no room for three times its minimum. */
  lemma StrandedIff(z: Sizes)
    requires z.min <= z.max
    ensures (exists s :: ReachedBy(z, s) && Stranded(s)) <==> CanStrand(z)
  {
    hide ReachedBy, Stranded;
    if CanStrand(z) {
      var t := StrandIsForGood(z);
    }
    forall s | ReachedBy(z, s) && Stranded(s) ensures CanStrand(z) {
      StrandedSizes(z, s);
    }
  }

  // ---- A pool without threads

  predicate Deserted(s: State) {
    s.pool.threadAlive == 0 && s.history.pipes == 0
  }

  /** A pool can lose its last thread to kills exactly at the sizes at which it can leave a task behind;
      it then does so with a task in the queue. */
  lemma DesertedIff(z: Sizes)
    requires 1 <= z.min <= z.max
    ensures (exists s :: ReachedBy(z, s) && Deserted(s)) <==> CanShrink(z)
    ensures CanShrink(z) ==> exists s :: ReachedBy(z, s) && Deserted(s) && s.pool.queueCur == 1
  {
    if CanShrink(z) {
      var t := Empty(z);
      assert ReachedBy(z, t) && Deserted(t) && t.pool.queueCur == 1;
    }
    forall s | ReachedBy(z, s) && Deserted(s) ensures CanShrink(z) {
      if !CanShrink(z) {
        NeverDeserted(z, s);
      }
    }
  }

  lemma NeverDeserted(z: Sizes, s: State)
    requires ReachedBy(z, s) && !CanShrink(z) && 1 <= z.min
    ensures !Deserted(s)
  {
    hide ReachedBy;
    OtherSizesHarmless(z, s);
    ReachedIsGood(z, s);
  }

  // ---- The step that decides

  /** A task offered to an empty queue, whose signal wakes a sleeper that is the first to look: it is
      still queued afterwards exactly when a kill was pending before the call. */
  lemma WakeupSpentOnKill(s: State, p: nat, task: Task, w: nat)
    requires WellFormed(s) && s.pool.queueCur == 0 && s.pool.queueMax > 0
    requires p < |s.producers| && s.producers[p] == Outside && w < |s.workers| && s.workers[w] == Asleep
    ensures var r := Exec(s, [CallAdd(p, task), AddSection(p), SignalEmpty(p, Some(w)), WorkSection(w)]);
            && r.Some?
            && (task in Contents(r.value.pool) <==> s.pool.killno > 0)
            && Contents(r.value.pool) == if s.pool.killno > 0 then [task] else []
  {
    var s1 := Next(s, CallAdd(p, task));
    var s2 := Next(s1, AddSection(p));
    var s3 := Next(s2, SignalEmpty(p, Some(w)));
    var s4 := Next(s3, WorkSection(w));
    AddIsEnqueue(s1.pool, task);
    TakeIsDequeue(s3.pool);
    FourSteps(s, CallAdd(p, task), AddSection(p), SignalEmpty(p, Some(w)), WorkSection(w));
  }

  lemma FourSteps(s: State, a: Event, b: Event, c: Event, d: Event)
    requires WellFormed(s) && Enabled(s, a) && Enabled(Next(s, a), b)
    requires Enabled(Next(Next(s, a), b), c) && Enabled(Next(Next(Next(s, a), b), c), d)
    ensures Exec(s, [a, b, c, d]) == Some(Next(Next(Next(Next(s, a), b), c), d))
  {
    hide Next, Enabled;
    assert Exec(s, []) == Some(s);
    ExecSnoc(s, [], a);
    ExecSnoc(s, [a], b);
    ExecSnoc(s, [a, b], c);
    ExecSnoc(s, [a, b, c], d);
    assert [] + [a] == [a] && [a] + [b] == [a, b] && [a, b] + [c] == [a, b, c] && [a, b, c] + [d] == [a, b, c, d];
  }

  /** The pool that `main` creates: 10 to 1000 threads, 1000 places. */
  lemma MainPoolFails(producers: nat)
    requires producers >= 1
    ensures exists s :: ReachedBy(Sizes(1000, 10, 1000, producers), s) && Stranded(s)
    ensures exists s :: ReachedBy(Sizes(1000, 10, 1000, producers), s) && Deserted(s)
  {
    hide ReachedBy, Stranded, Deserted;
    StrandedIff(Sizes(1000, 10, 1000, producers));
    DesertedIff(Sizes(1000, 10, 1000, producers));
  }
}
