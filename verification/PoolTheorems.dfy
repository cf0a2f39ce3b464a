/** What holds in every state that a run of the thread pool reaches. */
module PoolTheorems {
  import opened Wrappers
  import opened Counting
  import opened ThreadPool
  import opened PoolProtocol
  import opened PoolInvariants

  ghost predicate Inv(s: State) {
    WellFormed(s) && Counts(s) && Conserved(s) && Slots(s) && Budget(s)
  }

  ghost predicate Reachable(s: State) {
    exists max: nat, min: nat, queMax: nat, producers: nat, run: seq<Event> ::
      min <= max && Exec(Init(max, min, queMax, producers), run) == Some(s)
  }

  lemma StepKeepsInv(s: State, e: Event)
    requires Inv(s) && Enabled(s, e)
    ensures Inv(Next(s, e))
  {
    CountsKept(s, e);
    ConservedKept(s, e);
    SlotsKept(s, e);
    BudgetKept(s, e);
  }

  lemma {:induction false} RunKeepsInv(s: State, run: seq<Event>)
    requires Inv(s) && Exec(s, run).Some?
    ensures Inv(Exec(s, run).value)
    decreases |run|
  {
    if run != [] {
      StepKeepsInv(s, run[0]);
      RunKeepsInv(Next(s, run[0]), run[1..]);
    }
  }

  lemma {:induction false} CountSame<T>(s: seq<T>, v: T, x: T)
    requires forall i :: 0 <= i < |s| ==> s[i] == v
    ensures Count(s, x) == if x == v then |s| else 0
  {
    if s != [] {
      CountSame(s[..|s| - 1], v, x);
    }
  }

  lemma InitInv(max: nat, min: nat, queMax: nat, producers: nat)
    requires min <= max
    ensures Inv(Init(max, min, queMax, producers))
  {
    var s := Init(max, min, queMax, producers);
    forall x ensures Count(s.workers, x) == if x == Awake then min else 0 {
      CountSame(s.workers, Awake, x);
    }
    CountSame(s.producers, Outside, AsleepFull);
    assert Contents(s.pool) == [];
    assert Counts(s);
    assert Conserved(s);
    assert Budget(s);
    forall w | 0 <= w < |s.workers| && s.workers[w] != Gone ensures exists i: nat :: Owns(s, i, w) {
      assert Owns(s, w, w);
    }
  }

  /** All the invariants hold in every reachable state. */
  lemma ReachableInv(s: State)
    requires Reachable(s)
    ensures Inv(s)
  {
    var max: nat, min: nat, queMax: nat, producers: nat, run: seq<Event> :|
      min <= max && Exec(Init(max, min, queMax, producers), run) == Some(s);
    InitInv(max, min, queMax, producers);
    RunKeepsInv(Init(max, min, queMax, producers), run);
  }

  // ---- Ceiling

  /** The identifiers of the threads that still run. */
  function LiveTids(ws: seq<Worker>): set<Tid> {
    set w | 0 <= w < |ws| && ws[w] != Gone :: w + 1
  }

  lemma {:induction false} LiveTidsCounted(ws: seq<Worker>)
    ensures |LiveTids(ws)| + Count(ws, Gone) == |ws|
  {
    if ws == [] {
      assert LiveTids(ws) == {};
    } else {
      var n := |ws| - 1;
      LiveTidsCounted(ws[..n]);
      if ws[n] == Gone {
        assert LiveTids(ws) == LiveTids(ws[..n]);
      } else {
        assert LiveTids(ws) == LiveTids(ws[..n]) + {n + 1};
      }
    }
  }

  lemma {:induction false} PhasesPartition(ws: seq<Worker>)
    ensures Count(ws, Awake) + Count(ws, Asleep) + Count(ws, OweFull) + Count(ws, Running)
          + Count(ws, Exiting) + Count(ws, Gone) == |ws|
  {
    if ws != [] {
      var n := |ws| - 1;
      PhasesPartition(ws[..n]);
      forall x ensures Count(ws, x) == Count(ws[..n], x) + if ws[n] == x then 1 else 0 {
      }
    }
  }

  lemma {:induction false} FewValues<T>(s: seq<T>)
    ensures |set x | x in s| <= |s|
  {
    if s == [] {
      assert (set x | x in s) == {};
    } else {
      var n := |s| - 1;
      FewValues(s[..n]);
      assert s == s[..n] + [s[n]];
      assert (set x | x in s) == (set x | x in s[..n]) + {s[n]};
    }
  }

  lemma SubsetSize<T>(a: set<T>, b: set<T>)
    requires a <= b
    ensures |a| <= |b|
  {
    assert b == a + (b - a);
  }

  /** Threads that still run, including those already discounted, never exceed `thread_max`,
      and neither does `thread_alive`, although growth decides on an old snapshot. */
  lemma PoolCeiling(s: State)
    requires Reachable(s)
    ensures |LiveTids(s.workers)| <= s.pool.threadMax
    ensures s.pool.threadAlive + NotYetCounted(s) + Count(s.workers, Exiting) == |LiveTids(s.workers)|
    ensures s.pool.threadAlive <= s.pool.threadMax
    ensures 0 <= s.pool.threadBusy <= s.pool.threadAlive + NotYetCounted(s)
  {
    ReachableInv(s);
    LiveTidsCounted(s.workers);
    PhasesPartition(s.workers);
    var used := set t | t in s.pool.tids;
    forall t | t in LiveTids(s.workers) ensures t in used {
      var i: nat :| Owns(s, i, t - 1);
      assert s.pool.tids[i] == t;
    }
    SubsetSize(LiveTids(s.workers), used);
    FewValues(s.pool.tids);
  }

  /** A thread keeps its slot for as long as it runs, whatever the manager does meanwhile. */
  lemma {:induction false} SlotKeptWhileLive(s: State, run: seq<Event>, i: nat, w: nat)
    requires Inv(s) && Owns(s, i, w) && Exec(s, run).Some?
    ensures w < |Exec(s, run).value.workers|
    ensures Exec(s, run).value.workers[w] != Gone ==> Owns(Exec(s, run).value, i, w) && s.workers[w] != Gone
    decreases |run|
  {
    if run != [] {
      var s' := Next(s, run[0]);
      StepKeepsInv(s, run[0]);
      SlotsKept(s, run[0]);
      if s.workers[w] != Gone {
        SlotKeptWhileLive(s', run[1..], i, w);
      } else {
        GoneForGood(s, run, w);
      }
    }
  }

  lemma {:induction false} GoneForGood(s: State, run: seq<Event>, w: nat)
    requires WellFormed(s) && w < |s.workers| && s.workers[w] == Gone && Exec(s, run).Some?
    ensures w < |Exec(s, run).value.workers| && Exec(s, run).value.workers[w] == Gone
    decreases |run|
  {
    if run != [] {
      if run[0] != Manage {
        OthersKeepSlots(s, run[0]);
      }
      GoneForGood(Next(s, run[0]), run[1..], w);
    }
  }

  // ---- Kills

  /** `killno` stays between 0 and `thread_min`, and pending kills never exceed the threads left
      to take them, when SIGPIPE exits are added back. */
  lemma KillBudget(s: State)
    requires Reachable(s)
    ensures 0 <= s.pool.killno <= s.pool.threadMin
    ensures s.pool.killno <= s.pool.threadAlive + NotYetCounted(s) + s.history.pipes
    ensures s.history.cleanShrinks ==>
              s.pool.killno + s.pool.threadMin <= s.pool.threadAlive + NotYetCounted(s) + s.history.pipes
  {
    ReachableInv(s);
  }

  // ---- Rest

  /** No thread is about to look at the queue and no signal is owed, but some worker sleeps. */
  predicate AtRest(s: State) {
    && Count(s.workers, Asleep) > 0
    && Count(s.workers, Awake) == Count(s.workers, OweFull) == 0
    && Count(s.producers, Adding) == Count(s.producers, OweEmpty) == 0
  }

  /** A pool at rest holds at most one task for each kill exit so far. Without kill exits every
      task ever added has been taken, and no producer is stuck. */
  lemma NoDeadlock(s: State)
    requires Reachable(s) && AtRest(s)
    ensures s.pool.queueCur <= s.history.kills
    ensures s.history.kills == 0 ==> s.history.added == s.history.taken
    ensures s.history.kills < s.pool.queueMax ==> AsleepFull !in s.producers
  {
    ReachableInv(s);
    CountZero(s.producers, AsleepFull);
  }

  /** Tasks leave the pool in the order in which they entered it, and none is lost or repeated. */
  lemma TasksConserved(s: State)
    requires Reachable(s)
    ensures WellFormed(s) && s.history.added == s.history.taken + Contents(s.pool)
  {
    ReachableInv(s);
  }

  /** A worker asleep over a queued task means a signal is on its way, a worker is awake, or a kill used one up. */
  lemma WakeupOnItsWay(s: State)
    requires Reachable(s) && Asleep in s.workers && s.history.kills < s.pool.queueCur
    ensures OweEmpty in s.producers || Awake in s.workers
  {
    ReachableInv(s);
    CountZero(s.workers, Asleep);
    CountZero(s.workers, Awake);
    CountZero(s.producers, OweEmpty);
  }

  /** A producer asleep over a free place means a signal is on its way or a producer is awake. */
  lemma RoomOnItsWay(s: State)
    requires Reachable(s) && AsleepFull in s.producers && s.pool.queueCur < s.pool.queueMax
    ensures OweFull in s.workers || Adding in s.producers
  {
    ReachableInv(s);
    CountZero(s.producers, AsleepFull);
    CountZero(s.workers, OweFull);
    CountZero(s.producers, Adding);
  }
}
