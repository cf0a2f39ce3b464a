/** Runs that follow a wake-up to its end: what the sleeper does once it is awake, and where that leaves the pool. */
module PoolWakeups {
  import opened Wrappers
  import opened Counting
  import opened ThreadPool
  import opened PoolProtocol

  // ---- Ordered kills are taken

  function Signals(names: seq<nat>): seq<Event> {
    if names == [] then [] else [ManagerSignal(Some(names[0]))] + Signals(names[1..])
  }

  function Sections(names: seq<nat>): seq<Event> {
    if names == [] then [] else [WorkSection(names[0])] + Sections(names[1..])
  }

  predicate Distinct(names: seq<nat>) {
    forall i, j :: 0 <= i < j < |names| ==> names[i] != names[j]
  }

  predicate AllIn(s: State, names: seq<nat>, phase: Worker) {
    forall i :: 0 <= i < |names| ==> names[i] < |s.workers| && s.workers[names[i]] == phase
  }

  /** The named workers changed phase, and no other. */
  predicate Moved(s: State, t: State, names: seq<nat>, phase: Worker) {
    && |t.workers| == |s.workers|
    && forall w: nat :: w < |s.workers| ==> t.workers[w] == if w in names then phase else s.workers[w]
  }

  lemma MovedFirst(s: State, t: State, u: State, names: seq<nat>, phase: Worker)
    requires names != [] && Moved(s, t, [names[0]], phase) && Moved(t, u, names[1..], phase)
    ensures Moved(s, u, names, phase)
  {
    forall w: nat | w < |s.workers| ensures u.workers[w] == if w in names then phase else s.workers[w] {
      assert names == [names[0]] + names[1..];
    }
  }

  lemma StaysPut(s: State, phase: Worker)
    ensures Moved(s, s, [], phase)
  {
  }

  lemma SignalsFirst(s: State, names: seq<nat>)
    requires WellFormed(s) && s.manager.Waking? && s.manager.sent + |names| <= s.pool.threadMin
    requires names != [] && Distinct(names) && AllIn(s, names, Asleep)
    ensures var e := ManagerSignal(Some(names[0]));
            && Enabled(s, e) && Moved(s, Next(s, e), [names[0]], Awake) && AllIn(Next(s, e), names[1..], Asleep)
            && Next(s, e) == s.(workers := Next(s, e).workers, manager := Waking(s.manager.sent + 1))
  {
  }

  lemma ExitsFirst(s: State, names: seq<nat>)
    requires WellFormed(s) && names != [] && Distinct(names) && AllIn(s, names, Awake)
    requires s.pool.queueCur > 0 && s.pool.killno >= |names|
    ensures var e := WorkSection(names[0]);
            && Enabled(s, e) && Moved(s, Next(s, e), [names[0]], Exiting) && AllIn(Next(s, e), names[1..], Awake)
            && Next(s, e) == s.(workers := Next(s, e).workers,
                                pool := s.pool.(killno := s.pool.killno - 1, threadAlive := s.pool.threadAlive - 1),
                                history := s.history.(kills := s.history.kills + 1))
  {
  }

  lemma {:induction false} SignalsWake(s: State, names: seq<nat>) returns (t: State)
    requires WellFormed(s) && s.manager.Waking? && s.manager.sent + |names| <= s.pool.threadMin
    requires Distinct(names) && AllIn(s, names, Asleep)
    ensures Exec(s, Signals(names)) == Some(t) && Moved(s, t, names, Awake)
    ensures t == s.(workers := t.workers, manager := Waking(s.manager.sent + |names|))
    decreases |names|
  {
    hide Next, Moved;
    t := s;
    StaysPut(s, Awake);
    if names != [] {
      SignalsFirst(s, names);
      var e := ManagerSignal(Some(names[0]));
      var s' := Next(s, e);
      t := SignalsWake(s', names[1..]);
      MovedFirst(s, s', t, names, Awake);
      assert Signals(names)[1..] == Signals(names[1..]);
    }
  }

  lemma {:induction false} SectionsExit(s: State, names: seq<nat>) returns (t: State)
    requires WellFormed(s) && Distinct(names) && AllIn(s, names, Awake)
    requires s.pool.queueCur > 0 && s.pool.killno >= |names|
    ensures Exec(s, Sections(names)) == Some(t) && Moved(s, t, names, Exiting)
    ensures t == s.(workers := t.workers,
                    pool := s.pool.(killno := s.pool.killno - |names|, threadAlive := s.pool.threadAlive - |names|),
                    history := s.history.(kills := s.history.kills + |names|))
    decreases |names|
  {
    hide Next, Moved;
    t := s;
    StaysPut(s, Exiting);
    if names != [] {
      ExitsFirst(s, names);
      var e := WorkSection(names[0]);
      var s' := Next(s, e);
      t := SectionsExit(s', names[1..]);
      MovedFirst(s, s', t, names, Exiting);
      assert Sections(names)[1..] == Sections(names[1..]);
    }
  }

  lemma {:induction false} ExecTwo(s: State, a: seq<Event>, b: seq<Event>)
    requires WellFormed(s) && Exec(s, a).Some?
    ensures Exec(s, a + b) == Exec(Exec(s, a).value, b)
    decreases |a|
  {
    hide Next, Enabled;
    if a == [] {
      assert a + b == b;
    } else {
      ExecTwo(Next(s, a[0]), a[1..], b);
      assert (a + b)[1..] == a[1..] + b;
    }
  }

  /** The manager's signals wake the sleepers that they find, and these take every kill that was ordered, without any
      other wake-up. The queued tasks stay as they are. */
  lemma OrderedKillsAreTaken(s: State, names: seq<nat>)
    requires WellFormed(s) && s.manager == Waking(0) && s.pool.killno == s.pool.threadMin == |names|
    requires Distinct(names) && AllIn(s, names, Asleep) && s.pool.queueCur > 0
    ensures var r := Exec(s, Signals(names) + Sections(names));
            && r.Some? && r.value.pool.killno == 0 && Contents(r.value.pool) == Contents(s.pool)
            && r.value.pool == s.pool.(killno := 0, threadAlive := s.pool.threadAlive - s.pool.threadMin)
            && r.value.history.kills == s.history.kills + s.pool.threadMin && Moved(s, r.value, names, Exiting)
  {
    var t := SignalsWake(s, names);
    var u := SectionsExit(t, names);
    ExecTwo(s, Signals(names), Sections(names));
    forall w: nat | w < |s.workers| ensures u.workers[w] == if w in names then Exiting else s.workers[w] {
    }
  }

  /** Where enough workers sleep there are sleepers to name. */
  lemma {:induction false} Sleepers(ws: seq<Worker>, n: nat) returns (names: seq<nat>)
    requires Count(ws, Asleep) >= n
    ensures |names| == n && Distinct(names)
    ensures forall i :: 0 <= i < n ==> names[i] < |ws| && ws[names[i]] == Asleep
  {
    names := [];
    if n > 0 {
      var m := |ws| - 1;
      names := Sleepers(ws[..m], if ws[m] == Asleep then n - 1 else n);
      if ws[m] == Asleep {
        names := names + [m];
      }
    }
  }

  /** A shrink that is ordered while `threadMin` workers sleep and a task is queued can be carried out to the last kill. */
  lemma ShrinkCompletes(s: State)
    requires WellFormed(s) && s.manager == Waking(0) && s.pool.killno == s.pool.threadMin
    requires Count(s.workers, Asleep) >= s.pool.threadMin >= 0 && s.pool.queueCur > 0
    ensures exists names :: |names| == s.pool.threadMin && Exec(s, Signals(names) + Sections(names)).Some?
                         && Exec(s, Signals(names) + Sections(names)).value.pool.killno == 0
                         && Contents(Exec(s, Signals(names) + Sections(names)).value.pool) == Contents(s.pool)
  {
    var names := Sleepers(s.workers, s.pool.threadMin);
    OrderedKillsAreTaken(s, names);
  }

  /** How many signals of the manager a run contains. */
  function SignalsIn(run: seq<Event>): nat {
    if run == [] then 0 else (if run[0].ManagerSignal? then 1 else 0) + SignalsIn(run[1..])
  }

  /** Whatever happens between two events of its own, the manager only goes on after exactly `threadMin` signals. */
  lemma {:induction false} ManagerSendsAllSignals(s: State, run: seq<Event>)
    requires WellFormed(s) && s.manager.Waking? && s.manager.sent <= s.pool.threadMin && Exec(s, run).Some?
    requires forall k :: 0 <= k < |run| ==> run[k] != Manage
    ensures Exec(s, run).value.manager == Waking(s.manager.sent + SignalsIn(run))
    ensures Enabled(Exec(s, run).value, Manage) <==> s.manager.sent + SignalsIn(run) == s.pool.threadMin
    decreases |run|
  {
    if run != [] {
      OtherStepsKeepManager(s, run[0]);
      hide Next;
      ManagerSendsAllSignals(Next(s, run[0]), run[1..]);
    }
  }

  lemma OtherStepsKeepManager(s: State, e: Event)
    requires WellFormed(s) && s.manager.Waking? && Enabled(s, e) && e != Manage
    ensures Next(s, e).manager == (if e.ManagerSignal? then Waking(s.manager.sent + 1) else s.manager)
    ensures Next(s, e).pool.threadMin == s.pool.threadMin && (e.ManagerSignal? ==> s.manager.sent < s.pool.threadMin)
  {
  }

  // ---- A task from its caller to its end

  /** One more event on the way from `s` along `run` to `t`. */
  lemma Extend(s: State, run: seq<Event>, t: State, e: Event) returns (longer: seq<Event>, u: State)
    requires WellFormed(s) && Exec(s, run) == Some(t) && Enabled(t, e)
    ensures longer == run + [e] && u == Next(t, e) && Exec(s, longer) == Some(u)
  {
    hide Next, Enabled;
    ExecSnoc(s, run, e);
    longer, u := run + [e], Next(t, e);
  }

  lemma Begin(s: State)
    requires WellFormed(s)
    ensures Exec(s, []) == Some(s)
  {
  }

  /** A task offered to a pool at rest goes to the worker that its signal wakes. */
  lemma TaskIsTaken(s: State, p: nat, task: Task, w: nat)
    requires WellFormed(s) && s.pool.queueCur == 0 && s.pool.queueMax > 0 && s.pool.killno == 0
    requires p < |s.producers| && s.producers[p] == Outside && AsleepFull !in s.producers
    requires w < |s.workers| && s.workers[w] == Asleep
    ensures var r := Exec(s, [CallAdd(p, task), AddSection(p), SignalEmpty(p, Some(w)), WorkSection(w), SignalFull(w, None)]);
            && r.Some? && r.value.workers == s.workers[w := Running] && r.value.producers == s.producers
            && r.value.manager == s.manager
            && r.value.history == s.history.(added := s.history.added + [task], taken := s.history.taken + [task])
            && r.value.pool.queueCur == 0 && r.value.pool.threadBusy == s.pool.threadBusy + 1
            && r.value.pool.threadAlive == s.pool.threadAlive && r.value.pool.killno == 0 && r.value.pool.tids == s.pool.tids
  {
    Begin(s);
    hide Exec;
    var run, t := Extend(s, [], s, CallAdd(p, task));
    run, t := Extend(s, run, t, AddSection(p));
    run, t := Extend(s, run, t, SignalEmpty(p, Some(w)));
    run, t := Extend(s, run, t, WorkSection(w));
    run, t := Extend(s, run, t, SignalFull(w, None));
    assert run == [CallAdd(p, task), AddSection(p), SignalEmpty(p, Some(w)), WorkSection(w), SignalFull(w, None)];
    assert t.workers == s.workers[w := Running] && t.producers == s.producers;
  }

  /** The worker then runs the task and sleeps again: every thread is in the phase in which it was, and the task has
      been added and taken. */
  lemma TaskIsServed(s: State, p: nat, task: Task, w: nat)
    requires WellFormed(s) && s.pool.queueCur == 0 && s.pool.queueMax > 0 && s.pool.killno == 0
    requires p < |s.producers| && s.producers[p] == Outside && AsleepFull !in s.producers
    requires w < |s.workers| && s.workers[w] == Asleep
    ensures var r := Exec(s, [CallAdd(p, task), AddSection(p), SignalEmpty(p, Some(w)), WorkSection(w), SignalFull(w, None),
                              JobSection(w), WorkSection(w)]);
            && r.Some? && r.value.workers == s.workers && r.value.producers == s.producers && r.value.manager == s.manager
            && r.value.history == s.history.(added := s.history.added + [task], taken := s.history.taken + [task])
            && r.value.pool.queueCur == 0 && r.value.pool.threadBusy == s.pool.threadBusy
            && r.value.pool.threadAlive == s.pool.threadAlive && r.value.pool.killno == 0 && r.value.pool.tids == s.pool.tids
  {
    TaskIsTaken(s, p, task, w);
    hide Exec;
    var run := [CallAdd(p, task), AddSection(p), SignalEmpty(p, Some(w)), WorkSection(w), SignalFull(w, None)];
    var t := Exec(s, run).value;
    run, t := Extend(s, run, t, JobSection(w));
    run, t := Extend(s, run, t, WorkSection(w));
    assert run == [CallAdd(p, task), AddSection(p), SignalEmpty(p, Some(w)), WorkSection(w), SignalFull(w, None), JobSection(w), WorkSection(w)];
    assert t.workers == s.workers;
  }

  /** A producer that finds the ring full sleeps until a worker has taken a task and signals, and then adds its own. */
  lemma FullRingIsServed(s: State, p: nat, w: nat)
    requires WellFormed(s) && s.pool.queueCur == s.pool.queueMax > 0 && s.pool.killno == 0
    requires p < |s.producers| && s.producers[p] == Adding && w < |s.workers| && s.workers[w] == Awake
    ensures Exec(s, [AddSection(p)]) == Some(s.(producers := s.producers[p := AsleepFull]))
    ensures var r := Exec(s, [AddSection(p), WorkSection(w), SignalFull(w, Some(p)), AddSection(p)]);
            && r.Some? && Contents(r.value.pool) == Contents(s.pool)[1..] + [s.pending[p]]
            && r.value.producers == s.producers[p := OweEmpty] && r.value.workers == s.workers[w := Running]
  {
    Begin(s);
    hide Exec, Contents;
    var run, t := Extend(s, [], s, AddSection(p));
    assert run == [AddSection(p)];
    TakeIsDequeue(t.pool);
    run, t := Extend(s, run, t, WorkSection(w));
    run, t := Extend(s, run, t, SignalFull(w, Some(p)));
    AddIsEnqueue(t.pool, t.pending[p]);
    run, t := Extend(s, run, t, AddSection(p));
    assert run == [AddSection(p), WorkSection(w), SignalFull(w, Some(p)), AddSection(p)];
    assert t.producers == s.producers[p := OweEmpty] && t.workers == s.workers[w := Running];
  }

  /** A wake-up without a cause changes nothing: the sleeper looks at the queue and sleeps again. */
  lemma SpuriousWakeupsAreHarmless(s: State, p: nat, w: nat)
    requires WellFormed(s)
    ensures p < |s.producers| && s.producers[p] == AsleepFull && s.pool.queueCur == s.pool.queueMax ==>
              Exec(s, [SpuriousFull(p), AddSection(p)]) == Some(s)
    ensures w < |s.workers| && s.workers[w] == Asleep && s.pool.queueCur == 0 ==>
              Exec(s, [SpuriousEmpty(w), WorkSection(w)]) == Some(s)
  {
    Begin(s);
    hide Exec;
    if p < |s.producers| && s.producers[p] == AsleepFull && s.pool.queueCur == s.pool.queueMax {
      var run, t := Extend(s, [], s, SpuriousFull(p));
      run, t := Extend(s, run, t, AddSection(p));
      assert run == [SpuriousFull(p), AddSection(p)] && t.producers == s.producers;
    }
    if w < |s.workers| && s.workers[w] == Asleep && s.pool.queueCur == 0 {
      var run, t := Extend(s, [], s, SpuriousEmpty(w));
      run, t := Extend(s, run, t, WorkSection(w));
      assert run == [SpuriousEmpty(w), WorkSection(w)] && t.workers == s.workers;
    }
  }

  /** A worker that SIGPIPE hits in its job is discounted, as alive and as busy, and then dies. */
  lemma PipeEndsWorker(s: State, w: nat)
    requires WellFormed(s) && w < |s.workers| && s.workers[w] == Running
    ensures var r := Exec(s, [PipeSection(w), Die(w)]);
            && r.Some? && r.value.workers == s.workers[w := Gone]
            && r.value.pool == s.pool.(threadAlive := s.pool.threadAlive - 1, threadBusy := s.pool.threadBusy - 1)
            && r.value.history == s.history.(pipes := s.history.pipes + 1)
  {
    Begin(s);
    hide Exec;
    var run, t := Extend(s, [], s, PipeSection(w));
    run, t := Extend(s, run, t, Die(w));
    assert run == [PipeSection(w), Die(w)] && t.workers == s.workers[w := Gone];
  }
}
