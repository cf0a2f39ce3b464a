/** The sequential manager of `Pool.ManagerRound` against the stepwise manager of the protocol. */
module PoolRefinement {
  import opened Wrappers
  import opened ThreadPool
  import opened Counting
  import opened PoolProtocol
  import opened PoolInvariants

  ghost predicate Leads(s: State, t: State) {
    WellFormed(s) && exists run: seq<Event> :: Exec(s, run) == Some(t)
  }

  lemma Stay(s: State)
    requires WellFormed(s)
    ensures Leads(s, s)
  {
    assert Exec(s, []) == Some(s);
  }

  lemma Manages(s: State, t: State) returns (u: State)
    requires Leads(s, t) && WellFormed(t) && Enabled(t, Manage)
    ensures Leads(s, u) && WellFormed(u) && u == NextManage(t)
  {
    hide NextManage, Enabled;
    var run :| Exec(s, run) == Some(t);
    ExecSnoc(s, run, Manage);
    u := Next(t, Manage);
  }

  /** The identifiers in the slots from `i` on that the liveness test does not find. */
  predicate FindsDead(s: State, i: nat, dead: set<Tid>) {
    forall k :: i <= k < |s.pool.tids| ==> (Reusable(s.pool.tids[k], dead) <==> s.pool.tids[k] == 0 || !Live(s, s.pool.tids[k]))
  }

  /** No slot holds an identifier that was never given out. */
  predicate Issued(s: State, i: nat) {
    forall k :: i <= k < |s.pool.tids| ==> s.pool.tids[k] <= |s.workers|
  }

  /** One thread created and counted. */
  function Grown(s: State): State
    requires s.manager.Growing? && 0 <= s.manager.i < |s.pool.tids|
  {
    s.(pool := CountThread(StoreTid(s.pool, s.manager.i, |s.workers| + 1)), workers := s.workers + [Awake],
       manager := Growing(s.manager.snap, s.manager.i + 1, s.manager.add + 1))
  }

  lemma GrownKeepsPicture(s: State, dead: set<Tid>)
    requires s.manager.Growing? && 0 <= s.manager.i < |s.pool.tids|
    requires FindsDead(s, s.manager.i, dead) && Issued(s, s.manager.i)
    ensures FindsDead(Grown(s), s.manager.i + 1, dead) && Issued(Grown(s), s.manager.i + 1)
  {
  }

  function WithAwake(ws: seq<Worker>, n: nat): seq<Worker> {
    ws + seq(n, _ => Awake)
  }

  lemma AwakeAdded(ws: seq<Worker>, n: nat)
    ensures WithAwake(ws, 0) == ws && WithAwake(ws + [Awake], n) == WithAwake(ws, n + 1)
    ensures |WithAwake(ws, n)| == |ws| + n && Count(WithAwake(ws, n), Asleep) == Count(ws, Asleep)
  {
    assert [Awake] + seq(n, _ => Awake) == seq(n + 1, _ => Awake);
    CountAdded(ws, seq(n, _ => Awake), Asleep);
    CountZero(seq(n, _ => Awake), Asleep);
  }

  lemma {:induction false} CountAdded<T>(a: seq<T>, b: seq<T>, x: T)
    ensures Count(a + b, x) == Count(a, x) + Count(b, x)
    decreases |b|
  {
    if b == [] {
      assert a + b == a;
    } else {
      assert (a + b)[..|a + b| - 1] == a + b[..|b| - 1];
      CountAdded(a, b[..|b| - 1], x);
    }
  }

  /** What the growth loop leaves. */
  predicate GrewTo(t: State, u: State, dead: set<Tid>)
    requires t.manager.Growing? && t.manager.i >= 0 && t.manager.add >= 0 && t.pool.threadMin >= 0 && |t.workers| + 1 >= t.manager.add
  {
    var (tids, n) := Fill(t.pool.tids, t.manager.i, t.manager.add, dead, t.pool.threadMin, |t.workers| + 1 - t.manager.add);
    && u.pool == t.pool.(tids := tids, threadAlive := t.pool.threadAlive + n - t.manager.add)
    && u.manager == Judging(t.manager.snap)
    && u.workers == WithAwake(t.workers, n - t.manager.add)
  }

  /** The protocol's growth, undisturbed, fills the slots as the sequential loop does. */
  lemma {:induction false} GrowIsARun(s: State, t: State, dead: set<Tid>) returns (u: State)
    requires Leads(s, t) && WellFormed(t) && t.manager.Growing?
    requires 0 <= t.manager.i <= t.pool.threadMax && 0 <= t.manager.add <= |t.workers| && t.pool.threadMin >= 0
    requires FindsDead(t, t.manager.i, dead) && Issued(t, t.manager.i)
    ensures Leads(s, u) && WellFormed(u) && GrewTo(t, u, dead)
    decreases t.pool.threadMax - t.manager.i
  {
    hide Leads, WithAwake;
    var i := t.manager.i;
    u := Manages(s, t);
    AwakeAdded(t.workers, 0);
    if i < t.pool.threadMax && t.manager.add < t.pool.threadMin {
      if t.pool.tids[i] == 0 || !Live(t, t.pool.tids[i]) {
        u := Manages(s, u);
        assert u == Grown(t);
        GrownKeepsPicture(t, dead);
      }
      var v := u;
      u := GrowIsARun(s, v, dead);
      AwakeAdded(t.workers, u.pool.threadAlive - v.pool.threadAlive);
    }
  }

  /** The identifiers of dead threads. */
  function Dead(s: State): set<Tid> {
    set t | t in s.pool.tids && !Live(s, t)
  }

  // ---- The signals

  /** One signal of the manager or of a producer wakes exactly one sleeper, if there is one, and nobody else; one signal
      of a worker does the same for the producers. */
  lemma SignalWakesOne(s: State, e: Event)
    requires WellFormed(s) && Enabled(s, e) && (e.ManagerSignal? || e.SignalEmpty?)
    ensures var t := Next(s, e);
            && t.pool == s.pool
            && (Asleep in s.workers ==> Count(t.workers, Asleep) == Count(s.workers, Asleep) - 1)
            && (Asleep in s.workers ==> Count(t.workers, Awake) == Count(s.workers, Awake) + 1)
            && (Asleep !in s.workers ==> t.workers == s.workers)
            && (forall x :: x != Asleep && x != Awake ==> Count(t.workers, x) == Count(s.workers, x))
  {
    SignalMoves(s.workers, Asleep, Awake, e.woken);
    CountZero(s.workers, Asleep);
  }

  lemma SignalFullWakesOne(s: State, w: nat, woken: Option<nat>)
    requires WellFormed(s) && Enabled(s, SignalFull(w, woken))
    ensures var t := Next(s, SignalFull(w, woken));
            && t.pool == s.pool && t.workers == s.workers[w := Running]
            && (AsleepFull in s.producers ==> Count(t.producers, AsleepFull) == Count(s.producers, AsleepFull) - 1)
            && (AsleepFull in s.producers ==> Count(t.producers, Adding) == Count(s.producers, Adding) + 1)
            && (AsleepFull !in s.producers ==> t.producers == s.producers)
  {
    SignalMoves(s.producers, AsleepFull, Adding, woken);
    CountZero(s.producers, AsleepFull);
  }

  /** All the manager's signals: they wake as many sleepers as there are, at most `left` of them. */
  lemma {:induction false} SignalsAreARun(s: State, t: State, left: nat) returns (u: State)
    requires Leads(s, t) && WellFormed(t) && t.manager.Waking? && t.manager.sent + left == t.pool.threadMin
    ensures Leads(s, u) && WellFormed(u) && u.manager == Polling && u.pool == t.pool && |u.workers| == |t.workers|
    ensures Count(u.workers, Asleep) == if Count(t.workers, Asleep) < left then 0 else Count(t.workers, Asleep) - left
    ensures Count(u.workers, Awake) + Count(u.workers, Asleep) == Count(t.workers, Awake) + Count(t.workers, Asleep)
    decreases left
  {
    hide Leads;
    if left == 0 {
      u := Manages(s, t);
    } else {
      CountZero(t.workers, Asleep);
      var woken: Option<nat> := None;
      if Count(t.workers, Asleep) > 0 {
        var w: nat :| w < |t.workers| && t.workers[w] == Asleep;
        woken := Some(w);
      }
      SignalWakesOne(t, ManagerSignal(woken));
      u := OneMore(s, t, ManagerSignal(woken));
      u := SignalsAreARun(s, u, left - 1);
    }
  }

  lemma OneMore(s: State, t: State, e: Event) returns (u: State)
    requires Leads(s, t) && WellFormed(t) && Enabled(t, e)
    ensures Leads(s, u) && WellFormed(u) && u == Next(t, e)
  {
    hide Next, Enabled;
    var run :| Exec(s, run) == Some(t);
    ExecSnoc(s, run, e);
    u := Next(t, e);
  }

  /** From the poll to the decision about shrinking. */
  lemma GrowthIsARun(s: State) returns (u: State)
    requires WellFormed(s) && Slots(s) && s.manager.Polling? && s.pool.threadMin >= 0
    ensures Leads(s, u) && WellFormed(u) && u.manager == Judging(TakeSnapshot(s.pool))
    ensures u.pool == Round(s.pool, Dead(s), |s.workers| + 1).(killno := s.pool.killno)
    ensures |u.workers| - |s.workers| == u.pool.threadAlive - s.pool.threadAlive
    ensures Count(u.workers, Asleep) == Count(s.workers, Asleep)
  {
    hide Leads, Fill;
    Stay(s);
    u := Manages(s, s);
    AwakeAdded(s.workers, 0);
    if WantsGrowth(TakeSnapshot(s.pool), s.pool.threadMin, s.pool.threadMax) {
      u := GrowIsARun(s, u, Dead(s));
      AwakeAdded(s.workers, u.pool.threadAlive - s.pool.threadAlive);
    }
  }

  /** From there to the next poll. */
  lemma ShrinkIsARun(s: State, t: State) returns (u: State)
    requires Leads(s, t) && WellFormed(t) && t.manager.Judging? && t.pool.threadMin >= 0
    ensures Leads(s, u) && u.manager == Polling && |u.workers| == |t.workers|
    ensures var shrink := WantsShrink(t.manager.snap, t.pool.threadMin);
            var woken := if shrink then t.pool.threadMin else 0;
            && u.pool == (if shrink then OrderKills(t.pool) else t.pool)
            && Count(u.workers, Asleep) == if Count(t.workers, Asleep) < woken then 0 else Count(t.workers, Asleep) - woken
  {
    hide Leads;
    u := Manages(s, t);
    if u.manager.Shrinking? {
      u := Manages(s, u);
      u := SignalsAreARun(s, u, t.pool.threadMin);
    }
  }

  /** From poll to poll the protocol's manager, when nothing else runs, does what the sequential round does. When it orders
      kills it wakes `threadMin` sleepers, or all if there are fewer. It creates threads in the cases, and only in those,
      that the program's test names, in slots that are empty or whose thread is gone. */
  lemma RoundIsARun(s: State) returns (u: State)
    requires WellFormed(s) && Slots(s) && s.manager.Polling? && s.pool.threadMin >= 0
    ensures Leads(s, u) && u.manager == Polling && u.pool == Round(s.pool, Dead(s), |s.workers| + 1)
    ensures var woken := if 2 * s.pool.threadBusy <= s.pool.threadAlive - s.pool.threadBusy
                          && s.pool.threadAlive - s.pool.threadBusy >= 2 * s.pool.threadMin then s.pool.threadMin else 0;
            Count(u.workers, Asleep) == if Count(s.workers, Asleep) < woken then 0 else Count(s.workers, Asleep) - woken
    ensures |u.workers| - |s.workers| == u.pool.threadAlive - s.pool.threadAlive
    ensures |u.workers| > |s.workers| <==>
              && ShouldGrow(s.pool.queueCur, s.pool.threadAlive, s.pool.threadBusy, s.pool.threadMin, s.pool.threadMax)
              && s.pool.threadMin >= 1
              && exists k :: 0 <= k < |s.pool.tids| && (s.pool.tids[k] == 0 || s.workers[s.pool.tids[k] - 1] == Gone)
  {
    hide Leads, Fill, FreeSlots, Slots, Dead;
    u := GrowthIsARun(s);
    u := ShrinkIsARun(s, u);
    RoundByFields(s.pool, Dead(s), |s.workers| + 1);
    FreeOrGone(s);
  }

  /** The slots that the liveness test lets the manager use. */
  lemma FreeOrGone(s: State)
    requires Slots(s)
    ensures (exists k :: 0 <= k < |s.pool.tids| && (s.pool.tids[k] == 0 || s.pool.tids[k] in Dead(s)))
       <==> (exists k :: 0 <= k < |s.pool.tids| && (s.pool.tids[k] == 0 || s.workers[s.pool.tids[k] - 1] == Gone))
  {
    forall k | 0 <= k < |s.pool.tids| && s.pool.tids[k] != 0
      ensures s.pool.tids[k] in Dead(s) <==> s.workers[s.pool.tids[k] - 1] == Gone
    {
      assert s.pool.tids[k] in s.pool.tids;
    }
  }
}
