/**
 The shared part of the thread pool: the counters, the ring buffer and the
 slot table that src/thread_pool.c guards with one mutex.

 Every lock-protected section is a function from pool values to pool values.
 Class `Pool` performs the same sections in place, and each of its methods is
 proved to compute that function.
 */
module ThreadPool {
  import opened Wrappers
  import opened Cyclic

  /** A job and its argument, both opaque addresses. */
  datatype Task = Task(job: nat, arg: nat)

  /** A thread identifier; 0 marks a slot that never held a thread. */
  type Tid = nat

  datatype PoolValue = PoolValue(
    threadMax: int, threadMin: int, threadAlive: int, threadBusy: int,
    queueMax: int, queueCur: int, killno: int, queueFront: int, queueRear: int,
    tids: seq<Tid>, queueTask: seq<Task>)

  /** The ring buffer's shape: `queueFront` is `queueCur` places after `queueRear`. */
  predicate RingOk(p: PoolValue) {
    && |p.queueTask| == p.queueMax
    && |p.tids| == p.threadMax
    && 0 <= p.queueCur <= p.queueMax
    && (p.queueMax == 0 ==> p.queueFront == p.queueRear == 0)
    && (p.queueMax > 0 ==> 0 <= p.queueRear < p.queueMax && p.queueFront == Place(p.queueRear + p.queueCur, p.queueMax))
  }

  /** The queued tasks, oldest first. */
  function Contents(p: PoolValue): (q: seq<Task>)
    requires RingOk(p)
  {
    seq(p.queueCur, k requires 0 <= k < p.queueCur => p.queueTask[Place(p.queueRear + k, p.queueMax)])
  }

  /** The pool right after `thread_pool_create`, with `threadMin` threads in the first slots. */
  function Created(max: nat, min: nat, queMax: nat): (p: PoolValue)
    requires min <= max
    ensures RingOk(p)
  {
    PoolValue(max, min, min, 0, queMax, 0, 0, 0, 0,
              seq(max, i requires 0 <= i < max => if i < min then i + 1 else 0),
              seq(queMax, _ => Task(0, 0)))
  }

  // ---- thread_task_add

  /** One pass of a producer through the lock: `None` means it must wait on `full`. */
  function TryAdd(p: PoolValue, task: Task): (r: Option<PoolValue>)
    requires RingOk(p)
    ensures r.Some? ==> RingOk(r.value)
  {
    if p.queueCur == p.queueMax then None
    else
      Some(p.(queueTask := p.queueTask[p.queueFront := task],
              queueFront := Place(p.queueFront + 1, p.queueMax),
              queueCur := p.queueCur + 1))
  }

  // ---- thread_worker_func

  /** What one pass of a worker through the lock ends in. */
  datatype Turn = Wait | Exit(pool: PoolValue) | Take(pool: PoolValue, task: Task)

  function WorkerTurn(p: PoolValue): (t: Turn)
    requires RingOk(p)
    ensures !t.Wait? ==> RingOk(t.pool)
  {
    if p.queueCur == 0 then Wait
    else if p.killno > 0 then
      Exit(p.(killno := p.killno - 1, threadAlive := p.threadAlive - 1))
    else
      Take(p.(threadBusy := p.threadBusy + 1,
              queueCur := p.queueCur - 1,
              queueRear := Place(p.queueRear + 1, p.queueMax)),
           p.queueTask[p.queueRear])
  }

  function JobDone(p: PoolValue): PoolValue {
    p.(threadBusy := p.threadBusy - 1)
  }

  function HandlePipe(p: PoolValue): PoolValue {
    p.(threadAlive := p.threadAlive - 1, threadBusy := p.threadBusy - 1)
  }

  // ---- thread_manager_func

  datatype Snapshot = Snapshot(cur: int, alive: int, busy: int)

  function TakeSnapshot(p: PoolValue): Snapshot {
    Snapshot(p.queueCur, p.threadAlive, p.threadBusy)
  }

  /** The test "busy/alive*100 >= 80" in exact arithmetic; below ten threads it is not consulted. */
  predicate WantsGrowth(s: Snapshot, threadMin: int, threadMax: int) {
    && (s.cur >= s.alive - s.busy || s.alive < 10 || s.busy * 100 >= s.alive * 80)
    && s.alive + threadMin < threadMax
  }

  lemma ScaleOrder(x: real, y: real, z: real)
    requires z > 0.0
    ensures x >= y <==> x * z >= y * z
  {
  }

  lemma PercentageOf(ratio: real, a: real, b: real)
    requires a > 0.0 && ratio * a == b
    ensures ratio * 100.0 >= 80.0 <==> b * 100.0 >= a * 80.0
  {
    ScaleOrder(ratio * 100.0, 80.0, a);
    assert ratio * 100.0 * a == 100.0 * b;
  }

  lemma PercentageIsExact(busy: int, alive: int)
    requires alive > 0
    ensures busy as real / alive as real * 100.0 >= 80.0 <==> busy * 100 >= alive * 80
  {
    var a, b := alive as real, busy as real;
    assert b / a * a == b;
    PercentageOf(b / a, a, b);
    assert b * 100.0 == (busy * 100) as real && a * 80.0 == (alive * 80) as real;
  }

  predicate WantsShrink(s: Snapshot, threadMin: int) {
    && s.busy * 2 <= s.alive - s.busy
    && s.alive - s.busy - threadMin >= threadMin
  }

  function StoreTid(p: PoolValue, i: int, tid: Tid): PoolValue
    requires 0 <= i < |p.tids|
  {
    p.(tids := p.tids[i := tid])
  }

  function CountThread(p: PoolValue): PoolValue {
    p.(threadAlive := p.threadAlive + 1)
  }

  function OrderKills(p: PoolValue): PoolValue {
    p.(killno := p.threadMin)
  }

  predicate Reusable(t: Tid, dead: set<Tid>) {
    t == 0 || t in dead
  }

  /** How many of the slots from `i` on never held a thread or hold a dead one. */
  function FreeSlots(tids: seq<Tid>, i: nat, dead: set<Tid>): nat
    decreases |tids| - i
  {
    if i >= |tids| then 0
    else (if Reusable(tids[i], dead) then 1 else 0) + FreeSlots(tids, i + 1, dead)
  }

  /** What the growth loop makes of the slots from `i` on, with `add` of `want` threads created so far
      and new threads numbered from `next`. */
  function Fill(tids: seq<Tid>, i: nat, add: nat, dead: set<Tid>, want: nat, next: Tid): (r: (seq<Tid>, nat))
    ensures |r.0| == |tids| && r.1 >= add
    decreases |tids| - i
  {
    if i >= |tids| || add >= want then (tids, add)
    else if Reusable(tids[i], dead) then Fill(tids[i := next + add], i + 1, add + 1, dead, want, next)
    else Fill(tids, i + 1, add, dead, want, next)
  }

  /** Growth creates `want` threads if there is room, never touches a live thread's slot,
      and gives every new thread a slot of its own. */
  lemma {:induction false} FillGrows(tids: seq<Tid>, i: nat, add: nat, dead: set<Tid>, want: nat, next: Tid)
    requires add <= want
    ensures var (t, n) := Fill(tids, i, add, dead, want, next);
            && n == (if add + FreeSlots(tids, i, dead) < want then add + FreeSlots(tids, i, dead) else want)
            && (forall k :: 0 <= k < |tids| && (k < i || !Reusable(tids[k], dead)) ==> t[k] == tids[k])
            && (forall x :: next + add <= x < next + n ==> x in t)
    decreases |tids| - i
  {
    if i < |tids| && add < want {
      if Reusable(tids[i], dead) {
        var t := tids[i := next + add];
        FillGrows(t, i + 1, add + 1, dead, want, next);
        FreeSlotsFrame(tids, t, i + 1, dead);
        var r := Fill(t, i + 1, add + 1, dead, want, next);
        assert r.0[i] == next + add;
      } else {
        FillGrows(tids, i + 1, add, dead, want, next);
      }
    }
  }

  lemma {:induction false} FreeSlotsFrame(t: seq<Tid>, u: seq<Tid>, i: nat, dead: set<Tid>)
    requires |t| == |u| && forall k :: i <= k < |t| ==> t[k] == u[k]
    ensures FreeSlots(t, i, dead) == FreeSlots(u, i, dead)
    decreases |t| - i
  {
    if i < |t| {
      FreeSlotsFrame(t, u, i + 1, dead);
    }
  }

  lemma {:induction false} SomeFreeSlot(tids: seq<Tid>, i: nat, dead: set<Tid>)
    ensures FreeSlots(tids, i, dead) > 0 <==> exists k :: i <= k < |tids| && Reusable(tids[k], dead)
    decreases |tids| - i
  {
    if i < |tids| {
      SomeFreeSlot(tids, i + 1, dead);
      if Reusable(tids[i], dead) {
        assert FreeSlots(tids, i, dead) > 0;
      }
    }
  }

  /** What a round of the manager makes of the pool when nothing else runs meanwhile: both decisions come
      from the snapshot it starts with. */
  function Round(p: PoolValue, dead: set<Tid>, next: Tid): PoolValue
    requires p.threadMin >= 0
  {
    var grow := WantsGrowth(TakeSnapshot(p), p.threadMin, p.threadMax);
    var grown := Fill(p.tids, 0, 0, dead, p.threadMin, next);
    p.(tids := if grow then grown.0 else p.tids,
       threadAlive := p.threadAlive + if grow then grown.1 else 0,
       killno := if WantsShrink(TakeSnapshot(p), p.threadMin) then p.threadMin else p.killno)
  }

  /** The manager's test for growth, in the fields of the pool and with the percentage as the program computes it. */
  predicate ShouldGrow(cur: int, alive: int, busy: int, min: int, max: int) {
    && alive + min < max
    && (cur >= alive - busy || alive < 10 || busy as real / alive as real * 100.0 >= 80.0)
  }

  /** A round creates a thread exactly when the test for growth holds, a thread is wanted and a slot is free; it then
      creates as many as are wanted or have a slot. It orders `threadMin` kills exactly when at most a third of the
      threads is busy and twice `threadMin` are idle, and no round changes anything else. */
  lemma RoundByFields(p: PoolValue, dead: set<Tid>, next: Tid)
    requires p.threadMin >= 0
    ensures var r := Round(p, dead, next);
            var free := FreeSlots(p.tids, 0, dead);
            && (r.threadAlive > p.threadAlive <==>
                 && ShouldGrow(p.queueCur, p.threadAlive, p.threadBusy, p.threadMin, p.threadMax) && p.threadMin >= 1
                 && exists k :: 0 <= k < |p.tids| && (p.tids[k] == 0 || p.tids[k] in dead))
            && (r.threadAlive > p.threadAlive ==> r.threadAlive - p.threadAlive == if free < p.threadMin then free else p.threadMin)
            && (r.threadAlive <= p.threadAlive ==> r.threadAlive == p.threadAlive && r.tids == p.tids)
            && r.killno == (if 2 * p.threadBusy <= p.threadAlive - p.threadBusy && p.threadAlive - p.threadBusy >= 2 * p.threadMin
                            then p.threadMin else p.killno)
            && r == p.(tids := r.tids, threadAlive := r.threadAlive, killno := r.killno)
  {
    FillGrows(p.tids, 0, 0, dead, p.threadMin, next);
    SomeFreeSlot(p.tids, 0, dead);
    if p.threadAlive > 0 {
      PercentageIsExact(p.threadBusy, p.threadAlive);
    }
    NothingFilled(p.tids, 0, 0, dead, p.threadMin, next);
  }

  lemma {:induction false} NothingFilled(tids: seq<Tid>, i: nat, add: nat, dead: set<Tid>, want: nat, next: Tid)
    ensures Fill(tids, i, add, dead, want, next).1 == add ==> Fill(tids, i, add, dead, want, next).0 == tids
    decreases |tids| - i
  {
    if i < |tids| && add < want && !Reusable(tids[i], dead) {
      NothingFilled(tids, i + 1, add, dead, want, next);
    }
  }

  // ---- FIFO behaviour of the ring

  /** The index invariant of the ring in the source's own arithmetic. */
  lemma FrontFollowsRear(p: PoolValue)
    requires RingOk(p) && p.queueMax > 0
    ensures p.queueFront == (p.queueRear + p.queueCur) % p.queueMax
    ensures p.queueCur == p.queueMax || p.queueCur == (p.queueFront - p.queueRear + p.queueMax) % p.queueMax
  {
    PlaceIsRemainder(p.queueRear + p.queueCur, p.queueMax);
    PlaceIsRemainder(p.queueFront - p.queueRear + p.queueMax, p.queueMax);
  }

  /** Adding appends at the end of the queue, and fails exactly when the ring is full. */
  lemma AddIsEnqueue(p: PoolValue, task: Task)
    requires RingOk(p)
    ensures TryAdd(p, task).None? <==> |Contents(p)| == p.queueMax
    ensures TryAdd(p, task).Some? ==> Contents(TryAdd(p, task).value) == Contents(p) + [task]
  {
    if p.queueCur < p.queueMax {
      var p' := TryAdd(p, task).value;
      forall k | 0 <= k < p'.queueCur
        ensures Contents(p')[k] == (Contents(p) + [task])[k]
      {
        assert Contents(p')[k] == p'.queueTask[Place(p.queueRear + k, p.queueMax)];
      }
    }
  }

  /** Taking removes the oldest task; waiting and exiting leave the queue as it was. */
  lemma TakeIsDequeue(p: PoolValue)
    requires RingOk(p)
    ensures WorkerTurn(p).Wait? <==> Contents(p) == []
    ensures WorkerTurn(p).Exit? ==> Contents(WorkerTurn(p).pool) == Contents(p)
    ensures WorkerTurn(p).Take? ==> Contents(p) == [WorkerTurn(p).task] + Contents(WorkerTurn(p).pool)
  {
    if WorkerTurn(p).Take? {
      var p' := WorkerTurn(p).pool;
      var whole := [WorkerTurn(p).task] + Contents(p');
      forall k | 0 <= k < p.queueCur
        ensures Contents(p)[k] == whole[k]
      {
        assert Contents(p)[k] == p.queueTask[Place(p.queueRear + k, p.queueMax)];
        if k > 0 {
          assert whole[k] == Contents(p')[k - 1];
          assert Contents(p')[k - 1] == p.queueTask[Place(p'.queueRear + (k - 1), p.queueMax)];
        }
      }
      assert Contents(p) == whole;
    }
  }

  /** The `pool_t` object, updated in place under its mutex. */
  class Pool {
    var threadMax: int
    var threadMin: int
    var threadAlive: int
    var threadBusy: int
    var queueMax: int
    var queueCur: int
    var killno: int
    var queueFront: int
    var queueRear: int
    var tids: array<Tid>
    var queueTask: array<Task>

    ghost function Value(): PoolValue
      reads this, tids, queueTask
    {
      PoolValue(threadMax, threadMin, threadAlive, threadBusy, queueMax, queueCur, killno,
                queueFront, queueRear, tids[..], queueTask[..])
    }

    ghost predicate Valid()
      reads this, tids, queueTask
    {
      RingOk(Value())
    }

    constructor (max: nat, min: nat, queMax: nat)
      requires min <= max
      ensures Valid() && fresh(tids) && fresh(queueTask)
      ensures Value() == Created(max, min, queMax)
    {
      threadMax, threadMin, threadAlive, threadBusy := max, min, 0, 0;
      queueMax, queueCur, killno := queMax, 0, 0;
      queueFront, queueRear := 0, 0;
      tids := new Tid[max](_ => 0);
      queueTask := new Task[queMax](_ => Task(0, 0));
      new;
      for i := 0 to min
        invariant threadMax == max && threadMin == min && threadAlive == i && threadBusy == 0
        invariant queueMax == queMax && queueCur == killno == queueFront == queueRear == 0
        invariant fresh(tids) && tids.Length == max && fresh(queueTask) && queueTask.Length == queMax
        invariant forall k :: 0 <= k < max ==> tids[k] == if k < i then k + 1 else 0
        invariant forall k :: 0 <= k < queMax ==> queueTask[k] == Task(0, 0)
      {
        tids[i] := i + 1;
        threadAlive := threadAlive + 1;
      }
      assert tids[..] == Created(max, min, queMax).tids;
      assert queueTask[..] == Created(max, min, queMax).queueTask;
    }

    /** The section of `thread_task_add` under the lock; false means "wait on full". */
    method Add(task: Task) returns (added: bool)
      requires Valid()
      modifies this`queueFront, this`queueCur, queueTask
      ensures Valid()
      ensures TryAdd(old(Value()), task) == if added then Some(Value()) else None
      ensures Contents(Value()) == old(Contents(Value())) + if added then [task] else []
      ensures !added ==> Value() == old(Value()) && queueCur == queueMax
    {
      AddIsEnqueue(Value(), task);
      if queueCur == queueMax {
        return false;
      }
      queueTask[queueFront] := task;
      PlaceIsRemainder(queueFront + 1, queueMax);
      queueFront := (queueFront + 1) % queueMax;
      queueCur := queueCur + 1;
      return true;
    }

    /** The first section of a worker's round. */
    method Work() returns (wait: bool, task: Option<Task>)
      requires Valid()
      modifies this`queueRear, this`queueCur, this`threadBusy, this`threadAlive, this`killno
      ensures Valid()
      ensures wait ==> task == None && Value() == old(Value())
      ensures WorkerTurn(old(Value()))
           == if wait then Wait else if task.None? then Exit(Value()) else Take(Value(), task.value)
      ensures old(Contents(Value())) == (if task.Some? then [task.value] else []) + Contents(Value())
    {
      TakeIsDequeue(Value());
      if queueCur == 0 {
        return true, None;
      }
      if killno > 0 {
        killno := killno - 1;
        threadAlive := threadAlive - 1;
        return false, None;
      }
      task := Some(queueTask[queueRear]);
      threadBusy := threadBusy + 1;
      queueCur := queueCur - 1;
      PlaceIsRemainder(queueRear + 1, queueMax);
      queueRear := (queueRear + 1) % queueMax;
      wait := false;
    }

    /** The second section of a worker's round. */
    method FinishJob()
      requires Valid()
      modifies this`threadBusy
      ensures Valid() && Value() == JobDone(old(Value()))
    {
      threadBusy := threadBusy - 1;
    }

    /** The body of the SIGPIPE handler before the thread exits. */
    method Pipe()
      requires Valid()
      modifies this`threadBusy, this`threadAlive
      ensures Valid() && Value() == HandlePipe(old(Value()))
    {
      threadAlive := threadAlive - 1;
      threadBusy := threadBusy - 1;
    }

    /** The growth loop of the manager, while the threads in `dead` are the dead ones.
        New threads are numbered from `next`; the result is how many were created. */
    method Grow(dead: set<Tid>, next: Tid) returns (add: nat)
      requires Valid() && threadMin >= 0
      modifies this`threadAlive, tids
      ensures Valid()
      ensures (tids[..], add) == Fill(old(tids[..]), 0, 0, dead, threadMin, next)
      ensures Value() == old(Value()).(threadAlive := old(threadAlive) + add, tids := tids[..])
    {
      add := 0;
      var i := 0;
      while i < threadMax && add < threadMin
        invariant 0 <= i <= threadMax
        invariant Fill(tids[..], i, add, dead, threadMin, next) == Fill(old(tids[..]), 0, 0, dead, threadMin, next)
        invariant threadAlive == old(threadAlive) + add
      {
        if tids[i] == 0 || tids[i] in dead {
          ghost var before := tids[..];
          tids[i] := next + add;
          assert tids[..] == before[i := tids[i]];
          threadAlive := threadAlive + 1;
          add := add + 1;
        }
        i := i + 1;
      }
    }

    /** One round of the manager when nothing else runs: both decisions come from the snapshot. */
    method ManagerRound(dead: set<Tid>, next: Tid)
      requires Valid() && threadMin >= 0
      modifies this`threadAlive, this`killno, tids
      ensures Valid()
      ensures Value() == Round(old(Value()), dead, next)
      ensures threadAlive > old(threadAlive) <==>
                && old(threadAlive) + threadMin < threadMax && threadMin >= 1
                && (|| queueCur >= old(threadAlive) - threadBusy || old(threadAlive) < 10
                    || threadBusy as real / old(threadAlive) as real * 100.0 >= 80.0)
                && old(exists k :: 0 <= k < tids.Length && (tids[k] == 0 || tids[k] in dead))
      ensures killno == if threadBusy * 2 <= old(threadAlive) - threadBusy && old(threadAlive) - threadBusy - threadMin >= threadMin then threadMin else old(killno)
    {
      var cur, alive, busy := queueCur, threadAlive, threadBusy;
      hide Fill, FreeSlots;
      RoundByFields(Value(), dead, next);
      if alive > 0 {
        PercentageIsExact(busy, alive);
      }
      if (cur >= alive - busy || alive < 10 || busy as real / alive as real * 100.0 >= 80.0) && alive + threadMin < threadMax {
        var add := Grow(dead, next);
      }
      if busy * 2 <= alive - busy && alive - busy - threadMin >= threadMin {
        killno := threadMin;
      }
    }
  }
}
