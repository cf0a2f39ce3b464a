/**
 Callers of the connection pool at the same time. Taking a node is several
 steps: the try at its mutex, the look at its state, the new mutex, the attempt
 to connect, the ping and the failure each interleave with what others do.
 Updates of `busy_number` are atomic, and a caller gives back each node it
 was handed once. The pool is not resized or closed meanwhile.
 */
module SqlProtocol {
  import opened Wrappers
  import opened Cyclic
  import opened SqlPool
  import opened SqlResize

  /** Where a caller is in `get_db_connect`; from `Gripping` on it has locked the node of probe `i`. */
  datatype Phase =
    | Idle
    | Scanning(start: nat, i: nat)
    | Gripping(start: nat, i: nat)
    | Connecting(start: nat, i: nat)
    | Pinging(start: nat, i: nat)
    | Failing(start: nat, i: nat)

  datatype Caller = Caller(held: multiset<nat>, phase: Phase)

  predicate CallerOk(c: Caller, n: nat) {
    && (forall k :: k in c.held ==> k < n)
    && (!c.phase.Idle? ==> c.phase.start < n && c.phase.i <= n && (!c.phase.Scanning? ==> c.phase.i < n))
  }

  predicate PoolUp(p: PoolValue) {
    PoolOk(p) && p.poolNumber > 0 && !p.shutdown
  }

  datatype Step = Begin(start: nat) | TryLock | GiveUp | Examine | Connects(c: Connect) | Pings(ok: bool) | Fails | GiveBack(k: nat)

  predicate Can(p: PoolValue, c: Caller, e: Step)
    requires PoolUp(p)
  {
    match e
    case Begin(start) => c.phase.Idle? && start < p.poolNumber
    case TryLock => c.phase.Scanning? && c.phase.i < p.poolNumber
    case GiveUp => c.phase.Scanning? && c.phase.i == p.poolNumber
    case Examine => c.phase.Gripping?
    case Connects(_) => c.phase.Connecting?
    case Pings(_) => c.phase.Pinging?
    case Fails => c.phase.Failing?
    case GiveBack(k) => c.phase.Idle? && k in c.held
  }

  /** The node of the probe that caller `c` is at. */
  function At(c: Caller, n: nat): (k: nat)
    requires CallerOk(c, n) && !c.phase.Idle? && c.phase.i < n
    ensures k < n
  {
    ProbeAt(c.phase.start, c.phase.i, n)
  }

  /** The pool and the caller after a step of that caller. */
  function Turn(p: PoolValue, c: Caller, e: Step): (r: (PoolValue, Caller))
    requires PoolUp(p) && CallerOk(c, p.poolNumber) && Can(p, c, e)
    ensures PoolUp(r.0) && r.0.poolNumber == p.poolNumber && CallerOk(r.1, p.poolNumber)
  {
    var n := p.poolNumber;
    match e
    case Begin(start) => (p, c.(phase := Scanning(start, 0)))
    case TryLock =>
      if p.nodes[At(c, n)].locked then (p, c.(phase := Scanning(c.phase.start, c.phase.i + 1)))
      else (Lock(p, At(c, n)), c.(phase := Gripping(c.phase.start, c.phase.i)))
    case GiveUp => (p, c.(phase := Idle))
    case Examine =>
      if p.nodes[At(c, n)].conn then (p, c.(phase := Pinging(c.phase.start, c.phase.i)))
      else (Reinit(p, At(c, n)), c.(phase := Connecting(c.phase.start, c.phase.i)))
    case Connects(o) =>
      var (q, res) := Attempt(p, At(c, n), o);
      (q, c.(phase := if res == 0 then Pinging(c.phase.start, c.phase.i) else Failing(c.phase.start, c.phase.i)))
    case Pings(ok) =>
      if ok then (Hand(p, At(c, n)), Caller(c.held + multiset{At(c, n)}, Idle))
      else (Drop(p, At(c, n)), c.(phase := Failing(c.phase.start, c.phase.i)))
    case Fails => (Release(p, At(c, n)), c.(phase := Scanning(c.phase.start, c.phase.i + 1)))
    case GiveBack(k) => (Release(p, k), c.(held := c.held - multiset{k}))
  }

  /** Whether this step gives node `k` a new mutex. */
  predicate Reinits(p: PoolValue, c: Caller, e: Step, k: nat)
    requires PoolUp(p) && CallerOk(c, p.poolNumber) && Can(p, c, e)
  {
    e.Examine? && k == At(c, p.poolNumber) && !p.nodes[k].conn
  }

  // ---- Runs

  /** `failed` counts the probes that locked a node in vain, `reinits` the new mutexes of each node. */
  datatype State = State(pool: PoolValue, callers: seq<Caller>, failed: nat, reinits: seq<nat>)

  predicate WellFormed(s: State) {
    && PoolUp(s.pool) && |s.reinits| == SQL_POOL_NODE_NUM
    && forall a :: 0 <= a < |s.callers| ==> CallerOk(s.callers[a], s.pool.poolNumber)
  }

  /** A pool as `sql_pool_create` returns it. */
  predicate Fresh(p: PoolValue) {
    PoolUp(p) && p.busyNumber == 0 && forall k: nat :: k < p.poolNumber ==> p.nodes[k] == Created(k)
  }

  lemma CreateYieldsFreshPool(minNum: int, raw: seq<Node>, c: nat -> Connect)
    requires |raw| == SQL_POOL_NODE_NUM
    ensures var (q, ok) := GrowTo(PoolValue(false, raw, 0, 0), Clamp(minNum), c);
            ok ==> Fresh(q)
  {
    hide GrowTo;
    GrowAllOrGiveUp(PoolValue(false, raw, 0, 0), Clamp(minNum), c);
  }

  function Init(p: PoolValue, callers: nat): (s: State)
    requires Fresh(p)
    ensures WellFormed(s)
  {
    State(p, seq(callers, _ => Caller(multiset{}, Idle)), 0, seq(SQL_POOL_NODE_NUM, _ => 0))
  }

  datatype Event = Event(a: nat, step: Step)

  predicate Enabled(s: State, e: Event)
    requires WellFormed(s)
  {
    e.a < |s.callers| && Can(s.pool, s.callers[e.a], e.step)
  }

  function Next(s: State, e: Event): (r: State)
    requires WellFormed(s) && Enabled(s, e)
    ensures WellFormed(r) && r.pool.poolNumber == s.pool.poolNumber && |r.callers| == |s.callers|
  {
    var (q, d) := Turn(s.pool, s.callers[e.a], e.step);
    State(q, s.callers[e.a := d], s.failed + (if e.step.Fails? then 1 else 0),
          seq(SQL_POOL_NODE_NUM, k requires 0 <= k < SQL_POOL_NODE_NUM =>
                s.reinits[k] + if Reinits(s.pool, s.callers[e.a], e.step, k) then 1 else 0))
  }

  /** The state after a run of events, or `None` when some event is not enabled. */
  function Exec(s: State, run: seq<Event>): (r: Option<State>)
    requires WellFormed(s)
    ensures r.Some? ==> WellFormed(r.value) && r.value.pool.poolNumber == s.pool.poolNumber
    decreases |run|
  {
    if run == [] then Some(s)
    else if Enabled(s, run[0]) then Exec(Next(s, run[0]), run[1..])
    else None
  }

  ghost predicate Reachable(s: State) {
    exists p: PoolValue, callers: nat, run: seq<Event> :: Fresh(p) && Exec(Init(p, callers), run) == Some(s)
  }

  // ---- Who has which node

  /** How often caller `c` has node `k`: once for each time it was handed out, once while `c` probes it. */
  function Has(c: Caller, n: nat, k: nat): nat
    requires CallerOk(c, n)
  {
    c.held[k] + if !c.phase.Idle? && !c.phase.Scanning? && At(c, n) == k then 1 else 0
  }

  function Holders(callers: seq<Caller>, n: nat, k: nat): nat
    requires forall a :: 0 <= a < |callers| ==> CallerOk(callers[a], n)
  {
    if callers == [] then 0 else Holders(callers[..|callers| - 1], n, k) + Has(callers[|callers| - 1], n, k)
  }

  lemma {:induction false} HoldersMove(callers: seq<Caller>, n: nat, a: nat, d: Caller, k: nat)
    requires forall b :: 0 <= b < |callers| ==> CallerOk(callers[b], n)
    requires a < |callers| && CallerOk(d, n)
    ensures Holders(callers[a := d], n, k) + Has(callers[a], n, k) == Holders(callers, n, k) + Has(d, n, k)
    ensures Has(callers[a], n, k) <= Holders(callers, n, k)
  {
    hide Has;
    var m := |callers| - 1;
    if a == m {
      assert callers[a := d][..m] == callers[..m];
    } else {
      HoldersMove(callers[..m], n, a, d, k);
      assert callers[a := d][..m] == callers[..m][a := d];
    }
  }

  /** The nodes handed out and not given back. */
  function Outstanding(callers: seq<Caller>): nat {
    if callers == [] then 0 else Outstanding(callers[..|callers| - 1]) + |callers[|callers| - 1].held|
  }

  lemma {:induction false} OutstandingMove(callers: seq<Caller>, a: nat, d: Caller)
    requires a < |callers|
    ensures Outstanding(callers[a := d]) + |callers[a].held| == Outstanding(callers) + |d.held|
  {
    var m := |callers| - 1;
    if a == m {
      assert callers[a := d][..m] == callers[..m];
    } else {
      OutstandingMove(callers[..m], a, d);
      assert callers[a := d][..m] == callers[..m][a := d];
    }
  }

  lemma {:induction false} NobodyHolds(callers: seq<Caller>, n: nat, k: nat)
    requires forall a :: 0 <= a < |callers| ==> callers[a] == Caller(multiset{}, Idle)
    ensures Holders(callers, n, k) == 0 && Outstanding(callers) == 0
  {
    if callers != [] {
      NobodyHolds(callers[..|callers| - 1], n, k);
    }
  }

  function LockBit(p: PoolValue, k: nat): int
    requires k < |p.nodes|
  {
    if p.nodes[k].locked then 1 else 0
  }

  /** What one step does to one node: it cannot gain more holders than locks and new mutexes together,
      and without a new mutex it gains as many of the one as of the other. */
  predicate Balanced(p: PoolValue, c: Caller, e: Step, k: nat)
    requires PoolUp(p) && CallerOk(c, p.poolNumber) && Can(p, c, e) && k < p.poolNumber
  {
    var (q, d) := Turn(p, c, e);
    var had, has := Has(c, p.poolNumber, k), Has(d, p.poolNumber, k);
    && has - had <= LockBit(q, k) - LockBit(p, k) + (if Reinits(p, c, e, k) then 1 else 0)
    && (!Reinits(p, c, e, k) && (had == 0 || p.nodes[k].locked) ==> has - had == LockBit(q, k) - LockBit(p, k))
  }

  lemma BalancedWhileProbing(p: PoolValue, c: Caller, e: Step, k: nat)
    requires PoolUp(p) && CallerOk(c, p.poolNumber) && Can(p, c, e) && k < p.poolNumber
    requires e.TryLock? || e.Examine? || e.Connects?
    ensures Balanced(p, c, e, k)
  {
  }

  lemma BalancedAtTheEnd(p: PoolValue, c: Caller, e: Step, k: nat)
    requires PoolUp(p) && CallerOk(c, p.poolNumber) && Can(p, c, e) && k < p.poolNumber
    requires !e.TryLock? && !e.Examine? && !e.Connects?
    ensures Balanced(p, c, e, k)
  {
  }

  lemma TurnBusy(p: PoolValue, c: Caller, e: Step)
    requires PoolUp(p) && CallerOk(c, p.poolNumber) && Can(p, c, e)
    ensures var (q, d) := Turn(p, c, e);
            q.busyNumber - p.busyNumber == |d.held| - |c.held| - if e.Fails? then 1 else 0
  {
  }

  // ---- Invariants

  predicate Busy(s: State) {
    s.pool.busyNumber == Outstanding(s.callers) - s.failed
  }

  predicate Owned(s: State, k: nat)
    requires WellFormed(s) && k < s.pool.poolNumber
  {
    var holders := Holders(s.callers, s.pool.poolNumber, k);
    && holders <= LockBit(s.pool, k) + s.reinits[k]
    && (s.reinits[k] == 0 ==> holders == LockBit(s.pool, k))
  }

  /** A node marked connected has a handle, one that was never given a new mutex has never lost it, and only nodes
      with a new mutex are being connected. */
  predicate Handles(s: State)
    requires WellFormed(s)
  {
    && Sound(s.pool)
    && (forall k :: 0 <= k < s.pool.poolNumber && s.reinits[k] == 0 ==> s.pool.nodes[k].open)
    && (forall a :: 0 <= a < |s.callers| && s.callers[a].phase.Connecting? ==> s.reinits[At(s.callers[a], s.pool.poolNumber)] > 0)
  }

  predicate Inv(s: State) {
    WellFormed(s) && Busy(s) && Handles(s) && forall k: nat :: k < s.pool.poolNumber ==> Owned(s, k)
  }

  lemma OwnedKept(s: State, e: Event, k: nat)
    requires WellFormed(s) && Enabled(s, e) && k < s.pool.poolNumber && Owned(s, k)
    ensures Owned(Next(s, e), k)
  {
    hide Turn, Reinits, Has, Can;
    var d := Turn(s.pool, s.callers[e.a], e.step).1;
    HoldersMove(s.callers, s.pool.poolNumber, e.a, d, k);
    if e.step.TryLock? || e.step.Examine? || e.step.Connects? {
      BalancedWhileProbing(s.pool, s.callers[e.a], e.step, k);
    } else {
      BalancedAtTheEnd(s.pool, s.callers[e.a], e.step, k);
    }
  }

  /** What one step does to the handles: only a failed attempt, of a caller that is connecting, takes one away. */
  lemma TurnHandles(p: PoolValue, c: Caller, e: Step)
    requires PoolUp(p) && CallerOk(c, p.poolNumber) && Can(p, c, e) && Sound(p)
    ensures var (q, d) := Turn(p, c, e);
            && Sound(q)
            && (forall k :: 0 <= k < p.poolNumber && p.nodes[k].open && !q.nodes[k].open ==> c.phase.Connecting? && k == At(c, p.poolNumber))
            && (d.phase.Connecting? ==> Reinits(p, c, e, At(d, p.poolNumber)))
  {
  }

  lemma HandlesKept(s: State, e: Event)
    requires WellFormed(s) && Enabled(s, e) && Handles(s)
    ensures Handles(Next(s, e))
  {
    hide Turn, Can, Sound, Reinits;
    TurnHandles(s.pool, s.callers[e.a], e.step);
  }

  lemma StepKeepsInv(s: State, e: Event)
    requires Inv(s) && Enabled(s, e)
    ensures Inv(Next(s, e))
  {
    hide Turn, Can;
    OutstandingMove(s.callers, e.a, Turn(s.pool, s.callers[e.a], e.step).1);
    TurnBusy(s.pool, s.callers[e.a], e.step);
    HandlesKept(s, e);
    hide Handles;
    forall k: nat | k < s.pool.poolNumber ensures Owned(Next(s, e), k) {
      OwnedKept(s, e, k);
    }
  }

  lemma {:induction false} RunKeepsInv(s: State, run: seq<Event>)
    requires Inv(s) && Exec(s, run).Some?
    ensures Inv(Exec(s, run).value)
    decreases |run|
  {
    hide Next, Busy, Owned, Enabled;
    if run != [] {
      StepKeepsInv(s, run[0]);
      RunKeepsInv(Next(s, run[0]), run[1..]);
    }
  }

  lemma InitInv(p: PoolValue, callers: nat)
    requires Fresh(p)
    ensures Inv(Init(p, callers))
  {
    var s := Init(p, callers);
    NobodyHolds(s.callers, p.poolNumber, 0);
    forall k: nat | k < p.poolNumber ensures Owned(s, k) {
      NobodyHolds(s.callers, p.poolNumber, k);
    }
  }

  lemma ReachableInv(s: State)
    requires Reachable(s)
    ensures Inv(s)
  {
    hide Inv, Init, Exec, Fresh;
    var p, callers, run :| Fresh(p) && Exec(Init(p, callers), run) == Some(s);
    InitInv(p, callers);
    RunKeepsInv(Init(p, callers), run);
  }

  // ---- Over all runs

  /** The busy counter is the nodes handed out less the failed probes, so it is right exactly when no probe failed. */
  lemma BusyConserved(s: State)
    requires Reachable(s)
    ensures s.pool.busyNumber == Outstanding(s.callers) - s.failed
    ensures s.pool.busyNumber == Outstanding(s.callers) <==> s.failed == 0
  {
    hide Reachable;
    ReachableInv(s);
  }

  /** In every reachable state a node that is marked connected has a handle, and a node that was never reconnected has
      one always, so that no caller is handed a null handle by it. */
  lemma ConnectedMeansOpen(s: State, k: nat)
    requires Reachable(s)
    requires WellFormed(s) && k < s.pool.poolNumber
    ensures s.pool.nodes[k].conn ==> s.pool.nodes[k].open
    ensures s.reinits[k] == 0 ==> s.pool.nodes[k].open
  {
    hide Reachable;
    ReachableInv(s);
  }

  /** A node has at most one holder more than it was given new mutexes. */
  lemma HoldersBounded(s: State, k: nat)
    requires Reachable(s)
    requires WellFormed(s) && k < s.pool.poolNumber
    ensures Holders(s.callers, s.pool.poolNumber, k) <= 1 + s.reinits[k]
  {
    hide Reachable;
    ReachableInv(s);
    assert Owned(s, k);
  }

  lemma {:induction false} TwoHold(callers: seq<Caller>, n: nat, a: nat, b: nat, k: nat)
    requires forall c :: 0 <= c < |callers| ==> CallerOk(callers[c], n)
    requires a < b < |callers|
    ensures Has(callers[a], n, k) + Has(callers[b], n, k) <= Holders(callers, n, k)
  {
    hide Has;
    var m := |callers| - 1;
    if b == m {
      HoldersMove(callers[..m], n, a, callers[a], k);
    } else {
      TwoHold(callers[..m], n, a, b, k);
    }
  }

  /** A node that was never reconnected is locked exactly while someone has it, and one caller has it, once:
      no two callers share it, and the two nodes that one caller takes are distinct. */
  lemma SoleOwner(s: State, k: nat)
    requires Reachable(s)
    requires WellFormed(s) && k < s.pool.poolNumber && s.reinits[k] == 0
    ensures s.pool.nodes[k].locked <==> Holders(s.callers, s.pool.poolNumber, k) == 1
    ensures !s.pool.nodes[k].locked <==> Holders(s.callers, s.pool.poolNumber, k) == 0
    ensures forall a :: 0 <= a < |s.callers| ==> s.callers[a].held[k] <= 1
    ensures forall a, b :: 0 <= a < b < |s.callers| ==> k !in s.callers[a].held || k !in s.callers[b].held
  {
    hide Reachable;
    ReachableInv(s);
    assert Owned(s, k);
    forall a: nat | a < |s.callers| ensures s.callers[a].held[k] <= 1 {
      HoldersMove(s.callers, s.pool.poolNumber, a, s.callers[a], k);
    }
    forall a: nat, b: nat | a < b < |s.callers| ensures k !in s.callers[a].held || k !in s.callers[b].held {
      TwoHold(s.callers, s.pool.poolNumber, a, b, k);
    }
  }

  // ---- A caller on its own

  ghost predicate Leads(s: State, t: State) {
    WellFormed(s) && exists run: seq<Event> :: Exec(s, run) == Some(t)
  }

  lemma {:induction false} ExecAppend(s: State, run: seq<Event>, e: Event)
    requires WellFormed(s) && Exec(s, run).Some? && Enabled(Exec(s, run).value, e)
    ensures Exec(s, run + [e]) == Some(Next(Exec(s, run).value, e))
    decreases |run|
  {
    hide Next, Enabled;
    if run == [] {
      assert run + [e] == [e];
      assert Exec(Next(s, e), []) == Some(Next(s, e));
    } else {
      ExecAppend(Next(s, run[0]), run[1..], e);
      assert (run + [e])[1..] == run[1..] + [e];
    }
  }

  lemma Stay(s: State)
    requires WellFormed(s)
    ensures Leads(s, s)
  {
    assert Exec(s, []) == Some(s);
  }

  /** One more step of caller `a` on the way from `s` by `t`. */
  lemma After(s: State, t: State, a: nat, step: Step) returns (u: State)
    requires Leads(s, t) && WellFormed(t) && Enabled(t, Event(a, step))
    ensures Leads(s, u) && WellFormed(u)
    ensures u.pool == Turn(t.pool, t.callers[a], step).0
    ensures u.callers == t.callers[a := Turn(t.pool, t.callers[a], step).1]
  {
    hide Turn, Can;
    var run :| Exec(s, run) == Some(t);
    ExecAppend(s, run, Event(a, step));
    u := Next(t, Event(a, step));
  }

  /** Where the caller stands after its probe. */
  function Probed(c: Caller, k: nat, got: bool): Caller
    requires c.phase.Scanning?
  {
    if got then Caller(c.held + multiset{k}, Idle) else c.(phase := Scanning(c.phase.start, c.phase.i + 1))
  }

  /** The end of a probe whose node has a connection. */
  lemma PingIsARun(s: State, t: State, a: nat, ping: bool) returns (u: State)
    requires Leads(s, t) && WellFormed(t) && a < |t.callers| && t.callers[a].phase.Pinging?
    ensures Leads(s, u) && WellFormed(u)
    ensures var c := t.callers[a];
            var k := At(c, t.pool.poolNumber);
            && u.pool == (if ping then Hand(t.pool, k) else Release(Drop(t.pool, k), k))
            && u.callers == t.callers[a := Probed(c.(phase := Scanning(c.phase.start, c.phase.i)), k, ping)]
  {
    hide Leads, Hand, Release, Drop;
    u := After(s, t, a, Pings(ping));
    if !ping {
      u := After(s, u, a, Fails);
    }
  }

  /** One probe of the protocol, undisturbed, does what the sequential scan's probe does. */
  lemma ProbeIsARun(s: State, t: State, a: nat, o: Connect, ping: bool) returns (u: State)
    requires Leads(s, t) && WellFormed(t) && a < |t.callers|
    requires t.callers[a].phase.Scanning? && t.callers[a].phase.i < t.pool.poolNumber
    ensures Leads(s, u) && WellFormed(u)
    ensures var k := At(t.callers[a], t.pool.poolNumber);
            var (q, got) := Probe(t.pool, k, o, ping);
            u.pool == q && u.callers == t.callers[a := Probed(t.callers[a], k, got)]
  {
    hide Leads, Hand, Release, Drop;
    var k := At(t.callers[a], t.pool.poolNumber);
    u := After(s, t, a, TryLock);
    if !t.pool.nodes[k].locked {
      u := After(s, u, a, Examine);
      if !t.pool.nodes[k].conn {
        u := After(s, u, a, Connects(o));
      }
      if u.callers[a].phase.Pinging? {
        u := PingIsARun(s, u, a, ping);
      } else {
        u := After(s, u, a, Fails);
      }
    }
  }

  /** The sequential scan refines the protocol: a caller whom nobody disturbs gets what `get_db_connect` computes. */
  lemma {:induction false} ScanIsARun(s: State, t: State, a: nat, c: nat -> Connect, ping: nat -> bool) returns (u: State)
    requires Leads(s, t) && WellFormed(t) && a < |t.callers| && t.callers[a].phase.Scanning?
    ensures Leads(s, u) && WellFormed(u)
    ensures var (q, r) := Scan(t.pool, t.callers[a].phase.start, t.callers[a].phase.i, c, ping);
            var held := t.callers[a].held;
            u.pool == q && u.callers == t.callers[a := Caller(if r.Some? then held + multiset{r.value} else held, Idle)]
    decreases t.pool.poolNumber - t.callers[a].phase.i
  {
    hide Leads, Probe;
    var d := t.callers[a];
    if d.phase.i == t.pool.poolNumber {
      u := After(s, t, a, GiveUp);
    } else {
      var k := At(d, t.pool.poolNumber);
      u := ProbeIsARun(s, t, a, c(k), ping(k));
      if u.callers[a].phase.Scanning? {
        ProbeOutcome(t.pool, k, c(k), ping(k));
        u := ScanIsARun(s, u, a, c, ping);
      }
    }
  }

  lemma GetIsARun(s: State, t: State, a: nat, start: nat, c: nat -> Connect, ping: nat -> bool) returns (u: State)
    requires Leads(s, t) && WellFormed(t) && a < |t.callers| && t.callers[a].phase.Idle? && start < t.pool.poolNumber
    ensures Leads(s, u) && WellFormed(u)
    ensures var (q, r) := Scan(t.pool, start, 0, c, ping);
            var held := t.callers[a].held;
            u.pool == q && u.callers == t.callers[a := Caller(if r.Some? then held + multiset{r.value} else held, Idle)]
  {
    hide Leads;
    u := After(s, t, a, Begin(start));
    u := ScanIsARun(s, u, a, c, ping);
  }

  lemma LeadsToReachable(p: PoolValue, callers: nat, t: State)
    requires Fresh(p) && Leads(Init(p, callers), t)
    ensures Reachable(t)
  {
  }

  // ---- A node with two holders

  /** An open mutex is all it takes: an idle caller can have a connected node, whoever else has it,
      exactly when it is not locked. */
  lemma UnlockedNodeIsTaken(s: State, b: nat, k: nat)
    requires WellFormed(s) && b < |s.callers| && s.callers[b].phase.Idle? && k < s.pool.poolNumber && s.pool.nodes[k].conn
    ensures Scan(s.pool, k, 0, _ => Connected, _ => true).1 == Some(k) <==> !s.pool.nodes[k].locked
    ensures !s.pool.nodes[k].locked ==> exists t :: Leads(s, t) && t.callers == s.callers[b := Caller(s.callers[b].held + multiset{k}, Idle)]
  {
    var p, c: nat -> Connect, ping: nat -> bool := s.pool, _ => Connected, _ => true;
    assert ProbeAt(k, 0, p.poolNumber) == k;
    ProbeOutcome(p, k, c(k), ping(k));
    if p.nodes[k].locked {
      ScanFindsFirst(p, k, 0, c, ping);
      EndIsFirstUsable(p, k, 0, c, ping);
    } else {
      Stay(s);
      var t := GetIsARun(s, s, b, k, c, ping);
    }
  }

  predicate Shared(s: State, k: nat) {
    && |s.callers| == 2 && k in s.callers[0].held && k in s.callers[1].held
    && s.pool.busyNumber == 1
  }

  /** The condition of `SoleOwner` is needed. One caller's ping fails; its next call reconnects the node, which
      leaves the mutex open; a second caller then takes the same node, and the counter says one node is busy. */
  lemma ReconnectSharesNode()
    ensures exists s, k :: Reachable(s) && Shared(s, k)
  {
    var s := Init(OpenPool(1), 2);
    assert Fresh(OpenPool(1));
    Stay(s);
    hide Leads, Reachable;
    var t := GetIsARun(s, s, 0, 0, _ => Connected, _ => false);
    assert !t.pool.nodes[0].conn && t.pool.busyNumber == -1;
    t := GetIsARun(s, t, 0, 0, _ => Connected, _ => true);
    assert !t.pool.nodes[0].locked && t.pool.nodes[0].conn && t.pool.busyNumber == 0;
    t := GetIsARun(s, t, 1, 0, _ => Connected, _ => true);
    LeadsToReachable(OpenPool(1), 2, t);
    assert Shared(t, 0);
  }
}
