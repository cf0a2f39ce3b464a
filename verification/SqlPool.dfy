/**
 The connection pool of src/mysql_connection_pool.c. The database is outside
 the model: every connection attempt and every ping has an outcome that the
 caller of an operation supplies, one for each node.
 */
module SqlPool {
  import opened Wrappers
  import opened Cyclic

  const SQL_POOL_NODE_NUM := 20

  /** `open` says that the handle is not null, `conn` that the state is DB_CONN. */
  datatype Node = Node(open: bool, locked: bool, used: bool, index: int, conn: bool)

  datatype PoolValue = PoolValue(shutdown: bool, nodes: seq<Node>, poolNumber: int, busyNumber: int)

  predicate PoolOk(p: PoolValue) {
    |p.nodes| == SQL_POOL_NODE_NUM && 0 <= p.poolNumber <= SQL_POOL_NODE_NUM
  }

  datatype Connect = InitFails | ConnectFails | Connected

  function SetNode(p: PoolValue, k: nat, n: Node): (r: PoolValue)
    requires k < |p.nodes|
    ensures PoolOk(p) ==> PoolOk(r)
  {
    p.(nodes := p.nodes[k := n])
  }

  /** Initialising a node's mutex anew, which unlocks it whoever holds it. */
  function Reinit(p: PoolValue, k: nat): (r: PoolValue)
    requires k < |p.nodes|
    ensures PoolOk(p) ==> PoolOk(r)
  {
    SetNode(p, k, p.nodes[k].(locked := false))
  }

  /** The attempt to connect that follows. */
  function Attempt(p: PoolValue, k: nat, c: Connect): (r: (PoolValue, int))
    requires k < |p.nodes|
    ensures PoolOk(p) ==> PoolOk(r.0)
    ensures r.1 == 0 <==> c == Connected
  {
    match c
    case InitFails => (p, -1)
    case ConnectFails => (SetNode(p, k, p.nodes[k].(open := false, conn := false)), 1)
    case Connected => (SetNode(p, k, p.nodes[k].(open := true, used := false, conn := true)), 0)
  }

  /** `create_db_connect`. */
  function Create(p: PoolValue, k: nat, c: Connect): (r: (PoolValue, int))
    requires k < |p.nodes|
    ensures PoolOk(p) ==> PoolOk(r.0)
    ensures r.1 == 0 <==> !p.shutdown && c == Connected
  {
    if p.shutdown then (p, -1) else Attempt(Reinit(p, k), k, c)
  }

  /** `release_sql_node`. */
  function Release(p: PoolValue, k: nat): (r: PoolValue)
    requires k < |p.nodes|
    ensures PoolOk(p) ==> PoolOk(r)
  {
    SetNode(p, k, p.nodes[k].(used := false, locked := false)).(busyNumber := p.busyNumber - 1)
  }

  // ---- get_db_connect

  function Lock(p: PoolValue, k: nat): (r: PoolValue)
    requires k < |p.nodes|
    ensures PoolOk(p) ==> PoolOk(r)
  {
    SetNode(p, k, p.nodes[k].(locked := true))
  }

  function Drop(p: PoolValue, k: nat): (r: PoolValue)
    requires k < |p.nodes|
    ensures PoolOk(p) ==> PoolOk(r)
  {
    SetNode(p, k, p.nodes[k].(conn := false))
  }

  function Hand(p: PoolValue, k: nat): (r: PoolValue)
    requires k < |p.nodes|
    ensures PoolOk(p) ==> PoolOk(r)
  {
    SetNode(p, k, p.nodes[k].(used := true)).(busyNumber := p.busyNumber + 1)
  }

  /** What a caller finds out about a locked node: whether it can be handed out. */
  function Check(p: PoolValue, k: nat, c: Connect, ping: bool): (r: (PoolValue, bool))
    requires k < |p.nodes|
    ensures PoolOk(p) ==> PoolOk(r.0)
  {
    var connected := if p.nodes[k].conn then (p, 0) else Create(p, k, c);
    if connected.1 != 0 then (Release(connected.0, k), false)
    else if !ping then (Release(Drop(connected.0, k), k), false)
    else (Hand(connected.0, k), true)
  }

  function Probe(p: PoolValue, k: nat, c: Connect, ping: bool): (r: (PoolValue, bool))
    requires k < |p.nodes|
    ensures PoolOk(p) ==> PoolOk(r.0)
  {
    if p.nodes[k].locked then (p, false) else Check(Lock(p, k), k, c, ping)
  }

  /** A node that a lone caller can have: free, connected or connectable, and answering. */
  predicate Usable(p: PoolValue, k: nat, c: Connect, ping: bool)
    requires k < |p.nodes|
  {
    !p.nodes[k].locked && (p.nodes[k].conn || (!p.shutdown && c == Connected)) && ping
  }

  lemma ProbeOutcome(p: PoolValue, k: nat, c: Connect, ping: bool)
    requires PoolOk(p) && k < p.poolNumber
    ensures var (q, got) := Probe(p, k, c, ping);
            && (got <==> Usable(p, k, c, ping))
            && (forall j :: 0 <= j < |p.nodes| && j != k ==> q.nodes[j] == p.nodes[j])
            && q.poolNumber == p.poolNumber && q.shutdown == p.shutdown
            && q.busyNumber == p.busyNumber + (if got then 1 else if p.nodes[k].locked then 0 else -1)
            && (got ==> q.nodes[k].used && q.nodes[k].conn && (q.nodes[k].locked <==> p.nodes[k].conn))
            && (!got ==> q.nodes[k].locked == p.nodes[k].locked)
            && (!got && !p.nodes[k].locked ==> !q.nodes[k].conn && !q.nodes[k].used)
            && (Sound(p) ==> Sound(q) && (got ==> q.nodes[k].open))
  {
  }

  /** A node that is marked connected has a handle. */
  predicate Sound(p: PoolValue)
    requires PoolOk(p)
  {
    forall k :: 0 <= k < p.poolNumber && p.nodes[k].conn ==> p.nodes[k].open
  }

  /** A node that could not be connected for one caller cannot be had by the next whose attempt fails too. */
  lemma FailedStaysDown(p: PoolValue, k: nat, c: Connect, ping: bool, d: Connect, pong: bool)
    requires PoolOk(p) && k < p.poolNumber && !p.nodes[k].locked && !p.nodes[k].conn && c != Connected && d != Connected
    ensures var q := Probe(p, k, c, ping).0;
            !Probe(p, k, c, ping).1 && !Usable(q, k, d, pong) && !Probe(q, k, d, pong).1
  {
    ProbeOutcome(p, k, c, ping);
    ProbeOutcome(Probe(p, k, c, ping).0, k, d, pong);
  }

  /** The scan from probe number `i` on: the pool it leaves and the node it hands out. */
  function Scan(p: PoolValue, start: nat, i: nat, c: nat -> Connect, ping: nat -> bool): (r: (PoolValue, Option<nat>))
    requires PoolOk(p) && start < p.poolNumber
    ensures PoolOk(r.0)
    decreases p.poolNumber - i
  {
    if i >= p.poolNumber then (p, None)
    else
      var k := ProbeAt(start, i, p.poolNumber);
      var (q, got) := Probe(p, k, c(k), ping(k));
      ProbeOutcome(p, k, c(k), ping(k));
      if got then (q, Some(k)) else Scan(q, start, i + 1, c, ping)
  }

  predicate UsableAt(p: PoolValue, start: nat, i: nat, c: nat -> Connect, ping: nat -> bool)
    requires PoolOk(p) && start < p.poolNumber && i < p.poolNumber
  {
    var k := ProbeAt(start, i, p.poolNumber);
    Usable(p, k, c(k), ping(k))
  }

  /** How many nodes a scan from probe `i` on locks in vain before probe `end`. */
  function Failures(p: PoolValue, start: nat, i: nat, end: nat): nat
    requires PoolOk(p) && start < p.poolNumber && end <= p.poolNumber
    decreases end - i
  {
    if i >= end then 0
    else (if p.nodes[ProbeAt(start, i, p.poolNumber)].locked then 0 else 1) + Failures(p, start, i + 1, end)
  }

  /** The probe at which the scan from `i` on ends. */
  function EndOf(p: PoolValue, start: nat, i: nat, c: nat -> Connect, ping: nat -> bool): (e: nat)
    requires PoolOk(p) && start < p.poolNumber && i <= p.poolNumber
    ensures i <= e <= p.poolNumber
    decreases p.poolNumber - i
  {
    if i >= p.poolNumber || UsableAt(p, start, i, c, ping) then i else EndOf(p, start, i + 1, c, ping)
  }

  /** Nodes that a scan has yet to reach look the same in both pools. */
  predicate SameFrom(p: PoolValue, q: PoolValue, start: nat, i: nat)
    requires PoolOk(p) && PoolOk(q) && start < p.poolNumber
  {
    && p.poolNumber == q.poolNumber && p.shutdown == q.shutdown
    && forall j: nat :: i <= j < p.poolNumber ==> q.nodes[ProbeAt(start, j, p.poolNumber)] == p.nodes[ProbeAt(start, j, p.poolNumber)]
  }

  lemma {:induction false} SameScanEnd(p: PoolValue, q: PoolValue, start: nat, i: nat, c: nat -> Connect, ping: nat -> bool)
    requires PoolOk(p) && PoolOk(q) && start < p.poolNumber && i <= p.poolNumber && SameFrom(p, q, start, i)
    ensures EndOf(p, start, i, c, ping) == EndOf(q, start, i, c, ping)
    ensures forall e: nat :: e <= p.poolNumber ==> Failures(p, start, i, e) == Failures(q, start, i, e)
    decreases p.poolNumber - i
  {
    if i < p.poolNumber {
      assert q.nodes[ProbeAt(start, i, p.poolNumber)] == p.nodes[ProbeAt(start, i, p.poolNumber)];
      SameScanEnd(p, q, start, i + 1, c, ping);
    }
  }

  lemma ProbeKeepsRest(p: PoolValue, start: nat, i: nat, c: Connect, ping: bool)
    requires PoolOk(p) && start < p.poolNumber && i < p.poolNumber
    ensures SameFrom(p, Probe(p, ProbeAt(start, i, p.poolNumber), c, ping).0, start, i + 1)
  {
    hide Probe;
    ProbeOutcome(p, ProbeAt(start, i, p.poolNumber), c, ping);
  }

  /** A lone scan hands out the first usable node in cyclic order, or nothing when no node is usable;
      on the way every free node that fails costs one of `busy_number`. */
  lemma {:induction false} ScanFindsFirst(p: PoolValue, start: nat, i: nat, c: nat -> Connect, ping: nat -> bool)
    requires PoolOk(p) && start < p.poolNumber && i <= p.poolNumber
    ensures var (q, r) := Scan(p, start, i, c, ping);
            var end := EndOf(p, start, i, c, ping);
            && r == (if end < p.poolNumber then Some(ProbeAt(start, end, p.poolNumber)) else None)
            && q.busyNumber == p.busyNumber - Failures(p, start, i, end) + (if r.Some? then 1 else 0)
            && q.poolNumber == p.poolNumber && q.shutdown == p.shutdown
    decreases p.poolNumber - i
  {
    hide Probe, Usable, SameFrom;
    if i < p.poolNumber {
      var k := ProbeAt(start, i, p.poolNumber);
      var (q, got) := Probe(p, k, c(k), ping(k));
      ProbeOutcome(p, k, c(k), ping(k));
      if !got {
        ProbeKeepsRest(p, start, i, c(k), ping(k));
        SameScanEnd(p, q, start, i + 1, c, ping);
        ScanFindsFirst(q, start, i + 1, c, ping);
      }
    }
  }

  /** What a lone scan hands out is connected, marked used, and has a handle. */
  lemma {:induction false} ScanHandsOutHandle(p: PoolValue, start: nat, i: nat, c: nat -> Connect, ping: nat -> bool)
    requires PoolOk(p) && start < p.poolNumber && Sound(p)
    ensures var (q, r) := Scan(p, start, i, c, ping);
            Sound(q) && (r.Some? ==> r.value < p.poolNumber && q.nodes[r.value].open && q.nodes[r.value].conn && q.nodes[r.value].used)
    decreases p.poolNumber - i
  {
    hide Probe, Sound;
    if i < p.poolNumber {
      var k := ProbeAt(start, i, p.poolNumber);
      ProbeOutcome(p, k, c(k), ping(k));
      var (q, got) := Probe(p, k, c(k), ping(k));
      if !got {
        ScanHandsOutHandle(q, start, i + 1, c, ping);
      }
    }
  }

  /** No node is usable exactly when the scan from its start finds nothing. */
  lemma {:induction false} EndIsFirstUsable(p: PoolValue, start: nat, i: nat, c: nat -> Connect, ping: nat -> bool)
    requires PoolOk(p) && start < p.poolNumber && i <= p.poolNumber
    ensures var end := EndOf(p, start, i, c, ping);
            && (forall j: nat :: i <= j < end ==> !UsableAt(p, start, j, c, ping))
            && (end < p.poolNumber ==> UsableAt(p, start, end, c, ping))
    decreases p.poolNumber - i
  {
    if i < p.poolNumber && !UsableAt(p, start, i, c, ping) {
      EndIsFirstUsable(p, start, i + 1, c, ping);
    }
  }

  /** A lone caller gets nothing exactly when every node is locked, cannot be connected or does not answer. */
  lemma NothingMeansNothingUsable(p: PoolValue, start: nat, c: nat -> Connect, ping: nat -> bool)
    requires PoolOk(p) && start < p.poolNumber
    ensures Scan(p, start, 0, c, ping).1 == None <==> forall k: nat :: k < p.poolNumber ==> !Usable(p, k, c(k), ping(k))
  {
    ScanFindsFirst(p, start, 0, c, ping);
    EndIsFirstUsable(p, start, 0, c, ping);
    CycleVisitsEachOnce(start, p.poolNumber);
    var end := EndOf(p, start, 0, c, ping);
    if end == p.poolNumber {
      forall k: nat | k < p.poolNumber ensures !Usable(p, k, c(k), ping(k)) {
        assert !UsableAt(p, start, ProbeOf(start, k, p.poolNumber), c, ping);
      }
    }
  }

  // ---- Resizing and closing

  function Clamp(minNum: int): nat {
    if minNum < 1 then 1 else if minNum > SQL_POOL_NODE_NUM then SQL_POOL_NODE_NUM else minNum
  }

  function Closed(n: Node): Node {
    n.(open := false, conn := false)
  }

  /** `sql_pool_destroy`: its loop bound shrinks as its index grows, so it stops half way. */
  function Destroyed(p: PoolValue): (r: PoolValue)
    requires PoolOk(p)
    ensures PoolOk(r)
  {
    p.(shutdown := true,
       nodes := seq(SQL_POOL_NODE_NUM, k requires 0 <= k < SQL_POOL_NODE_NUM =>
                if k < (p.poolNumber + 1) / 2 then Closed(p.nodes[k]) else p.nodes[k]),
       poolNumber := p.poolNumber / 2)
  }

  /** Creating nodes until there are `end`, or until an attempt fails and the pool is destroyed. */
  function GrowTo(p: PoolValue, end: int, c: nat -> Connect): (r: (PoolValue, bool))
    requires PoolOk(p) && end <= SQL_POOL_NODE_NUM
    ensures PoolOk(r.0)
    decreases end - p.poolNumber
  {
    if p.poolNumber >= end then (p, true)
    else
      var k := p.poolNumber;
      var (q, res) := Create(p, k, c(k));
      if res != 0 then (Destroyed(q), false)
      else GrowTo(SetNode(q, k, q.nodes[k].(index := k)).(poolNumber := k + 1), end, c)
  }

  /** Closing the last `vary` nodes, or all of them when there are fewer. */
  function Shrunk(p: PoolValue, vary: int): (r: PoolValue)
    requires PoolOk(p)
    ensures PoolOk(r)
  {
    var left := if vary <= 0 then p.poolNumber else if vary >= p.poolNumber then 0 else p.poolNumber - vary;
    p.(nodes := seq(SQL_POOL_NODE_NUM, k requires 0 <= k < SQL_POOL_NODE_NUM =>
                if left <= k < p.poolNumber then Closed(p.nodes[k]) else p.nodes[k]),
       poolNumber := left)
  }

  datatype Vary = INCREASE | DECREASE

  class ConnPool {
    var shutdown: bool
    var nodes: array<Node>
    var poolNumber: int
    var busyNumber: int

    ghost function Value(): PoolValue
      reads this, nodes
    {
      PoolValue(shutdown, nodes[..], poolNumber, busyNumber)
    }

    ghost predicate Valid()
      reads this, nodes
    {
      PoolOk(Value())
    }

    /** The allocation in `sql_pool_create`: the nodes hold whatever the memory held. */
    constructor (raw: seq<Node>)
      requires |raw| == SQL_POOL_NODE_NUM
      ensures Valid() && fresh(nodes)
      ensures Value() == PoolValue(false, raw, 0, 0)
    {
      shutdown, poolNumber, busyNumber := false, 0, 0;
      nodes := new Node[SQL_POOL_NODE_NUM](i requires 0 <= i < SQL_POOL_NODE_NUM => raw[i]);
    }

    method CreateDbConnect(k: nat, c: Connect) returns (res: int)
      requires Valid() && k < SQL_POOL_NODE_NUM
      modifies nodes
      ensures Valid() && (Value(), res) == Create(old(Value()), k, c)
      ensures res == 0 ==> nodes[k].open && nodes[k].conn && !nodes[k].used && !nodes[k].locked
      ensures res == 1 ==> !nodes[k].open && !nodes[k].conn && !nodes[k].locked
      ensures res == -1 ==> nodes[k] == if shutdown then old(nodes[k]) else old(nodes[k]).(locked := false)
      ensures res == (if shutdown || c == InitFails then -1 else if c == ConnectFails then 1 else 0)
      ensures forall j :: 0 <= j < SQL_POOL_NODE_NUM && j != k ==> nodes[j] == old(nodes[j])
    {
      if shutdown {
        return -1;
      }
      ghost var before := Value();
      nodes[k] := nodes[k].(locked := false);
      if c == InitFails {
        return -1;
      }
      if c == ConnectFails {
        nodes[k] := nodes[k].(open := false);
        nodes[k] := nodes[k].(conn := false);
        assert nodes[..] == Create(before, k, c).0.nodes;
        return 1;
      }
      nodes[k] := nodes[k].(open := true);
      nodes[k] := nodes[k].(used := false);
      nodes[k] := nodes[k].(conn := true);
      assert nodes[..] == Create(before, k, c).0.nodes;
      return 0;
    }

    method ReleaseSqlNode(k: nat)
      requires Valid() && k < SQL_POOL_NODE_NUM
      modifies this`busyNumber, nodes
      ensures Valid() && Value() == Release(old(Value()), k)
      ensures busyNumber == old(busyNumber) - 1 && nodes[k] == old(nodes[k]).(used := false, locked := false)
      ensures forall j :: 0 <= j < SQL_POOL_NODE_NUM && j != k ==> nodes[j] == old(nodes[j])
    {
      nodes[k] := nodes[k].(used := false);
      busyNumber := busyNumber - 1;
      nodes[k] := nodes[k].(locked := false);
    }

    /** One attempt of the scan's loop body. */
    method TryNode(k: nat, c: Connect, ping: bool) returns (got: bool)
      requires Valid() && k < SQL_POOL_NODE_NUM
      modifies this`busyNumber, nodes
      ensures Valid() && (Value(), got) == Probe(old(Value()), k, c, ping)
    {
      if nodes[k].locked {
        return false;
      }
      nodes[k] := nodes[k].(locked := true);
      if !nodes[k].conn {
        var res := CreateDbConnect(k, c);
        if res != 0 {
          ReleaseSqlNode(k);
          return false;
        }
      }
      if !ping {
        nodes[k] := nodes[k].(conn := false);
        ReleaseSqlNode(k);
        return false;
      }
      nodes[k] := nodes[k].(used := true);
      busyNumber := busyNumber + 1;
      return true;
    }

    /** `get_db_connect` without interference, from a random start. */
    method GetDbConnect(start: nat, c: nat -> Connect, ping: nat -> bool) returns (r: Option<nat>)
      requires Valid() && (shutdown || start < poolNumber)
      modifies this`busyNumber, nodes
      ensures Valid()
      ensures old(shutdown) ==> r == None && Value() == old(Value())
      ensures !old(shutdown) ==> (Value(), r) == Scan(old(Value()), start, 0, c, ping)
    {
      hide Probe;
      if shutdown {
        return None;
      }
      var i := 0;
      while i < poolNumber
        invariant Valid() && 0 <= i && poolNumber == old(poolNumber) && shutdown == old(shutdown)
        invariant Scan(Value(), start, i, c, ping) == Scan(old(Value()), start, 0, c, ping)
      {
        PlaceIsRemainder(start + i, poolNumber);
        var index := (start + i) % poolNumber;
        ProbeOutcome(Value(), index, c(index), ping(index));
        var got := TryNode(index, c(index), ping(index));
        if got {
          return Some(index);
        }
        i := i + 1;
      }
      return None;
    }

    /** `sql_pool_destroy`. */
    method SqlPoolDestroy()
      requires Valid()
      modifies this`shutdown, this`poolNumber, nodes
      ensures Valid() && Value() == Destroyed(old(Value()))
    {
      ghost var before, n := Value(), poolNumber;
      shutdown := true;
      var index := 0;
      while index < poolNumber
        invariant shutdown && 0 <= index && poolNumber + index == n && index <= (n + 1) / 2
        invariant forall k :: 0 <= k < SQL_POOL_NODE_NUM ==>
                    nodes[k] == if k < index then Closed(old(nodes[k])) else old(nodes[k])
      {
        if nodes[index].open {
          nodes[index] := nodes[index].(open := false);
        }
        nodes[index] := nodes[index].(conn := false);
        poolNumber := poolNumber - 1;
        index := index + 1;
      }
      assert index == (n + 1) / 2 && poolNumber == n / 2;
      assert nodes[..] == Destroyed(before).nodes;
    }

    /** The loop that `sql_pool_create` and an increase share; false stands for a null result. */
    method GrowNodes(end: int, c: nat -> Connect) returns (ok: bool)
      requires Valid() && end <= SQL_POOL_NODE_NUM
      modifies this`shutdown, this`poolNumber, nodes
      ensures Valid() && (Value(), ok) == GrowTo(old(Value()), end, c)
    {
      hide Create, Destroyed;
      var index := poolNumber;
      while index < end
        invariant Valid() && index == poolNumber
        invariant GrowTo(Value(), end, c) == GrowTo(old(Value()), end, c)
      {
        var res := CreateDbConnect(index, c(index));
        if res != 0 {
          SqlPoolDestroy();
          return false;
        }
        nodes[index] := nodes[index].(index := index);
        poolNumber := poolNumber + 1;
        index := index + 1;
      }
      return true;
    }

    /** `sql_change_node`: an increase must stay within the array. */
    method SqlChangeNode(mode: Vary, vary: int, c: nat -> Connect) returns (ok: bool)
      requires Valid() && (mode == INCREASE ==> poolNumber + vary <= SQL_POOL_NODE_NUM)
      modifies this`shutdown, this`poolNumber, nodes
      ensures Valid()
      ensures mode == INCREASE ==> (Value(), ok) == GrowTo(old(Value()), old(poolNumber) + vary, c)
      ensures mode == DECREASE ==> ok && Value() == Shrunk(old(Value()), vary)
    {
      if mode == INCREASE {
        ok := GrowNodes(poolNumber + vary, c);
        return;
      }
      ghost var before, n := Value(), poolNumber;
      var endIndex := poolNumber - vary - 1;
      var index := poolNumber - 1;
      while index > endIndex && index >= 0
        invariant shutdown == old(shutdown) && index == poolNumber - 1 && -1 <= index < n && (vary >= 0 && endIndex >= -1 ==> index >= endIndex)
        invariant vary <= 0 ==> index == n - 1
        invariant forall k :: 0 <= k < SQL_POOL_NODE_NUM ==>
                    nodes[k] == if index < k < n then Closed(old(nodes[k])) else old(nodes[k])
      {
        if nodes[index].open {
          nodes[index] := nodes[index].(open := false);
        }
        nodes[index] := nodes[index].(conn := false);
        poolNumber := poolNumber - 1;
        index := index - 1;
      }
      assert nodes[..] == Shrunk(before, vary).nodes;
      ok := true;
    }
  }

  /** `sql_pool_create`. */
  method SqlPoolCreate(minNum: int, raw: seq<Node>, c: nat -> Connect) returns (p: ConnPool?)
    requires |raw| == SQL_POOL_NODE_NUM
    ensures p != null <==> GrowTo(PoolValue(false, raw, 0, 0), Clamp(minNum), c).1
    ensures p != null ==> fresh(p) && p.Valid() && p.Value() == GrowTo(PoolValue(false, raw, 0, 0), Clamp(minNum), c).0
  {
    var pool := new ConnPool(raw);
    var ok := pool.GrowNodes(if minNum < 1 then 1 else if minNum > SQL_POOL_NODE_NUM then SQL_POOL_NODE_NUM else minNum, c);
    p := if ok then pool else null;
  }
}
