/** What creating, resizing and closing a pool leave behind, for every pool and every failure of the database. */
module SqlResize {
  import opened SqlPool

  predicate IsClosed(n: Node) {
    !n.open && !n.conn
  }

  predicate AllClosed(p: PoolValue, n: nat)
    requires n <= |p.nodes|
  {
    forall k :: 0 <= k < n ==> IsClosed(p.nodes[k])
  }

  // ---- Closing the pool

  /** Destroying a pool of n nodes touches only the first ⌈n/2⌉ of them; all n are closed exactly when
      the others were closed before. */
  lemma DestroyReachesHalf(p: PoolValue)
    requires PoolOk(p)
    ensures Destroyed(p).shutdown && Destroyed(p).poolNumber == p.poolNumber / 2 && Destroyed(p).busyNumber == p.busyNumber
    ensures forall k :: 0 <= k < (p.poolNumber + 1) / 2 ==> Destroyed(p).nodes[k] == p.nodes[k].(open := false, conn := false)
    ensures forall k :: (p.poolNumber + 1) / 2 <= k < SQL_POOL_NODE_NUM ==> Destroyed(p).nodes[k] == p.nodes[k]
    ensures AllClosed(Destroyed(p), p.poolNumber) <==> (forall k :: (p.poolNumber + 1) / 2 <= k < p.poolNumber ==> IsClosed(p.nodes[k]))
  {
    if AllClosed(Destroyed(p), p.poolNumber) {
      forall k | (p.poolNumber + 1) / 2 <= k < p.poolNumber ensures IsClosed(p.nodes[k]) {
        assert IsClosed(Destroyed(p).nodes[k]);
      }
    }
  }

  function OpenPool(n: nat): (p: PoolValue)
    requires n <= SQL_POOL_NODE_NUM
    ensures PoolOk(p) && p.poolNumber == n
  {
    PoolValue(false, seq(SQL_POOL_NODE_NUM, k => Node(true, false, false, k, true)), n, 0)
  }

  predicate DestroyClosesAll(p: PoolValue)
    requires PoolOk(p)
  {
    AllClosed(Destroyed(p), p.poolNumber)
  }

  /** The intended "every connection is closed" holds of all pools with n nodes only when n is 0 or 1. */
  lemma DestroyClosesEveryPoolIff(n: nat)
    requires n <= SQL_POOL_NODE_NUM
    ensures (forall p :: PoolOk(p) && p.poolNumber == n ==> DestroyClosesAll(p)) <==> n <= 1
  {
    var p := OpenPool(n);
    DestroyReachesHalf(p);
    if n > 1 {
      assert !IsClosed(p.nodes[n - 1]);
      assert !DestroyClosesAll(p);
    } else {
      forall p | PoolOk(p) && p.poolNumber == n ensures DestroyClosesAll(p) {
        DestroyReachesHalf(p);
      }
    }
  }

  // ---- Creating nodes

  /** The first node from `i` on that cannot be created, or `end`. */
  function FirstFailure(shutdown: bool, i: nat, end: int, c: nat -> Connect): (f: nat)
    ensures f >= i && (f < end ==> shutdown || c(f) != Connected)
    ensures forall k: nat :: i <= k < f ==> k < end && !shutdown && c(k) == Connected
    decreases end - i
  {
    if i >= end || shutdown || c(i) != Connected then i else FirstFailure(shutdown, i + 1, end, c)
  }

  function Created(k: nat): Node {
    Node(true, false, false, k, true)
  }

  /** The nodes after those from `lo` up to `hi` have been created. */
  function Extended(p: PoolValue, lo: nat, hi: nat, k: nat): Node
    requires k < |p.nodes|
  {
    if lo <= k < hi then Created(k) else p.nodes[k]
  }

  predicate GrownBy(p: PoolValue, end: int, q: PoolValue)
    requires PoolOk(p) && PoolOk(q)
  {
    && q.poolNumber == (if end > p.poolNumber then end else p.poolNumber)
    && q.shutdown == p.shutdown && q.busyNumber == p.busyNumber
    && forall k: nat :: k < SQL_POOL_NODE_NUM ==> q.nodes[k] == Extended(p, p.poolNumber, q.poolNumber, k)
  }

  predicate GivenUpAt(p: PoolValue, f: nat, q: PoolValue)
    requires PoolOk(p) && PoolOk(q) && f < SQL_POOL_NODE_NUM
  {
    && q.shutdown && q.poolNumber == f / 2 && q.busyNumber == p.busyNumber
    && (forall k: nat :: k < (f + 1) / 2 ==> IsClosed(q.nodes[k]))
    && (forall k: nat :: (f + 1) / 2 <= k < f ==> q.nodes[k] == Extended(p, p.poolNumber, f, k))
  }

  /** The pool once its next node is there. */
  function OneMore(p: PoolValue): (r: PoolValue)
    requires PoolOk(p) && p.poolNumber < SQL_POOL_NODE_NUM
    ensures PoolOk(r)
  {
    p.(nodes := p.nodes[p.poolNumber := Created(p.poolNumber)], poolNumber := p.poolNumber + 1)
  }

  lemma CreatesNode(p: PoolValue, k: nat)
    requires PoolOk(p) && k == p.poolNumber < SQL_POOL_NODE_NUM && !p.shutdown
    ensures var q := Create(p, k, Connected).0;
            SetNode(q, k, q.nodes[k].(index := k)).(poolNumber := k + 1) == OneMore(p)
  {
  }

  lemma FailsToCreate(p: PoolValue, c: Connect)
    requires PoolOk(p) && p.poolNumber < SQL_POOL_NODE_NUM && (p.shutdown || c != Connected)
    ensures GivenUpAt(p, p.poolNumber, Destroyed(Create(p, p.poolNumber, c).0))
  {
    var q := Create(p, p.poolNumber, c).0;
    assert forall k :: 0 <= k < p.poolNumber ==> q.nodes[k] == p.nodes[k];
    DestroyReachesHalf(q);
  }

  lemma NothingToGrow(p: PoolValue, end: int)
    requires PoolOk(p) && end <= p.poolNumber
    ensures GrownBy(p, end, p)
  {
  }

  lemma GrownOnceMore(p: PoolValue, end: int, q: PoolValue)
    requires PoolOk(p) && PoolOk(q) && p.poolNumber < end <= SQL_POOL_NODE_NUM && GrownBy(OneMore(p), end, q)
    ensures GrownBy(p, end, q)
  {
  }

  lemma GivenUpLater(p: PoolValue, f: nat, q: PoolValue)
    requires PoolOk(p) && PoolOk(q) && p.poolNumber < f < SQL_POOL_NODE_NUM && GivenUpAt(OneMore(p), f, q)
    ensures GivenUpAt(p, f, q)
  {
  }

  /** Growing either creates every missing node and touches no other, or stops at the first failure f
      with the pool shut down, the lower half of the f nodes closed and the upper half still open. */
  lemma {:induction false} GrowAllOrGiveUp(p: PoolValue, end: int, c: nat -> Connect)
    requires PoolOk(p) && end <= SQL_POOL_NODE_NUM
    ensures var (q, ok) := GrowTo(p, end, c);
            var f := FirstFailure(p.shutdown, p.poolNumber, end, c);
            if f >= end then ok && GrownBy(p, end, q) else !ok && GivenUpAt(p, f, q)
    decreases end - p.poolNumber
  {
    hide Create, Destroyed, SetNode, GrownBy, GivenUpAt;
    var k: nat := p.poolNumber;
    if k >= end {
      NothingToGrow(p, end);
    } else if p.shutdown || c(k) != Connected {
      FailsToCreate(p, c(k));
    } else {
      CreatesNode(p, k);
      var (q, ok) := GrowTo(OneMore(p), end, c);
      GrowAllOrGiveUp(OneMore(p), end, c);
      if ok {
        GrownOnceMore(p, end, q);
      } else {
        GivenUpLater(p, FirstFailure(p.shutdown, k + 1, end, c), q);
      }
    }
  }

  /** `sql_pool_create` succeeds exactly when every attempt does, and then has min_num nodes, kept within 1 to 20. */
  lemma CreateYieldsClampedPool(minNum: int, raw: seq<Node>, c: nat -> Connect)
    requires |raw| == SQL_POOL_NODE_NUM
    ensures var (q, ok) := GrowTo(PoolValue(false, raw, 0, 0), Clamp(minNum), c);
            && (ok <==> forall k: nat :: k < Clamp(minNum) ==> c(k) == Connected)
            && (ok ==> 1 <= q.poolNumber <= SQL_POOL_NODE_NUM && q.poolNumber == Clamp(minNum))
            && (1 <= minNum <= 20 ==> Clamp(minNum) == minNum)
            && (minNum < 1 ==> Clamp(minNum) == 1) && (minNum > 20 ==> Clamp(minNum) == 20)
            && (ok ==> forall k: nat :: k < q.poolNumber ==> q.nodes[k] == Node(true, false, false, k, true))
  {
    GrowAllOrGiveUp(PoolValue(false, raw, 0, 0), Clamp(minNum), c);
  }

  /** A creation that fails at its attempt f leaves exactly ⌊f/2⌋ of the f connections it made open. */
  lemma FailedCreateLeaks(minNum: int, raw: seq<Node>, c: nat -> Connect)
    requires |raw| == SQL_POOL_NODE_NUM && FirstFailure(false, 0, Clamp(minNum), c) < Clamp(minNum)
    ensures var f := FirstFailure(false, 0, Clamp(minNum), c);
            var q := GrowTo(PoolValue(false, raw, 0, 0), Clamp(minNum), c).0;
            forall k: nat :: k < f ==> (q.nodes[k].open <==> k >= f - f / 2)
  {
    GrowAllOrGiveUp(PoolValue(false, raw, 0, 0), Clamp(minNum), c);
    var f := FirstFailure(false, 0, Clamp(minNum), c);
    var q := GrowTo(PoolValue(false, raw, 0, 0), Clamp(minNum), c).0;
    forall k: nat | k < f ensures q.nodes[k].open <==> k >= f - f / 2 {
      if k < (f + 1) / 2 {
        assert IsClosed(q.nodes[k]);
      }
    }
  }

  // ---- Resizing

  /** A decrease by `vary` removes min(max(vary, 0), n) nodes, the last ones, and closes exactly those. */
  lemma ShrinkRemoves(p: PoolValue, vary: int)
    requires PoolOk(p)
    ensures var removed := p.poolNumber - Shrunk(p, vary).poolNumber;
            && 0 <= removed <= p.poolNumber && (0 <= vary <= p.poolNumber ==> removed == vary)
            && (vary < 0 ==> removed == 0) && (vary > p.poolNumber ==> removed == p.poolNumber)
            && (forall k :: Shrunk(p, vary).poolNumber <= k < p.poolNumber ==>
                  Shrunk(p, vary).nodes[k] == p.nodes[k].(open := false, conn := false))
            && Shrunk(p, vary).shutdown == p.shutdown && Shrunk(p, vary).busyNumber == p.busyNumber
            && Shrunk(p, vary).nodes[..Shrunk(p, vary).poolNumber] == p.nodes[..Shrunk(p, vary).poolNumber]
            && Shrunk(p, vary).nodes[p.poolNumber..] == p.nodes[p.poolNumber..]
  {
  }

  /** A successful increase undone by the same decrease: the old nodes are as they were. */
  lemma IncreaseThenDecrease(p: PoolValue, vary: nat, c: nat -> Connect)
    requires PoolOk(p) && p.poolNumber + vary <= SQL_POOL_NODE_NUM
    requires GrowTo(p, p.poolNumber + vary, c).1
    ensures var q := Shrunk(GrowTo(p, p.poolNumber + vary, c).0, vary);
            && q.poolNumber == p.poolNumber && q.shutdown == p.shutdown && q.busyNumber == p.busyNumber
            && q.nodes[..p.poolNumber] == p.nodes[..p.poolNumber]
            && (forall k :: p.poolNumber <= k < p.poolNumber + vary ==> IsClosed(q.nodes[k]))
  {
    GrowAllOrGiveUp(p, p.poolNumber + vary, c);
    hide Shrunk, GrowTo;
    var g := GrowTo(p, p.poolNumber + vary, c).0;
    ShrinkRemoves(g, vary);
    assert g.nodes[..p.poolNumber] == p.nodes[..p.poolNumber];
  }

  /** A decrease undone by the same increase: the lower nodes are as they were, the upper ones connected anew. */
  lemma DecreaseThenIncrease(p: PoolValue, vary: nat, c: nat -> Connect)
    requires PoolOk(p) && vary <= p.poolNumber
    ensures var left := p.poolNumber - vary;
            var (q, ok) := GrowTo(Shrunk(p, vary), p.poolNumber, c);
            && (ok <==> vary == 0 || (!p.shutdown && forall k: nat :: left <= k < p.poolNumber ==> c(k) == Connected))
            && (ok ==> q.poolNumber == p.poolNumber && q.nodes[..left] == p.nodes[..left])
            && (ok ==> forall k: nat :: left <= k < p.poolNumber ==> q.nodes[k] == Created(k))
  {
    GrowAllOrGiveUp(Shrunk(p, vary), p.poolNumber, c);
    ShrinkRemoves(p, vary);
    hide GrowTo;
    var q := GrowTo(Shrunk(p, vary), p.poolNumber, c).0;
    var left := p.poolNumber - vary;
    if GrowTo(Shrunk(p, vary), p.poolNumber, c).1 {
      forall k | 0 <= k < left ensures q.nodes[k] == p.nodes[k] {
        assert Shrunk(p, vary).nodes[k] == p.nodes[..left][k];
      }
      assert q.nodes[..left] == p.nodes[..left];
    }
  }
}
