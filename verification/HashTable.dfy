/**
 The URL table of src/hash_table_operation.c: an array of buckets, each the
 head of a chain of nodes linked through `pNext`.
 */
module HashTable {
  import opened CText
  import opened UrlHash

  /** What the table stores for a URL. */
  datatype Entry = Entry(szFilePath: string, timeNum: int)

  type Table = map<string, Entry>

  /** First-writer-wins insertion, with 1 for "inserted" and 0 for "already there". */
  function Push(m: Table, url: string, e: Entry): (r: (Table, int))
    ensures r.1 == 0 || r.1 == 1
    ensures m.Keys <= r.0.Keys && forall u :: u in m ==> r.0[u] == m[u]
  {
    if url in m then (m, 0) else (m[url := e], 1)
  }

  /** An operation on the table that can change it. */
  datatype Op = OpPush(url: string, entry: Entry) | OpDestroy

  /** The map that a run of operations leaves, starting from an empty table. */
  function Run(ops: seq<Op>): Table {
    if ops == [] then map[]
    else
      var m := Run(ops[..|ops| - 1]);
      match ops[|ops| - 1]
      case OpPush(url, e) => Push(m, url, e).0
      case OpDestroy => map[]
  }

  /** No destroy follows operation `k`, and any earlier push of the URL was wiped out before it. */
  ghost predicate FirstWriter(ops: seq<Op>, k: nat, url: string) {
    && k < |ops| && ops[k].OpPush? && ops[k].url == url
    && (forall j :: k < j < |ops| ==> !ops[j].OpDestroy?)
    && (forall j :: 0 <= j < k && ops[j].OpPush? && ops[j].url == url ==> exists d :: j < d < k && ops[d].OpDestroy?)
  }

  /** After any run, a URL is in the table exactly when it has a first writer, and then with that writer's entry. */
  lemma {:induction false} FirstWriterWins(ops: seq<Op>, url: string)
    ensures url in Run(ops) <==> exists k: nat :: FirstWriter(ops, k, url)
    ensures forall k: nat :: FirstWriter(ops, k, url) ==> url in Run(ops) && Run(ops)[url] == ops[k].entry
  {
    if ops != [] {
      var n := |ops| - 1;
      var before := ops[..n];
      FirstWriterWins(before, url);
      if ops[n].OpPush? {
        FirstWriterKept(ops, n, url);
        if url !in Run(before) && ops[n].url == url {
          NoWriterYet(ops, n, url);
        }
      } else {
        assert forall k: nat :: k <= n ==> !FirstWriter(ops, k, url);
      }
    }
  }

  lemma EarlierWriterKept(ops: seq<Op>, n: nat, k: nat, url: string)
    requires |ops| == n + 1 && ops[n].OpPush? && k < n
    ensures FirstWriter(ops, k, url) <==> FirstWriter(ops[..n], k, url)
  {
    var before := ops[..n];
    assert forall j :: 0 <= j < n ==> before[j] == ops[j];
  }

  lemma LastWriterIsFirst(ops: seq<Op>, n: nat, k: nat, url: string)
    requires |ops| == n + 1 && FirstWriter(ops, n, url)
    ensures !FirstWriter(ops[..n], k, url)
  {
    if k < n && ops[k].OpPush? && ops[k].url == url {
      var d :| k < d < n && ops[d].OpDestroy?;
      assert ops[..n][d].OpDestroy?;
    }
  }

  /** A push after the run does not change who wrote first. */
  lemma FirstWriterKept(ops: seq<Op>, n: nat, url: string)
    requires |ops| == n + 1 && ops[n].OpPush?
    ensures forall k: nat :: k < n ==> (FirstWriter(ops, k, url) <==> FirstWriter(ops[..n], k, url))
    ensures FirstWriter(ops, n, url) ==> forall k: nat :: !FirstWriter(ops[..n], k, url)
    ensures FirstWriter(ops, n, url) ==> ops[n].url == url
  {
    assert FirstWriter(ops, n, url) ==> ops[n].url == url;
    hide FirstWriter;
    forall k: nat | k < n ensures FirstWriter(ops, k, url) <==> FirstWriter(ops[..n], k, url) {
      EarlierWriterKept(ops, n, k, url);
    }
    if FirstWriter(ops, n, url) {
      forall k: nat ensures !FirstWriter(ops[..n], k, url) {
        LastWriterIsFirst(ops, n, k, url);
      }
    }
  }

  /** A push with no destroy after it has a first writer at or before it. */
  lemma {:induction false} EarliestPush(ops: seq<Op>, j: nat, url: string)
    requires j < |ops| && ops[j].OpPush? && ops[j].url == url
    requires forall d :: j < d < |ops| ==> !ops[d].OpDestroy?
    ensures exists k: nat :: FirstWriter(ops, k, url)
    decreases j
  {
    if !FirstWriter(ops, j, url) {
      var i :| 0 <= i < j && ops[i].OpPush? && ops[i].url == url && forall d :: i < d < j ==> !ops[d].OpDestroy?;
      EarliestPush(ops, i, url);
    }
  }

  /** A URL that the table does not hold has had no push since the last destroy. */
  lemma NoWriterYet(ops: seq<Op>, n: nat, url: string)
    requires |ops| == n + 1 && ops[n].OpPush? && ops[n].url == url
    requires forall k: nat :: !FirstWriter(ops[..n], k, url)
    ensures FirstWriter(ops, n, url)
  {
    forall j | 0 <= j < n && ops[j].OpPush? && ops[j].url == url ensures exists d :: j < d < n && ops[d].OpDestroy? {
      if forall d :: j < d < n ==> !ops[d].OpDestroy? {
        EarliestPush(ops[..n], j, url);
      }
    }
  }

  class Node {
    var url: string
    var szFilePath: string
    var timeNum: int
    var pNext: Node?
    var hashLen: int

    constructor (url: string, szFilePath: string, timeNum: int)
      ensures this.url == url && this.szFilePath == szFilePath && this.timeNum == timeNum
      ensures pNext == null && hashLen == HASH_LEN
    {
      this.url, this.szFilePath, this.timeNum := url, szFilePath, timeNum;
      pNext, hashLen := null, HASH_LEN;
    }
  }

  /** The node after place `i` of a chain, or null. */
  ghost function Succ(c: seq<Node>, i: nat): Node? {
    if i + 1 < |c| then c[i + 1] else null
  }

  class UrlTable {
    var buckets: array<Node?>
    /** The nodes of each chain in order, the map they stand for, and the nodes allocated and not yet freed. */
    ghost var chains: seq<seq<Node>>
    ghost var model: Table
    ghost var live: set<Node>

    /** Chain `b` hangs off bucket `b`, runs through live nodes and ends in null. */
    ghost predicate Linked(b: nat)
      requires b < |chains| <= buckets.Length
      reads this, buckets, live
    {
      && buckets[b] == (if chains[b] == [] then null else chains[b][0])
      && (forall i: nat :: i < |chains[b]| ==> chains[b][i] in live)
      && (forall i: nat :: i < |chains[b]| ==> LinkedAt(b, i))
    }

    ghost predicate LinkedAt(b: nat, i: nat)
      requires b < |chains| && i < |chains[b]| && chains[b][i] in live
      reads this, live
    {
      var c := chains[b];
      c[i].pNext == Succ(c, i)
    }

    ghost predicate StoresNode(b: nat, n: Node)
      reads this, n
    {
      Bucket(n.url) == b && n.url in model && model[n.url] == Entry(n.szFilePath, n.timeNum)
    }

    /** The URLs of chain `b` belong there, are pairwise different, and carry the model's entries. */
    ghost predicate Stores(b: nat)
      requires b < |chains| && forall i: nat :: i < |chains[b]| ==> chains[b][i] in live
      reads this, live
    {
      var c := chains[b];
      && (forall i :: 0 <= i < |c| ==> StoresNode(b, c[i]))
      && (forall i, j :: 0 <= i < j < |c| ==> c[i].url != c[j].url)
    }

    ghost predicate Holds(url: string)
      requires |chains| == HASH_LEN
      reads this, live
    {
      exists i :: 0 <= i < |chains[Bucket(url)]| && chains[Bucket(url)][i] in live && chains[Bucket(url)][i].url == url
    }

    ghost predicate Valid()
      reads this, buckets, live
    {
      && |chains| == HASH_LEN <= buckets.Length
      && live == AllMembers(chains)
      && (forall b: nat :: b < HASH_LEN ==> Linked(b) && Stores(b))
      && (forall url :: url in model ==> Holds(url))
    }

    lemma HeadAt(b: nat)
      requires Valid() && b < HASH_LEN
      ensures buckets[b] == null <==> chains[b] == []
    {
      hide Bucket;
      assert Linked(b);
    }

    lemma NodeAt(b: nat, i: nat)
      requires b < |chains| <= buckets.Length && Linked(b) && i < |chains[b]|
      ensures chains[b][i] in live
      ensures chains[b][i].pNext == Succ(chains[b], i)
    {
      assert LinkedAt(b, i);
    }

    lemma StoredAt(b: nat, i: nat)
      requires b < |chains| <= buckets.Length && Linked(b) && Stores(b) && i < |chains[b]|
      ensures StoresNode(b, chains[b][i])
    {
    }

    /** `hash_init`; the other operations need room for `HASH_LEN` buckets. */
    constructor (nLength: nat)
      ensures nLength >= HASH_LEN ==> Valid()
      ensures fresh(buckets) && buckets.Length == nLength && forall k :: 0 <= k < nLength ==> buckets[k] == null
      ensures model == map[] && chains == seq(HASH_LEN, _ => []) && live == {}
    {
      buckets := new Node?[nLength];
      chains := seq(HASH_LEN, _ => []);
      model := map[];
      live := {};
      new;
      for i := 0 to nLength
        invariant fresh(buckets) && buckets.Length == nLength
        invariant forall k :: 0 <= k < i ==> buckets[k] == null
        invariant model == map[] && chains == seq(HASH_LEN, _ => []) && live == {}
      {
        buckets[i] := null;
      }
      NoChains(chains);
    }

    /** `hash_search`: the node of the URL, or null. */
    method Search(url: string) returns (r: Node?)
      requires Valid()
      ensures r == null <==> url !in model
      ensures r != null ==> r in live && r.url == url && Entry(r.szFilePath, r.timeNum) == model[url]
    {
      hide Bucket;
      var node := BucketOf(url);
      ghost var c := chains[node];
      assert Linked(node) && Stores(node);
      var thash := buckets[node];
      ghost var i := 0;
      while thash != null
        invariant 0 <= i <= |c|
        invariant thash == if i < |c| then c[i] else null
        invariant forall k :: 0 <= k < i ==> c[k].url != url
        decreases |c| - i
      {
        if thash.url == url {
          return thash;
        }
        NodeAt(node, i);
        thash := thash.pNext;
        i := i + 1;
      }
      assert !Holds(url);
      return null;
    }

    /** The walk to the end of a chain that is not empty. */
    method Last(node: nat) returns (last: Node)
      requires Valid() && node < HASH_LEN && buckets[node] != null
      ensures chains[node] != [] && last == chains[node][|chains[node]| - 1] && last in live
    {
      hide Bucket;
      ghost var c := chains[node];
      assert Linked(node);
      last := buckets[node];
      ghost var i := 0;
      while last.pNext != null
        invariant 0 <= i < |c| && last == c[i]
        decreases |c| - i
      {
        NodeAt(node, i);
        last := last.pNext;
        i := i + 1;
      }
      NodeAt(node, i);
    }

    /** Nodes in different places are different. */
    lemma NodesApart(b: nat, i: nat, d: nat, j: nat)
      requires Valid() && b < HASH_LEN && d < HASH_LEN && i < |chains[b]| && j < |chains[d]|
      requires chains[b][i] == chains[d][j]
      ensures b == d && i == j
    {
      hide Bucket;
      assert Linked(b) && Linked(d) && Stores(b) && Stores(d);
      StoredAt(b, i);
      StoredAt(d, j);
    }

    /** Between two states, node `n` was appended to chain `node` and nothing else changed. */
    twostate predicate Appended(node: nat, new n: Node)
      requires node < HASH_LEN && old(Valid())
      reads this, buckets, live, n
    {
      var c := old(chains)[node];
      && n !in old(live) && n.pNext == null
      && buckets == old(buckets)
      && chains == old(chains)[node := c + [n]]
      && live == old(live) + {n}
      && model == old(model)[n.url := Entry(n.szFilePath, n.timeNum)]
      && (forall k :: 0 <= k < HASH_LEN ==> buckets[k] == if k == node && c == [] then n else old(buckets[k]))
      && (forall m :: m in old(live) ==> m.url == old(m.url) && m.szFilePath == old(m.szFilePath) && m.timeNum == old(m.timeNum))
      && (forall m :: m in old(live) ==> m.pNext == if c != [] && m == c[|c| - 1] then n else old(m.pNext))
    }

    /** The old tail of the chain is in no other place. */
    twostate lemma OnlyTail(new node: nat, new b: nat, new i: nat)
      requires old(Valid()) && node < HASH_LEN && b < HASH_LEN && old(chains)[node] != [] && i < |old(chains)[b]|
      requires old(chains)[b][i] == old(chains)[node][|old(chains)[node]| - 1]
      ensures b == node && i == |old(chains)[node]| - 1
    {
      hide Bucket;
      assert old(Linked(b) && Linked(node) && Stores(b) && Stores(node));
      assert old(StoresNode(b, chains[b][i]));
      assert old(StoresNode(node, chains[node][|chains[node]| - 1]));
    }

    twostate lemma AppendedLinkedAt(new node: nat, new n: Node, new b: nat, new i: nat)
      requires node < HASH_LEN && old(Valid()) && Appended(node, n) && b < HASH_LEN && i < |chains[b]|
      ensures chains[b][i] in live && LinkedAt(b, i)
    {
      hide Bucket;
      assert old(Linked(b));
      var c := old(chains)[node];
      if i < |old(chains)[b]| {
        assert old(LinkedAt(b, i));
        if c != [] && old(chains)[b][i] == c[|c| - 1] {
          OnlyTail(node, b, i);
        }
      }
    }

    twostate lemma AppendedLinked(new node: nat, new n: Node, new b: nat)
      requires node < HASH_LEN && old(Valid()) && Appended(node, n) && b < HASH_LEN
      ensures Linked(b)
    {
      hide Bucket, LinkedAt;
      assert old(Linked(b));
      forall i: nat | i < |chains[b]| ensures chains[b][i] in live && LinkedAt(b, i) {
        AppendedLinkedAt(node, n, b, i);
      }
    }

    twostate lemma AppendedStores(new node: nat, new n: Node, new b: nat)
      requires node < HASH_LEN && old(Valid()) && Appended(node, n) && b < HASH_LEN
      requires n.url !in old(model) && Bucket(n.url) == node
      ensures Linked(b) && Stores(b)
    {
      hide Bucket;
      AppendedLinked(node, n, b);
      assert old(Linked(b) && Stores(b));
      forall i | 0 <= i < |chains[b]| ensures StoresNode(b, chains[b][i]) {
        if i < |old(chains)[b]| {
          assert old(StoresNode(b, chains[b][i]));
        }
      }
    }

    twostate lemma AppendedValid(new node: nat, new n: Node)
      requires node < HASH_LEN && old(Valid()) && Appended(node, n)
      requires n.url !in old(model) && Bucket(n.url) == node
      ensures Valid()
    {
      hide Bucket, AllMembers;
      AllMembersAppend(old(chains), node, n);
      forall b: nat | b < HASH_LEN ensures Linked(b) && Stores(b) {
        AppendedStores(node, n, b);
      }
      forall url | url in model ensures Holds(url) {
        if url != n.url {
          assert old(Holds(url));
          var i :| 0 <= i < |old(chains)[Bucket(url)]| && old(chains)[Bucket(url)][i] in old(live) && old(chains[Bucket(url)][i].url) == url;
          assert chains[Bucket(url)][i] == old(chains)[Bucket(url)][i];
        } else {
          assert chains[node][|old(chains)[node]|] == n;
        }
      }
    }

    /** `hash_push`: a new node goes to the end of its chain; the clock's day stands in for a zero time. */
    method HashPush(url: string, name: string, saveTime: int, today: string) returns (r: int)
      requires Valid()
      modifies this`chains, this`model, this`live, buckets, live
      ensures Valid() && fresh(live - old(live))
      ensures (model, r) == Push(old(model), url, Entry(name, if saveTime == 0 then Atoi(today) else saveTime))
      ensures r == 0 ==> chains == old(chains) && live == old(live) && unchanged(buckets) && unchanged(old(live))
      ensures r == 1 ==> exists n {:trigger n in live} :: fresh(n) && n in live && Appended(Bucket(url), n)
    {
      hide Bucket, Linked, Stores;
      var node := BucketOf(url);
      var found := Search(url);
      if found != null {
        return 0;
      }
      var clihash := new Node(url, name, if saveTime == 0 then Atoi(today) else saveTime);
      HeadAt(node);
      if buckets[node] == null {
        buckets[node] := clihash;
      } else {
        var last := Last(node);
        last.pNext := clihash;
      }
      chains := chains[node := chains[node] + [clihash]];
      live := live + {clihash};
      model := model[url := Entry(clihash.szFilePath, clihash.timeNum)];
      r := 1;
      AppendedValid(node, clihash);
    }

    /** `free`: the node must not have been freed before, and nothing is known of its fields afterwards. */
    method Free(n: Node)
      requires n in live
      modifies this`live, n
      ensures live == old(live) - {n}
    {
      live := live - {n};
    }

    /** Frees the first entries of the batch up to its first null. */
    method Flush(arr: array<Node?>, ghost batch: seq<Node>)
      requires arr.Length == 5 && |batch| <= 5
      requires forall j :: 0 <= j < |batch| ==> arr[j] == batch[j] && batch[j] in live
      requires forall j :: |batch| <= j < 5 ==> arr[j] == null
      requires forall j, l :: 0 <= j < l < |batch| ==> batch[j] != batch[l]
      modifies this`live, arr, batch
      ensures forall j :: 0 <= j < 5 ==> arr[j] == null
      ensures live == old(live) - Members(batch)
    {
      var j := 0;
      while j < 5
        invariant 0 <= j <= |batch|
        invariant forall l :: 0 <= l < 5 ==> arr[l] == if j <= l < |batch| then batch[l] else null
        invariant live == old(live) - Members(batch[..j])
      {
        if arr[j] != null {
          assert batch[..j + 1] == batch[..j] + [batch[j]];
          Free(arr[j]);
          arr[j] := null;
        } else {
          break;
        }
        j := j + 1;
      }
      assert batch[..j] == batch;
    }

    /** Frees the last `num` of the first `k` nodes of a chain. */
    method FlushPart(arr: array<Node?>, ghost c: seq<Node>, ghost k: nat, ghost num: nat)
      requires num <= 5 && num <= k <= |c|
      requires arr.Length == 5 && forall j :: 0 <= j < 5 ==> arr[j] == if j < num then c[k - num + j] else null
      requires forall j :: k - num <= j < |c| ==> c[j] in live
      requires forall i, j :: 0 <= i < j < |c| ==> c[i] != c[j]
      modifies this`live, arr, c
      ensures forall j :: 0 <= j < 5 ==> arr[j] == null
      ensures Members(c[..k - num]) + Members(c[k - num..k]) == Members(c[..k])
      ensures live == old(live) - Members(c[k - num..k])
      ensures forall i :: k <= i < |c| ==> c[i] in live && c[i].pNext == old(c[i].pNext)
    {
      ghost var batch := c[k - num..k];
      assert c[..k] == c[..k - num] + batch;
      assert forall i :: k <= i < |c| ==> c[i] !in batch;
      Flush(arr, batch);
    }

    /** Frees one chain in batches of five, through a batch array that is empty before and after. */
    method FreeChain(head: Node?, arr: array<Node?>, ghost c: seq<Node>)
      requires head == if c == [] then null else c[0]
      requires forall i: nat :: i < |c| ==> c[i] in live
      requires forall i: nat {:trigger Succ(c, i)} :: i < |c| ==> c[i].pNext == Succ(c, i)
      requires forall i, j :: 0 <= i < j < |c| ==> c[i] != c[j]
      requires arr.Length == 5 && forall j :: 0 <= j < 5 ==> arr[j] == null
      modifies this`live, arr, c
      ensures live == old(live) - Members(c)
      ensures forall j :: 0 <= j < 5 ==> arr[j] == null
    {
      hide Members;
      var num := 0;
      var xhash := head;
      assert Members(c[..0]) == {} by { NoMembers(c[..0]); }
      ghost var k: nat := 0;
      while true
        invariant 0 <= num <= 5 && num <= k <= |c|
        invariant xhash == if k < |c| then c[k] else null
        invariant forall j :: 0 <= j < 5 ==> arr[j] == if j < num then c[k - num + j] else null
        invariant live == old(live) - Members(c[..k - num])
        invariant forall j :: k - num <= j < |c| ==> c[j] in live
        invariant forall i: nat {:trigger Succ(c, i)} :: k <= i < |c| ==> c[i].pNext == Succ(c, i)
        decreases |c| - k
      {
        if num == 5 || xhash == null {
          FlushPart(arr, c, k, num);
          num := 0;
        }
        if xhash == null {
          break;
        }
        assert xhash in live && xhash.pNext == Succ(c, k);
        arr[num] := xhash;
        xhash := xhash.pNext;
        num := num + 1;
        k := k + 1;
      }
      assert c[..k] == c;
    }

    /** While only earlier chains have been freed, chain `b` is as it was. */
    twostate lemma ChainIntact(b: nat)
      requires old(Valid()) && b < HASH_LEN && chains == old(chains) && buckets == old(buckets) && buckets[b] == old(buckets[b])
      requires Apart(chains) && live == old(live) - AllMembers(chains[..b])
      requires forall n :: n in live ==> n.pNext == old(n.pNext)
      ensures buckets[b] == if chains[b] == [] then null else chains[b][0]
      ensures forall i: nat :: i < |chains[b]| ==> chains[b][i] in live
      ensures forall i: nat {:trigger Succ(chains[b], i)} :: i < |chains[b]| ==> chains[b][i].pNext == Succ(chains[b], i)
      ensures forall i, j :: 0 <= i < j < |chains[b]| ==> chains[b][i] != chains[b][j]
    {
      hide Bucket;
      assert old(Linked(b));
      var c := chains[b];
      forall i: nat | i < |c| ensures c[i] in live && c[i].pNext == Succ(c, i) {
        assert Place(chains, b, i);
        NotInEarlier(chains, b, i, b);
        assert old(LinkedAt(b, i));
      }
      forall i, j | 0 <= i < j < |c| ensures c[i] != c[j] {
        assert Place(chains, b, i) && Place(chains, b, j);
      }
    }

    /** The first loop of `destroy_hash_table`: every node of every chain is freed exactly once. */
    method FreeChains(arr: array<Node?>)
      requires Valid() && Apart(chains)
      requires arr != buckets && arr.Length == 5 && forall j :: 0 <= j < 5 ==> arr[j] == null
      modifies this`live, arr, live
      ensures live == old(live) - AllMembers(chains)
      ensures forall j :: 0 <= j < 5 ==> arr[j] == null
    {
      hide Bucket, Valid, Apart;
      assert |chains| == HASH_LEN <= buckets.Length by { Sizes(); }
      ghost var all := chains;
      for i := 0 to HASH_LEN
        invariant forall j :: 0 <= j < 5 ==> arr[j] == null
        invariant live == old(live) - AllMembers(all[..i])
        invariant forall n :: n in live ==> n.pNext == old(n.pNext)
      {
        ChainIntact(i);
        assert all[..i + 1][..i] == all[..i];
        if buckets[i] != null {
          FreeChain(buckets[i], arr, all[i]);
        } else {
          assert Members(all[i]) == {};
        }
      }
      assert all[..HASH_LEN] == all;
    }

    lemma Sizes()
      requires Valid()
      ensures |chains| == HASH_LEN <= buckets.Length
    {
    }

    /** `destroy_hash_table`: every node is freed once, none stays allocated, and the table is empty again. */
    method Destroy() returns (r: int)
      requires Valid()
      modifies this`chains, this`model, this`live, buckets, live
      ensures Valid() && r == 1
      ensures model == map[] && chains == seq(HASH_LEN, _ => [])
      ensures live == {} && forall b :: 0 <= b < HASH_LEN ==> buckets[b] == null
    {
      hide Bucket, Apart, AllMembers;
      var arr := new Node?[5](_ => null);
      PlacesApart();
      FreeChains(arr);
      for i := 0 to HASH_LEN
        invariant forall b :: 0 <= b < i ==> buckets[b] == null
        invariant live == {}
      {
        buckets[i] := null;
      }
      chains := seq(HASH_LEN, _ => []);
      model := map[];
      NoChains(chains);
      r := 1;
    }

    lemma PlacesApart()
      requires Valid()
      ensures Apart(chains)
    {
      hide Bucket;
      forall b: nat, i: nat, d: nat, j: nat | Place(chains, b, i) && Place(chains, d, j) && chains[b][i] == chains[d][j]
        ensures b == d && i == j
      {
        NodesApart(b, i, d, j);
      }
    }
  }

  ghost predicate Place(cs: seq<seq<Node>>, b: nat, i: nat) {
    b < |cs| && i < |cs[b]|
  }

  ghost predicate Apart(cs: seq<seq<Node>>) {
    forall b: nat, i: nat, d: nat, j: nat ::
      Place(cs, b, i) && Place(cs, d, j) && cs[b][i] == cs[d][j] ==> b == d && i == j
  }

  ghost function Members(c: seq<Node>): set<Node> {
    set n | n in c
  }

  lemma NoMembers(c: seq<Node>)
    requires c == []
    ensures Members(c) == {}
  {
  }

  ghost function AllMembers(cs: seq<seq<Node>>): set<Node> {
    if cs == [] then {} else AllMembers(cs[..|cs| - 1]) + Members(cs[|cs| - 1])
  }

  lemma {:induction false} NoChains(cs: seq<seq<Node>>)
    requires forall b :: 0 <= b < |cs| ==> cs[b] == []
    ensures AllMembers(cs) == {}
  {
    if cs != [] {
      NoChains(cs[..|cs| - 1]);
    }
  }

  lemma {:induction false} AllMembersAppend(cs: seq<seq<Node>>, b: nat, n: Node)
    requires b < |cs|
    ensures AllMembers(cs[b := cs[b] + [n]]) == AllMembers(cs) + {n}
  {
    var last := |cs| - 1;
    if b == last {
      assert cs[b := cs[b] + [n]][..last] == cs[..last];
    } else {
      AllMembersAppend(cs[..last], b, n);
      assert cs[b := cs[b] + [n]][..last] == cs[..last][b := cs[b] + [n]];
    }
  }

  /** A node is not among the members of the chains before its own. */
  lemma {:induction false} NotInEarlier(cs: seq<seq<Node>>, b: nat, i: nat, k: nat)
    requires Apart(cs) && Place(cs, b, i) && k <= b
    ensures cs[b][i] !in AllMembers(cs[..k])
  {
    if k > 0 {
      NotInEarlier(cs, b, i, k - 1);
      assert cs[..k][..k - 1] == cs[..k - 1];
      var p := k - 1;
      forall j: nat | Place(cs, p, j) ensures cs[p][j] != cs[b][i] {
      }
    }
  }

  /** `destroy_hash_table` on a pointer that may be null. */
  method DestroyHashTable(phash: UrlTable?) returns (r: int)
    requires phash != null ==> phash.Valid()
    modifies if phash == null then {} else {phash, phash.buckets} + phash.live
    ensures r == if phash == null then 0 else 1
    ensures phash != null ==> phash.Valid() && phash.model == map[] && phash.live == {}
  {
    if phash == null {
      return 0;
    }
    r := phash.Destroy();
  }
}
