/**
  The body of one round of a worker thread (`label_prop`): compute the next
  label of every node of the shard, compare them with `last_labels`, then
  store. The barriers that separate these phases are not modelled here;
  the round as a whole is assembled in `Engine`.
 */
module Worker {
  import opened Partitioner
  import opened GraphBuilder
  import opened MajorityVote

  /**
    What a worker keeps between rounds: its shard, its `last_labels` buffer
    (one entry per shard node) and the value of its `reached_majority` flag.
   */
  datatype WorkerState = WorkerState(shard: Shard, last: seq<int>, reached: bool)

  predicate WorkerOk(w: WorkerState) {
    |w.last| == w.shard.size
  }

  /**
    Thread start: `last_labels` comes from `calloc`, so it is all zeros. The
    flag comes from `malloc` and is never initialised; its content is
    `garbage`.
   */
  function StartWorker(s: Shard, garbage: bool): (w: WorkerState)
    ensures WorkerOk(w) && w.shard == s
    ensures forall k :: 0 <= k < |w.last| ==> w.last[k] == 0
  {
    WorkerState(s, seq(s.size, _ => 0), garbage)
  }

  /** Lines 153-155: `next_labels[i]` is the majority label of the `i`-th node of the shard. */
  function ComputeNext(g: Nodes, s: Shard, tie: nat -> nat): (next: seq<int>)
    requires Valid(g) && End(s) <= |g|
    ensures |next| == s.size
    ensures forall k :: 0 <= k < s.size ==> next[k] == MajorityLabel(g, s.base + k, tie(s.base + k))
  {
    seq(s.size, k requires 0 <= k < s.size => MajorityLabel(g, s.base + k, tie(s.base + k)))
  }

  /**
    Lines 157-163 from position `i` on: the scan stops at the first
    mismatch, and the flag is true exactly when there is none.
   */
  function StableFrom(next: seq<int>, last: seq<int>, i: nat): (b: bool)
    requires |next| == |last| && i <= |next|
    ensures b <==> forall k :: i <= k < |next| ==> next[k] == last[k]
    decreases |next| - i
  {
    if i == |next| then true
    else if next[i] != last[i] then false
    else StableFrom(next, last, i + 1)
  }

  /**
    Lines 169-172 from shard position `k` on: each node's current label is
    saved into `last_labels`, then replaced by its next label. Nodes outside
    the shard are not touched, and only the label of a shard node changes.
   */
  function StoreFrom(g: Nodes, s: Shard, next: seq<int>, last: seq<int>, k: nat): (res: (Nodes, seq<int>))
    requires End(s) <= |g| && |next| == s.size && |last| == s.size && k <= s.size
    ensures SameShape(g, res.0) && |res.1| == s.size
    ensures forall x :: 0 <= x < |g| && !(s.base + k <= x < End(s)) ==> res.0[x] == g[x]
    ensures forall i :: k <= i < s.size ==>
      res.0[s.base + i] == g[s.base + i].(lbl := next[i]) && res.1[i] == g[s.base + i].lbl
    ensures forall i :: 0 <= i < k ==> res.1[i] == last[i]
    decreases s.size - k
  {
    if k == s.size then (g, last)
    else
      var x := s.base + k;
      StoreFrom(g[x := g[x].(lbl := next[k])], s, next, last[k := g[x].lbl], k + 1)
  }

  /** One node after a worker's whole store phase: its next label if it is in the shard, untouched otherwise. */
  lemma StoreNode(g: Nodes, s: Shard, next: seq<int>, last: seq<int>, x: nat)
    requires End(s) <= |g| && |next| == s.size && |last| == s.size && x < |g|
    ensures StoreFrom(g, s, next, last, 0).0[x] == if InShard(s, x) then g[x].(lbl := next[x - s.base]) else g[x]
  {
    if InShard(s, x) {
      var k := x - s.base;
      assert StoreFrom(g, s, next, last, 0).0[s.base + k] == g[s.base + k].(lbl := next[k]);
    }
  }

  /** What a worker's whole store phase saves: its shard's labels from before the stores. */
  lemma StoreSaves(g: Nodes, s: Shard, next: seq<int>, last: seq<int>)
    requires End(s) <= |g| && |next| == s.size && |last| == s.size
    ensures StoreFrom(g, s, next, last, 0).1 == ShardLabels(g, s)
  {
  }

  /**
    The stores of two workers on disjoint shards commute: in either order
    they leave the same nodes, and each worker saves the same
    `last_labels`, because each writes and reads only its own shard.
   */
  lemma StoresCommute(g: Nodes, s1: Shard, n1: seq<int>, l1: seq<int>, s2: Shard, n2: seq<int>, l2: seq<int>)
    requires End(s1) <= |g| && |n1| == s1.size && |l1| == s1.size
    requires End(s2) <= |g| && |n2| == s2.size && |l2| == s2.size
    requires End(s1) <= s2.base || End(s2) <= s1.base
    ensures var a1 := StoreFrom(g, s1, n1, l1, 0);
      var a2 := StoreFrom(a1.0, s2, n2, l2, 0);
      var b2 := StoreFrom(g, s2, n2, l2, 0);
      var b1 := StoreFrom(b2.0, s1, n1, l1, 0);
      a2.0 == b1.0 && a1.1 == b1.1 && a2.1 == b2.1
  {
    var a1 := StoreFrom(g, s1, n1, l1, 0);
    var b2 := StoreFrom(g, s2, n2, l2, 0);
    var a2 := StoreFrom(a1.0, s2, n2, l2, 0);
    var b1 := StoreFrom(b2.0, s1, n1, l1, 0);
    forall x | 0 <= x < |g|
      ensures a2.0[x] == b1.0[x]
    {
      StoreNode(g, s1, n1, l1, x);
      StoreNode(a1.0, s2, n2, l2, x);
      StoreNode(g, s2, n2, l2, x);
      StoreNode(b2.0, s1, n1, l1, x);
    }
    SavesUnaffected(g, s2, n2, l2, s1);
    SavesUnaffected(g, s1, n1, l1, s2);
    StoreSaves(g, s1, n1, l1);
    StoreSaves(b2.0, s1, n1, l1);
    StoreSaves(g, s2, n2, l2);
    StoreSaves(a1.0, s2, n2, l2);
  }

  /** A worker's stores leave the labels of a shard disjoint from its own as they were. */
  lemma SavesUnaffected(g: Nodes, s: Shard, next: seq<int>, last: seq<int>, other: Shard)
    requires End(s) <= |g| && |next| == s.size && |last| == s.size
    requires End(other) <= |g| && (End(s) <= other.base || End(other) <= s.base)
    ensures ShardLabels(StoreFrom(g, s, next, last, 0).0, other) == ShardLabels(g, other)
  {
    var h := StoreFrom(g, s, next, last, 0).0;
    forall k | 0 <= k < other.size
      ensures ShardLabels(h, other)[k] == ShardLabels(g, other)[k]
    {
      StoreNode(g, s, next, last, other.base + k);
    }
  }

  /** The labels of the shard's nodes, in node order. */
  function ShardLabels(g: Nodes, s: Shard): (ls: seq<int>)
    requires End(s) <= |g|
    ensures |ls| == s.size
    ensures forall k :: 0 <= k < s.size ==> ls[k] == g[s.base + k].lbl
  {
    seq(s.size, k requires 0 <= k < s.size => g[s.base + k].lbl)
  }

  /**
    A worker after one round on the labels `g`: `last_labels` holds the
    shard's labels from before the stores, and the flag is true iff the next
    labels equal what `last_labels` held before the round.
   */
  function NextWorker(g: Nodes, w: WorkerState, tie: nat -> nat): (w': WorkerState)
    requires Valid(g) && End(w.shard) <= |g| && WorkerOk(w)
    ensures WorkerOk(w') && w'.shard == w.shard
    ensures w'.last == ShardLabels(g, w.shard)
    ensures w'.reached <==> ComputeNext(g, w.shard, tie) == w.last
  {
    WorkerState(w.shard, ShardLabels(g, w.shard), StableFrom(ComputeNext(g, w.shard, tie), w.last, 0))
  }
}
