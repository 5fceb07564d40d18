/**
  The partitioner of the label-propagation engine: `split_work` hands each of
  `t` workers a contiguous run of the node array. Node indices are `0..n-1`;
  a shard is the pair (first node, number of nodes) that labelprop.c stores in
  a worker's argument block as a pointer into the node array and a count.
 */
module Partitioner {

  /** The `size` nodes starting at index `base`. */
  datatype Shard = Shard(base: nat, size: nat)

  /** One past the last node of the shard. */
  function End(s: Shard): nat {
    s.base + s.size
  }

  predicate InShard(s: Shard, v: nat) {
    s.base <= v < End(s)
  }

  /** Some shard of `shards` holds node `v`. */
  predicate Covered(shards: seq<Shard>, v: nat) {
    exists k :: 0 <= k < |shards| && InShard(shards[k], v)
  }

  /** Reference size of shard `i`: everybody gets `n / t`, the first `n % t` get one more. */
  function ShardSize(n: nat, t: nat, i: nat): nat
    requires t > 0
  {
    n / t + (if i < n % t then 1 else 0)
  }

  /** Reference start of shard `i`: the sizes of shards `0..i-1` added up. */
  function ShardBase(n: nat, t: nat, i: nat): nat
    requires t > 0
  {
    i * (n / t) + (if i < n % t then i else n % t)
  }

  /**
    The shards lie end to end, in order, starting at node 0 and ending at
    node `n`: the shape `split_work` produces.
   */
  predicate Tiles(shards: seq<Shard>, n: nat) {
    && |shards| > 0
    && shards[0].base == 0
    && (forall i :: 0 < i < |shards| ==> shards[i].base == End(shards[i - 1]))
    && End(shards[|shards| - 1]) == n
  }

  /** Sum of the shard sizes. */
  function TotalSize(shards: seq<Shard>): nat {
    if |shards| == 0 then 0 else TotalSize(shards[..|shards| - 1]) + shards[|shards| - 1].size
  }

  lemma BaseStep(n: nat, t: nat, i: nat)
    requires t > 0
    ensures ShardBase(n, t, i + 1) == ShardBase(n, t, i) + ShardSize(n, t, i)
  {
  }

  lemma BaseEnd(n: nat, t: nat)
    requires t > 0
    ensures ShardBase(n, t, t) == n
  {
  }

  /**
    `split_work`: the loop hands out `n / t` nodes per worker, adds one
    while the `n % t` extra nodes last, and advances the running base.
    Division by zero is undefined in C, hence `t > 0`.
   */
  method SplitWork(n: nat, t: nat) returns (shards: seq<Shard>)
    requires t > 0
    ensures |shards| == t
    ensures forall i :: 0 <= i < t ==> shards[i].size == n / t || shards[i].size == n / t + 1
    ensures forall i :: 0 <= i < t ==> (shards[i].size == n / t + 1 <==> i < n % t)
    ensures forall i :: 0 <= i < t ==> shards[i] == Shard(ShardBase(n, t, i), ShardSize(n, t, i))
    ensures Tiles(shards, n)
  {
    var minNodes := n / t;
    var extra: int := n % t;
    var current: nat := 0;
    shards := [];
    var i := 0;
    while i < t
      invariant 0 <= i <= t
      invariant |shards| == i
      invariant extra == if i < n % t then n % t - i else 0
      invariant current == ShardBase(n, t, i)
      invariant forall k :: 0 <= k < i ==> shards[k] == Shard(ShardBase(n, t, k), ShardSize(n, t, k))
    {
      var size := minNodes;
      if extra > 0 {
        size := size + 1;
        extra := extra - 1;
      }
      BaseStep(n, t, i);
      shards := shards + [Shard(current, size)];
      current := current + size;
      i := i + 1;
    }
    forall k | 0 < k < t
      ensures shards[k].base == End(shards[k - 1])
    {
      BaseStep(n, t, k - 1);
    }
    BaseStep(n, t, t - 1);
    BaseEnd(n, t);
  }

  /** Shards of a tiling are ordered: every shard ends where or before any later one starts. */
  lemma {:induction false} TilesOrdered(shards: seq<Shard>, n: nat, i: nat, j: nat)
    requires Tiles(shards, n)
    requires i < j < |shards|
    ensures End(shards[i]) <= shards[j].base
    decreases j - i
  {
    if i + 1 < j {
      TilesOrdered(shards, n, i + 1, j);
    }
  }

  lemma {:induction false} CoverFrom(shards: seq<Shard>, n: nat, v: nat, i: nat)
    requires Tiles(shards, n)
    requires v < n && i < |shards| && shards[i].base <= v
    ensures exists k :: i <= k < |shards| && InShard(shards[k], v)
    decreases |shards| - i
  {
    if v >= End(shards[i]) {
      CoverFrom(shards, n, v, i + 1);
    }
  }

  /** A tiling covers exactly the nodes `0..n-1`, each in exactly one shard. */
  lemma TilesPartition(shards: seq<Shard>, n: nat)
    requires Tiles(shards, n)
    ensures forall v: nat :: v < n ==> Covered(shards, v)
    ensures forall k, v: nat :: 0 <= k < |shards| && InShard(shards[k], v) ==> v < n
    ensures forall i, j, v: nat :: 0 <= i < |shards| && 0 <= j < |shards| && InShard(shards[i], v) && InShard(shards[j], v) ==> i == j
  {
    forall v: nat | v < n
      ensures Covered(shards, v)
    {
      CoverFrom(shards, n, v, 0);
    }
    forall k, v: nat | 0 <= k < |shards| && InShard(shards[k], v)
      ensures v < n
    {
      if k < |shards| - 1 {
        TilesOrdered(shards, n, k, |shards| - 1);
      }
    }
    forall i, j, v: nat | 0 <= i < |shards| && 0 <= j < |shards| && InShard(shards[i], v) && InShard(shards[j], v)
      ensures i == j
    {
      if i < j {
        TilesOrdered(shards, n, i, j);
      } else if j < i {
        TilesOrdered(shards, n, j, i);
      }
    }
  }

  lemma {:induction false} TotalSizePrefix(shards: seq<Shard>, m: nat)
    requires 0 < m <= |shards|
    requires shards[0].base == 0
    requires forall i :: 0 < i < |shards| ==> shards[i].base == End(shards[i - 1])
    ensures TotalSize(shards[..m]) == End(shards[m - 1])
  {
    assert shards[..m][..m - 1] == shards[..m - 1];
    if m > 1 {
      TotalSizePrefix(shards, m - 1);
    }
  }

  /** The shard sizes of a tiling of `0..n-1` add up to `n`. */
  lemma TilesTotal(shards: seq<Shard>, n: nat)
    requires Tiles(shards, n)
    ensures TotalSize(shards) == n
  {
    TotalSizePrefix(shards, |shards|);
    assert shards[..|shards|] == shards;
  }
}
