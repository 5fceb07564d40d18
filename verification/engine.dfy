/**
  One round of the whole engine. In labelprop.c every worker computes its
  next labels, then waits at the store barrier; only after that barrier does
  any worker write a label. So all next labels are computed from the labels
  as they stood at the start of the round, and the round is one synchronous
  step. `Round` states that step directly; `Stores` is the round as the
  workers carry it out, shard after shard, and `StoresCommitRound` shows the
  two agree.

  `Round` lets the coordinator see every flag of the round it decides on,
  as if each worker published its flag before the check-completion
  barrier; `Coordinator.DecisionAsWritten` covers the order labelprop.c
  actually has.
 */
module Engine {
  import opened Partitioner
  import opened GraphBuilder
  import opened MajorityVote
  import opened Worker
  import opened Coordinator

  /** The nodes, the workers, and the shared `run` flag. */
  datatype State = State(nodes: Nodes, workers: seq<WorkerState>, run: bool)

  function Shards(ws: seq<WorkerState>): (shards: seq<Shard>)
    ensures |shards| == |ws|
    ensures forall i :: 0 <= i < |ws| ==> shards[i] == ws[i].shard
  {
    seq(|ws|, i requires 0 <= i < |ws| => ws[i].shard)
  }

  /**
    The nodes form a valid graph, the workers' shards tile it (so each lies
    inside it), and each buffer fits its shard.
   */
  predicate Ready(e: State) {
    && Valid(e.nodes)
    && Tiles(Shards(e.workers), |e.nodes|)
    && forall i :: 0 <= i < |e.workers| ==> End(e.workers[i].shard) <= |e.nodes| && WorkerOk(e.workers[i])
  }

  /** Every worker's flag, in worker order. */
  function Flags(ws: seq<WorkerState>): (flags: seq<bool>)
    ensures |flags| == |ws|
    ensures forall i :: 0 <= i < |ws| ==> flags[i] == ws[i].reached
  {
    seq(|ws|, i requires 0 <= i < |ws| => ws[i].reached)
  }

  /** `spawn_threads` up to the first round: one new worker per shard, `run` set. */
  function Start(g: Nodes, shards: seq<Shard>, garbage: seq<bool>): (e: State)
    requires Valid(g) && Tiles(shards, |g|) && |garbage| == |shards|
    ensures Ready(e) && e.run && e.nodes == g
    ensures Shards(e.workers) == shards
    ensures forall i, k :: 0 <= i < |shards| && 0 <= k < |e.workers[i].last| ==> e.workers[i].last[k] == 0
  {
    var ws := seq(|shards|, i requires 0 <= i < |shards| => StartWorker(shards[i], garbage[i]));
    assert Shards(ws) == shards;
    TilesBounds(shards, |g|);
    State(g, ws, true)
  }

  /** Every shard of a tiling ends inside the node range. */
  lemma TilesBounds(shards: seq<Shard>, n: nat)
    requires Tiles(shards, n)
    ensures forall j :: 0 <= j < |shards| ==> End(shards[j]) <= n
  {
    forall j | 0 <= j < |shards|
      ensures End(shards[j]) <= n
    {
      if j < |shards| - 1 {
        TilesOrdered(shards, n, j, |shards| - 1);
      }
    }
  }

  /** The synchronous step: every node takes a majority label computed from the labels of `g`. */
  function SyncStep(g: Nodes, tie: nat -> nat): (h: Nodes)
    requires Valid(g)
    ensures SameShape(g, h)
    ensures forall x {:trigger h[x]} :: 0 <= x < |g| ==> h[x] == g[x].(lbl := MajorityLabel(g, x, tie(x)))
  {
    seq(|g|, x requires 0 <= x < |g| => g[x].(lbl := MajorityLabel(g, x, tie(x))))
  }

  /**
    One iteration of the worker loop together with the coordinator's
    decision. Every next label is computed from the labels at the start of
    the round, every worker moves to its `NextWorker` state, and `run` is
    true iff some flag is false. `StoresCommitRound` shows that the stores
    the workers make shard by shard arrive at exactly these labels.
   */
  function Round(e: State, tie: nat -> nat): (e': State)
    requires Ready(e)
    ensures Ready(e') && SameShape(e.nodes, e'.nodes)
    ensures |e'.workers| == |e.workers| && Shards(e'.workers) == Shards(e.workers)
    ensures e'.run <==> exists i :: 0 <= i < |e'.workers| && !e'.workers[i].reached
    ensures forall x {:trigger e'.nodes[x]} :: 0 <= x < |e.nodes| && e.nodes[x].numNeighbors == 0 ==>
      e'.nodes[x].lbl == e.nodes[x].lbl
    ensures forall x {:trigger e'.nodes[x]} :: 0 <= x < |e.nodes| && e.nodes[x].numNeighbors != 0 ==>
      NodeOk(e.nodes, x) && IsMajority(NeighborLabels(e.nodes, e.nodes[x].neighbors), e'.nodes[x].lbl)
  {
    var ws := e.workers;
    var ws' := seq(|ws|, i requires 0 <= i < |ws| => NextWorker(e.nodes, ws[i], tie));
    var g' := SyncStep(e.nodes, tie);
    assert Shards(ws') == Shards(ws);
    SameShapeValid(e.nodes, g');
    forall x | 0 <= x < |e.nodes|
      ensures NodeOk(e.nodes, x)
    {
    }
    State(g', ws', ContinueFrom(Flags(ws'), 0))
  }

  /** Round `e` as the workers take it: node `x` and worker `i` after the round. */
  lemma RoundParts(e: State, tie: nat -> nat)
    requires Ready(e)
    ensures Round(e, tie).nodes == SyncStep(e.nodes, tie)
    ensures forall i :: 0 <= i < |e.workers| ==> Round(e, tie).workers[i] == NextWorker(e.nodes, e.workers[i], tie)
  {
  }

  /** Every shard lies inside the node array and every buffer fits its shard. */
  predicate Fits(n: nat, ws: seq<WorkerState>, nexts: seq<seq<int>>) {
    && |nexts| == |ws|
    && forall j :: 0 <= j < |ws| ==>
      End(ws[j].shard) <= n && WorkerOk(ws[j]) && |nexts[j]| == ws[j].shard.size
  }

  /** The compute phase of every worker, against the same snapshot `g`. */
  function ComputeAll(g: Nodes, ws: seq<WorkerState>, tie: nat -> nat): (nexts: seq<seq<int>>)
    requires Valid(g) && forall i :: 0 <= i < |ws| ==> End(ws[i].shard) <= |g| && WorkerOk(ws[i])
    ensures Fits(|g|, ws, nexts)
    ensures forall i :: 0 <= i < |ws| ==> nexts[i] == ComputeNext(g, ws[i].shard, tie)
  {
    seq(|ws|, i requires 0 <= i < |ws| => ComputeNext(g, ws[i].shard, tie))
  }

  /**
    The store phase of workers `i`, `i + 1`, ..., one after another, each
    by `StoreFrom`; `lasts` holds the new `last_labels` of the workers
    before `i`, the result those of all.
   */
  function StoreAll(g: Nodes, ws: seq<WorkerState>, nexts: seq<seq<int>>, i: nat, lasts: seq<seq<int>>): (res: (Nodes, seq<seq<int>>))
    requires i <= |ws| && |lasts| == i && Fits(|g|, ws, nexts)
    ensures SameShape(g, res.0) && |res.1| == |ws|
    ensures forall j :: 0 <= j < i ==> res.1[j] == lasts[j]
    ensures forall j :: i <= j < |ws| ==> |res.1[j]| == ws[j].shard.size
    decreases |ws| - i
  {
    if i == |ws| then (g, lasts)
    else
      var (g1, last1) := StoreFrom(g, ws[i].shard, nexts[i], ws[i].last, 0);
      StoreAll(g1, ws, nexts, i + 1, lasts + [last1])
  }

  /** Where the stores of workers `i`, `i + 1`, ... begin. */
  function Lo(ws: seq<WorkerState>, n: nat, i: nat): nat {
    if i < |ws| then ws[i].shard.base else n
  }

  /**
    Storing shard after shard, from worker `i` on, when the nodes below
    worker `i`'s shard already hold their target `h` and the rest still
    hold the snapshot `g0`: in the end every node holds its target, and
    every worker saved its shard's labels from the snapshot.
   */
  lemma {:induction false} StoreAllCommits(g0: Nodes, h: Nodes, g: Nodes, ws: seq<WorkerState>, nexts: seq<seq<int>>, i: nat, lasts: seq<seq<int>>)
    requires Tiles(Shards(ws), |g0|) && Fits(|g0|, ws, nexts)
    requires |h| == |g0| == |g| && i <= |ws| && |lasts| == i
    requires forall j, k :: 0 <= j < |ws| && 0 <= k < |nexts[j]| ==>
      h[ws[j].shard.base + k] == g0[ws[j].shard.base + k].(lbl := nexts[j][k])
    requires forall x :: 0 <= x < Lo(ws, |g0|, i) ==> g[x] == h[x]
    requires forall x :: Lo(ws, |g0|, i) <= x < |g0| ==> g[x] == g0[x]
    ensures var res := StoreAll(g, ws, nexts, i, lasts);
      && res.0 == h
      && (forall j :: i <= j < |ws| ==> res.1[j] == ShardLabels(g0, ws[j].shard))
    decreases |ws| - i
  {
    if i < |ws| {
      var sh := Shards(ws);
      var s := ws[i].shard;
      var (g1, last1) := StoreFrom(g, s, nexts[i], ws[i].last, 0);
      assert Lo(ws, |g0|, i + 1) == End(s) by {
        if i + 1 < |ws| {
          assert sh[i + 1].base == End(sh[i]);
        }
      }
      forall x | 0 <= x < End(s)
        ensures g1[x] == h[x]
      {
        if s.base <= x {
          var k := x - s.base;
          assert h[s.base + k] == g0[s.base + k].(lbl := nexts[i][k]);
        }
      }
      StoreAllCommits(g0, h, g1, ws, nexts, i + 1, lasts + [last1]);
      assert last1 == ShardLabels(g0, s);
    } else {
      assert Lo(ws, |g0|, i) == |g0|;
    }
  }

  /** On one shard, the synchronous step gives every node the next label the shard's worker computes. */
  lemma SyncShard(g: Nodes, tie: nat -> nat, s: Shard)
    requires Valid(g) && End(s) <= |g|
    ensures forall k :: 0 <= k < s.size ==>
      SyncStep(g, tie)[s.base + k] == g[s.base + k].(lbl := ComputeNext(g, s, tie)[k])
    ensures ShardLabels(SyncStep(g, tie), s) == ComputeNext(g, s, tie)
  {
    var h, next := SyncStep(g, tie), ComputeNext(g, s, tie);
    forall k | 0 <= k < s.size
      ensures h[s.base + k] == g[s.base + k].(lbl := next[k])
    {
    }
    assert ShardLabels(h, s) == next;
  }

  /** Every worker's computed next labels are the synchronous step's labels on its shard. */
  lemma ComputeAllSync(g: Nodes, ws: seq<WorkerState>, tie: nat -> nat)
    requires Valid(g) && forall i :: 0 <= i < |ws| ==> End(ws[i].shard) <= |g| && WorkerOk(ws[i])
    ensures var h, nexts := SyncStep(g, tie), ComputeAll(g, ws, tie);
      forall j, k :: 0 <= j < |ws| && 0 <= k < |nexts[j]| ==>
        h[ws[j].shard.base + k] == g[ws[j].shard.base + k].(lbl := nexts[j][k])
  {
    var h, nexts := SyncStep(g, tie), ComputeAll(g, ws, tie);
    forall j, k | 0 <= j < |ws| && 0 <= k < |nexts[j]|
      ensures h[ws[j].shard.base + k] == g[ws[j].shard.base + k].(lbl := nexts[j][k])
    {
      SyncShard(g, tie, ws[j].shard);
    }
  }

  /**
    The round as the workers carry it out: every worker computes its next
    labels from the labels at the start of the round, then, after the store
    barrier, the workers store shard by shard in worker order. The result
    is the node array and every worker's new `last_labels`.
   */
  function Stores(e: State, tie: nat -> nat): (res: (Nodes, seq<seq<int>>))
    requires Ready(e)
    ensures SameShape(e.nodes, res.0) && |res.1| == |e.workers|
  {
    StoreAll(e.nodes, e.workers, ComputeAll(e.nodes, e.workers, tie), 0, [])
  }

  /**
    Storing the shards one after another in worker order leaves exactly
    the labels of `Round`, and each worker's saved `last_labels` is the one
    `Round` gives it. `Worker.StoresCommute` shows that the stores of two
    workers may be swapped without changing either.
   */
  lemma StoresCommitRound(e: State, tie: nat -> nat)
    requires Ready(e)
    ensures Stores(e, tie).0 == Round(e, tie).nodes
    ensures forall i :: 0 <= i < |e.workers| ==> Stores(e, tie).1[i] == Round(e, tie).workers[i].last
  {
    var g0, ws := e.nodes, e.workers;
    var h, nexts := SyncStep(g0, tie), ComputeAll(g0, ws, tie);
    ComputeAllSync(g0, ws, tie);
    assert Lo(ws, |g0|, 0) == 0 by {
      if |ws| > 0 {
        assert Shards(ws)[0] == ws[0].shard;
      }
    }
    StoreAllCommits(g0, h, g0, ws, nexts, 0, []);
    RoundParts(e, tie);
  }

  /**
    A worker's flag after a round: true iff its shard's labels now are the
    labels its `last_labels` held before the round.
   */
  lemma FlagMeaning(e: State, tie: nat -> nat, i: nat)
    requires Ready(e) && i < |e.workers|
    ensures var s, e' := e.workers[i].shard, Round(e, tie);
      e'.workers[i].reached <==> ShardLabels(e'.nodes, s) == e.workers[i].last
  {
    RoundParts(e, tie);
    SyncShard(e.nodes, tie, e.workers[i].shard);
  }

  /** A node without neighbours keeps its label through every round, and no node's links change. */
  lemma IsolatedKeepsLabel(e: State, tie: nat -> nat, x: nat)
    requires Ready(e) && x < |e.nodes| && e.nodes[x].numNeighbors == 0
    ensures Round(e, tie).nodes[x] == e.nodes[x]
  {
    RoundParts(e, tie);
    assert NodeOk(e.nodes, x);
  }

  /** In the first round `last_labels` is all zeros, so a worker reports stable iff its shard's new labels are all 0. */
  lemma FirstRoundFlag(g: Nodes, shards: seq<Shard>, garbage: seq<bool>, tie: nat -> nat, i: nat)
    requires Valid(g) && Tiles(shards, |g|) && |garbage| == |shards| && i < |shards|
    ensures var e' := Round(Start(g, shards, garbage), tie);
      e'.workers[i].reached <==> forall k :: 0 <= k < shards[i].size ==> ShardLabels(e'.nodes, shards[i])[k] == 0
  {
    var e := Start(g, shards, garbage);
    var e', s := Round(e, tie), shards[i];
    assert e.workers[i].shard == s;
    FlagMeaning(e, tie, i);
    var now := ShardLabels(e'.nodes, s);
    if forall k :: 0 <= k < s.size ==> now[k] == 0 {
      assert now == e.workers[i].last;
    }
  }

  /**
    From the second round on, a worker's flag compares the labels just
    committed with the labels from before the previous round: two rounds
    apart, not one.
   */
  lemma FlagLagsTwoRounds(e: State, t1: nat -> nat, t2: nat -> nat, i: nat)
    requires Ready(e) && i < |e.workers|
    ensures var s, e2 := e.workers[i].shard, Round(Round(e, t1), t2);
      e2.workers[i].reached <==> ShardLabels(e2.nodes, s) == ShardLabels(e.nodes, s)
  {
    var s, e1 := e.workers[i].shard, Round(e, t1);
    RoundParts(e, t1);
    assert Shards(e1.workers)[i] == Shards(e.workers)[i];
    assert e1.workers[i].last == ShardLabels(e.nodes, s);
    FlagMeaning(e1, t2, i);
  }

  /** Two nodes joined by one edge: the graph built from the oracle that links every pair. */
  function Pair(): Nodes {
    InitializeNodes(2, (a: nat, b: nat) => true)
  }

  lemma PairShape()
    ensures Valid(Pair()) && |Pair()| == 2
    ensures Pair()[0].lbl == 0 && Pair()[0].neighbors == [1]
    ensures Pair()[1].lbl == 1 && Pair()[1].neighbors == [0]
  {
    var edge := (a: nat, b: nat) => true;
    SetupGraph(2, edge);
    assert Up(edge, 0, 1) == [] && Up(edge, 1, 1) == [0];
  }

  /** On a single edge each node's majority label is the other node's label. */
  lemma PairMajority(g: Nodes, r: nat)
    requires Valid(g) && |g| == 2 && g[0].neighbors == [1] && g[1].neighbors == [0]
    ensures MajorityLabel(g, 0, r) == g[1].lbl && MajorityLabel(g, 1, r) == g[0].lbl
  {
    assert NodeOk(g, 0) && NodeOk(g, 1);
    assert NeighborLabels(g, [1]) == [g[1].lbl];
    assert NeighborLabels(g, [0]) == [g[0].lbl];
  }

  /** The single-edge run with one worker, started from the setup labels. */
  function PairStart(garbage: bool): (e: State)
    ensures Ready(e) && e.nodes == Pair()
    ensures |e.workers| == 1 && e.workers[0].shard == Shard(0, 2) && e.workers[0].reached == garbage
  {
    PairShape();
    assert Tiles([Shard(0, 2)], 2);
    var e := Start(Pair(), [Shard(0, 2)], [garbage]);
    assert Shards(e.workers)[0] == Shard(0, 2);
    e
  }

  /** The single edge with one worker in any state: `a` on node 0, `b` on node 1. */
  predicate PairAt(e: State, a: int, b: int) {
    && Ready(e)
    && |e.nodes| == 2 && |e.workers| == 1 && e.workers[0].shard == Shard(0, 2)
    && e.nodes[0].neighbors == [1] && e.nodes[1].neighbors == [0]
    && e.nodes[0].lbl == a && e.nodes[1].lbl == b
  }

  lemma PairLabels(e: State, t: nat -> nat, a: int, b: int)
    requires PairAt(e, a, b)
    ensures PairAt(Round(e, t), b, a)
  {
    var e' := Round(e, t);
    PairMajority(e.nodes, t(0));
    PairMajority(e.nodes, t(1));
    RoundParts(e, t);
    assert Shards(e'.workers)[0] == Shard(0, 2);
    assert e'.nodes[0].neighbors == [1] && e'.nodes[1].neighbors == [0];
  }

  lemma PairSaves(e: State, t: nat -> nat, a: int, b: int)
    requires PairAt(e, a, b)
    ensures Round(e, t).workers[0].last == [a, b]
  {
    RoundParts(e, t);
    assert ShardLabels(e.nodes, Shard(0, 2)) == [a, b];
  }

  lemma PairFlag(e: State, t: nat -> nat, a: int, b: int)
    requires PairAt(e, a, b)
    ensures Round(e, t).workers[0].reached <==> e.workers[0].last == [b, a]
  {
    PairLabels(e, t, a, b);
    FlagMeaning(e, t, 0);
    var now := ShardLabels(Round(e, t).nodes, Shard(0, 2));
    assert |now| == 2 && now[0] == b && now[1] == a;
    assert now == [b, a];
  }

  /**
    One round on the single edge: the labels swap, the worker saves the old
    ones, and it reports stable iff the swapped labels equal its previous
    `last_labels`.
   */
  lemma PairRound(e: State, t: nat -> nat, a: int, b: int)
    requires PairAt(e, a, b)
    ensures var e' := Round(e, t);
      && PairAt(e', b, a)
      && e'.workers[0].last == [a, b]
      && (e'.workers[0].reached <==> e.workers[0].last == [b, a])
      && (e'.run <==> !e'.workers[0].reached)
  {
    PairLabels(e, t, a, b);
    PairSaves(e, t, a, b);
    PairFlag(e, t, a, b);
  }

  /**
    A consequence of the two-round lag: on a single edge the two labels
    swap every round, the flag compares against labels two rounds old, and
    the run halts after round two with the labels it started with, although
    each node's majority label is the other node's label.
   */
  lemma SwapHaltsUnconverged(garbage: bool, t1: nat -> nat, t2: nat -> nat, r: nat)
    ensures var e1 := Round(PairStart(garbage), t1);
      var e2 := Round(e1, t2);
      && e1.run && e1.nodes[0].lbl == 1 && e1.nodes[1].lbl == 0
      && !e2.run && e2.nodes[0].lbl == 0 && e2.nodes[1].lbl == 1
      && MajorityLabel(e2.nodes, 0, r) == 1
  {
    PairShape();
    var e0 := PairStart(garbage);
    assert e0.workers[0].last == [0, 0];
    PairRound(e0, t1, 0, 1);
    var e1 := Round(e0, t1);
    PairRound(e1, t2, 1, 0);
    var e2 := Round(e1, t2);
    PairMajority(e2.nodes, r);
  }

  /**
    With one worker, a stale flag that says stable hides this round's
    change: the coordinator as written halts, while the decision on this
    round's flags continues.
   */
  lemma StaleFlagHidesChange(e: State, t: nat -> nat)
    requires Ready(e) && |e.workers| == 1 && e.workers[0].reached
    requires !Round(e, t).workers[0].reached
    ensures !DecisionAsWritten(Flags(e.workers), Flags(Round(e, t).workers), [false])
    ensures Round(e, t).run
  {
    assert Flags(e.workers) == [true];
    assert Flags(Round(e, t).workers) == [false];
    assert FlagsSeenAsWritten([true], [false], [false]) == [true];
  }

  /**
    The read racing ahead of the store stops the run early: on the
    two-node graph, with the never-initialised flag holding true, the
    coordinator halts after round one, where the decision on this round's
    flags continues: the labels have just changed.
   */
  lemma StaleFlagHaltsFirstRound(t1: nat -> nat)
    ensures var e0 := PairStart(true);
      var e1 := Round(e0, t1);
      && !DecisionAsWritten(Flags(e0.workers), Flags(e1.workers), [false])
      && e1.run
  {
    PairShape();
    var e0 := PairStart(true);
    assert e0.workers[0].last == [0, 0];
    PairRound(e0, t1, 0, 1);
    StaleFlagHidesChange(e0, t1);
  }
}
