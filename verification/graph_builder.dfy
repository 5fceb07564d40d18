/**
  Graph setup of the label-propagation engine: `initialize_nodes`,
  `link_nodes` and `increase_neighbors`. The node array becomes a sequence
  of `Node` values and a neighbour pointer becomes the neighbour's index.
  The random draw made for each pair `i < j` is the oracle `edge(i, j)`:
  true exactly when the draw fell below the edge probability.
 */
module GraphBuilder {

  /**
    One node: its id, its current label (`lbl`; `label` is a Dafny keyword), the neighbour count labelprop.c keeps
    in `num_neighbors`, and the neighbour indices stored so far, in the order
    they were stored.
   */
  datatype Node = Node(id: int, lbl: int, numNeighbors: int, neighbors: seq<nat>)

  type Nodes = seq<Node>

  /** The neighbour count agrees with the number of stored neighbours. */
  predicate WellLinked(nd: Node) {
    nd.numNeighbors == |nd.neighbors|
  }

  /** Node `v` exists, its count is right, and its neighbours are nodes of `g`. */
  predicate NodeOk(g: Nodes, v: nat) {
    && v < |g|
    && WellLinked(g[v])
    && forall k :: 0 <= k < |g[v].neighbors| ==> g[v].neighbors[k] < |g|
  }

  predicate Valid(g: Nodes) {
    forall v: nat :: v < |g| ==> NodeOk(g, v)
  }

  /** `h` holds the nodes of `g` with the same ids and links; only labels may differ. */
  predicate SameShape(g: Nodes, h: Nodes) {
    && |g| == |h|
    && forall x {:trigger h[x]} :: 0 <= x < |g| ==>
      g[x].id == h[x].id && g[x].numNeighbors == h[x].numNeighbors && g[x].neighbors == h[x].neighbors
  }

  lemma SameShapeValid(g: Nodes, h: Nodes)
    requires Valid(g) && SameShape(g, h)
    ensures Valid(h)
  {
    forall v: nat | v < |h|
      ensures NodeOk(h, v)
    {
      assert NodeOk(g, v);
    }
  }

  /** The undirected edge relation the oracle decides: only pairs of distinct nodes, asked in increasing order. */
  predicate Linked(edge: (nat, nat) -> bool, x: nat, y: nat) {
    if x < y then edge(x, y) else if y < x then edge(y, x) else false
  }

  /** Reference adjacency: the nodes below `h` linked to `x`, in increasing order. */
  function Up(edge: (nat, nat) -> bool, x: nat, h: nat): seq<nat> {
    if h == 0 then [] else Up(edge, x, h - 1) + (if Linked(edge, x, h - 1) then [h - 1] else [])
  }

  lemma {:induction false} UpMembers(edge: (nat, nat) -> bool, x: nat, h: nat)
    ensures forall y: nat :: y in Up(edge, x, h) <==> y < h && Linked(edge, x, y)
  {
    if h > 0 {
      UpMembers(edge, x, h - 1);
    }
  }

  lemma {:induction false} UpIncreasing(edge: (nat, nat) -> bool, x: nat, h: nat)
    ensures forall i, j :: 0 <= i < j < |Up(edge, x, h)| ==> Up(edge, x, h)[i] < Up(edge, x, h)[j]
  {
    if h > 0 {
      UpIncreasing(edge, x, h - 1);
      UpMembers(edge, x, h - 1);
      var u := Up(edge, x, h - 1);
      forall k | 0 <= k < |u|
        ensures u[k] < h - 1
      {
        assert u[k] in u;
      }
    }
  }

  /**
    `initialize_nodes`, first loop, as the model uses it: id and label are
    the index and the node has no neighbours. labelprop.c never sets
    `num_neighbors` here; the model starts it at zero (see
    `InitNodesAsWritten`).
   */
  function InitNodes(n: nat): (g: Nodes)
    ensures |g| == n
    ensures forall v :: 0 <= v < n ==> g[v].id == v && g[v].lbl == v && WellLinked(g[v]) && g[v].neighbors == []
  {
    seq(n, i requires 0 <= i < n => Node(i, i, 0, []))
  }

  /**
    The first loop of `initialize_nodes` as written: `num_neighbors` keeps
    whatever the freshly allocated memory held, given here as `garbage`.
   */
  function InitNodesAsWritten(garbage: seq<int>): (g: Nodes)
    ensures |g| == |garbage|
    ensures forall v :: 0 <= v < |g| ==> g[v].id == v && g[v].lbl == v
    ensures forall v :: 0 <= v < |g| ==> g[v].numNeighbors == garbage[v] && g[v].neighbors == []
  {
    seq(|garbage|, i requires 0 <= i < |garbage| => Node(i, i, garbage[i], []))
  }

  /**
    With one node the pair loop does nothing, so a nonzero leftover count
    survives setup: the node has no stored neighbour (its `neighbors`
    pointer is null), yet its count says it has some, so
    `get_majority_label` skips its isolated-node return and dereferences
    the null pointer.
   */
  lemma UninitialisedCountSurvivesSetup()
    ensures var g := InitNodesAsWritten([3]);
      g[0].neighbors == [] && g[0].numNeighbors != 0 && !WellLinked(g[0])
  {
  }

  /**
    `increase_neighbors`: the count goes up by one and the array grows by one
    slot. The new slot is not written here, so the stored neighbours stay
    as they were until `link_nodes` fills the slot.
   */
  function IncreaseNeighbors(nd: Node): (r: Node)
    ensures r.numNeighbors == nd.numNeighbors + 1
    ensures r.neighbors == nd.neighbors && r.id == nd.id && r.lbl == nd.lbl
    ensures WellLinked(nd) ==> r.numNeighbors == |r.neighbors| + 1
  {
    nd.(numNeighbors := nd.numNeighbors + 1)
  }

  /** `neighbors[num_neighbors - 1] = other`: fill the slot `increase_neighbors` just made. */
  function StoreLast(nd: Node, other: nat): (r: Node)
    requires nd.numNeighbors == |nd.neighbors| + 1
    ensures WellLinked(r)
  {
    nd.(neighbors := nd.neighbors + [other])
  }

  /**
    `link_nodes(a, b)`: both counts go up by one, `b` is appended to `a`'s
    list and `a` to `b`'s, and no other node changes. The only caller passes
    `a < b`, so the endpoints are distinct.
   */
  function LinkNodes(g: Nodes, a: nat, b: nat): (r: Nodes)
    requires a < |g| && b < |g| && a != b
    requires WellLinked(g[a]) && WellLinked(g[b])
    ensures |r| == |g|
    ensures r[a].numNeighbors == g[a].numNeighbors + 1 && r[b].numNeighbors == g[b].numNeighbors + 1
    ensures r[a].neighbors == g[a].neighbors + [b] && r[b].neighbors == g[b].neighbors + [a]
    ensures WellLinked(r[a]) && WellLinked(r[b])
    ensures r[a].id == g[a].id && r[a].lbl == g[a].lbl
    ensures r[b].id == g[b].id && r[b].lbl == g[b].lbl
    ensures forall v :: 0 <= v < |g| && v != a && v != b ==> r[v] == g[v]
  {
    var g1 := g[a := IncreaseNeighbors(g[a])];
    var g2 := g1[b := IncreaseNeighbors(g1[b])];
    var g3 := g2[a := StoreLast(g2[a], b)];
    g3[b := StoreLast(g3[b], a)]
  }

  /**
    Neighbours of `x` once every pair before `(i, j)` has been visited, pairs
    taken in the order of the two nested loops of `initialize_nodes`.
   */
  function Stage(edge: (nat, nat) -> bool, n: nat, x: nat, i: nat, j: nat): seq<nat> {
    if x < i then Up(edge, x, n)
    else if x == i then Up(edge, x, j)
    else if x < j then Up(edge, x, i + 1)
    else Up(edge, x, i)
  }

  predicate AtStage(g: Nodes, edge: (nat, nat) -> bool, i: nat, j: nat) {
    forall x :: 0 <= x < |g| ==>
      && g[x].id == x
      && g[x].lbl == x
      && WellLinked(g[x])
      && g[x].neighbors == Stage(edge, |g|, x, i, j)
  }

  /** The inner loop of `initialize_nodes`: pairs `(i, j)`, `(i, j + 1)`, ..., `(i, n - 1)`. */
  function LinkRow(g: Nodes, edge: (nat, nat) -> bool, i: nat, j: nat): (r: Nodes)
    requires i < j <= |g|
    requires AtStage(g, edge, i, j)
    ensures |r| == |g|
    ensures AtStage(r, edge, i, |g|)
    decreases |g| - j
  {
    if j == |g| then g
    else
      var g' := if edge(i, j) then LinkNodes(g, i, j) else g;
      assert AtStage(g', edge, i, j + 1) by {
        forall x | 0 <= x < |g'|
          ensures g'[x].neighbors == Stage(edge, |g'|, x, i, j + 1)
        {
          if x == i || x == j {
            assert Linked(edge, i, j) == edge(i, j) && Linked(edge, j, i) == edge(i, j);
          }
        }
      }
      LinkRow(g', edge, i, j + 1)
  }

  /** The outer loop of `initialize_nodes`: rows `i`, ..., `n - 2`. */
  function LinkRows(g: Nodes, edge: (nat, nat) -> bool, i: nat): (r: Nodes)
    requires AtStage(g, edge, i, i + 1)
    ensures |r| == |g|
    ensures forall x :: 0 <= x < |r| ==>
      r[x].id == x && r[x].lbl == x && WellLinked(r[x]) && r[x].neighbors == Up(edge, x, |r|)
    decreases |g| - i
  {
    if i + 1 >= |g| then
      g
    else
      var g' := LinkRow(g, edge, i, i + 1);
      assert AtStage(g', edge, i + 1, i + 2) by {
        forall x | 0 <= x < |g'|
          ensures g'[x].neighbors == Stage(edge, |g'|, x, i + 1, i + 2)
        {
          if x == i + 1 {
            assert !Linked(edge, x, x);
          }
        }
      }
      LinkRows(g', edge, i + 1)
  }

  /**
    `initialize_nodes(n)`: every node gets id and label equal to its index,
    then each pair `i < j` is visited once and linked when the oracle says
    so. Each node ends up listing exactly its linked partners, in
    increasing order.
   */
  function InitializeNodes(n: nat, edge: (nat, nat) -> bool): (g: Nodes)
    ensures |g| == n
    ensures forall x :: 0 <= x < n ==>
      g[x].id == x && g[x].lbl == x && WellLinked(g[x]) && g[x].neighbors == Up(edge, x, n)
  {
    var g0 := InitNodes(n);
    assert AtStage(g0, edge, 0, 1) by {
      forall x | 0 <= x < n
        ensures g0[x].neighbors == Stage(edge, n, x, 0, 1)
      {
        if x == 0 {
          assert !Linked(edge, 0, 0);
        }
      }
    }
    LinkRows(g0, edge, 0)
  }

  /**
    The graph after setup: valid, symmetric, free of self-loops and of
    duplicate edges, and linked exactly where the oracle said so.
   */
  lemma SetupGraph(n: nat, edge: (nat, nat) -> bool)
    ensures var g := InitializeNodes(n, edge);
      && Valid(g)
      && (forall x, y :: 0 <= x < n && 0 <= y < n ==> (y in g[x].neighbors <==> x != y && Linked(edge, x, y)))
      && (forall x, y :: 0 <= x < n && 0 <= y < n ==> (y in g[x].neighbors <==> x in g[y].neighbors))
      && (forall x :: 0 <= x < n ==> x !in g[x].neighbors)
      && (forall x, i, j :: 0 <= x < n && 0 <= i < j < |g[x].neighbors| ==> g[x].neighbors[i] != g[x].neighbors[j])
  {
    var g := InitializeNodes(n, edge);
    forall x | 0 <= x < n
      ensures NodeOk(g, x)
      ensures forall y: nat :: y in g[x].neighbors <==> y < n && x != y && Linked(edge, x, y)
      ensures forall i, j :: 0 <= i < j < |g[x].neighbors| ==> g[x].neighbors[i] < g[x].neighbors[j]
    {
      UpMembers(edge, x, n);
      UpIncreasing(edge, x, n);
      forall k | 0 <= k < |g[x].neighbors|
        ensures g[x].neighbors[k] < n
      {
        assert g[x].neighbors[k] in g[x].neighbors;
      }
    }
  }
}
