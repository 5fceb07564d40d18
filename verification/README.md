# Label propagation, modelled in Dafny

`labelprop.c` detects communities by synchronous label propagation. It
builds a random undirected graph on `n` nodes in which every node starts
with its own index as its label. It splits the nodes into `t` contiguous
shards, one per worker thread. The workers then repeat rounds. In each
round every node's next label is the most frequent label among its
neighbours, with ties broken by `rand()`. A coordinator thread stops the
run once every worker reports that its shard is stable.

This project models the core of that program as pure Dafny functions and
lemmas, one module per part of the program:

- `Partitioner` models `split_work`: shards as `(base, size)` pairs, checked against a closed form and shown to partition `0..n-1`.
- `GraphBuilder` models `initialize_nodes`, `link_nodes` and `increase_neighbors`. The random draw for each pair `i < j` is an oracle `edge(i, j)`. The finished graph is compared with a reference adjacency, `Up`.
- `MajorityVote` models `get_majority_label`. The `rand()` value is a parameter `r`. The candidate list is modelled both as written, where a new maximum is pushed twice, and as evidently intended.
- `Worker` models one round of `label_prop`: compute, check against `last_labels`, and store.
- `Coordinator` models the continue decision of `spawn_threads`. It includes the read of the workers' flags as the program orders it.
- `Engine` models a whole round as one synchronous step, `Round`, and relates it to the workers storing shard by shard, `Stores`. It proves what the stability flag means one and two rounds on.

Two behaviours of the code that shape the model:

- A worker's `last_labels` receives the labels as they were before this round's stores (labelprop.c:170). So its flag compares this round's next labels with labels from two rounds back (`Engine.FlagLagsTwoRounds`).
- A worker writes its flag after the check-completion barrier (labelprop.c:174, 185), while the coordinator reads the flags after the same barrier (labelprop.c:252, 262). See the third finding.

## Model

| member | source | states |
|---|---|---|
| Partitioner.SplitWork | labelprop.c:194-210 | exactly `t` shards; each gets `n / t` nodes, plus one exactly for the first `n % t` shards; each shard starts where the one before ends, the first at 0 and the last ending at `n`; each agrees with the closed form `ShardBase`/`ShardSize` |
| Partitioner.TilesPartition | labelprop.c:199-209 | shards laid end to end cover every node below `n`, hold no node at or above `n`, and no node lies in two shards |
| Partitioner.TilesTotal | labelprop.c:199-209 | the shard sizes add up to the number of nodes |
| GraphBuilder.InitNodesAsWritten | labelprop.c:94-99 | the first loop as written: every node has id and label equal to its index and an empty neighbour list, but its `num_neighbors` keeps whatever the fresh memory held |
| GraphBuilder.UninitialisedCountSurvivesSetup | labelprop.c:94-114 | on a one-node graph whose memory held 3, the node has no stored neighbour but a count of 3, so the count and the list disagree |
| GraphBuilder.LinkNodes | labelprop.c:86-92 | both endpoints' counts go up by one; `b` is appended to `a`'s list and `a` to `b`'s; ids and labels are kept; every other node is unchanged |
| GraphBuilder.LinkRow | labelprop.c:103-108 | after the inner loop over `j` for row `i`, every node lists exactly the partners it has up to that point in the pair order |
| GraphBuilder.LinkRows | labelprop.c:102-109 | after the outer loop every node's list is exactly its linked partners, in increasing order, and its count equals the list length |
| GraphBuilder.InitializeNodes | labelprop.c:94-110 | every node has id and label equal to its index, a count equal to its list length, and as its list exactly the nodes the oracle linked to it, in increasing order |
| GraphBuilder.SetupGraph | labelprop.c:94-110 | the built graph is valid, `y` is a neighbour of `x` iff `x != y` and the oracle linked them, adjacency is symmetric, and there are no self-loops and no duplicate edges |
| MajorityVote.Tally | labelprop.c:116-120 | each tally entry carries a label that occurs among the neighbour labels, with its number of occurrences, and every neighbour label has an entry |
| MajorityVote.TallyDistinct | labelprop.c:116-120 | no label has two tally entries |
| MajorityVote.CandidatesAreTied | labelprop.c:122-135 | the corrected scan ends with exactly the labels whose count is the maximum, and it is non-empty when the tally is |
| MajorityVote.CandidatesUnique | labelprop.c:116-135 | for a node with neighbours, the corrected list is non-empty, holds a label iff that label has the highest count among the neighbours, and holds each label once |
| MajorityVote.AsWrittenRepeatsFirst | labelprop.c:124-135 | the list the program builds is the corrected list with its first label repeated in front, so it has at least two slots and offers the same labels |
| MajorityVote.TieIsNotUniform | labelprop.c:124-135 | for labels 1 and 2 tied at two votes each, the program builds `[1, 1, 2]`, while the corrected scan builds `[1, 2]` |
| MajorityVote.AsWrittenMajority | labelprop.c:116-135 | for a node with neighbours, the program's list has at least two slots, and a label is in it iff it has the highest count among the neighbours |
| MajorityVote.AsWrittenMajorityAnyOrder | labelprop.c:116-139 | for a tally listed in any order, the program's list has at least two slots and holds a label iff it has the highest count among the neighbours, so every value of `rand()` picks such a label |
| MajorityVote.Vote | labelprop.c:116-139 | whatever `rand()` returns, the label picked from the program's list has the highest count among the neighbour labels |
| MajorityVote.VoteReachesEveryMajority | labelprop.c:116-139 | every label of highest count is returned for some value of `rand()` |
| MajorityVote.FairVote | labelprop.c:136-139 | the draw indexing the corrected list also returns a label of highest count |
| MajorityVote.FairVoteOneSlotEach | labelprop.c:136-139 | with the corrected list, among the draws `0 .. size - 1` exactly one returns each label of highest count, which makes the tie-break uniform |
| MajorityVote.VoteTieAsWritten | labelprop.c:124-139 | for neighbour labels `{1, 1, 2, 2}` with the tally listing 1 before 2, draws 0, 1 and 2 give 1, 1 and 2 from the program's list; in the corrected version draws 0 and 1 give 1 and 2 |
| MajorityVote.VoteClearMajority | labelprop.c:116-139 | neighbour labels `{1, 1, 2}` give label 1 for every value of `rand()` |
| MajorityVote.VoteTie | labelprop.c:116-139 | neighbour labels `{1, 1, 2, 2}` give 1 or 2, and each of the two for some value of `rand()` |
| MajorityVote.MajorityLabel | labelprop.c:112-140 | a node with no neighbours keeps its label; any other node gets the label of one of its neighbours, and that label has the highest count among its neighbours' labels |
| Worker.StartWorker | labelprop.c:142-145 | a new worker's `last_labels` has one zero per shard node, and its flag holds an arbitrary value |
| Worker.StableFrom | labelprop.c:157-163 | the early-exit scan reports stable iff every next label equals the saved label at the same position |
| Worker.StoreFrom | labelprop.c:169-172 | each shard node's old label is saved into `last_labels` and its next label written in its place; nodes outside the shard and all ids and links are unchanged |
| Worker.StoresCommute | labelprop.c:169-172 | the stores of two workers on disjoint shards give the same nodes and the same saved buffers in either order |
| Worker.NextWorker | labelprop.c:150-172 | after a round, a worker's `last_labels` is its shard's labels from before the stores, and its flag is true iff the newly computed labels equal the old `last_labels` |
| Coordinator.ContinueFrom | labelprop.c:260-267 | the scan that breaks at the first false flag decides to continue iff some worker's flag is false |
| Coordinator.FlagsSeenAsWritten | labelprop.c:174-185 | each flag the coordinator reads is either this round's value or the stale one; it is this round's value whenever the worker stored before the read |
| Coordinator.DecisionAsWritten | labelprop.c:250-267 | when every worker stored its flag before the coordinator read it, the run continues iff some worker is not stable |
| Engine.Start | labelprop.c:235-247 | the initial state has the built graph, one worker per shard with an all-zero `last_labels`, and `run` set |
| Engine.Round | labelprop.c:148-188 | one round: links and shards are unchanged, an isolated node keeps its label, every other node's new label has the highest count among its neighbours' labels from the start of the round, and the run continues iff some worker's flag is false |
| Engine.StoresCommitRound | labelprop.c:150-172 | the workers storing shard after shard in worker order reach exactly the labels and saved buffers of `Round` |
| Engine.FlagMeaning | labelprop.c:157-172 | a worker's flag after a round is true iff its shard's new labels equal the labels its `last_labels` held before the round |
| Engine.IsolatedKeepsLabel | labelprop.c:112-114 | a node without neighbours is unchanged by a round |
| Engine.FirstRoundFlag | labelprop.c:145-163 | in the first round a worker reports stable iff every new label in its shard is 0 |
| Engine.FlagLagsTwoRounds | labelprop.c:157-172 | in the second round and later, a worker's flag is true iff its shard's labels now equal its labels from two rounds earlier |
| Engine.PairRound | labelprop.c:148-172 | on a single edge with one worker the two labels swap, the worker saves the old pair, and it reports stable iff the swapped pair equals its previous buffer |
| Engine.SwapHaltsUnconverged | labelprop.c:142-188 | on the single edge the run continues after round one and halts after round two, with the starting labels back, although each node's majority label is the other node's |
| Engine.StaleFlagHidesChange | labelprop.c:174-187 | with one worker, a stale true flag read before this round's false one is stored makes the coordinator halt, where the decision on this round's flags continues |
| Engine.StaleFlagHaltsFirstRound | labelprop.c:174-187 | on the single edge, when the uninitialised flag holds true and the read beats the store, the run halts after round one although the labels just changed |

## Left out

- `pthread_create`, `pthread_join` and the four barriers are not modelled as threads. A round is one synchronous step, justified by the store barrier at labelprop.c:166. `Engine.StoresCommitRound` and `Worker.StoresCommute` relate that step to shard-by-shard stores.
- Randomness (`srand`, `time`, `rand` and the `PROBABILITY` comparison in floating point) is not modelled. The pair draw is the oracle `edge(i, j)`. The `rand()` of the vote is the value `tie(x)` for node `x` in each round.
- `parse_args`, every `printf`, and `malloc`/`realloc`/`calloc` are left out. They are I/O and memory management; arrays become sequences.
- Partitioner.SplitWork: requires `t > 0` and takes `n` as a `nat`. With `num_threads` left at its initial 0 (labelprop.c:285) the program divides by zero at labelprop.c:195, and a negative node count from `atoi` is not modelled.
- MajorityVote.Tally: lists labels in the order they first occur among the neighbours, where the `unordered_map` of labelprop.c:116 has unspecified iteration order. `AsWrittenMajorityAnyOrder`, `CandidatesAreTied` and `AsWrittenRepeatsFirst` hold for a tally in any order. `Vote`, `CandidatesUnique`, `AsWrittenMajority` and the concrete examples are stated for the first-occurrence order, and `Vote`'s choice for a given draw depends on that order.
- GraphBuilder.InitNodes: starts `num_neighbors` at 0, the corrected first loop (first finding). The rest of the model uses this version.
- Engine.Round: decides on this round's flags, as if every worker stored its flag before the coordinator read it. The racy read of labelprop.c:185 and 262 is modelled separately by `Coordinator.DecisionAsWritten`, `Engine.StaleFlagHidesChange` and `Engine.StaleFlagHaltsFirstRound`.
- Engine.StoresCommitRound: covers the stores in worker order. Other orders are covered two workers at a time by `Worker.StoresCommute`; node-by-node interleavings of the threads' stores are not modelled.
- C `int` overflow in counts, labels and shard sizes is not modelled; integers are unbounded.
- The loop over rounds until `run` is false, and its termination, are not modelled. The lemmas cover one and two rounds.
- `get_majority_label` on a node whose count disagrees with its list (the first finding) is not modelled beyond the witness. It reads a null or unset neighbour pointer.

## Findings

| source | as written | input that shows it | evidently intended | confidence | as-written member | corrected member |
|---|---|---|---|---|---|---|
| labelprop.c:95-99 | the first loop sets id, label and the neighbour pointer, but never `num_neighbors`, which `increase_neighbors` then increments from whatever `malloc` left | one node whose fresh memory holds 3 in `num_neighbors`: after setup it has a null neighbour list and a count of 3, and `get_majority_label` skips the isolated-node return | `num_neighbors` set to 0 with the pointer | not executed | GraphBuilder.UninitialisedCountSurvivesSetup | GraphBuilder.InitializeNodes |
| labelprop.c:127-134 | a count above the running maximum restarts the list with its label, and the following `==` test then pushes the same label again | neighbour labels `{1, 1, 2, 2}` tallied 1 then 2 give the list `[1, 1, 2]`, so draws 0, 1, 2 give 1 twice and 2 once, and the `size() == 1` shortcut of line 136 never applies | the `==` test as an `else` branch, each tied label once, drawn uniformly as the comment on line 139 says | not executed | MajorityVote.VoteTieAsWritten | MajorityVote.FairVoteOneSlotEach |
| labelprop.c:185 | each worker stores its flag after the check-completion barrier (line 174), and the coordinator reads the flags after the same barrier (lines 252, 262), so the read can see the previous round's flag or, in round one, the never-initialised one | the single edge with one worker whose uninitialised flag holds true: the labels change in round one, yet the coordinator reads true and halts | the flag stored before the check-completion barrier, so the coordinator decides on this round's flags | not executed | Engine.StaleFlagHaltsFirstRound | Engine.Round |

For the second finding, the engine keeps the vote as the program builds it. The set of labels it can return is the same as with the corrected list (`MajorityVote.AsWrittenMajority`). Every property of `Round` holds for every draw.
