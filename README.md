# Travel route planner: graph loading and the three shortest-path searches

This project models the core of a C++ travel route planner in Dafny:

- the `Graph` it loads from two CSV files (node rows `id,lat,lon,name` and edge rows `u,v,w`);
- the three searches it runs over that graph: Dijkstra with a lazily updated heap, A\* with a closed set, and bidirectional A\*;
- the `Stats` record each search returns (distance, nodes expanded, time, path).

Files and modules:

- `graph.dfy` (module `GraphModel`):
  - `Edge`, `trim`, and the header rule of the loaders;
  - the three parallel tables (coordinates, names, adjacency) as the value `Tables`, and the `Graph` class whose fields the loaders update in place;
  - `ensure_size`, one node row, one edge row, and the two loaders over the lines of a file.
- `walks.dfy` (module `Walks`): walks along edges and their weights. The search contracts are stated in these terms.
- `frontier.dfy` (module `Frontier`): the priority queues. Each is a sequence of entries from which a least entry is taken and removed.
- `planner.dfy` (module `Planner`):
  - distances with an infinity, `Stats` and its default value;
  - `reconstruct_parent`, and the parent-chain walks of the bidirectional search;
  - lemmas turning a parent tree into a walk.
- `dijkstra.dfy`, `astar.dfy`, `bidir.dfy`:
  - each has a proof module holding the search invariant and one lemma per step of the search;
  - each has a search module holding the imperative search itself.

Each search is a `method` with the source's loops. Its contract ties the returned `Stats` to walks in the graph:

- Dijkstra returns the least weight over all walks, together with a walk of that weight.
- A\* returns the weight of the walk it returns. It finds a walk whenever one exists. When the heuristic is consistent (it drops by no more than an edge's weight along any edge), that weight is the least walk weight, the distance Dijkstra returns. With non-negative weights the zero heuristic is consistent.
- Bidirectional A\* returns a path made of a walk from `s` to the meeting node followed by a reversed walk from `t`, weighing at most the distance it reports. In a symmetric graph that path is a walk from `s` to `t` (`BidirProof.SymmetricSplitWalk`). In a symmetric graph the search also finds a path whenever one exists: the distance is finite exactly when some walk leads from `s` to `t` (`Bidir.BidirAStarSearch`). A new graph loaded with a node file and then an edge file, with the default `undirected = true`, is symmetric (`GraphModel.LoadedGraphSymmetric`).

## Model

| member | source | states |
|---|---|---|
| GraphModel.Trim | src/graph.cpp:6-11 | the result is a slice of the input with only blanks, tabs, CRs and LFs cut on either side; it is empty exactly when the input is all such characters, otherwise it starts and ends with another character |
| GraphModel.FirstNonSpace | src/graph.cpp:7 | first position at or after `i` that is not whitespace, the string's length standing for `npos` |
| GraphModel.EndNonSpace | src/graph.cpp:9 | one past the last non-whitespace position, 0 when there is none |
| GraphModel.TrimIdempotent | src/graph.cpp:6-11 | trimming a trimmed string changes nothing |
| GraphModel.FirstField | src/graph.cpp:32 | the text before the first comma (the whole line when there is none) |
| GraphModel.IsNumericField | src/graph.cpp:33-34 | true exactly when every character is '-', '.' or a digit |
| GraphModel.HeaderOnlyFirst | src/graph.cpp:27-37 | the rows a loader applies are the parsed non-empty lines, in order, minus the first non-empty line exactly when its first field is not numeric |
| GraphModel.Grown | src/graph.cpp:15-17 | `resize` to grow: the old prefix is kept, new slots hold the fill value, nothing shrinks |
| GraphModel.Tables.Grow | src/graph.cpp:13-19 | all three tables grow to at least `n`, keep their contents, get `(0,0)`, `""` and `[]` in new slots, and stay aligned |
| GraphModel.Tables.AddEdge | src/graph.cpp:90-94 | a row with a negative end changes nothing; otherwise the tables grow to cover both ends, `u` gets the edge to `v` appended, and, when undirected, `v` gets the edge to `u` |
| GraphModel.Tables.SetNode | src/graph.cpp:47-50 | corrected node row: a negative id changes nothing; otherwise `max_id` becomes the larger id, the tables grow to `max_id + 1`, and slot `id` gets the coordinates and the trimmed name |
| GraphModel.Tables.SetNodeAsWritten | src/graph.cpp:47-50 | the node row as written: a write happens only when the id is non-negative |
| GraphModel.NegativeIdWritesOutOfBounds | src/graph.cpp:47-49 | the row `-3,1.0,2.0,x` makes the code as written index the coordinate table at -3 |
| GraphModel.SetNodeAgreesOnValidIds | src/graph.cpp:47-50 | for every non-negative id the corrected row and the row as written give the same tables |
| GraphModel.AddEdgeInRange | src/graph.cpp:90-94 | one edge row keeps every edge pointing at an existing node |
| GraphModel.AddEdgesInRange | src/graph.cpp:62-95 | a whole edge file keeps every edge in range and never shrinks the graph |
| GraphModel.AddEdgeSymmetric | src/graph.cpp:93-94 | an undirected edge row keeps a symmetric adjacency symmetric |
| GraphModel.AddEdgesSymmetric | src/graph.cpp:62-95 | loading an undirected edge file into a symmetric graph leaves it symmetric |
| GraphModel.SetNodesNoEdges | src/graph.cpp:47-52 | node rows add no edge: an edgeless graph stays edgeless |
| GraphModel.LoadedGraphSymmetric | src/graph.h:16-18 | a new graph loaded with any node rows and then any edge rows with the default `undirected = true` is symmetric |
| GraphModel.SetNodesAligned | src/graph.cpp:47-52 | node rows keep the three tables the same length, with `max_id` inside them |
| GraphModel.LastNodeRowWins | src/graph.cpp:27-51 | after a node file, the last row for each non-negative id decides its coordinates and name, and the id is inside the tables |
| GraphModel.Graph.constructor | src/graph.h:16 | a new graph is empty and valid |
| GraphModel.Graph.NumNodes | src/graph.h:20 | the node count is the number of coordinate slots, which equals the number of names and adjacency lists |
| GraphModel.Graph.EnsureSize | src/graph.cpp:13-19 | returns true, and the fields become the grown tables |
| GraphModel.Graph.SetNodeRow | src/graph.cpp:47-50 | the fields and `max_id` become the corrected node row's result, and `max_id` stays inside the tables |
| GraphModel.Graph.AddEdgeRow | src/graph.cpp:90-94 | the fields become the edge row's result and the graph stays valid |
| GraphModel.Graph.LoadNodes | src/graph.cpp:21-54 | a file that cannot be opened gives false and no change; otherwise true, and the tables are the node rows of the data lines applied in order |
| GraphModel.Graph.LoadEdges | src/graph.cpp:56-97 | `undirected` defaults to true; a file that cannot be opened gives false and no change; otherwise true, and the tables are the edge rows of the data lines applied in order |
| Frontier.RemoveAt | src/planner.cpp:59 | `pop()`: one fewer entry, the same multiset minus the popped one, order of the rest kept |
| Frontier.LexMinIndex | src/planner.cpp:52 | `top()` of the `std::greater` pair heap: an entry no greater in (key, node) order than any other |
| Frontier.KeyMinExists | src/planner.cpp:99-101 | a non-empty open list has an entry of least key, which is what the `f`-only comparator's `top()` returns |
| Planner.Reverse | src/planner.cpp:36 | `std::reverse`: same length, element `i` is the `i`-th from the end of the input |
| Planner.ReconstructParent | src/planner.cpp:26-38 | empty for an out-of-range `t`; otherwise non-empty exactly when the backward walk from `t` meets `s`; a non-empty path runs from `s` to `t` along parent links; `s == t` gives `[s]` |
| Planner.ParentChain | src/planner.cpp:240 | the `for (cur = x; cur != -1; cur = p[cur])` walk: empty exactly for `-1`, otherwise starts at `x`, follows parent links and ends at a node without a parent |
| Planner.TreeReaches | src/planner.cpp:26-38 | in a ranked parent tree rooted at `s`, every reached node's backward walk meets `s` |
| Planner.TightTreeWalk | src/planner.cpp:26-38 | a path along tight parent links is a walk weighing the distance difference of its ends |
| Planner.ReconstructedWalk | src/planner.cpp:75 | the reconstructed path from `s` to `t` is a walk weighing `t`'s distance |
| DijkstraProof.InitInv | src/planner.cpp:49-54 | the initial vectors and heap satisfy the search invariant |
| DijkstraProof.StalePop | src/planner.cpp:60 | dropping a stale entry keeps the invariant |
| DijkstraProof.FreshPop | src/planner.cpp:59-61 | a fresh least entry names a node not yet expanded, and expanding it keeps the invariant, so at most `n` nodes are expanded |
| DijkstraProof.RelaxSkip | src/planner.cpp:64 | an edge that does not improve its target keeps the invariant |
| DijkstraProof.RelaxUpdate | src/planner.cpp:64-67 | an improving edge sets distance, parent and a new heap entry and keeps the invariant |
| DijkstraProof.RelaxDone | src/planner.cpp:63-69 | once every edge of the node is relaxed, the invariant holds for the next pop |
| DijkstraProof.TreeOf | src/planner.cpp:63-69 | the parent links form a ranked tight tree, and every reached node other than `s` has a parent |
| DijkstraProof.FrontierBound | src/planner.cpp:58-70 | every walk from `s` either ends at a node whose distance is at most the walk's weight, or passes an unexpanded reached node that is that close |
| DijkstraProof.Exhausted | src/planner.cpp:58 | an empty heap means `dist[t]` is the least walk weight, infinite when there is no walk |
| DijkstraProof.AtTarget | src/planner.cpp:62 | a fresh pop of `t` means `dist[t]` is the least walk weight |
| Dijkstra.RelaxEdges | src/planner.cpp:63-69 | relaxing all edges of the expanded node keeps the invariant, and distances only decrease |
| Dijkstra.Step | src/planner.cpp:59-69 | one round: a stale pop leaves the expanded set alone and shortens the heap; a fresh pop of `t` stops with `dist[t]` optimal over all walks; any other fresh pop expands one new node and keeps the invariant |
| Dijkstra.Settle | src/planner.cpp:58-70 | the loop ends with a ranked tight parent tree and `dist[t]` optimal over all walks; it expands between 1 and `n` nodes, and exactly 1 when `s == t` |
| Dijkstra.DijkstraSearch | src/planner.cpp:43-77 | default `Stats` for out-of-range indices; otherwise 1..n expansions, an infinite distance exactly with an empty path, a finite distance with a walk from `s` to `t` of that weight that no walk beats, and `(0, 1, [s])` for `s == t` |
| AStarProof.InitInv | src/planner.cpp:102-104 | the initial scores and open list satisfy the search invariant |
| AStarProof.ClosedPop | src/planner.cpp:111 | a popped closed node was already expanded, and skipping it keeps the invariant |
| AStarProof.OpenPop | src/planner.cpp:109-113 | an open popped node has a g-score, is new to the closed set, and closing it keeps the invariant, so at most `n` nodes are expanded |
| AStarProof.RelaxSkip | src/planner.cpp:117-119 | an edge into a closed node, or one that does not improve, keeps the invariant |
| AStarProof.RelaxUpdate | src/planner.cpp:118-123 | an improving edge into an open node sets g, f, parent and a new entry and keeps the invariant |
| AStarProof.RelaxDone | src/planner.cpp:115-125 | once every edge is relaxed, the invariant holds for the next pop |
| AStarProof.TreeOf | src/planner.cpp:115-125 | the parent links form a ranked tight tree, and every reached node other than `s` has a parent |
| AStarProof.ReachedAlong | src/planner.cpp:108-126 | when the open list runs out, every node on a walk from `s` has a g-score |
| AStarProof.Exhausted | src/planner.cpp:108 | an empty open list leaves a ranked tight parent tree in which a finite `gscore[t]` leads back to `s`, and `gscore[t]` is finite whenever some walk reaches `t` |
| AStarProof.AtTarget | src/planner.cpp:114 | closing `t` leaves a ranked tight parent tree in which `t`'s backward walk meets `s`, with `gscore[t]` finite |
| AStarProof.ZeroHeuristicConsistent | src/planner.cpp:92-97 | with non-negative weights the zero heuristic is consistent, so A\* with it is covered by the optimality results below |
| AStarProof.InitOpt | src/planner.cpp:102-104 | under a consistent heuristic, the initial state satisfies the ordering invariant, `last` being `h(s)` |
| AStarProof.ClosedPopOpt | src/planner.cpp:111 | skipping a closed node's entry keeps the ordering invariant |
| AStarProof.OpenPopOpt | src/planner.cpp:109-113 | the least entry's key is its node's f-score; closing the node makes that key `last` and keeps the ordering invariant |
| AStarProof.RelaxSkipOpt | src/planner.cpp:117-119 | under a consistent heuristic, a skipped edge into a closed node is still bounded (that node's g-score is within the edge), as is a non-improving edge |
| AStarProof.RelaxUpdateOpt | src/planner.cpp:118-123 | under a consistent heuristic, an improving edge pushes an entry no lower than `last` and becomes bounded |
| AStarProof.RelaxDoneOpt | src/planner.cpp:115-125 | once every edge is looked at, the ordering invariant holds for the next pop |
| AStarProof.FrontierBoundOpt | src/planner.cpp:108-126 | under a consistent heuristic, every walk from `s` either ends at a node whose g-score is within its weight, or passes an open node whose f-score is within the weight plus `h` at the walk's end |
| AStarProof.ExhaustedOpt | src/planner.cpp:108 | under a consistent heuristic, an empty open list makes `gscore[t]` the least walk weight |
| AStarProof.AtTargetOpt | src/planner.cpp:109-114 | under a consistent heuristic, closing `t` from a least entry makes `gscore[t]` the least walk weight |
| AStar.RelaxEdges | src/planner.cpp:115-125 | keeps the invariant; g-scores only decrease, and a closed node's g-score never changes; under a consistent heuristic it also keeps the ordering invariant |
| AStar.Settle | src/planner.cpp:108-126 | the loop ends with a ranked tight parent tree, `gscore[t]` finite whenever a walk exists, and least over all walks when the heuristic is consistent; 1..n expansions, exactly 1 when `s == t` |
| AStar.AStarSearch | src/planner.cpp:81-133 | default `Stats` for out-of-range indices; otherwise 1..n expansions, an infinite distance exactly with an empty path, a finite distance with a walk from `s` to `t` of exactly `gscore[t]`, a finite distance whenever a walk exists, no walk lighter than the distance when the heuristic is consistent, and `(0, 1, [s])` for `s == t` |
| BidirProof.InitSide | src/planner.cpp:164-165 | the initial state of each direction satisfies its invariant |
| BidirProof.PopClosed | src/planner.cpp:186 | a popped closed node was already closed, and skipping it keeps the invariant |
| BidirProof.PopOpen | src/planner.cpp:184-188 | a popped open node has a g-score and is new, and closing it keeps the invariant |
| BidirProof.SideUpdate | src/planner.cpp:192-196 | an improving edge never targets its own source or the root, and setting g, parent and a new entry keeps the invariant |
| BidirProof.SideTree | src/planner.cpp:189-202 | every state of a direction carries a parent forest rooted at its start node |
| BidirProof.TreeRanked | src/planner.cpp:240 | with non-negative weights the parent links of each direction have no cycle, so the chain walks of planner.cpp:240 and 247 end |
| BidirProof.ChainWalk | src/planner.cpp:240-241 | a parent chain ends at the root, and read backwards it is a walk from the root weighing no more than the first node's g-score |
| BidirProof.Split | src/planner.cpp:238-253 | `left` followed by `right` is a walk from `s` to the meeting node followed by a reversed walk from `t`, together weighing at most `best_path` |
| BidirProof.WalkReverse | src/planner.cpp:247 | in a symmetric graph a walk read backwards is a walk of the same weight |
| BidirProof.SymmetricSplitWalk | src/planner.cpp:238-253 | in a symmetric graph the built path is a walk from `s` to `t` weighing at most `best_path` |
| BidirProof.InitReach | src/planner.cpp:155-165 | at the start only the root has a g-score, and its entry `g + h` is in the open list |
| BidirProof.ReachPopClosed | src/planner.cpp:184-186 | dropping a closed node's entry loses no open node's entry |
| BidirProof.ReachPopOpen | src/planner.cpp:184-188 | closing an open node with a g-score starts its edge loop and loses no other open node's entry |
| BidirProof.ReachSkip | src/planner.cpp:191-192 | an edge that improves nothing still leaves its target with a g-score |
| BidirProof.ReachUpdate | src/planner.cpp:192-197 | an improving edge gives its target a g-score, a closed parent and an entry keyed `g + h` |
| BidirProof.ReachedAll | src/planner.cpp:177 | once a direction's open list is empty, the end of every walk from a scored node is closed in that direction |
| BidirProof.SideScored | src/planner.cpp:187-188 | every node a direction has closed has a g-score there |
| BidirProof.SideBacked | src/planner.cpp:192-194 | in a symmetric graph, an open scored node other than the root has an edge back to a closed node, its parent |
| BidirProof.Ready | src/planner.cpp:184-223 | before a half-step: the other direction's closed nodes are scored, its root is closed once anything is, and in a symmetric graph its open scored nodes lead back to closed ones |
| BidirProof.CrossClose | src/planner.cpp:187-202 | closing a node that the other direction has scored yields a finite `best_path`, either directly or through the meeting check on the edge back to the other direction's closed parent |
| BidirProof.Exhausted | src/planner.cpp:177 | in a symmetric graph, when one open list has run dry (or `best_path` is finite), any walk from `s` to `t` means `best_path` is finite |
| BidirProof.SplitJoin | src/planner.cpp:251-252 | a walk from `s` to the meeting node followed by the rest of a reversed walk from `t` is a split walk of their total weight |
| Bidir.RelaxEdge | src/planner.cpp:190-201 | one edge of the edge loop: only its target's g-score changes, only downwards, to at most g(u) plus the edge; when the other direction has closed the target, `best_path` is at most the sum of its two g-scores; both invariants are kept |
| Bidir.RelaxSide | src/planner.cpp:189-202 | every target of `u` ends with a g-score at most g(u) plus the edge; every target closed by the other direction ends with `best_path` at most its two g-scores added; both invariants of the direction and the meeting-node fact are kept; g-scores and `best_path` only decrease |
| Bidir.Expand | src/planner.cpp:184-202 | a closed pop changes nothing but the open list, which loses exactly that entry; an open pop closes exactly that node and leaves each of its targets with a g-score at most g(u) plus the edge; `best_path` only decreases; closing a node the other direction has scored yields a finite `best_path` |
| Bidir.ForwardHalf | src/planner.cpp:183-202 | the forward half-step pops the least forward entry: a closed node leaves g-scores, parents, closed flags and `best_path` as they were, drops only that entry and keeps the top-of-round invariant; an open node becomes closed, exactly one more, and the invariant between the halves holds |
| Bidir.BackwardHalf | src/planner.cpp:204-223 | the backward half-step pops the least backward entry: a closed node leaves the backward state and `best_path` as they were and drops only that entry; an open node becomes closed, exactly one more; either way the top-of-round invariant holds again |
| Bidir.Search | src/planner.cpp:177-224 | the loop ends with a parent forest per direction and a meeting node whose two g-scores add up to at most `best_path`; 1..2n expansions; in a symmetric graph with `s != t`, any walk from `s` to `t` makes `best_path` finite |
| Bidir.BidirAStarSearch | src/planner.cpp:142-255 | default `Stats` for out-of-range indices; `(0, 0, [s])` for `s == t`; otherwise 1..2n expansions, an infinite distance exactly with an empty path, and a finite distance with a path that walks from `s` to a meeting node and back along a walk from `t`, weighing at most the distance; in a symmetric graph the distance is finite exactly when some walk leads from `s` to `t` |

## Left out

- Search vectors are kept as immutable `seq` locals. These are `dist`, `parent`, `gscore`, `fscore`, `closed`, `g_f`, `g_b`, `p_f`, `p_b`, the heaps and the path vectors. The model does not capture update in place or aliasing of those `std::vector`s.
- Each heap is a sequence. A\* and bidirectional A\* take any entry of least key, because their comparator looks at `f` only and `std::priority_queue` breaks ties in an unspecified way.
- Time: `millis` is always 0. No clock is read, so `std::chrono` is not modelled.
- Heuristics: both are parameters.
  - A\* uses `h(v)`. The Euclidean distance on coordinates and its `sqrt` are not modelled.
  - Bidirectional A\* uses `h(v, goal)`. `haversine_km` and its trigonometry are not modelled.
  - A\* is proved optimal only for a consistent heuristic (`AStar.AStarSearch`). Whether the Euclidean heuristic is consistent for a given graph depends on the edge weights and coordinates in its files, so the model does not claim it.
- Floating point: weights and distances are reals, and the infinity is a separate `Inf` value. `double` rounding is not modelled.
- Integers: `int` and `size_t` are unbounded. `max_id + 1` and `std::max(u,v) + 1` do not overflow in the model.
- Stream parsing is not modelled. That covers `std::getline`, `operator>>`, `peek`, `stoi`/`stod` and their exceptions, and file opening. A line arrives as its text plus the record the stream parse made of it (`None` when it fails), and opening is a boolean parameter.
- Messages written to `std::cerr` are dropped.
- The `seen` vector and the no-op `relax_neighbors` lambda in `bidir_astar_search` do nothing, and are not modelled.
- Coords, names and adjacency are the accessors `get_coords`, `get_names` and `adjacency`. They return the fields, and carry no contract of their own.
- Dijkstra.DijkstraSearch, Dijkstra.Settle and Dijkstra.RelaxEdges require non-negative weights. With a negative cycle the lazy heap never empties, and the optimality claim needs the standard Dijkstra assumption.
- Bidir.BidirAStarSearch, Bidir.Search, Bidir.ForwardHalf, Bidir.BackwardHalf, Bidir.Expand, Bidir.RelaxSide and Bidir.RelaxEdge require non-negative weights. Without them, the parent links of a direction can form a cycle, and the chain walks at planner.cpp:240 and 247 would not end.
- Bidir.BidirAStarSearch does not claim that the distance is the least walk weight. The stopping rule with an arbitrary heuristic does not guarantee it.
  - A finite distance bounds the path's weight from above, because a meeting node's g-scores can still drop after it is recorded.
  - The path's second half follows `p_b` links, which point along forward edges from `t`. The path is therefore a walk from `s` to `t` only when the graph is symmetric (`BidirProof.SymmetricSplitWalk`). A new graph loaded with the default `undirected = true` is such a graph (`GraphModel.LoadedGraphSymmetric`).
- Bidir.BidirAStarSearch promises a finite distance for every reachable `t` only in a symmetric graph. The backward search follows edges out of `t`, not into it. In a directed load with the single edge 0→1, `s = 0` and `t = 1`, the backward list runs dry after popping `t`, no meeting node is found, and the distance is infinite. Bidir.Search states the same guarantee for symmetric graphs only.
- Expansion counts for `s == t` follow the code. Dijkstra and A\* pop `s` and count 1 expansion. Bidirectional A\* returns before searching and counts 0.
- `haversine_km` itself (planner.cpp:13-24) is floating-point trigonometry and is not part of this model.

## Findings

| source | as written | input that shows it | evidently intended | confidence | as-written member | corrected member |
|---|---|---|---|---|---|---|
| src/graph.cpp:47-50 | a node row with a negative id sets `max_id` no higher, then writes `coords[id]` and `names[id]` at a negative index | the row `-3,1.0,2.0,x` in a node file (on an empty graph, `coords` is still empty) | rows with a negative id are skipped, as the edge loader does for negative ends at graph.cpp:90 | high, not executed | GraphModel.NegativeIdWritesOutOfBounds | GraphModel.Tables.SetNode |
