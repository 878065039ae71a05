# Graph algorithm engines of lab4-rust-code4visualizer, in Dafny

This project models the Rust core of `lab4-rust-code4visualizer`:

- the adjacency-list `Graph` with `new` and `add_edge`, and the ten-city fixture `create_city_graph`;
- the explicit-stack depth-first traversal `dfs`, with its snapshot trace;
- the shortest-path engine `dijkstra`, with its snapshot trace;
- the minimum-spanning-tree engine `prim`.

Each engine is a Dafny method over immutable values. The proofs cover:

- the shape of every trace;
- the loop invariants and termination measures;
- the classic correctness results:
  - `dfs` visits exactly the reachable nodes and its path edges form a tree;
  - `dijkstra` settles exactly the nodes reachable below the `u32::MAX` cap, at their shortest distances and in non-decreasing order;
  - `prim` builds a tree over exactly the reachable nodes, and on an undirected graph no spanning tree is lighter.

Layout, one module per file:

| file | module | contents |
|---|---|---|
| `options.dfy` | `Options` | `Option` |
| `graph.dfy` | `Graphs` | `Edge`, `Graph`, `New`, `AddEdge`, validity, symmetry, entry count, the snapshot record `Step` and `Visualization` |
| `city_graph.dfy` | `CityGraph` | the fixture |
| `walks.dfy` | `Walks` | walks, their weights, reachability, shortest distance |
| `trees.dfy` | `Trees` | trees given as edge lists in attachment order |
| `frontier.dfy` | `Frontier` | the min-priority frontier: a multiset with "extract some entry of least key" |
| `sums.dfy` | `Sums` | sums of naturals |
| `spanning.dfy` | `Spanning` | rooted spanning trees, their weight, and the exchange argument behind Prim's optimality |
| `dfs.dfy`, `dijkstra.dfy`, `prim.dfy` | `Dfs`, `Dijkstra`, `Prim` | the engines |

Conventions:

- **Unknown start city.** Every engine takes the start node as `Option<nat>`: the result of looking the root name up in `city_to_idx`. `None` models the source's "not found" branch.
- **Priority ties.** The `BinaryHeap`s with reversed `Ord` compare the key alone, so the entry popped among equal keys is unspecified. The model picks one nondeterministically (`:|`), and every result holds whichever entry is picked.
- **Prim's result.** The source prints `mst_edges` and `total_weight`; the model returns them (`Mst`).

Behaviour worth knowing before reading the contracts:

- **Dijkstra's addition.** `dijkstra.rs:93` adds `cost + edge.weight` in `u32`, which overflows once the sum passes `u32::MAX`. The model adds without bound, so an offer past `u32::MAX` is never an improvement: on overflow it behaves as saturating addition would, not as the code does (see `Dijkstra.RelaxOne` under "Left out").
- **Prim's trace.** `prim.rs` records no snapshots; it only prints the accepted edges and their total, which the model returns.
- **DFS neighbour order.** `dfs.rs:71-80` descends into the first unvisited neighbour in forward adjacency order (the `break` at `dfs.rs:78`), and so does the model.

## Model

| member | source | states |
|---|---|---|
| Graphs.New | lab4-rust-code4visualizer/src/graph.rs:35-40 | `n` nodes, every adjacency list empty; the result is valid, symmetric and has no entries |
| Graphs.AddEdge | lab4-rust-code4visualizer/src/graph.rs:43-46 | appends `Edge(v, w)` to `u`'s list and `Edge(u, w)` to `v`'s; a self-loop puts both entries in one list; other lists and the node count are unchanged; both ends must be nodes, since the indexing panics otherwise |
| Graphs.AddEdgeKeepsValid | lab4-rust-code4visualizer/src/graph.rs:43-46 | inserting an edge between two nodes keeps every entry pointing at a node |
| Graphs.CountAfterAddEdge | lab4-rust-code4visualizer/src/graph.rs:43-46 | the copies of any entry in any list grow by exactly the entries the insertion adds there; no deduplication |
| Graphs.AddEdgeKeepsSymmetric | lab4-rust-code4visualizer/src/graph.rs:43-46 | the count of `Edge(v, w)` in `u`'s list stays equal to the count of `Edge(u, w)` in `v`'s list |
| Graphs.AddEdgeAddsTwoEntries | lab4-rust-code4visualizer/src/graph.rs:44-45 | each insertion adds exactly two adjacency entries in total |
| Graphs.AllCandidates | lab4-rust-code4visualizer/src/dfs.rs:34-37 | the initial candidate list is `(start, e.to)` for every entry of the start's list, in list order |
| CityGraph.CitiesDistinct | lab4-rust-code4visualizer/src/graph.rs:52-55 | the ten city names are pairwise distinct |
| CityGraph.CityToIdx | lab4-rust-code4visualizer/src/graph.rs:62-65 | no contract of its own: `CityIndices` and `CityNames` state that the map sends the `i`-th city to `i` and inverts `idx_to_city` |
| CityGraph.CityIndices | lab4-rust-code4visualizer/src/graph.rs:62-65 | the name map sends the `i`-th city to `i` |
| CityGraph.RoadsResolve | lab4-rust-code4visualizer/src/graph.rs:87-89 | every road names two keys of the map (the `unwrap`s cannot fail), and the lookups give the seventeen index triples, all below 10 |
| CityGraph.CityNames | lab4-rust-code4visualizer/src/graph.rs:52-65 | ten nodes; `city_to_idx` and `idx_to_city` are mutual inverses |
| CityGraph.AddRoads | lab4-rust-code4visualizer/src/graph.rs:87-91 | the insertion loop keeps the node count and the number of lists; each node's list ends up as its old list followed by the entries the roads contribute to it, in road order |
| CityGraph.AddRoadsInvariants | lab4-rust-code4visualizer/src/graph.rs:87-91 | the insertion loop keeps the graph valid and symmetric and adds two entries per road |
| CityGraph.CityGraphShape | lab4-rust-code4visualizer/src/graph.rs:67-91 | the fixture is valid and symmetric, with 34 adjacency entries from 17 roads |
| CityGraph.BeijingEntries | lab4-rust-code4visualizer/src/graph.rs:67-85 | the roads contribute exactly `[{1,750},{2,800},{3,1140},{4,650}]` to Beijing's list |
| CityGraph.BeijingNeighbours | lab4-rust-code4visualizer/src/graph.rs:12 | Beijing's adjacency list in the built fixture is the one documented beside `Graph` |
| CityGraph.CreateCityGraph | lab4-rust-code4visualizer/src/graph.rs:51-94 | no contract of its own: `CityNames` (ten nodes, inverse name tables), `CityGraphShape` (valid, undirected, 34 entries) and `BeijingNeighbours` (Beijing's exact list) state it |
| Frontier.MinExists | lab4-rust-code4visualizer/src/dijkstra.rs:11-15 | a non-empty frontier holds an entry no other entry undercuts, so `pop` under the reversed order is well defined |
| Dfs.VisitedFromSpec | lab4-rust-code4visualizer/src/dfs.rs:50-55 | the listed indices are strictly ascending and are exactly the visited ones from the given index on |
| Dfs.VisitedListSpec | lab4-rust-code4visualizer/src/dfs.rs:102 | the visited list is strictly ascending and holds exactly the visited nodes |
| Dfs.CandidatesSpec | lab4-rust-code4visualizer/src/dfs.rs:61-65 | a candidate leads from the current node to an unvisited neighbour, and every such neighbour is a candidate |
| Dfs.FirstUnvisited | lab4-rust-code4visualizer/src/dfs.rs:71-80 | the descent picks the first entry in list order whose target is unvisited; `None` exactly when all targets are visited |
| Dfs.Mark | lab4-rust-code4visualizer/src/dfs.rs:44 | marking `u` adds exactly `u` to the visited set |
| Dfs.VisitTop | lab4-rust-code4visualizer/src/dfs.rs:43-48 | no contract of its own: `VisitKeeps` and `VisitTree` state what a first visit does |
| Dfs.Push | lab4-rust-code4visualizer/src/dfs.rs:72-79 | no contract of its own: `PushKeeps` states that pushing an unvisited neighbour keeps the invariant and lowers the measure |
| Dfs.Pop | lab4-rust-code4visualizer/src/dfs.rs:82-97 | no contract of its own: `PopKeeps` states that a backtrack keeps the invariant and lowers the measure |
| Dfs.StartKeeps | lab4-rust-code4visualizer/src/dfs.rs:24-40 | the start state (stack `[start]`, nothing visited, initial snapshot) meets the loop invariant |
| Dfs.VisitKeeps | lab4-rust-code4visualizer/src/dfs.rs:43-69 | a first visit keeps the invariant, leaves the measure unchanged and marks the top visited |
| Dfs.VisitTree | lab4-rust-code4visualizer/src/dfs.rs:46-48 | the new path edge hangs the visited node below its already visited parent; the edge list only grows |
| Dfs.PushKeeps | lab4-rust-code4visualizer/src/dfs.rs:72-79 | pushing an unvisited neighbour keeps the invariant and lowers the measure: twice the never-pushed nodes plus the stack height |
| Dfs.PopKeeps | lab4-rust-code4visualizer/src/dfs.rs:82-97 | popping a node all of whose neighbours are visited keeps the invariant and lowers the measure |
| Dfs.VisitIfNew | lab4-rust-code4visualizer/src/dfs.rs:42-69 | the visit half of an iteration keeps the invariant without raising the measure |
| Dfs.Explore | lab4-rust-code4visualizer/src/dfs.rs:71-98 | the descend-or-backtrack half of an iteration keeps the invariant and lowers the measure |
| Dfs.FinishReach | lab4-rust-code4visualizer/src/dfs.rs:42-99 | when the stack is empty the visited nodes are exactly those reachable from the start |
| Dfs.FinishShape | lab4-rust-code4visualizer/src/dfs.rs:101-108 | the path edges form a tree rooted at the start over exactly the visited nodes, with one edge fewer than visited nodes |
| Dfs.FinishKeeps | lab4-rust-code4visualizer/src/dfs.rs:101-108 | the closed trace starts with the initial snapshot and ends with a terminal one that lists the reachable nodes in ascending order and a spanning tree of them |
| Dfs.Traverse | lab4-rust-code4visualizer/src/dfs.rs:24-110 | the loop terminates; the trace opens with the initial snapshot; every snapshot in between shows a visited current node and exactly its unvisited neighbours; path edges only grow; the last snapshot is the terminal one |
| Dfs.Dfs | lab4-rust-code4visualizer/src/dfs.rs:6-111 | an unknown root gives an empty trace; otherwise the trace of `Traverse` |
| Dijkstra.PathFromSpec | lab4-rust-code4visualizer/src/dijkstra.rs:76-81 | the rebuilt path edges are ascending in the child and are exactly the recorded predecessor pairs from the given index on |
| Dijkstra.PathEdgesSpec | lab4-rust-code4visualizer/src/dijkstra.rs:105-110 | the path edges are exactly the pairs `(p, i)` with `prev[i] = Some(p)`, ascending in `i` |
| Dijkstra.Init | lab4-rust-code4visualizer/src/dijkstra.rs:43-62 | no contract of its own: `InitKeeps` states that the initial state meets the invariant |
| Dijkstra.Drop | lab4-rust-code4visualizer/src/dijkstra.rs:68-70 | no contract of its own: `DropKeeps` states that dropping a stale entry keeps the invariant |
| Dijkstra.Settle | lab4-rust-code4visualizer/src/dijkstra.rs:72-89 | no contract of its own: `SettleStale`, `SettleQueue` and `SettleKeeps` state what a settlement does |
| Dijkstra.InitKeeps | lab4-rust-code4visualizer/src/dijkstra.rs:42-64 | all distances at the cap except the start's 0, no predecessors, the start queued at 0 and the initial snapshot meet the invariant |
| Dijkstra.DropKeeps | lab4-rust-code4visualizer/src/dijkstra.rs:68-70 | a stale entry is dropped without a snapshot, keeping the invariant and lowering the progress measure |
| Dijkstra.SettleOptimal | lab4-rust-code4visualizer/src/dijkstra.rs:67-70 | an entry of least cost that is not stale carries its node's distance, and no walk to that node is lighter |
| Dijkstra.AddVisitedFacts | lab4-rust-code4visualizer/src/dijkstra.rs:72-74 | the visited list gains the node at the end at most once and never holds a duplicate |
| Dijkstra.SettleQueue | lab4-rust-code4visualizer/src/dijkstra.rs:67-74 | settling the least entry keeps the queue sound and complete, raises the level to its cost, and keeps settlement in non-decreasing order of distance |
| Dijkstra.SettleStale | lab4-rust-code4visualizer/src/dijkstra.rs:67-74 | an entry that is not stale belongs to a node not yet settled, so `visited_nodes` grows by exactly that node, and every entry of it left in the queue is stale |
| Dijkstra.SettleKeeps | lab4-rust-code4visualizer/src/dijkstra.rs:72-89 | settling records the snapshot and sets up the relaxation of the node's edges |
| Dijkstra.LowerKeeps | lab4-rust-code4visualizer/src/dijkstra.rs:97-101 | a strictly shorter offer lowers the distance, records the predecessor and queues the new cost, keeping the invariant; settled distances do not change |
| Dijkstra.SkipKeeps | lab4-rust-code4visualizer/src/dijkstra.rs:97 | an offer that is not strictly shorter changes nothing |
| Dijkstra.LowerEffect | lab4-rust-code4visualizer/src/dijkstra.rs:97-101 | an improvement lowers only the target's distance, changes only its predecessor, to the settled node, and trades at least one unit of distance for the one entry it queues |
| Dijkstra.Lower | lab4-rust-code4visualizer/src/dijkstra.rs:97-101 | the improving branch: keeps the relaxation invariant, distances only fall, a predecessor changes only on a strict fall and then to the settled node |
| Dijkstra.RelaxOne | lab4-rust-code4visualizer/src/dijkstra.rs:92-101 | one relaxation keeps the invariant and leaves settled distances alone; every distance only falls, a predecessor changes only when its distance strictly falls and then becomes the settled node, and the target ends within the offered cost |
| Dijkstra.RelaxEdges | lab4-rust-code4visualizer/src/dijkstra.rs:91-102 | after relaxing all the node's edges the main invariant holds at the new level |
| Dijkstra.Iterate | lab4-rust-code4visualizer/src/dijkstra.rs:67-103 | one pop keeps the invariant and strictly lowers the sum of the distances plus the queue size |
| Dijkstra.ExitBound | lab4-rust-code4visualizer/src/dijkstra.rs:67-103 | a walk that ends outside the settled set weighs at least the current level |
| Dijkstra.FinishReach | lab4-rust-code4visualizer/src/dijkstra.rs:67-103 | when the queue is empty, the settled nodes are exactly those reachable by a walk lighter than `u32::MAX`; the others keep the cap and have no predecessor |
| Dijkstra.FinishShortest | lab4-rust-code4visualizer/src/dijkstra.rs:67-103 | every settled node's distance is its shortest-walk distance, and nodes are settled in non-decreasing order of distance |
| Dijkstra.FinishPreds | lab4-rust-code4visualizer/src/dijkstra.rs:95-101 | every settled node other than the start has a predecessor, since its distance is finite and only an improvement lowers a distance below the cap |
| Dijkstra.FinishKeeps | lab4-rust-code4visualizer/src/dijkstra.rs:105-118 | the closed trace and the final `dist` and `prev` meet the whole outcome, including `prev[v] = Some(u)` only when `dist[v] = dist[u] + w` for an entry `(v, w)` of `u`, and a predecessor for every settled node other than the start |
| Dijkstra.Search | lab4-rust-code4visualizer/src/dijkstra.rs:42-120 | the loop terminates; the trace opens with the initial snapshot, then holds exactly one snapshot per settled node, in settlement order, the k-th showing that node as current and the first k settled nodes as visited (stale pops record nothing), and ends with the terminal one; the distances are the shortest ones, and every settled node other than the start has a predecessor |
| Dijkstra.Dijkstra | lab4-rust-code4visualizer/src/dijkstra.rs:24-121 | an unknown root gives an empty trace; otherwise the outcome of `Search` |
| Prim.Seed | lab4-rust-code4visualizer/src/prim.rs:48-55 | no contract of its own: `SeedSpec` states the seeded frontier |
| Prim.SeedSpec | lab4-rust-code4visualizer/src/prim.rs:48-55 | the seeded frontier holds one entry `(w, start, to)` per entry of the start's list: each arc occurs exactly as often as its edge occurs in the list, parallel edges included |
| Prim.InitKeeps | lab4-rust-code4visualizer/src/prim.rs:43-55 | only the start visited, no edge accepted and the seeded frontier meet the invariant |
| Prim.DiscardKeeps | lab4-rust-code4visualizer/src/prim.rs:59-61 | dropping an entry whose target is visited keeps the frontier sound and covering |
| Prim.TreeLast | lab4-rust-code4visualizer/src/prim.rs:63-64 | the last accepted edge hangs a new child below a node of the tree formed by the earlier ones, and adds exactly that child |
| Prim.TreeReachable | lab4-rust-code4visualizer/src/prim.rs:63-64 | the accepted tree's nodes are graph nodes, each reachable from the start |
| Prim.TreeBound | lab4-rust-code4visualizer/src/prim.rs:67-69 | a tree of graph edges below the start has at most `node_count - 1` edges |
| Prim.AcceptGrown | lab4-rust-code4visualizer/src/prim.rs:63-64 | accepting an edge from a visited node to an unvisited one hangs the new node below the tree; `visited` still marks exactly the tree nodes |
| Prim.AcceptQueue | lab4-rust-code4visualizer/src/prim.rs:63 | after acceptance the frontier is still sound, and covers every leaving edge except those of the new node |
| Prim.FrontierCheapest | lab4-rust-code4visualizer/src/prim.rs:58 | the popped entry weighs no more than any edge leaving the tree |
| Prim.PromisingStep | lab4-rust-code4visualizer/src/prim.rs:58-65 | adding a cheapest edge that leaves the tree keeps the accepted edges inside a spanning tree no heavier than any given one |
| Prim.AcceptKeeps | lab4-rust-code4visualizer/src/prim.rs:63-65 | acceptance keeps the tree, the soundness of the frontier, `total_weight` equal to the sum of the accepted weights, and (on an undirected graph) extendability to a lightest spanning tree |
| Prim.PushedStep | lab4-rust-code4visualizer/src/prim.rs:71-79 | scanning one more entry adds one copy of its arc when the target is unvisited, and keeps every other arc's count |
| Prim.PushedAll | lab4-rust-code4visualizer/src/prim.rs:71-79 | after the whole list is scanned, the frontier grew by each unvisited-target arc as often as its edge occurs in the list, and by nothing else |
| Prim.PushNeighbours | lab4-rust-code4visualizer/src/prim.rs:71-79 | the scan restores the covering frontier and adds, for each arc from the new node to an unvisited node, exactly as many copies as its edge has in the list, and nothing else |
| Prim.Visit | lab4-rust-code4visualizer/src/prim.rs:58-80 | a stale pop leaves the tree, visited set and total unchanged and shrinks the frontier; an acceptance extends the tree by one edge and stops the loop exactly when `node_count - 1` edges are accepted |
| Prim.FinishFull | lab4-rust-code4visualizer/src/prim.rs:67-69 | a tree with `node_count - 1` edges holds every node |
| Prim.FinishEmpty | lab4-rust-code4visualizer/src/prim.rs:58-80 | with the frontier empty, the tree holds every node reachable from the start |
| Prim.FinishOptimal | lab4-rust-code4visualizer/src/prim.rs:58-80 | once the tree holds every reachable node, its weight is at most that of any spanning tree |
| Prim.FinishKeeps | lab4-rust-code4visualizer/src/prim.rs:58-80 | the exit state meets the outcome: a tree of graph edges over exactly the reachable nodes, total equal to the sum, spanning when all nodes are reachable, minimum on an undirected graph |
| Prim.Grow | lab4-rust-code4visualizer/src/prim.rs:43-80 | the loop terminates, and the accepted edges and total meet the outcome whatever the tie order |
| Prim.Prim | lab4-rust-code4visualizer/src/prim.rs:28-80 | an unknown root gives nothing; otherwise the outcome of `Grow` |
| Spanning.SpanningReaches | lab4-rust-code4visualizer/src/prim.rs:58-80 | every node of a spanning tree is reachable from its root, so a spanning tree exists only when the whole graph is reachable |
| Spanning.Exchange | lab4-rust-code4visualizer/src/prim.rs:58-65 | a spanning tree that holds the accepted edges can be re-rooted to also hold a cheapest edge leaving them, without getting heavier |
| Spanning.AttachedSpans | lab4-rust-code4visualizer/src/prim.rs:64-65 | accepted edges covering every node form a spanning tree whose weight is their sum |
| Spanning.FullExtension | lab4-rust-code4visualizer/src/prim.rs:64-65 | a spanning tree holding a complete list of accepted edges weighs exactly their sum |
| Trees.TreeSize | lab4-rust-code4visualizer/src/dfs.rs:46-48 | a tree given in attachment order has one node more than it has edges |

## Left out

- Printing, `colored` output and the `explanation` strings of the snapshots. The `Step` record has no explanation field.
- The `HashMap` name lookup at the top of each engine. The start is an `Option<nat>`, and the fixture's map is a Dafny `map`.
- `main.rs`: prompting, the random default root and graph printing. The web visualizer: UI only.
- `serde` derives.
- `BinaryHeap` internals. The frontier is a multiset with a nondeterministic extract-min.
- Dijkstra.RelaxOne: `cost + edge.weight` is an unbounded sum. At `dijkstra.rs:93` the `u32` addition overflows when the sum passes `u32::MAX`: a panic in debug builds, a wrap in release builds. The model instead finds no improvement there, which is what saturating addition would give. The final results therefore speak only of walks lighter than `u32::MAX`.
- Prim.Grow: `total_weight` is an unbounded natural. The source's `u32` total (`prim.rs:65`) would overflow on trees of weight `2^32` or more.
- Prim.Prim: optimality is proved for undirected graphs only: graphs whose lists mirror each other, as every graph built by `New` and `AddEdge` does. Rival trees are given as parent, weight and rank arrays; any spanning tree of an undirected graph can be written that way.
- Dfs.Traverse: the snapshots between the first and the last are characterised by what they show, not by their number or by the order and multiplicity of the candidate list.
- Dfs.Dfs: the snapshots between the first and the last are characterised by what they show (a visited current node, candidates exactly the edges to its unvisited neighbours), not by their number or by the order and multiplicity of the candidate list.
- Dijkstra.Search: a settlement snapshot's path edges are stated to be ascending graph edges below visited nodes, not the exact predecessor pairs at that moment.
- Dijkstra.Dijkstra: a settlement snapshot's path edges are stated to be ascending graph edges below visited nodes, not the exact predecessor pairs at that moment. The terminal snapshot's are exact.
