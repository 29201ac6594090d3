# Algorithm visualiser: a verified model of its algorithms

The model covers the algorithms of a browser-based algorithm visualiser:
- five comparison sorts and two searches over arrays of integers;
- three searches over a grid of nodes: breadth-first, depth-first and Dijkstra's;
- three algorithms over small weighted graphs: Kruskal's and Prim's spanning-tree algorithms and topological sort;
- two recursive puzzles: the Tower of Hanoi and N-Queens;
- the two grid helpers `createInitialGrid` and `resetGrid`.

Each algorithm is an `async` JavaScript function. It reports its progress through caller-supplied hooks and waits on a timer between hook calls.

In the model, every algorithm is a Dafny method or function over immutable values:
- A hook call becomes one event appended to a trace that the method returns. The grid searches are the exception: their `updateGrid` snapshots are not modelled, and their visited order stands for them (see "Left out").
- The timers are dropped.
- Arrays mutated in place become sequences that are threaded through the computation.
- A grid node is named by its coordinates instead of by object identity.

Every algorithm is stated against an independent reference:
- **Sorts:** a sorted permutation of the input. The counts of comparisons and exchanges are stated too, and so is where each event may point.
- **Searches:** the leftmost index of the target, `IndexOf`; for binary search, its logarithmic probe bound.
- **Grid searches:** reachability by walks between wall-free neighbours. Dijkstra's algorithm is also stated against the length of any such walk.
- **Spanning-tree algorithms:** undirected connectivity (`Graph.Connected`) and acyclicity. Kruskal's algorithm is also stated against the textbook greedy scan.
- **Topological sort:** directed walks and acyclicity (`Digraph.Dag`).
- **Tower of Hanoi:** replaying the moves on three pegs under the rule that no disk goes onto a smaller one.
- **N-Queens:** the list of all non-attacking completions and the definition of a solved board.

Modules follow the program's files:
- `SortSpec` and one module per sort.
- `SearchTrace`, `LinearSearch` and `BinarySearch`.
- `Distance` (a finite integer or `Infinity`) and `StableSort` (the stable `Array.prototype.sort` under a subtraction comparator).
- `Grid` (`animationHelpers.js` and the neighbour and path helpers), `Chains`, `FrontierSearch` (BFS and DFS, which differ only in queue versus stack) and `Dijkstra`.
- `Graph`, `UnionFind`, `Kruskal` and `Prim`.
- `Digraph`, `TopologicalDfs` and `TopologicalKahn`.
- `Hanoi` and `NQueens`.
- `Wrappers`, which holds `Option` and `Result`.

## Model

| member | source | states |
|---|---|---|
| BubbleSort.BubbleStep | src/algorithms/sorting/bubbleSort.js:6-25 | one comparison of `arr[j]` and `arr[j+1]`; they are exchanged, with one swap event, exactly when they form a strict inversion; the larger value ends at `j+1`; nothing else moves |
| BubbleSort.BubblePass | src/algorithms/sorting/bubbleSort.js:5-26 | one outer pass keeps the multiset and extends the sorted suffix of largest values by one; it makes `n-i-1` comparisons |
| BubbleSort.BubbleSort | src/algorithms/sorting/bubbleSort.js:1-29 | the result is a sorted permutation of the input after exactly `n(n-1)/2` comparisons; every comparison is between adjacent in-range positions, and every reported swap fixes a strict inversion |
| SelectionSort.ScanMin | src/algorithms/sorting/selectionSort.js:6-16 | `minIdx` ends on the leftmost minimum of `a[i..]` after `n-i-1` comparisons |
| SelectionSort.SelectionPass | src/algorithms/sorting/selectionSort.js:5-32 | the sorted, partitioned prefix grows by one; at most one exchange happens, and none exactly when the array is unchanged; an exchange always brings a strictly smaller value to `i` |
| SelectionSort.SelectionSort | src/algorithms/sorting/selectionSort.js:1-35 | the result is a sorted permutation after `n(n-1)/2` comparisons and at most `n-1` exchanges, every exchange fixing an inversion |
| InsertionSort.ShiftGreater | src/algorithms/sorting/insertionSort.js:9-26 | the inner loop shifts exactly the prefix elements greater than the key, stops at the first element that is not greater, and makes one comparison per shift plus one for the stopping element |
| InsertionSort.InsertKey | src/algorithms/sorting/insertionSort.js:5-31 | the key lands at `pos` with the greater elements shifted one place right and everything else in place; equal elements keep their order |
| InsertionSort.InsertKeySorts | src/algorithms/sorting/insertionSort.js:28 | inserting the key into the sorted prefix leaves a sorted permutation of the prefix one longer |
| InsertionSort.InsertionSort | src/algorithms/sorting/insertionSort.js:1-34 | the result is a sorted permutation of the input, and every comparison is between adjacent in-range positions |
| MergeSort.MergeFromPermutes | src/algorithms/sorting/mergeSort.js:13-50 | the reference merge of two runs loses and invents nothing |
| MergeSort.MergeFromSorted | src/algorithms/sorting/mergeSort.js:13-50 | merging two sorted runs gives a sorted run |
| MergeSort.MergeHeads | src/algorithms/sorting/mergeSort.js:13-30 | the two-run loop writes the merge prefix in order from `left`, one comparison per element, and ends with one run used up |
| MergeSort.CopyRest | src/algorithms/sorting/mergeSort.js:32-50 | the tail loops copy the rest of one run after the prefix with writes and no comparisons |
| MergeSort.Merge | src/algorithms/sorting/mergeSort.js:4-53 | `[left..right]` becomes the reference merge of the two halves, with each position written once in ascending order and nothing outside changed; the number of comparisons lies between the shorter run's length and `right-left` |
| MergeSort.MergeSortRange | src/algorithms/sorting/mergeSort.js:55-62 | the slice is sorted and only rearranged, and every comparison stays inside it |
| MergeSort.MergeSort | src/algorithms/sorting/mergeSort.js:1-66 | the result is a sorted permutation of the input |
| QuickSort.PartitionStep | src/algorithms/sorting/quickSort.js:8-26 | an element below the pivot joins the lower side, exchanged only when the boundary differs from `j`; the pivot is untouched |
| QuickSort.PlacePivot | src/algorithms/sorting/quickSort.js:28-36 | the pivot goes between the two sides by one exchange, made even when it is already in place |
| QuickSort.Partition | src/algorithms/sorting/quickSort.js:4-39 | the pivot `a[high]` lands at the returned index, strictly smaller values are before it, the rest after; the slice is only rearranged after `high-low` comparisons and between 1 and `p-low+1` exchanges |
| QuickSort.QuickSortRange | src/algorithms/sorting/quickSort.js:41-47 | the slice is sorted and only rearranged, with at most `m(m-1)/2` comparisons on `m` elements, all inside the slice |
| QuickSort.QuickSort | src/algorithms/sorting/quickSort.js:1-51 | the result is a sorted permutation after at most `n(n-1)/2` comparisons |
| SearchTrace.IndexOfSpec | src/algorithms/searching/linearSearch.js:2-14 | the reference answer is `-1` exactly when the target is absent; otherwise it is the index of the leftmost match |
| LinearSearch.LinearSearch | src/algorithms/searching/linearSearch.js:1-15 | the result is the leftmost index of the target or `-1`; positions are announced in order up to the answer, a hit once more as found, a miss with current index `-1` |
| LinearSearch.LeftmostIsIndexOf | src/algorithms/searching/linearSearch.js:6-9 | a match with no match to its left is the answer |
| BinarySearch.BitLengthIsLog | src/algorithms/searching/binarySearch.js:5-6 | the probe budget `BitLength(n)` is `floor(log2 n) + 1` |
| BinarySearch.Probe | src/algorithms/searching/binarySearch.js:5-22 | one probe either reports a hit at an index holding the target or strictly shrinks the window |
| BinarySearch.BinarySearch | src/algorithms/searching/binarySearch.js:1-28 | a returned index holds the target, sorted or not; on a sorted array `-1` means absent; at most `floor(log2 n) + 1` probes, each the middle of its window; a hit ends with found, a miss with current `-1` and window `[-1, -1]` |
| Grid.CreateDefaultGrid | src/utils/animationHelpers.js:58 | the default arguments `rows = 20, cols = 50` give a well-formed, cleared 20 x 50 grid whose only start is at `(10, 5)` and whose only end is at `(10, 44)` |
| Grid.CreateInitialGrid | src/utils/animationHelpers.js:58-79 | a `rows x cols` grid of cleared, wall-free nodes with their own coordinates; exactly one start at `(floor(rows/2), 5)` and one end at `(floor(rows/2), cols-6)` |
| Grid.StartEndPlacement | src/utils/animationHelpers.js:67-68 | both markers are on the grid when `cols >= 6`, and they fall on the same node exactly when `cols == 11` |
| Grid.ResetGrid | src/utils/animationHelpers.js:82-91 | same shape, every node cleared of visit, distance and predecessor, every other field kept |
| Grid.ResetIdempotent | src/utils/animationHelpers.js:82-91 | resetting twice is resetting once |
| Grid.ResetWellFormed | src/utils/animationHelpers.js:82-91 | a reset grid keeps the coordinate layout |
| Grid.AroundSpec | src/algorithms/pathfinding/bfs.js:32-39 | the candidate list is exactly the in-bounds 4-neighbours, in up, down, left, right order |
| Grid.UnvisitedNeighbors | src/algorithms/pathfinding/bfs.js:32-42 | exactly the in-bounds, unvisited 4-neighbours, walls included, in direction order |
| Grid.PathTo | src/algorithms/pathfinding/bfs.js:44-54 | a returned chain ends at the node, starts at a node with no predecessor, and each node's predecessor is the one before it |
| Grid.PathToFuel | src/algorithms/pathfinding/bfs.js:44-54 | a chain that has ended does not depend on the step bound |
| Chains.ChainsFromStart | src/algorithms/pathfinding/bfs.js:21-26 | with the links the searches record, the chain from every visited node leads back to the start by a walk through visited nodes, so every visited node is reachable |
| FrontierSearch.Pop | src/algorithms/pathfinding/bfs.js:7 | `queue.shift()` takes the front and `stack.pop()` the back |
| FrontierSearch.MarkAll | src/algorithms/pathfinding/bfs.js:22-26 | every listed neighbour is marked visited with the current node as predecessor; no other node changes |
| FrontierSearch.Step | src/algorithms/pathfinding/bfs.js:6-27 | one iteration keeps the search invariant; it stops only on the end node, and otherwise the unvisited count or the frontier shrinks |
| FrontierSearch.Exhausted | src/algorithms/pathfinding/bfs.js:29 | when the frontier runs dry, every node reachable from the start has been visited |
| FrontierSearch.Search | src/algorithms/pathfinding/bfs.js:1-30 | BFS and DFS visit distinct, reachable, wall-free nodes, starting at the start unless it is a wall; the end is visited, and last, exactly when reachable, otherwise every reachable node is; the end's predecessor chain is a walk from the start through visited nodes; for BFS (`Fifo`) that chain is no longer than any walk from the start to the end, so the path is a shortest one |
| FrontierSearch.Conclude | src/algorithms/pathfinding/dfs.js:19-29 | both exits of the loop give the guarantees of the search result |
| FrontierSearch.LevelsPush | src/algorithms/pathfinding/bfs.js:21-26 | pushing the unvisited neighbours of the queue's head one level deeper keeps the BFS levels: each visited node one level below its predecessor; the queue holds nodes of the head's level, then nodes one deeper, in non-decreasing level; listed nodes are no deeper than the head and visited nodes at most one deeper; every neighbour of a listed node is at most one level below it |
| FrontierSearch.LevelChain | src/algorithms/pathfinding/bfs.js:44-54 | following predecessors back from a visited node to the start lists exactly its level plus one nodes |
| FrontierSearch.BfsShortest | src/algorithms/pathfinding/bfs.js:6-26 | when the queue yields the end node, its predecessor chain is no longer than any walk from the start to it |
| Dijkstra.AllNodes | src/algorithms/pathfinding/dijkstra.js:32-40 | every node once, in row-major order |
| Dijkstra.SortByDistance | src/algorithms/pathfinding/dijkstra.js:42-44 | a permutation in non-decreasing distance, with `Infinity` last |
| Dijkstra.ClosestFirst | src/algorithms/pathfinding/dijkstra.js:7-8 | the shifted node has the least distance and, the sort being stable, is the first such node in list order |
| Dijkstra.RelaxAll | src/algorithms/pathfinding/dijkstra.js:46-52 | every listed neighbour gets distance plus one and the current node as predecessor, overwriting unconditionally; nothing else changes |
| Dijkstra.Step | src/algorithms/pathfinding/dijkstra.js:6-27 | one iteration keeps the settling invariant and shortens the list, or stops in a final state |
| Dijkstra.Shortest | src/algorithms/pathfinding/dijkstra.js:7-17 | a node no further than every unsettled wall-free node is at most as far as any walk to it |
| Dijkstra.Search | src/algorithms/pathfinding/dijkstra.js:1-30 | the settled nodes are distinct, reachable and finite, start at the start with distance 0, and are in non-decreasing distance; the end is settled exactly when reachable; each settled node's chain is a walk from the start as long as its distance; no walk to a settled node is shorter |
| Distance.DistLeTotal | src/algorithms/pathfinding/dijkstra.js:43 | the subtraction comparator orders distances totally, with `Infinity` ties equal |
| StableSort.SortBy | src/algorithms/graph/kruskal.js:8 | sorting by a key gives a permutation in non-decreasing key order |
| StableSort.SortByStable | src/algorithms/graph/kruskal.js:8 | elements with equal keys keep their input order |
| Graph.ConnectedSnoc | src/algorithms/graph/kruskal.js:40 | adding an edge connects exactly the pairs already connected or connected through its two ends |
| UnionFind.Init | src/algorithms/graph/kruskal.js:4-5 | every vertex is its own parent with rank 0 |
| UnionFind.InitRoots | src/algorithms/graph/kruskal.js:4-5 | initially each vertex is its own root, so there are `n` sets |
| UnionFind.Find | src/algorithms/graph/kruskal.js:10-15 | returns the root of `x`; path compression changes no vertex's root and no rank |
| UnionFind.UnionMerges | src/algorithms/graph/kruskal.js:17-33 | union reports success exactly when `x` and `y` were in different sets; it merges those sets and no others; the number of sets drops by one exactly on success |
| UnionFind.UnionRanks | src/algorithms/graph/kruskal.js:21-29 | only the root of `x`'s set gains rank, by one, and only on a rank tie |
| Kruskal.GreedyAcyclic | src/algorithms/graph/kruskal.js:35-54 | the greedy scan keeps no cycle |
| Kruskal.GreedySpans | src/algorithms/graph/kruskal.js:35-54 | the kept edges connect the endpoints of every scanned edge, and are scanned edges |
| Kruskal.Step | src/algorithms/graph/kruskal.js:36-49 | union-find's answer agrees with "the kept edges do not yet connect the endpoints"; sets stay exactly the connected components of the kept edges |
| Kruskal.Kruskal | src/algorithms/graph/kruskal.js:2-57 | the kept edges are what the greedy scan keeps of the weight-sorted edges scanned, with the matching considered/accepted/rejected events; they are acyclic input edges, at most `n-1` of them, connecting the endpoints of every input edge, and exactly `n-1` of them when the input connects every vertex to vertex 0; the scan stops early only at `n-1` kept edges |
| Kruskal.Scan | src/algorithms/graph/kruskal.js:35-54 | when the loop ends, union-find's sets are exactly the components of the kept edges, the kept edges and events are the greedy scan's, and either every edge was scanned or `n-1` edges are kept |
| Kruskal.Spanning | src/algorithms/graph/kruskal.js:35-56 | once the kept edges connect the ends of every input edge, an input that connects every vertex to vertex 0 leaves one set and exactly `n-1` kept edges |
| Prim.Touching | src/algorithms/graph/prim.js:13-17 | the initial frontier is exactly the edges at vertex 0 |
| Prim.Outgoing | src/algorithms/graph/prim.js:49-54 | the pushed edges are exactly those from the new vertex to an unvisited one |
| Prim.Step | src/algorithms/graph/prim.js:19-55 | the taken edge has least weight on the frontier; with both ends visited it is rejected and nothing else changes; otherwise it is accepted and its unvisited end becomes visited |
| Prim.AcceptTree | src/algorithms/graph/prim.js:39-44 | accepting an edge to an unvisited vertex keeps the kept edges a tree on the visited set |
| Prim.Prim | src/algorithms/graph/prim.js:2-58 | the accepted edges are acyclic input edges, at most `n-1` of them, forming a tree with vertex 0 that reaches every vertex the input connects to 0, and exactly `n-1` of them when the input connects every vertex to vertex 0; the first event visits vertex 0 |
| Digraph.Targets | src/algorithms/graph/topologicalSort.js:46-51 | a vertex's list holds exactly the targets of its arcs |
| Digraph.TargetsCount | src/algorithms/graph/topologicalSort.js:46-51 | each target is listed once per parallel edge |
| Digraph.BuildAdjacency | src/algorithms/graph/topologicalSort.js:39-54 | one list per vertex, each the targets of its edges in input order |
| Digraph.RespectsDag | src/algorithms/graph/topologicalSort.js:2-37 | an order putting every arc's source first rules out cycles |
| TopologicalDfs.Visit | src/algorithms/graph/topologicalSort.js:7-27 | `dfsVisit` visits the vertex and everything newly reached, and puts the vertex at the front of the stack; the stack gains exactly the newly visited vertices |
| TopologicalDfs.VisitAll | src/algorithms/graph/topologicalSort.js:13-22 | on an acyclic graph, after the loop every target of the vertex is finished |
| TopologicalDfs.FinishedRespects | src/algorithms/graph/topologicalSort.js:25 | a finishing order built by prepending respects every arc |
| TopologicalDfs.TopologicalSort | src/algorithms/graph/topologicalSort.js:2-37 | every vertex exactly once; the order puts every arc's source before its target exactly when the graph is acyclic |
| TopologicalKahn.InDegrees | src/algorithms/graph/topologicalSort.js:63-66 | each in-degree is the number of edges into the vertex, parallel edges counted |
| TopologicalKahn.Sources | src/algorithms/graph/topologicalSort.js:68-73 | the queue holds exactly the in-degree-0 vertices, in increasing order |
| TopologicalKahn.Release | src/algorithms/graph/topologicalSort.js:83-94 | each target's in-degree drops once per listing; the vertices reaching 0 are appended, once each |
| TopologicalKahn.Stuck | src/algorithms/graph/topologicalSort.js:97-100 | a vertex left with pending in-edges when the queue is empty lies on a cycle |
| TopologicalKahn.TopologicalSortKahn | src/algorithms/graph/topologicalSort.js:57-103 | success exactly on an acyclic graph, returning every vertex once with every arc's source first; otherwise the error "Graph has a cycle! Topological sort not possible." |
| Hanoi.Moves | src/algorithms/recursion/towerOfHanoi.js:5-36 | the recursion records `2^n - 1` moves |
| Hanoi.MovesPegs | src/algorithms/recursion/towerOfHanoi.js:5-36 | every move is of a disk `1..n` between two different pegs of the three |
| Hanoi.MoveDisks | src/algorithms/recursion/towerOfHanoi.js:5-36 | `moveDisks` appends exactly the recorded moves, each reported with the running count |
| Hanoi.TowerOfHanoi | src/algorithms/recursion/towerOfHanoi.js:2-45 | the move list is `calculateMinMoves(n)` long, and each move is reported with its position |
| Hanoi.MovesReplay | src/algorithms/recursion/towerOfHanoi.js:20-35 | moving the top `n` disks over larger ones is legal and leaves them in order on the target peg |
| Hanoi.Solves | src/algorithms/recursion/towerOfHanoi.js:38 | from the whole tower on the source peg, every move is legal and the tower ends whole on the destination with the other pegs empty |
| NQueens.PlacementSnoc | src/algorithms/recursion/nQueens.js:47 | one more queen keeps the placement non-attacking exactly when it is on the board and safe |
| NQueens.CompletionsSpec | src/algorithms/recursion/nQueens.js:36-88 | the reference lists exactly the complete non-attacking placements extending the given queens |
| NQueens.AllSolutions | src/algorithms/recursion/nQueens.js:20-33 | the completion boards of the empty placement are exactly the solved boards |
| NQueens.SomeSolution | src/algorithms/recursion/nQueens.js:95-101 | there is a completion exactly when a solved board exists |
| NQueens.TracksSafe | src/algorithms/recursion/nQueens.js:8-10 | the column and diagonal tracks are free for a cell exactly when a queen there is attacked by none |
| NQueens.Placed | src/algorithms/recursion/nQueens.js:49-50 | placing a safe queen gives the board and tracks of the longer placement |
| NQueens.Removed | src/algorithms/recursion/nQueens.js:66-67 | removing the queen just placed restores the board and the tracks exactly |
| NQueens.SolveUtil | src/algorithms/recursion/nQueens.js:16-89 | the boards of all completions, or only the first, are appended; unless stopping, the board and tracks are left as found |
| NQueens.FirstFound | src/algorithms/recursion/nQueens.js:61-63 | with no completion in earlier columns, the first completion through this column is the first overall |
| NQueens.EmptyBoard | src/algorithms/recursion/nQueens.js:3 | the initial board has no queens |
| NQueens.SolveNQueens | src/algorithms/recursion/nQueens.js:2-110 | all mode returns exactly the solved boards; single mode returns at most one solved board, none exactly when no solution exists; `solved` and `totalSolutions` agree with the list; the board is the first solution or the empty board; `no-solution` is reported exactly when the list is empty |

## Left out

- Timers, `requestAnimationFrame`, speeds and rendering are left out. Hooks are recorded as events, and the events' board or array snapshots are kept only where a contract uses them.
- The helpers in `animationHelpers.js` other than `createInitialGrid` and `resetGrid` are left out: random arrays, `sleep`, colours, `createGraph`, `formatTime` and `getArrayStats`. They use randomness or formatting and are not algorithms.
- Topological sort's `updateVertices` and `updateEdges` calls are not modelled as events. `TopologicalSortKahn` returns the error string as a `Result`.
- Hanoi.TowerOfHanoi: the `message` text of each `updateState` call is left out, because it is string formatting of fields that are already modelled.
- Hanoi.TowerOfHanoi: requires `n >= 1`. The recursion's only base case is `n === 1`, so `n = 0` never terminates.
- Hanoi.TowerOfHanoi: `calculateMinMoves` uses the floating-point `Math.pow(2, n) - 1`. It is modelled as the exact integer `2^n - 1`.
- NQueens.SolveNQueens: requires `n >= 1`, because `Array(2 * n - 1)` throws for `n = 0`. `steps` is stated only to grow with each call, not as an exact count.
- FrontierSearch.Search: the per-visit `updateGrid([...grid])` snapshot (`bfs.js` and `dfs.js`, line 15) is not modelled. The visited order has exactly one entry per such call, so it stands for them.
- Dijkstra.Search: the per-settle `updateGrid([...grid])` snapshot (`dijkstra.js`, line 20) is not modelled. The settled order has exactly one entry per such call, so it stands for them.
- FrontierSearch.Search: depth-first search (`Lifo`) gets no length guarantee for its path, since `dfs.js` finds some path, not a shortest one.
- FrontierSearch.Search: requires a `Cleared` grid, that is, no node visited, no distance and no predecessor. Every caller passes the output of `resetGrid`, as `PathFindingVisualizer.jsx` does. The same holds for `Dijkstra.Search`.
- Grid.PathTo: takes a step bound (`fuel`). The JavaScript loop would run forever on a cyclic predecessor chain, and the searches bound it by the number of visited nodes.
- Kruskal.Kruskal: does not state that the total weight is minimal. It states agreement with the weight-ordered greedy scan, acyclicity and spanning of the input's components.
- Prim.Prim: does not state that the total weight is minimal. It states that the result is a tree with vertex 0 that spans vertex 0's component.
- Kruskal.Kruskal: requires every edge endpoint to be a vertex (`EdgesIn`), as `createGraph` guarantees. The same holds for `Prim.Prim`, `Digraph.BuildAdjacency`, `TopologicalDfs.TopologicalSort` and `TopologicalKahn.TopologicalSortKahn`. With an out-of-range endpoint the JavaScript indexes past its arrays.
- Distances are integers or `Infinity`. JavaScript numbers are not modelled, because no fractional or overflowing value arises on a grid.
