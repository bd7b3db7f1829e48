# A verified model of the integer core of a Rust network-algorithms library

This project models, in Dafny, the integer graph code of a Rust library of
network algorithms, and proves what that code promises. The Rust code
itself is not part of the project. There is one Dafny module per core Rust
file, plus four shared helper modules: `Wrappers` (Option and Result),
`Sums` (sums over sequences), `Csr` (counting and prefix sums for the
compressed adjacency layouts), and `BinaryHeapModel` (the part of
`std::collections::BinaryHeap` that Dijkstra uses).

- **Data structures.**
  - `UnionFind` (`union_find.rs`) has path compression, union by size and the circular `group` lists.
  - `RollbackUnionFind` (`rollback_union_find.rs`) keeps a history stack and can roll back.
  - `BitVector` works on 64-bit blocks.
  - `SimpleQueue` is a queue with an advancing head.
  - `RadixHeap` is a monotone radix heap over a window of keys.
  - `SkewHeap` is an arena of nodes with lazy key offsets.

  Each is a `class` whose fields mirror the Rust struct. Its methods are proved against the abstract contents: a set partition, a sequence, a multiset, or the members of a heap.
- **Graph containers** (`graph.rs`, `bipartite_graph.rs`):
  - node and edge insertion, with its bounds checks and returned ids;
  - getters that return `None` out of range;
  - degree counting.
- **Maximum flow** (`maximum_flow/`):
  - the residual network with paired forward and reverse arcs;
  - flow pushes that conserve each arc pair and the total excess;
  - BFS distance labels to the sink;
  - input validation;
  - the Ford-Fulkerson DFS, with an optional cutoff;
  - Edmonds-Karp BFS augmentation.

  Every augmentation is proved positive and bounded by the residuals on its path.
- **Minimum-cost flow** (`minimum_cost_flow/`):
  - lower-bound and negative-cost normalisation;
  - the two network extensions, with an artificial source and sink, or a root;
  - the residual network with potentials, and its mapping back to original flows and potentials;
  - balance and feasibility checks;
  - the successive-shortest-path solver, whose Dijkstra search on reduced costs, dual updates and augmentations keep dual feasibility (reduced-cost optimality);
  - the spanning-tree structure of the network simplex: flow along a tree path, attach and detach, feasibility, and the objective;
  - the Best, First and BlockSearch pivot rules.
- **Matching and branching.**
  - Hopcroft-Karp: the CSR preprocessing, the greedy warm start, BFS layers and DFS augmentation. A lemma (`MaximumMatching`) proves that the returned matching is maximum, by weak duality. When the search stops, the layers are consistent and no free arc is left. These facts give a node cover that maps every edge of any other matching injectively onto an edge of the returned one.
  - Edmonds' maximum branching: critical edges, cycle detection, contraction with reweighted costs, and expansion. For every input, the result is proved to have in-degree at most one and no cycle (through a rank that rises along every chosen edge), and its cost is proved to be the sum of the chosen edges' costs. That it is of maximum weight is proved only when the critical edges form no cycle.
- **Shortest paths** (`shortest_path/`):
  - the compressed layout `InternalGraph` (the `CSR` of `dijkstra.rs` lays its arcs out the same way);
  - Bellman-Ford, with its round bound and negative-cycle detection. `run` fails exactly when all `n` rounds update. That happens exactly when a closed walk of negative weight is reached from the source, along a walk whose every prefix weighs less than `W::max_value()`;
  - Dijkstra.

  Distances carry walk witnesses, and lemmas prove them shortest: every walk is at least as heavy (`WalkBound`, `Dijkstra.Shortest`), and a relaxed state has no negative closed walk.

Conventions that hold throughout:

- Rust's fixed-width integers are Dafny's unbounded `int` and `nat`: see "Left out".
- `usize::MAX` placeholders (`INVALID_NODE_ID`, `INVALID_ARC_ID`) are written out as the constant `Invalid`, or as `Option`.
- A panic the Rust code can hit (an `assert!`, an `expect`, an out-of-range index) becomes a `requires` at the member where it would happen. Each such precondition that shuts out inputs a release build would accept is listed under "Left out".

Points where the code does something other than its documentation or its tests suggest:

- `Dijkstra::run` never writes `reached`, so after Dijkstra every node reads as not reached. `Dijkstra.Dijkstra.Run` states `reached == old(reached)`.
- Unlike Bellman-Ford, `Dijkstra::run` does not reset `distances`; it only sets the source to 0. `Run` is stated relative to the distances it started from.
- `tests/branching.rs` exercises the Tarjan branching solver, not `edmonds.rs`. The properties it checks are proved here for Edmonds all the same: no cycle, in-degree at most one, and a cost equal to the sum of the chosen weights. The test also checks the optimum (`tests/branching.rs:55`); that is proved here only when the critical edges form no cycle.
- The successive-shortest-path solver's `flow` and `potential` are declared to return `Option<F>`, but they return the residual network's plain `F`. The model follows the bodies.

## Model

| member | source | states |
|---|---|---|
| UnionFind.UnionFind.constructor | src/data_structures/union_find.rs:13-21 | every node is its own root with the singleton set `{u}`, and the set count is `n` |
| UnionFind.UnionFind.FindRoot | src/data_structures/union_find.rs:71-80 | returns `u`'s root, whose parent entry is negative; afterwards `u`'s parent entry is that root (path compression), no root entry changes and no set changes (`Valid` with the same `root` map) |
| UnionFind.UnionFind.Same | src/data_structures/union_find.rs:23-27 | true exactly when `u` and `v` have the same root; the sets are unchanged |
| UnionFind.UnionFind.Find | src/data_structures/union_find.rs:56-59 | returns `u`'s root, and `u` is a member of that root's set |
| UnionFind.UnionFind.Size | src/data_structures/union_find.rs:50-54 | returns the number of members of `u`'s set |
| UnionFind.UnionFind.RootMembers | src/data_structures/union_find.rs:50-54 | a root's parent entry is minus the size of its set |
| UnionFind.UnionFind.Group | src/data_structures/union_find.rs:61-69 | returns `size(u)` distinct nodes, starting with the root, that are exactly the members of `u`'s set |
| UnionFind.UnionFind.Link | src/data_structures/union_find.rs:41-45 | links root `v` under root `u`: the set count drops by one, every node of `v`'s set now has root `u`, and `u`'s set is the union of both |
| UnionFind.UnionFind.Union | src/data_structures/union_find.rs:29-48 | returns false exactly when the roots already coincide, and then nothing changes; otherwise the set count drops by one, `same(u, v)` holds, the two sets and only they are merged, the root of the larger set (ties: `u`'s) stays root, and the new size is the sum |
| UnionFind.LinkArrays | src/data_structures/union_find.rs:41-43 | the in-place update of `parent` and the `next` swap equal `LinkParent` and `LinkNext` of the old arrays |
| UnionFind.LinkKeepsInvariant | src/data_structures/union_find.rs:37-45 | a link keeps the forest, the group rings threaded by `next`, the leader set and the count consistent, and the new set of `u` is the union of the two old sets |
| UnionFind.CompressKeepsInv | src/data_structures/union_find.rs:76-77 | pointing a non-root node at its root keeps the invariant: same roots, same sets, same rings |
| UnionFind.MembersCount | src/data_structures/union_find.rs:61-69 | the ring of root `r` lists exactly `r`'s members, and there are `-parent[r]` of them |
| UnionFind.SpliceRing | src/data_structures/union_find.rs:43 | swapping `next[u]` and `next[v]` splices the two rings into one ring holding both |
| UnionFind.RelabelMembers | src/data_structures/union_find.rs:41-42 | after the link, `u`'s set is the union of both old sets, `v` has none, and every other set is unchanged |
| RollbackUnionFind.RollbackUnionFind.constructor | src/data_structures/rollback_union_find.rs:8-10 | every parent entry is -1 and the history is empty; every node is its own root with a singleton set |
| RollbackUnionFind.RollbackUnionFind.Find | src/data_structures/rollback_union_find.rs:12-17 | returns `v`'s root, whose entry is negative; the method does not modify anything (no path compression) |
| RollbackUnionFind.RollbackUnionFind.Same | src/data_structures/rollback_union_find.rs:19-21 | true exactly when `a` and `b` have the same root, without mutation |
| RollbackUnionFind.RollbackUnionFind.Time | src/data_structures/rollback_union_find.rs:23-25 | returns the history length, which is the number of parent-array snapshots less one |
| RollbackUnionFind.RollbackUnionFind.Link | src/data_structures/rollback_union_find.rs:35-37 | pushes `(y, p[y])` on the history, records the new parent array as a snapshot, and makes `x`'s set the union of both with the summed size |
| RollbackUnionFind.RollbackUnionFind.Join | src/data_structures/rollback_union_find.rs:27-39 | returns false exactly when the roots coincide, leaving history and parents unchanged; otherwise time rises by one, the two sets and only they merge under the root of the larger set (ties: `a`'s), the size is the sum, and `same(a, b)` holds |
| RollbackUnionFind.RollbackUnionFind.Rollback | src/data_structures/rollback_union_find.rs:41-48 | for `t` below the time, the history is cut to length `t` and the parent array equals the snapshot taken when the time was `t`; otherwise nothing changes |
| RollbackUnionFind.LinkKeepsState | src/data_structures/rollback_union_find.rs:32-37 | a link keeps the forest with consistent sizes, and the root's set becomes the union of both with the summed size |
| BitVector.BitVector.constructor | src/data_structures/bit_vector.rs:9-12 | `len` is `size` and every bit reads false; `data` holds `ceil(size / 64)` blocks |
| BitVector.NumBlocks | src/data_structures/bit_vector.rs:10 | `div_ceil`: the fewest 64-bit blocks that hold `size` bits |
| BitVector.BitVector.Len | src/data_structures/bit_vector.rs:14-17 | returns the number of bits |
| BitVector.BitVector.Set | src/data_structures/bit_vector.rs:19-29 | afterwards bit `index` reads `b` and every other bit is unchanged; an index at or above `size` is excluded as the `assert!` does |
| BitVector.BitVector.Get | src/data_structures/bit_vector.rs:31-37 | returns bit `index` of the represented bit sequence, so `get(i)` after `set(i, b)` is `b` |
| BitVector.BitVector.Clear | src/data_structures/bit_vector.rs:39-42 | every bit reads false and the length is unchanged |
| BitVector.Offset | src/data_structures/bit_vector.rs:23 | the bit offset is `index % 64`, below 64 |
| BitVector.UpdateBit | src/data_structures/bit_vector.rs:24-28 | writing `b` at an offset of a block changes that bit only |
| BitVector.SetBitLemma | src/data_structures/bit_vector.rs:25 | `w \| (1 << off)` sets bit `off` and keeps every other bit |
| BitVector.ClearBitLemma | src/data_structures/bit_vector.rs:27 | `w & !(1 << off)` clears bit `off` and keeps every other bit |
| BitVector.UpdatePreserves | src/data_structures/bit_vector.rs:20-29 | updating the block `index / 64` at offset `index % 64` represents the bit sequence with only `index` changed |
| SimpleQueue.SimpleQueue.constructor | src/data_structures/simple_queue.rs:8-10 | a new queue holds nothing |
| SimpleQueue.SimpleQueue.Push | src/data_structures/simple_queue.rs:16-19 | the contents gain `value` at the back |
| SimpleQueue.SimpleQueue.Pop | src/data_structures/simple_queue.rs:21-30 | on an empty queue returns None and changes nothing; otherwise returns the front element and drops it, so elements leave in push order |
| SimpleQueue.SimpleQueue.Peek | src/data_structures/simple_queue.rs:32-35 | returns what the next `pop` would return, without removing it |
| SimpleQueue.SimpleQueue.IsEmpty | src/data_structures/simple_queue.rs:37-40 | true exactly when the contents are empty |
| SimpleQueue.SimpleQueue.Len | src/data_structures/simple_queue.rs:42-45 | the number of elements pushed and not yet popped |
| SimpleQueue.SimpleQueue.Reset | src/data_structures/simple_queue.rs:47-51 | the queue is empty, with an empty buffer and `head` 0 |
| SimpleQueue.SimpleQueue.Extend | src/data_structures/simple_queue.rs:54-58 | the items are appended in order |
| RadixHeap.RadixHeap.constructor | src/data_structures/radix_heap.rs:20-31 | an empty heap (length 0) whose `bit_length(c) + 3` buckets start at `size_sum(i)`, so the lowest start is 0 |
| RadixHeap.SizeSumStep | src/data_structures/radix_heap.rs:93-98 | `size_sum(0)` is 0 and `size_sum(i)` is `2^(i-1)`: consecutive size sums differ by 1 at 0 and by `2^(i-1)` after, so they never decrease |
| RadixHeap.BitLenBound | src/data_structures/radix_heap.rs:22-23 | `c` lies below `2^bit_length(c)`, the width `bit_width - leading_zeros(c)` counts |
| RadixHeap.RadixHeap.Len | src/data_structures/radix_heap.rs:33-36 | the number of stored items |
| RadixHeap.RadixHeap.IsEmpty | src/data_structures/radix_heap.rs:38-41 | true exactly when no item is stored |
| RadixHeap.RadixHeap.Push | src/data_structures/radix_heap.rs:43-53 | the stored multiset gains `(key, value)` (so `len` rises by one) in the last bucket whose start is at most `key`; bucket starts do not move |
| RadixHeap.FindBucket | src/data_structures/radix_heap.rs:45-50 | the reverse `find`: the last bucket below `hi` whose start is at most `key` |
| RadixHeap.RadixHeap.Pop | src/data_structures/radix_heap.rs:55-66 | on an empty heap returns None and changes nothing; otherwise returns a stored item of minimum key and removes exactly it (so `len` drops by one); the lowest bucket start never decreases |
| RadixHeap.RadixHeap.TakeLast | src/data_structures/radix_heap.rs:64-65 | the last item of bucket 0 has a minimum key, and removing it removes it from the stored multiset |
| RadixHeap.LastIsMin | src/data_structures/radix_heap.rs:64-65 | every item of bucket 0 has a key no larger than any stored key |
| RadixHeap.RadixHeap.Distribute | src/data_structures/radix_heap.rs:68-91 | preserves the stored multiset, leaves bucket 0 non-empty and does not lower the first bucket's start |
| RadixHeap.RadixHeap.FirstNonEmpty | src/data_structures/radix_heap.rs:70 | the first bucket that holds an item |
| RadixHeap.MinKey | src/data_structures/radix_heap.rs:73 | a key of the data that no key of the data is below |
| RadixHeap.RadixHeap.RestartStarts | src/data_structures/radix_heap.rs:76-79 | the starts of buckets `0..=k` become `min(end, min_key + size_sum(i))`, the rest unchanged |
| RadixHeap.RestartOk | src/data_structures/radix_heap.rs:76-79 | after restarting from bucket `k`'s minimum the starts stay increasing, bucket 0 starts at the minimum, and every key of bucket `k` falls below the new start of bucket `k` |
| RadixHeap.RadixHeap.DistributeItems | src/data_structures/radix_heap.rs:81-90 | every item of the emptied bucket is placed in a lower bucket whose range holds its key, bucket 0 receives at least one, and the multiset is the one taken out |
| RadixHeap.RadixHeap.Place | src/data_structures/radix_heap.rs:82-89 | one item lands in the last bucket below `k` whose start is at most its key; the bucket ranges stay valid and the pool of items is unchanged |
| RadixHeap.DistributeSetup | src/data_structures/radix_heap.rs:70-79 | taking bucket `k` and restarting the starts keeps every bucket range valid and the multiset split between the buckets and the taken data |
| RadixHeap.PushOk | src/data_structures/radix_heap.rs:51-52 | appending to a bucket whose range holds the key keeps the heap invariant with the item added and `len` one more |
| RadixHeap.PopOk | src/data_structures/radix_heap.rs:64-65 | removing the last item of bucket 0 keeps the heap invariant with that item removed and `len` one less |
| RadixHeap.BagUpdate | src/data_structures/radix_heap.rs:51 | replacing one bucket changes the stored multiset by exactly that bucket's difference |
| SkewHeap.SkewHeap.constructor | src/data_structures/skew_heap.rs:18-24 | an empty arena, trivially heap-ordered and with every effective key tracked (`with_capacity` only reserves space) |
| SkewHeap.SkewHeap.AddNode | src/data_structures/skew_heap.rs:26-29 | appends a childless node with the given key, zero lazy tag and value and returns its index; it is a new one-node heap and every other heap, root and effective key is unchanged |
| SkewHeap.SkewHeap.Add | src/data_structures/skew_heap.rs:45-48 | subtracts `d` from the stored key and adds it to the lazy tag, which lowers the effective key of every node of `i`'s heap by `d` and of no node outside it; heap order survives when `i` is a root |
| SkewHeap.Added | src/data_structures/skew_heap.rs:45-48 | the node keeps its links and value, and `key - lazy` drops by `2d` |
| SkewHeap.SkewHeap.Push | src/data_structures/skew_heap.rs:31-43 | moves `i`'s lazy tag onto its children (key of `i` unchanged, its tag zero), touching no node outside `i`'s subtree; effective keys, subtrees and heap order are preserved |
| SkewHeap.PushKeepsOrder | src/data_structures/skew_heap.rs:31-43 | pushing a live node's tag keeps the forest shape and the heap order |
| SkewHeap.EffPushed | src/data_structures/skew_heap.rs:31-43 | pushing a live node's tag keeps every effective key |
| SkewHeap.AddKeepsOrder | src/data_structures/skew_heap.rs:45-48 | adding to a root keeps the heap order |
| SkewHeap.EffAdded | src/data_structures/skew_heap.rs:45-48 | adding `d` at a node lowers exactly the effective keys of its subtree by `d` |
| SkewHeap.SkewHeap.Merge | src/data_structures/skew_heap.rs:50-68 | with either side absent returns the other and changes nothing; otherwise returns the root of smaller key (`a` on ties) of a heap whose nodes are the union of both, keeps every value, every effective key, every other heap and, when ordered before, the heap order |
| SkewHeap.SkewHeap.MergeRoots | src/data_structures/skew_heap.rs:54-66 | the two-heap branch: push `u`, merge its right child with `v`, swap the children; the result is rooted at `u` with the union of both heaps |
| SkewHeap.MergeStepDone | src/data_structures/skew_heap.rs:58-65 | hanging the merged right side and the old left child under `u` yields a valid forest that is exactly the meld of the heaps of `u` and `v` |
| SkewHeap.SkewHeap.Pop | src/data_structures/skew_heap.rs:70-75 | on an absent root changes nothing; otherwise retires the root and returns the merge of its children, whose heap holds exactly the old heap's nodes but the root, with every effective key and every other heap unchanged |
| SkewHeap.PopDone | src/data_structures/skew_heap.rs:70-75 | the state after pushing the root and melding its children is the one `Popped` describes |
| SkewHeap.SkewHeap.RootIsMin | src/data_structures/skew_heap.rs:55 | in a heap-ordered arena the root's stored key is its own effective key and no effective key of its heap is smaller |
| SkewHeap.EffMin | src/data_structures/skew_heap.rs:55 | every node below `x` has an effective key at least that of `x` |
| SkewHeap.RootsApart | src/data_structures/skew_heap.rs:10-12 | the heaps of two different roots share no node |
| SkewHeap.ChildrenApart | src/data_structures/skew_heap.rs:2-8 | a node's two subtrees are disjoint and do not contain it |
| Graph.Graph.constructor | src/graph/graph.rs:83-103 | `new_directed` / `new_undirected`: no nodes, no edges, the given direction |
| Graph.Graph.NumNodes | src/graph/graph.rs:17-19 | the number of nodes |
| Graph.Graph.NumEdges | src/graph/graph.rs:21-23 | the number of edges |
| Graph.Graph.AddNodeWith | src/graph/graph.rs:25-29 | appends one node and returns the previous node count as its id; edges unchanged |
| Graph.Graph.AddNodesWith | src/graph/graph.rs:31-36 | appends the data in order and returns consecutive ids starting at the previous node count |
| Graph.Graph.AddNodes | src/graph/graph.rs:73-81 | `count` default nodes with consecutive ids |
| Graph.Graph.AddEdge | src/graph/graph.rs:38-45 | `None`, with nothing changed, exactly when an endpoint is not a node; otherwise the edge is appended and its id is the previous edge count |
| Graph.Graph.GetNode | src/graph/graph.rs:47-52 | `None` exactly for ids that are not nodes, else that node |
| Graph.Graph.GetEdge | src/graph/graph.rs:61-66 | `None` exactly for ids that are not edges, else that edge, whose endpoints are nodes |
| Graph.NoNodeNoEdge | src/graph/graph.rs:38-41 | a graph without nodes has no edges |
| BipartiteGraph.BipartiteGraph.constructor | src/graph/bipartite_graph.rs:148-171 | the empty bipartite graph with the given direction |
| BipartiteGraph.BipartiteGraph.NumLeftNodes | src/graph/bipartite_graph.rs:20-23 | the number of left nodes |
| BipartiteGraph.BipartiteGraph.NumRightNodes | src/graph/bipartite_graph.rs:25-27 | the number of right nodes |
| BipartiteGraph.BipartiteGraph.NumEdges | src/graph/bipartite_graph.rs:29-32 | the number of edges |
| BipartiteGraph.BipartiteGraph.AddLeftNodeWith | src/graph/bipartite_graph.rs:34-39 | a new left node of degree 0 whose id is the previous left count; nothing else changes and every degree still counts its edges |
| BipartiteGraph.BipartiteGraph.AddRightNodeWith | src/graph/bipartite_graph.rs:48-53 | a new right node of degree 0 whose id is the previous right count |
| BipartiteGraph.BipartiteGraph.AddLeftNodesWith | src/graph/bipartite_graph.rs:41-46 | appends the left data in order with consecutive ids |
| BipartiteGraph.BipartiteGraph.AddRightNodesWith | src/graph/bipartite_graph.rs:55-60 | appends the right data in order with consecutive ids |
| BipartiteGraph.BipartiteGraph.AddLeftNodes | src/graph/bipartite_graph.rs:131-137 | `count` default left nodes with consecutive ids |
| BipartiteGraph.BipartiteGraph.AddRightNodes | src/graph/bipartite_graph.rs:139-145 | `count` default right nodes with consecutive ids |
| BipartiteGraph.BipartiteGraph.AddEdge | src/graph/bipartite_graph.rs:71-80 | `None`, with nothing changed, exactly when `u` is not a left node or `v` not a right node; otherwise the edge is appended with the previous edge count as id and only the degrees of `u` and `v` rise by one, so each degree still equals the number of edges at its node |
| BipartiteGraph.BipartiteGraph.GetLeftNode | src/graph/bipartite_graph.rs:82-87 | `None` exactly for ids that are not left nodes |
| BipartiteGraph.BipartiteGraph.GetRightNode | src/graph/bipartite_graph.rs:96-101 | `None` exactly for ids that are not right nodes |
| BipartiteGraph.BipartiteGraph.GetEdge | src/graph/bipartite_graph.rs:110-115 | `None` exactly for ids that are not edges, else that edge from a left node to a right node |
| BipartiteGraph.BipartiteGraph.DegreeSum | src/graph/bipartite_graph.rs:13-15 | the left degrees add up to the number of edges |
| BipartiteGraph.LeftCountAppend | src/graph/bipartite_graph.rs:77 | an appended edge raises the edge count at its left end by one and no other |
| BipartiteGraph.RightCountAppend | src/graph/bipartite_graph.rs:78 | an appended edge raises the edge count at its right end by one and no other |
| MaximumFlowValidate.ValidateInput | src/algorithms/maximum_flow/validate.rs:7-17 | `Err(BadInput)` exactly when the source or the sink is not a node or they coincide, `Ok` otherwise |
| MaximumFlowResidualNetwork.ResidualNetwork.constructor | src/algorithms/maximum_flow/residual_network.rs:34-90 | the compressed layout: node `x`'s arcs occupy `start[x]..start[x+1]`, a range as long as `x`'s degree; each edge `j` owns a forward arc `u -> v` with capacity `upper` and a reverse arc `v -> u` with capacity 0 (directed) or `upper` (undirected), the two being each other's `rev`; residuals start at the capacities and excesses and distances at 0 |
| MaximumFlowResidualNetwork.CountDegrees | src/algorithms/maximum_flow/residual_network.rs:54-59 | `degree[x]` is the number of edge ends at `x` |
| MaximumFlowResidualNetwork.Starts | src/algorithms/maximum_flow/residual_network.rs:61-63 | the prefix sums of the degrees: `start[0] = 0`, `start[x+1] = start[x] + degree[x]` |
| MaximumFlowResidualNetwork.PlaceArcs | src/algorithms/maximum_flow/residual_network.rs:65-89 | every edge is placed at its forward and reverse slots with the right heads, reverses and capacities |
| MaximumFlowResidualNetwork.PlaceNext | src/algorithms/maximum_flow/residual_network.rs:66-88 | one edge placed at `start[u] + counter[u]` and `start[v] + counter[v]`, the counters counting the ends seen so far |
| MaximumFlowResidualNetwork.BuildOk | src/algorithms/maximum_flow/residual_network.rs:53-90 | the placed arrays form the layout: arcs in `x`'s range leave `x`, `rev` is an involution without fixed points, residual equals upper |
| MaximumFlowResidualNetwork.FreshSlots | src/algorithms/maximum_flow/residual_network.rs:68-71 | different edge ends get different slots, so no placement overwrites another |
| MaximumFlowResidualNetwork.ResidualNetwork.GetFlows | src/algorithms/maximum_flow/residual_network.rs:92-97 | the flow on edge `j` is its forward arc's capacity less its residual |
| MaximumFlowResidualNetwork.ResidualNetwork.Neighbors | src/algorithms/maximum_flow/residual_network.rs:99-102 | the slot range `start[u]..start[u+1]`, every arc of which leaves `u` |
| MaximumFlowResidualNetwork.ResidualNetwork.PushFlowWithoutExcess | src/algorithms/maximum_flow/residual_network.rs:111-115 | the arc's residual drops by `f`, its reverse's rises by `f`, nothing else changes, so every pair's total residual is kept |
| MaximumFlowResidualNetwork.PushedKeepsPairs | src/algorithms/maximum_flow/residual_network.rs:113-114 | pushing changes only the arc and its reverse and keeps `r[a] + r[rev[a]]` for every arc |
| MaximumFlowResidualNetwork.PushedFeasible | src/algorithms/maximum_flow/residual_network.rs:113-114 | pushing at most the residual keeps every residual between 0 and the pair's total capacity |
| MaximumFlowResidualNetwork.ResidualNetwork.PushFlow | src/algorithms/maximum_flow/residual_network.rs:104-109 | the residual update above, plus `u` loses `f` of excess and the arc's head gains it, so the total excess is unchanged |
| MaximumFlowResidualNetwork.ResidualNetwork.UpdateDistancesToSink | src/algorithms/maximum_flow/residual_network.rs:117-137 | the residuals are untouched; the sink gets 0, every label is at most `n`, every reached node other than the sink has an arc with residual capacity to a node one label lower, and (except at the source, which is never expanded) every node with residual capacity into a reached node is itself reached at most one label farther |
| MaximumFlowResidualNetwork.ResidualNetwork.Distances | src/algorithms/maximum_flow/residual_network.rs:118-136 | the breadth-first search on `res` from the sink with the properties listed for `update_distances_to_sink` |
| MaximumFlowResidualNetwork.ResidualNetwork.Expand | src/algorithms/maximum_flow/residual_network.rs:124-135 | scanning all arcs of `v` keeps the search invariants, closes `v` and does not raise the termination measure |
| MaximumFlowResidualNetwork.ResidualNetwork.Label | src/algorithms/maximum_flow/residual_network.rs:127-134 | labelling an unreached neighbour with `d[v] + 1` (queued unless it is the source) keeps the search invariants and lowers the termination measure |
| MaximumFlowResidualNetwork.ResidualNetwork.IsAdmissibleArc | src/algorithms/maximum_flow/residual_network.rs:139-143 | true exactly when the arc has residual capacity and descends one label toward the sink |
| MaximumFlowResidualNetwork.ResidualNetwork.NeighborSum | src/algorithms/maximum_flow/residual_network.rs:99-102 | summing the given values over `u`'s slot range gives `OutRes(values, u)` |
| MaximumFlowResidualNetwork.ResidualNetwork.PushedOut | src/algorithms/maximum_flow/residual_network.rs:113-114 | a push on an arc lowers the outgoing residual of its tail by `f` and raises its head's by `f` |
| MaximumFlowResidualNetwork.ResidualNetwork.PushPathOut | src/algorithms/maximum_flow/residual_network.rs:113-114 | pushing `f` along a path from `u` to `v` shifts `f` of outgoing residual from `u` to `v` and leaves every other node's |
| MaximumFlowResidualNetwork.ResidualNetwork.PushPathOutside | src/algorithms/maximum_flow/residual_network.rs:113-114 | pushing along a path leaves the residual of every arc that is neither on the path nor the reverse of an arc on it |
| MaximumFlowResidualNetwork.ResidualNetwork.CutBlocksPaths | src/algorithms/maximum_flow/residual_network.rs:127-128 | every path from inside a residual cut to the sink uses an arc without residual capacity |
| FordFulkerson.FordFulkerson.constructor | src/algorithms/maximum_flow/solvers/ford_fulkerson.rs:31-41 | a fresh directed residual network of the graph, residuals at capacity, status `NotSolved`, no source, no cut-off, nothing visited |
| FordFulkerson.FordFulkerson.Cutoff | src/algorithms/maximum_flow/solvers/ford_fulkerson.rs:93-96 | sets the cut-off to `k` |
| FordFulkerson.FordFulkerson.ClearCutoff | src/algorithms/maximum_flow/solvers/ford_fulkerson.rs:98-100 | removes the cut-off |
| FordFulkerson.FordFulkerson.Run | src/algorithms/maximum_flow/solvers/ford_fulkerson.rs:43-70 | `Err(BadInput)` with nothing changed exactly for invalid terminals; otherwise status `Optimal`, source recorded, residuals feasible and the returned value is a flow of that value from `s` to `t` (every other node's outgoing residual is as at capacity); it is 0 when the bound (cut-off, else the source's out-capacity) is not positive, lies between 0 and the bound, and when below the bound the visited set is a cut with no residual arc leaving it, so the flow is maximum |
| FordFulkerson.FordFulkerson.Dfs | src/algorithms/maximum_flow/solvers/ford_fulkerson.rs:72-91 | `Some(d)` means `0 < d <= flow` was pushed along a path to the sink of arcs that had at least `d` of residual, the rest untouched; `None` means that every node newly visited has all its residual arcs into visited nodes, with residuals unchanged |
| FordFulkerson.FordFulkerson.Try | src/algorithms/maximum_flow/solvers/ford_fulkerson.rs:78-89 | the scan of `u`'s arcs from `a` on, with the same two outcomes |
| FordFulkerson.FordFulkerson.AugmentOk | src/algorithms/maximum_flow/solvers/ford_fulkerson.rs:85-87 | pushing `d` on the arc into a node whose search pushed `d` to the sink extends that path by the arc and keeps the residuals feasible |
| FordFulkerson.FordFulkerson.FoundCut | src/algorithms/maximum_flow/solvers/ford_fulkerson.rs:64 | a failed search from `s` that visits `s` and not `t` leaves a residual cut between them |
| EdmondsKarp.EdmondsKarp.constructor | src/algorithms/maximum_flow/solvers/edmonds_karp.rs:28-31 | a fresh directed residual network at capacity, no cut-off, the source invalid |
| EdmondsKarp.EdmondsKarp.Run | src/algorithms/maximum_flow/solvers/edmonds_karp.rs:33-94 | `Err(BadInput)` with nothing changed exactly for invalid terminals; otherwise the residuals stay feasible, the result is a flow of that value from `s` to `t` on top of the residuals found, 0 when the bound is not positive, between 0 and the bound, and when below the bound some node set is a residual cut between `s` and `t` |
| EdmondsKarp.EdmondsKarp.Search | src/algorithms/maximum_flow/solvers/edmonds_karp.rs:50-66 | the breadth-first search: `s` visited; `prev` links every visited node back to `s` through arcs with residual capacity, parents visited earlier; when `t` is not visited the visited set is a residual cut |
| EdmondsKarp.EdmondsKarp.Scan | src/algorithms/maximum_flow/solvers/edmonds_karp.rs:57-65 | queueing every unvisited neighbour reached by a residual arc keeps the search tree and closes `u` |
| EdmondsKarp.EdmondsKarp.Bottleneck | src/algorithms/maximum_flow/solvers/edmonds_karp.rs:72-80 | `delta` is positive, at most the remaining amount and every residual on the path, and equal to one of them |
| EdmondsKarp.EdmondsKarp.Augment | src/algorithms/maximum_flow/solvers/edmonds_karp.rs:82-88 | the `prev` chain is a path from `s` to `t` and the residuals become those with `delta` pushed along it; still feasible |
| EdmondsKarp.EdmondsKarp.ChainShape | src/algorithms/maximum_flow/solvers/edmonds_karp.rs:74-79 | following `prev` from a visited node reaches `s` along arcs with residual capacity |
| MinimumCostFlowNormalizedNetwork.From | src/algorithms/minimum_cost_flow/normalized_network.rs:37-61 | the network keeps the base graph and node count, and `b` is the supplies with every edge's shift moved from its tail to its head |
| MinimumCostFlowNormalizedNetwork.BalanceAt | src/algorithms/minimum_cost_flow/normalized_network.rs:44-58 | the normalised supply of `x` is its supply plus the shifts into `x` minus the shifts out of it; the shift is the lower bound, or the upper bound for a negative cost |
| MinimumCostFlowNormalizedNetwork.BalanceSum | src/algorithms/minimum_cost_flow/normalized_network.rs:44-58 | normalising does not change the total supply |
| MinimumCostFlowNormalizedNetwork.Normalize | src/algorithms/minimum_cost_flow/normalized_network.rs:75-92 | the normalised edge has non-negative cost, capacity `upper - lower`, the original lower bound, is reversed exactly when the cost was negative, and joins the same two nodes |
| MinimumCostFlowNormalizedNetwork.NormalizeRoundTrip | src/algorithms/minimum_cost_flow/normalized_network.rs:82-86 | undoing the reversal gives back the original cost and direction |
| MinimumCostFlowNormalizedNetwork.IterEdges | src/algorithms/minimum_cost_flow/normalized_network.rs:75-93 | one normalised edge per base edge, in order |
| MinimumCostFlowNormalizedNetwork.IterEdgesNonNegative | src/algorithms/minimum_cost_flow/normalized_network.rs:88-89 | every normalised edge has non-negative cost, endpoints among the nodes and, for bounds in order, a non-negative capacity |
| MinimumCostFlowNormalizedNetwork.OriginalFlowWithin | src/algorithms/minimum_cost_flow/normalized_network.rs:79-86 | a flow fits the normalised capacity exactly when the flow it stands for fits the original bounds |
| MinimumCostFlowNormalizedNetwork.OriginalFlowInto | src/algorithms/minimum_cost_flow/normalized_network.rs:51-57 | at every node, the normalised flow's inflow plus the shift's equals the original flow's |
| MinimumCostFlowNormalizedNetwork.OriginalFlowCost | src/algorithms/minimum_cost_flow/normalized_network.rs:82-86 | the original cost of a flow is the normalised cost plus the constant cost of the shift |
| MinimumCostFlowNormalizedNetwork.NormalizationKeepsBalance | src/algorithms/minimum_cost_flow/normalized_network.rs:37-93 | the normalised supply plus the normalised net inflow at a node equals its supply plus the net inflow of the corresponding original flow, so balanced normalised flows are balanced original flows |
| MinimumCostFlowExtendNetwork.OneSupplyOneDemand | src/algorithms/minimum_cost_flow/extend_network.rs:8-62 | the source and sink are the two new nodes, there is one edge from the source for each node with positive supply and one to the sink for each with negative supply, each node's excess is the negated supply, the source's is the positive total and the sink's the negative total |
| MinimumCostFlowExtendNetwork.SupplyDemandEdgesShape | src/algorithms/minimum_cost_flow/extend_network.rs:23-55 | every added edge is free, unreversed, with positive capacity, and either leaves the source toward a node whose supply is that capacity or reaches the sink from a node whose supply is minus it |
| MinimumCostFlowExtendNetwork.SupplyDemandEdgeOf | src/algorithms/minimum_cost_flow/extend_network.rs:29-55 | a node has an added edge exactly when its supply is not zero; a node with zero supply touches none |
| MinimumCostFlowExtendNetwork.OneSupplyOneDemandBalanced | src/algorithms/minimum_cost_flow/extend_network.rs:56-59 | the excesses of the extended network add up to zero |
| MinimumCostFlowExtendNetwork.InfCostDominates | src/algorithms/minimum_cost_flow/extend_network.rs:70-73 | `1 + sum of costs` is at least 1 and above every edge's cost when all costs are non-negative |
| MinimumCostFlowExtendNetwork.FeasibleSolution | src/algorithms/minimum_cost_flow/extend_network.rs:64-115 | the root is the new node; node `u` gets an artificial edge to the root (supply `>= 0`) or from it, with capacity `abs(b[u])` and the dominating cost; original flows are 0, each artificial edge is filled, the fix is `-b[u]` at each node and the total supply at the root |
| MinimumCostFlowExtendNetwork.RootFlowsMatchFix | src/algorithms/minimum_cost_flow/extend_network.rs:84-112 | the artificial flows bring each node exactly its supply and the root the total, so they cancel the fix |
| MinimumCostFlowValidate.ValidateBalance | src/algorithms/minimum_cost_flow/validate.rs:7-12 | `Err(Unbalanced)` exactly when the excesses do not add up to zero |
| MinimumCostFlowValidate.ValidateInfeasible | src/algorithms/minimum_cost_flow/validate.rs:14-21 | `Err(Infeasible)` exactly when there are no edges and some excess is not zero |
| MinimumCostFlowValidate.TrivialSolutionIfAny | src/algorithms/minimum_cost_flow/validate.rs:23-29 | `Some(Ok(0))` exactly when there are no nodes or no edges |
| MinimumCostFlowValidate.TrivialSolutionExact | src/algorithms/minimum_cost_flow/validate.rs:14-29 | once the feasibility check passed, a trivial answer means no edges, all excesses zero and the empty flow of cost 0, so 0 is the right objective |
| MinimumCostFlowResidualNetwork.ResidualNetwork.constructor | src/algorithms/minimum_cost_flow/residual_network.rs:41-150 | with no original node everything stays zero; otherwise the normalised edges followed by the artificial ones are laid out as in the maximum-flow network, each edge `u -> v` getting a forward arc (capacity `upper`, cost `cost`, residual `upper - initial`) and a reverse arc (capacity `upper`, cost `-cost`, residual `initial`), the excesses are the supplies plus the fix, `b` their copy and potentials 0; initial flows within capacity give residuals within capacity, and zero initial flows on non-negative costs leave no residual arc of negative cost |
| MinimumCostFlowResidualNetwork.InitialExcesses | src/algorithms/minimum_cost_flow/residual_network.rs:86-94 | each node's excess is its normalised supply plus its fix, if any |
| MinimumCostFlowResidualNetwork.BuildArrays | src/algorithms/minimum_cost_flow/residual_network.rs:96-149 | degree count, prefix sums and arc placement give the layout, the per-arc data of every edge and every reverse pair |
| MinimumCostFlowResidualNetwork.Build | src/algorithms/minimum_cost_flow/residual_network.rs:76-149 | `build` returns early, leaving the defaults, when the base graph has no node, and otherwise fills the arrays and the excesses |
| MinimumCostFlowResidualNetwork.PlaceArcs | src/algorithms/minimum_cost_flow/residual_network.rs:111-148 | every edge is placed at its two own slots with the data above |
| MinimumCostFlowResidualNetwork.PlacedPair | src/algorithms/minimum_cost_flow/residual_network.rs:134-147 | every arc and its reverse have opposite costs, equal capacities and residuals summing to the capacity |
| MinimumCostFlowResidualNetwork.ResidualNetwork.Neighbors | src/algorithms/minimum_cost_flow/residual_network.rs:151-154 | the slot range of `u`, every arc of which leaves `u` |
| MinimumCostFlowResidualNetwork.ResidualNetwork.PushFlow | src/algorithms/minimum_cost_flow/residual_network.rs:156-164 | the arc's residual drops by `f` and its reverse's rises by `f`, `f` of excess moves from `u` to the head; pair totals and the total excess are kept, and pushing at most the residual keeps residuals within capacity |
| MinimumCostFlowResidualNetwork.ResidualNetwork.ReverseReducedCost | src/algorithms/minimum_cost_flow/residual_network.rs:199-207 | the reduced cost of an arc's reverse, seen from its head, is the negated reduced cost of the arc, the value `reduced_cost_rev` computes |
| MinimumCostFlowResidualNetwork.ResidualNetwork.HaveFlowInArtificialArc | src/algorithms/minimum_cost_flow/residual_network.rs:213-220 | true exactly when some artificial edge's forward residual differs from its capacity |
| MinimumCostFlowResidualNetwork.ResidualNetwork.ArtificialFlowFrom | src/algorithms/minimum_cost_flow/residual_network.rs:214-219 | the `any` over the artificial edges from `j` on |
| MinimumCostFlowResidualNetwork.ResidualNetwork.HaveExcess | src/algorithms/minimum_cost_flow/residual_network.rs:222-224 | true exactly when some node's excess is not zero |
| MinimumCostFlowResidualNetwork.AnyNonZero | src/algorithms/minimum_cost_flow/residual_network.rs:223 | true exactly when some element is not zero |
| MinimumCostFlowResidualNetwork.ResidualNetwork.FlowOriginalGraph | src/algorithms/minimum_cost_flow/residual_network.rs:240-249 | the flow on the forward arc translated back to the original edge: `upper + lower - f` when reversed, `f + lower` otherwise |
| MinimumCostFlowResidualNetwork.ResidualNetwork.FlowOriginalGraphWithin | src/algorithms/minimum_cost_flow/residual_network.rs:240-249 | the arc flow lies within its capacity exactly when the translated flow lies within the original bounds |
| MinimumCostFlowResidualNetwork.ResidualNetwork.FlowsOriginalGraph | src/algorithms/minimum_cost_flow/residual_network.rs:251-255 | one translated flow per original edge |
| MinimumCostFlowResidualNetwork.ResidualNetwork.PotentialsOriginalGraph | src/algorithms/minimum_cost_flow/residual_network.rs:264-266 | the potentials of the original nodes |
| MinimumCostFlowResidualNetwork.ResidualNetwork.CostOriginalGraph | src/algorithms/minimum_cost_flow/residual_network.rs:230-234 | the forward arc's cost, negated for reversed edges, is the original edge's cost |
| MinimumCostFlowResidualNetwork.ResidualNetwork.CalculateObjectiveValueOriginalGraph | src/algorithms/minimum_cost_flow/residual_network.rs:226-238 | the total original cost of the translated flows |
| MinimumCostFlowResidualNetwork.ObjectiveStep | src/algorithms/minimum_cost_flow/residual_network.rs:236 | the objective of one more edge adds that edge's cost times its flow |
| MinimumCostFlowResidualNetwork.ResidualNetwork.CheckOptimality | src/algorithms/minimum_cost_flow/residual_network.rs:268-290 | true exactly when every arc with non-zero capacity meets complementary slackness: reduced cost `>= 0` when empty, `== 0` when strictly between, `<= 0` when full |
| NetworkSimplexSpanningTree.SpanningTreeStructure.constructor | src/algorithms/minimum_cost_flow/spanning_tree_structure.rs:52-131 | `new` + `build`: edges are the normalised edges followed by the artificial ones, each node's excess is its supply plus its fix, every flow is the given initial flow (0 without one) and every edge starts at `Lower`; reverse-slot lower bounds are 0; tree arrays are all `Invalid`, potentials 0, no root |
| NetworkSimplexSpanningTree.BuildExcesses | src/algorithms/minimum_cost_flow/spanning_tree_structure.rs:102-110 | the excess loop of `build`: node u's normalised supply plus its fix when one is given |
| NetworkSimplexSpanningTree.BuildEdges | src/algorithms/minimum_cost_flow/spanning_tree_structure.rs:112-130 | the edge loop of `build`: endpoints, bounds, cost, reversal flag and initial flow copied edge by edge from the normalised edge list |
| NetworkSimplexSpanningTree.SpanningTreeStructure.ResidualCapacity | src/algorithms/minimum_cost_flow/spanning_tree_structure.rs:393-396 | the residual `upper - flow` is non-negative exactly when the flow is within the upper bound, and zero exactly when the edge is at its upper bound |
| NetworkSimplexSpanningTree.SpanningTreeStructure.OppositeSide | src/algorithms/minimum_cost_flow/spanning_tree_structure.rs:397-401 | the XOR trick returns the other endpoint of the edge, which is a node |
| NetworkSimplexSpanningTree.XorCancel | src/algorithms/minimum_cost_flow/spanning_tree_structure.rs:397-401 | `x ^ y ^ x == y` and `x ^ x ^ z == z`, the two facts `opposite_side` relies on |
| NetworkSimplexSpanningTree.XorAssoc | src/algorithms/minimum_cost_flow/spanning_tree_structure.rs:397-401 | XOR on naturals is associative |
| NetworkSimplexSpanningTree.XorComm | src/algorithms/minimum_cost_flow/spanning_tree_structure.rs:397-401 | XOR on naturals is commutative |
| NetworkSimplexSpanningTree.XorSelf | src/algorithms/minimum_cost_flow/spanning_tree_structure.rs:397-401 | `a ^ a == 0` |
| NetworkSimplexSpanningTree.XorZero | src/algorithms/minimum_cost_flow/spanning_tree_structure.rs:397-401 | `a ^ 0 == a` |
| NetworkSimplexSpanningTree.SpanningTreeStructure.SatisfyConstraints | src/algorithms/minimum_cost_flow/spanning_tree_structure.rs:340-348 | true exactly when every edge's flow is within `[0, upper]` and every node's excess is 0 |
| NetworkSimplexSpanningTree.SpanningTreeStructure.NetOutUpdate | src/algorithms/minimum_cost_flow/spanning_tree_structure.rs:136-146 | changing one edge's flow by d changes its tail's net outflow by +d and its head's by -d and no other node's |
| NetworkSimplexSpanningTree.SpanningTreeStructure.PathFlowBalance | src/algorithms/minimum_cost_flow/spanning_tree_structure.rs:136-146 | pushing delta along the tree path from `sink` up to `source` raises the net outflow of `source`'s end by delta, lowers the other end's by delta, and leaves every inner node balanced |
| NetworkSimplexSpanningTree.SpanningTreeStructure.PushAlongPath | src/algorithms/minimum_cost_flow/spanning_tree_structure.rs:136-145 | the loop climbing parent edges from `sink` to `source` computes exactly the path flow: +delta on edges pointing down the path, -delta on the others |
| NetworkSimplexSpanningTree.SpanningTreeStructure.UpdateFlowInPath | src/algorithms/minimum_cost_flow/spanning_tree_structure.rs:136-146 | `update_flow_in_path`: new flows are the path flow; the sink's excess rises and the source's falls by delta, every other excess is unchanged |
| NetworkSimplexSpanningTree.SpanningTreeStructure.Climb | src/algorithms/minimum_cost_flow/spanning_tree_structure.rs:256-266 | the ancestor walk shared by `attach_tree` and `detach_tree`: successor counts of the walked ancestors grow or shrink by the subtree size, and those whose last descendant was the old last node take the new one; all others unchanged |
| NetworkSimplexSpanningTree.SpanningTreeStructure.AttachTree | src/algorithms/minimum_cost_flow/spanning_tree_structure.rs:269-303 | the entering edge becomes a tree edge, q hangs below p by it, q's subtree is spliced into the depth-first thread right after p's last descendant, and every ancestor of p gains q's subtree size |
| NetworkSimplexSpanningTree.SpanningTreeStructure.DetachTree | src/algorithms/minimum_cost_flow/spanning_tree_structure.rs:236-268 | the leaving edge goes to `Lower` or `Upper` by its flow, t loses its parent, t's subtree is cut out of the thread into a ring, and t's ancestors lose its subtree size |
| NetworkSimplexSpanningTree.SpanningTreeStructure.DetachBelow | src/algorithms/minimum_cost_flow/spanning_tree_structure.rs:236-268 | the same detached state as `DetachTree`, for a walk starting at any node x whose ancestors contain the subtree's parent side |
| NetworkSimplexSpanningTree.SpanningTreeStructure.FlowInOriginalGraph | src/algorithms/minimum_cost_flow/spanning_tree_structure.rs:406-413 | one edge's flow mapped back: `upper + lower - f` for a reversed edge, `f + lower` otherwise |
| NetworkSimplexSpanningTree.SpanningTreeStructure.FeasibleInOriginalGraph | src/algorithms/minimum_cost_flow/spanning_tree_structure.rs:381-384 | an edge is feasible in the normalised network exactly when its mapped-back flow is within the original edge's `[lower, upper]` |
| NetworkSimplexSpanningTree.SpanningTreeStructure.MakeMinimumCostFlowInOriginalGraph | src/algorithms/minimum_cost_flow/spanning_tree_structure.rs:417-430 | one mapped-back flow per original edge, in edge order |
| NetworkSimplexSpanningTree.SpanningTreeStructure.CalculateObjectiveValueInOriginalGraph | src/algorithms/minimum_cost_flow/spanning_tree_structure.rs:402-416 | the original edges' costs times their mapped-back flows, summed |
| NetworkSimplexPivotRules.FindBestEligibleArc | src/algorithms/minimum_cost_flow/algorithms/network_simplex_pivot_rules.rs:25-43 | Best eligible arc: None exactly when no edge has a positive violation; otherwise an edge of maximum violation, the first such in edge order |
| NetworkSimplexPivotRules.FirstEligibleArc.constructor | src/algorithms/minimum_cost_flow/algorithms/network_simplex_pivot_rules.rs:48-51 | the scan starts at edge 0 |
| NetworkSimplexPivotRules.FirstEligibleArc.FindEnteringEdge | src/algorithms/minimum_cost_flow/algorithms/network_simplex_pivot_rules.rs:59-78 | None exactly when no edge has a positive violation, and then the cursor is back where it started; otherwise the first edge with positive violation in the cyclic order from the old cursor, and the cursor rests on it |
| NetworkSimplexPivotRules.FirstEligibleArc.Clear | src/algorithms/minimum_cost_flow/algorithms/network_simplex_pivot_rules.rs:79-81 | the cursor goes back to edge 0 |
| NetworkSimplexPivotRules.Pos | src/algorithms/minimum_cost_flow/algorithms/network_simplex_pivot_rules.rs:71-74 | the cyclic cursor: the p-th edge after `start`, wrapping at m, is an edge, and it lies at or after `start` exactly when p has not wrapped |
| NetworkSimplexPivotRules.PosNext | src/algorithms/minimum_cost_flow/algorithms/network_simplex_pivot_rules.rs:71-74 | one cursor step (increment, reset to 0 at m) moves from the p-th to the (p+1)-th edge after `start` |
| NetworkSimplexPivotRules.Covers | src/algorithms/minimum_cost_flow/algorithms/network_simplex_pivot_rules.rs:59-78 | a full cyclic scan from any start visits every edge, so "no eligible edge on the scan" means "no eligible edge" |
| NetworkSimplexPivotRules.BlockSearch.constructor | src/algorithms/minimum_cost_flow/algorithms/network_simplex_pivot_rules.rs:91-95 | `default`: cursor 0, block size 64, not initialised |
| NetworkSimplexPivotRules.BlockSearch.WithParameter | src/algorithms/minimum_cost_flow/algorithms/network_simplex_pivot_rules.rs:102-111 | `new_with_parameter`: cursor 0, initialised, block size the larger of the minimum and the scaled size |
| NetworkSimplexPivotRules.BlockSearch.Initialize | src/algorithms/minimum_cost_flow/algorithms/network_simplex_pivot_rules.rs:118-130 | an initialised rule is left alone; otherwise cursor 0 and block size max(10, scaled size), and it is initialised |
| NetworkSimplexPivotRules.BlockSearch.Clear | src/algorithms/minimum_cost_flow/algorithms/network_simplex_pivot_rules.rs:165-169 | cursor 0, block size 0, not initialised |
| NetworkSimplexPivotRules.BlockSearch.ScanStep | src/algorithms/minimum_cost_flow/algorithms/network_simplex_pivot_rules.rs:139-162 | one iteration of the block loop: either a block ends holding a candidate, which is then the best edge of the scanned prefix and every earlier full block had none, or the scan invariant carries to the next edge |
| NetworkSimplexPivotRules.BlockSearch.FindEnteringEdge | src/algorithms/minimum_cost_flow/algorithms/network_simplex_pivot_rules.rs:131-164 | None exactly when no edge has a positive violation; otherwise a best edge of the scanned prefix, where the scan stops at the first full block holding a candidate or after all edges, every completed block before it had no eligible edge, and the cursor rests on the last scanned edge when a block stopped it |
| NetworkSimplexPivotRules.AlignedNext | src/algorithms/minimum_cost_flow/algorithms/network_simplex_pivot_rules.rs:148-154 | a completed block advances the cleared count by one block size |
| SuccessiveShortestPath.Network | src/algorithms/minimum_cost_flow/solvers/successive_shortest_path.rs:30-35 | `new`'s network: the normalised graph extended by super source n and super sink n+1, built with the one-supply-one-demand fix, so every ordinary node starts without excess, the source holds the total positive supply and the sink the total negative one; potentials 0; when every lower bound is at most its upper bound, residuals are within capacity and no arc with residual capacity has negative cost |
| SuccessiveShortestPath.NewNetwork | src/algorithms/minimum_cost_flow/solvers/successive_shortest_path.rs:30-35 | the same construction with its intermediate values: the normalised network, the supply/demand edges and the fix are those of the extension |
| SuccessiveShortestPath.SuccessiveShortestPath.constructor | src/algorithms/minimum_cost_flow/solvers/successive_shortest_path.rs:30-35 | `new`: the solver holds the network above with source n |
| SuccessiveShortestPath.SuccessiveShortestPath.Initially | src/algorithms/minimum_cost_flow/solvers/successive_shortest_path.rs:30-35 | with zero potentials, residuals within capacity and no negative-cost arc with residual, the solver's invariant (capacity and dual feasibility) holds |
| SuccessiveShortestPath.SuccessiveShortestPath.ZeroDual | src/algorithms/minimum_cost_flow/solvers/successive_shortest_path.rs:30-35 | with all potentials zero, no negative-cost residual arc means no negative reduced-cost residual arc |
| SuccessiveShortestPath.SuccessiveShortestPath.CalculateDistance | src/algorithms/minimum_cost_flow/solvers/successive_shortest_path.rs:68-103 | Dijkstra on reduced costs from s over arcs with residual capacity: a returned target is a settled node of negative excess, every other settled node has none, and the search tree, distances and predecessors are those of a correct search up to the target; with no target, s is settled and no residual arc leaves the settled set |
| SuccessiveShortestPath.SuccessiveShortestPath.UpdatePotentials | src/algorithms/minimum_cost_flow/solvers/successive_shortest_path.rs:49-54 | the potential of every settled node u drops by dist[u] and rises by dist[t]; all other potentials, all residuals and all excesses unchanged |
| SuccessiveShortestPath.SuccessiveShortestPath.ShiftDual | src/algorithms/minimum_cost_flow/solvers/successive_shortest_path.rs:49-54 | moving the potentials that way keeps every residual arc's reduced cost non-negative and makes the reduced cost of every tree arc zero |
| SuccessiveShortestPath.Bottleneck | src/algorithms/minimum_cost_flow/solvers/successive_shortest_path.rs:108-116 | the minimum of an initial bound and the residuals along a path: no larger than any of them and equal to one of them |
| SuccessiveShortestPath.SuccessiveShortestPath.PathDelta | src/algorithms/minimum_cost_flow/solvers/successive_shortest_path.rs:108-118 | the delta loop computes the bottleneck of the predecessor path, starting from the smaller of s's excess and t's deficit |
| SuccessiveShortestPath.SuccessiveShortestPath.Augment | src/algorithms/minimum_cost_flow/solvers/successive_shortest_path.rs:121-131 | the push loop leaves the residuals pushed by delta along every path arc, keeps them within capacity and keeps dual feasibility; excesses and potentials unchanged |
| SuccessiveShortestPath.SuccessiveShortestPath.PushDual | src/algorithms/minimum_cost_flow/solvers/successive_shortest_path.rs:126-128 | pushing along an arc of reduced cost zero keeps dual feasibility |
| SuccessiveShortestPath.SuccessiveShortestPath.PushWithin | src/algorithms/minimum_cost_flow/solvers/successive_shortest_path.rs:126-128 | pushing at most an arc's residual keeps every residual within capacity |
| SuccessiveShortestPath.SuccessiveShortestPath.MoveExcess | src/algorithms/minimum_cost_flow/solvers/successive_shortest_path.rs:134-135 | t's excess rises by d and s's falls by d, so the total excess is unchanged |
| SuccessiveShortestPath.SuccessiveShortestPath.UpdateFlow | src/algorithms/minimum_cost_flow/solvers/successive_shortest_path.rs:105-136 | `update_flow`: delta is the path bottleneck and is positive; residuals are pushed by delta along the path, excess moves from s to t with the total kept, and capacity and dual feasibility still hold |
| SuccessiveShortestPath.SuccessiveShortestPath.Round | src/algorithms/minimum_cost_flow/solvers/successive_shortest_path.rs:45-57 | one iteration of `run`'s loop keeps the invariant and either lowers the source's excess or, when no target is found, changes nothing |
| SuccessiveShortestPath.SuccessiveShortestPath.Run | src/algorithms/minimum_cost_flow/solvers/successive_shortest_path.rs:37-66 | `run`: `Unbalanced`, then `Infeasible`, then the trivial answer 0, each leaving the network unchanged; otherwise Ok exactly when no excess is left, and then the flows in the original graph meet complementary slackness and the answer is their cost |
| SuccessiveShortestPath.SuccessiveShortestPath.Solve | src/algorithms/minimum_cost_flow/solvers/successive_shortest_path.rs:45-66 | the loop and final check of `run`: Ok exactly when every excess is 0, with complementary slackness and the objective value; `Infeasible` otherwise |
| SuccessiveShortestPath.SuccessiveShortestPath.ArcOptimal | src/algorithms/minimum_cost_flow/solvers/successive_shortest_path.rs:45-66 | under the invariant each arc meets complementary slackness with the potentials |
| SuccessiveShortestPath.SuccessiveShortestPath.Optimal | src/algorithms/minimum_cost_flow/solvers/successive_shortest_path.rs:45-66 | under the invariant every arc of every node meets complementary slackness, the condition `check_optimality` tests |
| SuccessiveShortestPath.SuccessiveShortestPath.Flow | src/algorithms/minimum_cost_flow/solvers/successive_shortest_path.rs:139-141 | `flow`: under the invariant an original edge's flow lies within its bounds |
| SuccessiveShortestPath.SuccessiveShortestPath.FlowBounded | src/algorithms/minimum_cost_flow/solvers/successive_shortest_path.rs:139-141 | under the invariant `flow_original_graph` lies within the original edge's [lower, upper] |
| SuccessiveShortestPath.SuccessiveShortestPath.Flows | src/algorithms/minimum_cost_flow/solvers/successive_shortest_path.rs:143-145 | `flows`: one flow per original edge, each within its bounds under the invariant |
| SuccessiveShortestPath.SuccessiveShortestPath.Potential | src/algorithms/minimum_cost_flow/solvers/successive_shortest_path.rs:147-149 | `potential`: an original node's potential is the one `potentials_original_graph` reports |
| SuccessiveShortestPath.SuccessiveShortestPath.Potentials | src/algorithms/minimum_cost_flow/solvers/successive_shortest_path.rs:151-153 | `potentials`: one potential per original node |
| HopcroftKarp.HopcroftKarp.constructor | src/algorithms/maximum_bipartite_matching/hopcroft_karp.rs:23-36 | `default`: no warm start, no nodes, empty arrays |
| HopcroftKarp.HopcroftKarp.SetWarmStart | src/algorithms/maximum_bipartite_matching/hopcroft_karp.rs:45-48 | the warm start becomes the given one |
| HopcroftKarp.HopcroftKarp.SetWarmStartUser | src/algorithms/maximum_bipartite_matching/hopcroft_karp.rs:40-43 | the warm start becomes the user's edge list |
| HopcroftKarp.HopcroftKarp.Preprocess | src/algorithms/maximum_bipartite_matching/hopcroft_karp.rs:100-121 | node counts and edges taken from the graph; `start` is the prefix sum of the left degrees and every edge lands in its left node's range; every right node unmatched, every label 0, an empty queue |
| HopcroftKarp.HopcroftKarp.Lay | src/algorithms/maximum_bipartite_matching/hopcroft_karp.rs:100-121 | the same state, built from the edges and a degree list that counts them |
| HopcroftKarp.LeftStarts | src/algorithms/maximum_bipartite_matching/hopcroft_karp.rs:112-115 | the first loop of `preprocess`: `start[x]` is the number of edges whose left end is below x |
| HopcroftKarp.PlaceArcs | src/algorithms/maximum_bipartite_matching/hopcroft_karp.rs:117-121 | the second loop: the i-th edge goes to slot `start[u] + (edges of u before it)` with its right end |
| HopcroftKarp.BuildArcs | src/algorithms/maximum_bipartite_matching/hopcroft_karp.rs:112-121 | both loops: `start` satisfies `start[0] = 0`, `start[x+1] = start[x] + degree(x)`, and every arc of x's range is an edge from x to that arc's target |
| HopcroftKarp.StartsAreSums | src/algorithms/maximum_bipartite_matching/hopcroft_karp.rs:112-115 | counting edges below x is the running sum of the degree list |
| HopcroftKarp.StartsOrdered | src/algorithms/maximum_bipartite_matching/hopcroft_karp.rs:112-115 | the starts are ordered, begin at 0 and end at the edge count |
| HopcroftKarp.RangesHoldEdges | src/algorithms/maximum_bipartite_matching/hopcroft_karp.rs:117-121 | every slot in left node x's range holds an edge of x, and its target is that edge's right end |
| HopcroftKarp.LeftCountIsCount | src/algorithms/maximum_bipartite_matching/hopcroft_karp.rs:117-121 | the degree of a left node is the number of edges with that left end |
| HopcroftKarp.HopcroftKarp.Neighbors | src/algorithms/maximum_bipartite_matching/hopcroft_karp.rs:307-309 | `neighbors(u)` is the range `start[u]..start[u+1]`, and each arc in it is an edge out of u to `to[a]` |
| HopcroftKarp.HopcroftKarp.ArcOnEdge | src/algorithms/maximum_bipartite_matching/hopcroft_karp.rs:307-309 | an arc in u's range leads to a right node joined to u by an edge |
| HopcroftKarp.SortPairs | src/algorithms/maximum_bipartite_matching/hopcroft_karp.rs:125 | `sort_unstable` on (degree, node) pairs: the result is sorted and a permutation of the input |
| HopcroftKarp.Insert | src/algorithms/maximum_bipartite_matching/hopcroft_karp.rs:125 | one insertion step keeps the multiset and adds the new pair once |
| HopcroftKarp.InsertSorted | src/algorithms/maximum_bipartite_matching/hopcroft_karp.rs:125 | inserting into a sorted list keeps it sorted |
| HopcroftKarp.Keyed | src/algorithms/maximum_bipartite_matching/hopcroft_karp.rs:124 | the list of (degree, node) pairs in node order |
| HopcroftKarp.DegreeOrder | src/algorithms/maximum_bipartite_matching/hopcroft_karp.rs:124-125 | the greedy order: sorted by degree then node, a permutation of the pairs, and every left node appears in it exactly once |
| HopcroftKarp.SortedNodes | src/algorithms/maximum_bipartite_matching/hopcroft_karp.rs:124-125 | the sorted order lists every left node once and nothing else |
| HopcroftKarp.HopcroftKarp.BestNeighbor | src/algorithms/maximum_bipartite_matching/hopcroft_karp.rs:128-137 | None exactly when every neighbour is matched; otherwise an unmatched neighbour of least right degree, the first such in arc order |
| HopcroftKarp.HopcroftKarp.InitialSolutionGreedy | src/algorithms/maximum_bipartite_matching/hopcroft_karp.rs:123-143 | the greedy start keeps every existing match, only matches free right nodes along edges, gives each left node at most one new partner, and afterwards every left node either gained a partner or has all its neighbours matched |
| HopcroftKarp.HopcroftKarp.GreedyMates | src/algorithms/maximum_bipartite_matching/hopcroft_karp.rs:127-142 | the loop over the sorted order, with the same promises on mate sequences |
| HopcroftKarp.HopcroftKarp.GreedyTurn | src/algorithms/maximum_bipartite_matching/hopcroft_karp.rs:128-141 | one left node's turn of the greedy loop keeps the greedy invariant |
| HopcroftKarp.PartnersUpdate | src/algorithms/maximum_bipartite_matching/hopcroft_karp.rs:27 | reassigning one right node's mate moves one partner count between the old and the new left node |
| HopcroftKarp.MatchedUpdate | src/algorithms/maximum_bipartite_matching/hopcroft_karp.rs:27 | reassigning one right node's mate changes the matched count by at most one, in the expected direction |
| HopcroftKarp.PartnersPositive | src/algorithms/maximum_bipartite_matching/hopcroft_karp.rs:27 | a left node has a partner exactly when some right node's mate is it |
| HopcroftKarp.HopcroftKarp.InitialLabels | src/algorithms/maximum_bipartite_matching/hopcroft_karp.rs:256-260 | the start of `update_distances`: free left nodes get 0, matched ones unlimited |
| HopcroftKarp.Roots | src/algorithms/maximum_bipartite_matching/hopcroft_karp.rs:262-267 | the queue starts with every free left node, in increasing order |
| HopcroftKarp.HopcroftKarp.Bfs | src/algorithms/maximum_bipartite_matching/hopcroft_karp.rs:268-288 | the BFS leaves layered labels (free nodes 0, each label one more than its predecessor's across a matched edge, every arc out of a labelled node closed) and reports whether some labelled node has an arc to a free right node |
| HopcroftKarp.HopcroftKarp.ScanArcs | src/algorithms/maximum_bipartite_matching/hopcroft_karp.rs:270-286 | scanning one node's arcs keeps the BFS frontier invariant and labels each node at most once |
| HopcroftKarp.HopcroftKarp.UpdateDistances | src/algorithms/maximum_bipartite_matching/hopcroft_karp.rs:255-289 | `update_distances`: layered labels, an empty queue, and true exactly when a labelled left node has an arc to a free right node |
| HopcroftKarp.NoAugmentingPath | src/algorithms/maximum_bipartite_matching/hopcroft_karp.rs:255-289 | when no labelled node reaches a free right node, no alternating path from a free left node ends at one |
| HopcroftKarp.HopcroftKarp.Dfs | src/algorithms/maximum_bipartite_matching/hopcroft_karp.rs:291-305 | `dfs(u)`: u's label becomes unlimited and labels only drop; right nodes matched to u or to an unlabelled node keep their mates; on success some neighbour of u now has mate u, the matched count rises by one, u gains one partner and every other left node keeps its count; on failure the mates are unchanged |
| HopcroftKarp.HopcroftKarp.DfsArc | src/algorithms/maximum_bipartite_matching/hopcroft_karp.rs:294-303 | one arc of `dfs`'s loop: success matches `to[a]` with u; failure leaves the mates and the loop invariant for the next arc |
| HopcroftKarp.HopcroftKarp.Phase | src/algorithms/maximum_bipartite_matching/hopcroft_karp.rs:74-78 | one round of DFS from every free left node with label 0 strictly increases the matched count and keeps a matching a matching |
| HopcroftKarp.HopcroftKarp.Augment | src/algorithms/maximum_bipartite_matching/hopcroft_karp.rs:68-79 | the phase loop: stops with layered labels under which no labelled node reaches a free right node, never lowers the matched count and keeps a matching a matching |
| HopcroftKarp.ApplyEdges | src/algorithms/maximum_bipartite_matching/hopcroft_karp.rs:60-65 | the user-defined start: for each listed edge in turn, its right end's mate becomes its left end |
| HopcroftKarp.HopcroftKarp.ApplyUserMatching | src/algorithms/maximum_bipartite_matching/hopcroft_karp.rs:60-65 | the loop over the user's edges leaves exactly the mates `ApplyEdges` gives |
| HopcroftKarp.ApplyEdgesFrom | src/algorithms/maximum_bipartite_matching/hopcroft_karp.rs:60-65 | a right node that was free and is matched after the user's edges got its mate from one of those edges |
| HopcroftKarp.ApplyEdgesMatching | src/algorithms/maximum_bipartite_matching/hopcroft_karp.rs:60-65 | from the all-free start, node-disjoint user edges give a matching: no left node is the mate of two right nodes |
| HopcroftKarp.HopcroftKarp.WarmStartMates | src/algorithms/maximum_bipartite_matching/hopcroft_karp.rs:52-66 | `None` and `Greedy` leave a matching; `UserDefined` applies the user's edges, and leaves a matching when those edges are node-disjoint |
| HopcroftKarp.SelectMatching | src/algorithms/maximum_bipartite_matching/hopcroft_karp.rs:81-95 | the extraction loop returns increasing edge ids of edges with mate[v] = u, no two sharing a left or a right node; from a matching, every matched right node is covered |
| HopcroftKarp.HopcroftKarp.Extract | src/algorithms/maximum_bipartite_matching/hopcroft_karp.rs:81-97 | the same, and when the mates form a matching no set of pairwise disjoint edges is larger |
| HopcroftKarp.MaximumMatching | src/algorithms/maximum_bipartite_matching/hopcroft_karp.rs:68-97 | with no augmenting path left, every set of node-disjoint edges is no larger than the extracted matching |
| HopcroftKarp.MaximumMatchings | src/algorithms/maximum_bipartite_matching/hopcroft_karp.rs:68-97 | the same for all such edge sets at once |
| HopcroftKarp.HopcroftKarp.Prepare | src/algorithms/maximum_bipartite_matching/hopcroft_karp.rs:50-66 | `preprocess` and the warm start: a laid-out state, with a matching unless the start is a user-defined edge set that shares a node |
| HopcroftKarp.HopcroftKarp.Solve | src/algorithms/maximum_bipartite_matching/hopcroft_karp.rs:50-98 | `solve`: increasing edge ids, each with mate[v] = u, pairwise disjoint as the test asserts, covering every matched right node; with no augmenting path left, and for every warm start but a user-defined edge set that shares a node, maximum among node-disjoint edge sets |
| EdmondsBranching.Edmonds.constructor | src/algorithms/branching/edmonds.rs:22-26 | `default`: no edges recorded |
| EdmondsBranching.Edmonds.Solve | src/algorithms/branching/edmonds.rs:32-40 | `solve`: the result is a list of distinct input edge ids forming a branching (every node entered at most once, and a rank that rises along every chosen edge, so no cycle); the cost is the sum of their weights; when the critical edges form no cycle, they are the answer and their cost the total |
| EdmondsBranching.InputPicks | src/algorithms/branching/edmonds.rs:34-37 | the edge list `solve` builds has edge i at position i, so the chosen positions are the chosen ids |
| EdmondsBranching.Edmonds.MaximumBranching | src/algorithms/branching/edmonds.rs:42-170 | `maximum_branching`: every returned id names a chosen edge; with unique ids the choice is a branching whose cost is the returned cost; with no critical cycle the result is the critical edges and their cost sum |
| EdmondsBranching.BestIntoIsMax | src/algorithms/branching/edmonds.rs:45-52 | `critical_edge[v]`: the first eligible edge into v of maximum cost, or the initial entry when none is eligible; no eligible edge into v costs more |
| EdmondsBranching.BestIntoProper | src/algorithms/branching/edmonds.rs:45-52 | a critical edge is never a self-loop or of cost at most 0, and its tail and id are in range |
| EdmondsBranching.IdToNodeHeads | src/algorithms/branching/edmonds.rs:45-54 | `edge_id_to_node[id]` is set exactly for eligible edges, and then to the edge's head |
| EdmondsBranching.CriticalEdges | src/algorithms/branching/edmonds.rs:43-54 | the first loop fills `critical_edge` with the best edge into each node and `edge_id_to_node` with the eligible heads |
| EdmondsBranching.FindCycles | src/algorithms/branching/edmonds.rs:57-78 | the stamp walk numbers exactly the nodes on cycles of critical edges, one number per cycle, every node on a numbered cycle with the cycle's number |
| EdmondsBranching.CyclesExact | src/algorithms/branching/edmonds.rs:57-78 | a node gets a cycle number exactly when it lies on a critical cycle |
| EdmondsBranching.NoCycleFound | src/algorithms/branching/edmonds.rs:81 | no cycle is numbered exactly when no node lies on a critical cycle |
| EdmondsBranching.NoCycleBranching | src/algorithms/branching/edmonds.rs:80-88 | with no critical cycle the critical edges form a branching whose cost is the sum of the critical costs |
| EdmondsBranching.CriticalBound | src/algorithms/branching/edmonds.rs:42-54 | any choice of at most one eligible edge into each node costs at most the critical cost sum, so the acyclic answer is optimal |
| EdmondsBranching.NumberRest | src/algorithms/branching/edmonds.rs:90-95 | every node off a cycle gets its own fresh number above the cycle numbers, and every number below `num_scc` is used |
| EdmondsBranching.Numbered | src/algorithms/branching/edmonds.rs:57-95 | the numbering groups nodes into components: below the cycle count exactly the cycle nodes, above it one node each |
| EdmondsBranching.FewerComponents | src/algorithms/branching/edmonds.rs:139 | with at least one cycle there are fewer components than nodes, the fact the source asserts before recursing |
| EdmondsBranching.CountComponents | src/algorithms/branching/edmonds.rs:98-101 | `num_components[c]` counts the nodes numbered c |
| EdmondsBranching.CycleSizes | src/algorithms/branching/edmonds.rs:132 | a component has more than one node exactly when it is a cycle |
| EdmondsBranching.CheapestIsMin | src/algorithms/branching/edmonds.rs:106-115 | the cheapest critical edge inside a cycle, the first such, or none when the component has no cycle edge |
| EdmondsBranching.CycleCosts | src/algorithms/branching/edmonds.rs:103-121 | `mini_cost_in_cycle` and its id come from the cheapest cycle edge; `total_cost` is the cycle edges' cost sum less each cycle's cheapest |
| EdmondsBranching.Contract | src/algorithms/branching/edmonds.rs:124-137 | the contracted edge list keeps, in order, exactly the edges between different components, each mapped to its components, with edges into a cycle reweighted by `cost - critical(to) + cheapest(cycle)` |
| EdmondsBranching.ContractedProper | src/algorithms/branching/edmonds.rs:124-137 | contracted edges join components, are never self-loops and keep unique ids unique |
| EdmondsBranching.CanContract | src/algorithms/branching/edmonds.rs:98-121 | the counts and cheapest costs computed above are the ones contraction needs |
| EdmondsBranching.ContractCycles | src/algorithms/branching/edmonds.rs:90-137 | the whole contraction step: fewer components than nodes, the total cost as above, unique ids kept |
| EdmondsBranching.EntryMarks | src/algorithms/branching/edmonds.rs:142-149 | a node (or component) is marked exactly when some edge of the recursive branching enters it |
| EdmondsBranching.ExpandCycles | src/algorithms/branching/edmonds.rs:151-168 | expansion appends, in node order, exactly the cycle edges into nodes whose cycle is entered but they are not, or whose cycle is not entered and which are not the cycle's cheapest edge |
| EdmondsBranching.ExpandedPicks | src/algorithms/branching/edmonds.rs:140-168 | every id of the expanded result names an input edge: the recursive ones by their origin, the kept cycle ones by their critical edge |
| EdmondsBranching.ExpandedEdges | src/algorithms/branching/edmonds.rs:140-168 | the expanded choice lists the recursive branching's edges, lifted, followed by the kept cycle edges |
| EdmondsBranching.ExpandedRank | src/algorithms/branching/edmonds.rs:140-168 | a rank for the recursive branching lifts to one for the expansion, so the expansion has no cycle |
| EdmondsBranching.ExpandedCost | src/algorithms/branching/edmonds.rs:140-169 | the expansion's cost is the recursive branching's cost plus `total_cost`, the value `maximum_branching` returns |
| EdmondsBranching.Expand | src/algorithms/branching/edmonds.rs:140-169 | the expansion of a recursive branching is a branching of the original edges with that cost |
| EdmondsBranching.Edmonds.ContractAndExpand | src/algorithms/branching/edmonds.rs:90-169 | the cyclic case: contraction, the recursive call and expansion return a branching with its cost |
| EdmondsBranching.BranchingDistinct | src/algorithms/branching/edmonds.rs:140-169 | with unique ids and at most one chosen edge per head, the returned ids are distinct |
| EdmondsBranching.ChosenCostAppend | src/algorithms/branching/edmonds.rs:82 | adding one chosen edge adds its cost |
| ShortestPathInternalGraph.Weighted | src/algorithms/shortest_path/internal_graph.rs:89-95 | the edge list seen by the layout keeps every edge's endpoints and replaces its data by `weight_fn(i, edge)` for its own index `i` |
| ShortestPathInternalGraph.CountDegrees | src/algorithms/shortest_path/internal_graph.rs:38-41 | the degree array has one entry per node, and entry `x` is the number of edges whose tail is `x` |
| ShortestPathInternalGraph.Starts | src/algorithms/shortest_path/internal_graph.rs:43-45 | from the degrees, builds the `n + 1` offsets: `start[0] = 0` and each `start[x + 1]` is `start[x]` plus `x`'s out-degree |
| ShortestPathInternalGraph.PlaceEdges | src/algorithms/shortest_path/internal_graph.rs:47-54 | every edge `i` lands in slot `start[u] + counter[u]` of its tail `u`, with its head in `to` and its weight in `weight` |
| ShortestPathInternalGraph.PlacedOnto | src/algorithms/shortest_path/internal_graph.rs:47-54 | once every edge is placed, the slots are filled exactly once: each slot holds the edge recorded for it, and that edge's tail owns the slot's range |
| ShortestPathInternalGraph.LayoutHeads | src/algorithms/shortest_path/internal_graph.rs:50 | in a finished layout every slot's head is a node of the graph (no `INVALID_NODE_ID` is left in `to`) |
| ShortestPathInternalGraph.SlotOrder | src/algorithms/shortest_path/internal_graph.rs:50-53 | two edges with the same tail keep their input order inside that tail's range |
| ShortestPathInternalGraph.Build | src/algorithms/shortest_path/internal_graph.rs:37-55 | the three passes together produce the compressed layout of the edge list: offsets, heads and weights, with all heads in range |
| ShortestPathInternalGraph.InternalGraph.constructor | src/algorithms/shortest_path/internal_graph.rs:21-35 | the graph has `n` nodes and is the compressed layout of exactly the given edges with their own weights |
| ShortestPathInternalGraph.InternalGraph.NewGraphWith | src/algorithms/shortest_path/internal_graph.rs:57-97 | the graph is the compressed layout of the given edges, with each edge's weight taken from `weight_fn(edge_id, edge)` |
| ShortestPathInternalGraph.InternalGraph.StartSums | src/algorithms/shortest_path/internal_graph.rs:43-45 | the offsets start at 0, end at the edge count, and grow by each node's out-degree |
| ShortestPathInternalGraph.InternalGraph.EdgeSlot | src/algorithms/shortest_path/internal_graph.rs:47-54 | each input edge sits inside its tail's range with its own head and weight, and later edges of the same tail sit after it |
| ShortestPathInternalGraph.InternalGraph.RangeTail | src/algorithms/shortest_path/internal_graph.rs:101-103 | a slot lies in `x`'s range if and only if the edge stored there has tail `x` |
| ShortestPathInternalGraph.InternalGraph.ArcEnds | src/algorithms/shortest_path/internal_graph.rs:47-54 | every slot holds the head and the weight of the input edge recorded for it, and both ends are nodes of the graph |
| ShortestPathInternalGraph.InternalGraph.Neighbors | src/algorithms/shortest_path/internal_graph.rs:101-103 | `u`'s range has as many slots as `u` has out-edges, every slot in it is an edge out of `u`, and every edge out of `u` is in it |
| ShortestPathInternalGraph.InternalGraph.WalkExtend | src/algorithms/shortest_path/internal_graph.rs:101-103 | a walk ending at `v` followed by an arc out of `v` is a walk to that arc's head, whose weight grows by that arc's weight |
| ShortestPathInternalGraph.InternalGraph.WalkBound | src/algorithms/shortest_path/solvers/bellman_ford.rs:57-66 | when no arc out of a finite node can lower its head's distance, the distance of the end of any walk from `s` through finite nodes is at most `d[s]` plus the walk's weight |
| ShortestPathInternalGraph.InternalGraph.NoNegativeCycle | src/algorithms/shortest_path/solvers/bellman_ford.rs:68-77 | under the same relaxed distances, every closed walk through finite nodes has non-negative weight |
| ShortestPathInternalGraph.PathWeightAppend | src/algorithms/shortest_path/internal_graph.rs:101-103 | the weight of two walks joined is the sum of their weights |
| ShortestPathInternalGraph.BelowMaxPrefix | src/algorithms/shortest_path/solvers/bellman_ford.rs:53-55 | a prefix of a walk whose prefixes all weigh less than `W::max_value()` has the same property |
| ShortestPathInternalGraph.BelowMaxExtend | src/algorithms/shortest_path/solvers/bellman_ford.rs:60-64 | such a walk extended by an arc keeps the property while its weight stays below `W::max_value()` |
| ShortestPathInternalGraph.CutPrefix | src/algorithms/shortest_path/solvers/bellman_ford.rs:68-77 | removing a stretch of non-negative weight leaves every later prefix no heavier than the matching prefix of the original |
| ShortestPathInternalGraph.CutWeight | src/algorithms/shortest_path/solvers/bellman_ford.rs:68-77 | removing a stretch of non-negative weight does not make a walk heavier |
| ShortestPathInternalGraph.CutBelowMax | src/algorithms/shortest_path/solvers/bellman_ford.rs:68-77 | removing such a stretch keeps every prefix below `W::max_value()` |
| ShortestPathInternalGraph.InternalGraph.WalkSplit | src/algorithms/shortest_path/internal_graph.rs:101-103 | a walk splits after any number of arcs into two walks meeting at a node |
| ShortestPathInternalGraph.InternalGraph.WalkConcat | src/algorithms/shortest_path/internal_graph.rs:101-103 | two walks meeting at a node join into one |
| ShortestPathInternalGraph.InternalGraph.WalkMiddle | src/algorithms/shortest_path/internal_graph.rs:101-103 | any stretch of a walk is a walk between the nodes it starts and ends at |
| ShortestPathInternalGraph.InternalGraph.AtPrefix | src/algorithms/shortest_path/internal_graph.rs:101-103 | cutting a walk short does not change the nodes it visits before the cut |
| ShortestPathInternalGraph.InternalGraph.Repeat | src/algorithms/shortest_path/solvers/bellman_ford.rs:68-77 | a walk with at least `n` arcs visits some node twice |
| ShortestPathInternalGraph.InternalGraph.Cut | src/algorithms/shortest_path/solvers/bellman_ford.rs:68-77 | cutting a closed stretch of non-negative weight out of a bounded walk leaves a shorter bounded walk with the same ends and no more weight |
| ShortestPathInternalGraph.InternalGraph.Stretch | src/algorithms/shortest_path/solvers/bellman_ford.rs:68-77 | the stretch between two visits of one node is a closed walk there, reached by the part before it, all bounded |
| ShortestPathInternalGraph.InternalGraph.Shorten | src/algorithms/shortest_path/solvers/bellman_ford.rs:68-77 | without a negative loop from the source, every bounded walk has a bounded counterpart with the same ends, fewer than `n` arcs and no more weight |
| BellmanFord.Finite | src/algorithms/shortest_path/solvers/bellman_ford.rs:53-55 | marks exactly the nodes whose distance is below `W::max_value()`, the ones a round scans |
| BellmanFord.BellmanFord.constructor | src/algorithms/shortest_path/solvers/bellman_ford.rs:25-29 | the solver holds the layout of the given graph, `reached` is all false and every distance is `W::max_value()` |
| BellmanFord.BellmanFord.NewGraphWith | src/algorithms/shortest_path/solvers/bellman_ford.rs:30-41 | the same, with the weights taken from `weight_fn(edge)` |
| BellmanFord.BellmanFord.RelaxKeeps | src/algorithms/shortest_path/solvers/bellman_ford.rs:60-64 | one improving relaxation keeps the invariant: every finite distance is the weight of a recorded walk from the source through finite nodes, and a node other than the source is reached exactly when its distance is finite |
| BellmanFord.BellmanFord.RelaxArc | src/algorithms/shortest_path/solvers/bellman_ford.rs:57-65 | relaxing one arc either leaves everything unchanged with `d[to] <= d[u] + w`, or sets `d[to]` to `d[u] + w`, strictly lower; distances only decrease and the invariant holds |
| BellmanFord.BellmanFord.RelaxFrom | src/algorithms/shortest_path/solvers/bellman_ford.rs:52-66 | scanning `u`'s arcs reports an update exactly when some distance decreased; with no update nothing changed; either way every arc out of `u` ends no longer than `u`'s distance at the start of the scan plus its weight |
| BellmanFord.BellmanFord.Round | src/algorithms/shortest_path/solvers/bellman_ford.rs:50-70 | one round over all nodes keeps the invariant and only lowers distances; every arc out of a node finite at the start ends relaxed against that start distance; an update means some distance strictly decreased, no update means every arc out of a finite node is relaxed |
| BellmanFord.BellmanFord.Start | src/algorithms/shortest_path/solvers/bellman_ford.rs:45-47 | the initial state (all `max_value`, source 0, nothing reached) satisfies the invariant |
| BellmanFord.BellmanFord.SourceZero | src/algorithms/shortest_path/solvers/bellman_ford.rs:44-79 | once all arcs are relaxed, the source's distance is still 0 (no negative closed walk can have lowered it) |
| BellmanFord.BellmanFord.CoversRound | src/algorithms/shortest_path/solvers/bellman_ford.rs:50-70 | after a round, no bounded walk from the source with one arc more than before is lighter than its end's distance |
| BellmanFord.BellmanFord.CoversArc | src/algorithms/shortest_path/solvers/bellman_ford.rs:57-64 | the step of that: the last arc of such a walk was relaxed from a distance its first arcs already bound |
| BellmanFord.BellmanFord.NegativeLoopFound | src/algorithms/shortest_path/solvers/bellman_ford.rs:68-77 | after `n - 1` rounds, a round that still lowers a distance proves a negative loop reached from the source |
| BellmanFord.BellmanFord.ReachFinite | src/algorithms/shortest_path/solvers/bellman_ford.rs:53-66 | with all arcs out of finite nodes relaxed, a bounded walk from the source stays among finite nodes and bounds its end's distance by its weight |
| BellmanFord.BellmanFord.NoNegativeLoop | src/algorithms/shortest_path/solvers/bellman_ford.rs:68-77 | with all arcs out of finite nodes relaxed, no negative loop is reached from the source |
| BellmanFord.BellmanFord.Run | src/algorithms/shortest_path/solvers/bellman_ford.rs:44-79 | at most `n` rounds run; the result is `Err(NegativeCycle)` exactly when all `n` rounds updated, and exactly when a negative loop is reached from the source; on `Ok` every arc out of a finite node is relaxed and the source's distance is 0; every finite distance is the weight of a bounded walk from the source |
| Dijkstra.AnyNegative | src/algorithms/shortest_path/solvers/dijkstra.rs:35 | true exactly when some arc weight is negative |
| Dijkstra.Dijkstra.constructor | src/algorithms/shortest_path/solvers/dijkstra.rs:28-32 | the solver holds the compressed layout of the graph, `reached` is all false and every distance is `W::max_value()` |
| Dijkstra.Dijkstra.PopStale | src/algorithms/shortest_path/solvers/dijkstra.rs:46-49 | popping an entry of an already visited node keeps the search invariant |
| Dijkstra.Dijkstra.PopFresh | src/algorithms/shortest_path/solvers/dijkstra.rs:46-50 | popping the least entry of an unvisited node finds it at its current distance, and marking it visited keeps the invariant |
| Dijkstra.Dijkstra.RelaxArc | src/algorithms/shortest_path/solvers/dijkstra.rs:52-65 | one arc step skips a visited head, otherwise lowers the head's distance to `d + w` and pushes it when that is smaller; the invariant holds and one more arc of `u` is relaxed |
| Dijkstra.Dijkstra.HeapPush | src/algorithms/shortest_path/solvers/dijkstra.rs:64 | pushing `(new_dist, to)` keeps the heap invariant: every entry's key is at least its node's distance and at least the last popped key, and every unvisited pushed node has an entry keyed by its distance |
| Dijkstra.Dijkstra.Scan | src/algorithms/shortest_path/solvers/dijkstra.rs:52-66 | scanning all arcs of the node just visited keeps the invariant and only lowers distances |
| Dijkstra.Dijkstra.SearchStep | src/algorithms/shortest_path/solvers/dijkstra.rs:46-66 | one pop keeps the invariant, only lowers distances, never un-visits a node, and either visits a new node or shrinks the heap (the loop terminates) |
| Dijkstra.Dijkstra.Finish | src/algorithms/shortest_path/solvers/dijkstra.rs:46-68 | with the heap empty, the source is visited, every arc out of a visited node is relaxed, each visited node's distance is the weight of a walk inside the visited set, and when the other distances started at `max_value` a node is visited exactly when its distance is finite |
| Dijkstra.Dijkstra.Shortest | src/algorithms/shortest_path/solvers/dijkstra.rs:34-69 | for non-negative weights, the final distance of any node reachable by a walk from the source is at most that walk's weight (the distances are shortest) |
| Dijkstra.Dijkstra.Run | src/algorithms/shortest_path/solvers/dijkstra.rs:34-69 | `Err(BadInput)` exactly when some weight is negative, then nothing changes; on `Ok` the source has distance 0, no distance rises, all arcs out of visited nodes are relaxed, and visited nodes carry walk weights; `reached` is never changed |
| Csr.SlotInGroup | src/algorithms/shortest_path/internal_graph.rs:47-54 | the slot `start[u] + counter[u]` that edge `p` takes lies inside its tail's range `start[u]..start[u + 1]` |
| Csr.SlotInjective | src/algorithms/shortest_path/internal_graph.rs:47-54 | two different edges never take the same slot |
| Csr.SlotOnto | src/algorithms/shortest_path/internal_graph.rs:47-54 | when every tail is a node, every slot is taken by some edge (the `to` array has no slot left unwritten) |
| Csr.StartAll | src/algorithms/shortest_path/internal_graph.rs:43-45 | the last offset, `start[n]`, is the number of edges when every tail is below `n` |
| Csr.GroupOf | src/algorithms/shortest_path/internal_graph.rs:101-103 | every slot below `start[n]` lies in the range of some node `x < n` |
| BinaryHeapModel.Pop | src/algorithms/shortest_path/solvers/dijkstra.rs:46 | `heap.pop()` on the max-heap of `(Reverse(d), u)` returns an entry with the least distance (ties broken by the larger node id) and leaves the other entries |

## Left out

Integer width. These members use unbounded integers where the Rust code has fixed widths:

- BellmanFord.BellmanFord.Run: the negative loop it detects is one reached along walks whose every prefix weighs less than `W::max_value()`, the only walks along which distances capped at that value can spread.
- BellmanFord.BellmanFord.Run: does not model the wrap-around or overflow panic of `distances[u] + w` near `W::max_value()`. Sums are unbounded, so the result can differ from the Rust run on weights that large.
- Dijkstra.Dijkstra.Run: likewise does not model the overflow of `d + w`.
- ShortestPathInternalGraph.Max: `W::max_value()` is fixed to the 64-bit signed maximum, where the Rust code is generic in `W`.
- RadixHeap.NewStart: has no `K::max_value()` cap. With no next bucket, `distribute` uses `K::max_value()` as the end; the model uses `min_key + size_sum(i)` uncapped, which agrees whenever that sum does not exceed `K::max_value()`.
- RadixHeap.SizeSum: is the exact power of two. The shift `K::one() << (i - 1)` overflows for `i - 1` at or beyond the key width, which the model does not capture.
- EdmondsBranching.CycleCosts: replaces the `W::max_value()` sentinel of `mini_cost_in_cycle` with `Option`. A cycle whose every edge costs exactly `W::max_value()` therefore counts as having a minimum here, where the Rust code treats it as having none.
- Flow values, capacities, costs, excesses and potentials are unbounded everywhere else too; overflow of `F`, `W` and `usize` is not modelled.

Preconditions where the Rust code would panic, or where it proceeds on input the model excludes:

- RadixHeap.RadixHeap.Push: `requires key >= Floor()` stands for the panic "monotonicity was violated".
- RadixHeap.RadixHeap.Push: `requires` every stored key to be within `c` of the new key. This is the documented use of `new(c)`, which `push` never checks.
- NetworkSimplexPivotRules.BlockSearch.FindEnteringEdge: requires `blockSize > 0` and the cursor below the edge count when there are edges. After `clear()` with a zero block size, `count -= 1` would underflow `usize`, and a cursor past the end would index out of range.
- NetworkSimplexPivotRules.FirstEligibleArc.FindEnteringEdge: requires the cursor below the edge count, which the Rust code indexes with.
- NetworkSimplexSpanningTree.SpanningTreeStructure.constructor: its requires stand for `build`'s `assert!(upper >= 0 && cost >= 0)` over all edges. For an artificial edge that is stated directly. For a base edge it is `lower <= upper`, since the normalised upper bound is `upper - lower` and the normalised cost is never negative. The requires also cover the indexing of `initial_flows` and `fix_excesses`.
- HopcroftKarp.HopcroftKarp.Solve: requires every user-defined warm-start edge id to be below the edge count (the Rust code indexes and panics). `WarmStartMates` and `Prepare` have the same requirement.
- HopcroftKarp.HopcroftKarp.Solve: requires a warm start other than `KarpSipser`. `initial_solution_karp_sipser` (hopcroft_karp.rs:145-253) is not modelled, although `solve` can dispatch to it and the tests use it.
- HopcroftKarp.HopcroftKarp.WarmStartMates: also excludes `KarpSipser`, for the same reason.
- HopcroftKarp.HopcroftKarp.Solve: promises no maximum when a user-defined warm start names two edges that share a node. The Rust code does not check the user's edges, and on such a start the result can be smaller than the optimum. For example, take edges (x, v), (x, v') and (a, v) and the start {(x, v), (x, v')}: one edge is returned where two exist.
- HopcroftKarp.HopcroftKarp.Prepare: also excludes `KarpSipser`, for the same reason.
- FordFulkerson.FordFulkerson.Run: requires every capacity to be non-negative (`NonNegative(rn.upper)`). The Rust `run` never checks this. The proofs that each augmentation is positive and that the result is bounded need it.
- EdmondsKarp.EdmondsKarp.Run: requires the current residuals to be feasible (`Feasible`: every arc pair sums to its capacity, with both halves non-negative). This implies non-negative capacities, which the Rust code does not demand.
- SuccessiveShortestPath.SuccessiveShortestPath.Run: requires `Inv()`, meaning dual feasibility and every flow within its bounds. Only the constructor establishes it, and only when every base edge has `lower <= upper`. On other input the Rust code's `debug_assert` vanishes in a release build and the search may use negative residuals.
- SuccessiveShortestPath.SuccessiveShortestPath.Solve: requires `Inv()`, as `Run` does.
- SkewHeap.SkewHeap.Merge: requires both arguments to be roots of distinct heaps. `merge` accepts any node ids, and merging a heap with itself, or with an interior node, would tangle it; the model does not follow that case.
- Every other `requires` bounds an index that the Rust code would index with (and panic on) or names the well-formedness the constructors establish.

Results and operations:

- SuccessiveShortestPath.SuccessiveShortestPath.Flow: returns the plain flow value, as the residual network's `flow_original_graph` does, although `flow` is declared to return `Option<F>`. It requires the edge id to be in range.
- SuccessiveShortestPath.SuccessiveShortestPath.Potential: returns the plain potential, as `potential_original_graph` does, although `potential` is declared to return `Option<F>`. It requires the node id to be in range.
- EdmondsBranching.Edmonds.MaximumBranching: for every input, the branching is proved to have in-degree at most one and no cycle, and its cost is proved to be the sum of its edges' costs. Maximality among all branchings is proved only when the critical edges form no cycle (`CriticalBound`); with contraction, the result is not proved maximum.
- EdmondsBranching.Edmonds.Solve: for every input, the branching is proved to have in-degree at most one and no cycle, and its cost is proved to be the sum of its edges' costs. Maximality among all branchings is proved only when the critical edges form no cycle (`CriticalBound`); with contraction, the result is not proved maximum.
- EdmondsBranching.Edmonds.ContractAndExpand: the branching it builds in the cyclic case is proved to have in-degree at most one, no cycle, and a cost equal to the sum of its edges' costs. It is not proved maximum.
- The network simplex driver steps `update_flow_in_cycle` (spanning_tree_structure.rs:147-176), `re_rooting` (177-235), `shortest_path` (304-339) and `validate_num_successors` (357-380) are not modelled. They serve only the simplex solvers, which are not part of this model. `reduced_cost` and `satisfy_optimality_conditions` are modelled only as definitions, without a contract of their own.
- The `CandidateList` and `AlteringCandidateList` pivot rules are not modelled.
- NetworkSimplexPivotRules.BlockSearch.Initialize: takes the block size as an input. The Rust code derives it with an `f64` square root, which is not modelled. `WithParameter` likewise takes the computed size.
- The violation closure passed to `find_entering_edge` is modelled as the sequence of every edge's violation, computed beforehand.
- The `prev` array of `Dijkstra::run` is written but never read, so it is not modelled.
- Graph's `get_node_mut`, `get_left_node_mut`, `get_right_node_mut` and the edge and node iterators are modelled as direct access to the `nodes` and `edges` sequences.
- SimpleQueue.SimpleQueue.Pop: leaves the popped value in `data[head - 1]`, where `pop` overwrites that slot with a zeroed value. Slots below `head` are never read again, and the contract speaks only of the live part `data[head..]`.
- BinaryHeapModel.Pop: does not model the heap's storage order or its logarithmic cost. It is specified only by which entry comes out.
- Ownership, borrowing, `Box`/`Vec` reallocation, generic trait bounds and the `impl_*_solver!` macro glue are not modelled.
- Timing, benchmarks, file input and output, and the test fixtures are not modelled.
