# A* support layer of gonum's graph search, in Dafny

This project models `search/internals.go`, the support code that gonum's
graph search algorithms share:

- **`aStarPriorityQueue`** is the open set of A*. It is a binary min-heap
  on f-score (`nodes`) kept in step with a map from node ID to heap slot
  (`indexList`), so that a queued node can be found and re-scored without
  a scan. It is modelled as the class `AStarQueue.PriorityQueue`, with a
  `seq` field and a `map` field that its methods reassign. The Go
  standard library's `container/heap` drives the queue through `Less`
  and `Swap`; its sift routines are modelled as the textbook `Up`, `Down`,
  `HeapFix`, `Insert` (heap.Push) and `ExtractMin` (heap.Pop).
- **`rebuildPath`** walks a predecessor map back from the goal, strips
  `internalNode` wrappers, and reverses the collected slice in place with
  two indices. It is modelled as `Path.RebuildPath`, a method with the
  same two loops. It is proved equal to `ForwardPath`: the reverse of the
  backward walk, as a ghost function. The path's shape is then proved
  about `ForwardPath`.
- **`setupFuncs`** fixes, once per search, the neighbour accessors, the
  adjacency tests, the edge cost and the heuristic, according to what
  the graph can do.
  - The graph is a record of capabilities: neighbours and EdgeBetween
    always; optionally the directed accessors, an edge coster and a
    heuristic coster. The type switch becomes a match on that record.
  - The defaults `NullHeuristic` (always 0) and `UniformCost` (1 per edge,
    +Inf for no edge) are in `Costs`.
- **`edgeSorter` and `denseNodeSorter`** are slice sorters. Their `Less`
  compares edges by cost or nodes by ID, and their `Swap` exchanges two
  elements of an array in place.

Shared types are in `GraphTypes`:

- A float64 score is `Cost`, either `Finite(real)` or `Inf`. `CostLess`
  is Go's `<` on such values.
- A node is either `Basic(id)` or `Wrapped(InternalNode)`. The second
  stands for an `internalNode` passed where a `gr.Node` is expected. Its
  ID is the ID of the node it embeds.

The queue's invariant is `Valid()`: `indexList[nodes[k].ID()] == k` for
every slot, and `indexList` holds no other ID. Heap order on f-score is
`Ordered()`. What the queue holds is `Contents()`, a map from each queued
ID to its entry. The primitive operations (`Swap`, `Push`, `Pop`) promise
the exact new state, whether or not the invariant held, just as the Go
methods do. When the invariant held before, they also promise that it
still holds: `Swap` keeps the contents, `Push` adds exactly the new entry
(only when its ID is new), and `Pop` removes exactly the returned entry.
`Fix`, `Insert` and `ExtractMin` keep both the invariant and heap order.

## Model

| member | source | states |
|---|---|---|
| GraphTypes.CostLessIsStrictTotal | search/internals.go:124-128 | `<` on costs (finite reals and +Inf) is irreflexive and transitive, with incomparability only between equal costs |
| GraphTypes.Unwrap | search/internals.go:196-204 | unwrapping an `internalNode` yields the node it embeds, and so keeps the node's ID; a plain node is returned unchanged |
| Costs.NullHeuristic | search/internals.go:83-85 | the default heuristic estimates 0 for every pair of nodes |
| Costs.NullHeuristicAdmissible | search/internals.go:83-85 | the zero estimate never exceeds a non-negative or infinite distance |
| Costs.UniformCost | search/internals.go:87-93 | the default cost is +Inf exactly when there is no edge, and 1 for every edge |
| Costs.UniformCostAbsentIsWorst | search/internals.go:87-93 | any present edge is cheaper than none, and no edge is never cheaper than any cost |
| Adapter.GenIsSuccessor | search/internals.go:18-22 | the test holds exactly when EdgeTo from the node to the candidate successor is non-nil |
| Adapter.GenIsPredecessor | search/internals.go:24-28 | the test holds exactly when EdgeTo from the candidate predecessor to the node is non-nil |
| Adapter.GenIsNeighbor | search/internals.go:30-34 | the test holds exactly when EdgeBetween, asked with the arguments swapped, is non-nil |
| Adapter.SetupFuncs | search/internals.go:39-81 | a directed graph keeps successors, predecessors and EdgeTo-based tests; any other graph has all three accessors equal to Neighbors and all three tests equal to EdgeBetween with swapped arguments; heuristic and cost each resolve to the override, else the graph's own, else the default (0; +Inf for no edge and 1 per edge) |
| Adapter.SuccessorIsConversePredecessor | search/internals.go:18-28 | in a directed graph, b is a successor of a iff a is a predecessor of b; otherwise both tests agree |
| Orderings.EdgeLess | search/internals.go:103-105 | no edge slot is before itself, and a slot before another never has the greater cost |
| Orderings.SwapEdges | search/internals.go:107-109 | the two slots are exchanged, nothing else changes, and the multiset of edges is the same |
| Orderings.EdgeOrderIsStrictWeak | search/internals.go:103-105 | ordering edges by cost is a strict weak order |
| Orderings.NodeLess | search/internals.go:180-182 | no node slot is before itself, and a slot before another has the smaller ID |
| Orderings.SwapNodes | search/internals.go:184-186 | the two slots are exchanged, nothing else changes, and the multiset of nodes is the same |
| Orderings.NodeOrderIsStrictWeak | search/internals.go:180-182 | ordering nodes by ID is a strict weak order, total on IDs |
| AStarQueue.QueueOrderIsStrictWeak | search/internals.go:124-128 | ordering entries by f-score is a strict weak order; equal f-scores are unordered |
| AStarQueue.PriorityQueue.Less | search/internals.go:124-128 | no slot is before itself, and a slot before another never has the greater f-score |
| AStarQueue.PriorityQueue.Len | search/internals.go:137-139 | the length is the number of queued IDs |
| AStarQueue.PriorityQueue.Swap | search/internals.go:130-135 | the two slots are exchanged and both moved IDs point at their new slots; nothing else changes; the index invariant and the contents are kept |
| AStarQueue.SwapKeepsIndex | search/internals.go:130-135 | swapping slots and repointing both IDs keeps the index invariant and the queued entries |
| AStarQueue.PriorityQueue.Push | search/internals.go:141-145 | the entry is appended, its ID points at the last slot, earlier slots are untouched; a new ID keeps the invariant and is added to the contents |
| AStarQueue.PushKeepsIndex | search/internals.go:141-145 | appending an entry with a new ID and indexing it at the end keeps the invariant and adds exactly that entry |
| AStarQueue.DuplicatePushBreaksIndex | search/internals.go:141-145 | pushing an ID that is already queued breaks the index invariant |
| AStarQueue.PriorityQueue.Pop | search/internals.go:147-153 | the last entry is returned, the slice shrinks by one, only its ID leaves the index, and only that entry leaves the contents |
| AStarQueue.PopKeepsIndex | search/internals.go:147-153 | dropping the last slot and its ID keeps the invariant and removes exactly that entry |
| AStarQueue.IndexSize | search/internals.go:119-122 | under the invariant there are as many queued IDs as heap slots |
| AStarQueue.PriorityQueue.Fix | search/internals.go:155-161 | an absent ID changes nothing; a present ID gets the new g- and f-score and every other entry is unchanged; the invariant and heap order hold afterwards |
| AStarQueue.RescoreKeepsIndex | search/internals.go:155-158 | re-scoring one slot keeps the invariant and changes only that entry |
| AStarQueue.RescoreHole | search/internals.go:155-160 | re-scoring one slot of a heap breaks heap order only at that slot |
| AStarQueue.PriorityQueue.HeapFix | search/internals.go:159 | sifting down, or else up, restores heap order without changing the contents |
| AStarQueue.PriorityQueue.Up | search/internals.go:159 | sifting an out-of-place slot towards the root restores heap order without changing the contents |
| AStarQueue.PriorityQueue.Down | search/internals.go:159 | when it moves, sifting towards the leaves restores heap order on the first n slots; when it reports no move, nothing changed and only the edge above i0 may still be out of order; later slots are left alone |
| AStarQueue.UpStep | search/internals.go:124-135 | swapping a slot below its parent moves the heap-order hole up to the parent |
| AStarQueue.DownStep | search/internals.go:124-135 | swapping a slot with its smaller child, when that child is below it, moves the hole down to the child |
| AStarQueue.DownStop | search/internals.go:124-128 | a slot not above either child closes the hole |
| AStarQueue.RootIsMin | search/internals.go:124-128 | in a heap, no entry has an f-score below that of slot 0 |
| AStarQueue.PriorityQueue.Insert | search/internals.go:141-145 | queueing a new ID adds exactly that entry and keeps the invariant and heap order |
| AStarQueue.PriorityQueue.ExtractMin | search/internals.go:147-153 | removes and returns a queued entry of least f-score, and keeps the invariant and heap order |
| AStarQueue.PriorityQueue.Find | search/internals.go:163-171 | an entry is found exactly when the ID exists, that is, when it is queued; the found entry is the one queued under that ID and is in the heap; when not found no slot holds the ID |
| AStarQueue.PriorityQueue.Exists | search/internals.go:173-176 | under the invariant, true exactly when some heap slot holds the ID, that is, when the ID is queued |
| Path.RebuildPath | search/internals.go:195-215 | the result is the reverse of the backward walk from the unwrapped goal |
| Path.ForwardPathEnds | search/internals.go:195-215 | the path ends at the unwrapped goal and starts at a node without a predecessor; a goal without a predecessor gives exactly `[goal]` |
| Path.ForwardPathSteps | search/internals.go:200-206 | each node on the path is the unwrapped predecessor of the node after it |
| Path.WalkShape | search/internals.go:199-206 | the backward walk starts at the node it is given and stops at a node without a predecessor |
| Path.WalkLinked | search/internals.go:200-206 | each step of the backward walk goes from a node to its unwrapped predecessor |
| Path.LinkedIsWalk | search/internals.go:200-206 | any chain of unwrapped predecessors that stops at a node without one is the backward walk |
| Path.ReverseAt | search/internals.go:209-212 | the reverse holds the i-th element from the end at position i |
| Path.ReversedPointwise | search/internals.go:209-212 | a sequence holding another back to front is its reverse |
| Path.ForwardPathExample | search/internals.go:195-215 | with predecessors 3 to 2 and 2 to a wrapped 1, the path to 3 is 1, 2, 3 |

## Left out

- IEEE float64 scores. A cost is a real number or +Inf. NaN and -Inf do not occur, and rounding is not modelled.
- The gonum graph interfaces and `concrete.WeightedEdge`. A graph is a record of functions: neighbours and EdgeBetween, plus an optional directed part, an optional coster and an optional heuristic coster. An edge is just its two end nodes. A weighted edge is an edge with a cost.
- The Go type switch and type assertions. They become the `directed`, `coster` and `heuristicCoster` options and the `Basic`/`Wrapped` node constructors.
- `edgeSorter.Len` and `denseNodeSorter.Len`. They are the array's `Length`.
- Go's `container/heap`. `Up`, `Down`, `HeapFix`, `Insert` and `ExtractMin` follow its algorithm but are not its code. Go's check of `down` against integer overflow has no counterpart with unbounded integers.
- Go's `up` computes the parent of slot 0 as 0 and stops when a slot is its own parent. `Up` stops at slot 0 instead, which has the same effect.
- AStarQueue.PriorityQueue.Find: returns `Option` rather than Go's pair of a zero `internalNode` and `false`.
- AStarQueue.PriorityQueue.Push: like the Go method, it does not check for an ID already queued. The invariant is promised only for a new ID; `DuplicatePushBreaksIndex` shows what happens otherwise.
- AStarQueue.PriorityQueue.Fix: requires the invariant and heap order. These are what `container/heap` assumes of its caller.
- Path.RebuildPath: requires the whole predecessor map to be acyclic, witnessed by a ghost ranking of IDs; the search algorithms that call it only build such maps. The Go loop also terminates when a cycle exists only off the goal's chain of predecessors (for example, predecessors 1 to 2, 2 to 1 and 5 to 4 with goal 5 give 4, 5); that case is not modelled. On a cycle reachable from the goal the Go loop does not terminate.
- The order among entries with equal f-scores. The source leaves it open, and the model promises nothing about it.
- A nil `indexList` map. Writing to it makes `Swap` and `Push` panic in Go, while the reads in `Find`, `Exists` and `Fix` and the `delete` in `Pop` work on it. The model's constructor always starts with an empty map.
- Go's run-time panics on an index out of range in `Less` and `Swap`, and on `Pop` of an empty queue. The model makes these preconditions of `AStarQueue.PriorityQueue.Less`, `Swap`, `Pop` and `ExtractMin` (and of the sorters' `EdgeLess`, `SwapEdges`, `NodeLess` and `SwapNodes`), so the panicking calls are not modelled.
