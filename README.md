# Ford–Fulkerson maximum flow by depth-first search (Meshkov_Maxim/Lab3)

This project models the solver in `Meshkov_Maxim/Lab3/main.cpp`. The
solver reads a directed graph whose vertices are one-character labels and
whose edges have integer capacities. It adds a reverse edge for every edge,
which turns the graph into a residual graph. It then repeats three steps
until the search fails:

- search depth-first from the source for a path to the target, over edges
  with residual capacity left;
- take the smallest capacity on that path;
- push that much flow along the path.

The result is the total flow pushed.

The model is imperative, as the original is:

- `class Network` holds the graph. Its fields are:
  - the vertex labels;
  - every vertex's edge set, kept in `EdgePtrComparator` order;
  - an arena holding every `Edge` record;
  - the label-ordered vertex set;
  - the source and the target;
  - the `inPath` flags, as an `array<bool>`.

  The labels, the vertex set, the source, the target and the `inPath`
  array are `const`: nothing reassigns them after construction. The edge
  sets and the arena are `var` fields, which the methods update.
- Each C++ function is a method of the class: `findPath`, `changeFlow`,
  `addReverseEdges` and `findMaxFlow` update those fields, and
  `findMinCapacity` only reads the arena.
- Each method is proved against specification functions and predicates:
  - `Augment` is what `changeFlow` does to the arena;
  - `AugmentingFrom` is a search path, one findPath's exploration can reach; `DfsPath` is the one findPath returns;
  - `ResidualInvariant` is the balance between an edge and its reverse;
  - `NetFlowOut` and `FlowBound` are per-vertex sums over the arena.
- Facts about those functions are proved as lemmas. Examples are the
  effect of a push on every edge, conservation of flow, and the
  equivalence between the search's paths and simple paths.

`readGraph` (without its input parsing) is the module-level method
`Input.ReadGraph`. It takes the source and target labels and the parsed
input lines, and returns the new `Network`. It returns `None` when
`vertices.at` would throw.

The files are:

- `edge_order.dfy` (module `EdgeOrder`): the comparator.
- `graph.dfy` (module `Graph`): the edge record, ordered edge sets,
  well-formedness, pairing of edges, and the vertex set.
- `flow_update.dfy` (module `FlowUpdate`): pushing flow, and the sums.
- `paths.dfy` (module `Paths`): search paths and what the search promises.
- `max_flow.dfy` (module `MaxFlow`): the `Network` class and the solver.
- `input.dfy` (module `Input`): construction of the graph.

An edge's identity is its index in the arena, which is its order of
allocation. It stands for the pointer address that `EdgePtrComparator`
compares last, assuming `new` hands out increasing addresses (see Left out).

## Model

| member | source | states |
|---|---|---|
| EdgeOrder.Before | Meshkov_Maxim/Lab3/main.cpp:25-31 | `EdgePtrComparator::operator()`: compare the source labels, then the target labels, then the identities |
| EdgeOrder.BeforeIrreflexive | Meshkov_Maxim/Lab3/main.cpp:25-31 | no edge key precedes itself |
| EdgeOrder.BeforeAsymmetric | Meshkov_Maxim/Lab3/main.cpp:25-31 | the comparator never orders two keys both ways |
| EdgeOrder.BeforeTransitive | Meshkov_Maxim/Lab3/main.cpp:25-31 | the comparator is transitive |
| EdgeOrder.BeforeTotal | Meshkov_Maxim/Lab3/main.cpp:25-31 | any two keys are ordered one way or are equal, so edges with equal labels but different identities are both kept in a set |
| EdgeOrder.SameSourceOrder | Meshkov_Maxim/Lab3/main.cpp:25-31 | within one vertex's edge set, edges are ordered by target label, then by identity |
| Graph.InsertEdge | Meshkov_Maxim/Lab3/main.cpp:20-24 | `std::set::insert` into an ordered edge set: the result is ordered, holds exactly the old elements plus the new one, and is unchanged if the element was present |
| Graph.SortedCons | Meshkov_Maxim/Lab3/main.cpp:25-31 | an edge that precedes every element of an ordered set can be put in front |
| Graph.InsertVertex | Meshkov_Maxim/Lab3/main.cpp:33-41 | insertion into the label-ordered vertex set keeps labels strictly increasing and adds exactly the new vertex |
| Graph.SortedEdgesStable | Meshkov_Maxim/Lab3/main.cpp:25-31 | an ordered edge set stays ordered when vertices or edges are added, or when flows change |
| Graph.AddVertexWellFormed | Meshkov_Maxim/Lab3/main.cpp:181-186 | a vertex with a new label and an empty edge set keeps labels unique and the graph well formed |
| Graph.AddEdgeWellFormed | Meshkov_Maxim/Lab3/main.cpp:188-192 | an edge appended to the arena and inserted into its source's edge set keeps every edge set ordered and exact |
| Graph.ReverseEdge | Meshkov_Maxim/Lab3/main.cpp:95-99 | the reverse edge created for an edge: swapped endpoints, capacity 0, flow 0, marked as a reverse edge, pointing back at its partner |
| Graph.WithReverse | Meshkov_Maxim/Lab3/main.cpp:95-101 | the arena once that reverse edge is allocated and the forward edge points at it |
| Graph.WithReversePaired | Meshkov_Maxim/Lab3/main.cpp:95-101 | linking a new reverse edge to an unpaired forward edge pairs the two both ways, with swapped endpoints, and leaves every existing pair intact |
| FlowUpdate.CanAugment | Meshkov_Maxim/Lab3/main.cpp:77-80 | the assertions of changeFlow: every path edge has a partner and, when its turn comes, at least the amount as capacity |
| FlowUpdate.Push | Meshkov_Maxim/Lab3/main.cpp:79-84 | one push changes only capacities and flows |
| FlowUpdate.Augment | Meshkov_Maxim/Lab3/main.cpp:76-86 | changeFlow changes only capacities and flows: endpoints, kind and partner stay, and so does every edge's capacity plus flow |
| FlowUpdate.ShapeTrans | Meshkov_Maxim/Lab3/main.cpp:76-86 | two rounds of flow changes compose into one |
| FlowUpdate.ShapeKeepsWellFormed | Meshkov_Maxim/Lab3/main.cpp:76-86 | changing flows keeps every edge set ordered and in place |
| FlowUpdate.ShapeKeepsPairing | Meshkov_Maxim/Lab3/main.cpp:76-86 | changing flows keeps every reverse-edge pair |
| FlowUpdate.PushBalanced | Meshkov_Maxim/Lab3/main.cpp:79-84 | pushing at most an edge's residual capacity keeps every pair balanced: 0 <= flow, flow equals the reverse's capacity, and the reverse's flow is its negation |
| FlowUpdate.AugmentBalanced | Meshkov_Maxim/Lab3/main.cpp:76-86 | changeFlow with a non-negative amount keeps the residual invariant |
| FlowUpdate.PushPairSums | Meshkov_Maxim/Lab3/main.cpp:79-84 | one push keeps every pair's total capacity and total flow |
| FlowUpdate.AugmentPairSums | Meshkov_Maxim/Lab3/main.cpp:76-86 | for every pair, cap + rev.cap and flow + rev.flow survive changeFlow |
| FlowUpdate.DisjointCanAugment | Meshkov_Maxim/Lab3/main.cpp:77-80 | on a path with distinct edges that are never each other's reverse, the assertion at line 80 holds in every iteration when every capacity is at least the amount beforehand |
| FlowUpdate.AugmentEffect | Meshkov_Maxim/Lab3/main.cpp:78-85 | on such a path, each path edge loses the amount from its capacity and gains it as flow, its reverse does the opposite, and every other edge is unchanged |
| FlowUpdate.TotalUpdate | Meshkov_Maxim/Lab3/main.cpp:79-84 | helper of PushNetFlow: replacing one edge changes a per-vertex sum by the difference of that edge's weights |
| FlowUpdate.TotalAtMost | Meshkov_Maxim/Lab3/main.cpp:79-84 | helper of NetFlowWithinBound: a sum of smaller weights is smaller |
| FlowUpdate.TotalSame | Meshkov_Maxim/Lab3/main.cpp:79-84 | helper of PushNetFlow and NetFlowWithinBound: equal weights give equal sums |
| FlowUpdate.PushNetFlow | Meshkov_Maxim/Lab3/main.cpp:79-84 | a push moves the amount of net flow out of the edge's source and into its target |
| FlowUpdate.ShapeKeepsBound | Meshkov_Maxim/Lab3/main.cpp:76-86 | changing flows leaves the capacity bound at every vertex as it is |
| FlowUpdate.NetFlowWithinBound | Meshkov_Maxim/Lab3/main.cpp:80 | while pairs are balanced, no vertex sends out more than the capacity of its original outgoing edges |
| FlowUpdate.NoFlowBalanced | Meshkov_Maxim/Lab3/main.cpp:9-16 | edges created with flow 0 leave every vertex balanced |
| Paths.AugmentingFrom | Meshkov_Maxim/Lab3/main.cpp:48-59 | the paths the search explores: an edge of the vertex with positive capacity into an unmarked vertex, which is the target or, once marked, starts such a path again |
| Paths.DfsPath | Meshkov_Maxim/Lab3/main.cpp:48-59 | the path the search returns: at every vertex, the first edge is the last edge of the set from which a search path reaches the target, because the scan runs backwards |
| Paths.TargetUnmarked | Meshkov_Maxim/Lab3/main.cpp:50-52 | a search path only exists while the target is not on the current path |
| Paths.DfsPathUnique | Meshkov_Maxim/Lab3/main.cpp:48-59 | the search is deterministic: for a given graph and set of flags, there is at most one path it returns |
| Paths.NoAugmentingPath | Meshkov_Maxim/Lab3/main.cpp:145 | the condition on which findMaxFlow's loop stops: no simple path from the source to the target over edges with capacity left |
| Paths.SimpleTail | Meshkov_Maxim/Lab3/main.cpp:50-55 | the rest of a simple path, after its first edge, is a simple path from that edge's target with the target marked |
| Paths.SimpleCons | Meshkov_Maxim/Lab3/main.cpp:50-55 | an edge into an unmarked vertex followed by a simple path from there is a simple path |
| Paths.AugmentingIsSimple | Meshkov_Maxim/Lab3/main.cpp:48-59 | every search path is non-empty, starts at the source, ends at the target, chains edge to edge, has positive capacities and visits no vertex twice |
| Paths.AugmentingInBounds | Meshkov_Maxim/Lab3/main.cpp:48-59 | the edges of a search path are edges of the graph |
| Paths.SimpleIsAugmenting | Meshkov_Maxim/Lab3/main.cpp:48-59 | every such simple path is a search path (the converse of AugmentingIsSimple) |
| Paths.ConsAugmenting | Meshkov_Maxim/Lab3/main.cpp:50-57 | an edge into an unmarked vertex other than the target, followed by a search path from that vertex, is a search path |
| Paths.VisitsOnce | Meshkov_Maxim/Lab3/main.cpp:46-54 | a simple path from a marked vertex visits each vertex at most once |
| Paths.SimpleIsDisjoint | Meshkov_Maxim/Lab3/main.cpp:46-54 | such a path has distinct edges, none the reverse of another |
| Paths.AugmentNetFlow | Meshkov_Maxim/Lab3/main.cpp:76-86 | pushing along a path from s to t moves the amount of net flow out of s and into t, and leaves every other vertex as it was |
| Paths.MarkShrinks | Meshkov_Maxim/Lab3/main.cpp:54-55 | marking an unmarked vertex lowers the number of unmarked vertices by one, so the recursion ends |
| Paths.InPrefixBefore | Meshkov_Maxim/Lab3/main.cpp:48 | helper of ScanPicksLast: in an ordered set, an element of a prefix is the prefix's last element or comes before it |
| Paths.FirstEdgeInAll | Meshkov_Maxim/Lab3/main.cpp:48 | every search path from a vertex leaves it by an edge of its edge set |
| Paths.DeadEdge | Meshkov_Maxim/Lab3/main.cpp:50-61 | an edge into a marked vertex, without capacity, or into a vertex from which no search path continues, starts no search path |
| Paths.SkipEdge | Meshkov_Maxim/Lab3/main.cpp:48-62 | passing over such an edge in the backward scan leaves the first edge of every search path among the edges not yet scanned |
| Paths.ScanPicksLast | Meshkov_Maxim/Lab3/main.cpp:48 | the edge the backward scan is at comes, in set order, at or after the first edge of every search path still possible |
| Paths.FoundHere | Meshkov_Maxim/Lab3/main.cpp:51-53 | an edge straight to the target completes the path, and it is the last edge of the set from which a search path reaches the target |
| Paths.FoundDeeper | Meshkov_Maxim/Lab3/main.cpp:55-59 | a successful deeper search from this edge's target gives the path the search returns from this vertex, starting with this edge |
| Paths.NotFound | Meshkov_Maxim/Lab3/main.cpp:64-65 | a scan that ends without success leaves the path as given, and there is no search path |
| Paths.NoSimplePath | Meshkov_Maxim/Lab3/main.cpp:64-65 | no search path means no simple path at all |
| MaxFlow.StartOf | Meshkov_Maxim/Lab3/main.cpp:44-47 | the path the search extends: empty for a top-level search, the caller's path otherwise |
| MaxFlow.NewReverseLast | Meshkov_Maxim/Lab3/main.cpp:89-102 | the reverse edge created next comes after all earlier ones in the order of their partners: vertices by label, then edges in set order |
| MaxFlow.ScanStart | Meshkov_Maxim/Lab3/main.cpp:89-90 | at each vertex the inner loop starts with that vertex's edge set, which holds all of its original edges |
| MaxFlow.SkipStep | Meshkov_Maxim/Lab3/main.cpp:91-93 | an edge that already has a partner is passed over and the invariant holds for the next edge |
| MaxFlow.LinkProgress | Meshkov_Maxim/Lab3/main.cpp:95-101 | linking a reverse edge keeps the old edges and marks one more edge as done |
| MaxFlow.LinkStep | Meshkov_Maxim/Lab3/main.cpp:95-102 | one reverse edge created, linked and inserted into its source's set keeps the inner-loop invariant for the next edge |
| MaxFlow.ScanEnd | Meshkov_Maxim/Lab3/main.cpp:90-104 | once a vertex's whole edge set is done, so is the vertex |
| MaxFlow.AllDone | Meshkov_Maxim/Lab3/main.cpp:89-105 | after the last vertex every edge has a partner |
| MaxFlow.ResidualStart | Meshkov_Maxim/Lab3/main.cpp:88-105 | after addReverseEdges on the graph as read, every pair is balanced, no edge has flow, and exactly the created edges are reverse edges |
| MaxFlow.CanPush | Meshkov_Maxim/Lab3/main.cpp:149-152 | the path findPath returned, with its smallest capacity, passes every assertion of changeFlow, and that capacity is positive |
| MaxFlow.AugmentStep | Meshkov_Maxim/Lab3/main.cpp:149-160 | one loop iteration keeps the pairs balanced and the edges' shape, and adds the amount pushed to the net flow out of the source and into the target |
| MaxFlow.Pushed | Meshkov_Maxim/Lab3/main.cpp:149-159 | one augmentation: the path is the one the search from the source returns, the amount is its smallest capacity, and the new arena is the old one with that amount pushed along the path |
| MaxFlow.PushedUnique | Meshkov_Maxim/Lab3/main.cpp:145-159 | one augmentation is determined by the arena it starts from: the same path, the same amount and the same new arena |
| MaxFlow.Run | Meshkov_Maxim/Lab3/main.cpp:145-163 | a trace of the loop: each pass takes one arena to the next by pushing an amount along a path, as one augmentation does |
| MaxFlow.RunAt | Meshkov_Maxim/Lab3/main.cpp:145-163 | every pass of a trace is one augmentation |
| MaxFlow.Sum | Meshkov_Maxim/Lab3/main.cpp:141-161 | maxFlow starts at 0 and grows by each pass's amount |
| MaxFlow.RunFrom | Meshkov_Maxim/Lab3/main.cpp:141-163 | the trace starts at the residual graph, ends at the current arena, and its amounts add up to the current maxFlow |
| MaxFlow.RunExtend | Meshkov_Maxim/Lab3/main.cpp:145-161 | one more augmentation extends the trace: the new arena is its last, and its amount is added to the total |
| MaxFlow.RunsAgree | Meshkov_Maxim/Lab3/main.cpp:145-163 | two traces from the same arena agree on their first k passes: the same arenas, paths and amounts |
| MaxFlow.PassNeedsPath | Meshkov_Maxim/Lab3/main.cpp:145 | the arena a pass starts from still has an augmenting path, so the loop could not have stopped there |
| MaxFlow.RunUnique | Meshkov_Maxim/Lab3/main.cpp:145-163 | two traces from the same arena that both stop with no augmenting path left are the same trace |
| MaxFlow.Ran | Meshkov_Maxim/Lab3/main.cpp:141-163 | some trace of the loop takes the residual graph to the arena and pushes the total in all |
| MaxFlow.RanUnique | Meshkov_Maxim/Lab3/main.cpp:141-165 | the arena and the value findMaxFlow ends with are determined by the residual graph it starts from |
| MaxFlow.ReversesAdded | Meshkov_Maxim/Lab3/main.cpp:88-105 | the residual graph as addReverseEdges's contract describes it: old edges kept, reverses added in order, every edge paired |
| MaxFlow.PartnersAdded | Meshkov_Maxim/Lab3/main.cpp:95-102 | each edge added past the end of the graph as read is the reverse edge of an unpaired edge, and those edges come in set order |
| MaxFlow.PartnersOfOld | Meshkov_Maxim/Lab3/main.cpp:95-101 | each unpaired edge of the graph as read points at the added edge that is its reverse |
| MaxFlow.PartnersListed | Meshkov_Maxim/Lab3/main.cpp:88-105 | the partners of the added edges are exactly the unpaired edges of the graph as read, each once, in set order |
| MaxFlow.SortedUnique | Meshkov_Maxim/Lab3/main.cpp:25-31 | two lists of edges, each strictly ordered by the edge order, with the same elements are the same list |
| MaxFlow.SortedDistinct | Meshkov_Maxim/Lab3/main.cpp:25-31 | an edge appears at most once in a list strictly ordered by the edge order |
| MaxFlow.AddedAgree | Meshkov_Maxim/Lab3/main.cpp:95-102 | two residual graphs whose added edges reverse the same list of partners agree on those edges |
| MaxFlow.OldAgree | Meshkov_Maxim/Lab3/main.cpp:95-101 | two residual graphs that keep the edges as read and list the same partners give every edge as read the same partner |
| MaxFlow.ReversesAddedUnique | Meshkov_Maxim/Lab3/main.cpp:88-105 | addReverseEdges has one possible result: two residual graphs that both meet its contract for the same graph are equal |
| MaxFlow.MaxFlowDetermined | Meshkov_Maxim/Lab3/main.cpp:136-166 | two final arenas that both meet findMaxFlow's contract for the same graph as read are equal, with the same value |
| MaxFlow.FlowEnd | Meshkov_Maxim/Lab3/main.cpp:136-166 | at the end, every edge that was read keeps its endpoints and its kind, and its capacity plus flow is the capacity it was read with |
| MaxFlow.Network.constructor | Meshkov_Maxim/Lab3/main.cpp:195-203 | the graph as assembled, with every inPath flag false; from a well-formed graph with both endpoints among its vertices, the class invariant holds |
| MaxFlow.Network.FindMinCapacity | Meshkov_Maxim/Lab3/main.cpp:68-74 | on a non-empty path, the result is at most every edge's capacity and equals one of them |
| MaxFlow.Network.ChangeFlow | Meshkov_Maxim/Lab3/main.cpp:76-86 | with a non-negative amount and every capacity enough when its turn comes, the arena becomes `Augment` of the old arena, and the graph stays well formed |
| MaxFlow.Network.FindPath | Meshkov_Maxim/Lab3/main.cpp:43-66 | The search changes only the flag of its start vertex. That flag stays set exactly when the target was reached by the start vertex's own edge (the early return at line 53). On success the path is extended by the path the depth-first search returns: at every vertex on it, the edge taken is the last edge of that vertex's set from which a search path reaches the target, so the result is determined (see DfsPathUnique). On failure the path is as given and no search path exists. |
| MaxFlow.Network.AddReverseEdges | Meshkov_Maxim/Lab3/main.cpp:88-105 | Afterwards every edge has a partner that points back, with swapped endpoints and the other kind. Old edges keep their capacity, flow and endpoints. Each new edge has capacity 0 and flow 0, is in its source's set, and the new edges are created in label order and set order. |
| MaxFlow.Network.FindMaxFlow | Meshkov_Maxim/Lab3/main.cpp:136-166 | The result is at least 0 and is the net flow out of the source. It is at most the capacity leaving the source. Flow is conserved at every vertex other than the source and the target, and the target receives the result. Pairs stay balanced, original edges keep capacity plus flow, no augmenting path is left, and all flags are clear. The final arena is the end of a trace of augmentations (`Ran`) from the residual graph that addReverseEdges built. Each pass pushes, along the path the search returns, that path's smallest capacity, and the result is the sum of those amounts. MaxFlowDetermined makes the final arena, and so every edge's flow, and the result determined by the graph as read. |
| MaxFlow.Network.AugmentAll | Meshkov_Maxim/Lab3/main.cpp:141-163 | The loop, started from the residual graph with no flow, keeps the invariant and ends with no augmenting path and every flag clear. Its ghost trace records every pass: the arena it starts from, the path the search returns, and that path's smallest capacity. The result is the sum of the amounts, and the final arena is the trace's last (`Ran`). |
| MaxFlow.Network.AugmentOnce | Meshkov_Maxim/Lab3/main.cpp:143-160 | One pass of the loop. When a path is found: it is the path the search returns, the amount is its smallest capacity and positive, the new arena is the old one with that amount pushed along that path, and the invariant holds with that much more flow. Otherwise nothing changes, no augmenting path exists and all flags are clear. |
| MaxFlow.Network.PushAlong | Meshkov_Maxim/Lab3/main.cpp:149-159 | on the path the search returned, the amount is its smallest capacity and positive, the new arena is the old one with that amount pushed along the path, and the invariant holds with that much more flow |
| MaxFlow.Network.Descend | Meshkov_Maxim/Lab3/main.cpp:54-56 | the recursive search from a target vertex, which is marked for the call and unmarked afterwards, leaves every flag as it was |
| Input.Labels | Meshkov_Maxim/Lab3/main.cpp:174-186 | the key set of `vertices`: every label that appears on a line |
| Input.LabelsExactly | Meshkov_Maxim/Lab3/main.cpp:174-186 | a label is a key exactly when some line names it at either end |
| Input.VertexFor | Meshkov_Maxim/Lab3/main.cpp:181-186 | looking up a label creates a vertex with an empty edge set only the first time the label is seen |
| Input.NewEdgeSorted | Meshkov_Maxim/Lab3/main.cpp:188-192 | the new edge, inserted into its source's set, keeps the graph well formed |
| Input.ReadLine | Meshkov_Maxim/Lab3/main.cpp:176-193 | one input line adds its labels and exactly one edge: forward, with the line's capacity, flow 0 and no partner |
| Input.VertexSet | Meshkov_Maxim/Lab3/main.cpp:198-201 | the vertex set holds every vertex, in strictly increasing label order |
| Input.ReadGraph | Meshkov_Maxim/Lab3/main.cpp:168-204 | Construction fails exactly when the source or target label is on no line. Otherwise the labels are exactly those on the lines, the source and target carry their labels, and there is one edge per line, in order, as read. No vertex is on a path, and the graph is well formed. |

## Left out

- Reading the input with `std::cin` (lines 169-179) is left out. The edge count and the lines are the parameters of `Input.ReadGraph`.
- `printGraph`, `printPath`, `main`, and the `debug` flag with its traces are output only and are not modelled.
- Heap allocation, pointers and the leaked objects are not modelled. Edges live in an arena indexed by identity, and vertices are indices in creation order.
- Addresses: the comparator compares addresses last, and the model compares allocation order instead. This relies on `new` returning increasing addresses, which C++ does not promise. With any other order the set order, and so the search order, could differ.
- `int` overflow of capacities, flows and `maxFlow` is not modelled. Integers are unbounded.
- Labels use Dafny's `char` order. A platform where `char` is signed orders labels at or above 0x80 differently.
- MaxFlow.Network.FindMaxFlow: the result is not proved to be the maximum flow (the max-flow/min-cut theorem). It is proved to be a valid flow that leaves no augmenting path.
- MaxFlow.Network.FindMaxFlow: capacities read from the input are not checked. "0 <= flow equals the reverse's capacity" is kept, but a capacity stays non-negative only if it was read as non-negative or never carried flow.
- MaxFlow.Network.AddReverseEdges: the inner loop walks the vertex's edge set as it was when the loop started. The C++ iterator also sees a reverse edge inserted into the same set, which happens only for a self-loop, and such an edge is skipped at line 92 anyway.
- MaxFlow.Network.AugmentAll, MaxFlow.Network.AugmentOnce, MaxFlow.Network.PushAlong, MaxFlow.Network.Descend, Input.ReadLine, Input.VertexFor and Input.VertexSet are not separate functions in the source. Each is one part of a source function, split out so that each proof stays small. They are: findMaxFlow's loop, one pass of it, and that pass after the search; lines 54-56 of findPath; readGraph's loop body and its lookups; and readGraph's final loop.
- MaxFlow.Network.FindPath: the shared `Path` vector is passed in and returned instead of being updated through a reference.
