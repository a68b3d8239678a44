# Collatz-Viz core in Dafny

Collatz-Viz draws Collatz graphs. It computes the forward sequence of a number
(n → n/2 when n is even, 3n+1 when it is odd, until 1), or the bounded tree of
numbers that lead back to a start value. It turns either into a directed graph
and lays the graph out in rows for drawing. This project models the three
parts of that pipeline and proves what each promises:

- `collatz.dfy` (module `Collatz`): the forward step `Step`, the sequence loop
  `CollatzSequence` and the one-step predecessors `Predecessors`.
- `graph.dfy` (module `Graph`): the graph is an arena. Node handles are
  indices into a sequence of values, adding a node appends to it, and edges
  are pairs of handles. A value-to-handle map sits beside the graph.
  - `BuildSequenceGraph` turns a forward sequence into a path graph.
  - `BuildInverseTree` runs the last-in first-out worklist that grows the
    predecessor graph.
- `gui.dfy` (module `Gui`): `CalculateLayout` has two phases.
  - `ComputeLevels` groups nodes into levels, starting from the nodes without
    incoming edges.
  - `AssignPositions` gives every node of level `i` the y coordinate
    100 + 80·i, with x coordinates 120 apart and centred on 400.

Values are unbounded naturals. `U64Max` keeps the 64-bit range where it
matters. Coordinates are exact reals.

Where the repository's description and its code disagree, the model follows
the code:

- Zero is described as rejected. Only the command-line parser keeps it out
  (src/main.rs:21). `collatz_sequence(0)` itself never ends, so the model
  runs out of fuel on it.
- The inverse tree is described as a tree or DAG, and a comment calls its
  loop a BFS.
  - The worklist is a stack.
  - The duplicate check only looks at pending entries, so a value can be
    expanded again and add parallel edges.
  - The result can contain a cycle. For start 1 and depth 3 the edges
    2→1, 4→2, 8→4 and 1→4 form the cycle 1→4→2→1.
  
  `BuildInverseTree` therefore promises no acyclicity.
- A node can appear in two consecutive levels of the layout, because nodes
  are marked visited only while their own level is processed. Such a node
  keeps the position of the later level. `AtMostTwoLevels` and
  `AssignPositions` state this.

## Model

| member | source | states |
|---|---|---|
| Collatz.Step | src/collatz.rs:6-10 | An even value steps to its half. An odd value steps to an even value above it, and that value minus 1 is three times the odd value. |
| Collatz.CollatzSequence | src/collatz.rs:2-15 | The result starts at `n`. Each element is one step from the one before it, and 1 occurs nowhere before the end. Every value fits in a u64. The run ends at 1 exactly when it reports `Reached`, and then the result is the complete trajectory of `n`. `Overflow` means the last value is odd and its 3n+1 leaves the u64 range, and it comes within the budget: at most `fuel` values. `OutOfFuel` means the step budget was used up before 1. |
| Collatz.TrajectoryUnique | src/collatz.rs:5-12 | Two complete trajectories of the same number are equal, so a result that reaches 1 is the only possible one. |
| Collatz.TrajectoryExamples | src/collatz.rs:42-44 | [1], [2, 1] and [3, 10, 5, 16, 8, 4, 2, 1] are the complete trajectories of 1, 2 and 3. |
| Collatz.SequenceOfThree | src/collatz.rs:44 | Any complete trajectory of 3, in particular a reached result of `CollatzSequence(3, fuel)`, is exactly [3, 10, 5, 16, 8, 4, 2, 1]. |
| Collatz.Predecessors | src/collatz.rs:21-34 | The result has one or two values and starts with 2n. A second value exists exactly when n > 1, n % 3 == 1 and (n-1)/3 is odd; it is odd and 3·p+1 = n. Every returned value steps to n. |
| Collatz.PredecessorsComplete | src/collatz.rs:17-20 | m is among the predecessors of n if and only if one step takes m to n. |
| Collatz.PredecessorsExamples | src/collatz.rs:49-53 | The predecessors of 1 are [2], and those of 4 are [8, 1]. |
| Graph.FirstOccurrencesSpec | src/graph.rs:12-16 | The values of a sequence in order of first occurrence repeat nothing, are exactly the sequence's values, and start with its first element. |
| Graph.AddSequenceNodes | src/graph.rs:11-17 | The node pass adds no edges. The nodes are the sequence's values in order of first occurrence. The value map is a bijection between handles and node values, and its keys are exactly the values of the sequence. |
| Graph.NodeMapDistinct | src/graph.rs:13-16 | A bijective value map means no two nodes carry the same value, and its keys are exactly the node values. |
| Graph.DistinctCardinality | src/graph.rs:12-17 | A sequence without repeats has as many distinct values as entries, so the node count equals the number of distinct values. |
| Graph.AddSequenceEdges | src/graph.rs:19-24 | The edge pass keeps the nodes and earlier edges and appends \|sequence\|−1 edges. Appended edge i runs from the node of `sequence[i]` to the node of `sequence[i+1]`. |
| Graph.BuildSequenceGraph | src/graph.rs:7-27 | The input must be non-empty. The nodes are the sequence's values in order of first occurrence, so node 0 holds the first value, and no value appears twice. The value map is a bijection onto them. There are \|sequence\|−1 edges, and edge i runs from the node of `sequence[i]` to the node of `sequence[i+1]`. |
| Graph.PlacePredecessor | src/graph.rs:55-64 | A predecessor that already has a node keeps it. Otherwise one node carrying it is appended and mapped to the new handle. Either way exactly one edge is appended, from its node to the popped node, and the tree invariant is kept. |
| Graph.PushIfAbsent | src/graph.rs:66-68 | The entry is pushed exactly when no pending entry has its value, and the tree invariant and distinct pending values are kept. |
| Graph.EnqueueWeight | src/graph.rs:66-68 | Handling one predecessor adds at most the weight of one entry at the new depth to the worklist. |
| Graph.LinkCapped | src/graph.rs:55-68 | For a predecessor within the cap: the exact new node list, value map and edge list, and the new worklist is the old one plus an entry (value, handle, depth+1) exactly when the value is not pending. |
| Graph.LinkPredecessor | src/graph.rs:49-69 | Handles one predecessor. Above 1,000,000 nothing changes. Otherwise the node list, value map and edge list are as `LinkCapped` states, with one edge from its node to the popped node. The worklist is the old one plus (pred, handle, depth+1) exactly when pred is within the cap and not pending. The tree invariant is kept: root at handle 0, other values ≤ 1,000,000, a bijective value map, every edge from a value to its successor, and every pending entry at depth d stepping to `start` in d steps. |
| Graph.NewNodesFrom | src/graph.rs:51-61 | Every node the predecessor loop appends carries one of the handled predecessors, within the cap. |
| Graph.NodesStep | src/graph.rs:51-61 | Handling one more predecessor leaves the node list `NewNodes` gives: a value within the cap that no node carries gets a node at the end, and nothing else is appended. |
| Graph.LinksStep | src/graph.rs:49-69 | Handling one more predecessor leaves the edges and worklist of handling the longer prefix in order, with every capped predecessor so far mapped. |
| Graph.ExpandStep | src/graph.rs:49-69 | One round of the loop over the predecessors extends the loop invariant by one predecessor. That invariant states the exact node list, edges and worklist as those of handling the predecessors so far in order. |
| Graph.ExpandAll | src/graph.rs:49-69 | After all predecessors are handled the loop invariant covers all of them (exact node list, edges and worklist), and the worklist weight grew by less than one entry at the popped depth. |
| Graph.ExpandEntry | src/graph.rs:47-69 | Expanding an entry below the depth bound keeps the tree invariant and distinct pending values. The new nodes are, in order, the capped predecessors no node carried yet, so they are predecessors of the entry's value and handles are given in predecessor order. The edges are the old ones plus one per predecessor within the cap, in order. The worklist is the old one plus, in order, each capped predecessor that was not pending, at depth+1. The weight grows by less than the popped entry's own weight. |
| Graph.PopAndExpand | src/graph.rs:42-70 | One round of the worklist loop keeps the loop invariant, including that every pending entry at depth d steps to `start` in d steps and that every expanded value reaches `start` in fewer than `maxDepth` steps. An entry at the depth bound is dropped and changes nothing else. Otherwise its value joins the expanded ones and the entry is appended to the trace of expansions. The new node list, edge list and worklist are exactly what expanding it after the rest of the worklist gives, as `ExpandEntry` states. The trace record is kept: the graph is what expanding the traced entries in turn builds, and only the root entry is ever pending at depth 0. The weight strictly falls, so the loop terminates. |
| Graph.WithinDepth | src/graph.rs:42-46 | Every expanded value reaches `start` in fewer than `maxDepth` forward steps, and every node value in at most `maxDepth`. |
| Graph.BuildInverseTree | src/graph.rs:31-73 | Node 0 holds `start` and maps back to 0. With depth 0 the graph is that node alone. Every other node value is ≤ 1,000,000. The value map is a bijection and no value appears twice. Every edge runs from a predecessor to its successor. Every non-root node is a predecessor of an expanded value. Each expanded value, including `start` when depth > 0, has all its predecessors within the cap linked to it. Every expanded value reaches `start` in fewer than `depth` steps, and every node value in at most `depth` steps. The expanded values are those of the trace of popped entries below the depth bound, the root entry first and alone at depth 0. The node list and edge list are exactly what expanding the traced entries in turn builds from the root node, so there are at most two edges per expansion. |
| Graph.TraceEdgesBound | src/graph.rs:47-69 | Expanding the entries of a trace adds at most two edges per entry. |
| Graph.TraceSnoc | src/graph.rs:42-69 | Expanding one more entry adds its value to the traced values, its new nodes to the grown node list and its edges to the traced edges. |
| Graph.TracedExpand | src/graph.rs:42-69 | An entry popped below the depth bound and expanded extends the trace record by that entry. |
| Graph.TracedDrop | src/graph.rs:42-45 | An entry popped at the depth bound leaves the trace record as it was. |
| Graph.RootOnlyTrace | src/graph.rs:40-46 | With depth bound 1, a trace that expanded the root is the root entry alone. |
| Graph.InverseTreeOfOne | src/graph.rs:31-73 | With start 1 and depth 1 the node list is exactly [1, 2] and the edge list exactly one edge from the node of 2 to the node of 1. |
| Gui.RootsBelow | src/gui.rs:37-40 | The result holds exactly the handles below k without an incoming edge, in strictly increasing handle order. |
| Gui.FirstLevel | src/gui.rs:37-47 | The first level is non-empty, names existing nodes and is in increasing handle order. When some node has no incoming edge it holds exactly those nodes; when every node has one it is node 0 alone. |
| Gui.OutNeighbours | src/gui.rs:57 | v is an out-neighbour of u exactly when the edge u→v exists. |
| Gui.ScanNeighbours | src/gui.rs:57-61 | The result is the specification `Scanned` of the scan. The next level only grows and stays free of repeats. Every neighbour ends up visited or in the next level. Every newly pushed node is a neighbour that was unvisited. |
| Gui.VisitNode | src/gui.rs:54-61 | Processing one more node of the level extends the pass invariant: visited set and next level equal the specification `Pass`, and the next level holds exactly the nodes pushed so far. |
| Gui.ProcessLevel | src/gui.rs:52-62 | The next level is the specification `NextLevel` of the level. The visited set is the old one plus the level. The next level has no repeats. Each of its nodes v was unvisited before the level and has an edge from some `level[q]` with v not among `level[0]`…`level[q]`. Conversely, every such v is in it. Every edge leaving the level ends at a visited node or in the next level. |
| Gui.AdvanceLevel | src/gui.rs:51-68 | One round of the level loop appends exactly the level `NextLevel` pushes, or nothing when it is empty, and keeps the loop invariant. A round that visits no new node appends no level, and one that does shrinks the unvisited nodes, so the loop terminates. |
| Gui.ComputeLevels | src/gui.rs:33-68 | Level 0 is the first level. Every level is non-empty and repeats no node. Each node of level k > 0 was pushed from level k−1 while unvisited. Each level pushes exactly the next one, and the last pushes nothing. Every out-neighbour of a placed node is placed. |
| Gui.LastPushesNothing | src/gui.rs:51-68 | In a levelling, level k pushes nothing exactly when it is the last level, and otherwise pushes exactly level k+1. |
| Gui.LevellingUnique | src/gui.rs:33-68 | A graph has exactly one levelling, so `ComputeLevels` returns the levels the loop produces and no other. |
| Gui.SingleNodePass | src/gui.rs:54-61 | A level of one node pushes its out-neighbours that are neither visited nor the node itself, without repeats, in listing order. |
| Gui.TwoLevels | src/gui.rs:51-68 | When the first level pushes a non-empty level that pushes nothing, the levelling is those two levels. |
| Gui.TriangleLevels | src/gui.rs:33-68 | For edges 0→1, 0→2, 1→2 the levels are exactly [[0], [2, 1]]. |
| Gui.AtMostTwoLevels | src/gui.rs:54-61 | A node in two levels is in two consecutive ones. |
| Gui.RootsOnlyInFirstLevel | src/gui.rs:37-47 | A node without incoming edges appears in no level after the first. |
| Gui.SlotPos | src/gui.rs:76-82 | Row `level` lies 80·level below y = 100. Slot `index` lies (index − (count−1)/2)·120 from x = 400, so a row of `count` slots stays within (count−1)·60 of 400. |
| Gui.SlotsEvenlySpaced | src/gui.rs:71-82 | Neighbouring slots of a row are 120 apart on one line, and a row is symmetric about x = 400. |
| Gui.RowsEvenlySpaced | src/gui.rs:72-77 | Level i+1 is drawn 80 below level i, and level 0 at y = 100. |
| Gui.SlotPosInjective | src/gui.rs:76-84 | Two slots share a position only if they lie in the same row and, for rows of equal size, at the same index. |
| Gui.SweepStep | src/gui.rs:81-83 | Writing one slot advances the row-by-row sweep: each node written so far holds the position of its last slot. |
| Gui.PlaceRow | src/gui.rs:77-84 | Processing one level advances the sweep from the start of that row to the start of the next. |
| Gui.AssignPositions | src/gui.rs:76-85 | Every level must be non-empty. The keys are exactly the placed nodes. Each node holds the position of the last slot that contains it, so a node in two levels keeps the later position. |
| Gui.PositionsDistinct | src/gui.rs:76-85 | No two nodes of the position map share a point. |
| Gui.CalculateLayout | src/gui.rs:23-88 | An empty graph gets no positions. Otherwise the levels are the graph's one levelling (everything `ComputeLevels` promises), and the positions satisfy what `AssignPositions` promises for those levels. |

## Left out

- src/main.rs is not part of this model. That covers command-line parsing, the `range(1..)` check that keeps 0 out, the default depth, the window title and window startup.
- `GraphView::new`, `ui` and `eframe::App::update` in src/gui.rs are left out: painting, arrowheads, circles, labels and screen transforms are user-interface code.
- Collatz.CollatzSequence: the loop is unbounded, because its termination is the Collatz conjecture and it never ends for 0. The model runs for at most `fuel` steps and reports `OutOfFuel`.
- Collatz.CollatzSequence: where Rust evaluates `3 * n + 1` past the u64 range, it panics in debug builds and wraps in release builds. The model stops with `Overflow`, which is the debug behaviour; release-build wrap-around is not modelled.
- Collatz.Predecessors: requires 2n ≤ u64 max. The wrap-around of `2 * n` above that is not modelled.
- Graph.BuildInverseTree: requires 2·start ≤ u64 max when depth > 0, for the same reason. Every other expanded value is at most 1,000,000.
- Graph.BuildInverseTree: only the upper depth bound is proved. Every expanded value reaches `start` in fewer than `depth` steps, and every node in at most `depth`. The converse is not proved: that every value whose path to `start` is shorter than `depth` and stays within the cap gets expanded. A predecessor that is already pending is not pushed again. The invariant would have to show that the pending entry is expanded later at a depth no larger than the skipped one, and the model does not track that.
- Graph.BuildInverseTree: no acyclicity is stated, because the code does not provide it.
- The petgraph graph is modelled as a value: node handles are naturals, and out-neighbours are listed most recent edge first, as petgraph lists them. The levels the layout pass produces depend on that order. The order of a level follows the order its nodes were pushed in, and a node is marked visited only when its own level is scanned, so whether an edge inside a level pushes its target again depends on which of the two is scanned first. `OutNeighbours`, `ScanNeighbours`, `ProcessLevel`, `AdvanceLevel`, `ComputeLevels`, `LevellingUnique`, `TwoLevels`, `SingleNodePass`, `TriangleLevels` and `CalculateLayout` state the levels for that order; with oldest-first lists the triangle 0→1, 0→2, 1→2 would give [[0], [1, 2], [2]] instead. `AtMostTwoLevels`, `RootsOnlyInFirstLevel`, the closure clause of `ComputeLevels` and the non-empty, repeat-free levels hold for either order.
- Graph.BuildInverseTree: the trace records the entries in the order the last-in first-out worklist popped them, but the contract does not characterise that order beyond the root coming first; which values get expanded again is not given in closed form.
- Gui.CalculateLayout: coordinates are exact reals. `f32` rounding is not modelled.
- Hash maps and hash sets are Dafny maps and sets. Iteration order of the hash map is never observed by the code.
