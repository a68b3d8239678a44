/** The two graph builders: the path graph of a forward sequence and the
    bounded tree of predecessors of a start value. The directed graph is an
    arena: node handles are indices into `nodes`, `AddNode` appends, and an
    edge is a pair of handles. */
module Graph {
  import opened Collatz

  /** Largest predecessor value the inverse-tree builder still places. */
  const PredecessorCap: nat := 1_000_000

  /** A directed graph whose nodes carry a value; handle `i` names `nodes[i]`. */
  datatype DiGraph = DiGraph(nodes: seq<nat>, edges: seq<(nat, nat)>) {

    /** Every edge joins two existing handles. */
    predicate Valid() {
      forall i :: 0 <= i < |edges| ==> edges[i].0 < |nodes| && edges[i].1 < |nodes|
    }

    /** Appends a node carrying `value`; its handle is the old node count. */
    function AddNode(value: nat): (g: DiGraph)
      ensures g.nodes == nodes + [value] && g.edges == edges
    {
      DiGraph(nodes + [value], edges)
    }

    /** Appends the edge `from -> to` (parallel edges are kept). */
    function AddEdge(from: nat, to: nat): (g: DiGraph)
      requires from < |nodes| && to < |nodes|
      ensures g.nodes == nodes && g.edges == edges + [(from, to)]
    {
      DiGraph(nodes, edges + [(from, to)])
    }
  }

  /** The value-to-handle map is a bijection between the values present in
      the graph and its handles: it maps each value to the node that carries
      it, and each node's value back to that node. */
  ghost predicate NodeMapAgrees(nodes: seq<nat>, nodeMap: map<nat, nat>) {
    && (forall v :: v in nodeMap ==> nodeMap[v] < |nodes| && nodes[nodeMap[v]] == v)
    && (forall i :: 0 <= i < |nodes| ==> nodes[i] in nodeMap && nodeMap[nodes[i]] == i)
  }

  /** Placing a new value as a new node keeps the value map a bijection. */
  lemma AddNodeAgrees(nodes: seq<nat>, nodeMap: map<nat, nat>, value: nat)
    requires NodeMapAgrees(nodes, nodeMap) && value !in nodeMap
    ensures NodeMapAgrees(nodes + [value], nodeMap[value := |nodes|])
  {
  }

  /** No two nodes carry the same value. */
  ghost predicate Distinct(s: seq<nat>) {
    forall i, j :: 0 <= i < j < |s| ==> s[i] != s[j]
  }

  /** A bijective value map makes the node values pairwise distinct and
      the map's keys exactly the node values. */
  lemma NodeMapDistinct(nodes: seq<nat>, nodeMap: map<nat, nat>)
    requires NodeMapAgrees(nodes, nodeMap)
    ensures Distinct(nodes)
    ensures nodeMap.Keys == Values(nodes)
  {
    forall v | v in nodeMap ensures v in nodes {
      assert nodes[nodeMap[v]] == v;
    }
  }

  /** The set of values a sequence holds. */
  ghost function Values(s: seq<nat>): set<nat> {
    set v | v in s
  }

  /** A sequence without repetition has as many distinct values as entries. */
  lemma {:induction false} DistinctCardinality(s: seq<nat>)
    requires Distinct(s)
    ensures |Values(s)| == |s|
  {
    if s != [] {
      var rest := s[1..];
      assert Distinct(rest) by {
        forall i, j | 0 <= i < j < |rest| ensures rest[i] != rest[j] {
          assert rest[i] == s[i + 1] && rest[j] == s[j + 1];
        }
      }
      DistinctCardinality(rest);
      assert Values(s) == Values(rest) + {s[0]} by {
        assert s == [s[0]] + rest;
      }
      assert s[0] !in Values(rest) by {
        forall j | 0 <= j < |rest| ensures rest[j] != s[0] {
          assert rest[j] == s[j + 1];
        }
      }
    }
  }

  /** The values of `s` without repeats, each at the place of its first
      occurrence. */
  function FirstOccurrences(s: seq<nat>): seq<nat> {
    if s == [] then []
    else
      var firsts := FirstOccurrences(s[..|s| - 1]);
      if s[|s| - 1] in firsts then firsts else firsts + [s[|s| - 1]]
  }

  /** The first occurrences of `s` repeat no value, hold every value of `s`,
      and begin with its first element. */
  lemma {:induction false} FirstOccurrencesSpec(s: seq<nat>)
    ensures Distinct(FirstOccurrences(s))
    ensures Values(FirstOccurrences(s)) == Values(s)
    ensures |s| > 0 ==> |FirstOccurrences(s)| > 0 && FirstOccurrences(s)[0] == s[0]
  {
    if s != [] {
      var init := s[..|s| - 1];
      FirstOccurrencesSpec(init);
      assert s == init + [s[|s| - 1]];
      assert Values(s) == Values(init) + {s[|s| - 1]};
      if |s| > 1 {
        assert init[0] == s[0];
      }
    }
  }

  /** One more element of `s` extends its first occurrences and its values. */
  lemma PrefixStep(s: seq<nat>, k: nat)
    requires k < |s|
    ensures FirstOccurrences(s[..k + 1]) ==
              if s[k] in FirstOccurrences(s[..k]) then FirstOccurrences(s[..k])
              else FirstOccurrences(s[..k]) + [s[k]]
    ensures Values(s[..k + 1]) == Values(s[..k]) + {s[k]}
  {
    assert s[..k + 1][..k] == s[..k];
    assert s[..k + 1] == s[..k] + [s[k]];
  }

  /** The first phase of `BuildSequenceGraph`: a node for each value of the
      sequence not seen before, in order of first occurrence. */
  method AddSequenceNodes(sequence: seq<nat>) returns (g: DiGraph, nodeMap: map<nat, nat>)
    ensures g.edges == []
    ensures g.nodes == FirstOccurrences(sequence)
    ensures NodeMapAgrees(g.nodes, nodeMap)
    ensures nodeMap.Keys == Values(sequence)
  {
    g := DiGraph([], []);
    nodeMap := map[];
    for k := 0 to |sequence|
      invariant g.edges == []
      invariant g.nodes == FirstOccurrences(sequence[..k])
      invariant NodeMapAgrees(g.nodes, nodeMap)
      invariant nodeMap.Keys == Values(sequence[..k])
    {
      var num := sequence[k];
      PrefixStep(sequence, k);
      assert num in nodeMap <==> num in g.nodes;
      if num !in nodeMap {
        var idx := |g.nodes|;
        AddNodeAgrees(g.nodes, nodeMap, num);
        g := g.AddNode(num);
        nodeMap := nodeMap[num := idx];
      }
    }
    assert sequence[..|sequence|] == sequence;
  }

  /** The second phase of `BuildSequenceGraph`: one edge per consecutive
      pair of the sequence, repeats included, between their nodes. */
  method AddSequenceEdges(g0: DiGraph, nodeMap: map<nat, nat>, sequence: seq<nat>) returns (g: DiGraph)
    requires |sequence| > 0 && g0.Valid() && NodeMapAgrees(g0.nodes, nodeMap)
    requires forall i :: 0 <= i < |sequence| ==> sequence[i] in nodeMap
    ensures g.nodes == g0.nodes && g.Valid()
    ensures |g.edges| == |g0.edges| + |sequence| - 1 && g.edges[..|g0.edges|] == g0.edges
    ensures forall i :: 0 <= i < |sequence| - 1 ==>
              g.edges[|g0.edges| + i] == (nodeMap[sequence[i]], nodeMap[sequence[i + 1]])
  {
    g := g0;
    for i := 0 to |sequence| - 1
      invariant g.nodes == g0.nodes && g.Valid()
      invariant |g.edges| == |g0.edges| + i && g.edges[..|g0.edges|] == g0.edges
      invariant forall j :: 0 <= j < i ==>
                  g.edges[|g0.edges| + j] == (nodeMap[sequence[j]], nodeMap[sequence[j + 1]])
    {
      var from := nodeMap[sequence[i]];
      var to := nodeMap[sequence[i + 1]];
      g := g.AddEdge(from, to);
    }
  }

  /** Builds the path graph of a forward sequence: one node per distinct
      value, created at its first occurrence, then one edge per consecutive
      pair of the sequence, repeats included. The sequence must not be
      empty: its length minus one would underflow. */
  method BuildSequenceGraph(sequence: seq<nat>) returns (g: DiGraph, nodeMap: map<nat, nat>)
    requires |sequence| > 0
    ensures g.Valid()
    ensures g.nodes == FirstOccurrences(sequence) && g.nodes[0] == sequence[0]
    ensures NodeMapAgrees(g.nodes, nodeMap) && Distinct(g.nodes)
    ensures nodeMap.Keys == Values(sequence)
    ensures |g.nodes| == |Values(sequence)|
    ensures |g.edges| == |sequence| - 1
    ensures forall i :: 0 <= i < |sequence| - 1 ==>
              g.edges[i] == (nodeMap[sequence[i]], nodeMap[sequence[i + 1]])
  {
    g, nodeMap := AddSequenceNodes(sequence);
    FirstOccurrencesSpec(sequence);
    NodeMapDistinct(g.nodes, nodeMap);
    DistinctCardinality(g.nodes);
    g := AddSequenceEdges(g, nodeMap, sequence);
  }

  /** A pending entry of the inverse-tree worklist. */
  datatype Entry = Entry(value: nat, handle: nat, depth: nat)

  /** Some pending entry already carries `value`. */
  predicate Pending(queue: seq<Entry>, value: nat) {
    exists i :: 0 <= i < |queue| && queue[i].value == value
  }

  function Pow3(k: nat): (r: nat)
    ensures r >= 1
  {
    if k == 0 then 1 else 3 * Pow3(k - 1)
  }

  /** Termination measure of the worklist: an entry at depth `d` weighs
      3^(maxDepth - d), more than the two entries one level deeper it may add. */
  function Weight(queue: seq<Entry>, maxDepth: nat): nat {
    if queue == [] then 0
    else
      var last := queue[|queue| - 1];
      Weight(queue[..|queue| - 1], maxDepth)
        + (if last.depth <= maxDepth then Pow3(maxDepth - last.depth) else 0)
  }

  /** The graph part of the inverse-tree invariant: the graph holds `start` at
      handle 0, every other value is within the cap, the value map is a
      bijection, every edge runs from a predecessor to its successor, and
      every node but the root carries a predecessor of a value in `parents`. */
  ghost predicate TreeShape(g: DiGraph, nodeMap: map<nat, nat>, start: nat, parents: set<nat>) {
    && |g.nodes| >= 1 && g.nodes[0] == start
    && (forall i :: 1 <= i < |g.nodes| ==> g.nodes[i] <= PredecessorCap)
    && g.Valid()
    && NodeMapAgrees(g.nodes, nodeMap)
    && (forall i :: 0 <= i < |g.edges| ==> Step(g.nodes[g.edges[i].0]) == g.nodes[g.edges[i].1])
    && parents <= nodeMap.Keys
    && (forall i :: 1 <= i < |g.nodes| ==> Step(g.nodes[i]) in parents)
  }

  /** The worklist part: pending entries carry their own handle and a depth
      within the bound, and an entry at depth `d` steps to `start` in `d`
      steps. */
  ghost predicate QueueShape(g: DiGraph, queue: seq<Entry>, start: nat, maxDepth: nat) {
    && (forall i :: 0 <= i < |queue| ==>
          queue[i].handle < |g.nodes| && g.nodes[queue[i].handle] == queue[i].value
          && queue[i].depth <= maxDepth && Iterate(queue[i].value, queue[i].depth) == start)
  }

  /** No value is pending twice. */
  ghost predicate QueueDistinct(queue: seq<Entry>) {
    forall i, j :: 0 <= i < j < |queue| ==> queue[i].value != queue[j].value
  }

  /** The invariant of the inverse-tree worklist loop. */
  ghost predicate TreeInvariant(g: DiGraph, nodeMap: map<nat, nat>, queue: seq<Entry>,
                                start: nat, maxDepth: nat, parents: set<nat>)
  {
    TreeShape(g, nodeMap, start, parents) && QueueShape(g, queue, start, maxDepth)
  }

  /** `v` is placed, and each of its predecessors within the cap is placed
      too, with an edge to it. */
  ghost predicate PredecessorsLinked(g: DiGraph, nodeMap: map<nat, nat>, v: nat) {
    && 2 * v <= U64Max && v in nodeMap
    && forall p :: p in Predecessors(v) && p <= PredecessorCap ==>
         p in nodeMap && (nodeMap[p], nodeMap[v]) in g.edges
  }

  /** Every value in `expanded` has its predecessors linked. */
  ghost predicate ExpansionsLinked(g: DiGraph, nodeMap: map<nat, nat>, expanded: set<nat>) {
    forall v {:trigger PredecessorsLinked(g, nodeMap, v)} :: v in expanded ==> PredecessorsLinked(g, nodeMap, v)
  }

  /** Removing the last pending entry keeps the invariant. */
  lemma DequeueKeeps(g: DiGraph, nodeMap: map<nat, nat>, queue: seq<Entry>, start: nat, maxDepth: nat,
                     parents: set<nat>)
    requires queue != [] && TreeInvariant(g, nodeMap, queue, start, maxDepth, parents)
    requires QueueDistinct(queue)
    ensures TreeInvariant(g, nodeMap, queue[..|queue| - 1], start, maxDepth, parents)
    ensures QueueDistinct(queue[..|queue| - 1])
    ensures Weight(queue, maxDepth)
              == Weight(queue[..|queue| - 1], maxDepth) + Pow3(maxDepth - queue[|queue| - 1].depth)
  {
  }

  /** Placing a new predecessor of a parent, within the cap, as a new node
      keeps the invariant and the links of the expanded values. */
  lemma PlaceKeeps(g: DiGraph, nodeMap: map<nat, nat>, queue: seq<Entry>, start: nat, maxDepth: nat,
                   parents: set<nat>, expanded: set<nat>, pred: nat)
    requires TreeInvariant(g, nodeMap, queue, start, maxDepth, parents)
    requires ExpansionsLinked(g, nodeMap, expanded)
    requires pred <= PredecessorCap && pred !in nodeMap && Step(pred) in parents
    ensures TreeInvariant(g.AddNode(pred), nodeMap[pred := |g.nodes|], queue, start, maxDepth, parents)
    ensures ExpansionsLinked(g.AddNode(pred), nodeMap[pred := |g.nodes|], expanded)
  {
    AddNodeAgrees(g.nodes, nodeMap, pred);
    forall v | v in expanded
      ensures PredecessorsLinked(g.AddNode(pred), nodeMap[pred := |g.nodes|], v)
    {
      assert PredecessorsLinked(g, nodeMap, v);
    }
  }

  /** Adding an edge from a node to the node its value steps to keeps the
      invariant and the links of the expanded values. */
  lemma LinkKeeps(g: DiGraph, nodeMap: map<nat, nat>, queue: seq<Entry>, start: nat, maxDepth: nat,
                  parents: set<nat>, expanded: set<nat>, from: nat, to: nat)
    requires TreeInvariant(g, nodeMap, queue, start, maxDepth, parents)
    requires ExpansionsLinked(g, nodeMap, expanded)
    requires from < |g.nodes| && to < |g.nodes| && Step(g.nodes[from]) == g.nodes[to]
    ensures TreeInvariant(g.AddEdge(from, to), nodeMap, queue, start, maxDepth, parents)
    ensures ExpansionsLinked(g.AddEdge(from, to), nodeMap, expanded)
  {
    forall v | v in expanded
      ensures PredecessorsLinked(g.AddEdge(from, to), nodeMap, v)
    {
      assert PredecessorsLinked(g, nodeMap, v);
    }
  }

  /** Queuing a value that is not pending, with its own handle and a depth
      within the bound, keeps the invariant and adds that entry's weight. */
  lemma EnqueueKeeps(g: DiGraph, nodeMap: map<nat, nat>, queue: seq<Entry>, start: nat, maxDepth: nat,
                     parents: set<nat>, entry: Entry)
    requires TreeInvariant(g, nodeMap, queue, start, maxDepth, parents)
    requires QueueDistinct(queue) && !Pending(queue, entry.value) && entry.depth <= maxDepth
    requires Iterate(entry.value, entry.depth) == start
    requires entry.handle < |g.nodes| && g.nodes[entry.handle] == entry.value
    ensures TreeInvariant(g, nodeMap, queue + [entry], start, maxDepth, parents)
    ensures QueueDistinct(queue + [entry])
    ensures Weight(queue + [entry], maxDepth) == Weight(queue, maxDepth) + Pow3(maxDepth - entry.depth)
  {
    assert (queue + [entry])[..|queue|] == queue;
  }

  /** `g`, `nodeMap` extend `g0`, `nodeMap0`: no mapping and no edge is lost. */
  ghost predicate Extends(g0: DiGraph, nodeMap0: map<nat, nat>, g: DiGraph, nodeMap: map<nat, nat>) {
    && (forall v :: v in nodeMap0 ==> v in nodeMap && nodeMap[v] == nodeMap0[v])
    && (forall e :: e in g0.edges ==> e in g.edges)
  }

  /** The worklist once the predecessor `pred` was handled: queued with its
      handle, one level deeper, when it is within the cap and not pending. */
  function Enqueue(queue: seq<Entry>, pred: nat, nodeMap: map<nat, nat>, depth: nat): (r: seq<Entry>)
    requires pred <= PredecessorCap ==> pred in nodeMap
    ensures queue <= r
  {
    if pred <= PredecessorCap && !Pending(queue, pred) then queue + [Entry(pred, nodeMap[pred], depth)]
    else queue
  }

  /** Handling one predecessor adds at most the weight of an entry at `depth`. */
  lemma EnqueueWeight(queue0: seq<Entry>, pred: nat, nodeMap: map<nat, nat>, depth: nat, maxDepth: nat,
                      queue: seq<Entry>)
    requires pred <= PredecessorCap ==> pred in nodeMap
    requires depth < maxDepth && queue == Enqueue(queue0, pred, nodeMap, depth + 1)
    ensures Weight(queue, maxDepth) <= Weight(queue0, maxDepth) + Pow3(maxDepth - depth - 1)
  {
    if queue != queue0 {
      assert queue[..|queue0|] == queue0;
    }
  }

  /** Every value of `ps` within the cap has a handle in `nodeMap`. */
  ghost predicate Mapped(ps: seq<nat>, nodeMap: map<nat, nat>) {
    forall j :: 0 <= j < |ps| && ps[j] <= PredecessorCap ==> ps[j] in nodeMap
  }

  /** The worklist once the predecessors `ps` were handled in order. */
  function EnqueueAll(queue: seq<Entry>, ps: seq<nat>, nodeMap: map<nat, nat>, depth: nat): (r: seq<Entry>)
    requires Mapped(ps, nodeMap)
    ensures queue <= r
  {
    if ps == [] then queue
    else Enqueue(EnqueueAll(queue, ps[..|ps| - 1], nodeMap, depth), ps[|ps| - 1], nodeMap, depth)
  }

  /** The edges added while handling the predecessors `ps` in order: one from
      each value within the cap to `handle`. */
  function LinkEdges(ps: seq<nat>, nodeMap: map<nat, nat>, handle: nat): (r: seq<(nat, nat)>)
    requires Mapped(ps, nodeMap)
    ensures |r| <= |ps|
  {
    if ps == [] then []
    else
      var last := ps[|ps| - 1];
      LinkEdges(ps[..|ps| - 1], nodeMap, handle)
        + (if last <= PredecessorCap then [(nodeMap[last], handle)] else [])
  }

  /** The node list once the first `k` predecessors `ps` were handled in
      order: each value within the cap that no node carries yet gets a node
      at the end. */
  function NewNodes(nodes: seq<nat>, ps: seq<nat>, k: nat): (r: seq<nat>)
    requires k <= |ps|
    ensures nodes <= r
  {
    if k == 0 then nodes else WithPredecessor(NewNodes(nodes, ps, k - 1), ps[k - 1])
  }

  /** The node list after predecessor `v` was handled: a value within the cap
      that no node carries yet gets a node at the end. */
  function WithPredecessor(nodes: seq<nat>, v: nat): (r: seq<nat>)
  {
    if v <= PredecessorCap && v !in nodes then nodes + [v] else nodes
  }

  /** Every node `NewNodes` adds is one of the handled values within the cap. */
  lemma {:induction false} NewNodesFrom(nodes: seq<nat>, ps: seq<nat>, k: nat)
    requires k <= |ps|
    ensures forall i :: |nodes| <= i < |NewNodes(nodes, ps, k)| ==>
              NewNodes(nodes, ps, k)[i] in ps && NewNodes(nodes, ps, k)[i] <= PredecessorCap
  {
    if k > 0 {
      NewNodesFrom(nodes, ps, k - 1);
    }
  }

  /** Both only read the handles of `ps`, so a larger value map that keeps
      them gives the same worklist and edges. */
  lemma {:induction false} HandledFrame(queue: seq<Entry>, ps: seq<nat>, nodeMap0: map<nat, nat>,
                                        nodeMap: map<nat, nat>, depth: nat, handle: nat)
    requires Mapped(ps, nodeMap0)
    requires forall v :: v in nodeMap0 ==> v in nodeMap && nodeMap[v] == nodeMap0[v]
    ensures Mapped(ps, nodeMap)
    ensures EnqueueAll(queue, ps, nodeMap0, depth) == EnqueueAll(queue, ps, nodeMap, depth)
    ensures LinkEdges(ps, nodeMap0, handle) == LinkEdges(ps, nodeMap, handle)
  {
    if ps != [] {
      HandledFrame(queue, ps[..|ps| - 1], nodeMap0, nodeMap, depth, handle);
    }
  }

  /** The body of the expansion loop for one predecessor `pred` of the popped
      entry: drop it above the cap; otherwise reuse its node or create one,
      add an edge from it to the entry's node, and queue it one level deeper
      unless it is pending already. */
  method LinkPredecessor(g0: DiGraph, nodeMap0: map<nat, nat>, queue0: seq<Entry>, entry: Entry, pred: nat,
                         start: nat, maxDepth: nat, ghost parents: set<nat>, ghost expanded: set<nat>)
    returns (g: DiGraph, nodeMap: map<nat, nat>, queue: seq<Entry>)
    requires TreeInvariant(g0, nodeMap0, queue0, start, maxDepth, parents)
    requires ExpansionsLinked(g0, nodeMap0, expanded)
    requires entry.depth < maxDepth && entry.value in parents
    requires entry.handle < |g0.nodes| && g0.nodes[entry.handle] == entry.value
    requires Step(pred) == entry.value && QueueDistinct(queue0)
    requires Iterate(entry.value, entry.depth) == start
    ensures TreeInvariant(g, nodeMap, queue, start, maxDepth, parents) && QueueDistinct(queue)
    ensures ExpansionsLinked(g, nodeMap, expanded)
    ensures Extends(g0, nodeMap0, g, nodeMap)
    ensures entry.handle < |g.nodes| && g.nodes[entry.handle] == entry.value
    ensures pred <= PredecessorCap ==> pred in nodeMap && (nodeMap[pred], entry.handle) in g.edges
    ensures pred > PredecessorCap ==> g == g0 && nodeMap == nodeMap0
    ensures pred <= PredecessorCap ==>
              && nodeMap == (if pred in nodeMap0 then nodeMap0 else nodeMap0[pred := |g0.nodes|])
              && g.nodes == (if pred in nodeMap0 then g0.nodes else g0.nodes + [pred])
              && g.edges == g0.edges + [(nodeMap[pred], entry.handle)]
    ensures queue == Enqueue(queue0, pred, nodeMap, entry.depth + 1)
  {
    if pred <= PredecessorCap {
      g, nodeMap, queue := LinkCapped(g0, nodeMap0, queue0, entry, pred, start, maxDepth, parents, expanded);
    } else {
      g, nodeMap, queue := g0, nodeMap0, queue0;
    }
  }

  /** `LinkPredecessor` for a predecessor within the cap. */
  method LinkCapped(g0: DiGraph, nodeMap0: map<nat, nat>, queue0: seq<Entry>, entry: Entry, pred: nat,
                    start: nat, maxDepth: nat, ghost parents: set<nat>, ghost expanded: set<nat>)
    returns (g: DiGraph, nodeMap: map<nat, nat>, queue: seq<Entry>)
    requires TreeInvariant(g0, nodeMap0, queue0, start, maxDepth, parents)
    requires ExpansionsLinked(g0, nodeMap0, expanded)
    requires entry.depth < maxDepth && entry.value in parents
    requires entry.handle < |g0.nodes| && g0.nodes[entry.handle] == entry.value
    requires Step(pred) == entry.value && QueueDistinct(queue0) && pred <= PredecessorCap
    requires Iterate(entry.value, entry.depth) == start
    ensures TreeInvariant(g, nodeMap, queue, start, maxDepth, parents) && QueueDistinct(queue)
    ensures ExpansionsLinked(g, nodeMap, expanded)
    ensures nodeMap == (if pred in nodeMap0 then nodeMap0 else nodeMap0[pred := |g0.nodes|])
    ensures g.nodes == (if pred in nodeMap0 then g0.nodes else g0.nodes + [pred])
    ensures g.edges == g0.edges + [(nodeMap[pred], entry.handle)]
    ensures queue == Enqueue(queue0, pred, nodeMap, entry.depth + 1)
  {
    var predIdx;
    g, nodeMap, predIdx := PlacePredecessor(g0, nodeMap0, queue0, pred, entry.handle, start, maxDepth, parents, expanded);
    assert Iterate(pred, entry.depth + 1) == Iterate(entry.value, entry.depth);
    var next := Entry(pred, predIdx, entry.depth + 1);
    queue := PushIfAbsent(g, nodeMap, queue0, next, start, maxDepth, parents);
  }

  /** Pushes `next` unless an entry with its value is already pending. */
  method PushIfAbsent(g: DiGraph, nodeMap: map<nat, nat>, queue0: seq<Entry>, next: Entry,
                      start: nat, maxDepth: nat, ghost parents: set<nat>)
    returns (queue: seq<Entry>)
    requires TreeInvariant(g, nodeMap, queue0, start, maxDepth, parents) && QueueDistinct(queue0)
    requires next.depth <= maxDepth && Iterate(next.value, next.depth) == start
    requires next.handle < |g.nodes| && g.nodes[next.handle] == next.value
    ensures TreeInvariant(g, nodeMap, queue, start, maxDepth, parents) && QueueDistinct(queue)
    ensures queue == if Pending(queue0, next.value) then queue0 else queue0 + [next]
  {
    queue := queue0;
    if !Pending(queue, next.value) {
      EnqueueKeeps(g, nodeMap, queue, start, maxDepth, parents, next);
      queue := queue + [next];
    }
  }

  /** The handle of a predecessor within the cap, the one it already has or
      a new node appended for it and recorded in the value map, and the edge
      from it to the node at `handle`. */
  method PlacePredecessor(g0: DiGraph, nodeMap0: map<nat, nat>, queue: seq<Entry>, pred: nat, handle: nat,
                          start: nat, maxDepth: nat, ghost parents: set<nat>, ghost expanded: set<nat>)
    returns (g: DiGraph, nodeMap: map<nat, nat>, predIdx: nat)
    requires TreeInvariant(g0, nodeMap0, queue, start, maxDepth, parents)
    requires ExpansionsLinked(g0, nodeMap0, expanded)
    requires pred <= PredecessorCap && Step(pred) in parents
    requires handle < |g0.nodes| && g0.nodes[handle] == Step(pred)
    ensures TreeInvariant(g, nodeMap, queue, start, maxDepth, parents)
    ensures ExpansionsLinked(g, nodeMap, expanded)
    ensures nodeMap == (if pred in nodeMap0 then nodeMap0 else nodeMap0[pred := |g0.nodes|])
    ensures g.nodes == (if pred in nodeMap0 then g0.nodes else g0.nodes + [pred])
    ensures predIdx == nodeMap[pred] && predIdx < |g.nodes| && g.nodes[predIdx] == pred
    ensures g.edges == g0.edges + [(predIdx, handle)]
  {
    if pred in nodeMap0 {
      g, nodeMap, predIdx := g0, nodeMap0, nodeMap0[pred];
    } else {
      predIdx := |g0.nodes|;
      PlaceKeeps(g0, nodeMap0, queue, start, maxDepth, parents, expanded, pred);
      g := g0.AddNode(pred);
      nodeMap := nodeMap0[pred := predIdx];
    }
    LinkKeeps(g, nodeMap, queue, start, maxDepth, parents, expanded, predIdx, handle);
    g := g.AddEdge(predIdx, handle);
  }

  /** Each of the first `k` values of `ps` within the cap is placed, with an
      edge to `handle`. */
  ghost predicate LinkedTo(g: DiGraph, nodeMap: map<nat, nat>, ps: seq<nat>, k: nat, handle: nat)
    requires k <= |ps|
  {
    forall j :: 0 <= j < k && ps[j] <= PredecessorCap ==>
      ps[j] in nodeMap && (nodeMap[ps[j]], handle) in g.edges
  }

  /** Links survive an extension of the graph, and the next value, once
      linked, joins them. */
  lemma LinkedToGrows(g0: DiGraph, nodeMap0: map<nat, nat>, g: DiGraph, nodeMap: map<nat, nat>,
                      ps: seq<nat>, k: nat, handle: nat)
    requires k < |ps| && LinkedTo(g0, nodeMap0, ps, k, handle) && Extends(g0, nodeMap0, g, nodeMap)
    requires ps[k] <= PredecessorCap ==> ps[k] in nodeMap && (nodeMap[ps[k]], handle) in g.edges
    ensures LinkedTo(g, nodeMap, ps, k + 1, handle)
  {
  }

  /** Once every predecessor of `v` within the cap is linked to its node, `v`
      joins the expanded values. */
  lemma FinishExpansion(g: DiGraph, nodeMap: map<nat, nat>, expanded: set<nat>, v: nat)
    requires 2 * v <= U64Max && v in nodeMap && ExpansionsLinked(g, nodeMap, expanded)
    requires LinkedTo(g, nodeMap, Predecessors(v), |Predecessors(v)|, nodeMap[v])
    ensures ExpansionsLinked(g, nodeMap, expanded + {v})
  {
    assert PredecessorsLinked(g, nodeMap, v);
    forall u | u in expanded + {v}
      ensures PredecessorsLinked(g, nodeMap, u)
    {
    }
  }

  /** After the first `k` predecessors `ps` were handled, starting from `g0`,
      `nodeMap0` and `queue0`: the graph and the map only grew, every new node
      is one of them, and the edges and the worklist are those that handling
      them in order adds. */
  ghost predicate HandledSoFar(g0: DiGraph, nodeMap0: map<nat, nat>, queue0: seq<Entry>, entry: Entry,
                               ps: seq<nat>, k: nat, g: DiGraph, nodeMap: map<nat, nat>, queue: seq<Entry>)
    requires k <= |ps|
  {
    && Extends(g0, nodeMap0, g, nodeMap)
    && g.nodes == NewNodes(g0.nodes, ps, k)
    && Mapped(ps[..k], nodeMap)
    && g.edges == g0.edges + LinkEdges(ps[..k], nodeMap, entry.handle)
    && queue == EnqueueAll(queue0, ps[..k], nodeMap, entry.depth + 1)
  }

  /** The node list `LinkPredecessor` leaves after predecessor `ps[k]` is
      the one `NewNodes` gives. */
  lemma NodesStep(nodes0: seq<nat>, ps: seq<nat>, k: nat, nodes1: seq<nat>, nodeMap1: map<nat, nat>, nodes: seq<nat>)
    requires k < |ps| && nodes1 == NewNodes(nodes0, ps, k) && NodeMapAgrees(nodes1, nodeMap1)
    requires ps[k] > PredecessorCap ==> nodes == nodes1
    requires ps[k] <= PredecessorCap ==> nodes == (if ps[k] in nodeMap1 then nodes1 else nodes1 + [ps[k]])
    ensures nodes == NewNodes(nodes0, ps, k + 1)
  {
    assert ps[k] in nodeMap1 <==> ps[k] in nodes1;
  }

  /** The edges and the worklist `LinkPredecessor` leaves after predecessor
      `ps[k]` are those of handling `ps[..k + 1]` in order. */
  lemma LinksStep(edges0: seq<(nat, nat)>, queue0: seq<Entry>, ps: seq<nat>, k: nat, handle: nat, depth: nat,
                  nodeMap1: map<nat, nat>, edges1: seq<(nat, nat)>, queue1: seq<Entry>,
                  nodeMap: map<nat, nat>, edges: seq<(nat, nat)>, queue: seq<Entry>)
    requires k < |ps| && Mapped(ps[..k], nodeMap1)
    requires edges1 == edges0 + LinkEdges(ps[..k], nodeMap1, handle)
    requires queue1 == EnqueueAll(queue0, ps[..k], nodeMap1, depth)
    requires forall v :: v in nodeMap1 ==> v in nodeMap && nodeMap[v] == nodeMap1[v]
    requires ps[k] > PredecessorCap ==> edges == edges1
    requires ps[k] <= PredecessorCap ==> ps[k] in nodeMap && edges == edges1 + [(nodeMap[ps[k]], handle)]
    requires queue == Enqueue(queue1, ps[k], nodeMap, depth)
    ensures Mapped(ps[..k + 1], nodeMap)
    ensures edges == edges0 + LinkEdges(ps[..k + 1], nodeMap, handle)
    ensures queue == EnqueueAll(queue0, ps[..k + 1], nodeMap, depth)
  {
    var done := ps[..k + 1];
    assert done[..k] == ps[..k] && done[k] == ps[k];
    HandledFrame(queue0, ps[..k], nodeMap1, nodeMap, depth, handle);
    forall j | 0 <= j < |done| && done[j] <= PredecessorCap
      ensures done[j] in nodeMap
    {
      if j < k {
        assert ps[..k][j] in nodeMap1;
      }
    }
  }

  /** Handling predecessor `ps[k]` with `LinkPredecessor` advances
      `HandledSoFar` by one. */
  lemma HandledStep(g0: DiGraph, nodeMap0: map<nat, nat>, queue0: seq<Entry>, entry: Entry, ps: seq<nat>, k: nat,
                    g1: DiGraph, nodeMap1: map<nat, nat>, queue1: seq<Entry>,
                    g: DiGraph, nodeMap: map<nat, nat>, queue: seq<Entry>)
    requires k < |ps| && HandledSoFar(g0, nodeMap0, queue0, entry, ps, k, g1, nodeMap1, queue1)
    requires NodeMapAgrees(g1.nodes, nodeMap1) && Extends(g1, nodeMap1, g, nodeMap)
    requires ps[k] > PredecessorCap ==> g == g1 && nodeMap == nodeMap1
    requires ps[k] <= PredecessorCap ==>
               && ps[k] in nodeMap
               && g.nodes == (if ps[k] in nodeMap1 then g1.nodes else g1.nodes + [ps[k]])
               && g.edges == g1.edges + [(nodeMap[ps[k]], entry.handle)]
    requires queue == Enqueue(queue1, ps[k], nodeMap, entry.depth + 1)
    ensures HandledSoFar(g0, nodeMap0, queue0, entry, ps, k + 1, g, nodeMap, queue)
  {
    NodesStep(g0.nodes, ps, k, g1.nodes, nodeMap1, g.nodes);
    LinksStep(g0.edges, queue0, ps, k, entry.handle, entry.depth + 1,
              nodeMap1, g1.edges, queue1, nodeMap, g.edges, queue);
  }

  /** The invariant of the expansion loop of `entry` after the first `k` of
      its predecessors `ps`: the tree invariant with the entry's value among
      the parents, the entry's node in place, those predecessors linked to
      it, and what handling them added. */
  ghost predicate Expanding(g0: DiGraph, nodeMap0: map<nat, nat>, queue0: seq<Entry>, entry: Entry,
                            start: nat, maxDepth: nat, expanded: set<nat>, ps: seq<nat>, k: nat,
                            g: DiGraph, nodeMap: map<nat, nat>, queue: seq<Entry>)
    requires k <= |ps|
  {
    && TreeInvariant(g, nodeMap, queue, start, maxDepth, expanded + {entry.value}) && QueueDistinct(queue)
    && ExpansionsLinked(g, nodeMap, expanded)
    && entry.handle < |g.nodes| && g.nodes[entry.handle] == entry.value
    && LinkedTo(g, nodeMap, ps, k, entry.handle)
    && HandledSoFar(g0, nodeMap0, queue0, entry, ps, k, g, nodeMap, queue)
  }

  /** One round of the expansion loop: predecessor `ps[k]` goes through
      `LinkPredecessor`, adding at most one entry one level deeper. */
  method ExpandStep(g0: DiGraph, nodeMap0: map<nat, nat>, queue0: seq<Entry>, entry: Entry,
                    start: nat, maxDepth: nat, ghost expanded: set<nat>, ps: seq<nat>, k: nat,
                    g1: DiGraph, nodeMap1: map<nat, nat>, queue1: seq<Entry>)
    returns (g: DiGraph, nodeMap: map<nat, nat>, queue: seq<Entry>)
    requires entry.depth < maxDepth && Iterate(entry.value, entry.depth) == start
    requires k < |ps| && Step(ps[k]) == entry.value
    requires Expanding(g0, nodeMap0, queue0, entry, start, maxDepth, expanded, ps, k, g1, nodeMap1, queue1)
    ensures Expanding(g0, nodeMap0, queue0, entry, start, maxDepth, expanded, ps, k + 1, g, nodeMap, queue)
    ensures Weight(queue, maxDepth) <= Weight(queue1, maxDepth) + Pow3(maxDepth - entry.depth - 1)
  {
    g, nodeMap, queue := LinkPredecessor(g1, nodeMap1, queue1, entry, ps[k],
                                         start, maxDepth, expanded + {entry.value}, expanded);
    EnqueueWeight(queue1, ps[k], nodeMap, entry.depth, maxDepth, queue);
    LinkedToGrows(g1, nodeMap1, g, nodeMap, ps, k, entry.handle);
    HandledStep(g0, nodeMap0, queue0, entry, ps, k, g1, nodeMap1, queue1, g, nodeMap, queue);
  }

  /** Before any predecessor is handled the expansion loop's invariant
      holds. */
  lemma ExpandingStarts(g0: DiGraph, nodeMap0: map<nat, nat>, queue0: seq<Entry>, entry: Entry,
                        start: nat, maxDepth: nat, expanded: set<nat>, ps: seq<nat>)
    requires TreeInvariant(g0, nodeMap0, queue0, start, maxDepth, expanded) && QueueDistinct(queue0)
    requires ExpansionsLinked(g0, nodeMap0, expanded)
    requires entry.handle < |g0.nodes| && g0.nodes[entry.handle] == entry.value
    ensures Expanding(g0, nodeMap0, queue0, entry, start, maxDepth, expanded, ps, 0, g0, nodeMap0, queue0)
  {
    assert ps[..0] == [];
  }

  /** Once every predecessor is handled, the entry's value joins the
      expanded values and the edges and worklist are those of all of them. */
  lemma ExpandingEnds(g0: DiGraph, nodeMap0: map<nat, nat>, queue0: seq<Entry>, entry: Entry,
                      start: nat, maxDepth: nat, expanded: set<nat>,
                      g: DiGraph, nodeMap: map<nat, nat>, queue: seq<Entry>)
    requires 2 * entry.value <= U64Max
    requires Expanding(g0, nodeMap0, queue0, entry, start, maxDepth, expanded, Predecessors(entry.value),
                       |Predecessors(entry.value)|, g, nodeMap, queue)
    ensures TreeInvariant(g, nodeMap, queue, start, maxDepth, expanded + {entry.value})
    ensures QueueDistinct(queue)
    ensures ExpansionsLinked(g, nodeMap, expanded + {entry.value})
    ensures Extends(g0, nodeMap0, g, nodeMap)
    ensures g.nodes == NewNodes(g0.nodes, Predecessors(entry.value), |Predecessors(entry.value)|)
    ensures Mapped(Predecessors(entry.value), nodeMap)
    ensures g.edges == g0.edges + LinkEdges(Predecessors(entry.value), nodeMap, entry.handle)
    ensures queue == EnqueueAll(queue0, Predecessors(entry.value), nodeMap, entry.depth + 1)
  {
    var ps := Predecessors(entry.value);
    assert ps[..|ps|] == ps;
    FinishExpansion(g, nodeMap, expanded, entry.value);
  }

  /** The expansion loop: every predecessor in `ps`, in order, goes through
      `LinkPredecessor`. Each adds at most one entry one level deeper, so the
      worklist weight grows by less than that of the entry. */
  method ExpandAll(g0: DiGraph, nodeMap0: map<nat, nat>, queue0: seq<Entry>, entry: Entry,
                   start: nat, maxDepth: nat, ghost expanded: set<nat>, ps: seq<nat>)
    returns (g: DiGraph, nodeMap: map<nat, nat>, queue: seq<Entry>)
    requires entry.depth < maxDepth && Iterate(entry.value, entry.depth) == start
    requires |ps| <= 2 && forall j :: 0 <= j < |ps| ==> Step(ps[j]) == entry.value
    requires Expanding(g0, nodeMap0, queue0, entry, start, maxDepth, expanded, ps, 0, g0, nodeMap0, queue0)
    ensures Expanding(g0, nodeMap0, queue0, entry, start, maxDepth, expanded, ps, |ps|, g, nodeMap, queue)
    ensures Weight(queue, maxDepth) < Weight(queue0, maxDepth) + Pow3(maxDepth - entry.depth)
  {
    g, nodeMap, queue := g0, nodeMap0, queue0;
    ghost var unit := Pow3(maxDepth - entry.depth - 1);
    assert Pow3(maxDepth - entry.depth) == 3 * unit;
    ghost var weight0 := Weight(queue0, maxDepth);
    ghost var budget := 0;
    for k := 0 to |ps|
      invariant Expanding(g0, nodeMap0, queue0, entry, start, maxDepth, expanded, ps, k, g, nodeMap, queue)
      invariant Weight(queue, maxDepth) <= weight0 + budget
      invariant (k == 0 && budget == 0) || (k == 1 && budget == unit) || (k == 2 && budget == unit + unit)
    {
      g, nodeMap, queue := ExpandStep(g0, nodeMap0, queue0, entry, start, maxDepth, expanded, ps, k,
                                      g, nodeMap, queue);
      budget := budget + unit;
    }
  }

  /** What expanding `entry` left in the graph, the value map and the
      worklist, starting from `g0`, `nodeMap0` and `queue0`: its predecessors,
      in order, got their nodes (`NewNodes`), an edge to the entry's node
      each (`LinkEdges`) and their entries (`EnqueueAll`). */
  ghost predicate ExpandedBy(g0: DiGraph, nodeMap0: map<nat, nat>, queue0: seq<Entry>, entry: Entry,
                             g: DiGraph, nodeMap: map<nat, nat>, queue: seq<Entry>)
  {
    && 2 * entry.value <= U64Max && Extends(g0, nodeMap0, g, nodeMap)
    && Mapped(Predecessors(entry.value), nodeMap)
    && g.nodes == NewNodes(g0.nodes, Predecessors(entry.value), |Predecessors(entry.value)|)
    && g.edges == g0.edges + LinkEdges(Predecessors(entry.value), nodeMap, entry.handle)
    && queue == EnqueueAll(queue0, Predecessors(entry.value), nodeMap, entry.depth + 1)
  }

  /** One expansion of the inverse-tree builder: every predecessor of the
      popped entry's value, in order, goes through `LinkPredecessor`. */
  method ExpandEntry(g0: DiGraph, nodeMap0: map<nat, nat>, queue0: seq<Entry>, entry: Entry,
                     start: nat, maxDepth: nat, ghost expanded: set<nat>)
    returns (g: DiGraph, nodeMap: map<nat, nat>, queue: seq<Entry>)
    requires entry.depth < maxDepth && Iterate(entry.value, entry.depth) == start
    requires TreeInvariant(g0, nodeMap0, queue0, start, maxDepth, expanded) && QueueDistinct(queue0)
    requires ExpansionsLinked(g0, nodeMap0, expanded)
    requires entry.handle < |g0.nodes| && g0.nodes[entry.handle] == entry.value
    requires 2 * start <= U64Max
    ensures TreeInvariant(g, nodeMap, queue, start, maxDepth, expanded + {entry.value})
    ensures QueueDistinct(queue)
    ensures ExpansionsLinked(g, nodeMap, expanded + {entry.value})
    ensures ExpandedBy(g0, nodeMap0, queue0, entry, g, nodeMap, queue)
    ensures g0.nodes <= g.nodes
    ensures forall i :: |g0.nodes| <= i < |g.nodes| ==> g.nodes[i] in Predecessors(entry.value)
    ensures Weight(queue, maxDepth) < Weight(queue0, maxDepth) + Pow3(maxDepth - entry.depth)
  {
    assert entry.value == start || entry.value <= PredecessorCap by {
      assert entry.handle == 0 || g0.nodes[entry.handle] <= PredecessorCap;
    }
    var predecessors := Predecessors(entry.value);
    ExpandingStarts(g0, nodeMap0, queue0, entry, start, maxDepth, expanded, predecessors);
    g, nodeMap, queue := ExpandAll(g0, nodeMap0, queue0, entry, start, maxDepth, expanded, predecessors);
    ExpandingEnds(g0, nodeMap0, queue0, entry, start, maxDepth, expanded, g, nodeMap, queue);
    NewNodesFrom(g0.nodes, predecessors, |predecessors|);
  }

  /** `v` reaches `start` in fewer than `bound` steps. */
  ghost predicate Reaches(v: nat, start: nat, bound: nat) {
    exists k: nat :: k < bound && Iterate(v, k) == start
  }

  /** Every expanded value reaches `start` in fewer than `maxDepth` steps. */
  ghost predicate ExpandedWithin(expanded: set<nat>, start: nat, maxDepth: nat) {
    forall v {:trigger Reaches(v, start, maxDepth)} :: v in expanded ==> Reaches(v, start, maxDepth)
  }

  /** The invariant of the worklist loop of `BuildInverseTree`: the tree
      invariant with the expanded values as parents, no value pending twice,
      the expanded values linked and within the depth bound of `start`, a
      bare root while the depth bound is 0, and the root entry alone pending
      until the root is expanded. */
  ghost predicate Worklist(g: DiGraph, nodeMap: map<nat, nat>, queue: seq<Entry>,
                           start: nat, maxDepth: nat, expanded: set<nat>)
  {
    && TreeInvariant(g, nodeMap, queue, start, maxDepth, expanded) && QueueDistinct(queue)
    && ExpansionsLinked(g, nodeMap, expanded) && ExpandedWithin(expanded, start, maxDepth)
    && (maxDepth == 0 ==> |g.nodes| == 1 && |g.edges| == 0)
    && (maxDepth > 0 && start !in expanded ==>
          |queue| == 1 && queue[0].value == start && queue[0].depth == 0)
  }

  /** An entry expanded below the depth bound joins the expanded values
      within reach of `start`. */
  lemma ExpandedGrows(expanded: set<nat>, start: nat, maxDepth: nat, entry: Entry)
    requires ExpandedWithin(expanded, start, maxDepth)
    requires entry.depth < maxDepth && Iterate(entry.value, entry.depth) == start
    ensures ExpandedWithin(expanded + {entry.value}, start, maxDepth)
  {
    assert Reaches(entry.value, start, maxDepth);
    forall v | v in expanded + {entry.value}
      ensures Reaches(v, start, maxDepth)
    {
      if v != entry.value {
        assert v in expanded;
      }
    }
  }

  /** One round of the worklist loop: pop the last entry and expand it unless
      it sits at the depth bound. The worklist weight drops. */
  method PopAndExpand(g0: DiGraph, nodeMap0: map<nat, nat>, queue0: seq<Entry>, start: nat, maxDepth: nat,
                      ghost expanded0: set<nat>, ghost trace0: seq<Entry>)
    returns (g: DiGraph, nodeMap: map<nat, nat>, queue: seq<Entry>, ghost expanded: set<nat>,
             ghost trace: seq<Entry>)
    requires queue0 != [] && (maxDepth > 0 ==> 2 * start <= U64Max)
    requires Worklist(g0, nodeMap0, queue0, start, maxDepth, expanded0)
    requires Traced(g0, nodeMap0, queue0, start, maxDepth, expanded0, trace0)
    ensures Worklist(g, nodeMap, queue, start, maxDepth, expanded)
    ensures Traced(g, nodeMap, queue, start, maxDepth, expanded, trace)
    ensures trace == if queue0[|queue0| - 1].depth < maxDepth then trace0 + [queue0[|queue0| - 1]] else trace0
    ensures Weight(queue, maxDepth) < Weight(queue0, maxDepth)
    ensures var entry := queue0[|queue0| - 1];
            entry.depth >= maxDepth ==>
              g == g0 && nodeMap == nodeMap0 && queue == queue0[..|queue0| - 1] && expanded == expanded0
    ensures var entry := queue0[|queue0| - 1];
            entry.depth < maxDepth ==>
              expanded == expanded0 + {entry.value}
              && ExpandedBy(g0, nodeMap0, queue0[..|queue0| - 1], entry, g, nodeMap, queue)
  {
    g, nodeMap, expanded := g0, nodeMap0, expanded0;
    var entry := queue0[|queue0| - 1];
    DequeueKeeps(g, nodeMap, queue0, start, maxDepth, expanded);
    queue := queue0[..|queue0| - 1];
    if entry.depth < maxDepth {
      g, nodeMap, queue := ExpandEntry(g, nodeMap, queue, entry, start, maxDepth, expanded);
      ExpandedGrows(expanded, start, maxDepth, entry);
      TracedExpand(g0, nodeMap0, queue0, start, maxDepth, expanded0, trace0, entry, g, nodeMap, queue);
      expanded := expanded + {entry.value};
      trace := trace0 + [entry];
    } else {
      TracedDrop(g, nodeMap, queue0, start, maxDepth, expanded, trace0);
      trace := trace0;
    }
  }

  /** Expanded values reach `start` in fewer than `maxDepth` steps, so the
      root and the predecessors of expanded values reach it in at most
      `maxDepth`. */
  lemma WithinDepth(g: DiGraph, start: nat, maxDepth: nat, expanded: set<nat>)
    requires |g.nodes| >= 1 && g.nodes[0] == start
    requires forall i :: 1 <= i < |g.nodes| ==> Step(g.nodes[i]) in expanded
    requires ExpandedWithin(expanded, start, maxDepth)
    ensures forall v :: v in expanded ==> Reaches(v, start, maxDepth)
    ensures forall i :: 0 <= i < |g.nodes| ==> Reaches(g.nodes[i], start, maxDepth + 1)
  {
    forall v | v in expanded
      ensures Reaches(v, start, maxDepth)
    {
      assert Reaches(v, start, maxDepth);
    }
    forall i | 0 <= i < |g.nodes|
      ensures Reaches(g.nodes[i], start, maxDepth + 1)
    {
      if i == 0 {
        assert Iterate(start, 0) == start;
      } else {
        var parent := Step(g.nodes[i]);
        assert Reaches(parent, start, maxDepth);
        var k: nat :| k < maxDepth && Iterate(parent, k) == start;
        assert Iterate(g.nodes[i], k + 1) == start;
      }
    }
  }

  /** Every expanded entry's value has its predecessors within 64 bits, and
      those within the cap have handles in `nodeMap`. */
  ghost predicate TraceMapped(trace: seq<Entry>, nodeMap: map<nat, nat>) {
    forall i :: 0 <= i < |trace| ==>
      2 * trace[i].value <= U64Max && Mapped(Predecessors(trace[i].value), nodeMap)
  }

  /** The node list once the entries of `trace` were expanded in turn,
      starting from `nodes`. */
  ghost function GrownNodes(nodes: seq<nat>, trace: seq<Entry>, nodeMap: map<nat, nat>): seq<nat>
    requires TraceMapped(trace, nodeMap)
  {
    if trace == [] then nodes
    else
      var last := trace[|trace| - 1];
      var ps := Predecessors(last.value);
      NewNodes(GrownNodes(nodes, trace[..|trace| - 1], nodeMap), ps, |ps|)
  }

  /** The edges added while the entries of `trace` were expanded in turn. */
  ghost function TraceEdges(trace: seq<Entry>, nodeMap: map<nat, nat>): seq<(nat, nat)>
    requires TraceMapped(trace, nodeMap)
  {
    if trace == [] then []
    else
      var last := trace[|trace| - 1];
      TraceEdges(trace[..|trace| - 1], nodeMap) + LinkEdges(Predecessors(last.value), nodeMap, last.handle)
  }

  /** Each expansion adds at most two edges, one per predecessor. */
  lemma {:induction false} TraceEdgesBound(trace: seq<Entry>, nodeMap: map<nat, nat>)
    requires TraceMapped(trace, nodeMap)
    ensures |TraceEdges(trace, nodeMap)| <= 2 * |trace|
  {
    if trace != [] {
      var rest := trace[..|trace| - 1];
      assert TraceMapped(rest, nodeMap) by {
        forall i | 0 <= i < |rest|
          ensures 2 * rest[i].value <= U64Max && Mapped(Predecessors(rest[i].value), nodeMap)
        {
          assert rest[i] == trace[i];
        }
      }
      TraceEdgesBound(rest, nodeMap);
    }
  }

  /** The values of the entries of `trace`. */
  ghost function TraceValues(trace: seq<Entry>): set<nat> {
    set i | 0 <= i < |trace| :: trace[i].value
  }

  /** Every entry of `trace` sat above the depth bound, and the only one at
      depth 0 is the root entry, expanded first. */
  ghost predicate RootFirst(trace: seq<Entry>, start: nat, maxDepth: nat) {
    && (forall i :: 0 <= i < |trace| ==> trace[i].depth < maxDepth)
    && (forall i :: 0 <= i < |trace| && trace[i].depth == 0 ==> i == 0 && trace[i] == Entry(start, 0, 0))
  }

  /** A larger value map that keeps the old handles gives the same edges. */
  lemma {:induction false} TraceFrame(trace: seq<Entry>, nodeMap0: map<nat, nat>, nodeMap: map<nat, nat>)
    requires TraceMapped(trace, nodeMap0)
    requires forall v :: v in nodeMap0 ==> v in nodeMap && nodeMap[v] == nodeMap0[v]
    ensures TraceMapped(trace, nodeMap)
    ensures TraceEdges(trace, nodeMap0) == TraceEdges(trace, nodeMap)
    ensures forall nodes :: GrownNodes(nodes, trace, nodeMap0) == GrownNodes(nodes, trace, nodeMap)
  {
    if trace != [] {
      var last := trace[|trace| - 1];
      TraceFrame(trace[..|trace| - 1], nodeMap0, nodeMap);
      HandledFrame([], Predecessors(last.value), nodeMap0, nodeMap, 0, last.handle);
    }
  }

  /** The entries `EnqueueAll` adds all have the given depth. */
  lemma {:induction false} EnqueueAllDepth(queue: seq<Entry>, ps: seq<nat>, nodeMap: map<nat, nat>, depth: nat)
    requires Mapped(ps, nodeMap)
    ensures forall i :: |queue| <= i < |EnqueueAll(queue, ps, nodeMap, depth)| ==>
              EnqueueAll(queue, ps, nodeMap, depth)[i].depth == depth
  {
    if ps != [] {
      EnqueueAllDepth(queue, ps[..|ps| - 1], nodeMap, depth);
    }
  }

  /** The record the worklist loop keeps of its expansions: `trace` lists
      the entries expanded so far, in order, and their values are the
      expanded ones; the graph is what expanding them in turn built from the
      root alone; and only the root entry is ever pending at depth 0. */
  ghost predicate Traced(g: DiGraph, nodeMap: map<nat, nat>, queue: seq<Entry>, start: nat, maxDepth: nat,
                         expanded: set<nat>, trace: seq<Entry>)
  {
    && TraceMapped(trace, nodeMap)
    && g.nodes == GrownNodes([start], trace, nodeMap)
    && g.edges == TraceEdges(trace, nodeMap)
    && RootFirst(trace, start, maxDepth) && expanded == TraceValues(trace)
    && RootAlone(queue, trace, start)
  }

  /** An entry at depth 0 in `queue` can only be the root entry, pending
      alone before anything was expanded. */
  ghost predicate RootAlone(queue: seq<Entry>, trace: seq<Entry>, start: nat) {
    forall i :: 0 <= i < |queue| && queue[i].depth == 0 ==> trace == [] && queue == [Entry(start, 0, 0)]
  }

  /** Expanding one more entry adds its value, its new nodes and its edges. */
  lemma TraceSnoc(trace0: seq<Entry>, entry: Entry, nodeMap: map<nat, nat>, nodes: seq<nat>)
    requires TraceMapped(trace0, nodeMap)
    requires 2 * entry.value <= U64Max && Mapped(Predecessors(entry.value), nodeMap)
    ensures TraceMapped(trace0 + [entry], nodeMap)
    ensures GrownNodes(nodes, trace0 + [entry], nodeMap) ==
              NewNodes(GrownNodes(nodes, trace0, nodeMap), Predecessors(entry.value), |Predecessors(entry.value)|)
    ensures TraceEdges(trace0 + [entry], nodeMap) ==
              TraceEdges(trace0, nodeMap) + LinkEdges(Predecessors(entry.value), nodeMap, entry.handle)
    ensures TraceValues(trace0 + [entry]) == TraceValues(trace0) + {entry.value}
  {
    var trace := trace0 + [entry];
    assert trace[..|trace0|] == trace0;
    forall i | 0 <= i < |trace|
      ensures 2 * trace[i].value <= U64Max && Mapped(Predecessors(trace[i].value), nodeMap)
    {
      if i < |trace0| {
        assert trace[i] == trace0[i];
      }
    }
    forall v | v in TraceValues(trace)
      ensures v in TraceValues(trace0) + {entry.value}
    {
      var i :| 0 <= i < |trace| && trace[i].value == v;
      if i < |trace0| {
        assert trace0[i].value == v;
      }
    }
    forall v | v in TraceValues(trace0) + {entry.value}
      ensures v in TraceValues(trace)
    {
      if v != entry.value {
        var i :| 0 <= i < |trace0| && trace0[i].value == v;
        assert trace[i].value == v;
      } else {
        assert trace[|trace0|].value == v;
      }
    }
  }

  /** The root entry, expanded first, or an entry one level deeper or more
      keeps the trace rooted. */
  lemma RootFirstSnoc(trace0: seq<Entry>, entry: Entry, start: nat, maxDepth: nat)
    requires RootFirst(trace0, start, maxDepth) && entry.depth < maxDepth
    requires entry.depth == 0 ==> trace0 == [] && entry == Entry(start, 0, 0)
    ensures RootFirst(trace0 + [entry], start, maxDepth)
  {
    var trace := trace0 + [entry];
    forall i | 0 <= i < |trace| && trace[i].depth == 0
      ensures i == 0 && trace[i] == Entry(start, 0, 0)
    {
      if i < |trace0| {
        assert trace[i] == trace0[i];
      }
    }
  }

  /** Expanding the popped `entry` extends the trace by that entry. */
  lemma TracedExpand(g0: DiGraph, nodeMap0: map<nat, nat>, queue0: seq<Entry>, start: nat, maxDepth: nat,
                     expanded0: set<nat>, trace0: seq<Entry>, entry: Entry,
                     g: DiGraph, nodeMap: map<nat, nat>, queue: seq<Entry>)
    requires queue0 != [] && entry == queue0[|queue0| - 1] && entry.depth < maxDepth
    requires Traced(g0, nodeMap0, queue0, start, maxDepth, expanded0, trace0)
    requires ExpandedBy(g0, nodeMap0, queue0[..|queue0| - 1], entry, g, nodeMap, queue)
    ensures Traced(g, nodeMap, queue, start, maxDepth, expanded0 + {entry.value}, trace0 + [entry])
  {
    TracedGraph(g0, nodeMap0, queue0, start, maxDepth, expanded0, trace0, entry, g, nodeMap, queue);
    TracedQueue(g0, nodeMap0, queue0, start, maxDepth, expanded0, trace0, entry, g, nodeMap, queue);
  }

  /** The graph part of `TracedExpand`: the new nodes and edges are those of
      expanding `entry` after the trace. */
  lemma TracedGraph(g0: DiGraph, nodeMap0: map<nat, nat>, queue0: seq<Entry>, start: nat, maxDepth: nat,
                    expanded0: set<nat>, trace0: seq<Entry>, entry: Entry,
                    g: DiGraph, nodeMap: map<nat, nat>, queue: seq<Entry>)
    requires queue0 != [] && Traced(g0, nodeMap0, queue0, start, maxDepth, expanded0, trace0)
    requires ExpandedBy(g0, nodeMap0, queue0[..|queue0| - 1], entry, g, nodeMap, queue)
    ensures TraceMapped(trace0 + [entry], nodeMap)
    ensures g.nodes == GrownNodes([start], trace0 + [entry], nodeMap)
    ensures g.edges == TraceEdges(trace0 + [entry], nodeMap)
    ensures expanded0 + {entry.value} == TraceValues(trace0 + [entry])
  {
    TraceFrame(trace0, nodeMap0, nodeMap);
    TraceSnoc(trace0, entry, nodeMap, [start]);
  }

  /** The worklist part of `TracedExpand`: the root entry can only be
      expanded first, and no entry at depth 0 is pending afterwards. */
  lemma TracedQueue(g0: DiGraph, nodeMap0: map<nat, nat>, queue0: seq<Entry>, start: nat, maxDepth: nat,
                    expanded0: set<nat>, trace0: seq<Entry>, entry: Entry,
                    g: DiGraph, nodeMap: map<nat, nat>, queue: seq<Entry>)
    requires queue0 != [] && entry == queue0[|queue0| - 1] && entry.depth < maxDepth
    requires Traced(g0, nodeMap0, queue0, start, maxDepth, expanded0, trace0)
    requires ExpandedBy(g0, nodeMap0, queue0[..|queue0| - 1], entry, g, nodeMap, queue)
    ensures RootFirst(trace0 + [entry], start, maxDepth)
    ensures RootAlone(queue, trace0 + [entry], start)
  {
    assert entry.depth == 0 ==> trace0 == [] && queue0 == [Entry(start, 0, 0)] by {
      assert queue0[|queue0| - 1] == entry;
    }
    RootFirstSnoc(trace0, entry, start, maxDepth);
    NoRootPending(queue0, Predecessors(entry.value), nodeMap, entry.depth + 1, queue, start, trace0);
  }

  /** Once the last entry is popped from a worklist whose only possible
      depth-0 entry was a lone root entry, and entries one level deeper or
      more are queued, no entry at depth 0 is pending. */
  lemma NoRootPending(queue0: seq<Entry>, ps: seq<nat>, nodeMap: map<nat, nat>, depth: nat,
                      queue: seq<Entry>, start: nat, trace: seq<Entry>)
    requires queue0 != [] && Mapped(ps, nodeMap) && depth > 0
    requires queue == EnqueueAll(queue0[..|queue0| - 1], ps, nodeMap, depth)
    requires RootAlone(queue0, trace, start)
    ensures forall i :: 0 <= i < |queue| ==> queue[i].depth != 0
  {
    var rest := queue0[..|queue0| - 1];
    EnqueueAllDepth(rest, ps, nodeMap, depth);
    forall i | 0 <= i < |queue|
      ensures queue[i].depth != 0
    {
      if i < |rest| {
        assert queue[i] == queue0[i];
      }
    }
  }

  /** Popping an entry at the depth bound leaves the trace as it was. */
  lemma TracedDrop(g: DiGraph, nodeMap: map<nat, nat>, queue0: seq<Entry>, start: nat, maxDepth: nat,
                   expanded: set<nat>, trace: seq<Entry>)
    requires queue0 != [] && Traced(g, nodeMap, queue0, start, maxDepth, expanded, trace)
    ensures Traced(g, nodeMap, queue0[..|queue0| - 1], start, maxDepth, expanded, trace)
  {
    var queue := queue0[..|queue0| - 1];
    forall i | 0 <= i < |queue|
      ensures queue[i].depth != 0
    {
      assert queue[i] == queue0[i];
    }
  }

  /** Builds the graph of predecessors of `start` up to `maxDepth` steps back,
      with a last-in first-out worklist; an entry at the depth bound is popped
      without being expanded. Values that were expanded before can be queued
      and expanded again and add parallel edges, and the result may have
      cycles (1 -> 4 -> 2 -> 1 for start 1 and depth 3). `trace` lists the
      expanded entries in the order they were popped and `expanded` holds
      their values: the graph is what expanding them in turn builds from the
      root node, at most two edges per expansion. */
  method BuildInverseTree(start: nat, maxDepth: nat)
    returns (g: DiGraph, nodeMap: map<nat, nat>, ghost expanded: set<nat>, ghost trace: seq<Entry>)
    requires start <= U64Max
    requires maxDepth > 0 ==> 2 * start <= U64Max
    ensures g.Valid()
    ensures |g.nodes| >= 1 && g.nodes[0] == start && start in nodeMap && nodeMap[start] == 0
    ensures maxDepth == 0 ==> g.nodes == [start] && g.edges == []
    ensures forall i :: 1 <= i < |g.nodes| ==> g.nodes[i] <= PredecessorCap
    ensures NodeMapAgrees(g.nodes, nodeMap) && Distinct(g.nodes)
    ensures forall i :: 0 <= i < |g.edges| ==> Step(g.nodes[g.edges[i].0]) == g.nodes[g.edges[i].1]
    ensures maxDepth > 0 ==> start in expanded
    ensures ExpansionsLinked(g, nodeMap, expanded)
    ensures forall i :: 1 <= i < |g.nodes| ==> Step(g.nodes[i]) in expanded
    ensures forall v :: v in expanded ==> Reaches(v, start, maxDepth)
    ensures forall i :: 0 <= i < |g.nodes| ==> Reaches(g.nodes[i], start, maxDepth + 1)
    ensures TraceMapped(trace, nodeMap) && expanded == TraceValues(trace) && RootFirst(trace, start, maxDepth)
    ensures g.nodes == GrownNodes([start], trace, nodeMap) && g.edges == TraceEdges(trace, nodeMap)
    ensures |g.edges| <= 2 * |trace|
  {
    g := DiGraph([start], []);
    nodeMap := map[start := 0];
    expanded := {};
    trace := [];
    var queue := [Entry(start, 0, 0)];
    while queue != []
      invariant Worklist(g, nodeMap, queue, start, maxDepth, expanded)
      invariant Traced(g, nodeMap, queue, start, maxDepth, expanded, trace)
      decreases Weight(queue, maxDepth)
    {
      g, nodeMap, queue, expanded, trace := PopAndExpand(g, nodeMap, queue, start, maxDepth, expanded, trace);
    }
    NodeMapDistinct(g.nodes, nodeMap);
    assert maxDepth == 0 ==> g.nodes == [start];
    WithinDepth(g, start, maxDepth, expanded);
    TraceEdgesBound(trace, nodeMap);
  }

  /** With depth bound 1 the only entry expanded is the root entry. */
  lemma RootOnlyTrace(trace: seq<Entry>, start: nat)
    requires RootFirst(trace, start, 1) && start in TraceValues(trace)
    ensures trace == [Entry(start, 0, 0)]
  {
    var i :| 0 <= i < |trace| && trace[i].value == start;
    assert trace[|trace| - 1].depth == 0;
  }

  /** What the contract of `BuildInverseTree(1, 1)` pins down: the root entry
      alone is expanded, so the nodes are exactly [1, 2] and the one edge
      runs from the node of 2 to the node of 1. */
  lemma InverseTreeOfOne(g: DiGraph, nodeMap: map<nat, nat>, expanded: set<nat>, trace: seq<Entry>)
    requires g.Valid() && |g.nodes| >= 1 && g.nodes[0] == 1 && NodeMapAgrees(g.nodes, nodeMap)
    requires forall i :: 0 <= i < |g.edges| ==> Step(g.nodes[g.edges[i].0]) == g.nodes[g.edges[i].1]
    requires 1 in expanded && ExpansionsLinked(g, nodeMap, expanded)
    requires forall i :: 0 <= i < |g.nodes| ==> Reaches(g.nodes[i], 1, 2)
    requires TraceMapped(trace, nodeMap) && expanded == TraceValues(trace) && RootFirst(trace, 1, 1)
    requires g.nodes == GrownNodes([1], trace, nodeMap) && g.edges == TraceEdges(trace, nodeMap)
    ensures Values(g.nodes) == {1, 2}
    ensures |g.edges| >= 1
    ensures forall i :: 0 <= i < |g.edges| ==> g.nodes[g.edges[i].0] == 2 && g.nodes[g.edges[i].1] == 1
    ensures g.nodes == [1, 2] && g.edges == [(1, 0)]
  {
    RootOnlyTrace(trace, 1);
    var ps := Predecessors(1);
    assert ps == [2];
    assert trace[..0] == [];
    assert NewNodes([1], ps, 0) == [1];
    assert g.nodes == [1, 2];
    assert g.nodes[1] == 2;
    assert ps[..0] == [];
    assert LinkEdges(ps, nodeMap, 0) == [(nodeMap[2], 0)];
  }
}
