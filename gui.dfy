/** The layered layout of the graph view: nodes are grouped into levels by a
    breadth-first sweep from the roots, then each level becomes a row of
    evenly spaced positions centred on a vertical axis. Coordinates are exact
    reals. */
module Gui {
  import opened Graph

  const HorizontalSpacing: real := 120.0
  const VerticalSpacing: real := 80.0
  const StartX: real := 400.0
  const StartY: real := 100.0

  /** A point of the drawing area. */
  datatype Pos = Pos(x: real, y: real)

  /** Some edge ends at node `v`. */
  predicate HasIncoming(g: DiGraph, v: nat) {
    exists i :: 0 <= i < |g.edges| && g.edges[i].1 == v
  }

  /** The nodes below handle `k` without incoming edges, in handle order. */
  function RootsBelow(g: DiGraph, k: nat): (roots: seq<nat>)
    requires k <= |g.nodes|
    ensures forall v: nat :: v in roots <==> v < k && !HasIncoming(g, v)
    ensures forall i :: 0 <= i < |roots| ==> roots[i] < k
    ensures forall i, j :: 0 <= i < j < |roots| ==> roots[i] < roots[j]
  {
    if k == 0 then []
    else RootsBelow(g, k - 1) + (if HasIncoming(g, k - 1) then [] else [k - 1])
  }

  /** The nodes without incoming edges, in handle order. */
  function Roots(g: DiGraph): seq<nat> {
    RootsBelow(g, |g.nodes|)
  }

  /** The first level: the roots, or node 0 alone when every node has an
      incoming edge. */
  function FirstLevel(g: DiGraph): (first: seq<nat>)
    requires |g.nodes| > 0
    ensures first != [] && forall i :: 0 <= i < |first| ==> first[i] < |g.nodes|
    ensures forall i, j :: 0 <= i < j < |first| ==> first[i] < first[j]
    ensures (exists v: nat :: v < |g.nodes| && !HasIncoming(g, v)) ==>
              forall v: nat :: v in first <==> v < |g.nodes| && !HasIncoming(g, v)
    ensures (forall v: nat :: v < |g.nodes| ==> HasIncoming(g, v)) ==> first == [0]
  {
    var roots := Roots(g);
    if roots == [] then [0]
    else
      assert roots[0] in roots;
      roots
  }

  /** The targets of the edges leaving `u`, the most recently added edge
      first (the order in which the graph library lists out-neighbours). */
  function OutNeighbours(edges: seq<(nat, nat)>, u: nat): (succ: seq<nat>)
    ensures forall v :: v in succ <==> (u, v) in edges
  {
    if edges == [] then []
    else
      var last := edges[|edges| - 1];
      (if last.0 == u then [last.1] else []) + OutNeighbours(edges[..|edges| - 1], u)
  }

  /** The next level once the out-neighbours `succ` of one node were
      scanned: each neighbour that is neither visited nor already there is
      appended. */
  function Scanned(succ: seq<nat>, visited: set<nat>, next: seq<nat>): seq<nat> {
    if succ == [] then next
    else
      var before := Scanned(succ[..|succ| - 1], visited, next);
      var v := succ[|succ| - 1];
      if v !in visited && v !in before then before + [v] else before
  }

  /** The visited set and the next level once the first `p` nodes of `level`
      were processed, starting from `visited`: each node is marked visited
      before its out-neighbours are scanned. */
  function Pass(g: DiGraph, level: seq<nat>, p: nat, visited: set<nat>): (set<nat>, seq<nat>)
    requires p <= |level|
  {
    if p == 0 then (visited, [])
    else
      var (seen, next) := Pass(g, level, p - 1, visited);
      var seen' := seen + {level[p - 1]};
      (seen', Scanned(OutNeighbours(g.edges, level[p - 1]), seen', next))
  }

  /** The level that processing `level` pushes, starting from `visited`. */
  function NextLevel(g: DiGraph, level: seq<nat>, visited: set<nat>): seq<nat> {
    Pass(g, level, |level|, visited).1
  }

  /** Every node that appears in some level. */
  ghost function Placed(levels: seq<seq<nat>>): set<nat> {
    set k, v | 0 <= k < |levels| && v in levels[k] :: v
  }

  /** The nodes placed by the first `k + 1` levels are those of the first `k`
      and those of level `k`. */
  lemma PlacedPrefix(levels: seq<seq<nat>>, k: nat)
    requires k < |levels|
    ensures Placed(levels[..k + 1]) == Placed(levels[..k]) + Values(levels[k])
  {
    assert levels[..k + 1][k] == levels[k];
    forall v | v in Placed(levels[..k + 1])
      ensures v in Placed(levels[..k]) + Values(levels[k])
    {
      var i :| 0 <= i < k + 1 && v in levels[..k + 1][i];
      if i < k {
        assert v in levels[..k][i];
      }
    }
    forall v | v in Placed(levels[..k])
      ensures v in Placed(levels[..k + 1])
    {
      var i :| 0 <= i < k && v in levels[..k][i];
      assert v in levels[..k + 1][i];
    }
  }

  /** `v` was pushed onto the level after `prev`: it was not visited before
      `prev` was processed, and some node `prev[q]` has an edge to it while
      `v` was still unvisited, that is, `v` is not among `prev[..q + 1]`. */
  ghost predicate PushedFrom(g: DiGraph, prev: seq<nat>, before: set<nat>, v: nat) {
    && v !in before
    && exists q :: 0 <= q < |prev| && (prev[q], v) in g.edges && v !in prev[..q + 1]
  }

  /** Every level but the first is made of nodes pushed from the level before
      it; every level is non-empty, repeats no node and names existing nodes. */
  ghost predicate LevelsWellFormed(g: DiGraph, levels: seq<seq<nat>>)
    requires |g.nodes| > 0
  {
    && |levels| >= 1 && levels[0] == FirstLevel(g)
    && (forall k :: 0 <= k < |levels| ==>
          levels[k] != [] && Distinct(levels[k]) && forall v :: v in levels[k] ==> v < |g.nodes|)
    && (forall k, v :: 1 <= k < |levels| && v in levels[k] ==>
          PushedFrom(g, levels[k - 1], Placed(levels[..k - 1]), v))
  }

  /** Among the first `current` levels, each one pushes exactly the level
      after it, when processed with the nodes of the levels before it
      visited, and the last level pushes nothing. */
  ghost predicate Follows(g: DiGraph, levels: seq<seq<nat>>, current: nat)
    requires current <= |levels|
  {
    forall k :: 0 <= k < current ==>
      NextLevel(g, levels[k], Placed(levels[..k])) == if k + 1 < |levels| then levels[k + 1] else []
  }

  /** What the level loop computes: well-formed levels, each pushed by the
      one before it, whose nodes include every out-neighbour of a placed
      node. */
  ghost predicate IsLevelling(g: DiGraph, levels: seq<seq<nat>>)
    requires |g.nodes| > 0
  {
    && LevelsWellFormed(g, levels)
    && Follows(g, levels, |levels|)
    && forall e :: e in g.edges && e.0 in Placed(levels) ==> e.1 in Placed(levels)
  }

  /** The inner loop over the out-neighbours of one node: an out-neighbour is
      pushed when it is neither visited nor already in the next level. */
  method ScanNeighbours(succ: seq<nat>, visited: set<nat>, next0: seq<nat>) returns (next: seq<nat>)
    ensures next == Scanned(succ, visited, next0)
    ensures next0 <= next
    ensures Distinct(next0) ==> Distinct(next)
    ensures forall v :: v in succ ==> v in visited || v in next
    ensures forall i :: |next0| <= i < |next| ==> next[i] in succ && next[i] !in visited
  {
    next := next0;
    for s := 0 to |succ|
      invariant next == Scanned(succ[..s], visited, next0)
      invariant next0 <= next
      invariant Distinct(next0) ==> Distinct(next)
      invariant forall t :: 0 <= t < s ==> succ[t] in visited || succ[t] in next
      invariant forall i :: |next0| <= i < |next| ==> next[i] in succ && next[i] !in visited
    {
      var neighbour := succ[s];
      assert succ[..s + 1][..s] == succ[..s];
      if neighbour !in visited && neighbour !in next {
        next := next + [neighbour];
      }
    }
    assert succ[..|succ|] == succ;
  }

  /** The invariant of the pass over `level` after its first `p` nodes: the
      visited set and next level are those of `Pass`; the visited set is the
      old one plus those nodes; the next level repeats no node and holds
      only nodes pushed from the level; every edge from one of those nodes to
      a node unvisited when it was scanned ends in the next level; and every
      edge leaving them ends at a visited node or in the next level. */
  ghost predicate Processing(g: DiGraph, level: seq<nat>, visited0: set<nat>, p: nat,
                             visited: set<nat>, next: seq<nat>)
    requires p <= |level|
  {
    && (visited, next) == Pass(g, level, p, visited0)
    && visited == visited0 + Values(level[..p])
    && Distinct(next) && (forall v :: v in next ==> v < |g.nodes|)
    && (forall v :: v in next ==> PushedFrom(g, level, visited0, v))
    && (forall q, v :: 0 <= q < p && (level[q], v) in g.edges && v !in visited0 && v !in level[..q + 1]
          ==> v in next)
    && (forall e :: e in g.edges && e.0 in level[..p] ==> e.1 in visited || e.1 in next)
  }

  /** One round of the pass over a level: node `level[p]` is marked visited,
      then its unvisited out-neighbours join the next level. */
  method VisitNode(g: DiGraph, level: seq<nat>, visited0: set<nat>, p: nat, visited1: set<nat>, next1: seq<nat>)
    returns (visited: set<nat>, next: seq<nat>)
    requires g.Valid() && p < |level| && Processing(g, level, visited0, p, visited1, next1)
    ensures Processing(g, level, visited0, p + 1, visited, next)
  {
    var node := level[p];
    assert level[..p + 1] == level[..p] + [node];
    visited := visited1 + {node};
    var succ := OutNeighbours(g.edges, node);
    next := ScanNeighbours(succ, visited, next1);
    forall v | v in next
      ensures v < |g.nodes| && PushedFrom(g, level, visited0, v)
    {
      var i :| 0 <= i < |next| && next[i] == v;
      if i >= |next1| {
        assert (node, v) in g.edges;
        var k :| 0 <= k < |g.edges| && g.edges[k] == (node, v);
        assert v !in level[..p + 1];
      } else {
        assert v in next1;
      }
    }
    forall q, v | 0 <= q < p + 1 && (level[q], v) in g.edges && v !in visited0 && v !in level[..q + 1]
      ensures v in next
    {
      if q < p {
        assert v in next1;
      } else {
        assert v in succ && v !in visited;
      }
    }
    forall e | e in g.edges && e.0 in level[..p + 1]
      ensures e.1 in visited || e.1 in next
    {
      if e.0 in level[..p] {
        assert e.1 in visited1 || e.1 in next1;
      } else {
        assert e.1 in succ;
      }
    }
  }

  /** One pass over a level: each node is marked visited, then its
      unvisited out-neighbours join the next level. */
  method ProcessLevel(g: DiGraph, level: seq<nat>, visited0: set<nat>)
    returns (visited: set<nat>, next: seq<nat>)
    requires g.Valid()
    ensures next == NextLevel(g, level, visited0)
    ensures visited == visited0 + Values(level)
    ensures Distinct(next) && forall v :: v in next ==> v < |g.nodes|
    ensures forall v :: v in next ==> PushedFrom(g, level, visited0, v)
    ensures forall q, v :: 0 <= q < |level| && (level[q], v) in g.edges && v !in visited0 && v !in level[..q + 1]
              ==> v in next
    ensures forall e :: e in g.edges && e.0 in level ==> e.1 in visited || e.1 in next
  {
    visited := visited0;
    next := [];
    assert level[..0] == [];
    for p := 0 to |level|
      invariant Processing(g, level, visited0, p, visited, next)
    {
      visited, next := VisitNode(g, level, visited0, p, visited, next);
    }
    assert level[..|level|] == level;
  }

  /** Appending a next level made of nodes pushed from the current last level
      keeps the levels well formed. */
  lemma AppendLevel(g: DiGraph, levels: seq<seq<nat>>, next: seq<nat>)
    requires |g.nodes| > 0 && LevelsWellFormed(g, levels)
    requires next != [] && Distinct(next) && forall v :: v in next ==> v < |g.nodes|
    requires forall v :: v in next ==>
               PushedFrom(g, levels[|levels| - 1], Placed(levels[..|levels| - 1]), v)
    ensures LevelsWellFormed(g, levels + [next])
  {
    var extended := levels + [next];
    assert extended[..|levels| - 1] == levels[..|levels| - 1];
  }

  /** Every edge leaving a visited node ends at a visited node or at a node
      of the level processed next. */
  ghost predicate ClosedUpTo(g: DiGraph, visited: set<nat>, pending: seq<nat>) {
    forall e :: e in g.edges && e.0 in visited ==> e.1 in visited || e.1 in pending
  }

  /** The nodes below `n` outside a visited set; the level loop shrinks it. */
  ghost function Unvisited(n: nat, visited: set<nat>): set<nat> {
    set v | 0 <= v < n && v !in visited
  }

  /** Visiting new nodes below `n` shrinks the unvisited nodes. */
  lemma UnvisitedShrinks(n: nat, visited0: set<nat>, visited: set<nat>)
    requires visited0 <= visited && visited != visited0
    requires forall v :: v in visited ==> v < n
    ensures Unvisited(n, visited) < Unvisited(n, visited0)
  {
    var w :| w in visited && w !in visited0;
    assert w in Unvisited(n, visited0) && w !in Unvisited(n, visited);
  }

  /** The invariant of the level loop after `current` levels were
      processed: at most one level is still to be processed, the levels are
      well formed, the visited nodes are those of the processed levels, each
      processed level pushed the level after it, and an edge leaving a
      visited node ends at a visited node or in the level to be processed
      next. */
  ghost predicate LevelLoop(g: DiGraph, levels: seq<seq<nat>>, visited: set<nat>, current: nat)
    requires |g.nodes| > 0
  {
    && current <= |levels| <= current + 1
    && LevelsWellFormed(g, levels)
    && visited == Placed(levels[..current])
    && Follows(g, levels, current)
    && (forall v :: v in visited ==> v < |g.nodes|)
    && ClosedUpTo(g, visited, if current < |levels| then levels[current] else [])
  }

  /** Processing the last level and appending what it pushes, if anything,
      extends `Follows` by that level. */
  lemma FollowsAdvance(g: DiGraph, levels0: seq<seq<nat>>, current: nat, next: seq<nat>, levels: seq<seq<nat>>)
    requires |levels0| == current + 1 && Follows(g, levels0, current)
    requires next == NextLevel(g, levels0[current], Placed(levels0[..current]))
    requires levels == if next == [] then levels0 else levels0 + [next]
    ensures Follows(g, levels, current + 1)
  {
    forall k | 0 <= k < current + 1
      ensures NextLevel(g, levels[k], Placed(levels[..k])) == if k + 1 < |levels| then levels[k + 1] else []
    {
      assert levels[..k] == levels0[..k] && levels[k] == levels0[k];
    }
  }

  /** One round of the level loop: process the current (last) level and
      append the nodes it pushes as a new level, unless there are none. A
      round that visits no new node pushes nothing. */
  method AdvanceLevel(g: DiGraph, levels0: seq<seq<nat>>, visited0: set<nat>, current: nat)
    returns (levels: seq<seq<nat>>, visited: set<nat>)
    requires g.Valid() && |g.nodes| > 0
    requires current < |levels0| && LevelLoop(g, levels0, visited0, current)
    ensures LevelLoop(g, levels, visited, current + 1) && levels[..current + 1] == levels0
    ensures var next := NextLevel(g, levels0[current], visited0);
            levels == if next == [] then levels0 else levels0 + [next]
    ensures visited == visited0 ==> |levels| == current + 1
    ensures visited == visited0 || Unvisited(|g.nodes|, visited) < Unvisited(|g.nodes|, visited0)
  {
    var next;
    visited, next := ProcessLevel(g, levels0[current], visited0);
    PlacedPrefix(levels0, current);
    assert levels0[..current + 1] == levels0;
    levels := levels0;
    if next != [] {
      assert PushedFrom(g, levels0[current], visited0, next[0]);
      AppendLevel(g, levels0, next);
      levels := levels0 + [next];
      assert levels[..current + 1] == levels0;
    }
    FollowsAdvance(g, levels0, current, next, levels);
    if visited != visited0 {
      UnvisitedShrinks(|g.nodes|, visited0, visited);
    }
  }

  /** The level loop: starting from the first level, each level in turn is
      processed and the nodes it pushes, if any, form the next level. The
      loop ends because a level either visits a new node or pushes nothing. */
  method ComputeLevels(g: DiGraph) returns (levels: seq<seq<nat>>)
    requires g.Valid() && |g.nodes| > 0
    ensures IsLevelling(g, levels)
  {
    levels := [FirstLevel(g)];
    var visited: set<nat> := {};
    var current := 0;
    assert levels[..0] == [];
    while current < |levels|
      invariant LevelLoop(g, levels, visited, current)
      decreases Unvisited(|g.nodes|, visited), |levels| - current
    {
      levels, visited := AdvanceLevel(g, levels, visited, current);
      current := current + 1;
    }
    assert levels[..current] == levels;
  }

  /** In a levelling, processing a level pushes nothing exactly when it is
      the last level. */
  lemma LastPushesNothing(g: DiGraph, levels: seq<seq<nat>>, k: nat)
    requires |g.nodes| > 0 && IsLevelling(g, levels) && k < |levels|
    ensures NextLevel(g, levels[k], Placed(levels[..k])) == [] <==> k + 1 == |levels|
    ensures k + 1 < |levels| ==> levels[k + 1] == NextLevel(g, levels[k], Placed(levels[..k]))
  {
    assert Follows(g, levels, |levels|);
    assert NextLevel(g, levels[k], Placed(levels[..k])) == if k + 1 < |levels| then levels[k + 1] else [];
    if k + 1 < |levels| {
      assert levels[k + 1] != [];
    }
  }

  /** A graph has one levelling: the first level is fixed and each level
      determines the next, so the levels the loop computes are the only ones
      `IsLevelling` admits. */
  lemma {:induction false} LevellingUnique(g: DiGraph, a: seq<seq<nat>>, b: seq<seq<nat>>)
    requires |g.nodes| > 0 && IsLevelling(g, a) && IsLevelling(g, b)
    ensures a == b
  {
    var k := 1;
    assert a[..1] == [a[0]] && b[..1] == [b[0]];
    while k < |a| && k < |b|
      invariant 1 <= k <= |a| && k <= |b|
      invariant a[..k] == b[..k]
    {
      assert a[..k - 1] == a[..k][..k - 1] && b[..k - 1] == b[..k][..k - 1];
      assert a[k - 1] == a[..k][k - 1] && b[k - 1] == b[..k][k - 1];
      assert a[k] == NextLevel(g, a[k - 1], Placed(a[..k - 1]));
      assert a[..k + 1] == a[..k] + [a[k]] && b[..k + 1] == b[..k] + [b[k]];
      k := k + 1;
    }
    assert a[..k - 1] == a[..k][..k - 1] && b[..k - 1] == b[..k][..k - 1];
    assert a[k - 1] == a[..k][k - 1] && b[k - 1] == b[..k][k - 1];
    LastPushesNothing(g, a, k - 1);
    LastPushesNothing(g, b, k - 1);
    assert a == a[..k] && b == b[..k];
  }

  /** The graph with edges 0 -> 1, 0 -> 2 and 1 -> 2, added in that order. */
  function Triangle(): DiGraph {
    DiGraph([1, 2, 3], [(0, 1), (0, 2), (1, 2)])
  }

  /** In `Triangle` only node 0 lacks an incoming edge, so it alone is the
      first level. */
  lemma TriangleFirstLevel()
    ensures FirstLevel(Triangle()) == [0]
  {
    var g := Triangle();
    assert g.edges[0].1 == 1 && g.edges[1].1 == 2;
    assert RootsBelow(g, 1) == [0];
    assert RootsBelow(g, 2) == [0];
    assert RootsBelow(g, 3) == [0];
  }

  /** Node 0 of `Triangle` lists its out-neighbours as 2, 1 (most recent
      edge first), node 1 as 2, and node 2 has none. */
  lemma TriangleNeighbours()
    ensures OutNeighbours(Triangle().edges, 0) == [2, 1]
    ensures OutNeighbours(Triangle().edges, 1) == [2]
    ensures OutNeighbours(Triangle().edges, 2) == []
  {
    var e := Triangle().edges;
    assert e[..2] == [(0, 1), (0, 2)] && e[..2][..1] == [(0, 1)] && [(0, 1)][..0] == [];
    assert OutNeighbours([(0, 1)], 0) == [1] && OutNeighbours([(0, 1)], 1) == [] && OutNeighbours([(0, 1)], 2) == [];
    assert OutNeighbours([(0, 1), (0, 2)], 0) == [2, 1];
    assert OutNeighbours([(0, 1), (0, 2)], 1) == [];
    assert OutNeighbours([(0, 1), (0, 2)], 2) == [];
  }

  /** Processing a level of one node `u` pushes its unvisited out-neighbours. */
  lemma SingleNodePass(g: DiGraph, u: nat, visited: set<nat>)
    ensures NextLevel(g, [u], visited) == Scanned(OutNeighbours(g.edges, u), visited + {u}, [])
  {
    assert Pass(g, [u], 0, visited) == (visited, []);
  }

  /** Processing level [0] of `Triangle` pushes [2, 1]. */
  lemma TriangleFirstPass()
    ensures NextLevel(Triangle(), [0], {}) == [2, 1]
  {
    TriangleNeighbours();
    SingleNodePass(Triangle(), 0, {});
    assert {} + {0} == {0};
    ScanTwoOne();
  }

  /** Scanning the neighbours 2, 1 with only node 0 visited keeps both. */
  lemma ScanTwoOne()
    ensures Scanned([2, 1], {0}, []) == [2, 1]
  {
    assert [2, 1][..1] == [2] && [2][..0] == [];
    assert Scanned([2], {0}, []) == [2];
  }

  /** Processing level [2, 1] of `Triangle` after node 0 pushes nothing:
      node 2 has no out-neighbour and node 1 only the visited node 2. */
  lemma TriangleSecondPass()
    ensures NextLevel(Triangle(), [2, 1], Values([0])) == []
  {
    var g := Triangle();
    TriangleNeighbours();
    assert Values([0]) == {0};
    assert Pass(g, [2, 1], 0, {0}) == ({0}, []);
    assert {0} + {[2, 1][0]} == {0, 2};
    assert Scanned([], {0, 2}, []) == [];
    assert Pass(g, [2, 1], 1, {0}) == ({0, 2}, []);
    assert [2][..0] == [];
    assert {0, 2} + {[2, 1][1]} == {0, 2, 1};
    assert Scanned([2], {0, 2, 1}, []) == [];
    assert Pass(g, [2, 1], 2, {0}) == ({0, 2, 1}, []);
  }

  /** A graph whose first level pushes a non-empty level `second` that in
      turn pushes nothing has exactly those two levels. */
  lemma TwoLevels(g: DiGraph, levels: seq<seq<nat>>, first: seq<nat>, second: seq<nat>)
    requires |g.nodes| > 0 && IsLevelling(g, levels) && FirstLevel(g) == first
    requires second != [] && NextLevel(g, first, {}) == second
    requires NextLevel(g, second, Values(first)) == []
    ensures levels == [first, second]
  {
    assert Placed(levels[..0]) == {} by {
      assert levels[..0] == [];
    }
    LastPushesNothing(g, levels, 0);
    assert levels[1] == second;
    PlacedPrefix(levels, 0);
    assert Placed(levels[..1]) == Values(first);
    LastPushesNothing(g, levels, 1);
    assert |levels| == 2;
  }

  /** Its only levelling is [[0], [2, 1]]: node 0 pushes its out-neighbours,
      most recent edge first, so node 2 comes before node 1, and node 1 is
      drawn on level 1 even though it has an edge to node 2. */
  lemma TriangleLevels(g: DiGraph, levels: seq<seq<nat>>)
    requires g == Triangle() && IsLevelling(g, levels)
    ensures levels == [[0], [2, 1]]
  {
    TriangleFirstLevel();
    TriangleFirstPass();
    TriangleSecondPass();
    TwoLevels(g, levels, [0], [2, 1]);
  }

  /** The two level-loop facts the layout relies on. A node appears in two
      levels only when they are consecutive: a node pushed onto level `j`
      was in none of the levels before `j - 1`. */
  lemma {:induction false} AtMostTwoLevels(g: DiGraph, levels: seq<seq<nat>>, v: nat, i: nat, j: nat)
    requires |g.nodes| > 0 && LevelsWellFormed(g, levels)
    requires i < j < |levels| && v in levels[i] && v in levels[j]
    ensures j == i + 1
  {
  }

  /** A node without incoming edges is never pushed, so it can only be in
      the first level. */
  lemma RootsOnlyInFirstLevel(g: DiGraph, levels: seq<seq<nat>>, v: nat, k: nat)
    requires |g.nodes| > 0 && LevelsWellFormed(g, levels)
    requires !HasIncoming(g, v) && 1 <= k < |levels|
    ensures v !in levels[k]
  {
  }

  /** The position of slot `index` in a level of `count` nodes at depth
      `level`: rows are `VerticalSpacing` apart from `StartY`, and a row is
      centred on `StartX` with `HorizontalSpacing` between neighbours. */
  function SlotPos(level: nat, index: nat, count: nat): (p: Pos)
    requires count >= 1
    ensures p.y - StartY == (level as real) * VerticalSpacing
    ensures p.x - StartX == ((index as real) - ((count - 1) as real) / 2.0) * HorizontalSpacing
    ensures index < count ==>
              StartX - ((count - 1) as real) * HorizontalSpacing / 2.0 <= p.x
              <= StartX + ((count - 1) as real) * HorizontalSpacing / 2.0
  {
    Pos(StartX - ((count - 1) as real) * HorizontalSpacing / 2.0 + (index as real) * HorizontalSpacing,
        StartY + (level as real) * VerticalSpacing)
  }

  /** Neighbouring slots of a row are `HorizontalSpacing` apart on one line,
      and the row is symmetric about `StartX`. */
  lemma SlotsEvenlySpaced(level: nat, index: nat, count: nat)
    requires index + 1 < count
    ensures SlotPos(level, index + 1, count).x == SlotPos(level, index, count).x + HorizontalSpacing
    ensures SlotPos(level, index + 1, count).y == SlotPos(level, index, count).y
    ensures SlotPos(level, index, count).x + SlotPos(level, count - 1 - index, count).x == 2.0 * StartX
  {
  }

  /** Level `level + 1` is drawn `VerticalSpacing` below level `level`, and
      the first level on the row `StartY`. */
  lemma RowsEvenlySpaced(level: nat, index: nat, count: nat, index': nat, count': nat)
    requires count >= 1 && count' >= 1
    ensures SlotPos(level + 1, index', count').y == SlotPos(level, index, count).y + VerticalSpacing
    ensures SlotPos(0, index, count).y == StartY
  {
  }

  /** Slot `(L, c)` precedes the point `(i, j)` of a row-by-row sweep of the
      levels. */
  ghost predicate Before(levels: seq<seq<nat>>, L: nat, c: nat, i: nat, j: nat) {
    L < |levels| && c < |levels[L]| && (L < i || (L == i && c < j))
  }

  /** Among the slots before `(i, j)`, `(L, c)` is the last that holds `v`. */
  ghost predicate LastBefore(levels: seq<seq<nat>>, v: nat, L: nat, c: nat, i: nat, j: nat) {
    && Before(levels, L, c, i, j) && levels[L][c] == v
    && forall L': nat, c': nat :: Before(levels, L', c', i, j) && (L < L' || (L == L' && c < c')) ==>
         levels[L'][c'] != v
  }

  /** `(L, c)` is the last slot of all the levels that holds `v`. */
  ghost predicate IsLastSlot(levels: seq<seq<nat>>, v: nat, L: nat, c: nat) {
    LastBefore(levels, v, L, c, |levels|, 0)
  }

  /** The position map after the sweep reached `(i, j)`: its keys are the
      nodes of the slots before `(i, j)`, and each holds the position of the
      last such slot holding it, which `slot` records. */
  ghost predicate SweptTo(levels: seq<seq<nat>>, positions: map<nat, Pos>, slot: map<nat, (nat, nat)>,
                          i: nat, j: nat)
  {
    && positions.Keys == slot.Keys
    && (forall L: nat, c: nat :: Before(levels, L, c, i, j) ==> levels[L][c] in slot)
    && (forall v :: v in slot ==>
          && LastBefore(levels, v, slot[v].0, slot[v].1, i, j)
          && |levels[slot[v].0]| >= 1
          && positions[v] == SlotPos(slot[v].0, slot[v].1, |levels[slot[v].0]|))
  }

  /** Writing slot `(i, j)` advances the sweep by one slot. */
  lemma SweepStep(levels: seq<seq<nat>>, positions: map<nat, Pos>, slot: map<nat, (nat, nat)>,
                  i: nat, j: nat)
    requires i < |levels| && j < |levels[i]| && SweptTo(levels, positions, slot, i, j)
    ensures SweptTo(levels, positions[levels[i][j] := SlotPos(i, j, |levels[i]|)],
                    slot[levels[i][j] := (i, j)], i, j + 1)
  {
    var v := levels[i][j];
    var slot' := slot[v := (i, j)];
    forall w | w in slot'
      ensures LastBefore(levels, w, slot'[w].0, slot'[w].1, i, j + 1)
    {
      if w != v {
        assert LastBefore(levels, w, slot[w].0, slot[w].1, i, j);
      }
    }
  }

  /** The inner loop of the position pass: the nodes of level `i`, left to
      right, get the positions of their slots. */
  method PlaceRow(levels: seq<seq<nat>>, i: nat, positions0: map<nat, Pos>, ghost slot0: map<nat, (nat, nat)>)
    returns (positions: map<nat, Pos>, ghost slot: map<nat, (nat, nat)>)
    requires i < |levels| && levels[i] != []
    requires SweptTo(levels, positions0, slot0, i, 0)
    ensures SweptTo(levels, positions, slot, i + 1, 0)
  {
    positions, slot := positions0, slot0;
    var level := levels[i];
    var y := StartY + (i as real) * VerticalSpacing;
    var totalWidth := ((|level| - 1) as real) * HorizontalSpacing;
    var startXLevel := StartX - totalWidth / 2.0;
    for j := 0 to |level|
      invariant SweptTo(levels, positions, slot, i, j)
    {
      var x := startXLevel + (j as real) * HorizontalSpacing;
      SweepStep(levels, positions, slot, i, j);
      positions := positions[level[j] := Pos(x, y)];
      slot := slot[level[j] := (i, j)];
    }
    assert forall L: nat, c: nat :: Before(levels, L, c, i, |level|) == Before(levels, L, c, i + 1, 0);
  }

  /** The position pass: every node of every level, level by level, gets the
      position of its slot, so a node in two levels keeps the later one.
      `slot` records which slot wrote each position. Every level must be
      non-empty (the row width subtracts one from its size). */
  method AssignPositions(levels: seq<seq<nat>>) returns (positions: map<nat, Pos>, ghost slot: map<nat, (nat, nat)>)
    requires forall k :: 0 <= k < |levels| ==> levels[k] != []
    ensures positions.Keys == slot.Keys == Placed(levels)
    ensures forall v :: v in slot ==>
              && IsLastSlot(levels, v, slot[v].0, slot[v].1)
              && positions[v] == SlotPos(slot[v].0, slot[v].1, |levels[slot[v].0]|)
  {
    positions := map[];
    slot := map[];
    for i := 0 to |levels|
      invariant SweptTo(levels, positions, slot, i, 0)
    {
      positions, slot := PlaceRow(levels, i, positions, slot);
    }
    forall v | v in Placed(levels)
      ensures v in slot
    {
      var k, c :| 0 <= k < |levels| && 0 <= c < |levels[k]| && levels[k][c] == v;
      assert Before(levels, k, c, |levels|, 0);
    }
    forall v | v in slot
      ensures v in Placed(levels)
    {
      assert v in levels[slot[v].0];
    }
  }

  /** Two slots share a position only if they are the same slot of the same
      row: rows differ in `y`, slots of one row in `x`. */
  lemma SlotPosInjective(level: nat, index: nat, level': nat, index': nat, count: nat, count': nat)
    requires count >= 1 && count' >= 1
    requires SlotPos(level, index, count) == SlotPos(level', index', count')
    ensures level == level'
    ensures count == count' ==> index == index'
  {
    assert (level as real) * VerticalSpacing == (level' as real) * VerticalSpacing;
  }

  /** No two nodes of a position map built by the position pass share a
      point: the slot that wrote a node's position holds that node. */
  lemma {:induction false} PositionsDistinct(levels: seq<seq<nat>>, positions: map<nat, Pos>,
                                             slot: map<nat, (nat, nat)>, v: nat, w: nat)
    requires forall k :: 0 <= k < |levels| ==> levels[k] != []
    requires positions.Keys == slot.Keys
    requires forall u :: u in slot ==>
               && IsLastSlot(levels, u, slot[u].0, slot[u].1)
               && positions[u] == SlotPos(slot[u].0, slot[u].1, |levels[slot[u].0]|)
    requires v in positions && w in positions && v != w
    ensures positions[v] != positions[w]
  {
  }

  /** The layout of the graph view: an empty graph has no positions;
      otherwise the levels from the level loop are turned into positions by
      the position pass. `levels` and `slot` expose the intermediate levels
      and the slot behind each position. */
  method CalculateLayout(g: DiGraph)
    returns (positions: map<nat, Pos>, ghost levels: seq<seq<nat>>, ghost slot: map<nat, (nat, nat)>)
    requires g.Valid()
    ensures |g.nodes| == 0 ==> positions == map[]
    ensures |g.nodes| > 0 ==>
              && IsLevelling(g, levels)
              && positions.Keys == slot.Keys == Placed(levels)
              && forall v :: v in slot ==>
                   && IsLastSlot(levels, v, slot[v].0, slot[v].1)
                   && positions[v] == SlotPos(slot[v].0, slot[v].1, |levels[slot[v].0]|)
  {
    if |g.nodes| == 0 {
      return map[], [], map[];
    }
    var computed := ComputeLevels(g);
    positions, slot := AssignPositions(computed);
    levels := computed;
  }
}
