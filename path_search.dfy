/**
 * `getPathElements`: a depth-first search along edges from source to target,
 * sharing one visited set across the recursion, that records the first path
 * it finds. Node ids are recorded start to end; edge ids are recorded while
 * the recursion unwinds, so last edge first.
 */
module PathSearch {
  import opened FlowGraph
  import opened JsSet
  import opened Wrappers

  /** The ids that occur as the target of some edge: every node the search can move to. */
  function Targets<D(!new)>(edges: seq<Edge<D>>): set<string> {
    set j | 0 <= j < |edges| :: edges[j].target
  }

  /**
   * What one call of `findPath` does: whether it found the target, the visited
   * set afterwards, the node ids from the current node to the target (empty if
   * not found) and the edge ids it pushed, last edge first.
   */
  datatype Outcome = Outcome(found: bool, visited: set<string>, walk: seq<string>, trail: seq<string>)

  /** `findPath(cur, target, ...)` when the visited set is `visited`. */
  function Explore<D(!new)>(edges: seq<Edge<D>>, cur: string, target: string, visited: set<string>): (r: Outcome)
    ensures visited <= r.visited
    ensures !r.found ==> r.walk == [] && r.trail == []
    decreases |(Targets(edges) + {cur}) - visited|, 0, 0
  {
    if cur == target then Outcome(true, visited, [cur], [])
    else if cur in visited then Outcome(false, visited, [], [])
    else
      FewerUnvisited(Targets(edges), cur, visited);
      ExploreFrom(edges, cur, target, visited + {cur}, 0)
  }

  /** The loop of `findPath` at `cur` from edge `k` on, once `cur` has been marked visited. */
  function ExploreFrom<D(!new)>(edges: seq<Edge<D>>, cur: string, target: string, visited: set<string>, k: nat): (r: Outcome)
    requires k <= |edges|
    ensures visited <= r.visited
    ensures !r.found ==> r.walk == [] && r.trail == []
    decreases |Targets(edges) - visited|, 1, |edges| - k
  {
    if k == |edges| then Outcome(false, visited, [], [])
    else if edges[k].source == cur then
      var t := edges[k].target;
      assert (Targets(edges) + {t}) - visited == Targets(edges) - visited;
      var r := Explore(edges, t, target, visited);
      if r.found then Outcome(true, r.visited, [cur] + r.walk, r.trail + [edges[k].id])
      else
        NoMoreUnvisited(Targets(edges), visited, r.visited);
        ExploreFrom(edges, cur, target, r.visited, k + 1)
    else ExploreFrom(edges, cur, target, visited, k + 1)
  }

  /** A call on a node neither the target nor visited marks it and scans the edges. */
  lemma ExploreEnters<D(!new)>(edges: seq<Edge<D>>, cur: string, target: string, visited: set<string>)
    requires cur != target && cur !in visited
    ensures Explore(edges, cur, target, visited) == ExploreFrom(edges, cur, target, visited + {cur}, 0)
  {
  }

  /** One step of the scan at `cur`: follow edge `k` when it leaves `cur`, stopping on success. */
  lemma ExploreFromStep<D(!new)>(edges: seq<Edge<D>>, cur: string, target: string, visited: set<string>, k: nat)
    requires k < |edges| && edges[k].source == cur
    ensures var r := Explore(edges, edges[k].target, target, visited);
      ExploreFrom(edges, cur, target, visited, k) ==
        if r.found then Outcome(true, r.visited, [cur] + r.walk, r.trail + [edges[k].id])
        else ExploreFrom(edges, cur, target, r.visited, k + 1)
  {
  }

  /** The recursive call on the target of edge `k` has less left to visit than the call on `cur`. */
  lemma Descends<D(!new)>(edges: seq<Edge<D>>, k: int, cur: string, before: set<string>, visited: set<string>)
    requires 0 <= k < |edges| && cur !in before && before + {cur} <= visited
    ensures |(Targets(edges) + {edges[k].target}) - visited| < |(Targets(edges) + {cur}) - before|
  {
    var ts := Targets(edges);
    assert edges[k].target in ts;
    assert (ts + {edges[k].target}) - visited == ts - visited;
    NoMoreUnvisited(ts, before + {cur}, visited);
    FewerUnvisited(ts, cur, before);
  }

  /** Visiting `cur` shrinks what is left to visit. */
  lemma FewerUnvisited(ts: set<string>, cur: string, visited: set<string>)
    requires cur !in visited
    ensures |ts - (visited + {cur})| < |(ts + {cur}) - visited|
  {
    var a := ts - (visited + {cur});
    var b := (ts + {cur}) - visited;
    assert b == a + {cur};
  }

  /** Visiting more leaves no more to visit. */
  lemma NoMoreUnvisited(ts: set<string>, v: set<string>, w: set<string>)
    requires v <= w
    ensures |ts - w| <= |ts - v|
  {
    var a := ts - w;
    var b := ts - v;
    assert b == a + (b - a);
  }

  /** The state `getPathElements` shares with its inner `findPath`. */
  class PathFinder<D(!new)> {
    const edges: seq<Edge<D>>
    var visited: set<string>
    var pathNodeIds: seq<string>
    var pathEdgeIds: seq<string>

    constructor(edges: seq<Edge<D>>)
      ensures this.edges == edges
      ensures visited == {} && pathNodeIds == [] && pathEdgeIds == []
    {
      this.edges := edges;
      visited := {};
      pathNodeIds := [];
      pathEdgeIds := [];
    }

    /**
     * `findPath(currentNodeId, targetNodeId, path)`: on success it pushes the
     * node ids of the path once, at the target, and each edge id on the way back.
     */
    method FindPath(currentNodeId: string, targetNodeId: string, path: seq<string>) returns (found: bool)
      modifies this
      ensures var r := Explore(edges, currentNodeId, targetNodeId, old(visited));
        found == r.found && visited == r.visited &&
        pathNodeIds == old(pathNodeIds) + (if found then path + r.walk else []) &&
        pathEdgeIds == old(pathEdgeIds) + r.trail
      decreases |(Targets(edges) + {currentNodeId}) - visited|
    {
      ghost var outcome := Explore(edges, currentNodeId, targetNodeId, visited);
      if currentNodeId == targetNodeId {
        pathNodeIds := pathNodeIds + (path + [currentNodeId]);
        return true;
      }
      if currentNodeId in visited {
        return false;
      }
      ExploreEnters(edges, currentNodeId, targetNodeId, visited);
      visited := visited + {currentNodeId};
      ghost var entered := visited;
      for i := 0 to |edges|
        invariant entered <= visited
        invariant pathNodeIds == old(pathNodeIds) && pathEdgeIds == old(pathEdgeIds)
        invariant outcome == ExploreFrom(edges, currentNodeId, targetNodeId, visited, i)
      {
        var edge := edges[i];
        if edge.source == currentNodeId {
          ghost var r := Explore(edges, edge.target, targetNodeId, visited);
          ExploreFromStep(edges, currentNodeId, targetNodeId, visited, i);
          Descends(edges, i, currentNodeId, old(visited), visited);
          var ok := FindPath(edge.target, targetNodeId, path + [currentNodeId]);
          if ok {
            pathEdgeIds := pathEdgeIds + [edge.id];
            assert outcome.walk == [currentNodeId] + r.walk && outcome.trail == r.trail + [edge.id];
            ConcatAssoc(path, [currentNodeId], r.walk);
            return true;
          }
        }
      }
      return false;
    }
  }

  /** What `getPathElements(startNodeId, endNodeId, edges)` returns. */
  datatype PathResult = PathResult(nodeIds: seq<string>, edgeIds: seq<string>)

  /** The result of `getPathElements`: the recorded ids, each passed through a `Set`. */
  function PathElements<D(!new)>(startNodeId: string, endNodeId: string, edges: seq<Edge<D>>): (r: PathResult)
    ensures NoDup(r.nodeIds) && NoDup(r.edgeIds)
  {
    var o := Explore(edges, startNodeId, endNodeId, {});
    PathResult(Distinct(o.walk), Distinct(o.trail))
  }

  method GetPathElements<D(!new)>(startNodeId: string, endNodeId: string, edges: seq<Edge<D>>) returns (r: PathResult)
    ensures r == PathElements(startNodeId, endNodeId, edges)
  {
    var finder := new PathFinder(edges);
    ghost var o := Explore(edges, startNodeId, endNodeId, {});
    var _ := finder.FindPath(startNodeId, endNodeId, []);
    assert finder.pathNodeIds == o.walk && finder.pathEdgeIds == o.trail;
    r := PathResult(Distinct(finder.pathNodeIds), Distinct(finder.pathEdgeIds));
  }

  /** Some edge with id `id` goes from `a` to `b`. */
  predicate EdgeWithId<D(!new)>(edges: seq<Edge<D>>, id: string, a: string, b: string) {
    exists j :: 0 <= j < |edges| && edges[j].id == id && edges[j].source == a && edges[j].target == b
  }

  /** `trail` lists, last one first, edges that join each id of `walk` to the next. */
  predicate Unwound<D(!new)>(edges: seq<Edge<D>>, walk: seq<string>, trail: seq<string>) {
    |walk| == |trail| + 1 &&
    forall k :: 0 <= k < |trail| ==> EdgeWithId(edges, trail[k], walk[|trail| - 1 - k], walk[|trail| - k])
  }

  /**
   * `walk` leads from `cur` to `target` along the edges in `trail` without
   * repeating a node, and its nodes before the target, from position `first` on,
   * were not visited.
   */
  predicate FoundFrom<D(!new)>(edges: seq<Edge<D>>, cur: string, target: string, visited: set<string>,
                               walk: seq<string>, trail: seq<string>, first: nat) {
    |walk| >= 1 && walk[0] == cur && walk[|walk| - 1] == target &&
    NoDup(walk) && Unwound(edges, walk, trail) &&
    forall i :: first <= i < |walk| - 1 ==> walk[i] !in visited
  }

  /** What a successful call records is a path from the current node to the target. */
  lemma {:induction false} ExploreSound<D(!new)>(edges: seq<Edge<D>>, cur: string, target: string, visited: set<string>)
    ensures var r := Explore(edges, cur, target, visited);
      r.found ==> FoundFrom(edges, cur, target, visited, r.walk, r.trail, 0)
    decreases |(Targets(edges) + {cur}) - visited|, 0, 0
  {
    if cur != target && cur !in visited {
      FewerUnvisited(Targets(edges), cur, visited);
      ExploreFromSound(edges, cur, target, visited + {cur}, 0);
    }
  }

  /** The scan at `cur` records, on success, a path from `cur` to the target. */
  lemma {:induction false} ExploreFromSound<D(!new)>(edges: seq<Edge<D>>, cur: string, target: string, visited: set<string>, k: nat)
    requires k <= |edges| && cur in visited && cur != target
    ensures var r := ExploreFrom(edges, cur, target, visited, k);
      r.found ==> FoundFrom(edges, cur, target, visited, r.walk, r.trail, 1)
    decreases |Targets(edges) - visited|, 1, |edges| - k
  {
    if k < |edges| {
      if edges[k].source == cur {
        var t := edges[k].target;
        assert (Targets(edges) + {t}) - visited == Targets(edges) - visited;
        var r := Explore(edges, t, target, visited);
        ExploreSound(edges, t, target, visited);
        if r.found {
          ExtendFound(edges, k, cur, target, visited, r.walk, r.trail);
        } else {
          NoMoreUnvisited(Targets(edges), visited, r.visited);
          ExploreFromSound(edges, cur, target, r.visited, k + 1);
        }
      } else {
        ExploreFromSound(edges, cur, target, visited, k + 1);
      }
    }
  }

  /** Putting `cur` and edge `k` in front of a path found from the edge's target. */
  lemma ExtendFound<D(!new)>(edges: seq<Edge<D>>, k: int, cur: string, target: string, visited: set<string>,
                             walk: seq<string>, trail: seq<string>)
    requires 0 <= k < |edges| && edges[k].source == cur && cur in visited && cur != target
    requires FoundFrom(edges, edges[k].target, target, visited, walk, trail, 0)
    ensures FoundFrom(edges, cur, target, visited, [cur] + walk, trail + [edges[k].id], 1)
  {
    var w := [cur] + walk;
    var tr := trail + [edges[k].id];
    forall i, j | 0 <= i < j < |w| ensures w[i] != w[j] {
      if i > 0 {
        assert w[i] == walk[i - 1] && w[j] == walk[j - 1];
      } else {
        assert w[j] == walk[j - 1];
      }
    }
    forall m | 0 <= m < |tr|
      ensures EdgeWithId(edges, tr[m], w[|tr| - 1 - m], w[|tr| - m])
    {
      if m < |trail| {
        assert tr[m] == trail[m];
        assert EdgeWithId(edges, trail[m], walk[|trail| - 1 - m], walk[|trail| - m]);
      } else {
        assert w[|tr| - 1 - m] == cur && w[|tr| - m] == walk[0];
      }
    }
  }

  /** Every edge leaving a node that became visited after `before` leads to a visited node. */
  predicate Closed<D(!new)>(edges: seq<Edge<D>>, before: set<string>, after: set<string>) {
    forall j :: 0 <= j < |edges| && edges[j].source in after && edges[j].source !in before ==> edges[j].target in after
  }

  /** Closure over two stretches of a growing visited set. */
  lemma ClosedChain<D(!new)>(edges: seq<Edge<D>>, a: set<string>, b: set<string>, c: set<string>)
    requires a <= b <= c && Closed(edges, a, b) && Closed(edges, b, c)
    ensures Closed(edges, a, c)
  {
  }

  /** Edge `k` and every later edge out of `cur` lead into `inside`. */
  lemma SuccessorsFrom<D(!new)>(edges: seq<Edge<D>>, cur: string, k: nat, inside: set<string>)
    requires k < |edges| && edges[k].target in inside
    requires forall j :: k + 1 <= j < |edges| && edges[j].source == cur ==> edges[j].target in inside
    ensures forall j :: k <= j < |edges| && edges[j].source == cur ==> edges[j].target in inside
  {
  }

  /** A call that fails never visits the target and leaves its new visited nodes closed under edges. */
  lemma {:induction false} ExploreClosed<D(!new)>(edges: seq<Edge<D>>, cur: string, target: string, visited: set<string>)
    requires target !in visited
    ensures var r := Explore(edges, cur, target, visited);
      !r.found ==> target !in r.visited && cur in r.visited && Closed(edges, visited, r.visited)
    decreases |(Targets(edges) + {cur}) - visited|, 0, 0
  {
    if cur != target && cur !in visited {
      FewerUnvisited(Targets(edges), cur, visited);
      ExploreFromClosed(edges, cur, target, visited + {cur}, 0);
    }
  }

  /** A scan at `cur` that fails follows every remaining edge out of `cur` to a visited node. */
  lemma {:induction false} ExploreFromClosed<D(!new)>(edges: seq<Edge<D>>, cur: string, target: string, visited: set<string>, k: nat)
    requires k <= |edges| && cur in visited && target !in visited
    ensures var r := ExploreFrom(edges, cur, target, visited, k);
      !r.found ==> (target !in r.visited && Closed(edges, visited, r.visited) &&
        forall j :: k <= j < |edges| && edges[j].source == cur ==> edges[j].target in r.visited)
    decreases |Targets(edges) - visited|, 1, |edges| - k
  {
    if k < |edges| {
      if edges[k].source == cur {
        var t := edges[k].target;
        assert (Targets(edges) + {t}) - visited == Targets(edges) - visited;
        var r := Explore(edges, t, target, visited);
        ExploreClosed(edges, t, target, visited);
        if !r.found {
          NoMoreUnvisited(Targets(edges), visited, r.visited);
          var r2 := ExploreFrom(edges, cur, target, r.visited, k + 1);
          ExploreFromClosed(edges, cur, target, r.visited, k + 1);
          if !r2.found {
            ClosedChain(edges, visited, r.visited, r2.visited);
            SuccessorsFrom(edges, cur, k, r2.visited);
          }
        }
      } else {
        ExploreFromClosed(edges, cur, target, visited, k + 1);
      }
    }
  }

  /** Some edge goes from `a` to `b`. */
  predicate Step<D(!new)>(edges: seq<Edge<D>>, a: string, b: string) {
    exists j :: 0 <= j < |edges| && edges[j].source == a && edges[j].target == b
  }

  /** Consecutive ids of `walk` are joined by an edge, from source to target. */
  predicate IsWalk<D(!new)>(edges: seq<Edge<D>>, walk: seq<string>) {
    |walk| >= 1 && forall i :: 0 <= i < |walk| - 1 ==> Step(edges, walk[i], walk[i + 1])
  }

  /** `b` can be reached from `a` by following edges forward. */
  ghost predicate Reachable<D(!new)>(edges: seq<Edge<D>>, a: string, b: string) {
    exists walk :: IsWalk(edges, walk) && walk[0] == a && walk[|walk| - 1] == b
  }

  /** A walk that starts inside a closed set of nodes stays inside it. */
  lemma {:induction false} WalkStaysInside<D(!new)>(edges: seq<Edge<D>>, walk: seq<string>, inside: set<string>, n: nat)
    requires IsWalk(edges, walk) && walk[0] in inside && Closed(edges, {}, inside) && n < |walk|
    ensures walk[n] in inside
  {
    if n > 0 {
      WalkStaysInside(edges, walk, inside, n - 1);
      assert Step(edges, walk[n - 1], walk[n]);
      var j :| 0 <= j < |edges| && edges[j].source == walk[n - 1] && edges[j].target == walk[n];
    }
  }

  /** A recorded walk is a walk along edges. */
  lemma UnwoundIsWalk<D(!new)>(edges: seq<Edge<D>>, walk: seq<string>, trail: seq<string>)
    requires Unwound(edges, walk, trail)
    ensures IsWalk(edges, walk)
  {
    forall i | 0 <= i < |walk| - 1
      ensures Step(edges, walk[i], walk[i + 1])
    {
      var k := |trail| - 1 - i;
      assert walk[|trail| - 1 - k] == walk[i] && walk[|trail| - k] == walk[i + 1];
      assert EdgeWithId(edges, trail[k], walk[i], walk[i + 1]);
      var j :| 0 <= j < |edges| && edges[j].id == trail[k] && edges[j].source == walk[i] && edges[j].target == walk[i + 1];
    }
  }

  /**
   * The search is sound and complete: it records a non-empty path exactly when
   * the end can be reached from the start along edges; otherwise both lists are empty.
   */
  lemma PathFoundIffReachable<D(!new)>(startNodeId: string, endNodeId: string, edges: seq<Edge<D>>)
    ensures var r := PathElements(startNodeId, endNodeId, edges);
      (r.nodeIds != [] <==> Reachable(edges, startNodeId, endNodeId)) &&
      (r.nodeIds == [] ==> r.edgeIds == [])
  {
    var o := Explore(edges, startNodeId, endNodeId, {});
    ExploreSound(edges, startNodeId, endNodeId, {});
    ExploreClosed(edges, startNodeId, endNodeId, {});
    if o.found {
      UnwoundIsWalk(edges, o.walk, o.trail);
      assert IsWalk(edges, o.walk) && o.walk[0] == startNodeId && o.walk[|o.walk| - 1] == endNodeId;
      assert o.walk[0] in Distinct(o.walk);
    } else if Reachable(edges, startNodeId, endNodeId) {
      var walk :| IsWalk(edges, walk) && walk[0] == startNodeId && walk[|walk| - 1] == endNodeId;
      WalkStaysInside(edges, walk, o.visited, |walk| - 1);
      assert false;
    }
  }

  /** Searching from a node for itself records just that node. */
  lemma PathToSelf<D(!new)>(nodeId: string, edges: seq<Edge<D>>)
    ensures PathElements(nodeId, nodeId, edges) == PathResult([nodeId], [])
  {
    assert Distinct([nodeId]) == Distinct([nodeId][..0]) + [nodeId];
  }

  /**
   * A path found runs from the start to the end without repeating a node, and
   * when edge ids are unique, the edge ids join its nodes, last edge first.
   */
  lemma {:induction false} FoundPathShape<D(!new)>(startNodeId: string, endNodeId: string, edges: seq<Edge<D>>)
    requires NoDup(EdgeIds(edges))
    ensures var r := PathElements(startNodeId, endNodeId, edges);
      r.nodeIds != [] ==>
        r.nodeIds[0] == startNodeId && r.nodeIds[|r.nodeIds| - 1] == endNodeId &&
        Unwound(edges, r.nodeIds, r.edgeIds)
  {
    var o := Explore(edges, startNodeId, endNodeId, {});
    ExploreSound(edges, startNodeId, endNodeId, {});
    if o.found {
      DistinctOfNoDup(o.walk);
      TrailHasNoDup(edges, o.walk, o.trail);
      DistinctOfNoDup(o.trail);
    }
  }

  /** Edges joining distinct pairs of a walk without repetitions are distinct, and so are their ids. */
  lemma TrailHasNoDup<D(!new)>(edges: seq<Edge<D>>, walk: seq<string>, trail: seq<string>)
    requires NoDup(EdgeIds(edges)) && NoDup(walk) && Unwound(edges, walk, trail)
    ensures NoDup(trail)
  {
    forall a, b | 0 <= a < b < |trail| ensures trail[a] != trail[b] {
      var n := |trail|;
      assert EdgeWithId(edges, trail[a], walk[n - 1 - a], walk[n - a]);
      assert EdgeWithId(edges, trail[b], walk[n - 1 - b], walk[n - b]);
      var ja :| 0 <= ja < |edges| && edges[ja].id == trail[a] && edges[ja].source == walk[n - 1 - a] && edges[ja].target == walk[n - a];
      var jb :| 0 <= jb < |edges| && edges[jb].id == trail[b] && edges[jb].source == walk[n - 1 - b] && edges[jb].target == walk[n - b];
      assert ja != jb;
      assert EdgeIds(edges)[ja] == edges[ja].id && EdgeIds(edges)[jb] == edges[jb].id;
    }
  }

  /** The chain `A -e1-> B -e2-> C`. */
  function Chain(): seq<Edge<int>> {
    [Edge("e1", "A", "B", map[], None, 0), Edge("e2", "B", "C", map[], None, 0)]
  }

  /** The search on the chain, entered at `B` with `A` visited. */
  lemma ChainFromB()
    ensures Explore(Chain(), "B", "C", {"A"}) == Outcome(true, {"A", "B"}, ["B", "C"], ["e2"])
  {
    var edges := Chain();
    assert Explore(edges, "C", "C", {"A", "B"}) == Outcome(true, {"A", "B"}, ["C"], []);
    assert ExploreFrom(edges, "B", "C", {"A", "B"}, 0) == ExploreFrom(edges, "B", "C", {"A", "B"}, 1);
    ExploreEnters(edges, "B", "C", {"A"});
    assert {"A"} + {"B"} == {"A", "B"};
  }

  /** The search on the chain, entered at `A`. */
  lemma ChainFromA()
    ensures Explore(Chain(), "A", "C", {}) == Outcome(true, {"A", "B"}, ["A", "B", "C"], ["e2", "e1"])
  {
    var edges := Chain();
    ChainFromB();
    ExploreEnters(edges, "A", "C", {});
    assert {} + {"A"} == {"A"};
  }

  /** Neither list the search records on the chain repeats an id. */
  lemma ChainDistinct()
    ensures Distinct(["A", "B", "C"]) == ["A", "B", "C"] && Distinct(["e2", "e1"]) == ["e2", "e1"]
  {
    DistinctOfNoDup(["A", "B", "C"]);
    DistinctOfNoDup(["e2", "e1"]);
  }

  /** On the chain the path from `A` to `C` lists its nodes in order and its edges last first. */
  lemma ChainExample()
    ensures PathElements("A", "C", Chain()) == PathResult(["A", "B", "C"], ["e2", "e1"])
  {
    ChainFromA();
    ChainDistinct();
  }
}
