/**
 * `getConnectedNodeIds`: the ids of the nodes joined to a node by an edge in
 * either direction, without repetitions, in the order the edge scan meets them.
 */
module Neighbours {
  import opened FlowGraph
  import opened JsSet

  /** Edge `e` joins `id` to `x`, whichever of the two is its source. */
  predicate Linked<D(!new)>(e: Edge<D>, id: string, x: string) {
    (e.source == id && e.target == x) || (e.target == id && e.source == x)
  }

  /**
   * The ids the scan of `edges` offers to the result set, in scan order:
   * for each edge, its target when its source is `id`, then its source when
   * its target is `id`.
   */
  function Mentions<D(!new)>(id: string, edges: seq<Edge<D>>): (r: seq<string>)
    ensures |r| <= 2 * |edges|
  {
    if |edges| == 0 then []
    else
      var n := |edges| - 1;
      Mentions(id, edges[..n]) + Offered(id, edges[n])
  }

  /** What one edge offers to the result set. */
  function Offered<D(!new)>(id: string, e: Edge<D>): seq<string> {
    (if e.source == id then [e.target] else []) + (if e.target == id then [e.source] else [])
  }

  /** Some edge of `edges` joins `id` to `x`. */
  predicate Adjacent<D(!new)>(id: string, edges: seq<Edge<D>>, x: string) {
    exists k :: 0 <= k < |edges| && Linked(edges[k], id, x)
  }

  /** The scan offers exactly the ids joined to `id` by some edge. */
  lemma {:induction false} MentionsAreAdjacent<D(!new)>(id: string, edges: seq<Edge<D>>)
    ensures forall x :: x in Mentions(id, edges) <==> Adjacent(id, edges, x)
  {
    if |edges| > 0 {
      var n := |edges| - 1;
      MentionsAreAdjacent(id, edges[..n]);
      forall x
        ensures x in Mentions(id, edges) <==> Adjacent(id, edges, x)
      {
        if Adjacent(id, edges[..n], x) {
          var k :| 0 <= k < n && Linked(edges[..n][k], id, x);
          assert Linked(edges[k], id, x);
        }
        if Adjacent(id, edges, x) {
          var k :| 0 <= k < |edges| && Linked(edges[k], id, x);
          if k < n {
            assert Linked(edges[..n][k], id, x);
          }
        }
        if Linked(edges[n], id, x) {
          assert x in Offered(id, edges[n]);
        }
      }
    }
  }

  /** The result of `getConnectedNodeIds(id, edges)`. */
  function ConnectedIds<D(!new)>(id: string, edges: seq<Edge<D>>): (ids: seq<string>)
    ensures NoDup(ids)
    ensures forall x :: x in ids <==> Adjacent(id, edges, x)
  {
    MentionsAreAdjacent(id, edges);
    Distinct(Mentions(id, edges))
  }

  /** A node is its own neighbour exactly when it carries a self-loop. */
  lemma SelfNeighbour<D(!new)>(id: string, edges: seq<Edge<D>>)
    ensures id in ConnectedIds(id, edges) <==>
      exists k :: 0 <= k < |edges| && edges[k].source == id && edges[k].target == id
  {
    assert forall k :: 0 <= k < |edges| ==> (Linked(edges[k], id, id) <==> edges[k].source == id && edges[k].target == id);
  }

  /** The scan fills the set in order; `ids` is the set after the first `i` edges. */
  method GetConnectedNodeIds<D(!new)>(nodeId: string, edges: seq<Edge<D>>) returns (ids: seq<string>)
    ensures ids == ConnectedIds(nodeId, edges)
    ensures NoDup(ids) && forall x :: x in ids <==> Adjacent(nodeId, edges, x)
  {
    ids := [];
    for i := 0 to |edges|
      invariant ids == Distinct(Mentions(nodeId, edges[..i]))
    {
      var edge := edges[i];
      ScanStep(nodeId, edges, i);
      if edge.source == nodeId {
        ids := Add(ids, edge.target);
      }
      if edge.target == nodeId {
        ids := Add(ids, edge.source);
      }
    }
    assert edges[..|edges|] == edges;
  }

  /** Scanning edge `i` adds its target, then its source, where they are joined to `id`. */
  lemma ScanStep<D(!new)>(id: string, edges: seq<Edge<D>>, i: int)
    requires 0 <= i < |edges|
    ensures var e := edges[i];
      var d := Distinct(Mentions(id, edges[..i]));
      var a := if e.source == id then Add(d, e.target) else d;
      Distinct(Mentions(id, edges[..i + 1])) == if e.target == id then Add(a, e.source) else a
  {
    var e := edges[i];
    var before := Mentions(id, edges[..i]);
    assert edges[..i + 1][..i] == edges[..i];
    assert Mentions(id, edges[..i + 1]) == before + Offered(id, e);
    var mid := if e.source == id then before + [e.target] else before;
    if e.source == id {
      DistinctSnoc(before, e.target);
    } else {
      assert Offered(id, e) == (if e.target == id then [e.source] else []);
    }
    if e.target == id {
      DistinctSnoc(mid, e.source);
      assert before + Offered(id, e) == mid + [e.source];
    } else {
      assert before + Offered(id, e) == mid;
    }
  }

  /** Offering one more value to a `Set` built from `xs`. */
  lemma DistinctSnoc<T(!new)>(xs: seq<T>, x: T)
    ensures Distinct(xs + [x]) == Add(Distinct(xs), x)
  {
    assert (xs + [x])[..|xs|] == xs;
  }

  /** The result lists each neighbour at the place of its first mention in the edge scan. */
  lemma ConnectedIdsInScanOrder<D(!new)>(id: string, edges: seq<Edge<D>>)
    ensures InFirstOccurrenceOrder(Mentions(id, edges), ConnectedIds(id, edges))
  {
    DistinctInFirstOccurrenceOrder(Mentions(id, edges));
  }
}
