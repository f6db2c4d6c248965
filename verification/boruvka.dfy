/** `boruvkaMST`: starting from singletons, repeat rounds until one component is left; each round
    scans every edge to find the lightest edge leaving each component, then accepts those
    candidates whose endpoints are still apart. */
module Boruvka {
  import opened Graphs
  import opened Partition
  import opened DisjointSet
  import opened BoruvkaStep

  /** The scan of one round over all edges: afterwards slot c holds the first lightest edge
      leaving the component with root c (roots as at the start of the round), or `Empty` when no
      edge leaves it. `find` only compresses paths, so the roots are unchanged. */
  method ScanPass(V: nat, edges: seq<Edge>, d0: Dsu) returns (d: Dsu, cheapest: seq<Edge>)
    requires EdgesInRange(V, edges) && Valid(d0) && Size(d0) == V
    ensures Valid(d) && SameRoots(d0, d) && Roots(d) == Roots(d0)
    ensures Candidates(V, edges, Roots(d0), cheapest)
  {
    cheapest := seq(V, _ => Empty);
    d := d0;
    var k := 0;
    while k < |edges|
      invariant ScanState(V, edges, Roots(d0), k, d, cheapest)
    {
      d, cheapest := ScanEdge(V, edges, Roots(d0), k, d, cheapest);
      k := k + 1;
    }
    assert edges[..k] == edges;
    SameRootsRoots(d0, d);
  }

  /** The merge pass of one round over the slots 0..V-1. It keeps the forest state and the count
      of components; if it accepts nothing, every slot was empty. */
  method MergePass(V: nat, edges: seq<Edge>, lab: seq<int>, cheapest: seq<Edge>,
                   d0: Dsu, result0: seq<Edge>, components0: int)
    returns (d: Dsu, result: seq<Edge>, components: int)
    requires EdgesInRange(V, edges) && BelowSentinel(edges) && Candidates(V, edges, lab, cheapest)
    requires ForestState(V, edges, d0, result0) && Roots(d0) == lab && components0 == V - |result0|
    ensures ForestState(V, edges, d, result) && components == V - |result|
    ensures |result| >= |result0|
    ensures |result| == |result0| ==> forall j :: 0 <= j < V ==> cheapest[j] == Empty
  {
    d, result, components := d0, result0, components0;
    var i := 0;
    while i < V
      invariant MergeState(V, edges, lab, cheapest, i, |result0|, d, result)
      invariant components == V - |result|
    {
      var accepted;
      d, result, accepted := MergeSlot(V, edges, lab, cheapest, i, |result0|, d, result);
      if accepted {
        components := components - 1;
      }
      i := i + 1;
    }
  }

  /** One round, entered with more than one component: it accepts at least one edge. */
  method BoruvkaRound(g: Graph, d0: Dsu, result0: seq<Edge>, components0: int)
    returns (d: Dsu, result: seq<Edge>, components: int)
    requires WellFormed(g) && Connected(g) && BelowSentinel(g.edges)
    requires ForestState(g.V, g.edges, d0, result0) && components0 == g.V - |result0| && components0 > 1
    ensures ForestState(g.V, g.edges, d, result) && components == g.V - |result|
    ensures |result| > |result0|
  {
    var c := FilledSlot(g, d0, result0);
    var d1, cheapest := ScanPass(g.V, g.edges, d0);
    RepresentsSameRoots(d0, d1, Components(g.V, result0));
    d, result, components := MergePass(g.V, g.edges, Roots(d0), cheapest, d1, result0, components0);
  }

  /** `boruvkaMST` on a connected graph whose weights stay below the empty-slot sentinel: the
      accepted edges are drawn from the graph and form a spanning tree of V - 1 edges. */
  method BoruvkaMST(g: Graph) returns (result: seq<Edge>)
    requires WellFormed(g) && Connected(g) && BelowSentinel(g.edges)
    ensures EdgesInRange(g.V, result) && SubMultiset(result, g.edges) && IsForest(g.V, result)
    ensures g.V > 0 ==> SpanningTree(g.V, result) && |result| == g.V - 1
    ensures g.V == 0 ==> result == []
  {
    result := [];
    var d := Init(g.V);
    var components: int := g.V;
    assert Components(g.V, []) == Singletons(g.V);
    while components > 1
      invariant ForestState(g.V, g.edges, d, result) && components == g.V - |result|
      decreases components
    {
      d, result, components := BoruvkaRound(g, d, result, components);
    }
    BoruvkaFinish(g.V, g.edges, d, result);
  }

  /** Once at most one component is left, the forest spans every vertex. */
  lemma BoruvkaFinish(V: nat, edges: seq<Edge>, d: Dsu, result: seq<Edge>)
    requires ForestState(V, edges, d, result) && V - |result| <= 1
    ensures V > 0 ==> SpanningTree(V, result) && |result| == V - 1
    ensures V == 0 ==> result == []
  {
    if V > 0 {
      ForestSize(V, result);
      ForestSpansIffSize(V, result);
    } else {
      assert |result| > 0 ==> EdgeInRange(V, result[0]);
    }
  }
}
