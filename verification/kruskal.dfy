/** One turn of the Kruskal loop and what the loop knows between turns. */
module KruskalStep {
  import opened Graphs
  import opened Partition
  import opened DisjointSet
  import opened EdgeSort

  /** What the scan knows after examining the first `i` edges of `sorted`: the forest `d` stands
      for the classes the accepted edges induce, those edges form a forest drawn in order from the
      examined prefix, and every examined edge lies inside one class. */
  ghost predicate ScanInvariant(V: nat, sorted: seq<Edge>, i: int, d: Dsu, result: seq<Edge>)
    requires EdgesInRange(V, sorted)
  {
    0 <= i <= |sorted| &&
    Valid(d) && Size(d) == V &&
    EdgesInRange(V, result) &&
    Represents(d, Components(V, result)) &&
    IsForest(V, result) &&
    SubMultiset(result, sorted[..i]) &&
    SortedByWeight(result) &&
    NoHeavierThanRest(result, sorted, i) &&
    ExaminedInside(Components(V, result), sorted, i)
  }

  /** Every accepted edge weighs at most as much as every edge not yet examined. */
  predicate NoHeavierThanRest(result: seq<Edge>, sorted: seq<Edge>, i: int) {
    forall k, j :: 0 <= k < |result| && 0 <= j < |sorted| && i <= j ==> result[k].weight <= sorted[j].weight
  }

  /** The endpoints of each of the first i edges share a class of `c`. */
  predicate ExaminedInside(c: seq<int>, sorted: seq<Edge>, i: int)
    requires i <= |sorted| && EdgesInRange(|c|, sorted)
  {
    forall j :: 0 <= j < i ==> c[sorted[j].u] == c[sorted[j].v]
  }

  lemma ScanStart(V: nat, sorted: seq<Edge>)
    requires EdgesInRange(V, sorted)
    ensures ScanInvariant(V, sorted, 0, Init(V), [])
  {
    assert Components(V, []) == Singletons(V);
  }

  /** Path compression by `sameSet` disturbs nothing the scan relies on. */
  lemma ScanCompress(V: nat, sorted: seq<Edge>, i: int, d: Dsu, d1: Dsu, result: seq<Edge>)
    requires EdgesInRange(V, sorted) && ScanInvariant(V, sorted, i, d, result)
    requires Valid(d1) && SameRoots(d, d1)
    ensures ScanInvariant(V, sorted, i, d1, result)
  {
    RepresentsSameRoots(d, d1, Components(V, result));
  }

  /** An edge whose endpoints already share a class is skipped. */
  lemma ScanReject(V: nat, sorted: seq<Edge>, i: int, d: Dsu, result: seq<Edge>)
    requires EdgesInRange(V, sorted) && ScanInvariant(V, sorted, i, d, result) && i < |sorted|
    requires Root(d, sorted[i].u) == Root(d, sorted[i].v)
    ensures ScanInvariant(V, sorted, i + 1, d, result)
  {
    assert sorted[..i + 1] == sorted[..i] + [sorted[i]];
  }

  /** An edge between two classes is appended and its endpoints united. */
  lemma ScanAccept(V: nat, sorted: seq<Edge>, i: int, d: Dsu, result: seq<Edge>)
    requires EdgesInRange(V, sorted) && SortedByWeight(sorted)
    requires ScanInvariant(V, sorted, i, d, result) && i < |sorted|
    requires Root(d, sorted[i].u) != Root(d, sorted[i].v)
    ensures ScanInvariant(V, sorted, i + 1, Unite(d, sorted[i].u, sorted[i].v), result + [sorted[i]])
  {
    var e := sorted[i];
    var d2 := Unite(d, e.u, e.v);
    var r2 := result + [e];
    assert EdgeInRange(V, e);
    ForestAppend(V, result, e);
    ComponentsAppend(V, result, e);
    UniteJoins(d, Components(V, result), e.u, e.v);
    AcceptOrder(sorted, i, result);
    JoinKeepsJoined(V, Components(V, result), e.u, e.v, sorted, i);
  }

  /** Taking the next edge of a sorted list keeps the accepted edges sorted and drawn from the
      examined prefix. */
  lemma AcceptOrder(sorted: seq<Edge>, i: int, result: seq<Edge>)
    requires 0 <= i < |sorted| && SortedByWeight(sorted)
    requires SubMultiset(result, sorted[..i]) && SortedByWeight(result)
    requires NoHeavierThanRest(result, sorted, i)
    ensures SubMultiset(result + [sorted[i]], sorted[..i + 1])
    ensures SortedByWeight(result + [sorted[i]])
    ensures NoHeavierThanRest(result + [sorted[i]], sorted, i + 1)
  {
    assert sorted[..i + 1] == sorted[..i] + [sorted[i]];
  }

  /** Joining the endpoints of edge i never separates the endpoints of an earlier edge. */
  lemma JoinKeepsJoined(V: nat, c: seq<int>, x: int, y: int, sorted: seq<Edge>, i: int)
    requires |c| == V && 0 <= i < |sorted| && EdgesInRange(V, sorted)
    requires x == sorted[i].u && y == sorted[i].v
    requires ExaminedInside(c, sorted, i)
    ensures ExaminedInside(Join(c, x, y), sorted, i + 1)
  {
    assert EdgeInRange(V, sorted[i]);
    forall j | 0 <= j < i + 1
      ensures Join(c, x, y)[sorted[j].u] == Join(c, x, y)[sorted[j].v]
    {
      assert EdgeInRange(V, sorted[j]);
    }
  }

  /** One turn of the loop: test edge i with `sameSet`; when its endpoints are apart, append it
      to the result and unite them. `accepted` tells which happened. */
  method ScanStep(V: nat, sorted: seq<Edge>, i: int, d: Dsu, result: seq<Edge>)
    returns (d2: Dsu, result2: seq<Edge>, accepted: bool)
    requires EdgesInRange(V, sorted) && SortedByWeight(sorted)
    requires ScanInvariant(V, sorted, i, d, result) && i < |sorted|
    ensures accepted <==> Root(d, sorted[i].u) != Root(d, sorted[i].v)
    ensures result2 == if accepted then result + [sorted[i]] else result
    ensures |result2| == |result| + (if accepted then 1 else 0)
    ensures ScanInvariant(V, sorted, i + 1, d2, result2)
  {
    var e := sorted[i];
    var (d1, same) := SameSet(d, e.u, e.v);
    ScanCompress(V, sorted, i, d, d1, result);
    if !same {
      ScanAccept(V, sorted, i, d1, result);
      result2 := result + [e];
      d2 := Unite(d1, e.u, e.v);
      accepted := true;
    } else {
      ScanReject(V, sorted, i, d1, result);
      result2 := result;
      d2 := d1;
      accepted := false;
    }
  }
}

/** `kruskalMST`: sort the edges by weight, then accept every edge whose endpoints are still in
    different classes of a fresh disjoint-set forest, stopping after V - 1 acceptances. */
module Kruskal {
  import opened Graphs
  import opened Partition
  import opened DisjointSet
  import opened EdgeSort
  import opened KruskalStep

  /** The greedy loop of `kruskalMST` over edges already in non-decreasing weight order. It
      stops after the last edge or right after the (V-1)-th acceptance; `i` counts the edges it
      examined and `d` is the forest it leaves behind. */
  method GreedyLoop(V: nat, sorted: seq<Edge>) returns (d: Dsu, i: int, result: seq<Edge>)
    requires EdgesInRange(V, sorted) && SortedByWeight(sorted)
    ensures ScanInvariant(V, sorted, i, d, result)
    ensures i == |sorted| || (V > 0 && |result| == V - 1)
  {
    result := [];
    d := Init(V);
    var edgesAdded := 0;
    i := 0;
    ScanStart(V, sorted);
    while i < |sorted|
      invariant ScanInvariant(V, sorted, i, d, result)
      invariant edgesAdded == |result|
    {
      var accepted;
      d, result, accepted := ScanStep(V, sorted, i, d, result);
      i := i + 1;
      if accepted {
        edgesAdded := edgesAdded + 1;
        if edgesAdded == V - 1 {
          break;
        }
      }
    }
  }

  /** The scan as a whole. The contract holds for every non-decreasing order of the edges, so it
      covers whatever order `std::sort` leaves equal weights in. */
  method KruskalScan(V: nat, sorted: seq<Edge>) returns (result: seq<Edge>)
    requires EdgesInRange(V, sorted) && SortedByWeight(sorted)
    ensures EdgesInRange(V, result)
    ensures SubMultiset(result, sorted)
    ensures SortedByWeight(result)
    ensures IsForest(V, result)
    ensures V > 0 ==> |result| <= V - 1
    ensures SamePartition(Components(V, result), Components(V, sorted))
  {
    var d, i;
    d, i, result := GreedyLoop(V, sorted);
    KruskalFinish(V, sorted, i, d, result);
  }

  lemma KruskalFinish(V: nat, sorted: seq<Edge>, i: int, d: Dsu, result: seq<Edge>)
    requires EdgesInRange(V, sorted) && ScanInvariant(V, sorted, i, d, result)
    requires i == |sorted| || (V > 0 && |result| == V - 1)
    ensures EdgesInRange(V, result)
    ensures SubMultiset(result, sorted)
    ensures SortedByWeight(result)
    ensures IsForest(V, result)
    ensures V > 0 ==> |result| <= V - 1
    ensures SamePartition(Components(V, result), Components(V, sorted))
  {
    PrefixSubMultiset(sorted, i);
    assert i == |sorted| ==> sorted[..i] == sorted;
    KruskalPartition(V, sorted, result);
    if V > 0 {
      ForestSize(V, result);
    }
  }

  /** After the scan, either every edge of `sorted` lies inside a class of the forest, or V - 1
      edges were accepted; in both cases the accepted edges induce the same partition as all the
      edges. */
  lemma KruskalPartition(V: nat, sorted: seq<Edge>, result: seq<Edge>)
    requires EdgesInRange(V, sorted) && EdgesInRange(V, result)
    requires SubMultiset(result, sorted) && IsForest(V, result)
    requires (forall j :: 0 <= j < |sorted| ==> Components(V, result)[sorted[j].u] == Components(V, result)[sorted[j].v]) ||
             (V > 0 && |result| == V - 1)
    ensures SamePartition(Components(V, result), Components(V, sorted))
  {
    var c := Components(V, result);
    SubMultisetMembers(result, sorted);
    ComponentsOfSubset(V, result, sorted);
    if V > 0 && |result| == V - 1 {
      ForestSpansIffSize(V, result);
    } else {
      forall e | e in sorted
        ensures c[e.u] == c[e.v]
      {
        var j :| 0 <= j < |sorted| && sorted[j] == e;
      }
      ComponentsRefine(V, sorted, c);
    }
  }

  /** `kruskalMST` as a whole. Besides the spanning forest it returns the edge list in the order
      the sort left it, since the C++ function sorts `graph.edges` in place. */
  method KruskalMST(g: Graph) returns (sortedEdges: seq<Edge>, result: seq<Edge>)
    requires WellFormed(g)
    ensures multiset(sortedEdges) == multiset(g.edges) && SortedByWeight(sortedEdges)
    ensures EdgesInRange(g.V, result)
    ensures SubMultiset(result, g.edges) && SortedByWeight(result)
    ensures IsForest(g.V, result)
    ensures g.V > 0 ==> |result| <= g.V - 1
    ensures SamePartition(Components(g.V, result), Components(g.V, g.edges))
    ensures |result| == g.V - |Classes(Components(g.V, g.edges))|
    ensures g.V > 0 && Connected(g) ==> SpanningTree(g.V, result) && |result| == g.V - 1
  {
    sortedEdges := SortByWeight(g.edges);
    InRangeOfSubMultiset(g.V, sortedEdges, g.edges);
    result := KruskalScan(g.V, sortedEdges);
    ComponentsPermutation(g.V, sortedEdges, g.edges);
    RefinesTrans(Components(g.V, result), Components(g.V, sortedEdges), Components(g.V, g.edges));
    RefinesTrans(Components(g.V, g.edges), Components(g.V, sortedEdges), Components(g.V, result));
    ForestClasses(g.V, result);
    SamePartitionClasses(Components(g.V, result), Components(g.V, g.edges));
    if g.V > 0 && Connected(g) {
      SamePartitionOneClass(Components(g.V, result), Components(g.V, g.edges));
      ForestSpansIffSize(g.V, result);
    }
  }
}
