/** The two passes of one Boruvka round, one edge or one slot at a time: the candidate table
    `cheapest` holds, for every current root, the lightest edge seen so far that leaves its class;
    the merge pass then accepts every candidate whose endpoints are still apart. */
module BoruvkaStep {
  import opened Graphs
  import opened Partition
  import opened DisjointSet

  /** The filler of an empty slot in the candidate table: `Edge(-1, -1, INT_MAX)`. */
  const Empty: Edge := Edge(-1, -1, IntMax)

  /** The root of every element, as the round sees them before it changes anything. */
  function Roots(d: Dsu): (lab: seq<int>)
    requires Valid(d)
    ensures |lab| == Size(d)
  {
    seq(Size(d), x requires 0 <= x < Size(d) => Root(d, x))
  }

  /** Edge `e` runs between two classes of `lab`, one of which is labelled `c`. */
  predicate Leaves(lab: seq<int>, e: Edge, c: int) {
    EdgeInRange(|lab|, e) && lab[e.u] != lab[e.v] && (lab[e.u] == c || lab[e.v] == c)
  }

  /** The endpoints of `e` are elements of `d` with different roots. */
  predicate Apart(d: Dsu, e: Edge)
    requires Valid(d)
  {
    EdgeInRange(Size(d), e) && Root(d, e.u) != Root(d, e.v)
  }

  /** What the scan does to slot `c` on meeting edge `e`: a leaving edge strictly lighter than
      the current candidate replaces it. */
  function Offer(lab: seq<int>, slot: Edge, e: Edge, c: int): Edge {
    if Leaves(lab, e, c) && e.weight < slot.weight then e else slot
  }

  /** The content of slot `c` after the scan has offered every edge of `es`, in order, starting
      from an empty slot. */
  function CheapestOf(lab: seq<int>, es: seq<Edge>, c: int): Edge {
    if es == [] then Empty
    else Offer(lab, CheapestOf(lab, es[..|es| - 1], c), es[|es| - 1], c)
  }

  /** The meaning of a slot: it stays empty exactly when no edge leaves the class, and otherwise
      holds a leaving edge of least weight. */
  lemma {:induction false} CheapestOfMeaning(lab: seq<int>, es: seq<Edge>, c: int)
    requires BelowSentinel(es)
    ensures CheapestOf(lab, es, c) == Empty <==> forall k :: 0 <= k < |es| ==> !Leaves(lab, es[k], c)
    ensures CheapestOf(lab, es, c) != Empty ==>
      CheapestOf(lab, es, c) in es && Leaves(lab, CheapestOf(lab, es, c), c) &&
      forall k :: 0 <= k < |es| && Leaves(lab, es[k], c) ==> CheapestOf(lab, es, c).weight <= es[k].weight
    decreases |es|
  {
    if es != [] {
      var pre, e := es[..|es| - 1], es[|es| - 1];
      assert BelowSentinel(pre) by {
        assert forall f | f in pre :: f in es;
      }
      CheapestOfMeaning(lab, pre, c);
      assert e in es;
      assert forall k :: 0 <= k < |pre| ==> es[k] == pre[k];
      assert es == pre + [e];
    }
  }

  /** Of several leaving edges of least weight, the slot holds the one listed first, since only a
      strictly lighter edge displaces the candidate. */
  lemma {:induction false} CheapestOfFirst(lab: seq<int>, es: seq<Edge>, c: int) returns (k: int)
    requires BelowSentinel(es) && CheapestOf(lab, es, c) != Empty
    ensures 0 <= k < |es| && es[k] == CheapestOf(lab, es, c)
    ensures forall j :: 0 <= j < k && Leaves(lab, es[j], c) ==> es[j].weight > es[k].weight
    decreases |es|
  {
    var pre, e := es[..|es| - 1], es[|es| - 1];
    assert BelowSentinel(pre) by {
      assert forall f | f in pre :: f in es;
    }
    var best := CheapestOf(lab, pre, c);
    CheapestOfMeaning(lab, pre, c);
    if Leaves(lab, e, c) && e.weight < best.weight {
      k := |es| - 1;
    } else {
      k := CheapestOfFirst(lab, pre, c);
    }
  }

  /** Two forests over the same elements have the same roots exactly when their root tables
      agree. */
  lemma SameRootsRoots(d: Dsu, d2: Dsu)
    requires Valid(d) && Valid(d2) && Size(d2) == Size(d)
    ensures SameRoots(d, d2) <==> Roots(d2) == Roots(d)
  {
    if Roots(d2) == Roots(d) {
      forall y | 0 <= y < Size(d)
        ensures Root(d2, y) == Root(d, y)
      {
        assert Roots(d2)[y] == Roots(d)[y];
      }
    }
  }

  /** What the scan knows after offering the first k edges: the forest (compressed by `find`)
      still has the round's roots `lab`, and every slot holds what `CheapestOf` prescribes. */
  ghost predicate ScanState(V: nat, edges: seq<Edge>, lab: seq<int>, k: int, d: Dsu, cheapest: seq<Edge>) {
    0 <= k <= |edges| && Valid(d) && Roots(d) == lab && |lab| == V && |cheapest| == V &&
    forall c :: 0 <= c < V ==> cheapest[c] == CheapestOf(lab, edges[..k], c)
  }

  /** One turn of the scan: find the roots of both endpoints and, when they differ, offer the
      edge to the slot of each root. */
  method ScanEdge(V: nat, edges: seq<Edge>, lab: seq<int>, k: int, d: Dsu, cheapest: seq<Edge>)
    returns (d2: Dsu, cheapest2: seq<Edge>)
    requires EdgesInRange(V, edges) && ScanState(V, edges, lab, k, d, cheapest) && k < |edges|
    ensures ScanState(V, edges, lab, k + 1, d2, cheapest2)
  {
    var e := edges[k];
    assert EdgeInRange(V, e);
    var (d1, compU) := Find(d, e.u);
    var (d3, compV) := Find(d1, e.v);
    SameRootsRoots(d, d1);
    SameRootsRoots(d1, d3);
    d2 := d3;
    assert compU == lab[e.u] && compV == lab[e.v];
    cheapest2 := cheapest;
    if compU != compV {
      if e.weight < cheapest2[compU].weight {
        cheapest2 := cheapest2[compU := e];
      }
      if e.weight < cheapest2[compV].weight {
        cheapest2 := cheapest2[compV := e];
      }
      assert cheapest2[compU] == Offer(lab, cheapest[compU], e, compU);
      assert cheapest2[compV] == Offer(lab, cheapest[compV], e, compV);
    }
    assert edges[..k + 1][..k] == edges[..k];
    forall c | 0 <= c < V
      ensures cheapest2[c] == CheapestOf(lab, edges[..k + 1], c)
    {
      if c != compU && c != compV {
        assert !Leaves(lab, e, c);
      }
    }
  }

  /** The partial result of a Boruvka run: the forest `d` stands for the classes the accepted
      edges induce, and those edges form a forest drawn from the graph's edges. */
  ghost predicate ForestState(V: nat, edges: seq<Edge>, d: Dsu, result: seq<Edge>) {
    Valid(d) && Size(d) == V && EdgesInRange(V, result) &&
    Represents(d, Components(V, result)) && IsForest(V, result) && SubMultiset(result, edges)
  }

  /** The table the scan hands to the merge pass: slot c is `CheapestOf` for root c. */
  predicate Candidates(V: nat, edges: seq<Edge>, lab: seq<int>, cheapest: seq<Edge>) {
    |cheapest| == V && forall c :: 0 <= c < V ==> cheapest[c] == CheapestOf(lab, edges, c)
  }

  /** What the merge pass knows before slot i: the forest state holds, and as long as nothing
      was accepted this round the forest still has the round's roots and every slot so far was
      empty. */
  ghost predicate MergeState(V: nat, edges: seq<Edge>, lab: seq<int>, cheapest: seq<Edge>,
                             i: int, start: int, d: Dsu, result: seq<Edge>) {
    ForestState(V, edges, d, result) && 0 <= i <= V && |cheapest| == V && start <= |result| &&
    (|result| == start ==> Roots(d) == lab && forall j :: 0 <= j < i ==> cheapest[j] == Empty)
  }

  /** Accepting an edge of the graph whose endpoints have different roots, and uniting them,
      keeps the forest state. */
  lemma ForestAccept(V: nat, edges: seq<Edge>, d: Dsu, result: seq<Edge>, e: Edge)
    requires ForestState(V, edges, d, result) && e in edges && EdgeInRange(V, e)
    requires Root(d, e.u) != Root(d, e.v)
    ensures ForestState(V, edges, Unite(d, e.u, e.v), result + [e])
  {
    var c := Components(V, result);
    assert c[e.u] != c[e.v];
    ForestAppend(V, result, e);
    ComponentsAppend(V, result, e);
    UniteJoins(d, c, e.u, e.v);
    EdgesJoined(V, result);
    assert e !in result;
    assert multiset(result + [e]) == multiset(result) + multiset{e};
    assert e in multiset(edges);
  }

  /** An edge leaving a class of the root table `lab` of `d` has endpoints with different roots. */
  lemma LeavingEdgeApart(d: Dsu, lab: seq<int>, e: Edge, c: int)
    requires Valid(d) && Roots(d) == lab && Leaves(lab, e, c)
    ensures Root(d, e.u) != Root(d, e.v)
  {
    assert lab[e.u] == Root(d, e.u) && lab[e.v] == Root(d, e.v);
  }

  /** One turn of the merge pass over slot i: a filled slot whose edge still joins two classes
      is accepted and its endpoints united. */
  method MergeSlot(V: nat, edges: seq<Edge>, lab: seq<int>, cheapest: seq<Edge>,
                   i: int, start: int, d: Dsu, result: seq<Edge>)
    returns (d2: Dsu, result2: seq<Edge>, accepted: bool)
    requires EdgesInRange(V, edges) && BelowSentinel(edges) && Candidates(V, edges, lab, cheapest)
    requires MergeState(V, edges, lab, cheapest, i, start, d, result) && i < V
    ensures accepted <==> cheapest[i].weight != IntMax && Apart(d, cheapest[i])
    ensures MergeState(V, edges, lab, cheapest, i + 1, start, d2, result2)
    ensures result2 == if accepted then result + [cheapest[i]] else result
    ensures |result2| == |result| + (if accepted then 1 else 0)
  {
    var e := cheapest[i];
    d2, result2, accepted := d, result, false;
    CheapestOfMeaning(lab, edges, i);
    if e.weight != IntMax {
      MemberInRange(V, edges, e);
      if |result| == start {
        LeavingEdgeApart(d, lab, e, i);
      }
      var (d1, same) := SameSet(d, e.u, e.v);
      SameRootsRoots(d, d1);
      if !same {
        ForestAccept(V, edges, d1, result, e);
        result2 := result + [e];
        d2 := Unite(d1, e.u, e.v);
        accepted := true;
      } else {
        RepresentsSameRoots(d, d1, Components(V, result));
        d2 := d1;
      }
    }
  }

  /** Progress: while the forest has two or more classes, some class of a connected graph has
      an edge leaving it, so the scan fills at least one slot. */
  lemma FilledSlot(g: Graph, d: Dsu, result: seq<Edge>) returns (c: int)
    requires WellFormed(g) && Connected(g) && BelowSentinel(g.edges)
    requires ForestState(g.V, g.edges, d, result) && g.V - |result| > 1
    ensures 0 <= c < g.V && CheapestOf(Roots(d), g.edges, c) != Empty
  {
    var p := Components(g.V, result);
    ForestClasses(g.V, result);
    OneClassCount(p);
    var i, j :| 0 <= i < g.V && 0 <= j < g.V && p[i] != p[j];
    var e := CrossingEdge(g, p, i, j);
    MemberInRange(g.V, g.edges, e);
    var lab := Roots(d);
    c := Root(d, e.u);
    assert Leaves(lab, e, c);
    var k :| 0 <= k < |g.edges| && g.edges[k] == e;
    CheapestOfMeaning(lab, g.edges, c);
  }
}
