/** The graph model shared by both spanning-tree builders: weighted undirected edges over the
    vertices 0..V-1, kept as a plain list that may hold parallel or duplicate edges. */
module Graphs {

  /** An undirected edge; (u, v, w) and (v, u, w) denote the same connection. */
  datatype Edge = Edge(u: int, v: int, weight: int)

  /** A vertex count and an edge list, in insertion order. */
  datatype Graph = Graph(V: nat, edges: seq<Edge>)

  /** The largest 32-bit signed integer; the Boruvka builder uses it as the weight of an empty
      candidate slot. */
  const IntMax: int := 0x7fff_ffff

  predicate EdgeInRange(n: int, e: Edge) {
    0 <= e.u < n && 0 <= e.v < n
  }

  /** Every endpoint names one of the vertices 0..n-1 (the C++ code indexes its arrays with them
      unchecked). */
  predicate EdgesInRange(n: int, es: seq<Edge>) {
    forall k :: 0 <= k < |es| ==> EdgeInRange(n, es[k])
  }

  predicate WellFormed(g: Graph) {
    EdgesInRange(g.V, g.edges)
  }

  /** No real edge is as heavy as the empty-slot sentinel. */
  predicate BelowSentinel(es: seq<Edge>) {
    forall e | e in es :: e.weight < IntMax
  }

  /** Non-decreasing by weight; equal weights may come in any order. */
  predicate SortedByWeight(es: seq<Edge>) {
    forall i, j :: 0 <= i < j < |es| ==> es[i].weight <= es[j].weight
  }

  /** Edges drawn from `es`, each at most as often as it occurs there. */
  predicate SubMultiset(r: seq<Edge>, es: seq<Edge>) {
    multiset(r) <= multiset(es)
  }

  lemma SubMultisetMembers(r: seq<Edge>, es: seq<Edge>)
    requires SubMultiset(r, es)
    ensures forall e | e in r :: e in es
  {
    forall e | e in r
      ensures e in es
    {
      assert e in multiset(r);
    }
  }

  lemma InRangeOfSubMultiset(n: int, r: seq<Edge>, es: seq<Edge>)
    requires SubMultiset(r, es) && EdgesInRange(n, es)
    ensures EdgesInRange(n, r)
  {
    SubMultisetMembers(r, es);
    forall k | 0 <= k < |r|
      ensures EdgeInRange(n, r[k])
    {
      assert r[k] in r;
    }
  }

  lemma MemberInRange(n: int, es: seq<Edge>, e: Edge)
    requires EdgesInRange(n, es) && e in es
    ensures EdgeInRange(n, e)
  {
  }

  lemma PrefixSubMultiset(es: seq<Edge>, k: nat)
    requires k <= |es|
    ensures SubMultiset(es[..k], es)
  {
    assert es == es[..k] + es[k..];
  }
}
