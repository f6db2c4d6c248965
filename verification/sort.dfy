/** The weight ordering Kruskal's builder needs. The C++ code calls `std::sort` with a
    "lighter than" comparator; that sort is not stable, so the order of equal-weight edges is
    unspecified. `SortByWeight` is one admissible outcome (an insertion sort, which happens to keep
    equal weights in input order); the builder's contract is proved for every sorted permutation. */
module EdgeSort {
  import opened Graphs

  /** Places `e` into the sorted list `s`, before the first edge that is not lighter than it. */
  function Insert(e: Edge, s: seq<Edge>): (r: seq<Edge>)
    requires SortedByWeight(s)
    ensures SortedByWeight(r)
    ensures multiset(r) == multiset(s) + multiset{e}
    ensures |r| == |s| + 1
  {
    if s == [] || e.weight <= s[0].weight then
      [e] + s
    else
      var t := Insert(e, s[1..]);
      assert s == [s[0]] + s[1..];
      LowerBound(s[0], e, s[1..], t);
      [s[0]] + t
  }

  /** An edge no heavier than `e` and than every edge of the sorted tail `s` is no heavier than
      any edge of the list inserting `e` into `s` produced; `[h] + t` is then sorted. */
  lemma LowerBound(h: Edge, e: Edge, s: seq<Edge>, t: seq<Edge>)
    requires h.weight <= e.weight
    requires forall x | x in s :: h.weight <= x.weight
    requires SortedByWeight(t) && multiset(t) == multiset(s) + multiset{e}
    ensures SortedByWeight([h] + t)
  {
    forall k | 0 <= k < |t|
      ensures h.weight <= t[k].weight
    {
      assert t[k] in multiset(t);
      if t[k] != e {
        assert t[k] in multiset(s);
      }
    }
  }

  /** A permutation of `es` in non-decreasing weight order. */
  function SortByWeight(es: seq<Edge>): (r: seq<Edge>)
    ensures SortedByWeight(r)
    ensures multiset(r) == multiset(es)
    ensures |r| == |es|
  {
    if es == [] then []
    else
      assert es == [es[0]] + es[1..];
      Insert(es[0], SortByWeight(es[1..]))
  }
}
