/** `calculateTotalWeight`: the sum of the weights of a list of edges. */
module Weights {
  import opened Graphs

  /** The sum of `weight` over `es`, as an unbounded integer. */
  function TotalWeight(es: seq<Edge>): int {
    if es == [] then 0 else es[0].weight + TotalWeight(es[1..])
  }

  lemma {:induction false} TotalWeightAppend(a: seq<Edge>, b: seq<Edge>)
    ensures TotalWeight(a + b) == TotalWeight(a) + TotalWeight(b)
  {
    if a != [] {
      assert (a + b)[1..] == a[1..] + b;
      TotalWeightAppend(a[1..], b);
    } else {
      assert a + b == b;
    }
  }

  /** The total does not depend on the order of the edges, only on which edges occur how often. */
  lemma {:induction false} TotalWeightPermutation(a: seq<Edge>, b: seq<Edge>)
    requires multiset(a) == multiset(b)
    ensures TotalWeight(a) == TotalWeight(b)
    decreases |a|
  {
    if a != [] {
      var x := a[0];
      assert x in multiset(b);
      var k :| 0 <= k < |b| && b[k] == x;
      var rest := b[..k] + b[k + 1..];
      assert b == b[..k] + [x] + b[k + 1..];
      assert multiset(b[..k] + [x] + b[k + 1..]) == multiset(b[..k]) + multiset{x} + multiset(b[k + 1..]);
      TotalWeightAppend(b[..k] + [x], b[k + 1..]);
      TotalWeightAppend(b[..k], [x]);
      TotalWeightAppend(b[..k], b[k + 1..]);
      assert a == [x] + a[1..];
      assert multiset(b) == multiset(b[..k]) + multiset{x} + multiset(b[k + 1..]);
      assert multiset(a) == multiset{x} + multiset(a[1..]);
      assert multiset(rest) == multiset(b[..k]) + multiset(b[k + 1..]);
      assert multiset(a[1..]) == multiset(a) - multiset{x};
      assert multiset(rest) == multiset(b) - multiset{x};
      TotalWeightPermutation(a[1..], rest);
    }
  }

  /** The C++ accumulation loop. */
  method CalculateTotalWeight(mst: seq<Edge>) returns (total: int)
    ensures total == TotalWeight(mst)
    ensures mst == [] ==> total == 0
  {
    total := 0;
    var i := 0;
    while i < |mst|
      invariant 0 <= i <= |mst|
      invariant total == TotalWeight(mst[..i])
    {
      assert mst[..i + 1] == mst[..i] + [mst[i]];
      TotalWeightAppend(mst[..i], [mst[i]]);
      total := total + mst[i].weight;
      i := i + 1;
    }
    assert mst[..i] == mst;
  }
}
