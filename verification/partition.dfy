/** The abstract meaning of union-find: a partition of the vertices 0..n-1, given by one class
    label per vertex (i and j share a class exactly when their labels agree). `Components` is the
    partition a list of edges induces when they are joined one after another; it is the reference
    both the disjoint-set forest and the spanning-tree builders are measured against. */
module Partition {
  import opened Graphs

  /** Every vertex alone in its own class. */
  function Singletons(n: nat): (lab: seq<int>)
    ensures |lab| == n
  {
    seq(n, i => i)
  }

  /** The partition with the classes of `a` and `b` merged into one. */
  function Join(lab: seq<int>, a: int, b: int): (r: seq<int>)
    requires 0 <= a < |lab| && 0 <= b < |lab|
    ensures |r| == |lab|
  {
    seq(|lab|, i requires 0 <= i < |lab| => if lab[i] == lab[a] then lab[b] else lab[i])
  }

  /** The classes induced by joining the edges of `es` in order, starting from singletons. */
  function Components(n: nat, es: seq<Edge>): (lab: seq<int>)
    requires EdgesInRange(n, es)
    ensures |lab| == n
  {
    if es == [] then Singletons(n)
    else
      var e := es[|es| - 1];
      Join(Components(n, es[..|es| - 1]), e.u, e.v)
  }

  /** Each edge, at its turn, joins two classes that were still apart: no edge closes a cycle. */
  predicate IsForest(n: nat, es: seq<Edge>)
    requires EdgesInRange(n, es)
  {
    es == [] ||
    (IsForest(n, es[..|es| - 1]) &&
     var c := Components(n, es[..|es| - 1]);
     c[es[|es| - 1].u] != c[es[|es| - 1].v])
  }

  /** The set of class labels in use; its size is the number of classes. */
  function Classes(lab: seq<int>): set<int> {
    set i | 0 <= i < |lab| :: lab[i]
  }

  /** Every class of `p` lies inside a class of `q`. */
  predicate Refines(p: seq<int>, q: seq<int>) {
    |p| == |q| &&
    forall i, j :: 0 <= i < |p| && 0 <= j < |p| && p[i] == p[j] ==> q[i] == q[j]
  }

  predicate SamePartition(p: seq<int>, q: seq<int>) {
    Refines(p, q) && Refines(q, p)
  }

  /** All vertices lie in one class. */
  predicate OneClass(lab: seq<int>) {
    forall i, j :: 0 <= i < |lab| && 0 <= j < |lab| ==> lab[i] == lab[j]
  }

  /** The edges of `g` connect every vertex to every other. */
  predicate Connected(g: Graph)
    requires WellFormed(g)
  {
    OneClass(Components(g.V, g.edges))
  }

  /** Connected and acyclic over the n vertices. */
  predicate SpanningTree(n: nat, es: seq<Edge>)
    requires EdgesInRange(n, es)
  {
    IsForest(n, es) && OneClass(Components(n, es))
  }

  lemma PrefixInRange(n: nat, es: seq<Edge>, k: nat)
    requires EdgesInRange(n, es) && k <= |es|
    ensures EdgesInRange(n, es[..k])
  {
    assert forall e | e in es[..k] :: e in es;
  }

  /** Appending one edge joins its endpoints' classes. */
  lemma ComponentsAppend(n: nat, es: seq<Edge>, e: Edge)
    requires EdgesInRange(n, es) && EdgeInRange(n, e)
    ensures EdgesInRange(n, es + [e])
    ensures Components(n, es + [e]) == Join(Components(n, es), e.u, e.v)
  {
    assert (es + [e])[..|es|] == es;
  }

  /** Appending an edge across two classes keeps a forest a forest. */
  lemma ForestAppend(n: nat, es: seq<Edge>, e: Edge)
    requires EdgesInRange(n, es) && EdgeInRange(n, e) && IsForest(n, es)
    requires Components(n, es)[e.u] != Components(n, es)[e.v]
    ensures EdgesInRange(n, es + [e]) && IsForest(n, es + [e])
  {
    assert (es + [e])[..|es|] == es;
  }

  /** Joining a and b removes exactly the class of a from the labels in use. */
  lemma JoinClasses(lab: seq<int>, a: int, b: int)
    requires 0 <= a < |lab| && 0 <= b < |lab| && lab[a] != lab[b]
    ensures Classes(Join(lab, a, b)) == Classes(lab) - {lab[a]}
    ensures |Classes(Join(lab, a, b))| == |Classes(lab)| - 1
  {
    var j := Join(lab, a, b);
    forall c | c in Classes(j)
      ensures c in Classes(lab) - {lab[a]}
    {
      var i :| 0 <= i < |j| && j[i] == c;
      if lab[i] == lab[a] {
        assert c == lab[b];
      }
    }
    forall c | c in Classes(lab) - {lab[a]}
      ensures c in Classes(j)
    {
      var i :| 0 <= i < |lab| && lab[i] == c;
      assert j[i] == c;
    }
  }

  lemma {:induction false} SingletonsClasses(n: nat)
    ensures |Classes(Singletons(n))| == n
  {
    if n > 0 {
      var s, t := Singletons(n), Singletons(n - 1);
      SingletonsClasses(n - 1);
      assert Classes(s) == Classes(t) + {n - 1} by {
        forall c | c in Classes(s)
          ensures c in Classes(t) + {n - 1}
        {
          var i :| 0 <= i < n && s[i] == c;
          if i < n - 1 {
            assert t[i] == c;
          }
        }
        forall c | c in Classes(t)
          ensures c in Classes(s)
        {
          var i :| 0 <= i < n - 1 && t[i] == c;
          assert s[i] == c;
        }
        assert s[n - 1] == n - 1;
      }
      assert n - 1 !in Classes(t);
    }
  }

  /** A forest of k edges over n vertices leaves exactly n - k classes. */
  lemma {:induction false} ForestClasses(n: nat, es: seq<Edge>)
    requires EdgesInRange(n, es) && IsForest(n, es)
    ensures |Classes(Components(n, es))| == n - |es|
    decreases |es|
  {
    if es == [] {
      SingletonsClasses(n);
    } else {
      var pre := es[..|es| - 1];
      var e := es[|es| - 1];
      PrefixInRange(n, es, |es| - 1);
      ForestClasses(n, pre);
      JoinClasses(Components(n, pre), e.u, e.v);
    }
  }

  lemma NonEmptyClasses(lab: seq<int>)
    requires |lab| > 0
    ensures |Classes(lab)| >= 1
  {
    assert lab[0] in Classes(lab);
  }

  /** A forest over n > 0 vertices has at most n - 1 edges. */
  lemma ForestSize(n: nat, es: seq<Edge>)
    requires EdgesInRange(n, es) && IsForest(n, es) && n > 0
    ensures |es| <= n - 1
  {
    ForestClasses(n, es);
    NonEmptyClasses(Components(n, es));
  }

  /** A partition with a single class has one label in use. */
  lemma OneClassCount(lab: seq<int>)
    requires |lab| > 0
    ensures OneClass(lab) <==> |Classes(lab)| == 1
  {
    if OneClass(lab) {
      assert Classes(lab) == {lab[0]};
    } else {
      var i, j :| 0 <= i < |lab| && 0 <= j < |lab| && lab[i] != lab[j];
      assert {lab[i], lab[j]} <= Classes(lab);
      assert |{lab[i], lab[j]}| == 2;
      SubsetSize({lab[i], lab[j]}, Classes(lab));
    }
  }

  lemma SubsetSize(a: set<int>, b: set<int>)
    requires a <= b
    ensures |a| <= |b|
  {
    assert b == a + (b - a);
  }

  /** A spanning forest is a spanning tree exactly when it has n - 1 edges. */
  lemma ForestSpansIffSize(n: nat, es: seq<Edge>)
    requires EdgesInRange(n, es) && IsForest(n, es) && n > 0
    ensures SpanningTree(n, es) <==> |es| == n - 1
  {
    ForestClasses(n, es);
    OneClassCount(Components(n, es));
  }

  /** Joining never separates two elements already in one class. */
  lemma JoinCoarsens(lab: seq<int>, a: int, b: int)
    requires 0 <= a < |lab| && 0 <= b < |lab|
    ensures Refines(lab, Join(lab, a, b))
    ensures Join(lab, a, b)[a] == Join(lab, a, b)[b]
  {
  }

  /** The endpoints of every edge of `es` end up in one class. */
  lemma {:induction false} EdgesJoined(n: nat, es: seq<Edge>)
    requires EdgesInRange(n, es)
    ensures forall e | e in es :: Components(n, es)[e.u] == Components(n, es)[e.v]
    decreases |es|
  {
    if es != [] {
      var pre := es[..|es| - 1];
      var e := es[|es| - 1];
      PrefixInRange(n, es, |es| - 1);
      EdgesJoined(n, pre);
      var c := Components(n, pre);
      JoinCoarsens(c, e.u, e.v);
      assert es == pre + [e];
    }
  }

  /** If every edge of `es` stays inside a class of `p`, then so does every class the edges
      induce: `Components(n, es)` is the finest partition joining their endpoints. */
  lemma {:induction false} ComponentsRefine(n: nat, es: seq<Edge>, p: seq<int>)
    requires EdgesInRange(n, es) && |p| == n
    requires forall e | e in es :: p[e.u] == p[e.v]
    ensures Refines(Components(n, es), p)
    decreases |es|
  {
    if es != [] {
      var pre := es[..|es| - 1];
      var e := es[|es| - 1];
      PrefixInRange(n, es, |es| - 1);
      assert forall f | f in pre :: f in es;
      ComponentsRefine(n, pre, p);
      assert p[e.u] == p[e.v];
    }
  }

  /** If `p` splits the vertices but the graph is connected, some edge of the graph crosses
      between two classes of `p`. */
  lemma CrossingEdge(g: Graph, p: seq<int>, i: int, j: int) returns (e: Edge)
    requires WellFormed(g) && Connected(g) && |p| == g.V
    requires 0 <= i < g.V && 0 <= j < g.V && p[i] != p[j]
    ensures e in g.edges && p[e.u] != p[e.v]
  {
    if forall f | f in g.edges :: p[f.u] == p[f.v] {
      ComponentsRefine(g.V, g.edges, p);
      assert false;
    }
    e :| e in g.edges && p[e.u] != p[e.v];
  }

  /** Two partitions that agree class for class have the same number of classes. */
  lemma SamePartitionOneClass(p: seq<int>, q: seq<int>)
    requires SamePartition(p, q)
    ensures OneClass(p) <==> OneClass(q)
  {
  }

  /** The labels of a labelling are those of all but its last vertex, plus the last one. */
  lemma ClassesSnoc(p: seq<int>)
    requires |p| > 0
    ensures Classes(p) == Classes(p[..|p| - 1]) + {p[|p| - 1]}
  {
    var p' := p[..|p| - 1];
    assert forall i :: 0 <= i < |p'| ==> p'[i] == p[i];
  }

  /** Two labellings with the same classes use the same number of labels. */
  lemma {:induction false} SamePartitionClasses(p: seq<int>, q: seq<int>)
    requires SamePartition(p, q)
    ensures |Classes(p)| == |Classes(q)|
    decreases |p|
  {
    if |p| > 0 {
      var n := |p| - 1;
      var p', q' := p[..n], q[..n];
      assert SamePartition(p', q');
      SamePartitionClasses(p', q');
      ClassesSnoc(p);
      ClassesSnoc(q);
      var cp, cq := Classes(p'), Classes(q');
      var isNew := p[n] !in cp;
      assert isNew <==> q[n] !in cq by {
        if p[n] in cp {
          var j :| 0 <= j < n && p'[j] == p[n];
          assert q'[j] == q[n] && q'[j] in cq;
        }
        if q[n] in cq {
          var j :| 0 <= j < n && q'[j] == q[n];
          assert p'[j] == p[n] && p'[j] in cp;
        }
      }
      if isNew {
        assert |cp + {p[n]}| == |cp| + 1 && |cq + {q[n]}| == |cq| + 1;
      } else {
        assert cp + {p[n]} == cp && cq + {q[n]} == cq;
      }
    }
  }

  lemma RefinesTrans(p: seq<int>, q: seq<int>, r: seq<int>)
    requires Refines(p, q) && Refines(q, r)
    ensures Refines(p, r)
  {
  }

  /** Joining the edges of `a`, all of which occur in `b`, never merges more than joining `b`. */
  lemma ComponentsOfSubset(n: nat, a: seq<Edge>, b: seq<Edge>)
    requires EdgesInRange(n, a) && EdgesInRange(n, b)
    requires forall e | e in a :: e in b
    ensures Refines(Components(n, a), Components(n, b))
  {
    EdgesJoined(n, b);
    ComponentsRefine(n, a, Components(n, b));
  }

  /** The partition an edge list induces does not depend on the order of the edges. */
  lemma ComponentsPermutation(n: nat, a: seq<Edge>, b: seq<Edge>)
    requires EdgesInRange(n, a) && EdgesInRange(n, b) && multiset(a) == multiset(b)
    ensures SamePartition(Components(n, a), Components(n, b))
  {
    assert forall e | e in a :: e in multiset(b);
    assert forall e | e in b :: e in multiset(a);
    ComponentsOfSubset(n, a, b);
    ComponentsOfSubset(n, b, a);
  }
}
