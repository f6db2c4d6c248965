/** The disjoint-set forest (DSU) over the elements 0..n-1: a `parent` array whose roots name the
    classes and a `rank` array used to keep the trees shallow. The C++ class mutates its arrays in
    place; here every operation takes the forest as a value and returns the updated one. */
module DisjointSet {
  import opened Partition

  datatype Dsu = Dsu(parent: seq<int>, rank: seq<int>)

  function Size(d: Dsu): nat {
    |d.parent|
  }

  predicate InRange(d: Dsu, x: int) {
    0 <= x < |d.parent|
  }

  /** The structural invariant: both arrays cover the same elements, every parent is an element,
      and every non-root is ranked strictly below its parent (so the parent links have no cycle). */
  predicate Valid(d: Dsu) {
    |d.rank| == |d.parent| &&
    (forall x :: 0 <= x < |d.parent| ==> 0 <= d.parent[x] < |d.parent|) &&
    forall x :: 0 <= x < |d.parent| && d.parent[x] != x ==> d.rank[d.parent[x]] > d.rank[x]
  }

  /** The elements ranked at least as high as `x`. A walk towards the root climbs strictly in rank,
      so this set shrinks at every step; it is the termination measure of `Root` and `Find`. */
  function Above(d: Dsu, x: int): set<int>
    requires |d.rank| == |d.parent| && InRange(d, x)
  {
    set i | 0 <= i < |d.rank| && d.rank[i] >= d.rank[x]
  }

  lemma AboveShrinks(d: Dsu, x: int)
    requires Valid(d) && InRange(d, x) && d.parent[x] != x
    ensures Above(d, d.parent[x]) < Above(d, x)
  {
    assert x in Above(d, x);
  }

  /** The root reached by following parent links from `x`, without changing anything: the
      reference meaning of `find`. */
  function Root(d: Dsu, x: int): (r: int)
    requires Valid(d) && InRange(d, x)
    ensures InRange(d, r) && d.parent[r] == r
    ensures r == x || d.rank[r] > d.rank[x]
    decreases Above(d, x)
  {
    if d.parent[x] == x then x
    else
      AboveShrinks(d, x);
      Root(d, d.parent[x])
  }

  /** `d2` arises from `d` by re-pointing some elements straight at their own roots; ranks are
      untouched. This is all that path compression may do. */
  predicate Compressed(d: Dsu, d2: Dsu)
    requires Valid(d)
  {
    |d2.parent| == |d.parent| && d2.rank == d.rank &&
    forall y :: 0 <= y < |d.parent| ==> d2.parent[y] == d.parent[y] || d2.parent[y] == Root(d, y)
  }

  /** Every element has the same root in both forests: they describe the same partition. */
  predicate SameRoots(d: Dsu, d2: Dsu)
    requires Valid(d) && Valid(d2)
  {
    |d2.parent| == |d.parent| && forall y :: 0 <= y < |d.parent| ==> Root(d2, y) == Root(d, y)
  }

  /** The forest `d` stands for the partition `lab`: two elements share a root exactly when they
      share a label. */
  predicate Represents(d: Dsu, lab: seq<int>)
    requires Valid(d)
  {
    |lab| == Size(d) &&
    forall i, j :: 0 <= i < |lab| && 0 <= j < |lab| ==> (Root(d, i) == Root(d, j) <==> lab[i] == lab[j])
  }

  lemma CompressedValid(d: Dsu, d2: Dsu)
    requires Valid(d) && Compressed(d, d2)
    ensures Valid(d2)
  {
  }

  lemma {:induction false} CompressedRoot(d: Dsu, d2: Dsu, y: int)
    requires Valid(d) && Compressed(d, d2) && InRange(d, y)
    ensures Valid(d2) && Root(d2, y) == Root(d, y)
    decreases Above(d2, y)
  {
    CompressedValid(d, d2);
    var p := d2.parent[y];
    if p != y {
      AboveShrinks(d2, y);
      CompressedRoot(d, d2, p);
    }
  }

  /** Path compression keeps the invariant and changes no element's root. */
  lemma CompressedKeepsRoots(d: Dsu, d2: Dsu)
    requires Valid(d) && Compressed(d, d2)
    ensures Valid(d2) && SameRoots(d, d2)
  {
    CompressedValid(d, d2);
    forall y | 0 <= y < |d.parent|
      ensures Root(d2, y) == Root(d, y)
    {
      CompressedRoot(d, d2, y);
    }
  }

  lemma CompressedTrans(d: Dsu, d1: Dsu, d2: Dsu)
    requires Valid(d) && Compressed(d, d1) && Valid(d1) && Compressed(d1, d2)
    ensures Compressed(d, d2)
  {
    CompressedKeepsRoots(d, d1);
  }

  lemma RepresentsSameRoots(d: Dsu, d2: Dsu, lab: seq<int>)
    requires Valid(d) && Valid(d2) && SameRoots(d, d2) && Represents(d, lab)
    ensures Represents(d2, lab)
  {
  }

  /** A fresh forest of `n` singletons: the C++ constructor `DSU(n)`. */
  function Init(n: nat): (d: Dsu)
    ensures Valid(d) && Size(d) == n
    ensures forall i :: 0 <= i < n ==> d.parent[i] == i && d.rank[i] == 0
    ensures forall i :: 0 <= i < n ==> Root(d, i) == i
    ensures Represents(d, Singletons(n))
  {
    Dsu(seq(n, i => i), seq(n, i => 0))
  }

  /** `find` with path compression: the root of `x`, and the forest after every element on the
      path from `x` has been re-pointed at that root. */
  function Find(d: Dsu, x: int): (res: (Dsu, int))
    requires Valid(d) && InRange(d, x)
    ensures res.1 == Root(d, x)
    ensures Compressed(d, res.0) && Valid(res.0) && SameRoots(d, res.0)
    ensures res.0.parent[x] == res.1
    decreases Above(d, x)
  {
    if d.parent[x] == x then (d, x)
    else
      AboveShrinks(d, x);
      var (d1, r) := Find(d, d.parent[x]);
      var d2 := d1.(parent := d1.parent[x := r]);
      CompressedKeepsRoots(d, d2);
      (d2, r)
  }

  /** `sameSet`: whether `x` and `y` have the same root, together with the forest as the two
      `find` calls leave it. */
  function SameSet(d: Dsu, x: int, y: int): (res: (Dsu, bool))
    requires Valid(d) && InRange(d, x) && InRange(d, y)
    ensures res.1 <==> Root(d, x) == Root(d, y)
    ensures Compressed(d, res.0) && Valid(res.0) && SameRoots(d, res.0)
  {
    var (d1, rx) := Find(d, x);
    var (d2, ry) := Find(d1, y);
    CompressedTrans(d, d1, d2);
    CompressedKeepsRoots(d, d2);
    (d2, rx == ry)
  }

  /** Hanging root `a` under root `b` (whose rank may have been raised meanwhile) merges the class
      of `a` into that of `b` and keeps the invariant. */
  lemma LinkRoots(d: Dsu, a: int, b: int, d2: Dsu)
    requires Valid(d) && InRange(d, a) && InRange(d, b) && a != b
    requires d.parent[a] == a && d.parent[b] == b
    requires d2.parent == d.parent[a := b] && |d2.rank| == |d.rank|
    requires forall z :: 0 <= z < |d.rank| && z != b ==> d2.rank[z] == d.rank[z]
    requires d2.rank[b] >= d.rank[b] && d2.rank[b] > d.rank[a]
    ensures Valid(d2)
    ensures forall z :: 0 <= z < Size(d) ==> Root(d2, z) == if Root(d, z) == a then b else Root(d, z)
  {
    assert Valid(d2);
    forall z | 0 <= z < Size(d)
      ensures Root(d2, z) == if Root(d, z) == a then b else Root(d, z)
    {
      LinkRoot(d, a, b, d2, z);
    }
  }

  lemma {:induction false} LinkRoot(d: Dsu, a: int, b: int, d2: Dsu, z: int)
    requires Valid(d) && InRange(d, a) && InRange(d, b) && a != b
    requires d.parent[a] == a && d.parent[b] == b
    requires d2.parent == d.parent[a := b] && |d2.rank| == |d.rank|
    requires forall z :: 0 <= z < |d.rank| && z != b ==> d2.rank[z] == d.rank[z]
    requires d2.rank[b] >= d.rank[b] && d2.rank[b] > d.rank[a]
    requires InRange(d, z)
    ensures Valid(d2)
    ensures Root(d2, z) == if Root(d, z) == a then b else Root(d, z)
    decreases Above(d, z)
  {
    assert Valid(d2);
    var p := d.parent[z];
    if p != z {
      AboveShrinks(d, z);
      LinkRoot(d, a, b, d2, p);
    } else if z == a {
      assert Root(d2, b) == b;
    }
  }

  /** The linking step of `unite`, given the two roots its `find` calls returned: the root of
      lower rank is hung under the other; on equal ranks `b` goes under `a`, whose rank grows by
      one; equal roots leave the forest alone. */
  function Link(d: Dsu, a: int, b: int): (d2: Dsu)
    requires Valid(d) && InRange(d, a) && InRange(d, b) && d.parent[a] == a && d.parent[b] == b
    ensures Valid(d2) && Size(d2) == Size(d)
    ensures a == b ==> d2 == d
    ensures a != b ==> Root(d2, a) == if d.rank[a] < d.rank[b] then b else a
    ensures Root(d2, a) == Root(d2, b)
    ensures forall z :: 0 <= z < Size(d) ==>
      Root(d2, z) == if Root(d, z) == a || Root(d, z) == b then Root(d2, a) else Root(d, z)
    ensures forall z :: 0 <= z < Size(d) && z != Root(d2, a) ==> d2.rank[z] == d.rank[z]
    ensures d2.rank[Root(d2, a)] == d.rank[Root(d2, a)] + (if a != b && d.rank[a] == d.rank[b] then 1 else 0)
  {
    if a == b then
      d
    else if d.rank[a] < d.rank[b] then
      var d2 := d.(parent := d.parent[a := b]);
      LinkRoots(d, a, b, d2);
      d2
    else if d.rank[a] > d.rank[b] then
      var d2 := d.(parent := d.parent[b := a]);
      LinkRoots(d, b, a, d2);
      d2
    else
      var d2 := Dsu(d.parent[b := a], d.rank[a := d.rank[a] + 1]);
      LinkRoots(d, b, a, d2);
      d2
  }

  lemma SameRootsTrans(d: Dsu, d1: Dsu, d2: Dsu)
    requires Valid(d) && Valid(d1) && Valid(d2) && SameRoots(d, d1) && SameRoots(d1, d2)
    ensures SameRoots(d, d2)
  {
  }

  /** `unite` by rank: find both roots (compressing both paths), then link them. Afterwards x and
      y share a root, the classes of x and y form one class, every other class is unchanged, and
      only the surviving root's rank may grow, by one, when the two ranks were equal. */
  function Unite(d: Dsu, x: int, y: int): (d2: Dsu)
    requires Valid(d) && InRange(d, x) && InRange(d, y)
    ensures Valid(d2) && Size(d2) == Size(d)
    ensures Root(d2, x) == Root(d2, y)
    ensures Root(d, x) != Root(d, y) ==>
      Root(d2, x) == if d.rank[Root(d, x)] < d.rank[Root(d, y)] then Root(d, y) else Root(d, x)
    ensures Root(d, x) == Root(d, y) ==> Root(d2, x) == Root(d, x)
    ensures forall z :: 0 <= z < Size(d) ==>
      Root(d2, z) == if Root(d, z) == Root(d, x) || Root(d, z) == Root(d, y) then Root(d2, x) else Root(d, z)
    ensures forall z :: 0 <= z < Size(d) && z != Root(d2, x) ==> d2.rank[z] == d.rank[z]
    ensures d2.rank[Root(d2, x)] == d.rank[Root(d2, x)] + (if Root(d, x) != Root(d, y) && d.rank[Root(d, x)] == d.rank[Root(d, y)] then 1 else 0)
  {
    var (d1, rx) := Find(d, x);
    var (d2, ry) := Find(d1, y);
    SameRootsTrans(d, d1, d2);
    var d3 := Link(d2, rx, ry);
    assert Root(d3, x) == Root(d3, rx);
    d3
  }

  /** Uniting x and y in a forest that stands for `lab` yields a forest standing for `lab` with
      the classes of x and y joined. */
  lemma UniteJoins(d: Dsu, lab: seq<int>, x: int, y: int)
    requires Valid(d) && InRange(d, x) && InRange(d, y) && Represents(d, lab)
    ensures Represents(Unite(d, x, y), Join(lab, x, y))
  {
  }
}
