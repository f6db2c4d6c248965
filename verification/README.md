# Minimum spanning trees with a disjoint-set forest — a Dafny model

This project models the computational core of `ConsoleApplication1.cpp`, a small C++ program that
builds a minimum spanning tree of a weighted undirected graph in two ways, and proves properties
of the model:

- the disjoint-set forest `DSU` (`find` with path compression, `unite` by rank, `sameSet`);
- `kruskalMST`: sort the edges by weight, then greedily accept every edge whose endpoints are in
  different sets, stopping after `V - 1` acceptances;
- `boruvkaMST`: in rounds, find the lightest edge leaving every component, then accept those
  candidates whose endpoints are still apart, until one component is left;
- `calculateTotalWeight`: the sum of the weights of a list of edges.

The C++ `DSU` class mutates its arrays in place. Here the forest is an immutable value
`Dsu(parent, rank)`, and every operation returns the updated forest together with its answer.
The meaning of a forest is given by two reference definitions:

- `Root`, which follows parent links without changing anything;
- `Components(V, es)` (module `Partition`), the partition of the vertices that joining the edges
  of `es` one after another induces, written as one class label per vertex.

`Represents(d, lab)` says that the forest `d` and the labelling `lab` have the same classes. Both
builders are proved to keep their forest representing the components of the edges accepted so far.

Files:

| file | module | contents |
|---|---|---|
| `graph.dfy` | `Graphs` | edges, graphs, weight order, the `INT_MAX` sentinel |
| `partition.dfy` | `Partition` | label partitions, `Components`, forests, spanning trees, counting classes |
| `dsu.dfy` | `DisjointSet` | the forest, `Root`, `Find`, `SameSet`, `Link`, `Unite` |
| `sort.dfy` | `EdgeSort` | sorting edges by weight |
| `kruskal.dfy` | `KruskalStep`, `Kruskal` | one turn of the Kruskal loop and the builder |
| `boruvka_step.dfy` | `BoruvkaStep` | the candidate table and one turn of each Boruvka pass |
| `boruvka.dfy` | `Boruvka` | the two passes of a round, rounds, the builder |
| `weights.dfy` | `Weights` | `calculateTotalWeight` |

Two points where the code's behaviour shapes the model:

- `std::sort` is not stable, so edges of equal weight come out in an unspecified order. The
  Kruskal contract is therefore proved for every non-decreasing order of the edges
  (`Kruskal.KruskalScan`), not for one particular order.
- `while (components > 1)` in `boruvkaMST` has no exit for a round that accepts nothing, so on a
  disconnected graph it never ends. The model requires a connected graph and proves that every
  round then makes progress.

## Model

| member | source | states |
|---|---|---|
| `DisjointSet.Init` | ConsoleApplication1.cpp:36-42 | a fresh forest is valid, every element is its own root, and it represents the all-singletons partition |
| `DisjointSet.Root` | ConsoleApplication1.cpp:45-50 | following parent links ends at a root inside the forest, ranked strictly above the start unless the start is itself the root |
| `DisjointSet.Find` | ConsoleApplication1.cpp:45-50 | `find` returns the root of x, points x straight at it, and leaves a valid forest that only re-points elements at their own roots, so every root stays the same |
| `DisjointSet.CompressedKeepsRoots` | ConsoleApplication1.cpp:47 | re-pointing elements at their roots keeps the forest valid and changes no element's root |
| `DisjointSet.SameSet` | ConsoleApplication1.cpp:72-74 | `sameSet` answers true exactly when x and y have the same root, and its `find` calls change no root |
| `DisjointSet.Link` | ConsoleApplication1.cpp:57-68 | linking two roots hangs the lower-ranked one under the other, keeps the forest valid, merges exactly those two classes, and raises the survivor's rank by one only on equal ranks |
| `DisjointSet.Unite` | ConsoleApplication1.cpp:53-69 | after `unite` x and y share a root, the classes of x and y form one class, every other class keeps its root, and only the surviving root's rank may grow, by one when the ranks were equal |
| `DisjointSet.UniteJoins` | ConsoleApplication1.cpp:53-69 | a forest representing a partition represents, after `unite(x, y)`, that partition with the classes of x and y joined |
| `Partition.ForestClasses` | ConsoleApplication1.cpp:114 | a forest of k edges over n vertices leaves exactly n - k classes, which is what the `components` counter tracks |
| `Partition.ForestSpansIffSize` | ConsoleApplication1.cpp:98-101 | an acyclic edge list over n > 0 vertices connects them all exactly when it has n - 1 edges, which justifies stopping after V - 1 acceptances |
| `Partition.ComponentsPermutation` | ConsoleApplication1.cpp:83-86 | reordering the edge list does not change the components it induces |
| `Partition.SamePartitionClasses` | ConsoleApplication1.cpp:92-105 | two labellings with the same classes have the same number of classes, so Kruskal's forest has as many components as the graph |
| `Partition.CrossingEdge` | ConsoleApplication1.cpp:117 | in a connected graph, any split of the vertices into two or more classes is crossed by some edge |
| `EdgeSort.SortByWeight` | ConsoleApplication1.cpp:83-86 | the sorted list is a permutation of the input in non-decreasing weight order |
| `KruskalStep.ScanStep` | ConsoleApplication1.cpp:93-96 | one turn of the loop appends the edge exactly when its endpoints had different roots, and keeps the scan invariant: the forest represents the accepted edges' components, they form a sorted forest drawn from the examined edges, and every examined edge lies inside one class |
| `KruskalStep.ScanAccept` | ConsoleApplication1.cpp:93-96 | appending an edge between two classes and uniting its endpoints keeps the scan invariant |
| `KruskalStep.ScanReject` | ConsoleApplication1.cpp:93 | skipping an edge whose endpoints already share a root keeps the scan invariant |
| `Kruskal.GreedyLoop` | ConsoleApplication1.cpp:88-103 | the loop ends with the scan invariant, having examined every edge or accepted V - 1 of them |
| `Kruskal.KruskalPartition` | ConsoleApplication1.cpp:92-103 | when the loop ends, either way, the accepted edges induce the same partition as all the edges |
| `Kruskal.KruskalScan` | ConsoleApplication1.cpp:88-105 | for any non-decreasing order of the edges, the result is an acyclic, weight-sorted sub-multiset of the edges with the same components as the whole graph and at most V - 1 edges |
| `Kruskal.KruskalMST` | ConsoleApplication1.cpp:78-106 | the edge list is left as a sorted permutation of itself; the result is an acyclic sub-multiset of the edges with the same components as the graph and V minus the number of components edges (a spanning forest); on a connected graph with V > 0 it is a spanning tree of exactly V - 1 edges |
| `BoruvkaStep.CheapestOfMeaning` | ConsoleApplication1.cpp:119-136 | after the scan a slot is empty exactly when no edge leaves that component; otherwise it holds a leaving edge of the graph of least weight |
| `BoruvkaStep.CheapestOfFirst` | ConsoleApplication1.cpp:128-133 | of several lightest leaving edges the slot holds the one listed first, since the comparison is strict |
| `BoruvkaStep.ScanEdge` | ConsoleApplication1.cpp:123-135 | offering edge k to the table (only when its endpoints' roots differ, and only to those two roots' slots) leaves every slot as the first k + 1 edges prescribe, and the two `find` calls change no root |
| `BoruvkaStep.ForestAccept` | ConsoleApplication1.cpp:144-147 | accepting an edge of the graph whose endpoints have different roots keeps the result an acyclic sub-multiset of the edges that the forest represents |
| `BoruvkaStep.MergeSlot` | ConsoleApplication1.cpp:140-149 | one turn of the merge pass accepts a filled slot exactly when its endpoints are apart, and keeps the forest state; while nothing was accepted this round, every slot seen so far was empty |
| `BoruvkaStep.FilledSlot` | ConsoleApplication1.cpp:117-136 | on a connected graph with two or more components, the scan fills at least one slot |
| `Boruvka.ScanPass` | ConsoleApplication1.cpp:119-136 | the scan leaves every root unchanged and slot c holding the first lightest edge leaving the component with root c, or the empty filler |
| `Boruvka.MergePass` | ConsoleApplication1.cpp:139-150 | the merge pass keeps the forest state and the count of components equal to V minus the number of accepted edges, and accepts something unless every slot is empty |
| `Boruvka.BoruvkaRound` | ConsoleApplication1.cpp:117-151 | on a connected graph, a round entered with more than one component accepts at least one edge, so the loop terminates |
| `Boruvka.BoruvkaFinish` | ConsoleApplication1.cpp:117 | leaving the loop with at most one component means the accepted forest spans all V vertices with V - 1 edges |
| `Boruvka.BoruvkaMST` | ConsoleApplication1.cpp:109-154 | on a connected graph whose weights are below `INT_MAX`, the result is a spanning tree of exactly V - 1 edges of the graph, and empty when V is 0 |
| `Weights.CalculateTotalWeight` | ConsoleApplication1.cpp:157-163 | the loop's total is the sum of the weights of the list, 0 for the empty list |
| `Weights.TotalWeightAppend` | ConsoleApplication1.cpp:159-161 | the total of two lists joined is the sum of their totals |
| `Weights.TotalWeightPermutation` | ConsoleApplication1.cpp:157-163 | the total depends only on which edges occur how often, not on their order |

## Left out

- `printMST` and `main` (lines 166-209): output, the demo graph and the `chrono` timing. They are I/O around the core.
- `Graph::addEdge` (lines 24-26): the model takes the finished edge list as input.
- The recursion depth of `find`: only its result and its termination are modelled.
- Minimality of the weight of the two results, and the equality of the Kruskal and Boruvka weights. The model proves that both builders return spanning trees, not that these trees are minimum ones, since that needs the cut property, which is not part of this model.
- Boruvka.BoruvkaMST: requires a connected graph, because on a disconnected graph the code's `while (components > 1)` never ends; no spanning-forest result is modelled for that case.
- Boruvka.BoruvkaMST: also requires every weight to be below `INT_MAX`. An edge of weight `INT_MAX` never beats the empty-slot filler, so it is never a candidate, and a graph connected only through such edges makes the loop run forever.
- Edge endpoints outside `0..V-1`: the C++ code indexes `parent` and `cheapest` with them unchecked, which is undefined behaviour. The model requires every endpoint to be a vertex.
- A negative vertex count: the `DSU(n)` constructor (lines 37-38) passes the negative `int` to `resize`, where it becomes a huge `size_type`, so `resize` throws `std::length_error`; both builders construct their `DSU` before their main loop (lines 88 and 113), so both throw before any edge is accepted. The model takes `V` as a natural number and does not model the exception.
- Weights.CalculateTotalWeight: sums over unbounded integers. The C++ `int` accumulator overflows when the total leaves the 32-bit range, which is undefined behaviour in C++ and has no single meaning to model.
- The `std::sort` order of equal-weight edges is unspecified. `EdgeSort.SortByWeight` is one admissible order, and the Kruskal scan is proved for all of them.
- `rank[rootX]++` on a 32-bit `int`: a rank never exceeds the number of elements, so it cannot overflow for any array the program can allocate. Ranks are unbounded integers here.
