# Static 2D range tree for box queries over integer points

A Dafny model of `PointDatabase`, a static in-memory index over 2D integer
points. It is built once and then answers "nearby" queries: return every
point whose x lies in `[q.x - d, q.x + d]` and whose y lies in
`[q.y - d, q.y + d]`. This is a square window, not a disc.

The index is a two-level range tree:

- The **primary tree** (`PrimaryIndex.XTree`) is built by median split over
  the input sorted by x. Each node also keeps two things, assembled
  post-order:
  - `ySorted`: the node's whole subtree merged by y;
  - `aux`: an **auxiliary tree** (`SecondaryIndex.YTree`) built by the same
    median split over `ySorted`.
- The **query** walks the primary tree only:
  - a window wholly left or right of a node's x continues into one child;
  - otherwise the node's y is tested and both children are searched.
- The 1D search over an auxiliary tree and the subtree report exist but have
  no caller in the source. Both are modelled and proved on their own.

In the source, one C++ node struct with raw owning pointers serves both tree
roles. Here each role has its own immutable datatype. The C++ functions
append to a `result` vector passed by reference. Each one is modelled as a
pure function `f(tree, ..., acc)` that returns `acc` followed by what it
found.

Files (one module each):

- `points.dfy`, module `Points`: `Point`, closed `Interval`, `Box`, the
  X/Y sortedness predicates, and the brute-force linear scans `BoxFilter` and
  `YFilter` that the queries are proved against.
- `median_split.dfy`, module `MedianSplit`: `Pow2`, `Log2`, and the
  height of a median-split tree.
- `merge.dfy`, module `Merge`: `mergeByY` as a function and as the source's
  two-cursor loop.
- `secondary_index.dfy`, module `SecondaryIndex`: `buildYTree`,
  `searchYTree`, `reportSubtree` on auxiliary trees.
- `primary_index.dfy`, module `PrimaryIndex`: `buildXTree`, the node
  invariant `Valid`, `searchXTree`, `reportSubtree` on primary trees.
- `point_database.dfy`, module `PointDatabase`: the constructor (copy, sort
  by x, build) and `searchNearby`.

Main results:

- `PointDatabase.SearchNearbyExact`: the query on a constructed index
  returns exactly the input points inside the window, with multiplicity,
  compared against a linear scan of the input.
- `PrimaryIndex.SearchXExact`: on any search tree by x, `searchXTree`
  appends exactly the preorder walk filtered to the box. The subtrees it
  skips hold no point of the box.
- `PrimaryIndex.BuildXValid`: at every node, `ySorted` is Y-sorted and is a
  permutation of the subtree's points, node included. The auxiliary tree's
  in-order walk is that list.
- Both builders are proved to:
  - return the input in order from an in-order walk;
  - be balanced;
  - have height exactly `floor(log2 n) + 1`;
  - be search trees exactly when their input is sorted on their axis.

Repeated identical queries give identical answers because every operation
is a pure function. No lemma states this.

## Model

| member | source | states |
|---|---|---|
| `Merge.MergeByY` | PointDatabase.cpp:20-36 | the merged list is exactly as long as both inputs together |
| `Merge.MergePermutes` | PointDatabase.cpp:20-36 | the merge's multiset of points is the sum of the two inputs' multisets: no point lost, duplicated or altered |
| `Merge.MergeSorted` | PointDatabase.cpp:26-34 | merging two Y-sorted lists gives a Y-sorted list |
| `Merge.MergeByYLoop` | PointDatabase.cpp:20-36 | the loop runs two cursors until one list is exhausted, then appends both tails; it returns exactly the functional merge and a permutation of the two inputs |
| `Merge.MergeSingleton` | PointDatabase.cpp:26-34 | merging one point into a list inserts it after the longest prefix with smaller y. Because the comparison is strict, it goes ahead of points with equal y |
| `Merge.MergeSingletonSorted` | PointDatabase.cpp:57 | in the "add self" step on a Y-sorted list, every point after the inserted node has y at least the node's y |
| `MedianSplit.SplitHeightIsLog` | PointDatabase.cpp:43-50 | a median-split tree over n >= 1 points has height floor(log2 n) + 1 |
| `SecondaryIndex.BuildY` | PointDatabase.cpp:66-80 | the auxiliary tree is empty exactly when its input is, its in-order walk is the input, its size is the input length, and it is balanced at every node |
| `SecondaryIndex.BuildYSplit` | PointDatabase.cpp:70-77 | the root holds `s[n/2]`; the left child holds `s[..n/2]` and the right `s[n/2+1..]` in order, with sizes n/2 and n - n/2 - 1 |
| `SecondaryIndex.BuildYHeight` | PointDatabase.cpp:70-77 | the auxiliary tree's height depends only on n and equals floor(log2 n) + 1 for non-empty input |
| `SecondaryIndex.BstByYIffSorted` | PointDatabase.cpp:66-80 | a tree is a search tree by y (left y <= node y <= right y) if and only if its in-order walk is Y-sorted |
| `SecondaryIndex.BuildYIsBst` | PointDatabase.cpp:66-80 | the tree built from a list is a search tree by y if and only if the list is Y-sorted |
| `SecondaryIndex.ReportSubtree` | PointDatabase.cpp:114-119 | on an auxiliary tree, the report appends the subtree's preorder walk after the untouched accumulator |
| `SecondaryIndex.ReportSubtreeCounts` | PointDatabase.cpp:114-119 | the report adds every subtree point exactly once (multiset of the in-order walk, length = size) |
| `SecondaryIndex.SearchY` | PointDatabase.cpp:122-135 | the 1D search only appends (the accumulator is a prefix of the result) and appends only points with y in the window |
| `SecondaryIndex.SearchYExact` | PointDatabase.cpp:122-135 | on a search tree by y, the search appends exactly the preorder walk filtered by y: a pruned subtree holds no match |
| `SecondaryIndex.SearchYCounts` | PointDatabase.cpp:122-135 | on a search tree by y, the search returns exactly the tree's points with y in the window, as a multiset |
| `PrimaryIndex.BuildX` | PointDatabase.cpp:39-63 | the primary tree is empty exactly when its input is, its in-order walk is the input, its size is the input length, and it is balanced at every node |
| `PrimaryIndex.BuildXSplit` | PointDatabase.cpp:43-50 | the root holds `s[n/2]`; the children hold `s[..n/2]` and `s[n/2+1..]` in order, with sizes n/2 and n - n/2 - 1 |
| `PrimaryIndex.BuildXHeight` | PointDatabase.cpp:43-50 | the primary tree's height depends only on n and equals floor(log2 n) + 1 for non-empty input |
| `PrimaryIndex.NodeYListCorrect` | PointDatabase.cpp:53-57 | from valid children, merging their Y lists and then the node's point gives a Y-sorted list holding the children's points plus the node's own |
| `PrimaryIndex.BuildXValid` | PointDatabase.cpp:53-60 | at every node of a built tree, `ySorted` is Y-sorted, is a permutation of the subtree's points (node included), and is the in-order walk of a balanced auxiliary tree |
| `PrimaryIndex.AuxTreeCorrect` | PointDatabase.cpp:60 | at a valid node, the auxiliary tree is a search tree by y over exactly the subtree's points, and a 1D search over it returns exactly the subtree's points in the Y window |
| `PrimaryIndex.BstByXIffSorted` | PointDatabase.cpp:39-50 | a primary tree is a search tree by x if and only if its in-order walk is X-sorted |
| `PrimaryIndex.BuildXIsBst` | PointDatabase.cpp:39-50 | the primary tree built from a list is a search tree by x if and only if the list is X-sorted |
| `PrimaryIndex.ReportSubtree` | PointDatabase.cpp:114-119 | on a primary tree, the report appends the subtree's preorder walk after the untouched accumulator |
| `PrimaryIndex.ReportSubtreeCounts` | PointDatabase.cpp:114-119 | the report adds every subtree point exactly once (multiset of the in-order walk, length = size) |
| `PrimaryIndex.SearchX` | PointDatabase.cpp:95-111 | on any tree, the box query only appends (the accumulator is a prefix of the result) and appends only points inside the box |
| `PrimaryIndex.SearchXExact` | PointDatabase.cpp:95-111 | on a search tree by x, the box query appends exactly the preorder walk filtered to the box |
| `PrimaryIndex.SearchXCounts` | PointDatabase.cpp:95-111 | on a search tree by x, the box query returns exactly the tree's points inside the box, as a multiset |
| `PrimaryIndex.SearchXEmptyBox` | PointDatabase.cpp:95-111 | with xMin > xMax or yMin > yMax, the box query adds nothing on any tree |
| `PointDatabase.InsertByXSorted` | PointDatabase.cpp:8-10 | inserting a point into an X-sorted list keeps it X-sorted |
| `PointDatabase.SortByX` | PointDatabase.cpp:6-10 | the sorted copy is a permutation of the input and is ascending by x |
| `PointDatabase.Construct` | PointDatabase.cpp:5-12 | the built index holds exactly the input points, is a search tree by x, is balanced, and satisfies the Y-data invariant at every node |
| `PointDatabase.NearbyBox` | PointDatabase.cpp:85-88 | a point is in the window if and only if it is within d of q on each axis separately |
| `PointDatabase.SearchNearby` | PointDatabase.cpp:83-92 | every returned point is within d of q on both axes |
| `PointDatabase.SearchNearbyExact` | PointDatabase.cpp:83-92 | on a constructed index, the query returns exactly the input points within the window, each as often as it occurs in the input (checked against a linear scan) |
| `PointDatabase.QueryIgnoresTieOrder` | PointDatabase.cpp:8-11 | whatever order the sort gives points with equal x, building from it gives an exact box query |
| `PointDatabase.TieOrderShowsInAnswerOrder` | PointDatabase.cpp:8-11 | two points with equal x inside the box come back in opposite order for the two tie orders the sort may produce, so only the answer's multiset is independent of that choice |
| `PointDatabase.NothingNearby` | PointDatabase.cpp:83-92 | when no input point lies in the window, the query on the constructed index returns the empty list |
| `PointDatabase.DriverQueriesFindNothing` | implementationExample.cpp:34-44 | on the driver's fifteen points, the queries (5,5) d=1, (4,8) d=2 and (30,15) d=5 each return the empty list |
| `PointDatabase.EmptyAnswers` | PointDatabase.cpp:83-92 | an index built from no points answers every query with nothing, and a negative half-width (inverted window) gives nothing on any index |

## Left out

- PointDatabase.SearchNearby: the half-width `d` is a `double` in the source and is rounded outward with `ceil`/`floor`. The model takes `d` as an integer, for which `x_min = q.x - d` and `x_max = q.x + d` exactly. Floating-point rounding is not modelled.
- PointDatabase.SortByX: `std::sort` is not stable, so the order of points with equal x is unspecified. The model fixes one such order (insertion sort). `QueryIgnoresTieOrder` shows the query result, as a multiset, does not depend on that choice. The order of the returned points does depend on it, because that order is the preorder walk of the tree built from the sorted list (`TieOrderShowsInAnswerOrder`).
- C++ `int` overflow and the `static_cast<int>` truncation of the rounded bounds: coordinates are unbounded Dafny integers.
- Memory management (`new`/`delete`, the recursive `Node` destructor, `~PointDatabase`): immutable datatypes own their children.
- The query never consults the auxiliary trees. This matches the source, where `searchYTree` and `reportSubtree` have no caller. Their correctness is proved on its own (`AuxTreeCorrect`, `SearchYExact`, `ReportSubtreeCounts`). No optimised query that uses them is modelled.
- Complexity claims (O(n log n) build and space, query cost) are not functional properties and are not stated. Only height and balance are proved.
- The demonstration driver `implementationExample.cpp` is not part of this model beyond its point literals and its three integer-width queries (`DriverQueriesFindNothing`). Its first query uses d = 37.9 and is left out with the rest of the floating-point rounding. The comments at implementationExample.cpp:40 and :44 expect points that lie outside the Y window. The lemma shows both queries return nothing.
