/** The auxiliary tree: a median-split tree over a Y-sorted list, the 1D
    range search over it, and the subtree report. In PointDatabase.cpp the
    same node struct serves both tree roles; here the Y role has its own type,
    without the X-only fields. */
module SecondaryIndex {
  import opened Points
  import MedianSplit

  datatype YTree = YEmpty | YNode(point: Point, left: YTree, right: YTree)

  function InOrder(t: YTree): seq<Point> {
    match t
    case YEmpty => []
    case YNode(p, l, r) => InOrder(l) + [p] + InOrder(r)
  }

  /** Node, then left subtree, then right subtree. */
  function Preorder(t: YTree): seq<Point> {
    match t
    case YEmpty => []
    case YNode(p, l, r) => [p] + Preorder(l) + Preorder(r)
  }

  function Size(t: YTree): nat {
    match t
    case YEmpty => 0
    case YNode(_, l, r) => Size(l) + 1 + Size(r)
  }

  function Height(t: YTree): nat {
    match t
    case YEmpty => 0
    case YNode(_, l, r) => 1 + MedianSplit.Max(Height(l), Height(r))
  }

  /** At every node the right subtree is no larger than the left, and the
      left is larger by at most one. */
  predicate Balanced(t: YTree) {
    match t
    case YEmpty => true
    case YNode(_, l, r) =>
      Size(r) <= Size(l) <= Size(r) + 1 && Balanced(l) && Balanced(r)
  }

  /** Search-tree order by y: nothing on the left above the node, nothing on
      the right below it (ties may sit on either side). */
  ghost predicate BstByY(t: YTree) {
    match t
    case YEmpty => true
    case YNode(p, l, r) =>
      && (forall q :: q in InOrder(l) ==> q.y <= p.y)
      && (forall q :: q in InOrder(r) ==> p.y <= q.y)
      && BstByY(l) && BstByY(r)
  }

  lemma {:induction false} SizeIsLength(t: YTree)
    ensures |InOrder(t)| == Size(t) == |Preorder(t)|
  {
    match t
    case YEmpty =>
    case YNode(_, l, r) =>
      SizeIsLength(l);
      SizeIsLength(r);
  }

  /** Median split: index n/2 at the node, [0, n/2) to the left and
      [n/2 + 1, n) to the right. The tree is empty exactly when the input is,
      keeps every input point in order, and is balanced. */
  function BuildY(s: seq<Point>): (t: YTree)
    ensures t.YEmpty? <==> |s| == 0
    ensures InOrder(t) == s
    ensures Size(t) == |s|
    ensures Balanced(t)
  {
    if |s| == 0 then YEmpty
    else
      var mid := |s| / 2;
      assert s == s[..mid] + [s[mid]] + s[mid + 1..];
      YNode(s[mid], BuildY(s[..mid]), BuildY(s[mid + 1..]))
  }

  /** The root holds the median; the children hold the two halves in order,
      with sizes n/2 and n - n/2 - 1. */
  lemma BuildYSplit(s: seq<Point>)
    requires |s| > 0
    ensures var t := BuildY(s);
      && t.point == s[|s| / 2]
      && InOrder(t.left) == s[..|s| / 2]
      && InOrder(t.right) == s[|s| / 2 + 1..]
      && Size(t.left) == |s| / 2
      && Size(t.right) == |s| - |s| / 2 - 1
  {
  }

  /** The height depends only on the size and is floor(log2 n) + 1. */
  lemma {:induction false} BuildYHeight(s: seq<Point>)
    ensures Height(BuildY(s)) == MedianSplit.SplitHeight(|s|)
    ensures |s| > 0 ==> Height(BuildY(s)) == MedianSplit.Log2(|s|) + 1
  {
    if |s| > 0 {
      var mid := |s| / 2;
      BuildYHeight(s[..mid]);
      BuildYHeight(s[mid + 1..]);
      MedianSplit.SplitHeightIsLog(|s|);
    }
  }

  /** A tree is a search tree by y exactly when its in-order walk is Y-sorted. */
  lemma {:induction false} BstByYIffSorted(t: YTree)
    ensures BstByY(t) <==> SortedByY(InOrder(t))
  {
    match t
    case YEmpty =>
    case YNode(p, l, r) =>
      BstByYIffSorted(l);
      BstByYIffSorted(r);
      SortedByYAround(InOrder(l), p, InOrder(r));
  }

  /** The tree built from a list is a search tree by y exactly when the list
      is Y-sorted. */
  lemma BuildYIsBst(s: seq<Point>)
    ensures BstByY(BuildY(s)) <==> SortedByY(s)
  {
    BstByYIffSorted(BuildY(s));
  }

  lemma {:induction false} PreorderPermutesInOrder(t: YTree)
    ensures multiset(Preorder(t)) == multiset(InOrder(t))
  {
    match t
    case YEmpty =>
    case YNode(p, l, r) =>
      PreorderPermutesInOrder(l);
      PreorderPermutesInOrder(r);
  }

  lemma PreorderMember(t: YTree, q: Point)
    requires q in Preorder(t)
    ensures q in InOrder(t)
  {
    PreorderPermutesInOrder(t);
    assert q in multiset(Preorder(t));
  }

  /** Appends every point of the subtree in preorder; the entries already in
      the accumulator are left as they are. */
  function ReportSubtree(t: YTree, acc: seq<Point>): (r: seq<Point>)
    ensures r == acc + Preorder(t)
  {
    match t
    case YEmpty => acc
    case YNode(p, l, rt) =>
      assert acc + Preorder(t) == acc + [p] + Preorder(l) + Preorder(rt);
      ReportSubtree(rt, ReportSubtree(l, acc + [p]))
  }

  /** The report holds every subtree point exactly once. */
  lemma ReportSubtreeCounts(t: YTree, acc: seq<Point>)
    ensures multiset(ReportSubtree(t, acc)) == multiset(acc) + multiset(InOrder(t))
    ensures |ReportSubtree(t, acc)| == |acc| + Size(t)
  {
    PreorderPermutesInOrder(t);
    SizeIsLength(t);
  }

  /** The 1D range search. It only ever appends, and appends only points whose
      y lies in the window. */
  function SearchY(t: YTree, ys: Interval, acc: seq<Point>): (r: seq<Point>)
    ensures |acc| <= |r| && r[..|acc|] == acc
    ensures forall i :: |acc| <= i < |r| ==> ys.Contains(r[i].y)
  {
    match t
    case YEmpty => acc
    case YNode(p, l, rt) =>
      if ys.lo <= p.y && p.y <= ys.hi then
        SearchY(rt, ys, SearchY(l, ys, acc + [p]))
      else if ys.hi < p.y then
        SearchY(l, ys, acc)
      else
        SearchY(rt, ys, acc)
  }

  /** On a search tree by y, the range search appends exactly the preorder
      walk filtered to the window. */
  lemma {:induction false} SearchYExact(t: YTree, ys: Interval, acc: seq<Point>)
    requires BstByY(t)
    ensures SearchY(t, ys, acc) == acc + YFilter(Preorder(t), ys)
  {
    match t
    case YEmpty =>
    case YNode(p, l, rt) =>
      var fl, fr := YFilter(Preorder(l), ys), YFilter(Preorder(rt), ys);
      if ys.Contains(p.y) {
        SearchYExact(l, ys, acc + [p]);
        SearchYExact(rt, ys, acc + [p] + fl);
        SearchYStepBoth(p, l, rt, ys, acc);
      } else if ys.hi < p.y {
        SearchYExact(l, ys, acc);
        YFilterOutside(rt, ys);
        SearchYStepLeft(p, l, rt, ys, acc);
      } else {
        SearchYExact(rt, ys, acc);
        YFilterOutside(l, ys);
        SearchYStepRight(p, l, rt, ys, acc);
      }
  }

  /** The filtered preorder walk of a node, split at the node. */
  lemma YFilterPreorder(p: Point, l: YTree, rt: YTree, ys: Interval)
    ensures YFilter(Preorder(YNode(p, l, rt)), ys)
         == (if ys.Contains(p.y) then [p] else []) + YFilter(Preorder(l), ys) + YFilter(Preorder(rt), ys)
  {
    YFilterAppend([p] + Preorder(l), Preorder(rt), ys);
    YFilterAppend([p], Preorder(l), ys);
    assert [p][1..] == [];
  }

  /** A node inside the window: itself, then both subtrees. */
  lemma SearchYStepBoth(p: Point, l: YTree, rt: YTree, ys: Interval, acc: seq<Point>)
    requires ys.Contains(p.y)
    requires SearchY(l, ys, acc + [p]) == acc + [p] + YFilter(Preorder(l), ys)
    requires SearchY(rt, ys, acc + [p] + YFilter(Preorder(l), ys))
          == acc + [p] + YFilter(Preorder(l), ys) + YFilter(Preorder(rt), ys)
    ensures SearchY(YNode(p, l, rt), ys, acc) == acc + YFilter(Preorder(YNode(p, l, rt)), ys)
  {
    var fl, fr := YFilter(Preorder(l), ys), YFilter(Preorder(rt), ys);
    YFilterPreorder(p, l, rt, ys);
    ConcatAssoc(acc, [p], fl, fr);
  }

  /** A node above the window: only the left subtree can contribute. */
  lemma SearchYStepLeft(p: Point, l: YTree, rt: YTree, ys: Interval, acc: seq<Point>)
    requires !ys.Contains(p.y) && ys.hi < p.y
    requires SearchY(l, ys, acc) == acc + YFilter(Preorder(l), ys)
    requires YFilter(Preorder(rt), ys) == []
    ensures SearchY(YNode(p, l, rt), ys, acc) == acc + YFilter(Preorder(YNode(p, l, rt)), ys)
  {
    YFilterPreorder(p, l, rt, ys);
    var fl := YFilter(Preorder(l), ys);
    assert [] + fl + [] == fl;
  }

  /** A node below the window: only the right subtree can contribute. */
  lemma SearchYStepRight(p: Point, l: YTree, rt: YTree, ys: Interval, acc: seq<Point>)
    requires !ys.Contains(p.y) && ys.hi >= p.y
    requires SearchY(rt, ys, acc) == acc + YFilter(Preorder(rt), ys)
    requires YFilter(Preorder(l), ys) == []
    ensures SearchY(YNode(p, l, rt), ys, acc) == acc + YFilter(Preorder(YNode(p, l, rt)), ys)
  {
    YFilterPreorder(p, l, rt, ys);
    var fr := YFilter(Preorder(rt), ys);
    assert [] + [] + fr == fr;
  }

  /** A subtree lying entirely outside the window filters to nothing. */
  lemma YFilterOutside(t: YTree, ys: Interval)
    requires forall q :: q in InOrder(t) ==> !ys.Contains(q.y)
    ensures YFilter(Preorder(t), ys) == []
  {
    forall q | q in Preorder(t) ensures !ys.Contains(q.y) {
      PreorderMember(t, q);
    }
    YFilterNone(Preorder(t), ys);
  }

  /** On a search tree by y, the range search from an empty accumulator
      returns exactly the tree's points with y in the window. */
  lemma SearchYCounts(t: YTree, ys: Interval)
    requires BstByY(t)
    ensures multiset(SearchY(t, ys, [])) == multiset(YFilter(InOrder(t), ys))
  {
    SearchYExact(t, ys, []);
    PreorderPermutesInOrder(t);
    YFilterPermutation(Preorder(t), InOrder(t), ys);
  }
}
