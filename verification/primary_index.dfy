/** The primary tree: a median-split tree over an X-sorted list whose every
    node also keeps the Y-sorted list of its subtree's points and an
    auxiliary tree built from that list; plus the box query over it. */
module PrimaryIndex {
  import opened Points
  import opened Merge
  import MedianSplit
  import SecondaryIndex

  datatype XTree =
    | XEmpty
    | XNode(point: Point, left: XTree, right: XTree,
            ySorted: seq<Point>, aux: SecondaryIndex.YTree)

  function InOrder(t: XTree): seq<Point> {
    match t
    case XEmpty => []
    case XNode(p, l, r, _, _) => InOrder(l) + [p] + InOrder(r)
  }

  /** Node, then left subtree, then right subtree. */
  function Preorder(t: XTree): seq<Point> {
    match t
    case XEmpty => []
    case XNode(p, l, r, _, _) => [p] + Preorder(l) + Preorder(r)
  }

  function Size(t: XTree): nat {
    match t
    case XEmpty => 0
    case XNode(_, l, r, _, _) => Size(l) + 1 + Size(r)
  }

  function Height(t: XTree): nat {
    match t
    case XEmpty => 0
    case XNode(_, l, r, _, _) => 1 + MedianSplit.Max(Height(l), Height(r))
  }

  /** At every node the right subtree is no larger than the left, and the
      left is larger by at most one. */
  predicate Balanced(t: XTree) {
    match t
    case XEmpty => true
    case XNode(_, l, r, _, _) =>
      Size(r) <= Size(l) <= Size(r) + 1 && Balanced(l) && Balanced(r)
  }

  /** Search-tree order by x: nothing on the left to the right of the node,
      nothing on the right to its left (ties may sit on either side). */
  ghost predicate BstByX(t: XTree) {
    match t
    case XEmpty => true
    case XNode(p, l, r, _, _) =>
      && (forall q :: q in InOrder(l) ==> q.x <= p.x)
      && (forall q :: q in InOrder(r) ==> p.x <= q.x)
      && BstByX(l) && BstByX(r)
  }

  /** The per-node invariant of the Y data: the stored list is Y-sorted and
      holds exactly the subtree's points, node included, and the auxiliary
      tree is a balanced tree whose in-order walk is that list. */
  ghost predicate Valid(t: XTree) {
    match t
    case XEmpty => true
    case XNode(_, l, r, ys, aux) =>
      && SortedByY(ys)
      && multiset(ys) == multiset(InOrder(t))
      && SecondaryIndex.InOrder(aux) == ys
      && SecondaryIndex.Balanced(aux)
      && Valid(l) && Valid(r)
  }

  /** The Y-sorted list a child hands to its parent; an absent child hands
      over the empty list. */
  function YList(t: XTree): seq<Point> {
    if t.XEmpty? then [] else t.ySorted
  }

  lemma {:induction false} SizeIsLength(t: XTree)
    ensures |InOrder(t)| == Size(t) == |Preorder(t)|
  {
    match t
    case XEmpty =>
    case XNode(_, l, r, _, _) =>
      SizeIsLength(l);
      SizeIsLength(r);
  }

  /** Post-order assembly of a node's Y-sorted list: merge the children's
      lists, then merge in the node's own point. */
  function NodeYList(p: Point, l: XTree, r: XTree): seq<Point> {
    MergeByY(MergeByY(YList(l), YList(r)), [p])
  }

  /** Median split over an X-sorted list: index n/2 at the node, [0, n/2) to
      the left, [n/2 + 1, n) to the right, then the node's Y data once both
      children exist. The tree is empty exactly when the input is, keeps
      every input point in order, and is balanced. */
  function BuildX(s: seq<Point>): (t: XTree)
    ensures t.XEmpty? <==> |s| == 0
    ensures InOrder(t) == s
    ensures Size(t) == |s|
    ensures Balanced(t)
  {
    if |s| == 0 then XEmpty
    else
      var mid := |s| / 2;
      assert s == s[..mid] + [s[mid]] + s[mid + 1..];
      var l := BuildX(s[..mid]);
      var r := BuildX(s[mid + 1..]);
      var ys := NodeYList(s[mid], l, r);
      XNode(s[mid], l, r, ys, SecondaryIndex.BuildY(ys))
  }

  /** The root holds the median; the children hold the two halves in order,
      with sizes n/2 and n - n/2 - 1. */
  lemma BuildXSplit(s: seq<Point>)
    requires |s| > 0
    ensures var t := BuildX(s);
      && t.point == s[|s| / 2]
      && InOrder(t.left) == s[..|s| / 2]
      && InOrder(t.right) == s[|s| / 2 + 1..]
      && Size(t.left) == |s| / 2
      && Size(t.right) == |s| - |s| / 2 - 1
  {
  }

  /** The height depends only on the size and is floor(log2 n) + 1. */
  lemma {:induction false} BuildXHeight(s: seq<Point>)
    ensures Height(BuildX(s)) == MedianSplit.SplitHeight(|s|)
    ensures |s| > 0 ==> Height(BuildX(s)) == MedianSplit.Log2(|s|) + 1
  {
    if |s| > 0 {
      var mid := |s| / 2;
      BuildXHeight(s[..mid]);
      BuildXHeight(s[mid + 1..]);
      MedianSplit.SplitHeightIsLog(|s|);
    }
  }

  /** A valid tree hands its parent a Y-sorted list of exactly its points. */
  lemma YListCorrect(t: XTree)
    requires Valid(t)
    ensures SortedByY(YList(t))
    ensures multiset(YList(t)) == multiset(InOrder(t))
  {
  }

  /** From valid children, the assembled list is Y-sorted and holds the
      children's points plus the node's own. */
  lemma NodeYListCorrect(p: Point, l: XTree, r: XTree)
    requires Valid(l) && Valid(r)
    ensures SortedByY(NodeYList(p, l, r))
    ensures multiset(NodeYList(p, l, r)) == multiset(InOrder(l)) + multiset{p} + multiset(InOrder(r))
  {
    var ly, ry := YList(l), YList(r);
    YListCorrect(l);
    YListCorrect(r);
    var lr := MergeByY(ly, ry);
    MergeSorted(ly, ry);
    MergePermutes(ly, ry);
    MergeSorted(lr, [p]);
    MergePermutes(lr, [p]);
  }

  /** Every node of a built tree satisfies the Y-data invariant. */
  lemma {:induction false} BuildXValid(s: seq<Point>)
    ensures Valid(BuildX(s))
  {
    if |s| > 0 {
      var mid := |s| / 2;
      var l, r := BuildX(s[..mid]), BuildX(s[mid + 1..]);
      BuildXValid(s[..mid]);
      BuildXValid(s[mid + 1..]);
      NodeYListCorrect(s[mid], l, r);
    }
  }

  /** At a valid node the auxiliary tree is a search tree by y over exactly
      the subtree's points, and a 1D search over it finds exactly the
      subtree's points with y in the window. */
  lemma AuxTreeCorrect(t: XTree, ys: Interval)
    requires Valid(t) && t.XNode?
    ensures SecondaryIndex.BstByY(t.aux)
    ensures multiset(SecondaryIndex.InOrder(t.aux)) == multiset(InOrder(t))
    ensures multiset(SecondaryIndex.SearchY(t.aux, ys, [])) == multiset(YFilter(InOrder(t), ys))
  {
    SecondaryIndex.BstByYIffSorted(t.aux);
    SecondaryIndex.SearchYCounts(t.aux, ys);
    YFilterPermutation(t.ySorted, InOrder(t), ys);
  }

  /** A tree is a search tree by x exactly when its in-order walk is X-sorted. */
  lemma {:induction false} BstByXIffSorted(t: XTree)
    ensures BstByX(t) <==> SortedByX(InOrder(t))
  {
    match t
    case XEmpty =>
    case XNode(p, l, r, _, _) =>
      BstByXIffSorted(l);
      BstByXIffSorted(r);
      SortedByXAround(InOrder(l), p, InOrder(r));
  }

  /** The tree built from a list is a search tree by x exactly when the list
      is X-sorted. */
  lemma BuildXIsBst(s: seq<Point>)
    ensures BstByX(BuildX(s)) <==> SortedByX(s)
  {
    BstByXIffSorted(BuildX(s));
  }

  lemma {:induction false} PreorderPermutesInOrder(t: XTree)
    ensures multiset(Preorder(t)) == multiset(InOrder(t))
  {
    match t
    case XEmpty =>
    case XNode(p, l, r, _, _) =>
      PreorderPermutesInOrder(l);
      PreorderPermutesInOrder(r);
  }

  lemma PreorderMember(t: XTree, q: Point)
    requires q in Preorder(t)
    ensures q in InOrder(t)
  {
    PreorderPermutesInOrder(t);
    assert q in multiset(Preorder(t));
  }

  /** Appends every point of the subtree in preorder; the entries already in
      the accumulator are left as they are. */
  function ReportSubtree(t: XTree, acc: seq<Point>): (r: seq<Point>)
    ensures r == acc + Preorder(t)
  {
    match t
    case XEmpty => acc
    case XNode(p, l, rt, _, _) =>
      ConcatAssoc(acc, [p], Preorder(l), Preorder(rt));
      ReportSubtree(rt, ReportSubtree(l, acc + [p]))
  }

  /** The report holds every subtree point exactly once. */
  lemma ReportSubtreeCounts(t: XTree, acc: seq<Point>)
    ensures multiset(ReportSubtree(t, acc)) == multiset(acc) + multiset(InOrder(t))
    ensures |ReportSubtree(t, acc)| == |acc| + Size(t)
  {
    PreorderPermutesInOrder(t);
    SizeIsLength(t);
  }

  /** The box query. A window wholly left of the node's x goes left only, one
      wholly right goes right only; otherwise the node is reported when its
      y is in the Y window and both subtrees are searched. It only ever
      appends, and appends only points inside the box. */
  function SearchX(t: XTree, b: Box, acc: seq<Point>): (r: seq<Point>)
    ensures |acc| <= |r| && r[..|acc|] == acc
    ensures forall i :: |acc| <= i < |r| ==> b.Contains(r[i])
  {
    match t
    case XEmpty => acc
    case XNode(p, l, rt, _, _) =>
      if b.xs.hi < p.x then
        SearchX(l, b, acc)
      else if b.xs.lo > p.x then
        SearchX(rt, b, acc)
      else
        var acc' := if p.y >= b.ys.lo && p.y <= b.ys.hi then acc + [p] else acc;
        SearchX(rt, b, SearchX(l, b, acc'))
  }

  /** On a search tree by x, the box query appends exactly the preorder walk
      filtered to the box: the subtrees it skips hold no point of the box. */
  lemma {:induction false} SearchXExact(t: XTree, b: Box, acc: seq<Point>)
    requires BstByX(t)
    ensures SearchX(t, b, acc) == acc + BoxFilter(Preorder(t), b)
  {
    match t
    case XEmpty =>
    case XNode(p, l, rt, _, _) =>
      var fl := BoxFilter(Preorder(l), b);
      if b.xs.hi < p.x {
        SearchXExact(l, b, acc);
        BoxFilterOutside(rt, b);
        SearchXStepLeft(t, b, acc);
      } else if b.xs.lo > p.x {
        SearchXExact(rt, b, acc);
        BoxFilterOutside(l, b);
        SearchXStepRight(t, b, acc);
      } else {
        var acc' := if b.Contains(p) then acc + [p] else acc;
        SearchXExact(l, b, acc');
        SearchXExact(rt, b, acc' + fl);
        SearchXStepBoth(t, b, acc);
      }
  }

  /** A subtree lying entirely outside the box filters to nothing. */
  lemma BoxFilterOutside(t: XTree, b: Box)
    requires forall q :: q in InOrder(t) ==> !b.Contains(q)
    ensures BoxFilter(Preorder(t), b) == []
  {
    forall q | q in Preorder(t) ensures !b.Contains(q) {
      PreorderMember(t, q);
    }
    BoxFilterNone(Preorder(t), b);
  }

  /** The filtered preorder walk of a node, split at the node. */
  lemma BoxFilterPreorder(t: XTree, b: Box)
    requires t.XNode?
    ensures BoxFilter(Preorder(t), b)
         == (if b.Contains(t.point) then [t.point] else [])
            + BoxFilter(Preorder(t.left), b) + BoxFilter(Preorder(t.right), b)
  {
    var p := t.point;
    BoxFilterAppend([p] + Preorder(t.left), Preorder(t.right), b);
    BoxFilterAppend([p], Preorder(t.left), b);
    assert [p][1..] == [];
  }

  /** A window wholly left of the node: only the left subtree contributes. */
  lemma SearchXStepLeft(t: XTree, b: Box, acc: seq<Point>)
    requires t.XNode? && b.xs.hi < t.point.x
    requires SearchX(t.left, b, acc) == acc + BoxFilter(Preorder(t.left), b)
    requires BoxFilter(Preorder(t.right), b) == []
    ensures SearchX(t, b, acc) == acc + BoxFilter(Preorder(t), b)
  {
    BoxFilterPreorder(t, b);
    var fl := BoxFilter(Preorder(t.left), b);
    assert [] + fl + [] == fl;
  }

  /** A window wholly right of the node: only the right subtree contributes. */
  lemma SearchXStepRight(t: XTree, b: Box, acc: seq<Point>)
    requires t.XNode? && b.xs.hi >= t.point.x && b.xs.lo > t.point.x
    requires SearchX(t.right, b, acc) == acc + BoxFilter(Preorder(t.right), b)
    requires BoxFilter(Preorder(t.left), b) == []
    ensures SearchX(t, b, acc) == acc + BoxFilter(Preorder(t), b)
  {
    BoxFilterPreorder(t, b);
    var fr := BoxFilter(Preorder(t.right), b);
    assert [] + [] + fr == fr;
  }

  /** A split node: the node when its y is in range, then both subtrees. */
  lemma SearchXStepBoth(t: XTree, b: Box, acc: seq<Point>)
    requires t.XNode? && b.xs.Contains(t.point.x)
    requires var acc' := if b.Contains(t.point) then acc + [t.point] else acc;
      && SearchX(t.left, b, acc') == acc' + BoxFilter(Preorder(t.left), b)
      && SearchX(t.right, b, acc' + BoxFilter(Preorder(t.left), b))
         == acc' + BoxFilter(Preorder(t.left), b) + BoxFilter(Preorder(t.right), b)
    ensures SearchX(t, b, acc) == acc + BoxFilter(Preorder(t), b)
  {
    var acc' := if b.Contains(t.point) then acc + [t.point] else acc;
    var fl, fr := BoxFilter(Preorder(t.left), b), BoxFilter(Preorder(t.right), b);
    assert SearchX(t, b, acc) == acc' + fl + fr;
    BoxFilterPreorder(t, b);
    var own := if b.Contains(t.point) then [t.point] else [];
    assert acc' == acc + own;
    ConcatAssoc(acc, own, fl, fr);
  }

  /** On a search tree by x, the box query from an empty accumulator returns
      exactly the tree's points inside the box, as a multiset. */
  lemma SearchXCounts(t: XTree, b: Box)
    requires BstByX(t)
    ensures multiset(SearchX(t, b, [])) == multiset(BoxFilter(InOrder(t), b))
  {
    SearchXExact(t, b, []);
    PreorderPermutesInOrder(t);
    BoxFilterPermutation(Preorder(t), InOrder(t), b);
  }

  /** An empty window (xMin > xMax or yMin > yMax) reports nothing, on any tree. */
  lemma {:induction false} SearchXEmptyBox(t: XTree, b: Box, acc: seq<Point>)
    requires b.IsEmpty()
    ensures SearchX(t, b, acc) == acc
  {
    match t
    case XEmpty =>
    case XNode(_, l, rt, _, _) =>
      SearchXEmptyBox(l, b, acc);
      SearchXEmptyBox(rt, b, acc);
  }
}
