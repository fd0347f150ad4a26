/** The index as its callers see it: construction (copy, sort by x, build)
    and the nearby query (a box of half-width d around a query point). */
module PointDatabase {
  import opened Points
  import PrimaryIndex

  /** The built index. Only the root of the primary tree is kept. */
  datatype Database = Database(root: PrimaryIndex.XTree)

  /** Inserts p into an X-sorted list ahead of the first point whose x is
      not smaller. */
  function InsertByX(p: Point, s: seq<Point>): (r: seq<Point>)
    ensures multiset(r) == multiset(s) + multiset{p}
  {
    if |s| == 0 || p.x <= s[0].x then [p] + s
    else
      assert s == [s[0]] + s[1..];
      [s[0]] + InsertByX(p, s[1..])
  }

  lemma PrependByX(h: Point, t: seq<Point>)
    requires SortedByX(t) && forall q :: q in t ==> h.x <= q.x
    ensures SortedByX([h] + t)
  {
    assert [] + [h] + t == [h] + t;
    SortedByXAround([], h, t);
  }

  lemma SortedHeadIsLeast(s: seq<Point>, lo: int)
    requires |s| > 0 && SortedByX(s) && lo <= s[0].x
    ensures forall q :: q in s ==> lo <= q.x
  {
    forall q | q in s ensures lo <= q.x {
      var i :| 0 <= i < |s| && s[i] == q;
    }
  }

  lemma {:induction false} InsertByXSorted(p: Point, s: seq<Point>)
    requires SortedByX(s)
    ensures SortedByX(InsertByX(p, s))
  {
    if |s| == 0 {
      PrependByX(p, s);
    } else if p.x <= s[0].x {
      SortedHeadIsLeast(s, p.x);
      PrependByX(p, s);
    } else {
      var t := InsertByX(p, s[1..]);
      InsertByXSorted(p, s[1..]);
      if |s| > 1 {
        SortedHeadIsLeast(s[1..], s[0].x);
      }
      forall q | q in t ensures s[0].x <= q.x {
        assert q in multiset(t);
      }
      PrependByX(s[0], t);
    }
  }

  /** A comparison sort by x (insertion sort). The C++ implementation's sort
      leaves the order of points with equal x unspecified; this one fixes one
      such order. The query's answer, as a multiset, does not depend on which
      (see QueryIgnoresTieOrder); the order of the answer does. */
  function SortByX(s: seq<Point>): (r: seq<Point>)
    ensures multiset(r) == multiset(s)
    ensures SortedByX(r)
  {
    if |s| == 0 then []
    else
      assert s == [s[0]] + s[1..];
      InsertByXSorted(s[0], SortByX(s[1..]));
      InsertByX(s[0], SortByX(s[1..]))
  }

  /** Sorts a copy of the input by x and builds the two-level tree from it.
      The result holds every input point exactly once, is a search tree by
      x, is balanced, and carries correct Y data at every node. */
  function Construct(points: seq<Point>): (db: Database)
    ensures multiset(PrimaryIndex.InOrder(db.root)) == multiset(points)
    ensures PrimaryIndex.BstByX(db.root)
    ensures PrimaryIndex.Balanced(db.root)
    ensures PrimaryIndex.Valid(db.root)
  {
    var sorted := SortByX(points);
    PrimaryIndex.BuildXIsBst(sorted);
    PrimaryIndex.BuildXValid(sorted);
    Database(PrimaryIndex.BuildX(sorted))
  }

  function Abs(v: int): nat {
    if v < 0 then -v else v
  }

  /** The query window for q and an integer half-width d:
      [q.x - d, q.x + d] by [q.y - d, q.y + d]. Each axis is bounded on its
      own, so this is a square, not a disc. */
  function NearbyBox(q: Point, d: int): (b: Box)
    ensures forall p :: b.Contains(p) <==> Abs(p.x - q.x) <= d && Abs(p.y - q.y) <= d
  {
    Box(Interval(q.x - d, q.x + d), Interval(q.y - d, q.y + d))
  }

  /** The points within half-width d of q on both axes. Only such points
      are ever returned, whatever the tree. */
  function SearchNearby(db: Database, q: Point, d: int): (r: seq<Point>)
    ensures forall p :: p in r ==> Abs(p.x - q.x) <= d && Abs(p.y - q.y) <= d
  {
    PrimaryIndex.SearchX(db.root, NearbyBox(q, d), [])
  }

  /** Against a brute-force scan of the input: the query on a constructed
      index returns exactly the input points within half-width d of q, each
      as often as it occurs in the input. */
  lemma SearchNearbyExact(points: seq<Point>, q: Point, d: int)
    ensures multiset(SearchNearby(Construct(points), q, d))
         == multiset(BoxFilter(points, NearbyBox(q, d)))
  {
    var db := Construct(points);
    PrimaryIndex.SearchXCounts(db.root, NearbyBox(q, d));
    BoxFilterPermutation(PrimaryIndex.InOrder(db.root), points, NearbyBox(q, d));
  }

  /** Any X-sorted arrangement of the input, whatever order it gives points
      with equal x, yields an index whose box query is exact. */
  lemma QueryIgnoresTieOrder(points: seq<Point>, sorted: seq<Point>, b: Box)
    requires multiset(sorted) == multiset(points) && SortedByX(sorted)
    ensures multiset(PrimaryIndex.SearchX(PrimaryIndex.BuildX(sorted), b, []))
         == multiset(BoxFilter(points, b))
  {
    PrimaryIndex.BuildXIsBst(sorted);
    PrimaryIndex.SearchXCounts(PrimaryIndex.BuildX(sorted), b);
    BoxFilterPermutation(sorted, points, b);
  }

  /** A tree built from two points has the second at the root and the
      first as its only child, so its preorder walk reverses them. */
  lemma PairPreorder(u: Point, v: Point)
    ensures PrimaryIndex.Preorder(PrimaryIndex.BuildX([u, v])) == [v, u]
  {
    var t := PrimaryIndex.BuildX([u, v]);
    PrimaryIndex.BuildXSplit([u, v]);
    assert [u, v][..1] == [u] && [u, v][2..] == [];
    PrimaryIndex.SizeIsLength(t.left);
    PrimaryIndex.SizeIsLength(t.right);
    PrimaryIndex.SizeIsLength(t.left.left);
    PrimaryIndex.SizeIsLength(t.left.right);
  }

  /** The query over a tree built from two X-sorted points, both in the
      box, returns them in preorder: the second, then the first. */
  lemma PairAnswer(u: Point, v: Point, b: Box)
    requires u.x <= v.x && b.Contains(u) && b.Contains(v)
    ensures PrimaryIndex.SearchX(PrimaryIndex.BuildX([u, v]), b, []) == [v, u]
  {
    var t := PrimaryIndex.BuildX([u, v]);
    PairPreorder(u, v);
    assert SortedByX([u, v]);
    PrimaryIndex.BuildXIsBst([u, v]);
    PrimaryIndex.SearchXExact(t, b, []);
    assert [v, u][1..] == [u] && [u][1..] == [];
    assert BoxFilter([u], b) == [u];
    assert BoxFilter([v, u], b) == [v] + BoxFilter([u], b);
  }

  /** The order of the answer, unlike its multiset, does depend on the tie
      order: the two X-sorted arrangements of two points that share x give
      the same points in opposite order. */
  lemma TieOrderShowsInAnswerOrder(a: Point, c: Point, b: Box)
    requires a.x == c.x && b.Contains(a) && b.Contains(c)
    ensures PrimaryIndex.SearchX(PrimaryIndex.BuildX([a, c]), b, []) == [c, a]
    ensures PrimaryIndex.SearchX(PrimaryIndex.BuildX([c, a]), b, []) == [a, c]
  {
    PairAnswer(a, c, b);
    PairAnswer(c, a, b);
  }

  /** An empty index answers every query with nothing, and so does any index
      for a negative half-width, whose window is inverted. */
  lemma EmptyAnswers(points: seq<Point>, q: Point, d: int)
    ensures SearchNearby(Construct([]), q, d) == []
    ensures d < 0 ==> SearchNearby(Construct(points), q, d) == []
  {
    if d < 0 {
      PrimaryIndex.SearchXEmptyBox(Construct(points).root, NearbyBox(q, d), []);
    }
  }

  /** A query whose window holds no input point answers with nothing. */
  lemma NothingNearby(points: seq<Point>, q: Point, d: int)
    requires forall i :: 0 <= i < |points| ==> !NearbyBox(q, d).Contains(points[i])
    ensures SearchNearby(Construct(points), q, d) == []
  {
    forall p | p in points ensures !NearbyBox(q, d).Contains(p) {
      var i :| 0 <= i < |points| && points[i] == p;
    }
    SearchNearbyExact(points, q, d);
    BoxFilterNone(points, NearbyBox(q, d));
    var r := SearchNearby(Construct(points), q, d);
    assert |multiset(r)| == |r|;
  }

  /** The fifteen points of the demonstration driver. */
  function DriverPoints(): seq<Point> {
    [ Point(38, 26), Point(43, 24), Point(5, 25), Point(30, 2), Point(29, 7),
      Point(37, 16), Point(51, 15), Point(40, 23), Point(23, 20), Point(8, 49),
      Point(34, 45), Point(42, 12), Point(32, 39), Point(17, 19), Point(12, 4) ]
  }

  /** On the driver's points, each of its three integer half-width queries
      answers with nothing: in particular no driver point has x in [25, 35]
      and y in [10, 20]. */
  lemma DriverQueriesFindNothing(points: seq<Point>, q: Point, d: int)
    requires points == DriverPoints()
    requires || (q == Point(5, 5) && d == 1)
             || (q == Point(4, 8) && d == 2)
             || (q == Point(30, 15) && d == 5)
    ensures SearchNearby(Construct(points), q, d) == []
  {
    assert |points| == 15;
    forall i | 0 <= i < |points| ensures !NearbyBox(q, d).Contains(points[i]) {
    }
    NothingNearby(points, q, d);
  }
}
