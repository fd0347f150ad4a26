/** Points, closed query windows, the two coordinate orders, and the
    brute-force filters every index query is measured against. */
module Points {

  /** A 2D point with integer coordinates. Equal coordinates appearing twice
      in an input list are two distinct entries; nothing is deduplicated. */
  datatype Point = Point(x: int, y: int)

  /** The closed integer interval [lo, hi]; it is empty when lo > hi. */
  datatype Interval = Interval(lo: int, hi: int) {
    predicate Contains(v: int) {
      lo <= v <= hi
    }

    predicate IsEmpty() {
      lo > hi
    }
  }

  /** An axis-aligned box: an X window and an independent Y window. */
  datatype Box = Box(xs: Interval, ys: Interval) {
    predicate Contains(p: Point) {
      xs.Contains(p.x) && ys.Contains(p.y)
    }

    predicate IsEmpty() {
      xs.IsEmpty() || ys.IsEmpty()
    }
  }

  predicate SortedByX(s: seq<Point>) {
    forall i, j :: 0 <= i < j < |s| ==> s[i].x <= s[j].x
  }

  predicate SortedByY(s: seq<Point>) {
    forall i, j :: 0 <= i < j < |s| ==> s[i].y <= s[j].y
  }

  /** The linear scan: the entries of `s` inside `b`, in their order in `s`. */
  function BoxFilter(s: seq<Point>, b: Box): (r: seq<Point>)
    ensures |r| <= |s|
    ensures forall p :: p in r ==> p in s && b.Contains(p)
  {
    if |s| == 0 then []
    else (if b.Contains(s[0]) then [s[0]] else []) + BoxFilter(s[1..], b)
  }

  /** The linear scan on Y alone: the entries of `s` whose y lies in `ys`. */
  function YFilter(s: seq<Point>, ys: Interval): (r: seq<Point>)
    ensures |r| <= |s|
    ensures forall p :: p in r ==> p in s && ys.Contains(p.y)
  {
    if |s| == 0 then []
    else (if ys.Contains(s[0].y) then [s[0]] else []) + YFilter(s[1..], ys)
  }

  lemma {:induction false} BoxFilterAppend(a: seq<Point>, c: seq<Point>, b: Box)
    ensures BoxFilter(a + c, b) == BoxFilter(a, b) + BoxFilter(c, b)
  {
    if |a| == 0 {
      assert a + c == c;
    } else {
      assert (a + c)[1..] == a[1..] + c;
      BoxFilterAppend(a[1..], c, b);
    }
  }

  lemma {:induction false} YFilterAppend(a: seq<Point>, c: seq<Point>, ys: Interval)
    ensures YFilter(a + c, ys) == YFilter(a, ys) + YFilter(c, ys)
  {
    if |a| == 0 {
      assert a + c == c;
    } else {
      assert (a + c)[1..] == a[1..] + c;
      YFilterAppend(a[1..], c, ys);
    }
  }

  /** The scan keeps every copy of a point inside the box and no copy of one
      outside it. */
  lemma {:induction false} BoxFilterCount(s: seq<Point>, b: Box, p: Point)
    ensures multiset(BoxFilter(s, b))[p] == if b.Contains(p) then multiset(s)[p] else 0
  {
    if |s| > 0 {
      BoxFilterCount(s[1..], b, p);
      assert s == [s[0]] + s[1..];
    }
  }

  lemma {:induction false} YFilterCount(s: seq<Point>, ys: Interval, p: Point)
    ensures multiset(YFilter(s, ys))[p] == if ys.Contains(p.y) then multiset(s)[p] else 0
  {
    if |s| > 0 {
      YFilterCount(s[1..], ys, p);
      assert s == [s[0]] + s[1..];
    }
  }

  /** The scan's result, as a multiset, depends only on the multiset scanned. */
  lemma BoxFilterPermutation(s: seq<Point>, t: seq<Point>, b: Box)
    requires multiset(s) == multiset(t)
    ensures multiset(BoxFilter(s, b)) == multiset(BoxFilter(t, b))
  {
    forall p: Point
      ensures multiset(BoxFilter(s, b))[p] == multiset(BoxFilter(t, b))[p]
    {
      BoxFilterCount(s, b, p);
      BoxFilterCount(t, b, p);
    }
  }

  lemma YFilterPermutation(s: seq<Point>, t: seq<Point>, ys: Interval)
    requires multiset(s) == multiset(t)
    ensures multiset(YFilter(s, ys)) == multiset(YFilter(t, ys))
  {
    forall p: Point
      ensures multiset(YFilter(s, ys))[p] == multiset(YFilter(t, ys))[p]
    {
      YFilterCount(s, ys, p);
      YFilterCount(t, ys, p);
    }
  }

  /** A scan over points none of which lie in the box finds nothing. */
  lemma {:induction false} BoxFilterNone(s: seq<Point>, b: Box)
    requires forall p :: p in s ==> !b.Contains(p)
    ensures BoxFilter(s, b) == []
  {
    if |s| > 0 {
      assert s[0] in s;
      BoxFilterNone(s[1..], b);
    }
  }

  lemma {:induction false} YFilterNone(s: seq<Point>, ys: Interval)
    requires forall p :: p in s ==> !ys.Contains(p.y)
    ensures YFilter(s, ys) == []
  {
    if |s| > 0 {
      assert s[0] in s;
      YFilterNone(s[1..], ys);
    }
  }

  lemma ConcatAssoc3(a: seq<Point>, b: seq<Point>, c: seq<Point>)
    ensures a + (b + c) == a + b + c
  {
  }

  lemma ConcatAssoc(a: seq<Point>, b: seq<Point>, c: seq<Point>, d: seq<Point>)
    ensures a + (b + c + d) == a + b + c + d
  {
  }

  /** A concatenation around a pivot is sorted by X exactly when both sides
      are sorted and lie on the correct side of the pivot. */
  lemma SortedByXAround(a: seq<Point>, p: Point, c: seq<Point>)
    ensures SortedByX(a + [p] + c) <==>
      && SortedByX(a) && SortedByX(c)
      && (forall q :: q in a ==> q.x <= p.x)
      && (forall q :: q in c ==> p.x <= q.x)
  {
    if SortedByX(a + [p] + c) {
      SortedByXSplits(a, p, c);
    }
    if && SortedByX(a) && SortedByX(c)
       && (forall q :: q in a ==> q.x <= p.x)
       && (forall q :: q in c ==> p.x <= q.x)
    {
      SortedByXJoins(a, p, c);
    }
  }

  lemma SortedByXSplits(a: seq<Point>, p: Point, c: seq<Point>)
    requires SortedByX(a + [p] + c)
    ensures SortedByX(a) && SortedByX(c)
    ensures forall q :: q in a ==> q.x <= p.x
    ensures forall q :: q in c ==> p.x <= q.x
  {
    var s := a + [p] + c;
    assert a == s[..|a|];
    assert c == s[|a| + 1..];
    forall q | q in a ensures q.x <= p.x {
      var i :| 0 <= i < |a| && a[i] == q;
      assert s[i] == q && s[|a|] == p;
    }
    forall q | q in c ensures p.x <= q.x {
      var i :| 0 <= i < |c| && c[i] == q;
      assert s[|a| + 1 + i] == q && s[|a|] == p;
    }
  }

  lemma SortedByXJoins(a: seq<Point>, p: Point, c: seq<Point>)
    requires SortedByX(a) && SortedByX(c)
    requires forall q :: q in a ==> q.x <= p.x
    requires forall q :: q in c ==> p.x <= q.x
    ensures SortedByX(a + [p] + c)
  {
    var s := a + [p] + c;
    forall i, j | 0 <= i < j < |s| ensures s[i].x <= s[j].x {
      if j < |a| {
        assert s[i] == a[i] && s[j] == a[j];
      } else if i > |a| {
        assert s[i] == c[i - |a| - 1] && s[j] == c[j - |a| - 1];
      } else {
        var lo := if i < |a| then a[i].x else p.x;
        var hi := if j > |a| then c[j - |a| - 1].x else p.x;
        if i < |a| {
          assert s[i] == a[i] && a[i] in a;
        }
        if j > |a| {
          assert s[j] == c[j - |a| - 1] && c[j - |a| - 1] in c;
        }
        assert s[i].x == lo <= p.x <= hi == s[j].x;
      }
    }
  }

  /** A concatenation around a pivot is sorted by Y exactly when both sides
      are sorted and lie on the correct side of the pivot. */
  lemma SortedByYAround(a: seq<Point>, p: Point, c: seq<Point>)
    ensures SortedByY(a + [p] + c) <==>
      && SortedByY(a) && SortedByY(c)
      && (forall q :: q in a ==> q.y <= p.y)
      && (forall q :: q in c ==> p.y <= q.y)
  {
    if SortedByY(a + [p] + c) {
      SortedByYSplits(a, p, c);
    }
    if && SortedByY(a) && SortedByY(c)
       && (forall q :: q in a ==> q.y <= p.y)
       && (forall q :: q in c ==> p.y <= q.y)
    {
      SortedByYJoins(a, p, c);
    }
  }

  lemma SortedByYSplits(a: seq<Point>, p: Point, c: seq<Point>)
    requires SortedByY(a + [p] + c)
    ensures SortedByY(a) && SortedByY(c)
    ensures forall q :: q in a ==> q.y <= p.y
    ensures forall q :: q in c ==> p.y <= q.y
  {
    var s := a + [p] + c;
    assert a == s[..|a|];
    assert c == s[|a| + 1..];
    forall q | q in a ensures q.y <= p.y {
      var i :| 0 <= i < |a| && a[i] == q;
      assert s[i] == q && s[|a|] == p;
    }
    forall q | q in c ensures p.y <= q.y {
      var i :| 0 <= i < |c| && c[i] == q;
      assert s[|a| + 1 + i] == q && s[|a|] == p;
    }
  }

  lemma SortedByYJoins(a: seq<Point>, p: Point, c: seq<Point>)
    requires SortedByY(a) && SortedByY(c)
    requires forall q :: q in a ==> q.y <= p.y
    requires forall q :: q in c ==> p.y <= q.y
    ensures SortedByY(a + [p] + c)
  {
    var s := a + [p] + c;
    forall i, j | 0 <= i < j < |s| ensures s[i].y <= s[j].y {
      if j < |a| {
        assert s[i] == a[i] && s[j] == a[j];
      } else if i > |a| {
        assert s[i] == c[i - |a| - 1] && s[j] == c[j - |a| - 1];
      } else {
        var lo := if i < |a| then a[i].y else p.y;
        var hi := if j > |a| then c[j - |a| - 1].y else p.y;
        if i < |a| {
          assert s[i] == a[i] && a[i] in a;
        }
        if j > |a| {
          assert s[j] == c[j - |a| - 1] && c[j - |a| - 1] in c;
        }
        assert s[i].y == lo <= p.y <= hi == s[j].y;
      }
    }
  }
}
