/** The linear two-way merge of Y-sorted point lists used to assemble each
    primary node's Y-sorted list. On equal y it takes from the right list. */
module Merge {
  import opened Points

  /** Every point of `s` has y at least `lo`. */
  ghost predicate YAtLeast(s: seq<Point>, lo: int) {
    forall p :: p in s ==> lo <= p.y
  }

  lemma PrependSorted(h: Point, t: seq<Point>)
    requires SortedByY(t) && YAtLeast(t, h.y)
    ensures SortedByY([h] + t)
  {
    forall i, j | 0 <= i < j < |[h] + t|
      ensures ([h] + t)[i].y <= ([h] + t)[j].y
    {
      if i == 0 {
        assert ([h] + t)[j] == t[j - 1];
        assert t[j - 1] in t;
      }
    }
  }

  lemma TailSorted(s: seq<Point>)
    requires |s| > 0 && SortedByY(s)
    ensures SortedByY(s[1..]) && YAtLeast(s[1..], s[0].y)
  {
  }

  /** Any sequence with the multiset of `a` and `c` keeps their common lower bound. */
  lemma LowerBoundOfPermutation(m: seq<Point>, a: seq<Point>, c: seq<Point>, lo: int)
    requires multiset(m) == multiset(a) + multiset(c)
    requires YAtLeast(a, lo) && YAtLeast(c, lo)
    ensures YAtLeast(m, lo)
  {
    forall p | p in m
      ensures lo <= p.y
    {
      assert p in multiset(m);
      assert p in multiset(a) || p in multiset(c);
    }
  }

  /** The functional form of the iterator loop. */
  function MergeByY(l: seq<Point>, r: seq<Point>): (m: seq<Point>)
    ensures |m| == |l| + |r|
    decreases |l| + |r|
  {
    if |l| == 0 then r
    else if |r| == 0 then l
    else if l[0].y < r[0].y then [l[0]] + MergeByY(l[1..], r)
    else [r[0]] + MergeByY(l, r[1..])
  }

  /** The merge loses, duplicates and alters no point. */
  lemma {:induction false} MergePermutes(l: seq<Point>, r: seq<Point>)
    ensures multiset(MergeByY(l, r)) == multiset(l) + multiset(r)
    decreases |l| + |r|
  {
    if |l| == 0 || |r| == 0 {
    } else if l[0].y < r[0].y {
      MergePermutes(l[1..], r);
      assert l == [l[0]] + l[1..];
    } else {
      MergePermutes(l, r[1..]);
      assert r == [r[0]] + r[1..];
    }
  }

  /** A Y-sorted list whose head is at least lo lies entirely at or above lo. */
  lemma SortedHeadBound(s: seq<Point>, lo: int)
    requires |s| > 0 && SortedByY(s) && lo <= s[0].y
    ensures YAtLeast(s, lo)
  {
    forall p | p in s
      ensures lo <= p.y
    {
      var i :| 0 <= i < |s| && s[i] == p;
    }
  }

  /** Prepending a point below every point of a sorted permutation of a and c. */
  lemma PrependBelowPermutation(h: Point, t: seq<Point>, a: seq<Point>, c: seq<Point>)
    requires SortedByY(t) && multiset(t) == multiset(a) + multiset(c)
    requires YAtLeast(a, h.y) && YAtLeast(c, h.y)
    ensures SortedByY([h] + t)
  {
    LowerBoundOfPermutation(t, a, c, h.y);
    PrependSorted(h, t);
  }

  /** Merging two Y-sorted lists yields a Y-sorted list. */
  lemma {:induction false} MergeSorted(l: seq<Point>, r: seq<Point>)
    requires SortedByY(l) && SortedByY(r)
    ensures SortedByY(MergeByY(l, r))
    decreases |l| + |r|
  {
    if |l| == 0 || |r| == 0 {
    } else if l[0].y < r[0].y {
      TailSorted(l);
      MergeSorted(l[1..], r);
      MergePermutes(l[1..], r);
      SortedHeadBound(r, l[0].y);
      PrependBelowPermutation(l[0], MergeByY(l[1..], r), l[1..], r);
    } else {
      TailSorted(r);
      MergeSorted(l, r[1..]);
      MergePermutes(l, r[1..]);
      SortedHeadBound(l, r[0].y);
      PrependBelowPermutation(r[0], MergeByY(l, r[1..]), l, r[1..]);
    }
  }

  /** One step of the merge loop at cursors i and j. */
  lemma MergeAdvance(l: seq<Point>, r: seq<Point>, i: nat, j: nat)
    requires i < |l| && j < |r|
    ensures l[i].y < r[j].y ==> MergeByY(l[i..], r[j..]) == [l[i]] + MergeByY(l[i + 1..], r[j..])
    ensures l[i].y >= r[j].y ==> MergeByY(l[i..], r[j..]) == [r[j]] + MergeByY(l[i..], r[j + 1..])
  {
    assert l[i..][1..] == l[i + 1..];
    assert r[j..][1..] == r[j + 1..];
  }

  /** Once one list is exhausted the merge is the plain concatenation. */
  lemma MergeDrained(done: seq<Point>, a: seq<Point>, b: seq<Point>, whole: seq<Point>)
    requires |a| == 0 || |b| == 0
    requires done + MergeByY(a, b) == whole
    ensures done + a + b == whole
  {
    if |a| == 0 {
      assert a + b == b;
    } else {
      assert a + b == a;
    }
  }

  /** The loop of PointDatabase.cpp, with two cursors, an output buffer and the two
      tail copies after the loop; it computes exactly MergeByY. */
  method MergeByYLoop(l: seq<Point>, r: seq<Point>) returns (merged: seq<Point>)
    ensures merged == MergeByY(l, r)
    ensures multiset(merged) == multiset(l) + multiset(r)
  {
    merged := [];
    var i, j := 0, 0;
    while i < |l| && j < |r|
      invariant 0 <= i <= |l| && 0 <= j <= |r|
      invariant merged + MergeByY(l[i..], r[j..]) == MergeByY(l, r)
      decreases |l| - i + |r| - j
    {
      MergeAdvance(l, r, i, j);
      if l[i].y < r[j].y {
        ConcatAssoc3(merged, [l[i]], MergeByY(l[i + 1..], r[j..]));
        merged := merged + [l[i]];
        i := i + 1;
      } else {
        ConcatAssoc3(merged, [r[j]], MergeByY(l[i..], r[j + 1..]));
        merged := merged + [r[j]];
        j := j + 1;
      }
    }
    MergeDrained(merged, l[i..], r[j..], MergeByY(l, r));
    merged := merged + l[i..];
    merged := merged + r[j..];
    MergePermutes(l, r);
  }

  /** Length of the longest prefix of `l` whose points lie strictly below y. */
  function PrefixBelow(l: seq<Point>, y: int): (k: nat)
    ensures k <= |l|
  {
    if |l| == 0 || l[0].y >= y then 0 else 1 + PrefixBelow(l[1..], y)
  }

  /** The prefix lies strictly below y and is maximal. */
  lemma {:induction false} PrefixBelowIsMaximal(l: seq<Point>, y: int)
    ensures forall i :: 0 <= i < PrefixBelow(l, y) ==> l[i].y < y
    ensures PrefixBelow(l, y) < |l| ==> l[PrefixBelow(l, y)].y >= y
  {
    if |l| > 0 && l[0].y < y {
      PrefixBelowIsMaximal(l[1..], y);
    }
  }

  /** Merging a single point into `l` (the "add self" step of the primary
      build) inserts it just before the first point of `l` whose y is not
      smaller: ahead of every point with an equal y. */
  lemma {:induction false} MergeSingleton(l: seq<Point>, p: Point)
    ensures var k := PrefixBelow(l, p.y);
      MergeByY(l, [p]) == l[..k] + [p] + l[k..]
  {
    var k := PrefixBelow(l, p.y);
    if |l| == 0 {
    } else if l[0].y < p.y {
      var t := l[1..];
      MergeSingleton(t, p);
      assert PrefixBelow(t, p.y) == k - 1;
      assert MergeByY(l, [p]) == [l[0]] + MergeByY(t, [p]);
      assert t[..k - 1] == l[1..k];
      assert t[k - 1..] == l[k..];
      assert l[..k] == [l[0]] + l[1..k];
    } else {
      assert [p][1..] == [];
      assert MergeByY(l, [p]) == [p] + l;
    }
  }

  /** With a Y-sorted `l`, every point after the inserted one has y at least p.y. */
  lemma MergeSingletonSorted(l: seq<Point>, p: Point)
    requires SortedByY(l)
    ensures var k := PrefixBelow(l, p.y);
      && MergeByY(l, [p]) == l[..k] + [p] + l[k..]
      && (forall i :: k <= i < |l| ==> p.y <= l[i].y)
  {
    MergeSingleton(l, p);
    PrefixBelowIsMaximal(l, p.y);
  }
}
