/**
 The point normalizer applied to the chosen contour before curve fitting:
 order the points by column, then keep one point per column, the first of
 each run of equal columns in the sorted order. The result has strictly
 increasing columns, which the cubic spline requires.
 */
module Normalization {
  import opened Geometry

  /** Columns never decrease along the sequence. */
  predicate XSorted(s: seq<Point>)
  {
    forall i, j :: 0 <= i < j < |s| ==> s[i].x <= s[j].x
  }

  /** Columns strictly increase along the sequence. */
  predicate XStrict(s: seq<Point>)
  {
    forall i, j :: 0 <= i < j < |s| ==> s[i].x < s[j].x
  }

  /** The set of columns the points occupy. */
  function XSet(s: seq<Point>): set<int>
  {
    set p | p in s :: p.x
  }

  /** `p` occurs in `s` and no earlier point of `s` shares its column. */
  predicate FirstInColumn(s: seq<Point>, p: Point)
  {
    exists i :: 0 <= i < |s| && s[i] == p && forall j :: 0 <= j < i ==> s[j].x != p.x
  }

  /** Places `p` before the first point of the sorted `l` whose column is not
      smaller. */
  function InsertByX(p: Point, l: seq<Point>): (r: seq<Point>)
    requires XSorted(l)
    ensures XSorted(r)
    ensures multiset(r) == multiset(l) + multiset{p}
    ensures |r| == |l| + 1
  {
    if |l| == 0 || p.x <= l[0].x then [p] + l
    else
      var tail := InsertByX(p, l[1..]);
      assert l == [l[0]] + l[1..];
      HeadBelowTail(l[0], p, l[1..], tail);
      [l[0]] + tail
  }

  lemma HeadBelowTail(h: Point, p: Point, rest: seq<Point>, tail: seq<Point>)
    requires XSorted(tail)
    requires multiset(tail) == multiset(rest) + multiset{p}
    requires h.x <= p.x
    requires forall i :: 0 <= i < |rest| ==> h.x <= rest[i].x
    ensures XSorted([h] + tail)
  {
    forall i | 0 <= i < |tail|
      ensures h.x <= tail[i].x
    {
      assert tail[i] in multiset(tail);
      assert tail[i] == p || tail[i] in multiset(rest);
    }
  }

  /** The points ordered by column: a permutation of the input. Which of
      several points with one column comes first is fixed here by an insertion
      sort; the properties below do not depend on that choice. */
  function SortByX(s: seq<Point>): (r: seq<Point>)
    ensures XSorted(r)
    ensures multiset(r) == multiset(s)
    ensures |r| == |s|
  {
    if |s| == 0 then []
    else
      assert s == [s[0]] + s[1..];
      InsertByX(s[0], SortByX(s[1..]))
  }

  /** Length of the run of points with column `x` at the front of `t`. */
  function RunLength(t: seq<Point>, x: int): (n: nat)
    ensures n <= |t|
    ensures forall i :: 0 <= i < n ==> t[i].x == x
    ensures n < |t| ==> t[n].x != x
  {
    if |t| == 0 || t[0].x != x then 0 else 1 + RunLength(t[1..], x)
  }

  /** Keeps the first point of every run of equal columns of a column-sorted
      sequence. The result has strictly increasing columns, covers exactly the
      input's columns, and each of its points is the first point of the input
      with that column. */
  function Dedup(s: seq<Point>): (r: seq<Point>)
    requires XSorted(s)
    ensures XStrict(r)
    ensures XSet(r) == XSet(s)
    ensures forall k :: 0 <= k < |r| ==> FirstInColumn(s, r[k])
    ensures |r| <= |s|
    ensures |s| > 0 ==> |r| > 0 && r[0] == s[0]
    decreases |s|
  {
    if |s| == 0 then []
    else
      var n := RunLength(s[1..], s[0].x);
      var rest := s[1 + n..];
      var tail := Dedup(rest);
      AfterRunIsRight(s, n);
      DedupStepStrict(s, n, tail);
      DedupStepColumns(s, n, tail);
      DedupStepFirst(s, n, tail);
      [s[0]] + tail
  }

  /** After the head's run, every point of a sorted sequence lies strictly
      right of the head. */
  lemma AfterRunIsRight(s: seq<Point>, n: nat)
    requires XSorted(s) && |s| > 0 && 1 + n <= |s|
    requires 1 + n < |s| ==> s[1 + n].x != s[0].x
    ensures forall i :: 1 + n <= i < |s| ==> s[0].x < s[i].x
  {
  }

  /** The step of `Dedup`, columns strictly increasing. */
  lemma DedupStepStrict(s: seq<Point>, n: nat, tail: seq<Point>)
    requires XSorted(s) && |s| > 0 && 1 + n <= |s|
    requires 1 + n < |s| ==> s[1 + n].x != s[0].x
    requires XStrict(tail)
    requires XSet(tail) == XSet(s[1 + n..])
    ensures XStrict([s[0]] + tail)
  {
    AfterRunIsRight(s, n);
    var rest := s[1 + n..];
    forall k | 0 <= k < |tail|
      ensures s[0].x < tail[k].x
    {
      assert tail[k].x in XSet(tail);
      var q :| q in rest && q.x == tail[k].x;
      var i :| 0 <= i < |rest| && rest[i] == q;
      assert q == s[1 + n + i];
    }
  }

  /** The step of `Dedup`, same columns as the input. */
  lemma DedupStepColumns(s: seq<Point>, n: nat, tail: seq<Point>)
    requires |s| > 0 && 1 + n <= |s|
    requires forall i :: 1 <= i < 1 + n ==> s[i].x == s[0].x
    requires XSet(tail) == XSet(s[1 + n..])
    ensures XSet([s[0]] + tail) == XSet(s)
  {
    var rest := s[1 + n..];
    var r := [s[0]] + tail;
    forall x | x in XSet(s)
      ensures x in XSet(r)
    {
      var p :| p in s && p.x == x;
      var i :| 0 <= i < |s| && s[i] == p;
      if i < 1 + n {
        assert x == s[0].x;
        assert r[0] == s[0];
      } else {
        assert p == rest[i - 1 - n];
        assert x in XSet(tail);
      }
    }
    forall x | x in XSet(r)
      ensures x in XSet(s)
    {
      var p :| p in r && p.x == x;
      if p != s[0] {
        assert p in tail;
        assert x in XSet(rest);
        var q :| q in rest && q.x == x;
        assert q in s;
      }
    }
  }

  /** The step of `Dedup`, each kept point first in its column. */
  lemma DedupStepFirst(s: seq<Point>, n: nat, tail: seq<Point>)
    requires |s| > 0 && 1 + n <= |s|
    requires forall i :: 1 <= i < 1 + n ==> s[i].x == s[0].x
    requires forall i :: 1 + n <= i < |s| ==> s[0].x < s[i].x
    requires forall k :: 0 <= k < |tail| ==> FirstInColumn(s[1 + n..], tail[k])
    ensures forall k :: 0 <= k < |[s[0]] + tail| ==> FirstInColumn(s, ([s[0]] + tail)[k])
  {
    var rest := s[1 + n..];
    var r := [s[0]] + tail;
    assert FirstInColumn(s, r[0]) by {
      assert s[0] == r[0];
    }
    forall k | 1 <= k < |r|
      ensures FirstInColumn(s, r[k])
    {
      var p := r[k];
      assert p == tail[k - 1];
      assert FirstInColumn(rest, p);
      var i :| 0 <= i < |rest| && rest[i] == p && forall j :: 0 <= j < i ==> rest[j].x != p.x;
      assert s[1 + n + i] == p;
      forall j | 0 <= j < 1 + n + i
        ensures s[j].x != p.x
      {
        if j >= 1 + n {
          assert s[j] == rest[j - 1 - n];
        }
      }
    }
  }

  /** The normalizer: sort by column, then keep one point per column. Its
      columns strictly increase, are exactly the input's columns, and every
      point it keeps is a point of the input. */
  function Normalize(pts: seq<Point>): (r: seq<Point>)
    ensures XStrict(r)
    ensures XSet(r) == XSet(pts)
    ensures forall p :: p in r ==> p in pts
    ensures |r| <= |pts|
    ensures |pts| > 0 ==> |r| > 0
  {
    var sorted := SortByX(pts);
    var r := Dedup(sorted);
    assert forall p :: p in sorted <==> p in pts by {
      assert forall p :: p in sorted <==> p in multiset(sorted);
    }
    assert XSet(sorted) == XSet(pts);
    assert forall p :: p in r ==> p in sorted by {
      forall p | p in r
        ensures p in sorted
      {
        var k :| 0 <= k < |r| && r[k] == p;
        assert FirstInColumn(sorted, r[k]);
      }
    }
    r
  }

  /** Sorting points that are already in column order changes nothing. */
  lemma {:induction false} SortOfSortedByX(s: seq<Point>)
    requires XSorted(s)
    ensures SortByX(s) == s
  {
    if |s| > 0 {
      SortOfSortedByX(s[1..]);
      assert s == [s[0]] + s[1..];
    }
  }

  /** Deduplicating points whose columns already strictly increase changes nothing. */
  lemma {:induction false} DedupOfStrict(s: seq<Point>)
    requires XStrict(s)
    ensures Dedup(s) == s
  {
    if |s| > 0 {
      assert RunLength(s[1..], s[0].x) == 0 by {
        if |s| > 1 {
          assert s[1..][0].x == s[1].x;
        }
      }
      DedupOfStrict(s[1..]);
      assert s == [s[0]] + s[1..];
    }
  }

  /** A point sequence with strictly increasing columns is its own normal
      form. */
  lemma NormalizeFixesStrict(pts: seq<Point>)
    requires XStrict(pts)
    ensures Normalize(pts) == pts
  {
    SortOfSortedByX(pts);
    DedupOfStrict(pts);
  }

  /** Normalizing twice is normalizing once. */
  lemma NormalizeIdempotent(pts: seq<Point>)
    ensures Normalize(Normalize(pts)) == Normalize(pts)
  {
    NormalizeFixesStrict(Normalize(pts));
  }

  /** With strictly increasing columns, the head's column is the smallest and
      the tail holds exactly the other columns. */
  lemma StrictTailColumns(s: seq<Point>)
    requires XStrict(s) && |s| > 0
    ensures s[0].x in XSet(s)
    ensures XSet(s[1..]) == XSet(s) - {s[0].x}
    ensures forall x :: x in XSet(s) ==> s[0].x <= x
  {
    assert s == [s[0]] + s[1..];
    forall x | x in XSet(s)
      ensures s[0].x <= x
    {
      var p :| p in s && p.x == x;
      var i :| 0 <= i < |s| && s[i] == p;
    }
    forall x | x in XSet(s[1..])
      ensures x != s[0].x
    {
      var p :| p in s[1..] && p.x == x;
      var i :| 0 <= i < |s[1..]| && s[1..][i] == p;
      assert p == s[i + 1];
    }
  }

  /** Points with strictly increasing columns occupy as many columns as
      there are points. */
  lemma {:induction false} StrictColumnCount(s: seq<Point>)
    requires XStrict(s)
    ensures |XSet(s)| == |s|
  {
    if |s| > 0 {
      StrictTailColumns(s);
      StrictColumnCount(s[1..]);
    }
  }

  /** The normalizer keeps exactly one point per distinct column of the input. */
  lemma NormalizeCount(pts: seq<Point>)
    ensures |Normalize(pts)| == |XSet(pts)|
  {
    StrictColumnCount(Normalize(pts));
  }

  /** Two point sequences with strictly increasing columns over the same set
      of columns list the same columns in the same positions. */
  lemma {:induction false} StrictSameColumns(a: seq<Point>, b: seq<Point>)
    requires XStrict(a) && XStrict(b)
    requires XSet(a) == XSet(b)
    ensures |a| == |b|
    ensures forall i :: 0 <= i < |a| ==> a[i].x == b[i].x
  {
    StrictColumnCount(a);
    StrictColumnCount(b);
    if |a| > 0 {
      StrictTailColumns(a);
      StrictTailColumns(b);
      assert a[0].x == b[0].x;
      StrictSameColumns(a[1..], b[1..]);
      forall i | 0 <= i < |a|
        ensures a[i].x == b[i].x
      {
        if i > 0 {
          assert a[i] == a[1..][i - 1] && b[i] == b[1..][i - 1];
        }
      }
    }
  }

  /** Whatever order the sort leaves points of equal column in, deduplicating
      it keeps the same columns in the same positions as `Normalize`, and
      each kept point is an input point of that column; only which of several
      points of one column survives depends on that order. */
  lemma AnyColumnOrder(pts: seq<Point>, sorted: seq<Point>)
    requires XSorted(sorted)
    requires multiset(sorted) == multiset(pts)
    ensures |Dedup(sorted)| == |Normalize(pts)|
    ensures forall i :: 0 <= i < |Dedup(sorted)| ==> Dedup(sorted)[i].x == Normalize(pts)[i].x
    ensures forall p :: p in Dedup(sorted) ==> p in pts
  {
    var d := Dedup(sorted);
    assert forall p :: p in sorted <==> p in pts by {
      assert forall p :: p in sorted <==> p in multiset(sorted);
    }
    assert XSet(sorted) == XSet(pts);
    StrictSameColumns(d, Normalize(pts));
    forall p | p in d
      ensures p in pts
    {
      var k :| 0 <= k < |d| && d[k] == p;
      assert FirstInColumn(sorted, d[k]);
    }
  }
}
