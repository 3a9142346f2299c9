/**
 Contour points and the summary statistics computed over them: minimum and
 maximum of a coordinate, horizontal span and the sum of the rows.
 */
module Geometry {

  /** A contour pixel: column `x` and row `y` in image coordinates. */
  datatype Point = Point(x: int, y: int)

  /** One traced boundary, in the order the contour tracer produced it. */
  type Contour = seq<Point>

  /** The column of every point, in contour order. */
  function Xs(c: Contour): (r: seq<int>)
    ensures |r| == |c|
    ensures forall i :: 0 <= i < |c| ==> r[i] == c[i].x
  {
    seq(|c|, i requires 0 <= i < |c| => c[i].x)
  }

  /** The row of every point, in contour order. */
  function Ys(c: Contour): (r: seq<int>)
    ensures |r| == |c|
    ensures forall i :: 0 <= i < |c| ==> r[i] == c[i].y
  {
    seq(|c|, i requires 0 <= i < |c| => c[i].y)
  }

  /** The smallest value: one of the values, and no larger than any of them. */
  function MinOf(v: seq<int>): (m: int)
    requires |v| > 0
    ensures m in v
    ensures forall i :: 0 <= i < |v| ==> m <= v[i]
  {
    if |v| == 1 then v[0]
    else
      var rest := MinOf(v[1..]);
      if v[0] <= rest then v[0] else rest
  }

  /** The largest value: one of the values, and no smaller than any of them. */
  function MaxOf(v: seq<int>): (m: int)
    requires |v| > 0
    ensures m in v
    ensures forall i :: 0 <= i < |v| ==> v[i] <= m
  {
    if |v| == 1 then v[0]
    else
      var rest := MaxOf(v[1..]);
      if v[0] >= rest then v[0] else rest
  }

  function Sum(v: seq<int>): int
  {
    if |v| == 0 then 0 else v[0] + Sum(v[1..])
  }

  /** A lower bound of every value, taken once per value, is at most their sum. */
  lemma {:induction false} LowerBoundTimesCount(v: seq<int>, b: int)
    requires forall i :: 0 <= i < |v| ==> b <= v[i]
    ensures b * |v| <= Sum(v)
  {
    if |v| > 0 {
      LowerBoundTimesCount(v[1..], b);
      assert b * |v| == b + b * (|v| - 1);
    }
  }

  /** Horizontal span: the largest column distance between two points of the
      contour; no two points are further apart, and some two are exactly this far. */
  function Span(c: Contour): (w: int)
    requires |c| > 0
    ensures w >= 0
    ensures forall i, j :: 0 <= i < |c| && 0 <= j < |c| ==> c[i].x - c[j].x <= w
    ensures exists i, j :: 0 <= i < |c| && 0 <= j < |c| && c[i].x - c[j].x == w
  {
    var xs := Xs(c);
    var hi := MaxOf(xs);
    var lo := MinOf(xs);
    assert exists i :: 0 <= i < |c| && c[i].x == hi;
    assert exists j :: 0 <= j < |c| && c[j].x == lo;
    hi - lo
  }

  /** The topmost row touched by the contour (rows grow downward in an image). */
  function MinY(c: Contour): (m: int)
    requires |c| > 0
    ensures forall i :: 0 <= i < |c| ==> m <= c[i].y
    ensures exists i :: 0 <= i < |c| && c[i].y == m
  {
    var ys := Ys(c);
    var m := MinOf(ys);
    assert exists i :: 0 <= i < |c| && ys[i] == m;
    m
  }

  /** The sum of the rows, the numerator of the mean row `sum / count`. */
  function SumY(c: Contour): int
  {
    Sum(Ys(c))
  }

  /** The topmost row never lies below the mean row: `MinY(c) <= SumY(c) / |c|`,
      stated without division. */
  lemma MinYAtMostMean(c: Contour)
    requires |c| > 0
    ensures MinY(c) * |c| <= SumY(c)
  {
    LowerBoundTimesCount(Ys(c), MinY(c));
  }
}
