/**
 The candidate filter: every traced contour with at least `MinPoints` points
 becomes a candidate carrying its extraction index and summary statistics;
 smaller contours are dropped as noise.
 */
module Candidates {
  import opened Results
  import opened Geometry

  /** Contours with fewer points than this are ignored. */
  const MinPoints: nat := 300

  /** A contour that survived the filter, with the statistics shown in the
      candidate table. The mean row is kept exactly as `sumY / |points|`. */
  datatype Candidate = Candidate(idx: nat, span: int, sumY: int, minY: int, points: Contour)

  predicate IsLarge(c: Contour)
  {
    |c| >= MinPoints
  }

  /** The statistics of contour number `idx`. */
  function Summarize(idx: nat, c: Contour): (r: Candidate)
    requires IsLarge(c)
    ensures r.idx == idx && r.points == c
    ensures r.span == Span(c) && r.minY == MinY(c) && r.sumY == SumY(c)
    ensures r.span >= 0
    ensures forall i, j :: 0 <= i < |c| && 0 <= j < |c| ==> c[i].x - c[j].x <= r.span
    ensures forall i :: 0 <= i < |c| ==> r.minY <= c[i].y
  {
    Candidate(idx, Span(c), SumY(c), MinY(c), c)
  }

  /** Some entry of the list carries extraction index `n`. */
  predicate HasIndex(cs: seq<Candidate>, n: int)
  {
    exists k :: 0 <= k < |cs| && cs[k].idx == n
  }

  /** Each entry is the summary of the large contour its index names. */
  predicate Faithful(contours: seq<Contour>, cs: seq<Candidate>)
  {
    forall k :: 0 <= k < |cs| ==>
      cs[k].idx < |contours| && IsLarge(contours[cs[k].idx])
      && cs[k] == Summarize(cs[k].idx, contours[cs[k].idx])
  }

  /** Extraction indices strictly increase along the list. */
  predicate InExtractionOrder(cs: seq<Candidate>)
  {
    forall k, l :: 0 <= k < l < |cs| ==> cs[k].idx < cs[l].idx
  }

  /** The candidates among `contours[start..]`, in extraction order. */
  function FilterFrom(contours: seq<Contour>, start: nat): (r: seq<Candidate>)
    requires start <= |contours|
    ensures |r| <= |contours| - start
    decreases |contours| - start
  {
    if start == |contours| then []
    else if IsLarge(contours[start]) then [Summarize(start, contours[start])] + FilterFrom(contours, start + 1)
    else FilterFrom(contours, start + 1)
  }

  /** Every candidate found scanning from `start` is the summary of a large
      contour. */
  lemma {:induction false} FilterFromSound(contours: seq<Contour>, start: nat)
    requires start <= |contours|
    ensures Faithful(contours, FilterFrom(contours, start))
    decreases |contours| - start
  {
    if start < |contours| {
      FilterFromSound(contours, start + 1);
      if IsLarge(contours[start]) {
        PrependKeepsFaithful(contours, Summarize(start, contours[start]), FilterFrom(contours, start + 1));
      }
    }
  }

  /** Candidates found scanning from `start` come from `start` on, in
      strictly increasing extraction order. */
  lemma {:induction false} FilterFromOrdered(contours: seq<Contour>, start: nat)
    requires start <= |contours|
    ensures InExtractionOrder(FilterFrom(contours, start))
    ensures forall k :: 0 <= k < |FilterFrom(contours, start)| ==> start <= FilterFrom(contours, start)[k].idx
    decreases |contours| - start
  {
    if start < |contours| {
      FilterFromOrdered(contours, start + 1);
      if IsLarge(contours[start]) {
        PrependKeepsOrder(Summarize(start, contours[start]), FilterFrom(contours, start + 1));
      }
    }
  }

  /** Scanning from `start` misses no large contour at or after `start`. */
  lemma {:induction false} FilterFromComplete(contours: seq<Contour>, start: nat, j: nat)
    requires start <= j < |contours| && IsLarge(contours[j])
    ensures HasIndex(FilterFrom(contours, start), j)
    decreases j - start
  {
    if start == j {
      assert FilterFrom(contours, start)[0].idx == j;
    } else {
      FilterFromComplete(contours, start + 1, j);
      var rest := FilterFrom(contours, start + 1);
      if IsLarge(contours[start]) {
        var head := Summarize(start, contours[start]);
        assert FilterFrom(contours, start) == [head] + rest;
        PrependKeepsIndices(head, rest);
      } else {
        assert FilterFrom(contours, start) == rest;
      }
    }
  }

  /** Putting an entry in front keeps every index the list already had. */
  lemma PrependKeepsIndices(head: Candidate, rest: seq<Candidate>)
    ensures forall j :: HasIndex(rest, j) ==> HasIndex([head] + rest, j)
  {
    var r := [head] + rest;
    forall j | HasIndex(rest, j)
      ensures HasIndex(r, j)
    {
      var k :| 0 <= k < |rest| && rest[k].idx == j;
      assert r[k + 1].idx == j;
    }
  }

  /** Putting a faithful entry in front keeps the list faithful. */
  lemma PrependKeepsFaithful(contours: seq<Contour>, head: Candidate, rest: seq<Candidate>)
    requires head.idx < |contours| && IsLarge(contours[head.idx])
    requires head == Summarize(head.idx, contours[head.idx])
    requires Faithful(contours, rest)
    ensures Faithful(contours, [head] + rest)
  {
    var r := [head] + rest;
    forall k | 0 <= k < |r|
      ensures r[k].idx < |contours| && IsLarge(contours[r[k].idx])
      ensures r[k] == Summarize(r[k].idx, contours[r[k].idx])
    {
      if k > 0 {
        assert r[k] == rest[k - 1];
      }
    }
  }

  /** Putting an entry with a smaller index in front keeps extraction order. */
  lemma PrependKeepsOrder(head: Candidate, rest: seq<Candidate>)
    requires InExtractionOrder(rest)
    requires forall k :: 0 <= k < |rest| ==> head.idx < rest[k].idx
    ensures InExtractionOrder([head] + rest)
  {
  }

  /** The filter over all contours: contour `j` is a candidate exactly when it
      has at least `MinPoints` points, candidates keep extraction order, and the
      list is empty exactly when no contour is large enough. */
  function Filter(contours: seq<Contour>): (r: seq<Candidate>)
    ensures Faithful(contours, r)
    ensures InExtractionOrder(r)
    ensures forall j :: 0 <= j < |contours| ==> (HasIndex(r, j) <==> IsLarge(contours[j]))
    ensures r == [] <==> forall j :: 0 <= j < |contours| ==> !IsLarge(contours[j])
  {
    var r := FilterFrom(contours, 0);
    FilterFromSound(contours, 0);
    FilterFromOrdered(contours, 0);
    forall j | 0 <= j < |contours| && IsLarge(contours[j])
      ensures HasIndex(r, j)
    {
      FilterFromComplete(contours, 0, j);
    }
    assert forall j :: 0 <= j < |contours| && HasIndex(r, j) ==> IsLarge(contours[j]);
    assert r != [] ==> IsLarge(contours[r[0].idx]);
    r
  }

  /** The filter with its failure: no large contour aborts the run. */
  function Collect(contours: seq<Contour>): (r: Result<seq<Candidate>, Fault>)
    ensures r.Failure? <==> forall j :: 0 <= j < |contours| ==> !IsLarge(contours[j])
    ensures r.Failure? ==> r.error == NoLargeContours
    ensures r.Success? ==> |r.value| > 0 && r.value == Filter(contours)
  {
    var cs := Filter(contours);
    if cs == [] then Failure(NoLargeContours) else Success(cs)
  }
}
