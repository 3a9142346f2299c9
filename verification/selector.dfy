/**
 Choosing the contour to fit. A typed index picks the candidate with that
 extraction index; anything else sorts the candidate list in place by
 descending span (a stable sort, so equal spans keep their order) and takes
 the head. The sorted order is the new list, seen by later rounds.
 */
module Selector {
  import opened Results
  import opened Candidates

  /** Spans never increase along the list. */
  predicate NonIncreasing(s: seq<Candidate>)
  {
    forall i, j :: 0 <= i < j < |s| ==> s[i].span >= s[j].span
  }

  /** The entries of `s` whose span is `v`, in their order in `s`. */
  function WithSpan(s: seq<Candidate>, v: int): seq<Candidate>
  {
    if |s| == 0 then []
    else if s[0].span == v then [s[0]] + WithSpan(s[1..], v)
    else WithSpan(s[1..], v)
  }

  /** Places `e` after every entry of the non-increasing list `l` that is
      strictly wider, and before the rest. */
  function InsertBySpan(e: Candidate, l: seq<Candidate>): (r: seq<Candidate>)
    requires NonIncreasing(l)
    ensures NonIncreasing(r)
    ensures multiset(r) == multiset(l) + multiset{e}
    ensures |r| == |l| + 1
  {
    if |l| == 0 || l[0].span <= e.span then [e] + l
    else
      var tail := InsertBySpan(e, l[1..]);
      assert l == [l[0]] + l[1..];
      HeadOverTail(l[0], e, l[1..], tail);
      [l[0]] + tail
  }

  /** A head at least as wide as every entry of a permutation of `rest + [e]`
      keeps the list non-increasing. */
  lemma HeadOverTail(h: Candidate, e: Candidate, rest: seq<Candidate>, tail: seq<Candidate>)
    requires NonIncreasing(tail)
    requires multiset(tail) == multiset(rest) + multiset{e}
    requires e.span <= h.span
    requires forall i :: 0 <= i < |rest| ==> rest[i].span <= h.span
    ensures NonIncreasing([h] + tail)
  {
    forall i | 0 <= i < |tail|
      ensures tail[i].span <= h.span
    {
      assert tail[i] in multiset(tail);
      assert tail[i] == e || tail[i] in multiset(rest);
    }
  }

  /** The list sorted by descending span, as an insertion sort that keeps
      equal spans in their original order. */
  function SortBySpan(s: seq<Candidate>): (r: seq<Candidate>)
    ensures NonIncreasing(r)
    ensures multiset(r) == multiset(s)
    ensures |r| == |s|
  {
    if |s| == 0 then []
    else
      assert s == [s[0]] + s[1..];
      InsertBySpan(s[0], SortBySpan(s[1..]))
  }

  lemma WithSpanPrepend(e: Candidate, t: seq<Candidate>, v: int)
    ensures WithSpan([e] + t, v) == (if e.span == v then [e] else []) + WithSpan(t, v)
  {
    assert ([e] + t)[1..] == t;
  }

  /** Inserting does not reorder entries of equal span. */
  lemma {:induction false} InsertKeepsTies(e: Candidate, l: seq<Candidate>, v: int)
    requires NonIncreasing(l)
    ensures WithSpan(InsertBySpan(e, l), v) == WithSpan([e] + l, v)
  {
    if |l| == 0 || l[0].span <= e.span {
    } else {
      var tail := InsertBySpan(e, l[1..]);
      InsertKeepsTies(e, l[1..], v);
      WithSpanPrepend(l[0], tail, v);
      WithSpanPrepend(e, l[1..], v);
      WithSpanPrepend(e, l, v);
      assert l == [l[0]] + l[1..];
      WithSpanPrepend(l[0], l[1..], v);
    }
  }

  /** Stability: for every span value, the entries with that span appear in
      the sorted list in the same order as before sorting. */
  lemma {:induction false} SortIsStable(s: seq<Candidate>)
    ensures forall v :: WithSpan(SortBySpan(s), v) == WithSpan(s, v)
  {
    if |s| > 0 {
      SortIsStable(s[1..]);
      forall v
        ensures WithSpan(SortBySpan(s), v) == WithSpan(s, v)
      {
        InsertKeepsTies(s[0], SortBySpan(s[1..]), v);
        WithSpanPrepend(s[0], SortBySpan(s[1..]), v);
        assert s == [s[0]] + s[1..];
        WithSpanPrepend(s[0], s[1..], v);
      }
    }
  }

  /** Sorting a list that is already in descending-span order leaves it as it
      is, so a second fallback does not move anything. */
  lemma {:induction false} SortOfSortedIsIdentity(s: seq<Candidate>)
    requires NonIncreasing(s)
    ensures SortBySpan(s) == s
  {
    if |s| > 0 {
      SortOfSortedIsIdentity(s[1..]);
    }
  }

  /** Reference definition of the fallback: the position of the first entry
      whose span is the largest in the list. */
  function FirstWidestAt(s: seq<Candidate>): (k: nat)
    requires |s| > 0
    ensures k < |s|
    ensures forall i :: 0 <= i < |s| ==> s[i].span <= s[k].span
    ensures forall j :: 0 <= j < k ==> s[j].span < s[k].span
  {
    if |s| == 1 then 0
    else
      var k := FirstWidestAt(s[1..]);
      if s[0].span >= s[k + 1].span then 0 else k + 1
  }

  /** The head of the sorted list is the first widest entry of the list
      before sorting: ties go to the earlier entry. */
  lemma {:induction false} SortHeadIsFirstWidest(s: seq<Candidate>)
    requires |s| > 0
    ensures SortBySpan(s)[0] == s[FirstWidestAt(s)]
  {
    if |s| > 1 {
      SortHeadIsFirstWidest(s[1..]);
      var sorted := SortBySpan(s[1..]);
      assert sorted[0] == s[1..][FirstWidestAt(s[1..])];
    }
  }

  /** The position of the first entry with extraction index `n`, if any. */
  function FindIndex(s: seq<Candidate>, n: int): (r: Option<nat>)
    ensures r.None? <==> !HasIndex(s, n)
    ensures r.Some? ==> r.value < |s| && s[r.value].idx == n
    ensures r.Some? ==> forall j :: 0 <= j < r.value ==> s[j].idx != n
  {
    if |s| == 0 then None
    else if s[0].idx == n then Some(0)
    else
      match FindIndex(s[1..], n)
      case None =>
        assert forall k :: 1 <= k < |s| ==> s[k] == s[1..][k - 1];
        None
      case Some(k) => Some(k + 1)
  }

  /** The outcome of one selection: the chosen candidate, the candidate list
      as it stands afterwards, and whether the widest-contour fallback ran. */
  datatype Selection = Selection(picked: Candidate, list: seq<Candidate>, fallback: bool)

  /** One selection from the operator's parsed answer (`None` when the answer
      was not a number). */
  function Select(s: seq<Candidate>, choice: Option<int>): (r: Selection)
    requires |s| > 0
    ensures r.fallback <==> choice.None? || !HasIndex(s, choice.value)
    // a matching index: the first entry with that index, list untouched
    ensures !r.fallback ==> r.list == s && r.picked.idx == choice.value
    ensures !r.fallback ==> exists k :: 0 <= k < |s| && s[k] == r.picked
                                    && forall j :: 0 <= j < k ==> s[j].idx != choice.value
    // otherwise: the list is re-ordered by descending span, stably, and its head is taken
    ensures r.fallback ==> r.list == SortBySpan(s)
    ensures r.fallback ==> |r.list| == |s| && r.picked == r.list[0]
    ensures r.fallback ==> r.picked == s[FirstWidestAt(s)]
    ensures r.fallback ==> forall i :: 0 <= i < |s| ==> s[i].span <= r.picked.span
  {
    var found := if choice.Some? then FindIndex(s, choice.value) else None;
    match found
    case Some(k) => Selection(s[k], s, false)
    case None =>
      var sorted := SortBySpan(s);
      SortHeadIsFirstWidest(s);
      Selection(sorted[0], sorted, true)
  }
}
