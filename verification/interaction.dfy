/**
 The interactive routine: filter the traced contours, then repeat rounds of
 select, normalize, fit and render until the operator's answer to "try
 another contour?" is anything other than `s`. The candidate list is state
 threaded through the rounds, since a fallback selection re-orders it for
 every later round.
 */
module Interaction {
  import opened Results
  import opened Geometry
  import opened Candidates
  import opened Selector
  import opened Normalization
  import opened Sampling

  // ---------------------------------------------------------------------------
  // The continue answer

  /** The characters Python's `str.isspace` accepts, which `str.strip` removes. */
  predicate IsSpace(c: char)
  {
    || c == ' '
    || ('\t' <= c <= '\r')
    || ('\U{1C}' <= c <= '\U{1F}')
    || c == '\U{85}' || c == '\U{A0}' || c == '\U{1680}'
    || ('\U{2000}' <= c <= '\U{200A}')
    || c == '\U{2028}' || c == '\U{2029}' || c == '\U{202F}' || c == '\U{205F}'
    || c == '\U{3000}'
  }

  predicate AllSpace(s: string)
  {
    forall i :: 0 <= i < |s| ==> IsSpace(s[i])
  }

  /** Number of whitespace characters at the front of `s`. */
  function LeadingSpaces(s: string): (n: nat)
    ensures n <= |s|
    ensures forall i :: 0 <= i < n ==> IsSpace(s[i])
    ensures n < |s| ==> !IsSpace(s[n])
  {
    if |s| == 0 || !IsSpace(s[0]) then 0 else 1 + LeadingSpaces(s[1..])
  }

  /** Number of whitespace characters at the back of `s`. */
  function TrailingSpaces(s: string): (n: nat)
    ensures n <= |s|
    ensures forall i :: |s| - n <= i < |s| ==> IsSpace(s[i])
    ensures n < |s| ==> !IsSpace(s[|s| - 1 - n])
  {
    if |s| == 0 || !IsSpace(s[|s| - 1]) then 0 else 1 + TrailingSpaces(s[..|s| - 1])
  }

  /** `s` without its leading and trailing whitespace: a contiguous piece of
      `s` with only whitespace cut off on either side, and no whitespace left
      at either end. */
  function Strip(s: string): (r: string)
    ensures LeadingSpaces(s) + |r| <= |s|
    ensures r == s[LeadingSpaces(s)..LeadingSpaces(s) + |r|]
    ensures AllSpace(s[..LeadingSpaces(s)]) && AllSpace(s[LeadingSpaces(s) + |r|..])
    ensures |r| > 0 ==> !IsSpace(r[0]) && !IsSpace(r[|r| - 1])
  {
    var rest := s[LeadingSpaces(s)..];
    rest[..|rest| - TrailingSpaces(rest)]
  }

  /** Lower-casing of one character, as Python's `str.lower` does for ASCII
      letters; other characters are left as they are. */
  function LowerChar(c: char): char
  {
    if 'A' <= c <= 'Z' then (c as int + ('a' as int - 'A' as int)) as char else c
  }

  /** Lower-casing: no upper-case ASCII letter is left, every other
      character is kept, and each upper-case letter becomes its lower-case
      partner. */
  function Lower(s: string): (r: string)
    ensures |r| == |s|
    ensures forall i :: 0 <= i < |r| ==> !('A' <= r[i] <= 'Z')
    ensures forall i :: 0 <= i < |s| ==> (r[i] == s[i] <==> !('A' <= s[i] <= 'Z'))
    ensures forall i :: 0 <= i < |s| && 'A' <= s[i] <= 'Z' ==> r[i] as int - 'a' as int == s[i] as int - 'A' as int
  {
    seq(|s|, i requires 0 <= i < |s| => LowerChar(s[i]))
  }

  /** The loop goes on exactly when the trimmed, lower-cased answer is `s`:
      the trimmed answer is the single character `s` or `S`. */
  predicate Continues(reply: string)
    ensures Continues(reply) <==> |Strip(reply)| == 1 && (Strip(reply)[0] == 's' || Strip(reply)[0] == 'S')
  {
    Lower(Strip(reply)) == "s"
  }

  /** Whitespace up to a non-space character at `k` is exactly the leading run. */
  lemma {:induction false} LeadingSpacesAt(s: string, k: nat)
    requires k < |s| && AllSpace(s[..k]) && !IsSpace(s[k])
    ensures LeadingSpaces(s) == k
  {
    if k > 0 {
      assert s[..k][0] == s[0];
      assert s[1..][..k - 1] == s[..k][1..];
      LeadingSpacesAt(s[1..], k - 1);
    }
  }

  /** A non-space head followed by whitespace only strips to the head. */
  lemma {:induction false} TrailingSpacesAfterHead(s: string)
    requires |s| > 0 && !IsSpace(s[0]) && AllSpace(s[1..])
    ensures TrailingSpaces(s) == |s| - 1
  {
    if |s| > 1 {
      var front := s[..|s| - 1];
      assert s[1..][|s| - 2] == s[|s| - 1];
      assert front[1..] == s[1..][..|s| - 2];
      TrailingSpacesAfterHead(front);
    }
  }

  /** A single `s` or `S` with nothing but whitespace around it. */
  predicate PaddedYes(reply: string, k: int)
  {
    && 0 <= k < |reply| && (reply[k] == 's' || reply[k] == 'S')
    && AllSpace(reply[..k]) && AllSpace(reply[k + 1..])
  }

  /** The answer continues the loop exactly when it is a single `s` or `S`
      with nothing but whitespace around it. */
  lemma ContinuesIff(reply: string)
    ensures Continues(reply) <==> exists k :: PaddedYes(reply, k)
  {
    if Continues(reply) {
      ContinuesIsPadded(reply);
    }
    if exists k :: PaddedYes(reply, k) {
      var k :| PaddedYes(reply, k);
      PaddedContinues(reply, k);
    }
  }

  lemma ContinuesIsPadded(reply: string)
    requires Continues(reply)
    ensures PaddedYes(reply, LeadingSpaces(reply))
  {
    var a := LeadingSpaces(reply);
    var rest := reply[a..];
    var t := rest[..|rest| - TrailingSpaces(rest)];
    assert Strip(reply) == t;
    assert |t| == 1 && LowerChar(t[0]) == 's';
    assert reply[a] == t[0];
    var after := reply[a + 1..];
    forall i | 0 <= i < |after|
      ensures IsSpace(after[i])
    {
      assert after[i] == rest[i + 1];
    }
  }

  lemma PaddedContinues(reply: string, k: int)
    requires PaddedYes(reply, k)
    ensures Continues(reply)
  {
    LeadingSpacesAt(reply, k);
    var rest := reply[k..];
    assert rest[0] == reply[k];
    assert rest[1..] == reply[k + 1..];
    TrailingSpacesAfterHead(rest);
    var t := rest[..1];
    assert Strip(reply) == t;
    assert t == [reply[k]];
  }

  // ---------------------------------------------------------------------------
  // One round

  /** One round of operator input: the parsed index (`None` when the typed
      text is not an integer) and the answer to "try another contour?". */
  datatype Round = Round(choice: Option<int>, reply: string)

  /** What one completed round rendered: the chosen candidate, whether the
      widest-contour fallback chose it, the normalized points that were drawn
      and the number of samples of the fitted curve. */
  datatype Report = Report(picked: Candidate, fallback: bool, points: seq<Point>, samples: nat)

  /** A completed round: the candidate list afterwards and what was rendered. */
  datatype Rendered = Rendered(list: seq<Candidate>, report: Report)

  /** Select, normalize and fit. The curve fitter rejects a chosen contour
      that touches fewer than two columns; that exception ends the routine. */
  function Step(list: seq<Candidate>, round: Round): (r: Result<Rendered, Fault>)
    requires |list| > 0
    ensures r.Failure? <==> |XSet(Select(list, round.choice).picked.points)| < 2
    ensures r.Failure? ==> r.error == SplineRejected
    ensures r.Success? ==>
      var rep := r.value.report;
      && r.value.list == Select(list, round.choice).list
      && rep.picked == Select(list, round.choice).picked
      && rep.fallback == Select(list, round.choice).fallback
    ensures r.Success? ==>
      var rep := r.value.report;
      && XStrict(rep.points)
      && XSet(rep.points) == XSet(rep.picked.points)
      && (forall p :: p in rep.points ==> p in rep.picked.points)
      && rep.samples == OversamplingFactor * |XSet(rep.picked.points)|
  {
    var sel := Select(list, round.choice);
    var pts := Normalize(sel.picked.points);
    FitOfNormalized(sel.picked.points);
    match FitSamples(pts)
    case Failure(e) => Failure(e)
    case Success(n) => Success(Rendered(sel.list, Report(sel.picked, sel.fallback, pts, n)))
  }

  // ---------------------------------------------------------------------------
  // The loop

  /** How the routine ends: the operator declined to go on, the curve fitter
      raised, or the rounds supplied ran out while the loop still waits for
      input. */
  datatype Outcome =
    | Finished(reports: seq<Report>, list: seq<Candidate>)
    | Aborted(reports: seq<Report>, fault: Fault)
    | Waiting(reports: seq<Report>, list: seq<Candidate>)

  /** The candidate list is always in one of two orders: as extracted, or
      widest first after the first fallback. */
  predicate ListState(initial: seq<Candidate>, list: seq<Candidate>)
  {
    list == initial || list == SortBySpan(initial)
  }

  /** The candidate that the answer `choice` designates, stated against the
      list as extracted: a known index designates a candidate with that
      index; anything else designates the first widest candidate. */
  predicate Designates(initial: seq<Candidate>, choice: Option<int>, c: Candidate)
    requires |initial| > 0
  {
    && c in initial
    && (if choice.None? || !HasIndex(initial, choice.value) then c == initial[FirstWidestAt(initial)]
        else c.idx == choice.value)
  }

  /** A rendered round, stated against the list of candidates as extracted:
      the fallback ran exactly when the answer was not a known index; the
      chosen candidate is the one the answer designates and touches at least
      two columns; the drawn points and sample count are those of the chosen
      contour. */
  predicate RoundFaithful(initial: seq<Candidate>, round: Round, rep: Report)
    requires |initial| > 0
  {
    && Designates(initial, round.choice, rep.picked)
    && (rep.fallback <==> round.choice.None? || !HasIndex(initial, round.choice.value))
    && |XSet(rep.picked.points)| >= 2
    && XStrict(rep.points)
    && XSet(rep.points) == XSet(rep.picked.points)
    && (forall p :: p in rep.points ==> p in rep.picked.points)
    && rep.samples == OversamplingFactor * |XSet(rep.picked.points)|
  }

  /** The round's answer designates a candidate that touches fewer than two
      columns, so the curve fitter rejects it. */
  predicate RoundFails(initial: seq<Candidate>, round: Round)
    requires |initial| > 0
  {
    exists c :: c in initial && Designates(initial, round.choice, c) && |XSet(c.points)| < 2
  }

  /** Both orders hold the same candidates, so they know the same indices. */
  lemma SameIndices(initial: seq<Candidate>, list: seq<Candidate>, n: int)
    requires ListState(initial, list)
    ensures HasIndex(list, n) <==> HasIndex(initial, n)
  {
    var sorted := SortBySpan(initial);
    if HasIndex(initial, n) {
      var k :| 0 <= k < |initial| && initial[k].idx == n;
      assert initial[k] in multiset(sorted);
      var j :| 0 <= j < |sorted| && sorted[j] == initial[k];
    }
    if HasIndex(sorted, n) {
      var k :| 0 <= k < |sorted| && sorted[k].idx == n;
      assert sorted[k] in multiset(initial);
      var j :| 0 <= j < |initial| && initial[j] == sorted[k];
    }
  }

  /** Whatever the list's current order, a selection keeps it in one of its
      two orders, runs the fallback exactly when the answer is not a known
      index, and picks the candidate the answer designates in the list as
      extracted. */
  lemma SelectFaithful(initial: seq<Candidate>, list: seq<Candidate>, choice: Option<int>)
    requires |initial| > 0 && ListState(initial, list)
    ensures ListState(initial, Select(list, choice).list)
    ensures Select(list, choice).fallback <==> choice.None? || !HasIndex(initial, choice.value)
    ensures Designates(initial, choice, Select(list, choice).picked)
  {
    var sorted := SortBySpan(initial);
    var sel := Select(list, choice);
    if choice.Some? {
      SameIndices(initial, list, choice.value);
    }
    SortHeadIsFirstWidest(initial);
    if list == sorted {
      SortOfSortedIsIdentity(sorted);
    }
    if !sel.fallback {
      var k :| 0 <= k < |list| && list[k] == sel.picked;
      assert sel.picked in multiset(list);
    }
  }

  /** What the loop promises about its outcome `o` over `rounds`: it stops
      right after the first answer that is not `s`, every earlier answer was
      `s`, and it waits for more input only when every answer was `s`; only
      the spline fault aborts it, in the first round whose answer designates
      an unfittable candidate, so never when every candidate can be
      fitted; every rendered round is faithful to the input it consumed;
      the list stays in one of its two orders. */
  predicate Settled(initial: seq<Candidate>, rounds: seq<Round>, o: Outcome)
    requires |initial| > 0
  {
    && (o.Finished? ==> 1 <= |o.reports| <= |rounds| && !Continues(rounds[|o.reports| - 1].reply))
    && (o.Waiting? ==> |o.reports| == |rounds|)
    && (o.Aborted? ==> |o.reports| < |rounds| && o.fault == SplineRejected
                       && RoundFails(initial, rounds[|o.reports|]))
    && ContinuedBefore(rounds, if o.Finished? then |o.reports| - 1 else |o.reports|)
    && AllFaithful(initial, rounds, o.reports)
    && ((o.Finished? || o.Waiting?) ==> ListState(initial, o.list))
    && (AllFittable(initial) ==> !o.Aborted?)
  }

  /** The loop from the current list over the operator's remaining rounds. */
  function Session(initial: seq<Candidate>, list: seq<Candidate>, rounds: seq<Round>): (o: Outcome)
    requires |initial| > 0 && ListState(initial, list)
    ensures Settled(initial, rounds, o)
    decreases |rounds|, 1
  {
    if |rounds| == 0 then Waiting([], list)
    else
      StepSound(initial, list, rounds[0]);
      Advance(initial, rounds, Step(list, rounds[0]))
  }

  /** The loop once the first of `rounds` has been stepped with result `r`:
      a fault ends it, an answer other than `s` stops it, and `s` goes on
      with the remaining rounds. */
  function Advance(initial: seq<Candidate>, rounds: seq<Round>, r: Result<Rendered, Fault>): (o: Outcome)
    requires |initial| > 0 && |rounds| > 0 && SoundStep(initial, rounds[0], r)
    ensures Settled(initial, rounds, o)
    decreases |rounds|, 0
  {
    match r
    case Failure(e) =>
      AbortSettles(initial, rounds, e);
      Aborted([], e)
    case Success(done) =>
      if !Continues(rounds[0].reply) then
        StopSettles(initial, rounds, done);
        Finished([done.report], done.list)
      else
        var more := Session(initial, done.list, rounds[1..]);
        SessionCons(initial, rounds, done.report, more);
        Prepend(more, done.report)
  }

  lemma AbortSettles(initial: seq<Candidate>, rounds: seq<Round>, e: Fault)
    requires |initial| > 0 && |rounds| > 0 && SoundStep(initial, rounds[0], Failure(e))
    ensures Settled(initial, rounds, Aborted([], e))
  {
  }

  lemma StopSettles(initial: seq<Candidate>, rounds: seq<Round>, done: Rendered)
    requires |initial| > 0 && |rounds| > 0 && SoundStep(initial, rounds[0], Success(done))
    requires !Continues(rounds[0].reply)
    ensures Settled(initial, rounds, Finished([done.report], done.list))
  {
  }

  /** The loop's promise for a continued first round followed by the rest. */
  lemma SessionCons(initial: seq<Candidate>, rounds: seq<Round>, rep: Report, more: Outcome)
    requires |initial| > 0 && |rounds| > 0
    requires Continues(rounds[0].reply) && RoundFaithful(initial, rounds[0], rep)
    requires Settled(initial, rounds[1..], more)
    ensures Settled(initial, rounds, Prepend(more, rep))
  {
    var o := Prepend(more, rep);
    ContinuedOneMore(rounds, if more.Finished? then |more.reports| - 1 else |more.reports|);
    FaithfulOneMore(initial, rounds, rep, more.reports);
    if o.Finished? {
      assert rounds[|o.reports| - 1] == rounds[1..][|more.reports| - 1];
    }
    if o.Aborted? {
      assert rounds[|o.reports|] == rounds[1..][|more.reports|];
    }
  }

  /** Every rendered round is faithful to the round of input it consumed. */
  predicate AllFaithful(initial: seq<Candidate>, rounds: seq<Round>, reports: seq<Report>)
    requires |initial| > 0
  {
    |reports| <= |rounds| && forall k :: 0 <= k < |reports| ==> RoundFaithful(initial, rounds[k], reports[k])
  }

  lemma FaithfulOneMore(initial: seq<Candidate>, rounds: seq<Round>, rep: Report, reports: seq<Report>)
    requires |initial| > 0 && |rounds| > 0
    requires RoundFaithful(initial, rounds[0], rep)
    requires AllFaithful(initial, rounds[1..], reports)
    ensures AllFaithful(initial, rounds, [rep] + reports)
  {
    var all := [rep] + reports;
    forall k | 1 <= k < |all|
      ensures RoundFaithful(initial, rounds[k], all[k])
    {
      assert rounds[k] == rounds[1..][k - 1] && all[k] == reports[k - 1];
    }
  }

  /** Every one of the first `n` answers asked to go on. */
  predicate ContinuedBefore(rounds: seq<Round>, n: int)
  {
    n <= |rounds| && forall j :: 0 <= j < n ==> Continues(rounds[j].reply)
  }

  lemma ContinuedOneMore(rounds: seq<Round>, n: int)
    requires |rounds| > 0 && Continues(rounds[0].reply)
    requires ContinuedBefore(rounds[1..], n)
    ensures ContinuedBefore(rounds, n + 1)
  {
    forall j | 1 <= j < n + 1
      ensures Continues(rounds[j].reply)
    {
      assert rounds[j] == rounds[1..][j - 1];
    }
  }

  /** Puts the report of an earlier round in front of an outcome. */
  function Prepend(o: Outcome, rep: Report): (r: Outcome)
    ensures r.reports == [rep] + o.reports
    ensures r.Finished? == o.Finished? && r.Waiting? == o.Waiting? && r.Aborted? == o.Aborted?
    ensures r.Aborted? ==> r.fault == o.fault
    ensures !r.Aborted? ==> r.list == o.list
  {
    match o
    case Finished(reps, l) => Finished([rep] + reps, l)
    case Aborted(reps, f) => Aborted([rep] + reps, f)
    case Waiting(reps, l) => Waiting([rep] + reps, l)
  }

  /** Every candidate touches at least two columns, so no round can fail. */
  predicate AllFittable(initial: seq<Candidate>)
  {
    forall i :: 0 <= i < |initial| ==> |XSet(initial[i].points)| >= 2
  }

  /** When no round can fail, the loop ends right after the first round
      whose answer is not `s`, having rendered exactly that many rounds. */
  lemma StopsAtFirstDecline(initial: seq<Candidate>, rounds: seq<Round>, k: nat)
    requires |initial| > 0 && AllFittable(initial)
    requires k < |rounds| && !Continues(rounds[k].reply)
    requires forall j :: 0 <= j < k ==> Continues(rounds[j].reply)
    ensures Session(initial, initial, rounds).Finished?
    ensures |Session(initial, initial, rounds).reports| == k + 1
  {
    var o := Session(initial, initial, rounds);
    assert Settled(initial, rounds, o);
  }

  /** When no round can fail and every answer is `s`, the loop renders every
      round and is still waiting for input. */
  lemma KeepsGoing(initial: seq<Candidate>, rounds: seq<Round>)
    requires |initial| > 0 && AllFittable(initial)
    requires forall j :: 0 <= j < |rounds| ==> Continues(rounds[j].reply)
    ensures Session(initial, initial, rounds).Waiting?
    ensures |Session(initial, initial, rounds).reports| == |rounds|
  {
    var o := Session(initial, initial, rounds);
    assert Settled(initial, rounds, o);
  }

  /** Some rendered round ran the widest-contour fallback. */
  predicate AnyFallback(reports: seq<Report>)
  {
    exists k :: 0 <= k < |reports| && reports[k].fallback
  }

  lemma AnyFallbackCons(rep: Report, reports: seq<Report>)
    ensures AnyFallback([rep] + reports) <==> rep.fallback || AnyFallback(reports)
  {
    var all := [rep] + reports;
    assert all[0] == rep;
    if AnyFallback(reports) {
      var k :| 0 <= k < |reports| && reports[k].fallback;
      assert all[k + 1] == reports[k];
    }
    if AnyFallback(all) {
      var k :| 0 <= k < |all| && all[k].fallback;
      if k > 0 {
        assert all[k] == reports[k - 1];
      }
    }
  }

  /** A rendered round leaves the list as it was, unless it fell back, in
      which case the list is the widest-first order of the candidates. */
  lemma StepList(initial: seq<Candidate>, list: seq<Candidate>, round: Round)
    requires |initial| > 0 && ListState(initial, list)
    ensures Step(list, round).Success? ==>
      Step(list, round).value.list
        == if Step(list, round).value.report.fallback then SortBySpan(initial) else list
  {
    if list != initial {
      SortOfSortedIsIdentity(SortBySpan(initial));
    }
  }

  /** The list the loop leaves behind is the list it started from, until the
      first fallback sorts it widest first; later rounds keep that order. */
  lemma {:induction false} SessionList(initial: seq<Candidate>, list: seq<Candidate>, rounds: seq<Round>)
    requires |initial| > 0 && ListState(initial, list)
    ensures var o := Session(initial, list, rounds);
      (o.Finished? || o.Waiting?) ==>
        o.list == if AnyFallback(o.reports) then SortBySpan(initial) else list
    decreases |rounds|
  {
    if |rounds| > 0 {
      StepSound(initial, list, rounds[0]);
      var r := Step(list, rounds[0]);
      if r.Success? {
        var done := r.value;
        StepList(initial, list, rounds[0]);
        if !Continues(rounds[0].reply) {
          AnyFallbackCons(done.report, []);
          assert [done.report] + [] == [done.report];
        } else {
          SessionList(initial, done.list, rounds[1..]);
          var more := Session(initial, done.list, rounds[1..]);
          AnyFallbackCons(done.report, more.reports);
          assert Session(initial, list, rounds) == Prepend(more, done.report);
        }
      }
    }
  }

  /** A round fails only when the chosen contour touches fewer than two columns. */
  lemma StepNeverFails(initial: seq<Candidate>, list: seq<Candidate>, round: Round)
    requires |initial| > 0 && ListState(initial, list)
    ensures AllFittable(initial) ==> Step(list, round).Success?
  {
    var picked := Select(list, round.choice).picked;
    assert picked in multiset(list);
    assert picked in multiset(initial);
    var i :| 0 <= i < |initial| && initial[i] == picked;
    assert AllFittable(initial) ==> |XSet(initial[i].points)| >= 2;
  }

  /** What the loop relies on about one step: a rendered round is faithful
      and keeps the list in one of its two orders, a fault is the spline
      fault raised because the answer designates an unfittable candidate,
      and no fault occurs when every candidate can be fitted. */
  predicate SoundStep(initial: seq<Candidate>, round: Round, r: Result<Rendered, Fault>)
    requires |initial| > 0
  {
    && (r.Success? ==> ListState(initial, r.value.list) && RoundFaithful(initial, round, r.value.report))
    && (r.Failure? ==> r.error == SplineRejected && RoundFails(initial, round))
    && (AllFittable(initial) ==> r.Success?)
  }

  /** One step from either list order is sound for the loop. */
  lemma StepSound(initial: seq<Candidate>, list: seq<Candidate>, round: Round)
    requires |initial| > 0 && ListState(initial, list)
    ensures SoundStep(initial, round, Step(list, round))
  {
    StepNeverFails(initial, list, round);
    SelectFaithful(initial, list, round.choice);
    var c := Select(list, round.choice).picked;
    assert Step(list, round).Failure? ==> Designates(initial, round.choice, c) && |XSet(c.points)| < 2;
  }

  // ---------------------------------------------------------------------------
  // The whole routine

  /** The interactive routine on the traced contours and the operator's
      rounds. With no large contour it fails before any round. Otherwise
      every rendered round shows a large contour with its own statistics; a
      typed index of a large contour picks exactly that contour, whatever
      earlier rounds did to the list order; any other answer picks the
      first widest candidate in extraction order. */
  function Run(contours: seq<Contour>, rounds: seq<Round>): (o: Outcome)
    ensures |o.reports| <= |rounds|
    ensures (o.Aborted? && o.fault == NoLargeContours) <==>
      forall j :: 0 <= j < |contours| ==> !IsLarge(contours[j])
    ensures o.Aborted? && o.fault == NoLargeContours ==> o.reports == []
    ensures !(o.Aborted? && o.fault == NoLargeContours) ==>
      |Filter(contours)| > 0 && Settled(Filter(contours), rounds, o)
    ensures forall k :: 0 <= k < |o.reports| ==>
      var c := o.reports[k].picked;
      c.idx < |contours| && IsLarge(contours[c.idx]) && c == Summarize(c.idx, contours[c.idx])
    ensures forall k :: 0 <= k < |o.reports| ==>
      (o.reports[k].fallback <==> !KnownIndex(contours, rounds[k].choice))
    ensures forall k :: 0 <= k < |o.reports| && KnownIndex(contours, rounds[k].choice) ==>
      o.reports[k].picked == Summarize(rounds[k].choice.value, contours[rounds[k].choice.value])
    ensures forall k :: 0 <= k < |o.reports| && o.reports[k].fallback ==>
      |Filter(contours)| > 0 && o.reports[k].picked == Filter(contours)[FirstWidestAt(Filter(contours))]
  {
    match Collect(contours)
    case Failure(e) => Aborted([], e)
    case Success(cands) =>
      var o := Session(cands, cands, rounds);
      RunFaithful(contours, cands, rounds, o);
      o
  }

  /** The answer is the extraction index of a contour of at least 300 points. */
  predicate KnownIndex(contours: seq<Contour>, choice: Option<int>)
  {
    choice.Some? && 0 <= choice.value < |contours| && IsLarge(contours[choice.value])
  }

  /** Round faithfulness, restated against the traced contours. */
  lemma RunFaithful(contours: seq<Contour>, cands: seq<Candidate>, rounds: seq<Round>, o: Outcome)
    requires cands == Filter(contours) && |cands| > 0
    requires AllFaithful(cands, rounds, o.reports)
    ensures |o.reports| <= |rounds|
    ensures forall k :: 0 <= k < |o.reports| ==>
      var c := o.reports[k].picked;
      c.idx < |contours| && IsLarge(contours[c.idx]) && c == Summarize(c.idx, contours[c.idx])
    ensures forall k :: 0 <= k < |o.reports| ==>
      (o.reports[k].fallback <==> !KnownIndex(contours, rounds[k].choice))
    ensures forall k :: 0 <= k < |o.reports| && KnownIndex(contours, rounds[k].choice) ==>
      o.reports[k].picked == Summarize(rounds[k].choice.value, contours[rounds[k].choice.value])
    ensures forall k :: 0 <= k < |o.reports| && o.reports[k].fallback ==>
      o.reports[k].picked == cands[FirstWidestAt(cands)]
  {
    forall k | 0 <= k < |o.reports|
      ensures var c := o.reports[k].picked;
        c.idx < |contours| && IsLarge(contours[c.idx]) && c == Summarize(c.idx, contours[c.idx])
      ensures o.reports[k].fallback <==> !KnownIndex(contours, rounds[k].choice)
    {
      assert RoundFaithful(cands, rounds[k], o.reports[k]);
      var i :| 0 <= i < |cands| && cands[i] == o.reports[k].picked;
      KnownIndexIsCandidate(contours, cands, rounds[k].choice);
    }
  }

  /** An answer is a known index of the candidate list exactly when it names
      a contour of at least 300 points. */
  lemma KnownIndexIsCandidate(contours: seq<Contour>, cands: seq<Candidate>, choice: Option<int>)
    requires cands == Filter(contours)
    ensures choice.Some? ==> (HasIndex(cands, choice.value) <==> KnownIndex(contours, choice))
  {
    if choice.Some? && HasIndex(cands, choice.value) {
      var i :| 0 <= i < |cands| && cands[i].idx == choice.value;
    }
  }

  /** Over the whole routine: the list the loop leaves behind is the
      candidate list in extraction order, or widest first once any round
      fell back. */
  lemma RunList(contours: seq<Contour>, rounds: seq<Round>)
    ensures var o := Run(contours, rounds);
      (o.Finished? || o.Waiting?) ==>
        |Filter(contours)| > 0
        && o.list == if AnyFallback(o.reports) then SortBySpan(Filter(contours)) else Filter(contours)
  {
    var cands := Filter(contours);
    if |cands| > 0 {
      SessionList(cands, cands, rounds);
    }
  }
}
