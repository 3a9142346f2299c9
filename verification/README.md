# Contour selection and spline preparation: a Dafny model

This project models the data-handling core of an interactive contour picker.
The tool traces the outer contours of an edge image, keeps those with at least
300 points as candidates, and lets an operator pick one by its extraction
index. If the answer is not a known index, it falls back to the widest
candidate. The chosen contour's points are sorted by column and reduced to one
point per column. A cubic spline is then fitted through them and sampled at
three samples per point. Rounds repeat while the operator answers `s` to "try
another contour?".

The model works on integer pixel points (`Geometry.Point`). A traced contour is
a sequence of points. The operator's input is given as already-parsed values:
an `Option<int>` for the index (`None` when the text is not an integer) and the
raw reply string. The pipeline is a chain of pure functions:

- `Candidates.Filter` / `Candidates.Collect`: keep contours of at least
  `MinPoints` (300) points, with their extraction index, horizontal span,
  minimum row and the sum of rows (the mean row is kept as the exact pair
  sum / count). Fail with `NoLargeContours` when none qualifies.
- `Selector.Select`: an index that is in the list picks the first candidate
  with that index, and the list is left as it is. Anything else sorts the list
  in place by descending span. The sort is stable (`Selector.SortBySpan`), and
  its head is taken.
- `Normalization.Normalize`: sort by column, then keep the first point of each
  run of equal columns.
- `Sampling.FitSamples`: the spline solver accepts at least two strictly
  increasing columns. The sample count is `3 × points`. `Sampling.InterpolateCount`
  models the stand-alone helper with its `factor` argument.
- `Interaction.Step`, `Interaction.Session`, `Interaction.Run`: the loop. The
  candidate list is state threaded from round to round. A fallback re-orders
  the list for all later rounds; it is always either in extraction order or
  widest first (`Interaction.ListState`).

Modules: `Results` (Option, Result, the two fatal faults), `Geometry`,
`Candidates`, `Selector`, `Normalization`, `Sampling`, `Interaction`, one file
each.

The column sort uses `np.argsort` with its default algorithm, which is not
stable (src/utils.py:78). So which point of a repeated column survives is not
fixed. `Normalization.SortByX` picks one admissible order, and
`Normalization.Dedup` is specified for any column-sorted input.
`Normalization.AnyColumnOrder` shows that the kept columns do not depend on
that order; only the row kept for a repeated column may differ.

## Model

| member | source | states |
|---|---|---|
| Geometry.Span | src/utils.py:36-38 | The horizontal span is never negative. No two points of the contour are further apart in column, and some two points are exactly that far apart. |
| Geometry.MinY | src/utils.py:37-40 | The minimum row is at most every row of the contour and is the row of one of its points. |
| Geometry.MinYAtMostMean | src/utils.py:39-40 | Minimum row × point count ≤ sum of rows, i.e. the minimum row never exceeds the mean row. |
| Geometry.LowerBoundTimesCount | src/utils.py:39-40 | A lower bound of every value, counted once per value, is at most the values' sum. |
| Candidates.Summarize | src/utils.py:36-41 | A candidate record keeps the contour's index and points, and its span, minimum row and row sum are exactly those of the contour. The span bounds every column distance and the minimum row bounds every row. |
| Candidates.FilterFrom | src/utils.py:33-41 | The scan over the contours from a start index yields at most one candidate per contour scanned; its soundness, order and completeness are the three lemmas below. |
| Candidates.FilterFromSound | src/utils.py:33-41 | Scanning from a start index, every entry is the summary of the contour of at least 300 points that its index names. |
| Candidates.FilterFromOrdered | src/utils.py:33-35 | Scanning from a start index, every entry's index is at or after the start, and indices strictly increase. |
| Candidates.FilterFromComplete | src/utils.py:33-35 | Scanning from a start index misses no contour of at least 300 points at or after the start. |
| Candidates.Filter | src/utils.py:33-41 | Contour j is a candidate iff it has at least 300 points. Candidates keep extraction order and carry their own statistics. The list is empty iff no contour has 300 points. |
| Candidates.Collect | src/utils.py:43-45 | The filter fails, with the no-large-contours fault, exactly when no contour has 300 points. Otherwise it returns the non-empty candidate list. |
| Selector.InsertBySpan | src/utils.py:66 | Inserting into a list ordered by descending span keeps that order and adds exactly one copy of the new entry. |
| Selector.SortBySpan | src/utils.py:66 | The in-place sort by descending span yields a permutation of the list whose spans never increase. |
| Selector.InsertKeepsTies | src/utils.py:66 | Inserting an entry in front of entries of equal span keeps their relative order. |
| Selector.SortIsStable | src/utils.py:66 | Stability: for every span value, the entries with that span keep their relative order in the sorted list. |
| Selector.SortOfSortedIsIdentity | src/utils.py:66-67 | Sorting a list already in descending-span order leaves it unchanged, so a repeated fallback moves nothing. |
| Selector.FirstWidestAt | src/utils.py:62-67 | Reference for the fallback: a position holding the largest span, with every earlier entry strictly narrower. |
| Selector.SortHeadIsFirstWidest | src/utils.py:66-67 | The head of the sorted list is the first widest entry of the list before sorting: ties go to the earlier entry. |
| Selector.FindIndex | src/utils.py:61 | Finds the first position carrying a given extraction index, or none exactly when no entry carries it. |
| Selector.Select | src/utils.py:58-67 | The fallback runs iff the answer is not a number or matches no candidate. A matching index picks the first entry with that index and leaves the list unchanged. Otherwise the list becomes its stable sort, whose head is the first widest candidate, as wide as any. |
| Normalization.InsertByX | src/utils.py:78-80 | Inserting into a column-sorted sequence keeps it sorted and adds exactly one copy of the point. |
| Normalization.SortByX | src/utils.py:78-80 | Ordering by column yields a permutation of the points with non-decreasing columns. |
| Normalization.Dedup | src/utils.py:83-84 | On a column-sorted sequence, the result has strictly increasing columns and exactly the input's columns. Each kept point is the first point of the sorted input in its column. |
| Normalization.Normalize | src/utils.py:74-84 | The normalized points have strictly increasing columns and exactly the columns of the contour. Every kept point is a point of the contour. |
| Normalization.NormalizeFixesStrict | src/utils.py:78-84 | A point sequence whose columns already strictly increase is returned unchanged. |
| Normalization.NormalizeIdempotent | src/utils.py:78-84 | Normalizing twice gives the same result as normalizing once. |
| Normalization.StrictColumnCount | src/utils.py:83-84 | Points with strictly increasing columns occupy exactly as many columns as there are points. |
| Normalization.NormalizeCount | src/utils.py:83-86 | The number of points kept (the count reported to the operator) equals the number of distinct columns of the contour. |
| Normalization.StrictSameColumns | src/utils.py:83-84 | Two strictly increasing point sequences over the same set of columns list the same columns at the same positions. |
| Normalization.AnyColumnOrder | src/utils.py:78-84 | Whatever order the sort gives points of equal column, deduplication keeps the same columns at the same positions as the model's normalizer. Every kept point is a contour point. |
| Sampling.InterpolateCount | src/utils.py:126-131 | The helper succeeds iff the solver accepts the input (≥ 2 strictly increasing columns, one row each) and the factor is non-negative. It then returns factor × points samples. A refused input is reported before a negative count. |
| Sampling.FitSamples | src/utils.py:89-91 | On normalized points, fitting succeeds iff at least two points remain. It then draws exactly 3 × points samples (at least 6). Otherwise it raises the spline fault. |
| Sampling.FitOfNormalized | src/utils.py:83-91 | After normalization, fitting fails iff the contour touches fewer than two columns. Otherwise it draws 3 samples per distinct column. |
| Sampling.FitAgreesWithHelper | src/utils.py:89-91 | The interactive routine accepts and counts samples exactly as the stand-alone helper with its default factor 3 does. |
| Interaction.Strip | src/utils.py:117-118 | The trimmed reply is a contiguous piece of the reply with only whitespace cut off on either side, and with no whitespace left at either end. |
| Interaction.Lower | src/utils.py:117-118 | Lower-casing keeps the length, leaves no upper-case ASCII letter, keeps exactly the characters that are not upper-case letters, and turns each upper-case letter into its lower-case partner. |
| Interaction.Continues | src/utils.py:117-120 | The loop goes on iff the trimmed reply is the single character `s` or `S`. |
| Interaction.ContinuesIff | src/utils.py:117-120 | The loop continues iff the reply is a single `s` or `S` with only whitespace on either side. That is, iff the trimmed, lower-cased reply is `s`. |
| Interaction.Step | src/utils.py:58-92 | A round fails, with the spline fault, iff the selected contour touches fewer than two columns. Otherwise it renders the selection's pick with strictly increasing, column-complete points taken from the contour, and 3 samples per distinct column. |
| Interaction.SelectFaithful | src/utils.py:58-67 | In either list order, a selection leaves the list in extraction order or widest first, falls back iff the answer is not a known index, and picks a candidate with the typed index, or else the first widest candidate in extraction order. |
| Interaction.StepSound | src/utils.py:58-91 | A step from either list order either renders the candidate its answer designates, which touches at least two columns, with the list left in extraction order or widest first, every drawn point a point of the chosen contour, and the samples its own; or it raises the spline fault because that candidate touches fewer than two columns. It never fails when every candidate touches two columns. |
| Interaction.StepNeverFails | src/utils.py:89 | If every candidate touches at least two columns, no round can fail. |
| Interaction.Session | src/utils.py:55-120 | The loop stops right after the first round whose reply is not `s`; every earlier reply was `s`. If replies run out, all were `s` and the loop waits. The spline fault aborts in the first round whose answer designates a candidate with fewer than two columns, before its reply is read. Every rendered round is faithful to its input (the drawn points are points of the chosen contour), and the list stays in one of its two orders. |
| Interaction.Advance | src/utils.py:89-120 | After one step of the loop: a failed step aborts, in that round, before its reply is read; a reply other than `s` ends the loop with that round last; `s` goes on, and the whole keeps the loop's promise over all rounds. |
| Interaction.ContinuedOneMore | src/utils.py:117-120 | If the first reply continues and the next n replies continue, then the first n + 1 replies continue. |
| Interaction.FaithfulOneMore | src/utils.py:55-69 | Faithful rounds stay faithful when an earlier faithful round is put in front. |
| Interaction.StopsAtFirstDecline | src/utils.py:116-120 | When no round can fail, the loop ends after exactly k + 1 rounds, where k is the first reply that is not `s`. |
| Interaction.KeepsGoing | src/utils.py:55-56 | When no round can fail and every reply is `s`, every round is rendered and the loop still waits for input. |
| Interaction.Run | src/utils.py:23-120 | The run fails before any round iff no contour has 300 points. Otherwise the loop's promise holds over the candidates, and every drawn point is a point of the rendered contour. Every rendered contour is large and carries its own statistics. A round falls back iff its answer is not the index of a large contour. Typing such an index picks that contour whatever earlier rounds did to the order; any other answer picks the first widest candidate. |
| Interaction.RunFaithful | src/utils.py:58-67 | Round faithfulness, stated against the traced contours: picks are summaries of large contours, a round falls back iff its answer is not the index of a large contour, known indices are honoured, and a fallback picks the first widest candidate. |
| Interaction.AnyFallbackCons | src/utils.py:62-67 | Some round of a prepended sequence fell back iff the new round did or some later one did. |
| Interaction.StepList | src/utils.py:61-67 | A rendered round leaves the list untouched when its answer matched, and leaves it widest first when it fell back, whichever order it had before. |
| Interaction.SessionList | src/utils.py:55-120 | When the loop ends or waits, the list is the one it started with if no round fell back, and the widest-first order of the candidates otherwise: the sort persists across rounds. |
| Interaction.RunList | src/utils.py:33-120 | Over the whole routine: when the loop ends or waits, the list is the candidates in extraction order if no round fell back, and widest first otherwise. |
| Interaction.KnownIndexIsCandidate | src/utils.py:33-61 | An answer matches a candidate's index iff it is the index of a contour of at least 300 points. |

## Left out

- Image loading and edge detection (`detectar_bordes`, src/utils.py:10-17): file I/O and a call into the vision library. The load-failure exception is not modelled.
- Contour tracing (src/utils.py:26-27): the traced contours are an input of `Interaction.Run`; the tracing algorithm is the library's.
- The candidate table, the banner and every other printed message (src/utils.py:30, 47-53, 63, 70-71, 86, 113): terminal output only.
- Plotting, saving to `resultado_spline.png` and showing the figure (src/utils.py:94-114): rendering side effects only. A rendered round is a `Report`.
- Spline values and sample positions (src/utils.py:89-92, 128-130): floating-point numerics of the spline solver and of `linspace`. Only the solver's acceptance conditions and the sample count are modelled.
- The mean row (src/utils.py:39): a float mean, kept exactly as the pair (sum of rows, point count).
- Parsing the typed index with `int(...)` (src/utils.py:59-60): the model receives the parsed value, or `None` for text that is not an integer.
- Interaction.Lower: lower-casing is modelled for ASCII letters only; letters outside ASCII keep their case, where Python's `str.lower` would map them too. The continue test only compares with `s`, which no other character lower-cases to.
- Interaction.ContinuesIff: lower-casing is modelled for ASCII letters only; the other case mappings of Python's `str.lower` are not modelled. For this test the difference does not matter: no other character lower-cases to `s`, and `str.lower` never shortens a string, but that is an argument about Python's case tables and is not proved here.
- Machine integer width: coordinates and spans are unbounded integers. Image coordinates are small enough that the 32-bit arithmetic of the source does not wrap.
- src/main.py: a fixed image path and a catch-all handler that prints the error (src/main.py:15-23). The two faults of the interactive routine are `Results.Fault`; the image-load failure of `detectar_bordes` (src/utils.py:14-15) also reaches that handler and is not modelled.
- End of input: `input()` raises on a closed input stream (src/utils.py:59-60, 117-118), and neither handler catches it specially. The model has no such event; when the rounds supplied run out, the outcome is `Waiting`.
