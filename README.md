# tiy marker tracking and input devices, modelled in Dafny

This project models the core of the *tiy* infrared motion-capture system.

- **Template search.** `MarkerTracking::fit3DPointsToObjectTemplate` finds a marker template in a cloud of triangulated 3D points. It matches edge lengths. The model covers:
  - the template and world edge matrices;
  - the acceptance band and the seed matches;
  - the best-first seed queue;
  - the growth of each seed into a triangle and then pair by pair;
  - the per-count tables of assignments;
  - the weighted choice of how many pairs to keep.
- **Stereo candidates.** `get3DPointsFrom2DPoints` has frame guards and a row-major candidate scan.
- **Segmentation threshold.** `get2DPointsFromImage` builds a sparse histogram and sweeps it for two thresholds and the binarisation level between them.
- **Input latches.** `MouseDevice` and `KeyboardDevice` latch events with OR. `LinuxMouse`, `LinuxKeyboard`, `WindowsMouse` and `WindowsKeyboard` decode events into them.
- **String parsers.** `extract_param_from_xml_line` and the per-line loop of the client's `main`, plus `extract_vid_and_pid`.

There is one module per area:
- `Extended` holds floats with +infinity.
- `EdgeMatches`, `TemplateEdges`, `Assignment`, `TemplateSearch` and `TemplateFit` hold the template search.
- `Stereo`, `Segmentation`, `Mouse`, `Keyboard`, `LinuxInput`, `LinuxMouse`, `LinuxKeyboard`, `WindowsMouse` and `WindowsKeyboard` hold the other areas.
- `Client` holds the client parser, with `Strings` and `Wrappers` as shared helpers.

How the source becomes Dafny:
- The device classes become Dafny classes whose methods modify their fields.
- The readers' `startRead` loops become methods that loop over an explicit sequence of event records or strokes.
- The search loops become methods with loop invariants. Each is proved against a specification function or predicate.
  - `TablesOk` is the table invariant: every finite `best_residuum[k]` is backed by column `k`, which holds `k + 1` distinct pairs whose residual it is.
  - `ExtensionCost` is the cost of a candidate pair.
  - `Candidates` gives the stereo scan.
  - `IsSweepStop` describes each threshold sweep.

Distances (`norm`) are a parameter `dist` with the properties the code relies on: symmetric, non-negative, and zero on equal points. The rigid fit `fitTwoPointSets` is an uninterpreted function parameter, and so is the triangulation of a stereo pair. Floats are reals, and +infinity is the `Inf` of `ExtReal`.

Where the source's own comments suggest other behaviour than its code, the model follows the code:
- **Seed count.** The comment at src/markerTracking/MarkerTracking.cpp:655 says the loop tests `15 + T(T-1)` edges. The loop, however, increments `e` and pops the queue on every iteration while it compares `e` with the shrinking queue size. It therefore processes `min(15 + T(T-1), ceil(S/2))` of the `S` pushed seeds (`TemplateEdges.SeedOrder`).
- **Triangles.** The comment at src/markerTracking/MarkerTracking.cpp:705 says a triangle must be better than the best fit so far. The test skips only a strictly larger residual, so a triangle no worse than the best is stored: a tie replaces the stored assignment, and each accepted triangle is extended.
- **Choosing the count.** The comment at src/markerTracking/MarkerTracking.cpp:860 speaks of preferring more points when the averages are nearly the same. The code starts at four and takes each later count whose average is no larger, so only exact ties favour more pairs; the 1.65 factor per missing pair does the rest (`TemplateFit.MorePairsPreferred`).
- **VID/PID length.** The comment at src/inputDevice/win/WindowsMouse.cpp:23 says the ids have length 3; the code takes 4 characters.

## Model

| member | source | states |
|---|---|---|
| Extended.LeTotal | src/markerTracking/MarkerTracking.cpp:871 | `<=` on finite floats and +infinity is total, so every two averages are comparable |
| Extended.LeTransitive | src/markerTracking/MarkerTracking.cpp:871 | `<=` on finite floats and +infinity is transitive |
| Extended.InfAbsorbs | src/markerTracking/MarkerTracking.cpp:803-806 | adding +infinity gives +infinity, which exceeds every finite bound |
| EdgeMatches.ComparatorIsStrictWeakOrder | src/markerTracking/MarkerTracking.h:49-56 | `edge_match_comp` is irreflexive, asymmetric and transitive, and two matches are unordered by it exactly when their `dist` are equal |
| EdgeMatches.TopIsSmallest | src/markerTracking/MarkerTracking.cpp:577 | an element outranked by no other is exactly one with the smallest `dist` of the queue |
| EdgeMatches.TopExists | src/markerTracking/MarkerTracking.cpp:662 | a non-empty queue has such a top element |
| TemplateEdges.TemplateEdgeMatrix | src/markerTracking/MarkerTracking.cpp:549-564 | the matrix holds `dist` of every two template points; `eMax` is its largest entry, or 0 when there is none larger; `eMin` is the smallest entry off the diagonal, infinite exactly when there are fewer than two points |
| TemplateEdges.EdgeRow | src/markerTracking/MarkerTracking.cpp:555-563 | row `a` holds `dist` from point `a` to every template point; the running largest entry and smallest off-diagonal entry only move to entries of that row |
| TemplateEdges.TemplateEdgesSymmetric | src/markerTracking/MarkerTracking.cpp:552-558 | the template edge matrix is symmetric with a zero diagonal |
| TemplateEdges.AcceptanceBand | src/markerTracking/MarkerTracking.cpp:566-572 | the band is `[max(0, eMin - 20), eMax + 20]` |
| TemplateEdges.TemplateEdgesInBand | src/markerTracking/MarkerTracking.cpp:559-572 | every template edge off the diagonal lies in the band |
| TemplateEdges.WorldEdgesAndSeeds | src/markerTracking/MarkerTracking.cpp:575-600 | the world matrix holds `dist` in its upper triangle and 0 elsewhere; a match is pushed exactly when `a < b` is a world edge in the band, `x < y` a template edge, and their length difference is below 20; the matches are pushed in the loop order of `a`, `b`, `x`, `y` |
| TemplateEdges.LoopOrderNoDuplicates | src/markerTracking/MarkerTracking.cpp:578-597 | matches pushed in strict loop order are pairwise different, so the queue receives each match once |
| TemplateEdges.SeedOrder | src/markerTracking/MarkerTracking.cpp:655-662 | the loop with its `pop()` at :832 takes `min(15 + T(T-1), ceil(S/2))` seeds out of the queue, each one by one with non-decreasing `dist`, none larger than any seed left behind, and all of them from the queue |
| TemplateEdges.Pop | src/markerTracking/MarkerTracking.cpp:662 | `top()` followed by the `pop()` at :832 takes out a seed with no larger `dist` than any seed left, and the seed with the rest left is the queue as a multiset |
| Assignment.Unassigned | src/markerTracking/MarkerTracking.cpp:626-641 | the tables start with every entry -1 |
| Assignment.TriangleValid | src/markerTracking/MarkerTracking.cpp:712-735 | the column the triangle step writes pairs three distinct template points with three distinct world points, with both maps inverse to the index lists and -1 elsewhere |
| Assignment.TrianglePairs | src/markerTracking/MarkerTracking.cpp:723-728 | its index lists start with `x, y, z` and `a, b, c` |
| Assignment.FreeWorldPoint | src/markerTracking/MarkerTracking.cpp:753-757 | a world point whose map entry is negative is not among the paired ones, and so there are more world points than pairs |
| Assignment.FreeTemplatePoint | src/markerTracking/MarkerTracking.cpp:746-750 | a template point whose map entry is negative is not among the paired ones |
| Assignment.ExtendValid | src/markerTracking/MarkerTracking.cpp:810-824 | copying a column and adding an unpaired template and world point keeps it an injective pairing with consistent inverse maps, and appends the pair to both index lists |
| Assignment.ResidualNonNegative | src/markerTracking/MarkerTracking.cpp:699-703 | a residual, a sum of squared edge differences, is never negative |
| Assignment.NewTermsNonNegative | src/markerTracking/MarkerTracking.cpp:759-791 | the terms a new pair adds are never negative |
| Assignment.TriangleResidual | src/markerTracking/MarkerTracking.cpp:699-703 | the residual of three pairs is the sum of the three squared edge differences the triangle step computes |
| Assignment.ExtendResidual | src/markerTracking/MarkerTracking.cpp:803 | the residual of the pairs plus one more is their residual plus the new terms |
| Assignment.SymmetricFromEntries | src/markerTracking/MarkerTracking.cpp:549-558 | a square matrix equal to its transpose entry by entry is symmetric everywhere |
| Assignment.CostMeaning | src/markerTracking/MarkerTracking.cpp:759-792 | `new_residuum` is finite exactly when every edge from the candidate to a paired point is in the band and within 20 of its template edge, and then it is the new residual terms |
| Assignment.CostInfSticks | src/markerTracking/MarkerTracking.cpp:773-789 | once a prefix of the paired points makes `new_residuum` infinite it stays infinite (the breaks) |
| TemplateSearch.SeedIsValid | src/markerTracking/MarkerTracking.cpp:581-595 | every pushed seed names distinct world points `a < b` with an in-band edge and template points `x < y` |
| TemplateSearch.InitialResiduals | src/markerTracking/MarkerTracking.cpp:644-651 | `best_residuum` starts infinite for every count |
| TemplateSearch.InitialTablesOk | src/markerTracking/MarkerTracking.cpp:603-651 | the initial tables satisfy the table invariant |
| TemplateSearch.Cost | src/markerTracking/MarkerTracking.cpp:759-792 | the loop over the paired points with its two breaks computes `ExtensionCost` |
| TemplateSearch.BestExtension | src/markerTracking/MarkerTracking.cpp:740-801 | the result is no larger than the cost of any unpaired pair; when finite it is the cost of an unpaired pair, and every later unpaired pair in loop order costs strictly more (a tie moves to the later pair) |
| TemplateSearch.BestExtensionUnique | src/markerTracking/MarkerTracking.cpp:740-801 | the three properties of the search fix its result: the cost, and when it is finite the pair |
| TemplateSearch.StoreKeepsTables | src/markerTracking/MarkerTracking.cpp:805-824 | storing a backed column and its residual keeps the table invariant |
| TemplateSearch.ExtendBacks | src/markerTracking/MarkerTracking.cpp:803-824 | an accepted cheapest extension of a backed column is a backed column with one pair more, whose residual is the old one plus the cost |
| TemplateSearch.Extend | src/markerTracking/MarkerTracking.cpp:737-827 | the extension loop keeps the table invariant and never increases any `best_residuum[k]`; every step `k` from 3 up to where it stops stored the cheapest extension of column `k - 1` (the last one in loop order among ties), with `best_residuum[k]` the one before plus its cost, within `residuum_max[k]` and no worse than the entry it replaced; the step it stops at has a cheapest extension that fails one of these two tests; entries 0-2 and from the stop on are unchanged |
| TemplateSearch.TriangleBacks | src/markerTracking/MarkerTracking.cpp:695-735 | an admissible triangle, within `residuum_max[2]`, is a backed column of three pairs |
| TemplateSearch.ThreePairsBack | src/markerTracking/MarkerTracking.cpp:691-735 | three valid pairs whose world edges are in the band and whose residual is within `residuum_max[2]` back that residual |
| TemplateSearch.TrySeed | src/markerTracking/MarkerTracking.cpp:665-830 | the loops over `c` and `z` for one seed keep the table invariant and never increase any `best_residuum[k]`; entry 2 afterwards is the fold `BestTriangle` over the seed's triangles in loop order, starting from entry 2 before: the last triangle of least cost among the admissible ones if any is no worse than the entry, else the entry unchanged |
| TemplateSearch.TryTriangles | src/markerTracking/MarkerTracking.cpp:695-829 | the loop over `z` for one seed and one third world point keeps the table invariant and never increases any `best_residuum[k]`; entry 2 afterwards is the fold `BestTriangle` over the triangles `z = 0 .. T - 1` |
| TemplateSearch.VisitTriangle | src/markerTracking/MarkerTracking.cpp:697-735 | one visit of `z`: skipped when `z` is `x` or `y`, when the residual exceeds `residuum_max[2]` or `best_residuum[2]`; otherwise entry 2 becomes this triangle, so entry 2 is `StoreTriangle` of the visit |
| TemplateSearch.AcceptTriangle | src/markerTracking/MarkerTracking.cpp:706-827 | an accepted triangle is stored as entry 2 with its residual, and the extension loop run on it keeps the invariant, never increases an entry and leaves entry 2 as stored |
| TemplateSearch.TriangleStep | src/markerTracking/MarkerTracking.cpp:697-706 | the residual the loop computes is `TriangleCost`, and the triangle is admissible exactly when `z` is neither `x` nor `y` and the residual is within `residuum_max[2]` |
| TemplateSearch.BestTriangleAppend | src/markerTracking/MarkerTracking.cpp:660-833 | the fold over visits one after another is the fold over the second run started from the result of the first |
| TemplateSearch.BestTriangleBound | src/markerTracking/MarkerTracking.cpp:706 | the folded residual is no larger than the start and than the cost of every admissible triangle visited |
| TemplateSearch.BestTriangleWitness | src/markerTracking/MarkerTracking.cpp:706-735 | the fold ends at the start when every admissible triangle costs more, or else at the column of an admissible triangle with every later admissible one strictly worse: the last one of least cost |
| TemplateSearch.SearchTriangleMeaning | src/markerTracking/MarkerTracking.cpp:660-835 | from the initial infinite entry the folded residual is finite exactly when some visited triangle is admissible; it is the least admissible cost, and its column is that of the last admissible triangle with that cost |
| TemplateSearch.SearchAll | src/markerTracking/MarkerTracking.cpp:659-833 | after all seeds the tables satisfy the invariant: each finite `best_residuum[k]` is the residual of the `k + 1` distinct, consistently mapped pairs in column `k`, within `(k+1)*20`; entry 2 is the fold `BestTriangle` over every triangle of every seed in queue order, starting from infinity, so it is finite exactly when some triangle is admissible, no larger than any admissible triangle's residual, and column 2 holds the last admissible triangle in loop order with that residual (a tie replaces) |
| TemplateSearch.FoundNeedsPoints | src/markerTracking/MarkerTracking.cpp:835-842 | a finite `best_residuum[k]` needs at least `k + 1` world points, so with fewer than four `best_residuum[3]` stays infinite |
| TemplateFit.NumEdges | src/markerTracking/MarkerTracking.cpp:848-857 | `num_edges` after step `i` is at least `i` |
| TemplateFit.NumEdgesClosedForm | src/markerTracking/MarkerTracking.cpp:855-857 | `num_edges` after step `i` is `i(i+1)/2`, the number of edges among `i + 1` points |
| TemplateFit.PowPositive | src/markerTracking/MarkerTracking.cpp:859-863 | the factor is positive |
| TemplateFit.MorePairsPreferred | src/markerTracking/MarkerTracking.cpp:859-863 | with equal positive residual per edge, the average for one pair more is strictly smaller |
| TemplateFit.Averages | src/markerTracking/MarkerTracking.cpp:848-867 | `avg_edge_residuum[i]` is infinite for `i = 0` and for infinite residuals, otherwise `best_residuum[i] / num_edges * 1.65^(T-1-i)` |
| TemplateFit.SelectCount | src/markerTracking/MarkerTracking.cpp:869-873 | the chosen count is between 4 and T, its average is no larger than any from index 3 on, and every later average is strictly larger |
| TemplateFit.ChosenCountUnique | src/markerTracking/MarkerTracking.cpp:869-873 | the residuals fix `best_num_corres`: two counts that both meet the choice are equal |
| TemplateFit.PointsAt | src/markerTracking/MarkerTracking.cpp:876-884 | the chosen points are the points at the given indices, in order |
| TemplateFit.NewTermsOfPoints | src/markerTracking/MarkerTracking.cpp:765-791 | the new terms read from the edge matrices are those of the points' distances |
| TemplateFit.ResidualOfPoints | src/markerTracking/MarkerTracking.cpp:699-703 | the residual read from the edge matrices is the residual of the paired points' distances |
| TemplateFit.Gather | src/markerTracking/MarkerTracking.cpp:876-884 | the copy loop gathers exactly the points at the chosen indices |
| TemplateFit.SearchInputs | src/markerTracking/MarkerTracking.cpp:541-662 | the edge matrices hold the points' distances and the template one is symmetric; `eMax` and `eMin` are the extreme template edges and the band is `AcceptanceBand(eMax, eMin)`; the pushed seeds are exactly the matches `IsSeed` admits, in loop order; the order the seed loop works through is `min(15 + T(T-1), ceil(S/2))` of them, by non-decreasing `dist`, none larger than a seed left behind; every one is a seed the search can start from |
| TemplateFit.ChosenAverage | src/markerTracking/MarkerTracking.cpp:869-873 | a count whose average is no larger than that of four pairs has a finite residual, averaged per edge and scaled |
| TemplateFit.ChosenIsBacked | src/markerTracking/MarkerTracking.cpp:876-884 | the chosen column holds the pairs that give its residual |
| TemplateFit.BackedPairs | src/markerTracking/MarkerTracking.cpp:876-884 | the chosen pairs are between 4 and T, in range and distinct on both sides |
| TemplateFit.BackedResidual | src/markerTracking/MarkerTracking.cpp:889 | the stored residual is the residual of the chosen points and within `count * 20` |
| TemplateFit.ChooseAndFit | src/markerTracking/MarkerTracking.cpp:844-889 | the report: distinct chosen pairs, `RT` from the rigid fit of exactly those points, and `avg_deviation` their residual per edge scaled by `1.65^(T - count)`, overwriting the fit's own value; the count is `best_num_corres` of the residuals (`ChosenCount`), the pairs are the first `count` of column `count - 1`, and the deviation is `avg_edge_residuum[count - 1]` |
| TemplateFit.FitTemplate | src/markerTracking/MarkerTracking.cpp:527-889 | unconfigured: nothing changes; fewer than four world points, or no four-pair assignment: the zero pose and infinite deviation; otherwise the report above; once configured, the band, the pushed seeds and the seeds in queue order are those `SearchInputs` states, the search's tables satisfy the invariant with entry 2 the best admissible triangle over those seeds, and a pose is fitted exactly when `best_residuum[3]` is finite, with the count, pairs and deviation that those tables choose |
| Stereo.RowPairs | src/markerTracking/MarkerTracking.cpp:443 | the inner scan visits `(row, 0) ... (row, numRight - 1)` in order |
| Stereo.Filter | src/markerTracking/MarkerTracking.cpp:453 | a pair is kept exactly when it is scanned and its residual is below 5 |
| Stereo.PairsMeaning | src/markerTracking/MarkerTracking.cpp:441-444 | the scan visits every index pair in range exactly once, in row-major order |
| Stereo.FilterOrdered | src/markerTracking/MarkerTracking.cpp:441-462 | the kept pairs stay in scan order |
| Stereo.CandidatesMeaning | src/markerTracking/MarkerTracking.cpp:425-464 | at most 200 candidates, in range, below the residual bound, in scan order; fewer than 200 means every passing pair is a candidate |
| Stereo.NoPairs | src/markerTracking/MarkerTracking.cpp:390-392 | with no left or no right points there is nothing to scan |
| Stereo.ScanCandidates | src/markerTracking/MarkerTracking.cpp:439-464 | the nested scan loop computes the first 200 passing pairs in row-major order |
| Stereo.ScanRow | src/markerTracking/MarkerTracking.cpp:443-463 | the inner loop over the right points of one left point appends exactly the passing pairs of that row while fewer than 200 are kept |
| Stereo.Get3DPointsFrom2DPoints | src/markerTracking/MarkerTracking.cpp:371-523 | empty when unconfigured, when both sides exceed `100 + 10 * templates` points or either side is empty; otherwise one triangulated point per candidate, in candidate order |
| Segmentation.HistogramCounts | src/markerTracking/MarkerTracking.cpp:312-325 | bin `v` counts the samples of grey level `v` |
| Segmentation.Histogram | src/markerTracking/MarkerTracking.cpp:311-326 | the histogram is over exactly the pixels at even rows and even columns |
| Segmentation.SampleRow | src/markerTracking/MarkerTracking.cpp:319-324 | the loop over the even columns of one row adds exactly that row's samples to the histogram, one to the bin of each |
| Segmentation.AboveMonotone | src/markerTracking/MarkerTracking.cpp:331-334 | the count above a level does not grow as the level rises |
| Segmentation.SweepDown | src/markerTracking/MarkerTracking.cpp:331-332 | the sweep stops at the highest level in `[0, 255]` that is 0 or has at least the needed count above it |
| Segmentation.SweepsOrdered | src/markerTracking/MarkerTracking.cpp:331-334 | a larger needed count never stops higher |
| Segmentation.SweepStopUnique | src/markerTracking/MarkerTracking.cpp:331-332 | the stop level is determined by the histogram and the count |
| Segmentation.NeededMonotone | src/markerTracking/MarkerTracking.cpp:331-334 | the needed count `area * W * H / 4` grows with the area |
| Segmentation.ThresholdLevel | src/markerTracking/MarkerTracking.cpp:309-351 | `t_high` and `t_low` are the sweep stops for the minimal and maximal area, the level is the integer `(t_high + t_low) / 2` in `[0, 255]`, and `min_area <= max_area` gives `t_low <= level <= t_high` |
| Strings.FindFrom | src/client.cpp:158 | `find` returns the first occurrence at or after the start position, or npos when there is none |
| Strings.Find | src/client.cpp:145-147 | `find` from the start returns the first occurrence or npos |
| Strings.FindIsFirst | src/inputDevice/win/WindowsMouse.cpp:247 | `find` is determined by the first occurrence |
| Strings.OccursInSuffix | src/client.cpp:150 | an occurrence in `line.substr(cut)` is an occurrence in `line`, shifted |
| Strings.FindInSuffix | src/client.cpp:150-158 | searching a suffix finds the first occurrence after the cut, shifted |
| Strings.FindInSuffixNone | src/client.cpp:157-160 | with no occurrence after the cut, searching the suffix gives npos |
| Client.StripQuotes | src/client.cpp:169-174 | quote stripping never makes a non-empty value empty nor longer |
| Client.ExtractParamFromXmlLine | src/client.cpp:139-181 | a `true` return always carries a non-empty value |
| Client.NoStartTag | src/client.cpp:141-147 | without `<name>` the result is false with an empty value |
| Client.StartTagClose | src/client.cpp:149-154 | for a name without `>` the first `>` after the start tag is its own last character |
| Client.ValueBetweenTags | src/client.cpp:150-177 | the value is the text between the first start tag and the first end tag after it, quotes stripped; an empty one gives false |
| Client.MissingEndTag | src/client.cpp:156-160 | a start tag without a later end tag gives false |
| Client.XmlLineRoundTrip | src/client.cpp:139-181 | extracting from `<name>value</name>` gives the value back, quotes stripped |
| Client.QuoteRoundTrip | src/client.cpp:169-174 | a quoted non-empty value loses exactly its first and last character |
| Client.ShortValueKept | src/client.cpp:169-174 | a value of fewer than three characters, a lone `"` and `""` among them, is kept as it is |
| Client.UnquotedKept | src/client.cpp:167-176 | a value that does not both start and end with `"` is kept as it is |
| Client.SkipSpaces | src/client.cpp:61 | `atoi` skips a prefix of white space and stops at the first other character |
| Client.LeadingDigits | src/client.cpp:61 | `atoi` reads the longest prefix of digits |
| Client.AtoiRoundTrip | src/client.cpp:61-65 | `atoi` reads back every integer printed in decimal |
| Client.ToShort | src/client.cpp:61 | the `(short)` cast gives the 16-bit value congruent modulo 65536 |
| Client.ShortInRangeUnchanged | src/client.cpp:51-61 | a value in the 16-bit range is kept by the cast |
| Client.LastValueMeaning | src/client.cpp:56-71 | the last present value of the lines, absent only when no line holds one |
| Client.LaterLineOverrides | src/client.cpp:56-71 | a later matching line overrides every earlier one |
| Client.OtherLineKeeps | src/client.cpp:56-71 | a line without the parameter keeps the value from the lines before it |
| Client.ReadParam | src/client.cpp:58-70 | one extraction per line turns the last value so far into the last value including that line |
| Client.ReadRunParameters | src/client.cpp:50-81 | after the loop each parameter holds the value of the last line that gives it, -1 or empty otherwise; the check fails exactly when one is missing; debugging is on when `do_output_debug != 0` |
| Mouse.LatchAllMeaning | src/inputDevice/MouseDevice.cpp:64-72 | after a series of updates an event flag is set exactly when it was set or some update carried it, and the status values are those of the last update |
| Mouse.LatchIdempotent | src/inputDevice/MouseDevice.cpp:64-69 | a repeated update changes nothing more: one press and one release per button is buffered |
| Mouse.LatchAbsorbs | src/inputDevice/MouseDevice.cpp:64-72 | an update whose events the next update also carries leaves no trace |
| Mouse.LatchAfterReset | src/inputDevice/MouseDevice.cpp:89-101 | right after a reset the next update is read back exactly |
| Mouse.ClearedMeaning | src/inputDevice/MouseDevice.cpp:89-101 | a reset clears every event flag and keeps the three status values |
| Mouse.MouseDevice.constructor | src/inputDevice/MouseDevice.cpp:12-28 | a new device is closed, every flag false and the wheel at 0 |
| Mouse.MouseDevice.GetStatusSinceLastReset | src/inputDevice/MouseDevice.cpp:31-54 | when open the eight values are copied out, otherwise the outputs keep their values; the device is not changed |
| Mouse.MouseDevice.UpdateStatus | src/inputDevice/MouseDevice.cpp:56-73 | the five event flags are OR-ed in, the three status values overwritten |
| Mouse.MouseDevice.ResetStatus | src/inputDevice/MouseDevice.cpp:89-101 | exactly the five event flags are cleared |
| Mouse.MouseDevice.SetButtons | src/inputDevice/unix/LinuxMouse.cpp:79-84 | the readers set both button states from their buffers and change nothing else |
| Keyboard.LatchAllMeaning | src/inputDevice/KeyboardDevice.cpp:49-51 | after a series of updates a key reads as pressed exactly when it did before or some update pressed it |
| Keyboard.LatchIdempotent | src/inputDevice/KeyboardDevice.cpp:49 | only one press per key is buffered |
| Keyboard.LatchCommutes | src/inputDevice/KeyboardDevice.cpp:50-51 | the order of the presses since the last reset is not kept |
| Keyboard.NoKeysNeutral | src/inputDevice/KeyboardDevice.cpp:43-52 | an update that presses nothing changes nothing |
| Keyboard.KeyboardDevice.constructor | src/inputDevice/KeyboardDevice.cpp:12-22 | a new device is closed with both flags false |
| Keyboard.KeyboardDevice.GetStatusSinceLastReset | src/inputDevice/KeyboardDevice.cpp:25-40 | when open both flags are copied out, otherwise the outputs keep their values; the device is not changed |
| Keyboard.KeyboardDevice.UpdateStatus | src/inputDevice/KeyboardDevice.cpp:43-52 | both flags are OR-ed in |
| Keyboard.KeyboardDevice.ResetStatus | src/inputDevice/KeyboardDevice.cpp:62-71 | both flags are cleared |
| LinuxKeyboard.BuffersMeaning | src/inputDevice/unix/LinuxKeyboard.cpp:67-91 | within a poll SPACE is buffered exactly when some `event_end` was an EV_KEY SPACE key-down (value 1), and ESC likewise |
| LinuxKeyboard.NonKeyPairIgnored | src/inputDevice/unix/LinuxKeyboard.cpp:78-91 | a pair whose `event_end` is not EV_KEY changes nothing |
| LinuxKeyboard.Poll | src/inputDevice/unix/LinuxKeyboard.cpp:67-92 | one poll, with `updateStatus` after every EV_KEY record, latches the poll's buffers into the device |
| LinuxKeyboard.StartRead | src/inputDevice/unix/LinuxKeyboard.cpp:55-96 | the polling loop latches every poll's buffers in turn, and nothing when the device is closed |
| LinuxMouse.LeftParity | src/inputDevice/unix/LinuxMouse.cpp:99-107 | the left button reads as pressed after an odd number of left-button records from released, and vice versa |
| LinuxMouse.WheelMeaning | src/inputDevice/unix/LinuxMouse.cpp:120-126 | the wheel moves by the sum of the wheel records' values, and its flag is set exactly when there was one |
| LinuxMouse.LeftClick | src/inputDevice/unix/LinuxMouse.cpp:99-107 | a press and a release from released record both and end released |
| LinuxMouse.StepKeepsEvents | src/inputDevice/unix/LinuxMouse.cpp:94-128 | a decoded record never clears an event buffer |
| LinuxMouse.LatchStep | src/inputDevice/unix/LinuxMouse.cpp:130-132 | latching the buffers after every pair is latching the last buffers once |
| LinuxMouse.Poll | src/inputDevice/unix/LinuxMouse.cpp:63-133 | one poll sets the button states from the buffers and latches the decoded buffers of its pairs; it returns the button buffers for the next poll |
| LinuxMouse.StartRead | src/inputDevice/unix/LinuxMouse.cpp:55-137 | the polling loop applies every poll in turn, with button buffers that live across polls, and nothing when the device is closed |
| WindowsKeyboard.DecodeScancode | src/inputDevice/win/WindowsKeyboard.cpp:65-81 | ESC is set exactly for scancode 0x01 and SPACE exactly for 0x5e and 0x39 |
| WindowsKeyboard.OtherScancodeIgnored | src/inputDevice/win/WindowsKeyboard.cpp:79-83 | any other scancode still reaches `updateStatus` and changes nothing |
| WindowsKeyboard.ReadStrokesMeaning | src/inputDevice/win/WindowsKeyboard.cpp:54-84 | a key reads as pressed exactly when it did before or a keyboard stroke pressed it |
| WindowsKeyboard.StartRead | src/inputDevice/win/WindowsKeyboard.cpp:51-89 | the stroke loop decodes keyboard strokes only, into fresh buffers per stroke, and nothing when closed |
| WindowsMouse.FieldAfter | src/inputDevice/win/WindowsMouse.cpp:247-254 | a field found is exactly four characters long |
| WindowsMouse.ExtractVidAndPid | src/inputDevice/win/WindowsMouse.cpp:245-266 | on success both ids are exactly four characters long |
| WindowsMouse.IdsAfterFirstTags | src/inputDevice/win/WindowsMouse.cpp:254-263 | the ids are the four characters after the first `VID_` and after the first `PID_` |
| WindowsMouse.VidMissing | src/inputDevice/win/WindowsMouse.cpp:247-253 | without `VID_`, or with fewer than four characters after it, the result is false |
| WindowsMouse.PidMissing | src/inputDevice/win/WindowsMouse.cpp:256-262 | without `PID_`, or too short after it, the result is false and the vid is dropped too |
| WindowsMouse.HardwareIdRoundTrip | src/inputDevice/win/WindowsMouse.cpp:245-266 | a hardware id `HID\VID_vvvv&PID_pppp...` with hexadecimal ids gives the ids back |
| WindowsMouse.Accepted | src/inputDevice/win/WindowsMouse.cpp:97-107 | a stroke is decoded exactly when it comes from a mouse whose hardware id read returned 1 to 999 bytes and whose ids are the configured ones |
| WindowsMouse.LastLeftStrokeWins | src/inputDevice/win/WindowsMouse.cpp:131-140 | the left button buffer is down exactly when the last left-button stroke of the configured mouse was a press |
| WindowsMouse.WheelCounts | src/inputDevice/win/WindowsMouse.cpp:149-151 | the wheel position moves by +1 for each positive rolling and -1 for each other wheel stroke |
| WindowsMouse.OtherDeviceIgnored | src/inputDevice/win/WindowsMouse.cpp:165-166 | a stroke of any other device passes without a trace |
| WindowsMouse.StartRead | src/inputDevice/win/WindowsMouse.cpp:80-168 | the stroke loop latches the decoded buffers of the configured mouse's strokes, and nothing when closed |

## Left out

- Operating-system I/O: `open`, `ioctl` and `read` of the evdev files, the interception contexts, `find_usb_device` and SetupAPI. Event records and strokes are given as sequences instead; a poll's burst is the pairs `read()` returns before it fails.
- Threads, mutexes, `sleep` and debug or profiling output. The readers and the latches run sequentially.
- The conversion of the wide hardware-id string to a narrow one is not modelled; the hardware id is given as a narrow string.
- `fitTwoPointSets` (SVD), the undistortion, `cvCorrectMatches` and triangulation are uninterpreted parameters. The epipolar residual is a function of the index pair.
- Kalman filtering, the configuration file readers, contours and moments, and `debugMatrix` are left out: they are library code, file I/O and printing.
- Floats are modelled as exact reals. Float rounding is not modelled, nor the difference between an integer and a float `abs` where the source applies unqualified `abs` to a float: the stereo scan's residual (src/markerTracking/MarkerTracking.cpp:453), the seed `dist` (:591, TemplateEdges.IsSeed) and the extension's `new_dist` (:783, Assignment.ExtensionCost); all three are modelled with the real absolute value `Abs`.
- TemplateFit.FitTemplate: requires at least four template points once the system is configured. The code indexes `best_residuum[3]` and writes rows 0-2 of the tables unconditionally, which is undefined behaviour for smaller templates. Its template is passed in directly rather than looked up in `object_templates`.
- The assignment tables are modelled column by column: each write of a column is one whole-column value. Rows at and beyond the current count stay -1, as the code leaves them.
- TemplateSearch.TrySeed, TemplateSearch.TryTriangles, TemplateSearch.VisitTriangle, TemplateSearch.AcceptTriangle, TemplateSearch.SearchAll: entry 2 is stated exactly, as the fold over the triangles; the entries from 3 on are stated only as backed by their columns and never increased. The search does not carry `Extend`'s step-by-step account of one triangle's growth through the loops, so it does not say which triangle's extension each later entry came from.
- TemplateFit.FitTemplate, TemplateFit.ChooseAndFit: inherit that gap. Whether a pose is fitted (`best_residuum[3]` finite) and which count `Chosen` keeps are stated in terms of the search's entries from 3 on, and those are only known to be backed by their columns and never increased. So for given points the contract does not fix whether a pose is found, or which count is kept, the way the program does.
- TemplateEdges.SeedOrder: which of several seeds with equal `dist` the heap returns is left open, as `std::priority_queue` does not fix it.
- Client.ReadRunParameters: `atoi` overflow is not modelled, since the model's integers are unbounded; the `(short)` cast of the port is.
- LinuxMouse.Poll: the wheel position is an unbounded integer; `int` overflow is not modelled.
