# Verification of the benchmark harness

The repository measures how Autoware drives inside CARLA through several transport
approaches, and publishes equivalence verdicts over those measurements. This project
models the algorithms and state machines the verdicts rest on and proves what they
promise. One module follows each source file or component:

| module | what it models |
|---|---|
| `RouteSearch`, `GoalSearch` | Dijkstra with lazy deletion, chain reconstruction, the goal search and its independent checker |
| `Polyline` | arc length, resampling and stations of a route |
| `Lzf`, `Pcd`, `PcdRoundTrip` | the LZF decompressor, the PCD header grammar and payload layouts, reading and writing |
| `ClockFit`, `ClockSlope`, `Window`, `RunWindow` | the least-squares clock fit, projection on the route, the scoring window in both time domains |
| `Arming` | the arming node: callbacks, trimmed deques, the engage reset, the compound decision |
| `Admission`, `Verdict` | which runs enter a duel, the verdict rows, the three-way reconciliation |
| `Kit` | rotation composition and roll/pitch/yaw extraction of the sensor kit |
| `NearestJoin`, `FinalizeRtf`, `Ceiling` | binary-search or single-pass code against its plain definition |
| `Sampler` | CPU accounting over a whole sampling run |
| `Lifecycle` | spawning, tick loops, settings restore and teardown under every placement of failures |
| `Prelude`, `Plane` | result types, planar points and squared distances |

Floating-point values are reals and nanosecond stamps are integers. An angle is a pair
(cosine, sine). `math.dist`, `np.linalg.norm` and `math.hypot` are parameters: any
function whose square is the sum of squares. `heapq.heappop` is any choice of a least
entry. The order returned by `np.argsort`, the pair returned by `np.unique`, the median
and the seeded bootstrap are parameters as well. Spin results, clock reads, simulator
failures and everything a run directory holds are arbitrary inputs. Functions the code
writes as loops are methods proved against a specification function; the lemmas then say
what that function means.

## Findings

Places where the code does not do what its documentation or callers expect. The model
follows the code. For each, the members named state the exact condition, and the
failures of computed values come with an input.

- `lzf_decompress` says a stream that runs out mid-token is refused. A back-reference
  cut short is; a literal run cut short is not, because the slice just comes back
  shorter. `Lzf.TruncatedLiteralIsAccepted` is the smallest such stream, and
  `Lzf.DecodeExactly` and `Lzf.PrefixRefusedIff` say exactly what is accepted.
- `approach_skip_nodes = 0` silences the near-pass gate: `chain[:-0]` is empty, so the
  closest approach is infinite (`GoalSearch.NearPassCaughtIff`;
  `GoalSearch.ZeroSkipHidesNearPass` is a route that passes five metres from its goal).
- One repeated vertex in a route makes every projection NaN, wherever the query point
  is, and empties the spatial window (`Window.ProjectionIsNumberIff`,
  `Window.RepeatedVertexEmptiesWindow`).
- On repeated stamps `_nearest_join` may pick a later copy than the linear scan
  (`NearestJoin.ChoosesLikeLinearScanIff`; `NearestJoin.RepeatedStampDiffers` is one
  such series). On a single stamp it answers index -1 (`NearestJoin.Choose`).
- A simulation and a wall clock that fall against each other turn a window over, unless
  rounding leaves it no width (`RunWindow.WindowOrderedIff`;
  `RunWindow.BackwardClockInverts` is such a recording).
- `_rpy_from_matrix` is documented as the exact inverse of `_rotation_matrix`. Inside the
  band 0 < cos pitch <= 1e-9 it is not, unless the yaw is already 0
  (`Kit.ExtractionInvertsIff`; `Kit.BandLosesYaw` and `Kit.SteepPitchIsLost` are
  rotations that are lost).
- A failed restore at the end of `run_sync_loop` replaces the exception of a failed tick
  (`Lifecycle.TickFailureSurvivesIff`).
- Sensors are destroyed before the ego is braked exactly when a spawn fails after another
  of its batch has succeeded (the clause `CleansUpIff` of `Lifecycle.Run`).

## Model

| member | source | states |
|---|---|---|
| RouteSearch.Dijkstra | benchmarks/scripts/pick_route.py:154-172 | terminates on every finite graph with a positive step and leaves a shortest-path tree: all edges relaxed, every predecessor one edge nearer; the keys are recorded as they are discovered, the source first and never a node nearer than one before it |
| RouteSearch.PopKeeps | benchmarks/scripts/pick_route.py:162-165 | popping any least entry keeps the frontier invariant (every unfinished node has its own fresh entry, all entries within one step of the popped one) |
| RouteSearch.SeenIsClose | benchmarks/scripts/pick_route.py:163-171 | a discovered node is at most one step beyond the level being relaxed, so no later edge improves it and no heap entry goes stale |
| RouteSearch.RelaxFrom | benchmarks/scripts/pick_route.py:166-171 | the inner loop keeps every distance already set, gives each successor one of at most one step more, relaxes every edge of the node and keeps the tree, the frontier and the recorded order |
| RouteSearch.DistancesAreShortest | benchmarks/scripts/pick_route.py:154-172 | the keys of dist are exactly the nodes reachable from the source, and each distance is the step times the fewest edges of any route |
| RouteSearch.RouteBoundsDistance | benchmarks/scripts/pick_route.py:154-172 | no route to a node is shorter than its recorded distance |
| RouteSearch.ChainOf | benchmarks/scripts/pick_route.py:175-181 | following predecessors terminates and returns the chain in source-to-goal order |
| RouteSearch.ChainIsShortestRoute | benchmarks/scripts/pick_route.py:175-181 | the chain is a repeat-free route of real edges from source to goal, (nodes - 1) steps long, no longer than any other route |
| RouteSearch.Wrap | benchmarks/scripts/pick_route.py:203 | a heading change is wrapped into [-180, 180) by a whole number of turns |
| RouteSearch.TurnOfTwo | benchmarks/scripts/pick_route.py:201-204 | the turn of two nodes is the absolute wrapped difference of their headings, the second less the first |
| RouteSearch.TurnAddsUp | benchmarks/scripts/pick_route.py:199-204 | the turns of two stretches that share a node add up |
| RouteSearch.PathStats | benchmarks/scripts/pick_route.py:184-211 | the total wrapped heading change of the chain, and the minimum distance to the goal over the chain without its last skipped nodes (infinite when nothing is left) |
| GoalSearch.VerifyRoute | benchmarks/scripts/pick_route.py:281-323 | the failure list is empty exactly when the goal clears all four gates, and otherwise names each gate missed in order, or unreachability alone |
| GoalSearch.Shortfalls | benchmarks/scripts/pick_route.py:303-322 | each failure is present exactly when its own gate is missed |
| GoalSearch.SelectGoal | benchmarks/scripts/pick_route.py:214-255 | sound, complete and optimal against the checker: a goal is returned iff some reachable non-junction node other than the start clears every gate, and no such node has a lexicographically larger score; the first in discovery order wins ties |
| GoalSearch.EligibleMeans | benchmarks/scripts/pick_route.py:240-249 | which nodes compete: not the start, not a junction, at least the minimum road length, straight-line separation and total turn, and every node of its route before the skipped last ones at least the approach bound away (or the skip is 0) |
| GoalSearch.SelectedIsEligible | benchmarks/scripts/pick_route.py:236-255 | the returned goal competes, and None means that no node does |
| GoalSearch.SelectedStaysFarthest | benchmarks/scripts/pick_route.py:250-252 | no competing node has a larger closest approach, and none with an equal one is farther from the start in a straight line |
| GoalSearch.TiesGoToTheNearest | benchmarks/scripts/pick_route.py:248-252 | no eligible node with the score of the returned goal is fewer edges from the start |
| GoalSearch.ClearedRouteIsHonest | benchmarks/scripts/pick_route.py:281-323 | a cleared goal means: every route to it is at least the minimum length, the reconstructed one is a shortest one without repeats, and outside the final approach it never comes nearer than the bound |
| GoalSearch.NearPassCaughtIff | benchmarks/scripts/pick_route.py:206-211 | the near-pass gate passes exactly when no node before the final approach is too near, or the skip is 0 |
| GoalSearch.ZeroSkipHidesNearPass | benchmarks/scripts/pick_route.py:206-210 | under the default gates and a skip of 0 a route through a node five metres from its goal clears every gate |
| Polyline.CumulativeArcLength | benchmarks/scripts/pick_route.py:93-98 | starts at 0 and grows by the distance between consecutive vertices; an empty line still yields one 0 |
| Polyline.Pieces | benchmarks/scripts/pick_route.py:113 | the number of pieces is the least that keeps each within the spacing |
| Polyline.LerpDistance | benchmarks/scripts/pick_route.py:114-116 | points of a segment at parameters s <= t are (t - s) segment lengths apart |
| Polyline.ResamplePolyline | benchmarks/scripts/pick_route.py:101-117 | every vertex is kept, each segment is cut into equal collinear pieces no longer than the spacing, by the fewest cuts |
| Polyline.VerticesInOrder | benchmarks/scripts/pick_route.py:104-106 | the kept vertices stay in order |
| Polyline.ResamplingKeepsLength | benchmarks/scripts/pick_route.py:101-117 | resampling preserves the total arc length |
| Polyline.RouteStations | benchmarks/scripts/pick_route.py:120-133 | a window is returned exactly when the route is longer than both margins; it starts one margin after the start and ends one margin before the end, so it is never empty or inverted |
| Polyline.StationsSurviveResampling | benchmarks/scripts/pick_route.py:120-133 | the stations of the resampled line are those of the original |
| Lzf.LzfDecompress | benchmarks/scripts/shift_pcd.py:122-182 | the index loop computes the recursive decoder on every input, ending in bytes or an error with no out-of-range read |
| Lzf.LiteralFormat | benchmarks/scripts/shift_pcd.py:157-160 | a control byte below 32 appends the next control + 1 bytes |
| Lzf.ShortCopyFormat | benchmarks/scripts/shift_pcd.py:161-167 | otherwise the top three bits plus two are the length and the low five bits with the next byte the distance less one |
| Lzf.LongCopyFormat | benchmarks/scripts/shift_pcd.py:162-167 | seven in the top bits takes one more byte, added to the length |
| Lzf.CopyStep | benchmarks/scripts/shift_pcd.py:165-177 | a complete reference appends its periodic copy or is refused when it reaches before the output; an incomplete one is refused |
| Lzf.CopyBytes | benchmarks/scripts/shift_pcd.py:175-177 | the byte-by-byte copy appends the periodic extension of what precedes it, overlap included |
| Lzf.CopyReadsItsOwnOutput | benchmarks/scripts/shift_pcd.py:137-141 | every copied byte equals the byte one distance earlier in the grown output |
| Lzf.DecodeMeetsMeaning | benchmarks/scripts/shift_pcd.py:122-182 | the serialisation of any writable token list decodes to exactly its meaning |
| Lzf.AcceptedStreamsParse | benchmarks/scripts/shift_pcd.py:122-182 | conversely every accepted stream is a token list, possibly ending in a cut literal run, and decodes to its meaning |
| Lzf.DecodeExactly | benchmarks/scripts/shift_pcd.py:143-150 | a stream decodes to given bytes if and only if it parses so |
| Lzf.PrefixRefusedIff | benchmarks/scripts/shift_pcd.py:143-150 | cutting the last token short is refused exactly when that token is a back-reference; a cut literal run yields what is left of it |
| Lzf.TruncatedLiteralIsAccepted | benchmarks/scripts/shift_pcd.py:157-160 | the one-byte stream 5 is accepted as empty output |
| Lzf.LiteralRoundTrip | benchmarks/scripts/shift_pcd.py:157-160 | a literal-only encoder round-trips every byte string |
| Pcd.SplitInvertsJoin | benchmarks/scripts/shift_pcd.py:85-92 | reading lines up to DATA inverts joining any header-shaped lines before any payload |
| Pcd.SplitRejoins | benchmarks/scripts/shift_pcd.py:85-92 | the lines and the unread rest together are the file |
| Pcd.SplitIsHeader | benchmarks/scripts/shift_pcd.py:85-92 | only the last line read starts with DATA, and all are ASCII |
| Pcd.ReadHeader | benchmarks/scripts/shift_pcd.py:72-119 | the reading loop and the field checks meet the header specification, with the error of the first check that fails |
| Pcd.AcceptedIffDeclared | benchmarks/scripts/shift_pcd.py:94-119 | a header is accepted with given fields exactly when its FIELDS, SIZE, TYPE and COUNT values are those of a flat layout of 3 or 4 floats, its last line names a supported format and POINTS reads as the count |
| Pcd.FirstLineDecides | benchmarks/scripts/shift_pcd.py:65-68 | the value of a key is that of the first line starting with the key and a space, stripped |
| Pcd.NoLineNoValue | benchmarks/scripts/shift_pcd.py:69 | without such a line the key is reported missing |
| Pcd.StripMeans | benchmarks/scripts/shift_pcd.py:68 | stripping cuts whitespace only, at both ends |
| Pcd.PayloadPlaces | benchmarks/scripts/shift_pcd.py:203-223 | value j of point i is float i * m + j of a binary payload and float j * n + i of a compressed one |
| Pcd.LengthField | benchmarks/scripts/shift_pcd.py:205-206 | a length field is four bytes, least significant first |
| Pcd.DecimalParses | benchmarks/scripts/shift_pcd.py:118 | a decimal point count parses back to the number |
| PcdRoundTrip.RowsRoundTrip | benchmarks/scripts/shift_pcd.py:188-203 | reading the row-major bytes of any float32 matrix gives the matrix |
| PcdRoundTrip.BytesRoundTrip | benchmarks/scripts/shift_pcd.py:188-203 | writing what was read from raw bytes gives the bytes |
| PcdRoundTrip.CompressedPayloadReads | benchmarks/scripts/shift_pcd.py:204-223 | a compressed field-major payload of any matrix reads back as the matrix, not its transpose |
| PcdRoundTrip.LiteralPackingReads | benchmarks/scripts/shift_pcd.py:208 | such a payload exists for every matrix |
| PcdRoundTrip.BinaryFileRoundTrip | benchmarks/scripts/shift_pcd.py:267-277 | writing any matrix under a valid binary header and reading the file returns header and matrix |
| PcdRoundTrip.DowngradedHeader | benchmarks/scripts/shift_pcd.py:259-264 | a read header downgraded to binary differs in its last line only and parses to the same fields with the binary format |
| PcdRoundTrip.CompressedRewrittenAsBinary | benchmarks/scripts/shift_pcd.py:259-277 | a binary_compressed file rewritten as binary reads back as the same matrix under a header whose DATA line alone differs |
| PcdRoundTrip.UnshiftedWriteIsByteIdentical | benchmarks/scripts/shift_pcd.py:267-277 | rewriting a binary file without a shift reproduces its bytes up to the declared payload, so the whole file exactly when nothing follows that payload |
| PcdRoundTrip.MakeHeaderParses | benchmarks/scripts/shift_pcd.py:240-256 | the fresh header for n points is read as n points of 4 binary fields |
| PcdRoundTrip.FreshFileRoundTrip | benchmarks/scripts/shift_pcd.py:240-277 | a file written from scratch reads back as the matrix |
| ClockFit.FitIsLeastSquares | benchmarks/analysis/clockfit.py:29-46 | the fit on shifted data, with its folded intercept, is the unique minimiser of the squared error of the unshifted samples |
| ClockFit.ResidualBoundsEverySample | benchmarks/analysis/clockfit.py:45-46 | the reported residual is the largest distance, above or below, between a wall stamp and the unshifted line at its sample |
| ClockFit.FitExistsIff | benchmarks/analysis/clockfit.py:29-36 | a fit exists exactly for equal lengths of at least 2 with some simulation time differing; the error is raised exactly for bad lengths |
| ClockFit.ConversionsInvert | benchmarks/scripts/duel_verdict.py:295-298 | the two conversions are mutually inverse whenever the slope is not 0 |
| ClockFit.SlopeSignIsCovariance | benchmarks/analysis/clockfit.py:40-41 | the slope is not negative exactly when n times the sum of products is at least the product of the sums, on the unshifted samples |
| ClockSlope.SlopeSign | benchmarks/analysis/clockfit.py:40-41 | for clock series that never go back the slope is not negative, and it is positive exactly when the wall clock advanced (Chebyshev's sum inequality) |
| RunWindow.ResolvedWindowIsOrdered | benchmarks/scripts/duel_verdict.py:312-348 | every resolved window has lo <= hi in both domains, on every arm, given forward clocks and sorted odometry |
| RunWindow.ClosedLoopSpans | benchmarks/scripts/duel_verdict.py:326-337 | the simulation bounds of a closed-loop run are the first and last odometry stamps projected between the two stations of its route and at least 20 s after the first sample; the wall bounds are their rounded images |
| RunWindow.StaticSpans | benchmarks/scripts/duel_verdict.py:338-348 | the wall bounds of any other run are 20 s after the least and exactly the greatest wall stamp of its clock; the simulation bounds are their rounded preimages |
| RunWindow.Round | benchmarks/scripts/duel_verdict.py:346-348 | rounds to a nearest integer, a tie to the even one |
| RunWindow.ConversionIsMonotone | benchmarks/scripts/duel_verdict.py:336-344 | conversion keeps order when the slope allows it |
| RunWindow.WindowOrderedIff | benchmarks/scripts/duel_verdict.py:312-348 | with sorted odometry a resolved window has lo <= hi in both domains exactly when the two clock series do not fall against each other, or rounding leaves no width in one domain |
| RunWindow.BackwardClockInverts | benchmarks/scripts/duel_verdict.py:338-344 | a clock recorded backward for 30 s resolves to a window whose simulation bounds are 10 s and 0 |
| Window.NearestIsNearest | benchmarks/analysis/window.py:38-39 | the clipped projection parameter gives the nearest point of a segment |
| Window.ProjectionIsNearest | benchmarks/analysis/window.py:19-44 | the lateral distance is attained at the returned station, is minimal over every point of every segment, and the station lies within the route |
| Window.ProjectionIsNumberIff | benchmarks/analysis/window.py:33-43 | the projection is a number exactly when no vertex of the route is repeated |
| Window.StationIsLengthWalked | benchmarks/analysis/window.py:42 | the station of a point is the length of the route cut off at that point |
| Window.Project | benchmarks/analysis/window.py:19-44 | the loop fills both arrays with the projections of all query points |
| Window.ArgMin | benchmarks/analysis/window.py:41 | argmin picks the first minimum, and a NaN whenever there is one |
| Window.SpatialWindowIsHull | benchmarks/analysis/window.py:52-62 | for sorted stamps the window is the tight hull of the samples that count, after the warm-up; it is empty exactly when none counts |
| Window.SpatialWindowSpans | benchmarks/analysis/window.py:52-62 | the samples that count are those whose projected station is a number between the start and end stations and whose stamp is at least the warm-up after the first; the window runs from the first to the last of them and is refused exactly when there is none |
| Window.StaticWindow | benchmarks/analysis/window.py:65-68 | the static window drops the warm-up and is refused exactly when nothing would remain |
| Window.RepeatedVertexEmptiesWindow | benchmarks/analysis/window.py:52-62 | on a route with a repeated vertex the spatial window is always empty |
| Arming.OldStampsDoNotCount | benchmarks/injector/arm_and_goal.py:320-336 | stamps older than the window never change the recent count |
| Arming.RecentCountIsCardinality | benchmarks/injector/arm_and_goal.py:320-336 | the recent count is the number of stamps of age 0 up to the window, both ends included |
| Arming.RecentOnTape | benchmarks/injector/arm_and_goal.py:418-455 | on the callbacks of a run that is the number of messages of the topic, in the polls looked at, whose age is within the window |
| Arming.LatestModeMeans | benchmarks/injector/arm_and_goal.py:432-445 | the mode is AUTONOMOUS exactly when the last mode message of the stretch is 2 |
| Arming.ArmedAtMeans | benchmarks/injector/arm_and_goal.py:358-374 | a poll arms exactly when the last mode message since the reset is 2 and at least 15 commands since the reset are at most 3 s old |
| Arming.LocalizedAtMeans | benchmarks/injector/arm_and_goal.py:544-552 | a poll localizes exactly when at least 25 poses are at most 5 s old |
| Arming.ArmableMeans | benchmarks/injector/arm_and_goal.py:521-542 | a wait succeeds exactly when some poll meets its condition and it and every earlier one start before the deadline |
| Arming.ConditionsAreBlindToTrimming | benchmarks/injector/arm_and_goal.py:339-374 | both wait conditions answer alike on a trimmed deque and on the full record |
| Arming.Trim | benchmarks/injector/arm_and_goal.py:538-539 | trimming drops only a prefix of stamps outside the window |
| Arming.ArmAndGoal.SpinOnce | benchmarks/injector/arm_and_goal.py:418-455 | the callbacks of one spin append, overwrite and bound the node's fields so that they stay in step with the record since the reset |
| Arming.ArmAndGoal.WaitForCondition | benchmarks/injector/arm_and_goal.py:521-542 | the wait returns True at the first poll before the deadline at which the condition holds of the full record, and False only once the deadline has passed with none; it terminates |
| Arming.ArmAndGoal.WaitLocalized | benchmarks/injector/arm_and_goal.py:544-552 | True exactly when at some poll in time 25 poses are at most 5 s old |
| Arming.ArmAndGoal.VerifyControlFlowing | benchmarks/injector/arm_and_goal.py:554-580 | True exactly when at some poll in time the latest mode since the reset is AUTONOMOUS and 15 gated commands since the reset are at most 3 s old |
| Arming.ArmAndGoal.ResetAtEngage | benchmarks/injector/arm_and_goal.py:763-796 | the reset clears both terms of the decision and the observability state, and keeps the pose record |
| Arming.ArmAndGoal.Engage | benchmarks/injector/arm_and_goal.py:732-813 | over every interleaving, engage returns True exactly when the record after the reset arms in time; then the latest mode is AUTONOMOUS and at least 15 commands after the reset fall in the last 3 s |
| Arming.VerdictIgnoresThePast | benchmarks/injector/arm_and_goal.py:762-767 | nothing before the reset can change the verdict |
| Arming.SilenceNeverArms | benchmarks/injector/arm_and_goal.py:554-580 | fewer than 15 commands after the reset never arm |
| Arming.SpentBudgetRefuses | benchmarks/injector/arm_and_goal.py:797-798 | a phase that has overrun its budget refuses without a poll |
| Admission.WalkCellRuns | benchmarks/scripts/duel_verdict.py:367-484 | the walk returns the records of the admitted entries in order, the excluded and inadmissible counts, and one error per unreadable manifest |
| Admission.RecordedIffAdmitted | benchmarks/scripts/duel_verdict.py:449-483 | a record is returned exactly when an admitted entry made it |
| Admission.EntersDuelIff | benchmarks/scripts/duel_verdict.py:449-475 | a run enters the records of a duel and arm exactly when its manifest loads, names the arm, is not excluded, is admissible and carries the id a+b, or an empty id in the duel of A and B |
| Admission.CountedInDuelIff | benchmarks/scripts/duel_verdict.py:449-475 | runs of the arm that are excluded, else those that are inadmissible or of another pool, are the ones counted instead |
| Admission.DuelRecordsIff | benchmarks/scripts/duel_verdict.py:449-483 | a record is among those of a duel and arm exactly when an entry with such a manifest made it |
| Admission.WalkConserves | benchmarks/scripts/duel_verdict.py:391-403 | records, excluded, inadmissible, other-arm and errors add up to the tree: nothing is lost or counted twice, and excluded takes precedence |
| Admission.UnadmittedRunsAreInvisible | benchmarks/scripts/duel_verdict.py:449-475 | entries that are not admitted leave the records unchanged, wherever they sort |
| Admission.DuelIdIsInjective | benchmarks/scripts/duel_verdict.py:1232 | duel ids of plus-free first cells determine the pairing |
| Admission.PoolsAreDisjoint | benchmarks/scripts/duel_verdict.py:1232-1233 | a run enters the pool of at most one ordered pairing, and the empty legacy id only that of (A, B) |
| Admission.PoolIsSharedIff | benchmarks/scripts/duel_verdict.py:1232 | another pairing shares the duel id of a pairing exactly when one of its two cell ids contains a plus sign |
| Admission.PlusSignsCollide | benchmarks/scripts/duel_verdict.py:1232 | one such pool, shared by two pairings |
| Verdict.ApplyExtractor | benchmarks/scripts/duel_verdict.py:487-504 | the loop yields the values of the runs whose window and extraction succeed, in order, and the errors of the others |
| Verdict.ExtractionConserves | benchmarks/scripts/duel_verdict.py:487-504 | every record yields a value or an error |
| Verdict.ValueOfOne | benchmarks/scripts/duel_verdict.py:494-502 | a run yields its extractor's value inside its window, or nothing |
| Verdict.ValuesFollow | benchmarks/scripts/duel_verdict.py:491-504 | the values of two stretches of runs follow each other, in order |
| Verdict.VerdictRowOf | benchmarks/scripts/duel_verdict.py:180-251 | a row counts both sides, is insufficient exactly when a side has fewer than 3 values, and otherwise carries the difference of medians, the interval, and the verdict the interval means: parity inside the margin, else the side of zero it lies on |
| Verdict.VerdictAgreesWithMedians | benchmarks/analysis/stats.py:28-36 | a better side has the interval on its side of zero and reaching the margin; whenever the interval covers the difference of medians, the better side has the lower median and parity means the medians are within the margin |
| Verdict.ReconcileDrops | benchmarks/analysis/cadence.py:40-50 | both rates lie in [0, 1], are 0 exactly when nothing was lost, and otherwise are the missing share of what was expected or published; the observer rate is NaN exactly when nothing was published |
| Verdict.BinsOf | benchmarks/scripts/duel_verdict.py:1040-1055 | every record is measurable, not measurable or failed |
| Verdict.MeasurableIff | benchmarks/scripts/duel_verdict.py:843-925 | a run is measurable, with given rates, exactly when it has a window and both counts inside that window's simulation bounds, and the rates are those of these counts; it is not measurable exactly when it has a window and no publisher file |
| Verdict.BinOfOne | benchmarks/scripts/duel_verdict.py:1042-1055 | a run adds its rates, one run not measurable, or its error |
| Verdict.BinsFollow | benchmarks/scripts/duel_verdict.py:1040-1055 | the bins of two stretches of runs follow each other |
| Verdict.ExpectedCount | benchmarks/analysis/cadence.py:53-80 | the number of messages expected in a window is the span in seconds times the rate, rounded, and at least 1 |
| Verdict.CellReconciliationRow | benchmarks/scripts/duel_verdict.py:974-1093 | the counting loop yields the row whose statistics summarise exactly the rates they name; an unusable binding yields no rate at all |
| Verdict.RowSummarises | benchmarks/scripts/duel_verdict.py:1057-1093 | neither maximum is exceeded by a measurable run and each is attained; the observer pair has the printed sample size and is NaN exactly when there are measurable runs and all published nothing |
| Verdict.LoneLossIsNotBuried | benchmarks/scripts/duel_verdict.py:930-936 | no measurable run has a publisher or an observer loss above the reported maximum |
| Verdict.CommonArms | benchmarks/scripts/duel_verdict.py:1166-1177 | the default arms are those both cells register |
| Verdict.CommonArmsKeepOrder | benchmarks/scripts/duel_verdict.py:1166-1177 | they keep the registered order, each once |
| Verdict.AttachFitResidual | benchmarks/scripts/duel_verdict.py:1140-1163 | attaching the fit residual only lengthens the notes |
| Verdict.BuildVerdictTable | benchmarks/scripts/duel_verdict.py:1180-1313 | on every input without an error, each arm and bound margin has exactly one row, whose side a scores the admitted runs of cell A's tree and side b those of cell B's, with delta the median of a less that of b; rows follow the arms and then the margins; with achieved_rate_ratio registered each arm has its reconciliation of cell A, then of cell B, and otherwise there is none; no common arm is the only error |
| Verdict.RowIsOfDuel | benchmarks/scripts/duel_verdict.py:1259-1313 | a row with an unbound side has no values and says insufficient data; any other has the counts, delta, interval and decision of cell A's values against cell B's |
| Verdict.TableKeepsOrder | benchmarks/scripts/duel_verdict.py:1237-1258 | the rows follow the arms, and within an arm the margins |
| Verdict.SkippedRunsAreNamed | benchmarks/scripts/duel_verdict.py:203-213 | a row names the excluded and the inadmissible runs of cell A under A and of cell B under B, with their numbers, exactly where there are any |
| Verdict.WalkErrorsAreListed | benchmarks/scripts/duel_verdict.py:1305-1307 | a row lists an unreadable manifest exactly when it is in one of the two trees |
| Verdict.ShortSidesAreNamed | benchmarks/scripts/duel_verdict.py:214-222 | a row names each side with fewer than the registered runs, and says so when a side has fewer than 3 |
| Verdict.ReconciliationNamesSkipped | benchmarks/scripts/duel_verdict.py:1248-1257 | each reconciliation row names the inadmissible runs of its own cell |
| Verdict.TableScoresOnAdmittedRuns | benchmarks/scripts/duel_verdict.py:1180-1313 | two pairs of trees with the same admitted runs get the same n, deltas, intervals, verdicts and reconciliation rates |
| Verdict.ArmIgnoresOtherRuns | benchmarks/scripts/duel_verdict.py:1237-1313 | the rows and rates of an arm stay the same when runs are added or removed whose manifest does not load, names another arm, is excluded or inadmissible, or carries another duel's id |
| Verdict.OtherRunsChangeNothing | benchmarks/scripts/duel_verdict.py:1180-1313 | adding or removing runs that, for every arm of the table, have such a manifest changes notes only |
| Kit.RotationIsProduct | runner/kit.py:131-140 | the written-out entries are the product of the rotations about z, y and x |
| Kit.AxesTurnRightHanded | runner/kit.py:131-140 | a positive yaw turns x to y, a positive roll y to z and a positive pitch z to x |
| Kit.RotationIsProper | runner/kit.py:131-140 | every built rotation has unit rows, each the cross product of the other two |
| Kit.ProductIsProper | runner/kit.py:161-165 | the product of proper rotations is proper (Cauchy-Binet) |
| Kit.ProductApplies | runner/kit.py:143-165 | the matrix product is composition |
| Kit.ExtractsAngles | runner/kit.py:168-188 | every extraction yields three angles, whatever the matrix |
| Kit.ExtractionInvertsIff | runner/kit.py:168-188 | rebuilding the extracted angles gives the same proper rotation exactly when cos pitch is above 1e-9 or the first column already has yaw 0 |
| Kit.BandLosesYaw | runner/kit.py:179-187 | at a quarter turn of yaw every rotation in the near-singular band is not reproduced |
| Kit.SteepPitchIsLost | runner/kit.py:179-187 | a rotation with cos pitch near 2e-10 that is not reproduced |
| Kit.ExactGimbalInverts | runner/kit.py:184-187 | at cos pitch exactly 0 the gimbal branch loses nothing |
| Kit.PlaceThroughKit | runner/kit.py:147-158 | a point placed through the sensor and the kit transforms lies at the composed position plus the composed rotation of the point |
| Kit.SensorPoseComposesIff | runner/kit.py:147-208 | the reported position and extracted rotation move every point like the two calibration transforms in turn, exactly when the composed rotation is clear of the gimbal band |
| NearestJoin.ChosenIsNearest | benchmarks/analysis/quality.py:62-69 | on sorted stamps the binary search picks a stamp at minimal distance |
| NearestJoin.LinearScan | scripts/e2e/measure_ndt.py:25-31 | the linear scan picks the first of the nearest stamps |
| NearestJoin.ChoosesLikeLinearScanIff | benchmarks/analysis/quality.py:64-68 | on sorted stamps the two choices agree unless the search ends just after a repeated stamp that is at least as near as the next, and never then |
| NearestJoin.RepeatedStampDiffers | benchmarks/analysis/quality.py:64-68 | on stamps 0, 0, 10 and query 1 the join takes the second copy and the scan the first |
| NearestJoin.JoinIsLinearJoin | benchmarks/analysis/quality.py:62-70 | for strictly increasing stamps the join pairs and keeps exactly what the linear scan with the same tolerance does |
| NearestJoin.LinearJoinKeepsIff | benchmarks/analysis/quality.py:69-70 | an entry is kept exactly when some stamp is within tolerance |
| NearestJoin.LinearJoinPairs | benchmarks/analysis/quality.py:66-70 | the pairs kept are in order, each with the stamp the scan chose, at most the tolerance before or after |
| NearestJoin.Join | benchmarks/analysis/quality.py:62-70 | the join fails exactly when there is something to join and nothing to join it to |
| FinalizeRtf.ComputeRtfSeries | benchmarks/sampler/finalize_rtf.py:34-58 | each output is the naive rate over the clock rows of the last second, last minus first, or -1 |
| FinalizeRtf.RtfAtIsRtf | benchmarks/sampler/finalize_rtf.py:46-57 | the two searches delimit exactly the rows of the closed window |
| FinalizeRtf.RtfIsUnique | benchmarks/sampler/finalize_rtf.py:34-58 | for distinct arrivals the naive definition determines the value |
| FinalizeRtf.SteadyClockRate | benchmarks/sampler/finalize_rtf.py:34-58 | on a clock that runs at rate k against the receipts the value is k, 0 for a negative k, and -1 exactly where the last second holds no two receipts at different times |
| FinalizeRtf.RowOrderIsIrrelevant | benchmarks/sampler/finalize_rtf.py:34-58 | for distinct arrivals the order of the clock rows does not matter |
| FinalizeRtf.FinalizeRtf | benchmarks/sampler/finalize_rtf.py:65-95 | the in-place rewrite equals the row-by-row rewrite for any column order and rows of any length that have both cells; it is written exactly then, or when there is no data row |
| FinalizeRtf.OnlyRtfChanges | benchmarks/sampler/finalize_rtf.py:65-95 | for any column order no other cell changes, and rows whose sample cells read as the same instant get equal values |
| FinalizeRtf.RtfCellShowsRate | benchmarks/sampler/finalize_rtf.py:65-95 | the rtf cell of a row shows the naive rate at that row's own sample time |
| FinalizeRtf.FinalizeIsIdempotent | benchmarks/sampler/finalize_rtf.py:65-95 | for any column order a second pass changes nothing |
| Ceiling.SustainedBelow | benchmarks/analysis/ceiling.py:35-53 | for any sample times, True exactly when an unbroken stretch below the threshold, measured from the sample that opens it, lasts the sustain time |
| Ceiling.LongStretchIffDip | benchmarks/analysis/ceiling.py:35-42 | with sorted times that is: two samples at least the sustain time apart have every sample between them, ends included, below the threshold |
| Ceiling.EvaluateCeiling | benchmarks/analysis/ceiling.py:56-104 | each reason is present exactly when its criterion holds, the ceiling is reached exactly when there is a reason, and missing or mismatched series are errors |
| Sampler.ComputeCpuPct | benchmarks/sampler/sample_resources.py:137-150 | the accumulated gain is that of the PIDs present in both samples |
| Sampler.PercentInverts | benchmarks/sampler/sample_resources.py:147-150 | cpu_pct times elapsed times clock ticks over 100 is the gain |
| Sampler.Sampler.Take | benchmarks/sampler/sample_resources.py:472-510 | the per-label dictionaries stay in step with the label's history, and each row is computed against that label's previous sample and real elapsed time |
| Sampler.Run | benchmarks/sampler/sample_resources.py:464-510 | over any run the loop stops exactly at the first reading whose label has not moved on in time, and on what it got through the rows of every label recover exactly the ticks gained between its consecutive samples |
| Sampler.RowsRecoverGain | benchmarks/sampler/sample_resources.py:147-150 | rows of the right form recover the gain of their samples |
| Sampler.GainByPid | benchmarks/sampler/sample_resources.py:137-150 | the gain of a run is the sum of the gains of its PIDs |
| Sampler.PresentPidTelescopes | benchmarks/sampler/sample_resources.py:137-150 | a PID always present gains its last count minus its first |
| Sampler.VanishingPidIsBounded | benchmarks/sampler/sample_resources.py:137-150 | a PID that vanishes and returns gains no more than last minus first |
| Sampler.RunGainIsBounded | benchmarks/sampler/sample_resources.py:137-150 | a run is charged at most the sum over its PIDs of last count minus first count |
| Lifecycle.SpawnSensors | runner/spawn.py:353-388 | either both sensors are spawned and returned, or the ones spawned in this call are destroyed in order and the exception of the failing spawn leaves |
| Lifecycle.SpawnCameras | runner/spawn.py:477-507 | the same for any number of cameras |
| Lifecycle.RunSyncLoop | runner/loop.py:51-97 | the last call re-applies the prior settings whether the ticking ended or raised, unless the fetch or the first switch failed; afterwards the settings are the prior ones unless that call itself raised |
| Lifecycle.TickFailureSurvivesIff | runner/loop.py:84-97 | the exception of a failed tick leaves the loop exactly when the restoring call, which is always made, does not raise; else that call's exception does |
| Lifecycle.RunAsyncLoop | runner/loop.py:100-132 | the world is left asynchronous, with nothing else changed |
| Lifecycle.TearDown | runner/__main__.py:340-358 | brake, then each sensor once in order, then the ego, each tried whatever the others do |
| Lifecycle.Run | runner/__main__.py:313-358 | for every choice of which calls raise, every spawned actor has exactly one destroy attempt, the teardown brakes first and destroys the ego last; a destroy comes before the teardown exactly when a spawn failed after another of its batch had succeeded; teardown failures mask nothing; a sync run leaves the settings as found unless the restoring call raised |
| Lifecycle.SpawningPropagates | runner/spawn.py:381-388 | failures while cleaning up never replace the spawn's own exception |
| Lifecycle.TracksDestroy | runner/__main__.py:349-353 | one destroy call moves exactly its own actor from held to destroyed |

## Left out

- IEEE rounding, overflow and signed zeros: every float is a real number.
- Keyboard interrupts and other exceptions that `except Exception` does not catch; the interrupt handler appears as the number of rounds the loop runs.
- ROS services, publishers and discovery, CARLA client calls and blueprint attributes: they are events, clock reads and failures chosen by the environment.
- `build_graph` and `nearest_node` in pick_route.py: the model starts from the finished graph.
- CSV, JSON and YAML parsing, file hashing, argument parsing, subprocess calls and atomic renames: the model starts from parsed rows.
- The ASCII payload of a PCD file and the translation of points: parsing and adding decimal floats says little over the reals; float32 values are their four bytes.
- The bootstrap, the median and the percentile as algorithms: they are parameters of the verdict.
- The metric extractors and their bindings: any function from a run's files, manifest and window to a value or an error.
- Markdown rendering and the joining of notes: notes are lists of parts.
- Container entries of the sampler (cgroup and GPU readings): the tick accounting of pattern entries is the harder half.
- `evaluate_quality`, `measure_rates`, manifest validation, attribute dictionaries and the CARLA frame conversions: single-branch code.
- The observability fields of the arming node other than the commanded velocities: they feed no decision.
- The C++ extension under extension/src: the subsystems it wires together are not part of the repository's own text.
- Verdict.ReconcileDrops: negative counts, which the source refuses, cannot occur because counts are naturals.
- Verdict.BuildVerdictTable: the footer naming margin metrics without an extractor, because it is report text.
- FinalizeRtf.FinalizeRtf: sample cells that are not integers, and the in-memory rows of a call that raises, which are never written out.
- Arming.ArmAndGoal.WaitForCondition: assumes a clock that never runs back and passes every deadline; the number of polls spent in services before the reset is an arbitrary number.
- Lifecycle.RunSyncLoop: on_tick callbacks that change the world's settings themselves.
