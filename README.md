# go-graphite-metrics, modelled in Dafny

The program asks a Graphite time-series store for the servers under a fixed
root, then for each server the metrics under its `snmp` subtree, then for each
metric the samples of the last seven days. It reduces the samples of each
metric, all series of its range answer together, to one count, sum, average,
maximum, minimum and standard deviation, and prints a report: one single-key
map per server whose metric list succeeds, in discovery order, from the server
name to a map from metric label to statistics.

The model keeps the program's three pieces of logic and replaces every remote
call by its outcome, given as an input:

- `paths.dfy` (module `Paths`): `strings.Split(path, ".")` with the round trip
  through `Join`, and the label `LastSegment`, defined as the text after the
  last dot and proved equal to the last piece of the split, which is what the
  source reads.
- `statistics.dfy` (module `Statistics`): `calculateStatistics` as a method
  with the source's nested loops and running accumulators, proved equal to
  `Reduce(Values(series))`; lemmas state what that value means for the points.
- `discovery.dfy` (module `Discovery`): the loops of `fetchServerList` and
  `fetchMetricsList` that turn a decoded discovery answer into server names
  and metric paths.
- `walker.dfy` (module `Walker`): the server and metric loops of `main` as the
  method `Run`, proved equal to the recursive `Report`/`ServerStats`; lemmas
  state the skip, order, one-entry-per-server and last-write-wins behaviour.
  The lemmas about one server's map hold for any outcome of each metric path
  (`Outcomes`); `Run` uses the outcome of the range query followed by the
  reduction (`RenderOutcomes`).
- `results.dfy` (module `Results`): the `(value, error)` pair as `Result`.

The three remote calls are the parameters `discovery` (the answer to the
server query), `listing` (server name to its metric query's answer) and
`render` (metric path to its decoded range query). Each is either a decoded
value or an `Error`.

The model follows the code on two points:

- Null sample values are not excluded. The code reads `point[0]` directly, and
  a JSON `null` decodes to `0`. A value in the model is the decoded number.
- The code takes `math.Sqrt` of the variance without clamping it at zero
  (main.go:157-158). The standard deviation is not modelled at all (see below).

## Model

| member | source | states |
|---|---|---|
| Paths.Split | main.go:65 | there is always at least one piece and no piece holds a dot; a dot-free path is its only piece, and a dotted one has several |
| Paths.SplitCount | main.go:65 | there is one more piece than there are dots |
| Paths.JoinSplit | main.go:65 | joining the pieces of a path with dots gives the path back |
| Paths.SplitJoin | main.go:65 | splitting the dotted join of dot-free pieces gives the pieces back |
| Paths.LastSegmentIsDotFreeTail | main.go:207-208 | the label has no dot, ends the path, and is preceded by a dot when shorter than the path: it is the longest dot-free suffix |
| Paths.DotFreeTailIsUnique | main.go:207-208 | only one suffix of a path is dot-free and either the whole path or preceded by a dot |
| Paths.LastSegmentIsLastPiece | main.go:65-66 | the split always has a last piece, so `parts[len(parts)-1]` never fails, and that piece is the label |
| Paths.UndottedIsItsOwnLabel | main.go:65-66 | a path with no dot is its own label |
| Paths.LabelAfterLastDot | main.go:207-208 | whatever precedes the last dot, the label is the dot-free text after it |
| Paths.LabelsCollide | main.go:207-208 | the distinct paths `a.b.cpu` and `x.y.cpu` both get label `cpu` |
| Statistics.MaxIsAttainedBound | main.go:142-144 | the running maximum seeded from the first value is a value of the input and is at least every value |
| Statistics.MinIsAttainedBound | main.go:145-147 | the running minimum seeded from the first value is a value of the input and is at most every value |
| Statistics.ValuesLength | main.go:137-148 | the reduction visits exactly as many values as there are points over all series |
| Statistics.ValuesArePointValues | main.go:137-139 | the visited values are exactly the first components of the points |
| Statistics.SumConcat | main.go:140 | the running sum over two consecutive stretches is the sum of their sums |
| Statistics.RunningSumIsSumOfSeriesSums | main.go:137-140 | the one running sum kept across all series of a metric equals the total of the per-series sums |
| Statistics.Accumulate | main.go:140-148 | one step adds the value to the sum and replaces max (min) only when it is the first value or strictly greater (smaller) |
| Statistics.ReduceFailsIffNoPoints | main.go:152-154 | the reduction fails with the no-data error, and gives no record, exactly when there is no point at all |
| Statistics.ReduceCountsEveryPoint | main.go:137-156 | with at least one point, the reduction succeeds; its count is the number of points over all series, its sum is the sum of every point's value in visiting order, and its average is that sum over the number of points |
| Statistics.ReduceBoundsEveryPoint | main.go:142-147 | the minimum and maximum bound the value of every point of every series |
| Statistics.ReduceExtremesOccur | main.go:142-147 | the maximum and the minimum are each the value of some point |
| Statistics.AllNegativeHasNegativeMaximum | main.go:142-144 | when every value is negative the maximum is negative, not zero |
| Statistics.ReduceSmallExamples | main.go:152-167 | no values give the no-data error; `[5]` gives count 1 and 5 in every other field |
| Statistics.ReduceOneToFour | main.go:137-167 | `[1,2,3,4]` gives count 4, sum 10, average 2.5, max 4, min 1 |
| Statistics.CalculateStatistics | main.go:134-167 | the nested accumulator loops return exactly `Reduce` of the visited values |
| Discovery.FetchServerList | main.go:63-69 | a failed query is passed on; otherwise the result is `ServerNames` of the entries: one name per entry, in order, each the label of the entry's path |
| Discovery.FetchMetricsList | main.go:98-103 | a failed query is passed on; otherwise the result is `MetricPaths` of the entries: their paths unchanged and in order |
| Walker.SurvivingIndices | main.go:185-190 | the positions of the servers whose metric list succeeds, strictly increasing, and every such position |
| Walker.ReportFollowsSurvivors | main.go:185-213 | one report entry per server whose metric list succeeds, in discovery order, each mapping that server alone to its statistics map, even an empty one |
| Walker.ReportKeys | main.go:185-213 | a server appears in the report exactly when it was discovered and its metric list succeeds |
| Walker.ServerStatsKeyWritten | main.go:194-210 | every key of a server's map was written by a successful metric with that label |
| Walker.ServerStatsKeyPresent | main.go:194-210 | every successful metric leaves its label as a key, whatever follows it |
| Walker.ServerStatsKeys | main.go:194-210 | a label is a key of the server's map exactly when some metric with that label was fetched and reduced successfully |
| Walker.ServerStatsLastWriteWins | main.go:207-210 | the value under a label is the statistics of the last successful metric with that label |
| Walker.CollisionKeepsLater | main.go:207-210 | two successful metrics with one label leave one key, holding the second one's statistics |
| Walker.OneFailedMetric | main.go:194-210 | with one failing and one succeeding metric the map has exactly the succeeding one's label |
| Walker.Run | main.go:177-214 | a failed server discovery fails the run with no report; otherwise the nested loops return exactly `Report` of the discovered server names |

## Left out

- HTTP requests, URL formatting, status checks and body reading (main.go:37-53, 72-88, 106-125): network I/O. Each call's outcome is an input, a `Result` whose `Error` names the failing step.
- JSON decoding (main.go:55-61, 90-96, 128-132): library calls. A decode failure is one more `Error` of the same input; the JSON decode of the range answer inside `calculateStatistics` is folded into the `render` input.
- Printing the report (main.go:216-222): `Run`'s success means the loops produced `Report`, not that a report is printed. `json.MarshalIndent` rejects NaN and infinities, and the unclamped `math.Sqrt` at main.go:157-158 gives NaN whenever rounding makes the variance slightly negative (for example three samples that are all `0.1`), in which case the program exits with status 1 and prints no report. When no server's metric list succeeds, `output` (main.go:183) is a nil slice and the program prints `null`; the model gives `Success([])` for that case and does not tell the two apart.
- Variance and standard deviation (main.go:141, 157-158): floating-point cancellation and `math.Sqrt` cannot be modelled faithfully. `MetricStatistics` has no standard-deviation field, and the sum of squares is not accumulated.
- Floating point in general: values are Dafny `real`, so rounding of `float64` sums and of the division is not modelled.
- Reading `GRAPHITE_URL`, `os.Exit` and the diagnostics written to standard error (main.go:171-181, 188, 197, 203): process plumbing. Only the continue-on-error control flow is kept.
- An empty point array, which makes `point[0]` panic (main.go:139): the `Point` type is a non-empty `seq<real>`, so this input cannot be formed.
- The `Tags` and `Target` fields (main.go:19-20): `Tags` is dropped; `Target` is kept but never read.
