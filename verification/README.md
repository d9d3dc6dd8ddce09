# PulsusDB differential-test core: a Dafny model

PulsusDB is checked end to end by feeding one deterministic corpus to PulsusDB
and to a reference store, and comparing what the two return with what the corpus
generator says by construction. This project models that machinery and proves
what its comments promise, for every size, every input and every run:

- `Calendar` is the Gregorian calendar arithmetic behind the build stamp, and
  `BuildStamp` reads the stamp back.
- `Words`, `TraceIds` and `TraceIdValues` are 64-bit words, `splitmix64` and the
  trace and span ids; `TraceOracles` holds the trace generator and the two trace
  oracles, `TraceShape` the span trees it generates.
- `Polling` and `Push` are the readiness polls and the retrying push protocol
  against an adversarial network and clock.
- `StreamMerge`, `TieGroups` and `Gates` are the order, agreement and
  completeness checks on responses.
- `WireScan` and `WireTimes` are the timestamp scanner, the exact millisecond
  parser and series extraction, against a JSON printer (section 7 of RFC 8259).
- `RangeGrid`, `VectorJoin`, `JoinLaws` and `RateCounter` are the metric oracles:
  sliding windows, vector matching and the extrapolated counter rate.
- `Logfmt`, `LogBodies`, `LogCorpus` and `FetchLimit` are the log bodies, their
  readers, the two log oracles, the log corpus and the fetch-until-limit case.
- `MetricCorpus`, `MetricValues`, `MetricRenderings`, `MetricConservation`,
  `MetricManifest`, `MetricLabels`, `MetricDiscovery` and `MetricLaws` are the
  metric corpus, its renderings and its laws; `ServiceTotals` and `ServiceOrder` are the claim that
  service totals are strictly ordered.
- `Common`, `Arithmetic` and `Decimal` are shared values, integer arithmetic and
  decimal text.

Code that works by updating variables in loops is a method proved against a
specification function or predicate; expression code is functions and lemmas.
Clocks, the network, mixed noise, number parsers and label renderers that live
elsewhere are function parameters, so each result holds for all of them.

Some promises turn out to hold only conditionally. For each of these a lemma
states the exact condition, and the failing side is concrete: trace ids repeat
from index 2^39 on, span ids from 2^33 on; two runs, which the comment on
`id_seed` says can never share ids, share one exactly when their id seeds differ
as two indices do; log timestamps, which `expected_ordered_limited` calls
globally distinct, are so but for one pair; build stamps stop sorting at year
10000; a poll without an interval need not end; millisecond keys collide below a
1 ms step; the 32-bit truncation gate means the limit only below 2^32 entries;
the metric renderings disagree when a corpus has gauges and no timestamp; and
the ordering of service totals, which the module comment states without a
condition, depends on the family sizes, one gauge per service being enough up to
six services and one counter up to five.

## Model

| member | source | states |
|---|---|---|
| Calendar.CivilDayNumber | crates/pulsus-server/build.rs:91-103 | for every day count of either sign the result is a valid proleptic Gregorian date whose independently counted day number is the input |
| Calendar.CivilIsWalk | crates/pulsus-server/build.rs:91-103 | the era formula equals walking day by day from 1970-01-01, in both directions |
| Calendar.CivilSuccessor | crates/pulsus-server/build.rs:91-103 | the next count gives the calendar successor |
| Calendar.CivilOrderIsomorphism | crates/pulsus-server/build.rs:91-103 | a smaller count is an earlier date and conversely |
| Calendar.CivilOnto | crates/pulsus-server/build.rs:91-103 | every valid date is the image of its day number, so the map is a bijection |
| Calendar.EraIsFloor | crates/pulsus-server/build.rs:93-94 | the two-branch era with truncating division is the floor quotient, and the day of era lies in 0..146096 |
| Calendar.YearOfEraAt | crates/pulsus-server/build.rs:95-97 | on (century, quad, year, day) coordinates the correction formula returns the year and the day of year |
| Calendar.MonthOfDay | crates/pulsus-server/build.rs:98-100 | the (5·doy+2)/153 formula picks the month whose span holds the day |
| Calendar.Ranges | crates/pulsus-server/build.rs:94-100 | every range comment: doe, yoe, doy, mp, day and month |
| Calendar.NoOverflow | crates/pulsus-server/build.rs:92-97 | when the shift and the negative-era adjustment fit `i64`, so does everything after them |
| Calendar.StampsSortAsInstants | crates/pulsus-server/build.rs:72-85 | before year 10000 the RFC 3339 stamps order lexicographically as the instants do |
| Calendar.SortedExactlyBeforeYear10000 | crates/pulsus-server/build.rs:72-85 | the stamps of all instants up to a limit are so ordered if and only if the limit is before year 10000 |
| Calendar.Year10000SortsFirst | crates/pulsus-server/build.rs:72-85 | the first second of year 10000 does not sort after the last of 9999 |
| BuildStamp.StampReadsBackExactly | crates/pulsus-server/build.rs:72-85 | an RFC 3339 reader of the stamp (layout, fields, valid date, h < 24, m < 60, s < 60) returns the instant it was made from if and only if that is before year 10000, and nothing after |
| BuildStamp.OnlyItsStamp | crates/pulsus-server/build.rs:72-85 | a text the reader accepts for an instant since the epoch is the stamp of that instant |
| TraceIds.SplitMix64 | e2e/src/traces_corpus.rs:210-216 | the statements compute a word from which the input is recovered by the stated inverse |
| TraceIds.MixIsBijection | e2e/src/traces_corpus.rs:210-216 | the mixer and its inverse cancel in both orders on all 64-bit words |
| TraceIds.IdSeed | e2e/src/traces_corpus.rs:233-239 | folding the run id byte by byte is undone by unfolding it |
| TraceIds.TraceIdsDistinctExactly | e2e/src/traces_corpus.rs:241-251 | the trace ids of n traces are pairwise distinct if and only if n <= 2^39 |
| TraceIds.TraceIdsWrap | e2e/src/traces_corpus.rs:241-251 | index 2^39 has the trace id of index 0 |
| TraceIds.TraceIdNotZero | e2e/src/traces_corpus.rs:241-251 | the halves of one trace id differ, so no id is all zeros |
| TraceIds.HalvesAvoidSpans | e2e/src/traces_corpus.rs:218-265 | no trace-id half equals an un-remapped span id |
| TraceIds.SpanIdNotZero | e2e/src/traces_corpus.rs:253-265 | no span id is zero |
| TraceIds.SpanIdsDistinctExactly | e2e/src/traces_corpus.rs:253-265 | span ids of n traces are pairwise distinct if and only if n <= 2^33 and the zero remap hits no other generated id |
| TraceIds.SpanIdsWrap | e2e/src/traces_corpus.rs:253-265 | trace index 2^33 repeats the first span id |
| TraceIdValues.MixOfZero | e2e/src/traces_corpus.rs:210-216 | the published first output of splitmix64 from state 0 |
| TraceIdValues.TraceIdReadsBack | e2e/src/traces_corpus.rs:241-251 | sixteen bytes; the first eight read big-endian are the mix of the even word of the index, the last eight of the odd one |
| TraceIdValues.SpanIdReadsBack | e2e/src/traces_corpus.rs:253-265 | eight bytes that read big-endian to the mix of the span word, the remap constant where that is zero |
| TraceIdValues.RunsShareTraceIdExactly | e2e/src/traces_corpus.rs:224-251 | two runs give traces t and u one id if and only if the xor of their id seeds is twice the xor of t and u |
| TraceIdValues.RunsShareRawSpanExactly | e2e/src/traces_corpus.rs:224-265 | the same for span ids before the zero remap, with 256 t + s for the index |
| TraceIdValues.NeighbouringSeedsShareAnId | e2e/src/traces_corpus.rs:224-251 | runs whose id seeds differ in bit 1 alone do share a trace id |
| TraceIdValues.DistantSeedsShareNothing | e2e/src/traces_corpus.rs:224-265 | runs whose id seeds differ in bit 41 or above share no trace id and no raw span id |
| TraceIdValues.OneByteApart | e2e/src/traces_corpus.rs:233-239 | run ids that differ in one byte never fold to one id seed |
| TraceOracles.TotalDurationNs | e2e/src/traces_corpus.rs:341-347 | the loop sums the root and all child durations |
| TraceOracles.ConstructionMatches | e2e/src/traces_corpus.rs:360-404 | a case is tagged exactly when its index arithmetic holds |
| TraceOracles.Generate | e2e/src/traces_corpus.rs:409-518 | every trace carries the ids, spans and tags of its index, under an id seed that unfolds to the fixture seed; the window runs from the base to the last span end |
| TraceShape.TracesAreTrees | e2e/src/traces_corpus.rs:409-503 | every generated trace has 3 + t mod 3 spans; the first alone has the zero parent and is the parent of all others, which start 1, 2, ... ms after it, end before it and carry its resource attributes |
| TraceShape.CorpusIdsUniqueExactly | e2e/src/traces_corpus.rs:409-503 | the span ids in a generated corpus are pairwise distinct if and only if it has at most 2^33 traces and the zero remap does not collide; its trace ids if and only if at most 2^39 |
| TraceShape.RootNamesService | e2e/src/traces_corpus.rs:429-436 | the root span is named after its own service |
| TraceShape.FailuresAlternate | e2e/src/traces_corpus.rs:448-456 | the status code of the first child is 500 and 503 in turn on every fourth trace, else 200 |
| TraceShape.AverageExactly | e2e/src/traces_corpus.rs:341-352 | the average-duration case holds exactly at indices 9 and 10 modulo 12 |
| TraceOracles.LastEnd | e2e/src/traces_corpus.rs:505-509 | the maximum over all span ends, the base when there is none |
| TraceOracles.SpanAnswers | e2e/src/traces_corpus.rs:279-340 | for every index and span, each attribute comparison a case makes has the stated answer |
| TraceOracles.OraclesAgree | e2e/src/traces_corpus.rs:360-404 | for every index, run id and all 26 cases, evaluation over the generated spans equals the index arithmetic, including the exact-integer average |
| TraceOracles.OtherRunsMatchNothing | e2e/src/traces_corpus.rs:671-756 | scoped to another run id, no case matches any trace |
| TraceOracles.CheckCorpus | e2e/src/traces_corpus.rs:681-756 | on a generated corpus a tag is present exactly when evaluation matches |
| Polling.PollUntil | e2e/src/harness.rs:351-376 | whenever the loop ends, it made a legal run, only its last attempt at or after the deadline, and reports the last outcome; with an interval at most ceil(timeout/interval)+1 attempts |
| Polling.EndsExactly | e2e/src/harness.rs:351-376 | the loop ends if and only if the interval is positive or the environment finds something or uses the time up |
| Polling.BusyPollNeedNotEnd | e2e/src/harness.rs:351-376 | without an interval a standing clock and fruitless attempts never end it |
| Polling.RunBounds | e2e/src/harness.rs:351-376 | the attempt bound and the deadline bound for every run, whatever the clock does; no attempt begins later than the deadline plus the lateness of its own wake-up |
| Polling.BoundIsTight | e2e/src/harness.rs:351-376 | an instantaneous failing attempt under exact timers makes exactly that many |
| Polling.Wait | e2e/src/harness.rs:245-301 | under exact timers: it succeeds at the first attempt answered within five seconds and the deadline, with a 2xx where readiness is asked, and returns when that answer came; otherwise it returns at the deadline; no attempt begins at or after it |
| Polling.FailingAttempts | e2e/src/harness.rs:245-301 | against a service that fails after d, or hangs until the five-second timer, an attempt begins every d and half a second until the deadline |
| Polling.WaitBounds | e2e/src/harness.rs:256-301 | at most ceil(timeout / poll interval) attempts |
| Polling.UpIsNoticed | e2e/src/harness.rs:256-301 | a service up one request timeout, one interval and one answer before the deadline is never reported down |
| Push.PushPolling | e2e/src/harness.rs:398-409 | one polled post: every request but the last failed to connect, the last alone can be ingested, success is reported if and only if it was answered 2xx and each error if and only if it ended so; giving up takes the 90 s, at most 181 requests |
| Push.PushPlain | e2e/src/metrics.rs:375-395 | the same for a single post, where a connect failure is an error |
| Push.AtMostTheLast | e2e/src/harness.rs:378-409 | over a whole poll only the last request can have been ingested |
| Push.GuardIsExact | e2e/src/harness.rs:378-396 | a retry guard never delivers twice on any honest network if and only if it retries only connect failures |
| Push.PushSmCorpus | e2e/src/logs.rs:2494-2515 | the ingested sequence is a prefix of the store-by-store order plus at most one in-doubt body, the whole order when Ok; one body is acknowledged per 2xx, the last request decides what is reported, and if all are answered 2xx the run is Ok with one request per body |
| Push.PushCorpus | e2e/src/metrics.rs:355-397 | the same for the collector push, which retries no connect failure once a request got through; an empty corpus is an error that sends nothing |
| Push.NeverTwice | e2e/src/logs.rs:2482-2515 | however a run ends no store holds a body twice; when Ok each holds each exactly once |
| Push.StoreByStore | e2e/src/logs.rs:2494-2515 | what was ingested is ordered store by store and body by body, and with a body everything before it was: no store receives anything until the one before has all |
| StreamMerge.ReadStream | e2e/src/logs.rs:427-456 | a stream is read exactly when it is well formed and never descends |
| StreamMerge.PickNext | e2e/src/logs.rs:462-470 | while entries remain the scan finds the first stream with the smallest next timestamp, so the expect holds |
| StreamMerge.Merge | e2e/src/logs.rs:457-474 | the k-way merge is the stable sort of the concatenated streams |
| StreamMerge.OrderedEntries | e2e/src/logs.rs:421-475 | Ok if and only if the result is streams and no stream descends; then the stable sort by timestamp |
| StreamMerge.FlattenAt | e2e/src/logs.rs:427-474 | what is sorted is stream after stream, each in its own order, and nothing else |
| StreamMerge.StableSortPermutes | e2e/src/logs.rs:457-474 | the reference sort keeps the multiset of entries |
| StreamMerge.StableSortSorts | e2e/src/logs.rs:457-474 | it ascends and keeps the order of equal timestamps |
| StreamMerge.SortedUnique | e2e/src/logs.rs:457-474 | those two properties determine the sequence |
| TieGroups.ComputeGroups | e2e/src/logs.rs:1467-1480 | the while loops produce a contiguous exhaustive partition into anchor-maximal runs |
| TieGroups.GroupsPartition | e2e/src/logs.rs:1450-1480 | the partition property of the specification |
| TieGroups.PartitionUnique | e2e/src/logs.rs:1450-1480 | no other partition into anchored runs exists |
| TieGroups.CompareOrdered | e2e/src/logs.rs:1524-1565 | Ok exactly on agreement; each error names a real length, value or run divergence |
| TieGroups.AgreeSameSeries | e2e/src/logs.rs:1524-1565 | agreement gives equal multisets of label sets |
| TieGroups.AgreeJoins | e2e/src/logs.rs:1524-1565 | agreement pairs the series of the two stores off one to one within the tie groups; paired values are joined by at most three tolerance steps and lie within four tolerances |
| TieGroups.ThreeSteps | e2e/src/logs.rs:579-584 | three relative steps stay within four tolerances |
| TieGroups.ToleranceIsRelative | e2e/src/logs.rs:579-584 | from 1e-300 up, x and x(1 + d) compare equal if and only if d is at most 1/999999999 |
| TieGroups.ToleranceAtZero | e2e/src/logs.rs:579-584 | a value compares equal to 0 if and only if it is at most 1e-309 |
| TieGroups.CountsAreSeparated | e2e/src/logs.rs:579-584 | counts below 10^9 are never tolerance-equal unless equal |
| TieGroups.AgreeIsExact | e2e/src/logs.rs:1482-1565 | on separated values and a monotone first sequence, Ok if and only if the value sequences and the (label, value) multisets are equal |
| Gates.CollapseToSet | e2e/src/logs.rs:357-387 | the collapse succeeds exactly on readable streams and merges split label sets into one entry set |
| Gates.CollapseUnique | e2e/src/logs.rs:357-387 | the collapse is determined by the response |
| Gates.SetEntryCount | e2e/src/logs.rs:399-401 | the number of distinct labelled entries |
| Gates.RunGates | e2e/src/logs.rs:1974-2031 | passes if and only if the cast count is below the limit and the response is the expected one: its entries once each and exactly its label sets; each failure means what it says, and on a pass the true count is that of the expectation |
| Gates.GatesAreExact | e2e/src/logs.rs:1998-2031 | equal counts and equal collapsed maps if and only if the response multiset is the expected set once each and its label sets are the expected ones |
| Gates.EmptyStreamDiverges | e2e/src/logs.rs:370 | a stream object without values differs from an empty expectation although no entry does |
| Gates.TruncationGateExactly | e2e/src/logs.rs:1982-1996 | the gate means count < limit for all responses up to a size if and only if that size is below 2^32 or the limit is 0 |
| Gates.DistinctCount | e2e/src/logs.rs:2006-2019 | the distinct count equals the raw count exactly without duplicates |
| Gates.SetDiff | e2e/src/logs.rs:667-694 | missing and extra are the two set differences, matched plus each gives the two sizes, both are empty exactly when the sets agree |
| WireScan.ExtractRawTimestamps | e2e/src/metrics.rs:1054-1095 | the byte loop computes the specification scan |
| WireScan.NumbersAreTokens | e2e/src/metrics.rs:1054-1095 | the scanner's characters cover every number of section 6 of RFC 8259 and none that can follow one |
| WireScan.ScanQuoted | e2e/src/metrics.rs:1054-1095 | nothing inside a quoted string is ever taken for a timestamp, whatever its escapes |
| WireScan.ScanRendered | e2e/src/metrics.rs:1054-1095 | scanning a rendered value gives its leading numbers and continues behind it |
| WireScan.ScanIsLeading | e2e/src/metrics.rs:1054-1095 | on every compact JSON document the scan is exactly the numbers that open an array, in document order |
| WireTimes.ParseTsExact | e2e/src/metrics.rs:1111-1141 | accepts exactly the grammar within `i64` and returns the milliseconds it denotes; the sign and overflow errors are exact |
| WireTimes.PrintedFormsReadBack | e2e/src/metrics.rs:786-790 | `ts_param` and the zero-trimmed form both read back to the milliseconds printed |
| WireTimes.PromTimestampIsShort | crates/pulsus-server/src/prom_api/encode.rs:219-229 | a point is printed only for a fraction of a second, and the fraction has no trailing zero |
| WireTimes.TsParamAccepted | e2e/src/metrics.rs:786-790 | the parser accepts a printed time if and only if it is not negative |
| WireTimes.PrintersQualify | crates/pulsus-server/src/prom_api/encode.rs:219-228 | both printers meet what the scanner and the extraction need |
| WireTimes.EnvelopeLeading | crates/pulsus-server/src/prom_api/encode.rs:310-338 | the envelope of a vector, matrix or scalar response opens its arrays with exactly the timestamps |
| WireTimes.ExtraMembers | e2e/src/metrics.rs:1038-1053 | members that open no array with a number, such as warnings, do not disturb that |
| WireTimes.ScanIsTokens | e2e/src/metrics.rs:1054-1095 | the scan of any document that carries a response is its timestamp tokens in sample order |
| WireTimes.NextSample | e2e/src/metrics.rs:1176-1188 | takes one token and one value in that order; each error is exact |
| WireTimes.ExtractVector | e2e/src/metrics.rs:1183-1190 | on any token list, succeeds exactly when every item has a readable token and value, and then pairs them in order |
| WireTimes.ExtractPoints | e2e/src/metrics.rs:1220-1223 | one series from any position of any token list |
| WireTimes.ExtractMatrix | e2e/src/metrics.rs:1214-1226 | the consumed token iterator runs on across the series; a missing values array is an error |
| WireTimes.ExtractSeries | e2e/src/metrics.rs:1163-1230 | on any parsed body and any token list, succeeds exactly when shape, tokens and values read, and returns what their pairing denotes; each shape error is exact |
| WireTimes.OwnTimestamps | e2e/src/metrics.rs:1157-1230 | on the tokens scanned from a document that carries a response the pairing is the response itself, so every sample keeps its own timestamp; it fails exactly on an unreadable value or an unexpected result type |
| WireTimes.LabelKeyExact | e2e/src/metrics.rs:1027-1036 | a label key binds exactly the names that occur, each to its last value |
| WireTimes.MatrixLookup | e2e/src/metrics.rs:1214-1226 | an extracted matrix has a sample at a label set and time if and only if the last series of that label set has a point there, and holds its last one |
| WireTimes.VectorLookup | e2e/src/metrics.rs:1190-1213 | the same for an instant vector, whose samples of one label set share an entry |
| WireTimes.ScalarIsNoVector | e2e/src/metrics.rs:1190-1207 | a scalar result equals a vector result only if an element carries the scalar's synthetic label |
| RangeGrid.PointsAreAnchored | e2e/src/logs_corpus.rs:426-434 | the step points are exactly the anchored multiples up to the end |
| RangeGrid.WindowEdges | e2e/src/logs_corpus.rs:436-440 | a window holds its own point, nothing later, and not the instant one range before it |
| RangeGrid.CountedBothWays | e2e/src/logs_corpus.rs:424-440 | window counts summed over points equal covering-point counts summed over records |
| RangeGrid.CountedExactly | e2e/src/logs.rs:236-241 | with a range of m steps inside the slack every record is counted at exactly m points |
| RangeGrid.TotalCounted | e2e/src/logs.rs:236-241 | the whole corpus is counted m times over |
| RangeGrid.TotalRate | e2e/src/logs_corpus.rs:442-445 | the rates over the whole grid times the range in seconds add up to m times the number of records |
| RangeGrid.KeysApart | e2e/src/logs_corpus.rs:461-463 | with a step of at least 1 ms later points have larger keys |
| RangeGrid.KeysDistinctExactly | e2e/src/logs_corpus.rs:461-463 | keys are injective on every grid of a step if and only if the step is at least 1 ms |
| RangeGrid.RateSliding | e2e/src/logs_corpus.rs:962-975 | for any grid a key is present exactly where some window is non-empty, and holds the rate of the last such window |
| RangeGrid.GapsAreMissing | e2e/src/logs_corpus.rs:962-975 | from 1 ms on no point is overwritten and empty windows are exactly the missing keys |
| VectorJoin.IndexOne | e2e/src/logs_corpus.rs:1116-1124 | the index succeeds exactly when one-side signatures are distinct, and finds each |
| VectorJoin.JoinByConstruction | e2e/src/logs_corpus.rs:1100-1147 | all assertions hold exactly on defined inputs, and then the hash join is the nested-loop join, whose rows JoinLaws.JoinIsRelational gives |
| JoinLaws.SigsAgree | e2e/src/logs_corpus.rs:1082-1094 | signatures are equal if and only if the two label sets say the same, or both nothing, of every listed key under `on`, of every other key under `ignoring` |
| JoinLaws.JoinIsRelational | e2e/src/logs_corpus.rs:1100-1147 | the join is one row per agreeing pair, in the order of the many side, holding the operator of the left and the right value; one-to-one under exactly the compared labels, grouped under the many side's labels |
| JoinLaws.DefinedExactly | e2e/src/logs_corpus.rs:1111-1146 | no assertion fires if and only if a side is empty or no two one-side rows agree and, one-to-one, no two rows share a mate |
| JoinLaws.OnIsIgnoringTheRest | e2e/src/logs_corpus.rs:1082-1147 | `on(K)` is `ignoring` all other occurring keys, in rows and in definedness |
| VectorJoin.RightIsLeftExchanged | e2e/src/logs_corpus.rs:1111-1136 | group_right is group_left with sides and operands exchanged |
| VectorJoin.OutputsDistinct | e2e/src/logs_corpus.rs:1137-1146 | distinct input label sets give distinct outputs |
| VectorJoin.WindowCounts | e2e/src/logs_corpus.rs:1190-1230 | for any grid, each key holds the group counts of the windows gathered under it, and is absent when there are none |
| JoinLaws.CountsAreCounts | e2e/src/logs_corpus.rs:1150-1182 | a label set is present exactly when a kept record is grouped under it, and counts those records |
| JoinLaws.WindowCountsExact | e2e/src/logs_corpus.rs:1190-1230 | the count under a key is the number of pairs of a step point with that key and a kept record its window covers |
| VectorJoin.InsertColumn | e2e/src/logs_corpus.rs:1038-1040 | one column becomes exactly the joined rows and nothing else changes |
| VectorJoin.RangeJoin | e2e/src/logs_corpus.rs:1028-1042 | every column of the range matrix is the instant join over the records gathered under its key; it fails exactly when one of those joins is undefined |
| VectorJoin.JoinPerPoint | e2e/src/logs_corpus.rs:988-1042 | from 1 ms on each step key's column is the instant join over that point's own window |
| VectorJoin.ListingExists | e2e/src/logs_corpus.rs:1226-1229 | a counts map has a listing of the kind the join takes |
| RateCounter.SortSorts | e2e/src/logs_corpus.rs:713 | the sort orders by timestamp then value and permutes |
| RateCounter.SortOrders | e2e/src/logs_corpus.rs:690-713 | samples fold in time order and, at one timestamp, in ascending value order |
| RateCounter.ResetFold | e2e/src/logs_corpus.rs:718-725 | the fold equals the sum over adjacent samples of the rise, or the new value on a drop |
| RateCounter.ExtrapolateTo | e2e/src/logs_corpus.rs:726-748 | the span and the extrapolated span, with both thresholds and the clamp at the projected zero; RateExact gives their value |
| RateCounter.RateCounterRef | e2e/src/logs_corpus.rs:696-751 | the rate of the sample multiset, no number on a zero span; RateExact gives its value |
| RateCounter.RateExact | e2e/src/logs_corpus.rs:696-751 | zero below two samples; else a sixtieth of the increase, of what is added before (the first value when the counter rises from zero nearby, the share of a near gap, half a spacing) and of what is added after, with conditions on nanoseconds and values alone |
| RateCounter.RateBetweenFarEdges | e2e/src/logs_corpus.rs:737-751 | with both edges at least 1.1 spacings away the rate is increase * n / (n - 1) / 60 |
| RateCounter.RateBetweenNearEdges | e2e/src/logs_corpus.rs:737-751 | with both edges nearer and no clamp the rate is the increase over the sampled span |
| RateCounter.RateAtMixedEdges | e2e/src/logs_corpus.rs:737-751 | with one edge near and one far, the share of the near gap and half a spacing are added |
| RateCounter.RateFromZero | e2e/src/logs_corpus.rs:731-751 | when the projected zero is the nearer edge the first value itself is added |
| RateCounter.RateIgnoresOrder | e2e/src/logs_corpus.rs:690-713 | the rate depends only on the multiset of samples |
| RateCounter.StartStaysAboveZero | e2e/src/logs_corpus.rs:731-742 | the start extension never passes the projected zero of the counter |
| RateCounter.FactorBounds | e2e/src/logs_corpus.rs:726-749 | for in-window samples the factor lies between 1 and 1 + 2.2/(n-1) |
| RateCounter.RateBounds | e2e/src/logs_corpus.rs:696-751 | the rate lies between the sampled rate and that bound, and is a number exactly when not all samples share a timestamp |
| Logfmt.BodyLogfmt | e2e/src/logs_corpus.rs:1436-1459 | the loop ends and collects the pairs of the line, later ones winning |
| Logfmt.RoundTripExactly | e2e/src/logs_corpus.rs:1436-1459 | reading a printed field list gives it back if and only if every key and value is well formed |
| Logfmt.LogfmtRoundTrip | e2e/src/logs_corpus.rs:1436-1459 | with distinct well-formed keys the map read is exactly the fields |
| Logfmt.JoinSplit | e2e/src/logs_corpus.rs:1464 | splitting on spaces gives space-free parts that join back |
| Logfmt.ParsePrint | e2e/src/logs_corpus.rs:1468-1469 | every `i64` reads back as printed |
| Logfmt.PlainRoundTrip | e2e/src/logs_corpus.rs:1462-1472 | the plain reader inverts the plain rendering if and only if method and path hold no space |
| LogBodies.LogfmtLabelsRead | e2e/src/logs_corpus.rs:1253-1260 | the labels read from a logfmt body are those the projection states |
| LogBodies.PlainFieldsRead | e2e/src/logs_corpus.rs:503-515 | the fields read from a plain body are the typed features |
| LogBodies.OraclesAgree | e2e/src/logs_corpus.rs:1241-1310 | on readable records the text oracle and the feature oracle keep the same records, for the logfmt and plain cases |
| LogBodies.ProjectedLabels | e2e/src/logs_corpus.rs:1241-1310 | the projected labels are those read from the body: the logfmt pairs, the same with `level` renamed `lvl`, or the words the plain or JSON text is composed of; the line is the body, or the method and path where the case rewrites it |
| LogBodies.KeptExactly | e2e/src/logs_corpus.rs:466-501 | the exact index residues each of the eleven modelled cases keeps |
| LogBodies.RegularOraclesAgree | e2e/src/logs_corpus.rs:1476-1522 | the same for every regular record index, with the labels read back |
| LogCorpus.Generate | e2e/src/logs_corpus.rs:522-616 | the regular records by index, then the thirty witnesses, with the first and the last timestamp |
| LogCorpus.WitnessesIsolated | e2e/src/logs_corpus.rs:540-607 | no witness has a regular service, and the svc-badunit witness is last |
| LogCorpus.WindowHoldsAll | e2e/src/logs_corpus.rs:608-616 | every record lies between the first and the last timestamp |
| LogCorpus.TimesDistinctExactly | e2e/src/logs_corpus.rs:650-660 | timestamps ascend in record order and are equal for exactly one pair of records, the two duplicate-timestamp witnesses |
| LogCorpus.SortCounts | e2e/src/logs_corpus.rs:924-932 | the sort witnesses number five, one and five per group, as the sort cases expect |
| FetchLimit.ExpectedOrderedLimited | e2e/src/logs_corpus.rs:660-674 | the early break returns the first limit survivors in record order; a limit of 0 does not limit |
| FetchLimit.EntryLabels | e2e/src/logs_corpus.rs:660-676 | an entry has its record's time, its projected line, its service and run, and every projected label: none shadows another |
| FetchLimit.SurvivesExactly | e2e/src/logs_corpus.rs:1291-1297 | a regular record survives exactly at svc-json positions 9 modulo 20 |
| FetchLimit.RegularSurvivors | e2e/src/logs_corpus.rs:469-498 | the survivors of the first n records, in full |
| FetchLimit.CorpusSurvivors | e2e/src/logs_corpus.rs:522-616 | the survivors of the whole corpus are those of its regular records |
| FetchLimit.JsonCountCounts | e2e/src/logs_corpus.rs:469-471 | how many of the first n records are svc-json |
| FetchLimit.TwoPagesNeeded | e2e/src/logs.rs:80-88 | the first limit*10 svc-json rows hold ceil(limit/2) survivors, short of the limit if and only if limit >= 2, and two pages hold exactly limit |
| FetchLimit.ExpectedPrefix | e2e/src/logs.rs:2128-2133 | with 20*limit svc-json records the expected prefix is exactly the first limit survivors, all on the first two pages, in strictly increasing time |
| MetricCorpus.CutoffInRange | e2e/src/corpus.rs:624-635 | a stale series keeps at least one sample, and no more than there are if and only if there is one |
| MetricCorpus.StaleGapCrossesLookback | e2e/src/corpus.rs:606-635 | the last timestamp is more than the lookback after the last stale sample if and only if the window is longer than the lookback |
| MetricCorpus.GenerateGauges | e2e/src/corpus.rs:649-666 | the three nested loops list the gauges by flat index, every sixth stale |
| MetricCorpus.GenerateCounters | e2e/src/corpus.rs:668-682 | the nested loops list the counters by flat index, every fifth resetting |
| MetricCorpus.GenerateHistograms | e2e/src/corpus.rs:684-692 | the histograms by flat index |
| MetricCorpus.GenerateSeries | e2e/src/corpus.rs:694-733 | the manifest lists every flattened series with its sample count, in the common order |
| MetricCorpus.Generate | e2e/src/corpus.rs:642-759 | the whole corpus, with the expected totals and the window |
| MetricCorpus.PerMetricManifest | e2e/src/corpus.rs:249-257 | each name that occurs maps to its own series and sample counts, and no other name is there |
| MetricValues.LeCumulative | e2e/src/corpus.rs:968-977 | output i is the sum of all ranges up to i |
| MetricValues.BucketsAt | e2e/src/corpus.rs:1029-1039 | the cumulative buckets, whose last, the +Inf bucket, is the total count |
| MetricValues.BucketsIncreaseInLe | e2e/src/corpus.rs:560-573 | buckets strictly increase in le |
| MetricValues.BucketsIncreaseInTime | e2e/src/corpus.rs:560-573 | every bucket strictly increases in time |
| MetricValues.BucketsExact | e2e/src/corpus.rs:525-573 | bucket counts stay below 2^53 under a size bound |
| MetricValues.HistogramSum | e2e/src/corpus.rs:579-592 | the midpoint-weighted sum over the ranges |
| MetricLaws.CounterSteps | e2e/src/corpus.rs:490-520 | a counter starts at its first increment, adds one increment a step and is zero at its reset |
| MetricLaws.CounterFallsExactlyAtReset | e2e/src/corpus.rs:502-520 | a counter falls from one timestamp to the next if and only if it resets there |
| MetricLaws.GaugeNamesItsSeries | e2e/src/corpus.rs:460-481 | service, instance, slot and noise are digits of a gauge value |
| MetricLaws.BucketsUnderConstantMix | e2e/src/corpus.rs:525-573 | under a constant mix every bucket is the product of ranges, timestamps and the increment, so the bounds 1 and 10 are attained |
| MetricLaws.MidpointsAreCentred | e2e/src/corpus.rs:575-592 | a range weighs the middle of its bounds, the first from zero, the last twice its bound |
| MetricLaws.HistogramCoheres | e2e/src/corpus.rs:575-592 | at every time the count series equals the +Inf bucket and the sum series is what the bucket series weigh |
| MetricLaws.StaleGapHasHeadroom | e2e/src/corpus.rs:606-635 | a stale series is older than the lookback by a full step if and only if the window is that long, and then by at most two |
| MetricLaws.ResetsInTheMiddle | e2e/src/corpus.rs:645-647 | the reset is the middle index, inside the window from two timestamps on |
| MetricLaws.TimesSpanTheWindow | e2e/src/corpus.rs:738-764 | timestamps step evenly from the first to the last of the window |
| MetricLaws.LabelsSay | e2e/src/corpus.rs:773-804 | the label set of each series: its keys, its metric and run, and the service, instance, slot, bound, version and environment it names |
| MetricLaws.FirstHundredInstances | e2e/src/corpus.rs:777-783 | an instance label begins inst-0 if and only if it is one of the first hundred |
| MetricLaws.BucketIsTheHour | e2e/src/corpus.rs:419-437 | an activity bucket is the whole hour that holds the timestamp |
| MetricLaws.FlooredWindowMissesNothing | e2e/src/corpus.rs:186-204 | a window floored on both ends holds the bucket of every sample in it |
| MetricLaws.ExpectedSeriesExactly | e2e/src/corpus.rs:694-737 | the expected series count in closed form from the family sizes |
| MetricLaws.ExpectedSamplesExactly | e2e/src/corpus.rs:694-737 | the expected sample count: every timestamp of every series, less what every sixth gauge loses past the cutoff |
| MetricRenderings.HistogramSamples | e2e/src/corpus.rs:1025-1040 | gathering by timestamp gives each bucket, sum and count series its own samples in time order |
| MetricRenderings.ToRemoteWriteSeries | e2e/src/corpus.rs:988-1096 | one series per identity in the common order, with its labels and all its samples |
| MetricConservation.RequestCounts | e2e/src/corpus.rs:820-940 | whatever one counts, a flattened OTLP request holds exactly the samples of the series live at its timestamp |
| MetricConservation.Exchange | e2e/src/corpus.rs:814-818 | counting by request equals counting by series |
| MetricConservation.Conserved | e2e/src/corpus.rs:814-818 | for every predicate on samples the OTLP and remote-write renderings hold equally many |
| MetricConservation.SameSamples | e2e/src/corpus.rs:979-1096 | the two renderings are the same multiset of labelled, timed values |
| MetricManifest.PerMetricAgreement | e2e/src/corpus.rs:249-257 | per metric name the manifest's series and samples are those of remote write, and of the OTLP points from one sample on |
| MetricManifest.NoSamplesExpected | e2e/src/corpus.rs:699-704 | with no timestamps the manifest expects no samples if and only if there is no gauge |
| MetricManifest.SameSamplesExactly | e2e/src/corpus.rs:814-1096 | the renderings agree if and only if there is a timestamp or no gauge |
| MetricLabels.LabelsDecide | e2e/src/corpus.rs:773-803 | two series have the same label set exactly when they are the same series, buckets up to the rendered bound |
| MetricLabels.LabelsDistinctExactly | e2e/src/corpus.rs:642-759 | all label sets are distinct if and only if no two bounds render alike or there is no histogram |
| MetricLabels.SeriesCountsAgreeExactly | e2e/src/corpus.rs:814-940 | the OTLP requests open as many series per name as the manifest lists under the same condition |
| MetricDiscovery.DiscoverableSeries | e2e/src/corpus.rs:263-346 | one entry per identity in the common order |
| MetricDiscovery.DiscoverableMatchesRemote | e2e/src/corpus.rs:263-361 | expected_series entries with the remote-write labels in order, each with exactly the activity buckets of its samples from one sample on |
| ServiceTotals.GaugeOrderExactly | e2e/src/corpus.rs:28-35 | two neighbouring gauge totals are ordered under every noise if and only if the noisiest lower one is below the quietest upper one |
| ServiceTotals.CounterOrderExactly | e2e/src/corpus.rs:28-35 | the same for counters, in terms of accumulated increments |
| ServiceTotals.GeneratedCounterOrder | e2e/src/corpus.rs:490-519 | that condition in closed form for a generated corpus |
| ServiceTotals.LiveIsLiveIn | e2e/src/corpus.rs:649-666 | how many gauges of a service are live at a timestamp, in closed form |
| ServiceOrder.GeneratedGaugeOrder | e2e/src/corpus.rs:463-487 | exactly when neighbouring gauge totals of a generated corpus are ordered under every noise, from the block size and the block's phase modulo six |
| ServiceOrder.GaugeTotalsOrderedExactly | e2e/src/corpus.rs:28-35 | gauge totals are ordered for every pair of services, timestamp and noise if and only if there is at most one service, no timestamp, or one gauge per service and every stale step up holds |
| ServiceOrder.OneGaugePerService | e2e/src/corpus.rs:28-35 | with one gauge per service the order holds if and only if there are at most six services or nothing can go stale |
| ServiceOrder.CounterTotalsOrderedExactly | e2e/src/corpus.rs:28-35 | counter totals are ordered for every pair of services, timestamp and noise if and only if there is at most one service, no timestamp, or one counter per service and every step up holds at the reset |
| ServiceOrder.OneCounterPerService | e2e/src/corpus.rs:28-35 | with one counter per service the order holds if and only if there are at most five services or nothing can reset |
| ServiceOrder.ShippedTiersOrdered | test/fixtures/metrics/differential.json:7-22 | every corpus of either shipped tier has strictly ordered gauge and counter totals |
| ServiceTotals.OneGaugePerServiceBreaks | e2e/src/corpus.rs:28-35 | with one gauge per service and seven services the order fails once the first is stale, whatever the noise |
| ServiceTotals.OneCounterPerServiceBreaks | e2e/src/corpus.rs:28-35 | with one counter per service and six services the order fails at the reset |
| ServiceTotals.GaugeTotalsExact | e2e/src/corpus.rs:463-480 | gauge totals stay below 2^53 under a size bound, so doubles hold them exactly |
| ServiceTotals.CounterTotalsExact | e2e/src/corpus.rs:510-519 | counter totals stay below 2^53 under a size bound |
| ServiceTotals.ShippedTiersSized | test/fixtures/metrics/differential.json:5-22 | both shipped tiers meet the sizing conditions and the size bounds |

## Left out

- WireTimes: reading a JSON text into a value is not modelled; a parsed body is what the structural walk reads of it, documents are compact, and the parser of sample values is a parameter.
- Polling.Wait: timers are exact, because a late timer can overrun the deadline by any amount.
- Push: an honest network is assumed, one where a connect-phase failure means no byte was processed and a 2xx means ingested; that is what the retry guard itself relies on.
- TieGroups: NaN, infinities and IEEE rounding in `approx_eq`, because the model is over the reals.
- RateCounter: IEEE rounding, NaN inputs and the parsing of the `c=` bodies; samples are given, and a division by a zero span is reported as no number.
- TieGroups.AgreeIsExact: needs separated values; with values a tolerance apart the check is deliberately looser, which AgreeJoins bounds.
- VectorJoin: the operator is any binary function, and the order in which a label map lists its entries is any fixed one; records carry their group labels instead of being filtered by status.
- LogBodies: the JSON cases of the text oracle, which go through a JSON parser; number texts other than plain digits for `f64`.
- MetricRenderings: the mixer, the rendering of histogram bounds and 64-bit overflow of counts; the mixer is any function and the code's own remainders bound it.
- MetricConservation: the collector's flattening is modelled as the source documents it; its JSON envelope is not.
- TraceIds: which run ids fold to one id seed beyond those that differ in one byte; collisions are characterised on id seeds.
- HTTP, containers, ClickHouse and artifact writing: only the outcomes they return appear.
- The LogQL, PromQL and TraceQL engines, configuration and TLS.
- `samples_equal`, `diff_series_maps`, `vectors_match`, `matrices_match` and `completeness_reached`: they would only add easy members.
