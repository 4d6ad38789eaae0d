# csv-2-pert, modelled in Dafny

csv-2-pert turns a CSV list of tasks into a PERT chart for draw.io. The
model covers its three core steps, each in its own module:

- **CSV validation** (`CsvParser`, properties in `CsvProperties`) models
  the `complete` callback of `parseAndValidateCSV`:
  - it checks the required headers and rejects an empty file;
  - it walks the rows, reporting missing and duplicate IDs, times that are
    not non-negative numbers, and broken `O <= M <= P` order;
  - it checks that every dependency names a task;
  - it either rejects with every error found or resolves with one record
    per row.
- **The PERT engine** (`PertCalculator`, graph algorithms in `PertGraph`,
  properties in `PertProperties`) models `calculatePERT`, in this order:
  1. expected time `(O + 4M + P) / 6` and variance;
  2. the dependency graph;
  3. cycle detection and the topological order;
  4. forward pass, project finish time and backward pass;
  5. slack rounded to five decimals, the critical (zero slack) and
     bottleneck (slack in (0, 1]) flags, and the critical IDs.
- **draw.io output** (`XmlGenerator`) models `generateXML`, the
  `mxGraphModel` document with one vertex per task and one edge per
  dependency, and its `xmlEncode` helper.

`TaskModel` holds the task record shared by the three steps. `Pipeline`
proves the validator's output meets the engine's preconditions, so once
a file passes validation the engine can fail only on a cycle. `JsStrings`
models the JavaScript string operations the core uses (`trim`, `split`,
`join`, writing integers as decimal text).

Most of the source is written imperatively, and so is the model:

- Each of its loops is a Dafny `method` with a `while` or `for` loop. Its
  contract ties the result to a specification function, or states the
  loop's promise directly: the equations of the forward and backward
  passes, a topological order, the generated text.
- The node map that `calculatePERT` updates in place is a
  `map<Id, TaskNode>` that the passes reassign. Its node records are
  values.
- `xmlEncode` and the helpers in the source are pure functions.

Main results:

- the validator accepts a file exactly when headers, rows and dependencies
  are all in order, and reports each error exactly when its condition holds;
- the engine reports each of its three errors exactly when that error
  condition holds;
- otherwise every node meets the PERT equations, slack is never negative,
  the answer is unique, and every non-empty project has a critical task
  (with times as exact reals; see "## Left out" for overflow);
- `xmlEncode` is undone by decoding the five entities;
- the generated document is exactly the default cells, then one vertex per
  task and one edge per dependency, with pairwise distinct cell IDs (for
  task IDs other than `0`, `1` and `edge-...`; see "## Left out").

Numbers are exact reals. A JavaScript number is `Num(value)` or `NaN`,
and the `Infinity` starting value of the late times is a separate value of
`ExtReal`. `parseFloat` and `toFixed(2)` are function parameters.

Where the code is more specific than the system's own documentation, the
model follows the code:

- `calculatePERT` does not throw. Its `catch` turns every failure into a
  returned message string. The model returns `Err` with the kind of failure.
- A task's dependencies are a list that may repeat an ID. graphlib keeps one
  edge per pair, and so does the model.
- The check that the topological order places every node cannot fire once
  the cycle check has passed, so it has no error case in the model.
- The label shows `N/A` for an empty description.
- Vertex IDs are written without encoding.
- Edge IDs count from 1.
- An ID seen before is reported as a duplicate at every later occurrence.
- The ordering checks run only when all three times are numbers.

## Model

| member | source | states |
|---|---|---|
| PertCalculator.ExpectedTime | pertCalculator.js:18 | the PERT estimate lies between the optimistic and pessimistic times, and equals the most likely time for a symmetric estimate |
| PertCalculator.Variance | pertCalculator.js:19 | the variance is never negative, and is zero when optimistic and pessimistic times agree |
| PertCalculator.Round5 | pertCalculator.js:116 | `parseFloat(x.toFixed(5))` is within half of 0.00001 of `x`, keeps the sign of a non-negative value, and is zero exactly when `abs(x) < 0.000005` |
| PertCalculator.Round5Grid | pertCalculator.js:116 | `parseFloat(x.toFixed(5))` is a whole number of hundred-thousandths |
| PertCalculator.InitialNode | pertCalculator.js:18-28 | definition of the node the first loop writes (no contract of its own); InitNodes states it is chosen per task, and ExpectedTime and Variance bound its times |
| PertCalculator.InitNodes | pertCalculator.js:14-31 | rejects exactly when some estimate is NaN, naming the first such task; otherwise one node per task with expected time, variance, zero early times and `Infinity` late times |
| PertCalculator.SetEdge | pertCalculator.js:40 | definition of `setEdge` on a simple graph (no contract of its own); its meaning is SetEdgesExtends |
| PertCalculator.SetEdges | pertCalculator.js:35-41 | definition of the inner dependency loop's edge list (no contract of its own); its meaning is SetEdgesExtends |
| PertCalculator.SetEdgesExtends | pertCalculator.js:35-41 | setting more edges keeps the edges already set, in place, keeps the list free of repeats, and adds exactly the new (dependency, task) pairs |
| PertCalculator.GraphEdges | pertCalculator.js:34-42 | definition of `g.edges()` after the second loop (no contract of its own); its meaning is GraphEdgesExact and GraphEdgesPrefix, and BuildEdges returns it |
| PertCalculator.GraphEdgesExact | pertCalculator.js:34-42 | the edge list holds each dependency pair once, and exactly the pairs the tasks list |
| PertCalculator.GraphEdgesPrefix | pertCalculator.js:34-42 | the edges of earlier tasks keep their positions, so an edge's place (and its `edge-...-N` number in the document) is fixed by the first task listing it |
| PertCalculator.BuildEdges | pertCalculator.js:34-42 | fails exactly when some dependency names no node, reporting the first; otherwise the edges are exactly the pairs (dependency, task), without repeats, between nodes, in the order first listed (GraphEdges) |
| PertCalculator.ForwardEqFrame | pertCalculator.js:68-80 | updating a node that is neither `t` nor a predecessor of `t` keeps `t`'s early-time equations |
| PertCalculator.ForwardStep | pertCalculator.js:78-79 | setting ES to the largest predecessor EF, and EF to ES + TE, satisfies the node's forward equations |
| PertCalculator.NoSelfLoop | pertCalculator.js:52 | a topologically ordered graph has no self-edge |
| PertCalculator.MaxEarlyFinish | pertCalculator.js:70-77 | the result is at least 0 and every predecessor's EF, and is 0 or one of them |
| PertCalculator.ForwardAdvance | pertCalculator.js:68-80 | one forward step keeps the pass invariant: once the current node gets the largest predecessor finish as its start, the visited prefix of the order including it satisfies the forward equations |
| PertCalculator.EarlyTimesUpdate | pertCalculator.js:77-78 | writing a node's early start and early finish keeps every other field of every node as it was initially |
| PertCalculator.ForwardEqEverywhere | pertCalculator.js:68-80 | equations holding along an order that covers every node hold at every node |
| PertCalculator.ForwardVisit | pertCalculator.js:69-79 | one iteration extends the satisfied prefix by the current node and changes only early times |
| PertCalculator.ForwardPass | pertCalculator.js:68-80 | after the pass every node satisfies ES >= 0, ES >= each predecessor's EF, ES = 0 or some predecessor's EF, EF = ES + TE; nothing else changes |
| PertCalculator.ProjectFinish | pertCalculator.js:83-88 | the project finish is the largest EF of any task, or 0 |
| PertCalculator.BackwardEqFrame | pertCalculator.js:92-108 | updating a node that is neither `t` nor a successor of `t` keeps `t`'s late-time equations |
| PertCalculator.BackwardStep | pertCalculator.js:95-107 | setting LF to the finish (no successors) or the least successor LS, and LS to LF - TE, satisfies the node's backward equations |
| PertCalculator.MinLateStart | pertCalculator.js:98-104 | `Infinity` exactly when there is no successor; otherwise the least successor LS, and one of them |
| PertCalculator.LateTimesUpdate | pertCalculator.js:95-107 | writing a node's late finish and late start keeps every other field of every node as it was before the backward pass |
| PertCalculator.BackwardAdvance | pertCalculator.js:92-108 | one backward step keeps the pass invariant over the visited suffix of the order, changing only late times |
| PertCalculator.BackwardPass | pertCalculator.js:92-108 | after the pass every node has finite late times with LS = LF - TE, LF = finish for a terminal node, LF = least successor LS otherwise; nothing else changes |
| PertCalculator.Classify | pertCalculator.js:111-124 | every task gets slack = Round5(LS - ES), critical exactly when slack is 0, bottleneck exactly when 0 < slack <= 1; nothing else changes |
| PertCalculator.CriticalPathIds | pertCalculator.js:126 | an ID is listed exactly when some annotated task with that ID is critical |
| PertCalculator.CriticalPathIdsAppend | pertCalculator.js:126 | the critical IDs keep the order of the tasks |
| PertCalculator.ForwardEqKept | pertCalculator.js:92-124 | the later passes, which leave early and expected times alone, keep the forward equations |
| PertCalculator.BackwardEqKept | pertCalculator.js:111-124 | the classification, which leaves late and expected times alone, keeps the backward equations |
| PertCalculator.CyclesAreDependencyCycles | pertCalculator.js:34-49 | a graph cycle is exactly a cycle of task dependencies |
| PertCalculator.NodeAfterPasses | pertCalculator.js:14-124 | the passes write disjoint fields, so each final node combines the initial estimates, the forward-pass early times, the backward-pass late times and the classification, and the maps share one key set, the task IDs |
| PertCalculator.PassesMakeSchedule | pertCalculator.js:66-133 | nodes that keep their initial estimates and carry the forward-pass early times, the backward-pass late times and the classification yield a result meeting every schedule equation |
| PertCalculator.EarlyAfterPasses | pertCalculator.js:66-88 | the final nodes keep the early-time equations and the project finish |
| PertCalculator.CalculatePert | pertCalculator.js:8-139 | the NaN, missing-dependency and cycle errors are each reported exactly when that condition holds and no earlier check failed; otherwise the result is a PERT schedule over the dependency graph |
| PertGraph.Predecessors | pertCalculator.js:71 | exactly the sources of the edges into `v` |
| PertGraph.Successors | pertCalculator.js:94 | exactly the targets of the edges out of `v` |
| PertGraph.PathRises | pertCalculator.js:52-64 | along a path, positions in a forward order strictly increase |
| PertGraph.TopologicalOrderAcyclic | pertCalculator.js:45-64 | a graph with a topological order has no cycle |
| PertGraph.CycleBetween | pertCalculator.js:45-49 | a repeated node on a walk encloses a cycle |
| PertGraph.PredecessorClosedCyclic | pertCalculator.js:45-64 | a non-empty node set where every node has a predecessor inside it yields a cycle |
| PertGraph.SuccessorClosedCyclic | pertCalculator.js:45-64 | a non-empty node set where every node has a successor inside it yields a cycle |
| PertGraph.PlaceKeepsForward | pertCalculator.js:52 | placing a node whose predecessors are all placed keeps every edge pointing forward |
| PertGraph.Kahn | pertCalculator.js:52 | Kahn's algorithm, in place of graphlib's depth-first `topsort`: places distinct nodes with edges pointing forward; the unplaced nodes each have an unplaced predecessor |
| PertGraph.CycleWithin | pertCalculator.js:45 | walks predecessors inside a closed set until it finds a cycle there |
| PertGraph.FindCycles | pertCalculator.js:45-49 | a reported cycle is a real cycle among the nodes, and nothing is reported exactly when the graph is acyclic |
| PertGraph.TopSort | pertCalculator.js:52 | on an acyclic graph, lists every node once with every edge pointing forward (an order found by Kahn's algorithm, which may differ from graphlib's) |
| PertProperties.BehindScheduleHasSuccessor | pertCalculator.js:92-124 | a task whose LS falls before its ES has a successor among those tasks |
| PertProperties.SlackNonNegative | pertCalculator.js:111-124 | in every schedule LS >= ES, so slack is never negative |
| PertProperties.TerminalSlack | pertCalculator.js:92-116 | for a task nothing depends on, slack is the project finish minus its EF |
| PertProperties.EarlyDifferenceSpreads | pertCalculator.js:68-80 | two solutions of the forward equations that differ at a node also differ at one of its predecessors |
| PertProperties.EarlyStartsUnique | pertCalculator.js:68-80 | the forward equations over an acyclic graph have one solution |
| PertProperties.TerminalSame | pertCalculator.js:92-108 | terminality depends only on the set of edges |
| PertProperties.LateDifferenceSpreads | pertCalculator.js:92-108 | two solutions of the backward equations that differ at a node also differ at one of its successors |
| PertProperties.LateFinishesUnique | pertCalculator.js:92-108 | the backward equations over an acyclic graph have one solution |
| PertProperties.SameInputs | pertCalculator.js:14-42 | two schedules for the same tasks have the same nodes, estimates and edges |
| PertProperties.SolutionsUnique | pertCalculator.js:66-124 | equal inputs give equal node maps and the same finish time |
| PertProperties.ScheduleUnique | pertCalculator.js:126-133 | any two schedules for the same tasks report the same tasks, critical IDs, finish time, nodes and edge list in the same order: they are the same result |
| PertProperties.EarlyPartsEqual | pertCalculator.js:68-88 | equal inputs give the same early times and project finish |
| PertProperties.ExpectedTimesNonNegative | pertCalculator.js:18 | with valid estimates no task has a negative expected time |
| PertProperties.SomeTaskFinishesLast | pertCalculator.js:83-88 | in a non-empty project some task's EF equals the project finish |
| PertProperties.ScheduleEdgesWithin | pertCalculator.js:34-42 | every edge of a schedule joins two task nodes |
| PertProperties.FinishingHasSuccessor | pertCalculator.js:68-88 | a task finishing at the project finish that has a successor has one finishing then too |
| PertProperties.FinishingTerminalExists | pertCalculator.js:83-108 | some task with no successors finishes at the project finish |
| PertProperties.CriticalTaskExists | pertCalculator.js:111-126 | a non-empty project with valid estimates has a critical task, so the critical IDs are non-empty |
| CsvParser.MissingHeaders | csvParser.js:27-37 | reports exactly the required headers that are absent, and nothing when all are present |
| CsvParser.IdBlank | csvParser.js:51 | definition of the missing-ID test (no contract of its own); MissingIdReported and RowErrorsShape state its effect |
| CsvParser.RowId | csvParser.js:55 | definition of the trimmed ID (no contract of its own); TrimSpec states what trimming does |
| CsvParser.Description | csvParser.js:90 | definition of the stored description (no contract of its own) |
| CsvParser.CleanParts | csvParser.js:95 | definition of the trim-and-filter step (no contract of its own); its meaning is CleanPartsSpec |
| CsvParser.ParseDependencies | csvParser.js:94-95 | definition of the dependency list read from a cell (no contract of its own); its meaning is ParseDependenciesSpec and ParseDependenciesJoin |
| CsvParser.OrderErrors | csvParser.js:80-87 | definition of the order checks (no contract of its own); its meaning is OrderErrorsShape |
| CsvParser.FieldChecks | csvParser.js:58-77 | definition of the duplicate and time checks (no contract of its own); its meaning is FieldChecksShape |
| CsvParser.RowErrors | csvParser.js:51-87 | definition of one row's errors (no contract of its own); its meaning is RowErrorsShape and RowErrorsEmpty |
| CsvParser.RecordOf | csvParser.js:97-105 | definition of the record pushed for a row (no contract of its own); RowsRecordAt and ValidateOk state where it goes |
| CsvParser.Validate | csvParser.js:18-129 | definition of what the callback resolves or rejects with (no contract of its own); its meaning is ValidateOkIff, ValidateOk and the rejection lemmas, and ParseAndValidate computes it |
| CsvParser.CleanPartsSpec | csvParser.js:94-95 | trimmed dependency parts are non-empty, trimmed, and contain no comma |
| CsvParser.ParseDependenciesSpec | csvParser.js:94-95 | every dependency read is trimmed, non-empty and comma-free; an absent or blank cell gives none |
| CsvParser.CleanPartsOfClean | csvParser.js:95 | trimming and filtering leave clean lists unchanged |
| CsvParser.JoinEnds | csvParser.js:94 | a comma-joined list starts with its first part's first character and ends with its last part's last character |
| CsvParser.ParseTrimmedCell | csvParser.js:94-95 | a trimmed non-empty cell is split as written |
| CsvParser.ParseDependenciesJoin | csvParser.js:94-95 | a dependency list written back with commas reads back as the same list |
| CsvParser.SeenIdsLast | csvParser.js:58-62 | the set of seen IDs grows by each row's ID |
| CsvParser.UnknownDependenciesExact | csvParser.js:116-120 | one task's dependency errors name exactly its dependencies that are not task IDs |
| CsvParser.DependencyErrorsEmpty | csvParser.js:114-121 | the dependency pass reports nothing exactly when every dependency is a known ID |
| CsvParser.CheckOrder | csvParser.js:80-87 | the order block pushes the errors of the order specification |
| CsvParser.CheckRow | csvParser.js:48-105 | one row yields its specified errors and record, and adds its ID to the seen set |
| CsvParser.CheckHeaders | csvParser.js:27-37 | the header loop reports exactly the missing required headers |
| CsvParser.CheckRows | csvParser.js:47-106 | the row loop returns the specified errors and one record per row with an ID |
| CsvParser.CheckDependencies | csvParser.js:114-121 | the dependency loop returns the specified dependency errors |
| CsvParser.ParseAndValidate | csvParser.js:18-129 | the callback rejects or resolves exactly as the validation function specifies |
| CsvProperties.WithFieldCheckMembers | csvParser.js:65-77 | a time check adds one error, about this row, exactly when the field is not a non-negative number |
| CsvProperties.FieldChecksShape | csvParser.js:58-77 | a row's field checks report a duplicate exactly when its ID was seen, a bad time exactly when one is not a non-negative number, and nothing about other rows |
| CsvProperties.OrderErrorsShape | csvParser.js:80-87 | each order error fires exactly when all three times are numbers and that comparison fails |
| CsvProperties.RowErrorsShape | csvParser.js:51-87 | a row without an ID reports only that; a row with one reports only errors about itself |
| CsvProperties.RowErrorsEmpty | csvParser.js:51-87 | a row reports nothing exactly when its ID is present and new and its estimates are valid |
| CsvProperties.OrderChecks | csvParser.js:80-87 | the order checks of a row, in terms of its record's times |
| CsvProperties.SeenIdsMember | csvParser.js:58-62 | the seen set is exactly the IDs of the rows that have one |
| CsvProperties.RowReportsPrefix | csvParser.js:47-106 | whether a row reports an error does not depend on the rows below it |
| CsvProperties.RowsErrorsSound | csvParser.js:47-106 | every error of the row loop comes from some row |
| CsvProperties.RowsErrorsSplit | csvParser.js:47-106 | the loop's errors are those of the earlier rows followed by the last row's |
| CsvProperties.RowsErrorsComplete | csvParser.js:47-106 | every error a row reports reaches the loop's error list |
| CsvProperties.RowsErrorsMember | csvParser.js:47-106 | an error is in the list exactly when some row reports it, given the IDs seen above that row |
| CsvProperties.NoBlankRowsPrefix | csvParser.js:51-54 | a prefix of rows that all have IDs also has no blank IDs |
| CsvProperties.RowsRecordsLength | csvParser.js:97-105 | when every row has an ID there is one record per row |
| CsvProperties.RowsRecordAt | csvParser.js:47-105 | record `i` is the record of row `i`, numbered `i + 2` |
| CsvProperties.RowsRecordsLastKept | csvParser.js:97-105 | the last row's record comes last |
| CsvProperties.RowsRecordsExact | csvParser.js:47-106 | records follow row order, numbered from row 2 |
| CsvProperties.MissingIdReported | csvParser.js:51-54 | a missing ID is reported for file row `n` exactly when that row has no ID |
| CsvProperties.DuplicateSeenAbove | csvParser.js:58-62 | row `j` reports a duplicate exactly when its ID appears among the IDs above it |
| CsvProperties.DuplicateReported | csvParser.js:58-62 | a duplicate is reported for a row exactly when an earlier row has the same ID |
| CsvProperties.CleanRowsHaveIds | csvParser.js:51-54 | rows that report nothing all have IDs |
| CsvProperties.CleanRowsPrefix | csvParser.js:47-106 | a prefix of clean rows is clean |
| CsvProperties.CleanRowsNoErrors | csvParser.js:47-106 | clean rows make the loop report nothing |
| CsvProperties.CleanRecordsDistinct | csvParser.js:58-62 | clean rows yield records with distinct IDs |
| CsvProperties.CleanRecordIds | csvParser.js:114 | `allTaskIds`, the set built from the records, is exactly the set of IDs of the rows |
| CsvProperties.DependencyErrorsMember | csvParser.js:114-121 | the dependency pass reports exactly what some record's inner loop reports |
| CsvProperties.HeadersCheckedFirst | csvParser.js:27-37 | a missing header rejects the file with exactly those header errors, whatever the rows are |
| CsvProperties.EmptyFileRejected | csvParser.js:39-42 | a file with every header and no rows is rejected as empty |
| CsvProperties.RowErrorsRejected | csvParser.js:108-111 | a file with a bad row is rejected with exactly the rows' errors |
| CsvProperties.ValidateClean | csvParser.js:112-121 | with clean rows the dependency pass runs over the records and the rows' IDs |
| CsvProperties.DependencyErrorSound | csvParser.js:114-121 | each dependency error names a row, its ID and row number, and one of its dependencies that is no row's ID |
| CsvProperties.DependencyErrorComplete | csvParser.js:114-121 | each dependency of a clean row that is no row's ID is reported |
| CsvProperties.DependencyErrorsNone | csvParser.js:114-121 | the dependency pass over clean rows is silent exactly when every dependency names a row |
| CsvProperties.DependencyErrorsRejected | csvParser.js:123-126 | with clean rows the file is rejected exactly when a dependency names no row, with one error per such dependency |
| CsvProperties.ValidateOk | csvParser.js:128 | a file that passes yields one record per row, in order and numbered from row 2, with distinct IDs, valid estimates and dependencies that name records |
| CsvProperties.ValidateOkIff | csvParser.js:18-129 | a file passes exactly when all headers are present, it has a row, every row is clean and every dependency names a row |
| Pipeline.ValidatedRecordsFitEngine | csvParser.js:128 | accepted records have distinct IDs, no NaN estimate and only known dependencies, so `calculatePERT` can reject them only for a cycle |
| JsStrings.TrimStartSpec | csvParser.js:55 | removing leading white space keeps a suffix, drops only white space, and stops at a non-space character |
| JsStrings.TrimEndSpec | csvParser.js:55 | removing trailing white space keeps a prefix, drops only white space, and stops at a non-space character |
| JsStrings.TrimStart | csvParser.js:55 | definition of removing leading white space (no contract of its own); its meaning is TrimStartSpec |
| JsStrings.TrimEnd | csvParser.js:55 | definition of removing trailing white space (no contract of its own); its meaning is TrimEndSpec |
| JsStrings.Trim | csvParser.js:55 | definition of `String.prototype.trim` (no contract of its own); its meaning is TrimSpec and TrimIdempotent |
| JsStrings.TrimSpec | csvParser.js:55 | `trim` leaves no white space at either end, keeps only input characters, and gives "" exactly for an all-white-space string |
| JsStrings.TrimOfTrimmed | csvParser.js:95 | a string already trimmed is unchanged by `trim` |
| JsStrings.TrimIdempotent | csvParser.js:55 | trimming twice is trimming once |
| JsStrings.Split | csvParser.js:94 | `split` yields at least one piece, none containing the separator |
| JsStrings.Join | csvParser.js:94 | definition of `join` with one separator character, the partner of `split` (no contract of its own); JoinSplit and SplitJoin relate the two |
| JsStrings.JoinSplit | csvParser.js:94 | joining the pieces gives back the string |
| JsStrings.SplitPiece | csvParser.js:94 | a separator-free piece followed by a separator splits off as one part |
| JsStrings.SplitWhole | csvParser.js:94 | a separator-free string splits into itself alone |
| JsStrings.SplitJoin | csvParser.js:94 | splitting a join of separator-free parts gives back the parts |
| JsStrings.NatToString | xmlGenerator.js:65 | writing a number yields a non-empty string of decimal digits |
| JsStrings.NatToStringRoundTrip | xmlGenerator.js:65 | reading back the digits gives the number |
| JsStrings.NatToStringInjective | xmlGenerator.js:65 | different numbers are written differently |
| XmlGenerator.XmlEncodeValue | xmlGenerator.js:89-100 | a non-string gives ""; a string gives text with no raw `<`, `>`, `"` or `'`, at least as long as the string, that decodes back to the string |
| XmlGenerator.EncodeChar | xmlGenerator.js:92-99 | definition of the replacement of one character (no contract of its own); its meaning is DecodeEncodedChar |
| XmlGenerator.XmlEncode | xmlGenerator.js:91-99 | definition of the `replace` call (no contract of its own); its meaning is XmlDecodeEncode, XmlEncodeInjective, XmlEncodeNoRawSpecials and XmlEncodeLength |
| XmlGenerator.DecodeEncodedChar | xmlGenerator.js:91-99 | decoding undoes the replacement of one character |
| XmlGenerator.XmlDecodeEncode | xmlGenerator.js:91-99 | decoding the five entities gives back the encoded string |
| XmlGenerator.XmlEncodeInjective | xmlGenerator.js:91-99 | different strings encode differently |
| XmlGenerator.XmlEncodeAppend | xmlGenerator.js:91-99 | the encoding works character by character: encoding a concatenation gives the concatenated encodings |
| XmlGenerator.XmlEncodeNoRawSpecials | xmlGenerator.js:91-99 | the encoding contains no raw `<`, `>`, `"` or `'` |
| XmlGenerator.XmlEncodeLength | xmlGenerator.js:91-99 | the encoding never shrinks, and keeps the same length exactly when no special character occurs, in which case it returns the input unchanged |
| XmlGenerator.FillStyleMeaning | xmlGenerator.js:25-30 | red exactly for critical, yellow exactly for a bottleneck that is not critical, blue exactly for neither |
| XmlGenerator.FillStyle | xmlGenerator.js:25-30 | definition of the fill choice (no contract of its own); its meaning is FillStyleMeaning and FillFollowsSlack |
| XmlGenerator.FillFollowsSlack | xmlGenerator.js:25-30 | for a classified task: red exactly at zero slack, yellow exactly for slack in (0, 1], blue otherwise |
| XmlGenerator.VertexGrid | xmlGenerator.js:48-51 | vertices sit on a five-column grid of 180 by 100 boxes, and the task's position can be read back from its box |
| XmlGenerator.VerticesDisjoint | xmlGenerator.js:48-51 | the boxes of two different vertices do not overlap |
| XmlGenerator.VertexGeometry | xmlGenerator.js:48-51 | definition of a vertex's box (no contract of its own); its meaning is VertexGrid and VerticesDisjoint |
| XmlGenerator.ShownDescription | xmlGenerator.js:36 | the shown description is never empty, and is the description itself when that is non-empty |
| XmlGenerator.Label | xmlGenerator.js:36-42 | definition of the vertex label (no contract of its own); VertexValueSafe states it survives encoding into the `value` attribute |
| XmlGenerator.EdgeId | xmlGenerator.js:65 | definition of the edge ID (no contract of its own); its meaning is EdgeIdCount and EdgeIdPrefixed |
| XmlGenerator.TaskVertex | xmlGenerator.js:24-55 | definition of a task's vertex cell (no contract of its own); VertexValueSafe, FillStyleMeaning and VertexGrid state its parts |
| XmlGenerator.DependencyEdge | xmlGenerator.js:61-72 | definition of an edge cell (no contract of its own); EdgeIdsDistinct and EdgeIdPrefixed state its ID |
| XmlGenerator.EdgeIdCount | xmlGenerator.js:64-65 | two equal edge IDs have the same counter |
| XmlGenerator.CellsOrder | xmlGenerator.js:18-74 | the document's cells are the two default cells, then one vertex per task in task order, then one edge per edge in graph order |
| XmlGenerator.EdgeIdsDistinct | xmlGenerator.js:59-65 | edge cells have pairwise distinct IDs |
| XmlGenerator.EdgeIdPrefixed | xmlGenerator.js:65 | an edge ID starts with `edge-`, so it is neither `0` nor `1` |
| XmlGenerator.CellsIdsLaidOut | xmlGenerator.js:20-70 | IDs `0`, `1`, then the task IDs, then the edge IDs, in that order |
| XmlGenerator.IdsDistinctAt | xmlGenerator.js:20-70 | under that layout, any two cells have different IDs |
| XmlGenerator.CellIdsDistinct | xmlGenerator.js:18-74 | every cell of the document has its own ID, given distinct task IDs that are not `0`, `1` and do not start with `edge-` |
| XmlGenerator.VertexValueSafe | xmlGenerator.js:36-53 | a vertex's `value` attribute has no raw double quote, and decoding it gives back the label |
| XmlGenerator.RenderCell | xmlGenerator.js:20-72 | definition of a cell's lines (no contract of its own); WriteVertices, WriteEdges and GenerateXml write them |
| XmlGenerator.Document | xmlGenerator.js:18-78 | definition of the document text (no contract of its own); GenerateXml returns it, and CellsOrder and CellIdsDistinct state what its cells are |
| XmlGenerator.RenderCellsSnoc | xmlGenerator.js:24-73 | proof helper: writing one more cell appends its lines |
| XmlGenerator.VertexFor | xmlGenerator.js:25-55 | the forEach callback builds the task's vertex: fill, label, grid position |
| XmlGenerator.RenderCellsAppend | xmlGenerator.js:24-73 | proof helper: the text of two runs of cells, one after the other, is the two texts joined |
| XmlGenerator.WriteCellStep | xmlGenerator.js:53-72 | proof helper: appending a cell's lines after the text written so far |
| XmlGenerator.AppendAssoc | xmlGenerator.js:18-78 | proof helper: regrouping three successive `xml +=` appends |
| XmlGenerator.AppendAssoc4 | xmlGenerator.js:18-78 | proof helper: regrouping the four pieces written after the openers |
| XmlGenerator.VertexCellsStep | xmlGenerator.js:24 | the vertices of one more task are the previous vertices plus its own |
| XmlGenerator.WriteVertices | xmlGenerator.js:24-56 | the task loop appends exactly the vertex lines of every task, in order |
| XmlGenerator.EdgeCellsStep | xmlGenerator.js:61-64 | one more edge adds its cell with the next counter value |
| XmlGenerator.WriteEdges | xmlGenerator.js:59-74 | the edge loop appends exactly the edge lines of every edge, with the counter starting at 1 |
| XmlGenerator.GenerateXml | xmlGenerator.js:9-81 | the returned text is exactly the document: openers, default cells, vertices, edges, closers |
| XmlGenerator.DefaultCellsText | xmlGenerator.js:20-21 | proof helper: the text of the two default cells |
| XmlGenerator.CellsText | xmlGenerator.js:20-73 | proof helper: the cell text is the default cells, then the vertex text, then the edge text |
| XmlGenerator.DocumentText | xmlGenerator.js:18-78 | proof helper: the document, piece by piece in the order the generator writes it |

## Left out

- The Papa Parse call, the `!file` guard and the `Promise` plumbing (csvParser.js:8-17, 130-134) are not modelled. The callback works on the header list and the rows as parsed. Papa Parse's CSV parsing, `skipEmptyLines` and `error` handler are outside the model.
- ui.js (file input, download, DOM) is not part of this model.
- `parseFloat` and `toFixed(2)` are parameters, not reimplemented: both are JavaScript number formatting and parsing.
- Error message texts and their joining with newlines are not modelled. Each error is a datatype value carrying the row number, ID, header or dependency the message names.
- `console.error` calls are left out: they are I/O.
- PertGraph.FindCycles: graphlib's `findCycles` returns every strongly connected component that holds a cycle. The model returns one cycle, or none exactly when the graph is acyclic, which is all `calculatePERT` uses. The error's cycle list is therefore one cycle, not every component.
- The `topoSortedIds.length !== tasks.length` check (pertCalculator.js:53-64) is left out. It cannot fire once the graph is known to be acyclic, and TopSort proves every node is placed.
- PertCalculator.CalculatePert requires distinct task IDs. graphlib merges repeated `setNode` calls, which the model does not reproduce. The validator guarantees distinct IDs (Pipeline.ValidatedRecordsFitEngine).
- PertCalculator.Variance states only `>= 0`, with 0 for equal estimates. Its exact value is written in its body.
- graphlib's `edges()` lists edges in insertion order, because its edge keys are never integer-like; GraphEdges reproduces that order (dependency pairs in the order first listed; BuildEdges and DependencyGraph state it). The document's edge cells and their `edge-...-N` numbers follow it (WriteEdges, EdgeCellsStep).
- graphlib's `predecessors` and `successors` list object keys, so integer-like task IDs come first in ascending order (IDs `10` then `2` give `2`, `10`). The model's Predecessors and Successors follow edge order instead. MaxEarlyFinish and MinLateStart return a maximum and a minimum, whose value does not depend on that order.
- PertGraph.TopSort computes its order with Kahn's algorithm; graphlib's `topsort` searches depth-first and can give a different order. No result field shows the order, and PertProperties.ScheduleUnique proves the result does not depend on it.
- The `graph && typeof graph.edges === 'function'` guard (xmlGenerator.js:60) is taken as always true. `calculatePERT` always returns a graph.
- XmlGenerator.CellIdsDistinct: the generator writes task IDs into `id`, `source` and `target` without encoding. The model proves distinct cell IDs only for task IDs that are not `0` or `1` and do not start with `edge-` (FreeTaskId). Nothing in the source enforces that.
- The source writes the trimmed ID and description back into the row object in place. The model computes them from the row instead; only the record pushed is observable.
- TaskModel.Number: non-finite and overflowing times are not modelled. `parseFloat("Infinity")` passes the validator, and times near `1e308` overflow `4 * M` to `Infinity`. LS is then `Infinity - Infinity`, which is NaN, and slack is NaN, so no task is flagged.
- PertProperties.CriticalTaskExists: holds only for times as exact reals. With an `Infinity` expected time the source returns an empty `criticalPathIds` for a non-empty project.
- PertProperties.SlackNonNegative: holds only for times as exact reals. With an `Infinity` expected time the source's slack is NaN.
- Floating point is left out: times are exact reals. `Infinity` is the separate `ExtReal` value, and the `toFixed(5)` round trip is Round5, which rounds half away from zero on exact values.
- The `try`/`catch` around `calculatePERT` (pertCalculator.js:135-138) is not modelled separately: the three error results are its only error paths in the model.
