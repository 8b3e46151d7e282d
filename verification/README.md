# A model of smoothdb in Dafny

smoothdb turns PostgREST URLs into PostgreSQL queries, keeps a pool of database sessions, and
prints PostgreSQL's binary rows as JSON or CSV. This project models the four parts of it that
carry the hardest promises and proves those promises for all inputs, all runs or all reachable
states. `dafny verify dfyconfig.toml` checks everything.

**The recursive query** (`RecursionParser`, `RecursionText`, `RecursionOrder`, `RecursiveQuery`,
`RecursiveArms`, `Recursion`, `RecursiveResults`, `RecursiveRequests`, `Deduplication`, `SingleTable`,
`Directions`, `RawProjection`, over `Graph`). The builder emits a small query tree; `Execution` evaluates it as section 7.8.2 of the PostgreSQL manual says, one
working table after the other. The conditions inside it are token lists that go through the reader
of `Sql`, so the emitted text, not the intention, decides what a row passes. Proved: the query
computes bounded reachability in the filtered graph, the minimum depth is the BFS distance, the bound
is the depth asked for but no more than the server allows, the cycle guard loses nothing, evaluation stops on every graph, a single table never repeats a node,
and how `recurse!up`, swapped columns and `via!both` relate.

**Filters** (`Scanner`, `FilterGrammar`, `FilterParser`, `FilterRoundTrip`, `FilterFacts`,
`FilterTexts`, `FilterKeys`, `WrittenFilters`, `ArrayLiterals`, `EmbeddedFilters`; `SelectGrammar`,
`SelectParser`, `SelectRoundTrip`, `WrittenSelects`; `Filters`, `WhereConditions`, `Precedence`,
`Placeholders`, `Comparisons`, `Builders`). The parser is a class with a cursor that fills linked condition nodes in
place; each method is proved to be a step of a recursive grammar. Printing a filter tree or a select
list and parsing it gives it back; and the forms people write, without quotes, with numbers, arrays,
table paths, json paths and wildcards, are read as what they mean, down to the rows they keep. The compiler prints AND groups without parentheses, threads the placeholder number through its
recursion and marks nodes; re-reading its text under NOT > AND > OR (section 4.1.6 of the
PostgreSQL manual) gives the tree's three-valued truth, and all placeholders are numbered without
gaps, in each of the builders.

**Sessions** (`SessionLists`, `SessionPool`, `SessionManagers`, `SessionProtocol`, `Middleware`).
The linked lists are on the heap, under an invariant that leaves the stale `prev` of a head (and
the stale tail of an empty list) free. The manager's methods are proved to be operations on a pool
of sequences. Requests and the watcher are then interleaved step by step, without a bound on their
number, and the code of a request is proved to be a sequence of those steps.

**Wire and text** (`Decimals`, `Numeric`, `NumericValue`, `SentNumerics`, `JsonText`, `JsonReader`, `Csv`, `Wire`,
`WireValues`, `WireJson`) and **the cache of jq programs** (`JqCache`, `JqKeys`, `JqCompile`,
`JqArgs`, over `ByteOrder`). Numerics print the value sent, cut at the digits shown; nested arrays
and rows print JSON that an independent reader reads back as the value; CSV and JSON strings read
back; the cache holds the keys used last, and can be noticed exactly when two requests share a key.

`Sql` holds the values, the three-valued logic and the reader of conditions; `Sequences` a few facts
about sequences. A character stands for a byte wherever the source handles bytes. Go panics inside
the serializers are the `Malformed` outcome, because `serializeRecover` turns them into errors.

## What turned out different

- An uncached table with the select list `*` in via mode returns `__depth` and `__path` with each
  row, so DISTINCT cannot merge the rows of one node: nodes repeat as soon as two steps are allowed
  (`RawProjection.TwoStepsRepeatANode`); with one step, or with known columns, they do not. With
  columns that do not tell nodes apart, DISTINCT loses nodes: `select=name` returns one row for two
  nodes of one name (`Deduplication.DistinctCountsNodesExactly`, `Deduplication.NamesakesLoseANode`).
- An unquoted value ends at its first mark: of `at=eq.12:30` only `12` is read, and nothing reports the rest
  (`WrittenFilters.ValueIsReadUpToMark`). Behind an apostrophe that nothing closes all is dropped, so
  `name=eq.O'Brien` asks for `O` (`WrittenFilters.UnclosedIsDropped`). Quotes do not keep `"null"`,
  `"true"`, `"false"`, `"unknown"` and `"not_null"` from becoming keywords in the query
  (`Comparisons.ValueIsPrinted`), nor a `*` from becoming `%` under LIKE. In `cs.{node.js}` the point
  makes an array that PostgreSQL refuses (`ArrayLiterals.PointedWordIsMalformed`).
- In a group of conditions on an embedded table, `films.or=(and(...),...)`, the inner group gets no path
  and is skipped wherever conditions are printed (`EmbeddedFilters.NestedGroupIsLost`).
- Comparisons without a value, such as `a=eq` and `a=eq.)`, are accepted by the parser, and the
  builder then indexes an empty list. `FilterFacts.OperandsExactly` says for which token lists that
  happens, and `FilterFacts.AcceptedIsPrintableExactly` which accepted conditions meet what the
  theorems about printed conditions ask for.
- A second pass of `whereClause` over a tree prints no comparison again, but it does print the
  parentheses of the groups (`Placeholders.SecondPassIsEmptyExactly`).
- Filters on the start, recurse or via parameters' own keys are dropped
  (`RecursionParser.EveryFilterGoesOneWay`). Go takes an operator under the empty key for none, so
  with another of its kind the order of the parameters decides whether they are accepted. A via hint
  without a parenthesis, `via!both)`, slices at -1 (`RecursionParser.PanicsExactly`), unless the walk
  over Go's map meets an error first (`RecursionOrder.OrderMattersExactly`).
- Whether LIMIT and OFFSET select the window that the range options then name is decided by
  `Builders.PageIsWindowExactly`, where -1 is an end that is not set, as `api/utils.go:366-370` reads
  it. It fails for `offset=5` alone, for `limit=0` with or without an offset, for a limit beside
  `Range: 5-`, which binds LIMIT to -5, for `Range: -5`, which binds OFFSET to -1, and where the
  64-bit sums wrap around: `Range: 0-9223372036854775807` binds LIMIT to the least number, and
  `limit=9223372036854775807&offset=2` names a negative number of rows (`Builders.WindowsThatDiffer`).
- In a select list quotes do not protect: a column named `...`, `,` or `)` is taken for the mark
  (`SelectRoundTrip.PrintedSelectIsReadBack` asks for other names).
- Numerics of 16380 digits and more print as zero, because the buffer's length is compared as a
  16-bit number (`NumericValue.LongNumericsPrintAsZero`). With two groups before the point that is
  `00000`, which is no JSON (`WireJson.LongNumericsAreNoJson`); neither are NaN and the infinities, which
  print as bare words. `WireJson.NumericIsJsonExactly` says which numerics print JSON numbers. Names of composite fields and
  labels of enums are written without escapes (`WireJson.NameIsReadExactlyWhenPlain`,
  `WireJson.LabelIsReadExactlyWhenPlain`), and an oid from 2^31 on is printed as a negative number
  (`WireJson.OidIsReadExactly`).
- CSV does not distinguish NULL from the empty string (`Csv.NullsShowAsEmptyExactly`), and a single
  column that ends with an empty value reads back one row short (`Csv.NothingIsLostExactly`).
- Two jq variables, a name with a comma in the wrong place, or a NUL byte make different requests
  share a cache key (`JqKeys.SharesKeyExactly`), and a run with two such requests can tell the cache
  from none (`JqCompile.CacheIsInvisibleExactly`). With both `x` and `$x` among the arguments the
  value of `$x` depends on the order of the map (`JqArgs.ValuesAreDeterminedExactly`).

## Model

| member | source | states |
|---|---|---|
| `Precedence.PrintedConditionMeansTree` | database/querybuilder.go:591-730 | main result: the printed condition, re-read under NOT > AND > OR and evaluated with its bound values, has the three-valued truth of the tree |
| `Precedence.ReadNode` | database/querybuilder.go:591-730 | the reader consumes exactly the tokens printed for a node, whatever follows them |
| `Precedence.ReadOrGroup` | database/querybuilder.go:595-641 | the members of an OR group are read as separate disjuncts although AND members among them have no parentheses |
| `Precedence.ReadAndGroup` | database/querybuilder.go:595-641 | the members of an AND group are read as one conjunction |
| `Precedence.ReadModified` | database/querybuilder.go:665-681 | an any/all comparison is read as one operand, the disjunction or conjunction over its values |
| `Precedence.LeafMeaning` | database/querybuilder.go:647-728 | a comparison's atom, with its placeholders resolved, has the truth of the comparison with its values, whatever the operators mean |
| `Comparisons.IsKeeps` | database/querybuilder.go:568-589 | main result: in a row of the table, with SQL's own truth of IS NULL and IS NOT NULL, `is.null` keeps exactly the rows without a value, `is.not_null` those with one, and true, false and unknown those of a boolean column; `not` turns each around |
| `Comparisons.NumbersKeep` | database/querybuilder.go:647-728 | each of the six order operators keeps the rows whose number compares so with the number given, and negated the others |
| `Comparisons.TextsKeep` | database/querybuilder.go:647-728 | = and <> compare texts letter for letter, and NULL is kept by no comparison, negated or not |
| `Comparisons.ListKeeps` | database/querybuilder.go:684-713 | IN keeps the rows whose value is listed; an empty list keeps none, and negated all |
| `Comparisons.QuantifiedKeeps` | database/querybuilder.go:659-681 | any keeps the rows equal to some value, all those equal to every one |
| `Comparisons.ValueIsPrinted` | database/querybuilder.go:568-589 | main result: not_null is printed as NOT NULL and null, true, false and unknown as they are, unless a json path stands before them; every other value is bound, or quoted, as it stands |
| `Comparisons.JsonPathIsPrinted` | database/querybuilder.go:655-658 | a json path goes through to_jsonb exactly on columns known to be arrays or composites |
| `Comparisons.FullTextIsPrinted` | database/querybuilder.go:689-722 | the function of each full-text operator, its arguments, and to_tsvector with the language given or english exactly on columns known to be no tsvector |
| `Comparisons.OnlyOwnIsPrinted` | database/querybuilder.go:612-631 | conditions with a relation path are no part of the condition of the main table |
| `Precedence.JoinConjunctions` | database/querybuilder.go:1227-1232 | two conditions joined by AND, one of them possibly empty, mean both |
| `Placeholders.WhereNumbered` | database/querybuilder.go:591-730 | main result: a condition started at n emits exactly $n+1..$n+k in order for its k values, and none when n is -1 |
| `Placeholders.RunIsComplete` | database/querybuilder.go:982-1024 | a gapless run of placeholders refers to every value and to nothing else |
| `Placeholders.SecondPassPrintsNoComparison` | database/querybuilder.go:641-645 | over the marked tree a second pass prints no comparison and binds no value |
| `Placeholders.SecondPassIsEmptyExactly` | database/querybuilder.go:595-645 | it prints nothing at all if and only if the tree has no parenthesised group on the table |
| `WhereConditions.WhereClause` | database/querybuilder.go:591-730 | the loop over linked nodes returns the condition and values of the tree and marks exactly the comparisons printed |
| `WhereConditions.LeafClause` | database/querybuilder.go:647-728 | one comparison's text and values, for every operator form |
| `WhereConditions.AppendTo` | database/querybuilder.go:568-589 | a reserved word, a placeholder with its value, or a quoted literal, and the next placeholder number; which of them it is, `Comparisons.ValueIsPrinted` says outright |
| `WhereConditions.WhereConditionNode.AddChild` | database/requestparser.go:1109 | hanging a node under its parent extends the parent's tree by that node's tree only |
| `Builders.AppendPage` | database/querybuilder.go:982-1024 | limit, offset and range become placeholders after the ones used, bound to the numbers specified, and the range options afterwards are those specified |
| `Builders.PageIsWindowExactly` | database/querybuilder.go:982-1024 | for every request, LIMIT and OFFSET select the window that the range options afterwards name if and only if there is a range with a start (and an end, unless there is no limit), or no range and a limit that is not zero or neither limit nor offset, and the number of rows and the last row fit in 64 bits |
| `Builders.PageSelects` | database/querybuilder.go:982-1024 | the window selected is the range if there is one, otherwise offset and limit; an open range with a limit counts its rows from -1, and more rows than 64 bits hold come out negative |
| `Builders.WindowsThatDiffer` | database/querybuilder.go:998-1022 | an input for each way to fail: offset alone, limit 0 with and without offset, a limit beside `5-`, `-5`, and each of the two sums that wraps around |
| `Builders.PageNumbered` | database/querybuilder.go:982-1024 | the placeholders of limit and offset continue the run and are bound to their values |
| `Builders.ListColumns` | database/querybuilder.go:874-887 | the columns of a record, each once, restricted to the requested ones if any are |
| `Builders.BuildInsert` | database/querybuilder.go:888-902 | placeholder i*n+j+1 stands for column j of record i and is bound to that field or NULL |
| `Builders.InsertNumbered` | database/querybuilder.go:888-902 | read row by row the placeholders of an insert are 1..len(values) |
| `Builders.InsertedValue` | database/querybuilder.go:888-902 | resolving the placeholder in row i, column j gives that field of record i, or NULL where it has none |
| `Builders.BuildUpdate` | database/querybuilder.go:929-947 | SET takes the first placeholders, the condition continues them, and every value is used |
| `Builders.SelectIsComplete` | database/querybuilder.go:982-1024 | in a paged select every placeholder points at a value and every value is used |
| `Builders.RecursiveQueryIsComplete` | database/querybuilder.go:1122-1369 | the same for the recursive query, whose placeholders are not in order of appearance |
| `Builders.BuildRecursiveSelect` | database/querybuilder.go:1048-1373 | the builder's loops and buffers produce the emitted query, values and range window, or the rejection; what they come to is in `RecursiveRequests` |
| `RecursionParser.ReadRecursion` | database/requestparser.go:1225-1328 | the loop over the parameters, stopping at the first error; how each operator is written, `RecursionText` says letter by letter |
| `RecursionParser.CollectDescribes` | database/requestparser.go:1225-1315 | for all parameters, empty keys included: the loop succeeds exactly when no operator is malformed and none follows one of its kind with a key, and then holds what they say, each operator as `RecursionText.DottedIsRead` and `RecursionText.UndottedIsRead` read it |
| `RecursionText.DottedIsRead` | database/requestparser.go:1278-1313 | what stands in front of the first point decides: `start.x` and `after.x` are the value x with and without the seed, `recurse.d` and `recurse!up.d` a depth, another `!up` an error, and everything else no operator |
| `RecursionText.UndottedIsRead` | database/requestparser.go:1233-1277 | a value without a point is `recurse`, `recurse!up`, a via hint, or no operator; it is an edge table from a to b, directed or both ways, if and only if it reads `via(a,b)` or `via!both(a,b)` |
| `RecursionText.ViaIsRead` | database/requestparser.go:1246-1275 | the columns of a via are read in the order in which they are written |
| `RecursionText.DepthExactly` | database/requestparser.go:1300-1311 | a depth is n if and only if it is written as the decimal number n from 1 below 2^63, perhaps behind zeros or a plus; `all` is unlimited; everything else is refused |
| `RecursionText.RecursionIsReadBack` | database/requestparser.go:1225-1328 | main result: every recursion, written with its operators in whatever order among whatever other parameters, is read as it is |
| `RecursionParser.AcceptedExactly` | database/requestparser.go:1225-1328 | accepted are exactly the parameters without a recursion and those with one start, one recurse and at most one consistent via under keys, in order |
| `RecursionParser.FailsExactly` | database/requestparser.go:1225-1315 | for all parameters: the loop returns an error if and only if some operator is malformed or repeats one with a key, and everything before it is read |
| `RecursionOrder.OrderMattersExactly` | database/requestparser.go:1225-1328 | main result: every walk over Go's map panics, or every walk fails, or every walk reads the same recursion, if and only if no otherwise acceptable operator stands under the empty key beside one of its kind under a key, and it is not so that the values of some key panic by themselves while those of one or two keys fail by themselves; the former are accepted with the empty key first and refused with it last |
| `RecursionOrder.PanickyBothWays` | database/requestparser.go:1225-1328 | the latter panic in one walk and fail in another |
| `RecursionOrder.UntornIsOrderFree` | database/requestparser.go:1225-1328 | without such an operator under the empty key, parameters are accepted in every order or in none, with the same recursion |
| `RecursionOrder.HintMeetsError` | database/requestparser.go:1255-1270 | the smallest case: a malformed operator and a via hint without a parenthesis, in one order an error and in the other a panic |
| `RecursionParser.AcceptedIsConsistent` | database/requestparser.go:1316-1328 | an accepted recursion, whatever the keys, has start and recurse fields and a positive or absent depth, and via excludes recurse!up |
| `RecursionParser.EveryFilterGoesOneWay` | database/requestparser.go:1329-1391 | each remaining parameter becomes an edge filter, a walk filter or a result filter, and those under the operators' keys none |
| `RecursionParser.SharesHoldNothingElse` | database/requestparser.go:1329-1391 | the edge filters are exactly the parameters under the via table, the walk filters exactly those under `walk.`, without those of the operators |
| `RecursionParser.ViaFiltersNeedViaTable` | database/requestparser.go:1334-1348 | without a via table there are no edge filters |
| `RecursionOrder.EmptyKeysNeedAnOrder` | database/requestparser.go:1284-1294 | the smallest instance: three parameters, one with an empty key, accepted in one order and refused in another |
| `RecursionParser.PanicsExactly` | database/requestparser.go:1245-1260 | for all parameters: the value is sliced at -1 if and only if some value is a via hint without a parenthesis, everything before it is read without an error, and no via under a key is among it |
| `RecursionParser.ViaWithoutParenthesisPanics` | database/requestparser.go:1255-1260 | the smallest value that panics |
| `RecursiveArms.BaseTest` | database/querybuilder.go:1156-1165 | a row passes the emitted base condition exactly when it has the start key and, unless the seed is excluded (`after`), passes the walk filter |
| `RecursiveArms.StepTest` | database/querybuilder.go:1183-1233 | a row passes the emitted step condition exactly when the depth is below the cap, its key is not on the path, and the edge and walk filters accept |
| `RecursiveArms.JoinTest` | database/querybuilder.go:1169-1222 | the emitted join condition holds exactly when the edge leads from the working row to the new one, in either direction for via!both |
| `RecursiveArms.AdmitTest` | database/querybuilder.go:1153-1233 | join and condition together admit exactly the steps of the filtered graph to nodes not yet on the path |
| `Recursion.LevelIsTrails` | database/querybuilder.go:1113-1233 | the n-th working table holds exactly the trails of n steps: walks without repeated nodes in the filtered graph |
| `Recursion.CteIsBoundedReachability` | database/querybuilder.go:1113-1233 | main result: with a unique start column the nodes of the query are those reachable from the seed within the depth asked for or the server's maximum, whichever is less (`RecursiveQuery.IsBound`) |
| `Recursion.PathsAreSimple` | database/querybuilder.go:1183-1187 | every path is free of repetitions, ends at its node and has depth + 1 entries |
| `Recursion.NoSeedNoRows` | database/querybuilder.go:1158-1165 | without a row that has the start key nothing is returned |
| `Recursion.LeastDepthIsDistance` | database/querybuilder.go:1190-1233 | the least depth of a node is its distance in the filtered graph, and every distance within the cap occurs |
| `Recursion.DistanceIsShown` | database/querybuilder.go:1190-1233 | every node within the cap has a row whose depth is its distance |
| `Recursion.LevelsRunDry` | database/querybuilder.go:1183-1187 | a working table after as many steps as the table has rows is empty, on cyclic graphs too |
| `Recursion.EvaluateCte` | database/querybuilder.go:1153-1233 | evaluation takes no more rounds than the cap or the size of the table allow, and yields all levels up to the cap |
| `RecursiveResults.KeepsRepointed` | database/querybuilder.go:1296-1303 | moving a condition from the table to the CTE does not change what it keeps |
| `RecursiveResults.OuterTest` | database/querybuilder.go:1291-1303 | a row is in the result exactly when the result filter accepts it and, for `after`, it is not the seed |
| `RecursiveResults.KeptNodesAreWanted` | database/querybuilder.go:1291-1326 | main result: the nodes returned are the reachable ones the result filter accepts |
| `RecursiveQuery.EffectiveDepth` | database/querybuilder.go:1113-1120 | the depth in force is the one asked for but no more than the configured maximum (100 when none is configured), and that maximum for a negative one |
| `RecursiveRequests.DepthIsBound` | database/querybuilder.go:1112-1120 | the step tests the depth first, and the value bound to its placeholder is the depth asked for but at most the configured maximum (100 when none is), and that maximum for `all` |
| `RecursiveRequests.ReturnedWithinBound` | database/querybuilder.go:1112-1326 | main result: over all rounds, the rows kept are those of the accepted nodes within that number of steps, apart from the seed after `after` |
| `RecursiveRequests.RejectedExactly` | database/querybuilder.go:1072-1089 | a recursion is rejected if and only if they are switched off, it has embeddings beside via, or selects `__path` |
| `RecursiveRequests.SelectedColumnsAreShown` | database/querybuilder.go:1237-1275 | main result: each result row shows, of one kept row, the selected columns in their order, the depth for `__depth`, and in via mode the depth behind them when it is only ordered by |
| `RecursiveResults.DistinctOnReportsDistances` | database/querybuilder.go:1305-1315 | whichever rows DISTINCT ON picks, each wanted node is picked once, in a row whose depth is its BFS distance |
| `RecursiveResults.DistinctOnExactlyWithDepth` | database/querybuilder.go:1305-1315 | that route is taken exactly when the depth is selected or ordered by in via mode, and its column is then in the result |
| `Deduplication.DistinctOnShowsEachNodeOnce` | database/querybuilder.go:1305-1315 | main result: whatever is projected, the result rows are one for each wanted node, at its BFS distance from the seed |
| `Deduplication.ResultRowsReportDistances` | database/querybuilder.go:1305-1315 | in a list of columns, those of the node, and the cell of `__depth` is the distance |
| `Deduplication.RawRowsReportDistances` | database/querybuilder.go:1305-1315 | the same for `*` on an uncached table ordered by `__depth` |
| `Deduplication.PlainShowsEachNodeOnce` | database/querybuilder.go:1305-1326 | main result: without via the plain SELECT returns, whatever is projected, one row for each wanted node, at its distance |
| `Deduplication.DistinctCountsNodesExactly` | database/querybuilder.go:1316-1326 | main result: for whatever columns are selected, DISTINCT in via mode returns as many rows as there are wanted nodes if and only if those columns tell the wanted nodes apart, and otherwise fewer |
| `Deduplication.DistinctIsImage` | database/querybuilder.go:1316-1326 | the rows returned are the projections of the wanted nodes, each once |
| `Deduplication.DistinctReturnsEachNodeOnce` | database/querybuilder.go:1316-1326 | with the key selected, DISTINCT returns each wanted node once |
| `Deduplication.NamesakesLoseANode` | database/querybuilder.go:1316-1326 | of two nodes with the same selected name one is lost, at every cap |
| `RecursiveResults.MeaningIgnoresDepth` | database/querybuilder.go:1296-1303 | filters on real columns do not see the depth column |
| `SingleTable.OneTrail` | database/querybuilder.go:1153-1182 | in one table two trails from the seed to one node are the same trail, upward and downward, cycles included |
| `SingleTable.SingleTableHasNoDuplicates` | database/querybuilder.go:1305-1326 | no node appears twice in a single-table recursion, down or up and whatever cycles there are |
| `Directions.UpIsConverseOfDown` | database/querybuilder.go:1169-1181 | without walk filters v is within n steps of u downward exactly when u is within n steps of v upward |
| `Directions.UpReturnsTheConverse` | database/querybuilder.go:1169-1181 | main result: the downward query from u returns v exactly when recurse!up from v returns u, `after` included, each up to the result filter of the other |
| `Directions.SwappedViaIsConverse` | database/querybuilder.go:1211-1222 | swapping the columns of a directed via gives the converse relation at every bound |
| `Directions.SwappedReturnsTheConverse` | database/querybuilder.go:1211-1222 | via(from,to) from u returns v exactly when via(to,from) from v returns u, `after` included, each up to the result filter of the other |
| `Directions.BothIsSymmetric` | database/querybuilder.go:1211-1222 | what via!both reaches within a bound does not change when its columns are swapped |
| `Directions.BothReturnsTheSame` | database/querybuilder.go:1211-1222 | via!both returns the same nodes, result filters included, with its columns swapped |
| `Directions.BothIsViaOnSymmetricClosure` | database/querybuilder.go:1211-1222 | via!both reaches within a bound what directed via reaches on the symmetric closure of the edge table |
| `Directions.BothReturnsClosure` | database/querybuilder.go:1211-1222 | via!both returns the nodes, result filters included, that directed via returns on that closure |
| `RawProjection.OneStepRepeatsNothing` | database/querybuilder.go:1316-1326 | with a cap of one even the raw projection returns each node once |
| `RawProjection.TwoStepsRepeatANode` | database/querybuilder.go:1316-1326 | with a larger cap a triangle makes the raw projection return a node twice |
| `Graph.MakeSimple` | database/querybuilder.go:1183-1187 | every walk has a sub-walk without repetitions between the same ends: the cycle guard loses nobody |
| `Graph.SimpleIsShort` | database/querybuilder.go:1183-1187 | a walk without repetitions is no longer than the set of nodes |
| `Graph.WithinConverse` | database/querybuilder.go:1169-1181 | reachability within n steps turns around with the edges |
| `Scanner.ScanQuoted` | database/requestparser.go:290-367 | a quoted and escaped string is one quoted token with exactly its text, whatever its bytes |
| `Scanner.ScanName` | database/requestparser.go:290-367 | a name before a separator is one token with its text, quoted only when it was printed quoted |
| `Scanner.ScanSep` | database/requestparser.go:290-367 | a separator is a token of its own and completes the word before it |
| `Scanner.ScanBetween` | database/requestparser.go:326-357 | either quote opens a quoted string and either closes it |
| `FilterTexts.GuardedIsRead` | database/requestparser.go:299-366 | every text can be written as a word with backslashes instead of quotes |
| `FilterTexts.BlankIsSkipped` | database/requestparser.go:301-304 | blanks behind a mark do not count |
| `FilterGrammar.CondAt` | database/requestparser.go:958-1111 | a condition that parses has consumed at least one token and stays within the list |
| `FilterGrammar.FieldAt` | database/requestparser.go:442-486 | a field's cursor stays within the token list and never moves back |
| `FilterRoundTrip.PrintedFilterIsReadBack` | database/requestparser.go:797-1111 | main result: printing a filter tree, scanning and parsing it gives the same tree, for arbitrary string values and nesting within the limit |
| `FilterRoundTrip.ReadsTree` | database/requestparser.go:290-367 | the scanner turns the printed tree into its token sequence, independent of what follows |
| `FilterRoundTrip.TreeIsRead` | database/requestparser.go:958-1111 | the parser turns that token sequence into the tree, at any place and depth within the limit |
| `FilterRoundTrip.GroupIsRead` | database/requestparser.go:924-956 | a group's tokens give the group with all its members |
| `FilterRoundTrip.OperationIsRead` | database/requestparser.go:1020-1107 | negation, operator, arguments, modifier and operands are read back together |
| `FilterTexts.ItemIsRead` | database/requestparser.go:847-922 | a bare word, a number with a point or a quoted string is read as its text, a keyword in small letters, a `*` under LIKE as `%`, a quoted string in a json as a JSON string |
| `FilterTexts.NestIsRead` | database/requestparser.go:858-896 | arrays, ranges and composites nested to any depth are read up to the bracket that closes the first |
| `FilterKeys.KeyIsFound` | database/requestparser.go:442-486 | a key `a.b.column->member->>1` names the column, the path of tables in front of it, the json path in SQL and its last name |
| `FilterKeys.LiteralIsReadBack` | database/utils.go:22-28 | the SQL literal of a member reads back as that member, whatever it is |
| `FilterKeys.JsonTypedExactly` | database/requestparser.go:841-845 | a path ends in json if and only if its last arrow is `->` |
| `WrittenFilters.ValueIsReadUpToMark` | database/requestparser.go:797-1111 | main result: `key=[not.]operator.value` is read as this operator, key and value up to the next mark, for every operator, table path, json path and negation |
| `WrittenFilters.ValueIsReadBack` | database/requestparser.go:797-1111 | and as the whole value when no mark follows: `John` as John, `1.5` as 1.5, `*abc*` under LIKE as %abc% |
| `WrittenFilters.ListIsReadBack` | database/requestparser.go:1064-1100 | main result: `in.(...)` and `eq(any).{...}` are read as their values |
| `WrittenFilters.NestIsReadBack` | database/requestparser.go:858-896 | main result: bracketed values are passed on as they are written, with quotes around the words of an array |
| `ArrayLiterals.ArrayIsMeant` | database/requestparser.go:872-896 | main result: a reader of array literals (section 8.15.2 of the PostgreSQL manual) gets the elements that were written, nested as they were |
| `WrittenFilters.ArrayIsReadBack` | database/requestparser.go:797-1111 | so `cs.{a,{b,c}}` is read as an operand that means this array |
| `ArrayLiterals.QuotedIsReadBack` | database/requestparser.go:825-839 | a quoted element reads back as its text, whatever it is |
| `ArrayLiterals.PointedWordIsMalformed` | database/requestparser.go:889-895 | a word with a point in an array is passed on half in quotes, which is no array literal |
| `WrittenFilters.UnclosedIsDropped` | database/requestparser.go:326-348 | behind a quote that nothing closes the text is dropped |
| `WrittenFilters.OperatorsExactly` | database/requestparser.go:162-193 | the table of operators, and no other |
| `WrittenFilters.NumbersAreFiltered` | database/requestparser.go:797-1111 | main result: `name=lt.5` and its like, read, printed and evaluated, keep the rows whose number is less, equal, and so on, and with `not` the others |
| `WrittenFilters.TextsAreFiltered` | database/requestparser.go:797-1111 | main result: `name=eq.text` keeps the rows that hold this text, letter for letter |
| `WrittenFilters.NullsAreFiltered` | database/requestparser.go:903-911 | main result: `name=is.null` keeps the rows without a value, `name=is.not_null` those with one, in whatever case they are written |
| `EmbeddedFilters.EmbeddedIsReadBack` | database/requestparser.go:966-992 | main result: a group on an embedded table, `a.films.not.or=(...)`, is read with its table and path, and so are its comparisons |
| `EmbeddedFilters.NestedGroupIsLost` | database/requestparser.go:992-998 | a group inside such a group takes part in no condition |
| `FilterFacts.AcceptedNestsWithin` | database/requestparser.go:958-963 | no accepted filter tree nests deeper than the limit of 100 |
| `FilterFacts.OperandsExactly` | database/requestparser.go:847-1107 | main result: for every token list, the builder has an operand for every comparison of the accepted tree if and only if none of the comparisons in the tokens ends without one: with no dot behind its operator, or with an unquoted closing parenthesis in place of the value |
| `FilterFacts.AcceptedIsPrintableExactly` | database/requestparser.go:924-1107 | main result: an accepted condition, comparison or group, can be printed if and only if each comparison in its tokens has a name, an operator with SQL text, and a value unless it is a plain IN |
| `FilterFacts.ValuelessExactly` | database/requestparser.go:1031-1107 | an accepted comparison has no value exactly when its tokens end so, for every operator and any/all list |
| `FilterFacts.ValuelessComparisonsAreAccepted` | database/requestparser.go:847-855 | the smallest of each family, `a=eq` and `a=eq.)`, are accepted and leave the builder without an operand |
| `FilterParser.PostgRestParser.ScanText` | database/requestparser.go:290-367 | the byte loop appends exactly the tokens of the text; the two lists stay parallel |
| `FilterParser.PostgRestParser.Next` | database/requestparser.go:371-380 | the token at the cursor, which moves on unless it is at the end |
| `FilterParser.PostgRestParser.Back` | database/requestparser.go:393-399 | the cursor goes back one token, not below the first |
| `FilterParser.PostgRestParser.ParseField` | database/requestparser.go:442-486 | field, table path and json path as the grammar reads them, with the cursor where the grammar ends |
| `FilterParser.PostgRestParser.ParseOneValue` | database/requestparser.go:847-922 | one value with its brackets, floats and wildcards as the grammar reads it, which `FilterTexts.ItemIsRead` and `FilterTexts.NestIsRead` say without the grammar |
| `FilterParser.PostgRestParser.ParseNamedOperation` | database/requestparser.go:1031-1107 | operator, arguments and operands filled into the node in place |
| `FilterParser.PostgRestParser.ParseBooleanOp` | database/requestparser.go:924-956 | a group filled into the node, its depth counter restored, ending on every token sequence |
| `FilterParser.PostgRestParser.ParseCond` | database/requestparser.go:958-1111 | one condition appended to the parent's children, or an error that leaves the parent alone |
| `FilterParser.PostgRestParser.ParseWhereCondition` | database/requestparser.go:797-815 | a parameter of the query string becomes exactly the grammar's condition under the root |
| `SelectRoundTrip.PrintedSelectIsReadBack` | database/requestparser.go:488-674 | main result: a select list with labels, casts, aggregates, hints and relations nested to any depth, printed with whatever names but the marks themselves, scans and parses to itself |
| `SelectRoundTrip.ReadsItem` | database/requestparser.go:290-367 | the scanner turns a printed item into its tokens, whatever follows |
| `SelectRoundTrip.ListIsRead` | database/requestparser.go:493-507 | the tokens of a list are read as that list, at any place |
| `WrittenSelects.WrittenSelectIsRead` | database/requestparser.go:488-674 | main result: a select list without quotes is read as it is meant: json paths under their last name, casts, labels, aggregates of a column or by themselves under their name in small letters, `!inner`, `!left` and foreign keys, relations nested to any depth |
| `WrittenSelects.PiecesAreRead` | database/requestparser.go:290-367 | words and marks are read one by one, where no two of them make another |
| `SelectGrammar.CastsAreHarmless` | database/requestparser.go:205-239 | a cast that is let through consists of letters, digits, underscores, points, blanks and brackets |
| `SelectGrammar.ReadInScope` | database/requestparser.go:493-674 | on every token sequence, what is read hangs under the relation in whose parentheses it stands, and casts let through are names of types |
| `SelectParser.SelectList` | database/requestparser.go:493-507 | the loop ends on every token sequence and reads what the grammar says, with its cursor or its error |
| `SelectParser.SelectItem` | database/requestparser.go:509-674 | the same for one item: labels, aggregates, casts, hints, relations, and the steps back of the cursor |
| `SelectParser.FieldOrAggregate` | database/requestparser.go:533-586 | a bare aggregate, or the token put back and a field with its cast and aggregate, under the label the grammar says |
| `SessionLists.SessionList.Append` | authn/sessions.go:35-44 | the list becomes the old sequence and the session |
| `SessionLists.SessionList.Remove` | authn/sessions.go:46-57 | the sequence loses exactly that session, which keeps its own next link |
| `SessionLists.SessionList.FrontToBack` | authn/sessions.go:59-69 | the first session becomes the last; the new head's prev link stays as it was |
| `SessionLists.SessionList.ToFront` | authn/sessions.go:71-85 | the session becomes the first and the others keep their order |
| `SessionPool.GetIsComplete` | authn/sessions.go:200-217 | main result: a session is created exactly when the slot has no free one, otherwise the free one left last is reused with what it holds, and no other session changes |
| `SessionPool.SlotHasTwoBlocks` | authn/sessions.go:186-230 | a slot is a block of free sessions, most recently left first, and then those in use |
| `SessionPool.LeftIsGotNext` | authn/sessions.go:200-230 | main result: a session that is left keeps what it holds, nothing else changes, and it is the one its key gets next |
| `SessionPool.AllInUse` | authn/sessions.go:207-214 | when the head is in use the whole slot is |
| `SessionPool.AddNewKeeps` | authn/sessions.go:186-198 | creating a session keeps the order and membership invariants |
| `SessionPool.ReuseKeeps` | authn/sessions.go:207-216 | reusing the head and moving it to the back keeps them |
| `SessionPool.LeaveKeeps` | authn/sessions.go:219-230 | leaving a session and moving it to the front keeps them |
| `SessionPool.VisitKeeps` | authn/sessions.go:126-161 | sweeping any set of slots keeps them |
| `SessionPool.VisitStep` | authn/sessions.go:126-161 | slots can be swept one after the other in any order with the same outcome |
| `SessionPool.WatchLeaves` | authn/sessions.go:113-162 | main result: exactly the sessions in use, unexpired or holding a connection stay, in their old order; those in use are untouched; expired connections are detached; exactly the emptied slots go |
| `SessionPool.TallyStep` | authn/sessions.go:122-160 | counting slot by slot gives the true totals |
| `SessionManagers.SessionManager.GetSession` | authn/sessions.go:200-217 | the heap operation is the pool operation, with a fresh session exactly when one is created |
| `SessionManagers.SessionManager.NewSession` | authn/sessions.go:186-198 | a fresh session appended to its slot, which is made when missing |
| `SessionManagers.SessionManager.LeaveSession` | authn/sessions.go:219-230 | the heap operation is the pool operation, and the answer is whether the session was in use |
| `SessionManagers.SessionManager.SweepOne` | authn/sessions.go:138-156 | one idle session is deleted, or loses its connection, or stays, by its age |
| `SessionManagers.SessionManager.SweepList` | authn/sessions.go:128-157 | deleting while traversing visits every session once and leaves the survivors in order |
| `SessionManagers.SessionManager.Watch` | authn/sessions.go:113-162 | the round over all slots is the pool operation, count and inUse are the true totals, and each expired idle connection is handed back once |
| `SessionProtocol.StepKeeps` | authn/middleware.go:32-114 | main result: every step of every request and of the watcher keeps the invariant |
| `SessionProtocol.TickKeeps` | authn/sessions.go:146-156 | so does a round of the watcher between any two steps |
| `SessionProtocol.EachConnectionHasOneHolder` | authn/middleware.go:73-114 | main result: in every run each open connection is with exactly one session or with the request that just acquired it, and nothing is released twice |
| `SessionProtocol.ARequestIsUndisturbed` | authn/middleware.go:32-137 | main result: nobody shares a request's session, which stays in its slot until it leaves, and its connection stays open while it serves |
| `SessionProtocol.AReusedSessionIsReady` | authn/middleware.go:52-94 | main result: a reused session has its claims set and its connection, if any, is open |
| `SessionProtocol.TakenAreOwned` | authn/sessions.go:146-156 | the connections the watcher takes are owned by free sessions and differ from each other |
| `Middleware.FillSession` | authn/middleware.go:53-94 | what acquireSession writes to its session and releases; 401 for a refused token, 404 for a missing database, 500 when acquiring or preparing fails, otherwise 200 |
| `Middleware.AcquireSession` | authn/middleware.go:52-94 | the pool afterwards is getSession's with just that session updated |
| `Middleware.ReleaseSession` | authn/middleware.go:97-114 | the connection goes back exactly when it has a transaction, and the session is left |
| `Middleware.AcquireIsARun` | authn/middleware.go:32-95 | main result: acquireSession, in every outcome, is a sequence of the protocol's steps with the same effect |
| `Middleware.ReleaseIsARun` | authn/middleware.go:97-114 | the same for releaseSession |
| `Numeric.AppendNumeric` | database/textserializer.go:241-361 | the loops with their 16-bit counters print the text specified |
| `Numeric.ReadDigits` | database/textserializer.go:272-280 | the digits read before the 16-bit comparison ends the loop |
| `Numeric.PrintInt` | database/textserializer.go:289-323 | the integer part for every relation of weight and number of digits |
| `Numeric.PrintFraction` | database/textserializer.go:325-358 | the fraction in exactly dscale characters behind the leading zeros |
| `NumericValue.NumericIsTruncatedValue` | database/textserializer.go:241-361 | main result: up to 16379 digits and for weights -8192 to 32766 the text reads back as the value sent, cut at the fraction digits printed |
| `SentNumerics.SentNumericIsRead` | database/textserializer.go:241-361 | main result: for the numeric sent with this sign, weight, scale and these digits, field by field, the text reads back as that value, cut after the digits asked for |
| `SentNumerics.SpecialNumerics` | database/textserializer.go:250-271 | zero, NaN and the infinities by their own signs |
| `NumericValue.NumericIsExactExactly` | database/textserializer.go:241-361 | main result: the decimal read back from the text is the value in the buffer if and only if every digit sent behind those printed is zero |
| `NumericValue.CanonicalIsExact` | database/textserializer.go:325-358 | so numerics whose digits end at their display scale, as PostgreSQL makes them, are printed exactly |
| `NumericValue.LongNumericsPrintAsZero` | database/textserializer.go:272-280 | complete buffers of 32768 bytes and more print as zero |
| `NumericValue.PartsValue` | database/textserializer.go:289-358 | integer part and fraction together are the value shifted and cut |
| `NumericValue.FractionIsPart` | database/textserializer.go:289-340 | within those bounds none of the 16-bit operations wraps around |
| `JsonText.AppendString` | database/textserializer.go:55-122 | the run-copying loop writes the escaped text |
| `JsonText.EscapedIsReadBack` | database/textserializer.go:55-122 | main result: a reader that stops at the first bare quote and refuses control bytes reads back the bytes, invalid ones replaced |
| `JsonText.SanitizeKeepsExactlyUtf8` | database/textserializer.go:91-100 | nothing is replaced exactly when the bytes are UTF-8 |
| `JsonText.EscapedIsUtf8` | database/textserializer.go:55-122 | the text is UTF-8 whatever the bytes |
| `JsonText.EscapedIsHarmless` | database/textserializer.go:55-122 | no control byte and no line end of JavaScript stands in the text, and with escapeHTML no `<`, `>` or `&` |
| `JsonText.PlainTextStays` | database/textserializer.go:58-62 | text that needs no escape is printed as it stands |
| `Csv.AppendField` | database/textserializer.go:763-787 | the copying loop writes the field quoted and with quotes doubled when it needs to be |
| `Csv.FieldNeedsQuotes` | database/textserializer.go:791-808 | quotes are needed for the end-of-data mark, a special byte anywhere, or a leading space rune |
| `Csv.QuotedWhereNeeded` | database/textserializer.go:763-808 | of the fields that begin with a printable byte, a blank or a tab, exactly those are quoted that hold a comma, a quote or a line end, begin with a blank or a tab, or are the end mark of COPY |
| `Csv.FieldIsReadBack` | database/textserializer.go:763-808 | every byte string reads back from its field |
| `Csv.RecordIsReadBack` | database/textserializer.go:709-737 | a printed record reads back as its fields |
| `Csv.Serialize` | database/textserializer.go:709-758 | names and rows with the separators between them |
| `Csv.DocumentIsReadBack` | database/textserializer.go:709-758 | main result: a document reads back as its names and rows, but for a last row that prints as nothing |
| `Csv.NothingIsLostExactly` | database/textserializer.go:709-758 | that happens exactly for a single column whose last value shows nothing |
| `Csv.NullsShowAsEmptyExactly` | database/textserializer.go:738-758 | two documents of as many rows are the same if and only if their values show the same, and NULL shows what the empty string shows |
| `Wire.TextBuilder.AppendType` | database/textserializer.go:511-576 | the mutual recursion over shrinking buffers appends the text specified or stops with its error; what it is for each type, `WireValues.ValueIsDecoded` says |
| `Wire.TextBuilder.AppendArray` | database/textserializer.go:367-408 | header, errors for several dimensions and truncated buffers, elements and NULLs |
| `Wire.TextBuilder.AppendComposite` | database/textserializer.go:467-501 | the field count check, names, values and NULLs |
| `Wire.TextBuilder.AppendValueAt` | database/textserializer.go:392-405 | a length-prefixed value, or NULL, and the position behind it |
| `Wire.ValueAt` | database/textserializer.go:392-405 | the position moves forward within the buffer |
| `WireValues.ValueIsDecoded` | database/textserializer.go:367-576 | main result: decoding the binary form of a value nested in arrays and rows gives its JSON text, for integers, oids, booleans, texts, json, numerics, enums and unknown scalars |
| `WireValues.IntIsRead` | database/db_types.go:12-22 | two's complement integers of every width print as their decimal |
| `WireValues.OidIsSigned` | database/db_types.go:12-22 | an oid is printed as a signed number of 32 bits |
| `WireValues.LayoutsRefused` | database/textserializer.go:367-476 | arrays of several dimensions and rows with another number of fields than their type are refused |
| `WireValues.ElemsAreDecoded` | database/textserializer.go:388-407 | the elements of an array, NULLs included, in order |
| `WireValues.FieldsAreDecoded` | database/textserializer.go:478-499 | the fields of a row, NULLs included, under their names |
| `WireJson.JsonIsReadBack` | database/textserializer.go:511-576 | the JSON text reads back as the tree of the value, and the reader stops behind it |
| `WireJson.SentIsRead` | database/textserializer.go:367-576 | main result: what PostgreSQL sends is what a JSON reader gets, for the numerics of NumericIsJsonExactly, json values that are JSON, oids below 2^31, and names and labels without escapes; the reader has the grammar of RFC 8259, sections 2 to 7 |
| `WireJson.NameIsReadExactlyWhenPlain` | database/textserializer.go:489-491 | a field name survives if and only if it needs no escape |
| `WireJson.LabelIsReadExactlyWhenPlain` | database/textserializer.go:559-562 | the label of an enum is read as a string with this text if and only if it needs no escape |
| `WireJson.OidIsReadExactly` | database/textserializer.go:519-520 | an oid is read as that number if and only if it is below 2^31 |
| `WireJson.NumericIsJsonExactly` | database/textserializer.go:241-323 | main result: for every numeric, its text is read as that number if and only if the buffer is too short for a header, or it is neither NaN nor an infinity and has no digits, at most one group before the point, or a first group read that is not zero |
| `WireJson.LeadingGroupIsJson` | database/textserializer.go:272-323 | so complete numerics whose first group is not zero, as PostgreSQL makes them, print JSON numbers |
| `WireJson.LongNumericsAreNoJson` | database/textserializer.go:272-323 | and those of 32768 bytes and more with two groups before the point print none |
| `JqCache.Cache.Get` | jqeval/jqeval.go:56-64 | the entry of the key, which becomes the most recently used; list and map stay in step |
| `JqCache.Cache.Put` | jqeval/jqeval.go:66-80 | the entry in front, the last ones evicted down to the maximum; list and map stay in step |
| `JqCompile.CacheHoldsTheMostRecent` | jqeval/jqeval.go:56-80 | main result: after any run the cache holds the keys used last, in the order of their last use |
| `JqCompile.UseKeepsRecent` | jqeval/jqeval.go:66-80 | a use of a key, held or new, keeps that so |
| `JqKeys.KeyIsInjective` | jqeval/jqeval.go:110 | programs without NUL and names without commas have keys of their own |
| `JqKeys.SharesKeyExactly` | jqeval/jqeval.go:110 | main result: a request as normalizeArgs makes it shares its key with another one if and only if it has two variables or more, or one that can be cut at `,$` into sorted names, or a NUL in the program followed by `$`, or a NUL in the names followed by `$` or by nothing |
| `JqKeys.KeysCollide` | jqeval/jqeval.go:110 | an example of each kind |
| `JqCompile.Compile` | jqeval/jqeval.go:101-131 | the checks, the lookup and the insertion, with the answer and the cache specified |
| `JqCompile.DirectIsTheCompiler` | jqeval/jqeval.go:101-125 | a program within the limit that is not blank is compiled with the names given; too long and blank ones are refused |
| `JqCompile.CachedIsDirect` | jqeval/jqeval.go:101-131 | one request of a run without shared keys gets the answer of compiling anew, from a cache of entries made for requests of that run |
| `JqCompile.CacheIsInvisibleExactly` | jqeval/jqeval.go:101-131 | main result: every answer of a run is the one without a cache, whatever the compiler does, if and only if the cache holds nothing or no two different requests that reach it share a key |
| `JqCompile.CacheIsInvisible` | jqeval/jqeval.go:101-131 | so it is over every run of requests with NUL-free programs and comma-free names |
| `JqCompile.CollisionIsVisible` | jqeval/jqeval.go:101-131 | the smallest run that can tell: two variables, and then their names as one |
| `JqArgs.NormalizeArgs` | jqeval/jqeval.go:84-97 | the names sorted, one for each key, and a value for each name |
| `JqArgs.NamesExactly` | jqeval/jqeval.go:90-94 | the variable $x has the value of the key x or of the key $x, and is named once for each of them; a key that begins with two dollar signs keeps its name |
| `ByteOrder.LexLeExactly` | jqeval/jqeval.go:95 | names are sorted byte by byte, a prefix before what it begins |
| `JqArgs.NamesDoNotDependOnTheOrder` | jqeval/jqeval.go:84-97 | the names, and so the cache key, do not depend on the order of the map |
| `JqArgs.ValuesAreDeterminedExactly` | jqeval/jqeval.go:84-97 | main result: the values do not depend on it if and only if no two keys have one name and different values |
| `JqArgs.NamesAreNormal` | jqeval/jqeval.go:84-97 | the names are sorted and begin with a dollar sign, as the compiler demands |
| `JqArgs.NamesAreOrdinary` | jqeval/jqeval.go:84-97 | keys without commas give names that the cache keeps apart |

## Left out

- HTTP routing, administration, login, tokens, catalog queries, plugins and the UI; gojq and the
  connection pool are a function and a source of handles.
- Embedding joins (`selectClause`, `selectForJoinClause`), their labels, and the textual table-prefix
  replacement: queries are built as trees. Table aliases are distinct, as PostgreSQL demands.
- The conditions of embedded resources as they are printed in their joins, and the operators without SQL
  text. Where it is said which rows are kept, `Comparisons` gives the order operators, IS and IN their SQL truth; for
  the other operators a comparison's own meaning is an arbitrary function.
- FilterFacts.AcceptedIsPrintableExactly: for token lists without the internal marker of groups on
  embedded resources, whose members belong to another table.
- Filters on `__depth`, a start column that is not unique or is NULL, order and paging of result rows.
- `BuildDelete`, `BuildExecute`, upserts and returning clauses; the `__row` column and the join rewriting of recursive queries.
- FilterRoundTrip.PrintedFilterIsReadBack: not for LIKE patterns with `*` and not for table and json
  paths, which do not come back as they are; `WrittenFilters` says what they are read as.
- WrittenFilters.ValueIsReadUpToMark: without arguments of full-text operators, which
  `FilterRoundTrip.PrintedFilterIsReadBack` has.
- ArrayLiterals.ArrayIsMeant: the reader does not know backslashes outside quotes, which are never passed on.
- The reading of edge and walk filters into trees inside the recursion section: it is the parser's
  condition method once for each value.
- SelectRoundTrip.PrintedSelectIsReadBack: not for json paths and aggregates without a label, which
  `WrittenSelects.WrittenSelectIsRead` has, and not for names that are marks, which quotes do not protect.
- Lower case beyond ASCII in operators and full-text suffixes.
- Session shutdown, which walks the slots without the lock, and the manager when disabled. A failed
  acquire leaves its session in use for good, as the code does.
- Ranges, floats, dates, times, intervals and uuids, whose texts are an arbitrary function; numerics
  in json position other than as numbers; the `__count` column.
- Wire.ValueAt: a value whose length passes the end of its buffer is malformed; Go would still read
  on up to the capacity of the slice.
- WireValues.ValueIsDecoded: jsonb is copied as it is sent, also where a nested jsonb carries a
  version byte.
- Csv.Serialize: for text columns, without the `__count` column and the check for a single row.
- JsonReader: of an object with a repeated name all members are kept; a surrogate without its other half
  is replaced, as Go's decoder does.
- NumericValue.NumericIsTruncatedValue: for groups of digits below 10000 and buffers that hold them all.
