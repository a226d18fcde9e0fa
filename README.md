# Metrics evaluation of the refine_time extension, in Dafny

This project models three pieces of the data-quality metrics extension for
OpenRefine:

- **`dateInterval`** (`date_interval.dfy`, module `DateInterval`) is the
  spanning-column function that checks the interval between two date cells.
  - It measures the signed interval in whole seconds, truncated toward zero as
    Java's `long` division does.
  - It validates a comparator (`gteq`, `lteq`, `gt`, `lt`, `eq`) and then a
    time unit.
  - It converts the interval through the chain of truncating divisions
    seconds → minutes → hours → days → weeks, months or years.
  - It compares the result with a threshold.
  - It also builds the textual call `dateInterval("c1", "c2", "p1", ...)` that
    is handed to the expression parser, with the default parameters
    `"lteq", "0", "seconds"` when `params` is null (an empty array gets no
    defaults). With no columns or an empty parameter array, the ", " written
    between the two lists dangles.
- **The metrics row filter** (`row_filter.dfy`, module `RowFilter`) decides
  whether a row is shown, from the value its expression produced.
  - An error value is governed by *select error*.
  - A blank value is governed by *select blank*.
  - Other data passes when it matches a literal of the match set. Numbers
    compare by value across classes; anything else compares by equality.
  - A multi-valued result passes when any element passes.
  - Every branch returns its outcome `& !invert`.
- **Evaluation of a selected metric** (`metrics_engine.dfy`, module
  `MetricsEngine`) covers the row visitor that evaluates a metric's checks
  (its *eval tuples*) on every row.
  - A `Metric` is a class holding its tuples, its *dirty index* (row index ↦
    the row's Boolean results) and its measure.
  - On its first use, the visitor fills in a check's missing column.
  - Disabled checks and error results are skipped.
  - A row is recorded in the dirty index exactly when one of its results is
    false.
  - A spanning metric puts the result of its spanning expression first.
  - At the end of the pass the measure is set to one minus the quality.
  - The module also models the rule that selects the metric to evaluate: the
    uniqueness metric, the first spanning metric with the name, or the
    column's metric with the name.

`common.dfy` (module `Common`) holds the shared pieces:
- `Option`, which stands for Java's nullable references;
- the unchecked exceptions the code raises, which are modelled as outcomes
  rather than excluded by preconditions;
- Java's truncating division, with the lemma that chained truncating
  divisions equal one truncating division by the product.

The evaluation service is a function parameter (`Evaluator`). The quality
figure computed over a pass is a parameter of `End`.

## Model

| member | source | states |
|---|---|---|
| Common.TruncDiv | src/com/google/refine/metricsExtension/expr/metrics/spanningColumn/DateInterval.java:38 | Java's `long` quotient by a positive divisor: it has the sign of the dividend, is no larger in magnitude, and is 0 exactly when the dividend is smaller than the divisor in magnitude (rounding toward zero, not down). |
| Common.TruncDivChain | src/com/google/refine/metricsExtension/expr/metrics/spanningColumn/DateInterval.java:52-71 | Truncating by `b` and then by `c` equals truncating once by `b * c`, for every sign of the dividend. |
| Common.TruncDivRemainder | src/com/google/refine/metricsExtension/expr/metrics/spanningColumn/DateInterval.java:38 | Java's `long` quotient rounds toward zero: the remainder is smaller than the divisor and has the dividend's sign. |
| DateInterval.ValidateDiff | src/com/google/refine/metricsExtension/expr/metrics/spanningColumn/DateInterval.java:83-98 | The comparator dispatch. It is true only for one of the five known comparators, so the `false` fallback is unreachable once `call` has validated the comparator. |
| DateInterval.ComparatorRelations | src/com/google/refine/metricsExtension/expr/metrics/spanningColumn/DateInterval.java:83-98 | `lteq` is the negation of `gt` and `gteq` the negation of `lt`. `eq` holds when both `gteq` and `lteq` hold, and `gteq` holds when `gt` or `eq` does. |
| DateInterval.UnitDelta | src/com/google/refine/metricsExtension/expr/metrics/spanningColumn/DateInterval.java:49-73 | The unit chain yields a value exactly for the seven known units (`seconds` to `years`), and `None` for any other unit. The value has the sign of the seconds interval and is no larger in magnitude. |
| DateInterval.UnitDeltaIsTruncatedQuotient | src/com/google/refine/metricsExtension/expr/metrics/spanningColumn/DateInterval.java:49-73 | For a known unit, the chain (`/60`, `/60`, `/24`, then `/7`, `/30` or `/365`) yields the seconds interval truncated once by the unit's length in seconds. |
| DateInterval.Call | src/com/google/refine/metricsExtension/expr/metrics/spanningColumn/DateInterval.java:25-81 | Fewer than two arguments give `false`. The only error values are "Unknown comparison <comp>" for a comparator outside the five, and "Unknown time unit <unit>" for a valid comparator with an unknown fifth argument. |
| DateInterval.TwoArgumentsDefaultPolicy | src/com/google/refine/metricsExtension/expr/metrics/spanningColumn/DateInterval.java:76-77 | With two date columns the result is `delta <= 0`, where `delta` is truncated to seconds. This holds exactly when the end is less than one second after the start. |
| DateInterval.NotBothDatesIsFalse | src/com/google/refine/metricsExtension/expr/metrics/spanningColumn/DateInterval.java:34-36 | A non-null start and an end that are not both dates and not both calendars give `false`, never an error. |
| DateInterval.MissingEndColumn | src/com/google/refine/metricsExtension/expr/metrics/spanningColumn/DateInterval.java:28-34 | A missing end column raises NullPointerException only after a date or calendar start value. For any other start value the short-circuit type test returns `false`. |
| DateInterval.EmptyEndIsFalse | src/com/google/refine/metricsExtension/expr/metrics/spanningColumn/DateInterval.java:30-36 | The emptiness test looks at the start value twice, never at the end. An empty end text after a date start still gives `false`, through the type test. |
| DateInterval.CalendarsFailTheDateCast | src/com/google/refine/metricsExtension/expr/metrics/spanningColumn/DateInterval.java:34-38 | Two calendar values pass the type test but raise ClassCastException at the cast to `Date`. |
| DateInterval.UnknownComparison | src/com/google/refine/metricsExtension/expr/metrics/spanningColumn/DateInterval.java:41-45 | An unknown comparator yields the error "Unknown comparison " + comp, whatever the later arguments are. |
| DateInterval.ComparatorAgainstZero | src/com/google/refine/metricsExtension/expr/metrics/spanningColumn/DateInterval.java:39-75 | With exactly three arguments the seconds interval is compared with the threshold 0. |
| DateInterval.ThresholdInUnit | src/com/google/refine/metricsExtension/expr/metrics/spanningColumn/DateInterval.java:46-73 | With five arguments, the interval truncated to whole units of a known unit is compared with the `long` threshold. An unknown unit yields "Unknown time unit " + unit. |
| DateInterval.FourArgumentsOverrun | src/com/google/refine/metricsExtension/expr/metrics/spanningColumn/DateInterval.java:46-48 | The guard admits four arguments, but the unit is read from a fifth: with exactly four, the call raises IndexOutOfBoundsException. |
| DateInterval.OneDayApart | src/com/google/refine/metricsExtension/expr/metrics/spanningColumn/DateInterval.java:60-62 | Two dates 86 400 000 ms apart satisfy "gteq 1 days". |
| DateInterval.AppendQuoted | src/com/google/refine/metricsExtension/expr/metrics/spanningColumn/DateInterval.java:119-137 | The iterator loop appends every item in quotes, separated by ", ", producing exactly the quoted list of the items. |
| DateInterval.GetEvaluable | src/com/google/refine/metricsExtension/expr/metrics/spanningColumn/DateInterval.java:117-138 | The built text is `dateInterval(` + quoted columns + `, ` + quoted parameters + `)`. The parameters are `["lteq","0","seconds"]` when `params` is null; an empty array gets no defaults. |
| DateInterval.QuotedListSnoc | src/com/google/refine/metricsExtension/expr/metrics/spanningColumn/DateInterval.java:120-125 | Appending one item extends the quoted list by a separator, when the list was not empty, and the quoted item. |
| DateInterval.QuotedListConcat | src/com/google/refine/metricsExtension/expr/metrics/spanningColumn/DateInterval.java:131 | When there is at least one column and one parameter, the ", " written between the two loops makes the columns and the parameters one quoted list. |
| DateInterval.QuotedListRoundTrip | src/com/google/refine/metricsExtension/expr/metrics/spanningColumn/DateInterval.java:118-138 | A non-empty quoted list reads back, through the model's literal reader `ParseQuotedList`, as the items it was built from, provided no item holds a quote or a backslash. |
| DateInterval.QuoteInNameBreaksRoundTrip | src/com/google/refine/metricsExtension/expr/metrics/spanningColumn/DateInterval.java:121 | Quotes are not escaped: a column name holding `"` does not read back. |
| DateInterval.CallTextArguments | src/com/google/refine/metricsExtension/expr/metrics/spanningColumn/DateInterval.java:118-138 | When there is at least one column and one parameter, the call text carries the columns followed by the parameters as one quoted argument list. When no item holds a quote or a backslash, that list reads back through `ParseQuotedList` as the columns followed by the parameters. |
| DateInterval.DanglingSeparator | src/com/google/refine/metricsExtension/expr/metrics/spanningColumn/DateInterval.java:118-138 | With an empty parameter array the text ends in `, )`, and with no columns it starts `dateInterval(, `: the separator written at line 131 dangles, and an empty array does not get the defaults. |
| DateInterval.DefaultParamsThresholdIsText | src/com/google/refine/metricsExtension/expr/metrics/spanningColumn/DateInterval.java:47 | The default call passes the threshold as the string literal "0". Between two dates, the cast `(long) args[3]` then raises ClassCastException. |
| RowFilter.MatchesLiteral | src/com/google/refine/metricsExtension/browsing/filters/MetricsRowFilter.java:149-153 | Two numbers match iff their values are equal, whatever their classes. A string literal matches exactly the equal string, and a Boolean literal exactly the equal Boolean; so a literal never matches a value of another kind, an error, a null or a multi-valued result. |
| RowFilter.AnyMatch | src/com/google/refine/metricsExtension/browsing/filters/MetricsRowFilter.java:138-143 | The loop over the match set is true iff some literal matches the value. |
| RowFilter.AnyPasses | src/com/google/refine/metricsExtension/browsing/filters/MetricsRowFilter.java:99-113 | The loop over an array or collection is true iff some element passes `testValue`. |
| RowFilter.AnyItemPasses | src/com/google/refine/metricsExtension/browsing/filters/MetricsRowFilter.java:114-127 | The loop over a JSON array is true iff some element decodes and passes `testValue`. |
| RowFilter.TestValue | src/com/google/refine/metricsExtension/browsing/filters/MetricsRowFilter.java:134-147 | An error tests as *select error*, a null or empty string as *select blank*, and other non-blank data passes iff some literal of the match set matches it. |
| RowFilter.InternalFilterRow | src/com/google/refine/metricsExtension/browsing/filters/MetricsRowFilter.java:91-132 | With `invert` set no row passes. Otherwise a null or scalar result passes iff it passes `testValue`; an array or collection iff some element passes; a JSON array iff some decodable element passes. |
| RowFilter.FilterRow | src/com/google/refine/metricsExtension/browsing/filters/MetricsRowFilter.java:87-89 | The filter's own `invert` flag is used: an inverted filter shows no row, and an uninverted one shows a scalar row iff its value passes `testValue`. |
| RowFilter.ErrorFollowsSelectError | src/com/google/refine/metricsExtension/browsing/filters/MetricsRowFilter.java:135-136 | A row whose value is an error is shown iff errors are selected and the filter is not inverted, whatever the match set. |
| RowFilter.BlankFollowsSelectBlank | src/com/google/refine/metricsExtension/browsing/filters/MetricsRowFilter.java:144-146 | A row whose value is null or empty is shown iff blanks are selected and the filter is not inverted, whatever the match set. |
| RowFilter.DataPassesIffSomeMatch | src/com/google/refine/metricsExtension/browsing/filters/MetricsRowFilter.java:137-143 | Non-blank data passes only by matching a literal: an empty match set lets no data through. |
| RowFilter.NumbersMatchAcrossClasses | src/com/google/refine/metricsExtension/browsing/filters/MetricsRowFilter.java:149-151 | A number matches a numeric literal of equal value, whatever the two Java classes are. |
| RowFilter.NoCrossClassEquality | src/com/google/refine/metricsExtension/browsing/filters/MetricsRowFilter.java:152 | Outside the number case, `equals` is used: a match set made only of string literals matches no number, of any class. |
| RowFilter.InvertIsNotComplement | src/com/google/refine/metricsExtension/browsing/filters/MetricsRowFilter.java:131 | A scalar that fails the test is excluded both with and without `invert`. |
| RowFilter.MultiValuedAnyElement | src/com/google/refine/metricsExtension/browsing/filters/MetricsRowFilter.java:99-113 | A collection filters like the array of its elements, and an empty array never passes. |
| RowFilter.AnyItemPassesDecoded | src/com/google/refine/metricsExtension/browsing/filters/MetricsRowFilter.java:118-126 | Scanning a JSON array equals scanning the list of its decodable elements. |
| RowFilter.JsonArrayIsDecodedArray | src/com/google/refine/metricsExtension/browsing/filters/MetricsRowFilter.java:114-127 | An element that fails to decode neither matches nor ends the scan: a JSON array filters like the array of its decodable elements. |
| RowFilter.NestedArrayNeverMatches | src/com/google/refine/metricsExtension/browsing/filters/MetricsRowFilter.java:101-143 | Elements are not flattened: a nested array is non-blank data that equals no literal. |
| RowFilter.Decoded | src/com/google/refine/metricsExtension/browsing/filters/MetricsRowFilter.java:116-126 | A JSON array yields no more values than it has elements. |
| MetricsEngine.Metric.AddDirtyIndex | src/com/google/refine/metricsExtension/commands/EvaluateSelectedMetricCommand.java:133-135 | Records a row's results under its index; nothing else changes. |
| MetricsEngine.Metric.SetMeasure | src/com/google/refine/metricsExtension/commands/EvaluateSelectedMetricCommand.java:186 | Sets the measure; the tuples and the dirty index are untouched. |
| MetricsEngine.FillColumns | src/com/google/refine/metricsExtension/commands/EvaluateSelectedMetricCommand.java:108-112 | An enabled check without a column gets the visitor's column. A check with a column and a disabled check are unchanged, and afterwards every enabled check has a column. |
| MetricsEngine.TupleResults | src/com/google/refine/metricsExtension/commands/EvaluateSelectedMetricCommand.java:108-131 | A row's checks give at most one result each. What the results are is stated in FalseResultIffFailingCheck, OneResultPerContributingCheck and DisabledChecksIgnored. |
| MetricsEngine.TupleResultsSnoc | src/com/google/refine/metricsExtension/commands/EvaluateSelectedMetricCommand.java:108-131 | One more check appends exactly its own contribution to the results. |
| MetricsEngine.Record | src/com/google/refine/metricsExtension/commands/EvaluateSelectedMetricCommand.java:133-173 | A row enters the dirty index iff one of its results is false, and is then stored with all its results. A row without a false result leaves the index exactly as it was, even when the row was recorded before. Other rows are untouched, and an index holding only failing rows keeps that property. |
| MetricsEngine.EvaluateRowVisitor.Visit | src/com/google/refine/metricsExtension/commands/EvaluateSelectedMetricCommand.java:89-176 | Per branch, see the two rows below. With no metric selected, the first dereference raises NullPointerException. The visitor always asks to continue, never changes the measure, and keeps the dirty index holding only failing rows. |
| MetricsEngine.EvaluateRowVisitor.VisitMetric | src/com/google/refine/metricsExtension/commands/EvaluateSelectedMetricCommand.java:93-135 | The tuples become their one-time-filled version. Every check is bound to the same cell, the one in the metric's column. The dirty index records the row with its results in check order iff one of them is false. |
| MetricsEngine.EvaluateRowVisitor.VisitSpanning | src/com/google/refine/metricsExtension/commands/EvaluateSelectedMetricCommand.java:95-174 | The tuples are never modified. The cell comes from the first spanning column, and no spanning columns raise IndexOutOfBoundsException. An enabled check without a column raises NullPointerException, and the dirty index is unchanged. Otherwise the row is recorded with the spanning result first iff one result is false. |
| MetricsEngine.EvaluateRowVisitor.End | src/com/google/refine/metricsExtension/commands/EvaluateSelectedMetricCommand.java:183-208 | The selected metric's measure becomes 1 − quality and nothing else changes. With no metric selected, NullPointerException is raised. |
| MetricsEngine.EvaluateRowVisitor.constructor | src/com/google/refine/metricsExtension/commands/EvaluateSelectedMetricCommand.java:72-87 | The visitor holds the selected metric or spanning metric and the column. |
| MetricsEngine.ColumnMetric | src/com/google/refine/metricsExtension/commands/EvaluateSelectedMetricCommand.java:61 | The column's metric map yields the metric stored under the name, and null iff it does not hold the name. |
| MetricsEngine.SelectMetric | src/com/google/refine/metricsExtension/commands/EvaluateSelectedMetricCommand.java:49-62 | "uniqueness" selects the uniqueness metric. Without a column, the first spanning metric with the name is selected, or none iff no spanning metric has it. With a column, the column's metric of that name is selected, and a column without metrics raises NullPointerException. |
| MetricsEngine.PrepareEvaluation | src/com/google/refine/metricsExtension/commands/EvaluateSelectedMetricCommand.java:49-87 | A visitor is built iff selection completes, and it satisfies the visitor invariant. It holds the selection: the uniqueness metric; or, without a column, the first listed spanning metric with the name, and none iff no listed one has it; or, with a column, the column's metric of that name. |
| MetricsEngine.FalseResultIffFailingCheck | src/com/google/refine/metricsExtension/commands/EvaluateSelectedMetricCommand.java:123-167 | A row's results contain `false` iff some enabled check evaluated to `false`. |
| MetricsEngine.PassingRowStaysClean | src/com/google/refine/metricsExtension/commands/EvaluateSelectedMetricCommand.java:133-135 | A row whose enabled checks all give `true` or an error leaves the dirty index unchanged. |
| MetricsEngine.FailingRowIsRecorded | src/com/google/refine/metricsExtension/commands/EvaluateSelectedMetricCommand.java:125-135 | A row with a check evaluating to `false` is recorded with its results. |
| MetricsEngine.OneResultPerContributingCheck | src/com/google/refine/metricsExtension/commands/EvaluateSelectedMetricCommand.java:105-131 | There is one result per enabled check that evaluated to a Boolean; disabled checks and error results add nothing. |
| MetricsEngine.DisabledChecksIgnored | src/com/google/refine/metricsExtension/commands/EvaluateSelectedMetricCommand.java:108-131 | Disabled checks are never evaluated: changing them leaves the results unchanged. |
| MetricsEngine.FillColumnsOnce | src/com/google/refine/metricsExtension/commands/EvaluateSelectedMetricCommand.java:110-112 | The column fill happens once: filling again, with any column, changes nothing. |
| MetricsEngine.SpanningResults | src/com/google/refine/metricsExtension/commands/EvaluateSelectedMetricCommand.java:147-169 | A spanning row gives at most one result more than it has checks. Without a spanning expression, or when it evaluates to an error, the results are exactly those of the checks. |
| MetricsEngine.SpanningResultFirst | src/com/google/refine/metricsExtension/commands/EvaluateSelectedMetricCommand.java:147-169 | A non-error spanning result is the first result, and the rest are exactly the checks' results in order, one per contributing check. |
| MetricsEngine.SpanningFalseIffFailingCheck | src/com/google/refine/metricsExtension/commands/EvaluateSelectedMetricCommand.java:147-169 | A spanning row's results contain `false` iff the spanning expression or some enabled check evaluated to `false`. |
| MetricsEngine.SpanningRowRecordedIffFailing | src/com/google/refine/metricsExtension/commands/EvaluateSelectedMetricCommand.java:147-173 | A spanning row is recorded with all its results when the spanning expression or an enabled check evaluates to `false`; otherwise the dirty index is unchanged. |
| MetricsEngine.DisabledSpanningCheckStillEvaluated | src/com/google/refine/metricsExtension/commands/EvaluateSelectedMetricCommand.java:147-148 | The spanning check is evaluated without looking at its `disabled` flag: setting the flag either way leaves the row's results unchanged. |

## Left out

- HTTP handling in `doPost` is not modelled:
  - request parsing (the request parameters become inputs);
  - `respondJSON`, `respondException` and `ProjectManager.setBusy`;
  - JSON errors swallowed in `end`.
- `DateInterval.write`, `getDescription` and `getParams` are not modelled: they are JSON serialisation and constant text.
- `MetaParser.parse` is a call into code this model cannot see.
  - `ParseQuotedList` is a stand-in reader that takes the characters between quotes literally. It does not model the parser's escape sequences, so the round-trip lemmas are stated only for items without a quote or a backslash.
  - `GetEvaluable` returns the text it would parse.
  - `StrArgs` assumes each quoted literal arrives at `call` as a string.
- `CellTuple.getField`, `ExpressionUtils.createBindings`, `bind`, `isError`, `isNonBlankData` and `toObjectCollection` are taken as given:
  - a row is a map from column names to cells;
  - the bindings of an evaluation are a fresh value;
  - the shared, mutable `Properties` bag is not modelled.
- `Evaluable.evaluate` is the function parameter `evaluate`. An evaluation that returns null or a non-Boolean, non-error value is outside the model; in the source that raises an exception.
- `MetricUtils.determineQuality` is not part of this model. `End` takes its result as the input `quality`.
- `Metric.addDirtyIndex`, `getMetricsColumn` and `getSpanMetricsList` are not part of this model.
  - `addDirtyIndex` is assumed to be a map insert.
  - A column's metrics are a map, and a column without one yields null.
- `MetricsRowFilter._evaluable` is not declared in the class. The value it produces is the input of `FilterRow`, and the cell lookup before it is not modelled.
- A null literal in the match set is not modelled; `match.equals` would raise NullPointerException.
- Null request parameters, a null overlay model and null arguments to `call` are not modelled.
- What the row driver (`FilteredRows.accept`) does with an exception raised by `visit` is not modelled. The model reports the exception as an outcome.
- DateInterval.Call: does not model overflow of the 64-bit millisecond difference; integers are unbounded.
- EvaluateRowVisitor.End: the measure `1f - quality` is single-precision floating point in the source. It is a real number here.
- RowFilter.MatchesLiteral: numbers are compared by exact real value, not by `doubleValue()` rounding.
- Tuples are values in the model. Aliasing between a tuple object shared by two metrics is not captured.
- EvaluateRowVisitor.VisitMetric: the filled tuples are written back once, after the loop, not one at a time. The model's evaluator cannot fail mid-loop, so the resulting state is the same.
