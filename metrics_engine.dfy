/** Evaluation of one selected metric over the rows of a project: the row
    visitor that evaluates a metric's checks on each row and records the
    rows that violate one of them in the metric's dirty index, the final
    quality measure, and the rule that selects the metric to evaluate. */
module MetricsEngine {
  import opened Common

  /** Identifies a compiled expression (an Evaluable). */
  type Expr = nat

  /** What evaluating a check yields: an EvalError or a Boolean. */
  datatype EvalResult = EvalError | B(b: bool)

  /** One check of a metric: the column it is bound to (null until filled),
      its compiled expression, and whether it is disabled. */
  datatype EvalTuple = EvalTuple(column: Option<string>, eval: Expr, disabled: bool)

  type Cell = string

  /** A row, as the cells it holds by column name; a column with no cell
      is absent. */
  type Row = map<string, Cell>

  /** The bindings an expression is evaluated against. */
  datatype Bindings = Bindings(rowIndex: int, row: Row, columnName: string, cell: Option<Cell>)

  /** The evaluation service: evaluates a compiled expression against bindings. */
  type Evaluator = (Expr, Bindings) -> EvalResult

  /** The columns a spanning metric spans and its optional spanning check.
      Only the check's expression is used: its `disabled` flag is never
      consulted. */
  datatype Span = Span(columns: seq<string>, evaluable: Option<EvalTuple>)

  /** The dirty index is sparse: only rows with a failing check are recorded. */
  predicate Sparse(dirty: map<int, seq<bool>>)
  {
    forall k :: k in dirty ==> false in dirty[k]
  }

  /** A metric bound to one column, or, when `span` is present, a spanning
      metric. */
  class Metric {
    const name: string
    const span: Option<Span>
    var evalTuples: seq<EvalTuple>
    var dirtyIndex: map<int, seq<bool>>
    var measure: real

    ghost predicate Valid()
      reads this
    {
      Sparse(dirtyIndex)
    }

    constructor (name: string, span: Option<Span>, evalTuples: seq<EvalTuple>)
      ensures this.name == name && this.span == span && this.evalTuples == evalTuples
      ensures dirtyIndex == map[] && measure == 0.0
      ensures Valid()
    {
      this.name := name;
      this.span := span;
      this.evalTuples := evalTuples;
      dirtyIndex := map[];
      measure := 0.0;
    }

    /** Records the results of one row. */
    method AddDirtyIndex(rowIndex: int, results: seq<bool>)
      modifies this
      ensures dirtyIndex == old(dirtyIndex)[rowIndex := results]
      ensures evalTuples == old(evalTuples) && measure == old(measure)
    {
      dirtyIndex := dirtyIndex[rowIndex := results];
    }

    method SetMeasure(m: real)
      modifies this
      ensures measure == m
      ensures evalTuples == old(evalTuples) && dirtyIndex == old(dirtyIndex)
    {
      measure := m;
    }
  }

  // ---------------------------------------------------------------------
  // The specification of one row's evaluation

  function Lookup(row: Row, column: string): Option<Cell>
  {
    if column in row then Some(row[column]) else None
  }

  /** The one-time fill of an enabled check's missing column. */
  function FillColumn(t: EvalTuple, column: string): EvalTuple
  {
    if !t.disabled && t.column.None? then t.(column := Some(column)) else t
  }

  function FillColumns(ts: seq<EvalTuple>, column: string): (r: seq<EvalTuple>)
    ensures |r| == |ts|
    ensures forall i :: 0 <= i < |ts| ==>
              r[i].eval == ts[i].eval && r[i].disabled == ts[i].disabled &&
              (ts[i].disabled || ts[i].column.Some? ==> r[i] == ts[i]) &&
              (!ts[i].disabled && ts[i].column.None? ==> r[i].column == Some(column))
    ensures ColumnsBound(r)
  {
    seq(|ts|, i requires 0 <= i < |ts| => FillColumn(ts[i], column))
  }

  lemma FillColumnsSnoc(ts: seq<EvalTuple>, i: nat, column: string)
    requires i < |ts|
    ensures FillColumns(ts[..i + 1], column) == FillColumns(ts[..i], column) + [FillColumn(ts[i], column)]
  {
  }

  /** Every enabled check has a column. */
  predicate ColumnsBound(ts: seq<EvalTuple>)
  {
    forall i :: 0 <= i < |ts| ==> !ts[i].disabled ==> ts[i].column.Some?
  }

  /** The bindings a check is evaluated against: its own column name, and
      the one cell the visitor resolved for the row. */
  function TupleBindings(t: EvalTuple, rowIndex: int, row: Row, cell: Option<Cell>): Bindings
    requires t.column.Some?
  {
    Bindings(rowIndex, row, t.column.value, cell)
  }

  /** What one check adds to the row's results: nothing when disabled or
      when its evaluation is an error, its Boolean otherwise. */
  function TupleResult(t: EvalTuple, rowIndex: int, row: Row, cell: Option<Cell>, evaluate: Evaluator): seq<bool>
    requires !t.disabled ==> t.column.Some?
  {
    if t.disabled then []
    else match evaluate(t.eval, TupleBindings(t, rowIndex, row, cell))
      case EvalError => []
      case B(b) => [b]
  }

  /** The results of a row's checks, in order. */
  function TupleResults(ts: seq<EvalTuple>, rowIndex: int, row: Row, cell: Option<Cell>, evaluate: Evaluator): (r: seq<bool>)
    requires ColumnsBound(ts)
    ensures |r| <= |ts|
    decreases |ts|
  {
    if ts == [] then []
    else TupleResults(ts[..|ts| - 1], rowIndex, row, cell, evaluate)
         + TupleResult(ts[|ts| - 1], rowIndex, row, cell, evaluate)
  }

  lemma TupleResultsSnoc(ts: seq<EvalTuple>, t: EvalTuple, rowIndex: int, row: Row, cell: Option<Cell>, evaluate: Evaluator)
    requires ColumnsBound(ts) && (!t.disabled ==> t.column.Some?)
    ensures ColumnsBound(ts + [t])
    ensures TupleResults(ts + [t], rowIndex, row, cell, evaluate)
            == TupleResults(ts, rowIndex, row, cell, evaluate) + TupleResult(t, rowIndex, row, cell, evaluate)
  {
    assert (ts + [t])[..|ts|] == ts;
  }

  /** The bindings the spanning expression is evaluated against. */
  function SpanBindings(rowIndex: int, row: Row, cell: Option<Cell>): Bindings
  {
    Bindings(rowIndex, row, "", cell)
  }

  /** The results of a spanning metric's row: the spanning expression's
      result first, when it has one that is not an error. */
  function SpanningResults(sp: Span, ts: seq<EvalTuple>, rowIndex: int, row: Row, cell: Option<Cell>, evaluate: Evaluator): (r: seq<bool>)
    requires ColumnsBound(ts)
    ensures |r| <= |ts| + 1
    ensures (sp.evaluable.None? || evaluate(sp.evaluable.value.eval, SpanBindings(rowIndex, row, cell)).EvalError?)
            ==> r == TupleResults(ts, rowIndex, row, cell, evaluate)
  {
    var first :=
      if sp.evaluable.None? then []
      else match evaluate(sp.evaluable.value.eval, SpanBindings(rowIndex, row, cell))
        case EvalError => []
        case B(b) => [b];
    first + TupleResults(ts, rowIndex, row, cell, evaluate)
  }

  /** The dirty index after a row: the row is recorded exactly when one of
      its results is false. */
  function Record(dirty: map<int, seq<bool>>, rowIndex: int, results: seq<bool>): (r: map<int, seq<bool>>)
    ensures rowIndex in r <==> (rowIndex in dirty || false in results)
    ensures false in results ==> r[rowIndex] == results
    ensures false !in results ==> r == dirty
    ensures forall k :: k != rowIndex ==> (k in r <==> k in dirty) && (k in r ==> r[k] == dirty[k])
    ensures Sparse(dirty) ==> Sparse(r)
  {
    if false in results then dirty[rowIndex := results] else dirty
  }

  // ---------------------------------------------------------------------
  // The row visitor

  datatype Completion = Normal | Thrown(ex: JavaException)

  /** The row visitor built for one evaluation request. Exactly one of
      `metric` and `spanningMetric` is set by a successful selection; the
      column is set whenever `metric` is. */
  class EvaluateRowVisitor {
    const metric: Metric?
    const spanningMetric: Metric?
    const column: Option<string>

    ghost predicate Valid()
    {
      && (metric != null ==> spanningMetric == null && column.Some?)
      && (spanningMetric != null ==> spanningMetric.span.Some?)
    }

    constructor (metric: Metric?, spanningMetric: Metric?, column: Option<string>)
      requires metric != null ==> spanningMetric == null && column.Some?
      requires spanningMetric != null ==> spanningMetric.span.Some?
      ensures this.metric == metric && this.spanningMetric == spanningMetric && this.column == column
      ensures Valid()
    {
      this.metric := metric;
      this.spanningMetric := spanningMetric;
      this.column := column;
    }

    /** Evaluates the selected metric on one row. `visit` always asks the
        driver to continue; an exception it raises is returned as `Thrown`. */
    method Visit(rowIndex: int, row: Row, evaluate: Evaluator) returns (outcome: Completion)
      requires Valid()
      modifies metric, spanningMetric
      ensures metric != null ==>
                && outcome == Normal
                && metric.evalTuples == FillColumns(old(metric.evalTuples), column.value)
                && metric.dirtyIndex == Record(old(metric.dirtyIndex), rowIndex,
                     TupleResults(metric.evalTuples, rowIndex, row, Lookup(row, column.value), evaluate))
                && metric.measure == old(metric.measure)
      ensures metric != null && old(metric.Valid()) ==> metric.Valid()
      ensures spanningMetric != null && old(spanningMetric.Valid()) ==> spanningMetric.Valid()
      ensures metric == null && spanningMetric == null ==> outcome == Thrown(NullPointer)
      ensures metric == null && spanningMetric != null ==>
                && spanningMetric.evalTuples == old(spanningMetric.evalTuples)
                && spanningMetric.measure == old(spanningMetric.measure)
                && var sp := spanningMetric.span.value;
                   if sp.columns == [] then
                     outcome == Thrown(IndexOutOfBounds) && spanningMetric.dirtyIndex == old(spanningMetric.dirtyIndex)
                   else if !ColumnsBound(spanningMetric.evalTuples) then
                     outcome == Thrown(NullPointer) && spanningMetric.dirtyIndex == old(spanningMetric.dirtyIndex)
                   else
                     outcome == Normal &&
                     spanningMetric.dirtyIndex == Record(old(spanningMetric.dirtyIndex), rowIndex,
                       SpanningResults(sp, spanningMetric.evalTuples, rowIndex, row, Lookup(row, sp.columns[0]), evaluate))
    {
      if metric != null {
        outcome := VisitMetric(rowIndex, row, evaluate);
      } else if spanningMetric != null {
        outcome := VisitSpanning(rowIndex, row, evaluate);
      } else {
        outcome := Thrown(NullPointer);
      }
    }

    /** The single-column branch of `visit`. */
    method VisitMetric(rowIndex: int, row: Row, evaluate: Evaluator) returns (outcome: Completion)
      requires Valid() && metric != null
      modifies metric
      ensures outcome == Normal
      ensures metric.evalTuples == FillColumns(old(metric.evalTuples), column.value)
      ensures metric.dirtyIndex == Record(old(metric.dirtyIndex), rowIndex,
                TupleResults(metric.evalTuples, rowIndex, row, Lookup(row, column.value), evaluate))
      ensures metric.measure == old(metric.measure)
    {
      var m := metric;
      var col := column.value;
      var ct := Lookup(row, col);
      var ts := m.evalTuples;
      // the tuples visited so far, with their column filled
      var filled: seq<EvalTuple> := [];
      var results: seq<bool> := [];
      var entryDirty := false;
      var i := 0;
      while i < |ts|
        invariant 0 <= i <= |ts|
        invariant unchanged(m)
        invariant filled == FillColumns(ts[..i], col)
        invariant results == TupleResults(filled, rowIndex, row, ct, evaluate)
        invariant entryDirty == (false in results)
      {
        ghost var prev := results;
        var t := ts[i];
        if !t.disabled {
          if t.column.None? {
            t := t.(column := Some(col));
          }
          var evaluation := evaluate(t.eval, Bindings(rowIndex, row, t.column.value, ct));
          assert evaluation == evaluate(t.eval, TupleBindings(t, rowIndex, row, ct));
          if evaluation.B? {
            if !evaluation.b {
              entryDirty := true;
            }
            results := results + [evaluation.b];
          }
        }
        assert t == FillColumn(ts[i], col);
        assert results == prev + TupleResult(t, rowIndex, row, ct, evaluate);
        FillColumnsSnoc(ts, i, col);
        TupleResultsSnoc(filled, t, rowIndex, row, ct, evaluate);
        filled := filled + [t];
        i := i + 1;
      }
      assert ts[..i] == ts;
      assert filled == FillColumns(ts, col);
      m.evalTuples := filled;
      if entryDirty {
        m.AddDirtyIndex(rowIndex, results);
      }
      outcome := Normal;
    }

    /** The spanning branch of `visit`. */
    method VisitSpanning(rowIndex: int, row: Row, evaluate: Evaluator) returns (outcome: Completion)
      requires Valid() && metric == null && spanningMetric != null
      modifies spanningMetric
      ensures spanningMetric.evalTuples == old(spanningMetric.evalTuples)
      ensures spanningMetric.measure == old(spanningMetric.measure)
      ensures var sp := spanningMetric.span.value;
              if sp.columns == [] then
                outcome == Thrown(IndexOutOfBounds) && spanningMetric.dirtyIndex == old(spanningMetric.dirtyIndex)
              else if !ColumnsBound(spanningMetric.evalTuples) then
                outcome == Thrown(NullPointer) && spanningMetric.dirtyIndex == old(spanningMetric.dirtyIndex)
              else
                outcome == Normal &&
                spanningMetric.dirtyIndex == Record(old(spanningMetric.dirtyIndex), rowIndex,
                  SpanningResults(sp, spanningMetric.evalTuples, rowIndex, row, Lookup(row, sp.columns[0]), evaluate))
    {
      var s := spanningMetric;
      var sp := s.span.value;
      if sp.columns == [] {
        return Thrown(IndexOutOfBounds);
      }
      var ct := Lookup(row, sp.columns[0]);
      var results: seq<bool> := [];
      var entryDirty := false;
      if sp.evaluable.Some? {
        var spanEvalResult := evaluate(sp.evaluable.value.eval, Bindings(rowIndex, row, "", ct));
        if spanEvalResult.B? {
          results := [spanEvalResult.b];
          entryDirty := !spanEvalResult.b;
        }
      }
      // the checks' results are collected after the spanning result
      var ts := s.evalTuples;
      var checks: seq<bool> := [];
      var i := 0;
      while i < |ts|
        invariant 0 <= i <= |ts|
        invariant unchanged(s)
        invariant ColumnsBound(ts[..i])
        invariant checks == TupleResults(ts[..i], rowIndex, row, ct, evaluate)
        invariant entryDirty == (false in results || false in checks)
      {
        ghost var prev := checks;
        var t := ts[i];
        if !t.disabled {
          if t.column.None? {
            // setting the "columnName" property to null fails
            assert !ColumnsBound(ts);
            return Thrown(NullPointer);
          }
          var evaluation := evaluate(t.eval, Bindings(rowIndex, row, t.column.value, ct));
          assert evaluation == evaluate(t.eval, TupleBindings(t, rowIndex, row, ct));
          if evaluation.B? {
            if !evaluation.b {
              entryDirty := true;
            }
            checks := checks + [evaluation.b];
          }
        }
        assert checks == prev + TupleResult(t, rowIndex, row, ct, evaluate);
        assert ColumnsBound(ts[..i + 1]) &&
               checks == TupleResults(ts[..i + 1], rowIndex, row, ct, evaluate) by {
          assert ts[..i + 1] == ts[..i] + [t];
          TupleResultsSnoc(ts[..i], t, rowIndex, row, ct, evaluate);
        }
        i := i + 1;
      }
      assert ColumnsBound(ts) && results + checks == SpanningResults(sp, ts, rowIndex, row, ct, evaluate) by {
        assert ts[..i] == ts;
      }
      results := results + checks;
      if entryDirty {
        s.AddDirtyIndex(rowIndex, results);
      }
      outcome := Normal;
    }

    /** `end`: the measure is one minus the quality figure computed over the
        whole pass (`quality` stands for that computation). */
    method End(quality: real) returns (outcome: Completion)
      requires Valid()
      modifies metric, spanningMetric
      ensures metric != null ==>
                && outcome == Normal && metric.measure == 1.0 - quality
                && metric.dirtyIndex == old(metric.dirtyIndex) && metric.evalTuples == old(metric.evalTuples)
      ensures metric == null && spanningMetric != null ==>
                && outcome == Normal && spanningMetric.measure == 1.0 - quality
                && spanningMetric.dirtyIndex == old(spanningMetric.dirtyIndex)
                && spanningMetric.evalTuples == old(spanningMetric.evalTuples)
      ensures metric == null && spanningMetric == null ==> outcome == Thrown(NullPointer)
    {
      if metric != null {
        metric.SetMeasure(1.0 - quality);
        outcome := Normal;
      } else if spanningMetric != null {
        spanningMetric.SetMeasure(1.0 - quality);
        outcome := Normal;
      } else {
        outcome := Thrown(NullPointer);
      }
    }
  }

  // ---------------------------------------------------------------------
  // Selecting the metric to evaluate

  /** The metrics of a project: the uniqueness metric, the spanning
      metrics, and the metrics of each column by name. */
  datatype OverlayModel = OverlayModel(
    uniqueness: Metric,
    spanMetrics: seq<Metric>,
    metricsColumns: map<string, map<string, Metric>>)

  /** The uniqueness metric and the listed spanning metrics are spanning. */
  predicate WellFormed(model: OverlayModel)
  {
    && model.uniqueness.span.Some?
    && forall i :: 0 <= i < |model.spanMetrics| ==> model.spanMetrics[i].span.Some?
  }

  /** The metric named `name` among a column's metrics, or null. */
  function ColumnMetric(model: OverlayModel, column: string, name: string): (m: Metric?)
    requires column in model.metricsColumns
    ensures m != null <==> name in model.metricsColumns[column]
    ensures name in model.metricsColumns[column] ==> m == model.metricsColumns[column][name]
  {
    if name in model.metricsColumns[column] then model.metricsColumns[column][name] else null
  }

  /** The metric selection of `doPost`. A column without a metrics map
      makes the lookup of its metric fail with a NullPointerException. */
  method SelectMetric(model: OverlayModel, column: Option<string>, name: string)
    returns (outcome: Completion, metric: Metric?, spanningMetric: Metric?)
    ensures outcome.Thrown? ==> metric == null && spanningMetric == null
    ensures name == "uniqueness" ==> outcome == Normal && metric == null && spanningMetric == model.uniqueness
    ensures name != "uniqueness" && column.None? ==>
              && outcome == Normal && metric == null
              && (spanningMetric == null <==>
                    forall i :: 0 <= i < |model.spanMetrics| ==> model.spanMetrics[i].name != name)
              && (spanningMetric != null ==>
                    exists i :: 0 <= i < |model.spanMetrics| && model.spanMetrics[i] == spanningMetric
                                && spanningMetric.name == name
                                && forall j :: 0 <= j < i ==> model.spanMetrics[j].name != name)
    ensures name != "uniqueness" && column.Some? && column.value !in model.metricsColumns ==>
              outcome == Thrown(NullPointer)
    ensures name != "uniqueness" && column.Some? && column.value in model.metricsColumns ==>
              outcome == Normal && spanningMetric == null && metric == ColumnMetric(model, column.value, name)
  {
    outcome, metric, spanningMetric := Normal, null, null;
    if name == "uniqueness" {
      spanningMetric := model.uniqueness;
    } else if column.None? {
      var i := 0;
      while i < |model.spanMetrics|
        invariant 0 <= i <= |model.spanMetrics|
        invariant spanningMetric == null
        invariant forall j :: 0 <= j < i ==> model.spanMetrics[j].name != name
      {
        if model.spanMetrics[i].name == name {
          spanningMetric := model.spanMetrics[i];
          break;
        }
        i := i + 1;
      }
    } else if column.value !in model.metricsColumns {
      outcome := Thrown(NullPointer);
    } else {
      metric := ColumnMetric(model, column.value, name);
    }
  }

  /** `doPost` up to the row pass: select the metric, then build the
      visitor for it; a failed selection builds none. */
  method PrepareEvaluation(model: OverlayModel, column: Option<string>, name: string)
    returns (outcome: Completion, visitor: EvaluateRowVisitor?)
    requires WellFormed(model)
    ensures outcome == Normal <==> visitor != null
    ensures outcome.Thrown? ==> name != "uniqueness" && column.Some? && column.value !in model.metricsColumns
    ensures visitor != null ==> visitor.Valid() && visitor.column == column
    ensures visitor != null && name == "uniqueness" ==>
              visitor.metric == null && visitor.spanningMetric == model.uniqueness
    ensures visitor != null && name != "uniqueness" && column.Some? ==>
              && column.value in model.metricsColumns
              && visitor.spanningMetric == null && visitor.metric == ColumnMetric(model, column.value, name)
    ensures visitor != null && name != "uniqueness" && column.None? ==>
              && visitor.metric == null
              && (visitor.spanningMetric == null <==>
                    forall i :: 0 <= i < |model.spanMetrics| ==> model.spanMetrics[i].name != name)
              && (visitor.spanningMetric != null ==>
                    exists i :: 0 <= i < |model.spanMetrics| && model.spanMetrics[i] == visitor.spanningMetric
                                && visitor.spanningMetric.name == name
                                && forall j :: 0 <= j < i ==> model.spanMetrics[j].name != name)
  {
    var metric, spanningMetric;
    outcome, metric, spanningMetric := SelectMetric(model, column, name);
    if outcome.Thrown? {
      return outcome, null;
    }
    visitor := new EvaluateRowVisitor(metric, spanningMetric, column);
  }

  // ---------------------------------------------------------------------
  // Properties of a row's evaluation

  /** A row's results contain a false exactly when some enabled check
      evaluated to false. */
  lemma {:induction false} FalseResultIffFailingCheck(ts: seq<EvalTuple>, rowIndex: int, row: Row, cell: Option<Cell>, evaluate: Evaluator)
    requires ColumnsBound(ts)
    ensures false in TupleResults(ts, rowIndex, row, cell, evaluate) <==>
            exists i :: 0 <= i < |ts| && !ts[i].disabled &&
                        evaluate(ts[i].eval, TupleBindings(ts[i], rowIndex, row, cell)) == B(false)
    decreases |ts|
  {
    if ts != [] {
      var init := ts[..|ts| - 1];
      assert ColumnsBound(init);
      FalseResultIffFailingCheck(init, rowIndex, row, cell, evaluate);
      forall i | 0 <= i < |init| ensures init[i] == ts[i] { }
    }
  }

  /** A row whose enabled checks all evaluate to true, or to errors, leaves
      the dirty index as it was. */
  lemma PassingRowStaysClean(dirty: map<int, seq<bool>>, ts: seq<EvalTuple>, rowIndex: int, row: Row, cell: Option<Cell>, evaluate: Evaluator)
    requires ColumnsBound(ts)
    requires forall i :: 0 <= i < |ts| && !ts[i].disabled ==>
               evaluate(ts[i].eval, TupleBindings(ts[i], rowIndex, row, cell)) != B(false)
    ensures Record(dirty, rowIndex, TupleResults(ts, rowIndex, row, cell, evaluate)) == dirty
  {
    FalseResultIffFailingCheck(ts, rowIndex, row, cell, evaluate);
  }

  /** A row with a check that evaluates to false is recorded with its
      results. */
  lemma FailingRowIsRecorded(dirty: map<int, seq<bool>>, ts: seq<EvalTuple>, rowIndex: int, row: Row, cell: Option<Cell>, evaluate: Evaluator, i: int)
    requires ColumnsBound(ts) && 0 <= i < |ts| && !ts[i].disabled
    requires evaluate(ts[i].eval, TupleBindings(ts[i], rowIndex, row, cell)) == B(false)
    ensures var results := TupleResults(ts, rowIndex, row, cell, evaluate);
            rowIndex in Record(dirty, rowIndex, results) && Record(dirty, rowIndex, results)[rowIndex] == results
  {
    FalseResultIffFailingCheck(ts, rowIndex, row, cell, evaluate);
  }

  /** The checks that contribute a result: enabled, and not evaluating to
      an error. */
  predicate Contributes(t: EvalTuple, rowIndex: int, row: Row, cell: Option<Cell>, evaluate: Evaluator)
  {
    !t.disabled && t.column.Some? &&
    evaluate(t.eval, TupleBindings(t, rowIndex, row, cell)).B?
  }

  /** The positions of the contributing checks. */
  function ContributingIndices(ts: seq<EvalTuple>, rowIndex: int, row: Row, cell: Option<Cell>, evaluate: Evaluator): set<int>
  {
    set i | 0 <= i < |ts| && Contributes(ts[i], rowIndex, row, cell, evaluate)
  }

  lemma ContributingIndicesSnoc(ts: seq<EvalTuple>, rowIndex: int, row: Row, cell: Option<Cell>, evaluate: Evaluator)
    requires ts != []
    ensures var n := |ts| - 1;
            && n !in ContributingIndices(ts[..n], rowIndex, row, cell, evaluate)
            && ContributingIndices(ts, rowIndex, row, cell, evaluate)
               == ContributingIndices(ts[..n], rowIndex, row, cell, evaluate)
                  + (if Contributes(ts[n], rowIndex, row, cell, evaluate) then {n} else {})
  {
    var n := |ts| - 1;
    forall i | 0 <= i < n ensures ts[..n][i] == ts[i] { }
  }

  /** One result per contributing check: disabled checks and error
      results add nothing. */
  lemma {:induction false} OneResultPerContributingCheck(ts: seq<EvalTuple>, rowIndex: int, row: Row, cell: Option<Cell>, evaluate: Evaluator)
    requires ColumnsBound(ts)
    ensures |TupleResults(ts, rowIndex, row, cell, evaluate)|
            == |ContributingIndices(ts, rowIndex, row, cell, evaluate)|
    decreases |ts|
  {
    if ts != [] {
      var n := |ts| - 1;
      assert ColumnsBound(ts[..n]);
      OneResultPerContributingCheck(ts[..n], rowIndex, row, cell, evaluate);
      ContributingIndicesSnoc(ts, rowIndex, row, cell, evaluate);
      assert |TupleResult(ts[n], rowIndex, row, cell, evaluate)|
             == if Contributes(ts[n], rowIndex, row, cell, evaluate) then 1 else 0;
    }
  }

  /** Disabled checks never matter: checks that agree on which are
      enabled, and on every enabled check, give the same results whatever
      the disabled ones would evaluate to. */
  lemma {:induction false} DisabledChecksIgnored(ts: seq<EvalTuple>, us: seq<EvalTuple>, rowIndex: int, row: Row, cell: Option<Cell>, evaluate: Evaluator)
    requires ColumnsBound(ts) && |ts| == |us|
    requires forall i :: 0 <= i < |ts| ==> us[i].disabled == ts[i].disabled
    requires forall i :: 0 <= i < |ts| && !ts[i].disabled ==> us[i] == ts[i]
    ensures ColumnsBound(us)
    ensures TupleResults(us, rowIndex, row, cell, evaluate) == TupleResults(ts, rowIndex, row, cell, evaluate)
    decreases |ts|
  {
    if ts != [] {
      var n := |ts| - 1;
      assert ColumnsBound(ts[..n]);
      DisabledChecksIgnored(ts[..n], us[..n], rowIndex, row, cell, evaluate);
    }
  }

  /** The fill happens once: filling again, with any column, changes
      nothing, and a check that already had a column keeps it. */
  lemma FillColumnsOnce(ts: seq<EvalTuple>, column: string, other: string)
    ensures ColumnsBound(FillColumns(ts, column))
    ensures FillColumns(FillColumns(ts, column), other) == FillColumns(ts, column)
  {
  }

  /** The spanning expression's result, when not an error, comes first,
      followed by one result per contributing check. */
  lemma SpanningResultFirst(sp: Span, ts: seq<EvalTuple>, rowIndex: int, row: Row, cell: Option<Cell>, evaluate: Evaluator)
    requires ColumnsBound(ts) && sp.evaluable.Some?
    requires evaluate(sp.evaluable.value.eval, SpanBindings(rowIndex, row, cell)).B?
    ensures var results := SpanningResults(sp, ts, rowIndex, row, cell, evaluate);
            && |results| == 1 + |ContributingIndices(ts, rowIndex, row, cell, evaluate)|
            && results[0] == evaluate(sp.evaluable.value.eval, SpanBindings(rowIndex, row, cell)).b
            && results[1..] == TupleResults(ts, rowIndex, row, cell, evaluate)
  {
    OneResultPerContributingCheck(ts, rowIndex, row, cell, evaluate);
  }

  /** A spanning row's results contain a false exactly when the spanning
      expression or some enabled check evaluated to false. */
  lemma SpanningFalseIffFailingCheck(sp: Span, ts: seq<EvalTuple>, rowIndex: int, row: Row, cell: Option<Cell>, evaluate: Evaluator)
    requires ColumnsBound(ts)
    ensures false in SpanningResults(sp, ts, rowIndex, row, cell, evaluate) <==>
            (sp.evaluable.Some? && evaluate(sp.evaluable.value.eval, SpanBindings(rowIndex, row, cell)) == B(false))
            || exists i :: 0 <= i < |ts| && !ts[i].disabled &&
                           evaluate(ts[i].eval, TupleBindings(ts[i], rowIndex, row, cell)) == B(false)
  {
    FalseResultIffFailingCheck(ts, rowIndex, row, cell, evaluate);
  }

  /** A spanning row is recorded, with all its results, when the spanning
      expression or an enabled check evaluates to false; otherwise the
      dirty index is left as it was. */
  lemma SpanningRowRecordedIffFailing(dirty: map<int, seq<bool>>, sp: Span, ts: seq<EvalTuple>, rowIndex: int, row: Row, cell: Option<Cell>, evaluate: Evaluator)
    requires ColumnsBound(ts)
    ensures var results := SpanningResults(sp, ts, rowIndex, row, cell, evaluate);
            var failing := (sp.evaluable.Some? && evaluate(sp.evaluable.value.eval, SpanBindings(rowIndex, row, cell)) == B(false))
                           || exists i :: 0 <= i < |ts| && !ts[i].disabled &&
                                          evaluate(ts[i].eval, TupleBindings(ts[i], rowIndex, row, cell)) == B(false);
            && (failing ==> rowIndex in Record(dirty, rowIndex, results) && Record(dirty, rowIndex, results)[rowIndex] == results)
            && (!failing ==> Record(dirty, rowIndex, results) == dirty)
  {
    SpanningFalseIffFailingCheck(sp, ts, rowIndex, row, cell, evaluate);
  }

  /** The spanning check is evaluated whether or not it is disabled: its
      flag does not change a row's results. */
  lemma DisabledSpanningCheckStillEvaluated(sp: Span, ts: seq<EvalTuple>, rowIndex: int, row: Row, cell: Option<Cell>, evaluate: Evaluator, disabled: bool)
    requires ColumnsBound(ts) && sp.evaluable.Some?
    ensures var flagged := sp.(evaluable := Some(sp.evaluable.value.(disabled := disabled)));
            SpanningResults(flagged, ts, rowIndex, row, cell, evaluate)
            == SpanningResults(sp, ts, rowIndex, row, cell, evaluate)
  {
  }
}
