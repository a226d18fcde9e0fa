/** The `dateInterval` spanning-column function: it measures the signed
    interval between the dates in two cells of a row, converts it to a time
    unit by a chain of truncating divisions and compares it with a threshold.
    It also synthesizes the textual call `dateInterval("c1", "c2", ...)`
    that the expression parser compiles. */
module DateInterval {
  import opened Common

  /** The value held by a cell, as far as `call` distinguishes it.
      Dates and calendars carry their instant in milliseconds since the epoch. */
  datatype CellValue =
    | DateValue(millis: int)
    | CalendarValue(millis: int)
    | Text(s: string)
    | Number(n: int)
    | NullValue   // a cell whose value is null

  /** An argument handed to `call` by the expression evaluator. */
  datatype Arg = StrArg(s: string) | LongArg(n: int) | OtherArg

  /** What `call` returns or raises. */
  datatype Outcome =
    | Bool(b: bool)             // a java.lang.Boolean
    | Error(message: string)    // an EvalError
    | Thrown(ex: JavaException) // an exception escaping `call`

  const Comparators: seq<string> := ["gteq", "lteq", "gt", "lt", "eq"]
  const DefaultParams: seq<string> := ["lteq", "0", "seconds"]

  /** The number of seconds in each unit the chain of divisions reaches. */
  const UnitSeconds: map<string, int> := map[
    "seconds" := 1, "minutes" := 60, "hours" := 3600, "days" := 86400,
    "weeks" := 604800, "months" := 2592000, "years" := 31536000]

  /** `validateDiff`: the comparator dispatch. */
  function ValidateDiff(comp: string, delta: int, threshold: int): (r: bool)
    ensures r ==> comp in Comparators
  {
    if comp == "gteq" then delta >= threshold
    else if comp == "lteq" then delta <= threshold
    else if comp == "gt" then delta > threshold
    else if comp == "lt" then delta < threshold
    else if comp == "eq" then delta == threshold
    else false
  }

  /** The comparators are each other's complements and combinations, as the
      names promise. */
  lemma ComparatorRelations(delta: int, threshold: int)
    ensures ValidateDiff("lteq", delta, threshold) == !ValidateDiff("gt", delta, threshold)
    ensures ValidateDiff("gteq", delta, threshold) == !ValidateDiff("lt", delta, threshold)
    ensures ValidateDiff("eq", delta, threshold)
            == (ValidateDiff("gteq", delta, threshold) && ValidateDiff("lteq", delta, threshold))
    ensures ValidateDiff("gteq", delta, threshold)
            == (ValidateDiff("gt", delta, threshold) || ValidateDiff("eq", delta, threshold))
  {
  }

  /** The interval in the requested unit, computed as `call` does: seconds,
      then `delta /= 60` twice, then days and the units derived from days.
      `None` for a unit the chain does not know. */
  function UnitDelta(delta: int, unit: string): (r: Option<int>)
    ensures r.Some? <==> unit in UnitSeconds
    ensures r.Some? ==> (delta >= 0 ==> 0 <= r.value <= delta) && (delta <= 0 ==> delta <= r.value <= 0)
  {
    if unit == "seconds" then Some(delta)
    else
      var minutes := TruncDiv(delta, 60);
      if unit == "minutes" then Some(minutes)
      else
        var hours := TruncDiv(minutes, 60);
        if unit == "hours" then Some(hours)
        else
          var days := TruncDiv(hours, 24);
          if unit == "days" then Some(days)
          else if unit == "weeks" then Some(TruncDiv(days, 7))
          else if unit == "months" then Some(TruncDiv(days, 30))
          else if unit == "years" then Some(TruncDiv(days, 365))
          else None
  }

  /** Each step of the chain truncates toward zero, yet the result is the
      interval truncated once by the unit's length in seconds. */
  lemma UnitDeltaIsTruncatedQuotient(delta: int, unit: string)
    ensures unit in UnitSeconds ==> UnitDelta(delta, unit) == Some(TruncDiv(delta, UnitSeconds[unit]))
  {
    TruncDivChain(delta, 60, 60);
    TruncDivChain(delta, 3600, 24);
    TruncDivChain(delta, 86400, 7);
    TruncDivChain(delta, 86400, 30);
    TruncDivChain(delta, 86400, 365);
  }

  predicate IsEmptyString(v: CellValue) { v.Text? && v.s == "" }

  /** `call(bindings, args)`. The cell tuple of the bound row is `cells`: a
      column name outside it has no cell, so `getField` yields null. */
  function Call(cells: map<string, CellValue>, args: seq<Arg>): (r: Outcome)
    ensures |args| < 2 ==> r == Bool(false)
    ensures r.Error? ==>
              |args| >= 3 && args[2].StrArg? &&
              ((args[2].s !in Comparators && r.message == "Unknown comparison " + args[2].s) ||
               (args[2].s in Comparators && |args| >= 5 && args[4].StrArg? &&
                args[4].s !in UnitSeconds && r.message == "Unknown time unit " + args[4].s))
  {
    if |args| < 2 then Bool(false)
    else if !args[0].StrArg? || !args[1].StrArg? then Thrown(ClassCast)
    else
      var from, to := args[0].s, args[1].s;
      if from !in cells || cells[from].NullValue? then Thrown(NullPointer)
      // the emptiness test looks at the start value twice
      else if IsEmptyString(cells[from]) || IsEmptyString(cells[from]) then Bool(false)
      // both tests of the type check stop at the start value unless it is a
      // date or a calendar; only then is the end cell dereferenced
      else if !cells[from].DateValue? && !cells[from].CalendarValue? then Bool(false)
      else if to !in cells then Thrown(NullPointer)
      else if !(cells[from].DateValue? && cells[to].DateValue?)
              && !(cells[from].CalendarValue? && cells[to].CalendarValue?) then Bool(false)
      else if !cells[from].DateValue? then Thrown(ClassCast) // two calendars reach the Date cast
      else
        var delta := TruncDiv(cells[to].millis - cells[from].millis, 1000);
        if |args| >= 3 then
          if !args[2].StrArg? then Thrown(ClassCast)
          else
            var comp := args[2].s;
            if comp !in Comparators then Error("Unknown comparison " + comp)
            else if |args| >= 4 then
              if !args[3].LongArg? then Thrown(ClassCast)
              else if |args| == 4 then Thrown(IndexOutOfBounds)
              else if !args[4].StrArg? then Thrown(ClassCast)
              else
                var unit := args[4].s;
                match UnitDelta(delta, unit)
                case Some(d) => Bool(ValidateDiff(comp, d, args[3].n))
                case None =>
                  UnitDeltaIsTruncatedQuotient(delta, unit);
                  Error("Unknown time unit " + unit)
            else Bool(ValidateDiff(comp, delta, 0))
        else Bool(delta <= 0)
  }

  /** The two leading arguments name two columns whose cells hold dates. */
  predicate DatesResolved(cells: map<string, CellValue>, args: seq<Arg>)
  {
    |args| >= 2 && args[0].StrArg? && args[1].StrArg? &&
    args[0].s in cells && args[1].s in cells &&
    cells[args[0].s].DateValue? && cells[args[1].s].DateValue?
  }

  /** The signed interval in whole seconds, truncated toward zero. */
  function Delta(cells: map<string, CellValue>, args: seq<Arg>): int
    requires DatesResolved(cells, args)
  {
    TruncDiv(cells[args[1].s].millis - cells[args[0].s].millis, 1000)
  }

  /** Without a comparator the end date must not lie after the start date. */
  lemma TwoArgumentsDefaultPolicy(cells: map<string, CellValue>, args: seq<Arg>)
    requires DatesResolved(cells, args) && |args| == 2
    ensures Call(cells, args) == Bool(Delta(cells, args) <= 0)
    ensures Call(cells, args) == Bool(cells[args[1].s].millis - cells[args[0].s].millis < 1000)
  {
    TruncDivRemainder(cells[args[1].s].millis - cells[args[0].s].millis, 1000);
  }

  /** A start value that is not a date (or calendar) paired with a date end,
      or any pair of different kinds, is not a violation: the result is
      `false`, not an error. */
  lemma NotBothDatesIsFalse(cells: map<string, CellValue>, args: seq<Arg>)
    requires |args| >= 2 && args[0].StrArg? && args[1].StrArg?
    requires args[0].s in cells && args[1].s in cells && !cells[args[0].s].NullValue?
    requires !(cells[args[0].s].DateValue? && cells[args[1].s].DateValue?)
    requires !(cells[args[0].s].CalendarValue? && cells[args[1].s].CalendarValue?)
    ensures Call(cells, args) == Bool(false)
  {
  }

  /** A missing end column is only dereferenced after a date or calendar
      start value. */
  lemma MissingEndColumn(cells: map<string, CellValue>, args: seq<Arg>)
    requires |args| >= 2 && args[0].StrArg? && args[1].StrArg?
    requires args[0].s in cells && !cells[args[0].s].NullValue? && !IsEmptyString(cells[args[0].s])
    requires args[1].s !in cells
    ensures Call(cells, args) ==
            if cells[args[0].s].DateValue? || cells[args[0].s].CalendarValue? then Thrown(NullPointer)
            else Bool(false)
  {
  }

  /** The end cell's emptiness is never tested; an empty end text still
      yields `false`, because it is not a date. */
  lemma EmptyEndIsFalse(cells: map<string, CellValue>, args: seq<Arg>)
    requires |args| >= 2 && args[0].StrArg? && args[1].StrArg?
    requires args[0].s in cells && cells[args[0].s].DateValue?
    requires args[1].s in cells && cells[args[1].s] == Text("")
    ensures Call(cells, args) == Bool(false)
  {
  }

  /** Two calendars pass the type test but fail the cast to Date. */
  lemma CalendarsFailTheDateCast(cells: map<string, CellValue>, args: seq<Arg>)
    requires |args| >= 2 && args[0].StrArg? && args[1].StrArg?
    requires args[0].s in cells && args[1].s in cells
    requires cells[args[0].s].CalendarValue? && cells[args[1].s].CalendarValue?
    ensures Call(cells, args) == Thrown(ClassCast)
  {
  }

  /** An unknown comparator is reported before any unit is looked at. */
  lemma UnknownComparison(cells: map<string, CellValue>, args: seq<Arg>)
    requires DatesResolved(cells, args) && |args| >= 3 && args[2].StrArg?
    requires args[2].s !in Comparators
    ensures Call(cells, args) == Error("Unknown comparison " + args[2].s)
  {
  }

  /** A comparator alone compares the interval in seconds with zero. */
  lemma ComparatorAgainstZero(cells: map<string, CellValue>, args: seq<Arg>)
    requires DatesResolved(cells, args) && |args| == 3 && args[2].StrArg?
    requires args[2].s in Comparators
    ensures Call(cells, args) == Bool(ValidateDiff(args[2].s, Delta(cells, args), 0))
  {
  }

  /** A full argument list compares the interval, truncated to whole units,
      with the threshold; an unknown unit is reported as an error. */
  lemma ThresholdInUnit(cells: map<string, CellValue>, args: seq<Arg>)
    requires DatesResolved(cells, args) && |args| >= 5
    requires args[2].StrArg? && args[2].s in Comparators
    requires args[3].LongArg? && args[4].StrArg?
    ensures args[4].s in UnitSeconds ==>
              Call(cells, args) ==
              Bool(ValidateDiff(args[2].s, TruncDiv(Delta(cells, args), UnitSeconds[args[4].s]), args[3].n))
    ensures args[4].s !in UnitSeconds ==>
              Call(cells, args) == Error("Unknown time unit " + args[4].s)
  {
    UnitDeltaIsTruncatedQuotient(Delta(cells, args), args[4].s);
  }

  /** The guard admits four arguments, but the unit is read from a fifth. */
  lemma FourArgumentsOverrun(cells: map<string, CellValue>, args: seq<Arg>)
    requires DatesResolved(cells, args) && |args| == 4
    requires args[2].StrArg? && args[2].s in Comparators && args[3].LongArg?
    ensures Call(cells, args) == Thrown(IndexOutOfBounds)
  {
  }

  /** One day apart, "gteq 1 days" holds. */
  lemma OneDayApart()
    ensures Call(map["start" := DateValue(1577836800000), "end" := DateValue(1577923200000)],
                 [StrArg("start"), StrArg("end"), StrArg("gteq"), LongArg(1), StrArg("days")])
            == Bool(true)
  {
    var cells := map["start" := DateValue(1577836800000), "end" := DateValue(1577923200000)];
    var args := [StrArg("start"), StrArg("end"), StrArg("gteq"), LongArg(1), StrArg("days")];
    assert Delta(cells, args) == 86400;
    ThresholdInUnit(cells, args);
  }

  // ---------------------------------------------------------------------
  // getEvaluable: the textual call expression

  function Quote(s: string): string { "\"" + s + "\"" }

  /** Items quoted and separated by ", ". */
  function QuotedList(xs: seq<string>): string
  {
    if xs == [] then ""
    else if |xs| == 1 then Quote(xs[0])
    else Quote(xs[0]) + ", " + QuotedList(xs[1..])
  }

  function ParamsOrDefault(params: Option<seq<string>>): seq<string>
  {
    match params
    case Some(ps) => ps
    case None => DefaultParams
  }

  /** The expression text `getEvaluable` hands to the parser. */
  function CallText(columns: seq<string>, params: Option<seq<string>>): string
  {
    "dateInterval(" + QuotedList(columns) + ", " + QuotedList(ParamsOrDefault(params)) + ")"
  }

  lemma {:induction false} QuotedListSnoc(xs: seq<string>, y: string)
    ensures QuotedList(xs + [y]) == QuotedList(xs) + (if xs == [] then "" else ", ") + Quote(y)
    decreases |xs|
  {
    if |xs| == 0 {
      assert xs + [y] == [y];
    } else if |xs| == 1 {
      assert xs + [y] == [xs[0], y];
      assert (xs + [y])[1..] == [y];
    } else {
      assert (xs + [y])[1..] == xs[1..] + [y];
      QuotedListSnoc(xs[1..], y);
    }
  }

  lemma {:induction false} QuotedListConcat(xs: seq<string>, ys: seq<string>)
    requires xs != [] && ys != []
    ensures QuotedList(xs) + ", " + QuotedList(ys) == QuotedList(xs + ys)
    decreases |xs|
  {
    if |xs| == 1 {
      assert (xs + ys)[1..] == ys;
    } else {
      assert (xs + ys)[1..] == xs[1..] + ys;
      QuotedListConcat(xs[1..], ys);
    }
  }

  /** Appends every item quoted, with ", " after all but the last, as the two
      iterator loops of `getEvaluable` do. */
  method AppendQuoted(prefix: string, items: seq<string>) returns (text: string)
    ensures text == prefix + QuotedList(items)
  {
    text := prefix;
    var i := 0;
    while i < |items|
      invariant 0 <= i <= |items|
      invariant text == prefix + QuotedList(items[..i]) + (if 0 < i < |items| then ", " else "")
    {
      QuotedListSnoc(items[..i], items[i]);
      assert items[..i + 1] == items[..i] + [items[i]];
      text := text + Quote(items[i]);
      if i + 1 < |items| {
        text := text + ", ";
      }
      i := i + 1;
    }
    assert items[..i] == items;
  }

  /** `getEvaluable` up to the parser call: the call text over the quoted
      columns and the quoted parameters, or the default parameters when
      `params` is null (an empty array gets none). */
  method GetEvaluable(columns: seq<string>, params: Option<seq<string>>) returns (eval: string)
    ensures eval == CallText(columns, params)
  {
    eval := AppendQuoted("dateInterval(", columns);
    var items := if params.Some? then params.value else DefaultParams;
    eval := AppendQuoted(eval + ", ", items);
    eval := eval + ")";
  }

  // ---------------------------------------------------------------------
  // Reading the quoted list back

  /** The index of the first '"' at or after `i`. */
  function FindQuote(s: string, i: nat): (r: Option<nat>)
    ensures r.Some? ==> i <= r.value < |s| && s[r.value] == '"'
    decreases |s| - i
  {
    if i >= |s| then None
    else if s[i] == '"' then Some(i)
    else FindQuote(s, i + 1)
  }

  /** Splits a list of quoted items separated by ", ". This reader takes
      every character between two quotes literally; it stands for the
      expression parser only on items that hold neither a quote nor a
      backslash, which the parser would read as an escape. */
  function ParseQuotedList(s: string): Option<seq<string>>
    decreases |s|
  {
    if |s| < 2 || s[0] != '"' then None
    else match FindQuote(s, 1)
      case None => None
      case Some(j) => ParseRest(s[1..j], s[j + 1..])
  }

  /** What follows a quoted item: the end of the list, or ", " and more items. */
  function ParseRest(item: string, rest: string): Option<seq<string>>
    decreases |rest|
  {
    if rest == "" then Some([item])
    else if |rest| >= 2 && rest[..2] == ", " then
      match ParseQuotedList(rest[2..])
      case None => None
      case Some(tail) => Some([item] + tail)
    else None
  }

  /** Items that a string literal carries verbatim: no quote, which would
      end the literal, and no backslash, which would start an escape. */
  predicate PlainItems(xs: seq<string>)
  {
    forall k :: 0 <= k < |xs| ==> '"' !in xs[k] && '\\' !in xs[k]
  }

  lemma {:induction false} FindClosingQuote(x: string, tail: string, i: nat)
    requires '"' !in x && 1 <= i <= |x| + 1
    ensures FindQuote(Quote(x) + tail, i) == Some(|x| + 1)
    decreases |x| + 1 - i
  {
    var s := Quote(x) + tail;
    if i <= |x| {
      assert s[i] == x[i - 1];
      FindClosingQuote(x, tail, i + 1);
    } else {
      assert s[i] == '"';
    }
  }

  /** Parsing a leading quoted item without quotes inside it. */
  lemma ParseLeadingItem(x: string, rest: string)
    requires '"' !in x
    ensures ParseQuotedList(Quote(x) + rest) == ParseRest(x, rest)
  {
    var s := Quote(x) + rest;
    FindClosingQuote(x, rest, 1);
    assert s[0] == '"';
    assert s[1..|x| + 1] == x;
    assert s[|x| + 2..] == rest;
  }

  /** The quoted list reads back as the items it was built from, provided
      every item is plain. */
  lemma {:induction false} QuotedListRoundTrip(xs: seq<string>)
    requires xs != [] && PlainItems(xs)
    ensures ParseQuotedList(QuotedList(xs)) == Some(xs)
    decreases |xs|
  {
    var x := xs[0];
    assert '"' !in x;
    if |xs| == 1 {
      ParseLeadingItem(x, "");
      assert Quote(x) + "" == QuotedList(xs);
      assert xs == [x];
    } else {
      var tail := ", " + QuotedList(xs[1..]);
      ParseLeadingItem(x, tail);
      assert Quote(x) + tail == QuotedList(xs);
      assert tail[..2] == ", " && tail[2..] == QuotedList(xs[1..]);
      QuotedListRoundTrip(xs[1..]);
      assert ParseRest(x, tail) == Some([x] + xs[1..]);
      assert [x] + xs[1..] == xs;
    }
  }

  /** A column name holding a quote does not survive the round trip. */
  lemma QuoteInNameBreaksRoundTrip()
    ensures ParseQuotedList(QuotedList(["a\"b"])) != Some(["a\"b"])
  {
    var s := QuotedList(["a\"b"]);
    assert s == "\"a\"b\"";
    assert FindQuote(s, 1) == FindQuote(s, 2);
    assert FindQuote(s, 2) == Some(2);
  }

  /** With at least one column and one parameter, the call text carries the
      columns followed by the parameters as one quoted argument list, which
      reads back when every item is plain. */
  lemma CallTextArguments(columns: seq<string>, params: Option<seq<string>>)
    requires columns != [] && ParamsOrDefault(params) != []
    requires PlainItems(columns + ParamsOrDefault(params))
    ensures CallText(columns, params)
            == "dateInterval(" + QuotedList(columns + ParamsOrDefault(params)) + ")"
    ensures ParseQuotedList(QuotedList(columns + ParamsOrDefault(params)))
            == Some(columns + ParamsOrDefault(params))
  {
    var cs, ps := QuotedList(columns), QuotedList(ParamsOrDefault(params));
    ConcatRegroup("dateInterval(", cs, ", ", ps);
    QuotedListConcat(columns, ParamsOrDefault(params));
    QuotedListRoundTrip(columns + ParamsOrDefault(params));
  }

  /** Without columns, or with an empty parameter array (which gets no
      defaults, as only a null one does), the ", " written between the two
      loops dangles: the text is not one quoted argument list. */
  lemma DanglingSeparator(columns: seq<string>, params: Option<seq<string>>)
    ensures CallText(columns, Some([])) == "dateInterval(" + QuotedList(columns) + ", )"
    ensures CallText([], params) == "dateInterval(, " + QuotedList(ParamsOrDefault(params)) + ")"
  {
    var cs, ps := QuotedList(columns), QuotedList(ParamsOrDefault(params));
    assert CallText(columns, Some([])) == "dateInterval(" + cs + ", )" by {
      assert QuotedList([]) == "";
      ConcatRegroup("dateInterval(", cs, ", ", ")");
    }
    assert CallText([], params) == "dateInterval(, " + ps + ")" by {
      assert QuotedList([]) == "";
    }
  }

  lemma ConcatRegroup(p: string, a: string, m: string, b: string)
    ensures p + a + m + b == p + (a + m + b)
  {
  }

  function StrArgs(xs: seq<string>): (r: seq<Arg>)
    ensures |r| == |xs| && forall k :: 0 <= k < |xs| ==> r[k] == StrArg(xs[k])
  {
    if xs == [] then [] else [StrArg(xs[0])] + StrArgs(xs[1..])
  }

  /** Each quoted literal of the synthesized default call arrives as a
      string, so the threshold "0" fails the cast to long whenever the two
      cells hold dates. */
  lemma DefaultParamsThresholdIsText(cells: map<string, CellValue>, start: string, end: string)
    requires start in cells && end in cells
    requires cells[start].DateValue? && cells[end].DateValue?
    ensures Call(cells, StrArgs([start, end] + DefaultParams)) == Thrown(ClassCast)
  {
    var args := StrArgs([start, end] + DefaultParams);
    assert args[2] == StrArg("lteq") && args[3] == StrArg("0");
  }
}
