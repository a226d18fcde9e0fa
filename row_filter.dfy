/** The metrics row filter: decides whether a row is shown, from the value
    its expression evaluated to, a set of literal matches and three flags
    (select blank, select error, invert). */
module RowFilter {

  /** The subclasses of java.lang.Number an expression can produce. */
  datatype NumKind = IntegerKind | LongKind | DoubleKind

  /** A value produced by evaluating the filter's expression. Numbers are
      kept as their exact real value, tagged with their Java class; the
      rounding of `doubleValue()` is not modelled. */
  datatype Value =
    | ErrorValue(message: string)               // an EvalError
    | Null
    | Str(s: string)
    | Num(kind: NumKind, val: real)
    | Boolean(b: bool)
    | ArrayValue(elems: seq<Value>)             // Object[]
    | CollectionValue(elems: seq<Value>)        // java.util.Collection
    | JsonArrayValue(items: seq<JsonItem>)      // org.json.JSONArray

  /** An element of a JSON array: `get(i)` either yields a value or throws. */
  datatype JsonItem = Decodable(v: Value) | Undecodable

  /** A literal of the configured match set. */
  datatype Literal = LitStr(s: string) | LitNum(kind: NumKind, val: real) | LitBool(b: bool)

  datatype Filter = Filter(matches: seq<Literal>, selectBlank: bool, selectError: bool, invert: bool)

  /** `ExpressionUtils.isError`. */
  predicate IsError(v: Value) { v.ErrorValue? }

  /** `ExpressionUtils.isNonBlankData`: not null, not an error, not the empty string. */
  predicate IsNonBlankData(v: Value)
  {
    !v.Null? && !v.ErrorValue? && !(v.Str? && v.s == "")
  }

  predicate IsMultiValued(v: Value)
  {
    v.ArrayValue? || v.CollectionValue? || v.JsonArrayValue?
  }

  /** `match.equals(v)`: a literal equals only a value of its own class with
      the same content. */
  predicate LiteralEquals(m: Literal, v: Value)
  {
    match m
    case LitStr(s) => v == Str(s)
    case LitNum(k, x) => v == Num(k, x)
    case LitBool(b) => v == Boolean(b)
  }

  /** `testValue(v, match)`: two numbers compare by value, whatever their
      classes; anything else by `equals`, so a literal matches only a value
      of its own kind, and never an error, a null or a multi-valued result. */
  function MatchesLiteral(v: Value, m: Literal): (r: bool)
    ensures v.Num? && m.LitNum? ==> (r <==> v.val == m.val)
    ensures m.LitStr? ==> (r <==> v == Str(m.s))
    ensures m.LitBool? ==> (r <==> v == Boolean(m.b))
    ensures r ==> (v.Str? <==> m.LitStr?) && (v.Num? <==> m.LitNum?) && (v.Boolean? <==> m.LitBool?)
    ensures r ==> !IsError(v) && !v.Null? && !IsMultiValued(v)
  {
    if v.Num? && m.LitNum? then m.val == v.val else LiteralEquals(m, v)
  }

  /** The search over the match set in `testValue(v)`. */
  function AnyMatch(v: Value, matches: seq<Literal>): (r: bool)
    ensures r <==> exists i :: 0 <= i < |matches| && MatchesLiteral(v, matches[i])
  {
    if matches == [] then false
    else MatchesLiteral(v, matches[0]) || AnyMatch(v, matches[1..])
  }

  /** `testValue(v)`: errors are governed by selectError, blanks by
      selectBlank, other data by membership in the match set. */
  function TestValue(f: Filter, v: Value): (r: bool)
    ensures IsError(v) ==> (r <==> f.selectError)
    ensures (v.Null? || v == Str("")) ==> (r <==> f.selectBlank)
    ensures IsNonBlankData(v) ==> (r <==> exists i :: 0 <= i < |f.matches| && MatchesLiteral(v, f.matches[i]))
  {
    if IsError(v) then f.selectError
    else if IsNonBlankData(v) then AnyMatch(v, f.matches)
    else f.selectBlank
  }

  /** The early-return loop over the elements of a multi-valued result. */
  function AnyPasses(f: Filter, vs: seq<Value>): (r: bool)
    ensures r <==> exists i :: 0 <= i < |vs| && TestValue(f, vs[i])
  {
    if vs == [] then false
    else TestValue(f, vs[0]) || AnyPasses(f, vs[1..])
  }

  /** The loop over a JSON array: an element that fails to decode is
      skipped and the scan goes on. */
  function AnyItemPasses(f: Filter, items: seq<JsonItem>): (r: bool)
    ensures r <==> exists i :: 0 <= i < |items| && items[i].Decodable? && TestValue(f, items[i].v)
  {
    if items == [] then false
    else (items[0].Decodable? && TestValue(f, items[0].v)) || AnyItemPasses(f, items[1..])
  }

  /** `internalFilterRow` once the expression has produced `value`. Every
      branch returns its outcome `& !invert`, not `^ invert`, so an inverted
      filter excludes every row. A null or scalar result goes straight to
      `testValue`; a multi-valued one passes when some element does. */
  function InternalFilterRow(f: Filter, value: Value, invert: bool): (r: bool)
    ensures invert ==> !r
    ensures !IsMultiValued(value) ==> (r <==> TestValue(f, value) && !invert)
    ensures (value.ArrayValue? || value.CollectionValue?)
            ==> (r <==> !invert && exists i :: 0 <= i < |value.elems| && TestValue(f, value.elems[i]))
    ensures value.JsonArrayValue?
            ==> (r <==> !invert && exists i :: 0 <= i < |value.items| && value.items[i].Decodable? && TestValue(f, value.items[i].v))
  {
    match value
    case ArrayValue(vs) => AnyPasses(f, vs) && !invert
    case CollectionValue(vs) => AnyPasses(f, vs) && !invert
    case JsonArrayValue(items) => AnyItemPasses(f, items) && !invert
    case _ => TestValue(f, value) && !invert
  }

  /** `filterRow`: the filter's own invert flag. */
  function FilterRow(f: Filter, value: Value): (r: bool)
    ensures f.invert ==> !r
    ensures !f.invert && !IsMultiValued(value) ==> (r <==> TestValue(f, value))
  {
    InternalFilterRow(f, value, f.invert)
  }

  /** The values a JSON array yields, in order, skipping undecodable ones. */
  function Decoded(items: seq<JsonItem>): (vs: seq<Value>)
    ensures |vs| <= |items|
  {
    if items == [] then []
    else (if items[0].Decodable? then [items[0].v] else []) + Decoded(items[1..])
  }

  // ---------------------------------------------------------------------
  // Properties

  /** A row whose value is an error is shown exactly when errors are
      selected and the filter is not inverted, whatever the match set and
      the blank flag. */
  lemma ErrorFollowsSelectError(f: Filter, msg: string)
    ensures FilterRow(f, ErrorValue(msg)) == (f.selectError && !f.invert)
  {
  }

  /** A row whose value is null or empty is shown exactly when blanks are
      selected and the filter is not inverted, whatever the match set. */
  lemma BlankFollowsSelectBlank(f: Filter, v: Value)
    requires v == Null || v == Str("")
    ensures FilterRow(f, v) == (f.selectBlank && !f.invert)
  {
  }

  /** Non-blank data passes only by matching a literal, so an empty match
      set lets no data through. */
  lemma DataPassesIffSomeMatch(f: Filter, v: Value)
    requires IsNonBlankData(v)
    ensures f.matches == [] ==> !TestValue(f, v)
  {
  }

  /** Numbers match by value across Java classes: 5 matches 5.0. */
  lemma NumbersMatchAcrossClasses(f: Filter, k1: NumKind, k2: NumKind, x: real)
    requires LitNum(k1, x) in f.matches
    ensures TestValue(f, Num(k2, x))
  {
    var i :| 0 <= i < |f.matches| && f.matches[i] == LitNum(k1, x);
    assert MatchesLiteral(Num(k2, x), f.matches[i]);
  }

  /** A literal never equals a value of another class: a match set of
      string literals, such as ["5"], matches no number, such as 5. */
  lemma NoCrossClassEquality(f: Filter, k: NumKind, x: real)
    requires forall i :: 0 <= i < |f.matches| ==> f.matches[i].LitStr?
    ensures !TestValue(f, Num(k, x))
  {
  }

  /** A row whose value fails the test is excluded whether or not the
      filter is inverted. */
  lemma InvertIsNotComplement(f: Filter, v: Value)
    requires !IsMultiValued(v) && !TestValue(f, v)
    ensures !InternalFilterRow(f, v, false) && !InternalFilterRow(f, v, true)
  {
  }

  /** A collection filters like the array of its elements, and an empty
      array never passes. */
  lemma MultiValuedAnyElement(f: Filter, vs: seq<Value>)
    ensures InternalFilterRow(f, CollectionValue(vs), false) == InternalFilterRow(f, ArrayValue(vs), false)
    ensures vs == [] ==> !InternalFilterRow(f, ArrayValue(vs), false)
  {
  }

  lemma {:induction false} AnyItemPassesDecoded(f: Filter, items: seq<JsonItem>)
    ensures AnyItemPasses(f, items) == AnyPasses(f, Decoded(items))
    decreases |items|
  {
    if items != [] {
      AnyItemPassesDecoded(f, items[1..]);
      var head := if items[0].Decodable? then [items[0].v] else [];
      var rest := Decoded(items[1..]);
      assert Decoded(items) == head + rest;
      if items[0].Decodable? {
        assert (head + rest)[0] == items[0].v;
        assert (head + rest)[1..] == rest;
      } else {
        assert head + rest == rest;
      }
    }
  }

  /** A JSON array behaves like the array of the elements that decode: an
      undecodable element neither matches nor ends the scan. */
  lemma JsonArrayIsDecodedArray(f: Filter, items: seq<JsonItem>, invert: bool)
    ensures InternalFilterRow(f, JsonArrayValue(items), invert)
            == InternalFilterRow(f, ArrayValue(Decoded(items)), invert)
  {
    AnyItemPassesDecoded(f, items);
  }

  /** Elements are not flattened: an array nested in an array is non-blank
      data that equals no literal. */
  lemma NestedArrayNeverMatches(f: Filter, inner: seq<Value>)
    ensures !TestValue(f, ArrayValue(inner))
  {
  }
}
