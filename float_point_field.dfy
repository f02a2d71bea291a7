/**
  Solr's FloatPointField: the schema field type for single-precision values
  indexed as Lucene points. It turns user text into exact, range and set
  queries, chooses the missing-value sentinel for sorting, decodes values read
  back from the index according to their storage mode, and names the
  uninversion strategy.
*/
module FloatPointField {
  import opened Wrappers
  import opened FloatCodec

  /** Float.parseFloat on non-NaN text; None stands for NumberFormatException. */
  type Parser = string -> Option<Key>

  /** The exceptions the field type raises. */
  datatype Error =
    | NumberFormat(text: string)      // Float.parseFloat rejected the text
    | UnexpectedState(field: string)  // toObject: the index field has no numeric value
    | EmptySetQuery                   // getSetQuery's assertion on a non-empty collection
    | Unsortable(field: string)       // SchemaField.checkSortability refused the field

  /**
    What the field type reads of a SchemaField. `sortable` is the outcome of
    checkSortability and `used` that of isFieldUsed; both are computed elsewhere.
  */
  datatype SchemaField = SchemaField(
    name: string,
    multiValued: bool,
    sortable: bool,
    sortMissingFirst: bool,
    sortMissingLast: bool,
    used: bool)

  /** A java.lang.Number, through the two conversions this type applies to it. */
  datatype Number = Number(intValue: Int32, floatValue: Float)

  // -----------------------------------------------------------------------
  // Native values
  // -----------------------------------------------------------------------

  /** The argument of toNativeType, by its runtime class. */
  datatype NativeInput = NullInput | NumberInput(n: Number) | StringInput(s: string) | OtherInput

  /** Its result: null, a Float, or whatever PointField.toNativeType returns. */
  datatype NativeValue = NullValue | FloatValue(f: Float) | FromSuperclass

  function ToNativeType(val: NativeInput, parse: Parser): (r: Result<NativeValue, Error>)
    ensures r == Success(NullValue) <==> val.NullInput?
    ensures r == Success(FromSuperclass) <==> val.OtherInput?
    ensures val.NumberInput? ==> r == Success(FloatValue(val.n.floatValue))
    ensures val.StringInput? ==>
      match parse(val.s)
      case Some(k) => r == Success(FloatValue(Ordered(k)))
      case None => r == Failure(NumberFormat(val.s))
  {
    match val
    case NullInput => Success(NullValue)
    case NumberInput(n) => Success(FloatValue(n.floatValue))
    case StringInput(s) =>
      (match parse(s)
       case Some(k) => Success(FloatValue(Ordered(k)))
       case None => Failure(NumberFormat(s)))
    case OtherInput => Success(FromSuperclass)
  }

  // -----------------------------------------------------------------------
  // Queries
  // -----------------------------------------------------------------------

  /** The Lucene queries the field type builds; a range is closed at both ends. */
  datatype Query =
    | RangeQuery(field: string, lower: Key, upper: Key)
    | ExactQuery(field: string, value: Key)
    | SetQuery(field: string, values: seq<Key>)
    | MatchNoDocs

  /** Whether a document whose value in the query's field is k is matched. */
  predicate Matches(q: Query, k: Key) {
    match q
    case RangeQuery(_, lo, hi) => lo <= k <= hi
    case ExactQuery(_, v) => k == v
    case SetQuery(_, vs) => k in vs
    case MatchNoDocs => false
  }

  /** A bound as the user gave it: absent, or its text parsed. */
  function ParseBound(bound: Option<string>, parse: Parser): Result<Option<Key>, Error> {
    match bound
    case None => Success(None)
    case Some(t) =>
      match parse(t)
      case None => Failure(NumberFormat(t))
      case Some(k) => Success(Some(k))
  }

  /** The keys a requested lower bound admits: all of them when it is absent. */
  predicate AdmitsLower(k: Key, min: Option<Key>, inclusive: bool) {
    match min
    case None => true
    case Some(m) => if inclusive then m <= k else m < k
  }

  /** The keys a requested upper bound admits: all of them when it is absent. */
  predicate AdmitsUpper(k: Key, max: Option<Key>, inclusive: bool) {
    match max
    case None => true
    case Some(m) => if inclusive then k <= m else k < m
  }

  /**
    The inclusive lower end getPointRangeQuery computes for a requested lower
    bound: -Infinity when absent, else the parsed value, stepped up when exclusive.
    It fails exactly when the bound's text does not parse, and never lies below it.
  */
  function LowerBound(min: Option<string>, minInclusive: bool, parse: Parser): (r: Result<Key, Error>)
    ensures r.Failure? <==> ParseBound(min, parse).Failure?
    ensures r.Failure? ==> r.error == ParseBound(min, parse).error
    ensures r.Success? && ParseBound(min, parse).value.Some? ==> ParseBound(min, parse).value.value <= r.value
  {
    var bound :- ParseBound(min, parse);
    match bound
    case None => Success(NegativeInfinity)
    case Some(m) => Success(if minInclusive then m else NextUp(m))
  }

  /**
    The inclusive upper end getPointRangeQuery computes for a requested upper
    bound: +Infinity when absent, else the parsed value, stepped down when exclusive.
    It fails exactly when the bound's text does not parse, and never lies above it.
  */
  function UpperBound(max: Option<string>, maxInclusive: bool, parse: Parser): (r: Result<Key, Error>)
    ensures r.Failure? <==> ParseBound(max, parse).Failure?
    ensures r.Failure? ==> r.error == ParseBound(max, parse).error
    ensures r.Success? && ParseBound(max, parse).value.Some? ==> r.value <= ParseBound(max, parse).value.value
  {
    var bound :- ParseBound(max, parse);
    match bound
    case None => Success(PositiveInfinity)
    case Some(m) => Success(if maxInclusive then m else NextDown(m))
  }

  /**
    getPointRangeQuery, as written: an absent bound becomes an infinity, an
    exclusive one steps to the adjacent value, and the range is built over
    [actualMin, actualMax]. The lower bound is parsed first, so its failure wins.
  */
  method GetPointRangeQuery(field: SchemaField, min: Option<string>, max: Option<string>,
                            minInclusive: bool, maxInclusive: bool, parse: Parser)
    returns (r: Result<Query, Error>)
    ensures r.Success? <==>
      LowerBound(min, minInclusive, parse).Success? && UpperBound(max, maxInclusive, parse).Success?
    ensures LowerBound(min, minInclusive, parse).Failure? ==>
      r == Failure(LowerBound(min, minInclusive, parse).error)
    ensures LowerBound(min, minInclusive, parse).Success? && UpperBound(max, maxInclusive, parse).Failure? ==>
      r == Failure(UpperBound(max, maxInclusive, parse).error)
    ensures r.Success? ==>
      r.value == RangeQuery(field.name, LowerBound(min, minInclusive, parse).value,
                            UpperBound(max, maxInclusive, parse).value)
  {
    var actualMin: Key, actualMax: Key;
    if min.None? {
      actualMin := NegativeInfinity;
    } else {
      var parsed := parse(min.value);
      if parsed.None? {
        return Failure(NumberFormat(min.value));
      }
      actualMin := parsed.value;
      if !minInclusive {
        actualMin := NextUp(actualMin);
      }
    }
    if max.None? {
      actualMax := PositiveInfinity;
    } else {
      var parsed := parse(max.value);
      if parsed.None? {
        return Failure(NumberFormat(max.value));
      }
      actualMax := parsed.value;
      if !maxInclusive {
        actualMax := NextDown(actualMax);
      }
    }
    r := Success(RangeQuery(field.name, actualMin, actualMax));
  }

  /** An absent bound is an infinity whatever its inclusivity flag says. */
  lemma AbsentBoundsAreInfinite(minInclusive: bool, maxInclusive: bool, parse: Parser)
    ensures LowerBound(None, minInclusive, parse) == Success(NegativeInfinity)
    ensures UpperBound(None, maxInclusive, parse) == Success(PositiveInfinity)
  {
  }

  /** An inclusive bound is the parsed value; an exclusive one is the adjacent value inward. */
  lemma PresentBounds(t: string, inclusive: bool, parse: Parser)
    requires parse(t).Some?
    ensures LowerBound(Some(t), inclusive, parse) ==
      Success(if inclusive then parse(t).value else NextUp(parse(t).value))
    ensures UpperBound(Some(t), inclusive, parse) ==
      Success(if inclusive then parse(t).value else NextDown(parse(t).value))
  {
  }

  /** The one request a lower bound cannot express: "strictly above +Infinity". */
  predicate LowerSaturates(min: Option<string>, minInclusive: bool, parse: Parser) {
    !minInclusive && min.Some? && parse(min.value) == Some(PositiveInfinity)
  }

  /** The one request an upper bound cannot express: "strictly below -Infinity". */
  predicate UpperSaturates(max: Option<string>, maxInclusive: bool, parse: Parser) {
    !maxInclusive && max.Some? && parse(max.value) == Some(NegativeInfinity)
  }

  /** Outside saturation, the inclusive lower end admits exactly the requested keys. */
  lemma LowerBoundAdmitsRequested(min: Option<string>, minInclusive: bool, parse: Parser, k: Key)
    requires LowerBound(min, minInclusive, parse).Success?
    requires !LowerSaturates(min, minInclusive, parse)
    ensures ParseBound(min, parse).Success?
    ensures LowerBound(min, minInclusive, parse).value <= k <==>
            AdmitsLower(k, ParseBound(min, parse).value, minInclusive)
  {
    if min.Some? && !minInclusive {
      NextUpIsSuccessor(parse(min.value).value, k);
    }
  }

  /** Outside saturation, the inclusive upper end admits exactly the requested keys. */
  lemma UpperBoundAdmitsRequested(max: Option<string>, maxInclusive: bool, parse: Parser, k: Key)
    requires UpperBound(max, maxInclusive, parse).Success?
    requires !UpperSaturates(max, maxInclusive, parse)
    ensures ParseBound(max, parse).Success?
    ensures k <= UpperBound(max, maxInclusive, parse).value <==>
            AdmitsUpper(k, ParseBound(max, parse).value, maxInclusive)
  {
    if max.Some? && !maxInclusive {
      NextDownIsPredecessor(parse(max.value).value, k);
    }
  }

  /**
    The closed range getPointRangeQuery builds matches a key exactly when the
    requested bounds admit it, unless one of the bounds saturates.
  */
  lemma RangeMatchesRequested(name: string, min: Option<string>, max: Option<string>,
                              minInclusive: bool, maxInclusive: bool, parse: Parser, k: Key)
    requires LowerBound(min, minInclusive, parse).Success?
    requires UpperBound(max, maxInclusive, parse).Success?
    requires !LowerSaturates(min, minInclusive, parse) && !UpperSaturates(max, maxInclusive, parse)
    ensures ParseBound(min, parse).Success? && ParseBound(max, parse).Success?
    ensures Matches(RangeQuery(name, LowerBound(min, minInclusive, parse).value,
                               UpperBound(max, maxInclusive, parse).value), k) <==>
            AdmitsLower(k, ParseBound(min, parse).value, minInclusive) &&
            AdmitsUpper(k, ParseBound(max, parse).value, maxInclusive)
  {
    LowerBoundAdmitsRequested(min, minInclusive, parse, k);
    UpperBoundAdmitsRequested(max, maxInclusive, parse, k);
  }

  /** An exclusive lower bound m below +Infinity: m is not matched, its successor is. */
  lemma ExclusiveLowerBoundary(name: string, t: string, upper: Key, parse: Parser)
    requires parse(t).Some? && parse(t).value < PositiveInfinity
    ensures LowerBound(Some(t), false, parse).Success?
    ensures var q := RangeQuery(name, LowerBound(Some(t), false, parse).value, upper);
      !Matches(q, parse(t).value) &&
      (NextUp(parse(t).value) <= upper ==> Matches(q, NextUp(parse(t).value)))
  {
    NextUpIsSuccessor(parse(t).value, parse(t).value);
  }

  /** An exclusive upper bound M above -Infinity: M is not matched, its predecessor is. */
  lemma ExclusiveUpperBoundary(name: string, t: string, lower: Key, parse: Parser)
    requires parse(t).Some? && NegativeInfinity < parse(t).value
    ensures UpperBound(Some(t), false, parse).Success?
    ensures var q := RangeQuery(name, lower, UpperBound(Some(t), false, parse).value);
      !Matches(q, parse(t).value) &&
      (lower <= NextDown(parse(t).value) ==> Matches(q, NextDown(parse(t).value)))
  {
    NextDownIsPredecessor(parse(t).value, parse(t).value);
  }

  /**
    As written, "strictly above +Infinity" still matches +Infinity: the step
    up saturates, although no key is strictly above +Infinity.
  */
  lemma ExclusiveMinAtInfinityMatchesInfinity(name: string, t: string, parse: Parser, k: Key)
    requires parse(t) == Some(PositiveInfinity)
    ensures LowerBound(Some(t), false, parse) == Success(PositiveInfinity)
    ensures Matches(RangeQuery(name, LowerBound(Some(t), false, parse).value, PositiveInfinity), PositiveInfinity)
    ensures !AdmitsLower(k, Some(PositiveInfinity), false)
  {
  }

  /**
    As written, "strictly below -Infinity" still matches -Infinity: the step
    down saturates, although no key is strictly below -Infinity.
  */
  lemma ExclusiveMaxAtInfinityMatchesInfinity(name: string, u: string, parse: Parser, k: Key)
    requires parse(u) == Some(NegativeInfinity)
    ensures UpperBound(Some(u), false, parse) == Success(NegativeInfinity)
    ensures Matches(RangeQuery(name, NegativeInfinity, UpperBound(Some(u), false, parse).value), NegativeInfinity)
    ensures !AdmitsUpper(k, Some(NegativeInfinity), false)
  {
  }

  /**
    The range query with saturating exclusive bounds answered by a query that
    matches nothing: it then matches exactly the keys the request admits.
  */
  method GetPointRangeQueryGuarded(field: SchemaField, min: Option<string>, max: Option<string>,
                                   minInclusive: bool, maxInclusive: bool, parse: Parser)
    returns (r: Result<Query, Error>)
    ensures r.Success? <==> ParseBound(min, parse).Success? && ParseBound(max, parse).Success?
    ensures ParseBound(min, parse).Failure? ==> r == Failure(ParseBound(min, parse).error)
    ensures ParseBound(min, parse).Success? && ParseBound(max, parse).Failure? ==>
      r == Failure(ParseBound(max, parse).error)
    ensures r.Success? && (LowerSaturates(min, minInclusive, parse) || UpperSaturates(max, maxInclusive, parse)) ==>
      r.value == MatchNoDocs
    ensures r.Success? && !LowerSaturates(min, minInclusive, parse) && !UpperSaturates(max, maxInclusive, parse) ==>
      r.value == RangeQuery(field.name, LowerBound(min, minInclusive, parse).value,
                            UpperBound(max, maxInclusive, parse).value)
    ensures r.Success? ==> forall k: Key :: Matches(r.value, k) <==>
      AdmitsLower(k, ParseBound(min, parse).value, minInclusive) &&
      AdmitsUpper(k, ParseBound(max, parse).value, maxInclusive)
  {
    r := GetPointRangeQuery(field, min, max, minInclusive, maxInclusive, parse);
    if r.Success? {
      if LowerSaturates(min, minInclusive, parse) || UpperSaturates(max, maxInclusive, parse) {
        r := Success(MatchNoDocs);
      } else {
        forall k: Key
          ensures Matches(r.value, k) <==>
            AdmitsLower(k, ParseBound(min, parse).value, minInclusive) &&
            AdmitsUpper(k, ParseBound(max, parse).value, maxInclusive)
        {
          RangeMatchesRequested(field.name, min, max, minInclusive, maxInclusive, parse, k);
        }
      }
    }
  }

  /** getExactQuery: the query matching exactly the parsed value. */
  function GetExactQuery(field: SchemaField, externalVal: string, parse: Parser): (r: Result<Query, Error>)
    ensures r.Success? <==> parse(externalVal).Some?
    ensures r.Failure? ==> r.error == NumberFormat(externalVal)
    ensures r.Success? ==> r.value.ExactQuery? && r.value.field == field.name
    ensures r.Success? ==> forall k: Key :: Matches(r.value, k) <==> parse(externalVal) == Some(k)
  {
    match parse(externalVal)
    case None => Failure(NumberFormat(externalVal))
    case Some(v) => Success(ExactQuery(field.name, v))
  }

  /** An exact query matches what the closed range from the value to itself matches. */
  lemma ExactQueryIsDegenerateRange(field: SchemaField, t: string, parse: Parser, k: Key)
    requires parse(t).Some?
    ensures GetExactQuery(field, t, parse).Success?
    ensures LowerBound(Some(t), true, parse).Success? && UpperBound(Some(t), true, parse).Success?
    ensures Matches(GetExactQuery(field, t, parse).value, k) <==>
      Matches(RangeQuery(field.name, LowerBound(Some(t), true, parse).value,
                         UpperBound(Some(t), true, parse).value), k)
  {
  }

  /** j is the first position whose text does not parse. */
  predicate FirstUnparsable(texts: seq<string>, parse: Parser, j: int) {
    0 <= j < |texts| && parse(texts[j]).None? &&
    forall i :: 0 <= i < j ==> parse(texts[i]).Some?
  }

  /**
    getSetQuery: every text is parsed, in iteration order, into a float array
    of the collection's size; the first failure aborts the call.
  */
  method GetSetQuery(field: SchemaField, externalVal: seq<string>, parse: Parser)
    returns (r: Result<Query, Error>)
    ensures |externalVal| == 0 ==> r == Failure(EmptySetQuery)
    ensures r.Success? <==>
      |externalVal| > 0 && forall i :: 0 <= i < |externalVal| ==> parse(externalVal[i]).Some?
    ensures r.Failure? && |externalVal| > 0 ==>
      exists j :: FirstUnparsable(externalVal, parse, j) && r.error == NumberFormat(externalVal[j])
    ensures r.Success? ==>
      r.value.SetQuery? && r.value.field == field.name && |r.value.values| == |externalVal| &&
      forall i :: 0 <= i < |externalVal| ==> parse(externalVal[i]) == Some(r.value.values[i])
    ensures r.Success? ==> forall k: Key :: Matches(r.value, k) <==>
      exists i :: 0 <= i < |externalVal| && parse(externalVal[i]) == Some(k)
  {
    if |externalVal| == 0 {
      return Failure(EmptySetQuery);
    }
    var values := new Key[|externalVal|];
    var i := 0;
    while i < |externalVal|
      invariant 0 <= i <= |externalVal|
      invariant forall j :: 0 <= j < i ==> parse(externalVal[j]) == Some(values[j])
    {
      var parsed := parse(externalVal[i]);
      if parsed.None? {
        assert FirstUnparsable(externalVal, parse, i);
        return Failure(NumberFormat(externalVal[i]));
      }
      values[i] := parsed.value;
      i := i + 1;
    }
    r := Success(SetQuery(field.name, values[..]));
    forall k: Key | Matches(r.value, k)
      ensures exists j :: 0 <= j < |externalVal| && parse(externalVal[j]) == Some(k)
    {
      var j :| 0 <= j < values.Length && values[j] == k;
      assert parse(externalVal[j]) == Some(k);
    }
  }

  // -----------------------------------------------------------------------
  // Sorting
  // -----------------------------------------------------------------------

  /** A Lucene SortField of type FLOAT: the field, whether reversed, the missing value (null: None). */
  datatype SortField = SortField(field: string, reverse: bool, missingValue: Option<Key>)

  /**
    getSortField: checkSortability first; then missing-last, else missing-first,
    chooses the sentinel, and with neither no sentinel is set.
  */
  function GetSortField(field: SchemaField, top: bool): (r: Result<SortField, Error>)
    ensures r.Failure? <==> !field.sortable
    ensures r.Failure? ==> r.error == Unsortable(field.name)
    ensures r.Success? ==> r.value.field == field.name && r.value.reverse == top
    ensures r.Success? ==> (r.value.missingValue.None? <==> !field.sortMissingLast && !field.sortMissingFirst)
  {
    if !field.sortable then
      Failure(Unsortable(field.name))
    else
      var missingValue :=
        if field.sortMissingLast then Some(if top then NegativeInfinity else PositiveInfinity)
        else if field.sortMissingFirst then Some(if top then PositiveInfinity else NegativeInfinity)
        else None;
      Success(SortField(field.name, top, missingValue))
  }

  /** The four cells of the sentinel table, and missing-last's precedence. */
  lemma MissingValueTable(field: SchemaField, top: bool)
    requires field.sortable
    ensures field.sortMissingLast ==>
      GetSortField(field, top).value.missingValue == Some(if top then NegativeInfinity else PositiveInfinity)
    ensures !field.sortMissingLast && field.sortMissingFirst ==>
      GetSortField(field, top).value.missingValue == Some(if top then PositiveInfinity else NegativeInfinity)
    ensures !field.sortMissingLast && !field.sortMissingFirst ==>
      GetSortField(field, top).value.missingValue == None
  {
  }

  /** Whether a sort field puts a no later than b: ascending, descending when reversed. */
  predicate SortsNoLaterThan(sf: SortField, a: Key, b: Key) {
    if sf.reverse then b <= a else a <= b
  }

  /**
    With missing-last, a document without a value sorts no earlier than every
    value, in either direction; a value equal to the sentinel infinity ties with it.
  */
  lemma MissingLastSortsLast(field: SchemaField, top: bool, k: Key)
    requires field.sortable && field.sortMissingLast
    ensures GetSortField(field, top).Success? && GetSortField(field, top).value.missingValue.Some?
    ensures SortsNoLaterThan(GetSortField(field, top).value, k,
                             GetSortField(field, top).value.missingValue.value)
  {
  }

  /**
    With missing-first alone, a document without a value sorts no later than
    every value, in either direction; a value equal to the sentinel infinity ties with it.
  */
  lemma MissingFirstSortsFirst(field: SchemaField, top: bool, k: Key)
    requires field.sortable && !field.sortMissingLast && field.sortMissingFirst
    ensures GetSortField(field, top).Success? && GetSortField(field, top).value.missingValue.Some?
    ensures SortsNoLaterThan(GetSortField(field, top).value,
                             GetSortField(field, top).value.missingValue.value, k)
  {
  }

  /**
    The sentinel is an ordinary infinity, so missing documents are not strictly
    last (first): a value ties with them exactly when it is that infinity.
  */
  lemma SentinelTiesOnlyWithInfinity(field: SchemaField, top: bool, k: Key)
    requires field.sortable && (field.sortMissingLast || field.sortMissingFirst)
    ensures GetSortField(field, top).Success? && GetSortField(field, top).value.missingValue.Some?
    ensures var sf := GetSortField(field, top).value;
      var sentinel := sf.missingValue.value;
      (sentinel == PositiveInfinity || sentinel == NegativeInfinity) &&
      (field.sortMissingLast ==> (SortsNoLaterThan(sf, sentinel, k) <==> k == sentinel)) &&
      (!field.sortMissingLast ==> (SortsNoLaterThan(sf, k, sentinel) <==> k == sentinel))
  {
  }

  // -----------------------------------------------------------------------
  // Values read back from the index
  // -----------------------------------------------------------------------

  /** Lucene's DocValuesType. */
  datatype DocValuesType = NoDocValues | Numeric | Binary | Sorted | SortedNumeric | SortedSet

  datatype IndexableFieldType = IndexableFieldType(stored: bool, docValuesType: DocValuesType)

  /** An index field: name, type and numericValue() (absent: null). */
  datatype IndexableField = IndexableField(name: string, fieldType: IndexableFieldType, numericValue: Option<Number>)

  /** toObject's result: a decoded Float, or the field's own Number. */
  datatype StoredObject = DecodedFloat(f: Float) | SameNumber(n: Number)

  /**
    toObject(IndexableField): a missing numeric value is an internal error; an
    unstored NUMERIC doc value holds raw bits, an unstored SORTED_NUMERIC one
    the sortable layout; anything else is returned as it is.
  */
  function ToObject(f: IndexableField): (r: Result<StoredObject, Error>)
    ensures r.Failure? <==> f.numericValue.None?
    ensures r.Failure? ==> r.error == UnexpectedState(f.name)
    ensures r.Success? && r.value.SameNumber? ==> r.value.n == f.numericValue.value
    ensures r.Success? ==> (r.value.SameNumber? <==>
      f.fieldType.stored || f.fieldType.docValuesType !in {Numeric, SortedNumeric})
    ensures r.Success? && !f.fieldType.stored && f.fieldType.docValuesType == Numeric ==>
      r.value == DecodedFloat(IntBitsToFloat(f.numericValue.value.intValue))
    ensures r.Success? && !f.fieldType.stored && f.fieldType.docValuesType == SortedNumeric ==>
      r.value == DecodedFloat(SortableIntToFloat(f.numericValue.value.intValue))
  {
    match f.numericValue
    case None => Failure(UnexpectedState(f.name))
    case Some(val) =>
      if !f.fieldType.stored && f.fieldType.docValuesType == Numeric then
        Success(DecodedFloat(IntBitsToFloat(val.intValue)))
      else if !f.fieldType.stored && f.fieldType.docValuesType == SortedNumeric then
        Success(DecodedFloat(SortableIntToFloat(val.intValue)))
      else
        Success(SameNumber(val))
  }

  /** A single-valued doc value holding a float's raw bits reads back as that float. */
  lemma NumericDocValueRoundTrip(name: string, k: Key, boxed: Float)
    ensures ToObject(IndexableField(name, IndexableFieldType(false, Numeric),
                                    Some(Number(FloatToIntBits(k), boxed)))) == Success(DecodedFloat(Ordered(k)))
  {
  }

  /** A multi-valued doc value holding a float's sortable int reads back as that float. */
  lemma SortedNumericDocValueRoundTrip(name: string, k: Key, boxed: Float)
    ensures ToObject(IndexableField(name, IndexableFieldType(false, SortedNumeric),
                                    Some(Number(FloatToSortableInt(k), boxed)))) == Success(DecodedFloat(Ordered(k)))
  {
  }

  /** The uninversion strategies a float point field advertises. */
  datatype UninversionType = SortedFloat | FloatPoint

  function GetUninversionType(sf: SchemaField): (t: UninversionType)
    ensures t == SortedFloat <==> sf.multiValued
    ensures t == FloatPoint <==> !sf.multiValued
  {
    if sf.multiValued then SortedFloat else FloatPoint
  }

  // -----------------------------------------------------------------------
  // Indexing
  // -----------------------------------------------------------------------

  /** createField's value: a Number, or any other object by its toString(). */
  datatype FieldInput = NumberValue(n: Number) | TextValue(text: string)

  /** The indexed point: new FloatPoint(name, value). */
  datatype FloatPointValue = FloatPointValue(field: string, value: Float)

  /** createField: nothing for an unused field; otherwise a point holding the value. */
  function CreateField(field: SchemaField, value: FieldInput, parse: Parser): (r: Result<Option<FloatPointValue>, Error>)
    ensures !field.used ==> r == Success(None)
    ensures field.used && value.NumberValue? ==>
      r == Success(Some(FloatPointValue(field.name, value.n.floatValue)))
    ensures field.used && value.TextValue? ==>
      match parse(value.text)
      case Some(k) => r == Success(Some(FloatPointValue(field.name, Ordered(k))))
      case None => r == Failure(NumberFormat(value.text))
  {
    if !field.used then
      Success(None)
    else
      match value
      case NumberValue(n) => Success(Some(FloatPointValue(field.name, n.floatValue)))
      case TextValue(text) =>
        match parse(text)
        case None => Failure(NumberFormat(text))
        case Some(k) => Success(Some(FloatPointValue(field.name, Ordered(k))))
  }

  /**
    Text indexed through createField is found again by an exact query on the
    same text, and toNativeType reads the text as the same value.
  */
  lemma IndexedTextIsFound(field: SchemaField, t: string, parse: Parser)
    requires field.used && parse(t).Some?
    ensures CreateField(field, TextValue(t), parse).Success?
    ensures var point := CreateField(field, TextValue(t), parse).value;
      point.Some? && point.value.field == field.name && point.value.value.Ordered? &&
      GetExactQuery(field, t, parse).Success? &&
      Matches(GetExactQuery(field, t, parse).value, point.value.value.key) &&
      ToNativeType(StringInput(t), parse) == Success(FloatValue(point.value.value))
  {
  }
}
