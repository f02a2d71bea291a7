# FloatPointField, modelled in Dafny

A model of the decision logic of Solr's `FloatPointField`, the schema field type
for single-precision floating-point values indexed as Lucene points. It covers:

- how user text becomes an exact query, a range query and a set query;
- the missing-value sentinel chosen for sorting;
- how a value read back from the index is decoded, by storage mode;
- the uninversion strategy the field advertises;
- the conversions `toNativeType` and `createField` apply.

Floating-point numerics stay out. A non-NaN float is its Lucene "sortable
int" key (`FloatCodec.Key`), the signed 32-bit integer that
`NumericUtils.floatToSortableInt` assigns to it:

- −∞ is the least key, `-2139095041` (`0x807FFFFF`);
- +∞ is the greatest key, `2139095040` (`0x7F800000`);
- the key order is `Float.compare` order, so −0.0 sorts just below +0.0;
- in this domain `FloatPoint.nextUp`/`nextDown` are successor and predecessor,
  saturating at the infinities (Lucene's −0.0 → +0.0 special case included);
- `Float.intBitsToFloat` and `NumericUtils.sortableIntToFloat` are modelled
  exactly on the bit patterns: a sortable int outside the key interval is NaN;
  a raw pattern is NaN exactly when its sortable bits lie outside it.

Files:

- `wrappers.dfy`: `Option` and `Result`.
- `float_codec.dfy` (module `FloatCodec`): the key domain, the adjacent-value
  steps and the raw and sortable 32-bit layouts, each encoder promising its decoder undoes it.
- `float_point_field.dfy` (module `FloatPointField`): the field type's operations.

Inputs the model cannot compute are parameters:

- `Float.parseFloat` is a parameter `parse: string -> Option<Key>`. `None`
  stands for `NumberFormatException`.
- A `java.lang.Number` is the pair of values this type reads from it:
  `intValue()` and `floatValue()`.
- `SchemaField.checkSortability` and `PointField.isFieldUsed` are computed
  elsewhere. Their outcomes are the fields `sortable` and `used`.

## Model

| member | source | states |
|---|---|---|
| FloatCodec.NextUp | solr6.5.0/solr/core/src/java/org/apache/solr/schema/FloatPointField.java:72 | `FloatPoint.nextUp`: the adjacent value above, saturating at +∞ (Lucene's −0.0 → +0.0 included) |
| FloatCodec.NextDown | solr6.5.0/solr/core/src/java/org/apache/solr/schema/FloatPointField.java:80 | `FloatPoint.nextDown`: the adjacent value below, saturating at −∞ (Lucene's +0.0 → −0.0 included) |
| FloatCodec.NextUpIsSuccessor | solr6.5.0/solr/core/src/java/org/apache/solr/schema/FloatPointField.java:71-73 | below +∞, `NextUp(k)` is the least key strictly above `k` |
| FloatCodec.NextDownIsPredecessor | solr6.5.0/solr/core/src/java/org/apache/solr/schema/FloatPointField.java:79-81 | above −∞, `NextDown(k)` is the greatest key strictly below `k` |
| FloatCodec.StepInversion | solr6.5.0/solr/core/src/java/org/apache/solr/schema/FloatPointField.java:70-81 | the steps undo each other away from the ends; `NextUp(+∞) = +∞`, `NextDown(−∞) = −∞` |
| FloatCodec.SortableFloatBits | solr6.5.0/solr/core/src/java/org/apache/solr/schema/FloatPointField.java:96-98 | `NumericUtils.sortableFloatBits`: a pattern with the sign bit clear is kept; one with it set keeps the sign and has its 31 low bits complemented |
| FloatCodec.SortableFloatBitsInvolution | solr6.5.0/solr/core/src/java/org/apache/solr/schema/FloatPointField.java:96-98 | the raw↔sortable bit transform is its own inverse and keeps the sign |
| FloatCodec.SortableIntToFloat | solr6.5.0/solr/core/src/java/org/apache/solr/schema/FloatPointField.java:98 | a sortable int decodes to the value with that key when it lies in [−∞, +∞], and to NaN otherwise |
| FloatCodec.IntBitsToFloat | solr6.5.0/solr/core/src/java/org/apache/solr/schema/FloatPointField.java:96 | `Float.intBitsToFloat`: a raw pattern decodes to the value whose sortable int is the pattern's sortable bits, or to NaN when that lies outside [−∞, +∞] |
| FloatCodec.FloatToIntBits | solr6.5.0/solr/core/src/java/org/apache/solr/schema/FloatPointField.java:96 | `Float.floatToIntBits`, the raw layout a NUMERIC doc value holds: `intBitsToFloat` undoes it for every non-NaN value |
| FloatCodec.FloatToSortableInt | solr6.5.0/solr/core/src/java/org/apache/solr/schema/FloatPointField.java:98 | `NumericUtils.floatToSortableInt`, the layout a SORTED_NUMERIC doc value holds: `sortableIntToFloat` undoes it for every non-NaN value |
| FloatCodec.RawDecodeInjective | solr6.5.0/solr/core/src/java/org/apache/solr/schema/FloatPointField.java:96 | two raw patterns that decode to the same ordered value are equal |
| FloatCodec.RawLayoutOrder | solr6.5.0/solr/core/src/java/org/apache/solr/schema/FloatPointField.java:95-98 | raw bits order non-negative values like the keys do and reverse the order of negative ones |
| FloatPointField.ToNativeType | solr6.5.0/solr/core/src/java/org/apache/solr/schema/FloatPointField.java:56-61 | null gives null; a Number gives its `floatValue()`; a String gives its parse or `NumberFormatException`; anything else goes to the superclass |
| FloatPointField.GetPointRangeQuery | solr6.5.0/solr/core/src/java/org/apache/solr/schema/FloatPointField.java:64-84 | fails exactly when a present bound does not parse, the lower bound first; otherwise builds the closed range over the two computed ends |
| FloatPointField.LowerBound | solr6.5.0/solr/core/src/java/org/apache/solr/schema/FloatPointField.java:66-74 | the inclusive lower end: fails exactly when a present min does not parse, and never lies below the parsed min |
| FloatPointField.UpperBound | solr6.5.0/solr/core/src/java/org/apache/solr/schema/FloatPointField.java:75-82 | the inclusive upper end: fails exactly when a present max does not parse, and never lies above the parsed max |
| FloatPointField.AbsentBoundsAreInfinite | solr6.5.0/solr/core/src/java/org/apache/solr/schema/FloatPointField.java:67-76 | an absent min is −∞ and an absent max is +∞, whatever the inclusivity flags |
| FloatPointField.PresentBounds | solr6.5.0/solr/core/src/java/org/apache/solr/schema/FloatPointField.java:69-82 | an inclusive bound is the parsed value; an exclusive min is `nextUp` of it, an exclusive max `nextDown` |
| FloatPointField.LowerBoundAdmitsRequested | solr6.5.0/solr/core/src/java/org/apache/solr/schema/FloatPointField.java:67-74 | unless it saturates, the computed inclusive lower end admits exactly the keys the requested bound admits |
| FloatPointField.UpperBoundAdmitsRequested | solr6.5.0/solr/core/src/java/org/apache/solr/schema/FloatPointField.java:75-82 | unless it saturates, the computed inclusive upper end admits exactly the keys the requested bound admits |
| FloatPointField.RangeMatchesRequested | solr6.5.0/solr/core/src/java/org/apache/solr/schema/FloatPointField.java:64-84 | unless a bound saturates, the built range matches a key exactly when both requested bounds admit it |
| FloatPointField.ExclusiveLowerBoundary | solr6.5.0/solr/core/src/java/org/apache/solr/schema/FloatPointField.java:70-73 | with an exclusive min `m` below +∞, `m` is not matched and `nextUp(m)` is, when it lies at or below the upper end |
| FloatPointField.ExclusiveUpperBoundary | solr6.5.0/solr/core/src/java/org/apache/solr/schema/FloatPointField.java:78-81 | with an exclusive max `M` above −∞, `M` is not matched and `nextDown(M)` is, when it lies at or above the lower end |
| FloatPointField.ExclusiveMinAtInfinityMatchesInfinity | solr6.5.0/solr/core/src/java/org/apache/solr/schema/FloatPointField.java:70-73 | an exclusive min of +∞ gives the lower end +∞, so the range up to +∞ matches +∞, though no key lies strictly above +∞ |
| FloatPointField.ExclusiveMaxAtInfinityMatchesInfinity | solr6.5.0/solr/core/src/java/org/apache/solr/schema/FloatPointField.java:78-81 | an exclusive max of −∞ gives the upper end −∞, so the range from −∞ matches −∞, though no key lies strictly below −∞ |
| FloatPointField.GetPointRangeQueryGuarded | solr6.5.0/solr/core/src/java/org/apache/solr/schema/FloatPointField.java:64-84 | the range query with the saturating cases answered by a match-nothing query; otherwise the same closed range on the field; either way it matches exactly the keys the request admits |
| FloatPointField.GetExactQuery | solr6.5.0/solr/core/src/java/org/apache/solr/schema/FloatPointField.java:108-110 | fails exactly when the text does not parse; otherwise it matches exactly the parsed value |
| FloatPointField.ExactQueryIsDegenerateRange | solr6.5.0/solr/core/src/java/org/apache/solr/schema/FloatPointField.java:108-110 | the exact query matches what the closed range from the value to itself matches |
| FloatPointField.GetSetQuery | solr6.5.0/solr/core/src/java/org/apache/solr/schema/FloatPointField.java:113-122 | an empty collection fails the assertion; the first text that does not parse aborts the call; otherwise the values have the input's length, element `i` parsed from text `i`, and the query matches exactly the parsed values |
| FloatPointField.GetSortField | solr6.5.0/solr/core/src/java/org/apache/solr/schema/FloatPointField.java:137-152 | fails exactly when the field is not sortable; otherwise it keeps the field name and `top`, and sets a sentinel exactly when a missing flag is set |
| FloatPointField.MissingValueTable | solr6.5.0/solr/core/src/java/org/apache/solr/schema/FloatPointField.java:140-148 | missing-last gives −∞ when `top` and +∞ otherwise, and wins over missing-first; missing-first gives +∞ when `top` and −∞ otherwise; neither gives no sentinel |
| FloatPointField.MissingLastSortsLast | solr6.5.0/solr/core/src/java/org/apache/solr/schema/FloatPointField.java:144-145 | with missing-last a missing document sorts no earlier than every value, in either direction; a value equal to the sentinel infinity ties with it |
| FloatPointField.MissingFirstSortsFirst | solr6.5.0/solr/core/src/java/org/apache/solr/schema/FloatPointField.java:146-147 | with missing-first alone a missing document sorts no later than every value, in either direction; a value equal to the sentinel infinity ties with it |
| FloatPointField.SentinelTiesOnlyWithInfinity | solr6.5.0/solr/core/src/java/org/apache/solr/schema/FloatPointField.java:144-147 | the sentinel is ±∞, and a value ties with a missing document exactly when it equals that infinity |
| FloatPointField.ToObject | solr6.5.0/solr/core/src/java/org/apache/solr/schema/FloatPointField.java:92-105 | no numeric value is an internal error; unstored NUMERIC decodes raw bits; unstored SORTED_NUMERIC decodes the sortable layout; every other case returns the number unchanged |
| FloatPointField.NumericDocValueRoundTrip | solr6.5.0/solr/core/src/java/org/apache/solr/schema/FloatPointField.java:95-96 | a NUMERIC doc value holding a float's raw bits reads back as that float |
| FloatPointField.SortedNumericDocValueRoundTrip | solr6.5.0/solr/core/src/java/org/apache/solr/schema/FloatPointField.java:97-98 | a SORTED_NUMERIC doc value holding a float's sortable int reads back as that float |
| FloatPointField.GetUninversionType | solr6.5.0/solr/core/src/java/org/apache/solr/schema/FloatPointField.java:155-161 | SORTED_FLOAT exactly when the field is multi-valued, FLOAT_POINT exactly when it is not |
| FloatPointField.CreateField | solr6.5.0/solr/core/src/java/org/apache/solr/schema/FloatPointField.java:182-190 | nothing for an unused field; otherwise a point on the field holding the Number's `floatValue()` or the parsed text, or `NumberFormatException` |
| FloatPointField.IndexedTextIsFound | solr6.5.0/solr/core/src/java/org/apache/solr/schema/FloatPointField.java:182-190 | the value stored from a text is matched by the exact query on the same text, and `toNativeType` reads the text as the same value |

## Left out

- NaN in queries and sorting: `parse` returns only ordered values. Text that `Float.parseFloat` reads as NaN is outside the model, because NaN has no place in the total order. Decoding a bit pattern can still give `NaN`.
- The IEEE 754 binary32 arithmetic behind `Float.parseFloat`, `Float.toString` and the `floatValue()`/`intValue()` conversions of a `Number`. These are floating-point numerics, so they are parameters or fields of the model.
- The bodies of Lucene's `newRangeQuery`, `newExactQuery` and `newSetQuery`. Each becomes a plain query record; `Matches` says which keys each record matches.
- `getValueSource`, `getSingleValueSource`, `getNumericType`, `getStoredField`, `toObject(SchemaField, BytesRef)`, `indexedToReadable` and `readableToIndexed`. These are thin wrappers over library objects and byte buffers.
- The boost trace logging in `createField`: it is I/O with no effect on the result.
- `SchemaField.checkSortability` and `PointField.isFieldUsed`: their code is not part of this model. The model takes their outcomes as inputs.
- `GetSetQuery`: models the source's `assert` with Java assertions enabled, as an error for an empty collection. With assertions disabled the source would build an empty set query.
- The superclass branch of `toNativeType` (an argument that is neither null, a Number nor a String). `PointField` is not part of this model, so that branch is the result `FromSuperclass`.
- Selecting one value out of several for a multi-valued document, and the value-source adapter. Their logic lives in Lucene; the file only constructs them (`getValueSource`, `getSingleValueSource`, left out above).

## Findings

| source | as written | input that shows it | evidently intended | confidence | as-written member | corrected member |
|---|---|---|---|---|---|---|
| solr6.5.0/solr/core/src/java/org/apache/solr/schema/FloatPointField.java:71-81 | an exclusive bound is made inclusive with `nextUp`/`nextDown`, and these saturate at the infinities | min `"Infinity"` with `minInclusive = false` (or max `"-Infinity"` with `maxInclusive = false`) builds `[+∞, …]` (or `[…, −∞]`), which matches documents holding +∞ (or −∞) | a bound "strictly above +∞" or "strictly below −∞" matches no document | medium; not executed | FloatPointField.ExclusiveMinAtInfinityMatchesInfinity | FloatPointField.GetPointRangeQueryGuarded |
