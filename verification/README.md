# Cloud Spanner C++ client: Values, the reflection bridge and the result-set source

This project models three parts of the Cloud Spanner C++ client in Dafny and proves properties of them.

**The `Value` type system.** A `Value` holds one pair: a wire type descriptor (`google.spanner.v1.Type`) and a wire value tree (`google.protobuf.Value`).
- C++ values enter through the `Value{x}` constructor (`Values.MakeValue`) and `MakeNullValue<T>()`.
- They leave through `get<T>()` (`Values.Get`).
- They travel as the pair itself through `ToProto` / `FromProto`.
- Native C++ types are reified as the `NativeType` datatype, and native values as `NativeValue`.
- A struct field `std::pair<std::string, T>` carries its name in the value, so a descriptor is a function of the type and the value (`Values.TypeOf`).

The headers and sources of `Value` are not part of this model. The behaviour modelled here is the one the unit tests in `google/cloud/spanner/value_test.cc` pin down:
- `get<T>` first checks the shape of the descriptor, ignoring field names, optionality and pair wrappers;
- then it rejects a null unless `T` is an `optional`;
- then it checks the kind of the tree, and finally parses it;
- equality compares the whole descriptor, field names included, and then the trees, with a NaN double equal to nothing;
- nulls are typed: a null carries the descriptor of its type.

The wire renderings are their own modules:
- `Decimal`: an int64 is written as `std::to_string` writes it, and the parser accepts exactly a minus sign and digits within range;
- `Base64`: the padded base64 alphabet of section 4 of RFC 4648, with both round trips proved;
- `CivilTime`: the `YYYY-MM-DD` full-date of section 5.6 of RFC 3339, and a UTC timestamp with a nine-digit fraction.

**The reflection bridge** (`google/cloud/spanner/internal/tuple_utils.h`). Each compile-time fact about a product type becomes a field of a `Shape` record:
- whether the tuple-size trait is specialised;
- the element count;
- the element-name accessor at each index, and whether it yields a string.

`NumElements`, `HasNumElements`, the named-struct test and the traversals are modelled over it:
- `ForEach` is a loop over a `seq` that threads the forwarded argument;
- `ForEachNamed` is the same loop, passing each element's name as well;
- a `ForEach` with a mutating functor updates an `array` in place.

**The result-set source** (`google/cloud/spanner/internal/partial_result_set_source.h`). `PartialResultSetSource.Source` is a class with the same five cursor fields as the C++ class, plus the reader it owns. Its accessors are functions that read only `lastResult`. The protobuf messages are datatypes: a sub-message that may be absent is an `Option`, and the `row_count` oneof has one constructor per case plus a constructor for "not set".

## Model

| member | source | states |
|---|---|---|
| Values.MakeValue | google/cloud/spanner/value_test.cc:201-205 | `Value{x}` passes the shape check of its own type, and its tree is null exactly when `x` is an absent optional |
| Values.TypeOfMatches | google/cloud/spanner/value_test.cc:201-205 | the descriptor built for a value always passes the shape check of the value's type |
| Values.EncodeIsNull | google/cloud/spanner/value_test.cc:216-221 | the only native value encoded as a null is the absent optional |
| Values.MakeNullValue | google/cloud/spanner/value_test.cc:216-221 | `MakeNullValue<T>()` is a null tree |
| Values.FieldName | google/cloud/spanner/value_test.cc:710-726 | a named struct takes its field names from the bridge; otherwise a pair field is named by its pair and other fields are "" |
| Values.EncodeFloat64 | google/cloud/spanner/value_test.cc:599-630 | a double is sent as a number exactly when it is finite |
| Values.ToProto | google/cloud/spanner/value_test.cc:223-225 | `ToProto` hands out the descriptor and the tree of the Value |
| Values.FromProto | google/cloud/spanner/value_test.cc:223-225 | `FromProto` builds the Value whose `ToProto` is the given pair |
| Values.Decode | google/cloud/spanner/value_test.cc:758-924 | a successful decode found a fitting kind and produced a value of the requested type; a null decodes exactly when the requested type is an optional; decoding never reports a type mismatch, which is the shape check's error alone |
| Values.Get | google/cloud/spanner/value_test.cc:197-231 | `get<T>` fails with a type mismatch exactly when the shape check fails, and a successful `get<T>` read a tree of a kind `T` accepts and returns a value of type `T` |
| ValueProperties.ScalarRoundTrip | google/cloud/spanner/value_test.cc:577-653 | every scalar reads back from its wire form |
| ValueProperties.DecodeEncode | google/cloud/spanner/value_test.cc:697-726 | decoding the encoding of any value, under any descriptor that passes the shape check and names the fields as the value does, gives the value back |
| ValueProperties.OptionalRoundTrip | google/cloud/spanner/value_test.cc:210-231 | the same round trip for an optional: a null reads as absent and a present value as itself |
| ValueProperties.VectorRoundTrip | google/cloud/spanner/value_test.cc:697-708 | the same round trip for an array, item by item |
| ValueProperties.ProductRoundTrip | google/cloud/spanner/value_test.cc:710-726 | the same round trip for a struct, field by field |
| ValueProperties.FieldRoundTrip | google/cloud/spanner/value_test.cc:710-726 | a struct field reads back; a pair field gets the name the descriptor gives it |
| ValueProperties.TypeOfNamesAgree | google/cloud/spanner/value_test.cc:504-530 | the descriptor `Value{x}` builds names every field the way `x` does |
| ValueProperties.GetMakeValue | google/cloud/spanner/value_test.cc:201-205 | `Value{x}.get<T>()` returns `x` |
| ValueProperties.GetMakeOptionalValue | google/cloud/spanner/value_test.cc:227-231 | `Value{optional<T>(x)}` yields `x` through both `get<T>` and `get<optional<T>>` |
| ValueProperties.UnspecifiedMatchesNothing | google/cloud/spanner/value_test.cc:198-199 | no C++ type passes the shape check of a default-constructed Value |
| ValueProperties.DefaultConstructedFailsEveryGet | google/cloud/spanner/value_test.cc:198-199 | a default-constructed Value fails every `get<T>` |
| ValueProperties.NoKindFitsNotSet | google/cloud/spanner/value_test.cc:752-756 | no C++ type is read from a tree whose kind was cleared |
| ValueProperties.ClearedKindFailsEveryGet | google/cloud/spanner/value_test.cc:758-924 | a cleared kind fails every `get<T>`, `optional<T>` included |
| ValueProperties.GetNullValue | google/cloud/spanner/value_test.cc:216-221 | a typed null fails `get<T>` with a null error and reads as an empty `optional<T>` |
| ValueProperties.NullIsAbsentOptional | google/cloud/spanner/value_test.cc:216-221 | `MakeNullValue<T>()` is `Value{optional<T>{}}` |
| ValueProperties.NullNeverEqualsNonNull | google/cloud/spanner/value_test.cc:399-429 | a null never equals a Value that is not null |
| ValueProperties.NullsAreTyped | google/cloud/spanner/value_test.cc:426-428 | two nulls are equal exactly when their types have one descriptor |
| ValueProperties.MatchesIgnoresNamesOnly | google/cloud/spanner/value_test.cc:504-530 | the shape check passes exactly when the descriptor equals the type's own descriptor once every field name is erased |
| ValueProperties.TreeEqualReflexive | google/cloud/spanner/value_test.cc:332-341 | a tree equals itself exactly when it holds no NaN |
| ValueProperties.TreeEqualSymmetric | google/cloud/spanner/value_test.cc:205-213 | tree equality is symmetric |
| ValueProperties.TreeEqualTransitive | google/cloud/spanner/value_test.cc:205-213 | tree equality is transitive |
| ValueProperties.EqualIsPartialEquivalence | google/cloud/spanner/value_test.cc:205-213 | Value equality is symmetric and transitive, and a Value equals itself exactly when it holds no NaN |
| ValueProperties.EncodeHasNaN | google/cloud/spanner/value_test.cc:622-629 | the encoded tree holds a NaN exactly where the C++ value does |
| ValueProperties.VectorHasNaN | google/cloud/spanner/value_test.cc:622-629 | an array's tree holds a NaN exactly when one of its items does |
| ValueProperties.ProductHasNaN | google/cloud/spanner/value_test.cc:622-629 | a struct's tree holds a NaN exactly when one of its fields does |
| ValueProperties.ProtoRoundTrip | google/cloud/spanner/value_test.cc:223-225 | `FromProto(ToProto(v))` rebuilds the very same Value, which compares equal to `v` exactly when `x` holds no NaN |
| ValueProperties.BytesLessIrreflexive | google/cloud/spanner/value_test.cc:360-375 | no byte string is less than itself |
| ValueProperties.BytesLessTransitive | google/cloud/spanner/value_test.cc:360-375 | the byte order is transitive |
| ValueProperties.BytesLessTotal | google/cloud/spanner/value_test.cc:360-375 | two different byte strings are ordered one way and only one |
| ValueProperties.BytesCompareUnsigned | google/cloud/spanner/value_test.cc:360-375 | bytes compare as unsigned: "\x00" comes before "\xff" |
| ValueExamples.MixingTypes | google/cloud/spanner/value_test.cc:399-429 | a bool is not an int64 and an int64 is not a bool, null or not; typed nulls differ |
| ValueExamples.SpannerArray | google/cloud/spanner/value_test.cc:431-456 | an int64 array does not read as a double array nor the other way round, and the two values differ |
| ValueExamples.NullSpannerArray | google/cloud/spanner/value_test.cc:458-471 | the null int64 array differs from the null double array and does not read as a double array |
| ValueExamples.ExampleDescriptors | google/cloud/spanner/value_test.cc:482-510 | an unnamed tuple gets unnamed fields; a pair field gets the pair's name |
| ValueExamples.PairEncodesAsItsValue | google/cloud/spanner/value_test.cc:503-514 | a pair field travels as its second member, so the named and the unnamed tuple have one tree |
| ValueExamples.StructNamesAreKeptByEquality | google/cloud/spanner/value_test.cc:503-530 | Values that differ only in a field name are unequal |
| ValueExamples.NamedReadsAsItself | google/cloud/spanner/value_test.cc:505-509 | the tuple with a named field reads back as itself, name included |
| ValueExamples.NamedReadsAsUnnamed | google/cloud/spanner/value_test.cc:513 | the tuple with a named field reads as the unnamed tuple of the same values |
| ValueExamples.UnnamedReadsAsNamed | google/cloud/spanner/value_test.cc:514 | the unnamed tuple reads as the named one, and the name read back is the one on the wire, "" |
| ValueProperties.StripPairsKeepsWireForm | google/cloud/spanner/value_test.cc:503-514 | replacing each pair field of a struct by its value keeps the struct valid and its tree unchanged |
| ValueProperties.DescriptorFitsStripped | google/cloud/spanner/value_test.cc:527-530 | any descriptor that passes the shape check of a struct with pair fields passes that of the same struct without them |
| ValueProperties.NamedTupleReadsAsUnnamed | google/cloud/spanner/value_test.cc:512-513 | every struct value with named pair fields reads as the same struct with the pairs replaced by their values |
| ValueProperties.UnnamedTupleReadsAsNamed | google/cloud/spanner/value_test.cc:527-530 | every struct value without names reads as the struct with pair fields, each pair named "" as on the wire |
| ValueExamples.StructShapesAreChecked | google/cloud/spanner/value_test.cc:539-560 | an array of structs reads neither as its struct nor as another tuple; the empty tuple does not read as the array |
| ValueExamples.Int64AndArrayWireForms | google/cloud/spanner/value_test.cc:697-708 | an int64 travels as its decimal string, an array as the list of its encoded items |
| ValueExamples.SpecialDoubleWireForms | google/cloud/spanner/value_test.cc:609-630 | infinities and NaN travel as "Infinity", "-Infinity" and "NaN" |
| ValueExamples.StructFieldNames | google/cloud/spanner/value_test.cc:710-726 | in the struct type an unnamed field is named "" and a pair field by its name, each with its field type |
| ValueExamples.StructWireForm | google/cloud/spanner/value_test.cc:710-726 | the struct's tree is the list of its field values, 3.14 as a number and 42 as the string "42" |
| ValueExamples.NamedStructShapeIsNamed | google/cloud/spanner/value_test.cc:118-135 | the four-field struct of the test, whose name accessor also answers index 4, passes both the named-struct test as written and the corrected one |
| ValueExamples.NamedStructDescriptor | google/cloud/spanner/value_test.cc:929-955 | a named struct's descriptor has four fields, each with the name the bridge gives it and its field type |
| ValueExamples.NamedStructTree | google/cloud/spanner/value_test.cc:956-968 | a named struct's tree holds its four values in order: "1", "Elena", "Campbell" and the date as "1970-01-01" |
| ValueExamples.EpochRendering | google/cloud/spanner/value_test.cc:956-968 | the epoch date travels as "1970-01-01" and the int64 one as "1" |
| ValueExamples.GetBadInt | google/cloud/spanner/value_test.cc:818-840 | "", "blah" and "123blah" fail to read as int64; a bool or a number has the wrong kind; a null is refused |
| ValueExamples.GetBadBool | google/cloud/spanner/value_test.cc:758-771 | a bool is not read from a number, a string or a null |
| ValueExamples.GetBadDouble | google/cloud/spanner/value_test.cc:773-786 | a double, present or optional, is not read from a bool, and prose fails as an invalid double |
| ValueExamples.GetBadContainers | google/cloud/spanner/value_test.cc:890-924 | neither an array nor a struct is read from a string, a bool or a number |
| ValueExamples.BytesDecodingError | google/cloud/spanner/value_test.cc:343-358 | bytes whose tree is not base64 differ from the original and fail with the base64 error |
| ValueExamples.DoubleNaN | google/cloud/spanner/value_test.cc:332-341 | a NaN reads back as NaN, yet its Value equals neither itself nor its round trip |
| Decimal.NatToString | google/cloud/spanner/value_test.cc:587-597 | the rendering of a natural is nonempty digits that denote it, with no leading zero |
| Decimal.ParseInt64 | google/cloud/spanner/value_test.cc:587-597 | every value the parser accepts is within int64 |
| Decimal.Int64RoundTrip | google/cloud/spanner/value_test.cc:587-597 | every int64, the minimum and the maximum included, reads back from its `to_string` form |
| Decimal.ParsedValueRenders | google/cloud/spanner/value_test.cc:587-597 | every canonical string the parser accepts is the rendering of its value |
| Decimal.Int64ParserRejects | google/cloud/spanner/value_test.cc:818-840 | the parser refuses "", "blah" and "123blah" |
| Decimal.PadDigitsDenotes | google/cloud/spanner/value_test.cc:679-695 | a zero-padded digit group is all digits and denotes its number |
| Decimal.PadDigitsOfDigits | google/cloud/spanner/value_test.cc:679-695 | a digit string is the padded rendering of its own value at its own width |
| Base64.DecodeEncode | google/cloud/spanner/value_test.cc:643-653 | every byte string reads back from its base64 encoding |
| Base64.EncodeDecode | google/cloud/spanner/value_test.cc:643-653 | every string the decoder accepts is the encoding of what it decodes to |
| Base64.RejectsProse | google/cloud/spanner/value_test.cc:343-358 | "not base64 encoded data" is rejected with the base64 error |
| CivilTime.DateToString | google/cloud/spanner/value_test.cc:679-695 | a date renders as ten characters with dashes at positions 4 and 7 |
| CivilTime.ParseDate | google/cloud/spanner/value_test.cc:860-876 | every date the parser accepts is a valid date |
| CivilTime.DateRoundTrip | google/cloud/spanner/value_test.cc:679-695 | every valid date reads back from its rendering |
| CivilTime.DateRendersBack | google/cloud/spanner/value_test.cc:679-695 | every string the date parser accepts is the rendering of its result |
| CivilTime.ParseDateRejects | google/cloud/spanner/value_test.cc:860-876 | "blah" and "" are not dates |
| CivilTime.ParseTimestamp | google/cloud/spanner/value_test.cc:842-858 | every timestamp the parser accepts is valid |
| CivilTime.TimestampRoundTrip | google/cloud/spanner/value_test.cc:655-677 | every valid timestamp reads back from its rendering |
| CivilTime.TimestampRendersBack | google/cloud/spanner/value_test.cc:655-677 | every string the timestamp parser accepts is the rendering of its result |
| TupleUtils.NumElements | google/cloud/spanner/internal/tuple_utils.h:43-67 | the element count is the tuple size when the trait is specialised, and 0 otherwise |
| TupleUtils.GetElementName | google/cloud/spanner/internal/tuple_utils.h:38-41 | the element-name accessor answers exactly the indices it is declared for, with the declared name |
| TupleUtils.HasAllElementNamesCoversEveryIndex | google/cloud/spanner/internal/tuple_utils.h:167-175 | the presence check from `i` holds exactly when every index from 0 to `i` has a name |
| TupleUtils.IsNamedStructAsWrittenMeans | google/cloud/spanner/internal/tuple_utils.h:197-207 | the named-struct test as written establishes names at indices 0 to `NumElements` and string names at the last two of them |
| TupleUtils.NamedStructImpliesAsWritten | google/cloud/spanner/internal/tuple_utils.h:197-207 | the documented test implies the written one whenever the index one past the end also has a string name |
| TupleUtils.StringsBelowCoversEveryIndex | google/cloud/spanner/internal/tuple_utils.h:184-195 | the corrected recursion from `i` holds exactly when every index below `i` has a string name |
| TupleUtils.IsNamedStructCorrected | google/cloud/spanner/internal/tuple_utils.h:197-207 | the corrected test accepts exactly the types with a declared count and a string name at every element index |
| TupleUtils.PresenceCheckProbesPastTheEnd | google/cloud/spanner/internal/tuple_utils.h:167-175 | a two-field struct named at exactly its own indices is rejected by the test as written and accepted by the corrected one |
| TupleUtils.StringCheckSkipsEarlyIndices | google/cloud/spanner/internal/tuple_utils.h:184-195 | the string check as written accepts a struct whose first name is not a string, and the corrected one rejects it |
| TupleUtils.UnsizedIsNeverNamed | google/cloud/spanner/internal/tuple_utils.h:204-207 | a type without a declared count has no elements and is never a named struct |
| TupleUtils.ForEach | google/cloud/spanner/internal/tuple_utils.h:114-121 | the functor is called on elements 0 to N-1 in index order, threading the forwarded argument |
| TupleUtils.ForEachNamed | google/cloud/spanner/internal/tuple_utils.h:127-135 | the functor is called with (name, element) for each index in order |
| TupleUtils.ForEachPushBack | google/cloud/spanner/internal/tuple_utils_test.cc:177-184 | a push-back functor leaves the buffer holding its old contents followed by the mapped elements, in index order |
| TupleUtils.ForEachNamedPushBack | google/cloud/spanner/internal/tuple_utils_test.cc:293-307 | a named push-back functor produces name_0, element_0, name_1, element_1, ... |
| TupleUtils.ForEachEmptyMakesNoCalls | google/cloud/spanner/internal/tuple_utils.h:87-89 | with no elements the functor is never called |
| TupleUtils.ForEachMutate | google/cloud/spanner/internal/tuple_utils.h:91-99 | a mutating functor updates elements 0 to N-1 in place and nothing else |
| TupleUtils.AddOneToEach | google/cloud/spanner/internal/tuple_utils_test.cc:186-191 | `ForEach` with the `add_one` functor leaves the three-element tuple (1, 2, 3) holding (2, 3, 4) |
| TupleUtils.AssignElement | google/cloud/spanner/internal/tuple_utils.h:73-83 | assigning through the reference to element `i` changes that element only |
| PartialResultSetSource.Source.constructor | google/cloud/spanner/internal/partial_result_set_source.h:88-99 | a new source owns its reader, has read nothing, is not finished, has both indices at 0 and has no pending chunk |
| PartialResultSetSource.Source.Metadata | google/cloud/spanner/internal/partial_result_set_source.h:48-53 | present exactly when the latest response has metadata, and then equal to it |
| PartialResultSetSource.Source.Stats | google/cloud/spanner/internal/partial_result_set_source.h:80-85 | present exactly when the latest response has stats, and then equal to them |
| PartialResultSetSource.Source.RowsModified | google/cloud/spanner/internal/partial_result_set_source.h:55-62 | the lower bound when that case is set, the exact count when that case is set, and 0 otherwise |
| PartialResultSetSource.Source.QueryStats | google/cloud/spanner/internal/partial_result_set_source.h:64-71 | present exactly when stats with query statistics exist, and then always the empty map |
| PartialResultSetSource.Source.QueryExecutionPlan | google/cloud/spanner/internal/partial_result_set_source.h:73-78 | present exactly when stats with a plan exist, and then that plan |
| PartialResultSetSource.FreshSourceReportsNothing | google/cloud/spanner/internal/partial_result_set_source.h:88-99 | a source that has read nothing reports no metadata, no stats and no modified rows |
| PartialResultSetSource.QueryDetailsNeedStats | google/cloud/spanner/internal/partial_result_set_source.h:64-85 | without stats there are no query statistics, no plan and no modified rows |
| PartialResultSetSource.AccessorsReadOnlyLastResult | google/cloud/spanner/internal/partial_result_set_source.h:55-85 | the accessors depend on the latest response only, and not on the cursor fields |
| PartialResultSetSource.RowsModifiedByCase | google/cloud/spanner/internal/partial_result_set_source.h:55-62 | each row-count case is read from its own field |

## Left out

- `PartialResultSetSource::NextValue`, `ReadFromStream` and `Create`: their bodies (the merging of chunked values, the transport reads and the error paths) are not part of this model. The class keeps the cursor fields they advance, but no method advances them.
- The accessors of `PartialResultSetSource` are functions with a `reads` clause. They leave every field unchanged by construction, so no separate "unchanged" contract is stated. This also covers `Metadata()` and `Stats()`, which are not `const` in C++ but change nothing.
- `QueryPlan` is reduced to a list of plan-node names. `ResultSetMetadata` is reduced to its row type. The query statistics of a `ResultSetStats` are a map from names to value trees.
- gRPC transport, the stream reader, the partition helpers and the mock connection are left out. They are I/O, protobuf serialisation or test scaffolding.
- Values.EncodeFloat64: a double is an abstract `Float64`, either a real or one of the three special values. IEEE-754 arithmetic, negative zero and the decimal rendering of finite doubles are not modelled.
- CivilTime.TimestampToString: a timestamp is a broken-down UTC civil time with a fixed nine-digit fraction. Several things are not modelled:
  - the conversion from a count of seconds since the epoch;
  - the trimming of trailing zeros in the fraction;
  - offsets other than "Z".
- CivilTime.ParseDate: a date is valid when the year is 0 to 9999, the month 1 to 12 and the day 1 to 31. The length of each month is not checked.
- Values.Get: error values name the kind of failure only. The message texts are not modelled, except that the base64 failure is its own error.
- The optional-of-value descriptor: `Value{optional<T>(x)}` is described by `x`'s own descriptor, and an absent optional by `T{}`'s. For every type without pair fields the two are the same.
- ValueProperties.GetMakeValue: the round trip requires the value to be `Uniform`. Every item of a vector must have the descriptor of the first item, which matters only when pair fields inside a vector carry different names.
- `tuple_utils_test.cc:142` expects `NumElements<std::vector<int>>` to be 2. The header gives 0 for any type without a tuple size. The model follows the header.
- The C++ mechanics of the bridge are not modelled: overload resolution, the tuple-size trait, argument-dependent lookup and perfect forwarding. They become the explicit `Shape` record.
- Integer widths: `next_value_index_` and `next_value_type_index_` are unbounded integers. The row counts of `RowsModified` are unbounded integers rather than int64.

## Findings

| source | as written | input that shows it | evidently intended | confidence | as-written member | corrected member |
|---|---|---|---|---|---|---|
| google/cloud/spanner/internal/tuple_utils.h:167-175 | `HasAllElementNamesImpl<T, NumElements<T>>` checks for a name at every index from `NumElements` down to 0, one index past the last element | a struct with two elements named "id" and "name" whose accessor answers indices 0 and 1 only | names at indices 0 to `NumElements - 1`. The C++11 struct in google/cloud/spanner/value_test.cc:125-136 allows index 4 of its 4 names to get through, and the `IsNamedStruct` test in google/cloud/spanner/internal/tuple_utils_test.cc:364-381 is switched off | not executed; medium | TupleUtils.PresenceCheckProbesPastTheEnd | TupleUtils.IsNamedStructCorrected |
| google/cloud/spanner/internal/tuple_utils.h:191-195 | `AllElementNamesAreStringsImpl<T, I>` checks indices `I` and `I - 1` and then stops; it does not recurse | a three-element struct whose index 0 name is not a string and whose indices 1 to 3 are strings | every element name is convertible to a string | not executed; medium | TupleUtils.StringCheckSkipsEarlyIndices | TupleUtils.IsNamedStructCorrected |

`TupleUtils.IsNamedStructCorrected` is the header's recursion with both faults fixed: it stops below `NumElements` and it recurses through every index. It is proved equal to the documented test `TupleUtils.IsNamedStruct`. The rest of the model uses it: `Values.ValidType` and `Values.FieldName` decide named structs with it. `TupleUtils.IsNamedStructAsWrittenMeans` and `TupleUtils.NamedStructImpliesAsWritten` relate the test as written to the documented one.
