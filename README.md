# InfluxDB line protocol encoder, modelled in Dafny

This project models the `influx` package of custom-tags. The package does two things.

- `ConvertToInfluxLineProtocol` turns a Go struct into one line of the InfluxDB line protocol, `measurement,tags fields nanos`. Each struct field's `influx:"name,role"` tag decides its role: measurement, tag, field or timestamp.
- `Duration.MarshalInflux` is a custom value formatter. It turns duration text into a number of a chosen unit.

The files are:

- `wrappers.dfy`: `Option` and `Result`.
- `text.dfy`: decimal integer text (`%d`, `strconv.FormatInt`), `strings.Split` and `strings.Join`, with their inverses and round-trip lemmas.
- `durations.dfy`: `Duration.MarshalInflux` as a pure function. Lemmas cover each branch: parse error, integer units, two-decimal units and pass-through.
- `lineprotocol.dfy`: the record model and `ConvertToInfluxLineProtocol`.
  - The Go reflection is replaced by an explicit record. The record holds its fields in declaration order, each with an optional struct tag and a value. It also holds the results of the optional `InfluxMeasurement()` and `InfluxTimestamp()` methods.
  - The encoder is an imperative method with the Go code's single `for` loop, its `metric` map and its `continue`s.
  - The method is proved equal to the specification function `Encode`.
- `lineprotocol_props.dfy`: what `Encode` promises.
  - Which field or method supplies the measurement and the timestamp.
  - Which error wins.
  - That entries keep declaration order.
  - That untagged, unknown-role and failed-formatter fields leave no trace.
  - How a line splits back into its segments.
- `test_scenarios.dfy`: the package's test scenarios, stated over symbolic values. The duration test cases use concrete values.

The model follows the code as written:

- Names and values are not escaped or quoted.
- The comma after the measurement is always emitted, even when there are no tags.
- An empty field list is not an error.
- A declared measurement or timestamp field beats the corresponding method, because the methods are called before the field loop. Among several such fields, the last one wins.

## Model

| member | source | states |
|---|---|---|
| LineProtocol.Encode | influx/lineprotocol.go:29-100 | The specification of the encoder: the measurement error when the resolved measurement is empty, else the timestamp error when the resolved timestamp is zero, else `m,tags fields nanos`. Its meaning is given by `LineExactlyWhenResolved`, `RemoveInert`, `BucketOrder` and `LineSegments`. |
| LineProtocol.Entry | influx/lineprotocol.go:62-85 | The `name=value` entry of a tag or field: the formatter's text when the value has `MarshalInflux`, nothing when that call errs, else `%v` text plus the kind's suffix (see `IntegerEntry`, `PlainEntry`, `CustomEntry`). |
| LineProtocol.Contribution | influx/lineprotocol.go:55-86 | What one field appends under a key: its entry, under its own role only, and nothing for untagged, measurement, timestamp or failed-formatter fields (see `NoContribution`, `InertContributesNothing`). |
| LineProtocol.Bucket | influx/lineprotocol.go:45-88 | The list stored under a key of `metric` after the loop: the fields' contributions in declaration order (see `BucketAppend`, `BucketOrder`, `BucketSources`, `BucketBounds`). |
| LineProtocol.ResolvedMeasurement | influx/lineprotocol.go:36-57 | The measurement after the loop: the text of the last measurement field, else `InfluxMeasurement()`'s result, else empty (see `MeasurementFromLastField`, `MeasurementFromMethod`, `MeasurementSource`). |
| LineProtocol.ResolvedTimestamp | influx/lineprotocol.go:40-59 | The timestamp after the loop: the time of the last timestamp field, else `InfluxTimestamp()`'s result, else the zero time (see `TimestampFromLastField`, `TimestampFromMethod`, `TimestampSource`). |
| LineProtocol.Sprint | influx/lineprotocol.go:77-78 | What `%v` prints for a field value, at line 57 and line 78: the decimal of an `int` or `uint64`, the carried text of any other value (see `IntegerEntry`, `PlainEntry`). |
| LineProtocol.Suffix | influx/lineprotocol.go:79-84 | `i` after kind `int`, `u` after kind `uint64`, nothing otherwise (see `IntegerEntry`, `PlainEntry`). |
| LineProtocol.WellTagged | influx/lineprotocol.go:52-59 | Excludes two of the loop's panics: a present tag contains a comma, so `params[1]` exists, and a timestamp-role field holds a `time.Time`. The panics on unexported fields are not excluded (see Left out). |
| LineProtocol.WellFormed | influx/lineprotocol.go:50-59 | Every field of the record is well tagged. |
| LineProtocol.Name | influx/lineprotocol.go:52-53 | The text of the tag before its first comma (see `TagOfParts`, `DurationEntry`). |
| LineProtocol.Role | influx/lineprotocol.go:52-53 | The text of the tag between its first and second comma (see `TagOfParts`, `RoleOf`). |
| Text.Join | influx/lineprotocol.go:98-99 | `strings.Join`: the pieces with the separator between them (see `JoinSplit`, `SplitJoin`, `JoinFree`, `JoinThree`). |
| Text.JoinThree | influx/lineprotocol.go:98-99 | Joining three pieces puts the separator between each pair. |
| Text.NatDigits | influx/types.go:20 | The decimal digits of a natural number: non-empty, digits only, no leading zero (read back by `NatDigitsRoundTrip`). |
| Durations.TruncDiv | influx/types.go:21-24 | Go's integer division of `Microseconds()`/`Milliseconds()`, toward zero (see `TruncDivBounds`). |
| Durations.RoundHalfEven | influx/types.go:25-30 | A quotient rounded to the nearest integer, ties to even (see `RoundHalfEvenNearest`). |
| Durations.Hundredths | influx/types.go:25-30 | The magnitude of a duration in hundredths of the unit, rounded from the exact quotient with ties to even; it stands in for the float64 rounding of `Seconds()`/`Minutes()`/`Hours()` and differs from it at exact half-hundredth ties (see `HundredthsNearest`, `HundredthsOffTie`). |
| Durations.FixedTwo | influx/types.go:25-30 | Exact rounding standing in for `FormatFloat(..., 'f', 2, 64)` of the duration in the unit: the rounded hundredths written as `[-]digits.dd` (see `FractionalUnit`). |
| Durations.FixedText | influx/types.go:25-30 | Hundredths written as `[-]digits.dd` (read back by `FixedTextRoundTrip`). |
| LineProtocol.ConvertToInfluxLineProtocol | influx/lineprotocol.go:29-100 | The loop keeps `measurement`, `timestamp` and every key of `metric` equal to the specification on the prefix of fields seen so far. The returned string is exactly `Encode(v).Text()`: the measurement error, the timestamp error, or the assembled line. |
| LineProtocol.Step | influx/lineprotocol.go:50-59 | One more field changes the measurement or timestamp only if it has that role, and extends each bucket by that field's contribution alone. |
| LineProtocol.Appended | influx/lineprotocol.go:72-73 | Appending an entry under the field's role in the metric map adds exactly that field's contribution, and leaves every other key as it was. |
| LineProtocol.NoContribution | influx/lineprotocol.go:55-71 | An untagged field, a measurement or timestamp field, or a field whose formatter fails adds nothing to any key. |
| LineProtocol.Assembled | influx/lineprotocol.go:90-99 | The three outcomes in the order the code checks them: empty measurement gives the measurement error, then a zero timestamp gives the timestamp error, else `m,tags fields nanos`. |
| LineProtocolProperties.MeasurementFromLastField | influx/lineprotocol.go:56-57 | When field j has the measurement role and no later field does, the measurement is field j's text, whatever the method returns. |
| LineProtocolProperties.MeasurementFromMethod | influx/lineprotocol.go:36-39 | With no measurement field, the measurement is `InfluxMeasurement()`'s result, or empty when the type has no such method. |
| LineProtocolProperties.TimestampFromLastField | influx/lineprotocol.go:58-59 | When field j has the timestamp role and no later field does, the timestamp is field j's time, whatever the method returns. |
| LineProtocolProperties.TimestampFromMethod | influx/lineprotocol.go:40-43 | With no timestamp field, the timestamp is `InfluxTimestamp()`'s result, or the zero time when there is no such method. |
| LineProtocolProperties.MeasurementSource | influx/lineprotocol.go:36-59 | The measurement is the method's result (or empty), or the text of some field with the measurement role. |
| LineProtocolProperties.TimestampSource | influx/lineprotocol.go:40-59 | The timestamp is the method's result (or zero), or the time of some field with the timestamp role. |
| LineProtocolProperties.MissingMeasurementError | influx/lineprotocol.go:90-92 | With no measurement field and no or an empty method result, the result is exactly the measurement error, whatever the timestamp. |
| LineProtocolProperties.MissingTimestampError | influx/lineprotocol.go:94-96 | With a measurement but no timestamp field, and no method or one returning the zero time, the result is exactly the timestamp error. |
| LineProtocolProperties.LineExactlyWhenResolved | influx/lineprotocol.go:90-99 | A line is produced if and only if the measurement is non-empty and the timestamp is not the zero time. |
| LineProtocolProperties.BucketAppend | influx/lineprotocol.go:50-88 | The entries of a concatenation of fields are the entries of the first part followed by those of the second. |
| LineProtocolProperties.BucketBounds | influx/lineprotocol.go:45-86 | A list gets at most one entry per field, and nothing is ever stored under the measurement or timestamp keys. |
| LineProtocolProperties.BucketSingle | influx/lineprotocol.go:72-85 | A single field's list is its own contribution. |
| LineProtocolProperties.BucketCons | influx/lineprotocol.go:50-88 | Prepending a field puts its contribution in front of the rest. |
| LineProtocolProperties.BucketAround | influx/lineprotocol.go:50-88 | The list is the entries before position k, then field k's, then those after. |
| LineProtocolProperties.BucketOrder | influx/lineprotocol.go:72-85 | Two fields of the same role with entries appear in declaration order, with exactly the entries of the fields between them in between. |
| LineProtocolProperties.BucketSources | influx/lineprotocol.go:72-85 | Every entry in a list comes from some field of that role whose rendered entry it is. |
| LineProtocolProperties.MeasurementWithout | influx/lineprotocol.go:56-57 | Deleting a field without the measurement role does not change the measurement. |
| LineProtocolProperties.TimestampWithout | influx/lineprotocol.go:58-59 | Deleting a field without the timestamp role does not change the timestamp. |
| LineProtocolProperties.BucketWithout | influx/lineprotocol.go:72-85 | Deleting a field that contributes nothing to a list leaves that list unchanged. |
| LineProtocolProperties.InertContributesNothing | influx/lineprotocol.go:51-85 | An untagged field, a field of an unknown role, or a tag or field whose formatter fails adds to neither list and supplies no measurement or timestamp. |
| LineProtocolProperties.RemoveInert | influx/lineprotocol.go:45-99 | Deleting such a field leaves the result unchanged. A failed formatter drops only its own entry, and roles other than tag and field never reach the output. |
| LineProtocolProperties.NoSpaceInDecimal | influx/lineprotocol.go:98-99 | `%d` text contains no space and no comma. |
| LineProtocolProperties.LineSegments | influx/lineprotocol.go:98-99 | When the measurement and entries have no spaces, the line splits on spaces into exactly `m,tags`, `fields` and the decimal nanoseconds, and the last segment reads back as the timestamp. |
| LineProtocolProperties.TagSegment | influx/lineprotocol.go:98-99 | The first segment splits on commas into the measurement and the tag entries. With no tags the comma is still there and an empty piece follows it. |
| LineProtocolProperties.IntegerEntry | influx/lineprotocol.go:77-85 | An `int` or `uint64` entry is `name=`, the decimal value, then `i` or `u` respectively, and the number reads back. |
| LineProtocolProperties.PlainEntry | influx/lineprotocol.go:77-85 | Any other value without a formatter is `name=` followed by its `%v` text, with no suffix and no quoting. |
| LineProtocolProperties.CustomEntry | influx/lineprotocol.go:62-74 | A value with `MarshalInflux` is dropped if and only if the formatter returns an error. Otherwise its entry is `name=` followed by the formatter's text, unchanged. |
| LineProtocolProperties.DurationEntry | influx/types.go:13-33 | A `Duration` field is dropped if and only if its text fails to parse. In an integer unit its entry is `name=`, the truncated count and `i`. In seconds, minutes or hours it is `name=` and two-decimal text. |
| Durations.MarshalInflux | influx/types.go:13-33 | The error is present if and only if parsing fails, and the text is then empty. |
| Durations.ParseFailure | influx/types.go:14-17 | A failed parse returns empty text and the parser's own error. |
| Durations.TruncDivBounds | influx/types.go:21-24 | `Microseconds()`/`Milliseconds()` division truncates toward zero. The quotient has the dividend's sign and the largest magnitude that does not overshoot. |
| Durations.IntegerUnit | influx/types.go:19-24 | For nanoseconds, microseconds and milliseconds the text ends in `i`, and the rest reads back as the nanosecond count divided by the unit, truncated toward zero. |
| Durations.RoundHalfEvenNearest | influx/types.go:25-30 | Rounding to two decimals lands within half a hundredth of the exact quotient. |
| Durations.HundredthsNearest | influx/types.go:25-30 | The rounded hundredths are within half a hundredth of the exact magnitude of the duration in the unit. |
| Durations.RoundHalfEvenForced | influx/types.go:25-30 | A quotient strictly within half a step of `k` rounds to `k`, whatever the tie rule. |
| Durations.HundredthsOffTie | influx/types.go:25-30 | Any number of hundredths strictly within half a hundredth of the duration's exact magnitude in the unit is the one written; only exact ties depend on the rounding rule. |
| Durations.FixedTextRoundTrip | influx/types.go:25-30 | Two-decimal text has the shape `[-]digits.dd` and reads back as the signed number of hundredths it was made from. |
| Durations.ParseFixedTwo | influx/types.go:25-30 | The reader of two-decimal text accepts exactly the `[-]digits.dd` shape. |
| Durations.FractionalUnit | influx/types.go:25-30 | For seconds, minutes and hours the text is `[-]digits.dd` with no suffix (last character a digit). It reads back as the duration's rounded hundredths of the unit, negative when the duration is. |
| Durations.OtherUnit | influx/types.go:31-32 | Any other target unit, zero included, returns the original text unchanged with no error. |
| Text.DecimalRoundTrip | influx/lineprotocol.go:98-99 | Decimal text of an integer (`%d`, `FormatInt`) reads back as that integer. |
| Text.NatDigitsRoundTrip | influx/types.go:20 | The digits of a natural number read back as that number. |
| Text.Decimal | influx/types.go:20 | Decimal text is non-empty and made of digits, with at most a leading minus sign. |
| Text.ParseDecimal | influx/types.go:20 | The decimal reader accepts exactly an optional minus sign followed by digits. |
| Text.Split | influx/lineprotocol.go:52-53 | Splitting gives at least one piece, at least two exactly when the separator occurs, and no piece contains the separator. |
| Text.JoinSplit | influx/lineprotocol.go:52-53 | Joining the pieces of a split gives back the original tag text. |
| Text.SplitJoin | influx/lineprotocol.go:98-99 | Splitting a join of separator-free pieces gives back the pieces. |
| Text.SplitFree | influx/lineprotocol.go:52-53 | Text without the separator splits into itself alone. |
| Text.SplitPrepend | influx/lineprotocol.go:52-53 | In `name,role`, a comma-free name becomes the first piece and the rest is split on its own. |
| Text.JoinFree | influx/lineprotocol.go:98-99 | A character absent from the pieces and the separator is absent from their join. |
| TestScenarios.TagOfParts | influx/lineprotocol_test.go:71-81 | A struct tag `name,role` with comma-free parts splits into exactly the name and the role. |
| TestScenarios.RoleOf | influx/lineprotocol_test.go:71-81 | Such a field is well tagged, with that name and role. |
| TestScenarios.ExecTimeInMinutes | influx/lineprotocol_test.go:87-90 | `39m47.276156216s` in minutes is `39.79`. |
| TestScenarios.LayoutResolved | influx/lineprotocol_test.go:68-96 | In the "ok" layout the measurement is the measurement field's text and the timestamp is the timestamp field's time. |
| TestScenarios.LayoutContributions | influx/lineprotocol_test.go:68-96 | Each field of the "ok" layout contributes exactly its expected entry: the tag, then `errors=…i`, the plain field and the formatter's text. |
| TestScenarios.LayoutTags | influx/lineprotocol_test.go:68-96 | The tag list of the "ok" layout is the single `worker=…` entry. |
| TestScenarios.LayoutFields | influx/lineprotocol_test.go:68-96 | The field list is the `int` entry with `i`, the plain entry and the formatter's entry, in declaration order. |
| TestScenarios.LayoutFieldSegment | influx/lineprotocol_test.go:68-96 | The joined field segment is those entries separated by commas. A failed formatter leaves no trailing comma. |
| TestScenarios.LayoutLine | influx/lineprotocol_test.go:68-96 | The "ok" layout encodes to `measurement,worker=… errors=…i,rate=…,execTime=… nanos`. |
| TestScenarios.FieldBeatsMethod | influx/lineprotocol_test.go:180-195 | With a measurement field present, adding `InfluxMeasurement()` does not change the result, even when the field's text is empty. |
| TestScenarios.EmptyFieldBeatsMethod | influx/lineprotocol.go:56-57 | An empty measurement field still overrides a method's measurement, so the result is the measurement error. |
| TestScenarios.RestResolved | influx/lineprotocol_test.go:146-179 | Without the measurement field, the method names the measurement and the timestamp field still supplies the time. |
| TestScenarios.RestBuckets | influx/lineprotocol_test.go:146-179 | Removing the measurement field leaves both lists unchanged. |
| TestScenarios.MethodNamesMeasurement | influx/lineprotocol_test.go:165-179 | With no measurement field, `InfluxMeasurement()` supplies the measurement of the line. |
| TestScenarios.DurationDefaultUnit | influx/types_test.go:11-20 | An unset unit returns `13h23m12.234444234s` unchanged. |
| TestScenarios.DurationParseError | influx/types_test.go:21-33 | `345.12` fails to parse: empty text and an error. |
| TestScenarios.DurationIntegerUnits | influx/types_test.go:34-63 | `12ns`, `12µs` and `12ms` in their own units are each `12i`. |
| TestScenarios.DurationFractionalUnits | influx/types_test.go:64-93 | The seconds, minutes and hours cases give `12.22`, `12.50` and `12.50`. |
| TestScenarios.DurationsInLineTests | influx/lineprotocol_test.go:98-142 | `1m17.276156216s` in seconds is `77.28`, and `17m30.276156216s` in minutes is `17.50`. |

## Left out

- Reflection (`reflect.ValueOf`, `MethodByName`, `Tag.Lookup`, `FieldByName`, `Func.Call`): the record is given explicitly.
  - Its fields in declaration order, each with its optional struct tag.
  - The value's kind: `int`, `uint64`, `time.Time`, a type with `MarshalInflux`, or anything else.
  - The optional results of the two override methods.
- `log.Println` on a formatter error (influx/lineprotocol.go:69) is a side channel. Only the dropped entry is modelled.
- The `%v` text of values other than `int` and `uint64` (strings, floats such as `45.678891`, times) is carried as an uninterpreted string in the value.
- Integer kinds other than `int` and `uint64` are not distinguished. They get no suffix, like any other value.
- LineProtocol.Sprint: `IntValue` and `Uint64Value` stand for `int`- and `uint64`-kind values without their own `Format()`, `Error()` or `String()` method. For a named integer type with such a method, Go's `fmt` prints that method's text (it checks `error` before `Stringer`) (and line 81 still adds `i`). The model cannot represent that value; it would be an `OtherValue` with the wrong suffix.
- The internals of `time.Time` are replaced by a datatype with a distinct zero time and an instant's `UnixNano()`. An instant at Unix nanosecond 0 is not the zero time.
- `time.ParseDuration` is not part of this model. It is a parameter (`Parser`): a function from text to nanoseconds or an error message. The test scenarios assume only the values it returns for their inputs.
- Durations.FixedTwo, Durations.Hundredths, Durations.FractionalUnit: the float64 arithmetic of `Seconds()`/`Minutes()`/`Hours()` and `FormatFloat(..., 'f', 2, 64)` is modelled as exact rounding of the rational quotient to hundredths, ties to even.
  - The results differ at exact half-hundredth ties, where the float64 value lies just above or just below the tie. For example, 5 ms in seconds is `0.01` in Go but `0.00` in the model, 15 ms is `0.01` against `0.02`, and 165 ms is `0.17` against `0.16`.
  - Away from a tie, `HundredthsOffTie` shows that the written value is the only one within half a hundredth. The float result can still differ in the last digit when the quotient is within float64 error of a tie, or for very large durations.
  - A negative duration that rounds to zero is written `-0.00`.
- LineProtocol.ConvertToInfluxLineProtocol: the code panics on a present struct tag without a comma, and on a timestamp-role field that does not hold a `time.Time`. These panics are preconditions (`WellFormed`).
- LineProtocol.WellTagged, LineProtocol.WellFormed: tagged fields are taken to be exported. Two more panics of the code are not excluded.
  - An unexported timestamp-role field panics at influx/lineprotocol.go:59, because `Interface()` refuses a value read from an unexported field.
  - An unexported field whose type has `MarshalInflux` panics at influx/lineprotocol.go:63, because `Func.Call` refuses such a value.
  - For these inputs the model returns a line or an error string where Go panics.
- The "ok" test is stated over symbolic names and values (`LayoutLine`), not over its literal strings. The "func" and "override" tests (`FieldBeatsMethod`, `RestResolved`, `RestBuckets`, `MethodNamesMeasurement`) reuse that six-field layout, with and without its measurement field, instead of the four-field `TestMeasurement` and `TestMeasurementOverride` structs; the roles they exercise are the same. `%v` of the float field and `time.Now()` are not modelled, and the duration part of that line is `ExecTimeInMinutes`.
- The "error/measurement" and "error/timestamp" tests are covered by the general `MissingMeasurementError` and `MissingTimestampError`, not by their literal structs.
- TestScenarios.DurationIntegerUnits: the microsecond case is stated for `12µs`. The test text at influx/types_test.go:45 holds a doubly encoded micro sign (`Âµ`), which `time.ParseDuration` would reject, so read literally that case gives empty text and an error (as `ParseFailure` states for any failed parse). The lemma states the evidently intended input.
