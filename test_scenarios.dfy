/** The scenarios of the package's tests, stated as lemmas about the
    model. The duration parser and the clock are parameters: each lemma
    assumes only what `time.ParseDuration` returns for the text it uses. */
module TestScenarios {
  import opened Wrappers
  import opened Text
  import opened Durations
  import opened LineProtocol
  import opened LineProtocolProperties

  /** The struct tag `name,role`. */
  function TagOf(name: string, role: string): Option<string> {
    Some(name + "," + role)
  }

  lemma TagOfParts(name: string, role: string)
    requires ',' !in name && ',' !in role
    ensures Split(TagOf(name, role).value, ',') == [name, role]
  {
    SplitPrepend(name, role, ',');
    assert name + "," + role == name + [','] + role;
    SplitFree(role, ',');
  }

  lemma RoleOf(name: string, role: string, v: Value)
    requires ',' !in name && ',' !in role && (role == "timestamp" ==> v.TimeValue?)
    ensures WellTagged(Field(TagOf(name, role), v))
    ensures Name(Field(TagOf(name, role), v)) == name && Role(Field(TagOf(name, role), v)) == role
  {
    TagOfParts(name, role);
  }

  /** The test's execution time: 39m47.276156216s in minutes is 39.79. */
  lemma ExecTimeInMinutes(parse: Parser)
    requires parse("39m47.276156216s") == Success(2_387_276_156_216)
    ensures MarshalInflux(Duration("39m47.276156216s", Minute), parse) == Marshaled("39.79", None)
  {
    var n := 2_387_276_156_216;
    assert RoundHalfEven(100 * n, Minute) == 3979;
    assert NatDigits(39) == "39";
    assert FixedText(false, 3979) == "39.79";
  }

  /** The values that fill the layout of the "ok" test. */
  datatype Sample = Sample(
    tagName: string, intName: string, plainName: string, customName: string,
    measurement: string, tagValue: string, ns: int64,
    count: int64, plain: string, custom: Marshaled)

  predicate Plausible(x: Sample) {
    ',' !in x.tagName && ',' !in x.intName && ',' !in x.plainName && ',' !in x.customName
  }

  /** The layout of the "ok" test: a measurement field, a tag, a timestamp
      field, then an `int`, a plain value and a custom-formatted value as
      fields. */
  function Layout(x: Sample): seq<Field> {
    [ Field(TagOf("", "measurement"), OtherValue(x.measurement)),
      Field(TagOf(x.tagName, "tag"), OtherValue(x.tagValue)),
      Field(TagOf("", "timestamp"), TimeValue(Instant(x.ns), "")),
      Field(TagOf(x.intName, "field"), IntValue(x.count)),
      Field(TagOf(x.plainName, "field"), OtherValue(x.plain)),
      Field(TagOf(x.customName, "field"), CustomValue("", x.custom)) ]
  }

  function CustomEntries(x: Sample): seq<string> {
    if x.custom.err.None? then [x.customName + "=" + x.custom.text] else []
  }

  lemma LayoutResolved(x: Sample)
    requires Plausible(x)
    ensures WellFormed(Layout(x))
    ensures ResolvedMeasurement(Layout(x), None) == x.measurement
    ensures ResolvedTimestamp(Layout(x), None) == Instant(x.ns)
  {
    var fs := Layout(x);
    RoleOf("", "measurement", fs[0].value);
    RoleOf(x.tagName, "tag", fs[1].value);
    RoleOf("", "timestamp", fs[2].value);
    RoleOf(x.intName, "field", fs[3].value);
    RoleOf(x.plainName, "field", fs[4].value);
    RoleOf(x.customName, "field", fs[5].value);
    assert WellFormed(fs);
    MeasurementFromLastField(fs, None, 0);
    TimestampFromLastField(fs, None, 2);
  }

  lemma LayoutContributions(x: Sample)
    requires Plausible(x)
    ensures WellFormed(Layout(x))
    ensures var fs := Layout(x);
      Contribution(fs[0], "tag") == [] && Contribution(fs[0], "field") == [] &&
      Contribution(fs[1], "tag") == [x.tagName + "=" + x.tagValue] && Contribution(fs[1], "field") == [] &&
      Contribution(fs[2], "tag") == [] && Contribution(fs[2], "field") == [] &&
      Contribution(fs[3], "tag") == [] && Contribution(fs[3], "field") == [x.intName + "=" + Decimal(x.count) + "i"] &&
      Contribution(fs[4], "tag") == [] && Contribution(fs[4], "field") == [x.plainName + "=" + x.plain] &&
      Contribution(fs[5], "tag") == [] && Contribution(fs[5], "field") == CustomEntries(x)
  {
    LayoutResolved(x);
    var fs := Layout(x);
    RoleOf("", "measurement", fs[0].value);
    RoleOf(x.tagName, "tag", fs[1].value);
    RoleOf("", "timestamp", fs[2].value);
    RoleOf(x.intName, "field", fs[3].value);
    RoleOf(x.plainName, "field", fs[4].value);
    RoleOf(x.customName, "field", fs[5].value);
    PlainEntry(fs[1]);
    PlainEntry(fs[4]);
  }

  lemma LayoutTags(x: Sample)
    requires Plausible(x)
    ensures WellFormed(Layout(x))
    ensures Bucket(Layout(x), "tag") == [x.tagName + "=" + x.tagValue]
  {
    LayoutContributions(x);
    var fs := Layout(x);
    var g5 := [fs[5]];
    var g4 := [fs[4]] + g5;
    var g3 := [fs[3]] + g4;
    var g2 := [fs[2]] + g3;
    var g1 := [fs[1]] + g2;
    assert fs == [fs[0]] + g1;
    assert WellFormed([]);
    assert g5 == [fs[5]] + [];
    BucketCons(fs[5], [], "tag");
    BucketCons(fs[4], g5, "tag");
    BucketCons(fs[3], g4, "tag");
    BucketCons(fs[2], g3, "tag");
    BucketCons(fs[1], g2, "tag");
    BucketCons(fs[0], g1, "tag");
  }

  lemma LayoutFields(x: Sample)
    requires Plausible(x)
    ensures WellFormed(Layout(x))
    ensures Bucket(Layout(x), "field") ==
      [x.intName + "=" + Decimal(x.count) + "i", x.plainName + "=" + x.plain] + CustomEntries(x)
  {
    LayoutContributions(x);
    var fs := Layout(x);
    var g5 := [fs[5]];
    var g4 := [fs[4]] + g5;
    var g3 := [fs[3]] + g4;
    var g2 := [fs[2]] + g3;
    var g1 := [fs[1]] + g2;
    assert fs == [fs[0]] + g1;
    assert WellFormed([]);
    assert g5 == [fs[5]] + [];
    BucketCons(fs[5], [], "field");
    BucketCons(fs[4], g5, "field");
    BucketCons(fs[3], g4, "field");
    BucketCons(fs[2], g3, "field");
    BucketCons(fs[1], g2, "field");
    BucketCons(fs[0], g1, "field");
  }

  /** The field segment the layout should produce. */
  function FieldSegment(x: Sample): string {
    x.intName + "=" + Decimal(x.count) + "i" + "," + (x.plainName + "=" + x.plain) +
    (if x.custom.err.None? then "," + (x.customName + "=" + x.custom.text) else "")
  }

  lemma LayoutFieldSegment(x: Sample)
    requires Plausible(x)
    ensures WellFormed(Layout(x))
    ensures Join(Bucket(Layout(x), "field"), ",") == FieldSegment(x)
  {
    LayoutFields(x);
    var e3, e4 := x.intName + "=" + Decimal(x.count) + "i", x.plainName + "=" + x.plain;
    var fields := [e3, e4] + CustomEntries(x);
    if x.custom.err.None? {
      var e5 := x.customName + "=" + x.custom.text;
      assert fields == [e3, e4, e5];
      JoinThree(e3, e4, e5, ",");
    } else {
      assert fields == [e3, e4];
      assert [e3, e4][1..] == [e4];
    }
  }

  /** Encoding the layout of the "ok" test: the tag entry, then the field
      entries in declaration order, with `i` after the `int`; a failing
      custom formatter drops only its own entry. */
  lemma LayoutLine(x: Sample)
    requires Plausible(x) && x.measurement != ""
    ensures WellFormed(Layout(x))
    ensures Encode(Record(Layout(x), None, None)).Text() ==
      x.measurement + "," + (x.tagName + "=" + x.tagValue) + " " + FieldSegment(x) + " " + Decimal(x.ns)
  {
    LayoutResolved(x);
    LayoutTags(x);
    LayoutFieldSegment(x);
    Assembled(Record(Layout(x), None, None));
    assert Join([x.tagName + "=" + x.tagValue], ",") == x.tagName + "=" + x.tagValue;
  }

  /** The "override" test: a measurement field beats InfluxMeasurement(),
      even when the field's text is empty. */
  lemma FieldBeatsMethod(x: Sample, name: string)
    requires Plausible(x)
    ensures WellFormed(Layout(x))
    ensures Encode(Record(Layout(x), Some(name), None)) == Encode(Record(Layout(x), None, None))
  {
    LayoutResolved(x);
    var fs := Layout(x);
    RoleOf("", "measurement", fs[0].value);
    forall k | 0 < k < |fs|
      ensures !HasRole(fs[k], "measurement")
    {
      RoleOf(x.tagName, "tag", fs[1].value);
      RoleOf("", "timestamp", fs[2].value);
      RoleOf(x.intName, "field", fs[3].value);
      RoleOf(x.plainName, "field", fs[4].value);
      RoleOf(x.customName, "field", fs[5].value);
    }
    MeasurementFromLastField(fs, Some(name), 0);
  }

  /** An empty measurement field still overrides the method, so the result
      is the measurement error. */
  lemma EmptyFieldBeatsMethod(x: Sample, name: string)
    requires Plausible(x) && x.measurement == ""
    ensures WellFormed(Layout(x))
    ensures Encode(Record(Layout(x), Some(name), None)).Text() == MeasurementNotFound
  {
    FieldBeatsMethod(x, name);
    LayoutResolved(x);
  }

  lemma RestResolved(x: Sample, name: string)
    requires Plausible(x)
    ensures WellFormed(Layout(x)[1..])
    ensures ResolvedMeasurement(Layout(x)[1..], Some(name)) == name
    ensures ResolvedTimestamp(Layout(x)[1..], None) == Instant(x.ns)
  {
    LayoutResolved(x);
    var fs := Layout(x);
    var rest := fs[1..];
    RoleOf(x.tagName, "tag", fs[1].value);
    RoleOf("", "timestamp", fs[2].value);
    RoleOf(x.intName, "field", fs[3].value);
    RoleOf(x.plainName, "field", fs[4].value);
    RoleOf(x.customName, "field", fs[5].value);
    assert rest == fs[1..6];
    assert forall k :: 0 <= k < |rest| ==> !HasRole(rest[k], "measurement");
    MeasurementFromMethod(rest, Some(name));
    assert forall k :: 1 < k < |rest| ==> !HasRole(rest[k], "timestamp");
    TimestampFromLastField(rest, None, 1);
  }

  lemma RestBuckets(x: Sample)
    requires Plausible(x)
    ensures WellFormed(Layout(x)) && WellFormed(Layout(x)[1..])
    ensures Bucket(Layout(x)[1..], "tag") == Bucket(Layout(x), "tag")
    ensures Bucket(Layout(x)[1..], "field") == Bucket(Layout(x), "field")
  {
    LayoutContributions(x);
    var fs := Layout(x);
    var rest := fs[1..];
    assert fs == [fs[0]] + rest;
    BucketCons(fs[0], rest, "tag");
    BucketCons(fs[0], rest, "field");
  }

  /** The "func" test: with no measurement field, InfluxMeasurement()
      names the measurement. */
  lemma MethodNamesMeasurement(x: Sample, name: string)
    requires Plausible(x) && name != ""
    ensures WellFormed(Layout(x)[1..])
    ensures Encode(Record(Layout(x)[1..], Some(name), None)).Text() ==
      name + "," + (x.tagName + "=" + x.tagValue) + " " + FieldSegment(x) + " " + Decimal(x.ns)
  {
    RestResolved(x, name);
    RestBuckets(x);
    LayoutTags(x);
    LayoutFieldSegment(x);
    Assembled(Record(Layout(x)[1..], Some(name), None));
    assert Join([x.tagName + "=" + x.tagValue], ",") == x.tagName + "=" + x.tagValue;
  }

  // ---------------------------------------------------------------------
  // The cases of the Duration test, given what ParseDuration returns.

  lemma DurationDefaultUnit(parse: Parser)
    requires parse("13h23m12.234444234s") == Success(48_192_234_444_234)
    ensures MarshalInflux(Duration("13h23m12.234444234s", 0), parse) == Marshaled("13h23m12.234444234s", None)
  {
  }

  lemma DurationParseError(parse: Parser)
    requires parse("345.12") == Failure("time: missing unit in duration \"345.12\"")
    ensures MarshalInflux(Duration("345.12", 0), parse).text == ""
    ensures MarshalInflux(Duration("345.12", 0), parse).err.Some?
  {
  }

  lemma DurationIntegerUnits(parse: Parser)
    requires parse("12ns") == Success(12)
    requires parse("12µs") == Success(12_000)
    requires parse("12ms") == Success(12_000_000)
    ensures MarshalInflux(Duration("12ns", Nanosecond), parse) == Marshaled("12i", None)
    ensures MarshalInflux(Duration("12µs", Microsecond), parse) == Marshaled("12i", None)
    ensures MarshalInflux(Duration("12ms", Millisecond), parse) == Marshaled("12i", None)
  {
    assert Decimal(12) == "12" by {
      assert NatDigits(1) == "1";
      assert NatDigits(12) == NatDigits(1) + "2";
    }
  }

  lemma DurationFractionalUnits(parse: Parser)
    requires parse("12.223434567s") == Success(12_223_434_567)
    requires parse("12m30.223434567s") == Success(750_223_434_567)
    requires parse("12h30m11.223434567s") == Success(45_011_223_434_567)
    ensures MarshalInflux(Duration("12.223434567s", Second), parse) == Marshaled("12.22", None)
    ensures MarshalInflux(Duration("12m30.223434567s", Minute), parse) == Marshaled("12.50", None)
    ensures MarshalInflux(Duration("12h30m11.223434567s", Hour), parse) == Marshaled("12.50", None)
  {
    assert NatDigits(12) == "12" by {
      assert NatDigits(1) == "1";
      assert NatDigits(12) == NatDigits(1) + "2";
    }
    assert RoundHalfEven(100 * 12_223_434_567, Second) == 1222;
    assert FixedText(false, 1222) == "12.22";
    assert RoundHalfEven(100 * 750_223_434_567, Minute) == 1250;
    assert RoundHalfEven(100 * 45_011_223_434_567, Hour) == 1250;
    assert FixedText(false, 1250) == "12.50";
  }

  /** The durations of the "duration/second", "duration/minute", "func" and
      "override" tests: 77.28 seconds and 17.50 minutes. */
  lemma DurationsInLineTests(parse: Parser)
    requires parse("1m17.276156216s") == Success(77_276_156_216)
    requires parse("17m30.276156216s") == Success(1_050_276_156_216)
    ensures MarshalInflux(Duration("1m17.276156216s", Second), parse) == Marshaled("77.28", None)
    ensures MarshalInflux(Duration("17m30.276156216s", Minute), parse) == Marshaled("17.50", None)
  {
    assert NatDigits(77) == "77" by {
      assert NatDigits(7) == "7";
      assert NatDigits(77) == NatDigits(7) + "7";
    }
    assert NatDigits(17) == "17" by {
      assert NatDigits(1) == "1";
      assert NatDigits(17) == NatDigits(1) + "7";
    }
    assert RoundHalfEven(100 * 77_276_156_216, Second) == 7728;
    assert FixedText(false, 7728) == "77.28";
    assert RoundHalfEven(100 * 1_050_276_156_216, Minute) == 1750;
    assert FixedText(false, 1750) == "17.50";
  }
}
