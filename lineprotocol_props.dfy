/** What the encoder promises, stated about its specification `Encode`
    and proved from it: which field or method supplies the measurement
    and the timestamp, which error wins, the order of entries, which
    fields leave no trace, and how a line reads back. */
module LineProtocolProperties {
  import opened Wrappers
  import opened Text
  import opened Durations
  import opened LineProtocol

  // ---------------------------------------------------------------------
  // Measurement and timestamp: a declared field beats the method, and
  // among several fields the last one declared wins.

  lemma {:induction false} MeasurementFromLastField(fs: seq<Field>, override: Option<string>, j: nat)
    requires WellFormed(fs) && j < |fs| && HasRole(fs[j], "measurement")
    requires forall k :: j < k < |fs| ==> !HasRole(fs[k], "measurement")
    ensures ResolvedMeasurement(fs, override) == Sprint(fs[j].value)
  {
    if j < |fs| - 1 {
      var p := fs[..|fs| - 1];
      assert p[j] == fs[j];
      forall k | j < k < |p|
        ensures !HasRole(p[k], "measurement")
      {
        assert p[k] == fs[k];
      }
      MeasurementFromLastField(p, override, j);
    }
  }

  lemma {:induction false} MeasurementFromMethod(fs: seq<Field>, override: Option<string>)
    requires WellFormed(fs)
    requires forall k :: 0 <= k < |fs| ==> !HasRole(fs[k], "measurement")
    ensures ResolvedMeasurement(fs, override) == override.GetOr("")
  {
    if fs != [] {
      var p := fs[..|fs| - 1];
      forall k | 0 <= k < |p|
        ensures !HasRole(p[k], "measurement")
      {
        assert p[k] == fs[k];
      }
      MeasurementFromMethod(p, override);
    }
  }

  lemma {:induction false} TimestampFromLastField(fs: seq<Field>, override: Option<Timestamp>, j: nat)
    requires WellFormed(fs) && j < |fs| && HasRole(fs[j], "timestamp")
    requires forall k :: j < k < |fs| ==> !HasRole(fs[k], "timestamp")
    ensures ResolvedTimestamp(fs, override) == fs[j].value.t
  {
    if j < |fs| - 1 {
      var p := fs[..|fs| - 1];
      assert p[j] == fs[j];
      forall k | j < k < |p|
        ensures !HasRole(p[k], "timestamp")
      {
        assert p[k] == fs[k];
      }
      TimestampFromLastField(p, override, j);
    }
  }

  lemma {:induction false} TimestampFromMethod(fs: seq<Field>, override: Option<Timestamp>)
    requires WellFormed(fs)
    requires forall k :: 0 <= k < |fs| ==> !HasRole(fs[k], "timestamp")
    ensures ResolvedTimestamp(fs, override) == override.GetOr(ZeroTime)
  {
    if fs != [] {
      var p := fs[..|fs| - 1];
      forall k | 0 <= k < |p|
        ensures !HasRole(p[k], "timestamp")
      {
        assert p[k] == fs[k];
      }
      TimestampFromMethod(p, override);
    }
  }

  /** The measurement comes from the method or from some measurement field. */
  lemma {:induction false} MeasurementSource(fs: seq<Field>, override: Option<string>)
    requires WellFormed(fs)
    ensures var r := ResolvedMeasurement(fs, override);
      r == override.GetOr("") ||
      exists j :: 0 <= j < |fs| && HasRole(fs[j], "measurement") && r == Sprint(fs[j].value)
  {
    if fs != [] && !HasRole(fs[|fs| - 1], "measurement") {
      var p := fs[..|fs| - 1];
      MeasurementSource(p, override);
      var r := ResolvedMeasurement(p, override);
      if r != override.GetOr("") {
        var j :| 0 <= j < |p| && HasRole(p[j], "measurement") && r == Sprint(p[j].value);
        assert p[j] == fs[j];
      }
    }
  }

  /** The timestamp comes from the method or from some timestamp field. */
  lemma {:induction false} TimestampSource(fs: seq<Field>, override: Option<Timestamp>)
    requires WellFormed(fs)
    ensures var r := ResolvedTimestamp(fs, override);
      r == override.GetOr(ZeroTime) ||
      exists j :: 0 <= j < |fs| && HasRole(fs[j], "timestamp") && r == fs[j].value.t
  {
    if fs != [] && !HasRole(fs[|fs| - 1], "timestamp") {
      var p := fs[..|fs| - 1];
      TimestampSource(p, override);
      var r := ResolvedTimestamp(p, override);
      if r != override.GetOr(ZeroTime) {
        var j :| 0 <= j < |p| && HasRole(p[j], "timestamp") && r == p[j].value.t;
        assert p[j] == fs[j];
      }
    }
  }

  // ---------------------------------------------------------------------
  // The two errors.

  /** With no measurement field and no (or an empty) InfluxMeasurement(),
      the result is the measurement error, whatever the timestamp. */
  lemma MissingMeasurementError(v: Record)
    requires WellFormed(v.fields)
    requires forall k :: 0 <= k < |v.fields| ==> !HasRole(v.fields[k], "measurement")
    requires v.measurementMethod.GetOr("") == ""
    ensures Encode(v).Text() == MeasurementNotFound
  {
    MeasurementFromMethod(v.fields, v.measurementMethod);
  }

  /** With a measurement but no timestamp field and no InfluxTimestamp()
      (or one returning the zero time), the result is the timestamp error. */
  lemma MissingTimestampError(v: Record)
    requires WellFormed(v.fields)
    requires ResolvedMeasurement(v.fields, v.measurementMethod) != ""
    requires forall k :: 0 <= k < |v.fields| ==> !HasRole(v.fields[k], "timestamp")
    requires v.timestampMethod.GetOr(ZeroTime) == ZeroTime
    ensures Encode(v).Text() == TimestampNotFound
  {
    TimestampFromMethod(v.fields, v.timestampMethod);
  }

  /** Encoding fails exactly when no measurement or no timestamp resolves. */
  lemma LineExactlyWhenResolved(v: Record)
    requires WellFormed(v.fields)
    ensures Encode(v).Line? <==>
      ResolvedMeasurement(v.fields, v.measurementMethod) != "" &&
      ResolvedTimestamp(v.fields, v.timestampMethod).Instant?
  {
  }

  // ---------------------------------------------------------------------
  // Entries keep declaration order.

  lemma {:induction false} BucketAppend(fs: seq<Field>, gs: seq<Field>, role: string)
    requires WellFormed(fs) && WellFormed(gs)
    ensures WellFormed(fs + gs)
    ensures Bucket(fs + gs, role) == Bucket(fs, role) + Bucket(gs, role)
  {
    if gs == [] {
      assert fs + gs == fs;
    } else {
      var g := gs[..|gs| - 1];
      assert (fs + gs)[..|fs + gs| - 1] == fs + g;
      assert (fs + gs)[|fs + gs| - 1] == gs[|gs| - 1];
      BucketAppend(fs, g, role);
    }
  }

  /** A bucket holds at most one entry per field, and the measurement and
      timestamp keys never receive any. */
  lemma {:induction false} BucketBounds(fs: seq<Field>, role: string)
    requires WellFormed(fs)
    ensures |Bucket(fs, role)| <= |fs|
    ensures role == "measurement" || role == "timestamp" ==> Bucket(fs, role) == []
  {
    if fs != [] {
      BucketBounds(fs[..|fs| - 1], role);
    }
  }

  lemma BucketSingle(f: Field, role: string)
    requires WellTagged(f)
    ensures Bucket([f], role) == Contribution(f, role)
  {
    assert [f][..0] == [];
  }

  /** Prepending a field puts its contribution in front. */
  lemma BucketCons(f: Field, gs: seq<Field>, role: string)
    requires WellTagged(f) && WellFormed(gs)
    ensures WellFormed([f] + gs)
    ensures Bucket([f] + gs, role) == Contribution(f, role) + Bucket(gs, role)
  {
    BucketAppend([f], gs, role);
    BucketSingle(f, role);
  }

  /** Bucket of a list split around position k. */
  lemma BucketAround(fs: seq<Field>, k: nat, role: string)
    requires WellFormed(fs) && k < |fs|
    ensures WellFormed(fs[..k]) && WellFormed(fs[k + 1..])
    ensures Bucket(fs, role) == Bucket(fs[..k], role) + Contribution(fs[k], role) + Bucket(fs[k + 1..], role)
  {
    assert fs == fs[..k] + [fs[k]] + fs[k + 1..];
    BucketAppend(fs[..k], [fs[k]], role);
    BucketAppend(fs[..k] + [fs[k]], fs[k + 1..], role);
    BucketSingle(fs[k], role);
  }

  /** Two entries of the same role appear in the order of their fields,
      with only the entries of the fields between them in between. */
  lemma BucketOrder(fs: seq<Field>, role: string, j: nat, k: nat)
    requires WellFormed(fs) && j < k < |fs|
    requires role != "measurement" && role != "timestamp"
    requires HasRole(fs[j], role) && Entry(fs[j]).Some?
    requires HasRole(fs[k], role) && Entry(fs[k]).Some?
    ensures WellFormed(fs[..j]) && WellFormed(fs[j + 1..k]) && WellFormed(fs[k + 1..])
    ensures Bucket(fs, role) ==
      Bucket(fs[..j], role) + [Entry(fs[j]).value] + Bucket(fs[j + 1..k], role) +
      [Entry(fs[k]).value] + Bucket(fs[k + 1..], role)
  {
    BucketAround(fs, k, role);
    var p := fs[..k];
    assert p[j] == fs[j];
    BucketAround(p, j, role);
    assert p[..j] == fs[..j];
    assert p[j + 1..] == fs[j + 1..k];
  }

  /** Every entry of a bucket comes from a field of that role. */
  lemma {:induction false} BucketSources(fs: seq<Field>, role: string, e: string)
    requires WellFormed(fs) && e in Bucket(fs, role)
    ensures exists j :: 0 <= j < |fs| && HasRole(fs[j], role) && Entry(fs[j]) == Some(e)
  {
    var p := fs[..|fs| - 1];
    var f := fs[|fs| - 1];
    if e in Bucket(p, role) {
      BucketSources(p, role, e);
      var j :| 0 <= j < |p| && HasRole(p[j], role) && Entry(p[j]) == Some(e);
      assert p[j] == fs[j];
    } else {
      assert e in Contribution(f, role);
    }
  }

  // ---------------------------------------------------------------------
  // Fields that leave no trace.

  /** The field is untagged, has a role the output never shows, or has a
      custom formatter that failed. */
  predicate Inert(f: Field)
    requires WellTagged(f)
  {
    f.tag.Some? ==>
      Role(f) != "measurement" && Role(f) != "timestamp" &&
      ((Role(f) != "tag" && Role(f) != "field") || Entry(f).None?)
  }

  function Without(fs: seq<Field>, k: nat): seq<Field>
    requires k < |fs|
  {
    fs[..k] + fs[k + 1..]
  }

  lemma {:induction false} MeasurementWithout(fs: seq<Field>, k: nat, override: Option<string>)
    requires WellFormed(fs) && k < |fs| && !HasRole(fs[k], "measurement")
    ensures WellFormed(Without(fs, k))
    ensures ResolvedMeasurement(Without(fs, k), override) == ResolvedMeasurement(fs, override)
  {
    var rest := Without(fs, k);
    if k == |fs| - 1 {
      assert rest == fs[..|fs| - 1];
    } else {
      var p := fs[..|fs| - 1];
      assert p[k] == fs[k];
      MeasurementWithout(p, k, override);
      assert rest[..|rest| - 1] == Without(p, k);
      assert rest[|rest| - 1] == fs[|fs| - 1];
    }
  }

  lemma {:induction false} TimestampWithout(fs: seq<Field>, k: nat, override: Option<Timestamp>)
    requires WellFormed(fs) && k < |fs| && !HasRole(fs[k], "timestamp")
    ensures WellFormed(Without(fs, k))
    ensures ResolvedTimestamp(Without(fs, k), override) == ResolvedTimestamp(fs, override)
  {
    var rest := Without(fs, k);
    if k == |fs| - 1 {
      assert rest == fs[..|fs| - 1];
    } else {
      var p := fs[..|fs| - 1];
      assert p[k] == fs[k];
      TimestampWithout(p, k, override);
      assert rest[..|rest| - 1] == Without(p, k);
      assert rest[|rest| - 1] == fs[|fs| - 1];
    }
  }

  /** Deleting a field that adds nothing to a bucket leaves the bucket as
      it was. */
  lemma BucketWithout(fs: seq<Field>, k: nat, role: string)
    requires WellFormed(fs) && k < |fs| && Contribution(fs[k], role) == []
    ensures WellFormed(Without(fs, k))
    ensures Bucket(Without(fs, k), role) == Bucket(fs, role)
  {
    BucketAround(fs, k, role);
    BucketAppend(fs[..k], fs[k + 1..], role);
  }

  lemma InertContributesNothing(f: Field)
    requires WellTagged(f) && Inert(f)
    ensures !HasRole(f, "measurement") && !HasRole(f, "timestamp")
    ensures Contribution(f, "tag") == [] && Contribution(f, "field") == []
  {
  }

  /** Deleting an inert field does not change the result. */
  lemma RemoveInert(v: Record, k: nat)
    requires WellFormed(v.fields) && k < |v.fields| && Inert(v.fields[k])
    ensures WellFormed(Without(v.fields, k))
    ensures Encode(Record(Without(v.fields, k), v.measurementMethod, v.timestampMethod)) == Encode(v)
  {
    var fs := v.fields;
    InertContributesNothing(fs[k]);
    MeasurementWithout(fs, k, v.measurementMethod);
    TimestampWithout(fs, k, v.timestampMethod);
    BucketWithout(fs, k, "tag");
    BucketWithout(fs, k, "field");
  }

  // ---------------------------------------------------------------------
  // Reading a line back.

  lemma NoSpaceInDecimal(n: int)
    ensures ' ' !in Decimal(n) && ',' !in Decimal(n)
  {
  }

  /** When the measurement and the entries have no spaces, the line splits
      on spaces into exactly its three segments, and the last reads back as
      the timestamp. */
  lemma LineSegments(v: Record)
    requires WellFormed(v.fields) && Encode(v).Line?
    requires ' ' !in ResolvedMeasurement(v.fields, v.measurementMethod)
    requires forall e :: e in Bucket(v.fields, "tag") ==> ' ' !in e
    requires forall e :: e in Bucket(v.fields, "field") ==> ' ' !in e
    ensures var m := ResolvedMeasurement(v.fields, v.measurementMethod);
      var t := ResolvedTimestamp(v.fields, v.timestampMethod);
      var tags, fields := Bucket(v.fields, "tag"), Bucket(v.fields, "field");
      Split(Encode(v).text, ' ') == [m + "," + Join(tags, ","), Join(fields, ","), Decimal(t.unixNano)] &&
      ParseDecimal(Split(Encode(v).text, ' ')[2]) == Some(t.unixNano)
  {
    var m := ResolvedMeasurement(v.fields, v.measurementMethod);
    var t := ResolvedTimestamp(v.fields, v.timestampMethod);
    var tags, fields := Bucket(v.fields, "tag"), Bucket(v.fields, "field");
    JoinFree(tags, ",", ' ');
    JoinFree(fields, ",", ' ');
    NoSpaceInDecimal(t.unixNano);
    var parts := [m + "," + Join(tags, ","), Join(fields, ","), Decimal(t.unixNano)];
    JoinThree(parts[0], parts[1], parts[2], " ");
    assert Encode(v).text == Join(parts, " ");
    SplitJoin(parts, ' ');
    DecimalRoundTrip(t.unixNano);
  }

  /** The first segment splits on commas into the measurement and the tag
      entries; with no tags the comma is still there and an empty piece
      follows it. */
  lemma TagSegment(m: string, tags: seq<string>)
    requires ',' !in m
    requires forall e :: e in tags ==> ',' !in e
    ensures Split(m + "," + Join(tags, ","), ',') == [m] + (if tags == [] then [""] else tags)
  {
    SplitPrepend(m, Join(tags, ","), ',');
    if tags != [] {
      SplitJoin(tags, ',');
    }
  }

  // ---------------------------------------------------------------------
  // Rendering of entries.

  /** An `int` or `uint64` entry is the name, `=`, the decimal value and the
      kind's suffix, and the number reads back. */
  lemma IntegerEntry(f: Field)
    requires f.tag.Some? && (f.value.IntValue? || f.value.Uint64Value?)
    ensures var e := Entry(f).value;
      var n := if f.value.IntValue? then f.value.n else f.value.u;
      var name := Name(f);
      |e| >= |name| + 3 && e[..|name| + 1] == name + "=" &&
      e[|e| - 1] == (if f.value.IntValue? then 'i' else 'u') &&
      ParseDecimal(e[|name| + 1..|e| - 1]) == Some(n)
  {
    var n: int := if f.value.IntValue? then f.value.n else f.value.u;
    var e := Entry(f).value;
    assert e == Name(f) + "=" + Decimal(n) + Suffix(f.value);
    assert e[|Name(f)| + 1..|e| - 1] == Decimal(n);
    DecimalRoundTrip(n);
  }

  /** Any other value without a custom formatter is written as its `%v`
      text, unescaped and unquoted, with no suffix. */
  lemma PlainEntry(f: Field)
    requires f.tag.Some? && (f.value.OtherValue? || f.value.TimeValue?)
    ensures Entry(f) == Some(Name(f) + "=" + f.value.text)
  {
    assert Suffix(f.value) == "";
    assert Name(f) + "=" + f.value.text + "" == Name(f) + "=" + f.value.text;
  }

  /** A custom formatter's text is used verbatim; when it fails, there is
      no entry. */
  lemma CustomEntry(f: Field)
    requires f.tag.Some? && f.value.CustomValue?
    ensures Entry(f).None? <==> f.value.marshaled.err.Some?
    ensures Entry(f).Some? ==> Entry(f).value == Name(f) + "=" + f.value.marshaled.text
  {
  }

  /** A `Duration` field: its entry is dropped exactly when the duration
      text does not parse; in an integer unit it is the truncated count and
      `i`, in seconds, minutes or hours it is two-decimal text. */
  lemma DurationEntry(name: string, role: string, d: Duration, parse: Parser, text: string)
    requires ',' !in name
    ensures var f := Field(Some(name + "," + role), CustomValue(text, MarshalInflux(d, parse)));
      Name(f) == name &&
      (Entry(f).None? <==> parse(d.value).Failure?) &&
      (parse(d.value).Success? && IsIntegerUnit(d.to) ==>
        Entry(f) == Some(name + "=" + Decimal(TruncDiv(parse(d.value).value, d.to)) + "i")) &&
      (parse(d.value).Success? && IsFractionalUnit(d.to) ==>
        exists s :: Entry(f) == Some(name + "=" + s) && FixedTwoShape(s))
  {
    var f := Field(Some(name + "," + role), CustomValue(text, MarshalInflux(d, parse)));
    SplitPrepend(name, role, ',');
    assert name + "," + role == name + [','] + role;
    if parse(d.value).Success? && IsIntegerUnit(d.to) {
      var n := parse(d.value).value;
      assert TruncDiv(n, 1) == n;
      var t := Decimal(TruncDiv(n, d.to)) + "i";
      assert MarshalInflux(d, parse).text == t;
      assert Entry(f) == Some(name + "=" + t);
      assert name + "=" + t == name + "=" + Decimal(TruncDiv(n, d.to)) + "i";
    }
    if parse(d.value).Success? && IsFractionalUnit(d.to) {
      FractionalUnit(d, parse);
      var s := MarshalInflux(d, parse).text;
      assert Entry(f) == Some(name + "=" + s);
    }
  }
}
