/** `ConvertToInfluxLineProtocol`: one record to one line of the InfluxDB
    line protocol, `measurement,tags fields nanos`.

    The Go code discovers the record's layout by reflection. Here the
    record is given explicitly: its fields in declaration order, each with
    its optional `influx` struct tag and its value, and the results of the
    optional `InfluxMeasurement()` and `InfluxTimestamp()` methods. */
module LineProtocol {
  import opened Wrappers
  import opened Text
  import opened Durations

  /** A `time.Time`: the zero time, or an instant with its `UnixNano()`.
      An instant at Unix nanosecond 0 is not the zero time. */
  datatype Timestamp = ZeroTime | Instant(unixNano: int64)

  /** A field's value, by the reflect kind the encoder distinguishes.
      `text` is what `%v` prints for values whose text is not modelled. */
  datatype Value =
    | IntValue(n: int64)                          // kind int
    | Uint64Value(u: uint64)                      // kind uint64
    | TimeValue(t: Timestamp, text: string)       // time.Time
    | CustomValue(text: string, marshaled: Marshaled) // a type with MarshalInflux, and what that call returns
    | OtherValue(text: string)                    // any other value

  /** One struct field: its `influx` struct tag, if it has one, and value. */
  datatype Field = Field(tag: Option<string>, value: Value)

  datatype Record = Record(
    fields: seq<Field>,
    measurementMethod: Option<string>,    // result of InfluxMeasurement(), if the type has it
    timestampMethod: Option<Timestamp>)   // result of InfluxTimestamp(), if the type has it

  const MeasurementNotFound := "error: `influx:\",measurement\"` not found"
  const TimestampNotFound := "error: `influx:\",timestamp\"` not found"

  /** What the encoder produces: a line or one of its two errors. */
  datatype Row = Line(text: string) | MissingMeasurement | MissingTimestamp {
    /** The string the Go function returns. */
    function Text(): string {
      match this
      case Line(t) => t
      case MissingMeasurement => MeasurementNotFound
      case MissingTimestamp => TimestampNotFound
    }
  }

  /** What `%v` prints. */
  function Sprint(v: Value): string {
    match v
    case IntValue(n) => Decimal(n)
    case Uint64Value(u) => Decimal(u)
    case TimeValue(_, text) => text
    case CustomValue(text, _) => text
    case OtherValue(text) => text
  }

  /** The suffix default rendering adds for the two integer kinds. */
  function Suffix(v: Value): string {
    match v
    case IntValue(_) => "i"
    case Uint64Value(_) => "u"
    case _ => ""
  }

  /** A field the encoder can handle without panicking: its tag has a
      comma, and a `timestamp` field holds a `time.Time`. */
  predicate WellTagged(f: Field) {
    f.tag.Some? ==>
      ',' in f.tag.value &&
      (Split(f.tag.value, ',')[1] == "timestamp" ==> f.value.TimeValue?)
  }

  predicate WellFormed(fs: seq<Field>) {
    forall i :: 0 <= i < |fs| ==> WellTagged(fs[i])
  }

  /** The name part of the struct tag `name,role`. */
  function Name(f: Field): string
    requires f.tag.Some?
  {
    Split(f.tag.value, ',')[0]
  }

  /** The role part of the struct tag `name,role`. */
  function Role(f: Field): string
    requires f.tag.Some? && WellTagged(f)
  {
    Split(f.tag.value, ',')[1]
  }

  predicate HasRole(f: Field, role: string)
    requires WellTagged(f)
  {
    f.tag.Some? && Role(f) == role
  }

  /** The `name=value` entry of a field of any role other than measurement
      and timestamp, or None when its custom formatter fails. */
  function Entry(f: Field): Option<string>
    requires f.tag.Some?
  {
    match f.value
    case CustomValue(_, m) => if m.err.Some? then None else Some(Name(f) + "=" + m.text)
    case _ => Some(Name(f) + "=" + Sprint(f.value) + Suffix(f.value))
  }

  /** The entries the loop appends under key `role` for field `f`. */
  function Contribution(f: Field, role: string): seq<string>
    requires WellTagged(f)
  {
    if f.tag.Some? && Role(f) == role && role != "measurement" && role != "timestamp" && Entry(f).Some?
    then [Entry(f).value]
    else []
  }

  /** The entries collected under key `role` of the metric map. */
  function Bucket(fs: seq<Field>, role: string): seq<string>
    requires WellFormed(fs)
  {
    if fs == [] then [] else Bucket(fs[..|fs| - 1], role) + Contribution(fs[|fs| - 1], role)
  }

  /** The measurement after the loop: the last measurement field's text,
      else the method's result, else empty. */
  function ResolvedMeasurement(fs: seq<Field>, override: Option<string>): string
    requires WellFormed(fs)
  {
    if fs == [] then override.GetOr("")
    else if HasRole(fs[|fs| - 1], "measurement") then Sprint(fs[|fs| - 1].value)
    else ResolvedMeasurement(fs[..|fs| - 1], override)
  }

  /** The timestamp after the loop, chosen the same way. */
  function ResolvedTimestamp(fs: seq<Field>, override: Option<Timestamp>): Timestamp
    requires WellFormed(fs)
  {
    if fs == [] then override.GetOr(ZeroTime)
    else if HasRole(fs[|fs| - 1], "timestamp") then fs[|fs| - 1].value.t
    else ResolvedTimestamp(fs[..|fs| - 1], override)
  }

  /** The specification of the encoder. */
  function Encode(v: Record): Row
    requires WellFormed(v.fields)
  {
    var m := ResolvedMeasurement(v.fields, v.measurementMethod);
    var t := ResolvedTimestamp(v.fields, v.timestampMethod);
    if m == "" then MissingMeasurement
    else if t.ZeroTime? then MissingTimestamp
    else Line(m + "," + Join(Bucket(v.fields, "tag"), ",") + " " +
              Join(Bucket(v.fields, "field"), ",") + " " + Decimal(t.unixNano))
  }

  function Lookup(metric: map<string, seq<string>>, key: string): seq<string> {
    if key in metric then metric[key] else []
  }

  /** One more field extends each resolved value and each bucket by that
      field alone. */
  lemma Step(fs: seq<Field>, i: nat, mo: Option<string>, to: Option<Timestamp>)
    requires WellFormed(fs) && i < |fs|
    ensures WellFormed(fs[..i]) && WellFormed(fs[..i + 1])
    ensures ResolvedMeasurement(fs[..i + 1], mo) ==
      (if HasRole(fs[i], "measurement") then Sprint(fs[i].value) else ResolvedMeasurement(fs[..i], mo))
    ensures ResolvedTimestamp(fs[..i + 1], to) ==
      (if HasRole(fs[i], "timestamp") then fs[i].value.t else ResolvedTimestamp(fs[..i], to))
    ensures forall key :: Bucket(fs[..i + 1], key) == Bucket(fs[..i], key) + Contribution(fs[i], key)
  {
    assert fs[..i + 1][..i] == fs[..i];
    assert fs[..i + 1][i] == fs[i];
  }

  /** Appending entry `e` under key `role` of the metric map adds exactly
      the contribution of field `f`. */
  lemma Appended(before: map<string, seq<string>>, role: string, e: string, f: Field)
    requires WellTagged(f) && f.tag.Some? && Role(f) == role
    requires role != "measurement" && role != "timestamp" && Entry(f) == Some(e)
    ensures forall key ::
      Lookup(before[role := Lookup(before, role) + [e]], key) == Lookup(before, key) + Contribution(f, key)
  {
  }

  /** The three outcomes of Encode, in the order the Go code checks them. */
  lemma Assembled(v: Record)
    requires WellFormed(v.fields)
    ensures var m := ResolvedMeasurement(v.fields, v.measurementMethod);
      m == "" ==> Encode(v).Text() == MeasurementNotFound
    ensures var m := ResolvedMeasurement(v.fields, v.measurementMethod);
      var t := ResolvedTimestamp(v.fields, v.timestampMethod);
      m != "" && t.ZeroTime? ==> Encode(v).Text() == TimestampNotFound
    ensures var m := ResolvedMeasurement(v.fields, v.measurementMethod);
      var t := ResolvedTimestamp(v.fields, v.timestampMethod);
      m != "" && t.Instant? ==>
        Encode(v).Text() == m + "," + Join(Bucket(v.fields, "tag"), ",") + " " +
          Join(Bucket(v.fields, "field"), ",") + " " + Decimal(t.unixNano)
  {
  }

  /** A field that adds no entry leaves every bucket as it was. */
  lemma NoContribution(f: Field)
    requires WellTagged(f)
    requires f.tag.Some? ==> Role(f) == "measurement" || Role(f) == "timestamp" || Entry(f).None?
    ensures forall key :: Contribution(f, key) == []
  {
  }

  /** `ConvertToInfluxLineProtocol`. */
  method ConvertToInfluxLineProtocol(v: Record) returns (row: string)
    requires WellFormed(v.fields)
    ensures row == Encode(v).Text()
  {
    var measurement := "";
    var timestamp := ZeroTime;
    if v.measurementMethod.Some? {
      measurement := v.measurementMethod.value;
    }
    if v.timestampMethod.Some? {
      timestamp := v.timestampMethod.value;
    }

    var metric: map<string, seq<string>> := map["tag" := [], "field" := []];

    var fs := v.fields;
    for i := 0 to |fs|
      invariant measurement == ResolvedMeasurement(fs[..i], v.measurementMethod)
      invariant timestamp == ResolvedTimestamp(fs[..i], v.timestampMethod)
      invariant "tag" in metric && "field" in metric
      invariant forall key :: Lookup(metric, key) == Bucket(fs[..i], key)
    {
      ghost var before := metric;
      Step(fs, i, v.measurementMethod, v.timestampMethod);
      if fs[i].tag.Some? {
        var params := Split(fs[i].tag.value, ',');
        var metricName, metricType := params[0], params[1];

        if metricType == "measurement" {
          measurement := Sprint(fs[i].value);
          NoContribution(fs[i]);
        } else if metricType == "timestamp" {
          timestamp := fs[i].value.t;
          NoContribution(fs[i]);
        } else {
          if fs[i].value.CustomValue? {
            var m := fs[i].value.marshaled;
            if m.err.Some? {
              NoContribution(fs[i]);
              continue;
            }
            metric := metric[metricType := Lookup(metric, metricType) + [metricName + "=" + m.text]];
            Appended(before, metricType, metricName + "=" + m.text, fs[i]);
            continue;
          }

          var mval := metricName + "=" + Sprint(fs[i].value);
          if fs[i].value.IntValue? {
            mval := mval + "i";
          } else if fs[i].value.Uint64Value? {
            mval := mval + "u";
          }
          assert mval == metricName + "=" + Sprint(fs[i].value) + Suffix(fs[i].value);
          metric := metric[metricType := Lookup(metric, metricType) + [mval]];
          Appended(before, metricType, mval, fs[i]);
        }
      } else {
        NoContribution(fs[i]);
      }
    }
    assert fs[..|fs|] == fs;
    Assembled(v);

    if measurement == "" {
      return MeasurementNotFound;
    }
    if timestamp.ZeroTime? {
      return TimestampNotFound;
    }
    return measurement + "," + Join(metric["tag"], ",") + " " +
           Join(metric["field"], ",") + " " + Decimal(timestamp.unixNano);
  }
}
