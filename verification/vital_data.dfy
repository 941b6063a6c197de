/**
 * The vital-sign series of a patient record: the three kinds, the reading
 * stored per date, the date-keyed map, and the input parsing of a save.
 */
module VitalData {
  import opened Wrappers
  import opened JsText
  import opened JsNumber

  datatype Kind = Oxygen | Glucose | BloodPressure

  /** The display name of each kind (`vitalNames`); a stored vital's `title`
      holds the same text. */
  function Title(k: Kind): (t: string) {
    match k
    case Oxygen => "산소포화도"
    case Glucose => "혈당"
    case BloodPressure => "혈압"
  }

  /** The kinds in the order the screen lists its charts. */
  const ChartKinds: seq<Kind> := [Oxygen, Glucose, BloodPressure]

  /** `vitalNames[index]`: the title a chart gets from its position alone,
      undefined past the third chart. */
  function ChartTitle(index: nat): (t: Option<string>)
    ensures t.Some? <==> index < 3
    ensures t == Some(Title(BloodPressure)) <==> index == 2
  {
    if index < |ChartKinds| then Some(Title(ChartKinds[index])) else None
  }

  /** A stored reading: one number, or a `[systolic, diastolic]` array whose
      second element is undefined when the input had no second part. */
  datatype Entry = Scalar(n: Number) | Pair(systolic: Number, diastolic: Option<Number>)

  /** A vital's `data` object: date key to reading. */
  type Series = map<string, Entry>

  /** `data || {}` */
  function OrEmpty(data: Option<Series>): (s: Series) {
    if data.Some? then data.value else map[]
  }

  /** The reading a save stores for the raw input `value` into a vital whose
      stored title is `title`: a pair for blood pressure, else one number. */
  function ReadingFor(title: string, value: string): (e: Entry)
    ensures e.Pair? <==> title == Title(BloodPressure)
    ensures e.Scalar? ==> e.n == ParseFloat(value)
  {
    if title == Title(BloodPressure) then BloodPressureReading(value)
    else Scalar(ParseFloat(value))
  }

  /** `value.split('/').map(v => parseFloat(v.trim()))`, destructured into
      `[systolic, diastolic]`. */
  function BloodPressureReading(value: string): (e: Entry)
    ensures e.Pair?
    ensures e.diastolic.Some? <==> '/' in value
  {
    var parts := Split(value, '/');
    assert |parts| > 1 ==> Join(parts, '/') == parts[0] + ['/'] + Join(parts[1..], '/');
    assert |parts| > 1 <==> '/' in value;
    Pair(ParseFloat(Trim(parts[0])),
         if |parts| > 1 then Some(ParseFloat(Trim(parts[1]))) else None)
  }

  /** Of an input with at least two `/`-separated parts, the first two are
      trimmed and parsed and any further parts are ignored. */
  lemma {:induction false} BloodPressureFirstTwo(parts: seq<string>)
    requires |parts| >= 2
    requires forall i :: 0 <= i < |parts| ==> '/' !in parts[i]
    ensures BloodPressureReading(Join(parts, '/'))
      == Pair(ParseFloat(Trim(parts[0])), Some(ParseFloat(Trim(parts[1]))))
  {
    SplitJoin(parts, '/');
  }

  /** An input without `/` is not refused: it is stored with an undefined
      diastolic value. */
  lemma {:induction false} BloodPressureNoSlash(value: string)
    requires '/' !in value
    ensures BloodPressureReading(value) == Pair(ParseFloat(Trim(value)), None)
  {
    SplitUnseparated(value, '/');
  }

  /** "120/80" is stored as [120, 80]. */
  lemma {:induction false} BloodPressureExample()
    ensures BloodPressureReading("120/80") == Pair(Finite(120.0), Some(Finite(80.0)))
  {
    var a, b := "120", "80";
    assert Join([a, b], '/') == "120/80";
    BloodPressureFirstTwo([a, b]);
    ParsedExampleParts();
  }

  lemma {:induction false} ParsedExampleParts()
    ensures ParseFloat(Trim("120")) == Finite(120.0)
    ensures ParseFloat(Trim("80")) == Finite(80.0)
  {
    var a, b := "120", "80";
    assert DigitsValue(a) == 120 by {
      DigitsSnoc([], '1');
      DigitsSnoc("1", '2');
      DigitsSnoc("12", '0');
    }
    assert DigitsValue(b) == 80 by {
      DigitsSnoc([], '8');
      DigitsSnoc("8", '0');
    }
    ToNumberDigits(a);
    ToNumberDigits(b);
  }

  /** `data[key] = e` after `data` was initialised to `{}` when missing: the
      key now holds `e`, every other key keeps its reading, none is added. */
  function Upsert(data: Option<Series>, key: string, e: Entry): (r: Series)
    ensures key in r && r[key] == e
    ensures r.Keys == OrEmpty(data).Keys + {key}
    ensures forall k :: k in OrEmpty(data) && k != key ==> r[k] == OrEmpty(data)[k]
  {
    OrEmpty(data)[key := e]
  }

  /** Storing the same reading at the same date twice changes nothing the
      second time. */
  lemma {:induction false} UpsertIdempotent(data: Option<Series>, key: string, e: Entry)
    ensures Upsert(Some(Upsert(data, key, e)), key, e) == Upsert(data, key, e)
  {
  }

  /** A vital object of the patient record. The save writes into its `data`
      in place, so every record holding this object sees the write. */
  class Vital {
    const title: string
    var data: Option<Series>

    constructor (title: string, data: Option<Series>)
      ensures this.title == title && this.data == data
    {
      this.title := title;
      this.data := data;
    }

    /** The write step of the reading's save: create the map when missing,
        then store the reading parsed from `value` according to this
        vital's own title. */
    method Record(key: string, value: string)
      modifies this
      ensures data == Some(Upsert(old(data), key, ReadingFor(title, value)))
    {
      if data.None? {
        data := Some(map[]);
      }
      data := Some(data.value[key := ReadingFor(title, value)]);
    }
  }

}
