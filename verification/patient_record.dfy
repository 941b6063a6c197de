/**
 * The patient record and the edits the screen makes to it: the name field
 * in the header, the other text fields with the body-mass index kept up to
 * date, the index as displayed, and the replacement of a record in the
 * patient list.
 */
module PatientRecord {
  import opened JsText
  import opened JsNumber
  import opened VitalData

  /** A patient record. Text fields hold what the inputs produce; `vitals`
      holds references to the vital objects, shared by every copy of the
      record. */
  datatype Patient = Patient(
    id: string,
    name: string,
    gender: string,
    age: string,
    height: string,
    weight: string,
    bloodType: string,
    bmi: string,
    vitals: seq<Vital>)

  datatype Field = Name | Gender | Age | Height | Weight | Bmi | BloodType

  function Get(p: Patient, f: Field): (s: string) {
    match f
    case Name => p.name
    case Gender => p.gender
    case Age => p.age
    case Height => p.height
    case Weight => p.weight
    case Bmi => p.bmi
    case BloodType => p.bloodType
  }

  /** `{ ...p, [f]: v }` */
  function With(p: Patient, f: Field, v: string): (r: Patient)
    ensures Get(r, f) == v
    ensures forall g :: g != f ==> Get(r, g) == Get(p, g)
    ensures r.id == p.id && r.vitals == p.vitals
  {
    match f
    case Name => p.(name := v)
    case Gender => p.(gender := v)
    case Age => p.(age := v)
    case Height => p.(height := v)
    case Weight => p.(weight := v)
    case Bmi => p.(bmi := v)
    case BloodType => p.(bloodType := v)
  }

  /** `PatientHeader.handleNameChange`: only the name changes. */
  function HandleNameChange(p: Patient, value: string): (r: Patient)
    ensures r.name == value
    ensures forall g :: g != Name ==> Get(r, g) == Get(p, g)
    ensures r.id == p.id && r.vitals == p.vitals
  {
    p.(name := value)
  }

  /** `weight / ((height / 100) * (height / 100))` on JavaScript numbers. */
  function BmiOf(height: Number, weight: Number): (bmi: Number)
    ensures height.NaN? || weight.NaN? ==> bmi.NaN?
  {
    var meters := Div(height, Finite(100.0));
    Div(weight, Mul(meters, meters))
  }

  /** Whether an edit of `field` makes `handleChange` recompute the index:
      height or weight was edited and both parse to truthy numbers. */
  predicate RecomputesBmi(r: Patient, field: Field) {
    (field == Height || field == Weight)
    && Truthy(ParseFloat(r.height)) && Truthy(ParseFloat(r.weight))
  }

  /** `PatientInfo.handleChange`: the edited field takes the new text; the
      index is recomputed, from the record's new height and weight, exactly
      when `RecomputesBmi` holds and keeps its previous text otherwise;
      nothing else changes. */
  function HandleChange(p: Patient, field: Field, value: string): (r: Patient)
    ensures field != Bmi ==> Get(r, field) == value
    ensures forall g :: g != field && g != Bmi ==> Get(r, g) == Get(p, g)
    ensures r.id == p.id && r.vitals == p.vitals
    ensures RecomputesBmi(r, field) ==> r.bmi == ToFixed2(BmiOf(ParseFloat(r.height), ParseFloat(r.weight)))
    ensures !RecomputesBmi(r, field) ==> r.bmi == if field == Bmi then value else p.bmi
  {
    var updated := With(p, field, value);
    if field == Height || field == Weight then
      var height := if field == Height then ParseFloat(value) else ParseFloat(p.height);
      var weight := if field == Weight then ParseFloat(value) else ParseFloat(p.weight);
      if Truthy(height) && Truthy(weight) then updated.(bmi := ToFixed2(BmiOf(height, weight)))
      else updated
    else updated
  }

  /** `PatientInfo.calculateBMI(patient.height, patient.weight)`, the index
      as displayed: blank unless both texts are non-empty; otherwise the
      texts are coerced with `Number`, so a text that is not a number in full
      shows "NaN". */
  function CalculateBmi(height: string, weight: string): (s: string)
    ensures s == [] <==> height == [] || weight == []
  {
    if height != [] && weight != [] then ToFixed2(BmiOf(ToNumber(height), ToNumber(weight)))
    else ""
  }

  /** When height and weight are texts that `Number` reads in full as
      non-zero numbers, and neither is a radix literal such as "0x64", the
      index stored by `handleChange` is the one `calculateBMI` displays. */
  lemma {:induction false} StoredBmiMatchesDisplayed(p: Patient, field: Field, value: string)
    requires field == Height || field == Weight
    requires var r := HandleChange(p, field, value);
      !RadixText(r.height) && !RadixText(r.weight)
    requires var r := HandleChange(p, field, value);
      Truthy(ToNumber(r.height)) && Truthy(ToNumber(r.weight))
    ensures var r := HandleChange(p, field, value);
      r.bmi == CalculateBmi(r.height, r.weight)
  {
    var r := HandleChange(p, field, value);
    var h, w := ToNumber(r.height), ToNumber(r.weight);
    assert Trim(r.height) != [] && Trim(r.weight) != [];
    assert r.height != [] && r.weight != [];
    NumberAgreesWithParseFloat(r.height);
    NumberAgreesWithParseFloat(r.weight);
    assert RecomputesBmi(r, field);
  }

  /** The displayed index, when both texts are finite numbers and the height
      is not zero, reads back within half a hundredth of the exact index. */
  lemma {:induction false} DisplayedBmiIsRounded(height: string, weight: string)
    requires height != [] && weight != []
    requires ToNumber(height).Finite? && ToNumber(weight).Finite? && ToNumber(height).x != 0.0
    ensures var h, w := ToNumber(height).x, ToNumber(weight).x;
      var v := ToNumber(CalculateBmi(height, weight));
      v.Finite? && ExactBmi(h, w) - 0.005 <= v.x <= ExactBmi(h, w) + 0.005
  {
    var h, w := ToNumber(height).x, ToNumber(weight).x;
    assert ToNumber(height) == Finite(h) && ToNumber(weight) == Finite(w);
    BmiRounded(h, w);
  }

  /** A height that reads as zero, such as "0", shows "Infinity" for any
      positive weight. */
  lemma {:induction false} ZeroHeightShowsInfinity(height: string, weight: string)
    requires height != [] && ToNumber(height) == Finite(0.0)
    requires weight != [] && ToNumber(weight).Finite? && ToNumber(weight).x > 0.0
    ensures CalculateBmi(height, weight) == "Infinity"
  {
    var w := ToNumber(weight).x;
    assert ToNumber(weight) == Finite(w);
    BmiOfZeroHeight(w);
  }

  lemma {:induction false} BmiOfZeroHeight(w: real)
    requires w > 0.0
    ensures BmiOf(Finite(0.0), Finite(w)) == Infinity(false)
  {
    var m := Div(Finite(0.0), Finite(100.0));
    assert m == Finite(0.0);
    var sq := Mul(m, m);
    assert sq == Finite(0.0);
    assert Div(Finite(w), sq) == Infinity(false);
  }

  /** A stored index, when recomputed from finite values, reads back as the
      exact index rounded to hundredths. */
  lemma {:induction false} StoredBmiIsRounded(p: Patient, field: Field, value: string)
    requires var r := HandleChange(p, field, value);
      RecomputesBmi(r, field) && ParseFloat(r.height).Finite? && ParseFloat(r.weight).Finite?
    ensures var r := HandleChange(p, field, value);
      var h, w := ParseFloat(r.height).x, ParseFloat(r.weight).x;
      var v := ToNumber(r.bmi);
      v.Finite? && ExactBmi(h, w) - 0.005 <= v.x <= ExactBmi(h, w) + 0.005
  {
    var r := HandleChange(p, field, value);
    var h, w := ParseFloat(r.height).x, ParseFloat(r.weight).x;
    assert ParseFloat(r.height) == Finite(h) && ParseFloat(r.weight) == Finite(w);
    assert h != 0.0;
    assert r.bmi == ToFixed2(BmiOf(Finite(h), Finite(w)));
    BmiRounded(h, w);
  }

  lemma {:induction false} BmiRounded(h: real, w: real)
    requires h != 0.0
    ensures var v := ToNumber(ToFixed2(BmiOf(Finite(h), Finite(w))));
      v.Finite? && ExactBmi(h, w) - 0.005 <= v.x <= ExactBmi(h, w) + 0.005
  {
    BmiOfFinite(h, w);
    ToFixed2RoundTrip(ExactBmi(h, w));
  }

  /** Weight in kilograms over the square of the height in metres, exactly. */
  function ExactBmi(h: real, w: real): (bmi: real)
    requires h != 0.0
  {
    var m := h / 100.0;
    SquarePositive(m);
    w / (m * m)
  }

  /** On finite numbers with a non-zero height the index is the exact
      quotient. */
  lemma {:induction false} BmiOfFinite(h: real, w: real)
    requires h != 0.0
    ensures BmiOf(Finite(h), Finite(w)) == Finite(ExactBmi(h, w))
  {
    var m := h / 100.0;
    assert Div(Finite(h), Finite(100.0)) == Finite(m);
    SquarePositive(m);
    assert Mul(Finite(m), Finite(m)) == Finite(m * m);
  }

  lemma {:induction false} SquarePositive(m: real)
    requires m != 0.0
    ensures m * m > 0.0
  {
    if m < 0.0 {
      assert m * m == (-m) * (-m);
    }
  }

  /** A height typed with its unit is read as a number by `handleChange`
      (`parseFloat`) but shows "NaN" through `calculateBMI` (`Number`). */
  lemma {:induction false} HeightWithUnitShowsNaN(height: string, weight: string)
    requires height == "170cm" && weight != []
    ensures CalculateBmi(height, weight) == "NaN"
    ensures ParseFloat(height) == Finite(170.0)
  {
    var d, unit := "170", "cm";
    Digits170();
    assert height == d + unit;
    ToNumberRejectsTrailing(d, unit);
    ParseFloatDigits(d, unit);
  }

  /** 170 cm and 70 kg show 24.22; editing the weight to 80 stores and shows
      27.68 without touching the index field. */
  lemma {:induction false} BmiExample(p: Patient, newWeight: string)
    requires p.height == "170" && p.weight == "70" && newWeight == "80"
    ensures CalculateBmi(p.height, p.weight) == "24.22"
    ensures HandleChange(p, Weight, newWeight).bmi == "27.68"
    ensures CalculateBmi(HandleChange(p, Weight, newWeight).height, newWeight) == "27.68"
  {
    Digits170();
    Digits70();
    Digits80();
    ToNumberDigits("170");
    ToNumberDigits("70");
    ToNumberDigits("80");
    ExampleText(70.0, "24.22");
    ExampleText(80.0, "27.68");
    ShownBmi(p.height, p.weight, 170.0, 70.0);
    WeightEdit(p, newWeight, 170.0, 80.0);
    ShownBmi(p.height, newWeight, 170.0, 80.0);
  }

  lemma {:induction false} ExampleText(weight: real, text: string)
    requires (weight == 70.0 && text == "24.22") || (weight == 80.0 && text == "27.68")
    ensures ToFixed2(BmiOf(Finite(170.0), Finite(weight))) == text
  {
    var n: nat := if weight == 70.0 then 2422 else 2768;
    BmiText(weight, n);
    HundredthsExample(n, text);
  }

  lemma {:induction false} HundredthsExample(n: nat, text: string)
    requires (n == 2422 && text == "24.22") || (n == 2768 && text == "27.68")
    ensures NatToString(n / 100) + "." + [DigitChar(n / 10 % 10), DigitChar(n % 10)] == text
  {
  }

  lemma {:induction false} ShownBmi(height: string, weight: string, h: real, w: real)
    requires height != [] && weight != []
    requires ToNumber(height) == Finite(h) && ToNumber(weight) == Finite(w)
    ensures CalculateBmi(height, weight) == ToFixed2(BmiOf(Finite(h), Finite(w)))
  {
  }

  lemma {:induction false} WeightEdit(p: Patient, value: string, h: real, w: real)
    requires ParseFloat(p.height) == Finite(h) && ParseFloat(value) == Finite(w)
    requires h != 0.0 && w != 0.0
    ensures var r := HandleChange(p, Weight, value);
      r.height == p.height && r.weight == value && r.bmi == ToFixed2(BmiOf(Finite(h), Finite(w)))
  {
    var r := HandleChange(p, Weight, value);
    assert r.height == p.height && r.weight == value;
    assert Truthy(Finite(h)) && Truthy(Finite(w));
    assert RecomputesBmi(r, Weight);
  }

  lemma {:induction false} Digits170()
    ensures AllDigits("170") && DigitsValue("170") == 170
  {
    DigitsSnoc([], '1');
    DigitsSnoc("1", '7');
    DigitsSnoc("17", '0');
  }

  lemma {:induction false} Digits70()
    ensures AllDigits("70") && DigitsValue("70") == 70
  {
    DigitsSnoc([], '7');
    DigitsSnoc("7", '0');
  }

  lemma {:induction false} Digits80()
    ensures AllDigits("80") && DigitsValue("80") == 80
  {
    DigitsSnoc([], '8');
    DigitsSnoc("8", '0');
  }

  lemma {:induction false} BmiText(weight: real, hundredths: nat)
    requires weight == 70.0 || weight == 80.0
    requires hundredths == if weight == 70.0 then 2422 else 2768
    ensures ToFixed2(BmiOf(Finite(170.0), Finite(weight)))
      == NatToString(hundredths / 100) + "." + [DigitChar(hundredths / 10 % 10), DigitChar(hundredths % 10)]
  {
    BmiOfFinite(170.0, weight);
    var y := ExactBmi(170.0, weight);
    ExampleQuotient(weight, y, hundredths);
    RoundedText(y, hundredths);
    assert BmiOf(Finite(170.0), Finite(weight)) == Finite(y);
  }

  lemma {:induction false} ExampleQuotient(weight: real, y: real, hundredths: nat)
    requires weight == 70.0 || weight == 80.0
    requires hundredths == if weight == 70.0 then 2422 else 2768
    requires y == ExactBmi(170.0, weight)
    ensures y >= 0.0 && hundredths as real - 0.5 <= 100.0 * y < hundredths as real + 0.5
  {
    assert y * 2.89 == weight;
  }

  /** The two-decimal text of `y` when `n` is its nearest hundredth. */
  lemma {:induction false} RoundedText(y: real, n: nat)
    requires y >= 0.0 && n as real - 0.5 <= 100.0 * y < n as real + 0.5
    ensures ToFixed2(Finite(y)) == NatToString(n / 100) + "." + [DigitChar(n / 10 % 10), DigitChar(n % 10)]
  {
    assert RoundHundredths(y) == n;
  }

  /** `prevPatients.map(p => p.id === edited.id ? edited : p)` */
  function ReplaceById(patients: seq<Patient>, edited: Patient): (r: seq<Patient>)
    ensures |r| == |patients|
    ensures forall i :: 0 <= i < |patients| ==>
      r[i] == if patients[i].id == edited.id then edited else patients[i]
  {
    if patients == [] then []
    else [if patients[0].id == edited.id then edited else patients[0]] + ReplaceById(patients[1..], edited)
  }

  /** Saving the same record twice leaves the list as the first save did. */
  lemma {:induction false} ReplaceByIdIdempotent(patients: seq<Patient>, edited: Patient)
    ensures ReplaceById(ReplaceById(patients, edited), edited) == ReplaceById(patients, edited)
  {
  }

  /** A record whose id is not in the list changes nothing. */
  lemma {:induction false} ReplaceByIdUnknown(patients: seq<Patient>, edited: Patient)
    requires forall i :: 0 <= i < |patients| ==> patients[i].id != edited.id
    ensures ReplaceById(patients, edited) == patients
  {
  }

}
