# Patient vitals screen — a Dafny model

This project models the patient screen of a caregiver's health-record web
app (`src/Main.jsx`). It covers four pieces:

- **Charts.** Each of a patient's three vital-sign series is shown as a chart:
  - oxygen saturation (산소포화도);
  - blood glucose (혈당);
  - blood pressure (혈압).

  A series is a map from a `YYYY-MM-DD` day to a reading. The chart shows the
  five latest days in ascending order. Blood pressure gets a systolic and a
  diastolic track and drops the legacy keys `"0"` and `"1"`.
- **Adding a reading.** While editing, the user picks a chart, a day and a
  value, then saves. The reading is written into the vital object in place.
  The patient record is then handed to the store, and the selection is
  cleared.
- **Editing the record.** Name, gender, age, height, weight, blood type and
  the body-mass index (BMI) are text fields. Editing the height or the weight
  recomputes the BMI.
- **Saving the record.** The header's save button hands the record to the
  store, replaces the list entry with the same id, and leaves edit mode.

The model's modules:

- **Wrappers** (`wrappers.dfy`): an `Option` type.
- **JsText** (`js_text.dfy`): the JavaScript string behaviour the screen
  relies on:
  - `trim` over ECMAScript white space;
  - `split` on one character;
  - code-point order on keys, which agrees with the code-unit order of
    `Array.prototype.sort` on strings without characters above U+FFFF
    (every date key);
  - decimal digit strings.
- **JsNumber** (`js_number.dfy`): JavaScript numbers and the conversions the
  screen uses:
  - numbers are an exact real, `NaN` or ±`Infinity`;
  - `parseFloat` and `Number(text)`;
  - `/` and `*`;
  - `toFixed(2)`.
- **VitalData** (`vital_data.dfy`): readings, series, the upsert, and the
  `Vital` class whose `data` field the save writes in place.
- **VitalChart** (`vital_chart.dfy`): the pure pipeline from a series to chart
  data: sort, `slice(-5)`, the legacy filter, the tracks.
- **PatientRecord** (`patient_record.dfy`): the patient record value, the
  field edits with the BMI rule, `calculateBMI`, and the list replacement.
- **Screen** (`screen.dfy`): two classes.
  - `MainScreen` holds the list, the record being edited and the edit flag.
  - `VitalsPanel` holds the chosen chart, day and value.

  Each handler is a method. The module also has two scenario methods.

External calls become parameters or a log:

- A call to the store, `updatePatientInFirestore`, is appended to
  `MainScreen.saved`.
- Whether that call resolved is a `persisted` parameter of the handler that
  awaits it.
- The chosen day enters as its already formatted local `YYYY-MM-DD` text.

The `Patient` record is a value that holds references to its `Vital`
objects. A copy of the record therefore shares those objects, as the
JavaScript spread copy does. The model shows this aliasing as it is:

- The record handed to the store equals the record being edited.
- The list entry shows the new reading before the list is ever replaced.

Behaviour of the code that the model keeps as it is:

- **Blood pressure without "/".** Such input is not rejected: it is stored
  with an undefined diastolic (`VitalData.BloodPressureNoSlash`).
- **Non-numeric input.** A value that is not a number is saved all the
  same; it is stored as `NaN`.
- **Leaving edit mode.** The chosen chart, day and value are kept; the panel
  is only hidden, and it shows them again when editing resumes
  (`Screen.LeaveEditMode`, `Screen.EnterEditMode`).
- **The displayed BMI.** The raw texts go through `Number`, so the display
  can show `"NaN"` (`PatientRecord.HeightWithUnitShowsNaN`) or `"Infinity"`
  (`PatientRecord.ZeroHeightShowsInfinity`).
- **The in-place write.** The reading is written into the shared vital
  object before the store is called. The write stays visible if the call
  fails, and the selection is then kept (`Screen.VitalsPanel.HandleSave`).
- **The legacy filter.** It runs after the five-day slice. So it shortens the
  labels only when fewer than five keys sort after `"1"`. For dates of year
  1000 onwards, the blood-pressure chart always shows five dates once there
  are five (`VitalChart.LegacyKeysNeverShown`).

## Model

| member | source | states |
|---|---|---|
| JsText.Trim | src/Main.jsx:209 | the result is a contiguous slice of the input; everything dropped is white space; neither end of a non-empty result is white space |
| JsText.TrimIdempotent | src/Main.jsx:209 | trimming twice is trimming once |
| JsText.Split | src/Main.jsx:209 | at least one part; no part contains the separator; joining the parts with the separator gives back the input |
| JsText.SplitJoin | src/Main.jsx:209 | splitting a join of separator-free parts gives those parts back |
| JsText.LexLeTotal | src/Main.jsx:273 | the order `sort` uses on keys compares any two strings |
| JsText.LexLeAntisymmetric | src/Main.jsx:273 | two strings ordered both ways are equal |
| JsText.LexLeTransitive | src/Main.jsx:273 | the key order is transitive |
| JsText.NatToString | src/Main.jsx:107 | the decimal text of a whole number is all digits, has no leading zero, and reads back as the number |
| JsText.NatToStringOfDigits | src/Main.jsx:107 | a digit string without a leading zero is the text of its own value |
| JsNumber.Div | src/Main.jsx:106-107 | `NaN` in gives `NaN`; a finite quotient by a non-zero number is the exact quotient; division by zero is never finite |
| JsNumber.Mul | src/Main.jsx:106-107 | `NaN` in gives `NaN`; the product of finite numbers is the exact product |
| JsNumber.Truthy | src/Main.jsx:105 | a number is truthy exactly when it is neither zero nor `NaN` |
| JsNumber.DigitRun | src/Main.jsx:103-104 | `parseFloat`'s integer part is a maximal run of digits |
| JsNumber.ParseFloat | src/Main.jsx:103-104 | blank text is `NaN`; text whose first non-blank character is a digit reads as a finite, non-negative number |
| JsNumber.ParseFloatSkipsSpace | src/Main.jsx:103-104 | `parseFloat` ignores leading white space |
| JsNumber.ParseFloatDigits | src/Main.jsx:103-104 | `parseFloat` reads a leading digit run as its value and ignores a non-numeric tail, so "170cm" reads as 170 |
| JsNumber.ToNumberDigits | src/Main.jsx:103-119 | a digit string has nothing to trim, and both `Number` and `parseFloat` read it as its value |
| JsNumber.ToNumber | src/Main.jsx:118-119 | blank text is 0; otherwise the result is `NaN` exactly when the trimmed text is not a decimal literal in full |
| JsNumber.NumberAgreesWithParseFloat | src/Main.jsx:103-119 | whenever `Number` reads non-blank text that is not a radix literal ("0x", "0b", "0o") as a number, `parseFloat` reads the same number from it |
| JsNumber.ToNumberRejectsTrailing | src/Main.jsx:118-119 | `Number` of digits followed by other text is `NaN` |
| JsNumber.ToFixed2 | src/Main.jsx:107 | `toFixed(2)` never yields empty text |
| JsNumber.ToFixed2RoundTrip | src/Main.jsx:107 | `Number` reads the `toFixed(2)` text of any finite value back as a finite whole number of hundredths within 0.005 of the value |
| VitalData.ChartTitle | src/Main.jsx:180 | a chart position has a title exactly for positions 0 to 2, and position 2 is blood pressure |
| VitalData.ReadingFor | src/Main.jsx:207-213 | the stored vital's own title picks the reading: a pair exactly for blood pressure, otherwise `parseFloat` of the value |
| VitalData.BloodPressureReading | src/Main.jsx:209 | the reading is a pair whose diastolic is present exactly when the input contains "/" |
| VitalData.BloodPressureFirstTwo | src/Main.jsx:209-210 | a value made of parts joined by "/" stores the first part's number and, if present, the second's |
| VitalData.BloodPressureNoSlash | src/Main.jsx:209-210 | a value without "/" is stored with no diastolic; it is not rejected |
| VitalData.BloodPressureExample | src/Main.jsx:209-210 | "120/80" is stored as 120 over 80 |
| VitalData.Upsert | src/Main.jsx:203-213 | the day holds the new reading; the key set gains exactly that day; every other day keeps its reading; a missing map starts empty |
| VitalData.UpsertIdempotent | src/Main.jsx:203-213 | repeating the same upsert leaves the map as the first one did |
| VitalData.Vital.Record | src/Main.jsx:203-213 | the vital's `data` becomes the upsert of the reading for its own title |
| VitalChart.SortedKeys | src/Main.jsx:273 | the result is strictly ascending and holds exactly the keys, each once |
| VitalChart.AscendingUnique | src/Main.jsx:273 | two ascending sequences with the same elements are equal, so the sorted order is unique |
| VitalChart.LatestFive | src/Main.jsx:274 | `slice(-5)` is the suffix of length min(5, n) |
| VitalChart.Window | src/Main.jsx:273-274 | the window is ascending and holds only keys of the series |
| VitalChart.WindowIsLatest | src/Main.jsx:273-274 | a day is in the window exactly when it is a key with fewer than five keys after it; the window has min(5, keys) days |
| VitalChart.WindowDetermined | src/Main.jsx:273-274 | any ascending sequence of exactly those days is the window |
| VitalChart.WithoutLegacy | src/Main.jsx:280 | the filter keeps exactly the non-legacy keys, preserves ascending order and never lengthens |
| VitalChart.BloodPressureTrack | src/Main.jsx:286-292 | one point per label; a point is element t of a truthy stored reading, otherwise null |
| VitalChart.BloodPressurePoint | src/Main.jsx:286-292 | null exactly when the day has no truthy reading; a pair gives its systolic at 0 and its diastolic (or undefined) at 1; a truthy single number gives undefined |
| VitalChart.BloodPressureChart | src/Main.jsx:279-297 | the labels are ascending and are exactly the window's non-legacy days; there is a systolic and a diastolic dataset, each the track of its element |
| VitalChart.SingleChart | src/Main.jsx:316-325 | the labels are the window; there is one dataset named by the title; its i-th value is the stored reading of the i-th label |
| VitalChart.StoredTrack | src/Main.jsx:321 | one value per label, the stored reading of that label as the chart library receives it |
| VitalChart.Project | src/Main.jsx:272-342 | a chart has two datasets exactly when its position's title is blood pressure |
| VitalChart.ProjectLabels | src/Main.jsx:272-342 | every chart's labels are ascending and are exactly the keys with fewer than five keys after them, minus "0" and "1" for blood pressure only |
| VitalChart.LegacyKeysNeverShown | src/Main.jsx:274-280 | with at least five keys after "1", the blood-pressure labels are the whole five-day window |
| VitalChart.WeekOfReadings | src/Main.jsx:273-318 | seven daily oxygen readings chart as the last five days, oldest first |
| PatientRecord.HandleNameChange | src/Main.jsx:67-69 | only the name changes; the id and the vital objects are the same |
| PatientRecord.HandleChange | src/Main.jsx:98-113 | the edited field takes the text and no other field except the BMI changes; the BMI is recomputed from the record's new height and weight exactly when height or weight was edited and both parse to truthy numbers, and otherwise keeps its text |
| PatientRecord.CalculateBmi | src/Main.jsx:116-122 | the shown BMI is blank exactly when the height or the weight text is empty |
| PatientRecord.BmiOf | src/Main.jsx:106-107 | `NaN` in the height or the weight gives `NaN` |
| PatientRecord.DisplayedBmiIsRounded | src/Main.jsx:116-122 | for finite height and weight and a non-zero height, the displayed BMI reads back within 0.005 of weight over height in metres squared |
| PatientRecord.ZeroHeightShowsInfinity | src/Main.jsx:116-122 | a height that reads as zero shows "Infinity" for any positive weight |
| PatientRecord.StoredBmiMatchesDisplayed | src/Main.jsx:98-122 | when `Number` reads both texts in full as non-zero numbers and neither is a radix literal, the BMI stored by a height or weight edit equals the one displayed |
| PatientRecord.StoredBmiIsRounded | src/Main.jsx:105-108 | a recomputed BMI reads back within 0.005 of weight over height in metres squared |
| PatientRecord.BmiOfFinite | src/Main.jsx:106-107 | for finite numbers and a non-zero height, the formula is the exact quotient |
| PatientRecord.HeightWithUnitShowsNaN | src/Main.jsx:103-119 | a height typed as "170cm" counts as 170 when an edit recomputes the BMI, but the displayed BMI is "NaN" |
| PatientRecord.BmiExample | src/Main.jsx:98-122 | 170 cm and 70 kg show 24.22; changing the weight to 80 stores and shows 27.68 |
| PatientRecord.ReplaceById | src/Main.jsx:26-30 | the list keeps its length; each entry with the saved id becomes the saved record and every other entry is unchanged |
| PatientRecord.ReplaceByIdIdempotent | src/Main.jsx:26-30 | saving the same record twice leaves the list as one save did |
| PatientRecord.ReplaceByIdUnknown | src/Main.jsx:26-30 | a record whose id is not in the list changes nothing |
| Screen.MainScreen.constructor | src/Main.jsx:13-15 | nothing is selected or edited, edit mode is off and nothing has been saved |
| Screen.MainScreen.SelectPatient | src/Main.jsx:17-21 | a selected patient becomes the record being edited; clearing the selection keeps the record being edited |
| Screen.MainScreen.Persist | src/Main.jsx:25 | the record is appended to the store's call log and nothing else changes |
| Screen.MainScreen.SetEditedPatient | src/Main.jsx:15 | the given record becomes the record being edited and nothing else changes |
| Screen.MainScreen.HandleSave | src/Main.jsx:23-33 | with no record loaded nothing happens; otherwise the record is handed over; only if that resolves is the list entry with its id replaced and edit mode left |
| Screen.MainScreen.HeaderButton | src/Main.jsx:88 | outside edit mode the button enters it; in edit mode it saves |
| Screen.MainScreen.ChangeName | src/Main.jsx:67-69 | the record being edited becomes its name change; nothing else changes |
| Screen.MainScreen.ChangeField | src/Main.jsx:98-113 | the record being edited becomes its field edit; nothing else changes |
| Screen.VitalsPanel.constructor | src/Main.jsx:177-179 | no chart, no day and an empty value |
| Screen.VitalsPanel.VitalClick | src/Main.jsx:182-186 | a click chooses the chart only in edit mode, and the date picker then shows; otherwise nothing changes |
| Screen.VitalsPanel.DateSelect | src/Main.jsx:188-190 | the picked day, possibly none, replaces the chosen day; nothing else changes |
| Screen.VitalsPanel.ValueChange | src/Main.jsx:192-194 | the typed text replaces the value; nothing else changes |
| Screen.VitalsPanel.ValueInputShown | src/Main.jsx:250 | the value input shows only with the picker and a picked day; pressing its button passes the save guard exactly when a value is typed |
| Screen.VitalsPanel.HandleSave | src/Main.jsx:196-226 | without chart, day and value nothing happens. Without a vital at the chosen index it stops before any change. Otherwise the chosen vital's map gets the reading upserted in place, no other vital changes, and the unchanged-looking record is handed over. Only a resolved hand-over clears the chart, day and value, which hides the date picker and the value input |
| Screen.LeaveEditMode | src/Main.jsx:243-250 | from any state in edit mode with a record loaded, a successful save by the header button hides the date picker and the value input and keeps the chosen chart, day and value |
| Screen.EnterEditMode | src/Main.jsx:243-250 | from any state outside edit mode, the header button brings back the date picker exactly when a chart was chosen, and the value input exactly when a day was picked too; the chosen chart, day and value are kept |
| Screen.EditToggleKeepsSelection | src/Main.jsx:177-250 | a click outside edit mode chooses nothing; leaving edit mode hides the picker but keeps chart, day and value, which show again when editing resumes |
| Screen.SaveReadingTwice | src/Main.jsx:196-226 | saving the same value for the same day twice gives the same one-day blood-pressure map, and the list entry shows it through the shared vital object |

## Left out

- `src/Header.jsx` (sign-out, navigation links) is not part of this model; it holds no logic of the screen.
- Rendering is not modelled: markup, CSS, Chart.js registration, colours and the `options` objects, including the legend flags and the `stepSize` of 40, 50 or 20.
- The `Medications` component and the date picker widget are not modelled. The delete button has no handler behind it.
- The store is not modelled beyond its call log. `updatePatientInFirestore` and `setPatients` are asynchronous React and Firestore calls. The model records each call and takes its outcome as a parameter. The time between the call and its outcome is not modelled, nor are two saves running at once.
- The conversion of a picked `Date` to its local `YYYY-MM-DD` text (timezone offset, `toISOString`) is not modelled. The day enters as that text.
- React mechanics are not modelled: re-rendering, batching and stale closures. Also left out is the loss of the `Vitals` state when `Main` unmounts it for lack of a selected patient.
- JsNumber.Div: the quotient is exact. Double rounding is not modelled, and neither are overflow to `Infinity` and signed zero.
- JsNumber.Mul: the product is exact, with the same omissions as JsNumber.Div.
- JsNumber.ToFixed2RoundTrip: ties are rounded on exact reals rather than on the double nearest the decimal. The exponent notation `toFixed` uses from 1e21 upwards is not modelled.
- JsNumber.ParseFloatDigits: `parseFloat` is modelled without exponent notation (`1e3`), so text using it reads differently from the browser.
- JsNumber.ToNumberDigits: `Number` is modelled without exponent notation and without the hexadecimal, binary and octal forms.
- JsNumber.ParseFloat: no exponent notation, so "1e3" reads as 1 where JavaScript reads 1000.
- JsNumber.ToNumber: no exponent notation and no hexadecimal, binary or octal literals. "1e3" and "0x1F" read as `NaN` where JavaScript reads 1000 and 31.
- JsNumber.NumberAgreesWithParseFloat: stated only for text that is not a radix literal. JavaScript's `Number("0x1F")` is 31 while `parseFloat` reads 0, so the agreement fails there.
- PatientRecord.StoredBmiMatchesDisplayed: stated only for texts that are not radix literals. A height of "0x64" is read as 0 by `handleChange`, which keeps the old BMI, while `calculateBMI` shows the BMI for 100.
- JsNumber.ToNumberRejectsTrailing: stated only for tails that do not start an exponent (`e`, `E`) or, after a lone `0`, a radix prefix (`x`, `b`, `o`). The model's `Number` reads such text as `NaN`, where JavaScript reads "1e5" as 100000 and "0x1F" as 31.
- VitalChart.SortedKeys: orders keys by code point. JavaScript's default sort compares UTF-16 code units, which differs for keys holding characters above U+FFFF; date keys hold none.
- Screen.MainScreen.ChangeName: requires a loaded record. A spread of `null` would produce a record with only a name, but the name input is on screen only once a record is loaded.
- Screen.MainScreen.ChangeField: requires a loaded record, for the same reason as Screen.MainScreen.ChangeName.
- Screen.VitalsPanel.HandleSave: stops without change when the record or the chosen vital is missing, where JavaScript throws a `TypeError`. No state was changed before that point in either case.
- Vital titles other than the three known ones, and `vitals` arrays whose length is not three, are allowed and get no handling of their own. The chart title comes from the position; the reading's shape comes from the stored title.
