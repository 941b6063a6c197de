/**
 * The state of the patient screen: the `Main` component (the patient list,
 * the record being edited and the edit flag) and the `Vitals` component (the
 * chart, date and value chosen for a new reading). React state becomes
 * fields; each handler becomes a method that changes them. A call to
 * `updatePatientInFirestore` is logged in `saved`, and whether it resolved
 * is a parameter of the handler that awaits it.
 */
module Screen {
  import opened Wrappers
  import opened JsNumber
  import opened VitalData
  import opened PatientRecord

  /** `Main` and the shared patient list it updates. */
  class MainScreen {
    var patients: seq<Patient>
    var selectedPatient: Option<Patient>
    var editedPatient: Option<Patient>
    var isEditing: bool
    /** Every record handed to `updatePatientInFirestore`, oldest first. */
    var saved: seq<Patient>

    constructor (patients: seq<Patient>)
      ensures this.patients == patients
      ensures selectedPatient == None && editedPatient == None
      ensures !isEditing && saved == []
    {
      this.patients := patients;
      selectedPatient := None;
      editedPatient := None;
      isEditing := false;
      saved := [];
    }

    /** A new `selectedPatient`; the effect copies it into `editedPatient`
        only when one is selected, so clearing the selection keeps the
        record being edited. */
    method SelectPatient(p: Option<Patient>)
      modifies this
      ensures selectedPatient == p
      ensures editedPatient == if p.Some? then p else old(editedPatient)
      ensures patients == old(patients) && isEditing == old(isEditing) && saved == old(saved)
    {
      selectedPatient := p;
      if p.Some? {
        editedPatient := p;
      }
    }

    /** `updatePatientInFirestore(p)`: the record is handed over. */
    method Persist(p: Patient)
      modifies this
      ensures saved == old(saved) + [p]
      ensures patients == old(patients) && selectedPatient == old(selectedPatient)
      ensures editedPatient == old(editedPatient) && isEditing == old(isEditing)
    {
      saved := saved + [p];
    }

    /** `setEditedPatient(p)` */
    method SetEditedPatient(p: Patient)
      modifies this
      ensures editedPatient == Some(p)
      ensures patients == old(patients) && selectedPatient == old(selectedPatient)
      ensures isEditing == old(isEditing) && saved == old(saved)
    {
      editedPatient := Some(p);
    }

    /** `Main.handleSave`: with a record loaded, hand it over; once that
        resolves, put it in place of the list entry with the same id and
        leave edit mode. A rejected save changes nothing else. */
    method HandleSave(persisted: bool)
      modifies this
      ensures old(editedPatient).None? ==> saved == old(saved)
      ensures old(editedPatient).Some? ==> saved == old(saved) + [old(editedPatient).value]
      ensures old(editedPatient).Some? && persisted ==>
        patients == ReplaceById(old(patients), old(editedPatient).value) && !isEditing
      ensures !(old(editedPatient).Some? && persisted) ==>
        patients == old(patients) && isEditing == old(isEditing)
      ensures editedPatient == old(editedPatient) && selectedPatient == old(selectedPatient)
    {
      if editedPatient.Some? {
        Persist(editedPatient.value);
        if persisted {
          patients := ReplaceById(patients, editedPatient.value);
          isEditing := false;
        }
      }
    }

    /** The header button: "저장" saves while editing, "수정" enters edit
        mode otherwise. */
    method HeaderButton(persisted: bool)
      modifies this
      ensures !old(isEditing) ==>
        isEditing && patients == old(patients) && saved == old(saved)
      ensures old(isEditing) && old(editedPatient).Some? ==>
        saved == old(saved) + [old(editedPatient).value]
        && isEditing == !persisted
        && patients == (if persisted then ReplaceById(old(patients), old(editedPatient).value) else old(patients))
      ensures old(isEditing) && old(editedPatient).None? ==>
        isEditing && patients == old(patients) && saved == old(saved)
      ensures editedPatient == old(editedPatient) && selectedPatient == old(selectedPatient)
    {
      if isEditing {
        HandleSave(persisted);
      } else {
        isEditing := true;
      }
    }

    /** The name input of the header. */
    method ChangeName(value: string)
      requires editedPatient.Some?
      modifies this
      ensures editedPatient == Some(HandleNameChange(old(editedPatient).value, value))
      ensures patients == old(patients) && selectedPatient == old(selectedPatient)
      ensures isEditing == old(isEditing) && saved == old(saved)
    {
      SetEditedPatient(HandleNameChange(editedPatient.value, value));
    }

    /** A text input of the patient information panel. */
    method ChangeField(field: Field, value: string)
      requires editedPatient.Some?
      modifies this
      ensures editedPatient == Some(HandleChange(old(editedPatient).value, field, value))
      ensures patients == old(patients) && selectedPatient == old(selectedPatient)
      ensures isEditing == old(isEditing) && saved == old(saved)
    {
      SetEditedPatient(HandleChange(editedPatient.value, field, value));
    }
  }

  /** How a press of the reading's save button ends. */
  datatype SaveOutcome =
    | Ignored        // a chart, a date or a value is missing
    | Threw          // no record, or no vital at the chosen index
    | Saved          // written, handed over, and the selection cleared
    | PersistFailed  // written and handed over, but the hand-over rejected

  /** `Vitals`: the chosen chart, date and value, over the screen it is
      part of. */
  class VitalsPanel {
    const screen: MainScreen
    var selectedVital: Option<nat>
    /** The chosen day as the `YYYY-MM-DD` text of its local date. */
    var selectedDate: Option<string>
    var newValue: string

    constructor (screen: MainScreen)
      ensures this.screen == screen
      ensures selectedVital == None && selectedDate == None && newValue == ""
    {
      this.screen := screen;
      selectedVital := None;
      selectedDate := None;
      newValue := "";
    }

    /** `handleVitalClick`: a chart is chosen only in edit mode. */
    method VitalClick(index: nat)
      modifies this
      ensures selectedVital == if screen.isEditing then Some(index) else old(selectedVital)
      ensures selectedDate == old(selectedDate) && newValue == old(newValue)
      ensures screen.isEditing ==> PickerShown()
    {
      if screen.isEditing {
        selectedVital := Some(index);
      }
    }

    /** `handleDateSelect`; the picker may also clear its date. */
    method DateSelect(date: Option<string>)
      modifies this
      ensures selectedDate == date
      ensures selectedVital == old(selectedVital) && newValue == old(newValue)
    {
      selectedDate := date;
    }

    /** `handleValueChange` */
    method ValueChange(value: string)
      modifies this
      ensures newValue == value
      ensures selectedVital == old(selectedVital) && selectedDate == old(selectedDate)
    {
      newValue := value;
    }

    /** The date picker is on screen: only in edit mode, once a chart is
        chosen. */
    predicate PickerShown()
      reads this, screen
    {
      screen.isEditing && selectedVital.Some?
    }

    /** The value input and its save button are on screen: with the picker,
        once a day is picked. Pressing that button passes the save's guard
        exactly when a value has been typed. */
    predicate ValueInputShown()
      reads this, screen
      ensures ValueInputShown() ==> PickerShown() && selectedDate != None
      ensures ValueInputShown() ==> (ReadyToSave() <==> newValue != "")
    {
      PickerShown() && selectedDate.Some?
    }

    /** The guard of the reading's save. */
    predicate ReadyToSave()
      reads this
    {
      selectedVital.Some? && selectedDate.Some? && newValue != ""
    }

    /** The vital objects of the record being edited. */
    function Vitals(): (vs: seq<Vital>)
      reads this, screen
      ensures screen.editedPatient.None? ==> vs == []
    {
      if screen.editedPatient.Some? then screen.editedPatient.value.vitals else []
    }

    /** The chosen index names a vital of the record being edited. */
    predicate HasTarget()
      reads this, screen
    {
      screen.editedPatient.Some? && selectedVital.Some? && selectedVital.value < |Vitals()|
    }

    /** `Vitals.handleSave`. The reading is written into the chosen vital
        object itself, before the record is handed over, so the record being
        edited, the selected one and the list entry all show it whether or
        not the hand-over resolves; the record passed on equals the one
        being edited. Only a resolved hand-over clears the selection. */
    method HandleSave(persisted: bool) returns (outcome: SaveOutcome)
      modifies this, screen, Vitals()
      ensures outcome == Ignored <==> !old(ReadyToSave())
      ensures outcome == Threw <==> old(ReadyToSave()) && !old(HasTarget())
      ensures outcome == Saved <==> old(ReadyToSave()) && old(HasTarget()) && persisted
      ensures outcome == Ignored || outcome == Threw ==>
        unchanged(this, screen) && forall v :: v in old(Vitals()) ==> unchanged(v)
      ensures outcome == Saved || outcome == PersistFailed ==>
        var target := old(Vitals()[selectedVital.value]);
        && target.data == Some(Upsert(old(target.data), old(selectedDate.value), ReadingFor(target.title, old(newValue))))
        && (forall v :: v in old(Vitals()) && v != target ==> unchanged(v))
        && screen.saved == old(screen.saved) + [old(screen.editedPatient.value)]
        && screen.editedPatient == old(screen.editedPatient)
        && screen.patients == old(screen.patients)
        && screen.selectedPatient == old(screen.selectedPatient)
        && screen.isEditing == old(screen.isEditing)
      ensures outcome == Saved ==> selectedVital == None && selectedDate == None && newValue == ""
      ensures outcome == Saved ==> !PickerShown() && !ValueInputShown()
      ensures outcome == PersistFailed ==> unchanged(this)
    {
      if !ReadyToSave() {
        return Ignored;
      }
      if screen.editedPatient.None? || selectedVital.value >= |screen.editedPatient.value.vitals| {
        return Threw;
      }
      var patient := screen.editedPatient.value;
      var updatedVitals := patient.vitals;
      var target := updatedVitals[selectedVital.value];
      target.Record(selectedDate.value, newValue);
      var updatedPatient := patient.(vitals := updatedVitals);
      screen.Persist(updatedPatient);
      if !persisted {
        return PersistFailed;
      }
      screen.SetEditedPatient(updatedPatient);
      selectedVital, selectedDate, newValue := None, None, "";
      outcome := Saved;
    }
  }

  /** A blank record holding one vital object per chart. */
  method NewPatient(id: string, name: string) returns (p: Patient)
    ensures p.id == id && p.name == name && |p.vitals| == 3
    ensures forall i :: 0 <= i < 3 ==> p.vitals[i].title == Title(ChartKinds[i]) && p.vitals[i].data == None
    ensures forall i, j :: 0 <= i < j < 3 ==> p.vitals[i] != p.vitals[j]
    ensures forall i :: 0 <= i < 3 ==> fresh(p.vitals[i])
  {
    var oxygen := new Vital(Title(Oxygen), None);
    var glucose := new Vital(Title(Glucose), None);
    var pressure := new Vital(Title(BloodPressure), None);
    p := Patient(id, name, "", "", "", "", "", "", [oxygen, glucose, pressure]);
  }

  /** Saving the record with the header button leaves edit mode: the picker
      and the value input disappear, but the chart, day and value chosen
      stay in the panel's state. */
  method LeaveEditMode(panel: VitalsPanel)
    requires panel.screen.isEditing && panel.screen.editedPatient.Some?
    modifies panel.screen
    ensures !panel.PickerShown() && !panel.ValueInputShown()
    ensures panel.selectedVital == old(panel.selectedVital)
    ensures panel.selectedDate == old(panel.selectedDate)
    ensures panel.newValue == old(panel.newValue)
  {
    panel.screen.HeaderButton(true);
  }

  /** Entering edit mode with the header button brings back the picker
      exactly when a chart was chosen before, and the value input exactly
      when a day was picked as well. */
  method EnterEditMode(panel: VitalsPanel)
    requires !panel.screen.isEditing
    modifies panel.screen
    ensures panel.PickerShown() <==> old(panel.selectedVital).Some?
    ensures panel.ValueInputShown() <==> old(panel.selectedVital).Some? && old(panel.selectedDate).Some?
    ensures panel.selectedVital == old(panel.selectedVital)
    ensures panel.selectedDate == old(panel.selectedDate)
    ensures panel.newValue == old(panel.newValue)
  {
    panel.screen.HeaderButton(true);
  }

  /** A chart chosen, a date picked and a value typed survive leaving edit
      mode: after editing is switched on again the value input is back with
      the old choices. A click made before editing chooses nothing. */
  method EditToggleKeepsSelection()
    returns (beforeEditing: Option<nat>, pickerWhileOff: bool,
             vital: Option<nat>, date: Option<string>, value: string, inputShown: bool)
    ensures beforeEditing == None && !pickerWhileOff
    ensures vital == Some(1) && date == Some("2024-02-10") && value == "99" && inputShown
  {
    var p := NewPatient("p1", "환자");
    var screen := new MainScreen([p]);
    screen.SelectPatient(Some(p));
    var panel := new VitalsPanel(screen);
    panel.VitalClick(1);
    beforeEditing := panel.selectedVital;
    screen.HeaderButton(true);
    panel.VitalClick(1);
    panel.DateSelect(Some("2024-02-10"));
    panel.ValueChange("99");
    screen.HeaderButton(true);
    pickerWhileOff := panel.PickerShown();
    screen.HeaderButton(true);
    vital, date, value := panel.selectedVital, panel.selectedDate, panel.newValue;
    inputShown := panel.ValueInputShown();
  }

  /** In edit mode, choosing the chart at `index`, picking `day` and typing
      `typed` then pressing save writes the reading into that vital. */
  method ChooseAndSave(panel: VitalsPanel, index: nat, day: string, typed: string)
    returns (outcome: SaveOutcome)
    requires panel.screen.isEditing && panel.screen.editedPatient.Some?
    requires index < |panel.Vitals()| && typed != []
    modifies panel, panel.screen, panel.Vitals()
    ensures outcome == Saved
    ensures var target := old(panel.Vitals()[index]);
      target.data == Some(Upsert(old(target.data), day, ReadingFor(target.title, typed)))
    ensures panel.screen.patients == old(panel.screen.patients)
    ensures panel.screen.editedPatient == old(panel.screen.editedPatient)
    ensures panel.screen.isEditing
  {
    panel.VitalClick(index);
    panel.DateSelect(Some(day));
    panel.ValueChange(typed);
    outcome := panel.HandleSave(true);
  }

  /** Saving the same value for the same day twice into an empty vital
      stores it once: the second save leaves the map as the first left it. */
  method SaveTwice(panel: VitalsPanel, index: nat, day: string, typed: string)
    returns (first: Series, second: Series)
    requires panel.screen.isEditing && panel.screen.editedPatient.Some?
    requires index < |panel.Vitals()| && typed != []
    requires panel.Vitals()[index].data == None
    modifies panel, panel.screen, panel.Vitals()
    ensures var target := old(panel.Vitals()[index]);
      && first == map[day := ReadingFor(target.title, typed)]
      && second == first
      && target.data == Some(first)
    ensures panel.screen.patients == old(panel.screen.patients)
  {
    ghost var target := panel.Vitals()[index];
    ghost var reading := ReadingFor(target.title, typed);
    var outcome := ChooseAndSave(panel, index, day, typed);
    first := panel.Vitals()[index].data.value;
    assert first == Upsert(None, day, reading);
    outcome := ChooseAndSave(panel, index, day, typed);
    second := panel.Vitals()[index].data.value;
    UpsertIdempotent(None, day, reading);
  }

  /** The blood-pressure reading saved twice on a new record: stored once,
      and the list entry, never replaced, already shows it through the
      shared vital object. */
  method SaveReadingTwice(day: string, typed: string)
    returns (first: Series, second: Series, listShowsIt: bool)
    requires typed != []
    ensures first == map[day := ReadingFor(Title(BloodPressure), typed)]
    ensures second == first
    ensures listShowsIt
  {
    var p := NewPatient("p1", "환자");
    var screen := new MainScreen([p]);
    screen.SelectPatient(Some(p));
    var panel := new VitalsPanel(screen);
    screen.HeaderButton(true);
    assert panel.Vitals() == p.vitals;
    first, second := SaveTwice(panel, 2, day, typed);
    listShowsIt := screen.patients[0].vitals[2].data == Some(first);
  }
}
