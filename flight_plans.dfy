/**
 * The flight-plan store of the ClearedDCT page: a dictionary from aircraft
 * identification (ICAO item 7) to a flight-plan record, itself a dictionary
 * from field code to the text entered for that field.
 *
 * The pure functions AfterCreate, AfterEdit and AfterDelete say what the
 * dictionary is after each button; the class FlightPlanStore holds the
 * dictionary and updates it in place as the page does.
 */
module FlightPlans {
  import opened Wrappers

  type Record = map<string, string>
  type Store = map<string, Record>

  /** Field code of the aircraft identification, the key a record is stored under. */
  const Ident: string := "7"

  /** The 21 field codes the creation form fills in, in form order. */
  const FieldCodes: seq<string> :=
    [Ident, "8", "8_type", "9", "9_wtc", "10", "10_ssr", "13", "13_eobt",
     "15_speed", "15_level", "15_route", "16_dest", "16_eet", "16_alt1", "16_alt2",
     "18", "19_endurance", "19_pob", "19_color", "19_pilot"]

  datatype Error =
    | MissingIdentification       // the creation form was saved with item 7 empty
    | MissingField(code: string)  // a record was looked up at a field code it lacks

  /**
   * A record holding every field the creation form fills in. The codes are
   * spelled out one by one, so that each membership is a fact the verifier
   * sees directly; FieldCodesComplete proves the list agrees with FieldCodes.
   */
  predicate HasAllFields(fp: Record) {
    && Ident in fp && "8" in fp && "8_type" in fp && "9" in fp && "9_wtc" in fp
    && "10" in fp && "10_ssr" in fp && "13" in fp && "13_eobt" in fp
    && "15_speed" in fp && "15_level" in fp && "15_route" in fp
    && "16_dest" in fp && "16_eet" in fp && "16_alt1" in fp && "16_alt2" in fp
    && "18" in fp && "19_endurance" in fp && "19_pob" in fp && "19_color" in fp && "19_pilot" in fp
  }

  /** HasAllFields is membership of every code of FieldCodes. */
  lemma FieldCodesComplete(fp: Record)
    ensures HasAllFields(fp) <==> forall i :: 0 <= i < |FieldCodes| ==> FieldCodes[i] in fp
  {
    var c := FieldCodes;
    assert && c[0] == Ident && c[1] == "8" && c[2] == "8_type" && c[3] == "9" && c[4] == "9_wtc"
           && c[5] == "10" && c[6] == "10_ssr" && c[7] == "13" && c[8] == "13_eobt" && c[9] == "15_speed"
           && c[10] == "15_level" && c[11] == "15_route" && c[12] == "16_dest" && c[13] == "16_eet" && c[14] == "16_alt1"
           && c[15] == "16_alt2" && c[16] == "18" && c[17] == "19_endurance" && c[18] == "19_pob" && c[19] == "19_color"
           && c[20] == "19_pilot";
  }

  /** Every record is stored under its own item 7. */
  predicate KeyedByIdent(plans: Store) {
    forall k <- plans :: Ident in plans[k] && plans[k][Ident] == k
  }

  /** "Save Flight Plan": store the form's record under its item 7, unless item 7 is empty. */
  function AfterCreate(plans: Store, fp: Record): (r: Result<Store, Error>)
    requires Ident in fp
    ensures r.Failure? <==> fp[Ident] == ""
    ensures r.Failure? ==> r.error == MissingIdentification
    ensures r.Success? ==> r.value.Keys == plans.Keys + {fp[Ident]} && r.value[fp[Ident]] == fp
    ensures r.Success? ==> forall k <- plans :: k != fp[Ident] ==> r.value[k] == plans[k]
  {
    if fp[Ident] == "" then Failure(MissingIdentification) else Success(plans[fp[Ident] := fp])
  }

  /**
   * The record the edit form submits: one text input per field of the record
   * being edited, pre-filled with the stored value; `entered` holds the inputs
   * the user changed.
   */
  function EditedRecord(fpEdit: Record, entered: map<string, string>): (r: Record)
    ensures r.Keys == fpEdit.Keys
    ensures forall k <- r :: k !in entered ==> r[k] == fpEdit[k]
    ensures forall k <- r :: k in entered ==> r[k] == entered[k]
  {
    map k | k in fpEdit :: if k in entered then entered[k] else fpEdit[k]
  }

  /**
   * "Save Changes": drop the edited key when item 7 was changed, then store the
   * updated record under its (possibly empty) item 7, overwriting whatever was
   * stored there.
   */
  function AfterEdit(plans: Store, editKey: string, updated: Record): (r: Result<Store, Error>)
    requires editKey in plans
    ensures r.Failure? <==> Ident !in updated
    ensures r.Failure? ==> r.error == MissingField(Ident)
    ensures r.Success? ==> r.value.Keys == plans.Keys - {editKey} + {updated[Ident]}
    ensures r.Success? ==> r.value[updated[Ident]] == updated
    ensures r.Success? ==>
      forall k <- plans :: k != editKey && k != updated[Ident] ==> r.value[k] == plans[k]
  {
    if Ident !in updated then Failure(MissingField(Ident))
    else
      var newKey := updated[Ident];
      var kept := if newKey != editKey then plans - {editKey} else plans;
      Success(kept[newKey := updated])
  }

  /** "Delete Selected Flight Plan": remove a key chosen among the stored ones. */
  function AfterDelete(plans: Store, key: string): (r: Store)
    requires key in plans
    ensures r.Keys == plans.Keys - {key}
    ensures forall k <- r :: r[k] == plans[k]
    ensures |r| == |plans| - 1
  {
    var r := plans - {key};
    assert plans.Keys == r.Keys + {key};
    r
  }

  /** Deleting what was just created gives back the store it was created in. */
  lemma CreateThenDelete(plans: Store, fp: Record)
    requires Ident in fp && fp[Ident] != "" && fp[Ident] !in plans
    ensures AfterCreate(plans, fp).Success?
    ensures AfterDelete(AfterCreate(plans, fp).value, fp[Ident]) == plans
  {
  }

  /** Two creations under the same item 7: the later record wins. */
  lemma CreateLastWriterWins(plans: Store, fp1: Record, fp2: Record)
    requires Ident in fp1 && Ident in fp2 && fp1[Ident] == fp2[Ident] != ""
    ensures AfterCreate(AfterCreate(plans, fp1).value, fp2) == AfterCreate(plans, fp2)
  {
    var id := fp1[Ident];
    assert plans[id := fp1][id := fp2] == plans[id := fp2];
  }

  /**
   * Renaming onto an identification another record already has overwrites
   * that record without an error: the store loses one entry.
   */
  lemma {:induction false} EditCollisionOverwrites(plans: Store, editKey: string, updated: Record)
    requires editKey in plans && Ident in updated
    requires updated[Ident] != editKey && updated[Ident] in plans
    ensures AfterEdit(plans, editKey, updated).Success?
    ensures editKey !in AfterEdit(plans, editKey, updated).value
    ensures AfterEdit(plans, editKey, updated).value[updated[Ident]] == updated
    ensures |AfterEdit(plans, editKey, updated).value| == |plans| - 1
  {
    var r := AfterEdit(plans, editKey, updated).value;
    assert r.Keys == plans.Keys - {editKey};
    assert plans.Keys == r.Keys + {editKey};
  }

  /** Without a collision, an edit keeps the number of stored flight plans. */
  lemma {:induction false} EditWithoutCollisionKeepsSize(plans: Store, editKey: string, updated: Record)
    requires editKey in plans && Ident in updated
    requires updated[Ident] == editKey || updated[Ident] !in plans
    ensures AfterEdit(plans, editKey, updated).Success?
    ensures |AfterEdit(plans, editKey, updated).value| == |plans|
  {
    var r := AfterEdit(plans, editKey, updated).value;
    var newKey := updated[Ident];
    if newKey == editKey {
      assert r.Keys == plans.Keys;
    } else {
      var rest := plans.Keys - {editKey};
      assert r.Keys == rest + {newKey};
      assert plans.Keys == rest + {editKey};
      assert |r.Keys| == |rest| + 1;
    }
  }

  /** Unlike creation, an edit accepts an empty item 7 and stores the record under "". */
  lemma EditAcceptsEmptyIdent(plans: Store, editKey: string, updated: Record)
    requires editKey in plans && Ident in updated && updated[Ident] == ""
    ensures AfterEdit(plans, editKey, updated).Success?
    ensures "" in AfterEdit(plans, editKey, updated).value
  {
  }

  /** An edit neither adds nor drops field codes, so a complete record stays complete. */
  lemma EditKeepsFields(fpEdit: Record, entered: map<string, string>)
    requires HasAllFields(fpEdit)
    ensures HasAllFields(EditedRecord(fpEdit, entered))
  {
  }

  /** Creation keeps every record stored under its own item 7. */
  lemma CreateKeepsKeyedByIdent(plans: Store, fp: Record)
    requires KeyedByIdent(plans) && Ident in fp && fp[Ident] != ""
    ensures KeyedByIdent(AfterCreate(plans, fp).value)
  {
  }

  /** An edit keeps every record stored under its own item 7, even on a collision. */
  lemma EditKeepsKeyedByIdent(plans: Store, editKey: string, entered: map<string, string>)
    requires KeyedByIdent(plans) && editKey in plans
    ensures KeyedByIdent(AfterEdit(plans, editKey, EditedRecord(plans[editKey], entered)).value)
  {
  }

  /** Deletion keeps every record stored under its own item 7. */
  lemma DeleteKeepsKeyedByIdent(plans: Store, key: string)
    requires KeyedByIdent(plans) && key in plans
    ensures KeyedByIdent(AfterDelete(plans, key))
  {
  }

  /** The `flight_plans` dictionary of the page, updated in place by its buttons. */
  class FlightPlanStore {
    var plans: Store

    /** No backing file yet: the store starts empty. */
    constructor ()
      ensures plans == map[]
    {
      plans := map[];
    }

    method Create(fp: Record) returns (error: Option<Error>)
      requires Ident in fp
      modifies this
      ensures match AfterCreate(old(plans), fp)
        case Success(s) => error.None? && plans == s
        case Failure(e) => error == Some(e) && plans == old(plans)
    {
      var id := fp[Ident];
      if id != "" {
        plans := plans[id := fp];
        error := None;
      } else {
        error := Some(MissingIdentification);
      }
    }

    method SaveEdit(editKey: string, entered: map<string, string>) returns (error: Option<Error>)
      requires editKey in plans
      modifies this
      ensures match AfterEdit(old(plans), editKey, EditedRecord(old(plans)[editKey], entered))
        case Success(s) => error.None? && plans == s
        case Failure(e) => error == Some(e) && plans == old(plans)
    {
      var fpEdit := plans[editKey];
      var updated: Record := map[];
      var keys := fpEdit.Keys;
      while keys != {}
        invariant keys <= fpEdit.Keys
        invariant updated.Keys == fpEdit.Keys - keys
        invariant forall k <- updated :: updated[k] == (if k in entered then entered[k] else fpEdit[k])
        decreases keys
      {
        var key :| key in keys;
        updated := updated[key := if key in entered then entered[key] else fpEdit[key]];
        keys := keys - {key};
      }
      assert updated == EditedRecord(fpEdit, entered);
      if Ident !in updated {
        error := Some(MissingField(Ident));
        return;
      }
      var newKey := updated[Ident];
      if newKey != editKey {
        plans := plans - {editKey};
      }
      plans := plans[newKey := updated];
      error := None;
    }

    method Delete(key: string)
      requires key in plans
      modifies this
      ensures plans == AfterDelete(old(plans), key)
    {
      plans := plans - {key};
    }
  }
}
