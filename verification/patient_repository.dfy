/** The store of server/repository/patientRepository.js: records keyed by
    their numeric id, and the counter that hands out the next id. Writing the
    store to disk (`saveData`) is a no-op here, as it is with persistence
    disabled; its failures are swallowed in the source anyway. */
module PatientRepository {
  import opened Outcomes
  import opened JsonValue
  import PatientModel

  /** The stored `record` is the Patient with identifier `id`. */
  ghost predicate IsRecordOf(record: Json, id: int) {
    && Get(record, PatientModel.IDENTIFIER) == Some(JInt(id))
    && Get(record, PatientModel.RESOURCE_TYPE) == Some(PatientModel.PATIENT)
  }

  /** The store invariant: ids are positive and below the counter, and every
      record carries its own key as its identifier. */
  ghost predicate Consistent(patients: map<int, Json>, nextId: int) {
    && nextId >= 1
    && forall id :: id in patients ==> 0 < id < nextId && IsRecordOf(patients[id], id)
  }

  /** What `loadData` got from the data file. `LoadFailed` covers an
      unreadable file, malformed JSON and a document whose `patients` cannot
      be read (a JSON `null`). In `Loaded`, a `None` field stands for a
      property that is absent or falsy. */
  datatype LoadOutcome =
    | LoadFailed(message: string)
    | Loaded(patients: Option<map<int, Json>>, nextId: Option<int>)

  /** The store and counter after `loadData`: on failure an empty store with
      counter 1; otherwise the snapshot, each field falling back (`|| {}`,
      `|| 1`) when absent or falsy. */
  function LoadedState(outcome: LoadOutcome): (r: (map<int, Json>, int))
    ensures r.1 != 0
    ensures outcome.LoadFailed? ==> r.0 == map[] && r.1 == 1
    ensures outcome.Loaded? && outcome.patients.Some? ==> r.0 == outcome.patients.value
    ensures outcome.Loaded? && outcome.patients.None? ==> r.0 == map[]
    ensures outcome.Loaded? && (outcome.nextId.None? || outcome.nextId.value == 0) ==> r.1 == 1
    ensures outcome.Loaded? && outcome.nextId.Some? && outcome.nextId.value != 0 ==> r.1 == outcome.nextId.value
  {
    match outcome
    case LoadFailed(_) => (map[], 1)
    case Loaded(patients, nextId) =>
      var p := if patients.Some? then patients.value else map[];
      var n := if nextId.Some? && nextId.value != 0 then nextId.value else 1;
      (p, n)
  }

  /** After a failed load the store is fresh and consistent. */
  lemma LoadFailureStartsFresh(message: string)
    ensures LoadedState(LoadFailed(message)) == (map[], 1)
    ensures Consistent(map[], 1)
  {
  }

  /** Loading back the snapshot `{ patients, nextId }` of a consistent store
      restores that very store. */
  lemma SnapshotRoundTrip(patients: map<int, Json>, nextId: int)
    requires Consistent(patients, nextId)
    ensures LoadedState(Loaded(Some(patients), Some(nextId))) == (patients, nextId)
  {
  }

  /** A snapshot that holds records but lacks `nextId` (or has it 0) restarts
      the counter at 1, below every stored id, so the invariant is lost and the
      next creates would hand out ids that are already in use. */
  lemma MissingNextIdBreaksInvariant(patients: map<int, Json>, nextId: Option<int>)
    requires patients != map[]
    requires nextId.None? || nextId.value == 0
    ensures LoadedState(Loaded(Some(patients), nextId)) == (patients, 1)
    ensures !Consistent(patients, 1)
  {
    assert (forall y :: y !in patients.Keys) ==> patients == map[];
    var k :| k in patients.Keys;
    assert !(0 < k < 1);
  }

  /** A freshly assigned record is the Patient with that identifier. */
  lemma AssignedIsRecordOf(data: Json, id: int)
    requires id > 0
    ensures var record := JObject(PatientModel.SetIdentifier(PatientModel.Normalize(data), id).value);
            && IsRecordOf(record, id)
            && PatientModel.GetIdentifier(record) == Some(JInt(id))
            && Truthy(record)
  {
  }

  /** The store invariant together with the ids handed out so far: every
      stored id was handed out, and every id handed out is below the counter. */
  ghost predicate Tracked(patients: map<int, Json>, nextId: int, issued: set<int>) {
    && Consistent(patients, nextId)
    && patients.Keys <= issued
    && forall i :: i in issued ==> 0 < i < nextId
  }

  /** Storing the record of the counter's id and advancing the counter keeps
      the invariant, and that id had never been handed out. */
  lemma InsertKeepsInvariant(patients: map<int, Json>, nextId: int, issued: set<int>, record: Json)
    requires Tracked(patients, nextId, issued) && IsRecordOf(record, nextId)
    ensures Tracked(patients[nextId := record], nextId + 1, issued + {nextId})
    ensures nextId !in issued
  {
  }

  /** A stored record is an object, hence truthy. */
  lemma StoredRecordIsTruthy(patients: map<int, Json>, nextId: int, id: int)
    requires Consistent(patients, nextId) && id in patients
    ensures Truthy(patients[id])
  {
    assert IsRecordOf(patients[id], id);
  }

  /** Every finite non-empty set of ids has a least element. */
  lemma {:induction false} HasMinimum(ids: set<int>)
    requires ids != {}
    ensures exists m :: m in ids && forall x :: x in ids ==> m <= x
    decreases |ids|
  {
    assert (forall y :: y !in ids) ==> ids == {};
    var y :| y in ids;
    var rest := ids - {y};
    if rest == {} {
      forall x | x in ids ensures y <= x {
        assert x !in rest;
      }
    } else {
      HasMinimum(rest);
      var m :| m in rest && forall x :: x in rest ==> m <= x;
      var least := if y < m then y else m;
      forall x | x in ids ensures least <= x {
        if x != y {
          assert x in rest;
        }
      }
      assert least in ids;
    }
  }

  /** The least id of a non-empty set. */
  function MinOf(s: set<int>): (m: int)
    requires s != {}
    ensures m in s && forall x :: x in s ==> m <= x
  {
    HasMinimum(s);
    var m :| m in s && forall x :: x in s ==> m <= x;
    m
  }

  /** Removing a member removes one element. */
  lemma RemoveOne(keys: set<int>, m: int)
    requires m in keys
    ensures |keys - {m}| == |keys| - 1
  {
    assert keys == (keys - {m}) + {m};
  }

  /** The least key followed by the others in ascending order lists every
      key once, in ascending order. */
  lemma PrependMinimum(keys: set<int>, m: int, rest: seq<int>)
    requires m in keys && forall x :: x in keys ==> m <= x
    requires |rest| == |keys - {m}|
    requires forall i :: 0 <= i < |rest| ==> rest[i] in keys - {m}
    requires forall k :: k in keys - {m} ==> k in rest
    requires forall a, b :: 0 <= a < b < |rest| ==> rest[a] < rest[b]
    ensures |[m] + rest| == |keys|
    ensures forall i :: 0 <= i < |[m] + rest| ==> ([m] + rest)[i] in keys
    ensures forall k :: k in keys ==> k in [m] + rest
    ensures forall a, b :: 0 <= a < b < |[m] + rest| ==> ([m] + rest)[a] < ([m] + rest)[b]
  {
    RemoveOne(keys, m);
    var ids := [m] + rest;
    forall i | 0 <= i < |ids| ensures ids[i] in keys {
      if i > 0 {
        assert ids[i] == rest[i - 1];
      }
    }
    forall k | k in keys ensures k in ids {
      if k != m {
        assert k in keys - {m};
        var j :| 0 <= j < |rest| && rest[j] == k;
        assert ids[j + 1] == k;
      }
    }
    forall a, b | 0 <= a < b < |ids| ensures ids[a] < ids[b] {
      assert ids[b] == rest[b - 1];
      if a == 0 {
        assert rest[b - 1] in keys - {m};
      } else {
        assert ids[a] == rest[a - 1];
      }
    }
  }

  /** The keys of the store in ascending numeric order, as
      `Object.keys(...).map(Number).sort((a, b) => a - b)` lists them. */
  function SortedIds(keys: set<int>): (ids: seq<int>)
    ensures |ids| == |keys|
    ensures forall i :: 0 <= i < |ids| ==> ids[i] in keys
    ensures forall k :: k in keys ==> k in ids
    ensures forall a, b :: 0 <= a < b < |ids| ==> ids[a] < ids[b]
    decreases |keys|
  {
    if keys == {} then []
    else
      var m := MinOf(keys);
      var rest := SortedIds(keys - {m});
      PrependMinimum(keys, m, rest);
      [m] + rest
  }

  class Repository {
    /** `patients`: the records by id. */
    var patients: map<int, Json>
    /** `nextId`: the id the next create hands out. */
    var nextId: int
    /** Every id handed out so far, deleted ones included. */
    ghost var Issued: set<int>

    ghost predicate Valid()
      reads this
    {
      Tracked(patients, nextId, Issued)
    }

    /** The module's initial state: no records, counter 1. */
    constructor ()
      ensures Valid()
      ensures patients == map[] && nextId == 1 && Issued == {}
    {
      patients := map[];
      nextId := 1;
      Issued := {};
    }

    /** `loadData`: replace the store by the loaded snapshot, or by a fresh
        store when loading failed. The invariant holds afterwards exactly when
        the snapshot satisfies it. */
    method LoadData(outcome: LoadOutcome)
      modifies this
      ensures (patients, nextId) == LoadedState(outcome)
      ensures Issued == patients.Keys
      ensures Valid() <==> Consistent(patients, nextId)
    {
      match outcome {
        case LoadFailed(_) =>
          patients := map[];
          nextId := 1;
        case Loaded(p, n) =>
          patients := if p.Some? then p.value else map[];
          nextId := if n.Some? && n.value != 0 then n.value else 1;
      }
      Issued := patients.Keys;
    }

    /** `initialize`: load the data file only when persistence is enabled
        (it is disabled in the server's configuration). */
    method Initialize(enablePersistence: bool, outcome: LoadOutcome)
      modifies this
      ensures enablePersistence ==> (patients, nextId) == LoadedState(outcome)
      ensures enablePersistence ==> Issued == patients.Keys && (Valid() <==> Consistent(patients, nextId))
      ensures !enablePersistence ==> patients == old(patients) && nextId == old(nextId) && Issued == old(Issued)
      ensures !enablePersistence && old(Valid()) ==> Valid()
    {
      if enablePersistence {
        LoadData(outcome);
      }
    }

    /** `getPatientById`: the stored record when it is truthy, else `null`. */
    function GetPatientById(id: int): (r: Option<Json>)
      reads this
      ensures r.Some? <==> id in patients && Truthy(patients[id])
      ensures r.Some? ==> r.value == patients[id]
    {
      if id in patients && Truthy(patients[id]) then Some(patients[id]) else None
    }

    /** `getAllIds`: exactly the stored ids, ascending. */
    function GetAllIds(): (ids: seq<int>)
      reads this
      ensures |ids| == |patients|
      ensures forall i :: 0 <= i < |ids| ==> ids[i] in patients
      ensures forall id :: id in patients ==> id in ids
      ensures forall a, b :: 0 <= a < b < |ids| ==> ids[a] < ids[b]
    {
      SortedIds(patients.Keys)
    }

    /** `patientExists`: the id is among those `getAllIds` lists. */
    function PatientExists(id: int): (b: bool)
      reads this
      ensures b <==> id in GetAllIds()
    {
      id in patients
    }

    /** `getPatientCount`: the number of ids `getAllIds` lists. */
    function GetPatientCount(): (n: nat)
      reads this
      ensures n == |GetAllIds()|
    {
      |patients|
    }

    /** Under the invariant every record is an object, hence truthy, so
        lookup succeeds exactly for the stored ids. */
    lemma FoundIffExists(id: int)
      requires Valid()
      ensures GetPatientById(id).Some? <==> PatientExists(id)
    {
      if id in patients {
        StoredRecordIsTruthy(patients, nextId, id);
      }
    }

    /** `createPatient`: take the counter as the new id and advance it (even if
        assigning the id then fails), normalise the data, set its identifier
        and store it under the new id, leaving every other entry alone. In a
        valid store this always succeeds, and the id was never handed out
        before, deleted ids included. */
    method CreatePatient(data: Json) returns (r: Result<Json, string>)
      modifies this
      ensures nextId == old(nextId) + 1
      ensures r.Err? <==> old(nextId) <= 0
      ensures r.Err? ==> r.error == PatientModel.INVALID_IDENTIFIER
                         && patients == old(patients) && Issued == old(Issued)
      ensures r.Ok? ==> r.value == JObject(PatientModel.SetIdentifier(PatientModel.Normalize(data), old(nextId)).value)
      ensures r.Ok? ==> patients == old(patients)[old(nextId) := r.value]
      ensures r.Ok? ==> PatientModel.GetIdentifier(r.value) == Some(JInt(old(nextId)))
      ensures r.Ok? ==> GetPatientById(old(nextId)) == Some(r.value)
      ensures r.Ok? ==> Issued == old(Issued) + {old(nextId)}
      ensures old(Valid()) ==> Valid() && r.Ok? && old(nextId) !in old(Issued)
    {
      var id := nextId;
      nextId := nextId + 1;
      var normalized := PatientModel.Normalize(data);
      var withId := PatientModel.SetIdentifier(normalized, id);
      if withId.Err? {
        return Err(withId.error);
      }
      var patient := JObject(withId.value);
      AssignedIsRecordOf(data, id);
      ghost var valid := Tracked(patients, id, Issued);
      if valid {
        InsertKeepsInvariant(patients, id, Issued, patient);
      }
      patients := patients[id := patient];
      Issued := Issued + {id};
      r := Ok(patient);
      assert valid ==> Valid();
    }

    /** `updatePatient`: strict replace, never insert. An id without a
        (truthy) record gives `null` and changes nothing; otherwise the record
        becomes the normalised data with its identifier forced to the id,
        whatever identifier the data carried. The counter never moves. */
    method UpdatePatient(id: int, data: Json) returns (r: Result<Option<Json>, string>)
      modifies this
      ensures nextId == old(nextId) && Issued == old(Issued)
      ensures old(GetPatientById(id)).None? ==> r == Ok(None) && patients == old(patients)
      ensures old(GetPatientById(id)).Some? && id <= 0 ==>
                r == Err(PatientModel.INVALID_IDENTIFIER) && patients == old(patients)
      ensures old(GetPatientById(id)).Some? && id > 0 ==>
                && r.Ok? && r.value.Some?
                && r.value.value == JObject(PatientModel.SetIdentifier(PatientModel.Normalize(data), id).value)
                && patients == old(patients)[id := r.value.value]
      ensures r.Ok? && r.value.Some? ==> IsRecordOf(r.value.value, id)
      ensures old(Valid()) ==> Valid()
    {
      if !(id in patients && Truthy(patients[id])) {
        return Ok(None);
      }
      var normalized := PatientModel.Normalize(data);
      var withId := PatientModel.SetIdentifier(normalized, id);
      if withId.Err? {
        return Err(withId.error);
      }
      var patient := JObject(withId.value);
      patients := patients[id := patient];
      r := Ok(Some(patient));
      assert IsRecordOf(patient, id);
    }

    /** `deletePatient`: an id without a (truthy) record gives `null` and
        changes nothing; otherwise only that entry is removed and the record
        as it was is returned. The counter never moves back, so the id is not
        handed out again. */
    method DeletePatient(id: int) returns (r: Option<Json>)
      modifies this
      ensures nextId == old(nextId) && Issued == old(Issued)
      ensures r == old(GetPatientById(id))
      ensures r.None? ==> patients == old(patients)
      ensures r.Some? ==> patients == old(patients) - {id} && GetPatientById(id).None?
      ensures old(Valid()) ==> Valid()
    {
      if !(id in patients && Truthy(patients[id])) {
        return None;
      }
      var deleted := patients[id];
      patients := patients - {id};
      r := Some(deleted);
    }
  }
}
