/** The request handlers of server/controllers/patientController.js. Each
    takes the store, the id from the URL and what reading the body produced,
    and gives the response; the store is changed only through the
    repository's operations. */
module PatientController {
  import opened Outcomes
  import opened Strings
  import opened JsonValue
  import PatientModel
  import opened PatientRepository

  /** The outcome of reading and parsing the request body. */
  datatype BodyRead =
    | Empty                           // no bytes arrived
    | Malformed(detail: string)       // `JSON.parse` failed with this message
    | StreamFailed(message: string)   // the request stream reported an error
    | Parsed(value: Json)

  /** The message of the error with which reading the body is rejected. */
  function BodyErrorMessage(body: BodyRead): (message: string)
    requires !body.Parsed?
    ensures body.Empty? ==> message == "Request body is empty"
    ensures body.Malformed? ==> message == "Invalid JSON: " + body.detail
    ensures body.StreamFailed? ==> message == body.message
    ensures body.Malformed? ==> StartsWith(message, "Invalid JSON: ")
    ensures Contains(message, "JSON") <==>
              body.Malformed? || (body.StreamFailed? && Contains(body.message, "JSON"))
  {
    BodyErrorMentionsJson(body);
    match body
    case Empty => "Request body is empty"
    case Malformed(detail) => "Invalid JSON: " + detail
    case StreamFailed(message) => message
  }

  /** Only a malformed body, or a stream error that says so, yields a message
      mentioning JSON. */
  lemma BodyErrorMentionsJson(body: BodyRead)
    requires !body.Parsed?
    ensures body.Malformed? ==> Contains("Invalid JSON: " + body.detail, "JSON")
    ensures body.Empty? ==> !Contains("Request body is empty", "JSON")
  {
    match body {
      case Malformed(detail) =>
        var message := "Invalid JSON: " + detail;
        assert message[8..12] == "JSON";
        ContainsAt(message, "JSON", 8);
      case Empty =>
        NotContainsWithoutFirstChar("Request body is empty", "JSON");
      case StreamFailed(_) =>
    }
  }

  datatype Body = NoBody | JsonBody(value: Json)

  /** What is written back: status, body and the `Location` header, if any. */
  datatype Response = Response(status: int, body: Body, location: Option<string>)

  /** `sendJson`. */
  function JsonResponse(status: int, value: Json): Response {
    Response(status, JsonBody(value), None)
  }

  /** `sendError`: the body is `{ "error": message }`. */
  function ErrorResponse(status: int, message: string): Response {
    JsonResponse(status, JObject(map["error" := JString(message)]))
  }

  /** `sendNoContent`. */
  function NoContent(status: int): Response {
    Response(status, NoBody, None)
  }

  const INVALID_ID := "Invalid patient ID"
  const NOT_FOUND := "Patient not found"
  const MISMATCH := "Identifier mismatch: URL ID does not match patient identifier"

  function InvalidDataMessage(errors: seq<string>): string {
    "Invalid patient data: " + Join(errors, ", ")
  }

  /** The `catch` of create and update: an error whose message mentions
      JSON is answered 400 with that message, any other 500. */
  function CaughtError(message: string): (r: Response)
    ensures r.status == 400 <==> Contains(message, "JSON")
    ensures r.status == 500 <==> !Contains(message, "JSON")
    ensures Contains(message, "JSON") ==> r == ErrorResponse(400, message)
    ensures !Contains(message, "JSON") ==> r == ErrorResponse(500, "Internal server error: " + message)
  {
    if Contains(message, "JSON") then ErrorResponse(400, message)
    else ErrorResponse(500, "Internal server error: " + message)
  }

  /** Malformed JSON is the client's fault: 400. */
  lemma MalformedBodyIs400(detail: string)
    ensures CaughtError(BodyErrorMessage(Malformed(detail))).status == 400
  {
  }

  /** An empty body is not recognised as a client error, its message lacking
      "JSON": 500. */
  lemma EmptyBodyIs500()
    ensures CaughtError(BodyErrorMessage(Empty)).status == 500
  {
  }

  /** Neither is the error of assigning a non-positive identifier: 500. */
  lemma InvalidIdentifierIs500()
    ensures CaughtError(PatientModel.INVALID_IDENTIFIER).status == 500
  {
    NotContainsWithoutFirstChar(PatientModel.INVALID_IDENTIFIER, "JSON");
  }

  /** `handleCreatePatient` (POST /Patient). A body that cannot be read or
      fails validation is answered with an error and never reaches the store.
      Otherwise the record is created: 201 with the stored record and
      `Location: /Patient/<id>`, the record being the body with its
      identifier set to the new id. */
  method HandleCreatePatient(repo: Repository, body: BodyRead) returns (res: Response)
    modifies repo
    ensures !body.Parsed? ==> res == CaughtError(BodyErrorMessage(body)) && unchanged(repo)
    ensures body.Parsed? && !PatientModel.ValidateBasicStructure(body.value).valid ==>
              res == ErrorResponse(400, InvalidDataMessage(PatientModel.ValidateBasicStructure(body.value).errors))
              && unchanged(repo)
    ensures body.Parsed? && PatientModel.ValidateBasicStructure(body.value).valid ==>
              repo.nextId == old(repo.nextId) + 1
    ensures body.Parsed? && PatientModel.ValidateBasicStructure(body.value).valid && old(repo.nextId) > 0 ==>
              var id := old(repo.nextId);
              && body.value.JObject?
              && var record := JObject(body.value.fields[PatientModel.IDENTIFIER := JInt(id)]);
              && res == Response(201, JsonBody(record), Some("/Patient/" + DecimalString(id)))
              && repo.patients == old(repo.patients)[id := record]
    ensures body.Parsed? && PatientModel.ValidateBasicStructure(body.value).valid && old(repo.nextId) <= 0 ==>
              res == CaughtError(PatientModel.INVALID_IDENTIFIER) && repo.patients == old(repo.patients)
    ensures old(repo.Valid()) ==> repo.Valid()
  {
    if !body.Parsed? {
      return CaughtError(BodyErrorMessage(body));
    }
    var patientData := body.value;
    var validation := PatientModel.ValidateBasicStructure(patientData);
    if !validation.valid {
      return ErrorResponse(400, InvalidDataMessage(validation.errors));
    }
    PatientModel.NormalizeValidated(patientData);
    var created := repo.CreatePatient(patientData);
    if created.Err? {
      return CaughtError(created.error);
    }
    var id := PatientModel.GetIdentifier(created.value);
    assert id == Some(JInt(old(repo.nextId)));
    res := Response(201, JsonBody(created.value), Some("/Patient/" + DecimalString(id.value.n)));
  }

  /** `handleReadPatient` (GET /Patient/<id>): 400 for an id that is not a
      positive integer, before the store is consulted; then 200 with the
      stored record, or 404. */
  function HandleReadPatient(repo: Repository, id: int): (res: Response)
    reads repo
    ensures id <= 0 ==> res == ErrorResponse(400, INVALID_ID)
    ensures id > 0 ==> (res.status == 200 <==> repo.GetPatientById(id).Some?)
    ensures id > 0 && repo.GetPatientById(id).Some? ==> res == JsonResponse(200, repo.patients[id])
    ensures id > 0 && repo.GetPatientById(id).None? ==> res == ErrorResponse(404, NOT_FOUND)
  {
    if id <= 0 then ErrorResponse(400, INVALID_ID)
    else
      match repo.GetPatientById(id)
      case Some(patient) => JsonResponse(200, patient)
      case None => ErrorResponse(404, NOT_FOUND)
  }

  /** `handleUpdatePatient` (PUT /Patient/<id>). The checks run in order: id,
      body, structure, identifier consistency, and only then the store. Every
      rejection leaves the store as it was; a consistent body for an unknown
      id is 404; otherwise the record is replaced by exactly the body sent
      and 200 returns it. */
  method HandleUpdatePatient(repo: Repository, id: int, body: BodyRead) returns (res: Response)
    modifies repo
    ensures repo.nextId == old(repo.nextId)
    ensures id <= 0 ==> res == ErrorResponse(400, INVALID_ID) && unchanged(repo)
    ensures id > 0 && !body.Parsed? ==> res == CaughtError(BodyErrorMessage(body)) && unchanged(repo)
    ensures id > 0 && body.Parsed? && !PatientModel.ValidateBasicStructure(body.value).valid ==>
              res == ErrorResponse(400, InvalidDataMessage(PatientModel.ValidateBasicStructure(body.value).errors))
              && unchanged(repo)
    ensures id > 0 && body.Parsed? && PatientModel.ValidateBasicStructure(body.value).valid
              && !PatientModel.IdentifierConsistent(body.value, id) ==>
              res == ErrorResponse(400, MISMATCH) && unchanged(repo)
    ensures id > 0 && body.Parsed? && PatientModel.ValidateBasicStructure(body.value).valid
              && PatientModel.IdentifierConsistent(body.value, id) ==>
              if old(repo.GetPatientById(id)).Some? then
                res == JsonResponse(200, body.value) && repo.patients == old(repo.patients)[id := body.value]
              else
                res == ErrorResponse(404, NOT_FOUND) && repo.patients == old(repo.patients)
    ensures old(repo.Valid()) ==> repo.Valid()
  {
    if id <= 0 {
      return ErrorResponse(400, INVALID_ID);
    }
    if !body.Parsed? {
      return CaughtError(BodyErrorMessage(body));
    }
    var patientData := body.value;
    var validation := PatientModel.ValidateBasicStructure(patientData);
    if !validation.valid {
      return ErrorResponse(400, InvalidDataMessage(validation.errors));
    }
    if !PatientModel.IdentifierConsistent(patientData, id) {
      return ErrorResponse(400, MISMATCH);
    }
    PatientModel.ConsistentBodyStoredAsSent(patientData, id);
    var updated := repo.UpdatePatient(id, patientData);
    match updated {
      case Ok(Some(patient)) => res := JsonResponse(200, patient);
      case Ok(None) => res := ErrorResponse(404, NOT_FOUND);
      case Err(message) => assert false; res := CaughtError(message);
    }
  }

  /** `handleDeletePatient` (DELETE /Patient/<id>): 400 for an id that is not
      a positive integer, before the store is touched; 204 when a record was
      removed, 404 (store unchanged) otherwise. */
  method HandleDeletePatient(repo: Repository, id: int) returns (res: Response)
    modifies repo
    ensures repo.nextId == old(repo.nextId)
    ensures id <= 0 ==> res == ErrorResponse(400, INVALID_ID) && unchanged(repo)
    ensures id > 0 && old(repo.GetPatientById(id)).Some? ==>
              res == NoContent(204) && repo.patients == old(repo.patients) - {id}
    ensures id > 0 && old(repo.GetPatientById(id)).None? ==>
              res == ErrorResponse(404, NOT_FOUND) && repo.patients == old(repo.patients)
    ensures old(repo.Valid()) ==> repo.Valid()
  {
    if id <= 0 {
      return ErrorResponse(400, INVALID_ID);
    }
    var deleted := repo.DeletePatient(id);
    if deleted.Some? {
      res := NoContent(204);
    } else {
      res := ErrorResponse(404, NOT_FOUND);
    }
  }

  /** The JSON array of ids sent by the listing. */
  function IdArray(ids: seq<int>): (r: seq<Json>)
    ensures |r| == |ids| && forall i :: 0 <= i < |ids| ==> r[i] == JInt(ids[i])
  {
    if |ids| == 0 then [] else [JInt(ids[0])] + IdArray(ids[1..])
  }

  /** An id is in the array exactly when it is in the list. */
  lemma IdArrayMembers(ids: seq<int>)
    ensures forall id :: id in ids <==> JInt(id) in IdArray(ids)
  {
    var items := IdArray(ids);
    forall id ensures id in ids <==> JInt(id) in items {
      if id in ids {
        var i :| 0 <= i < |ids| && ids[i] == id;
        assert items[i] == JInt(id);
      }
      if JInt(id) in items {
        var i :| 0 <= i < |items| && items[i] == JInt(id);
        assert ids[i] == id;
      }
    }
  }

  /** The array of an ascending list is ascending. */
  lemma IdArraySorted(ids: seq<int>)
    requires forall a, b :: 0 <= a < b < |ids| ==> ids[a] < ids[b]
    ensures var items := IdArray(ids);
            forall a, b :: 0 <= a < b < |items| ==> items[a].JInt? && items[b].JInt? && items[a].n < items[b].n
  {
    var items := IdArray(ids);
    forall a, b | 0 <= a < b < |items| ensures items[a].JInt? && items[b].JInt? && items[a].n < items[b].n {
      assert items[a] == JInt(ids[a]) && items[b] == JInt(ids[b]);
    }
  }

  /** The id list is empty exactly when the store is. */
  lemma NoIdsIffEmpty(patients: map<int, Json>)
    ensures |SortedIds(patients.Keys)| == 0 <==> patients == map[]
  {
    if patients.Keys == {} {
      assert patients == map[];
    }
  }

  /** The listing of a store: empty exactly when the store is, and otherwise
      every stored id once, ascending. */
  lemma ListingOfStore(patients: map<int, Json>)
    ensures var items := IdArray(SortedIds(patients.Keys));
            && (|items| == 0 <==> patients == map[])
            && |items| == |patients|
            && (forall id :: id in patients <==> JInt(id) in items)
            && forall a, b :: 0 <= a < b < |items| ==> items[a].JInt? && items[b].JInt? && items[a].n < items[b].n
  {
    var ids := SortedIds(patients.Keys);
    IdArrayMembers(ids);
    IdArraySorted(ids);
    NoIdsIffEmpty(patients);
  }

  /** `handlePatientIDs` (GET /PatientIDs): 204 without a body when the store
      is empty, otherwise 200 with every stored id, ascending. */
  function HandlePatientIds(repo: Repository): (res: Response)
    reads repo
    ensures res.status == 204 <==> repo.patients == map[]
    ensures res.status == 204 ==> res.body == NoBody
    ensures res.status != 204 ==>
              && res.status == 200 && res.body.JsonBody? && res.body.value.JArray?
              && var items := res.body.value.items;
              && |items| == |repo.patients|
              && (forall id :: id in repo.patients <==> JInt(id) in items)
              && forall a, b :: 0 <= a < b < |items| ==> items[a].JInt? && items[b].JInt? && items[a].n < items[b].n
  {
    ListingOfStore(repo.patients);
    var items := IdArray(repo.GetAllIds());
    if |items| == 0 then NoContent(204) else JsonResponse(200, JArray(items))
  }
}
