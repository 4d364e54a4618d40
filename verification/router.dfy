/** The hand-written router of server/router.js: path normalisation, id
    extraction and the dispatch of (method, path) pairs to the handlers. */
module Router {
  import opened Outcomes
  import opened Strings
  import opened PatientRepository
  import opened PatientController
  import opened JsonValue
  import PatientModel

  /** `BASE_PATH` of server/config.js: empty, so routes are `/Patient`, `/PatientIDs`. */
  const BASE_PATH := ""

  const PATIENT_PREFIX := "/Patient/"
  const INVALID_ID_IN_URL := "Invalid patient ID in URL"

  /** `normalizePath`: drop one trailing slash (except on `/` itself), then the
      base path if configured and present, and finally make sure the path
      starts with `/`. */
  function NormalizePath(pathname: string, basePath: string): (r: string)
    ensures StartsWith(r, "/")
  {
    var trimmed := if |pathname| > 1 && EndsWith(pathname, "/") then pathname[..|pathname| - 1] else pathname;
    var unbased := if basePath != "" && StartsWith(trimmed, basePath) then trimmed[|basePath|..] else trimmed;
    if StartsWith(unbased, "/") then unbased else "/" + unbased
  }

  /** Without a base path, a path that starts with `/` loses at most one
      trailing slash and nothing else; `/` itself stays. */
  lemma NormalizeRemovesAtMostOneSlash(pathname: string)
    requires StartsWith(pathname, "/")
    ensures var r := NormalizePath(pathname, BASE_PATH);
            r == pathname || r + "/" == pathname
    ensures NormalizePath("/", BASE_PATH) == "/"
    ensures |pathname| > 1 && EndsWith(pathname, "/") ==> NormalizePath(pathname, BASE_PATH) + "/" == pathname
  {
    if |pathname| > 1 && EndsWith(pathname, "/") {
      var trimmed := pathname[..|pathname| - 1];
      assert trimmed[..1] == pathname[..1];
      assert trimmed + "/" == pathname;
    }
  }

  /** Without a base path, a path that starts with `/` and does not end with
      one is left exactly as it is. */
  lemma NormalizeKeepsPlainPath(pathname: string)
    requires StartsWith(pathname, "/") && !EndsWith(pathname, "/")
    ensures NormalizePath(pathname, BASE_PATH) == pathname
  {
  }

  /** Only one slash goes: `/a//` becomes `/a/`; and an empty path becomes `/`. */
  lemma NormalizeExamples()
    ensures NormalizePath("/a//", BASE_PATH) == "/a/"
    ensures NormalizePath("", BASE_PATH) == "/"
    ensures NormalizePath("/Patient/", BASE_PATH) == "/Patient"
  {
    assert "/a//"[..3] == "/a/";
    assert "/Patient/"[..8] == "/Patient";
  }

  /** With a base path configured, a request under it is routed as the
      remainder. */
  lemma NormalizeStripsBasePath(basePath: string, rest: string)
    requires basePath != "" && StartsWith(rest, "/") && !EndsWith(rest, "/")
    ensures NormalizePath(basePath + rest, basePath) == rest
  {
    var p := basePath + rest;
    assert p[..|basePath|] == basePath;
    assert p[|basePath|..] == rest;
    assert p[|p| - 1..] == rest[|rest| - 1..];
  }

  /** `extractId`: the text after `prefix`, when it reads as a positive
      integer; `null` when the prefix is missing or the text is not one. */
  function ExtractId(pathname: string, prefix: string): (r: Option<int>)
    ensures !StartsWith(pathname, prefix) ==> r == None
    ensures r.Some? ==> r.value > 0
    ensures r.Some? ==> StartsWith(pathname, prefix)
    ensures r.Some? && StartsWith(pathname, prefix) ==>
              var suffix := pathname[|prefix|..];
              |suffix| > 0 && AllDigits(suffix) && r.value == DigitsValue(suffix)
    ensures StartsWith(pathname, prefix) ==>
              var suffix := pathname[|prefix|..];
              (|suffix| > 0 && AllDigits(suffix) && DigitsValue(suffix) > 0 ==> r.Some?)
  {
    if !StartsWith(pathname, prefix) then None
    else
      match ParseDecimal(pathname[|prefix|..])
      case Some(n) => if n > 0 then Some(n) else None
      case None => None
  }

  /** The URL of a record gives back its id. */
  lemma ExtractIdRoundTrip(prefix: string, id: nat)
    requires id > 0
    ensures ExtractId(prefix + DecimalString(id), prefix) == Some(id)
  {
    var p := prefix + DecimalString(id);
    assert p[..|prefix|] == prefix;
    assert p[|prefix|..] == DecimalString(id);
    DecimalRoundTrip(id);
  }

  /** `0`, an empty text, a sign or letters are not ids. */
  lemma ExtractIdRejects()
    ensures ExtractId(PATIENT_PREFIX + "0", PATIENT_PREFIX) == None
    ensures ExtractId(PATIENT_PREFIX, PATIENT_PREFIX) == None
    ensures ExtractId(PATIENT_PREFIX + "-1", PATIENT_PREFIX) == None
    ensures ExtractId(PATIENT_PREFIX + "abc", PATIENT_PREFIX) == None
  {
    assert (PATIENT_PREFIX + "0")[..|PATIENT_PREFIX|] == PATIENT_PREFIX;
    assert (PATIENT_PREFIX + "0")[|PATIENT_PREFIX|..] == "0";
    assert "0"[..0] == [] && DigitValue('0') == 0;
    assert ParseDecimal("0") == Some(0);
    assert PATIENT_PREFIX[..|PATIENT_PREFIX|] == PATIENT_PREFIX;
    assert PATIENT_PREFIX[|PATIENT_PREFIX|..] == [];
    assert (PATIENT_PREFIX + "-1")[..|PATIENT_PREFIX|] == PATIENT_PREFIX;
    assert (PATIENT_PREFIX + "-1")[|PATIENT_PREFIX|..] == "-1";
    assert !IsDigit("-1"[0]);
    assert (PATIENT_PREFIX + "abc")[..|PATIENT_PREFIX|] == PATIENT_PREFIX;
    assert (PATIENT_PREFIX + "abc")[|PATIENT_PREFIX|..] == "abc";
    assert !IsDigit("abc"[0]);
  }

  /** Where `route` sends a request, given its method and normalised path. */
  datatype Action =
    | ServeStatic(pathname: string)
    | Create
    | ListIds
    | Read(id: int)
    | Update(id: int)
    | Delete(id: int)
    | InvalidIdInUrl
    | RouteNotFound(message: string)

  /** A method whose singular route takes an id in the URL. */
  predicate IsSingularMethod(verb: string) {
    verb == "GET" || verb == "PUT" || verb == "DELETE"
  }

  /** The if-chain of `route`, in its order. */
  function Dispatch(verb: string, pathname: string): (a: Action)
    ensures a.ServeStatic? <==> verb == "GET" && !StartsWith(pathname, "/Patient")
    ensures a.ServeStatic? ==> a.pathname == pathname
    ensures a.Create? <==> verb == "POST" && pathname == "/Patient"
    ensures a.ListIds? <==> verb == "GET" && pathname == "/PatientIDs"
    ensures a.Read? <==> verb == "GET" && ExtractId(pathname, PATIENT_PREFIX).Some?
    ensures a.Update? <==> verb == "PUT" && ExtractId(pathname, PATIENT_PREFIX).Some?
    ensures a.Delete? <==> verb == "DELETE" && ExtractId(pathname, PATIENT_PREFIX).Some?
    ensures (a.Read? || a.Update? || a.Delete?) ==> Some(a.id) == ExtractId(pathname, PATIENT_PREFIX)
    ensures a.InvalidIdInUrl? <==>
              IsSingularMethod(verb) && StartsWith(pathname, PATIENT_PREFIX)
              && ExtractId(pathname, PATIENT_PREFIX).None?
    ensures a.RouteNotFound? ==> a.message == "Route not found: " + verb + " " + pathname
  {
    PatientPrefixFacts(pathname);
    if verb == "GET" && !StartsWith(pathname, "/Patient") then ServeStatic(pathname)
    else if verb == "POST" && pathname == "/Patient" then Create
    else if verb == "GET" && pathname == "/PatientIDs" then ListIds
    else if IsSingularMethod(verb) && StartsWith(pathname, PATIENT_PREFIX) then
      match ExtractId(pathname, PATIENT_PREFIX)
      case None => InvalidIdInUrl
      case Some(id) =>
        if verb == "GET" then Read(id) else if verb == "PUT" then Update(id) else Delete(id)
    else RouteNotFound("Route not found: " + verb + " " + pathname)
  }

  /** A path under `/Patient/` starts with `/Patient` and is neither
      `/Patient` nor `/PatientIDs`. */
  lemma PatientPrefixFacts(pathname: string)
    ensures StartsWith(pathname, PATIENT_PREFIX) ==>
              StartsWith(pathname, "/Patient") && pathname != "/PatientIDs" && pathname != "/Patient"
  {
    if StartsWith(pathname, PATIENT_PREFIX) {
      assert pathname[..8] == pathname[..9][..8];
      assert pathname[8] == '/';
    }
  }

  /** A request is 404 exactly when it is none of: a GET left to the static
      files, a create, the id list, or a singular route. */
  lemma NotFoundOtherwise(verb: string, pathname: string)
    ensures Dispatch(verb, pathname).RouteNotFound? <==>
              !(verb == "GET" && !StartsWith(pathname, "/Patient"))
              && !(verb == "POST" && pathname == "/Patient")
              && !(verb == "GET" && pathname == "/PatientIDs")
              && !(IsSingularMethod(verb) && StartsWith(pathname, PATIENT_PREFIX))
  {
  }

  /** Examples of the table: POST on a single record, PUT or GET on the
      collection are 404; POST `/Patient/` is normalised and creates; a
      negative id in the URL is a 400. */
  lemma DispatchExamples()
    ensures Dispatch("POST", NormalizePath("/Patient/5", BASE_PATH)).RouteNotFound?
    ensures Dispatch("PUT", NormalizePath("/Patient", BASE_PATH)).RouteNotFound?
    ensures Dispatch("GET", NormalizePath("/Patient", BASE_PATH)).RouteNotFound?
    ensures Dispatch("POST", NormalizePath("/Patient/", BASE_PATH)) == Create
    ensures Dispatch("GET", NormalizePath("/Patient/-1", BASE_PATH)) == InvalidIdInUrl
  {
    NormalizeExamples();
    NormalizeKeepsPlainPath("/Patient/5");
    NormalizeKeepsPlainPath("/Patient");
    NormalizeKeepsPlainPath("/Patient/-1");
    assert "/Patient/5"[..9] == PATIENT_PREFIX;
    assert "/Patient/-1"[..9] == PATIENT_PREFIX;
    assert "/Patient"[..8] == "/Patient";
    assert !StartsWith("/Patient", PATIENT_PREFIX);
    ExtractIdRejects();
    assert "/Patient/-1" == PATIENT_PREFIX + "-1";
  }

  /** What the server does with a request: hand it to the static-file server,
      or answer it. */
  datatype Outcome = Static(pathname: string) | Served(response: Response)

  /** Where `route` sends the request with this method and raw path. */
  function RouteOf(verb: string, pathname: string): Action {
    Dispatch(verb, NormalizePath(pathname, BASE_PATH))
  }

  /** A request body that was read, parsed and passes `validateBasicStructure`. */
  predicate AcceptedBody(body: BodyRead) {
    body.Parsed? && PatientModel.ValidateBasicStructure(body.value).valid
  }

  /** `route`: normalise the path, dispatch, and run the handler. A bad id in
      the URL is answered 400 without calling a handler; an unknown route is
      404; neither touches the store. Create, update and delete answer and
      change the store as their handlers do. */
  method Route(repo: Repository, verb: string, pathname: string, body: BodyRead) returns (o: Outcome)
    modifies repo
    ensures var a := RouteOf(verb, pathname);
            && (a.ServeStatic? ==> o == Static(a.pathname) && unchanged(repo))
            && (a.InvalidIdInUrl? ==> o == Served(ErrorResponse(400, INVALID_ID_IN_URL)) && unchanged(repo))
            && (a.RouteNotFound? ==> o == Served(ErrorResponse(404, a.message)) && unchanged(repo))
            && (a.ListIds? ==> o == Served(HandlePatientIds(repo)) && unchanged(repo))
            && (a.Read? ==> o == Served(HandleReadPatient(repo, a.id)) && unchanged(repo))
    // POST /Patient
    ensures RouteOf(verb, pathname).Create? && !body.Parsed? ==>
              o == Served(CaughtError(BodyErrorMessage(body))) && unchanged(repo)
    ensures RouteOf(verb, pathname).Create? && body.Parsed? && !AcceptedBody(body) ==>
              o == Served(ErrorResponse(400, InvalidDataMessage(PatientModel.ValidateBasicStructure(body.value).errors)))
              && unchanged(repo)
    ensures RouteOf(verb, pathname).Create? && AcceptedBody(body) ==> repo.nextId == old(repo.nextId) + 1
    ensures RouteOf(verb, pathname).Create? && AcceptedBody(body) && old(repo.nextId) > 0 ==>
              var id := old(repo.nextId);
              && body.value.JObject?
              && var record := JObject(body.value.fields[PatientModel.IDENTIFIER := JInt(id)]);
              && o == Served(Response(201, JsonBody(record), Some("/Patient/" + DecimalString(id))))
              && repo.patients == old(repo.patients)[id := record]
    ensures RouteOf(verb, pathname).Create? && AcceptedBody(body) && old(repo.nextId) <= 0 ==>
              o == Served(CaughtError(PatientModel.INVALID_IDENTIFIER)) && repo.patients == old(repo.patients)
    // PUT /Patient/<id>
    ensures RouteOf(verb, pathname).Update? ==> repo.nextId == old(repo.nextId)
    ensures RouteOf(verb, pathname).Update? && !body.Parsed? ==>
              o == Served(CaughtError(BodyErrorMessage(body))) && unchanged(repo)
    ensures RouteOf(verb, pathname).Update? && body.Parsed? && !AcceptedBody(body) ==>
              o == Served(ErrorResponse(400, InvalidDataMessage(PatientModel.ValidateBasicStructure(body.value).errors)))
              && unchanged(repo)
    ensures var a := RouteOf(verb, pathname);
            a.Update? && AcceptedBody(body) && !PatientModel.IdentifierConsistent(body.value, a.id) ==>
              o == Served(ErrorResponse(400, MISMATCH)) && unchanged(repo)
    ensures var a := RouteOf(verb, pathname);
            a.Update? && AcceptedBody(body) && PatientModel.IdentifierConsistent(body.value, a.id) ==>
              if old(repo.GetPatientById(a.id)).Some? then
                o == Served(JsonResponse(200, body.value)) && repo.patients == old(repo.patients)[a.id := body.value]
              else
                o == Served(ErrorResponse(404, NOT_FOUND)) && repo.patients == old(repo.patients)
    // DELETE /Patient/<id>
    ensures var a := RouteOf(verb, pathname);
            a.Delete? ==>
              && repo.nextId == old(repo.nextId)
              && (old(repo.GetPatientById(a.id)).Some? ==>
                    o == Served(NoContent(204)) && repo.patients == old(repo.patients) - {a.id})
              && (old(repo.GetPatientById(a.id)).None? ==>
                    o == Served(ErrorResponse(404, NOT_FOUND)) && repo.patients == old(repo.patients))
    ensures old(repo.Valid()) ==> repo.Valid()
  {
    match RouteOf(verb, pathname) {
      case ServeStatic(p) =>
        o := Static(p);
      case Create =>
        var res := HandleCreatePatient(repo, body);
        o := Served(res);
      case ListIds =>
        o := Served(HandlePatientIds(repo));
      case Read(id) =>
        o := Served(HandleReadPatient(repo, id));
      case Update(id) =>
        var res := HandleUpdatePatient(repo, id, body);
        o := Served(res);
      case Delete(id) =>
        var res := HandleDeletePatient(repo, id);
        o := Served(res);
      case InvalidIdInUrl =>
        o := Served(ErrorResponse(400, INVALID_ID_IN_URL));
      case RouteNotFound(message) =>
        o := Served(ErrorResponse(404, message));
    }
  }
}
