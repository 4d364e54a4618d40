# PatientsOnFIRE: a verified model of the Patient server

PatientsOnFIRE is a small HTTP server written for Node.js without frameworks.
It stores FHIR-style `Patient` resources in memory, keyed by an integer id
that the server assigns, and exposes five routes:

- `POST /Patient` creates a record;
- `GET /Patient/<id>` reads one;
- `PUT /Patient/<id>` replaces one;
- `DELETE /Patient/<id>` removes one;
- `GET /PatientIDs` lists the stored ids in ascending order.

Every other `GET` whose path does not start with `/Patient` is handed to a
static-file server; `GET /Patient` and `GET /PatientFoo` are 404, and
`GET /Patient/abc` is 400.

This project models the four core files in Dafny and proves properties of
the model:

- **`patient_model.dfy`** (module `PatientModel`): the record helpers of
  `server/models/patientModel.js`. These are the template, normalisation,
  identifier assignment and lookup, the URL/body identifier check, and the
  type-shape validation. All of it is pure functions and lemmas.
- **`patient_repository.dfy`** (module `PatientRepository`): the store of
  `server/repository/patientRepository.js`.
  - The class `Repository` holds the two pieces of state the source updates
    in place: the map `patients` and the counter `nextId`.
  - Its methods state the exact new state.
  - The invariant `Valid()` says that every id is positive and below the
    counter, and that every record carries its own key as `identifier` and
    is tagged `resourceType: "Patient"`. Create, update and delete preserve
    it.
  - A ghost set `Issued` of every id ever handed out shows that ids are never
    reused, even after a delete.
- **`patient_controller.dfy`** (module `PatientController`): the handlers of
  `server/controllers/patientController.js`. Each takes the store, the id
  taken from the URL, and the outcome of reading the body. It returns the
  response (status, JSON body, `Location` header). The contracts give the
  response for every branch in the source's order, and show that every
  rejected request leaves the store untouched.
- **`router.dfy`** (module `Router`): `server/router.js`, which is path
  normalisation, id extraction and the dispatch table, in the source's
  order.
- **Supporting modules:**
  - `outcomes.dfy`: `Option` and `Result`.
  - `strings.dfy`: the JavaScript string operations the code uses, plus the
    decimal writing and reading of ids, with reading proved to undo writing.
  - `json.dfy`: parsed JSON values with JavaScript truthiness,
    `typeof === 'object'`, property lookup and the own properties copied by
    object spread.

Some facts the proofs bring out:

- `validateBasicStructure` lets a JSON array through its "is an object"
  test. The array then always fails the `resourceType` rule, so a valid body
  is always a plain object already tagged `Patient`
  (`PatientModel.ValidIsTaggedObject`).
- A `PUT` whose body passes validation and the identifier check stores
  exactly the body sent (`PatientModel.ConsistentBodyStoredAsSent`). A `POST`
  stores the body with `identifier` set to the new id.
- An empty request body is answered 500, not 400. Its error message, "Request
  body is empty", lacks the word `JSON` that the handlers' `catch` looks for
  (`PatientController.EmptyBodyIs500`). A malformed body is 400
  (`PatientController.MalformedBodyIs400`).
- Errors that reach the `catch` and are answered 500 carry
  `Internal server error: <message>`, so the message is not generic; those
  whose message mentions `JSON` are answered 400 with the bare message
  (`PatientController.CaughtError`).
- The router answers an unknown method on a known path with 404. The status
  405 mentioned in the router's header comment is never sent.
- A data file that holds records but no (or a zero) `nextId` restarts the
  counter at 1. The invariant is then lost, and later creates would
  overwrite stored records (`PatientRepository.MissingNextIdBreaksInvariant`).
  A snapshot written by the server itself always carries `nextId` and loads
  back to the same store (`PatientRepository.SnapshotRoundTrip`).

## Model

| member | source | states |
|---|---|---|
| JsonValue.OwnProps | server/models/patientModel.js:49 | object spread copies an object's properties; from an array it copies each element under its decimal index, and has exactly those keys |
| PatientModel.CreatePatientTemplate | server/models/patientModel.js:30-34 | the template has exactly one property, `resourceType`, equal to "Patient" |
| PatientModel.Normalize | server/models/patientModel.js:42-53 | falsy and non-object input gives the template; otherwise the result has the input's own properties plus `resourceType`, with `resourceType` forced to "Patient" and every other property kept |
| PatientModel.NormalizeIdempotent | server/models/patientModel.js:42-53 | normalising an already normalised record changes nothing |
| PatientModel.SetIdentifier | server/models/patientModel.js:65-76 | fails with "Identifier must be a positive integer" exactly when the id is not positive; otherwise adds `identifier` equal to the id and keeps every other property |
| PatientModel.GetIdentifier | server/models/patientModel.js:84-86 | a value is returned exactly when the input is an object whose `identifier` is truthy, and it is that `identifier` |
| PatientModel.IdentifierConsistent | server/models/patientModel.js:98-106 | true exactly when `getIdentifier` returns the number `id` itself (strict equality, so no string matches) |
| PatientModel.SetThenGetIdentifier | server/models/patientModel.js:65-106 | after assigning a positive id, `getIdentifier` reads it back; the record is consistent with that id and with no other |
| PatientModel.ValidateBasicStructure | server/models/patientModel.js:117-152 | valid exactly when there are no errors; a non-object gets exactly "Patient must be an object"; an object or array gets the messages of the rules it breaks, in checking order |
| PatientModel.ViolatedRulesSpec | server/models/patientModel.js:126-146 | a rule is reported exactly when it is checked and broken, and reported rules keep the checking order |
| PatientModel.ValidateReportsEachBrokenRule | server/models/patientModel.js:126-151 | for an object, each rule's message is among the errors exactly when the rule is broken; the errors follow the checking order |
| PatientModel.ValidIffNoRuleBroken | server/models/patientModel.js:117-152 | valid exactly when the input is an object or array that breaks none of the five rules |
| PatientModel.ValidIsTaggedObject | server/models/patientModel.js:121-129 | a valid body is a plain object (never an array) whose `resourceType` is "Patient" |
| PatientModel.NormalizeValidated | server/models/patientModel.js:42-53 | normalising a valid body gives back its properties unchanged |
| PatientModel.ConsistentBodyStoredAsSent | server/repository/patientRepository.js:147-152 | a valid body consistent with a positive id comes out of normalisation and identifier assignment exactly as sent |
| PatientRepository.LoadedState | server/repository/patientRepository.js:64-75 | a failed load gives an empty store with counter 1; a successful one keeps the snapshot's `patients` (or `{}` when absent or falsy) and its `nextId` (or 1 when absent or 0); the counter is never 0 |
| PatientRepository.LoadFailureStartsFresh | server/repository/patientRepository.js:69-74 | after a failed load the store is empty with counter 1, which satisfies the invariant |
| PatientRepository.SnapshotRoundTrip | server/repository/patientRepository.js:64-68 | loading the `{ patients, nextId }` snapshot of a consistent store restores that store |
| PatientRepository.MissingNextIdBreaksInvariant | server/repository/patientRepository.js:67-68 | any snapshot holding records whose `nextId` is absent or 0 loads with counter 1 and breaks the invariant |
| PatientRepository.AssignedIsRecordOf | server/repository/patientRepository.js:107-108 | normalising any data and assigning a positive id gives a Patient record carrying that id |
| PatientRepository.InsertKeepsInvariant | server/repository/patientRepository.js:103-111 | storing the counter's record under the counter and advancing the counter preserves the invariant, and the counter's id had never been handed out |
| PatientRepository.SortedIds | server/repository/patientRepository.js:191-195 | the ids are exactly the given keys, each once, in strictly ascending order |
| PatientRepository.Repository.constructor | server/repository/patientRepository.js:38-43 | the initial store is empty with counter 1, and satisfies the invariant |
| PatientRepository.Repository.LoadData | server/repository/patientRepository.js:64-75 | the new store and counter are the loaded state; the invariant holds afterwards exactly when the snapshot satisfies it |
| PatientRepository.Repository.Initialize | server/repository/patientRepository.js:50-57 | with persistence enabled the store becomes the loaded state, every stored id counts as issued, and the invariant holds exactly when that state is consistent; otherwise nothing changes and the invariant is kept |
| PatientRepository.Repository.GetPatientById | server/repository/patientRepository.js:125-128 | a record is returned exactly when one is stored under the id and it is truthy, and it is that record |
| PatientRepository.Repository.GetAllIds | server/repository/patientRepository.js:191-195 | lists every stored id exactly once, ascending |
| PatientRepository.Repository.PatientExists | server/repository/patientRepository.js:203-206 | true exactly when the id is among those `getAllIds` lists |
| PatientRepository.Repository.GetPatientCount | server/repository/patientRepository.js:213-215 | equals the length of the `getAllIds` list |
| PatientRepository.Repository.FoundIffExists | server/repository/patientRepository.js:203-206 | in a consistent store, `getPatientById` finds a record exactly when `patientExists` is true |
| PatientRepository.Repository.CreatePatient | server/repository/patientRepository.js:101-117 | the counter always advances; the record is the normalised data with `identifier` set to the old counter, stored under it with nothing else changed; fails only for a non-positive counter; in a consistent store it succeeds, preserves the invariant and never reissues an id |
| PatientRepository.Repository.UpdatePatient | server/repository/patientRepository.js:139-158 | an id without a truthy record gives `null` and changes nothing; otherwise only that entry is replaced by the normalised data with `identifier` forced to the id; the counter never moves; the invariant is preserved |
| PatientRepository.Repository.DeletePatient | server/repository/patientRepository.js:166-184 | returns what `getPatientById` returned; on success only that entry is removed, otherwise nothing changes; the counter never moves; the invariant is preserved |
| PatientController.BodyErrorMessage | server/utils/jsonUtils.js:42-50 | an empty body is rejected with "Request body is empty", a malformed one with "Invalid JSON: " followed by the parser's message, a stream error with its own message; the message mentions JSON exactly for a malformed body or a stream error that itself mentions JSON |
| PatientController.CaughtError | server/controllers/patientController.js:88-96 | 400 with the message exactly when the message mentions `JSON`, otherwise 500 with "Internal server error: " prefixed |
| PatientController.MalformedBodyIs400 | server/utils/jsonUtils.js:48-50 | a body that fails `JSON.parse` is answered 400 |
| PatientController.EmptyBodyIs500 | server/utils/jsonUtils.js:42-45 | an empty body is answered 500 |
| PatientController.InvalidIdentifierIs500 | server/models/patientModel.js:68-70 | a failed identifier assignment is answered 500 |
| PatientController.HandleCreatePatient | server/controllers/patientController.js:64-97 | unreadable or invalid bodies are answered 500/400 and leave the store untouched; otherwise 201 with the body plus `identifier` equal to the new id, `Location: /Patient/<id>`, that record stored, the counter advanced; the invariant is preserved |
| PatientController.HandleReadPatient | server/controllers/patientController.js:109-132 | 400 for a non-positive id; 200 with the stored record exactly when it is found, else 404 "Patient not found" |
| PatientController.HandleUpdatePatient | server/controllers/patientController.js:145-189 | checks id, body, structure and identifier consistency in that order, and each rejection leaves the store untouched; then 200 with the stored record, which equals the body sent, or 404 with nothing changed; the invariant is preserved |
| PatientController.HandleDeletePatient | server/controllers/patientController.js:201-224 | 400 for a non-positive id with nothing changed; 204 and only that entry removed when found; 404 with nothing changed otherwise |
| PatientController.ListingOfStore | server/repository/patientRepository.js:191-195 | the JSON array of the sorted ids is empty exactly when the store is, and otherwise holds every stored id once, ascending |
| PatientController.HandlePatientIds | server/controllers/patientController.js:235-251 | 204 with no body exactly when the store is empty; otherwise 200 with a JSON array holding every stored id once, ascending |
| Router.NormalizePath | server/router.js:195-214 | the result always starts with `/` |
| Router.NormalizeRemovesAtMostOneSlash | server/router.js:198-201 | without a base path, a path starting with `/` is kept or loses exactly one trailing slash; `/` is kept |
| Router.NormalizeKeepsPlainPath | server/router.js:195-214 | without a base path, a path that starts with `/` and has no trailing slash is unchanged |
| Router.NormalizeExamples | server/router.js:198-211 | `/a//` becomes `/a/`, the empty path becomes `/`, `/Patient/` becomes `/Patient` |
| Router.NormalizeStripsBasePath | server/router.js:203-206 | with a base path configured, the base path followed by a plain path normalises to that plain path |
| Router.ExtractId | server/router.js:171-187 | without the prefix the result is `null`; an id is returned exactly when the text after the prefix is a non-empty run of digits with positive value, and it is that value |
| Router.ExtractIdRoundTrip | server/router.js:171-187 | the prefix followed by the decimal text of a positive id gives back that id |
| Router.ExtractIdRejects | server/router.js:180-186 | `0`, an empty id, `-1` and `abc` are not ids |
| Router.Dispatch | server/router.js:51-106 | for each route, the conditions that select it (both directions): static files for GET outside `/Patient`, create, list, read/update/delete with a valid id, 400 for a bad id; 404 carries "Route not found: <method> <path>" |
| Router.NotFoundOtherwise | server/router.js:105-106 | 404 exactly when no earlier route matches |
| Router.DispatchExamples | server/router.js:51-106 | POST `/Patient/5`, PUT `/Patient` and GET `/Patient` are 404; POST `/Patient/` creates; GET `/Patient/-1` is 400 |
| Router.Route | server/router.js:51-112 | runs the handler `Dispatch` selects on the normalised path: static, bad-id (400), not-found (404), list and read requests leave the store unchanged; create, update and delete give their handler's response and new store for every branch (body errors, invalid data, identifier mismatch, 201 with `Location`, 200, 204, 404); the invariant is preserved |

## Left out

- JSON object key order is not modelled. Records are maps, so the order of properties in a response body is not captured.
- JSON numbers are split into integers and other finite numbers (`JFrac`). Precision loss beyond 2^53 is not modelled, and neither is `-0`.
- Router.ExtractId: reads only plain ASCII digit runs (leading zeros allowed) as ids. `Number()` also accepts surrounding whitespace, `1e2`, `0x10` and `5.0`; those URLs are answered 400 here instead of being routed. Conversely, the model reads a digit run exactly, while `Number()` rounds it beyond 2^53 and turns one of about 309 digits or more into `Infinity`: `/Patient/1` followed by 400 zeros is answered 400 by the source and is an ordinary (not found) lookup here.
- Reading the request body, `url.parse`, writing responses and content-type headers are not modelled. These are `server/utils/httpUtils.js` and the stream part of `server/utils/jsonUtils.js`. The handlers receive the outcome of reading the body and return the response as a value.
- Writing the data file (`saveData`) and reading it are not modelled. Writing is a no-op here, as it is with persistence disabled, and its failures are swallowed in the source anyway. Loading is reduced to the `LoadOutcome` it produces.
- PatientRepository.LoadedState: snapshots are assumed to have canonical integer keys and an integer or absent `nextId`. Non-canonical keys (`"05"`), a non-object `patients` and a non-numeric `nextId` are not modelled.
- PatientRepository.Repository.LoadData: after a load, `Issued` records only the snapshot's keys, because ids deleted before the save are not in the file.
- Serving static files (`handleStaticFile`, with its 403/404/204/500 answers) is not modelled. Router.Route returns `Static(path)` instead.
- Router.Route: the outer `catch` that answers 500 "Internal server error" is not modelled. It is reached only when parsing the URL throws, because every handler catches its own errors.
- A failure of the request stream is modelled by its message only (`StreamFailed`).
- Asynchronous interleaving of requests is not modelled. Each handler runs to completion, which matches the single-threaded event loop between `await` points. With persistence disabled, `saveData` is the only `await` inside the store.
- PatientModel.SetIdentifier: modelled on values. The source writes `identifier` into its argument, but every caller passes a fresh copy made by `normalizePatient`, so the mutation cannot be observed.
- `server/server.js`, `server/config.js` (apart from `BASE_PATH`) and the browser client are not part of this model.
