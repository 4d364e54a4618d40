/** The Patient resource helpers of server/models/patientModel.js: the
    template, normalisation, identifier assignment and lookup, the URL/body
    identifier check and the type-shape validation. */
module PatientModel {
  import opened Outcomes
  import opened JsonValue

  const RESOURCE_TYPE := "resourceType"
  const IDENTIFIER := "identifier"
  /** The only resource kind this server manages. */
  const PATIENT := JString("Patient")

  const INVALID_IDENTIFIER := "Identifier must be a positive integer"
  const NOT_AN_OBJECT := "Patient must be an object"

  /** `createPatientTemplate`: the minimal record, tagged as a Patient and nothing else. */
  function CreatePatientTemplate(): (r: Fields)
    ensures r.Keys == {RESOURCE_TYPE} && r[RESOURCE_TYPE] == PATIENT
  {
    map[RESOURCE_TYPE := PATIENT]
  }

  /** `normalizePatient`: a fresh record tagged as a Patient. Anything that is
      not an object or an array becomes the template; otherwise its own
      properties are copied (as object spread does) and only the tag is
      overwritten. The argument itself is a value and so is never changed. */
  function Normalize(data: Json): (r: Fields)
    ensures RESOURCE_TYPE in r && r[RESOURCE_TYPE] == PATIENT
    ensures !IsObjectLike(data) ==> r == CreatePatientTemplate()
    ensures IsObjectLike(data) ==> r.Keys == OwnProps(data).Keys + {RESOURCE_TYPE}
    ensures IsObjectLike(data) ==>
              forall k :: k in OwnProps(data) && k != RESOURCE_TYPE ==> r[k] == OwnProps(data)[k]
  {
    if !IsObjectLike(data) then CreatePatientTemplate()
    else OwnProps(data)[RESOURCE_TYPE := PATIENT]
  }

  /** `setIdentifier`: fails unless `id` is a positive integer; otherwise the
      record with `identifier` set to `id` and every other property kept. */
  function SetIdentifier(patient: Fields, id: int): (r: Result<Fields, string>)
    ensures r.Err? <==> id <= 0
    ensures r.Err? ==> r.error == INVALID_IDENTIFIER
    ensures r.Ok? ==> r.value.Keys == patient.Keys + {IDENTIFIER}
    ensures r.Ok? ==> r.value[IDENTIFIER] == JInt(id)
    ensures r.Ok? ==> forall k :: k in patient && k != IDENTIFIER ==> r.value[k] == patient[k]
  {
    if id <= 0 then Err(INVALID_IDENTIFIER) else Ok(patient[IDENTIFIER := JInt(id)])
  }

  /** `getIdentifier`: the `identifier` property when it is truthy, else `null`. */
  function GetIdentifier(patient: Json): (r: Option<Json>)
    ensures r.Some? <==> Get(patient, IDENTIFIER).Some? && Truthy(Get(patient, IDENTIFIER).value)
    ensures r.Some? ==> r == Get(patient, IDENTIFIER)
  {
    var v := Get(patient, IDENTIFIER);
    if v.Some? && Truthy(v.value) then v else None
  }

  /** `validateIdentifierConsistency`: false without a truthy identifier,
      otherwise strict equality with the number `id` (no coercion of the
      body's value, so the string "1" never matches 1). */
  function IdentifierConsistent(patient: Json, id: int): (r: bool)
    ensures r <==> GetIdentifier(patient) == Some(JInt(id))
  {
    var v := Get(patient, IDENTIFIER);
    if v.None? || !Truthy(v.value) then false else v.value == JInt(id)
  }

  /** A record that went through `SetIdentifier` reads back its identifier and
      is consistent with it. */
  lemma SetThenGetIdentifier(patient: Fields, id: int)
    requires id > 0
    ensures GetIdentifier(JObject(SetIdentifier(patient, id).value)) == Some(JInt(id))
    ensures IdentifierConsistent(JObject(SetIdentifier(patient, id).value), id)
    ensures forall other :: other != id ==> !IdentifierConsistent(JObject(SetIdentifier(patient, id).value), other)
  {
  }

  /** Normalising twice is normalising once. */
  lemma NormalizeIdempotent(data: Json)
    ensures Normalize(JObject(Normalize(data))) == Normalize(data)
  {
    var n := Normalize(data);
    assert n[RESOURCE_TYPE := PATIENT] == n;
  }

  /** The type-shape rules of `validateBasicStructure`, in the order in which
      it checks them. */
  datatype Rule = ResourceTypeRule | ActiveRule | GenderRule | BirthDateRule | NameRule
  {
    function Message(): string {
      match this
      case ResourceTypeRule => "resourceType must be \"Patient\""
      case ActiveRule => "active must be a boolean"
      case GenderRule => "gender must be a string"
      case BirthDateRule => "birthDate must be a string"
      case NameRule => "name must be an array"
    }

    /** Position in the checking order. */
    function Rank(): nat {
      match this
      case ResourceTypeRule => 0
      case ActiveRule => 1
      case GenderRule => 2
      case BirthDateRule => 3
      case NameRule => 4
    }
  }

  const CHECK_ORDER: seq<Rule> := [ResourceTypeRule, ActiveRule, GenderRule, BirthDateRule, NameRule]

  /** Whether an object-like value breaks a rule. The tag must be exactly the
      string "Patient" (absent counts as broken); the optional fields are
      judged only when present, where a JSON `null` counts as present. */
  predicate Violates(patient: Json, rule: Rule) {
    match rule
    case ResourceTypeRule => Get(patient, RESOURCE_TYPE) != Some(PATIENT)
    case ActiveRule => Get(patient, "active").Some? && !Get(patient, "active").value.JBool?
    case GenderRule => Get(patient, "gender").Some? && !Get(patient, "gender").value.JString?
    case BirthDateRule => Get(patient, "birthDate").Some? && !Get(patient, "birthDate").value.JString?
    case NameRule => Get(patient, "name").Some? && !Get(patient, "name").value.JArray?
  }

  /** The rules of `rules` that `patient` breaks, in the order given. */
  function ViolatedRules(patient: Json, rules: seq<Rule>): seq<Rule> {
    if |rules| == 0 then []
    else (if Violates(patient, rules[0]) then [rules[0]] else []) + ViolatedRules(patient, rules[1..])
  }

  function Messages(rules: seq<Rule>): (r: seq<string>)
    ensures |r| == |rules|
    ensures forall i :: 0 <= i < |rules| ==> r[i] == rules[i].Message()
  {
    if |rules| == 0 then [] else [rules[0].Message()] + Messages(rules[1..])
  }

  /** The `{ valid, errors }` object returned by `validateBasicStructure`. */
  datatype Validation = Validation(valid: bool, errors: seq<string>)

  /** One error entry when `patient` breaks `rule`, none otherwise. */
  function Check(patient: Json, rule: Rule): seq<string> {
    if Violates(patient, rule) then [rule.Message()] else []
  }

  /** The error entries for the rules of `rules`, checked one after another. */
  function Reported(patient: Json, rules: seq<Rule>): seq<string> {
    if |rules| == 0 then [] else Check(patient, rules[0]) + Reported(patient, rules[1..])
  }

  /** `validateBasicStructure`: a non-object gets exactly one error and no
      further checks; an object (or array) gets one error per broken rule, in
      checking order; the result is valid exactly when there is no error. */
  function ValidateBasicStructure(patient: Json): (v: Validation)
    ensures v.valid <==> v.errors == []
    ensures !IsObjectLike(patient) ==> v.errors == [NOT_AN_OBJECT]
    ensures IsObjectLike(patient) ==> v.errors == Messages(ViolatedRules(patient, CHECK_ORDER))
  {
    if !IsObjectLike(patient) then Validation(false, [NOT_AN_OBJECT])
    else
      var errors := Check(patient, ResourceTypeRule) + Check(patient, ActiveRule)
                    + Check(patient, GenderRule) + Check(patient, BirthDateRule)
                    + Check(patient, NameRule);
      assert errors == Messages(ViolatedRules(patient, CHECK_ORDER)) by {
        UnrollCheckOrder(patient);
        ReportedBrokenRules(patient, CHECK_ORDER);
      }
      Validation(|errors| == 0, errors)
  }

  /** Checking the rules of the checking order one by one. */
  lemma UnrollCheckOrder(patient: Json)
    ensures Reported(patient, CHECK_ORDER)
         == Check(patient, ResourceTypeRule) + Check(patient, ActiveRule)
            + Check(patient, GenderRule) + Check(patient, BirthDateRule)
            + Check(patient, NameRule)
  {
    var l4: seq<Rule> := [NameRule];
    var l3: seq<Rule> := [BirthDateRule, NameRule];
    var l2: seq<Rule> := [GenderRule, BirthDateRule, NameRule];
    var l1: seq<Rule> := [ActiveRule, GenderRule, BirthDateRule, NameRule];
    assert l4[1..] == [];
    assert Reported(patient, l4) == Check(patient, NameRule);
    assert l3[1..] == l4;
    assert Reported(patient, l3) == Check(patient, BirthDateRule) + Reported(patient, l4);
    assert l2[1..] == l3;
    assert Reported(patient, l2) == Check(patient, GenderRule) + Reported(patient, l3);
    assert l1[1..] == l2;
    assert Reported(patient, l1) == Check(patient, ActiveRule) + Reported(patient, l2);
    assert CHECK_ORDER[1..] == l1;
    assert Reported(patient, CHECK_ORDER) == Check(patient, ResourceTypeRule) + Reported(patient, l1);
  }

  /** Reporting rule by rule lists the messages of the broken rules. */
  lemma {:induction false} ReportedBrokenRules(patient: Json, rules: seq<Rule>)
    ensures Reported(patient, rules) == Messages(ViolatedRules(patient, rules))
  {
    if |rules| > 0 {
      ReportedBrokenRules(patient, rules[1..]);
      var head := if Violates(patient, rules[0]) then [rules[0]] else [];
      MessagesAppend(head, ViolatedRules(patient, rules[1..]));
    }
  }

  lemma MessagesAppend(a: seq<Rule>, b: seq<Rule>)
    ensures Messages(a + b) == Messages(a) + Messages(b)
  {
  }

  /** Different rules have different messages. */
  lemma MessageInjective(a: Rule, b: Rule)
    requires a.Message() == b.Message()
    ensures a == b
  {
    assert |a.Message()| == |b.Message()|;
  }

  /** The broken rules are exactly the rules of the list that are broken, and
      they keep the list's order. */
  lemma {:induction false} ViolatedRulesSpec(patient: Json, rules: seq<Rule>)
    ensures forall r :: r in ViolatedRules(patient, rules) <==> r in rules && Violates(patient, r)
    ensures (forall a, b :: 0 <= a < b < |rules| ==> rules[a].Rank() < rules[b].Rank()) ==>
              forall a, b :: 0 <= a < b < |ViolatedRules(patient, rules)| ==>
                ViolatedRules(patient, rules)[a].Rank() < ViolatedRules(patient, rules)[b].Rank()
  {
    if |rules| > 0 {
      ViolatedRulesSpec(patient, rules[1..]);
      var rest := ViolatedRules(patient, rules[1..]);
      if (forall a, b :: 0 <= a < b < |rules| ==> rules[a].Rank() < rules[b].Rank()) {
        forall r | r in rest ensures rules[0].Rank() < r.Rank() {
          var i :| 0 <= i < |rules[1..]| && rules[1..][i] == r;
          assert rules[i + 1] == r;
        }
      }
    }
  }

  /** The checking order ranks the rules strictly increasingly and holds every rule. */
  lemma CheckOrderIsRanked()
    ensures forall a, b :: 0 <= a < b < |CHECK_ORDER| ==> CHECK_ORDER[a].Rank() < CHECK_ORDER[b].Rank()
    ensures forall r: Rule :: r in CHECK_ORDER
  {
    forall a, b | 0 <= a < b < |CHECK_ORDER| ensures CHECK_ORDER[a].Rank() < CHECK_ORDER[b].Rank() {
      assert CHECK_ORDER[a].Rank() == a && CHECK_ORDER[b].Rank() == b;
    }
    forall r: Rule ensures r in CHECK_ORDER {
      assert CHECK_ORDER[r.Rank()] == r;
    }
  }

  /** A rule's message is listed exactly when the rule is. */
  lemma MessagesMember(rules: seq<Rule>, r: Rule)
    ensures r.Message() in Messages(rules) <==> r in rules
  {
    var msgs := Messages(rules);
    if r in rules {
      var i :| 0 <= i < |rules| && rules[i] == r;
      assert msgs[i] == r.Message();
    }
    if r.Message() in msgs {
      var i :| 0 <= i < |msgs| && msgs[i] == r.Message();
      MessageInjective(rules[i], r);
    }
  }

  /** For an object (or array), the errors name each broken rule exactly once
      and in checking order: an error message is reported iff its rule is broken. */
  lemma ValidateReportsEachBrokenRule(patient: Json)
    requires IsObjectLike(patient)
    ensures forall r: Rule :: r.Message() in ValidateBasicStructure(patient).errors <==> Violates(patient, r)
    ensures var broken := ViolatedRules(patient, CHECK_ORDER);
            ValidateBasicStructure(patient).errors == Messages(broken) &&
            forall a, b :: 0 <= a < b < |broken| ==> broken[a].Rank() < broken[b].Rank()
  {
    CheckOrderIsRanked();
    ViolatedRulesSpec(patient, CHECK_ORDER);
    var broken := ViolatedRules(patient, CHECK_ORDER);
    forall r: Rule ensures r.Message() in ValidateBasicStructure(patient).errors <==> Violates(patient, r) {
      MessagesMember(broken, r);
    }
  }

  /** Valid exactly when the input is an object or array that breaks no rule. */
  lemma ValidIffNoRuleBroken(patient: Json)
    ensures ValidateBasicStructure(patient).valid <==>
              IsObjectLike(patient) && forall r: Rule :: !Violates(patient, r)
  {
    if IsObjectLike(patient) {
      ValidateReportsEachBrokenRule(patient);
      var errors := ValidateBasicStructure(patient).errors;
      if errors != [] {
        assert errors[0] in errors;
        var broken := ViolatedRules(patient, CHECK_ORDER);
        assert errors[0] == broken[0].Message();
      }
    }
  }

  /** A body that passes validation is a plain object already tagged as a
      Patient (an array never passes: it has no `resourceType`). */
  lemma ValidIsTaggedObject(patient: Json)
    requires ValidateBasicStructure(patient).valid
    ensures patient.JObject?
    ensures Get(patient, RESOURCE_TYPE) == Some(PATIENT)
  {
    ValidIffNoRuleBroken(patient);
    assert !Violates(patient, ResourceTypeRule);
  }

  /** Normalising a validated body changes nothing. */
  lemma NormalizeValidated(patient: Json)
    requires ValidateBasicStructure(patient).valid
    ensures patient.JObject? && Normalize(patient) == patient.fields
  {
    ValidIsTaggedObject(patient);
    assert patient.fields[RESOURCE_TYPE := PATIENT] == patient.fields;
  }

  /** A body that passes validation and is consistent with `id` comes out of
      normalisation and identifier assignment unchanged: an update stores
      exactly what the client sent. */
  lemma ConsistentBodyStoredAsSent(patient: Json, id: int)
    requires id > 0
    requires ValidateBasicStructure(patient).valid && IdentifierConsistent(patient, id)
    ensures JObject(SetIdentifier(Normalize(patient), id).value) == patient
  {
    NormalizeValidated(patient);
    var f := patient.fields;
    assert f[IDENTIFIER] == JInt(id);
    assert f[IDENTIFIER := JInt(id)] == f;
  }
}
