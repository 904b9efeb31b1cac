/** The evidence plan's list of proofs, tools/production_evidence_plan.py, which finds its entries' findings again by
    prefix in the printed findings of the readiness decision. */
module EvidencePlan {
  import opened Values
  import opened Ordering
  import opened PythonValues
  import opened ProductionReadiness

  /** `_missing` */
  predicate Missing(j: Json) {
    j == JNull || (j.JString? && Blank(j.s))
  }

  const METADATA := ["status", "checked_at", "valid_until", "evidence"]

  function MissingFields(item: map<string, Json>, fields: seq<string>): seq<string> {
    FlatMap(field => if Missing(Get(item, field)) then [field] else [], fields)
  }

  function Printed(f: Finding): string {
    f.subject + ": " + f.text
  }

  function AllPrinted(findings: seq<Finding>): seq<string> {
    FlatMap(f => [Printed(f)], findings)
  }

  /** `_findings_for_prefix` */
  function FindingsForPrefix(findings: seq<string>, prefix: string): seq<string> {
    FlatMap(text => if prefix <= text then [text] else [], findings)
  }

  datatype Requirement = Requirement(
    name: string, missingFields: seq<string>, validationFindings: seq<string>, blocked: bool)

  function RequirementOf(records: map<string, Json>, printed: seq<string>, proof: Proof): Requirement {
    var item := Members(Get(records, proof.name));
    var missing, found := MissingFields(item, METADATA + proof.fields), FindingsForPrefix(printed, proof.name + ":");
    Requirement(proof.name, missing, found, missing != [] || found != [])
  }

  function Requirements(records: map<string, Json>, printed: seq<string>, required: seq<Proof>): seq<Requirement> {
    FlatMap(proof => [RequirementOf(records, printed, proof)], required)
  }

  /** `_proof_requirements` */
  method ProofRequirements(records: map<string, Json>, printed: seq<string>, required: seq<Proof>)
    returns (requirements: seq<Requirement>)
    ensures requirements == Requirements(records, printed, required)
  {
    requirements := [];
    for k := 0 to |required|
      invariant requirements == Requirements(records, printed, required[..k])
    {
      assert required[..k + 1][..k] == required[..k];
      var proof := required[k];
      var item := Members(Get(records, proof.name));
      var missing := MissingFields(item, METADATA + proof.fields);
      var found := FindingsForPrefix(printed, proof.name + ":");
      requirements := requirements + [Requirement(proof.name, missing, found, |missing| > 0 || |found| > 0)];
    }
    assert required[..|required|] == required;
  }

  // ----- finding a proof's findings again by prefix

  predicate WellNamed(required: seq<Proof>) {
    && (forall i, j :: 0 <= i < j < |required| ==> required[i].name != required[j].name)
    && (forall proof :: proof in required ==> ':' !in proof.name && proof.name !in OTHER_SUBJECTS)
  }

  predicate NoColon(names: seq<string>) {
    forall name :: name in names ==> ':' !in name
  }

  lemma NamesInOrder()
    ensures Names(REQUIRED_PROOF) == NAMES
  {
  }

  const NAMES := FIRST_NAMES + LAST_NAMES

  const FIRST_NAMES :=
    ["tls", "proxy_identity", "server_secrets", "backup_restore", "object_storage", "model_endpoint", "prometheus"]

  const LAST_NAMES := ["grafana", "alert_routing", "production_owners", "pilot_results", "infrastructure_credentials",
    "production_run_artifacts", "r16_graph_backend"]

  function Names(required: seq<Proof>): seq<string> {
    seq(|required|, i requires 0 <= i < |required| => required[i].name)
  }

  lemma NamesHaveNoColon()
    ensures NoColon(NAMES)
  {
    FirstNamesHaveNoColon();
    LastNamesHaveNoColon();
  }

  lemma FirstNamesHaveNoColon()
    ensures NoColon(FIRST_NAMES)
  {
  }

  lemma LastNamesHaveNoColon()
    ensures NoColon(LAST_NAMES)
  {
  }

  lemma NamesAreDistinct()
    ensures Distinct(NAMES)
  {
  }

  lemma NamesAreTheirOwn()
    ensures forall name :: name in NAMES ==> name !in OTHER_SUBJECTS
  {
  }

  lemma RequiredProofIsWellNamed()
    ensures WellNamed(REQUIRED_PROOF)
  {
    NamesInOrder();
    NamesHaveNoColon();
    NamesAreDistinct();
    NamesAreTheirOwn();
    forall i | 0 <= i < |REQUIRED_PROOF| ensures REQUIRED_PROOF[i].name == NAMES[i] {
      assert Names(REQUIRED_PROOF)[i] == REQUIRED_PROOF[i].name;
    }
  }

  /** Names without a colon are told apart by the prefix. */
  lemma PrefixTellsSubject(f: Finding, name: string)
    requires ':' !in f.subject && ':' !in name
    ensures name + ":" <= Printed(f) <==> name == f.subject
  {
    var text, prefix := Printed(f), name + ":";
    if prefix <= text {
      assert prefix[|name|] == ':' == text[|name|];
      assert forall k :: 0 <= k < |f.subject| ==> text[k] == f.subject[k];
      assert forall k :: 0 <= k < |name| ==> text[k] == prefix[k] == name[k];
      assert text[|f.subject|] == ':';
      assert |name| == |f.subject|;
      assert name == text[..|name|] == f.subject;
    }
  }

  function Select(findings: seq<Finding>, name: string): seq<Finding> {
    FlatMap((f: Finding) => if f.subject == name then [f] else [], findings)
  }

  predicate ColonFree(findings: seq<Finding>) {
    forall f :: f in findings ==> ':' !in f.subject
  }

  lemma {:induction false} PrefixSelects(findings: seq<Finding>, name: string)
    requires ColonFree(findings) && ':' !in name
    ensures FindingsForPrefix(AllPrinted(findings), name + ":") == AllPrinted(Select(findings, name))
  {
    if findings != [] {
      var n := |findings| - 1;
      PrefixSelects(findings[..n], name);
      PrefixTellsSubject(findings[n], name);
      assert findings == findings[..n] + [findings[n]];
      var show := (f: Finding) => [Printed(f)];
      FlatMapAppendOne(show, findings[..n], findings[n]);
      FlatMapAppendOne(text => if name + ":" <= text then [text] else [], AllPrinted(findings[..n]),
                       Printed(findings[n]));
      FlatMapAppendOne((f: Finding) => if f.subject == name then [f] else [], findings[..n], findings[n]);
      FlatMapAppendOne(show, Select(findings[..n], name), findings[n]);
      assert AllPrinted(findings) == AllPrinted(findings[..n]) + [Printed(findings[n])];
      if findings[n].subject == name {
        assert Select(findings, name) == Select(findings[..n], name) + [findings[n]];
        assert AllPrinted(Select(findings, name)) == AllPrinted(Select(findings[..n], name)) + [Printed(findings[n])];
      } else {
        assert Select(findings, name) == Select(findings[..n], name);
      }
    }
  }

  lemma {:induction false} SubjectsOfUnder(subject: string, texts: seq<string>)
    ensures |Under(subject, texts)| == |texts| && forall f :: f in Under(subject, texts) ==> f.subject == subject
  {
    if texts != [] {
      SubjectsOfUnder(subject, texts[..|texts| - 1]);
    }
  }

  lemma {:induction false} SelectAllOrNone(findings: seq<Finding>, name: string, all: bool)
    requires forall f :: f in findings ==> (f.subject == name <==> all)
    ensures Select(findings, name) == if all then findings else []
  {
    if findings != [] {
      SelectAllOrNone(findings[..|findings| - 1], name, all);
      assert findings == findings[..|findings| - 1] + [findings[|findings| - 1]];
    }
  }

  lemma SelectUnder(subject: string, texts: seq<string>, name: string)
    ensures Select(Under(subject, texts), name) == if subject == name then Under(subject, texts) else []
  {
    SubjectsOfUnder(subject, texts);
    SelectAllOrNone(Under(subject, texts), name, subject == name);
  }

  lemma SelectAppend(a: seq<Finding>, b: seq<Finding>, name: string)
    ensures Select(a + b, name) == Select(a, name) + Select(b, name)
  {
    FlatMapAppend((f: Finding) => if f.subject == name then [f] else [], a, b);
  }

  predicate OnOtherSubjects(findings: seq<Finding>) {
    forall f :: f in findings ==> f.subject in OTHER_SUBJECTS
  }

  lemma BundleSubjects(b: Bundle)
    ensures |BundleTexts(b)| == |OTHER_SUBJECTS|
    ensures forall k :: 0 <= k < |OTHER_SUBJECTS| ==> BundleTexts(b)[k].0 == OTHER_SUBJECTS[k]
  {
  }

  lemma OtherSubjects(b: Bundle)
    ensures OnOtherSubjects(BundleFindings(b))
  {
    forall f | f in BundleFindings(b) ensures f.subject in OTHER_SUBJECTS {
      FlatMapMembers((part: (string, seq<string>)) => Under(part.0, part.1), BundleTexts(b), f);
      var part :| part in BundleTexts(b) && f in Under(part.0, part.1);
      SubjectsOfUnder(part.0, part.1);
      BundleSubjects(b);
    }
  }

  lemma OtherSubjectsHaveNoColon()
    ensures NoColon(OTHER_SUBJECTS)
  {
  }

  lemma {:induction false} SelectProof(r: Reader, b: Bundle, required: seq<Proof>, now: int, k: nat)
    requires WellNamed(required) && k < |required|
    ensures ColonFree(AllProofFindings(r, b, required, now))
    ensures Select(AllProofFindings(r, b, required, now), required[k].name)
      == Under(required[k].name, ProofFindings(r, b, required[k], now))
    decreases |required|
  {
    SelectProofAmong(r, b, required, now, required[k], true);
  }

  /** Among proofs with different names, those of one name are the findings of that one proof. */
  lemma {:induction false} SelectProofAmong(r: Reader, b: Bundle, required: seq<Proof>, now: int, proof: Proof,
                                            listed: bool)
    requires WellNamed(required)
    requires if listed then proof in required else forall other :: other in required ==> other.name != proof.name
    ensures ColonFree(AllProofFindings(r, b, required, now))
    ensures Select(AllProofFindings(r, b, required, now), proof.name)
      == if listed then Under(proof.name, ProofFindings(r, b, proof, now)) else []
  {
    if required != [] {
      var n := |required| - 1;
      var last, rest := required[n], required[..n];
      assert required == rest + [last];
      SelectProofAmong(r, b, rest, now, proof, listed && last.name != proof.name);
      LastProofFindings(r, b, rest, last, now, proof.name);
    }
  }

  lemma LastProofFindings(r: Reader, b: Bundle, rest: seq<Proof>, last: Proof, now: int, name: string)
    requires ':' !in last.name && ColonFree(AllProofFindings(r, b, rest, now))
    ensures ColonFree(AllProofFindings(r, b, rest + [last], now))
    ensures Select(AllProofFindings(r, b, rest + [last], now), name) == Select(AllProofFindings(r, b, rest, now), name)
      + if last.name == name then Under(last.name, ProofFindings(r, b, last, now)) else []
  {
    var found := Under(last.name, ProofFindings(r, b, last, now));
    FlatMapAppendOne((proof: Proof) => Under(proof.name, ProofFindings(r, b, proof, now)), rest, last);
    assert AllProofFindings(r, b, rest + [last], now) == AllProofFindings(r, b, rest, now) + found;
    SelectAppend(AllProofFindings(r, b, rest, now), found, name);
    SelectUnder(last.name, ProofFindings(r, b, last, now), name);
    SubjectsOfUnder(last.name, ProofFindings(r, b, last, now));
  }

  // ----- agreement

  lemma MissingMetadata(r: Reader, item: map<string, Json>)
    requires exists field :: field in METADATA && Missing(Get(item, field))
    ensures || Get(item, "status") != JString("passed")
      || Instant(r, Get(item, "checked_at")) == None
      || Instant(r, Get(item, "valid_until")) == None
      || !IsText(Get(item, "evidence"))
  {
    var k :| 0 <= k < |METADATA| && Missing(Get(item, METADATA[k]));
    assert k == 0 || k == 1 || k == 2 || k == 3;
    assert !Blank("passed") by { assert "passed"[0] == 'p' && "passed"[0] in "passed" && !IsSpace('p'); }
  }

  lemma MissingMeansFinding(r: Reader, record: Json, fields: seq<string>, now: int)
    requires MissingFields(Members(record), METADATA + fields) != []
    ensures RecordFindings(r, record, fields, now) != []
  {
    RecordFindingsEmptyIff(r, record, fields, now);
    var item := Members(record);
    FlatMapEmptyIff(field => if Missing(Get(item, field)) then [field] else [], METADATA + fields);
    var field :| field in METADATA + fields && Missing(Get(item, field));
    if field in METADATA {
      MissingMetadata(r, item);
    } else {
      assert field in fields && !FieldComplete(r, Get(item, field));
    }
  }

  /** Read from one payload, the plan's entry for a proof lists exactly the findings of the readiness check of that
      name, and is blocked exactly when the check is. */
  lemma PlanAgreesWithReadiness(r: Reader, b: Bundle, required: seq<Proof>, now: int, k: nat)
    requires WellNamed(required) && k < |required|
    ensures var check := CheckOf(r, b, required[k], now);
      var entry := RequirementOf(Records(b), AllPrinted(Findings(r, b, required, now)), required[k]);
      && entry.validationFindings == AllPrinted(Under(required[k].name, check.findings))
      && (entry.blocked <==> !check.passed)
  {
    var proof, findings := required[k], Findings(r, b, required, now);
    OtherSubjects(b);
    OtherSubjectsHaveNoColon();
    SelectProof(r, b, required, now, k);
    SelectAppend(BundleFindings(b), AllProofFindings(r, b, required, now), proof.name);
    SelectAllOrNone(BundleFindings(b), proof.name, false);
    PrefixSelects(findings, proof.name);
    var own := Under(proof.name, ProofFindings(r, b, proof, now));
    assert Select(findings, proof.name) == own;
    UnderEmptyIff(proof.name, ProofFindings(r, b, proof, now));
    FlatMapEmptyIff(f => [Printed(f)], own);
    if MissingFields(Members(Get(Records(b), proof.name)), METADATA + proof.fields) != [] {
      MissingMeansFinding(r, Get(Records(b), proof.name), proof.fields, now);
    }
  }

  /** In particular for the proofs that the readiness check requires, whose names tell them apart. */
  lemma RequiredPlanAgreesWithReadiness(r: Reader, b: Bundle, now: int, k: nat)
    requires k < |REQUIRED_PROOF|
    ensures var check := CheckOf(r, b, REQUIRED_PROOF[k], now);
      var entry := RequirementOf(Records(b), AllPrinted(Findings(r, b, REQUIRED_PROOF, now)), REQUIRED_PROOF[k]);
      && entry.validationFindings == AllPrinted(Under(REQUIRED_PROOF[k].name, check.findings))
      && (entry.blocked <==> !check.passed)
  {
    RequiredProofIsWellNamed();
    PlanAgreesWithReadiness(r, b, REQUIRED_PROOF, now, k);
  }

  lemma {:induction false} PrintedUnder(subject: string, texts: seq<string>)
    ensures var printed := AllPrinted(Under(subject, texts));
      |printed| == |texts| && forall i :: 0 <= i < |texts| ==> printed[i] == subject + ": " + texts[i]
  {
    if texts != [] {
      var n := |texts| - 1;
      assert texts == texts[..n] + [texts[n]];
      PrintedUnder(subject, texts[..n]);
      FlatMapAppendOne(text => [Finding(subject, text)], texts[..n], texts[n]);
      FlatMapAppendOne(f => [Printed(f)], Under(subject, texts[..n]), Finding(subject, texts[n]));
    }
  }

  /** As text: each finding of the check, after the proof's name, a colon and a space. */
  lemma PlanRepeatsFindings(r: Reader, b: Bundle, now: int, k: nat, i: nat)
    requires k < |REQUIRED_PROOF|
    ensures var check := CheckOf(r, b, REQUIRED_PROOF[k], now);
      var entry := RequirementOf(Records(b), AllPrinted(Findings(r, b, REQUIRED_PROOF, now)), REQUIRED_PROOF[k]);
      && |entry.validationFindings| == |check.findings|
      && (i < |check.findings| ==>
            entry.validationFindings[i] == REQUIRED_PROOF[k].name + ": " + check.findings[i])
  {
    RequiredPlanAgreesWithReadiness(r, b, now, k);
    PrintedUnder(REQUIRED_PROOF[k].name, CheckOf(r, b, REQUIRED_PROOF[k], now).findings);
  }
}
