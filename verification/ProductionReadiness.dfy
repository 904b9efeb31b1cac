/** The production readiness decision, tools/production_readiness.py. Reading an ISO-8601 text as an instant and
    lower-casing are parameters; files, the schema validator and the review of infrastructure choices are inputs. */
module ProductionReadiness {
  import opened Values
  import opened Ordering
  import opened PythonValues

  /** `instant` reads a text as an instant in UTC, if it is one. */
  datatype Reader = Reader(instant: string -> Option<int>, lower: string -> string)

  datatype Proof = Proof(name: string, fields: seq<string>)

  datatype Load = Loaded(document: Json) | NotFound(path: string) | Malformed(message: string)

  datatype Bundle = Bundle(choicesConformant: bool, load: Load, schemaFindings: seq<string>)

  /** A finding is printed as `subject: text`. */
  datatype Finding = Finding(subject: string, text: string)

  datatype Check = Check(
    name: string, passed: bool, checkedAt: Json, validUntil: Json, evidence: Json, findings: seq<string>)

  const REQUIRED_PROOF: seq<Proof> := [
    Proof("tls", ["endpoint", "certificate_expires_at"]),
    Proof("proxy_identity", ["provider", "signed_headers_verified"]),
    Proof("server_secrets", ["secret_manager", "rotation_due_at"]),
    Proof("backup_restore", ["restored_database", "restore_completed_at"]),
    Proof("object_storage", ["bucket", "read_write_delete_verified"]),
    Proof("model_endpoint", ["endpoint", "model"]),
    Proof("prometheus", ["endpoint", "scrape_target"]),
    Proof("grafana", ["endpoint", "dashboard"]),
    Proof("alert_routing", ["channel", "test_alert_id"]),
    Proof("production_owners", ["product_owner", "technical_owner", "operations_owner", "security_owner"]),
    Proof("pilot_results", ["pilot_project", "manifest_to_project_passed", "feedback_reviewed"]),
    Proof("infrastructure_credentials", ["credential_inventory", "secret_manager", "raw_secret_values_absent"]),
    Proof("production_run_artifacts", ["release_artifact", "gate_evidence", "deployment_audit_id"]),
    Proof("r16_graph_backend", ["backend", "deployment_evidence", "connectivity_evidence", "credential_reference",
      "restore_or_export_evidence", "owner_approval"])]

  const OTHER_SUBJECTS :=
    ["infrastructure_choices", "evidence_bundle", "evidence_schema", "environment", "reviewed_by", "proof"]

  // ----- values

  /** What `str.strip` removes. */
  predicate IsSpace(c: char) {
    || '\t' <= c <= '\r' || '\U{1C}' <= c <= '\U{20}' || c == '\U{85}' || c == '\U{A0}' || c == '\U{1680}'
    || '\U{2000}' <= c <= '\U{200A}' || c in {'\U{2028}', '\U{2029}', '\U{202F}', '\U{205F}', '\U{3000}'}
  }

  predicate Blank(s: string) {
    forall c :: c in s ==> IsSpace(c)
  }

  predicate IsText(j: Json) {
    j.JString? && !Blank(j.s)
  }

  function Members(j: Json): map<string, Json> {
    if j.JObject? then j.members else map[]
  }

  /** `_datetime` */
  function Instant(r: Reader, j: Json): Option<int> {
    if IsText(j) then r.instant(j.s) else None
  }

  const SECRET_KEYS := {"secret", "password", "token", "api_key", "private_key"}

  predicate Occurs(marker: string, s: string) {
    exists i :: 0 <= i <= |s| && marker <= s[i..]
  }

  function Underscored(s: string): (t: string)
    ensures |t| == |s|
  {
    seq(|s|, i requires 0 <= i < |s| => if s[i] == '-' then '_' else s[i])
  }

  /** `_contains_inline_secret_value` */
  predicate ContainsInlineSecret(r: Reader, j: Json) {
    match j
    case JObject(members) =>
      exists k :: k in members && (Underscored(r.lower(k)) in SECRET_KEYS || ContainsInlineSecret(r, members[k]))
    case JArray(items) => exists i :: 0 <= i < |items| && ContainsInlineSecret(r, items[i])
    case JString(s) => Occurs("password=", r.lower(s)) || Occurs("token=", r.lower(s)) || Occurs("secret=", r.lower(s))
    case JNull => false
    case JBool(_) => false
    case JNumber(_, _) => false
  }

  // ----- findings

  function When(condition: bool, text: string): seq<string> {
    if condition then [text] else []
  }

  function FieldFindings(r: Reader, item: map<string, Json>, field: string): seq<string> {
    When(Get(item, field) != JBool(true) && !IsText(Get(item, field)), field + " is required")
    + When(ContainsInlineSecret(r, Get(item, field)), field + " must be a reference, not a secret value")
  }

  function FieldsFindings(r: Reader, item: map<string, Json>, fields: seq<string>): seq<string> {
    FlatMap(field => FieldFindings(r, item, field), fields)
  }

  function TimeFindings(r: Reader, item: map<string, Json>, now: int): seq<string> {
    var checkedAt, validUntil := Instant(r, Get(item, "checked_at")), Instant(r, Get(item, "valid_until"));
    When(checkedAt == None, "checked_at must be an ISO-8601 timestamp")
    + When(checkedAt.Some? && checkedAt.value > now, "checked_at cannot be in the future")
    + When(validUntil == None, "valid_until must be an ISO-8601 timestamp")
    + When(validUntil.Some? && validUntil.value <= now, "evidence has expired")
  }

  function RecordFindings(r: Reader, record: Json, fields: seq<string>, now: int): seq<string> {
    var item := Members(record);
    When(!record.JObject?, "proof record is missing")
    + When(Get(item, "status") != JString("passed"), "status must be passed")
    + TimeFindings(r, item, now)
    + When(!IsText(Get(item, "evidence")), "evidence path, URL, ticket, or command output is required")
    + FieldsFindings(r, item, fields)
  }

  function Payload(b: Bundle): map<string, Json> {
    if b.load.Loaded? then Members(b.load.document) else map[]
  }

  /** A bundle that is JSON but no object has no `get`. */
  predicate Raises(b: Bundle) {
    b.load.Loaded? && !b.load.document.JObject?
  }

  function Under(subject: string, texts: seq<string>): seq<Finding> {
    FlatMap(text => [Finding(subject, text)], texts)
  }

  /** The findings on the whole bundle, by subject, in the order in which they are made. */
  function BundleTexts(b: Bundle): seq<(string, seq<string>)> {
    var payload := Payload(b);
    var loading :=
      match b.load
      case Loaded(_) => []
      case NotFound(path) => ["create " + path]
      case Malformed(message) => ["invalid JSON: " + message];
    [ ("infrastructure_choices", When(!b.choicesConformant, "real reviewed provider decisions are required")),
      ("evidence_bundle", loading),
      ("evidence_schema", if |payload| > 0 then b.schemaFindings else []),
      ("environment", When(Get(payload, "environment") != JString("production"), "must be production")),
      ("reviewed_by", When(!IsText(Get(payload, "reviewed_by")), "production owner is required")),
      ("proof", When("proof" in payload && !payload["proof"].JObject?, "object is required")) ]
  }

  function BundleFindings(b: Bundle): seq<Finding> {
    FlatMap((part: (string, seq<string>)) => Under(part.0, part.1), BundleTexts(b))
  }

  /** `payload.get("proof", {})`, or nothing when it is not an object. */
  function Records(b: Bundle): map<string, Json> {
    Members(Get(Payload(b), "proof"))
  }

  function ProofFindings(r: Reader, b: Bundle, proof: Proof, now: int): seq<string> {
    RecordFindings(r, Get(Records(b), proof.name), proof.fields, now)
  }

  function Findings(r: Reader, b: Bundle, required: seq<Proof>, now: int): seq<Finding> {
    BundleFindings(b) + AllProofFindings(r, b, required, now)
  }

  function AllProofFindings(r: Reader, b: Bundle, required: seq<Proof>, now: int): seq<Finding> {
    FlatMap((proof: Proof) => Under(proof.name, ProofFindings(r, b, proof, now)), required)
  }

  function CheckOf(r: Reader, b: Bundle, proof: Proof, now: int): Check {
    var item, findings := Members(Get(Records(b), proof.name)), ProofFindings(r, b, proof, now);
    Check(proof.name, findings == [], Get(item, "checked_at"), Get(item, "valid_until"), Get(item, "evidence"),
          findings)
  }

  method CheckField(r: Reader, value: Json, field: string) returns (findings: seq<string>)
    ensures forall item :: Get(item, field) == value ==> findings == FieldFindings(r, item, field)
  {
    findings := [];
    if value != JBool(true) && !IsText(value) {
      findings := findings + [field + " is required"];
    }
    if ContainsInlineSecret(r, value) {
      findings := findings + [field + " must be a reference, not a secret value"];
    }
  }

  method CheckFields(r: Reader, item: map<string, Json>, fields: seq<string>) returns (findings: seq<string>)
    ensures findings == FieldsFindings(r, item, fields)
  {
    findings := [];
    for k := 0 to |fields|
      invariant findings == FieldsFindings(r, item, fields[..k])
    {
      assert fields[..k + 1][..k] == fields[..k];
      var found := CheckField(r, Get(item, fields[k]), fields[k]);
      findings := findings + found;
    }
    assert fields[..|fields|] == fields;
  }

  method CheckTimes(r: Reader, item: map<string, Json>, now: int) returns (findings: seq<string>)
    ensures findings == TimeFindings(r, item, now)
  {
    findings := [];
    var checkedAt := Instant(r, Get(item, "checked_at"));
    if checkedAt == None {
      findings := findings + ["checked_at must be an ISO-8601 timestamp"];
    } else if checkedAt.value > now {
      findings := findings + ["checked_at cannot be in the future"];
    }
    var validUntil := Instant(r, Get(item, "valid_until"));
    if validUntil == None {
      findings := findings + ["valid_until must be an ISO-8601 timestamp"];
    } else if validUntil.value <= now {
      findings := findings + ["evidence has expired"];
    }
  }

  method CheckRecord(r: Reader, record: Json, fields: seq<string>, now: int) returns (findings: seq<string>)
    ensures findings == RecordFindings(r, record, fields, now)
  {
    var item := Members(record);
    findings := if record.JObject? then [] else ["proof record is missing"];
    if Get(item, "status") != JString("passed") {
      findings := findings + ["status must be passed"];
    }
    var times := CheckTimes(r, item, now);
    findings := findings + times;
    if !IsText(Get(item, "evidence")) {
      findings := findings + ["evidence path, URL, ticket, or command output is required"];
    }
    var found := CheckFields(r, item, fields);
    findings := findings + found;
  }

  method CheckProof(r: Reader, b: Bundle, proof: Proof, now: int) returns (check: Check)
    ensures check == CheckOf(r, b, proof, now)
  {
    var record := Get(Records(b), proof.name);
    var found := CheckRecord(r, record, proof.fields, now);
    var item := Members(record);
    check := Check(proof.name, found == [], Get(item, "checked_at"), Get(item, "valid_until"), Get(item, "evidence"),
                   found);
  }

  function Checks(r: Reader, b: Bundle, required: seq<Proof>, now: int): seq<Check> {
    FlatMap(proof => [CheckOf(r, b, proof, now)], required)
  }

  method CheckProofs(r: Reader, b: Bundle, required: seq<Proof>, now: int)
    returns (findings: seq<Finding>, checks: seq<Check>)
    ensures findings == AllProofFindings(r, b, required, now) && checks == Checks(r, b, required, now)
  {
    findings, checks := [], [];
    for k := 0 to |required|
      invariant findings == AllProofFindings(r, b, required[..k], now)
      invariant checks == Checks(r, b, required[..k], now)
    {
      assert required[..k + 1][..k] == required[..k];
      var check := CheckProof(r, b, required[k], now);
      findings := findings + Under(required[k].name, check.findings);
      checks := checks + [check];
    }
    assert required[..|required|] == required;
  }

  /** The decision: production is allowed when the findings are empty. `None` when `verify` raises. */
  method Verify(r: Reader, b: Bundle, required: seq<Proof>, now: int)
    returns (report: Option<(seq<Finding>, seq<Check>)>)
    ensures report ==
      if Raises(b) then None else Some((Findings(r, b, required, now), Checks(r, b, required, now)))
  {
    if b.load.Loaded? && !b.load.document.JObject? {
      return None;
    }
    var findings, checks := CheckProofs(r, b, required, now);
    report := Some((BundleFindings(b) + findings, checks));
  }

  // ----- the window

  predicate FieldComplete(r: Reader, j: Json) {
    j == JBool(true) || (IsText(j) && !ContainsInlineSecret(r, j))
  }

  /** A record that only time can fault. */
  predicate RecordComplete(r: Reader, record: Json, fields: seq<string>) {
    && record.JObject?
    && Get(record.members, "status") == JString("passed")
    && Instant(r, Get(record.members, "checked_at")).Some?
    && Instant(r, Get(record.members, "valid_until")).Some?
    && IsText(Get(record.members, "evidence"))
    && forall field :: field in fields ==> FieldComplete(r, Get(record.members, field))
  }

  predicate Complete(r: Reader, b: Bundle, required: seq<Proof>) {
    && BundleFindings(b) == []
    && forall proof :: proof in required ==> RecordComplete(r, Get(Records(b), proof.name), proof.fields)
  }

  function CheckedAt(r: Reader, b: Bundle, proof: Proof): int {
    var t := Instant(r, Get(Members(Get(Records(b), proof.name)), "checked_at"));
    if t.Some? then t.value else 0
  }

  function ValidUntil(r: Reader, b: Bundle, proof: Proof): int {
    var t := Instant(r, Get(Members(Get(Records(b), proof.name)), "valid_until"));
    if t.Some? then t.value else 0
  }

  lemma FieldsFindingsEmptyIff(r: Reader, item: map<string, Json>, fields: seq<string>)
    ensures FieldsFindings(r, item, fields) == [] <==>
      forall field :: field in fields ==> FieldComplete(r, Get(item, field))
  {
    FlatMapEmptyIff(field => FieldFindings(r, item, field), fields);
    assert forall field :: FieldFindings(r, item, field) == [] <==> FieldComplete(r, Get(item, field));
  }

  lemma RecordFindingsEmptyIff(r: Reader, record: Json, fields: seq<string>, now: int)
    ensures RecordFindings(r, record, fields, now) == []
      <==> (&& RecordComplete(r, record, fields)
            && Instant(r, Get(record.members, "checked_at")).value <= now
            && now < Instant(r, Get(record.members, "valid_until")).value)
  {
    FieldsFindingsEmptyIff(r, Members(record), fields);
  }

  lemma UnderEmptyIff(subject: string, texts: seq<string>)
    ensures Under(subject, texts) == [] <==> texts == []
  {
    FlatMapEmptyIff(text => [Finding(subject, text)], texts);
  }

  /** A bundle that raises would not be allowed anything. */
  lemma RaisingIsNotComplete(r: Reader, b: Bundle, required: seq<Proof>)
    requires Raises(b)
    ensures !Complete(r, b, required)
  {
    assert Get(Payload(b), "environment") == JNull;
    var part := ("environment", ["must be production"]);
    assert BundleTexts(b)[3] == part;
    assert part in BundleTexts(b);
    FlatMapEmptyIff((p: (string, seq<string>)) => Under(p.0, p.1), BundleTexts(b));
    UnderEmptyIff(part.0, part.1);
  }

  predicate Allowed(r: Reader, b: Bundle, required: seq<Proof>, now: int) {
    !Raises(b) && Findings(r, b, required, now) == []
  }

  predicate InOrder(r: Reader, b: Bundle, proof: Proof, now: int) {
    && RecordComplete(r, Get(Records(b), proof.name), proof.fields)
    && CheckedAt(r, b, proof) <= now < ValidUntil(r, b, proof)
  }

  lemma ProofInOrderIff(r: Reader, b: Bundle, proof: Proof, now: int)
    ensures Under(proof.name, ProofFindings(r, b, proof, now)) == [] <==> InOrder(r, b, proof, now)
  {
    UnderEmptyIff(proof.name, ProofFindings(r, b, proof, now));
    RecordFindingsEmptyIff(r, Get(Records(b), proof.name), proof.fields, now);
  }

  lemma AllProofsInOrderIff(r: Reader, b: Bundle, required: seq<Proof>, now: int)
    ensures AllProofFindings(r, b, required, now) == [] <==>
      forall proof :: proof in required ==> InOrder(r, b, proof, now)
  {
    FlatMapEmptyIff((proof: Proof) => Under(proof.name, ProofFindings(r, b, proof, now)), required);
    forall proof: Proof
      ensures Under(proof.name, ProofFindings(r, b, proof, now)) == [] <==> InOrder(r, b, proof, now)
    {
      ProofInOrderIff(r, b, proof, now);
    }
  }

  /** Production is allowed exactly when everything but time is in order and the time is within the dates of every
      proof. */
  lemma AllowedIff(r: Reader, b: Bundle, required: seq<Proof>, now: int)
    ensures Allowed(r, b, required, now)
      <==> (&& Complete(r, b, required)
            && forall proof :: proof in required ==> CheckedAt(r, b, proof) <= now < ValidUntil(r, b, proof))
  {
    AllProofsInOrderIff(r, b, required, now);
    if Raises(b) {
      RaisingIsNotComplete(r, b, required);
    }
  }

  function LatestCheck(r: Reader, b: Bundle, required: seq<Proof>): int
    requires required != []
  {
    if |required| == 1 || CheckedAt(r, b, required[0]) > LatestCheck(r, b, required[1..])
    then CheckedAt(r, b, required[0])
    else LatestCheck(r, b, required[1..])
  }

  function EarliestExpiry(r: Reader, b: Bundle, required: seq<Proof>): int
    requires required != []
  {
    if |required| == 1 || ValidUntil(r, b, required[0]) < EarliestExpiry(r, b, required[1..])
    then ValidUntil(r, b, required[0])
    else EarliestExpiry(r, b, required[1..])
  }

  lemma {:induction false} WithinAllDates(r: Reader, b: Bundle, required: seq<Proof>, now: int)
    requires required != []
    ensures (forall proof :: proof in required ==> CheckedAt(r, b, proof) <= now < ValidUntil(r, b, proof))
      <==> LatestCheck(r, b, required) <= now < EarliestExpiry(r, b, required)
  {
    assert required == [required[0]] + required[1..];
    if |required| > 1 {
      WithinAllDates(r, b, required[1..], now);
    }
  }

  /** With the other inputs fixed, the times at which production is allowed are those from the latest check, included,
      to the earliest expiry, excluded; or, when something else is missing, none. */
  lemma ReadinessWindow(r: Reader, b: Bundle, required: seq<Proof>, now: int)
    requires required != []
    ensures Allowed(r, b, required, now)
      <==> Complete(r, b, required) && LatestCheck(r, b, required) <= now < EarliestExpiry(r, b, required)
  {
    AllowedIff(r, b, required, now);
    WithinAllDates(r, b, required, now);
  }

  // ----- what is reported, finding by finding

  lemma {:induction false} UnderMembers(subject: string, texts: seq<string>, f: Finding)
    ensures f in Under(subject, texts) <==> f.subject == subject && f.text in texts
  {
    FlatMapMembers(text => [Finding(subject, text)], texts, f);
    if f.subject == subject && f.text in texts {
      assert f in (text => [Finding(subject, text)])(f.text);
    }
  }

  /** A text with a character that `strip` keeps. */
  predicate Says(j: Json) {
    j.JString? && exists c :: c in j.s && !IsSpace(c)
  }

  predicate Reports(b: Bundle, subject: string, text: string) {
    Finding(subject, text) in BundleFindings(b)
  }

  lemma ReportsIff(b: Bundle, k: nat, text: string)
    requires k < |BundleTexts(b)|
    requires forall l :: 0 <= l < |BundleTexts(b)| && l != k ==> BundleTexts(b)[l].0 != BundleTexts(b)[k].0
    ensures Reports(b, BundleTexts(b)[k].0, text) <==> text in BundleTexts(b)[k].1
  {
    var parts, subject := BundleTexts(b), BundleTexts(b)[k].0;
    var f := Finding(subject, text);
    FlatMapMembers((part: (string, seq<string>)) => Under(part.0, part.1), parts, f);
    forall part | part in parts ensures f in Under(part.0, part.1) <==> part == parts[k] && text in part.1 {
      UnderMembers(part.0, part.1, f);
    }
  }

  lemma SubjectsDiffer(b: Bundle, k: nat, l: nat)
    requires k < 6 && l < 6 && k != l
    ensures |BundleTexts(b)| == 6 && BundleTexts(b)[k].0 != BundleTexts(b)[l].0
  {
    var subjects := OTHER_SUBJECTS;
    assert |subjects[0]| == 22 && |subjects[1]| == |subjects[2]| == 15 && |subjects[3]| == |subjects[4]| == 11
           && |subjects[5]| == 5;
    assert subjects[1][9] == 'b' && subjects[2][9] == 's' && subjects[3][0] == 'e' && subjects[4][0] == 'r';
    assert BundleTexts(b)[k].0 == subjects[k] && BundleTexts(b)[l].0 == subjects[l];
  }

  lemma ReportsAt(b: Bundle, k: nat, text: string)
    requires k < 6
    ensures |BundleTexts(b)| == 6 && (Reports(b, BundleTexts(b)[k].0, text) <==> text in BundleTexts(b)[k].1)
  {
    assert |BundleTexts(b)| == 6;
    forall l | 0 <= l < 6 && l != k ensures BundleTexts(b)[l].0 != BundleTexts(b)[k].0 { SubjectsDiffer(b, l, k); }
    ReportsIff(b, k, text);
  }

  function Document(b: Bundle): Option<map<string, Json>> {
    if b.load.Loaded? && b.load.document.JObject? then Some(b.load.document.members) else None
  }

  predicate ForProduction(b: Bundle) {
    Document(b).Some? && "environment" in Document(b).value && Document(b).value["environment"] == JString("production")
  }

  predicate Reviewed(b: Bundle) {
    Document(b).Some? && "reviewed_by" in Document(b).value && Says(Document(b).value["reviewed_by"])
  }

  predicate ProofMayBeRead(b: Bundle) {
    Document(b).Some? && "proof" in Document(b).value ==> Document(b).value["proof"].JObject?
  }

  lemma EnvironmentPart(b: Bundle)
    ensures |BundleTexts(b)| == 6
    ensures BundleTexts(b)[3].1 == if ForProduction(b) then [] else ["must be production"]
  {
  }

  lemma ReviewPart(b: Bundle)
    ensures |BundleTexts(b)| == 6
    ensures BundleTexts(b)[4].1 == if Reviewed(b) then [] else ["production owner is required"]
  {
  }

  lemma ProofPart(b: Bundle)
    ensures |BundleTexts(b)| == 6
    ensures BundleTexts(b)[5].1 == if ProofMayBeRead(b) then [] else ["object is required"]
  {
  }

  lemma SchemaPart(b: Bundle)
    requires ForProduction(b)
    ensures |BundleTexts(b)| == 6 && BundleTexts(b)[2].1 == b.schemaFindings
  {
    assert "environment" in Payload(b);
  }

  lemma LoadPart(b: Bundle)
    ensures |BundleTexts(b)| == 6
    ensures BundleTexts(b)[0].1 == if b.choicesConformant then [] else ["real reviewed provider decisions are required"]
    ensures BundleTexts(b)[1].1 == [] <==> b.load.Loaded?
  {
  }

  lemma NoPartsIff(parts: seq<(string, seq<string>)>)
    requires |parts| == 6
    ensures FlatMap((part: (string, seq<string>)) => Under(part.0, part.1), parts) == [] <==>
      parts[0].1 == parts[1].1 == parts[2].1 == parts[3].1 == parts[4].1 == parts[5].1 == []
  {
    var f := (part: (string, seq<string>)) => Under(part.0, part.1);
    FlatMapEmptyIff(f, parts);
    forall part ensures f(part) == [] <==> part.1 == [] {
      UnderEmptyIff(part.0, part.1);
    }
    forall k | 0 <= k < 6 ensures parts[k] in parts {
    }
  }

  /** The bundle as a whole gives no finding exactly when the infrastructure choices conform, an object was loaded that
      is for production, says by whom it was reviewed and satisfies the schema, and its proof, if any, is an object. */
  lemma BundleInOrderIff(b: Bundle)
    ensures BundleFindings(b) == [] <==>
      && b.choicesConformant && ForProduction(b) && Reviewed(b) && b.schemaFindings == []
      && ("proof" in Document(b).value ==> Document(b).value["proof"].JObject?)
  {
    var parts := BundleTexts(b);
    LoadPart(b);
    NoPartsIff(parts);
    EnvironmentPart(b);
    ReviewPart(b);
    ProofPart(b);
    if ForProduction(b) {
      SchemaPart(b);
    }
  }

  /** The findings on single members, and when they are made. */
  lemma BundleReportsIff(b: Bundle, text: string)
    ensures Reports(b, "infrastructure_choices", text) <==>
      !b.choicesConformant && text == "real reviewed provider decisions are required"
    ensures Reports(b, "environment", text) <==> !ForProduction(b) && text == "must be production"
    ensures Reports(b, "reviewed_by", text) <==> !Reviewed(b) && text == "production owner is required"
    ensures Reports(b, "proof", text) <==> !ProofMayBeRead(b) && text == "object is required"
  {
    LoadPart(b);
    ReportsAt(b, 0, text);
    ReportsAt(b, 3, text);
    ReportsAt(b, 4, text);
    ReportsAt(b, 5, text);
    EnvironmentPart(b);
    ReviewPart(b);
    ProofPart(b);
  }

  /** What `strip` removes, character by character. */
  lemma SpaceIff(c: char)
    ensures IsSpace(c) <==>
      c in {'\t', '\n', '\U{0B}', '\U{0C}', '\r', '\U{1C}', '\U{1D}', '\U{1E}', '\U{1F}', ' ', '\U{85}', '\U{A0}',
            '\U{1680}', '\U{2000}', '\U{2001}', '\U{2002}', '\U{2003}', '\U{2004}', '\U{2005}', '\U{2006}', '\U{2007}',
            '\U{2008}', '\U{2009}', '\U{200A}', '\U{2028}', '\U{2029}', '\U{202F}', '\U{205F}', '\U{3000}'}
  {
  }

  lemma WhenMembers(condition: bool, text: string, x: string)
    ensures x in When(condition, text) <==> condition && x == text
  {
  }

  lemma FieldReportsIff(r: Reader, item: map<string, Json>, fields: seq<string>, text: string)
    ensures text in FieldsFindings(r, item, fields) <==>
      exists field :: field in fields
        && (|| (text == field + " is required" && Get(item, field) != JBool(true) && !Says(Get(item, field)))
            || (text == field + " must be a reference, not a secret value"
                && ContainsInlineSecret(r, Get(item, field))))
  {
    var f := field => FieldFindings(r, item, field);
    FlatMapMembers(f, fields, text);
    forall field
      ensures text in f(field) <==>
        || (text == field + " is required" && Get(item, field) != JBool(true) && !Says(Get(item, field)))
        || (text == field + " must be a reference, not a secret value" && ContainsInlineSecret(r, Get(item, field)))
    {
      WhenMembers(Get(item, field) != JBool(true) && !IsText(Get(item, field)), field + " is required", text);
      WhenMembers(ContainsInlineSecret(r, Get(item, field)), field + " must be a reference, not a secret value", text);
    }
  }

  /** The dated member is read as this instant. */
  predicate Dated(r: Reader, item: map<string, Json>, name: string, t: int) {
    name in item && Says(item[name]) && r.instant(item[name].s) == Some(t)
  }

  lemma TimeReportsIff(r: Reader, item: map<string, Json>, now: int, text: string)
    ensures text in TimeFindings(r, item, now) <==>
      || (text == "checked_at must be an ISO-8601 timestamp" && forall t :: !Dated(r, item, "checked_at", t))
      || (text == "checked_at cannot be in the future" && exists t :: Dated(r, item, "checked_at", t) && t > now)
      || (text == "valid_until must be an ISO-8601 timestamp" && forall t :: !Dated(r, item, "valid_until", t))
      || (text == "evidence has expired" && exists t :: Dated(r, item, "valid_until", t) && t <= now)
  {
    var checkedAt, validUntil := Instant(r, Get(item, "checked_at")), Instant(r, Get(item, "valid_until"));
    forall t ensures Dated(r, item, "checked_at", t) <==> checkedAt == Some(t) {
    }
    forall t ensures Dated(r, item, "valid_until", t) <==> validUntil == Some(t) {
    }
    if checkedAt.Some? {
      assert Dated(r, item, "checked_at", checkedAt.value);
    }
    if validUntil.Some? {
      assert Dated(r, item, "valid_until", validUntil.value);
    }
  }

  /** Which findings are made on a record, and when; those on dates and on the proof's own fields are above. */
  lemma RecordReportsIff(r: Reader, record: Json, fields: seq<string>, now: int, text: string)
    ensures text in RecordFindings(r, record, fields, now) <==>
      || (text == "proof record is missing" && !record.JObject?)
      || (text == "status must be passed" && Get(Members(record), "status") != JString("passed"))
      || text in TimeFindings(r, Members(record), now)
      || (text == "evidence path, URL, ticket, or command output is required"
          && !Says(Get(Members(record), "evidence")))
      || text in FieldsFindings(r, Members(record), fields)
  {
    var item := Members(record);
    WhenMembers(!record.JObject?, "proof record is missing", text);
    WhenMembers(Get(item, "status") != JString("passed"), "status must be passed", text);
    WhenMembers(!IsText(Get(item, "evidence")), "evidence path, URL, ticket, or command output is required", text);
  }

  /** Each check repeats the record's dates and evidence, null where the record has none, and passes exactly when the
      record is complete and its dates allow it. */
  lemma CheckSays(r: Reader, b: Bundle, required: seq<Proof>, now: int, k: nat)
    requires k < |required|
    ensures |Checks(r, b, required, now)| == |required|
    ensures var check := Checks(r, b, required, now)[k];
      var item := Members(Get(Records(b), required[k].name));
      && check.name == required[k].name
      && (check.passed <==> InOrder(r, b, required[k], now))
      && check.checkedAt == (if "checked_at" in item then item["checked_at"] else JNull)
      && check.validUntil == (if "valid_until" in item then item["valid_until"] else JNull)
      && check.evidence == (if "evidence" in item then item["evidence"] else JNull)
  {
    ChecksAt(r, b, required, now, k);
    ProofInOrderIff(r, b, required[k], now);
    UnderEmptyIff(required[k].name, ProofFindings(r, b, required[k], now));
  }

  lemma {:induction false} ChecksAt(r: Reader, b: Bundle, required: seq<Proof>, now: int, k: nat)
    requires k < |required|
    ensures |Checks(r, b, required, now)| == |required|
    ensures Checks(r, b, required, now)[k] == CheckOf(r, b, required[k], now)
  {
    var n := |required| - 1;
    assert required == required[..n] + [required[n]];
    FlatMapAppendOne(proof => [CheckOf(r, b, proof, now)], required[..n], required[n]);
    if k < n {
      ChecksAt(r, b, required[..n], now, k);
    } else if n > 0 {
      ChecksAt(r, b, required[..n], now, 0);
    }
  }
}
