/** Production evidence in the terms of its JSON schema, schemas/production-readiness/production-evidence.schema.json,
    and what the readiness decision still asks of a document that conforms to it. */
module EvidenceSchema {
  import opened Values
  import opened Ordering
  import opened PythonValues
  import opened ProductionReadiness
  import opened EvidencePlan

  /** A required property: a non-empty text or, unless `textOnly`, a boolean. */
  datatype Field = Field(name: string, textOnly: bool)

  datatype Section = Section(name: string, fields: seq<Field>)

  function Text(name: string): Field {
    Field(name, true)
  }

  function Value(name: string): Field {
    Field(name, false)
  }

  const SECTIONS: seq<Section> := [
    Section("tls", [Text("endpoint"), Text("certificate_expires_at")]),
    Section("proxy_identity", [Text("provider"), Value("signed_headers_verified")]),
    Section("server_secrets", [Text("secret_manager"), Text("rotation_due_at")]),
    Section("backup_restore", [Text("restored_database"), Text("restore_completed_at")]),
    Section("object_storage", [Text("bucket"), Value("read_write_delete_verified")]),
    Section("model_endpoint", [Text("endpoint"), Text("model")]),
    Section("prometheus", [Text("endpoint"), Text("scrape_target")]),
    Section("grafana", [Text("endpoint"), Text("dashboard")]),
    Section("alert_routing", [Text("channel"), Text("test_alert_id")]),
    Section("production_owners", [Text("product_owner"), Text("technical_owner"), Text("operations_owner"),
      Text("security_owner")]),
    Section("pilot_results", [Text("pilot_project"), Value("manifest_to_project_passed"), Value("feedback_reviewed")]),
    Section("infrastructure_credentials", [Text("credential_inventory"), Text("secret_manager"),
      Value("raw_secret_values_absent")]),
    Section("production_run_artifacts", [Text("release_artifact"), Text("gate_evidence"),
      Text("deployment_audit_id")]),
    Section("r16_graph_backend", [Text("backend"), Text("deployment_evidence"), Text("connectivity_evidence"),
      Text("credential_reference"), Text("restore_or_export_evidence"), Text("owner_approval")])]

  predicate NonEmptyText(j: Json) {
    j.JString? && j.s != ""
  }

  predicate FieldConforms(f: Field, j: Json) {
    NonEmptyText(j) || (!f.textOnly && j.JBool?)
  }

  function FieldNames(s: Section): set<string> {
    set f | f in s.fields :: f.name
  }

  /** `base_proof` and the section's own schema, which admits no further property. */
  predicate RecordConforms(s: Section, j: Json) {
    && j.JObject?
    && j.members.Keys == {"status", "checked_at", "valid_until", "evidence"} + FieldNames(s)
    && j.members["status"] in {JString("pending"), JString("passed"), JString("blocked")}
    && NonEmptyText(j.members["checked_at"])
    && NonEmptyText(j.members["valid_until"])
    && NonEmptyText(j.members["evidence"])
    && forall f :: f in s.fields ==> FieldConforms(f, j.members[f.name])
  }

  predicate ProofConforms(sections: seq<Section>, j: Json) {
    && j.JObject?
    && j.members.Keys == (set s | s in sections :: s.name)
    && forall s :: s in sections ==> RecordConforms(s, j.members[s.name])
  }

  predicate Conforms(sections: seq<Section>, j: Json) {
    && j.JObject?
    && j.members.Keys == {"environment", "reviewed_by", "proof"}
    && j.members["environment"] == JString("production")
    && NonEmptyText(j.members["reviewed_by"])
    && ProofConforms(sections, j.members["proof"])
  }

  // ----- the required proofs are the schema's sections

  function FieldsOf(s: Section): seq<string> {
    seq(|s.fields|, i requires 0 <= i < |s.fields| => s.fields[i].name)
  }

  function ProofsOf(sections: seq<Section>): seq<Proof> {
    seq(|sections|, i requires 0 <= i < |sections| => Proof(sections[i].name, FieldsOf(sections[i])))
  }

  lemma SameLists(i: nat)
    requires i < 14
    ensures |SECTIONS| == |REQUIRED_PROOF| == 14
    ensures SECTIONS[i].name == REQUIRED_PROOF[i].name && FieldsOf(SECTIONS[i]) == REQUIRED_PROOF[i].fields
  {
    if i < 4 {
      assert i == 0 || i == 1 || i == 2 || i == 3;
    } else if i < 8 {
      assert i == 4 || i == 5 || i == 6 || i == 7;
    } else if i < 11 {
      assert i == 8 || i == 9 || i == 10;
    } else {
      assert i == 11 || i == 12 || i == 13;
    }
  }

  /** The tool asks for the proofs and fields that the schema requires, in one order. */
  lemma RequiredProofsAreSections()
    ensures ProofsOf(SECTIONS) == REQUIRED_PROOF
  {
    forall i | 0 <= i < 14
      ensures |SECTIONS| == |REQUIRED_PROOF| == 14 && ProofsOf(SECTIONS)[i] == REQUIRED_PROOF[i]
    {
      SameLists(i);
    }
    SameLists(0);
  }

  // ----- what the schema leaves to the decision

  ghost predicate Contains(s: string, part: string) {
    exists before, after :: s == before + part + after
  }

  lemma OccursIff(marker: string, s: string)
    ensures Occurs(marker, s) <==> Contains(s, marker)
  {
    if i :| 0 <= i <= |s| && marker <= s[i..] {
      assert s == s[..i] + marker + s[i + |marker|..];
    }
    if before, after :| s == before + marker + after {
      assert s[|before|..] == marker + after;
    }
  }

  /** A text that gives something away, in whatever case. */
  ghost predicate TellsSecret(r: Reader, s: string) {
    Contains(r.lower(s), "password=") || Contains(r.lower(s), "token=") || Contains(r.lower(s), "secret=")
  }

  ghost predicate FieldProves(r: Reader, j: Json) {
    j == JBool(true) || (Says(j) && !TellsSecret(r, j.s))
  }

  ghost predicate Timely(r: Reader, item: map<string, Json>, now: int) {
    && "checked_at" in item && Says(item["checked_at"])
    && "valid_until" in item && Says(item["valid_until"])
    && exists from, until ::
         && r.instant(item["checked_at"].s) == Some(from) && r.instant(item["valid_until"].s) == Some(until)
         && from <= now < until
  }

  /** What the decision asks of a record that conforms. */
  ghost predicate RecordProves(r: Reader, s: Section, item: map<string, Json>, now: int) {
    && "status" in item && item["status"] == JString("passed")
    && Timely(r, item, now)
    && "evidence" in item && Says(item["evidence"])
    && forall f :: f in s.fields ==> f.name in item && FieldProves(r, item[f.name])
  }

  lemma FieldProvesIff(r: Reader, j: Json)
    ensures FieldComplete(r, j) <==> FieldProves(r, j)
  {
    if j.JString? {
      OccursIff("password=", r.lower(j.s));
      OccursIff("token=", r.lower(j.s));
      OccursIff("secret=", r.lower(j.s));
    }
  }

  lemma AllFieldsProveIff(r: Reader, s: Section, item: map<string, Json>)
    ensures (forall name :: name in FieldsOf(s) ==> FieldComplete(r, Get(item, name)))
      <==> forall f :: f in s.fields ==> f.name in item && FieldProves(r, item[f.name])
  {
    forall j ensures FieldComplete(r, j) <==> FieldProves(r, j) { FieldProvesIff(r, j); }
    forall f | f in s.fields ensures f.name in FieldsOf(s) {
      var i :| 0 <= i < |s.fields| && s.fields[i] == f;
      assert FieldsOf(s)[i] == f.name;
    }
  }

  lemma TimelyIff(r: Reader, item: map<string, Json>, now: int)
    ensures Timely(r, item, now)
      <==> (&& Instant(r, Get(item, "checked_at")).Some? && Instant(r, Get(item, "checked_at")).value <= now
            && Instant(r, Get(item, "valid_until")).Some? && now < Instant(r, Get(item, "valid_until")).value)
  {
  }

  ghost predicate SectionProves(r: Reader, s: Section, proof: map<string, Json>, now: int) {
    s.name in proof && proof[s.name].JObject? && RecordProves(r, s, proof[s.name].members, now)
  }

  lemma SectionProvesIff(r: Reader, s: Section, b: Bundle, now: int)
    ensures InOrder(r, b, Proof(s.name, FieldsOf(s)), now) <==> SectionProves(r, s, Records(b), now)
  {
    if Get(Records(b), s.name).JObject? {
      TimelyIff(r, Get(Records(b), s.name).members, now);
      AllFieldsProveIff(r, s, Get(Records(b), s.name).members);
    }
  }

  lemma AllSectionsProveIff(r: Reader, sections: seq<Section>, b: Bundle, now: int)
    ensures AllProofFindings(r, b, ProofsOf(sections), now) == [] <==>
      forall s :: s in sections ==> SectionProves(r, s, Records(b), now)
  {
    AllProofsInOrderIff(r, b, ProofsOf(sections), now);
    EachIsListed(sections, (proof: Proof) => InOrder(r, b, proof, now));
    forall s: Section
      ensures InOrder(r, b, Proof(s.name, FieldsOf(s)), now) <==> SectionProves(r, s, Records(b), now)
    {
      SectionProvesIff(r, s, b, now);
    }
  }

  lemma EachIsListed(sections: seq<Section>, holds: Proof -> bool)
    ensures (forall proof :: proof in ProofsOf(sections) ==> holds(proof))
      <==> forall s :: s in sections ==> holds(Proof(s.name, FieldsOf(s)))
  {
    forall s | s in sections ensures Proof(s.name, FieldsOf(s)) in ProofsOf(sections) {
      var i :| 0 <= i < |sections| && sections[i] == s;
      assert ProofsOf(sections)[i] == Proof(s.name, FieldsOf(s));
    }
  }

  lemma ConformingIsForProduction(sections: seq<Section>, b: Bundle)
    requires Document(b).Some? && Conforms(sections, b.load.document)
    ensures ForProduction(b) && "proof" in Document(b).value && Document(b).value["proof"].JObject?
    ensures "reviewed_by" in Document(b).value && Records(b) == Document(b).value["proof"].members
  {
  }

  lemma ConformingBundleIff(sections: seq<Section>, b: Bundle)
    requires Document(b).Some? && Conforms(sections, b.load.document) && b.schemaFindings == []
    ensures BundleFindings(b) == [] <==> b.choicesConformant && Says(b.load.document.members["reviewed_by"])
  {
    BundleInOrderIff(b);
    ConformingIsForProduction(sections, b);
  }

  lemma AllowedForSections(r: Reader, sections: seq<Section>, b: Bundle, now: int)
    requires Document(b).Some?
    requires b.schemaFindings == [] <==> Conforms(sections, b.load.document)
    ensures Allowed(r, b, ProofsOf(sections), now) <==>
      && b.choicesConformant
      && Conforms(sections, b.load.document)
      && Says(b.load.document.members["reviewed_by"])
      && forall s :: s in sections ==> SectionProves(r, s, b.load.document.members["proof"].members, now)
  {
    if Conforms(sections, b.load.document) {
      ConformingBundleIff(sections, b);
      ConformingIsForProduction(sections, b);
      AllSectionsProveIff(r, sections, b, now);
    } else {
      BundleInOrderIff(b);
    }
  }

  /** With the schema's verdict meaning that schema, production is allowed exactly when the infrastructure choices
      conform, the document conforms, `reviewed_by` is not blank, and in each of the fourteen records the status
      is `passed`, the time lies within its two dates, the evidence is not blank, and every field is true or a text that
      is not blank and gives no secret away. */
  lemma AllowedIffConformsAndProves(r: Reader, b: Bundle, now: int)
    requires Document(b).Some?
    requires b.schemaFindings == [] <==> Conforms(SECTIONS, b.load.document)
    ensures Allowed(r, b, REQUIRED_PROOF, now) <==>
      && b.choicesConformant
      && Conforms(SECTIONS, b.load.document)
      && Says(b.load.document.members["reviewed_by"])
      && forall s :: s in SECTIONS ==> SectionProves(r, s, b.load.document.members["proof"].members, now)
  {
    RequiredProofsAreSections();
    AllowedForSections(r, SECTIONS, b, now);
  }

  // ----- secrets inside a value

  datatype Inside = Member(name: string) | Item(index: nat)

  /** The value that a path leads to. */
  function At(j: Json, path: seq<Inside>): Option<Json> {
    if path == [] then Some(j)
    else match path[0]
      case Member(name) => if j.JObject? && name in j.members then At(j.members[name], path[1..]) else None
      case Item(i) => if j.JArray? && i < |j.items| then At(j.items[i], path[1..]) else None
  }

  /** A key that names a secret once lower-cased and written with underscores, or a text that tells one. */
  ghost predicate SecretHere(r: Reader, j: Json) {
    || (j.JString? && TellsSecret(r, j.s))
    || (j.JObject? && exists name :: name in j.members && SpellsSecret(r.lower(name)))
  }

  ghost predicate SpellsSecret(lowered: string) {
    exists key :: key in {"secret", "password", "token", "api_key", "private_key"} && SameButDashes(lowered, key)
  }

  predicate SameButDashes(s: string, key: string) {
    |s| == |key| && forall i :: 0 <= i < |s| ==> key[i] == if s[i] == '-' then '_' else s[i]
  }

  lemma UnderscoredIff(s: string, key: string)
    ensures Underscored(s) == key <==> SameButDashes(s, key)
  {
  }

  lemma SpellsSecretIff(s: string)
    ensures SpellsSecret(s) <==> Underscored(s) in SECRET_KEYS
  {
    if Underscored(s) in SECRET_KEYS {
      UnderscoredIff(s, Underscored(s));
    }
    if key :| key in {"secret", "password", "token", "api_key", "private_key"} && SameButDashes(s, key) {
      UnderscoredIff(s, key);
    }
  }

  lemma TellsSecretIff(r: Reader, s: string)
    ensures ContainsInlineSecret(r, JString(s)) <==> TellsSecret(r, s)
  {
    OccursIff("password=", r.lower(s));
    OccursIff("token=", r.lower(s));
    OccursIff("secret=", r.lower(s));
  }

  lemma Deeper(j: Json, step: Inside, path: seq<Inside>)
    ensures At(j, [step] + path) ==
      match step
      case Member(name) => if j.JObject? && name in j.members then At(j.members[name], path) else None
      case Item(i) => if j.JArray? && i < |j.items| then At(j.items[i], path) else None
  {
    assert ([step] + path)[1..] == path;
  }

  lemma {:induction false} SecretIsReached(r: Reader, j: Json)
    requires ContainsInlineSecret(r, j)
    ensures exists path :: At(j, path).Some? && SecretHere(r, At(j, path).value)
    decreases j
  {
    assert At(j, []) == Some(j);
    match j
    case JString(s) => TellsSecretIff(r, s);
    case JArray(items) =>
      var i :| 0 <= i < |items| && ContainsInlineSecret(r, items[i]);
      SecretIsReached(r, items[i]);
      var path :| At(items[i], path).Some? && SecretHere(r, At(items[i], path).value);
      Deeper(j, Item(i), path);
    case JObject(members) =>
      var name :|
        name in members && (Underscored(r.lower(name)) in SECRET_KEYS || ContainsInlineSecret(r, members[name]));
      SpellsSecretIff(r.lower(name));
      if Underscored(r.lower(name)) !in SECRET_KEYS {
        SecretIsReached(r, members[name]);
        var path :| At(members[name], path).Some? && SecretHere(r, At(members[name], path).value);
        Deeper(j, Member(name), path);
      }
    case JNull =>
    case JBool(_) =>
    case JNumber(_, _) =>
  }

  lemma {:induction false} ReachedIsSecret(r: Reader, j: Json, path: seq<Inside>)
    requires At(j, path).Some? && SecretHere(r, At(j, path).value)
    ensures ContainsInlineSecret(r, j)
    decreases |path|
  {
    if path == [] {
      if j.JString? {
        TellsSecretIff(r, j.s);
      } else {
        var name :| name in j.members && SpellsSecret(r.lower(name));
        SpellsSecretIff(r.lower(name));
      }
    } else {
      match path[0]
      case Member(name) => ReachedIsSecret(r, j.members[name], path[1..]);
      case Item(i) => ReachedIsSecret(r, j.items[i], path[1..]);
    }
  }

  /** A value counts as an inline secret exactly when some path into it leads to a text that tells a secret or to an
      object with a key that names one. */
  lemma InlineSecretIff(r: Reader, j: Json)
    ensures ContainsInlineSecret(r, j) <==> exists path :: At(j, path).Some? && SecretHere(r, At(j, path).value)
  {
    if ContainsInlineSecret(r, j) {
      SecretIsReached(r, j);
    }
    if path :| At(j, path).Some? && SecretHere(r, At(j, path).value) {
      ReachedIsSecret(r, j, path);
    }
  }

  // ----- missing fields in the plan

  /** The plan lists as missing exactly the four members of every record and the proof's own fields that the record does
      not have, or has as null or as a blank text. */
  lemma MissingIff(records: map<string, Json>, printed: seq<string>, proof: Proof, field: string)
    ensures field in RequirementOf(records, printed, proof).missingFields <==>
      && (field in {"status", "checked_at", "valid_until", "evidence"} || field in proof.fields)
      && (|| proof.name !in records || !records[proof.name].JObject? || field !in records[proof.name].members
          || records[proof.name].members[field] == JNull
          || (records[proof.name].members[field].JString? && !Says(records[proof.name].members[field])))
  {
    MissingFieldIff(Members(Get(records, proof.name)), METADATA + proof.fields, field);
    assert field in METADATA <==> field in {"status", "checked_at", "valid_until", "evidence"};
  }

  lemma MissingFieldIff(item: map<string, Json>, fields: seq<string>, field: string)
    ensures field in MissingFields(item, fields) <==> field in fields && Missing(Get(item, field))
  {
    var f := name => if Missing(Get(item, name)) then [name] else [];
    FlatMapMembers(f, fields, field);
    if field in fields && Missing(Get(item, field)) {
      assert field in f(field);
    }
  }
}
