/** The semantic diff of two registries, tools/semantic_platform_generate.py. */
module MigrationPlan {
  import opened Ordering
  import opened Values
  import opened Registry

  /** The `migration` of an added property is the identifier of the one found, if any; a plan that is made has no
      `Some(None)`, since looking up the identifier of a migration without one raises. */
  datatype Change =
    | ObjectAdded(objectId: string)
    | ObjectRemoved(objectId: string)
    | PropertyAdded(objectId: string, property: string, typ: string, required: bool, migration: Option<Option<Json>>)
    | PropertyRemoved(objectId: string, property: string)
    | PropertyTypeChanged(objectId: string, property: string, from: string, to: string)
  {
    predicate Blocked() {
      match this
      case ObjectAdded(_) => false
      case ObjectRemoved(_) => true
      case PropertyAdded(_, _, _, required, migration) => required && migration == None
      case PropertyRemoved(_, _) => true
      case PropertyTypeChanged(_, _, _, _) => true
    }

    function Classification(): string {
      match this
      case ObjectAdded(_) => "additive"
      case ObjectRemoved(_) => "destructive"
      case PropertyAdded(_, _, _, required, _) =>
        if Blocked() then "manual_review" else if required then "breaking_with_backfill" else "additive"
      case PropertyRemoved(_, _) => "destructive"
      case PropertyTypeChanged(_, _, _, _) => "breaking"
    }

    function Action(): string {
      match this
      case ObjectAdded(_) => "create_table"
      case ObjectRemoved(_) => "manual_review"
      case PropertyAdded(_, _, _, _, _) => if Blocked() then "declare_backfill" else "add_column"
      case PropertyRemoved(_, _) => "manual_review"
      case PropertyTypeChanged(_, _, _, _) => "manual_review"
    }

    function ElementId(): string {
      match this
      case ObjectAdded(o) => o
      case ObjectRemoved(o) => o
      case PropertyAdded(o, p, _, _, _) => o + ".property." + p
      case PropertyRemoved(o, p) => o + ".property." + p
      case PropertyTypeChanged(o, p, _, _) => o + ".property." + p
    }
  }

  datatype RequiredAction = RequiredAction(elementId: string, action: string)

  datatype Mode = Baseline | SemanticDiff

  datatype Plan = Plan(
    mode: Mode, status: string, blocked: bool, changes: seq<Change>, requiredActions: seq<RequiredAction>)

  // ----- declared backfills

  predicate DeclaresBackfill(operation: Operation, o: string, p: string) {
    operation.Operation? && operation.property == Some(PropertyRef(o, p)) && operation.backfill.Some?
  }

  /** Is there a matching operation with a backfill member? `None` if the search meets something else than an operation
      before it finds one. */
  function Declares(operations: seq<Operation>, o: string, p: string): Option<bool> {
    if operations == [] then Some(false)
    else if operations[0].MalformedOperation? then None
    else if DeclaresBackfill(operations[0], o, p) then Some(true)
    else Declares(operations[1..], o, p)
  }

  /** `_declared_property_migration`: the first migration that declares a backfill, if any; `None` when it raises. */
  function Search(migrations: seq<Migration>, o: string, p: string): Option<Option<Migration>> {
    if migrations == [] then Some(None)
    else if migrations[0].MalformedMigration? || migrations[0].operations == None then None
    else
      match Declares(migrations[0].operations.value, o, p)
      case None => None
      case Some(true) => Some(Some(migrations[0]))
      case Some(false) => Search(migrations[1..], o, p)
  }

  function DeclaredMigration(migrations: seq<Migration>, o: string, p: string): (r: Option<Migration>)
    ensures r.Some? ==> r.value.Migration? && r.value.operations.Some?
  {
    FoundIsMigration(migrations, o, p);
    match Search(migrations, o, p)
    case None => None
    case Some(found) => found
  }

  lemma {:induction false} FoundIsMigration(migrations: seq<Migration>, o: string, p: string)
    ensures Search(migrations, o, p).Some? && Search(migrations, o, p).value.Some? ==>
      Search(migrations, o, p).value.value.Migration? && Search(migrations, o, p).value.value.operations.Some?
  {
    if migrations != [] {
      FoundIsMigration(migrations[1..], o, p);
    }
  }

  function MigrationId(migration: Option<Migration>): Option<Option<Json>> {
    match migration
    case None => None
    case Some(MalformedMigration) => Some(None)
    case Some(Migration(id, _)) => Some(id)
  }

  // ----- what the search finds

  /** The operation is for this property of this object, and has a backfill member. */
  predicate IsBackfillFor(operation: Operation, o: string, p: string) {
    match operation
    case MalformedOperation => false
    case Operation(None, _) => false
    case Operation(Some(PropertyRef(objectId, name)), backfill) => objectId == o && name == p && backfill.Some?
  }

  /** The search goes through the whole migration without finding anything, and without raising. */
  ghost predicate Passed(migration: Migration, o: string, p: string) {
    && migration.Migration? && migration.operations.Some?
    && forall k :: 0 <= k < |migration.operations.value| ==>
         migration.operations.value[k].Operation? && !IsBackfillFor(migration.operations.value[k], o, p)
  }

  /** The search meets an operation for the property before anything malformed. */
  ghost predicate Lists(migration: Migration, o: string, p: string) {
    && migration.Migration? && migration.operations.Some?
    && exists k :: 0 <= k < |migration.operations.value|
         && IsBackfillFor(migration.operations.value[k], o, p)
         && forall j :: 0 <= j < k ==> migration.operations.value[j].Operation?
  }

  /** The migration at `i` is the first that lists the property. */
  ghost predicate FirstListing(migrations: seq<Migration>, i: int, o: string, p: string) {
    0 <= i < |migrations| && Lists(migrations[i], o, p) && forall j :: 0 <= j < i ==> Passed(migrations[j], o, p)
  }

  /** Some migration declares a backfill for the property. */
  ghost predicate BackfillDeclared(migrations: seq<Migration>, o: string, p: string) {
    exists i :: FirstListing(migrations, i, o, p)
  }

  lemma {:induction false} DeclaresIff(operations: seq<Operation>, o: string, p: string)
    ensures Declares(operations, o, p) == Some(true) <==>
      exists k :: 0 <= k < |operations| && IsBackfillFor(operations[k], o, p)
        && forall j :: 0 <= j < k ==> operations[j].Operation?
    ensures Declares(operations, o, p) == Some(false) <==>
      forall k :: 0 <= k < |operations| ==> operations[k].Operation? && !IsBackfillFor(operations[k], o, p)
  {
    if operations != [] {
      var rest := operations[1..];
      DeclaresIff(rest, o, p);
      assert forall k :: 0 <= k < |rest| ==> rest[k] == operations[k + 1];
      if Declares(operations, o, p) == Some(true) && !IsBackfillFor(operations[0], o, p) {
        var k :| 0 <= k < |rest| && IsBackfillFor(rest[k], o, p) && forall j :: 0 <= j < k ==> rest[j].Operation?;
        assert IsBackfillFor(operations[k + 1], o, p);
        assert forall j :: 0 < j < k + 1 ==> operations[j] == rest[j - 1];
      }
      if k :| 0 <= k < |operations| && IsBackfillFor(operations[k], o, p)
              && forall j :: 0 <= j < k ==> operations[j].Operation?
      {
        if k > 0 {
          assert IsBackfillFor(rest[k - 1], o, p);
        }
      }
    }
  }

  lemma MigrationDeclaresIff(migration: Migration, o: string, p: string)
    requires migration.Migration? && migration.operations.Some?
    ensures Declares(migration.operations.value, o, p) == Some(true) <==> Lists(migration, o, p)
    ensures Declares(migration.operations.value, o, p) == Some(false) <==> Passed(migration, o, p)
  {
    DeclaresIff(migration.operations.value, o, p);
  }

  lemma FirstListingShifts(migrations: seq<Migration>, i: nat, o: string, p: string)
    requires migrations != []
    ensures FirstListing(migrations, i + 1, o, p) <==>
      Passed(migrations[0], o, p) && FirstListing(migrations[1..], i, o, p)
  {
    var rest := migrations[1..];
    assert forall k :: 0 <= k < |rest| ==> rest[k] == migrations[k + 1];
    if Passed(migrations[0], o, p) && FirstListing(rest, i, o, p) {
      forall j | 0 < j < i + 1 ensures Passed(migrations[j], o, p) {
        assert Passed(rest[j - 1], o, p);
      }
    }
    if FirstListing(migrations, i + 1, o, p) {
      forall j | 0 <= j < i ensures Passed(rest[j], o, p) {
        assert Passed(migrations[j + 1], o, p);
      }
    }
  }

  lemma {:induction false} FirstListingIsFound(migrations: seq<Migration>, i: int, o: string, p: string)
    requires FirstListing(migrations, i, o, p)
    ensures Search(migrations, o, p) == Some(Some(migrations[i]))
    decreases |migrations|
  {
    MigrationDeclaresIff(migrations[0], o, p);
    if i > 0 {
      FirstListingShifts(migrations, i - 1, o, p);
      FirstListingIsFound(migrations[1..], i - 1, o, p);
    }
  }

  lemma {:induction false} AllPassedFindsNothing(migrations: seq<Migration>, o: string, p: string)
    requires forall i :: 0 <= i < |migrations| ==> Passed(migrations[i], o, p)
    ensures Search(migrations, o, p) == Some(None)
  {
    if migrations != [] {
      MigrationDeclaresIff(migrations[0], o, p);
      AllPassedFindsNothing(migrations[1..], o, p);
    }
  }

  lemma {:induction false} NothingFoundMeansPassed(migrations: seq<Migration>, o: string, p: string)
    requires Search(migrations, o, p) == Some(None)
    ensures forall i :: 0 <= i < |migrations| ==> Passed(migrations[i], o, p)
  {
    if migrations != [] {
      MigrationDeclaresIff(migrations[0], o, p);
      NothingFoundMeansPassed(migrations[1..], o, p);
      forall i | 0 < i < |migrations| ensures Passed(migrations[i], o, p) {
        assert Passed(migrations[1..][i - 1], o, p);
      }
    }
  }

  lemma {:induction false} FoundIsFirstListing(migrations: seq<Migration>, o: string, p: string) returns (i: nat)
    requires Search(migrations, o, p).Some? && Search(migrations, o, p).value.Some?
    ensures FirstListing(migrations, i, o, p) && Search(migrations, o, p) == Some(Some(migrations[i]))
  {
    MigrationDeclaresIff(migrations[0], o, p);
    if Declares(migrations[0].operations.value, o, p) == Some(true) {
      i := 0;
    } else {
      var rest := FoundIsFirstListing(migrations[1..], o, p);
      FirstListingShifts(migrations, rest, o, p);
      i := rest + 1;
    }
  }

  /** The search finds the first migration that lists the property, or nothing if it passes all of them, and raises
      otherwise. */
  lemma SearchFindsFirst(migrations: seq<Migration>, o: string, p: string)
    ensures Search(migrations, o, p) == Some(None) <==>
      forall i :: 0 <= i < |migrations| ==> Passed(migrations[i], o, p)
    ensures forall m :: Search(migrations, o, p) == Some(Some(m)) <==>
      exists i :: FirstListing(migrations, i, o, p) && migrations[i] == m
  {
    if forall i :: 0 <= i < |migrations| ==> Passed(migrations[i], o, p) {
      AllPassedFindsNothing(migrations, o, p);
    }
    if Search(migrations, o, p) == Some(None) {
      NothingFoundMeansPassed(migrations, o, p);
    }
    forall i | FirstListing(migrations, i, o, p) ensures Search(migrations, o, p) == Some(Some(migrations[i])) {
      FirstListingIsFound(migrations, i, o, p);
    }
    if Search(migrations, o, p).Some? && Search(migrations, o, p).value.Some? {
      var i := FoundIsFirstListing(migrations, o, p);
    }
  }

  lemma DeclaredIff(migrations: seq<Migration>, o: string, p: string)
    ensures DeclaredMigration(migrations, o, p).Some? <==> BackfillDeclared(migrations, o, p)
    ensures forall i :: FirstListing(migrations, i, o, p) ==> DeclaredMigration(migrations, o, p) == Some(migrations[i])
  {
    if DeclaredMigration(migrations, o, p).Some? {
      var i := FoundIsFirstListing(migrations, o, p);
    }
    forall i | FirstListing(migrations, i, o, p) ensures DeclaredMigration(migrations, o, p) == Some(migrations[i]) {
      FirstListingIsFound(migrations, i, o, p);
    }
  }

  // ----- the changes, as functions of the two registries

  type Objects = map<string, map<string, Property>>

  function AddedProperty(cur: Registry, o: string, p: string): Change
    requires o in cur.objects && p in cur.objects[o]
  {
    var definition := cur.objects[o][p];
    PropertyAdded(o, p, definition.typ, definition.required, MigrationId(DeclaredMigration(cur.migrations, o, p)))
  }

  function AddedProperties(cur: Registry, o: string, names: seq<string>): seq<Change> {
    FlatMap(p => if o in cur.objects && p in cur.objects[o] then [AddedProperty(cur, o, p)] else [], names)
  }

  function RemovedProperties(o: string, names: seq<string>): seq<Change> {
    FlatMap(p => [PropertyRemoved(o, p)], names)
  }

  function Retyping(cur: Objects, prev: Objects, o: string, p: string): seq<Change> {
    if o in cur && o in prev && p in cur[o] && p in prev[o] && cur[o][p].typ != prev[o][p].typ
    then [PropertyTypeChanged(o, p, prev[o][p].typ, cur[o][p].typ)]
    else []
  }

  function RetypedProperties(cur: Objects, prev: Objects, o: string, names: seq<string>): seq<Change> {
    FlatMap(p => Retyping(cur, prev, o, p), names)
  }

  /** `_property_migration_changes` for an object both registries have. */
  function PropertyChanges(cur: Registry, prev: Registry, o: string): seq<Change>
    requires o in cur.objects && o in prev.objects
  {
    AddedProperties(cur, o, SortSet(cur.objects[o].Keys - prev.objects[o].Keys))
    + RemovedProperties(o, SortSet(prev.objects[o].Keys - cur.objects[o].Keys))
    + RetypedProperties(cur.objects, prev.objects, o, SortSet(cur.objects[o].Keys * prev.objects[o].Keys))
  }

  function AddedObjects(ids: seq<string>): seq<Change> {
    FlatMap(o => [ObjectAdded(o)], ids)
  }

  function RemovedObjects(ids: seq<string>): seq<Change> {
    FlatMap(o => [ObjectRemoved(o)], ids)
  }

  function KeptObjects(cur: Registry, prev: Registry, ids: seq<string>): seq<Change> {
    FlatMap(o => if o in cur.objects && o in prev.objects then PropertyChanges(cur, prev, o) else [], ids)
  }

  function Changes(cur: Registry, prev: Registry): seq<Change> {
    AddedObjects(SortSet(cur.objects.Keys - prev.objects.Keys))
    + RemovedObjects(SortSet(prev.objects.Keys - cur.objects.Keys))
    + KeptObjects(cur, prev, SortSet(cur.objects.Keys * prev.objects.Keys))
  }

  function BlockedActions(changes: seq<Change>): seq<RequiredAction> {
    FlatMap((c: Change) => if c.Blocked() then [RequiredAction(c.ElementId(), c.Action())] else [], changes)
  }

  function DiffPlan(cur: Registry, prev: Registry): Plan {
    var changes := Changes(cur, prev);
    var blocked := AnyBlocked(changes);
    Plan(SemanticDiff, if blocked then "blocked" else "ready", blocked, changes, BlockedActions(changes))
  }

  const BASELINE_PLAN := Plan(Baseline, "no_previous_registry", false, [], [])

  // ----- the planner's loops

  /** Looking for the property's migration, or up its identifier, raises. */
  predicate LookupRaises(cur: Registry, o: string, p: string) {
    Search(cur.migrations, o, p) == None || MigrationId(DeclaredMigration(cur.migrations, o, p)) == Some(None)
  }

  predicate AnyLookupRaises(cur: Registry, o: string, names: seq<string>) {
    exists p | p in names :: LookupRaises(cur, o, p)
  }

  lemma AnyLookupStep(cur: Registry, o: string, names: seq<string>, i: nat)
    requires i < |names|
    ensures AnyLookupRaises(cur, o, names[..i + 1]) <==>
      AnyLookupRaises(cur, o, names[..i]) || LookupRaises(cur, o, names[i])
    ensures LookupRaises(cur, o, names[i]) ==> AnyLookupRaises(cur, o, names)
  {
    assert names[..i + 1] == names[..i] + [names[i]];
  }

  /** Every property added to a kept object is looked up, required or not. */
  predicate ObjectRaises(cur: Registry, prev: Registry, o: string)
    requires o in cur.objects && o in prev.objects
  {
    exists p | p in cur.objects[o] && p !in prev.objects[o] :: LookupRaises(cur, o, p)
  }

  predicate PlanRaises(cur: Registry, prev: Registry) {
    exists o | o in cur.objects && o in prev.objects :: ObjectRaises(cur, prev, o)
  }

  method CollectAddedProperties(cur: Registry, o: string, names: seq<string>) returns (changes: Option<seq<Change>>)
    requires o in cur.objects && forall p | p in names :: p in cur.objects[o]
    ensures changes == if AnyLookupRaises(cur, o, names) then None else Some(AddedProperties(cur, o, names))
  {
    var added: seq<Change> := [];
    for i := 0 to |names|
      invariant !AnyLookupRaises(cur, o, names[..i])
      invariant added == AddedProperties(cur, o, names[..i])
    {
      AnyLookupStep(cur, o, names, i);
      if LookupRaises(cur, o, names[i]) {
        return None;
      }
      assert names[..i + 1][..i] == names[..i];
      added := added + [AddedProperty(cur, o, names[i])];
    }
    assert names[..|names|] == names;
    return Some(added);
  }

  method CollectRemovedProperties(o: string, names: seq<string>) returns (changes: seq<Change>)
    ensures changes == RemovedProperties(o, names)
  {
    changes := [];
    for i := 0 to |names|
      invariant changes == RemovedProperties(o, names[..i])
    {
      assert names[..i + 1][..i] == names[..i];
      changes := changes + [PropertyRemoved(o, names[i])];
    }
    assert names[..|names|] == names;
  }

  method CollectRetypedProperties(cur: Objects, prev: Objects, o: string, names: seq<string>)
    returns (changes: seq<Change>)
    requires o in cur && o in prev && forall p | p in names :: p in cur[o] && p in prev[o]
    ensures changes == RetypedProperties(cur, prev, o, names)
  {
    changes := [];
    for i := 0 to |names|
      invariant changes == RetypedProperties(cur, prev, o, names[..i])
    {
      assert names[..i + 1][..i] == names[..i];
      var currentType, previousType := cur[o][names[i]].typ, prev[o][names[i]].typ;
      if currentType != previousType {
        changes := changes + [PropertyTypeChanged(o, names[i], previousType, currentType)];
      }
    }
    assert names[..|names|] == names;
  }

  lemma ObjectRaisesIff(cur: Registry, prev: Registry, o: string)
    requires o in cur.objects && o in prev.objects
    ensures ObjectRaises(cur, prev, o) <==>
      AnyLookupRaises(cur, o, SortSet(cur.objects[o].Keys - prev.objects[o].Keys))
  {
    var names := SortSet(cur.objects[o].Keys - prev.objects[o].Keys);
    assert forall p :: p in names <==> p in cur.objects[o] && p !in prev.objects[o];
  }

  /** `_property_migration_changes`; `None` when it raises. */
  method PropertyMigrationChanges(cur: Registry, prev: Registry, o: string) returns (changes: Option<seq<Change>>)
    requires o in cur.objects && o in prev.objects
    ensures changes == if ObjectRaises(cur, prev, o) then None else Some(PropertyChanges(cur, prev, o))
  {
    ObjectRaisesIff(cur, prev, o);
    var added := CollectAddedProperties(cur, o, SortSet(cur.objects[o].Keys - prev.objects[o].Keys));
    if added == None {
      return None;
    }
    var removed := CollectRemovedProperties(o, SortSet(prev.objects[o].Keys - cur.objects[o].Keys));
    var retyped :=
      CollectRetypedProperties(cur.objects, prev.objects, o, SortSet(cur.objects[o].Keys * prev.objects[o].Keys));
    return Some(added.value + removed + retyped);
  }

  method CollectAddedObjects(ids: seq<string>) returns (changes: seq<Change>)
    ensures changes == AddedObjects(ids)
  {
    changes := [];
    for i := 0 to |ids|
      invariant changes == AddedObjects(ids[..i])
    {
      assert ids[..i + 1][..i] == ids[..i];
      changes := changes + [ObjectAdded(ids[i])];
    }
    assert ids[..|ids|] == ids;
  }

  method CollectRemovedObjects(ids: seq<string>) returns (changes: seq<Change>)
    ensures changes == RemovedObjects(ids)
  {
    changes := [];
    for i := 0 to |ids|
      invariant changes == RemovedObjects(ids[..i])
    {
      assert ids[..i + 1][..i] == ids[..i];
      changes := changes + [ObjectRemoved(ids[i])];
    }
    assert ids[..|ids|] == ids;
  }

  predicate AnyObjectRaises(cur: Registry, prev: Registry, ids: seq<string>)
    requires forall o | o in ids :: o in cur.objects && o in prev.objects
  {
    exists o | o in ids :: ObjectRaises(cur, prev, o)
  }

  lemma AnyObjectStep(cur: Registry, prev: Registry, ids: seq<string>, i: nat)
    requires (forall o | o in ids :: o in cur.objects && o in prev.objects) && i < |ids|
    ensures AnyObjectRaises(cur, prev, ids[..i + 1]) <==>
      AnyObjectRaises(cur, prev, ids[..i]) || ObjectRaises(cur, prev, ids[i])
    ensures ObjectRaises(cur, prev, ids[i]) ==> AnyObjectRaises(cur, prev, ids)
  {
    assert ids[..i + 1] == ids[..i] + [ids[i]];
  }

  method CollectKeptObjects(cur: Registry, prev: Registry, ids: seq<string>) returns (changes: Option<seq<Change>>)
    requires forall o | o in ids :: o in cur.objects && o in prev.objects
    ensures changes == if AnyObjectRaises(cur, prev, ids) then None else Some(KeptObjects(cur, prev, ids))
  {
    var kept: seq<Change> := [];
    for i := 0 to |ids|
      invariant !AnyObjectRaises(cur, prev, ids[..i])
      invariant kept == KeptObjects(cur, prev, ids[..i])
    {
      AnyObjectStep(cur, prev, ids, i);
      var more := PropertyMigrationChanges(cur, prev, ids[i]);
      if more == None {
        return None;
      }
      assert ids[..i + 1][..i] == ids[..i];
      kept := kept + more.value;
    }
    assert ids[..|ids|] == ids;
    return Some(kept);
  }

  predicate AnyBlocked(changes: seq<Change>) {
    exists change | change in changes :: change.Blocked()
  }

  lemma AnyBlockedStep(changes: seq<Change>, last: Change)
    ensures AnyBlocked(changes + [last]) <==> AnyBlocked(changes) || last.Blocked()
  {
    var all := changes + [last];
    if AnyBlocked(changes) {
      var change :| change in changes && change.Blocked();
      assert change in all;
    }
    assert last in all;
  }

  method CollectBlocked(changes: seq<Change>) returns (blocked: bool, actions: seq<RequiredAction>)
    ensures blocked == AnyBlocked(changes)
    ensures actions == BlockedActions(changes)
  {
    blocked, actions := false, [];
    for i := 0 to |changes|
      invariant blocked == AnyBlocked(changes[..i])
      invariant actions == BlockedActions(changes[..i])
    {
      assert changes[..i + 1][..i] == changes[..i];
      assert changes[..i + 1] == changes[..i] + [changes[i]];
      AnyBlockedStep(changes[..i], changes[i]);
      if changes[i].Blocked() {
        blocked := true;
        actions := actions + [RequiredAction(changes[i].ElementId(), changes[i].Action())];
      }
    }
    assert changes[..|changes|] == changes;
  }

  lemma PlanRaisesIff(cur: Registry, prev: Registry)
    ensures PlanRaises(cur, prev) <==> AnyObjectRaises(cur, prev, SortSet(cur.objects.Keys * prev.objects.Keys))
  {
    var ids := SortSet(cur.objects.Keys * prev.objects.Keys);
    assert forall o :: o in ids <==> o in cur.objects && o in prev.objects;
  }

  /** `_migration_plan`; `None` when it raises, which it does exactly when the search for the migration of some property
      added to a kept object meets a malformed entry, or finds a migration without an identifier. */
  method MigrationPlanOf(cur: Registry, previous: Option<Registry>) returns (plan: Option<Plan>)
    ensures plan == match previous
      case None => Some(Plan(Baseline, "no_previous_registry", false, [], []))
      case Some(prev) => if PlanRaises(cur, prev) then None else Some(DiffPlan(cur, prev))
  {
    match previous {
      case None =>
        plan := Some(BASELINE_PLAN);
      case Some(prev) =>
        PlanRaisesIff(cur, prev);
        var added := CollectAddedObjects(SortSet(cur.objects.Keys - prev.objects.Keys));
        var removed := CollectRemovedObjects(SortSet(prev.objects.Keys - cur.objects.Keys));
        var kept := CollectKeptObjects(cur, prev, SortSet(cur.objects.Keys * prev.objects.Keys));
        if kept == None {
          return None;
        }
        var changes := added + removed + kept.value;
        var blocked, actions := CollectBlocked(changes);
        plan := Some(Plan(SemanticDiff, if blocked then "blocked" else "ready", blocked, changes, actions));
    }
  }

  // ----- exactness

  /** The structural differences between two registries, one for each change the planner can list. */
  predicate IsDifference(cur: Registry, prev: Registry, change: Change) {
    match change
    case ObjectAdded(o) => o in cur.objects && o !in prev.objects
    case ObjectRemoved(o) => o in prev.objects && o !in cur.objects
    case PropertyAdded(o, p, typ, required, migration) =>
      && o in cur.objects && o in prev.objects && p in cur.objects[o] && p !in prev.objects[o]
      && typ == cur.objects[o][p].typ && required == cur.objects[o][p].required
      && migration == MigrationId(DeclaredMigration(cur.migrations, o, p))
    case PropertyRemoved(o, p) =>
      o in cur.objects && o in prev.objects && p in prev.objects[o] && p !in cur.objects[o]
    case PropertyTypeChanged(o, p, from, to) =>
      && o in cur.objects && o in prev.objects && p in cur.objects[o] && p in prev.objects[o]
      && prev.objects[o][p].typ == from && cur.objects[o][p].typ == to && from != to
  }

  lemma AddedPropertiesMembers(cur: Registry, o: string, names: seq<string>)
    requires o in cur.objects && forall p | p in names :: p in cur.objects[o]
    ensures forall c :: c in AddedProperties(cur, o, names) <==>
      c.PropertyAdded? && c.objectId == o && c.property in names && c == AddedProperty(cur, o, c.property)
    ensures Distinct(names) ==> Distinct(AddedProperties(cur, o, names))
  {
    var f := p => if o in cur.objects && p in cur.objects[o] then [AddedProperty(cur, o, p)] else [];
    forall c ensures c in AddedProperties(cur, o, names) <==> exists p :: p in names && c in f(p) {
      FlatMapMembers(f, names, c);
    }
    if Distinct(names) {
      FlatMapDistinct(f, names);
    }
  }

  lemma RemovedPropertiesMembers(o: string, names: seq<string>)
    ensures forall c :: c in RemovedProperties(o, names) <==>
      c.PropertyRemoved? && c.objectId == o && c.property in names
    ensures Distinct(names) ==> Distinct(RemovedProperties(o, names))
  {
    var f := p => [PropertyRemoved(o, p)];
    forall c ensures c in RemovedProperties(o, names) <==> exists p :: p in names && c in f(p) {
      FlatMapMembers(f, names, c);
    }
    if Distinct(names) {
      FlatMapDistinct(f, names);
    }
  }

  lemma RetypedPropertiesMembers(cur: Objects, prev: Objects, o: string, names: seq<string>)
    requires o in cur && o in prev && forall p | p in names :: p in cur[o] && p in prev[o]
    ensures forall c :: c in RetypedProperties(cur, prev, o, names) <==>
      && c.PropertyTypeChanged? && c.objectId == o && c.property in names
      && c.from == prev[o][c.property].typ && c.to == cur[o][c.property].typ && c.from != c.to
    ensures Distinct(names) ==> Distinct(RetypedProperties(cur, prev, o, names))
  {
    var f := p => Retyping(cur, prev, o, p);
    forall c ensures c in RetypedProperties(cur, prev, o, names) <==> exists p :: p in names && c in f(p) {
      FlatMapMembers(f, names, c);
    }
    if Distinct(names) {
      FlatMapDistinct(f, names);
    }
  }

  lemma DistinctThree<T>(a: seq<T>, b: seq<T>, c: seq<T>)
    requires Distinct(a) && Distinct(b) && Distinct(c)
    requires forall x :: x in a ==> x !in b && x !in c
    requires forall x :: x in b ==> x !in c
    ensures Distinct(a + b + c)
    ensures forall x :: x in a + b + c <==> x in a || x in b || x in c
  {
    DistinctConcat(a, b);
    DistinctConcat(a + b, c);
  }

  /** The differences of one kind within one kept object. */
  predicate DifferenceWithin(cur: Registry, prev: Registry, o: string, change: Change) {
    IsDifference(cur, prev, change) && !change.ObjectAdded? && !change.ObjectRemoved? && change.objectId == o
  }

  lemma AddedPropertiesExact(cur: Registry, prev: Registry, o: string)
    requires o in cur.objects && o in prev.objects
    ensures var added := AddedProperties(cur, o, SortSet(cur.objects[o].Keys - prev.objects[o].Keys));
      Distinct(added) && forall c :: c in added <==> c.PropertyAdded? && DifferenceWithin(cur, prev, o, c)
  {
    AddedPropertiesMembers(cur, o, SortSet(cur.objects[o].Keys - prev.objects[o].Keys));
  }

  lemma RemovedPropertiesExact(cur: Registry, prev: Registry, o: string)
    requires o in cur.objects && o in prev.objects
    ensures var removed := RemovedProperties(o, SortSet(prev.objects[o].Keys - cur.objects[o].Keys));
      Distinct(removed) && forall c :: c in removed <==> c.PropertyRemoved? && DifferenceWithin(cur, prev, o, c)
  {
    RemovedPropertiesMembers(o, SortSet(prev.objects[o].Keys - cur.objects[o].Keys));
  }

  lemma RetypedPropertiesExact(cur: Registry, prev: Registry, o: string)
    requires o in cur.objects && o in prev.objects
    ensures var names := SortSet(cur.objects[o].Keys * prev.objects[o].Keys);
      var retyped := RetypedProperties(cur.objects, prev.objects, o, names);
      Distinct(retyped) && forall c :: c in retyped <==> c.PropertyTypeChanged? && DifferenceWithin(cur, prev, o, c)
  {
    RetypedPropertiesMembers(cur.objects, prev.objects, o, SortSet(cur.objects[o].Keys * prev.objects[o].Keys));
  }

  lemma PropertyChangesExact(cur: Registry, prev: Registry, o: string)
    requires o in cur.objects && o in prev.objects
    ensures forall c :: c in PropertyChanges(cur, prev, o) <==> DifferenceWithin(cur, prev, o, c)
    ensures Distinct(PropertyChanges(cur, prev, o))
  {
    AddedPropertiesExact(cur, prev, o);
    RemovedPropertiesExact(cur, prev, o);
    RetypedPropertiesExact(cur, prev, o);
    DistinctThree(
      AddedProperties(cur, o, SortSet(cur.objects[o].Keys - prev.objects[o].Keys)),
      RemovedProperties(o, SortSet(prev.objects[o].Keys - cur.objects[o].Keys)),
      RetypedProperties(cur.objects, prev.objects, o, SortSet(cur.objects[o].Keys * prev.objects[o].Keys)));
  }

  lemma KeptObjectsMembers(cur: Registry, prev: Registry, ids: seq<string>)
    requires forall o | o in ids :: o in cur.objects && o in prev.objects
    ensures forall c :: c in KeptObjects(cur, prev, ids) <==>
      IsDifference(cur, prev, c) && !c.ObjectAdded? && !c.ObjectRemoved? && c.objectId in ids
  {
    var f := o => if o in cur.objects && o in prev.objects then PropertyChanges(cur, prev, o) else [];
    forall o | o in ids ensures forall c :: c in f(o) <==> DifferenceWithin(cur, prev, o, c) {
      PropertyChangesExact(cur, prev, o);
    }
    forall c ensures c in KeptObjects(cur, prev, ids) <==> exists o :: o in ids && c in f(o) {
      FlatMapMembers(f, ids, c);
    }
  }

  lemma KeptObjectsExact(cur: Registry, prev: Registry, ids: seq<string>)
    requires forall o | o in ids :: o in cur.objects && o in prev.objects
    ensures forall c :: c in KeptObjects(cur, prev, ids) <==>
      IsDifference(cur, prev, c) && !c.ObjectAdded? && !c.ObjectRemoved? && c.objectId in ids
    ensures Distinct(ids) ==> Distinct(KeptObjects(cur, prev, ids))
  {
    KeptObjectsMembers(cur, prev, ids);
    if Distinct(ids) {
      KeptObjectsDistinct(cur, prev, ids);
    }
  }

  lemma KeptObjectsDistinct(cur: Registry, prev: Registry, ids: seq<string>)
    requires Distinct(ids) && forall o | o in ids :: o in cur.objects && o in prev.objects
    ensures Distinct(KeptObjects(cur, prev, ids))
  {
    var f := o => if o in cur.objects && o in prev.objects then PropertyChanges(cur, prev, o) else [];
    forall o | o in ids ensures Distinct(f(o)) && forall c :: c in f(o) ==> c.objectId == o {
      PropertyChangesExact(cur, prev, o);
    }
    FlatMapDistinct(f, ids);
  }

  lemma AddedObjectsMembers(ids: seq<string>)
    ensures forall c :: c in AddedObjects(ids) <==> c.ObjectAdded? && c.objectId in ids
    ensures Distinct(ids) ==> Distinct(AddedObjects(ids))
  {
    var f := o => [ObjectAdded(o)];
    forall c ensures c in AddedObjects(ids) <==> exists o :: o in ids && c in f(o) {
      FlatMapMembers(f, ids, c);
    }
    if Distinct(ids) {
      FlatMapDistinct(f, ids);
    }
  }

  lemma RemovedObjectsMembers(ids: seq<string>)
    ensures forall c :: c in RemovedObjects(ids) <==> c.ObjectRemoved? && c.objectId in ids
    ensures Distinct(ids) ==> Distinct(RemovedObjects(ids))
  {
    var f := o => [ObjectRemoved(o)];
    forall c ensures c in RemovedObjects(ids) <==> exists o :: o in ids && c in f(o) {
      FlatMapMembers(f, ids, c);
    }
    if Distinct(ids) {
      FlatMapDistinct(f, ids);
    }
  }

  lemma AddedObjectsExact(cur: Registry, prev: Registry)
    ensures var added := AddedObjects(SortSet(cur.objects.Keys - prev.objects.Keys));
      Distinct(added) && forall c :: c in added <==> c.ObjectAdded? && IsDifference(cur, prev, c)
  {
    AddedObjectsMembers(SortSet(cur.objects.Keys - prev.objects.Keys));
  }

  lemma RemovedObjectsExact(cur: Registry, prev: Registry)
    ensures var removed := RemovedObjects(SortSet(prev.objects.Keys - cur.objects.Keys));
      Distinct(removed) && forall c :: c in removed <==> c.ObjectRemoved? && IsDifference(cur, prev, c)
  {
    RemovedObjectsMembers(SortSet(prev.objects.Keys - cur.objects.Keys));
  }

  lemma KeptObjectsAllExact(cur: Registry, prev: Registry)
    ensures var kept := KeptObjects(cur, prev, SortSet(cur.objects.Keys * prev.objects.Keys));
      Distinct(kept) && forall c :: c in kept <==> !c.ObjectAdded? && !c.ObjectRemoved? && IsDifference(cur, prev, c)
  {
    var ids := SortSet(cur.objects.Keys * prev.objects.Keys);
    KeptObjectsExact(cur, prev, ids);
    forall c | IsDifference(cur, prev, c) && !c.ObjectAdded? && !c.ObjectRemoved? ensures c.objectId in ids {
      DifferenceIsInKept(cur, prev, c);
    }
  }

  lemma DifferenceIsInKept(cur: Registry, prev: Registry, c: Change)
    requires IsDifference(cur, prev, c) && !c.ObjectAdded? && !c.ObjectRemoved?
    ensures c.objectId in cur.objects && c.objectId in prev.objects
  {
  }

  /** The plan lists every structural difference, nothing else, and nothing twice. */
  lemma ChangesExact(cur: Registry, prev: Registry)
    ensures forall c :: c in Changes(cur, prev) <==> IsDifference(cur, prev, c)
    ensures Distinct(Changes(cur, prev))
  {
    AddedObjectsExact(cur, prev);
    RemovedObjectsExact(cur, prev);
    KeptObjectsAllExact(cur, prev);
    DistinctThree(
      AddedObjects(SortSet(cur.objects.Keys - prev.objects.Keys)),
      RemovedObjects(SortSet(prev.objects.Keys - cur.objects.Keys)),
      KeptObjects(cur, prev, SortSet(cur.objects.Keys * prev.objects.Keys)));
  }

  /** Same objects, same properties, same types: `required`, `unique` and enumeration values are not compared. */
  predicate SameStructure(a: Registry, b: Registry) {
    && a.objects.Keys == b.objects.Keys
    && forall o | o in a.objects ::
         && a.objects[o].Keys == b.objects[o].Keys
         && forall p | p in a.objects[o] :: a.objects[o][p].typ == b.objects[o][p].typ
  }

  lemma NoDifferenceMeansSameStructure(cur: Registry, prev: Registry)
    requires forall c :: !IsDifference(cur, prev, c)
    ensures SameStructure(cur, prev)
  {
    forall o ensures o in cur.objects <==> o in prev.objects {
      assert !IsDifference(cur, prev, ObjectAdded(o)) && !IsDifference(cur, prev, ObjectRemoved(o));
    }
    forall o | o in cur.objects ensures cur.objects[o].Keys == prev.objects[o].Keys {
      forall p ensures p in cur.objects[o] <==> p in prev.objects[o] {
        assert !IsDifference(cur, prev, PropertyRemoved(o, p));
        if p in cur.objects[o] {
          assert !IsDifference(cur, prev, AddedProperty(cur, o, p));
        }
      }
    }
    forall o, p | o in cur.objects && p in cur.objects[o] ensures cur.objects[o][p].typ == prev.objects[o][p].typ {
      assert !IsDifference(cur, prev, PropertyTypeChanged(o, p, prev.objects[o][p].typ, cur.objects[o][p].typ));
    }
  }

  lemma SameStructureMeansNoDifference(cur: Registry, prev: Registry, c: Change)
    requires SameStructure(cur, prev)
    ensures !IsDifference(cur, prev, c)
  {
  }

  lemma NoChangesIffSameStructure(cur: Registry, prev: Registry)
    ensures Changes(cur, prev) == [] <==> SameStructure(cur, prev)
  {
    ChangesExact(cur, prev);
    var changes := Changes(cur, prev);
    if changes == [] {
      forall c ensures !IsDifference(cur, prev, c) {
        assert c !in changes;
      }
      NoDifferenceMeansSameStructure(cur, prev);
    } else {
      assert changes[0] in changes;
      if SameStructure(cur, prev) {
        SameStructureMeansNoDifference(cur, prev, changes[0]);
      }
    }
  }

  /** No object or property is gone, no property has another type, and each required one that is new on a kept object
      has a backfill that a migration declares for this property of this object. */
  ghost predicate Ready(cur: Registry, prev: Registry) {
    && prev.objects.Keys <= cur.objects.Keys
    && (forall o :: o in prev.objects ==> ObjectReady(cur, prev, o))
  }

  ghost predicate ObjectReady(cur: Registry, prev: Registry, o: string)
    requires o in prev.objects && o in cur.objects
  {
    && prev.objects[o].Keys <= cur.objects[o].Keys
    && (forall p :: p in prev.objects[o] ==> cur.objects[o][p].typ == prev.objects[o][p].typ)
    && (forall p :: p in cur.objects[o] && p !in prev.objects[o] && cur.objects[o][p].required ==>
          BackfillDeclared(cur.migrations, o, p))
  }

  lemma UnblockedMeansReady(cur: Registry, prev: Registry)
    requires forall c :: IsDifference(cur, prev, c) ==> !c.Blocked()
    ensures Ready(cur, prev)
  {
    forall o | o in prev.objects ensures o in cur.objects {
      assert !IsDifference(cur, prev, ObjectRemoved(o));
    }
    forall o | o in prev.objects ensures ObjectReady(cur, prev, o) {
      forall p | p in prev.objects[o] ensures p in cur.objects[o] && cur.objects[o][p].typ == prev.objects[o][p].typ {
        assert !IsDifference(cur, prev, PropertyRemoved(o, p));
        assert !IsDifference(cur, prev, PropertyTypeChanged(o, p, prev.objects[o][p].typ, cur.objects[o][p].typ));
      }
      forall p | p in cur.objects[o] && p !in prev.objects[o] && cur.objects[o][p].required
        ensures BackfillDeclared(cur.migrations, o, p)
      {
        assert IsDifference(cur, prev, AddedProperty(cur, o, p));
        DeclaredIff(cur.migrations, o, p);
      }
    }
  }

  lemma ReadyMeansUnblocked(cur: Registry, prev: Registry, c: Change)
    requires Ready(cur, prev) && IsDifference(cur, prev, c)
    ensures !c.Blocked()
  {
    if !c.ObjectAdded? && !c.ObjectRemoved? {
      assert ObjectReady(cur, prev, c.objectId);
    }
    if c.PropertyAdded? {
      DeclaredIff(cur.migrations, c.objectId, c.property);
    }
  }

  lemma BlockedIffNotReady(cur: Registry, prev: Registry)
    ensures DiffPlan(cur, prev).blocked <==> !Ready(cur, prev)
  {
    ChangesExact(cur, prev);
    var changes := Changes(cur, prev);
    if Ready(cur, prev) {
      forall c | c in changes ensures !c.Blocked() {
        ReadyMeansUnblocked(cur, prev, c);
      }
    } else {
      if forall c | c in changes :: !c.Blocked() {
        UnblockedMeansReady(cur, prev);
      }
    }
  }

  /** A ready plan with any change at all cannot be undone by a ready plan. */
  lemma ReversePlanIsBlocked(cur: Registry, prev: Registry)
    requires !DiffPlan(cur, prev).blocked && DiffPlan(cur, prev).changes != []
    ensures DiffPlan(prev, cur).blocked
  {
    BlockedIffNotReady(cur, prev);
    BlockedIffNotReady(prev, cur);
    NoChangesIffSameStructure(cur, prev);
    if Ready(prev, cur) {
      BothReadyMeansSameStructure(cur, prev);
    }
  }

  lemma BothReadyMeansSameStructure(cur: Registry, prev: Registry)
    requires Ready(cur, prev) && Ready(prev, cur)
    ensures SameStructure(cur, prev)
  {
    forall o | o in cur.objects
      ensures cur.objects[o].Keys == prev.objects[o].Keys
      ensures forall p | p in cur.objects[o] :: cur.objects[o][p].typ == prev.objects[o][p].typ
    {
      assert ObjectReady(cur, prev, o) && ObjectReady(prev, cur, o);
    }
  }

  /** Two ready hops are one ready hop, if the last registry declares the backfills for both. */
  lemma ReadyComposes(prev: Registry, mid: Registry, cur: Registry)
    requires !DiffPlan(mid, prev).blocked && !DiffPlan(cur, mid).blocked
    requires forall o, p | o in prev.objects && o in cur.objects && p in cur.objects[o] && p !in prev.objects[o] ::
      cur.objects[o][p].required ==> BackfillDeclared(cur.migrations, o, p)
    ensures !DiffPlan(cur, prev).blocked
  {
    BlockedIffNotReady(mid, prev);
    BlockedIffNotReady(cur, mid);
    BlockedIffNotReady(cur, prev);
    forall o | o in prev.objects ensures ObjectReady(cur, prev, o) {
      assert ObjectReady(mid, prev, o) && ObjectReady(cur, mid, o);
    }
  }
}
