/** What a migration plan says, in terms of the two registries. */
module PlanMeaning {
  import opened Ordering
  import opened Values
  import opened Registry
  import opened MigrationPlan

  // ----- what changed between the registries

  predicate ObjectGone(cur: Registry, prev: Registry, o: string) {
    o in prev.objects && o !in cur.objects
  }

  predicate PropertyGone(cur: Registry, prev: Registry, o: string, p: string) {
    o in prev.objects && o in cur.objects && p in prev.objects[o] && p !in cur.objects[o]
  }

  predicate PropertyRetyped(cur: Registry, prev: Registry, o: string, p: string) {
    && o in prev.objects && o in cur.objects && p in prev.objects[o] && p in cur.objects[o]
    && prev.objects[o][p].typ != cur.objects[o][p].typ
  }

  predicate PropertyNew(cur: Registry, prev: Registry, o: string, p: string) {
    o in prev.objects && o in cur.objects && p in cur.objects[o] && p !in prev.objects[o]
  }

  /** A required property is new on a kept object, and no migration declares a backfill for it. */
  ghost predicate Undeclared(cur: Registry, prev: Registry, o: string, p: string) {
    PropertyNew(cur, prev, o, p) && cur.objects[o][p].required && !BackfillDeclared(cur.migrations, o, p)
  }

  lemma BlockedChangeIff(cur: Registry, prev: Registry, c: Change)
    requires IsDifference(cur, prev, c)
    ensures c.Blocked() <==> match c
      case ObjectAdded(_) => false
      case PropertyAdded(o, p, _, _, _) => Undeclared(cur, prev, o, p)
      case _ => true
  {
    if c.PropertyAdded? {
      DeclaredIff(cur.migrations, c.objectId, c.property);
    }
  }

  // ----- what each entry says

  /** The entry of a new property carries its type and flag, and the identifier of the first migration that declares a
      backfill for it, if one does. */
  lemma AddedEntry(cur: Registry, prev: Registry, c: Change)
    requires c in DiffPlan(cur, prev).changes && c.PropertyAdded?
    ensures PropertyNew(cur, prev, c.objectId, c.property)
    ensures c.typ == cur.objects[c.objectId][c.property].typ
    ensures c.required == cur.objects[c.objectId][c.property].required
    ensures c.migration == None <==> !BackfillDeclared(cur.migrations, c.objectId, c.property)
    ensures forall i :: FirstListing(cur.migrations, i, c.objectId, c.property) ==>
      c.migration == Some(cur.migrations[i].id)
  {
    ChangesExact(cur, prev);
    DeclaredIff(cur.migrations, c.objectId, c.property);
  }

  /** The words of the entry of a new property: what becomes of it depends on its flag and on a declared backfill. */
  lemma AddedEntryWords(cur: Registry, prev: Registry, c: Change)
    requires c in DiffPlan(cur, prev).changes && c.PropertyAdded?
    ensures PropertyNew(cur, prev, c.objectId, c.property) && c.ElementId() == c.objectId + ".property." + c.property
    ensures var required := cur.objects[c.objectId][c.property].required;
      var declared := BackfillDeclared(cur.migrations, c.objectId, c.property);
      && (c.Blocked() <==> required && !declared)
      && c.Classification() ==
           (if !required then "additive" else if declared then "breaking_with_backfill" else "manual_review")
      && c.Action() == (if !required || declared then "add_column" else "declare_backfill")
  {
    AddedEntry(cur, prev, c);
  }

  /** And those of every other entry. */
  lemma OtherEntryWords(cur: Registry, prev: Registry, c: Change)
    requires c in DiffPlan(cur, prev).changes && !c.PropertyAdded?
    ensures c.Blocked() <==> !c.ObjectAdded?
    ensures c.Action() == if c.ObjectAdded? then "create_table" else "manual_review"
    ensures c.Classification() ==
      if c.ObjectAdded? then "additive" else if c.PropertyTypeChanged? then "breaking" else "destructive"
    ensures c.ElementId() ==
      if c.ObjectAdded? || c.ObjectRemoved? then c.objectId else c.objectId + ".property." + c.property
  {
  }

  lemma StatusIff(cur: Registry, prev: Registry)
    ensures var plan := DiffPlan(cur, prev);
      plan.mode == SemanticDiff && plan.status == if Ready(cur, prev) then "ready" else "blocked"
  {
    BlockedIffNotReady(cur, prev);
  }

  // ----- the actions asked for

  lemma {:induction false} ActionsOfBlocked(changes: seq<Change>)
    ensures forall a :: a in BlockedActions(changes) <==>
      exists c :: c in changes && c.Blocked() && a == RequiredAction(c.ElementId(), c.Action())
  {
    var f := (c: Change) => if c.Blocked() then [RequiredAction(c.ElementId(), c.Action())] else [];
    forall a ensures a in BlockedActions(changes) <==> exists c :: c in changes && a in f(c) {
      FlatMapMembers(f, changes, a);
    }
  }

  lemma ActionOf(cur: Registry, prev: Registry, c: Change)
    requires IsDifference(cur, prev, c) && c.Blocked()
    ensures RequiredAction(c.ElementId(), c.Action()) in DiffPlan(cur, prev).requiredActions
  {
    ChangesExact(cur, prev);
    ActionsOfBlocked(Changes(cur, prev));
  }

  /** What the registries make an action for: a review of each object and property that is gone and of each other type,
      a backfill for each undeclared addition. */
  ghost predicate Asked(cur: Registry, prev: Registry, a: RequiredAction) {
    || (exists o :: ObjectGone(cur, prev, o) && a == RequiredAction(o, "manual_review"))
    || (exists o, p :: PropertyGone(cur, prev, o, p) && a == RequiredAction(o + ".property." + p, "manual_review"))
    || (exists o, p :: PropertyRetyped(cur, prev, o, p) && a == RequiredAction(o + ".property." + p, "manual_review"))
    || (exists o, p :: Undeclared(cur, prev, o, p) && a == RequiredAction(o + ".property." + p, "declare_backfill"))
  }

  lemma ListedIsAsked(cur: Registry, prev: Registry, c: Change)
    requires IsDifference(cur, prev, c) && c.Blocked()
    ensures Asked(cur, prev, RequiredAction(c.ElementId(), c.Action()))
  {
    BlockedChangeIff(cur, prev, c);
    match c {
      case ObjectAdded(_) =>
      case ObjectRemoved(o) =>
        assert ObjectGone(cur, prev, o);
      case PropertyAdded(o, p, _, _, _) =>
        assert Undeclared(cur, prev, o, p);
      case PropertyRemoved(o, p) =>
        assert PropertyGone(cur, prev, o, p);
      case PropertyTypeChanged(o, p, _, _) =>
        assert PropertyRetyped(cur, prev, o, p);
    }
  }

  lemma UndeclaredIsListed(cur: Registry, prev: Registry, o: string, p: string)
    requires Undeclared(cur, prev, o, p)
    ensures RequiredAction(o + ".property." + p, "declare_backfill") in DiffPlan(cur, prev).requiredActions
  {
    var c := AddedProperty(cur, o, p);
    BlockedChangeIff(cur, prev, c);
    ActionOf(cur, prev, c);
  }

  lemma AskedIsListed(cur: Registry, prev: Registry, a: RequiredAction)
    requires Asked(cur, prev, a)
    ensures a in DiffPlan(cur, prev).requiredActions
  {
    if o :| ObjectGone(cur, prev, o) && a == RequiredAction(o, "manual_review") {
      ActionOf(cur, prev, ObjectRemoved(o));
    } else if o, p :| PropertyGone(cur, prev, o, p) && a == RequiredAction(o + ".property." + p, "manual_review") {
      ActionOf(cur, prev, PropertyRemoved(o, p));
    } else if o, p :| PropertyRetyped(cur, prev, o, p) && a == RequiredAction(o + ".property." + p, "manual_review") {
      ActionOf(cur, prev, PropertyTypeChanged(o, p, prev.objects[o][p].typ, cur.objects[o][p].typ));
    } else {
      var o, p :| Undeclared(cur, prev, o, p) && a == RequiredAction(o + ".property." + p, "declare_backfill");
      UndeclaredIsListed(cur, prev, o, p);
    }
  }

  /** The plan asks for exactly these actions. */
  lemma RequiredActionsIff(cur: Registry, prev: Registry, a: RequiredAction)
    ensures a in DiffPlan(cur, prev).requiredActions <==> Asked(cur, prev, a)
  {
    if a in DiffPlan(cur, prev).requiredActions {
      ChangesExact(cur, prev);
      ActionsOfBlocked(Changes(cur, prev));
      var c :| c in Changes(cur, prev) && c.Blocked() && a == RequiredAction(c.ElementId(), c.Action());
      ListedIsAsked(cur, prev, c);
    }
    if Asked(cur, prev, a) {
      AskedIsListed(cur, prev, a);
    }
  }

  // ----- the order of the plan

  predicate StrLt(a: string, b: string) {
    a != b && StrLe(a, b)
  }

  function Group(c: Change): nat {
    if c.ObjectAdded? then 0 else if c.ObjectRemoved? then 1 else 2
  }

  function Kind(c: Change): nat {
    if c.PropertyAdded? then 0 else if c.PropertyRemoved? then 1 else 2
  }

  /** New objects first, then those gone, then kept ones; by name; within a kept one additions, removals and other
      types, each by name. */
  predicate Precedes(c: Change, d: Change) {
    || Group(c) < Group(d)
    || (Group(c) == Group(d) && StrLt(c.objectId, d.objectId))
    || (Group(c) == Group(d) == 2 && c.objectId == d.objectId && Kind(c) < Kind(d))
    || (Group(c) == Group(d) == 2 && c.objectId == d.objectId && Kind(c) == Kind(d) && StrLt(c.property, d.property))
  }

  lemma {:induction false} FlatMapSorted<A, B>(before: (B, B) -> bool, f: A -> seq<B>, s: seq<A>)
    requires forall i :: 0 <= i < |s| ==> SortedBy(before, f(s[i]))
    requires forall i, j, b, c :: 0 <= i < j < |s| && b in f(s[i]) && c in f(s[j]) ==> before(b, c)
    ensures SortedBy(before, FlatMap(f, s))
  {
    if s != [] {
      var init, last := s[..|s| - 1], s[|s| - 1];
      FlatMapSorted(before, f, init);
      forall b, c | b in FlatMap(f, init) && c in f(last) ensures before(b, c) {
        FlatMapMembers(f, init, b);
        var x :| x in init && b in f(x);
        var i :| 0 <= i < |init| && init[i] == x;
        assert b in f(s[i]) && c in f(s[|init|]);
      }
      ConcatSorted(before, FlatMap(f, init), f(last));
    }
  }

  lemma ConcatSorted<B>(before: (B, B) -> bool, a: seq<B>, b: seq<B>)
    requires SortedBy(before, a) && SortedBy(before, b)
    requires forall x, y :: x in a && y in b ==> before(x, y)
    ensures SortedBy(before, a + b)
  {
  }

  lemma StrictlySorted(names: seq<string>, s: set<string>)
    requires names == SortSet(s)
    ensures forall i, j :: 0 <= i < j < |names| ==> StrLt(names[i], names[j])
  {
    SortSetSorts(s);
  }

  lemma SinglesSorted(f: string -> seq<Change>, names: seq<string>, s: set<string>)
    requires names == SortSet(s)
    requires forall x :: x in names ==> |f(x)| <= 1
    requires forall x, y, c, d :: x in names && y in names && StrLt(x, y) && c in f(x) && d in f(y) ==> Precedes(c, d)
    ensures SortedBy(Precedes, FlatMap(f, names))
  {
    StrictlySorted(names, s);
    forall i, j, b, c | 0 <= i < j < |names| && b in f(names[i]) && c in f(names[j]) ensures Precedes(b, c) {
      assert names[i] in names && names[j] in names;
    }
    forall i | 0 <= i < |names| ensures SortedBy(Precedes, f(names[i])) {
      assert names[i] in names;
    }
    FlatMapSorted(Precedes, f, names);
  }

  lemma ObjectsSorted(ids: seq<string>, s: set<string>)
    requires ids == SortSet(s)
    ensures SortedBy(Precedes, AddedObjects(ids)) && SortedBy(Precedes, RemovedObjects(ids))
  {
    SinglesSorted(o => [ObjectAdded(o)], ids, s);
    SinglesSorted(o => [ObjectRemoved(o)], ids, s);
  }

  lemma AdditionsSorted(cur: Registry, o: string, names: seq<string>, s: set<string>)
    requires names == SortSet(s)
    ensures SortedBy(Precedes, AddedProperties(cur, o, names))
  {
    SinglesSorted(p => if o in cur.objects && p in cur.objects[o] then [AddedProperty(cur, o, p)] else [], names, s);
  }

  lemma RemovalsSorted(o: string, names: seq<string>, s: set<string>)
    requires names == SortSet(s)
    ensures SortedBy(Precedes, RemovedProperties(o, names))
  {
    SinglesSorted(p => [PropertyRemoved(o, p)], names, s);
  }

  lemma RetypingsSorted(cur: Objects, prev: Objects, o: string, names: seq<string>, s: set<string>)
    requires names == SortSet(s)
    ensures SortedBy(Precedes, RetypedProperties(cur, prev, o, names))
  {
    SinglesSorted(p => Retyping(cur, prev, o, p), names, s);
  }

  lemma OneObjectSorted(cur: Registry, prev: Registry, o: string)
    requires o in cur.objects && o in prev.objects
    ensures SortedBy(Precedes, PropertyChanges(cur, prev, o))
  {
    var added, removed, kept := cur.objects[o].Keys - prev.objects[o].Keys, prev.objects[o].Keys - cur.objects[o].Keys,
      cur.objects[o].Keys * prev.objects[o].Keys;
    AdditionsSorted(cur, o, SortSet(added), added);
    RemovalsSorted(o, SortSet(removed), removed);
    RetypingsSorted(cur.objects, prev.objects, o, SortSet(kept), kept);
    AddedPropertiesExact(cur, prev, o);
    RemovedPropertiesExact(cur, prev, o);
    RetypedPropertiesExact(cur, prev, o);
    var a, r, t := AddedProperties(cur, o, SortSet(added)), RemovedProperties(o, SortSet(removed)),
      RetypedProperties(cur.objects, prev.objects, o, SortSet(kept));
    KindsSorted(o, a, r, t);
  }

  lemma KindsSorted(o: string, a: seq<Change>, r: seq<Change>, t: seq<Change>)
    requires SortedBy(Precedes, a) && SortedBy(Precedes, r) && SortedBy(Precedes, t)
    requires forall c :: c in a ==> c.PropertyAdded? && c.objectId == o
    requires forall c :: c in r ==> c.PropertyRemoved? && c.objectId == o
    requires forall c :: c in t ==> c.PropertyTypeChanged? && c.objectId == o
    ensures SortedBy(Precedes, a + r + t)
  {
    ConcatSorted(Precedes, a, r);
    ConcatSorted(Precedes, a + r, t);
  }

  lemma KeptSorted(cur: Registry, prev: Registry, ids: seq<string>, s: set<string>)
    requires ids == SortSet(s) && forall o | o in ids :: o in cur.objects && o in prev.objects
    ensures SortedBy(Precedes, KeptObjects(cur, prev, ids))
  {
    var f := o => if o in cur.objects && o in prev.objects then PropertyChanges(cur, prev, o) else [];
    StrictlySorted(ids, s);
    forall i | 0 <= i < |ids|
      ensures SortedBy(Precedes, f(ids[i])) && forall c :: c in f(ids[i]) ==> Group(c) == 2 && c.objectId == ids[i]
    {
      assert ids[i] in ids;
      OneObjectSorted(cur, prev, ids[i]);
      PropertyChangesExact(cur, prev, ids[i]);
    }
    forall i, j, b, c | 0 <= i < j < |ids| && b in f(ids[i]) && c in f(ids[j]) ensures Precedes(b, c) {
    }
    FlatMapSorted(Precedes, f, ids);
  }

  /** The plan is in strict order, which with the differences it lists determines it. */
  lemma PlanInOrder(cur: Registry, prev: Registry)
    ensures SortedBy(Precedes, DiffPlan(cur, prev).changes)
  {
    var added, gone, kept := cur.objects.Keys - prev.objects.Keys, prev.objects.Keys - cur.objects.Keys,
      cur.objects.Keys * prev.objects.Keys;
    ObjectsSorted(SortSet(added), added);
    ObjectsSorted(SortSet(gone), gone);
    KeptSorted(cur, prev, SortSet(kept), kept);
    AddedObjectsMembers(SortSet(added));
    RemovedObjectsMembers(SortSet(gone));
    KeptObjectsMembers(cur, prev, SortSet(kept));
    GroupsSorted(AddedObjects(SortSet(added)), RemovedObjects(SortSet(gone)), KeptObjects(cur, prev, SortSet(kept)));
  }

  lemma GroupsSorted(a: seq<Change>, r: seq<Change>, k: seq<Change>)
    requires SortedBy(Precedes, a) && SortedBy(Precedes, r) && SortedBy(Precedes, k)
    requires forall c :: c in a ==> c.ObjectAdded?
    requires forall c :: c in r ==> c.ObjectRemoved?
    requires forall c :: c in k ==> !c.ObjectAdded? && !c.ObjectRemoved?
    ensures SortedBy(Precedes, a + r + k)
  {
    ConcatSorted(Precedes, a, r);
    ConcatSorted(Precedes, a + r, k);
  }
}
