/** `_validate_registry`, tools/semantic_platform_generate.py: its loops, and what a registry that passes them has. */
module RegistryValidation {
  import opened Values
  import opened Ordering
  import opened Registry

  /** What the validator raises about. The first name is that of the entry, the last that of what is unknown. */
  datatype Problem =
    | UnknownReference(objectId: string, property: string, referenced: string)
    | UnknownType(objectId: string, property: string, typ: string)
    | UnknownSubject(behavior: string, subject: string)
    | UnknownStateProperty(behavior: string, property: string)
    | UnknownTransition(behavior: string, transition: string)
    | UnknownBehavior(transition: string, behavior: string)
    | UnknownState(transition: string, state: string)
    | UnknownCommand(transition: string, command: string)
    | UnknownEvent(transition: string, event: string)
    | UnknownPermission(transition: string, permission: string)

  /** `Reference<x>`; the last bracket may be missing. */
  predicate IsReferenceTo(typ: string, x: string) {
    typ == "Reference<" + x + ">" || (typ == "Reference<" + x && (x == "" || x[|x| - 1] != '>'))
  }

  /** The registry does have the problem. */
  ghost predicate IsProblem(reg: Registry, d: Problem) {
    match d
    case UnknownReference(o, p, x) =>
      o in reg.objects && p in reg.objects[o] && IsReferenceTo(reg.objects[o][p].typ, x) && x !in reg.objects
    case UnknownType(o, p, typ) =>
      && o in reg.objects && p in reg.objects[o] && reg.objects[o][p].typ == typ
      && (forall x :: !IsReferenceTo(typ, x))
      && typ != "String" && typ != "Text" && typ != "Boolean" && typ != "Timestamp" && typ !in reg.types
    case UnknownSubject(b, o) => b in reg.behaviors && reg.behaviors[b].subject == o && o !in reg.objects
    case UnknownStateProperty(b, p) =>
      && b in reg.behaviors && reg.behaviors[b].subject in reg.objects
      && reg.behaviors[b].stateProperty == p && p !in reg.objects[reg.behaviors[b].subject]
    case UnknownTransition(b, t) => b in reg.behaviors && t in reg.behaviors[b].transitions && t !in reg.transitions
    case UnknownBehavior(t, b) => t in reg.transitions && reg.transitions[t].behavior == b && b !in reg.behaviors
    case UnknownState(t, s) =>
      && t in reg.transitions && reg.transitions[t].behavior in reg.behaviors
      && (s in reg.transitions[t].from || s == reg.transitions[t].to)
      && s !in reg.behaviors[reg.transitions[t].behavior].states
    case UnknownCommand(t, c) => t in reg.transitions && reg.transitions[t].command == c && c !in reg.commands
    case UnknownEvent(t, e) => t in reg.transitions && e in reg.transitions[t].emits && e !in reg.events
    case UnknownPermission(t, p) => t in reg.transitions && p in reg.transitions[t].permissions && p !in reg.permissions
  }

  // ----- the loops, over the entries in whatever order the document has them

  lemma ReferencedIs(typ: string, x: string)
    ensures IsReferenceTo(typ, x) <==> IsReference(typ) && Referenced(typ) == x
  {
    var prefix := "Reference<";
    if typ == prefix + x + ">" {
      assert typ == prefix + (x + ">");
      assert typ[|prefix|..] == x + ">";
    } else if typ == prefix + x {
      assert typ[|prefix|..] == x;
    }
    if IsReference(typ) {
      assert typ == prefix + typ[|prefix|..];
      var rest := typ[|prefix|..];
      if rest != "" && rest[|rest| - 1] == '>' {
        assert rest == rest[..|rest| - 1] + ">";
        assert typ == prefix + Referenced(typ) + ">";
      }
    }
  }

  lemma NoReferenceIff(typ: string)
    ensures (forall x :: !IsReferenceTo(typ, x)) <==> !IsReference(typ)
  {
    forall x ensures IsReferenceTo(typ, x) <==> IsReference(typ) && Referenced(typ) == x { ReferencedIs(typ, x); }
    if IsReference(typ) {
      assert IsReferenceTo(typ, Referenced(typ));
    }
  }

  method CheckProperties(reg: Registry, o: string, names: seq<string>) returns (problem: Option<Problem>)
    requires o in reg.objects && forall p :: p in names ==> p in reg.objects[o]
    ensures problem == None <==> forall p :: p in names ==> KnownType(reg, reg.objects[o][p].typ)
    ensures problem.Some? ==> IsProblem(reg, problem.value)
  {
    for i := 0 to |names|
      invariant forall p :: p in names[..i] ==> KnownType(reg, reg.objects[o][p].typ)
    {
      var typ := reg.objects[o][names[i]].typ;
      if IsReference(typ) {
        if Referenced(typ) !in reg.objects {
          ReferencedIs(typ, Referenced(typ));
          return Some(UnknownReference(o, names[i], Referenced(typ)));
        }
      } else if typ !in BUILTIN_TYPES && typ !in reg.types {
        NoReferenceIff(typ);
        return Some(UnknownType(o, names[i], typ));
      }
      assert names[..i + 1] == names[..i] + [names[i]];
    }
    assert names[..|names|] == names;
    return None;
  }

  method CheckObjects(reg: Registry, ids: seq<string>, properties: map<string, seq<string>>)
    returns (problem: Option<Problem>)
    requires forall o :: o in ids ==> o in reg.objects
    requires properties.Keys == reg.objects.Keys
    requires forall o :: o in reg.objects ==> Lists(properties[o], reg.objects[o].Keys)
    ensures problem == None <==>
      forall o, p :: o in ids && p in reg.objects[o] ==> KnownType(reg, reg.objects[o][p].typ)
    ensures problem.Some? ==> IsProblem(reg, problem.value)
  {
    for i := 0 to |ids|
      invariant forall o, p :: o in ids[..i] && p in reg.objects[o] ==> KnownType(reg, reg.objects[o][p].typ)
    {
      problem := CheckProperties(reg, ids[i], properties[ids[i]]);
      if problem != None {
        return;
      }
      assert ids[..i + 1] == ids[..i] + [ids[i]];
    }
    assert ids[..|ids|] == ids;
    return None;
  }

  method CheckBehavior(reg: Registry, b: string) returns (problem: Option<Problem>)
    requires b in reg.behaviors
    ensures problem == None <==> ValidBehavior(reg, reg.behaviors[b])
    ensures problem.Some? ==> IsProblem(reg, problem.value)
  {
    var behavior := reg.behaviors[b];
    if behavior.subject !in reg.objects {
      return Some(UnknownSubject(b, behavior.subject));
    }
    if behavior.stateProperty !in reg.objects[behavior.subject] {
      return Some(UnknownStateProperty(b, behavior.stateProperty));
    }
    for i := 0 to |behavior.transitions|
      invariant forall t :: t in behavior.transitions[..i] ==> t in reg.transitions
    {
      if behavior.transitions[i] !in reg.transitions {
        return Some(UnknownTransition(b, behavior.transitions[i]));
      }
    }
    return None;
  }

  method CheckTransition(reg: Registry, t: string) returns (problem: Option<Problem>)
    requires t in reg.transitions
    ensures problem == None <==> ValidTransition(reg, reg.transitions[t])
    ensures problem.Some? ==> IsProblem(reg, problem.value)
  {
    var transition := reg.transitions[t];
    if transition.behavior !in reg.behaviors {
      return Some(UnknownBehavior(t, transition.behavior));
    }
    var unknown := SortSet((transition.from + {transition.to}) - reg.behaviors[transition.behavior].states);
    if unknown != [] {
      assert unknown[0] in unknown;
      return Some(UnknownState(t, unknown[0]));
    }
    assert forall s :: s in transition.from + {transition.to} && s !in reg.behaviors[transition.behavior].states ==>
      s in unknown;
    if transition.command !in reg.commands {
      return Some(UnknownCommand(t, transition.command));
    }
    for i := 0 to |transition.emits|
      invariant forall e :: e in transition.emits[..i] ==> e in reg.events
    {
      if transition.emits[i] !in reg.events {
        return Some(UnknownEvent(t, transition.emits[i]));
      }
    }
    for i := 0 to |transition.permissions|
      invariant forall p :: p in transition.permissions[..i] ==> p in reg.permissions
    {
      if transition.permissions[i] !in reg.permissions {
        return Some(UnknownPermission(t, transition.permissions[i]));
      }
    }
    return None;
  }

  method CheckBehaviors(reg: Registry, ids: seq<string>) returns (problem: Option<Problem>)
    requires forall b :: b in ids ==> b in reg.behaviors
    ensures problem == None <==> forall b :: b in ids ==> ValidBehavior(reg, reg.behaviors[b])
    ensures problem.Some? ==> IsProblem(reg, problem.value)
  {
    for i := 0 to |ids|
      invariant forall b :: b in ids[..i] ==> ValidBehavior(reg, reg.behaviors[b])
    {
      problem := CheckBehavior(reg, ids[i]);
      if problem != None {
        return;
      }
    }
    return None;
  }

  method CheckTransitions(reg: Registry, ids: seq<string>) returns (problem: Option<Problem>)
    requires forall t :: t in ids ==> t in reg.transitions
    ensures problem == None <==> forall t :: t in ids ==> ValidTransition(reg, reg.transitions[t])
    ensures problem.Some? ==> IsProblem(reg, problem.value)
  {
    for i := 0 to |ids|
      invariant forall t :: t in ids[..i] ==> ValidTransition(reg, reg.transitions[t])
    {
      problem := CheckTransition(reg, ids[i]);
      if problem != None {
        return;
      }
    }
    return None;
  }

  ghost predicate Lists(names: seq<string>, keys: set<string>) {
    forall name :: name in names <==> name in keys
  }

  /** The validator raises exactly on registries that are not valid, and about a problem they have. */
  method Validate(reg: Registry, objects: seq<string>, properties: map<string, seq<string>>, behaviors: seq<string>,
                  transitions: seq<string>) returns (problem: Option<Problem>)
    requires Lists(objects, reg.objects.Keys) && properties.Keys == reg.objects.Keys
    requires forall o :: o in reg.objects ==> Lists(properties[o], reg.objects[o].Keys)
    requires Lists(behaviors, reg.behaviors.Keys) && Lists(transitions, reg.transitions.Keys)
    ensures problem == None <==> ValidRegistry(reg)
    ensures problem.Some? ==> IsProblem(reg, problem.value)
  {
    problem := CheckObjects(reg, objects, properties);
    if problem == None {
      problem := CheckBehaviors(reg, behaviors);
    }
    if problem == None {
      problem := CheckTransitions(reg, transitions);
    }
  }

  // ----- what a valid registry has

  lemma KnownTypeIff(reg: Registry, o: string, p: string)
    requires o in reg.objects && p in reg.objects[o]
    ensures !KnownType(reg, reg.objects[o][p].typ) <==>
      || (exists x :: IsProblem(reg, UnknownReference(o, p, x)))
      || IsProblem(reg, UnknownType(o, p, reg.objects[o][p].typ))
  {
    var typ := reg.objects[o][p].typ;
    NoReferenceIff(typ);
    forall x ensures IsReferenceTo(typ, x) <==> IsReference(typ) && Referenced(typ) == x { ReferencedIs(typ, x); }
    if IsReference(typ) {
      assert IsProblem(reg, UnknownReference(o, p, Referenced(typ))) <==> Referenced(typ) !in reg.objects;
    }
  }

  lemma ValidBehaviorIff(reg: Registry, b: string)
    requires b in reg.behaviors
    ensures !ValidBehavior(reg, reg.behaviors[b]) <==>
      || (exists o :: IsProblem(reg, UnknownSubject(b, o)))
      || (exists p :: IsProblem(reg, UnknownStateProperty(b, p)))
      || (exists t :: IsProblem(reg, UnknownTransition(b, t)))
  {
    var behavior := reg.behaviors[b];
    assert IsProblem(reg, UnknownSubject(b, behavior.subject)) <==> behavior.subject !in reg.objects;
    assert IsProblem(reg, UnknownStateProperty(b, behavior.stateProperty)) <==>
      behavior.subject in reg.objects && behavior.stateProperty !in reg.objects[behavior.subject];
    assert forall t :: t in behavior.transitions && t !in reg.transitions ==> IsProblem(reg, UnknownTransition(b, t));
  }

  lemma ValidTransitionIff(reg: Registry, t: string)
    requires t in reg.transitions
    ensures !ValidTransition(reg, reg.transitions[t]) <==>
      || (exists b :: IsProblem(reg, UnknownBehavior(t, b)))
      || (exists s :: IsProblem(reg, UnknownState(t, s)))
      || (exists c :: IsProblem(reg, UnknownCommand(t, c)))
      || (exists e :: IsProblem(reg, UnknownEvent(t, e)))
      || (exists p :: IsProblem(reg, UnknownPermission(t, p)))
  {
    var transition := reg.transitions[t];
    assert IsProblem(reg, UnknownBehavior(t, transition.behavior)) <==> transition.behavior !in reg.behaviors;
    assert IsProblem(reg, UnknownCommand(t, transition.command)) <==> transition.command !in reg.commands;
    if transition.behavior in reg.behaviors {
      forall s | s in transition.from + {transition.to} && s !in reg.behaviors[transition.behavior].states
        ensures IsProblem(reg, UnknownState(t, s))
      {
      }
    }
    assert forall e :: e in transition.emits && e !in reg.events ==> IsProblem(reg, UnknownEvent(t, e));
    assert forall p :: p in transition.permissions && p !in reg.permissions ==>
      IsProblem(reg, UnknownPermission(t, p));
  }

  /** A registry is valid exactly when it has none of the problems. */
  lemma ValidIff(reg: Registry)
    ensures ValidRegistry(reg) <==> forall d :: !IsProblem(reg, d)
  {
    forall o, p | o in reg.objects && p in reg.objects[o]
      ensures !KnownType(reg, reg.objects[o][p].typ) <==>
        || (exists x :: IsProblem(reg, UnknownReference(o, p, x)))
        || IsProblem(reg, UnknownType(o, p, reg.objects[o][p].typ))
    {
      KnownTypeIff(reg, o, p);
    }
    forall b | b in reg.behaviors && !ValidBehavior(reg, reg.behaviors[b]) ensures exists d :: IsProblem(reg, d) {
      ValidBehaviorIff(reg, b);
    }
    forall t | t in reg.transitions && !ValidTransition(reg, reg.transitions[t]) ensures exists d :: IsProblem(reg, d) {
      ValidTransitionIff(reg, t);
    }
    if d :| IsProblem(reg, d) {
      ProblemIsInvalid(reg, d);
    }
  }

  lemma ProblemIsInvalid(reg: Registry, d: Problem)
    requires IsProblem(reg, d)
    ensures !ValidRegistry(reg)
  {
    match d
    case UnknownReference(o, p, _) => KnownTypeIff(reg, o, p);
    case UnknownType(o, p, _) => KnownTypeIff(reg, o, p);
    case UnknownSubject(b, _) => ValidBehaviorIff(reg, b);
    case UnknownStateProperty(b, _) => ValidBehaviorIff(reg, b);
    case UnknownTransition(b, _) => ValidBehaviorIff(reg, b);
    case UnknownBehavior(t, _) => ValidTransitionIff(reg, t);
    case UnknownState(t, _) => ValidTransitionIff(reg, t);
    case UnknownCommand(t, _) => ValidTransitionIff(reg, t);
    case UnknownEvent(t, _) => ValidTransitionIff(reg, t);
    case UnknownPermission(t, _) => ValidTransitionIff(reg, t);
  }

  /** So along every run of a behavior's own transitions, whatever is used is declared: each state is one of the
      behavior's, each command, event and permission is known. */
  lemma RunsUseWhatIsDeclared(reg: Registry, behavior: string, allowed: set<string>, states: seq<string>,
                              taken: seq<string>, i: nat)
    requires ValidRegistry(reg) && behavior in reg.behaviors && i < |taken|
    requires forall t :: t in allowed && t in reg.transitions ==> reg.transitions[t].behavior == behavior
    requires LifecycleRun(reg, allowed, states, taken)
    ensures taken[i] in reg.transitions
    ensures var t := reg.transitions[taken[i]];
      && states[i] in reg.behaviors[behavior].states && states[i + 1] in reg.behaviors[behavior].states
      && t.command in reg.commands
      && (forall e :: e in t.emits ==> e in reg.events)
      && (forall p :: p in t.permissions ==> p in reg.permissions)
      && reg.behaviors[behavior].subject in reg.objects
      && reg.behaviors[behavior].stateProperty in reg.objects[reg.behaviors[behavior].subject]
  {
    assert ValidTransition(reg, reg.transitions[taken[i]]);
    assert ValidBehavior(reg, reg.behaviors[behavior]);
  }
}
